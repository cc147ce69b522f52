/** utils/generateToken.js: the referral-code builder. The JWT signers in the same file
    are not part of this model. */
module GenerateToken {
  import opened Strings

  /** `Math.floor(u * 10000)` for a draw `u` of `Math.random()`, which lies in [0, 1). */
  function RandomSuffix(u: real): (n: nat)
    requires 0.0 <= u < 1.0
    ensures n <= 9999
    ensures n as real <= u * 10000.0 < n as real + 1.0
  {
    (u * 10000.0).Floor
  }

  /** `name.substring(0, 3)`: at most the first three characters. */
  function NamePrefix(name: string): (p: string)
    ensures |p| == if |name| < 3 then |name| else 3
    ensures p <= name
  {
    if |name| < 3 then name else name[..3]
  }

  /** generateReferralCode with the integer drawn: the upper-cased first three characters of
      the name followed by the decimal form of the integer, without padding. */
  function ReferralCode(name: string, n: nat): string {
    Upper(NamePrefix(name)) + Decimal(n)
  }

  /** generateReferralCode for the draw `u`. */
  function GenerateReferralCode(name: string, u: real): string
    requires 0.0 <= u < 1.0
  {
    ReferralCode(name, RandomSuffix(u))
  }

  /** The code starts with the first min(3, |name|) characters of the name, upper-cased, and
      the rest is the decimal number, which reads back as the drawn integer. */
  lemma ReferralCodeParts(name: string, n: nat)
    ensures var code := ReferralCode(name, n);
            var k := if |name| < 3 then |name| else 3;
            && k <= |code|
            && (forall i :: 0 <= i < k ==> code[i] == UpperChar(name[i]))
            && (forall i :: k <= i < |code| ==> IsDigit(code[i]))
            && DecimalValue(code[k..]) == n
  {
    var k := if |name| < 3 then |name| else 3;
    var code := ReferralCode(name, n);
    assert code[k..] == Decimal(n);
    DecimalRoundTrip(n);
  }

  /** The suffix is not zero-padded: the code is as long as the prefix plus the number of
      digits of the integer, so at most seven characters; only the integer 0 gives a suffix
      starting with '0'. */
  lemma ReferralCodeLength(name: string, u: real)
    requires 0.0 <= u < 1.0
    ensures var n := RandomSuffix(u);
            var code := GenerateReferralCode(name, u);
            var k := if |name| < 3 then |name| else 3;
            && |code| == k + DigitCount(n)
            && |code| <= k + 4
            && (code[k] == '0' ==> n == 0)
  {
    var n := RandomSuffix(u);
    DecimalLength(n);
    assert Pow10(4) == 10000;
    DigitCountAtMost(n, 4);
  }

  /** The code depends only on the first three characters of the name and the integer, and
      two different integers never give the same code for the same name. */
  lemma ReferralCodeDeterminedBy(name: string, name': string, n: nat, m: nat)
    ensures NamePrefix(name) == NamePrefix(name') ==> ReferralCode(name, n) == ReferralCode(name', n)
    ensures ReferralCode(name, n) == ReferralCode(name, m) ==> n == m
  {
    ReferralCodeParts(name, n);
    ReferralCodeParts(name, m);
  }

  /** The code ignores the case of the name: a name and its lower-cased form give the same
      code for the same integer. */
  lemma ReferralCodeIgnoresCase(name: string, n: nat)
    ensures ReferralCode(Lower(name), n) == ReferralCode(name, n)
  {
  }
}
