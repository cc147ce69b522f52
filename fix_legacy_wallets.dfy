/** fixLegacyWallets.js: the mock address format per currency and the one-off migration
    that gives every wallet with a missing or UUID-shaped address a generated one. The 20
    random bytes of each generated address are an input. */
module FixLegacyWallets {
  import opened Util
  import opened Strings
  import opened Db

  /** A wallet row as the migration reads it; only `address` is ever rewritten. */
  datatype WalletRow = WalletRow(id: Id, user: Id, currency: Currency, balance: real, address: Option<string>)

  /** The mock prefix of each currency's address format. */
  function AddressPrefix(currency: Currency): (p: string)
    ensures |p| <= 2 && '-' !in p
  {
    match currency
    case "BTC" => "1"
    case "ETH" => "0x"
    case "USDT" => "0x"
    case "BNB" => "0x"
    case "TRX" => "T"
    case _ => ""
  }

  /** generateWalletAddress with the draw of `crypto.randomBytes(20)`. */
  function GenerateWalletAddress(currency: Currency, random: seq<Byte>): string
    requires |random| == 20
  {
    AddressPrefix(currency) + Hex(random)
  }

  /** The migration's test: no address, an empty one, or 36 characters with a '-' in them
      (the shape of the schema's default UUID). */
  predicate IsLegacy(address: Option<string>) {
    !Present(address) || (|address.value| == 36 && Includes(address.value, "-"))
  }

  /** One wallet after the loop's body, with its own random bytes. */
  function Migrate(w: WalletRow, random: seq<Byte>): WalletRow
    requires |random| == 20
  {
    if IsLegacy(w.address) then w.(address := Some(GenerateWalletAddress(w.currency, random))) else w
  }

  /** The random draws for a whole table: 20 bytes per wallet. */
  predicate Entropy(ws: seq<WalletRow>, entropy: seq<seq<Byte>>) {
    |entropy| == |ws| && forall i :: 0 <= i < |entropy| ==> |entropy[i]| == 20
  }

  /** The table after the migration. */
  function Migrated(ws: seq<WalletRow>, entropy: seq<seq<Byte>>): seq<WalletRow>
    requires Entropy(ws, entropy)
  {
    seq(|ws|, i requires 0 <= i < |ws| => Migrate(ws[i], entropy[i]))
  }

  /** The number of legacy wallets, counted front to back as the loop does. */
  function LegacyCount(ws: seq<WalletRow>): nat {
    if ws == [] then 0 else LegacyCount(ws[..|ws| - 1]) + (if IsLegacy(ws[|ws| - 1].address) then 1 else 0)
  }

  /** The positions of the legacy wallets (reference definition for the count). */
  function LegacyPositions(ws: seq<WalletRow>): set<nat> {
    set i: nat | i < |ws| && IsLegacy(ws[i].address)
  }

  /** assignAddressesToLegacyWallets: rewrites the address of every legacy wallet in place
      and counts the updates. */
  method AssignAddressesToLegacyWallets(wallets: array<WalletRow>, entropy: seq<seq<Byte>>) returns (updatedCount: nat)
    requires Entropy(wallets[..], entropy)
    modifies wallets
    ensures wallets[..] == Migrated(old(wallets[..]), entropy)
    ensures updatedCount == LegacyCount(old(wallets[..]))
  {
    updatedCount := 0;
    for i := 0 to wallets.Length
      invariant forall k :: 0 <= k < i ==> wallets[k] == Migrate(old(wallets[k]), entropy[k])
      invariant forall k :: i <= k < wallets.Length ==> wallets[k] == old(wallets[k])
      invariant updatedCount == LegacyCount(old(wallets[..])[..i])
    {
      var wallet := wallets[i];
      assert old(wallets[..])[..i + 1][..i] == old(wallets[..])[..i];
      if IsLegacy(wallet.address) {
        var newAddress := GenerateWalletAddress(wallet.currency, entropy[i]);
        wallets[i] := wallet.(address := Some(newAddress));
        updatedCount := updatedCount + 1;
      }
      assert wallets[i] == Migrate(wallet, entropy[i]);
    }
    assert old(wallets[..])[..wallets.Length] == old(wallets[..]);
  }

  /** The unanchored `includes('-')` is a test for the character '-'. */
  lemma {:induction false} IncludesDash(s: string)
    ensures Includes(s, "-") <==> '-' in s
  {
    IncludesIffOccurs(s, "-");
    if '-' in s {
      var i :| 0 <= i < |s| && s[i] == '-';
      assert s[i..i + 1] == "-";
      assert OccursAt(s, "-", i);
    }
    if Occurs(s, "-") {
      var i :| OccursAt(s, "-", i);
      assert s[i] == s[i..i + 1][0];
    }
  }

  /** A wallet is legacy exactly when its address is null, empty, or 36 characters long
      with a '-' among them. */
  lemma IsLegacyIff(address: Option<string>)
    ensures IsLegacy(address) <==> address.None? || address.value == "" || (|address.value| == 36 && '-' in address.value)
  {
    if address.Some? {
      IncludesDash(address.value);
    }
  }

  /** A generated address is the currency's prefix ("1" for BTC; "0x" for ETH, USDT and BNB;
      "T" for TRX; none otherwise) followed by 40 lower-case hex digits that read back as the
      20 random bytes; it is 40 to 42 characters long and has no '-'. */
  lemma GeneratedAddressShape(currency: Currency, random: seq<Byte>)
    requires |random| == 20
    ensures var a := GenerateWalletAddress(currency, random);
            var p := AddressPrefix(currency);
            && StartsWith(a, p)
            && |a| == |p| + 40 && 40 <= |a| <= 42
            && (forall i :: |p| <= i < |a| ==> IsHexDigit(a[i]))
            && Unhex(a[|p|..]) == random
            && '-' !in a
  {
    var a := GenerateWalletAddress(currency, random);
    var p := AddressPrefix(currency);
    assert a[|p|..] == Hex(random);
    UnhexHex(random);
    forall i | 0 <= i < |a| ensures a[i] != '-' {
      if i >= |p| {
        assert a[i] == Hex(random)[i - |p|];
      } else {
        assert a[i] in p;
      }
    }
  }

  /** A generated address is never legacy. */
  lemma GeneratedNotLegacy(currency: Currency, random: seq<Byte>)
    requires |random| == 20
    ensures !IsLegacy(Some(GenerateWalletAddress(currency, random)))
  {
    GeneratedAddressShape(currency, random);
  }

  /** The migration rewrites exactly the legacy wallets, only in their address, and leaves
      no legacy wallet behind. */
  lemma MigratedWallets(ws: seq<WalletRow>, entropy: seq<seq<Byte>>)
    requires Entropy(ws, entropy)
    ensures var ws' := Migrated(ws, entropy);
            && |ws'| == |ws|
            && (forall i :: 0 <= i < |ws| ==> ws'[i] == ws[i].(address := ws'[i].address))
            && (forall i :: 0 <= i < |ws| && !IsLegacy(ws[i].address) ==> ws'[i] == ws[i])
            && (forall i :: 0 <= i < |ws| && IsLegacy(ws[i].address) ==>
                  ws'[i].address == Some(GenerateWalletAddress(ws[i].currency, entropy[i])))
            && (forall i :: 0 <= i < |ws| ==> !IsLegacy(ws'[i].address))
  {
    forall i | 0 <= i < |ws| && IsLegacy(ws[i].address) {
      GeneratedNotLegacy(ws[i].currency, entropy[i]);
    }
  }

  /** Without legacy wallets the migration changes nothing and counts nothing. */
  lemma {:induction false} NoLegacyNoChange(ws: seq<WalletRow>, entropy: seq<seq<Byte>>)
    requires Entropy(ws, entropy)
    requires forall i :: 0 <= i < |ws| ==> !IsLegacy(ws[i].address)
    ensures Migrated(ws, entropy) == ws
    ensures LegacyCount(ws) == 0
  {
    if ws != [] {
      NoLegacyNoChange(ws[..|ws| - 1], entropy[..|ws| - 1]);
    }
  }

  /** Running the migration a second time, whatever the new draws, updates nothing. */
  lemma MigrationIdempotent(ws: seq<WalletRow>, entropy: seq<seq<Byte>>, entropy': seq<seq<Byte>>)
    requires Entropy(ws, entropy) && Entropy(ws, entropy')
    ensures Migrated(Migrated(ws, entropy), entropy') == Migrated(ws, entropy)
    ensures LegacyCount(Migrated(ws, entropy)) == 0
  {
    MigratedWallets(ws, entropy);
    NoLegacyNoChange(Migrated(ws, entropy), entropy');
  }

  /** The reported count is the number of legacy wallets in the table. */
  lemma {:induction false} LegacyCountCounts(ws: seq<WalletRow>)
    ensures LegacyCount(ws) == |LegacyPositions(ws)|
  {
    if ws != [] {
      var n := |ws| - 1;
      LegacyCountCounts(ws[..n]);
      assert LegacyPositions(ws) == LegacyPositions(ws[..n]) + (if IsLegacy(ws[n].address) then {n} else {});
    }
  }
}
