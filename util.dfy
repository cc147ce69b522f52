/** Small helpers shared by every module: an optional value and a first-match search. */
module Util {

  /** A value that may be absent (JavaScript `null`/`undefined`). */
  datatype Option<T> = None | Some(value: T)

  /** Index of the first element of `s` satisfying `p`: the row a `findUnique`/`findFirst`
      query or `Array.prototype.find` returns. */
  function FindIndex<T>(s: seq<T>, p: T -> bool): (r: Option<nat>)
    ensures r.Some? ==> r.value < |s| && p(s[r.value])
  {
    if s == [] then None
    else if p(s[0]) then Some(0)
    else match FindIndex(s[1..], p)
      case None => None
      case Some(k) => Some(k + 1)
  }

  /** The search returns the first match, and finds nothing exactly when nothing matches. */
  lemma {:induction false} FindIndexFirst<T>(s: seq<T>, p: T -> bool)
    ensures FindIndex(s, p).Some? ==> forall j :: 0 <= j < FindIndex(s, p).value ==> !p(s[j])
    ensures FindIndex(s, p).None? <==> forall j :: 0 <= j < |s| ==> !p(s[j])
  {
    if s != [] && !p(s[0]) {
      FindIndexFirst(s[1..], p);
      assert forall j :: 1 <= j < |s| ==> s[j] == s[1..][j - 1];
    }
  }

  /** A first match stays the first match when an element at or after it is replaced. */
  lemma {:induction false} FindIndexAfterUpdate<T>(s: seq<T>, p: T -> bool, i: nat, x: T)
    requires FindIndex(s, p) == Some(i)
    requires p(x)
    ensures FindIndex(s[i := x], p) == Some(i)
  {
    var t := s[i := x];
    FindIndexFirst(s, p);
    FindIndexFirst(t, p);
    assert forall j :: 0 <= j < i ==> !p(t[j]);
    assert p(t[i]);
  }

  /** A search whose predicate no replaced element matches, before or after, is unaffected. */
  lemma FindIndexUnaffected<T>(s: seq<T>, p: T -> bool, i: nat, x: T)
    requires i < |s| && !p(s[i]) && !p(x)
    ensures FindIndex(s[i := x], p) == FindIndex(s, p)
  {
    var t := s[i := x];
    FindIndexFirst(s, p);
    FindIndexFirst(t, p);
    assert forall j :: 0 <= j < |s| ==> (p(t[j]) <==> p(s[j]));
  }

  /** Appending an element never changes an existing first match. */
  lemma {:induction false} FindIndexAppend<T>(s: seq<T>, p: T -> bool, x: T)
    ensures FindIndex(s, p).Some? ==> FindIndex(s + [x], p) == FindIndex(s, p)
    ensures FindIndex(s, p).None? ==> FindIndex(s + [x], p) == if p(x) then Some(|s|) else None
  {
    if s == [] {
      assert [x][1..] == [];
    } else if !p(s[0]) {
      FindIndexAppend(s[1..], p, x);
      assert (s + [x])[1..] == s[1..] + [x];
    }
  }

  /** The elements of `s` satisfying `p`, in order: a `findMany` with a `where` clause. */
  function Filter<T(!new)>(s: seq<T>, p: T -> bool): (r: seq<T>)
    ensures |r| <= |s|
    ensures forall x :: x in r <==> x in s && p(x)
    ensures multiset(r) <= multiset(s)
  {
    if s == [] then []
    else
      assert s == [s[0]] + s[1..];
      (if p(s[0]) then [s[0]] else []) + Filter(s[1..], p)
  }

  /** JavaScript truthiness of a string field of a request body: present and not empty. */
  predicate Present(o: Option<string>) {
    o.Some? && o.value != ""
  }

  /** JavaScript truthiness of a numeric field of a request body: present and not zero. */
  predicate PresentAmount(o: Option<real>) {
    o.Some? && o.value != 0.0
  }
}
