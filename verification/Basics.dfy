/** Option and Result, and ascending selections of indices. */
module Basics {

  datatype Option<+T> = None | Some(value: T)

  datatype Result<+T, +E> = Ok(value: T) | Err(error: E)

  ghost predicate Ascending(s: seq<nat>) {
    forall a, b :: 0 <= a < b < |s| ==> s[a] < s[b]
  }

  /** The indices below n that satisfy p, in ascending order. */
  ghost function Select(p: nat -> bool, n: nat): (r: seq<nat>)
    ensures Ascending(r)
    ensures forall x: nat :: x in r <==> x < n && p(x)
  {
    if n == 0 then [] else
    var rest := Select(p, n - 1);
    assert forall a :: 0 <= a < |rest| ==> rest[a] in rest;
    if p(n - 1) then rest + [n - 1] else rest
  }

  lemma SelectInRange(p: nat -> bool, n: nat)
    ensures forall k :: 0 <= k < |Select(p, n)| ==> Select(p, n)[k] < n && p(Select(p, n)[k])
  {
    var r := Select(p, n);
    forall k | 0 <= k < |r| ensures r[k] < n && p(r[k]) { assert r[k] in r; }
  }

  lemma HeadIsLeast(s: seq<nat>, x: nat)
    requires Ascending(s) && x in s
    ensures s[0] <= x
  {
    var k :| 0 <= k < |s| && s[k] == x;
    assert k == 0 || s[0] < s[k];
  }

  lemma {:induction false} AscendingIsDetermined(s: seq<nat>, t: seq<nat>)
    requires Ascending(s) && Ascending(t)
    requires forall x: nat :: x in s <==> x in t
    ensures s == t
  {
    assert |t| > 0 ==> t[0] in s;
    assert |s| > 0 ==> s[0] in t;
    if s == [] {
    } else {
      assert s[0] == t[0];
      forall x: nat ensures x in s[1..] <==> x in t[1..] {
        assert x in s[1..] <==> x in s && x != s[0] by { assert s == [s[0]] + s[1..]; }
        assert x in t[1..] <==> x in t && x != t[0] by { assert t == [t[0]] + t[1..]; }
      }
      AscendingIsDetermined(s[1..], t[1..]);
      assert s == [s[0]] + s[1..] && t == [t[0]] + t[1..];
    }
  }

  lemma {:induction false} SelectCongruent(p: nat -> bool, q: nat -> bool, n: nat)
    requires forall x: nat :: x < n ==> p(x) == q(x)
    ensures Select(p, n) == Select(q, n)
  {
    if n > 0 { SelectCongruent(p, q, n - 1); }
  }

  /** At most n indices are selected below n, and fewer if one of them is not. */
  lemma {:induction false} SelectLength(p: nat -> bool, n: nat)
    ensures |Select(p, n)| <= n
  {
    if n > 0 { SelectLength(p, n - 1); }
  }

  lemma {:induction false} SelectOmits(p: nat -> bool, n: nat, x: nat)
    requires x < n && !p(x)
    ensures |Select(p, n)| < n
  {
    if x < n - 1 { SelectOmits(p, n - 1, x); } else { SelectLength(p, n - 1); }
  }
}
