/** Sequence facts shared by the ledger: Python lists used as ordered sets,
    occurrence counts, deletion of one key, and "keeps the order of". */
module Seqs {

  /** No element occurs twice: a list used as an ordered set. */
  predicate Distinct<T(==)>(s: seq<T>) {
    forall i, j :: 0 <= i < j < |s| ==> s[i] != s[j]
  }

  /** Number of occurrences of `x` in `s`. */
  function Count<T(==)>(s: seq<T>, x: T): (n: nat)
    ensures n <= |s|
    ensures n > 0 <==> x in s
  {
    if s == [] then 0
    else
      assert s == s[..|s| - 1] + [s[|s| - 1]];
      Count(s[..|s| - 1], x) + (if s[|s| - 1] == x then 1 else 0)
  }

  /** Counting in a list grown by one element. */
  lemma {:induction false} CountSnoc<T>(s: seq<T>, y: T, x: T)
    ensures Count(s + [y], x) == Count(s, x) + (if y == x then 1 else 0)
  {
    assert (s + [y])[..|s|] == s;
  }

  /** In an ordered set every member occurs exactly once. */
  lemma {:induction false} CountDistinct<T>(s: seq<T>, x: T)
    requires Distinct(s)
    ensures Count(s, x) == if x in s then 1 else 0
  {
    if s != [] {
      var p := s[..|s| - 1];
      assert s == p + [s[|s| - 1]];
      assert Distinct(p);
      CountDistinct(p, x);
      if s[|s| - 1] == x {
        assert x !in p;
      }
    }
  }

  /** `x` occurs before `y` in `s`. */
  ghost predicate Precedes<T>(s: seq<T>, x: T, y: T) {
    exists i, j :: 0 <= i < j < |s| && s[i] == x && s[j] == y
  }

  /** Every pair of elements of `r` appears in `s` in the same order. */
  ghost predicate OrderedIn<T>(r: seq<T>, s: seq<T>) {
    forall i, j :: 0 <= i < j < |r| ==> Precedes(s, r[i], r[j])
  }

  /** Appending to `s` keeps the order `r` had in it, and appending the same
      element to both keeps `r` ordered in `s`. */
  lemma {:induction false} OrderedSnoc<T>(r: seq<T>, p: seq<T>, y: T)
    requires OrderedIn(r, p)
    requires forall x :: x in r ==> x in p
    ensures OrderedIn(r, p + [y])
    ensures OrderedIn(r + [y], p + [y])
  {
    var s := p + [y];
    forall i, j | 0 <= i < j < |r| ensures Precedes(s, r[i], r[j]) {
      assert Precedes(p, r[i], r[j]);
      var i', j' :| 0 <= i' < j' < |p| && p[i'] == r[i] && p[j'] == r[j];
      assert s[i'] == r[i] && s[j'] == r[j];
    }
    var t := r + [y];
    forall i, j | 0 <= i < j < |t| ensures Precedes(s, t[i], t[j]) {
      if j < |r| {
        assert t[i] == r[i] && t[j] == r[j];
      } else {
        assert t[i] == r[i] && r[i] in p;
        var k :| 0 <= k < |p| && p[k] == r[i];
        assert s[k] == t[i] && s[|p|] == t[j];
      }
    }
  }

  /** `s` without any occurrence of `x`, the rest in its original order:
      Python's `del d[x]` seen on the key order of a dict. */
  function Remove<T(==,!new)>(s: seq<T>, x: T): (r: seq<T>)
    ensures forall y :: y in r <==> y in s && y != x
    ensures |r| == |s| - Count(s, x)
    ensures Distinct(s) ==> Distinct(r)
  {
    if s == [] then []
    else
      var p := s[..|s| - 1];
      var last := s[|s| - 1];
      assert s == p + [last];
      var rest := Remove(p, x);
      assert Distinct(s) ==> Distinct(p) && last !in p;
      if last == x then rest else rest + [last]
  }

  lemma {:induction false} RemoveOrdered<T(!new)>(s: seq<T>, x: T)
    ensures OrderedIn(Remove(s, x), s)
  {
    if s != [] {
      var p := s[..|s| - 1];
      var last := s[|s| - 1];
      assert s == p + [last];
      RemoveOrdered(p, x);
      OrderedSnoc(Remove(p, x), p, last);
    }
  }
}
