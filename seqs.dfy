/** Facts about the worklists the traversals keep as sequences. */
module Seqs {

  /** No element occurs twice. */
  predicate Distinct(s: seq<nat>)
  {
    forall i, j :: 0 <= i < j < |s| ==> s[i] != s[j]
  }

  /** The set of elements of `s`. */
  function Elements(s: seq<nat>): (r: set<nat>)
    ensures forall x :: x in r <==> x in s
  {
    set x | x in s
  }

  /** A sequence without duplicates has as many elements as its length. */
  lemma {:induction false} DistinctCardinality(s: seq<nat>)
    requires Distinct(s)
    ensures |Elements(s)| == |s|
  {
    if s != [] {
      var t := s[..|s| - 1];
      assert Distinct(t);
      DistinctCardinality(t);
      assert s == t + [s[|s| - 1]];
      assert Elements(s) == Elements(t) + {s[|s| - 1]};
    }
  }

  /** `s.indexOf(x)`: the position of the first occurrence of `x`, or -1 when
      `x` does not occur. */
  function IndexOf(s: seq<nat>, x: nat): (i: int)
    ensures -1 <= i
    ensures i == -1 <==> x !in s
    ensures 0 <= i ==> i < |s| && s[i] == x && forall j :: 0 <= j < i ==> s[j] != x
  {
    if s == [] then -1
    else if s[0] == x then 0
    else
      var i := IndexOf(s[1..], x);
      if i == -1 then -1 else 1 + i
  }

  /** `s` with the element at index `i` removed (`splice(i, 1)`). */
  function RemoveAt(s: seq<nat>, i: nat): (r: seq<nat>)
    requires i < |s|
    ensures |r| == |s| - 1
    ensures forall j :: 0 <= j < i ==> r[j] == s[j]
    ensures forall j :: i <= j < |r| ==> r[j] == s[j + 1]
  {
    s[..i] + s[i + 1..]
  }

  /** Removing one position from a sequence without duplicates removes exactly
      that element and keeps the sequence free of duplicates. */
  lemma {:induction false} RemoveAtDistinct(s: seq<nat>, i: nat)
    requires i < |s| && Distinct(s)
    ensures Distinct(RemoveAt(s, i))
    ensures forall x :: x in RemoveAt(s, i) <==> x in s && x != s[i]
  {
    var r := RemoveAt(s, i);
    forall x ensures x in r <==> x in s && x != s[i] {
      if x in r {
        var j :| 0 <= j < |r| && r[j] == x;
        if j < i {
          assert s[j] == x;
        } else {
          assert s[j + 1] == x;
        }
      }
      if x in s && x != s[i] {
        var k :| 0 <= k < |s| && s[k] == x;
        if k < i {
          assert r[k] == x;
        } else {
          assert r[k - 1] == x;
        }
      }
    }
  }

  /** `s.splice(i)` with no delete count: every element from index `i` on is
      removed, not just the one at `i`. */
  function SpliceFrom(s: seq<nat>, i: nat): (r: seq<nat>)
    requires i <= |s|
    ensures |r| == i
    ensures forall j :: 0 <= j < i ==> r[j] == s[j]
  {
    s[..i]
  }

  /** Unless the element at `i` is the last one, `splice(i)` also drops the
      elements after it, which removing one position keeps. */
  lemma {:induction false} SpliceFromDropsRest(s: seq<nat>, i: nat)
    requires Distinct(s) && i + 1 < |s|
    ensures s[i + 1] !in SpliceFrom(s, i)
    ensures s[i + 1] in RemoveAt(s, i)
  {
    forall j | 0 <= j < i ensures SpliceFrom(s, i)[j] != s[i + 1] {
      assert SpliceFrom(s, i)[j] == s[j];
    }
    assert RemoveAt(s, i)[i] == s[i + 1];
  }

  /** Concatenating two sequences without duplicates and without a common
      element gives a sequence without duplicates, and conversely. */
  lemma {:induction false} DistinctConcat(a: seq<nat>, b: seq<nat>)
    ensures Distinct(a + b) <==> Distinct(a) && Distinct(b) && forall x :: x in a ==> x !in b
  {
    var c := a + b;
    if Distinct(c) {
      forall i, j | 0 <= i < j < |a| ensures a[i] != a[j] {
        assert a[i] == c[i] && a[j] == c[j];
      }
      forall i, j | 0 <= i < j < |b| ensures b[i] != b[j] {
        assert b[i] == c[|a| + i] && b[j] == c[|a| + j];
      }
      forall x | x in a ensures x !in b {
        var i :| 0 <= i < |a| && a[i] == x;
        assert c[i] == x;
        assert forall j :: 0 <= j < |b| ==> b[j] == c[|a| + j];
      }
    }
    if Distinct(a) && Distinct(b) && forall x :: x in a ==> x !in b {
      forall i, j | 0 <= i < j < |c| ensures c[i] != c[j] {
        if j < |a| {
          assert c[i] == a[i] && c[j] == a[j];
        } else if i >= |a| {
          assert c[i] == b[i - |a|] && c[j] == b[j - |a|];
        } else {
          assert c[i] == a[i] && c[j] == b[j - |a|];
          assert a[i] in a && b[j - |a|] in b;
        }
      }
    }
  }
}
