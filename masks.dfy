/**
  Boolean masks over sequences: counting the kept entries, selecting the kept
  elements (numpy's `a[mask]` and the list comprehensions
  `[x[i] for i in range(n) if mask[i]]`), and the rank of a kept index, i.e.
  its position among the kept ones (`mask[:i].sum()`).
 */
module Masks {

  /** Number of `true` entries of `m`. */
  function CountTrue(m: seq<bool>): (n: nat)
    ensures n <= |m|
    ensures n == 0 <== (forall i :: 0 <= i < |m| ==> !m[i])
    ensures n == |m| <== (forall i :: 0 <= i < |m| ==> m[i])
  {
    if m == [] then 0 else CountTrue(m[..|m| - 1]) + (if m[|m| - 1] then 1 else 0)
  }

  /** Position of index `i` among the kept indices: the kept entries before it. */
  function Rank(m: seq<bool>, i: nat): nat
    requires i <= |m|
  {
    CountTrue(m[..i])
  }

  /** The elements of `s` whose mask entry is `true`, in their original order. */
  function Select<T>(s: seq<T>, m: seq<bool>): (r: seq<T>)
    requires |s| == |m|
    ensures |r| == CountTrue(m)
  {
    if s == [] then []
    else Select(s[..|s| - 1], m[..|m| - 1]) + (if m[|m| - 1] then [s[|s| - 1]] else [])
  }

  lemma RankStep(m: seq<bool>, i: nat)
    requires i < |m|
    ensures Rank(m, i + 1) == Rank(m, i) + (if m[i] then 1 else 0)
  {
    assert m[..i + 1][..i] == m[..i];
  }

  /** Counting a prefix never gives more than counting a longer prefix. */
  lemma {:induction false} RankMonotone(m: seq<bool>, i: nat, j: nat)
    requires i <= j <= |m|
    ensures Rank(m, i) <= Rank(m, j)
    decreases j - i
  {
    if i < j {
      RankStep(m, j - 1);
      RankMonotone(m, i, j - 1);
    }
  }

  /** Kept indices get strictly increasing ranks, all below the number kept. */
  lemma RankOfKept(m: seq<bool>, i: nat, j: nat)
    requires i < j < |m| && m[i]
    ensures Rank(m, i) < Rank(m, j)
  {
    RankStep(m, i);
    RankMonotone(m, i + 1, j);
  }

  lemma RankBelowCount(m: seq<bool>, i: nat)
    requires i < |m| && m[i]
    ensures Rank(m, i) < CountTrue(m)
  {
    RankStep(m, i);
    RankMonotone(m, i + 1, |m|);
    assert m[..|m|] == m;
  }

  /** One step of `Select` and `CountTrue` from the end. */
  lemma SelectStep<T>(s: seq<T>, m: seq<bool>)
    requires |s| == |m| > 0
    ensures Select(s, m) == Select(s[..|s| - 1], m[..|m| - 1]) + (if m[|m| - 1] then [s[|s| - 1]] else [])
    ensures CountTrue(m) == CountTrue(m[..|m| - 1]) + (if m[|m| - 1] then 1 else 0)
  {
  }

  /** A kept element lands at its rank in the selection. */
  lemma {:induction false} SelectAt<T>(s: seq<T>, m: seq<bool>, i: nat)
    requires |s| == |m| && i < |m| && m[i]
    ensures Rank(m, i) < |Select(s, m)| && Select(s, m)[Rank(m, i)] == s[i]
    decreases |s|
  {
    RankBelowCount(m, i);
    var n := |s| - 1;
    var s', m' := s[..n], m[..n];
    SelectStep(s, m);
    if i < n {
      assert m'[..i] == m[..i];
      SelectAt(s', m', i);
      assert Select(s, m)[Rank(m, i)] == Select(s', m')[Rank(m', i)];
    } else {
      assert m' == m[..i];
    }
  }

  /** Every position of the selection is the rank of exactly one kept index. */
  lemma {:induction false} SelectFrom<T>(s: seq<T>, m: seq<bool>, k: nat)
    requires |s| == |m| && k < CountTrue(m)
    ensures exists i :: 0 <= i < |m| && m[i] && Rank(m, i) == k && Select(s, m)[k] == s[i]
    decreases |s|
  {
    var n := |s| - 1;
    var s', m' := s[..n], m[..n];
    SelectStep(s, m);
    if k < CountTrue(m') {
      SelectFrom(s', m', k);
      var i :| 0 <= i < n && m'[i] && Rank(m', i) == k && Select(s', m')[k] == s'[i];
      assert m'[..i] == m[..i];
      assert Select(s, m)[k] == Select(s', m')[k];
      assert m[i] && Rank(m, i) == k && Select(s, m)[k] == s[i];
    } else {
      assert m[n] && Rank(m, n) == k;
      assert Select(s, m)[k] == s[n];
    }
  }

  /** Membership in a selection: exactly the elements at kept positions. */
  lemma SelectMembers<T>(s: seq<T>, m: seq<bool>, x: T)
    requires |s| == |m|
    ensures x in Select(s, m) <==> exists i :: 0 <= i < |s| && m[i] && s[i] == x
  {
    if x in Select(s, m) {
      var k :| 0 <= k < |Select(s, m)| && Select(s, m)[k] == x;
      SelectFrom(s, m, k);
    }
    if i :| 0 <= i < |s| && m[i] && s[i] == x {
      SelectAt(s, m, i);
    }
  }

  /** A mask with no kept position counts none. */
  lemma {:induction false} CountTrueNone(m: seq<bool>)
    requires forall i :: 0 <= i < |m| ==> !m[i]
    ensures CountTrue(m) == 0
  {
    if m != [] {
      CountTrueNone(m[..|m| - 1]);
    }
  }

  /** A mask with every position kept counts them all. */
  lemma {:induction false} CountTrueAll(m: seq<bool>)
    requires forall i :: 0 <= i < |m| ==> m[i]
    ensures CountTrue(m) == |m|
  {
    if m != [] {
      CountTrueAll(m[..|m| - 1]);
    }
  }
}
