/**
  The genomic records the data-preparation pipeline passes between its
  stages: contigs (gap-free spans of a chromosome), model sequences (the
  fixed-length windows cut from them) and the three dataset splits.
  Coordinates are half-open, `[start, end)`.
 */
module Genome {

  datatype Contig = Contig(chr: string, start: int, end: int)

  datatype ModelSeq = ModelSeq(chr: string, start: int, end: int)

  datatype Split = Train | Valid | Test

  /** Nucleotides covered by a contig (`ctg.end - ctg.start`). */
  function Length(c: Contig): int
  {
    c.end - c.start
  }

  /** Summed lengths of a list of contigs. */
  function TotalLength(cs: seq<Contig>): int
  {
    if cs == [] then 0 else TotalLength(cs[..|cs| - 1]) + Length(cs[|cs| - 1])
  }

  lemma {:induction false} TotalLengthAppend(a: seq<Contig>, b: seq<Contig>)
    ensures TotalLength(a + b) == TotalLength(a) + TotalLength(b)
    decreases |b|
  {
    if b == [] {
      assert a + b == a;
    } else {
      var n := |b| - 1;
      assert (a + b)[..|a + b| - 1] == a + b[..n];
      TotalLengthAppend(a, b[..n]);
    }
  }

  /** Removing one occurrence of an element takes its length off the total. */
  lemma {:induction false} TotalLengthRemove(s: seq<Contig>, i: nat)
    requires i < |s|
    ensures TotalLength(s) == TotalLength(s[..i] + s[i + 1..]) + Length(s[i])
  {
    TotalLengthAppend(s[..i], s[i..]);
    TotalLengthAppend(s[..i], s[i + 1..]);
    assert s[i..] == [s[i]] + s[i + 1..];
    TotalLengthAppend([s[i]], s[i + 1..]);
    assert [s[i]][..0] == [];
    assert s == s[..i] + s[i..];
  }

  /** The total length depends only on the multiset of contigs. */
  lemma {:induction false} TotalLengthPermutation(a: seq<Contig>, b: seq<Contig>)
    requires multiset(a) == multiset(b)
    ensures TotalLength(a) == TotalLength(b)
    decreases |a|
  {
    if a != [] {
      var n := |a| - 1;
      var x := a[n];
      assert x in multiset(b);
      var i :| 0 <= i < |b| && b[i] == x;
      var b' := b[..i] + b[i + 1..];
      assert multiset(b) == multiset(b') + multiset{x} by {
        assert b == b[..i] + [x] + b[i + 1..];
      }
      assert multiset(a) == multiset(a[..n]) + multiset{x} by {
        assert a == a[..n] + [x];
      }
      assert multiset(a[..n]) == multiset(a) - multiset{x};
      assert multiset(b') == multiset(b) - multiset{x};
      TotalLengthPermutation(a[..n], b');
      TotalLengthRemove(b, i);
    } else {
      assert |b| == |multiset(b)| == 0;
    }
  }
}
