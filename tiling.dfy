/**
  Cutting contigs into model sequences: the length filter and the optional
  down-sample applied to the contig list, and the stride loop of
  `contig_sequences`.  The stride is given as the integer `step`, the value of
  `int(stride*seq_length)`.
 */
module Tiling {
  import opened Genome
  import opened Wrappers
  import opened Masks

  /** The windows the stride loop records on a contig ending at `ctgEnd` once
      `seq_start` has reached `pos`: it continues while `seq_end < ctg_end`. */
  function WindowsFrom(chr: string, pos: int, ctgEnd: int, seqLength: int, step: int): seq<ModelSeq>
    requires step > 0
    decreases ctgEnd - pos - seqLength
  {
    if pos + seqLength < ctgEnd then
      [ModelSeq(chr, pos, pos + seqLength)] + WindowsFrom(chr, pos + step, ctgEnd, seqLength, step)
    else
      []
  }

  /** All windows of one contig. */
  function ContigWindows(c: Contig, seqLength: int, step: int): seq<ModelSeq>
    requires step > 0
  {
    WindowsFrom(c.chr, c.start, c.end, seqLength, step)
  }

  /** The windows of a list of contigs, contig after contig. */
  function Tile(contigs: seq<Contig>, seqLength: int, step: int): seq<ModelSeq>
    requires step > 0
  {
    if contigs == [] then []
    else Tile(contigs[..|contigs| - 1], seqLength, step) + ContigWindows(contigs[|contigs| - 1], seqLength, step)
  }

  /** The window `k` steps into a span starting at `pos`. */
  function WindowAt(chr: string, pos: int, k: nat, seqLength: int, step: int): ModelSeq
  {
    ModelSeq(chr, pos + k * step, pos + k * step + seqLength)
  }

  /** The k-th window of a contig starts `k*step` after the first, is exactly
      `seqLength` long and ends strictly before the contig end; the loop stops
      at the first window that would reach the contig end, so a contig no
      longer than `seqLength` (even one of exactly that length) yields none. */
  lemma {:induction false} WindowsShape(chr: string, pos: int, ctgEnd: int, seqLength: int, step: int)
    requires step > 0
    ensures var ws := WindowsFrom(chr, pos, ctgEnd, seqLength, step);
      && (forall k :: 0 <= k < |ws| ==> ws[k] == WindowAt(chr, pos, k, seqLength, step))
      && (forall k :: 0 <= k < |ws| ==> ws[k].end < ctgEnd)
      && pos + |ws| * step + seqLength >= ctgEnd
      && (ws == [] <==> ctgEnd - pos <= seqLength)
    decreases ctgEnd - pos - seqLength
  {
    var ws := WindowsFrom(chr, pos, ctgEnd, seqLength, step);
    if pos + seqLength < ctgEnd {
      var rest := WindowsFrom(chr, pos + step, ctgEnd, seqLength, step);
      WindowsShape(chr, pos + step, ctgEnd, seqLength, step);
      forall k | 1 <= k < |ws|
        ensures ws[k] == WindowAt(chr, pos, k, seqLength, step)
      {
        assert ws[k] == rest[k - 1];
        assert pos + step + (k - 1) * step == pos + k * step;
      }
      assert pos + step + |rest| * step == pos + |ws| * step;
    }
  }

  lemma MulLess(i: int, j: int, d: int)
    requires i < j && d > 0
    ensures i * d < j * d
  {
    var e := j - i;
    assert j * d == i * d + e * d;
    assert e * d > 0;
  }

  /** Within one contig, window starts strictly increase. */
  lemma WindowsIncreasing(c: Contig, seqLength: int, step: int, i: nat, j: nat)
    requires step > 0
    requires i < j < |ContigWindows(c, seqLength, step)|
    ensures ContigWindows(c, seqLength, step)[i].start < ContigWindows(c, seqLength, step)[j].start
  {
    WindowsShape(c.chr, c.start, c.end, seqLength, step);
    MulLess(i, j, step);
  }

  /** Tiling a concatenation tiles each part in turn: windows come out grouped
      by contig, in input order. */
  lemma {:induction false} TileAppend(a: seq<Contig>, b: seq<Contig>, seqLength: int, step: int)
    requires step > 0
    ensures Tile(a + b, seqLength, step) == Tile(a, seqLength, step) + Tile(b, seqLength, step)
    decreases |b|
  {
    if b == [] {
      assert a + b == a;
    } else {
      var n := |b| - 1;
      assert (a + b)[..|a + b| - 1] == a + b[..n];
      TileAppend(a, b[..n], seqLength, step);
    }
  }

  /** Every window has the chromosome of a contig of the input, lies strictly
      inside it, is `seqLength` long and starts a whole number of steps in. */
  lemma {:induction false} TileInside(contigs: seq<Contig>, seqLength: int, step: int, w: ModelSeq)
    requires step > 0
    requires w in Tile(contigs, seqLength, step)
    ensures exists i: nat, k: nat ::
              (i < |contigs| && w == WindowAt(contigs[i].chr, contigs[i].start, k, seqLength, step)
               && w.end < contigs[i].end)
    decreases |contigs|
  {
    var n := |contigs| - 1;
    var c := contigs[n];
    if w in Tile(contigs[..n], seqLength, step) {
      TileInside(contigs[..n], seqLength, step, w);
      var i: nat, k: nat :| i < n && w == WindowAt(contigs[..n][i].chr, contigs[..n][i].start, k, seqLength, step)
        && w.end < contigs[..n][i].end;
      assert contigs[..n][i] == contigs[i];
    } else {
      var ws := ContigWindows(c, seqLength, step);
      WindowsShape(c.chr, c.start, c.end, seqLength, step);
      var k :| 0 <= k < |ws| && ws[k] == w;
      assert w == WindowAt(contigs[n].chr, contigs[n].start, k, seqLength, step);
    }
  }

  /** The stride loop of `contig_sequences`. */
  method ContigSequences(contigs: seq<Contig>, seqLength: int, step: int) returns (mseqs: seq<ModelSeq>)
    requires step > 0
    ensures mseqs == Tile(contigs, seqLength, step)
  {
    mseqs := [];
    for k := 0 to |contigs|
      invariant mseqs == Tile(contigs[..k], seqLength, step)
    {
      var ctg := contigs[k];
      var seqStart := ctg.start;
      var seqEnd := seqStart + seqLength;
      while seqEnd < ctg.end
        invariant seqEnd == seqStart + seqLength
        invariant mseqs + WindowsFrom(ctg.chr, seqStart, ctg.end, seqLength, step)
          == Tile(contigs[..k], seqLength, step) + ContigWindows(ctg, seqLength, step)
        decreases ctg.end - seqEnd
      {
        mseqs := mseqs + [ModelSeq(ctg.chr, seqStart, seqEnd)];
        seqStart := seqStart + step;
        seqEnd := seqEnd + step;
      }
      assert contigs[..k + 1][..k] == contigs[..k];
    }
    assert contigs[..|contigs|] == contigs;
  }

  /** The mask of contigs at least `seqLength` long. */
  function LongEnough(contigs: seq<Contig>, seqLength: int): (m: seq<bool>)
    ensures |m| == |contigs|
  {
    seq(|contigs|, i requires 0 <= i < |contigs| => Length(contigs[i]) >= seqLength)
  }

  /** The contigs at least `seqLength` long, in input order. */
  function LengthFilter(contigs: seq<Contig>, seqLength: int): (r: seq<Contig>)
    ensures |r| <= |contigs|
    ensures forall c :: c in r <==> c in contigs && Length(c) >= seqLength
  {
    if contigs == [] then []
    else
      var n := |contigs| - 1;
      var rest := LengthFilter(contigs[..n], seqLength);
      assert forall c :: c in contigs <==> c in contigs[..n] || c == contigs[n] by {
        assert contigs == contigs[..n] + [contigs[n]];
      }
      if Length(contigs[n]) >= seqLength then rest + [contigs[n]] else rest
  }

  /** The length filter is the selection by `LongEnough`: it keeps the long
      contigs in input order, repeats included. */
  lemma {:induction false} LengthFilterSelect(contigs: seq<Contig>, seqLength: int)
    ensures LengthFilter(contigs, seqLength) == Select(contigs, LongEnough(contigs, seqLength))
    decreases |contigs|
  {
    if contigs != [] {
      var n := |contigs| - 1;
      var m := LongEnough(contigs, seqLength);
      var last := if m[n] then [contigs[n]] else [];
      var rest := LengthFilter(contigs[..n], seqLength);
      assert LengthFilter(contigs, seqLength) == rest + last;
      assert Select(contigs, m) == Select(contigs[..n], m[..n]) + last by {
        SelectStep(contigs, m);
      }
      assert Select(contigs[..n], m[..n]) == rest by {
        assert m[..n] == LongEnough(contigs[..n], seqLength);
        LengthFilterSelect(contigs[..n], seqLength);
      }
    }
  }

  /** The length filter drops only contigs that yield no window, so it leaves
      the tiling unchanged. */
  lemma {:induction false} LengthFilterKeepsWindows(contigs: seq<Contig>, seqLength: int, step: int)
    requires step > 0
    ensures Tile(LengthFilter(contigs, seqLength), seqLength, step) == Tile(contigs, seqLength, step)
    decreases |contigs|
  {
    if contigs != [] {
      var n := |contigs| - 1;
      var c := contigs[n];
      LengthFilterKeepsWindows(contigs[..n], seqLength, step);
      WindowsShape(c.chr, c.start, c.end, seqLength, step);
      if Length(c) >= seqLength {
        var rest := LengthFilter(contigs[..n], seqLength);
        assert (rest + [c])[..|rest + [c]| - 1] == rest;
      }
    }
  }

  /** A window flush with the contig's end is not emitted: a contig exactly
      one window long yields none, and one three windows long yields two. */
  lemma TilingExample()
    ensures ContigWindows(Contig("chr1", 0, 100000), 100000, 100000) == []
    ensures ContigWindows(Contig("chr1", 0, 300000), 100000, 100000)
         == [ModelSeq("chr1", 0, 100000), ModelSeq("chr1", 100000, 200000)]
  {
    assert WindowsFrom("chr1", 200000, 300000, 100000, 100000) == [];
    assert WindowsFrom("chr1", 100000, 300000, 100000, 100000) == [ModelSeq("chr1", 100000, 200000)];
  }

  /** Python's `int()` of a float: truncation toward zero. */
  function Trunc(x: real): (n: int)
    ensures x >= 0.0 ==> n as real <= x < n as real + 1.0
    ensures x < 0.0 ==> n as real - 1.0 < x <= n as real
  {
    if x >= 0.0 then x.Floor else -((-x).Floor)
  }

  /** The down-sample: below a fraction of 1 it keeps `int(p*N)` of the
      contigs, drawn without replacement (the draw is left nondeterministic);
      a sample size below zero is refused as `random.sample` refuses it. */
  method DownSample(contigs: seq<Contig>, p: real) returns (r: Option<seq<Contig>>)
    ensures r.None? <==> p < 1.0 && p * |contigs| as real <= -1.0
    ensures r.Some? && p < 1.0 ==>
      |r.value| == Trunc(p * |contigs| as real) && multiset(r.value) <= multiset(contigs)
    ensures r.Some? && p >= 1.0 ==> r.value == contigs
  {
    if p >= 1.0 {
      r := Some(contigs);
    } else {
      var k := Trunc(p * |contigs| as real);
      if k < 0 {
        // `random.sample` refuses a negative sample size
        r := None;
      } else {
        assert k <= |contigs| by {
          assert p * |contigs| as real <= |contigs| as real;
        }
        assert multiset(contigs[..k]) <= multiset(contigs) by {
          assert contigs == contigs[..k] + contigs[k..];
        }
        var sample :| |sample| == k && multiset(sample) <= multiset(contigs);
        r := Some(sample);
      }
    }
  }
}
