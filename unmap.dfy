/**
  Marking unmappable positions (`annotate_unmap`) and dropping the windows
  that are too unmappable (the filter in `main`).  Each window of
  `seq_length` nucleotides is pooled into `seq_length // pool_width` bins;
  every overlap between a window and an unmappable region, as reported by
  `bedtools intersect -wo`, marks a run of bins in that window's row of a
  boolean matrix, leaving out an edge bin the overlap covers by less than a
  fifth of `pool_width`.
 */
module Unmap {
  import opened Genome
  import opened Masks
  import opened Wrappers
  import opened Arith

  /** One output line of `bedtools intersect -wo`: a window and an unmappable
      region that overlaps it. */
  datatype Overlap = Overlap(
    seqChr: string, seqStart: int, seqEnd: int,
    unmapChr: string, unmapStart: int, unmapEnd: int)

  /** The two assertions `annotate_unmap` makes on each line. */
  datatype UnmapError =
    | NotChrName      // the unmappable region's chromosome does not start with "chr"
    | CountMismatch   // the marked slice does not hold `end - start` true bins

  /** A window is looked up by its chromosome and start. */
  type WindowKey = (string, int)

  function KeyOf(o: Overlap): WindowKey
  {
    (o.seqChr, o.seqStart)
  }

  function WindowKeyOf(m: ModelSeq): WindowKey
  {
    (m.chr, m.start)
  }

  function OverlapStart(o: Overlap): int
  {
    Max(o.seqStart, o.unmapStart)
  }

  function OverlapEnd(o: Overlap): int
  {
    Min(o.seqEnd, o.unmapEnd)
  }

  /** `bedtools intersect -wo` reports only pairs that share a nucleotide. */
  predicate Overlapping(o: Overlap)
  {
    OverlapStart(o) < OverlapEnd(o)
  }

  predicate StartsWithChr(s: string)
  {
    |s| >= 3 && s[..3] == "chr"
  }

  // ---------------------------------------------------------------------------
  // The bin range of one overlap

  /** Half-open range of pooled bins `[start, end)`. */
  datatype Bins = Bins(start: int, end: int)

  /** Lines 346-363: the bins the overlap touches, less an edge bin it covers
      by less than `0.2*pool_width` (compared exactly, as `5*x < pool_width`). */
  function BinRange(o: Overlap, poolWidth: int): Bins
    requires poolWidth > 0
  {
    var os := OverlapStart(o);
    var oe := OverlapEnd(o);
    var bs := FloorDiv(os - o.seqStart, poolWidth);
    var be := CeilDiv(oe - o.seqStart, poolWidth);
    var firstOverlap := o.seqStart + Mul(bs, poolWidth) + poolWidth - os;
    var lastOverlap := oe - (o.seqStart + Mul(be - 1, poolWidth));
    Bins(if 5 * firstOverlap < poolWidth then bs + 1 else bs,
         if 5 * lastOverlap < poolWidth then be - 1 else be)
  }

  /** Nucleotides of the overlap inside bin `c` of the window. */
  function Coverage(o: Overlap, poolWidth: int, c: int): int
  {
    var lo := Max(OverlapStart(o), o.seqStart + Mul(c, poolWidth));
    var hi := Min(OverlapEnd(o), o.seqStart + Mul(c, poolWidth) + poolWidth);
    Max(0, hi - lo)
  }

  /** The bin holding a window position. */
  function BinOf(o: Overlap, poolWidth: int, pos: int): int
    requires poolWidth > 0
  {
    FloorDiv(pos - o.seqStart, poolWidth)
  }

  /** `pool_width` divides `seq_length`. */
  predicate Divides(poolWidth: int, seqLength: int)
    requires poolWidth > 0
  {
    Mul(FloorDiv(seqLength, poolWidth), poolWidth) == seqLength
  }

  /** The trimmed range never runs backwards and never starts before bin 0. */
  lemma BinRangeOrdered(o: Overlap, poolWidth: int)
    requires poolWidth > 0 && Overlapping(o)
    ensures 0 <= BinRange(o, poolWidth).start <= BinRange(o, poolWidth).end
  {
    var os, oe := OverlapStart(o), OverlapEnd(o);
    var bs := FloorDiv(os - o.seqStart, poolWidth);
    var be := CeilDiv(oe - o.seqStart, poolWidth);
    if bs < 0 {
      MulMono(bs, 0, poolWidth);
    }
    if be <= bs {
      if be < bs {
        MulMono(be, bs, poolWidth);
      }
    } else if be == bs + 1 {
      // both trims together would need the two edge overlaps to sum below
      // 2/5 of a bin, but they sum to a bin plus the overlap length
    } else {
      MulMono(bs, be - 1, poolWidth);
    }
  }

  /** With `pool_width` dividing `seq_length`, the trimmed range lies inside
      the row, `0 <= start <= end <= seq_length/pool_width`. */
  lemma BinRangeBounds(o: Overlap, seqLength: int, poolWidth: int)
    requires poolWidth > 0 && Divides(poolWidth, seqLength)
    requires o.seqEnd == o.seqStart + seqLength && Overlapping(o)
    ensures 0 <= BinRange(o, poolWidth).start <= BinRange(o, poolWidth).end <= FloorDiv(seqLength, poolWidth)
  {
    BinRangeOrdered(o, poolWidth);
    var L := FloorDiv(seqLength, poolWidth);
    var be := CeilDiv(OverlapEnd(o) - o.seqStart, poolWidth);
    if be > L {
      MulMono(L, be - 1, poolWidth);
    }
  }

  /** A bin the overlap covers by at least a fifth of `pool_width` is always
      marked. */
  lemma CoveredBinMarked(o: Overlap, poolWidth: int, c: int)
    requires poolWidth > 0 && Overlapping(o)
    requires 5 * Coverage(o, poolWidth, c) >= poolWidth
    ensures BinRange(o, poolWidth).start <= c < BinRange(o, poolWidth).end
  {
    var os, oe := OverlapStart(o), OverlapEnd(o);
    var bs := FloorDiv(os - o.seqStart, poolWidth);
    var be := CeilDiv(oe - o.seqStart, poolWidth);
    if c < bs {
      MulMono(c, bs, poolWidth);
    } else if c >= be {
      if c > be {
        MulMono(be, c, poolWidth);
      }
    } else {
      if c < be - 1 {
        MulMono(c, be - 1, poolWidth);
      }
      if bs < c {
        MulMono(bs, c, poolWidth);
      }
    }
  }

  /** When the overlap crosses a bin boundary, the converse holds too: a
      marked bin is covered by at least a fifth of `pool_width`. */
  lemma MarkedBinCovered(o: Overlap, poolWidth: int, c: int)
    requires poolWidth > 0 && Overlapping(o)
    requires BinOf(o, poolWidth, OverlapStart(o)) != BinOf(o, poolWidth, OverlapEnd(o) - 1)
    requires BinRange(o, poolWidth).start <= c < BinRange(o, poolWidth).end
    ensures 5 * Coverage(o, poolWidth, c) >= poolWidth
  {
    var os, oe := OverlapStart(o), OverlapEnd(o);
    var bs := FloorDiv(os - o.seqStart, poolWidth);
    var be := CeilDiv(oe - o.seqStart, poolWidth);
    FloorDivUnique(oe - 1 - o.seqStart, poolWidth, be - 1);
    if bs < c {
      MulMono(bs, c, poolWidth);
    }
    if c < be - 1 {
      MulMono(c, be - 1, poolWidth);
    }
  }

  /** Inside a single bin the trim compares each edge overlap with the bin's
      far edge, so a short overlap in the middle of a bin marks it: with
      100-nucleotide bins, 5 nucleotides at offset 40 mark bin 0. */
  lemma ShortOverlapInsideBinMarked()
    ensures var o := Overlap("chr1", 0, 1000, "chr1", 40, 45);
      && Coverage(o, 100, 0) == 5
      && BinRange(o, 100) == Bins(0, 1)
  {
    var o := Overlap("chr1", 0, 1000, "chr1", 40, 45);
    FloorDivUnique(40, 100, 0);
    FloorDivUnique(-45, 100, -1);
  }

  /** The same short overlap at either edge of its bin is trimmed away: the
      trim compares the overlap's distance to the bin's far edge, which is
      short only at the near edge.  Five nucleotides at offset 90, or at
      offset 0, of a 100-nucleotide bin mark nothing. */
  lemma EdgeOverlapInsideBinTrimmed()
    ensures var o := Overlap("chr1", 0, 1000, "chr1", 90, 95);
      && Coverage(o, 100, 0) == 5
      && BinRange(o, 100) == Bins(1, 1)
    ensures var o := Overlap("chr1", 0, 1000, "chr1", 0, 5);
      && Coverage(o, 100, 0) == 5
      && BinRange(o, 100) == Bins(0, 0)
  {
    FloorDivUnique(90, 100, 0);
    FloorDivUnique(-95, 100, -1);
    FloorDivUnique(0, 100, 0);
    FloorDivUnique(-5, 100, -1);
  }

  // ---------------------------------------------------------------------------
  // One line's effect on the matrix

  /** numpy's slice `row[a:b]` for `0 <= a`: both ends are clipped to the row. */
  function Clip(x: int, rowLength: int): int
  {
    Min(x, rowLength)
  }

  /** Bin `c` lies in the slice the line sets. */
  predicate InSlice(o: Overlap, seqLength: int, poolWidth: int, c: int)
    requires poolWidth > 0
  {
    var b := BinRange(o, poolWidth);
    Clip(b.start, FloorDiv(seqLength, poolWidth)) <= c < Clip(b.end, FloorDiv(seqLength, poolWidth))
  }

  /** The failure a line raises, if any: the name assertion first, then, after
      the slice is set, the count assertion, which sees the clipped slice. */
  function LineError(o: Overlap, seqLength: int, poolWidth: int): Option<UnmapError>
    requires poolWidth > 0
  {
    var b := BinRange(o, poolWidth);
    var lo := Clip(b.start, FloorDiv(seqLength, poolWidth));
    var hi := Clip(b.end, FloorDiv(seqLength, poolWidth));
    if !StartsWithChr(o.unmapChr) then Some(NotChrName)
    else if (if lo < hi then hi - lo else 0) != b.end - b.start then Some(CountMismatch)
    else None
  }

  /** When `pool_width` divides `seq_length`, the count assertion always
      holds, so a line fails exactly when its region is not on a "chr" name. */
  lemma CountAssertionHolds(o: Overlap, seqLength: int, poolWidth: int)
    requires poolWidth > 0 && Divides(poolWidth, seqLength)
    requires o.seqEnd == o.seqStart + seqLength && Overlapping(o)
    ensures LineError(o, seqLength, poolWidth).Some? <==> !StartsWithChr(o.unmapChr)
    ensures forall c :: InSlice(o, seqLength, poolWidth, c) <==>
              BinRange(o, poolWidth).start <= c < BinRange(o, poolWidth).end
  {
    BinRangeBounds(o, seqLength, poolWidth);
  }

  /** Otherwise it can fail: 10-nucleotide windows in bins of 4 have 2 bins,
      but an overlap reaching the window end asks for 3. */
  lemma CountMismatchUndivided()
    ensures LineError(Overlap("chr1", 0, 10, "chr1", 5, 20), 10, 4) == Some(CountMismatch)
  {
    assert BinRange(Overlap("chr1", 0, 10, "chr1", 5, 20), 4) == Bins(1, 3);
  }

  // ---------------------------------------------------------------------------
  // Window index and the matrix

  /** `chr_start_indexes`: each window key maps to the index of its last
      occurrence. */
  function KeyIndex(mseqs: seq<ModelSeq>): map<WindowKey, int>
  {
    if mseqs == [] then map[]
    else KeyIndex(mseqs[..|mseqs| - 1])[WindowKeyOf(mseqs[|mseqs| - 1]) := |mseqs| - 1]
  }

  /** The index holds exactly the keys of the windows, each mapped to the last
      window with that key. */
  lemma {:induction false} KeyIndexLast(mseqs: seq<ModelSeq>, key: WindowKey)
    ensures key in KeyIndex(mseqs) <==> exists i :: 0 <= i < |mseqs| && WindowKeyOf(mseqs[i]) == key
    ensures key in KeyIndex(mseqs) ==>
      var i := KeyIndex(mseqs)[key];
      && 0 <= i < |mseqs| && WindowKeyOf(mseqs[i]) == key
      && forall j :: i < j < |mseqs| ==> WindowKeyOf(mseqs[j]) != key
  {
    if mseqs != [] {
      var n := |mseqs| - 1;
      KeyIndexLast(mseqs[..n], key);
      if exists i :: 0 <= i < |mseqs| && WindowKeyOf(mseqs[i]) == key {
        var i :| 0 <= i < |mseqs| && WindowKeyOf(mseqs[i]) == key;
        if i < n {
          assert WindowKeyOf(mseqs[..n][i]) == key;
        }
      }
    }
  }

  /** The dictionary loop that builds `chr_start_indexes`. */
  method IndexWindows(mseqs: seq<ModelSeq>) returns (index: map<WindowKey, int>)
    ensures index == KeyIndex(mseqs)
  {
    index := map[];
    for i := 0 to |mseqs|
      invariant index == KeyIndex(mseqs[..i])
    {
      assert mseqs[..i + 1][..i] == mseqs[..i];
      index := index[WindowKeyOf(mseqs[i]) := i];
    }
    assert mseqs[..|mseqs|] == mseqs;
  }

  /** Every line was reported for one of the windows. */
  predicate FromWindows(overlaps: seq<Overlap>, mseqs: seq<ModelSeq>)
  {
    forall k :: 0 <= k < |overlaps| ==> KeyOf(overlaps[k]) in KeyIndex(mseqs)
  }

  /** Bin `c` of row `row` has been set by one of the lines `os`. */
  predicate Marked(index: map<WindowKey, int>, os: seq<Overlap>, seqLength: int, poolWidth: int, row: int, c: int)
    requires poolWidth > 0
  {
    os != [] &&
    var o := os[|os| - 1];
    || Marked(index, os[..|os| - 1], seqLength, poolWidth, row, c)
    || (KeyOf(o) in index && index[KeyOf(o)] == row && InSlice(o, seqLength, poolWidth, c))
  }

  /** A bin is set exactly when some line for the window of that row covers it. */
  lemma {:induction false} MarkedIff(index: map<WindowKey, int>, os: seq<Overlap>, seqLength: int, poolWidth: int, row: int, c: int)
    requires poolWidth > 0
    ensures Marked(index, os, seqLength, poolWidth, row, c) <==>
      exists k :: 0 <= k < |os| && KeyOf(os[k]) in index && index[KeyOf(os[k])] == row
                  && InSlice(os[k], seqLength, poolWidth, c)
  {
    if os != [] {
      var n := |os| - 1;
      MarkedIff(index, os[..n], seqLength, poolWidth, row, c);
      if exists k :: 0 <= k < |os| && KeyOf(os[k]) in index && index[KeyOf(os[k])] == row
                     && InSlice(os[k], seqLength, poolWidth, c) {
        var k :| 0 <= k < |os| && KeyOf(os[k]) in index && index[KeyOf(os[k])] == row
                 && InSlice(os[k], seqLength, poolWidth, c);
        if k < n {
          assert os[..n][k] == os[k];
        }
      }
    }
  }

  /** One more line adds its slice of its row to the marked bins. */
  lemma MarkedStep(index: map<WindowKey, int>, os: seq<Overlap>, k: nat, seqLength: int, poolWidth: int)
    requires poolWidth > 0 && k < |os|
    ensures forall i, c :: Marked(index, os[..k + 1], seqLength, poolWidth, i, c) <==>
      || Marked(index, os[..k], seqLength, poolWidth, i, c)
      || (KeyOf(os[k]) in index && index[KeyOf(os[k])] == i && InSlice(os[k], seqLength, poolWidth, c))
  {
    var p := os[..k + 1];
    assert p[..|p| - 1] == os[..k] && p[|p| - 1] == os[k];
    forall i, c
      ensures Marked(index, p, seqLength, poolWidth, i, c) <==>
        || Marked(index, os[..k], seqLength, poolWidth, i, c)
        || (KeyOf(os[k]) in index && index[KeyOf(os[k])] == i && InSlice(os[k], seqLength, poolWidth, c))
    {
    }
  }

  /** A window none of whose lines reach its row keeps an all-false row. */
  lemma UntouchedRowClear(mseqs: seq<ModelSeq>, os: seq<Overlap>, seqLength: int, poolWidth: int, row: int)
    requires poolWidth > 0
    requires forall k :: 0 <= k < |os| ==> KeyOf(os[k]) !in KeyIndex(mseqs) || KeyIndex(mseqs)[KeyOf(os[k])] != row
    ensures forall c :: !Marked(KeyIndex(mseqs), os, seqLength, poolWidth, row, c)
  {
    forall c ensures !Marked(KeyIndex(mseqs), os, seqLength, poolWidth, row, c) {
      MarkedIff(KeyIndex(mseqs), os, seqLength, poolWidth, row, c);
    }
  }

  /** A window lying entirely inside an unmappable region gets an all-true row
      (the row of the last window with its key). */
  lemma CoveredRowFull(mseqs: seq<ModelSeq>, os: seq<Overlap>, seqLength: int, poolWidth: int, k: nat)
    requires poolWidth > 0 && Divides(poolWidth, seqLength) && seqLength > 0
    requires k < |os| && KeyOf(os[k]) in KeyIndex(mseqs)
    requires os[k].seqEnd == os[k].seqStart + seqLength
    requires os[k].unmapStart <= os[k].seqStart && os[k].seqEnd <= os[k].unmapEnd
    ensures forall c :: 0 <= c < FloorDiv(seqLength, poolWidth) ==>
      Marked(KeyIndex(mseqs), os, seqLength, poolWidth, KeyIndex(mseqs)[KeyOf(os[k])], c)
  {
    var o := os[k];
    var L := FloorDiv(seqLength, poolWidth);
    FloorDivUnique(0, poolWidth, 0);
    MulNeg(L, poolWidth);
    FloorDivUnique(-seqLength, poolWidth, -L);
    assert BinRange(o, poolWidth) == Bins(0, L);
    forall c | 0 <= c < L
      ensures Marked(KeyIndex(mseqs), os, seqLength, poolWidth, KeyIndex(mseqs)[KeyOf(o)], c)
    {
      MarkedIff(KeyIndex(mseqs), os, seqLength, poolWidth, KeyIndex(mseqs)[KeyOf(o)], c);
    }
  }

  /** The statements of lines 346-363 computing one line's bin range. */
  method LineBins(o: Overlap, poolWidth: int) returns (binStart: int, binEnd: int)
    requires poolWidth > 0
    ensures Bins(binStart, binEnd) == BinRange(o, poolWidth)
  {
    var overlapStart := Max(o.seqStart, o.unmapStart);
    var overlapEnd := Min(o.seqEnd, o.unmapEnd);
    binStart := FloorDiv(overlapStart - o.seqStart, poolWidth);
    binEnd := CeilDiv(overlapEnd - o.seqStart, poolWidth);
    var firstStart := o.seqStart + Mul(binStart, poolWidth);
    var firstEnd := firstStart + poolWidth;
    var firstOverlap := firstEnd - overlapStart;
    if 5 * firstOverlap < poolWidth {
      binStart := binStart + 1;
    }
    var lastStart := o.seqStart + Mul(binEnd - 1, poolWidth);
    var lastOverlap := overlapEnd - lastStart;
    if 5 * lastOverlap < poolWidth {
      binEnd := binEnd - 1;
    }
  }

  /** The loop body of lines 340-366 for line `k`: checks the chromosome
      name, sets the line's slice of its window's row, and checks the count;
      returns the failure, if any, and otherwise has marked line `k`. */
  method MarkLine(unmap: array2<bool>, mseqs: seq<ModelSeq>, index: map<WindowKey, int>, overlaps: seq<Overlap>,
                  k: nat, seqLength: int, poolWidth: int)
    returns (err: Option<UnmapError>)
    modifies unmap
    requires poolWidth > 0 && seqLength >= 0 && k < |overlaps|
    requires index == KeyIndex(mseqs) && KeyOf(overlaps[k]) in index && Overlapping(overlaps[k])
    requires unmap.Length0 == |mseqs| && unmap.Length1 == FloorDiv(seqLength, poolWidth)
    requires forall i, c :: 0 <= i < |mseqs| && 0 <= c < unmap.Length1 ==>
      unmap[i, c] == Marked(index, overlaps[..k], seqLength, poolWidth, i, c)
    ensures err == LineError(overlaps[k], seqLength, poolWidth)
    ensures err.None? ==> forall i, c :: 0 <= i < |mseqs| && 0 <= c < unmap.Length1 ==>
      unmap[i, c] == Marked(index, overlaps[..k + 1], seqLength, poolWidth, i, c)
  {
    var poolSeqLength := unmap.Length1;
    var o := overlaps[k];
    if !StartsWithChr(o.unmapChr) {
      return Some(NotChrName);
    }
    var binStart, binEnd := LineBins(o, poolWidth);
    BinRangeOrdered(o, poolWidth);

    var row := index[KeyOf(o)];
    assert 0 <= row < |mseqs| by {
      KeyIndexLast(mseqs, KeyOf(o));
    }
    var lo, hi := Clip(binStart, poolSeqLength), Clip(binEnd, poolSeqLength);
    assert forall c :: InSlice(o, seqLength, poolWidth, c) <==> lo <= c < hi;
    forall c | lo <= c < hi {
      unmap[row, c] := true;
    }
    MarkedStep(index, overlaps, k, seqLength, poolWidth);
    // every entry of the slice is now true, so its sum is its width
    var sliceSum := if lo < hi then hi - lo else 0;
    if sliceSum != binEnd - binStart {
      return Some(CountMismatch);
    }
    return None;
  }

  /** `annotate_unmap` after the intersect: a fresh all-false matrix with one
      row per window and `seq_length // pool_width` columns, into which each
      line sets its slice of its window's row; the first failing assertion
      aborts the whole call. */
  method AnnotateUnmap(mseqs: seq<ModelSeq>, overlaps: seq<Overlap>, seqLength: int, poolWidth: int)
    returns (r: Result<array2<bool>, UnmapError>)
    requires poolWidth > 0 && seqLength >= 0
    requires FromWindows(overlaps, mseqs)
    requires forall k :: 0 <= k < |overlaps| ==> Overlapping(overlaps[k])
    ensures r.Ok? <==> forall k :: 0 <= k < |overlaps| ==> LineError(overlaps[k], seqLength, poolWidth).None?
    ensures r.Err? ==> exists k :: (0 <= k < |overlaps| && LineError(overlaps[k], seqLength, poolWidth) == Some(r.error)
      && forall j :: 0 <= j < k ==> LineError(overlaps[j], seqLength, poolWidth).None?)
    ensures r.Ok? ==> fresh(r.value)
    ensures r.Ok? ==> r.value.Length0 == |mseqs| && r.value.Length1 == FloorDiv(seqLength, poolWidth)
    ensures r.Ok? ==> forall i, c :: 0 <= i < |mseqs| && 0 <= c < FloorDiv(seqLength, poolWidth) ==>
      r.value[i, c] == Marked(KeyIndex(mseqs), overlaps, seqLength, poolWidth, i, c)
    ensures r.Ok? ==> AnnotatedAs(r.value, mseqs, overlaps, seqLength, poolWidth)
  {
    var index := IndexWindows(mseqs);
    var poolSeqLength := FloorDiv(seqLength, poolWidth);
    var unmap := new bool[|mseqs|, poolSeqLength]((i, c) => false);
    for k := 0 to |overlaps|
      invariant forall j :: 0 <= j < k ==> LineError(overlaps[j], seqLength, poolWidth).None?
      invariant forall i, c :: 0 <= i < |mseqs| && 0 <= c < poolSeqLength ==>
        unmap[i, c] == Marked(index, overlaps[..k], seqLength, poolWidth, i, c)
    {
      var err := MarkLine(unmap, mseqs, index, overlaps, k, seqLength, poolWidth);
      if err.Some? {
        return Err(err.value);
      }
    }
    assert overlaps[..|overlaps|] == overlaps;
    return Ok(unmap);
  }

  /** The matrix `annotate_unmap` returns: one row per window, one column per
      pooled bin, true exactly where the lines mark. */
  ghost predicate AnnotatedAs(a: array2<bool>, mseqs: seq<ModelSeq>, os: seq<Overlap>, seqLength: int, poolWidth: int)
    requires poolWidth > 0
    reads a
  {
    && a.Length0 == |mseqs| && a.Length1 == FloorDiv(seqLength, poolWidth)
    && forall i, c :: 0 <= i < a.Length0 && 0 <= c < a.Length1 ==>
      a[i, c] == Marked(KeyIndex(mseqs), os, seqLength, poolWidth, i, c)
  }

  // ---------------------------------------------------------------------------
  // The filter in `main`

  /** `mean(axis=1) < unmap_t`; an empty row's mean is NaN, which compares
      false, so it is never kept. */
  predicate Mappable(row: seq<bool>, unmapT: real)
  {
    |row| > 0 && (CountTrue(row) as real) / (|row| as real) < unmapT
  }

  function MapMask(rows: seq<seq<bool>>, unmapT: real): (m: seq<bool>)
    ensures |m| == |rows|
  {
    seq(|rows|, i requires 0 <= i < |rows| => Mappable(rows[i], unmapT))
  }

  /** The rows of the matrix, as `mseqs_unmap.mean(axis=1)` reads them. */
  function RowsOf(a: array2<bool>): (rows: seq<seq<bool>>)
    reads a
    ensures |rows| == a.Length0
    ensures forall i :: 0 <= i < a.Length0 ==> |rows[i]| == a.Length1
    ensures forall i, c :: 0 <= i < a.Length0 && 0 <= c < a.Length1 ==> rows[i][c] == a[i, c]
  {
    seq(a.Length0, i requires 0 <= i < a.Length0 reads a =>
      seq(a.Length1, c requires 0 <= c < a.Length1 reads a => a[i, c]))
  }

  /** A window no line maps to has an all-false row, mean 0, so the filter
      keeps it exactly when `unmap_t` is positive. */
  lemma UntouchedWindowKept(a: array2<bool>, mseqs: seq<ModelSeq>, os: seq<Overlap>,
                            seqLength: int, poolWidth: int, unmapT: real, i: int)
    requires poolWidth > 0 && FloorDiv(seqLength, poolWidth) > 0
    requires AnnotatedAs(a, mseqs, os, seqLength, poolWidth) && 0 <= i < |mseqs|
    requires forall k :: 0 <= k < |os| ==> KeyOf(os[k]) !in KeyIndex(mseqs) || KeyIndex(mseqs)[KeyOf(os[k])] != i
    ensures Mappable(RowsOf(a)[i], unmapT) <==> unmapT > 0.0
  {
    var row := RowsOf(a)[i];
    assert forall c :: 0 <= c < |row| ==> !row[c] by {
      UntouchedRowClear(mseqs, os, seqLength, poolWidth, i);
    }
    ClearRowMean(row, unmapT);
  }

  /** A window lying wholly inside an unmappable region has a full row, mean
      1, so the filter keeps it only when `unmap_t` exceeds 1. */
  lemma CoveredWindowDropped(a: array2<bool>, mseqs: seq<ModelSeq>, os: seq<Overlap>,
                             seqLength: int, poolWidth: int, unmapT: real, k: nat)
    requires poolWidth > 0 && Divides(poolWidth, seqLength) && seqLength > 0
    requires AnnotatedAs(a, mseqs, os, seqLength, poolWidth)
    requires k < |os| && KeyOf(os[k]) in KeyIndex(mseqs)
    requires os[k].seqEnd == os[k].seqStart + seqLength
    requires os[k].unmapStart <= os[k].seqStart && os[k].seqEnd <= os[k].unmapEnd
    ensures 0 <= KeyIndex(mseqs)[KeyOf(os[k])] < |mseqs|
    ensures Mappable(RowsOf(a)[KeyIndex(mseqs)[KeyOf(os[k])]], unmapT) <==> unmapT > 1.0
  {
    var i := KeyIndex(mseqs)[KeyOf(os[k])];
    assert 0 <= i < |mseqs| by {
      KeyIndexLast(mseqs, KeyOf(os[k]));
    }
    var row := RowsOf(a)[i];
    assert |row| > 0 by {
      assert Mul(0, poolWidth) == 0;
    }
    assert forall c :: 0 <= c < |row| ==> row[c] by {
      CoveredRowFull(mseqs, os, seqLength, poolWidth, k);
    }
    FullRowMean(row, unmapT);
  }

  /** An all-false row has mean 0. */
  lemma ClearRowMean(row: seq<bool>, unmapT: real)
    requires |row| > 0 && forall c :: 0 <= c < |row| ==> !row[c]
    ensures Mappable(row, unmapT) <==> unmapT > 0.0
  {
    CountTrueNone(row);
  }

  /** An all-true row has mean 1. */
  lemma FullRowMean(row: seq<bool>, unmapT: real)
    requires |row| > 0 && forall c :: 0 <= c < |row| ==> row[c]
    ensures Mappable(row, unmapT) <==> unmapT > 1.0
  {
    CountTrueAll(row);
    var n := |row| as real;
    assert n / n == 1.0;
  }

  /** Windows, labels and mask rows after the filter. */
  datatype Filtered<L> = Filtered(mseqs: seq<ModelSeq>, labels: seq<L>, rows: seq<seq<bool>>)

  /** Lines 190-193: the same mask applied to the windows, their labels and
      the matrix rows. */
  function UnmapFilter<L>(mseqs: seq<ModelSeq>, labels: seq<L>, rows: seq<seq<bool>>, unmapT: real): Filtered<L>
    requires |mseqs| == |labels| == |rows|
  {
    var m := MapMask(rows, unmapT);
    Filtered(Select(mseqs, m), Select(labels, m), Select(rows, m))
  }

  /** The filter keeps exactly the windows whose unmappable fraction is below
      `unmap_t`, in their original order, and keeps the three lists aligned:
      entry `k` of each output comes from the same input index. */
  lemma UnmapFilterAligned<L>(mseqs: seq<ModelSeq>, labels: seq<L>, rows: seq<seq<bool>>, unmapT: real)
    requires |mseqs| == |labels| == |rows|
    ensures var f := UnmapFilter(mseqs, labels, rows, unmapT);
      && |f.mseqs| == |f.labels| == |f.rows|
      && (forall k :: 0 <= k < |f.rows| ==> Mappable(f.rows[k], unmapT))
      && (forall k :: 0 <= k < |f.rows| ==> exists i :: (0 <= i < |rows| && Mappable(rows[i], unmapT)
            && f.mseqs[k] == mseqs[i] && f.labels[k] == labels[i] && f.rows[k] == rows[i]))
      && (forall i :: 0 <= i < |rows| && Mappable(rows[i], unmapT) ==>
            var k := Rank(MapMask(rows, unmapT), i);
            k < |f.rows| && f.mseqs[k] == mseqs[i] && f.labels[k] == labels[i] && f.rows[k] == rows[i])
  {
    FilteredFromMappable(mseqs, labels, rows, unmapT);
    MappableAtRank(mseqs, labels, rows, unmapT);
  }

  /** Every entry the filter keeps is a mappable input entry, the same one in
      all three lists. */
  lemma FilteredFromMappable<L>(mseqs: seq<ModelSeq>, labels: seq<L>, rows: seq<seq<bool>>, unmapT: real)
    requires |mseqs| == |labels| == |rows|
    ensures var f := UnmapFilter(mseqs, labels, rows, unmapT);
      forall k :: 0 <= k < |f.rows| ==> (Mappable(f.rows[k], unmapT)
        && exists i :: (0 <= i < |rows| && Mappable(rows[i], unmapT)
          && f.mseqs[k] == mseqs[i] && f.labels[k] == labels[i] && f.rows[k] == rows[i]))
  {
    var m := MapMask(rows, unmapT);
    var f := UnmapFilter(mseqs, labels, rows, unmapT);
    forall k | 0 <= k < |f.rows|
      ensures Mappable(f.rows[k], unmapT)
        && exists i :: (0 <= i < |rows| && Mappable(rows[i], unmapT)
          && f.mseqs[k] == mseqs[i] && f.labels[k] == labels[i] && f.rows[k] == rows[i])
    {
      SelectedTogether(mseqs, labels, rows, m, k);
      var i :| 0 <= i < |m| && m[i] && f.mseqs[k] == mseqs[i] && f.labels[k] == labels[i] && f.rows[k] == rows[i];
      assert Mappable(rows[i], unmapT);
    }
  }

  /** Every mappable input entry is kept, at its rank among the mappable
      entries, in all three lists. */
  lemma MappableAtRank<L>(mseqs: seq<ModelSeq>, labels: seq<L>, rows: seq<seq<bool>>, unmapT: real)
    requires |mseqs| == |labels| == |rows|
    ensures var f := UnmapFilter(mseqs, labels, rows, unmapT);
      forall i :: 0 <= i < |rows| && Mappable(rows[i], unmapT) ==>
        var k := Rank(MapMask(rows, unmapT), i);
        k < |f.rows| && f.mseqs[k] == mseqs[i] && f.labels[k] == labels[i] && f.rows[k] == rows[i]
  {
    var m := MapMask(rows, unmapT);
    forall i | 0 <= i < |rows| && Mappable(rows[i], unmapT)
      ensures Rank(m, i) < CountTrue(m) && Select(mseqs, m)[Rank(m, i)] == mseqs[i]
        && Select(labels, m)[Rank(m, i)] == labels[i] && Select(rows, m)[Rank(m, i)] == rows[i]
    {
      assert m[i];
      SelectAt(mseqs, m, i);
      SelectAt(labels, m, i);
      SelectAt(rows, m, i);
    }
  }

  /** Entry `k` of the three selections comes from one kept index. */
  ghost predicate SameSource<A, B, C>(a: seq<A>, b: seq<B>, c: seq<C>, m: seq<bool>, k: nat)
    requires |a| == |b| == |c| == |m| && k < CountTrue(m)
  {
    exists i :: 0 <= i < |m| && m[i]
      && Select(a, m)[k] == a[i] && Select(b, m)[k] == b[i] && Select(c, m)[k] == c[i]
  }

  /** Entry `k` of three lists selected by one mask comes from one index. */
  lemma SelectedTogether<A, B, C>(a: seq<A>, b: seq<B>, c: seq<C>, m: seq<bool>, k: nat)
    requires |a| == |b| == |c| == |m| && k < CountTrue(m)
    ensures SameSource(a, b, c, m, k)
  {
    SelectFrom(c, m, k);
    var i :| 0 <= i < |m| && m[i] && Rank(m, i) == k && Select(c, m)[k] == c[i];
    SelectAt(a, m, i);
    SelectAt(b, m, i);
  }
}
