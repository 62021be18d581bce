/**
  The merged window list and its cutting into TFRecord shards.  The windows
  of the three splits are concatenated train, then valid, then test, with a
  parallel list of split labels; after the unmappable filter, each split's
  windows still form one contiguous block of indices, which the write stage
  cuts into `(start, end)` pairs of at most `seqs_per_tfr` windows.
 */
module Sharding {
  import opened Genome
  import opened Masks
  import opened Wrappers
  import opened Arith
  import opened Splits

  // ---------------------------------------------------------------------------
  // Label merge

  /** Position of a split's block in the merged list. */
  function Order(s: Split): nat
  {
    match s
    case Train => 0
    case Valid => 1
    case Test => 2
  }

  /** The labels come as a train block, then valid, then test. */
  predicate BlockOrdered(labels: seq<Split>)
  {
    forall i, j :: 0 <= i < j < |labels| ==> Order(labels[i]) <= Order(labels[j])
  }

  function Repeat(s: Split, n: nat): (r: seq<Split>)
    ensures |r| == n && forall i :: 0 <= i < n ==> r[i] == s
  {
    seq(n, _ => s)
  }

  /** The merged windows and their labels. */
  datatype Merged = Merged(mseqs: seq<ModelSeq>, labels: seq<Split>)

  /** Lines 177-178. */
  function MergeSplits(train: seq<ModelSeq>, valid: seq<ModelSeq>, test: seq<ModelSeq>): Merged
  {
    Merged(train + valid + test, Repeat(Train, |train|) + Repeat(Valid, |valid|) + Repeat(Test, |test|))
  }

  /** The merge keeps every window once, labels each with the split it came
      from, and yields block-ordered labels aligned one-to-one with it. */
  lemma MergeAligned(train: seq<ModelSeq>, valid: seq<ModelSeq>, test: seq<ModelSeq>)
    ensures var m := MergeSplits(train, valid, test);
      && |m.mseqs| == |m.labels| == |train| + |valid| + |test|
      && multiset(m.mseqs) == multiset(train) + multiset(valid) + multiset(test)
      && BlockOrdered(m.labels)
      && (forall i :: 0 <= i < |train| ==> m.mseqs[i] == train[i] && m.labels[i] == Train)
      && (forall i :: 0 <= i < |valid| ==>
            m.mseqs[|train| + i] == valid[i] && m.labels[|train| + i] == Valid)
      && (forall i :: 0 <= i < |test| ==>
            m.mseqs[|train| + |valid| + i] == test[i] && m.labels[|train| + |valid| + i] == Test)
  {
    var m := MergeSplits(train, valid, test);
    forall i, j | 0 <= i < j < |m.labels| ensures Order(m.labels[i]) <= Order(m.labels[j]) {
    }
  }

  /** Filtering with any mask, as the unmappable filter does, keeps the labels
      block-ordered. */
  lemma SelectKeepsBlockOrder(labels: seq<Split>, m: seq<bool>)
    requires |labels| == |m| && BlockOrdered(labels)
    ensures BlockOrdered(Select(labels, m))
  {
    var r := Select(labels, m);
    forall a, b | 0 <= a < b < |r| ensures Order(r[a]) <= Order(r[b]) {
      SelectFrom(labels, m, a);
      var i :| 0 <= i < |m| && m[i] && Rank(m, i) == a && r[a] == labels[i];
      SelectFrom(labels, m, b);
      var j :| 0 <= j < |m| && m[j] && Rank(m, j) == b && r[b] == labels[j];
      if j <= i {
        RankMonotone(m, j, i);
      }
    }
  }

  // ---------------------------------------------------------------------------
  // The indices of one split

  function Iota(n: nat): (r: seq<int>)
    ensures |r| == n && forall i :: 0 <= i < n ==> r[i] == i
  {
    seq(n, i => i)
  }

  /** `[i for i in range(len(mseqs_labels)) if mseqs_labels[i] == tvt_set]`. */
  function IndexesOf(labels: seq<Split>, s: Split): seq<int>
  {
    Select(Iota(|labels|), Picks(labels, s))
  }

  /** The indices are exactly those labelled `s`, in increasing order. */
  lemma IndexesOfCorrect(labels: seq<Split>, s: Split)
    ensures var idx := IndexesOf(labels, s);
      && (forall k :: 0 <= k < |idx| ==> 0 <= idx[k] < |labels| && labels[idx[k]] == s)
      && (forall i :: 0 <= i < |labels| && labels[i] == s ==> i in idx)
      && (forall a, b :: 0 <= a < b < |idx| ==> idx[a] < idx[b])
  {
    var m := Picks(labels, s);
    var idx := IndexesOf(labels, s);
    forall k | 0 <= k < |idx| ensures 0 <= idx[k] < |labels| && labels[idx[k]] == s {
      SelectFrom(Iota(|labels|), m, k);
    }
    forall i | 0 <= i < |labels| && labels[i] == s ensures i in idx {
      SelectAt(Iota(|labels|), m, i);
    }
    forall a, b | 0 <= a < b < |idx| ensures idx[a] < idx[b] {
      SelectFrom(Iota(|labels|), m, a);
      var i :| 0 <= i < |m| && m[i] && Rank(m, i) == a && idx[a] == Iota(|labels|)[i];
      SelectFrom(Iota(|labels|), m, b);
      var j :| 0 <= j < |m| && m[j] && Rank(m, j) == b && idx[b] == Iota(|labels|)[j];
      if j <= i {
        RankMonotone(m, j, i);
      }
    }
  }

  /** With block-ordered labels, a split's windows are exactly the indices
      from its first to its last one. */
  lemma SplitBlockContiguous(labels: seq<Split>, s: Split)
    requires BlockOrdered(labels) && IndexesOf(labels, s) != []
    ensures var idx := IndexesOf(labels, s);
      && 0 <= idx[0] <= idx[|idx| - 1] < |labels|
      && forall j :: 0 <= j < |labels| ==> (labels[j] == s <==> idx[0] <= j <= idx[|idx| - 1])
  {
    IndexesOfCorrect(labels, s);
    BlockBetweenEnds(labels, s, IndexesOf(labels, s));
  }

  /** The step of `SplitBlockContiguous` for any increasing list of exactly
      the indices labelled `s`. */
  lemma BlockBetweenEnds(labels: seq<Split>, s: Split, idx: seq<int>)
    requires BlockOrdered(labels) && idx != []
    requires forall k :: 0 <= k < |idx| ==> 0 <= idx[k] < |labels| && labels[idx[k]] == s
    requires forall i :: 0 <= i < |labels| && labels[i] == s ==> i in idx
    requires forall a, b :: 0 <= a < b < |idx| ==> idx[a] < idx[b]
    ensures 0 <= idx[0] <= idx[|idx| - 1] < |labels|
    ensures forall j :: 0 <= j < |labels| ==> (labels[j] == s <==> idx[0] <= j <= idx[|idx| - 1])
  {
    var first, last := idx[0], idx[|idx| - 1];
    forall j | 0 <= j < |labels| && labels[j] == s ensures first <= j <= last {
      IndexBetweenEnds(idx, j);
    }
    forall j | first < j < last ensures labels[j] == s {
      BetweenSameLabel(labels, first, j, last);
    }
  }

  /** In block order, a window between two windows of one split has that split. */
  lemma BetweenSameLabel(labels: seq<Split>, a: nat, j: nat, b: nat)
    requires BlockOrdered(labels) && a < j < b < |labels| && labels[a] == labels[b]
    ensures labels[j] == labels[a]
  {
    assert Order(labels[a]) <= Order(labels[j]) <= Order(labels[b]);
  }

  /** An element of a strictly increasing sequence lies between its ends. */
  lemma IndexBetweenEnds(idx: seq<int>, j: int)
    requires j in idx
    requires forall a, b :: 0 <= a < b < |idx| ==> idx[a] < idx[b]
    ensures idx[0] <= j <= idx[|idx| - 1]
  {
    var k :| 0 <= k < |idx| && idx[k] == j;
    if 0 < k {
      assert idx[0] < idx[k];
    }
    if k < |idx| - 1 {
      assert idx[k] < idx[|idx| - 1];
    }
  }

  // ---------------------------------------------------------------------------
  // Shard boundaries

  /** One `(start, end)` pair for a shard-writing job, with its shard number. */
  datatype Shard = Shard(index: nat, start: int, end: int)

  /** The shards from `start` on while `start <= last`, each ending at
      `min(start + n, cap)`. */
  function Cut(i: nat, start: int, last: int, cap: int, n: int): seq<Shard>
    requires n > 0
    decreases last - start
  {
    if start <= last then [Shard(i, start, Min(start + n, cap))] + Cut(i + 1, start + n, last, cap, n)
    else []
  }

  /** The loop as written, with `tfr_end = min(tfr_start + seqs_per_tfr,
      tvt_set_end)` where `tvt_set_end` is the split's last index. */
  function ShardsAsWritten(first: int, last: int, n: int): seq<Shard>
    requires n > 0
  {
    Cut(0, first, last, last, n)
  }

  /** The half-open boundaries evidently intended: `end` capped one past the
      split's last index. */
  function Shards(first: int, last: int, n: int): seq<Shard>
    requires n > 0
  {
    Cut(0, first, last, last + 1, n)
  }

  /** Shard `k` is numbered `i + k`, starts `k*n` after the first and ends at
      `min(start + n, cap)`. */
  lemma {:induction false} CutAt(i: nat, start: int, last: int, cap: int, n: int)
    requires n > 0
    ensures var c := Cut(i, start, last, cap, n);
      forall k :: 0 <= k < |c| ==>
        c[k] == Shard(i + k, start + Mul(k, n), Min(start + Mul(k, n) + n, cap))
    decreases last - start
  {
    var c := Cut(i, start, last, cap, n);
    if start <= last {
      var rest := Cut(i + 1, start + n, last, cap, n);
      CutAt(i + 1, start + n, last, cap, n);
      forall k | 1 <= k < |c|
        ensures c[k] == Shard(i + k, start + Mul(k, n), Min(start + Mul(k, n) + n, cap))
      {
        assert c[k] == rest[k - 1];
        MulStep(k - 1, n);
      }
    }
  }

  /** There are `ceil((last - start + 1) / n)` shards. */
  lemma {:induction false} CutCount(i: nat, start: int, last: int, cap: int, n: int)
    requires n > 0 && start <= last + 1
    ensures |Cut(i, start, last, cap, n)| == CeilDiv(last - start + 1, n)
    decreases last - start
  {
    if start <= last {
      if start + n <= last + 1 {
        CutCount(i + 1, start + n, last, cap, n);
        var q := CeilDiv(last - start - n + 1, n);
        MulStep(q, n);
        CeilDivUnique(last - start + 1, n, q + 1);
      } else {
        assert Cut(i + 1, start + n, last, cap, n) == [];
        CeilDivUnique(last - start + 1, n, 1);
      }
    } else {
      CeilDivUnique(0, n, 0);
    }
  }

  /** The shard-boundary loop of lines 263-292, for one split whose indices
      run from `first` to `last`. */
  method ShardLoop(first: int, last: int, n: int) returns (shards: seq<Shard>)
    requires n > 0
    ensures shards == ShardsAsWritten(first, last, n)
  {
    shards := [];
    var tfrI := 0;
    var tfrStart := first;
    var tfrEnd := Min(tfrStart + n, last);
    while tfrStart <= last
      invariant tfrEnd == Min(tfrStart + n, last)
      invariant shards + Cut(tfrI, tfrStart, last, last, n) == ShardsAsWritten(first, last, n)
      decreases last - tfrStart
    {
      shards := shards + [Shard(tfrI, tfrStart, tfrEnd)];
      tfrI := tfrI + 1;
      tfrStart := tfrStart + n;
      tfrEnd := Min(tfrStart + n, last);
    }
  }

  /** As written, no shard's half-open range holds the split's last index:
      every end is at most `last`. */
  lemma AsWrittenMissesLast(first: int, last: int, n: int)
    requires n > 0 && first <= last
    ensures var s := ShardsAsWritten(first, last, n);
      && s != [] && s[|s| - 1].end == last
      && (forall k :: 0 <= k < |s| ==> first <= s[k].start && s[k].end <= last)
      && (forall k :: 0 <= k < |s| ==> !Holds(s[k], last))
  {
    var s := ShardsAsWritten(first, last, n);
    CutAt(0, first, last, last, n);
    CutCount(0, first, last, last, n);
    var q := |s|;
    assert Mul(q, n) - n < last - first + 1;
    MulStep(q - 1, n);
    forall k | 0 <= k < |s| ensures first <= s[k].start {
      if k > 0 {
        MulMono(0, k, n);
      }
    }
  }

  /** 130 windows in shards of 50: as written the pairs are (0,50), (50,100),
      (100,129), so window 129 is in no shard; the intended boundaries give
      sizes 50, 50 and 30. */
  lemma ShardExample130()
    ensures ShardsAsWritten(0, 129, 50) == [Shard(0, 0, 50), Shard(1, 50, 100), Shard(2, 100, 129)]
    ensures Shards(0, 129, 50) == [Shard(0, 0, 50), Shard(1, 50, 100), Shard(2, 100, 130)]
  {
  }

  /** 101 windows in shards of 50: as written the last pair is the empty
      (100,100). */
  lemma ShardExample101()
    ensures ShardsAsWritten(0, 100, 50) == [Shard(0, 0, 50), Shard(1, 50, 100), Shard(2, 100, 100)]
  {
  }

  /** Index `j` lies in the half-open range of shard `sh`. */
  predicate Holds(sh: Shard, j: int)
  {
    sh.start <= j < sh.end
  }

  /** The shard an index of the split belongs to. */
  function ShardIndexOf(first: int, n: int, j: int): int
    requires n > 0
  {
    FloorDiv(j - first, n)
  }

  /** The intended boundaries cut `[first, last + 1)` into consecutive
      half-open shards numbered 0, 1, ..., all of `n` windows but the last,
      which holds between 1 and `n`. */
  lemma ShardsConsecutive(first: int, last: int, n: int)
    requires n > 0 && first <= last
    ensures var s := Shards(first, last, n);
      && s != [] && s[0].start == first && s[|s| - 1].end == last + 1
      && |s| == CeilDiv(last - first + 1, n)
      && (forall k :: 0 <= k < |s| ==> s[k].index == k && s[k].start < s[k].end <= s[k].start + n)
      && (forall k :: 0 <= k < |s| - 1 ==> s[k].end == s[k + 1].start && s[k].end - s[k].start == n)
  {
    var s := Shards(first, last, n);
    CutAt(0, first, last, last + 1, n);
    CutCount(0, first, last, last + 1, n);
    var q := |s|;
    MulStep(q - 1, n);
    forall k | 0 <= k < |s| - 1
      ensures s[k].end == s[k + 1].start && s[k].end - s[k].start == n
    {
      MulStep(k, n);
      if k + 1 < q - 1 {
        MulMono(k + 1, q - 1, n);
      }
    }
  }

  /** Every index of the split lies in exactly one intended shard, the one
      numbered `(j - first) // n`. */
  lemma ShardsPartition(first: int, last: int, n: int)
    requires n > 0 && first <= last
    ensures var s := Shards(first, last, n);
      && (forall j :: first <= j <= last ==>
            0 <= ShardIndexOf(first, n, j) < |s| && Holds(s[ShardIndexOf(first, n, j)], j))
      && (forall j, k :: 0 <= k < |s| && Holds(s[k], j) ==> k == ShardIndexOf(first, n, j))
  {
    var s := Shards(first, last, n);
    CutAt(0, first, last, last + 1, n);
    CutCount(0, first, last, last + 1, n);
    var q := |s|;
    forall j | first <= j <= last
      ensures 0 <= ShardIndexOf(first, n, j) < |s| && Holds(s[ShardIndexOf(first, n, j)], j)
    {
      var k := ShardIndexOf(first, n, j);
      if k >= q {
        MulMono(q - 1, k, n);
      }
      MulStep(k, n);
    }
    forall j, k | 0 <= k < |s| && Holds(s[k], j)
      ensures k == ShardIndexOf(first, n, j)
    {
      MulStep(k, n);
      FloorDivUnique(j - first, n, k);
    }
  }

  /** The written shards and the intended ones agree in number, numbering
      and starts; only the final end differs, `last` against `last + 1`. */
  lemma AsWrittenVsIntended(first: int, last: int, n: int)
    requires n > 0 && first <= last
    ensures var w := ShardsAsWritten(first, last, n);
      var s := Shards(first, last, n);
      && |w| == |s| && w != []
      && (forall k :: 0 <= k < |w| - 1 ==> w[k] == s[k])
      && w[|w| - 1] == s[|s| - 1].(end := last)
  {
    CutAt(0, first, last, last, n);
    CutAt(0, first, last, last + 1, n);
    CutCount(0, first, last, last, n);
    CutCount(0, first, last, last + 1, n);
    var w := ShardsAsWritten(first, last, n);
    var q := |w|;
    MulStep(q - 1, n);
    forall k | 0 <= k < q - 1 ensures w[k] == Shards(first, last, n)[k] {
      MulStep(k, n);
      if k + 1 < q - 1 {
        MulMono(k + 1, q - 1, n);
      }
    }
  }

  // ---------------------------------------------------------------------------
  // The write-job plan

  /** A shard-writing job: the split it belongs to and its boundaries. */
  datatype WriteJob = WriteJob(split: Split, shard: Shard)

  /** `tvt_set_indexes[0]` raises on a split with no windows. */
  datatype PlanError = EmptySplit(split: Split)

  function Tagged(s: Split, shards: seq<Shard>): (r: seq<WriteJob>)
    ensures |r| == |shards|
  {
    seq(|shards|, k requires 0 <= k < |shards| => WriteJob(s, shards[k]))
  }

  /** The jobs of one split. */
  function SplitJobs(labels: seq<Split>, s: Split, n: int): Result<seq<WriteJob>, PlanError>
    requires n > 0
  {
    var idx := IndexesOf(labels, s);
    if idx == [] then Err(EmptySplit(s))
    else Ok(Tagged(s, ShardsAsWritten(idx[0], idx[|idx| - 1], n)))
  }

  /** The jobs of the splits `ss` in turn, stopping at the first failure. */
  function WritePlan(labels: seq<Split>, n: int, ss: seq<Split>): Result<seq<WriteJob>, PlanError>
    requires n > 0
  {
    if ss == [] then Ok([])
    else
      match WritePlan(labels, n, ss[..|ss| - 1])
      case Err(e) => Err(e)
      case Ok(jobs) =>
        match SplitJobs(labels, ss[|ss| - 1], n)
        case Err(e) => Err(e)
        case Ok(more) => Ok(jobs + more)
  }

  const SplitSets: seq<Split> := [Train, Valid, Test]

  /** Lines 255-292 without the command strings: for each split in turn, its
      windows' indices and then the shard loop. */
  method PlanWriteJobs(labels: seq<Split>, n: int) returns (r: Result<seq<WriteJob>, PlanError>)
    requires n > 0
    ensures r == WritePlan(labels, n, SplitSets)
  {
    var writeJobs := [];
    for t := 0 to |SplitSets|
      invariant WritePlan(labels, n, SplitSets[..t]) == Ok(writeJobs)
    {
      var tvtSet := SplitSets[t];
      assert SplitSets[..t + 1][..t] == SplitSets[..t];
      var tvtSetIndexes := IndexesOf(labels, tvtSet);
      if |tvtSetIndexes| == 0 {
        r := Err(EmptySplit(tvtSet));
        assert SplitSets[..t + 1] + SplitSets[t + 1..] == SplitSets;
        WritePlanStops(labels, n, SplitSets[..t + 1], SplitSets[t + 1..]);
        return;
      }
      var shards := ShardLoop(tvtSetIndexes[0], tvtSetIndexes[|tvtSetIndexes| - 1], n);
      writeJobs := writeJobs + Tagged(tvtSet, shards);
    }
    assert SplitSets[..|SplitSets|] == SplitSets;
    r := Ok(writeJobs);
  }

  /** Once a split fails, later splits are not planned. */
  lemma {:induction false} WritePlanStops(labels: seq<Split>, n: int, ss: seq<Split>, more: seq<Split>)
    requires n > 0 && WritePlan(labels, n, ss).Err?
    ensures WritePlan(labels, n, ss + more) == WritePlan(labels, n, ss)
    decreases |more|
  {
    if more == [] {
      assert ss + more == ss;
    } else {
      var m := |more| - 1;
      assert (ss + more)[..|ss + more| - 1] == ss + more[..m];
      WritePlanStops(labels, n, ss, more[..m]);
    }
  }

  /** A split's jobs fail exactly when it has no windows. */
  lemma SplitJobsFail(labels: seq<Split>, s: Split, n: int)
    requires n > 0
    ensures SplitJobs(labels, s, n).Err? <==> s !in labels
    ensures SplitJobs(labels, s, n).Err? ==> SplitJobs(labels, s, n).error == EmptySplit(s)
  {
    IndexesOfCorrect(labels, s);
    if IndexesOf(labels, s) != [] {
      assert labels[IndexesOf(labels, s)[0]] == s;
    }
  }

  /** Planning one more split fails when the plan so far failed, with the
      same error, or else when that split's jobs fail. */
  lemma WritePlanStep(labels: seq<Split>, n: int, ss: seq<Split>, s: Split)
    requires n > 0
    ensures var p, q := WritePlan(labels, n, ss), WritePlan(labels, n, ss + [s]);
      && (q.Err? <==> p.Err? || SplitJobs(labels, s, n).Err?)
      && (q.Err? ==> q.error == if p.Err? then p.error else SplitJobs(labels, s, n).error)
  {
    assert (ss + [s])[..|ss|] == ss;
  }

  /** The plan fails exactly when a split has no windows, naming the first
      such split in the order train, valid, test. */
  lemma WritePlanFails(labels: seq<Split>, n: int)
    requires n > 0
    ensures WritePlan(labels, n, SplitSets).Err? <==> Train !in labels || Valid !in labels || Test !in labels
    ensures WritePlan(labels, n, SplitSets).Err? ==>
      WritePlan(labels, n, SplitSets).error ==
        EmptySplit(if Train !in labels then Train else if Valid !in labels then Valid else Test)
  {
    SplitJobsFail(labels, Train, n);
    SplitJobsFail(labels, Valid, n);
    SplitJobsFail(labels, Test, n);
    WritePlanStep(labels, n, [], Train);
    WritePlanStep(labels, n, [Train], Valid);
    WritePlanStep(labels, n, [Train, Valid], Test);
    assert [] + [Train] == [Train];
    assert [Train] + [Valid] == [Train, Valid];
    assert [Train, Valid] + [Test] == SplitSets;
  }

  /** With block-ordered labels each job's range stays inside its own split's
      block: every window index it covers carries its split's label. */
  lemma WriteJobsWithinSplit(labels: seq<Split>, n: int, s: Split)
    requires n > 0 && BlockOrdered(labels) && SplitJobs(labels, s, n).Ok?
    ensures forall job, j :: job in SplitJobs(labels, s, n).value && job.shard.start <= j < job.shard.end ==>
      0 <= j < |labels| && labels[j] == s && job.split == s
  {
    var idx := IndexesOf(labels, s);
    var first, last := idx[0], idx[|idx| - 1];
    SplitBlockContiguous(labels, s);
    AsWrittenMissesLast(first, last, n);
    var w := ShardsAsWritten(first, last, n);
    forall job, j | job in SplitJobs(labels, s, n).value && job.shard.start <= j < job.shard.end
      ensures 0 <= j < |labels| && labels[j] == s && job.split == s
    {
      var k :| 0 <= k < |w| && job == Tagged(s, w)[k];
      assert job.shard == w[k];
      assert w[k].start <= j < w[k].end;
    }
  }
}
