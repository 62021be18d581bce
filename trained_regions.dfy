/**
  Dropping the test sequences that overlap regions used for training, and
  renumbering the transcript map so that each kept transcript still points at
  its own sequence.  The overlap count of each sequence (the last field of a
  `bedtools intersect -c` line) is a parameter; the one-hot sequences and
  the target rows are opaque values.
 */
module TrainedRegions {
  import opened Masks

  /** An entry of the ordered transcript map: name -> (sequence index, position). */
  datatype TxEntry = TxEntry(name: string, seqIndex: nat, pos: int)

  /** `seqs_keep`: a sequence is kept when it overlaps no ignored region. */
  function Keep(counts: seq<int>): seq<bool>
  {
    seq(|counts|, i requires 0 <= i < |counts| => counts[i] == 0)
  }

  /** Every transcript points at one of `n` sequences. */
  predicate Indexed(transcriptMap: seq<TxEntry>, n: nat)
  {
    forall t :: 0 <= t < |transcriptMap| ==> transcriptMap[t].seqIndex < n
  }

  /** `transcripts_keep`: a transcript is kept when its sequence is. */
  function TxKeep(keep: seq<bool>, transcriptMap: seq<TxEntry>): seq<bool>
    requires Indexed(transcriptMap, |keep|)
  {
    seq(|transcriptMap|, t requires 0 <= t < |transcriptMap| => keep[transcriptMap[t].seqIndex])
  }

  /** A kept transcript's entry, its sequence index replaced by the number
      of kept sequences before it (`seqs_keep[:tx_i].sum()`). */
  function Renumbered(keep: seq<bool>, e: TxEntry): TxEntry
    requires e.seqIndex <= |keep|
  {
    TxEntry(e.name, Rank(keep, e.seqIndex), e.pos)
  }

  /** Every entry renumbered. */
  function Relabel(keep: seq<bool>, transcriptMap: seq<TxEntry>): seq<TxEntry>
    requires Indexed(transcriptMap, |keep|)
  {
    seq(|transcriptMap|, t requires 0 <= t < |transcriptMap| => Renumbered(keep, transcriptMap[t]))
  }

  /** `transcript_map_new`: the kept transcripts, renumbered, in map order. */
  function KeptMap(keep: seq<bool>, transcriptMap: seq<TxEntry>): seq<TxEntry>
    requires Indexed(transcriptMap, |keep|)
  {
    if transcriptMap == [] then []
    else
      var e := transcriptMap[|transcriptMap| - 1];
      KeptMap(keep, transcriptMap[..|transcriptMap| - 1]) + if keep[e.seqIndex] then [Renumbered(keep, e)] else []
  }

  /** The new map is the renumbered entries selected by `transcripts_keep`. */
  lemma {:induction false} KeptMapSelect(keep: seq<bool>, transcriptMap: seq<TxEntry>)
    requires Indexed(transcriptMap, |keep|)
    ensures KeptMap(keep, transcriptMap) == Select(Relabel(keep, transcriptMap), TxKeep(keep, transcriptMap))
  {
    if transcriptMap != [] {
      var n := |transcriptMap| - 1;
      var prefix := transcriptMap[..n];
      KeptMapSelect(keep, prefix);
      assert Relabel(keep, transcriptMap)[..n] == Relabel(keep, prefix);
      assert TxKeep(keep, transcriptMap)[..n] == TxKeep(keep, prefix);
      SelectStep(Relabel(keep, transcriptMap), TxKeep(keep, transcriptMap));
    }
  }

  /** Lines 227-231: one keep flag per `bedtools` line. */
  method KeepMask(counts: seq<int>) returns (seqsKeep: seq<bool>)
    ensures seqsKeep == Keep(counts)
  {
    seqsKeep := [];
    for i := 0 to |counts|
      invariant seqsKeep == Keep(counts)[..i]
    {
      seqsKeep := seqsKeep + [counts[i] == 0];
    }
  }

  /** Lines 236-258: the keep flag of each transcript, and the new map. */
  method RenumberTranscripts(seqsKeep: seq<bool>, transcriptMap: seq<TxEntry>)
    returns (transcriptsKeep: seq<bool>, transcriptMapNew: seq<TxEntry>)
    requires Indexed(transcriptMap, |seqsKeep|)
    ensures transcriptsKeep == TxKeep(seqsKeep, transcriptMap)
    ensures transcriptMapNew == KeptMap(seqsKeep, transcriptMap)
  {
    transcriptsKeep := [];
    transcriptMapNew := [];
    for t := 0 to |transcriptMap|
      invariant transcriptsKeep == TxKeep(seqsKeep, transcriptMap)[..t]
      invariant transcriptMapNew == KeptMap(seqsKeep, transcriptMap[..t])
    {
      var txI, txPos := transcriptMap[t].seqIndex, transcriptMap[t].pos;
      assert transcriptMap[..t + 1][..t] == transcriptMap[..t];
      transcriptsKeep := transcriptsKeep + [seqsKeep[txI]];
      if seqsKeep[txI] {
        var txnI := Rank(seqsKeep, txI);  // seqs_keep[:tx_i].sum()
        transcriptMapNew := transcriptMapNew + [TxEntry(transcriptMap[t].name, txnI, txPos)];
      }
    }
    assert transcriptMap[..|transcriptMap|] == transcriptMap;
    assert transcriptsKeep == TxKeep(seqsKeep, transcriptMap);
  }

  /** `ignore_trained_regions` from the counts on: keeps the sequences with
      no overlap, and the transcripts and target rows of those sequences. */
  method IgnoreTrainedRegions<H, R>(counts: seq<int>, seqs1hot: seq<H>, transcriptMap: seq<TxEntry>,
                                    transcriptTargets: seq<R>)
    returns (seqs1hotNew: seq<H>, transcriptMapNew: seq<TxEntry>, transcriptTargetsNew: seq<R>)
    requires |seqs1hot| == |counts|
    requires Indexed(transcriptMap, |counts|)
    requires |transcriptTargets| == |transcriptMap|
    ensures seqs1hotNew == Select(seqs1hot, Keep(counts))
    ensures transcriptMapNew == KeptMap(Keep(counts), transcriptMap)
    ensures transcriptTargetsNew == Select(transcriptTargets, TxKeep(Keep(counts), transcriptMap))
  {
    var seqsKeep := KeepMask(counts);
    seqs1hotNew := Select(seqs1hot, seqsKeep);
    var transcriptsKeep;
    transcriptsKeep, transcriptMapNew := RenumberTranscripts(seqsKeep, transcriptMap);
    transcriptTargetsNew := Select(transcriptTargets, transcriptsKeep);
  }

  /** Every entry of the new map comes from a transcript whose sequence
      overlaps nothing; it keeps that transcript's name and position, its new
      index points at that same sequence among the kept ones, and the target
      row beside it is that transcript's row. */
  lemma KeptTranscriptsAligned<H, R>(counts: seq<int>, seqs1hot: seq<H>, transcriptMap: seq<TxEntry>,
                                     transcriptTargets: seq<R>)
    requires |seqs1hot| == |counts|
    requires Indexed(transcriptMap, |counts|)
    requires |transcriptTargets| == |transcriptMap|
    ensures var keep := Keep(counts);
      var newMap := KeptMap(keep, transcriptMap);
      var newSeqs := Select(seqs1hot, keep);
      var newTargets := Select(transcriptTargets, TxKeep(keep, transcriptMap));
      && |newTargets| == |newMap|
      && forall k :: 0 <= k < |newMap| ==>
        newMap[k].seqIndex < |newSeqs|
        && (exists t :: 0 <= t < |transcriptMap|
              && counts[transcriptMap[t].seqIndex] == 0
              && newMap[k].name == transcriptMap[t].name
              && newMap[k].pos == transcriptMap[t].pos
              && newSeqs[newMap[k].seqIndex] == seqs1hot[transcriptMap[t].seqIndex]
              && newTargets[k] == transcriptTargets[t])
  {
    var keep := Keep(counts);
    var relabel := Relabel(keep, transcriptMap);
    var txKeep := TxKeep(keep, transcriptMap);
    var newMap := KeptMap(keep, transcriptMap);
    KeptMapSelect(keep, transcriptMap);
    var newSeqs := Select(seqs1hot, keep);
    var newTargets := Select(transcriptTargets, txKeep);
    forall k | 0 <= k < |newMap|
      ensures newMap[k].seqIndex < |newSeqs|
      ensures (exists t :: 0 <= t < |transcriptMap|
                 && counts[transcriptMap[t].seqIndex] == 0
                 && newMap[k].name == transcriptMap[t].name
                 && newMap[k].pos == transcriptMap[t].pos
                 && newSeqs[newMap[k].seqIndex] == seqs1hot[transcriptMap[t].seqIndex]
                 && newTargets[k] == transcriptTargets[t])
    {
      SelectFrom(relabel, txKeep, k);
      var t :| 0 <= t < |txKeep| && txKeep[t] && Rank(txKeep, t) == k && newMap[k] == relabel[t];
      var i := transcriptMap[t].seqIndex;
      SelectAt(seqs1hot, keep, i);
      SelectAt(transcriptTargets, txKeep, t);
    }
  }

  /** No two transcripts share a name (the map is a dictionary). */
  predicate DistinctNames(transcriptMap: seq<TxEntry>)
  {
    forall a, b :: 0 <= a < b < |transcriptMap| ==> transcriptMap[a].name != transcriptMap[b].name
  }

  /** The names in a map. */
  function Names(transcriptMap: seq<TxEntry>): set<string>
  {
    set t | 0 <= t < |transcriptMap| :: transcriptMap[t].name
  }

  /** A transcript survives exactly when its sequence overlaps no ignored
      region. */
  lemma KeptIffNoOverlap(counts: seq<int>, transcriptMap: seq<TxEntry>, t: nat)
    requires Indexed(transcriptMap, |counts|) && DistinctNames(transcriptMap)
    requires t < |transcriptMap|
    ensures transcriptMap[t].name in Names(KeptMap(Keep(counts), transcriptMap))
        <==> counts[transcriptMap[t].seqIndex] == 0
  {
    var keep := Keep(counts);
    var relabel := Relabel(keep, transcriptMap);
    var txKeep := TxKeep(keep, transcriptMap);
    var newMap := KeptMap(keep, transcriptMap);
    KeptMapSelect(keep, transcriptMap);
    var name := transcriptMap[t].name;
    if name in Names(newMap) {
      var k :| 0 <= k < |newMap| && newMap[k].name == name;
      SelectMembers(relabel, txKeep, newMap[k]);
      var i :| 0 <= i < |relabel| && txKeep[i] && relabel[i] == newMap[k];
      assert transcriptMap[i].name == name;
      assert i == t;
    }
    if counts[transcriptMap[t].seqIndex] == 0 {
      SelectAt(relabel, txKeep, t);
      assert newMap[Rank(txKeep, t)].name == name;
    }
  }

  /** The renumbering keeps the order of the kept sequences and packs them
      into `0 .. number kept`. */
  lemma RenumberMonotone(counts: seq<int>, i: nat, j: nat)
    requires i < |counts| && j < |counts| && counts[i] == 0 && counts[j] == 0
    ensures Rank(Keep(counts), i) < Rank(Keep(counts), j) <==> i < j
    ensures Rank(Keep(counts), i) < CountTrue(Keep(counts))
  {
    var keep := Keep(counts);
    if i < j {
      RankOfKept(keep, i, j);
    } else if j < i {
      RankOfKept(keep, j, i);
    }
    RankBelowCount(keep, i);
  }

  /** The mask false, true, true, false renumbers sequence 1 to 0 and
      sequence 2 to 1. */
  lemma RankExample()
    ensures Keep([1, 0, 0, 2]) == [false, true, true, false]
    ensures Rank([false, true, true, false], 1) == 0 && Rank([false, true, true, false], 2) == 1
  {
    var keep := [false, true, true, false];
    assert keep[..1] == [false] && keep[..2] == [false, true];
  }

  /** Sequences 0 and 3 overlap, 1 and 2 do not: sequence 1 becomes 0 and
      sequence 2 becomes 1, and the transcript on sequence 3 is dropped. */
  lemma RenumberExample()
    ensures KeptMap(Keep([1, 0, 0, 2]), [TxEntry("a", 1, 7), TxEntry("b", 3, 8), TxEntry("c", 2, 9)])
         == [TxEntry("a", 0, 7), TxEntry("c", 1, 9)]
  {
    RankExample();
    var keep := [false, true, true, false];
    var a, b, c := TxEntry("a", 1, 7), TxEntry("b", 3, 8), TxEntry("c", 2, 9);
    assert KeptMap(keep, [a]) == [TxEntry("a", 0, 7)] by {
      assert [a][..0] == [];
    }
    assert KeptMap(keep, [a, b]) == [TxEntry("a", 0, 7)] by {
      assert [a, b][..1] == [a];
    }
    assert [a, b, c][..2] == [a, b];
  }
}
