/**
  Dividing contigs between the train, valid and test splits
  (`divide_contigs_chr` and `divide_contigs_pct`).  Both walk a list of
  contigs, append each one to the list of the split it is given and add its
  length to that split's running total; they differ in how the split is
  chosen.  Both end by reporting each split's share of `total_nt`, which
  divides by zero when the contigs hold no nucleotides.
 */
module Splits {
  import opened Genome
  import opened Masks
  import opened Wrappers
  import opened ContigOrder

  /** The three contig lists and their running nucleotide totals. */
  datatype Division = Division(
    train: seq<Contig>, valid: seq<Contig>, test: seq<Contig>,
    trainNt: int, validNt: int, testNt: int)

  /** The report divides by `total_nt`; an empty total raises. */
  datatype DivideError = ZeroTotal

  function ListOf(d: Division, s: Split): seq<Contig>
  {
    match s
    case Train => d.train
    case Valid => d.valid
    case Test => d.test
  }

  function NtOf(d: Division, s: Split): int
  {
    match s
    case Train => d.trainNt
    case Valid => d.validNt
    case Test => d.testNt
  }

  /** One step of either loop: append `c` to split `s` and count its length. */
  function Assign(d: Division, c: Contig, s: Split): Division
  {
    match s
    case Train => d.(train := d.train + [c], trainNt := d.trainNt + Length(c))
    case Valid => d.(valid := d.valid + [c], validNt := d.validNt + Length(c))
    case Test => d.(test := d.test + [c], testNt := d.testNt + Length(c))
  }

  /** Both loops run to the end: contig `i` goes to split `draws[i]`. */
  function Replay(cs: seq<Contig>, draws: seq<Split>): Division
    requires |cs| == |draws|
  {
    if cs == [] then Division([], [], [], 0, 0, 0)
    else Assign(Replay(cs[..|cs| - 1], draws[..|draws| - 1]), cs[|cs| - 1], draws[|draws| - 1])
  }

  /** The mask of the positions drawn for split `s`. */
  function Picks(draws: seq<Split>, s: Split): seq<bool>
  {
    seq(|draws|, i requires 0 <= i < |draws| => draws[i] == s)
  }

  lemma AssignList(d: Division, c: Contig, t: Split, s: Split)
    ensures ListOf(Assign(d, c, t), s) == if t == s then ListOf(d, s) + [c] else ListOf(d, s)
    ensures NtOf(Assign(d, c, t), s) == if t == s then NtOf(d, s) + Length(c) else NtOf(d, s)
  {
  }

  /** Each list holds exactly the contigs drawn for its split, in input order. */
  lemma {:induction false} ReplayLists(cs: seq<Contig>, draws: seq<Split>, s: Split)
    requires |cs| == |draws|
    ensures ListOf(Replay(cs, draws), s) == Select(cs, Picks(draws, s))
  {
    if cs != [] {
      var n := |cs| - 1;
      var m := Picks(draws, s);
      var d := Replay(cs[..n], draws[..n]);
      ReplayLists(cs[..n], draws[..n], s);
      assert Replay(cs, draws) == Assign(d, cs[n], draws[n]);
      AssignList(d, cs[n], draws[n], s);
      assert m[..n] == Picks(draws[..n], s);
      assert Select(cs, m) == Select(cs[..n], m[..n]) + (if m[n] then [cs[n]] else []);
    }
  }

  /** Each running total is the summed length of its list. */
  lemma {:induction false} ReplayTotals(cs: seq<Contig>, draws: seq<Split>, s: Split)
    requires |cs| == |draws|
    ensures NtOf(Replay(cs, draws), s) == TotalLength(ListOf(Replay(cs, draws), s))
  {
    if cs != [] {
      var n := |cs| - 1;
      var d := Replay(cs[..n], draws[..n]);
      ReplayTotals(cs[..n], draws[..n], s);
      assert Replay(cs, draws) == Assign(d, cs[n], draws[n]);
      AssignList(d, cs[n], draws[n], s);
      var l := ListOf(d, s);
      if draws[n] == s {
        assert (l + [cs[n]])[..|l|] == l;
        assert TotalLength(l + [cs[n]]) == TotalLength(l) + Length(cs[n]);
      }
    }
  }

  /** Every contig lands in exactly one list: together the lists are a
      permutation of the input and the totals add up to its length. */
  lemma {:induction false} ReplayPartition(cs: seq<Contig>, draws: seq<Split>)
    requires |cs| == |draws|
    ensures var d := Replay(cs, draws);
      && multiset(d.train) + multiset(d.valid) + multiset(d.test) == multiset(cs)
      && d.trainNt + d.validNt + d.testNt == TotalLength(cs)
  {
    if cs != [] {
      var n := |cs| - 1;
      var d := Replay(cs[..n], draws[..n]);
      ReplayPartition(cs[..n], draws[..n]);
      assert Replay(cs, draws) == Assign(d, cs[n], draws[n]);
      assert multiset(cs) == multiset(cs[..n]) + multiset{cs[n]} by {
        assert cs == cs[..n] + [cs[n]];
      }
    }
  }

  // ---------------------------------------------------------------------------
  // By chromosome

  /** Test is checked first, so a chromosome named for both goes to test. */
  function ChrSplitOf(chr: string, testChr: string, validChr: string): Split
  {
    if chr == testChr then Test else if chr == validChr then Valid else Train
  }

  function ChrDraws(cs: seq<Contig>, testChr: string, validChr: string): (draws: seq<Split>)
    ensures |draws| == |cs|
  {
    seq(|cs|, i requires 0 <= i < |cs| => ChrSplitOf(cs[i].chr, testChr, validChr))
  }

  /** `divide_contigs_chr`. */
  method DivideContigsChr(contigs: seq<Contig>, testChr: string, validChr: string)
    returns (r: Result<Division, DivideError>)
    ensures r.Err? <==> TotalLength(contigs) == 0
    ensures r.Ok? ==> r.value == Replay(contigs, ChrDraws(contigs, testChr, validChr))
  {
    var trainNt, validNt, testNt := 0, 0, 0;
    var trainContigs, validContigs, testContigs := [], [], [];
    ghost var draws := ChrDraws(contigs, testChr, validChr);
    for k := 0 to |contigs|
      invariant Division(trainContigs, validContigs, testContigs, trainNt, validNt, testNt)
        == Replay(contigs[..k], draws[..k])
    {
      var ctg := contigs[k];
      var ctgLen := ctg.end - ctg.start;
      if ctg.chr == testChr {
        testContigs := testContigs + [ctg];
        testNt := testNt + ctgLen;
      } else if ctg.chr == validChr {
        validContigs := validContigs + [ctg];
        validNt := validNt + ctgLen;
      } else {
        trainContigs := trainContigs + [ctg];
        trainNt := trainNt + ctgLen;
      }
      assert contigs[..k + 1][..k] == contigs[..k];
      assert draws[..k + 1][..k] == draws[..k];
    }
    assert contigs[..|contigs|] == contigs && draws[..|draws|] == draws;
    ReplayPartition(contigs, draws);
    var totalNt := trainNt + validNt + testNt;
    if totalNt == 0 {
      r := Err(ZeroTotal);
    } else {
      r := Ok(Division(trainContigs, validContigs, testContigs, trainNt, validNt, testNt));
    }
  }

  /** The chromosome split: each contig goes to the list its chromosome name
      alone selects; each list keeps input order; the lists partition the
      input and the totals add up; a name given for both test and valid sends
      its contigs to test and leaves valid empty. */
  lemma ChrDivisionCorrect(contigs: seq<Contig>, testChr: string, validChr: string)
    ensures var d := Replay(contigs, ChrDraws(contigs, testChr, validChr));
      && (forall i :: 0 <= i < |contigs| ==> contigs[i] in ListOf(d, ChrSplitOf(contigs[i].chr, testChr, validChr)))
      && (forall s :: ListOf(d, s) == Select(contigs, Picks(ChrDraws(contigs, testChr, validChr), s)))
      && multiset(d.train) + multiset(d.valid) + multiset(d.test) == multiset(contigs)
      && d.trainNt + d.validNt + d.testNt == TotalLength(contigs)
      && (testChr == validChr ==> d.valid == [])
  {
    var draws := ChrDraws(contigs, testChr, validChr);
    ReplayPartition(contigs, draws);
    ChrListsSelect(contigs, testChr, validChr);
    ChrPlacement(contigs, testChr, validChr);
    if testChr == validChr {
      ChrValidShadowed(contigs, testChr, validChr);
    }
  }

  /** With one name given for both test and valid, valid stays empty. */
  lemma ChrValidShadowed(contigs: seq<Contig>, testChr: string, validChr: string)
    requires testChr == validChr
    ensures Replay(contigs, ChrDraws(contigs, testChr, validChr)).valid == []
  {
    var draws := ChrDraws(contigs, testChr, validChr);
    ReplayLists(contigs, draws, Valid);
    assert forall i :: 0 <= i < |draws| ==> !Picks(draws, Valid)[i];
  }

  /** Each chromosome-split list is the selection of the contigs drawn for it. */
  lemma ChrListsSelect(contigs: seq<Contig>, testChr: string, validChr: string)
    ensures var draws := ChrDraws(contigs, testChr, validChr);
      forall s :: ListOf(Replay(contigs, draws), s) == Select(contigs, Picks(draws, s))
  {
    var draws := ChrDraws(contigs, testChr, validChr);
    forall s ensures ListOf(Replay(contigs, draws), s) == Select(contigs, Picks(draws, s)) {
      ReplayLists(contigs, draws, s);
    }
  }

  /** Every contig appears in the list its chromosome name selects. */
  lemma ChrPlacement(contigs: seq<Contig>, testChr: string, validChr: string)
    ensures var d := Replay(contigs, ChrDraws(contigs, testChr, validChr));
      forall i :: 0 <= i < |contigs| ==> contigs[i] in ListOf(d, ChrSplitOf(contigs[i].chr, testChr, validChr))
  {
    var draws := ChrDraws(contigs, testChr, validChr);
    forall i | 0 <= i < |contigs|
      ensures contigs[i] in ListOf(Replay(contigs, draws), ChrSplitOf(contigs[i].chr, testChr, validChr))
    {
      var s := ChrSplitOf(contigs[i].chr, testChr, validChr);
      ReplayLists(contigs, draws, s);
      SelectMembers(contigs, Picks(draws, s), contigs[i]);
    }
  }

  // ---------------------------------------------------------------------------
  // By nucleotide percentage

  /** The default abstention fraction `pct_abstain`. */
  const PctAbstain: real := 0.2

  /** Aimed nucleotides per split; train gets what test and valid do not. */
  datatype Aims = Aims(train: real, valid: real, test: real)

  function AimsFor(totalNt: int, testPct: real, validPct: real): (a: Aims)
    ensures a.train + a.valid + a.test == totalNt as real
  {
    var test := testPct * totalNt as real;
    var valid := validPct * totalNt as real;
    Aims(totalNt as real - valid - test, valid, test)
  }

  /** The unnormalised draw weights for each split. */
  datatype Weights = Weights(train: real, valid: real, test: real)

  function WeightOf(w: Weights, s: Split): real
  {
    match s
    case Train => w.train
    case Valid => w.valid
    case Test => w.test
  }

  function MaxReal(a: real, b: real): real
  {
    if a >= b then a else b
  }

  /** The gaps to each aim for a contig of `ctgLen` nucleotides, with the gap
      of a split the contig is too large for set to zero. */
  function GapWeights(ctgLen: int, aims: Aims, trainNt: int, validNt: int, testNt: int): (w: Weights)
    ensures w.train >= 1.0 && w.valid >= 0.0 && w.test >= 0.0
  {
    var testGap := MaxReal(0.0, aims.test - testNt as real);
    var validGap := MaxReal(0.0, aims.valid - validNt as real);
    var trainGap := MaxReal(1.0, aims.train - trainNt as real);
    Weights(
      trainGap,
      if ctgLen as real > PctAbstain * validGap then 0.0 else validGap,
      if ctgLen as real > PctAbstain * testGap then 0.0 else testGap)
  }

  /** Which splits the draw can return: train always (its weight is at least
      1, so the error branch after the draw is unreachable); valid or test
      exactly when its aim is not yet met and the contig is no larger than the
      abstention fraction of the remaining gap. */
  lemma DrawableSplits(ctgLen: int, aims: Aims, trainNt: int, validNt: int, testNt: int)
    ensures var w := GapWeights(ctgLen, aims, trainNt, validNt, testNt);
      && Drawable(w, Train)
      && (Drawable(w, Test) <==>
            testNt as real < aims.test && ctgLen as real <= PctAbstain * (aims.test - testNt as real))
      && (Drawable(w, Valid) <==>
            validNt as real < aims.valid && ctgLen as real <= PctAbstain * (aims.valid - validNt as real))
  {
  }

  /** The probabilities handed to the draw: the weights over their sum, which is
      at least 1, so they form a distribution and a split has positive
      probability exactly when it has positive weight. */
  function Probabilities(w: Weights): (p: Weights)
    requires w.train >= 1.0 && w.valid >= 0.0 && w.test >= 0.0
    ensures p.train + p.valid + p.test == 1.0
    ensures forall s :: 0.0 <= WeightOf(p, s) && (WeightOf(p, s) > 0.0 <==> WeightOf(w, s) > 0.0)
  {
    var gapSum := w.train + w.valid + w.test;
    Weights(w.train / gapSum, w.valid / gapSum, w.test / gapSum)
  }

  /** A split the draw can return: one with positive weight. */
  predicate Drawable(w: Weights, s: Split)
  {
    WeightOf(w, s) > 0.0
  }

  /** Every draw in `draws` was possible given the totals reached before it. */
  ghost predicate Admissible(cs: seq<Contig>, draws: seq<Split>, aims: Aims)
    requires |cs| == |draws|
  {
    cs == [] ||
    var n := |cs| - 1;
    var d := Replay(cs[..n], draws[..n]);
    && Admissible(cs[..n], draws[..n], aims)
    && Drawable(GapWeights(Length(cs[n]), aims, d.trainNt, d.validNt, d.testNt), draws[n])
  }

  /** One more admissible draw extends an admissible prefix of `cs`. */
  lemma AdmissibleExtend(cs: seq<Contig>, draws: seq<Split>, aims: Aims, k: nat, s: Split)
    requires k < |cs| && |draws| == k && Admissible(cs[..k], draws, aims)
    requires var d := Replay(cs[..k], draws);
      Drawable(GapWeights(Length(cs[k]), aims, d.trainNt, d.validNt, d.testNt), s)
    ensures Admissible(cs[..k + 1], draws + [s], aims)
    ensures Replay(cs[..k + 1], draws + [s]) == Assign(Replay(cs[..k], draws), cs[k], s)
  {
    assert cs[..k + 1][..k] == cs[..k];
    assert (draws + [s])[..k] == draws;
  }

  /** `np.random.choice` over the three splits with the normalised weights:
      the draw is left nondeterministic, but it only returns a split whose
      probability is positive. */
  method Choose(w: Weights) returns (ri: Split)
    requires w.train >= 1.0 && w.valid >= 0.0 && w.test >= 0.0
    ensures Drawable(w, ri)
  {
    var p := Probabilities(w);
    assert WeightOf(p, Train) > 0.0;
    ri :| WeightOf(p, ri) > 0.0;
  }

  /** `divide_contigs_pct`: contigs are visited longest first and each is given
      one of the splits the weighted draw can return. */
  method DivideContigsPct(contigs: seq<Contig>, testPct: real, validPct: real)
    returns (r: Result<Division, DivideError>, ghost draws: seq<Split>)
    ensures |draws| == |contigs|
    ensures Admissible(SortDescending(contigs), draws, AimsFor(TotalLength(contigs), testPct, validPct))
    ensures r.Err? <==> TotalLength(contigs) == 0
    ensures r.Ok? ==> r.value == Replay(SortDescending(contigs), draws)
  {
    var lengthContigs := SortDescending(contigs);
    SortDescendingCorrect(contigs);
    var totalNt := TotalLength(lengthContigs);
    TotalLengthPermutation(lengthContigs, contigs);
    var aims := AimsFor(totalNt, testPct, validPct);

    var trainNt, validNt, testNt := 0, 0, 0;
    var trainContigs, validContigs, testContigs := [], [], [];
    draws := [];
    for k := 0 to |lengthContigs|
      invariant |draws| == k
      invariant Division(trainContigs, validContigs, testContigs, trainNt, validNt, testNt)
        == Replay(lengthContigs[..k], draws)
      invariant Admissible(lengthContigs[..k], draws, aims)
    {
      var ctg := lengthContigs[k];
      var ctgLen := ctg.end - ctg.start;
      var w := GapWeights(ctgLen, aims, trainNt, validNt, testNt);
      var ri := Choose(w);
      AdmissibleExtend(lengthContigs, draws, aims, k, ri);
      ghost var next := Assign(Division(trainContigs, validContigs, testContigs, trainNt, validNt, testNt), ctg, ri);
      match ri {
        case Train =>
          trainContigs := trainContigs + [ctg];
          trainNt := trainNt + ctgLen;
        case Valid =>
          validContigs := validContigs + [ctg];
          validNt := validNt + ctgLen;
        case Test =>
          testContigs := testContigs + [ctg];
          testNt := testNt + ctgLen;
      }
      assert Division(trainContigs, validContigs, testContigs, trainNt, validNt, testNt) == next;
      draws := draws + [ri];
    }
    assert lengthContigs[..|lengthContigs|] == lengthContigs;
    if totalNt == 0 {
      r := Err(ZeroTotal);
    } else {
      r := Ok(Division(trainContigs, validContigs, testContigs, trainNt, validNt, testNt));
    }
  }

  /** Whatever the draws, the percentage split's lists partition the input
      contigs and each running total is the summed length of its list. */
  lemma PctDivisionPartition(contigs: seq<Contig>, draws: seq<Split>)
    requires |draws| == |contigs|
    ensures var d := Replay(SortDescending(contigs), draws);
      && multiset(d.train) + multiset(d.valid) + multiset(d.test) == multiset(contigs)
      && d.trainNt + d.validNt + d.testNt == TotalLength(contigs)
      && (forall s :: NtOf(d, s) == TotalLength(ListOf(d, s)))
  {
    var sorted := SortDescending(contigs);
    SortDescendingCorrect(contigs);
    TotalLengthPermutation(sorted, contigs);
    ReplayPartition(sorted, draws);
    forall s ensures NtOf(Replay(sorted, draws), s) == TotalLength(ListOf(Replay(sorted, draws), s)) {
      ReplayTotals(sorted, draws, s);
    }
  }

  /** A contig drawn for valid or test fits inside that split's remaining gap. */
  lemma DrawnWithinAim(len: int, aims: Aims, trainNt: int, validNt: int, testNt: int, s: Split)
    requires Drawable(GapWeights(len, aims, trainNt, validNt, testNt), s)
    ensures s == Test ==> (testNt + len) as real <= aims.test
    ensures s == Valid ==> (validNt + len) as real <= aims.valid
  {
    DrawableSplits(len, aims, trainNt, validNt, testNt);
  }

  /** With non-negative aims, valid
      and test never pass their aims: a contig is only drawn for them when it
      fits inside the remaining gap. */
  lemma {:induction false} PctNoOvershoot(cs: seq<Contig>, draws: seq<Split>, aims: Aims)
    requires |cs| == |draws| && Admissible(cs, draws, aims)
    requires aims.valid >= 0.0 && aims.test >= 0.0
    ensures Replay(cs, draws).validNt as real <= aims.valid
    ensures Replay(cs, draws).testNt as real <= aims.test
  {
    if cs != [] {
      var n := |cs| - 1;
      var d := Replay(cs[..n], draws[..n]);
      var len := Length(cs[n]);
      PctNoOvershoot(cs[..n], draws[..n], aims);
      var w := GapWeights(len, aims, d.trainNt, d.validNt, d.testNt);
      assert Drawable(w, draws[n]);
      var e := Replay(cs, draws);
      assert e == Assign(d, cs[n], draws[n]);
      DrawnWithinAim(len, aims, d.trainNt, d.validNt, d.testNt, draws[n]);
    }
  }
}
