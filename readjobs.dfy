/**
  The coverage-reading jobs of `main`: one job per target, writing
  `<seqs_cov_dir>/<ti>.h5`, skipped when that file already exists.  The set
  of existing files is a parameter; the command strings and their execution
  are not modelled.
 */
module ReadJobs {

  function Digit(d: nat): char
    requires d < 10
  {
    ('0' as int + d) as char
  }

  /** `'%d' % n`: decimal digits, no leading zero. */
  function NatToString(n: nat): (s: string)
    ensures |s| >= 1
    ensures forall i :: 0 <= i < |s| ==> '0' <= s[i] <= '9'
    ensures n >= 10 <==> |s| >= 2
  {
    if n < 10 then [Digit(n)] else NatToString(n / 10) + [Digit(n % 10)]
  }

  /** Different numbers print differently. */
  lemma {:induction false} NatToStringInjective(a: nat, b: nat)
    requires NatToString(a) == NatToString(b)
    ensures a == b
    decreases a
  {
    var s := NatToString(a);
    if a >= 10 {
      assert s[..|s| - 1] == NatToString(a / 10) && NatToString(b)[..|s| - 1] == NatToString(b / 10);
      NatToStringInjective(a / 10, b / 10);
    }
  }

  /** `seqs_cov_stem`, `'%s/%d' % (seqs_cov_dir, ti)`. */
  function CovStem(dir: string, ti: nat): string
  {
    dir + "/" + NatToString(ti)
  }

  /** `seqs_cov_file`, `'%s.h5' % seqs_cov_stem`. */
  function CovFile(dir: string, ti: nat): string
  {
    CovStem(dir, ti) + ".h5"
  }

  /** Each target writes to its own file. */
  lemma CovFileInjective(dir: string, a: nat, b: nat)
    requires CovFile(dir, a) == CovFile(dir, b)
    ensures a == b
  {
    var sa, sb := NatToString(a), NatToString(b);
    var fa, fb := CovFile(dir, a), CovFile(dir, b);
    assert |sa| == |sb|;
    assert fa == dir + "/" + sa + ".h5";
    assert fb == dir + "/" + sb + ".h5";
    assert sa == fa[|dir| + 1..|dir| + 1 + |sa|];
    assert sb == fb[|dir| + 1..|dir| + 1 + |sb|];
    NatToStringInjective(a, b);
  }

  /** A planned read: target `ti`, its genome coverage file and the output. */
  datatype ReadJob = ReadJob(target: nat, genomeCovFile: string, seqsCovFile: string)

  /** The jobs for targets whose output is not among `existing`, in target
      order. */
  function ReadPlan(dir: string, targetFiles: seq<string>, existing: set<string>): seq<ReadJob>
  {
    if targetFiles == [] then []
    else
      var ti := |targetFiles| - 1;
      ReadPlan(dir, targetFiles[..ti], existing)
        + if CovFile(dir, ti) in existing then [] else [ReadJob(ti, targetFiles[ti], CovFile(dir, ti))]
  }

  /** Lines 216-239 without the command strings. */
  method PlanReadJobs(seqsCovDir: string, targetFiles: seq<string>, existing: set<string>)
    returns (readJobs: seq<ReadJob>)
    ensures readJobs == ReadPlan(seqsCovDir, targetFiles, existing)
  {
    readJobs := [];
    for ti := 0 to |targetFiles|
      invariant readJobs == ReadPlan(seqsCovDir, targetFiles[..ti], existing)
    {
      assert targetFiles[..ti + 1][..ti] == targetFiles[..ti];
      var genomeCovFile := targetFiles[ti];
      var seqsCovFile := CovFile(seqsCovDir, ti);
      if seqsCovFile !in existing {
        readJobs := readJobs + [ReadJob(ti, genomeCovFile, seqsCovFile)];
      }
    }
    assert targetFiles[..|targetFiles|] == targetFiles;
  }

  /** Every planned job is for a target whose output is missing, and reads
      that target's file into that target's output. */
  lemma {:induction false} ReadPlanSound(dir: string, targetFiles: seq<string>, existing: set<string>)
    ensures forall k :: 0 <= k < |ReadPlan(dir, targetFiles, existing)| ==>
      var job := ReadPlan(dir, targetFiles, existing)[k];
      job.target < |targetFiles| && CovFile(dir, job.target) !in existing
      && job == ReadJob(job.target, targetFiles[job.target], CovFile(dir, job.target))
  {
    if targetFiles != [] {
      var n := |targetFiles| - 1;
      var prefix := targetFiles[..n];
      ReadPlanSound(dir, prefix, existing);
      var prev := ReadPlan(dir, prefix, existing);
      forall k | 0 <= k < |prev| ensures targetFiles[prev[k].target] == prefix[prev[k].target] {
      }
    }
  }

  /** `plan` holds a job for target `ti`. */
  predicate HasJob(plan: seq<ReadJob>, ti: nat)
  {
    exists k :: 0 <= k < |plan| && plan[k].target == ti
  }

  /** Every target whose output is missing has a job. */
  lemma {:induction false} ReadPlanComplete(dir: string, targetFiles: seq<string>, existing: set<string>)
    ensures forall ti :: 0 <= ti < |targetFiles| && CovFile(dir, ti) !in existing ==>
      HasJob(ReadPlan(dir, targetFiles, existing), ti)
  {
    if targetFiles != [] {
      var n := |targetFiles| - 1;
      var prefix := targetFiles[..n];
      ReadPlanComplete(dir, prefix, existing);
      var plan := ReadPlan(dir, targetFiles, existing);
      var prev := ReadPlan(dir, prefix, existing);
      forall ti | 0 <= ti < |targetFiles| && CovFile(dir, ti) !in existing
        ensures HasJob(plan, ti)
      {
        if ti < n {
          var k :| 0 <= k < |prev| && prev[k].target == ti;
          assert plan[k] == prev[k];
        } else {
          assert plan[|plan| - 1].target == ti;
        }
      }
    }
  }

  /** Jobs come in increasing target order, so no target has two. */
  lemma {:induction false} ReadPlanOrdered(dir: string, targetFiles: seq<string>, existing: set<string>)
    ensures forall a, b :: 0 <= a < b < |ReadPlan(dir, targetFiles, existing)| ==>
      ReadPlan(dir, targetFiles, existing)[a].target < ReadPlan(dir, targetFiles, existing)[b].target
  {
    if targetFiles != [] {
      var n := |targetFiles| - 1;
      var prefix := targetFiles[..n];
      ReadPlanOrdered(dir, prefix, existing);
      ReadPlanSound(dir, prefix, existing);
      var plan := ReadPlan(dir, targetFiles, existing);
      var prev := ReadPlan(dir, prefix, existing);
      forall a, b | 0 <= a < b < |plan| ensures plan[a].target < plan[b].target {
        assert plan[a] == prev[a] && prev[a].target < n;
        if b < |prev| {
          assert plan[b] == prev[b];
        } else {
          assert plan[b].target == n;
        }
      }
    }
  }

  /** The outputs a plan writes. */
  function Outputs(plan: seq<ReadJob>): set<string>
  {
    set k | 0 <= k < |plan| :: plan[k].seqsCovFile
  }

  /** Running the planner again once the planned outputs exist plans nothing:
      no job is repeated. */
  lemma ReadPlanRerun(dir: string, targetFiles: seq<string>, existing: set<string>)
    ensures ReadPlan(dir, targetFiles, existing + Outputs(ReadPlan(dir, targetFiles, existing))) == []
  {
    var plan := ReadPlan(dir, targetFiles, existing);
    ReadPlanComplete(dir, targetFiles, existing);
    ReadPlanSound(dir, targetFiles, existing);
    ReadPlanEmpty(dir, targetFiles, existing + Outputs(plan));
    forall ti | 0 <= ti < |targetFiles| ensures CovFile(dir, ti) in existing + Outputs(plan) {
      if CovFile(dir, ti) !in existing {
        assert HasJob(plan, ti);
        var k :| 0 <= k < |plan| && plan[k].target == ti;
        assert plan[k].seqsCovFile == CovFile(dir, ti);
      }
    }
  }

  /** With every output present the plan is empty. */
  lemma {:induction false} ReadPlanEmpty(dir: string, targetFiles: seq<string>, existing: set<string>)
    ensures ReadPlan(dir, targetFiles, existing) == [] <==>
      forall ti :: 0 <= ti < |targetFiles| ==> CovFile(dir, ti) in existing
  {
    if targetFiles != [] {
      var n := |targetFiles| - 1;
      ReadPlanEmpty(dir, targetFiles[..n], existing);
    }
  }
}
