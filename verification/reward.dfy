/**
 * The reward key a job is ranked by: its priority alone, or the triple
 * (priority, total size of its temporary inputs, total size of all inputs).
 */
module Reward {
  import opened Wrappers
  import opened Jobs
  import Lex

  /** Sizes of input files by path; an unknown size is `None`. */
  type SizeTable = map<string, Option<int>>

  /** Every input of the sequence has an entry in the size table. */
  predicate Sized(inputs: seq<InputFile>, sizes: SizeTable) {
    forall i :: 0 <= i < |inputs| ==> inputs[i].path in sizes
  }

  predicate NonNegativeSizes(sizes: SizeTable) {
    forall path :: path in sizes && sizes[path].Some? ==> sizes[path].value >= 0
  }

  /** The size counted for one input; unknown counts as 0. */
  function SizeOf(f: InputFile, sizes: SizeTable): int
    requires f.path in sizes
  {
    sizes[f.path].GetOr(0)
  }

  /** Sum of the sizes of the temp-flagged inputs. */
  function TempInputSize(inputs: seq<InputFile>, sizes: SizeTable): int
    requires Sized(inputs, sizes)
    decreases |inputs|
  {
    if inputs == [] then 0
    else (if inputs[0].isTemp then SizeOf(inputs[0], sizes) else 0) + TempInputSize(inputs[1..], sizes)
  }

  /** Sum of the sizes of all inputs. */
  function TotalInputSize(inputs: seq<InputFile>, sizes: SizeTable): int
    requires Sized(inputs, sizes)
    decreases |inputs|
  {
    if inputs == [] then 0 else SizeOf(inputs[0], sizes) + TotalInputSize(inputs[1..], sizes)
  }

  /**
   * The reward key of a job. In priority-only mode it is the priority, else
   * the lexicographic triple (priority, temp size, total size). The size
   * table is only consulted in size-aware mode.
   */
  function JobReward(job: Job, sizes: SizeTable, priorityOnly: bool): (r: seq<int>)
    requires priorityOnly || Sized(job.inputs, sizes)
    ensures |r| == (if priorityOnly then 1 else 3)
    ensures r[0] == job.priority
  {
    if priorityOnly then [job.priority]
    else [job.priority, TempInputSize(job.inputs, sizes), TotalInputSize(job.inputs, sizes)]
  }

  /** With non-negative sizes the temporary inputs never outweigh all inputs. */
  lemma {:induction false} TempAtMostTotal(inputs: seq<InputFile>, sizes: SizeTable)
    requires Sized(inputs, sizes) && NonNegativeSizes(sizes)
    ensures 0 <= TempInputSize(inputs, sizes) <= TotalInputSize(inputs, sizes)
  {
    if inputs != [] {
      TempAtMostTotal(inputs[1..], sizes);
    }
  }

  /** In either mode a strictly higher priority gives a strictly higher reward. */
  /** Without temporary inputs the temp component of the reward is 0. */
  lemma {:induction false} NoTempInputs(inputs: seq<InputFile>, sizes: SizeTable)
    requires Sized(inputs, sizes)
    requires forall i :: 0 <= i < |inputs| ==> !inputs[i].isTemp
    ensures TempInputSize(inputs, sizes) == 0
  {
    if inputs != [] {
      NoTempInputs(inputs[1..], sizes);
    }
  }

  /** When every input is temporary, the temp and total components coincide. */
  lemma {:induction false} AllTempInputs(inputs: seq<InputFile>, sizes: SizeTable)
    requires Sized(inputs, sizes)
    requires forall i :: 0 <= i < |inputs| ==> inputs[i].isTemp
    ensures TempInputSize(inputs, sizes) == TotalInputSize(inputs, sizes)
  {
    if inputs != [] {
      AllTempInputs(inputs[1..], sizes);
    }
  }

  lemma PriorityDominates(a: Job, b: Job, sizes: SizeTable, priorityOnly: bool)
    requires priorityOnly || (Sized(a.inputs, sizes) && Sized(b.inputs, sizes))
    requires a.priority < b.priority
    ensures Lex.Less(JobReward(a, sizes, priorityOnly), JobReward(b, sizes, priorityOnly))
  {
  }

  /**
   * In size-aware mode, among jobs of equal priority the one with more
   * temporary input is ranked higher; with equal temporary input, the one
   * with more input in total.
   */
  lemma SizeAwareTiebreak(a: Job, b: Job, sizes: SizeTable)
    requires Sized(a.inputs, sizes) && Sized(b.inputs, sizes)
    requires a.priority == b.priority
    ensures TempInputSize(a.inputs, sizes) < TempInputSize(b.inputs, sizes)
      ==> Lex.Less(JobReward(a, sizes, false), JobReward(b, sizes, false))
    ensures TempInputSize(a.inputs, sizes) == TempInputSize(b.inputs, sizes)
      ==> (Lex.Less(JobReward(a, sizes, false), JobReward(b, sizes, false))
           <==> TotalInputSize(a.inputs, sizes) < TotalInputSize(b.inputs, sizes))
  {
    var ra, rb := JobReward(a, sizes, false), JobReward(b, sizes, false);
    assert !Lex.Less(ra[1..][1..][1..], rb[1..][1..][1..]);
    assert Lex.Less(ra[1..][1..], rb[1..][1..]) <==> ra[2] < rb[2];
    assert Lex.Less(ra[1..], rb[1..]) <==> ra[1] < rb[1] || (ra[1] == rb[1] && ra[2] < rb[2]);
  }
}
