/**
 * One scheduling tick of the first-fit scheduler: compute the retention
 * bound, keep the n + 1 best candidates, then pack them greedily from the
 * highest key down.
 */
module Scheduler {
  import opened Wrappers
  import opened Jobs
  import opened Reward
  import opened Settings
  import opened Heap
  import opened CandidateFilter
  import opened Packer
  import opened Sequences

  /** The jobs of a sequence of entries, in the same order. */
  function JobsOf(entries: seq<Entry>): (jobs: seq<Job>)
    ensures |jobs| == |entries|
  {
    seq(|entries|, i requires 0 <= i < |entries| => entries[i].job)
  }

  predicate StrictlyDescending(s: seq<Entry>) {
    forall i, j :: 0 <= i < j < |s| ==> Less(s[j], s[i])
  }

  /**
   * `select_jobs`, both phases. `tiebreaks` stands for the random draws, one per selectable
   * job; `rateLimit` for the rate limiter's maximum, `None` when there is
   * none. Besides the admitted jobs, the ghost result `considered` is the
   * sequence of entries the packer looks at, in the order it looks at them.
   */
  method SelectJobs(settings: SchedulerSettings, selectable: seq<Job>, tiebreaks: seq<real>,
                    rateLimit: Option<nat>, available: map<string, nat>, sizes: SizeTable)
    returns (solution: seq<Job>, ghost considered: seq<Entry>)
    requires |tiebreaks| == |selectable| && DistinctTiebreaks(tiebreaks)
    requires settings.omitPrioritizeByTempAndInput || AllSized(selectable, sizes)
    ensures var all := Entries(selectable, tiebreaks, sizes, settings.omitPrioritizeByTempAndInput);
            && |considered| == Min(|selectable|, RetentionBound(settings.greediness, |selectable|, MaxJobs(rateLimit)) + 1)
            && multiset(considered) <= multiset(all)
            && KeepsLargest(all, considered)
            && (settings.greediness == 0.0 ==> multiset(considered) == multiset(all))
    ensures StrictlyDescending(considered)
    ensures solution == Pack(JobsOf(considered), available).admitted
    ensures WithinCapacity(solution, available)
    ensures selectable == [] ==> solution == []
  {
    var maxJobs := MaxJobs(rateLimit);
    var n := RetentionBound(settings.greediness, |selectable|, maxJobs);
    var ascending := RetainTop(selectable, tiebreaks, sizes, settings.omitPrioritizeByTempAndInput, n);
    var pending := JobsOf(ascending);
    solution := PackJobs(pending, available);

    considered := Reversed(ascending);
    assert Reversed(pending) == JobsOf(considered);
    ReversedMultiset(ascending);
    ghost var all := Entries(selectable, tiebreaks, sizes, settings.omitPrioritizeByTempAndInput);
    forall x | x in considered ensures x in ascending {
      assert x in multiset(considered);
    }
    forall x | x in ascending ensures x in considered {
      assert x in multiset(ascending);
    }
    if settings.greediness == 0.0 {
      SubMultisetOfSameSize(multiset(considered), multiset(all));
    }
  }

  lemma {:induction false} ReversedMultiset<T>(s: seq<T>)
    ensures multiset(Reversed(s)) == multiset(s)
  {
    if s != [] {
      var init := s[..|s| - 1];
      ReversedMultiset(init);
      assert Reversed(s) == [s[|s| - 1]] + Reversed(init);
      assert s == init + [s[|s| - 1]];
    }
  }

  lemma SubMultisetOfSameSize<T>(a: multiset<T>, b: multiset<T>)
    requires a <= b && |a| == |b|
    ensures a == b
  {
    assert |b - a| == |b| - |a|;
  }
}
