/**
 * The bounded candidate filter: every selectable job becomes an entry
 * (reward, tiebreak, job) pushed into a min-heap; once the heap holds more
 * than `n` entries each further entry is pushed and the minimum popped, so
 * the heap settles at n + 1 entries. The heap is then drained in ascending
 * order.
 */
module CandidateFilter {
  import opened Jobs
  import opened Reward
  import opened Heap
  import opened Settings

  /** Every job's inputs can be looked up in the size table. */
  predicate AllSized(jobs: seq<Job>, sizes: SizeTable) {
    forall i :: 0 <= i < |jobs| ==> Sized(jobs[i].inputs, sizes)
  }

  predicate DistinctTiebreaks(tiebreaks: seq<real>) {
    forall i, j :: 0 <= i < j < |tiebreaks| ==> tiebreaks[i] != tiebreaks[j]
  }

  /** The entry of every selectable job, in the order the jobs are given. */
  function Entries(jobs: seq<Job>, tiebreaks: seq<real>, sizes: SizeTable, priorityOnly: bool): (all: seq<Entry>)
    requires |tiebreaks| == |jobs|
    requires priorityOnly || AllSized(jobs, sizes)
    ensures |all| == |jobs|
  {
    seq(|jobs|, i requires 0 <= i < |jobs| => Entry(JobReward(jobs[i], sizes, priorityOnly), tiebreaks[i], jobs[i]))
  }

  /**
   * With pairwise distinct tiebreaks no two entries share a (reward,
   * tiebreak) key, so the heap never has to compare two jobs.
   */
  lemma EntryKeysDistinct(jobs: seq<Job>, tiebreaks: seq<real>, sizes: SizeTable, priorityOnly: bool, i: nat, j: nat)
    requires |tiebreaks| == |jobs| && DistinctTiebreaks(tiebreaks)
    requires priorityOnly || AllSized(jobs, sizes)
    requires i < |jobs| && j < |jobs| && i != j
    ensures var all := Entries(jobs, tiebreaks, sizes, priorityOnly);
            !SameKey(all[i], all[j])
  {
    var all := Entries(jobs, tiebreaks, sizes, priorityOnly);
    assert all[i].tiebreak == tiebreaks[i] && all[j].tiebreak == tiebreaks[j];
    if i > j {
      assert tiebreaks[j] != tiebreaks[i];
    }
  }

  /** Every entry of `all` left out of `kept` ranks below every entry kept. */
  predicate KeepsLargest(all: seq<Entry>, kept: seq<Entry>) {
    forall d, r :: d in all && d !in kept && r in kept ==> Less(d, r)
  }

  /**
   * The heap filter of `select_jobs`, from filling the heap to draining it:
   * returns the retained entries in ascending
   * order. Exactly min(m, n + 1) of the m entries are retained, each at most
   * once, and every entry dropped ranks below every entry retained.
   */
  method RetainTop(jobs: seq<Job>, tiebreaks: seq<real>, sizes: SizeTable, priorityOnly: bool, n: nat)
    returns (ascending: seq<Entry>)
    requires |tiebreaks| == |jobs| && DistinctTiebreaks(tiebreaks)
    requires priorityOnly || AllSized(jobs, sizes)
    ensures |ascending| == Min(|jobs|, n + 1)
    ensures StrictlyAscending(ascending)
    ensures multiset(ascending) <= multiset(Entries(jobs, tiebreaks, sizes, priorityOnly))
    ensures KeepsLargest(Entries(jobs, tiebreaks, sizes, priorityOnly), ascending)
  {
    var heap := new MinHeap();
    ghost var discarded := Fill(heap, jobs, tiebreaks, sizes, priorityOnly, n);
    ghost var kept := heap.items;
    ascending := Drain(heap);
    DroppedBelowKept(Entries(jobs, tiebreaks, sizes, priorityOnly), discarded, kept, ascending);
  }

  /**
   * The heap-filling `for` loop of `select_jobs`: offer the entry of every
   * job to the empty heap. The heap
   * ends with min(m, n + 1) entries; the ghost result holds the entries
   * popped off it, each ranking below every entry left.
   */
  method Fill(heap: MinHeap, jobs: seq<Job>, tiebreaks: seq<real>, sizes: SizeTable, priorityOnly: bool, n: nat)
    returns (ghost discarded: seq<Entry>)
    requires heap.Valid() && heap.items == []
    requires |tiebreaks| == |jobs| && DistinctTiebreaks(tiebreaks)
    requires priorityOnly || AllSized(jobs, sizes)
    modifies heap
    ensures heap.Valid()
    ensures |heap.items| == Min(|jobs|, n + 1)
    ensures multiset(heap.items) + multiset(discarded) == multiset(Entries(jobs, tiebreaks, sizes, priorityOnly))
    ensures forall d, r :: d in discarded && r in heap.items ==> Less(d, r)
  {
    ghost var all := Entries(jobs, tiebreaks, sizes, priorityOnly);
    discarded := [];
    for i := 0 to |jobs|
      invariant heap.Valid()
      invariant |heap.items| == Min(i, n + 1)
      invariant multiset(heap.items) + multiset(discarded) == multiset(all[..i])
      invariant forall d, r :: d in discarded && r in heap.items ==> Less(d, r)
      invariant |heap.items| <= n ==> discarded == []
    {
      var e := Entry(JobReward(jobs[i], sizes, priorityOnly), tiebreaks[i], jobs[i]);
      NextEntry(jobs, tiebreaks, sizes, priorityOnly, i, heap.items);
      discarded := Offer(heap, e, n, discarded);
    }
    assert all[..|jobs|] == all;
  }

  /**
   * One iteration of the heap-filling loop, its `heappush` and `heappushpop`
   * branches: push `e` while the heap holds at most `n` entries, else
   * push it and pop the minimum, which joins the dropped entries.
   */
  method Offer(heap: MinHeap, e: Entry, n: nat, ghost dropped: seq<Entry>) returns (ghost dropped': seq<Entry>)
    requires heap.Valid() && KeyAbsent(e, heap.items) && |heap.items| <= n + 1
    requires forall d, r :: d in dropped && r in heap.items ==> Less(d, r)
    requires |heap.items| <= n ==> dropped == []
    modifies heap
    ensures heap.Valid()
    ensures |heap.items| == Min(|old(heap.items)| + 1, n + 1)
    ensures multiset(heap.items) + multiset(dropped') == multiset(old(heap.items)) + multiset(dropped) + multiset{e}
    ensures forall d, r :: d in dropped' && r in heap.items ==> Less(d, r)
    ensures |heap.items| <= n ==> dropped' == []
  {
    ghost var before := heap.items;
    if heap.Size() <= n {
      heap.Push(e);
      dropped' := dropped;
    } else {
      var m := heap.PushPop(e);
      DiscardStep(dropped, before, heap.items, e, m);
      dropped' := dropped + [m];
      assert multiset(dropped') == multiset(dropped) + multiset{m};
      calc {
        multiset(heap.items) + multiset(dropped');
        (multiset(heap.items) + multiset{m}) + multiset(dropped);
        multiset(before) + multiset{e} + multiset(dropped);
      }
    }
  }

  /** What the drain returns is what the heap kept, so everything dropped ranks below it. */
  lemma DroppedBelowKept(all: seq<Entry>, discarded: seq<Entry>, kept: seq<Entry>, ascending: seq<Entry>)
    requires multiset(kept) + multiset(discarded) == multiset(all)
    requires forall d, r :: d in discarded && r in kept ==> Less(d, r)
    requires multiset(ascending) == multiset(kept)
    ensures KeepsLargest(all, ascending)
  {
    forall d, r | d in all && d !in ascending && r in ascending ensures Less(d, r) {
      assert d in multiset(all);
      assert d in multiset(discarded);
      assert r in multiset(kept);
    }
  }

  /**
   * The entry made for job i extends the entries seen so far and ties with
   * nothing the heap holds: its tiebreak is fresh.
   */
  lemma NextEntry(jobs: seq<Job>, tiebreaks: seq<real>, sizes: SizeTable, priorityOnly: bool, i: nat, items: seq<Entry>)
    requires |tiebreaks| == |jobs| && DistinctTiebreaks(tiebreaks) && i < |jobs|
    requires priorityOnly || AllSized(jobs, sizes)
    requires multiset(items) <= multiset(Entries(jobs, tiebreaks, sizes, priorityOnly)[..i])
    ensures var all, e := Entries(jobs, tiebreaks, sizes, priorityOnly),
                          Entry(JobReward(jobs[i], sizes, priorityOnly), tiebreaks[i], jobs[i]);
            all[..i + 1] == all[..i] + [e] && KeyAbsent(e, items)
  {
    var all := Entries(jobs, tiebreaks, sizes, priorityOnly);
    assert all[..i + 1] == all[..i] + [all[i]];
    forall x | x in items ensures !SameKey(x, all[i]) {
      assert x in multiset(all[..i]);
      var j :| 0 <= j < i && all[..i][j] == x;
      EntryKeysDistinct(jobs, tiebreaks, sizes, priorityOnly, j, i);
    }
  }

  /**
   * After a push-pop the popped entry joins the dropped ones, and every
   * dropped entry still ranks below every entry the heap holds.
   */
  lemma DiscardStep(discarded: seq<Entry>, before: seq<Entry>, after: seq<Entry>, e: Entry, m: Entry)
    requires forall d, r :: d in discarded && r in before ==> Less(d, r)
    requires m in before || m == e
    requires forall x :: x in after ==> Less(m, x)
    requires multiset(after) + multiset{m} == multiset(before) + multiset{e}
    ensures forall d, r :: d in discarded + [m] && r in after ==> Less(d, r)
  {
    forall d, r | d in discarded + [m] && r in after ensures Less(d, r) {
      assert r in multiset(after) + multiset{m};
      assert r in multiset(before) + multiset{e};
      if d != m && r !in before {
        assert r == e;
        if m == e {
          LessIrreflexive(m);
        } else {
          LessTransitive(d, m, e);
        }
      }
    }
  }

  /** The `heappop` comprehension that reverts the heap: pop every entry off, smallest first. */
  method Drain(heap: MinHeap) returns (ascending: seq<Entry>)
    requires heap.Valid()
    modifies heap
    ensures heap.Valid() && heap.items == []
    ensures StrictlyAscending(ascending)
    ensures multiset(ascending) == multiset(old(heap.items))
    ensures |ascending| == |old(heap.items)|
  {
    ascending := [];
    while heap.Size() > 0
      invariant heap.Valid()
      invariant multiset(ascending) + multiset(heap.items) == multiset(old(heap.items))
      invariant |ascending| + |heap.items| == |old(heap.items)|
      invariant StrictlyAscending(ascending)
      invariant forall x, y :: x in ascending && y in heap.items ==> Less(x, y)
      decreases |heap.items|
    {
      ghost var before := heap.items;
      var m := heap.Pop();
      forall x, y | x in ascending + [m] && y in heap.items ensures Less(x, y) {
        assert y in multiset(heap.items) + multiset{m};
        assert y in before;
      }
      ascending := ascending + [m];
    }
  }
}
