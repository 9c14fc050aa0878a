/**
 * The first-fit greedy packer: jobs are considered one after another; a job
 * is admitted when adding its demand to the resources used so far exceeds
 * no available resource, and skipped otherwise, for good. `Pack` is the
 * packer as a function of the order in which jobs are considered;
 * `PackJobs` is the loop of the scheduler, which considers the jobs from the
 * end of its list.
 */
module Packer {
  import opened Jobs
  import opened Sequences

  /** The jobs admitted so far and the resources they use. */
  datatype Packing = Packing(admitted: seq<Job>, used: map<string, nat>)

  /** Nothing used yet: 0 for every available resource. */
  function ZeroUsage(available: map<string, nat>): map<string, nat> {
    map name | name in available :: 0
  }

  /** Adding `demand` on top of `used` exceeds no available resource. */
  predicate Fits(used: map<string, nat>, demand: map<string, nat>, available: map<string, nat>)
    requires available.Keys <= used.Keys && available.Keys <= demand.Keys
  {
    forall name :: name in available ==> used[name] + demand[name] <= available[name]
  }

  /** `used` with `demand` added to each resource. */
  function AddDemand(used: map<string, nat>, demand: map<string, nat>): map<string, nat>
    requires used.Keys == demand.Keys
  {
    map name | name in used :: used[name] + demand[name]
  }

  /** Consider one job: admit it when it fits, else leave everything as it was. */
  function Consider(p: Packing, job: Job, available: map<string, nat>): (r: Packing)
    requires p.used.Keys == available.Keys
    ensures r.used.Keys == available.Keys
    ensures r.admitted == p.admitted + [job] || r == p
  {
    var demand := JobResources(job, available);
    if Fits(p.used, demand, available) then Packing(p.admitted + [job], AddDemand(p.used, demand))
    else p
  }

  /** The packing after considering the first `k` jobs of `order`, in order. */
  function Packed(order: seq<Job>, k: nat, available: map<string, nat>): (p: Packing)
    requires k <= |order|
    ensures p.used.Keys == available.Keys
    ensures |p.admitted| <= k
  {
    if k == 0 then Packing([], ZeroUsage(available))
    else Consider(Packed(order, k - 1, available), order[k - 1], available)
  }

  /** The packing after considering every job of `order`, first to last. */
  function Pack(order: seq<Job>, available: map<string, nat>): (p: Packing)
    ensures p.used.Keys == available.Keys
    ensures |p.admitted| <= |order|
  {
    Packed(order, |order|, available)
  }

  /**
   * Considering the job at position i either admits it, adding its demand
   * to the usage, or changes neither the admitted jobs nor the usage.
   */
  lemma AdmitOrSkip(order: seq<Job>, i: nat, available: map<string, nat>)
    requires i < |order|
    ensures var before, after := Packed(order, i, available), Packed(order, i + 1, available);
            if Fits(before.used, JobResources(order[i], available), available)
            then after.admitted == before.admitted + [order[i]]
                 && forall name :: name in available ==> after.used[name] == before.used[name] + Demand(order[i], name)
            else after == before
  {
  }

  /** The usage is the resource-wise sum of the demands of the admitted jobs. */
  lemma {:induction false} PackUsage(order: seq<Job>, k: nat, available: map<string, nat>)
    requires k <= |order|
    ensures var p := Packed(order, k, available);
            forall name :: name in available ==> p.used[name] == TotalDemand(p.admitted, name)
  {
    if k > 0 {
      PackUsage(order, k - 1, available);
      var p := Packed(order, k - 1, available);
      if Fits(p.used, JobResources(order[k - 1], available), available) {
        var admitted := p.admitted + [order[k - 1]];
        assert admitted[..|admitted| - 1] == p.admitted;
      }
    }
  }

  /** The usage never exceeds what is available. */
  lemma {:induction false} PackUsedWithin(order: seq<Job>, k: nat, available: map<string, nat>)
    requires k <= |order|
    ensures var p := Packed(order, k, available);
            forall name :: name in available ==> p.used[name] <= available[name]
  {
    if k > 0 {
      PackUsedWithin(order, k - 1, available);
    }
  }

  /** Capacity invariant: the admitted jobs together fit the available resources. */
  lemma PackWithinCapacity(order: seq<Job>, available: map<string, nat>)
    ensures WithinCapacity(Pack(order, available).admitted, available)
  {
    PackUsage(order, |order|, available);
    PackUsedWithin(order, |order|, available);
  }

  /**
   * No backtracking: what is admitted after the first j jobs stays admitted,
   * as a prefix of what is admitted after k >= j jobs, and the usage never
   * decreases.
   */
  lemma {:induction false} PackMonotone(order: seq<Job>, j: nat, k: nat, available: map<string, nat>)
    requires j <= k <= |order|
    ensures var early, late := Packed(order, j, available), Packed(order, k, available);
            && early.admitted <= late.admitted
            && forall name :: name in available ==> early.used[name] <= late.used[name]
    decreases k - j
  {
    if j < k {
      PackMonotone(order, j, k - 1, available);
      var mid := Packed(order, k - 1, available);
      ConsiderGrows(mid, order[k - 1], available);
      var late := Consider(mid, order[k - 1], available);
      assert Packed(order, k, available) == late;
      var early := Packed(order, j, available);
      PrefixTransitive(early.admitted, mid.admitted, late.admitted);
      forall name | name in available ensures early.used[name] <= late.used[name] {
        assert early.used[name] <= mid.used[name];
      }
    }
  }

  /** Considering a job only ever appends to the admitted jobs and adds to the usage. */
  lemma ConsiderGrows(p: Packing, job: Job, available: map<string, nat>)
    requires p.used.Keys == available.Keys
    ensures var q := Consider(p, job, available);
            && p.admitted <= q.admitted
            && forall name :: name in available ==> p.used[name] <= q.used[name]
  {
  }

  /**
   * A job skipped when considered would still not fit on top of everything
   * admitted in the end: first-fit never leaves room for a skipped job.
   */
  lemma SkippedNeverFits(order: seq<Job>, i: nat, available: map<string, nat>)
    requires i < |order|
    requires !Fits(Packed(order, i, available).used, JobResources(order[i], available), available)
    ensures !Fits(Pack(order, available).used, JobResources(order[i], available), available)
  {
    PackMonotone(order, i, |order|, available);
  }

  /** The jobs admitted among the first k are picked from `order` at increasing positions below k. */
  lemma {:induction false} PackPicksInOrder(order: seq<Job>, k: nat, available: map<string, nat>) returns (idx: seq<nat>)
    requires k <= |order|
    ensures PickedAt(Packed(order, k, available).admitted, order, idx)
    ensures forall l :: 0 <= l < |idx| ==> idx[l] < k
  {
    if k == 0 {
      idx := [];
    } else {
      idx := PackPicksInOrder(order, k - 1, available);
      var p := Packed(order, k - 1, available);
      if Fits(p.used, JobResources(order[k - 1], available), available) {
        idx := idx + [k - 1];
      }
    }
  }

  /** The `used_resources[res] += val` loop: add the job's demand into the usage, one resource at a time. */
  method AddInto(used: map<string, nat>, demand: map<string, nat>) returns (total: map<string, nat>)
    requires used.Keys == demand.Keys
    ensures total.Keys == used.Keys
    ensures forall name :: name in total ==> total[name] == used[name] + demand[name]
    ensures total == AddDemand(used, demand)
  {
    total := used;
    var todo := demand.Keys;
    while todo != {}
      invariant todo <= demand.Keys
      invariant total.Keys == used.Keys
      invariant forall name :: name in total ==> total[name] == used[name] + (if name in todo then 0 else demand[name])
      decreases todo
    {
      var name :| name in todo;
      total := total[name := total[name] + demand[name]];
      todo := todo - {name};
    }
    SameMaps(total, AddDemand(used, demand));
  }

  lemma SameMaps(a: map<string, nat>, b: map<string, nat>)
    requires a.Keys == b.Keys
    requires forall name :: name in a ==> a[name] == b[name]
    ensures a == b
  {
  }

  /**
   * One iteration of the `while _selectable_jobs` loop of `select_jobs`: admit `job` when its restricted demand fits on top of
   * `used`, adding the demand into the usage; otherwise change nothing.
   */
  method TryAdmit(solution: seq<Job>, used: map<string, nat>, job: Job, available: map<string, nat>)
    returns (solution': seq<Job>, used': map<string, nat>)
    requires used.Keys == available.Keys
    ensures Packing(solution', used') == Consider(Packing(solution, used), job, available)
  {
    var demand := JobResources(job, available);
    if Fits(used, demand, available) {
      used' := AddInto(used, demand);
      solution' := solution + [job];
    } else {
      solution', used' := solution, used;
    }
  }

  /**
   * The `while _selectable_jobs` loop of `select_jobs`: pop jobs off the end of `pending` and admit each one that
   * fits. The result is the packing of `pending` considered back to front,
   * and it fits the available resources.
   */
  method PackJobs(pending: seq<Job>, available: map<string, nat>) returns (solution: seq<Job>)
    ensures solution == Pack(Reversed(pending), available).admitted
    ensures WithinCapacity(solution, available)
  {
    ghost var order := Reversed(pending);
    var remaining := pending;
    var used := ZeroUsage(available);
    solution := [];
    ghost var k := 0;
    while remaining != []
      invariant k + |remaining| == |pending| && remaining == pending[..|remaining|]
      invariant Packing(solution, used) == Packed(order, k, available)
      decreases |remaining|
    {
      var job := remaining[|remaining| - 1];
      assert job == order[k];
      remaining := remaining[..|remaining| - 1];
      solution, used := TryAdmit(solution, used, job, available);
      k := k + 1;
    }
    PackWithinCapacity(order, available);
  }
}
