/**
 * The job data the scheduler reads, and the per-job resource demand
 * restricted to the resources the scheduler tracks.
 */
module Jobs {

  /** An input file of a job, identified by its path, possibly flagged as temporary. */
  datatype InputFile = InputFile(path: string, isTemp: bool)

  /** A schedulable job: its priority, its declared resource demands and its inputs. */
  datatype Job = Job(priority: int, resources: map<string, nat>, inputs: seq<InputFile>)

  /** The job's demand for one resource; a resource it does not declare costs nothing. */
  function Demand(job: Job, name: string): nat {
    if name in job.resources then job.resources[name] else 0
  }

  /** The job's demand restricted to the keys of the available resources. */
  function JobResources(job: Job, available: map<string, nat>): (demand: map<string, nat>)
    ensures demand.Keys == available.Keys
    ensures forall name :: name in demand ==> demand[name] == Demand(job, name)
  {
    map name | name in available :: Demand(job, name)
  }

  /** Total demand of a sequence of jobs for one resource. */
  function TotalDemand(jobs: seq<Job>, name: string): nat
    decreases |jobs|
  {
    if jobs == [] then 0 else TotalDemand(jobs[..|jobs| - 1], name) + Demand(jobs[|jobs| - 1], name)
  }

  /** The jobs together stay within every available resource. */
  predicate WithinCapacity(jobs: seq<Job>, available: map<string, nat>) {
    forall name :: name in available ==> TotalDemand(jobs, name) <= available[name]
  }

  /**
   * Only the tracked resources matter: two jobs that agree on every key of
   * `available` get the same restricted demand, whatever else they declare.
   */
  lemma UntrackedResourcesIgnored(a: Job, b: Job, available: map<string, nat>)
    requires forall name :: name in available ==> Demand(a, name) == Demand(b, name)
    ensures JobResources(a, available) == JobResources(b, available)
  {
  }
}
