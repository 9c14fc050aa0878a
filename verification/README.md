# First-fit job selection, modelled in Dafny

This project models the job-selection routine of the Snakemake first-fit
scheduler plugin (`Scheduler.select_jobs` with its helpers `job_resources`
and `job_reward`, and the range check of `SchedulerSettings`). On every
scheduling tick the routine runs two phases:

1. **Candidate filter.** A retention bound `n` is interpolated between the
   number of selectable jobs (greediness 0) and the rate limiter's maximum
   number of jobs (greediness 1, falling back to 1000). Every job becomes an
   entry `(reward, tiebreak, job)` pushed into a min-heap; once the heap holds
   more than `n` entries, each further entry is pushed and the smallest popped.
   The heap is drained in ascending order.
2. **Greedy packer.** Jobs are popped from the end of that list, highest key
   first. A job is admitted when adding its demand (restricted to the
   available resources, missing demands counting 0) exceeds no available
   resource; otherwise it is skipped for good.

Modules, one per component:

- `Lex` (lex.dfy): Python's ordering of integer tuples, proved a strict total order.
- `Jobs` (jobs.dfy): jobs, per-resource demand, `job_resources`, total demand and the capacity predicate.
- `Reward` (reward.dfy): `job_reward` in both modes and its sums of input sizes.
- `Settings` (settings.dfy): settings construction with the greediness range check, the rate-limiter fallback and the retention bound.
- `Heap` (heap.dfy): entries, their order, and the class `MinHeap` whose `Push`, `PushPop` and `Pop` carry the contracts of `heapq.heappush`, `heapq.heappushpop` and `heapq.heappop`.
- `CandidateFilter` (filter.dfy): the heap-filling loop and the drain.
- `Packer` (packer.dfy): the packer as a function of the consideration order (`Pack`), its properties, and the popping loop (`PackJobs`).
- `Scheduler` (scheduler.dfy): `SelectJobs`, the whole tick.

Inputs that the source obtains from its environment are parameters:
the random draws are a sequence `tiebreaks` of pairwise distinct reals, one
per selectable job; the rate limiter's maximum is an `Option<nat>` (`None`
where the source catches `AttributeError` and uses 1000); input sizes are a
map from path to an optional size.

The retention test is `len(jobs_heap) <= n`, so once the heap is full it
holds `n + 1` entries, and `min(m, n + 1)` of `m` jobs are considered. The
help text of the greediness setting says that a greediness of 1 evaluates
only the rate limiter's number of jobs; the model follows the code and keeps
`n + 1`.

The bound `n` is the interpolated value truncated to an integer (`int(...)`
of a non-negative number), and the greediness defaults to 0, so by default
every selectable job is evaluated. Settings that passed the range check
carry their greediness in the subset type `Greediness` of reals in [0, 1].

## Model

| member | source | states |
|---|---|---|
| `Settings.NewSettings` | src/snakemake_scheduler_plugin_firstfit/__init__.py:38-40 | Settings are built exactly when 0 <= greediness <= 1, keeping both fields; otherwise construction fails. |
| `Settings.MaxJobs` | src/snakemake_scheduler_plugin_firstfit/__init__.py:86-90 | The window is the rate limiter's maximum when there is one, and 1000 when the lookup fails. |
| `Settings.RetentionBound` | src/snakemake_scheduler_plugin_firstfit/__init__.py:91-94 | The bound is the pool size at greediness 0 and the rate limiter's maximum at greediness 1, and always lies between the two. |
| `Jobs.JobResources` | src/snakemake_scheduler_plugin_firstfit/__init__.py:141-143 | The restricted demand has exactly the keys of the available resources; each value is the job's declared demand, or 0 when it declares none. |
| `Jobs.UntrackedResourcesIgnored` | src/snakemake_scheduler_plugin_firstfit/__init__.py:141-143 | Jobs that agree on the tracked resources get the same restricted demand, whatever else they declare. |
| `Reward.JobReward` | src/snakemake_scheduler_plugin_firstfit/__init__.py:145-153 | The reward leads with the priority; it has one component in priority-only mode and three otherwise. |
| `Reward.NoTempInputs` | src/snakemake_scheduler_plugin_firstfit/__init__.py:151 | Without temporary inputs the temp-size component is 0. |
| `Reward.AllTempInputs` | src/snakemake_scheduler_plugin_firstfit/__init__.py:151-152 | When every input is temporary, the temp-size and total-size components are equal. |
| `Reward.TempAtMostTotal` | src/snakemake_scheduler_plugin_firstfit/__init__.py:151-152 | With non-negative sizes, 0 <= size of temp inputs <= size of all inputs. |
| `Reward.PriorityDominates` | src/snakemake_scheduler_plugin_firstfit/__init__.py:145-153 | In both modes a strictly higher priority gives a strictly higher reward. |
| `Reward.SizeAwareTiebreak` | src/snakemake_scheduler_plugin_firstfit/__init__.py:149-153 | At equal priority, more temporary input ranks higher; at equal temporary input, the reward order is the order of total input size, in both directions. |
| `Lex.LessTransitive` | src/snakemake_scheduler_plugin_firstfit/__init__.py:149-153 | Tuple comparison of reward keys is transitive. |
| `Lex.LessTotal` | src/snakemake_scheduler_plugin_firstfit/__init__.py:149-153 | Any two different reward keys are comparable. |
| `Heap.LessTotal` | src/snakemake_scheduler_plugin_firstfit/__init__.py:104-111 | Heap entries whose (reward, tiebreak) keys differ are comparable, so the job is never compared. |
| `Heap.LessTransitive` | src/snakemake_scheduler_plugin_firstfit/__init__.py:104-111 | The entry order is transitive. |
| `Heap.MinHeap.constructor` | src/snakemake_scheduler_plugin_firstfit/__init__.py:100 | The heap starts empty. |
| `Heap.MinHeap.Push` | src/snakemake_scheduler_plugin_firstfit/__init__.py:106-108 | The heap gains exactly the pushed entry. |
| `Heap.MinHeap.PushPop` | src/snakemake_scheduler_plugin_firstfit/__init__.py:109-111 | Push then pop: the returned entry is the smallest of the old contents and the new entry, strictly below everything left; the contents gain the new entry and lose the returned one, and the size is unchanged. |
| `Heap.MinHeap.Pop` | src/snakemake_scheduler_plugin_firstfit/__init__.py:113 | Returns the smallest entry, strictly below everything left, and removes it. |
| `CandidateFilter.Entries` | src/snakemake_scheduler_plugin_firstfit/__init__.py:101-108 | One entry per selectable job, in the order given, carrying that job. |
| `CandidateFilter.EntryKeysDistinct` | src/snakemake_scheduler_plugin_firstfit/__init__.py:103-108 | With distinct random draws no two entries share a (reward, tiebreak) key, so the tuple comparison never reaches the jobs. |
| `CandidateFilter.DiscardStep` | src/snakemake_scheduler_plugin_firstfit/__init__.py:106-111 | After a push-pop, every entry dropped so far still ranks below every entry the heap holds. |
| `CandidateFilter.Offer` | src/snakemake_scheduler_plugin_firstfit/__init__.py:106-111 | Offering an entry grows the heap by one until it holds n + 1 entries and keeps the size there after; the entries held plus those dropped are the old ones plus the offered one, and every dropped entry ranks below every held one. |
| `CandidateFilter.Fill` | src/snakemake_scheduler_plugin_firstfit/__init__.py:100-111 | After all jobs are offered the heap holds min(m, n + 1) entries; held and dropped entries together are exactly the jobs' entries, and every dropped entry ranks below every held one. |
| `CandidateFilter.Drain` | src/snakemake_scheduler_plugin_firstfit/__init__.py:113 | Draining the heap yields its contents in strictly ascending order and empties it. |
| `CandidateFilter.RetainTop` | src/snakemake_scheduler_plugin_firstfit/__init__.py:99-113 | Exactly min(m, n + 1) entries are kept, strictly ascending, each taken from the input at most once, and every dropped entry ranks below every kept one. |
| `Packer.Consider` | src/snakemake_scheduler_plugin_firstfit/__init__.py:123-137 | Considering a job either appends exactly that job to the solution or leaves solution and usage unchanged; the usage stays keyed by the available resources. |
| `Packer.Packed` | src/snakemake_scheduler_plugin_firstfit/__init__.py:118-137 | The packing after the first k jobs of the consideration order admits at most k jobs and tracks usage for exactly the available resources. |
| `Packer.Pack` | src/snakemake_scheduler_plugin_firstfit/__init__.py:116-139 | The packing of a whole consideration order admits at most as many jobs as it considers; its properties are the lemmas below. |
| `Packer.AdmitOrSkip` | src/snakemake_scheduler_plugin_firstfit/__init__.py:126-137 | A job that fits is appended and its demand added to the usage; a job that does not fit changes neither the admitted jobs nor the usage. |
| `Packer.PackUsage` | src/snakemake_scheduler_plugin_firstfit/__init__.py:118-137 | The usage starts at 0 and always equals, per available resource, the sum of the demands of the admitted jobs. |
| `Packer.PackUsedWithin` | src/snakemake_scheduler_plugin_firstfit/__init__.py:126-135 | The usage never exceeds the available amount of any resource. |
| `Packer.PackWithinCapacity` | src/snakemake_scheduler_plugin_firstfit/__init__.py:126-137 | Capacity invariant: the admitted jobs' total demand for each available resource is at most what is available. |
| `Packer.PackMonotone` | src/snakemake_scheduler_plugin_firstfit/__init__.py:118-137 | No backtracking: the jobs admitted after any prefix stay admitted, as a prefix of the final solution, and usage never decreases. |
| `Packer.ConsiderGrows` | src/snakemake_scheduler_plugin_firstfit/__init__.py:126-137 | Considering one job only appends to the admitted jobs and never lowers the usage of any resource. |
| `Packer.SkippedNeverFits` | src/snakemake_scheduler_plugin_firstfit/__init__.py:126-132 | A job skipped when considered would still not fit on top of the final usage. |
| `Packer.PackPicksInOrder` | src/snakemake_scheduler_plugin_firstfit/__init__.py:120-137 | The solution is picked from the consideration order at strictly increasing positions: each job at most once, order kept. |
| `Packer.TryAdmit` | src/snakemake_scheduler_plugin_firstfit/__init__.py:123-137 | One iteration admits the popped job, adding its restricted demand to the usage, exactly when that fits, and otherwise changes nothing. |
| `Packer.AddInto` | src/snakemake_scheduler_plugin_firstfit/__init__.py:134-135 | Each tracked resource's usage grows by exactly the job's demand for it. |
| `Packer.PackJobs` | src/snakemake_scheduler_plugin_firstfit/__init__.py:116-139 | The loop's solution is the first-fit packing of the list taken back to front, and it fits the available resources. |
| `Scheduler.SelectJobs` | src/snakemake_scheduler_plugin_firstfit/__init__.py:46-139 | The packer considers min(m, n + 1) entries in strictly descending key order, none twice, all ranking above every dropped entry (all of them at greediness 0); the solution is their first-fit packing and fits the available resources; no selectable jobs give an empty solution. |

## Left out

- Floating point: greediness is an exact `real` and `int()` is `.Floor` (the interpolated value is non-negative); IEEE rounding is not modelled.
- The rate-limiter lookup through attribute access and its `AttributeError` fallback: the maximum is a parameter, `None` standing for the fallback of 1000.
- Randomness: `random.random()` is replaced by injected, pairwise distinct tiebreaks; Python's fallback to comparing job objects when reward and tiebreak both tie therefore never arises.
- String-valued resources and negative amounts: capacities and demands are natural numbers.
- A greediness of `None`: the comparison in the range check would raise `TypeError`; the model takes a number.
- Missing input sizes: in size-aware mode `input_sizes[f]` raises `KeyError`; the model requires every input of every selectable job to have an entry.
- The internal arrangement of the `heapq` list: the heap is kept as a sorted sequence, and only the push, push-pop and pop contracts are modelled.
- `used_resources` is a `defaultdict(int)`; the model keeps a map over the keys of the available resources, starting at 0, which reads the same.
- `Job.add_resource`, group-job flattening and returning `None` for a fallback: described in comments only, never done by the code; the result is always a sequence.
- The unused `remaining_jobs` argument, debug logging, the plugin base classes and settings metadata.
- tests/test_plugin.py only wires the plugin into an external test base class; it holds no logic to model.
