# OpenGamma view compilation and job scheduling, modelled in Dafny

This project models the core of the OpenGamma engine that turns a view
definition into dependency graphs and runs their calculation jobs, with two
small analytics helpers beside it:

- **Calculation node invocation container** (`invocation_container.dfy`,
  module `CalculationNodeInvocation`). It is a class that holds the
  following:
  - a table from job id to a job execution record, each with a timestamp,
    a status of RUNNING, COMPLETED or FAILED, and a set of blocked job
    entries;
  - the idle calculation node queue;
  - the runnable job queue;
  - the tasks handed to the thread pool;
  - the 32-bit job counter.

  The model covers four things. A submitted job is dropped, blocked, queued,
  forked or run inline, according to its required jobs. A failure spreads
  through the blocked sets. On success, blocked tails are released. A
  periodic sweep retires old finished records.
- **Dependency graph executor** (`graph_executor.dfy`, module
  `DependencyGraphExecution`). It is a class that runs one dependency graph.
  The graph's nodes are numbered and each has a list of input nodes; a rank
  per node witnesses that the graph is acyclic. The model moves nodes
  between the following sets:
  - to-execute;
  - executing, with the map from job specification to node;
  - executed;
  - failed.

  Job ids are numbered 1, 2, 3, … within one run.
- **View definition compilation** (`view_compiler.dfy`, module
  `ViewCompilation`). This covers:
  - the specific-requirement filter;
  - the portfolio-requirement stripes and their neutrality;
  - the incremental terminal-output filter and strategy;
  - the per-builder compile loop and the staleness revalidation loop;
  - the lazy portfolio resolution of a compilation task;
  - the purge of unused target resolutions.

  The class `CompilationTask` carries the full and incremental tasks.
- **Portfolio compiler** (`portfolio_compiler.dfy`, module
  `PortfolioCompilation`). This covers the lazy, at-most-once portfolio fetch
  of `execute`, the collection of security keys still to resolve, and the
  structure-preserving, fully resolved copy of a portfolio tree.
- **End-of-month semi-annual schedule** (`schedule.dfy`, module
  `SemiAnnualSchedule`). It takes every sixth date of a monthly schedule,
  counted from its start or from its end.
- **Curve node with identifier** (`curve_node.dfy`, module `CurveNodes`):
  the null-checking constructor and the four-key lexicographic `compareTo`.

Shared types are in `wrappers.dfy`, which holds `Option` and `Result`. The
portfolio and view definition types are in `engine_types.dfy`, in the
modules `Portfolios` and `Views`.

Collaborators the core sees only through calls are parameters of the model:

- The dependency graph builder, graph pruning, the sub-graphing filter, the
  portfolio traversal callback and the target and specification resolvers.
  These are the function fields of `ViewCompilation.Collaborators`.
- The position source and the security resolver. These are maps and
  functions passed to `PortfolioCompilation`.
- The job completion retriever. This is a function that
  `DependencyGraphExecutor.ExecuteGraph` takes.
- The calculation jobs themselves. Each job's success or failure is the
  oracle `succeeds` of the container.
- The date adjuster of the schedule and the curve-node comparator. These are
  a sequence of dates and a comparison function.

Some functions of `view_compiler.dfy` are the specifications that the rows of
the methods below state their results against, and they have no row of their
own:

- `GetStripes` is getStripes (ViewDefinitionCompiler.java lines 527-533): the
  union of the output sets of every security type. `AddPortfolioRequirements`
  and `StripesCoverAll` use it.
- `RemoveTerminalOutputs` stands for the dependency graph's
  removeTerminalOutputs, called at ViewDefinitionCompiler.java line 426. The
  graph class is not part of this model, so the effect of that method is
  assumed: the requirements leave the value's entry, and an entry left empty
  is dropped. `RemoveUnmatchedTerminals` and the filter lemmas use it.
- `CompiledBuilder` is compile(builder) of either task (lines 384-449) as a
  value. `CompilationTask.CompileBuilder`, `CompileAll` and
  `IncrementalStrategy` use it.
- `Revalidated` is one graph's step of the revalidation loop (lines 456-482).
  `RevalidationPass` and `CompilationTask.Revalidate` use it.
- `Purged` is the deletion half of removeUnusedResolutions (lines 197-221).
  `PurgedKeepsExactlyTheUsed`, `CompilationTask.RemoveUnusedResolutions` and
  `CompilationTask.Get` use it.
- `LinkedPortfolio` is the portfolio step of get() (lines 306-317) as a value.
  `LinkedPortfolioOnce` and `CompilationTask.Get` use it.

The curve node's ordering is given the same way, in `curve_node.dfy`:

- `CompareTo` is CurveNodeWithIdentifier.compareTo
  (CurveNodeWithIdentifier.java lines 73-87). `CompareStrings` is Java's
  String.compareTo and `CompareFieldTypes` is Enum.compareTo on the field
  type's ordinal. The lemmas whose names start with `CompareTo` and
  `CompareStrings` state the ordering contract about them.

`System.nanoTime` is the container's abstract clock `now`.

## Model

| member | source | states |
|---|---|---|
| CalculationNodeInvocation.TakeBlocked | src/com/opengamma/engine/view/calcnode/AbstractCalculationNodeInvocationContainer.java:126-130 | getBlocked hands back exactly the record's blocked set and leaves the record with none |
| CalculationNodeInvocation.BlockJob | src/com/opengamma/engine/view/calcnode/AbstractCalculationNodeInvocationContainer.java:133-138 | blockJob adds exactly the given entry to the blocked set, creating it when absent, and keeps status and timestamp |
| CalculationNodeInvocation.BlockThenTake | src/com/opengamma/engine/view/calcnode/AbstractCalculationNodeInvocationContainer.java:126-138 | taking the blocked set after blocking an entry yields the old set plus that entry; a second take yields nothing |
| CalculationNodeInvocation.FirstUnmet | src/com/opengamma/engine/view/calcnode/AbstractCalculationNodeInvocationContainer.java:216-233 | the list-order scan finds the first required record that is not COMPLETED, with every earlier one COMPLETED, or reports that all are COMPLETED |
| CalculationNodeInvocation.BlockedCountAppend | src/com/opengamma/engine/view/calcnode/AbstractCalculationNodeInvocationContainer.java:99-140 | a new record adds its blocked entries to the total blocked count |
| CalculationNodeInvocation.BlockedCountUpdate | src/com/opengamma/engine/view/calcnode/AbstractCalculationNodeInvocationContainer.java:99-140 | replacing one record changes the total blocked count by the difference of the two blocked sets |
| CalculationNodeInvocation.Inc32 | src/com/opengamma/engine/view/calcnode/AbstractCalculationNodeInvocationContainer.java:146 | AtomicInteger.incrementAndGet stays in the 32-bit range and equals x + 1 modulo 2^32 |
| CalculationNodeInvocation.CountAfter | src/com/opengamma/engine/view/calcnode/AbstractCalculationNodeInvocationContainer.java:334 | the job counter after n increments from zero is a 32-bit value |
| CalculationNodeInvocation.CountAfterCountsChains | src/com/opengamma/engine/view/calcnode/AbstractCalculationNodeInvocationContainer.java:334 | before the counter wraps, the sweep runs on every 100th finished drain chain |
| CalculationNodeInvocation.CountAfterWraps | src/com/opengamma/engine/view/calcnode/AbstractCalculationNodeInvocationContainer.java:334 | after one wrap the counter is n - 2^32, so the sweep runs when n ≡ 96 (mod 100) |
| CalculationNodeInvocation.ShiftedCadence | src/com/opengamma/engine/view/calcnode/AbstractCalculationNodeInvocationContainer.java:334 | a shift by 2^32 moves multiples of 100 to residue 96 and back |
| CalculationNodeInvocation.RetiredIsFinishedAndOld | src/com/opengamma/engine/view/calcnode/AbstractCalculationNodeInvocationContainer.java:336-346 | every record a sweep removes is not RUNNING and is older than RETENTION |
| CalculationNodeInvocation.SweepStopsAtYoung | src/com/opengamma/engine/view/calcnode/AbstractCalculationNodeInvocationContainer.java:338-346 | no key at or above the first finished record that is not old enough is removed |
| CalculationNodeInvocation.SweepIdempotent | src/com/opengamma/engine/view/calcnode/AbstractCalculationNodeInvocationContainer.java:334-350 | a second sweep at the same time removes nothing more |
| CalculationNodeInvocation.CallbacksAppend | src/com/opengamma/engine/view/calcnode/AbstractCalculationNodeInvocationContainer.java:310-320 | the receiver callbacks of a trace grow only by a completion or failure event |
| CalculationNodeInvocation.CallbacksSkipSubmissions | src/com/opengamma/engine/view/calcnode/AbstractCalculationNodeInvocationContainer.java:206-261 | submission events add no receiver callback |
| CalculationNodeInvocation.ExtendsTransitive | src/com/opengamma/engine/view/calcnode/AbstractCalculationNodeInvocationContainer.java:190-200 | get-or-create steps compose: the old records are unchanged and every new one is RUNNING and blocks nothing |
| CalculationNodeInvocation.ExtendsKeepsCount | src/com/opengamma/engine/view/calcnode/AbstractCalculationNodeInvocationContainer.java:190-200 | newly created records block nothing |
| CalculationNodeInvocation.AdmittedOnlyWhenCompleted | src/com/opengamma/engine/view/calcnode/AbstractCalculationNodeInvocationContainer.java:216-233 | a job with requirements runs only when every required record is COMPLETED |
| CalculationNodeInvocation.RefusedForFailed | src/com/opengamma/engine/view/calcnode/AbstractCalculationNodeInvocationContainer.java:216-225 | a job is dropped only for a FAILED required record with every earlier one COMPLETED |
| CalculationNodeInvocation.WaitsOnRunning | src/com/opengamma/engine/view/calcnode/AbstractCalculationNodeInvocationContainer.java:226-230 | a job waits only on a RUNNING required record, the first one that is not COMPLETED |
| CalculationNodeInvocation.DecidedOnce | src/com/opengamma/engine/view/calcnode/AbstractCalculationNodeInvocationContainer.java:216-233 | the admission decision is determined by the job and its resolved records |
| CalculationNodeInvocation.Least | src/com/opengamma/engine/view/calcnode/AbstractCalculationNodeInvocationContainer.java:335-336 | picks the least key, the next key of the skip-list map's ascending iteration |
| CalculationNodeInvocation.SweepTable | src/com/opengamma/engine/view/calcnode/AbstractCalculationNodeInvocationContainer.java:334-350 | the key-ordered scan keeps exactly the records the sweep does not retire |
| CalculationNodeInvocation.FailsOnlyTransitive | src/com/opengamma/engine/view/calcnode/AbstractCalculationNodeInvocationContainer.java:263-275 | failure steps compose: records only turn FAILED or grow |
| CalculationNodeInvocation.ExtendsFailsOnly | src/com/opengamma/engine/view/calcnode/AbstractCalculationNodeInvocationContainer.java:190-200 | creating records is a failure step |
| CalculationNodeInvocation.FailsOnlyCount | src/com/opengamma/engine/view/calcnode/AbstractCalculationNodeInvocationContainer.java:263-275 | a failure step never increases the number of blocked entries |
| CalculationNodeInvocation.TailsStayFailed | src/com/opengamma/engine/view/calcnode/AbstractCalculationNodeInvocationContainer.java:263-275 | failed, invalidated tails stay so under further failure steps |
| CalculationNodeInvocation.QueuedInConcat | src/com/opengamma/engine/view/calcnode/AbstractCalculationNodeInvocationContainer.java:321-331 | the entries queued by two traces are those of each, in order |
| CalculationNodeInvocation.DrainStep | src/com/opengamma/engine/view/calcnode/AbstractCalculationNodeInvocationContainer.java:287-331 | one drain step keeps the jobs run plus those left equal to the first job, the old queue and the newly queued ones, in order |
| CalculationNodeInvocation.ReleasedBetweenTransitive | src/com/opengamma/engine/view/calcnode/AbstractCalculationNodeInvocationContainer.java:310-316 | release steps compose |
| CalculationNodeInvocation.SubmittedStep | src/com/opengamma/engine/view/calcnode/AbstractCalculationNodeInvocationContainer.java:310-316 | each released tail adds one submission event about it |
| CalculationNodeInvocation.ReleasedSkip | src/com/opengamma/engine/view/calcnode/AbstractCalculationNodeInvocationContainer.java:312-314 | an invalidated tail is not re-submitted |
| CalculationNodeInvocation.ReleasedStep | src/com/opengamma/engine/view/calcnode/AbstractCalculationNodeInvocationContainer.java:312-314 | a live tail is re-submitted once |
| CalculationNodeInvocation.AdmissionKeepsStatus | src/com/opengamma/engine/view/calcnode/AbstractCalculationNodeInvocationContainer.java:206-233 | admission changes no status |
| CalculationNodeInvocation.PolledFromTransitive | src/com/opengamma/engine/view/calcnode/AbstractCalculationNodeInvocationContainer.java:236-256 | polling idle nodes composes |
| CalculationNodeInvocation.InvocationContainer.constructor | src/com/opengamma/engine/view/calcnode/AbstractCalculationNodeInvocationContainer.java:142-146 | an empty table, empty queues, no tasks and a zero job counter |
| CalculationNodeInvocation.InvocationContainer.AddNode | src/com/opengamma/engine/view/calcnode/AbstractCalculationNodeInvocationContainer.java:152-156 | appends the node to the idle queue and signals a node change, nothing else |
| CalculationNodeInvocation.InvocationContainer.AddNodes | src/com/opengamma/engine/view/calcnode/AbstractCalculationNodeInvocationContainer.java:158-162 | appends all the nodes to the idle queue and signals a node change |
| CalculationNodeInvocation.InvocationContainer.SetNode | src/com/opengamma/engine/view/calcnode/AbstractCalculationNodeInvocationContainer.java:164-169 | the idle queue becomes exactly the one node |
| CalculationNodeInvocation.InvocationContainer.SetNodes | src/com/opengamma/engine/view/calcnode/AbstractCalculationNodeInvocationContainer.java:171-176 | the idle queue becomes exactly the given nodes |
| CalculationNodeInvocation.InvocationContainer.AdvanceClock | src/com/opengamma/engine/view/calcnode/AbstractCalculationNodeInvocationContainer.java:105-111 | only the abstract clock moves |
| CalculationNodeInvocation.InvocationContainer.GetExecution | src/com/opengamma/engine/view/calcnode/AbstractCalculationNodeInvocationContainer.java:190-200 | get-or-create: afterwards the job id has a record; an existing one is returned and nothing changes; otherwise one new RUNNING record stamped now is added |
| CalculationNodeInvocation.InvocationContainer.ResolveRequired | src/com/opengamma/engine/view/calcnode/AbstractCalculationNodeInvocationContainer.java:209-215 | resolves each required job id by get-or-create, once, and caches the list on the entry |
| CalculationNodeInvocation.InvocationContainer.ScanRequired | src/com/opengamma/engine/view/calcnode/AbstractCalculationNodeInvocationContainer.java:216-233 | the scan loop finds the first required record that is not COMPLETED |
| CalculationNodeInvocation.InvocationContainer.Admit | src/com/opengamma/engine/view/calcnode/AbstractCalculationNodeInvocationContainer.java:206-233 | decides as the source does (run, drop or wait on the first RUNNING record), blocks the entry on that record, and logs the outcome |
| CalculationNodeInvocation.InvocationContainer.BlockOn | src/com/opengamma/engine/view/calcnode/AbstractCalculationNodeInvocationContainer.java:226-230 | adds the entry to the one record's blocked set and nothing else |
| CalculationNodeInvocation.InvocationContainer.DispatchDetached | src/com/opengamma/engine/view/calcnode/AbstractCalculationNodeInvocationContainer.java:206-256 | without a node, an admitted job forks onto the first idle node or joins the runnable queue; exactly one of drop, block, fork or queue happens |
| CalculationNodeInvocation.InvocationContainer.ForkOrQueue | src/com/opengamma/engine/view/calcnode/AbstractCalculationNodeInvocationContainer.java:235-256 | forks onto the first idle node when one exists, otherwise appends to the runnable queue |
| CalculationNodeInvocation.InvocationContainer.FailExecution | src/com/opengamma/engine/view/calcnode/AbstractCalculationNodeInvocationContainer.java:263-275 | the record becomes FAILED; every tail blocked on it is invalidated and its own record FAILED; records only turn FAILED |
| CalculationNodeInvocation.InvocationContainer.FailNext | src/com/opengamma/engine/view/calcnode/AbstractCalculationNodeInvocationContainer.java:266-273 | one step of the loop over the blocked tails |
| CalculationNodeInvocation.InvocationContainer.FailTail | src/com/opengamma/engine/view/calcnode/AbstractCalculationNodeInvocationContainer.java:268-272 | invalidates the tail and fails its record, recursively |
| CalculationNodeInvocation.InvocationContainer.Invalidate | src/com/opengamma/engine/view/calcnode/AbstractCalculationNodeInvocationContainer.java:77-79 | only the entry's receiver is cleared |
| CalculationNodeInvocation.InvocationContainer.Release | src/com/opengamma/engine/view/calcnode/AbstractCalculationNodeInvocationContainer.java:305-316 | re-submits exactly the live tails, each once, and queues what they queue |
| CalculationNodeInvocation.InvocationContainer.ReleaseNext | src/com/opengamma/engine/view/calcnode/AbstractCalculationNodeInvocationContainer.java:310-316 | one step of the release loop |
| CalculationNodeInvocation.InvocationContainer.ReleaseOne | src/com/opengamma/engine/view/calcnode/AbstractCalculationNodeInvocationContainer.java:312-314 | a released tail goes through spawnOrQueueJob without a node |
| CalculationNodeInvocation.InvocationContainer.RunOne | src/com/opengamma/engine/view/calcnode/AbstractCalculationNodeInvocationContainer.java:293-320 | runs a job: on failure the record fails, only records are failed and receivers cleared, every job blocked on it is invalidated with its record FAILED, nothing is released and executionFailed is called; on success the record is COMPLETED with nothing left blocked on it, every job that was blocked on it is released once and its submission logged, and executionComplete is called; exactly one callback; a job run returns a result or throws, never null |
| CalculationNodeInvocation.InvocationContainer.RunFailed | src/com/opengamma/engine/view/calcnode/AbstractCalculationNodeInvocationContainer.java:296-300 | the failure path: the record FAILED, only records failed and receivers cleared, every job blocked on it invalidated with a FAILED record, one executionFailed callback, nothing queued |
| CalculationNodeInvocation.InvocationContainer.RunCompleted | src/com/opengamma/engine/view/calcnode/AbstractCalculationNodeInvocationContainer.java:301-320 | the success path: the record COMPLETED with its blocked set drained, every job blocked on it released exactly once and its submission logged in release order, one executionComplete callback |
| CalculationNodeInvocation.InvocationContainer.Sweep | src/com/opengamma/engine/view/calcnode/AbstractCalculationNodeInvocationContainer.java:334-350 | the table keeps exactly the records not retired; nothing else changes |
| CalculationNodeInvocation.InvocationContainer.FinishChain | src/com/opengamma/engine/view/calcnode/AbstractCalculationNodeInvocationContainer.java:332-350 | increments the 32-bit counter and sweeps when it becomes a multiple of 100 |
| CalculationNodeInvocation.InvocationContainer.ExecuteJobs | src/com/opengamma/engine/view/calcnode/AbstractCalculationNodeInvocationContainer.java:287-351 | drains the runnable queue: runs the first job, then the old queue and everything queued meanwhile, in order, one callback each; the node goes back to the idle queue only when the queue is empty; a job run returns a result or throws, never null |
| CalculationNodeInvocation.InvocationContainer.DrainNext | src/com/opengamma/engine/view/calcnode/AbstractCalculationNodeInvocationContainer.java:321-331 | one poll of the drain loop |
| CalculationNodeInvocation.InvocationContainer.DrainRun | src/com/opengamma/engine/view/calcnode/AbstractCalculationNodeInvocationContainer.java:293-331 | one pass of the drain loop body |
| CalculationNodeInvocation.InvocationContainer.AddJob | src/com/opengamma/engine/view/calcnode/AbstractCalculationNodeInvocationContainer.java:277-279 | a new live entry for the job; without a node an admitted job is forked to the first idle node or else queued, a dropped or blocked one leaves the queues alone; with a node an admitted job runs inline, that node is the last one returned to the idle list and the queue is drained, and a dropped or blocked job leaves every queue as it was |
| CalculationNodeInvocation.InvocationContainer.NewEntry | src/com/opengamma/engine/view/calcnode/AbstractCalculationNodeInvocationContainer.java:277-279 | appends one live entry with nothing resolved |
| CalculationNodeInvocation.InvocationContainer.SubmitInline | src/com/opengamma/engine/view/calcnode/AbstractCalculationNodeInvocationContainer.java:206-261 | with a node, an admitted job runs inline on it: the queue is drained, forked tasks are kept and the node is the last one returned to the idle list; a refused or blocked job leaves every queue as it was |
| CalculationNodeInvocation.InvocationContainer.RunInline | src/com/opengamma/engine/view/calcnode/AbstractCalculationNodeInvocationContainer.java:257-260 | logs the inline run, runs the job and drains the queue on the given node, keeps every forked task, and returns that node last to the idle list |
| CalculationNodeInvocation.InvocationContainer.RunTask | src/com/opengamma/engine/view/calcnode/AbstractCalculationNodeInvocationContainer.java:247-256 | the thread pool runs one forked task; no other task is lost |
| DependencyGraphExecution.StripDownPositions | src/com/opengamma/engine/view/DependencyGraphExecutor.java:299-309 | stripping positions keeps their number |
| DependencyGraphExecution.Indices | src/com/opengamma/engine/view/DependencyGraphExecutor.java:161 | exactly the node numbers 0 to n-1 |
| DependencyGraphExecution.DependencyGraphExecutor.JobsOf | src/com/opengamma/engine/view/DependencyGraphExecutor.java:314-377 | one job per enqueued node |
| DependencyGraphExecution.DependencyGraphExecutor.JobsOfNumbered | src/com/opengamma/engine/view/DependencyGraphExecutor.java:314-377 | the k-th job is the node's job with job id k+1, so job ids are strictly increasing and distinct |
| DependencyGraphExecution.DependencyGraphExecutor.EnqueueKeepsBooks | src/com/opengamma/engine/view/DependencyGraphExecutor.java:265-278 | enqueueing a node whose inputs are executed keeps the bookkeeping invariant |
| DependencyGraphExecution.DependencyGraphExecutor.CompleteKeepsBooks | src/com/opengamma/engine/view/DependencyGraphExecutor.java:182-192 | a completion keeps the bookkeeping invariant |
| DependencyGraphExecution.DependencyGraphExecutor.EnqueueKeepsPartition | src/com/opengamma/engine/view/DependencyGraphExecutor.java:265-278 | to-execute, executing and executed stay disjoint |
| DependencyGraphExecution.DependencyGraphExecutor.EnqueueKeepsOrder | src/com/opengamma/engine/view/DependencyGraphExecutor.java:265-278 | nodes are enqueued only after all their inputs are executed |
| DependencyGraphExecution.DependencyGraphExecutor.EnqueueKeepsTracking | src/com/opengamma/engine/view/DependencyGraphExecutor.java:265-278 | the new specification maps to the new node; every executing node stays tracked |
| DependencyGraphExecution.DependencyGraphExecutor.SubmitKeepsLog | src/com/opengamma/engine/view/DependencyGraphExecutor.java:314-377 | the submitted jobs stay those of the enqueued nodes in order |
| DependencyGraphExecution.DependencyGraphExecutor.CompleteKeepsPartition | src/com/opengamma/engine/view/DependencyGraphExecutor.java:183-185 | the completed node moves from executing to executed |
| DependencyGraphExecution.DependencyGraphExecutor.CompleteKeepsOrder | src/com/opengamma/engine/view/DependencyGraphExecutor.java:183-185 | the enqueue order stays input-first |
| DependencyGraphExecution.DependencyGraphExecutor.CompleteKeepsTracking | src/com/opengamma/engine/view/DependencyGraphExecutor.java:183-185 | removing the specification untracks exactly its node |
| DependencyGraphExecution.DependencyGraphExecutor.constructor | src/com/opengamma/engine/view/DependencyGraphExecutor.java:161-164 | an executor over a ranked (acyclic) graph with all sets empty |
| DependencyGraphExecution.DependencyGraphExecutor.ReachesLowersRank | src/com/opengamma/engine/view/DependencyGraphExecutor.java:230-246 | following input edges never raises the rank |
| DependencyGraphExecution.DependencyGraphExecutor.NoCycle | src/com/opengamma/engine/view/DependencyGraphExecutor.java:230-246 | two nodes reachable from each other are the same node |
| DependencyGraphExecution.DependencyGraphExecutor.BelowUnfolds | src/com/opengamma/engine/view/DependencyGraphExecutor.java:205-212 | a node's input closure is the node plus its inputs' closures |
| DependencyGraphExecution.DependencyGraphExecutor.AddAllNodesToExecute | src/com/opengamma/engine/view/DependencyGraphExecutor.java:205-212 | adds exactly the node and every node reachable through input edges |
| DependencyGraphExecution.DependencyGraphExecutor.AddAllGraphNodesToExecute | src/com/opengamma/engine/view/DependencyGraphExecutor.java:199-203 | adds every node of the graph |
| DependencyGraphExecution.DependencyGraphExecutor.SplitLiveData | src/com/opengamma/engine/view/DependencyGraphExecutor.java:251-260 | splits the candidates into live-data nodes and the rest |
| DependencyGraphExecution.DependencyGraphExecutor.MarkLiveDataSourcingFunctionsCompleted | src/com/opengamma/engine/view/DependencyGraphExecutor.java:251-260 | moves exactly the live-data nodes from to-execute to executed; the others stay |
| DependencyGraphExecution.DependencyGraphExecutor.CanExecute | src/com/opengamma/engine/view/DependencyGraphExecutor.java:284-297 | true if and only if every input node is executed |
| DependencyGraphExecution.DependencyGraphExecutor.SubmitNodeInvocationJob | src/com/opengamma/engine/view/DependencyGraphExecutor.java:314-377 | allocates the next job id and submits the node's job under it |
| DependencyGraphExecution.DependencyGraphExecutor.EnqueueAllAvailableNodes | src/com/opengamma/engine/view/DependencyGraphExecutor.java:265-278 | moves exactly the executable nodes from to-execute to executing, each with a new specification; the others stay |
| DependencyGraphExecution.DependencyGraphExecutor.SweepingDone | src/com/opengamma/engine/view/DependencyGraphExecutor.java:265-278 | once every node is visited, exactly the executable ones have moved |
| DependencyGraphExecution.DependencyGraphExecutor.SweepingStep | src/com/opengamma/engine/view/DependencyGraphExecutor.java:267-276 | one visited node moves if and only if it is executable |
| DependencyGraphExecution.DependencyGraphExecutor.EnqueueNext | src/com/opengamma/engine/view/DependencyGraphExecutor.java:267-276 | one iteration of the enqueue loop |
| DependencyGraphExecution.DependencyGraphExecutor.EnqueueIfExecutable | src/com/opengamma/engine/view/DependencyGraphExecutor.java:269-275 | the node moves if and only if its inputs are executed |
| DependencyGraphExecution.DependencyGraphExecutor.Enqueue | src/com/opengamma/engine/view/DependencyGraphExecutor.java:265-278 | moves the node to executing and submits its job with the next job id |
| DependencyGraphExecution.DependencyGraphExecutor.CompleteJob | src/com/opengamma/engine/view/DependencyGraphExecutor.java:182-188 | the node leaves executing and enters executed whatever the result; a non-SUCCESS result also marks it failed |
| DependencyGraphExecution.DependencyGraphExecutor.ProcessCompletions | src/com/opengamma/engine/view/DependencyGraphExecutor.java:180-191 | handles a batch of completions; executing shrinks; failed grows only by executed non-live nodes |
| DependencyGraphExecution.DependencyGraphExecutor.StillExecutingStep | src/com/opengamma/engine/view/DependencyGraphExecutor.java:180-191 | later completions of a batch remain executing |
| DependencyGraphExecution.DependencyGraphExecutor.ProgressedTransitive | src/com/opengamma/engine/view/DependencyGraphExecutor.java:180-191 | completion steps compose |
| DependencyGraphExecution.DependencyGraphExecutor.CompleteInBooks | src/com/opengamma/engine/view/DependencyGraphExecutor.java:182-188 | one completion keeps the bookkeeping |
| DependencyGraphExecution.DependencyGraphExecutor.FailNodesAbove | src/com/opengamma/engine/view/DependencyGraphExecutor.java:217-224 | the one-argument overload changes nothing: no node is marked executed or failed and the rest of the executor's state is kept |
| DependencyGraphExecution.DependencyGraphExecutor.FailNodesAboveFrom | src/com/opengamma/engine/view/DependencyGraphExecutor.java:230-246 | returns true if and only if the failed node is reachable from n; marks executed and failed exactly the nodes other than it that reach it |
| DependencyGraphExecution.DependencyGraphExecutor.NothingAboveItself | src/com/opengamma/engine/view/DependencyGraphExecutor.java:231-233 | starting at the failed node marks nothing |
| DependencyGraphExecution.DependencyGraphExecutor.FailThroughInput | src/com/opengamma/engine/view/DependencyGraphExecutor.java:235-244 | every input branch is evaluated, with no early exit, so diamonds are handled |
| DependencyGraphExecution.DependencyGraphExecutor.MarkedStep | src/com/opengamma/engine/view/DependencyGraphExecutor.java:235-244 | one input branch's contribution |
| DependencyGraphExecution.DependencyGraphExecutor.ReachedFromSomeStep | src/com/opengamma/engine/view/DependencyGraphExecutor.java:235-244 | reaching from a longer input prefix |
| DependencyGraphExecution.DependencyGraphExecutor.AboveSomeStep | src/com/opengamma/engine/view/DependencyGraphExecutor.java:235-244 | the nodes marked through a longer input prefix |
| DependencyGraphExecution.DependencyGraphExecutor.ReachesStep | src/com/opengamma/engine/view/DependencyGraphExecutor.java:230-246 | reachability is the node itself or reachability from an input |
| DependencyGraphExecution.DependencyGraphExecutor.AboveUnfolds | src/com/opengamma/engine/view/DependencyGraphExecutor.java:230-246 | the nodes marked from n are those marked through its inputs, plus n when it reaches the failed node |
| DependencyGraphExecution.DependencyGraphExecutor.LeastRanked | src/com/opengamma/engine/view/DependencyGraphExecutor.java:174 | a least-ranked node exists among non-empty candidates |
| DependencyGraphExecution.DependencyGraphExecutor.SomethingExecutes | src/com/opengamma/engine/view/DependencyGraphExecutor.java:174 | while nodes remain to execute, some node is executing or executable |
| DependencyGraphExecution.DependencyGraphExecutor.RunningIsTracked | src/com/opengamma/engine/view/DependencyGraphExecutor.java:174 | an executing node has a tracked specification |
| DependencyGraphExecution.DependencyGraphExecutor.StartExecution | src/com/opengamma/engine/view/DependencyGraphExecutor.java:161-164 | the run starts from the whole graph with live-data nodes executed and the job id source at zero |
| DependencyGraphExecution.DependencyGraphExecutor.Finished | src/com/opengamma/engine/view/DependencyGraphExecutor.java:165 | when to-execute is empty, every non-live node was enqueued once, inputs first, with jobs 1, 2, … |
| DependencyGraphExecution.DependencyGraphExecutor.ExecuteGraph | src/com/opengamma/engine/view/DependencyGraphExecutor.java:160-193 | the loop ends with every node executing or executed; each non-live node gets exactly one job, inputs first, numbered 1, 2, …; only completed non-live nodes fail |
| ViewCompilation.AddSpecificRequirements | projects/OG-Engine/src/main/java/com/opengamma/engine/view/compilation/ViewDefinitionCompiler.java:513-525 | adds exactly the specific requirements whose target type's output mode is not NONE |
| ViewCompilation.EachPairInExactlyOneStripe | projects/OG-Engine/src/main/java/com/opengamma/engine/view/compilation/ViewDefinitionCompiler.java:569-592 | every (security type, output) pair is in the subset of exactly one stripe |
| ViewCompilation.FillStripeSubset | projects/OG-Engine/src/main/java/com/opengamma/engine/view/compilation/ViewDefinitionCompiler.java:576-582 | the reused subset map becomes exactly the stripe's subset |
| ViewCompilation.StripeEmitsItsShare | projects/OG-Engine/src/main/java/com/opengamma/engine/view/compilation/ViewDefinitionCompiler.java:570-592 | traversing with a stripe's subset adds what the full requirements add for that stripe |
| ViewCompilation.EmittedForUnion | projects/OG-Engine/src/main/java/com/opengamma/engine/view/compilation/ViewDefinitionCompiler.java:569-592 | the additions for two stripe sets are the union of each |
| ViewCompilation.StripesCoverAll | projects/OG-Engine/src/main/java/com/opengamma/engine/view/compilation/ViewDefinitionCompiler.java:527-533 | all stripes together add exactly what the unstriped traversal adds |
| ViewCompilation.AddPortfolioRequirements | projects/OG-Engine/src/main/java/com/opengamma/engine/view/compilation/ViewDefinitionCompiler.java:560-597 | a configuration without portfolio requirements changes nothing; striped or not, the builder gains the same targets |
| ViewCompilation.RemoveOneUnmatched | projects/OG-Engine/src/main/java/com/opengamma/engine/view/compilation/ViewDefinitionCompiler.java:389-428 | one removal of non-specific requirements from a terminal output |
| ViewCompilation.RemoveUnmatchedTerminals | projects/OG-Engine/src/main/java/com/opengamma/engine/view/compilation/ViewDefinitionCompiler.java:389-428 | the filter loop yields the filtered terminals |
| ViewCompilation.FilterKeepsPortfolioTerminals | projects/OG-Engine/src/main/java/com/opengamma/engine/view/compilation/ViewDefinitionCompiler.java:389-428 | terminal outputs on portfolio targets are kept unchanged |
| ViewCompilation.FilterRemovesOnlyNonSpecific | projects/OG-Engine/src/main/java/com/opengamma/engine/view/compilation/ViewDefinitionCompiler.java:389-428 | only non-specific requirements of non-portfolio targets are removed |
| ViewCompilation.FilterIdempotent | projects/OG-Engine/src/main/java/com/opengamma/engine/view/compilation/ViewDefinitionCompiler.java:389-428 | filtering twice equals filtering once |
| ViewCompilation.IncrementalStrategy | projects/OG-Engine/src/main/java/com/opengamma/engine/view/compilation/ViewDefinitionCompiler.java:430-448 | the unchanged-node set takes precedence over the changed-position set; with neither nothing is added; pending requirements become targets |
| ViewCompilation.CompileAll | projects/OG-Engine/src/main/java/com/opengamma/engine/view/compilation/ViewDefinitionCompiler.java:182-195 | one graph per builder, in order, none left unless one failed |
| ViewCompilation.PrependedTwice | projects/OG-Engine/src/main/java/com/opengamma/engine/view/compilation/ViewDefinitionCompiler.java:182-195 | prepending graphs composes |
| ViewCompilation.CompileAllStep | projects/OG-Engine/src/main/java/com/opengamma/engine/view/compilation/ViewDefinitionCompiler.java:185-193 | a successful builder contributes its pruned graph first |
| ViewCompilation.CompileAllStops | projects/OG-Engine/src/main/java/com/opengamma/engine/view/compilation/ViewDefinitionCompiler.java:185-193 | a failing builder ends the loop with it and the rest left |
| ViewCompilation.RevalidationPass | projects/OG-Engine/src/main/java/com/opengamma/engine/view/compilation/ViewDefinitionCompiler.java:456-482 | graphs with nothing ejected are kept; each other graph is replaced by exactly one rebuilt graph; the count is preserved |
| ViewCompilation.RevalidatedAll | projects/OG-Engine/src/main/java/com/opengamma/engine/view/compilation/ViewDefinitionCompiler.java:456-482 | every pass preserves the number of graphs |
| ViewCompilation.CollectValidIdentifiers | projects/OG-Engine/src/main/java/com/opengamma/engine/view/compilation/ViewDefinitionCompiler.java:198-206 | the portfolio id plus every graph's target ids |
| ViewCompilation.ValidIdentifiersAppend | projects/OG-Engine/src/main/java/com/opengamma/engine/view/compilation/ViewDefinitionCompiler.java:198-206 | each graph adds its target ids |
| ViewCompilation.PurgedKeepsExactlyTheUsed | projects/OG-Engine/src/main/java/com/opengamma/engine/view/compilation/ViewDefinitionCompiler.java:207-220 | kept entries are POSITION-keyed or used; no such entry is removed |
| ViewCompilation.PurgeIdempotent | projects/OG-Engine/src/main/java/com/opengamma/engine/view/compilation/ViewDefinitionCompiler.java:197-221 | a second purge changes nothing |
| ViewCompilation.ResolvePortfolio | projects/OG-Engine/src/main/java/com/opengamma/engine/view/compilation/ViewDefinitionCompiler.java:230-249 | errors for a missing reference, an unidentified portfolio or an unresolved one; otherwise the resolved portfolio |
| ViewCompilation.InitialBuilders | projects/OG-Engine/src/main/java/com/opengamma/engine/view/compilation/ViewDefinitionCompiler.java:167-174 | one builder per calculation configuration |
| ViewCompilation.CompilationTask.Full | projects/OG-Engine/src/main/java/com/opengamma/engine/view/compilation/ViewDefinitionCompiler.java:488-492 | a full task with one builder per configuration and nothing compiled |
| ViewCompilation.CompilationTask.Incremental | projects/OG-Engine/src/main/java/com/opengamma/engine/view/compilation/ViewDefinitionCompiler.java:494-500 | an incremental task with the previous graphs, resolutions and deltas |
| ViewCompilation.CompilationTask.CompileBuilder | projects/OG-Engine/src/main/java/com/opengamma/engine/view/compilation/ViewDefinitionCompiler.java:384-449 | compile(builder) of either task; the incremental one consumes its configuration's previous graph |
| ViewCompilation.CompilationTask.CompileBuilders | projects/OG-Engine/src/main/java/com/opengamma/engine/view/compilation/ViewDefinitionCompiler.java:182-195 | the builder loop yields the graphs of CompileAll and leaves the builders it did not finish |
| ViewCompilation.CompilationTask.CompileNext | projects/OG-Engine/src/main/java/com/opengamma/engine/view/compilation/ViewDefinitionCompiler.java:185-193 | one builder of the loop |
| ViewCompilation.CompilationTask.Revalidate | projects/OG-Engine/src/main/java/com/opengamma/engine/view/compilation/ViewDefinitionCompiler.java:456-482 | replaces the graphs by one revalidation pass |
| ViewCompilation.CompilationTask.Compile | projects/OG-Engine/src/main/java/com/opengamma/engine/view/compilation/ViewDefinitionCompiler.java:452-484 | compile() of the task, with revalidation when incremental |
| ViewCompilation.CompilationTask.RemoveUnusedResolutions | projects/OG-Engine/src/main/java/com/opengamma/engine/view/compilation/ViewDefinitionCompiler.java:197-221 | the resolutions become the purge against the used identifiers |
| ViewCompilation.CompilationTask.SetPortfolioOnBuilders | projects/OG-Engine/src/main/java/com/opengamma/engine/view/compilation/ViewDefinitionCompiler.java:306-317 | the portfolio is resolved at most once, only when portfolio outputs are on and some configuration has portfolio requirements, and is set on every builder |
| ViewCompilation.LinkedPortfolioOnce | projects/OG-Engine/src/main/java/com/opengamma/engine/view/compilation/ViewDefinitionCompiler.java:306-317 | after a successful portfolio step exactly the builders with portfolio requirements carry the one portfolio, the rest are unchanged, it fails only when the portfolio was needed and not yet resolved, and a second step changes nothing |
| ViewCompilation.CompilationTask.Get | projects/OG-Engine/src/main/java/com/opengamma/engine/view/compilation/ViewDefinitionCompiler.java:304-336 | fails with the portfolio step's failure, else with the first builder's failure; on success the graphs are the compiled graphs of the builders after the portfolio step (revalidated once per expired batch when incremental), and the resolutions are those after the portfolio step purged against the portfolio and graph target ids; the view is recorded |
| PortfolioCompilation.KeysCollectedAppend | projects/OG-Engine/src/com/opengamma/engine/view/compilation/PortfolioCompiler.java:162-181 | key collection distributes over concatenated positions |
| PortfolioCompilation.PositionKeys | projects/OG-Engine/src/com/opengamma/engine/view/compilation/PortfolioCompiler.java:170-177 | the keys of exactly the positions without a security; a position with neither raises |
| PortfolioCompilation.SecurityKeysForResolution | projects/OG-Engine/src/com/opengamma/engine/view/compilation/PortfolioCompiler.java:162-181 | the keys for a whole subtree, depth first |
| PortfolioCompilation.ChildKeys | projects/OG-Engine/src/com/opengamma/engine/view/compilation/PortfolioCompiler.java:178-180 | the keys for all children |
| PortfolioCompilation.FailsOnFirstUnresolvableAppend | projects/OG-Engine/src/com/opengamma/engine/view/compilation/PortfolioCompiler.java:205-223 | failure on concatenated positions is the first part's failure, else the second's |
| PortfolioCompilation.SecuritiesAppend | projects/OG-Engine/src/com/opengamma/engine/view/compilation/PortfolioCompiler.java:205-223 | the chosen securities distribute over concatenation |
| PortfolioCompilation.ResolvedPositions | projects/OG-Engine/src/com/opengamma/engine/view/compilation/PortfolioCompiler.java:205-217 | every copied position carries its own security or the one found for its key, names the node, and keeps its identity; the first unresolvable one raises |
| PortfolioCompilation.ResolvedPositionsStep | projects/OG-Engine/src/com/opengamma/engine/view/compilation/PortfolioCompiler.java:205-217 | one position of that loop |
| PortfolioCompilation.ResolvedNode | projects/OG-Engine/src/com/opengamma/engine/view/compilation/PortfolioCompiler.java:199-225 | the copy keeps id, name, positions and children in order; children name the node as their parent |
| PortfolioCompilation.ResolvedChildren | projects/OG-Engine/src/com/opengamma/engine/view/compilation/PortfolioCompiler.java:219-223 | each child is resolved recursively with this node as parent |
| PortfolioCompilation.ResolvedHierarchy | projects/OG-Engine/src/com/opengamma/engine/view/compilation/PortfolioCompiler.java:189-201 | a missing root gives none; otherwise the resolved root |
| PortfolioCompilation.ResolvedNodeIsFullyResolved | projects/OG-Engine/src/com/opengamma/engine/view/compilation/PortfolioCompiler.java:205-217 | every position of a resolved copy has a security |
| PortfolioCompilation.GetPortfolio | projects/OG-Engine/src/com/opengamma/engine/view/compilation/PortfolioCompiler.java:108-126 | fails with the first missing piece (no portfolio reference, no position source, portfolio not found); otherwise fails exactly when collecting the security keys, the one resolver call or building the resolved copy fails, with that step's error; on success the copy keeps the portfolio's id, name and tree outline, every position has a security and each is the position's own or its key's resolved security |
| PortfolioCompilation.Execute | projects/OG-Engine/src/com/opengamma/engine/view/compilation/PortfolioCompiler.java:53-86 | without portfolio outputs nothing is fetched and null is returned; configurations without portfolio requirements are skipped; the portfolio is fetched at most once and shared |
| PortfolioCompilation.VisitConfig | projects/OG-Engine/src/com/opengamma/engine/view/compilation/PortfolioCompiler.java:67-83 | one configuration of the loop |
| PortfolioCompilation.TraversedStep | projects/OG-Engine/src/com/opengamma/engine/view/compilation/PortfolioCompiler.java:81-82 | one more traversal of the shared portfolio |
| PortfolioCompilation.ConfigsAppend | projects/OG-Engine/src/com/opengamma/engine/view/compilation/PortfolioCompiler.java:67-71 | the configurations with requirements distribute over concatenation |
| PortfolioCompilation.ConfigsSplit | projects/OG-Engine/src/com/opengamma/engine/view/compilation/PortfolioCompiler.java:67-71 | a prefix plus one configuration |
| PortfolioCompilation.ConfigsExtend | projects/OG-Engine/src/com/opengamma/engine/view/compilation/PortfolioCompiler.java:67-71 | appending one configuration |
| Views.PortfolioRequirementsEmptyIff | projects/OG-Engine/src/main/java/com/opengamma/engine/view/compilation/ViewDefinitionCompiler.java:562-565 | zero portfolio requirements exactly when no security type lists any |
| SemiAnnualSchedule.PickedIndexInRange | projects/OG-Financial/src/com/opengamma/financial/analytics/timeseries/EndOfMonthSemiAnnualScheduleCalculator.java:28-37 | every picked index lies in the monthly schedule |
| SemiAnnualSchedule.Reversed | projects/OG-Financial/src/com/opengamma/financial/analytics/timeseries/EndOfMonthSemiAnnualScheduleCalculator.java:31 | reversal keeps the length |
| SemiAnnualSchedule.ReversedAt | projects/OG-Financial/src/com/opengamma/financial/analytics/timeseries/EndOfMonthSemiAnnualScheduleCalculator.java:31 | the k-th element of a reversal is the k-th from the end |
| SemiAnnualSchedule.GetSchedule | projects/OG-Financial/src/com/opengamma/financial/analytics/timeseries/EndOfMonthSemiAnnualScheduleCalculator.java:23-55 | a null start or end date is rejected; otherwise the selection from the adjusted monthly schedule |
| SemiAnnualSchedule.FromStartPicksEverySixth | projects/OG-Financial/src/com/opengamma/financial/analytics/timeseries/EndOfMonthSemiAnnualScheduleCalculator.java:34-37 | from the start: monthly[0], monthly[6], …, of length ⌈n/6⌉ |
| SemiAnnualSchedule.FromEndEndsWithLastDate | projects/OG-Financial/src/com/opengamma/financial/analytics/timeseries/EndOfMonthSemiAnnualScheduleCalculator.java:28-32 | from the end: length ⌈n/6⌉, ending with the last monthly date, indices ascending by six |
| SemiAnnualSchedule.EmptyMonthlyGivesEmpty | projects/OG-Financial/src/com/opengamma/financial/analytics/timeseries/EndOfMonthSemiAnnualScheduleCalculator.java:26-37 | an empty monthly schedule gives an empty result |
| SemiAnnualSchedule.SelectedIsOrderedSubsequence | projects/OG-Financial/src/com/opengamma/financial/analytics/timeseries/EndOfMonthSemiAnnualScheduleCalculator.java:26-37 | the result is an order-preserving subsequence of the monthly schedule |
| SemiAnnualSchedule.ConsecutivePicksAreSixMonthsApart | projects/OG-Financial/src/com/opengamma/financial/analytics/timeseries/EndOfMonthSemiAnnualScheduleCalculator.java:28-37 | consecutive picks are six monthly dates apart |
| SemiAnnualSchedule.SelectionIgnoresDateType | projects/OG-Financial/src/com/opengamma/financial/analytics/timeseries/EndOfMonthSemiAnnualScheduleCalculator.java:23-55 | both overloads make the same index selection |
| CurveNodes.Create | projects/OG-Financial/src/main/java/com/opengamma/financial/analytics/ircurve/strips/CurveNodeWithIdentifier.java:51-63 | any null argument is rejected, at the first null in argument order; otherwise the fields are set |
| CurveNodes.CompareStringsAntisymmetric | projects/OG-Financial/src/main/java/com/opengamma/financial/analytics/ircurve/strips/CurveNodeWithIdentifier.java:78-84 | String.compareTo is antisymmetric |
| CurveNodes.CompareStringsZeroIff | projects/OG-Financial/src/main/java/com/opengamma/financial/analytics/ircurve/strips/CurveNodeWithIdentifier.java:78-84 | String.compareTo is zero exactly for equal strings |
| CurveNodes.CompareStringsTransitive | projects/OG-Financial/src/main/java/com/opengamma/financial/analytics/ircurve/strips/CurveNodeWithIdentifier.java:78-84 | String.compareTo's less-than is transitive |
| CurveNodes.CompareToZeroIff | projects/OG-Financial/src/main/java/com/opengamma/financial/analytics/ircurve/strips/CurveNodeWithIdentifier.java:73-87 | the result is zero exactly when all four component comparisons are zero |
| CurveNodes.SchemeIsIgnored | projects/OG-Financial/src/main/java/com/opengamma/financial/analytics/ircurve/strips/CurveNodeWithIdentifier.java:78 | nodes differing only in identifier scheme compare equal |
| CurveNodes.CompareToSignAntisymmetric | projects/OG-Financial/src/main/java/com/opengamma/financial/analytics/ircurve/strips/CurveNodeWithIdentifier.java:73-87 | if the node comparator is sign-antisymmetric, so is compareTo |
| CurveNodes.CompareToLessTransitive | projects/OG-Financial/src/main/java/com/opengamma/financial/analytics/ircurve/strips/CurveNodeWithIdentifier.java:73-87 | if the node comparator is a consistent order, compareTo's less-than is transitive |
| CurveNodes.CompareToZeroConsistent | projects/OG-Financial/src/main/java/com/opengamma/financial/analytics/ircurve/strips/CurveNodeWithIdentifier.java:73-87 | nodes comparing equal compare alike with any third node |

## Left out

- Concurrency is not modelled: the thread pool, `synchronized` blocks, the concurrent queues and maps, the `putIfAbsent` races and the double poll of the runnable queue. Every operation is a sequential step. A forked execution is a pending task that `InvocationContainer.RunTask` runs, in any order.
- The `ConcurrentSkipListMap` of executions is a map; its ascending key order is what the sweep scans, so the sweep follows key order, as the source's does.
- `RETENTION` is 10^9 nanoseconds, one second, although its comment says ten seconds; the model uses the value.
- `_jobCount` counts finished drain chains, not single jobs, and wraps at 32 bits; after the wrap the sweep cadence shifts (`CountAfterWraps`). The model states this and does not call it a defect.
- Job execution records and job entries are values in arenas indexed by position, not shared objects; entry equality by job is not modelled.
- Job ids are natural numbers, not 64-bit `long` values.
- `System.nanoTime` is the abstract clock `now`; its overflow is not modelled.
- `onJobStart` and `onJobExecutionComplete` are empty hooks and are left out; `onNodeChange` is an event in the trace.
- An invalidated entry's receiver is null in the source; calling it would raise a NullPointerException. The model does not call an invalidated entry's receiver and does not model that exception.
- InvocationContainer.FailExecution: the ensures states that the record and every tail blocked on it fail, each invalidated, level by level; the transitive closure of failure over tails is carried by the recursion of `FailTail`, not stated as one closure set.
- InvocationContainer.RunOne: `executeJob` is assumed to return a result or to throw, never to return null. The oracle `succeeds` has just those two outcomes. In the source a null result without an exception changes no status, calls no callback and releases nothing: the record stays RUNNING, so the sweep never removes it, and the jobs blocked on it wait for ever. That path is not modelled, so the contract's exactly-one-callback promise holds only under this assumption.
- InvocationContainer.ExecuteJobs: each job it runs makes one callback only under the same assumption that `executeJob` never returns null; a job whose run returns null would make none.
- CompilationTask.Compile: the context's reports of expired resolutions are a finite sequence of batches fixed when the task is created (`expiredBatches`), and the revalidation loop consumes one batch per pass. In the source the loop asks the context after every pass, so reports can arise from the compilation itself, from the builders or from the rebuilds inside the loop. Such reports are not modelled, and neither is a revalidation loop that never ends.
- The one-argument `failNodesAbove` is a no-op in the source, so a failed node does not fail the nodes above it during `executeGraph`. The two-argument overload is modelled (`FailNodesAboveFrom`) and is not called.
- DependencyGraphExecutor.StartExecution and DependencyGraphExecutor.ExecuteGraph model the first `executeGraph` run of an executor: their requires ask for empty to-execute, executing and executed sets, so a second run, which in the source starts with the executed set of the first, is not modelled.
- DependencyGraphExecutor.ExecuteGraph: the loop ends once to-execute is empty, as the source's does, without waiting for the jobs still executing.
- The job completion retriever is a function of the executing specifications, assumed to return a non-empty batch of them (`RetrieverLive`); its one-second timeout is not modelled.
- Enqueue order among executable nodes is arbitrary, because the source iterates a set.
- ViewCompilation.IncrementalStrategy: the promise that an empty delta set adds no portfolio targets (ViewDefinitionCompiler.java lines 440-448 hand the set to the portfolio traversal) is not stated, because which targets the traversal emits is the abstract callback's business. With an unchanged-node set of `Some({})` the source excludes no node, so that promise could hold at most for an empty changed-position set.
- The dependency graph builder, graph pruning, the sub-graphing filter, the portfolio traversal callback, the target and specification resolvers and the security resolver are abstract functions.
- Security caching (`cacheSecurities`) is not modelled.
- Portfolio requirements on a builder without a portfolio would raise a NullPointerException in the source; the model returns `Failure(NoPortfolioForRequirements)`.
- The state a compilation task is left in after a failed builder is only partly specified.
- `cancel`, `isCancelled`, the progress estimate, timers, logging and the `output*` dumps are not modelled.
- Java's `String.compareTo` is modelled on sequences of characters, with no UTF-16 surrogate handling.
- Java arrays and lists are sequences. The arguments that the modelled code tests for null are `Option` values: the four constructor arguments of `CurveNodes.Create`, the two dates of `SemiAnnualSchedule.GetSchedule` and the portfolio reference and position source of `PortfolioCompilation.GetPortfolio`, each answered with an error, and the node of `InvocationContainer.AddJob`, whose absence means the job is dispatched without a node.
- InvocationContainer.AddNode, AddNodes, SetNode and SetNodes take a node or a sequence of nodes, never null. A null node passed to addNode, addNodes, setNode or setNodes, which the source rejects with an IllegalArgumentException from its null check, is not modelled.
- `CurveNodeWithIdentifier`'s setters, `equals` and `hashCode` are bean plumbing and are left out.
