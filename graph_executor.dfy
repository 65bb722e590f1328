/**
 * Execution of one dependency graph (DependencyGraphExecutor): every node is
 * gathered into the to-execute set, live-data nodes count as executed at
 * once, and nodes whose inputs have all executed are submitted as jobs,
 * round after round, as completions come back.
 */
module DependencyGraphExecution {
  import opened Wrappers
  import opened Portfolios

  /** A node of the graph: the indices of its input nodes, its function, and the inputs it resolves. */
  datatype DependencyNode = DependencyNode(
    inputNodes: seq<nat>,
    functionId: string,
    liveDataSourcing: bool,
    resolvedInputs: set<string>)

  /** What the executor computes on; it decides what each job carries. */
  datatype ExecutorTarget =
    | PrimitiveTarget
    | SecurityTarget(identityKey: string)
    | PositionTarget(position: Position)
    | MultiplePositionsTarget(positions: seq<Position>)

  /** A position as sent with a job: only its quantity and security key. */
  datatype StrippedPosition = StrippedPosition(quantity: int, securityKey: Option<SecurityKey>)

  datatype JobTarget =
    | NoJobTarget
    | SecurityKeyJobTarget(identityKey: string)
    | PositionJobTarget(position: StrippedPosition)
    | PositionsJobTarget(positions: seq<StrippedPosition>)

  datatype JobSpec = JobSpec(viewName: string, iterationTimestamp: int, jobId: nat)

  datatype CalculationJob = CalculationJob(spec: JobSpec, functionId: string, target: JobTarget, inputs: set<string>)

  /** A completion reported by the job completion retriever. */
  datatype JobResult = JobResult(spec: JobSpec, success: bool)

  function StripDownPosition(p: Position): StrippedPosition
  {
    StrippedPosition(p.quantity, p.securityKey)
  }

  function StripDownPositions(ps: seq<Position>): (r: seq<StrippedPosition>)
    ensures |r| == |ps|
  {
    seq(|ps|, i requires 0 <= i < |ps| => StripDownPosition(ps[i]))
  }

  /** The job for a node: its function and resolved inputs, and what the executor's target type calls for. */
  function JobFor(target: ExecutorTarget, node: DependencyNode, spec: JobSpec): CalculationJob
  {
    var jobTarget := match target
      case PrimitiveTarget => NoJobTarget
      case SecurityTarget(key) => SecurityKeyJobTarget(key)
      case PositionTarget(p) => PositionJobTarget(StripDownPosition(p))
      case MultiplePositionsTarget(ps) => PositionsJobTarget(StripDownPositions(ps));
    CalculationJob(spec, node.functionId, jobTarget, node.resolvedInputs)
  }

  /** The completions of one round are distinct jobs that are executing, and at least one comes back. */
  ghost predicate ValidBatch(executing: set<JobSpec>, batch: seq<JobResult>)
  {
    && |batch| > 0
    && (forall i :: 0 <= i < |batch| ==> batch[i].spec in executing)
    && (forall i, j :: 0 <= i < j < |batch| ==> batch[i].spec != batch[j].spec)
  }

  /** A retriever that reports, while jobs are executing, a valid round of completions. */
  ghost predicate RetrieverLive(retriever: set<JobSpec> -> seq<JobResult>)
  {
    forall executing: set<JobSpec> :: executing != {} ==> ValidBatch(executing, retriever(executing))
  }

  function Elements<T>(s: seq<T>): set<T>
  {
    set x | x in s
  }

  /** The indices below n. */
  function Indices(n: nat): (r: set<nat>)
    ensures forall i :: i in r <==> 0 <= i < n
  {
    if n == 0 then {} else Indices(n - 1) + {n - 1}
  }

  predicate Distinct<T(==)>(s: seq<T>)
  {
    forall i, j :: 0 <= i < j < |s| ==> s[i] != s[j]
  }

  class DependencyGraphExecutor {
    const viewName: string
    const target: ExecutorTarget
    const nodes: seq<DependencyNode>
    /** A witness of acyclicity: every input has a lower rank than its node. */
    ghost const rank: seq<nat>

    var toExecute: set<nat>
    var executing: set<nat>
    var executingSpecifications: map<JobSpec, nat>
    var executed: set<nat>
    var failed: set<nat>
    /** The job id source of the current execution. */
    var jobIdSource: nat
    /** The job sink: every job submitted, in order. */
    var submitted: seq<CalculationJob>
    /** The jobs the sink held when the current execution began. */
    ghost var previousJobs: seq<CalculationJob>
    /** The nodes submitted during the current execution, in job-id order. */
    ghost var runNodes: seq<nat>
    ghost var iteration: int

    ghost predicate Ranked()
    {
      && |rank| == |nodes|
      && forall n, j :: 0 <= n < |nodes| && 0 <= j < |nodes[n].inputNodes| ==>
           nodes[n].inputNodes[j] < |nodes| && rank[nodes[n].inputNodes[j]] < rank[n]
    }

    /** There is a path from n to m along input edges (of length zero when n == m). */
    ghost predicate Reaches(n: nat, m: nat)
      requires Ranked()
      decreases if n < |nodes| then rank[n] else 0
    {
      n < |nodes| && (n == m || exists i :: i in nodes[n].inputNodes && Reaches(i, m))
    }

    /** n and every node its inputs lead to. */
    ghost function Below(n: nat): set<nat>
      requires Ranked()
    {
      set m | 0 <= m < |nodes| && Reaches(n, m)
    }

    ghost function AllNodes(): set<nat>
    {
      Indices(|nodes|)
    }

    /** Some node of `s` reaches m. */
    ghost predicate ReachedFromSome(s: seq<nat>, m: nat)
      requires Ranked()
    {
      exists k :: 0 <= k < |s| && Reaches(s[k], m)
    }

    /** Some node below index n reaches m. */
    ghost predicate ReachedFromFirst(n: nat, m: nat)
      requires Ranked()
    {
      exists k :: 0 <= k < n && Reaches(k, m)
    }

    /** Node n runs a live-data sourcing function. */
    predicate IsLive(n: nat)
    {
      n < |nodes| && nodes[n].liveDataSourcing
    }

    ghost function LiveDataNodes(): set<nat>
    {
      set n | 0 <= n < |nodes| && IsLive(n)
    }

    /** Every input of n is in `done`. */
    predicate InputsDone(n: nat, done: set<nat>)
      requires n < |nodes|
    {
      forall i :: i in nodes[n].inputNodes ==> i in done
    }

    /** The nodes of `candidates` whose inputs are all in `done`. */
    ghost function Executable(candidates: set<nat>, done: set<nat>): set<nat>
    {
      set n | n in candidates && n < |nodes| && InputsDone(n, done)
    }

    /** Every input of a submitted node is live data or was submitted before it. */
    ghost predicate InputsFirst(order: seq<nat>)
    {
      forall k, i :: 0 <= k < |order| && order[k] < |nodes| && i in nodes[order[k]].inputNodes ==>
        IsLive(i) || i in order[..k]
    }

    /** Every node is in exactly one of to-execute, executing and executed; live-data nodes only in the last. */
    ghost predicate Partition(toRun: set<nat>, running: set<nat>, done: set<nat>)
    {
      && (forall n :: n in toRun ==> n < |nodes| && n !in running && n !in done && !IsLive(n))
      && (forall n :: n in running ==> n < |nodes| && n !in done && !IsLive(n))
      && (forall n :: n in done ==> n < |nodes|)
      && (forall n :: 0 <= n < |nodes| ==> n in toRun || n in running || n in done)
    }

    /** The nodes submitted so far, in job-id order: each once, inputs first, exactly those executing or completed. */
    ghost predicate Ordered(order: seq<nat>, running: set<nat>, done: set<nat>)
    {
      && Distinct(order)
      && (forall k :: 0 <= k < |order| ==> order[k] < |nodes|)
      && (forall k :: 0 <= k < |order| ==> order[k] in running || (order[k] in done && !IsLive(order[k])))
      && (forall n :: n in running ==> n in order)
      && (forall n :: n in done && !IsLive(n) ==> n in order)
      && InputsFirst(order)
    }

    /** Each executing node has exactly the specification whose job id is its place in `order`. */
    ghost predicate Tracked(specs: map<JobSpec, nat>, order: seq<nat>, running: set<nat>, timestamp: int)
    {
      && (forall s :: s in specs ==>
            && 1 <= s.jobId <= |order| && s == JobSpec(viewName, timestamp, s.jobId)
            && specs[s] == order[s.jobId - 1] && specs[s] in running)
      && (forall id {:trigger JobSpec(viewName, timestamp, id)} :: 1 <= id <= |order| && order[id - 1] in running ==>
            JobSpec(viewName, timestamp, id) in specs)
    }

    /** The jobs of `order`, with job ids 1, 2, ... */
    function JobsOf(order: seq<nat>, timestamp: int): (jobs: seq<CalculationJob>)
      requires forall k :: 0 <= k < |order| ==> order[k] < |nodes|
      ensures |jobs| == |order|
    {
      if order == [] then []
      else JobsOf(order[..|order| - 1], timestamp)
           + [JobFor(target, nodes[order[|order| - 1]], JobSpec(viewName, timestamp, |order|))]
    }

    /**
     * The k-th job of an execution is the job of the k-th submitted node with
     * job id k + 1, so the job ids are 1, 2, 3, ... and strictly increasing.
     */
    lemma {:induction false} JobsOfNumbered(order: seq<nat>, timestamp: int)
      requires forall k :: 0 <= k < |order| ==> order[k] < |nodes|
      ensures forall k :: 0 <= k < |order| ==>
        JobsOf(order, timestamp)[k] == JobFor(target, nodes[order[k]], JobSpec(viewName, timestamp, k + 1))
      ensures forall j, k :: 0 <= j < k < |order| ==>
        JobsOf(order, timestamp)[j].spec.jobId < JobsOf(order, timestamp)[k].spec.jobId
    {
      if order != [] {
        var init := order[..|order| - 1];
        JobsOfNumbered(init, timestamp);
        forall k | 0 <= k < |init|
          ensures JobsOf(order, timestamp)[k] == JobsOf(init, timestamp)[k]
        {
        }
        forall k | 0 <= k < |init|
          ensures order[k] == init[k]
        {
        }
      }
    }

    /** The job sink holds the jobs from before this execution, then those of `order`. */
    ghost predicate Logged(jobs: seq<CalculationJob>, earlier: seq<CalculationJob>, order: seq<nat>, timestamp: int)
    {
      && (forall k :: 0 <= k < |order| ==> order[k] < |nodes|)
      && jobs == earlier + JobsOf(order, timestamp)
    }

    /** The bookkeeping of an execution in progress, on values. */
    ghost predicate Books(toRun: set<nat>, running: set<nat>, done: set<nat>, specs: map<JobSpec, nat>,
                          order: seq<nat>, jobs: seq<CalculationJob>, earlier: seq<CalculationJob>, timestamp: int)
    {
      && Partition(toRun, running, done)
      && Ordered(order, running, done)
      && Tracked(specs, order, running, timestamp)
      && Logged(jobs, earlier, order, timestamp)
    }

    /** The bookkeeping of an execution in progress. */
    ghost predicate Consistent()
      reads this
    {
      && Ranked()
      && jobIdSource == |runNodes|
      && Books(toExecute, executing, executed, executingSpecifications, runNodes, submitted, previousJobs, iteration)
    }

    lemma EnqueueKeepsBooks(toRun: set<nat>, running: set<nat>, done: set<nat>, specs: map<JobSpec, nat>,
                            order: seq<nat>, jobs: seq<CalculationJob>, earlier: seq<CalculationJob>, timestamp: int, n: nat)
      requires Books(toRun, running, done, specs, order, jobs, earlier, timestamp)
      requires n in toRun && n < |nodes| && forall i :: i in nodes[n].inputNodes ==> i in done
      ensures Books(toRun - {n}, running + {n}, done, specs[JobSpec(viewName, timestamp, |order| + 1) := n], order + [n],
                    jobs + [JobFor(target, nodes[n], JobSpec(viewName, timestamp, |order| + 1))], earlier, timestamp)
    {
      EnqueueKeepsPartition(toRun, running, done, n);
      EnqueueKeepsOrder(order, running, done, n);
      EnqueueKeepsTracking(specs, order, running, timestamp, n);
      SubmitKeepsLog(jobs, earlier, order, timestamp, n);
    }

    lemma CompleteKeepsBooks(toRun: set<nat>, running: set<nat>, done: set<nat>, specs: map<JobSpec, nat>,
                             order: seq<nat>, jobs: seq<CalculationJob>, earlier: seq<CalculationJob>, timestamp: int, spec: JobSpec)
      requires Books(toRun, running, done, specs, order, jobs, earlier, timestamp) && spec in specs
      ensures Books(toRun, running - {specs[spec]}, done + {specs[spec]}, specs - {spec}, order, jobs, earlier, timestamp)
    {
      CompleteKeepsPartition(toRun, running, done, specs[spec]);
      CompleteKeepsOrder(order, running, done, specs[spec]);
      CompleteKeepsTracking(specs, order, running, timestamp, spec);
    }

    lemma EnqueueKeepsPartition(toRun: set<nat>, running: set<nat>, done: set<nat>, n: nat)
      requires Partition(toRun, running, done) && n in toRun
      ensures Partition(toRun - {n}, running + {n}, done)
    {
    }

    lemma EnqueueKeepsOrder(order: seq<nat>, running: set<nat>, done: set<nat>, n: nat)
      requires Ordered(order, running, done) && n < |nodes| && n !in running && n !in done && !IsLive(n)
      requires forall i :: i in nodes[n].inputNodes ==> i in done
      ensures Ordered(order + [n], running + {n}, done)
    {
      var order' := order + [n];
      assert n !in order;
      forall k, i | 0 <= k < |order'| && order'[k] < |nodes| && i in nodes[order'[k]].inputNodes
        ensures IsLive(i) || i in order'[..k]
      {
        if k < |order| {
          assert order'[..k] == order[..k];
        } else {
          assert order'[..k] == order;
          assert i in done;
          if !IsLive(i) {
            assert i in order;
          }
        }
      }
    }

    lemma EnqueueKeepsTracking(specs: map<JobSpec, nat>, order: seq<nat>, running: set<nat>, timestamp: int, n: nat)
      requires Tracked(specs, order, running, timestamp) && n !in running && n !in order
      ensures Tracked(specs[JobSpec(viewName, timestamp, |order| + 1) := n], order + [n], running + {n}, timestamp)
    {
      var order' := order + [n];
      forall s | s in specs
        ensures order'[s.jobId - 1] == order[s.jobId - 1]
      {
      }
    }

    lemma SubmitKeepsLog(jobs: seq<CalculationJob>, earlier: seq<CalculationJob>, order: seq<nat>, timestamp: int, n: nat)
      requires Logged(jobs, earlier, order, timestamp) && n < |nodes|
      ensures Logged(jobs + [JobFor(target, nodes[n], JobSpec(viewName, timestamp, |order| + 1))], earlier, order + [n], timestamp)
    {
      assert (order + [n])[..|order|] == order;
    }

    lemma CompleteKeepsPartition(toRun: set<nat>, running: set<nat>, done: set<nat>, n: nat)
      requires Partition(toRun, running, done) && n in running
      ensures Partition(toRun, running - {n}, done + {n})
    {
    }

    lemma CompleteKeepsOrder(order: seq<nat>, running: set<nat>, done: set<nat>, n: nat)
      requires Ordered(order, running, done) && n in running && !IsLive(n)
      ensures Ordered(order, running - {n}, done + {n})
    {
    }

    lemma CompleteKeepsTracking(specs: map<JobSpec, nat>, order: seq<nat>, running: set<nat>, timestamp: int, spec: JobSpec)
      requires Tracked(specs, order, running, timestamp) && Distinct(order) && spec in specs
      ensures Tracked(specs - {spec}, order, running - {specs[spec]}, timestamp)
    {
      var n := specs[spec];
      forall s | s in specs && s != spec
        ensures specs[s] != n
      {
        assert s.jobId != spec.jobId;
      }
    }

    constructor(viewName: string, target: ExecutorTarget, nodes: seq<DependencyNode>, ghost rank: seq<nat>)
      requires |rank| == |nodes|
      requires forall n, j :: 0 <= n < |nodes| && 0 <= j < |nodes[n].inputNodes| ==>
                 nodes[n].inputNodes[j] < |nodes| && rank[nodes[n].inputNodes[j]] < rank[n]
      ensures Ranked()
      ensures this.viewName == viewName && this.target == target && this.nodes == nodes
      ensures toExecute == {} && executing == {} && executingSpecifications == map[] && executed == {} && failed == {}
      ensures submitted == []
    {
      this.viewName := viewName;
      this.target := target;
      this.nodes := nodes;
      this.rank := rank;
      toExecute, executing, executingSpecifications, executed, failed := {}, {}, map[], {}, {};
      jobIdSource, submitted := 0, [];
      runNodes, iteration, previousJobs := [], 0, [];
    }

    lemma ReachesLowersRank(n: nat, m: nat)
      requires Ranked() && Reaches(n, m)
      ensures m < |nodes| && rank[m] <= rank[n] && (m != n ==> rank[m] < rank[n])
      decreases rank[n]
    {
      if n != m {
        var i :| i in nodes[n].inputNodes && Reaches(i, m);
        ReachesLowersRank(i, m);
      }
    }

    /** In an acyclic graph no two distinct nodes reach each other. */
    lemma NoCycle(n: nat, m: nat)
      requires Ranked() && Reaches(n, m) && Reaches(m, n)
      ensures n == m
    {
      ReachesLowersRank(n, m);
      ReachesLowersRank(m, n);
    }

    lemma BelowUnfolds(n: nat)
      requires Ranked() && n < |nodes|
      ensures Below(n) == {n} + (set m | 0 <= m < |nodes| && ReachedFromSome(nodes[n].inputNodes, m))
    {
      var ins := nodes[n].inputNodes;
      assert Reaches(n, n);
      forall m | 0 <= m < |nodes| && ReachedFromSome(ins, m)
        ensures Reaches(n, m)
      {
        var k :| 0 <= k < |ins| && Reaches(ins[k], m);
        assert ins[k] in ins;
      }
      forall m | m in Below(n) && m != n
        ensures ReachedFromSome(ins, m)
      {
        var i :| i in ins && Reaches(i, m);
        var k :| 0 <= k < |ins| && ins[k] == i;
      }
    }

    /** addAllNodesToExecute(node): the inputs first, recursively, then the node itself. */
    method AddAllNodesToExecute(n: nat)
      requires Ranked() && n < |nodes|
      modifies this
      ensures toExecute == old(toExecute) + Below(n)
      ensures executing == old(executing) && executingSpecifications == old(executingSpecifications)
      ensures executed == old(executed) && failed == old(failed) && jobIdSource == old(jobIdSource)
      ensures submitted == old(submitted) && previousJobs == old(previousJobs) && runNodes == old(runNodes) && iteration == old(iteration)
      decreases rank[n]
    {
      var ins := nodes[n].inputNodes;
      var j := 0;
      while j < |ins|
        invariant 0 <= j <= |ins|
        invariant toExecute == old(toExecute) + (set m | 0 <= m < |nodes| && ReachedFromSome(ins[..j], m))
        invariant executing == old(executing) && executingSpecifications == old(executingSpecifications)
        invariant executed == old(executed) && failed == old(failed) && jobIdSource == old(jobIdSource)
        invariant submitted == old(submitted) && previousJobs == old(previousJobs) && runNodes == old(runNodes) && iteration == old(iteration)
      {
        assert ins[j] < |nodes| && rank[ins[j]] < rank[n];
        ghost var before := toExecute;
        AddAllNodesToExecute(ins[j]);
        forall m | 0 <= m < |nodes|
          ensures ReachedFromSome(ins[..j + 1], m) <==> ReachedFromSome(ins[..j], m) || Reaches(ins[j], m)
        {
          if ReachedFromSome(ins[..j + 1], m) {
            var k :| 0 <= k < j + 1 && Reaches(ins[..j + 1][k], m);
            if k < j {
              assert ins[..j][k] == ins[k];
            }
          }
          if ReachedFromSome(ins[..j], m) {
            var k :| 0 <= k < j && Reaches(ins[..j][k], m);
            assert ins[..j + 1][k] == ins[k];
          }
          if Reaches(ins[j], m) {
            assert ins[..j + 1][j] == ins[j];
          }
        }
        j := j + 1;
      }
      toExecute := toExecute + {n};
      assert ins[..j] == ins;
      BelowUnfolds(n);
    }

    /** addAllNodesToExecute(graph nodes): every node of the graph. */
    method AddAllGraphNodesToExecute()
      requires Ranked()
      modifies this
      ensures toExecute == old(toExecute) + AllNodes()
      ensures executing == old(executing) && executingSpecifications == old(executingSpecifications)
      ensures executed == old(executed) && failed == old(failed) && jobIdSource == old(jobIdSource)
      ensures submitted == old(submitted) && previousJobs == old(previousJobs) && runNodes == old(runNodes) && iteration == old(iteration)
    {
      var n := 0;
      while n < |nodes|
        invariant 0 <= n <= |nodes|
        invariant toExecute == old(toExecute) + (set m | 0 <= m < |nodes| && ReachedFromFirst(n, m))
        invariant executing == old(executing) && executingSpecifications == old(executingSpecifications)
        invariant executed == old(executed) && failed == old(failed) && jobIdSource == old(jobIdSource)
        invariant submitted == old(submitted) && previousJobs == old(previousJobs) && runNodes == old(runNodes) && iteration == old(iteration)
      {
        AddAllNodesToExecute(n);
        forall m | 0 <= m < |nodes|
          ensures ReachedFromFirst(n + 1, m) <==> ReachedFromFirst(n, m) || Reaches(n, m)
        {
        }
        n := n + 1;
      }
      forall m | m in AllNodes()
        ensures ReachedFromFirst(|nodes|, m)
      {
        assert Reaches(m, m);
      }
      forall m | m in toExecute - old(toExecute)
        ensures m in AllNodes()
      {
      }
    }

    /** The walk of markLiveDataSourcingFunctionsCompleted over the to-execute nodes: which are live data. */
    method SplitLiveData(candidates: set<nat>) returns (rest: set<nat>, liveData: set<nat>)
      ensures rest == candidates - LiveDataNodes() && liveData == candidates * LiveDataNodes()
    {
      ghost var live := LiveDataNodes();
      rest, liveData := candidates, {};
      var todo := candidates;
      while todo != {}
        invariant todo <= candidates
        invariant forall m :: m in rest <==> m in candidates && (m in todo || m !in live)
        invariant forall m :: m in liveData <==> m in candidates && m !in todo && m in live
        decreases |todo|
      {
        var n :| n in todo;
        todo := todo - {n};
        if n < |nodes| && nodes[n].liveDataSourcing {
          assert n in live;
          rest := rest - {n};
          liveData := liveData + {n};
        } else {
          assert n !in live;
        }
      }
    }

    /** markLiveDataSourcingFunctionsCompleted: live-data nodes leave to-execute and count as executed. */
    method MarkLiveDataSourcingFunctionsCompleted()
      modifies this
      ensures toExecute == old(toExecute) - LiveDataNodes()
      ensures executed == old(executed) + old(toExecute) * LiveDataNodes()
      ensures executing == old(executing) && executingSpecifications == old(executingSpecifications)
      ensures failed == old(failed) && jobIdSource == old(jobIdSource)
      ensures submitted == old(submitted) && previousJobs == old(previousJobs) && runNodes == old(runNodes) && iteration == old(iteration)
    {
      var rest, liveData := SplitLiveData(toExecute);
      toExecute, executed := rest, executed + liveData;
    }

    /** canExecute: whether every input of the node has executed. */
    method CanExecute(n: nat) returns (r: bool)
      requires n < |nodes| && n !in executing && n !in executed
      ensures r <==> InputsDone(n, executed)
    {
      var ins := nodes[n].inputNodes;
      r := true;
      var j := 0;
      while j < |ins|
        invariant 0 <= j <= |ins|
        invariant r
        invariant forall k :: 0 <= k < j ==> ins[k] in executed
      {
        if ins[j] !in executed {
          r := false;
          break;
        }
        j := j + 1;
      }
    }

    /** submitNodeInvocationJob: the next job id, and a job for the node sent to the job sink. */
    method SubmitNodeInvocationJob(iterationTimestamp: int, n: nat) returns (spec: JobSpec)
      requires n < |nodes| && !nodes[n].liveDataSourcing
      modifies this
      ensures spec == JobSpec(viewName, iterationTimestamp, old(jobIdSource) + 1)
      ensures jobIdSource == old(jobIdSource) + 1
      ensures submitted == old(submitted) + [JobFor(target, nodes[n], spec)]
      ensures runNodes == old(runNodes) + [n] && previousJobs == old(previousJobs)
      ensures toExecute == old(toExecute) && executing == old(executing) && executingSpecifications == old(executingSpecifications)
      ensures executed == old(executed) && failed == old(failed) && iteration == old(iteration)
    {
      jobIdSource := jobIdSource + 1;
      spec := JobSpec(viewName, iterationTimestamp, jobIdSource);
      var job := match target
        case PrimitiveTarget => CalculationJob(spec, nodes[n].functionId, NoJobTarget, nodes[n].resolvedInputs)
        case SecurityTarget(key) => CalculationJob(spec, nodes[n].functionId, SecurityKeyJobTarget(key), nodes[n].resolvedInputs)
        case PositionTarget(p) => CalculationJob(spec, nodes[n].functionId, PositionJobTarget(StripDownPosition(p)), nodes[n].resolvedInputs)
        case MultiplePositionsTarget(ps) =>
          CalculationJob(spec, nodes[n].functionId, PositionsJobTarget(StripDownPositions(ps)), nodes[n].resolvedInputs);
      submitted := submitted + [job];
      runNodes := runNodes + [n];
    }

    /** enqueueAllAvailableNodes: every to-execute node whose inputs have all executed is submitted. */
    method EnqueueAllAvailableNodes(iterationTimestamp: int)
      requires Consistent() && iteration == iterationTimestamp
      modifies this
      ensures Consistent()
      ensures toExecute == old(toExecute) - Executable(old(toExecute), old(executed))
      ensures executing == old(executing) + Executable(old(toExecute), old(executed))
      ensures |toExecute| + |executing| == |old(toExecute)| + |old(executing)|
      ensures executed == old(executed) && failed == old(failed) && iteration == old(iteration)
      ensures previousJobs == old(previousJobs)
    {
      ghost var ready := Executable(toExecute, executed);
      ghost var enqueued: set<nat> := {};
      var todo := toExecute;
      while todo != {}
        invariant Consistent() && iteration == iterationTimestamp
        invariant todo <= old(toExecute)
        invariant Sweeping(old(toExecute), old(executing), ready, todo, enqueued, toExecute, executing)
        invariant |toExecute| + |executing| == |old(toExecute)| + |old(executing)|
        invariant executed == old(executed) && failed == old(failed)
        invariant previousJobs == old(previousJobs)
        decreases |todo|
      {
        var n :| n in todo;
        enqueued := EnqueueNext(iterationTimestamp, n, old(toExecute), old(executing), ready, todo, enqueued);
        todo := todo - {n};
      }
      SweepingDone(old(toExecute), old(executing), ready, enqueued, toExecute, executing);
    }

    /**
     * Part way through enqueueAllAvailableNodes: the nodes enqueued so far
     * are exactly the ready ones already looked at, and they have moved
     * from to-execute to executing.
     */
    ghost predicate Sweeping(toRun0: set<nat>, running0: set<nat>, ready: set<nat>, todo: set<nat>, enqueued: set<nat>,
                             toRun: set<nat>, running: set<nat>)
    {
      && (forall m :: m in toRun <==> m in toRun0 && m !in enqueued)
      && (forall m :: m in running <==> m in running0 || m in enqueued)
      && (forall m :: m in enqueued ==> m in ready && m !in todo)
      && (forall m :: m in ready && m !in todo ==> m in enqueued)
    }

    lemma SweepingStep(toRun0: set<nat>, running0: set<nat>, ready: set<nat>, todo: set<nat>, enqueued: set<nat>,
                       toRun: set<nat>, running: set<nat>, n: nat, r: bool, toRun': set<nat>, running': set<nat>)
      requires Sweeping(toRun0, running0, ready, todo, enqueued, toRun, running) && n in todo
      requires r <==> n in ready
      requires forall m :: m in toRun' <==> m in toRun && !(r && m == n)
      requires forall m :: m in running' <==> m in running || (r && m == n)
      ensures Sweeping(toRun0, running0, ready, todo - {n}, if r then enqueued + {n} else enqueued, toRun', running')
    {
    }

    /** Once every node has been looked at, exactly the ready ones have moved. */
    lemma SweepingDone(toRun0: set<nat>, running0: set<nat>, ready: set<nat>, enqueued: set<nat>,
                       toRun: set<nat>, running: set<nat>)
      requires Sweeping(toRun0, running0, ready, {}, enqueued, toRun, running)
      ensures toRun == toRun0 - ready && running == running0 + ready
    {
      assert enqueued == ready;
    }

    /** One pass of the loop of enqueueAllAvailableNodes, with the loop's bookkeeping. */
    method EnqueueNext(iterationTimestamp: int, n: nat, ghost toRun0: set<nat>, ghost running0: set<nat>, ghost ready: set<nat>,
                       ghost todo: set<nat>, ghost enqueued: set<nat>) returns (ghost enqueued': set<nat>)
      requires Consistent() && iteration == iterationTimestamp && n in todo && todo <= toRun0
      requires ready == Executable(toRun0, executed)
      requires Sweeping(toRun0, running0, ready, todo, enqueued, toExecute, executing)
      modifies this
      ensures Consistent() && iteration == iterationTimestamp
      ensures Sweeping(toRun0, running0, ready, todo - {n}, enqueued', toExecute, executing)
      ensures |toExecute| + |executing| == |old(toExecute)| + |old(executing)|
      ensures executed == old(executed) && failed == old(failed) && previousJobs == old(previousJobs)
    {
      ghost var toRun, running := toExecute, executing;
      var r := EnqueueIfExecutable(iterationTimestamp, n);
      SweepingStep(toRun0, running0, ready, todo, enqueued, toRun, running, n, r, toExecute, executing);
      enqueued' := if r then enqueued + {n} else enqueued;
    }

    /** One pass of the loop of enqueueAllAvailableNodes: the node is submitted if its inputs have all executed. */
    method EnqueueIfExecutable(iterationTimestamp: int, n: nat) returns (enqueued: bool)
      requires Consistent() && iteration == iterationTimestamp && n in toExecute
      modifies this
      ensures Consistent()
      ensures enqueued == InputsDone(n, old(executed))
      ensures forall m :: m in toExecute <==> m in old(toExecute) && !(enqueued && m == n)
      ensures forall m :: m in executing <==> m in old(executing) || (enqueued && m == n)
      ensures |toExecute| + |executing| == |old(toExecute)| + |old(executing)|
      ensures executed == old(executed) && failed == old(failed) && iteration == old(iteration)
      ensures previousJobs == old(previousJobs)
    {
      enqueued := CanExecute(n);
      if enqueued {
        Enqueue(iterationTimestamp, n);
      }
    }

    /** One step of enqueueAllAvailableNodes: the node moves to executing and its job is submitted. */
    method Enqueue(iterationTimestamp: int, n: nat)
      requires Consistent() && iteration == iterationTimestamp
      requires n in toExecute && InputsDone(n, executed)
      modifies this
      ensures Consistent()
      ensures toExecute == old(toExecute) - {n} && executing == old(executing) + {n}
      ensures |toExecute| + |executing| == |old(toExecute)| + |old(executing)|
      ensures executed == old(executed) && failed == old(failed) && iteration == old(iteration)
      ensures runNodes == old(runNodes) + [n]
      ensures submitted == old(submitted) + [JobFor(target, nodes[n], JobSpec(viewName, iterationTimestamp, |old(runNodes)| + 1))]
      ensures previousJobs == old(previousJobs)
    {
      EnqueueKeepsBooks(toExecute, executing, executed, executingSpecifications, runNodes, submitted, previousJobs, iteration, n);
      assert toExecute == (toExecute - {n}) + {n};
      toExecute := toExecute - {n};
      executing := executing + {n};
      var spec := SubmitNodeInvocationJob(iterationTimestamp, n);
      executingSpecifications := executingSpecifications[spec := n];
    }

    /** The completion of one job: its node leaves executing and counts as executed, and as failed unless it succeeded. */
    method CompleteJob(result: JobResult)
      requires result.spec in executingSpecifications && executingSpecifications[result.spec] in executing
      modifies this
      ensures executingSpecifications == old(executingSpecifications) - {result.spec}
      ensures executing == old(executing) - {old(executingSpecifications)[result.spec]}
      ensures |executing| == |old(executing)| - 1
      ensures executed == old(executed) + {old(executingSpecifications)[result.spec]}
      ensures failed == if result.success then old(failed) else old(failed) + {old(executingSpecifications)[result.spec]}
      ensures toExecute == old(toExecute) && iteration == old(iteration) && jobIdSource == old(jobIdSource)
      ensures runNodes == old(runNodes) && submitted == old(submitted) && previousJobs == old(previousJobs)
    {
      var n := executingSpecifications[result.spec];
      assert executing == (executing - {n}) + {n};
      var failedAfter := if result.success then failed else failed + {n};
      executingSpecifications, executing, executed, failed :=
        executingSpecifications - {result.spec}, executing - {n}, executed + {n}, failedAfter;
      if !result.success {
        FailNodesAbove(n);
      }
    }

    /**
     * The completions of one round, in the order the retriever reports
     * them (the inner loop of executeGraph).
     */
    method ProcessCompletions(batch: seq<JobResult>)
      requires Consistent() && ValidBatch(executingSpecifications.Keys, batch)
      modifies this
      ensures Consistent()
      ensures toExecute == old(toExecute) && iteration == old(iteration) && previousJobs == old(previousJobs)
      ensures |executing| < |old(executing)|
      ensures Progressed(old(executed), old(failed), executed, failed)
    {
      var j := 0;
      while j < |batch|
        invariant 0 <= j <= |batch|
        invariant Consistent()
        invariant toExecute == old(toExecute) && iteration == old(iteration) && previousJobs == old(previousJobs)
        invariant StillExecuting(batch, j, executingSpecifications.Keys)
        invariant |executing| + j == |old(executing)|
        invariant Progressed(old(executed), old(failed), executed, failed)
      {
        ghost var done, marked, keys := executed, failed, executingSpecifications.Keys;
        CompleteInBooks(batch[j]);
        StillExecutingStep(batch, j, keys);
        ProgressedTransitive(old(executed), old(failed), done, marked, executed, failed);
        j := j + 1;
      }
    }

    /** The completions from the j-th on are all of jobs still executing. */
    ghost predicate StillExecuting(batch: seq<JobResult>, j: nat, keys: set<JobSpec>)
    {
      forall i :: j <= i < |batch| ==> batch[i].spec in keys
    }

    lemma StillExecutingStep(batch: seq<JobResult>, j: nat, keys: set<JobSpec>)
      requires j < |batch| && StillExecuting(batch, j, keys)
      requires forall i, k :: 0 <= i < k < |batch| ==> batch[i].spec != batch[k].spec
      ensures StillExecuting(batch, j + 1, keys - {batch[j].spec})
    {
    }

    /** Executed nodes stay executed, and a node newly failed has executed and is not a live-data node. */
    ghost predicate Progressed(done: set<nat>, marked: set<nat>, done': set<nat>, marked': set<nat>)
    {
      && (forall m :: m in done ==> m in done')
      && (forall m :: m in marked' ==> m in marked || (m in done' && !IsLive(m)))
    }

    lemma ProgressedTransitive(done: set<nat>, marked: set<nat>, done': set<nat>, marked': set<nat>,
                               done'': set<nat>, marked'': set<nat>)
      requires Progressed(done, marked, done', marked') && Progressed(done', marked', done'', marked'')
      ensures Progressed(done, marked, done'', marked'')
    {
    }

    /** One pass of the inner loop of executeGraph: one completion, with the bookkeeping kept. */
    method CompleteInBooks(result: JobResult)
      requires Consistent() && result.spec in executingSpecifications
      modifies this
      ensures Consistent()
      ensures toExecute == old(toExecute) && iteration == old(iteration) && previousJobs == old(previousJobs)
      ensures executingSpecifications == old(executingSpecifications) - {result.spec}
      ensures |executing| == |old(executing)| - 1
      ensures Progressed(old(executed), old(failed), executed, failed)
    {
      CompleteKeepsBooks(toExecute, executing, executed, executingSpecifications, runNodes, submitted, previousJobs,
                         iteration, result.spec);
      CompleteJob(result);
    }

    /** failNodesAbove(node): does nothing, so a failure does not propagate to the nodes above it. */
    method FailNodesAbove(failedNode: nat)
      ensures executed == old(executed) && failed == old(failed) && Unmarked() == old(Unmarked())
    {
    }

    /** The state that failing nodes leaves alone: all but the executed and failed sets. */
    ghost function Unmarked(): (set<nat>, set<nat>, map<JobSpec, nat>, nat, seq<CalculationJob>, seq<CalculationJob>, seq<nat>, int)
      reads this
    {
      (toExecute, executing, executingSpecifications, jobIdSource, submitted, previousJobs, runNodes, iteration)
    }

    /** A node above n on a path to f: reached from n, reaching f, and not f itself. */
    ghost function Above(f: nat, n: nat): set<nat>
      requires Ranked()
    {
      set m | 0 <= m < |nodes| && Reaches(n, m) && m != f && Reaches(m, f)
    }

    /**
     * failNodesAbove(failedNode, node): whether node depends on failedNode;
     * every node on a path from node down to failedNode, failedNode
     * excluded, is marked executed and failed.
     */
    method FailNodesAboveFrom(failedNode: nat, n: nat) returns (dependsOnFailed: bool)
      requires Ranked() && failedNode < |nodes| && n < |nodes|
      modifies this
      ensures dependsOnFailed == Reaches(n, failedNode)
      ensures executed == old(executed) + Above(failedNode, n)
      ensures failed == old(failed) + Above(failedNode, n)
      ensures Unmarked() == old(Unmarked())
      decreases rank[n], 1
    {
      if n == failedNode {
        NothingAboveItself(n);
        return true;
      }
      var ins := nodes[n].inputNodes;
      dependsOnFailed := false;
      var j := 0;
      while j < |ins|
        invariant 0 <= j <= |ins|
        invariant dependsOnFailed == ReachedFromSome(ins[..j], failedNode)
        invariant executed == old(executed) + AboveSome(failedNode, ins[..j]) + (if dependsOnFailed then {n} else {})
        invariant failed == old(failed) + AboveSome(failedNode, ins[..j]) + (if dependsOnFailed then {n} else {})
        invariant Unmarked() == old(Unmarked())
      {
        dependsOnFailed := FailThroughInput(failedNode, n, j, dependsOnFailed, old(executed), old(failed));
        j := j + 1;
      }
      assert ins[..j] == ins;
      AboveUnfolds(failedNode, n, old(executed));
      AboveUnfolds(failedNode, n, old(failed));
    }

    /** A node reaches itself, and nothing lies above it on a path to itself. */
    lemma NothingAboveItself(f: nat)
      requires Ranked() && f < |nodes|
      ensures Reaches(f, f) && Above(f, f) == {}
    {
      forall m | m in Above(f, f)
        ensures false
      {
        NoCycle(f, m);
      }
    }

    /**
     * One turn of the loop of failNodesAbove(failedNode, node): recurse into
     * the j-th input, and mark n when that input depends on f.
     */
    method FailThroughInput(f: nat, n: nat, j: nat, d: bool, ghost done: set<nat>, ghost marked: set<nat>)
      returns (d': bool)
      requires Ranked() && f < |nodes| && n < |nodes| && j < |nodes[n].inputNodes|
      requires d == ReachedFromSome(nodes[n].inputNodes[..j], f)
      requires executed == done + AboveSome(f, nodes[n].inputNodes[..j]) + (if d then {n} else {})
      requires failed == marked + AboveSome(f, nodes[n].inputNodes[..j]) + (if d then {n} else {})
      modifies this
      ensures d' == ReachedFromSome(nodes[n].inputNodes[..j + 1], f)
      ensures executed == done + AboveSome(f, nodes[n].inputNodes[..j + 1]) + (if d' then {n} else {})
      ensures failed == marked + AboveSome(f, nodes[n].inputNodes[..j + 1]) + (if d' then {n} else {})
      ensures Unmarked() == old(Unmarked())
      decreases rank[n], 0
    {
      var ins := nodes[n].inputNodes;
      var i := ins[j];
      assert i < |nodes| && rank[i] < rank[n];
      MarkedStep(f, n, ins, j, d, Reaches(i, f), done);
      MarkedStep(f, n, ins, j, d, Reaches(i, f), marked);
      var inputDepends := FailNodesAboveFrom(f, i);
      if inputDepends {
        executed := executed + {n};
        failed := failed + {n};
      }
      d' := d || inputDepends;
    }

    /** One input more in the loop of failNodesAbove: what is marked grows by what lies above that input. */
    lemma MarkedStep(f: nat, n: nat, ins: seq<nat>, j: nat, d: bool, inputDepends: bool, start: set<nat>)
      requires Ranked() && j < |ins|
      requires d == ReachedFromSome(ins[..j], f) && inputDepends == Reaches(ins[j], f)
      ensures (d || inputDepends) == ReachedFromSome(ins[..j + 1], f)
      ensures start + AboveSome(f, ins[..j]) + (if d then {n} else {}) + Above(f, ins[j]) + (if inputDepends then {n} else {})
           == start + AboveSome(f, ins[..j + 1]) + (if d || inputDepends then {n} else {})
    {
      ReachedFromSomeStep(ins, j, f);
      AboveSomeStep(f, ins, j);
    }

    /** The nodes above some node of `s` on a path to f. */
    ghost function AboveSome(f: nat, s: seq<nat>): set<nat>
      requires Ranked()
    {
      set m | 0 <= m < |nodes| && ReachedFromSome(s, m) && m != f && Reaches(m, f)
    }

    lemma ReachedFromSomeStep(s: seq<nat>, j: nat, m: nat)
      requires Ranked() && j < |s|
      ensures ReachedFromSome(s[..j + 1], m) <==> ReachedFromSome(s[..j], m) || Reaches(s[j], m)
    {
      if ReachedFromSome(s[..j + 1], m) {
        var k :| 0 <= k < j + 1 && Reaches(s[..j + 1][k], m);
        if k < j {
          assert s[..j][k] == s[k];
        }
      }
      if ReachedFromSome(s[..j], m) {
        var k :| 0 <= k < j && Reaches(s[..j][k], m);
        assert s[..j + 1][k] == s[k];
      }
      if Reaches(s[j], m) {
        assert s[..j + 1][j] == s[j];
      }
    }

    lemma AboveSomeStep(f: nat, s: seq<nat>, j: nat)
      requires Ranked() && j < |s|
      ensures AboveSome(f, s[..j + 1]) == AboveSome(f, s[..j]) + Above(f, s[j])
    {
      forall m | 0 <= m < |nodes|
        ensures ReachedFromSome(s[..j + 1], m) <==> ReachedFromSome(s[..j], m) || Reaches(s[j], m)
      {
        ReachedFromSomeStep(s, j, m);
      }
    }

    /** One step of a path: n reaches m exactly when n is m or one of its inputs reaches m. */
    lemma ReachesStep(n: nat, m: nat)
      requires Ranked() && n < |nodes|
      ensures Reaches(n, m) <==> n == m || ReachedFromSome(nodes[n].inputNodes, m)
    {
      var ins := nodes[n].inputNodes;
      if ReachedFromSome(ins, m) {
        var k :| 0 <= k < |ins| && Reaches(ins[k], m);
        assert ins[k] in ins;
      }
      if Reaches(n, m) && n != m {
        var i :| i in ins && Reaches(i, m);
        var k :| 0 <= k < |ins| && ins[k] == i;
      }
    }

    lemma AboveUnfolds(f: nat, n: nat, start: set<nat>)
      requires Ranked() && n < |nodes| && n != f
      ensures Reaches(n, f) == ReachedFromSome(nodes[n].inputNodes, f)
      ensures start + AboveSome(f, nodes[n].inputNodes) + (if Reaches(n, f) then {n} else {}) == start + Above(f, n)
    {
      ReachesStep(n, f);
      forall m | 0 <= m < |nodes|
        ensures Reaches(n, m) <==> n == m || ReachedFromSome(nodes[n].inputNodes, m)
      {
        ReachesStep(n, m);
      }
    }

    /** A non-empty set of nodes has one of least rank. */
    lemma LeastRanked(candidates: set<nat>) returns (n: nat)
      requires Ranked() && candidates != {} && forall m :: m in candidates ==> m < |nodes|
      ensures n in candidates && forall m :: m in candidates ==> rank[n] <= rank[m]
      decreases |candidates|
    {
      var x :| x in candidates;
      if candidates == {x} {
        return x;
      }
      var y := LeastRanked(candidates - {x});
      n := if rank[x] <= rank[y] then x else y;
    }

    /**
     * After enqueueAllAvailableNodes, something is executing whenever
     * something was left to execute: a to-execute node of least rank has
     * all its inputs executed unless one of them is executing.
     */
    lemma SomethingExecutes(toRun: set<nat>, running: set<nat>, done: set<nat>)
      requires Ranked() && Partition(toRun, running, done) && toRun != {}
      ensures running + Executable(toRun, done) != {}
    {
      if running == {} {
        var n := LeastRanked(toRun);
        forall i | i in nodes[n].inputNodes
          ensures i in done
        {
          var j :| 0 <= j < |nodes[n].inputNodes| && nodes[n].inputNodes[j] == i;
          assert i < |nodes| && rank[i] < rank[n];
          assert i !in toRun;
        }
        assert n in Executable(toRun, done);
      }
    }

    /** An executing node has its specification among the executing ones. */
    lemma RunningIsTracked(toRun: set<nat>, running: set<nat>, done: set<nat>, specs: map<JobSpec, nat>,
                           order: seq<nat>, jobs: seq<CalculationJob>, earlier: seq<CalculationJob>, timestamp: int)
      requires Books(toRun, running, done, specs, order, jobs, earlier, timestamp) && running != {}
      ensures specs.Keys != {}
    {
      var n :| n in running;
      var k :| 0 <= k < |order| && order[k] == n;
      assert JobSpec(viewName, timestamp, k + 1) in specs;
    }

    /** The start of executeGraph: a fresh job id source, every node to execute, the live-data ones executed. */
    method StartExecution(iterationTimestamp: int)
      requires Ranked()
      requires toExecute == {} && executing == {} && executingSpecifications == map[] && executed == {}
      modifies this
      ensures Consistent() && iteration == iterationTimestamp && previousJobs == old(submitted) && failed == old(failed)
    {
      jobIdSource, runNodes, iteration, previousJobs := 0, [], iterationTimestamp, submitted;
      AddAllGraphNodesToExecute();
      MarkLiveDataSourcingFunctionsCompleted();
      assert forall n :: n in toExecute <==> 0 <= n < |nodes| && !IsLive(n);
      assert forall n :: n in executed <==> 0 <= n < |nodes| && IsLive(n);
    }

    /** What the bookkeeping says once nothing is left to execute. */
    lemma Finished(running: set<nat>, done: set<nat>, specs: map<JobSpec, nat>,
                   order: seq<nat>, jobs: seq<CalculationJob>, earlier: seq<CalculationJob>, timestamp: int)
      requires Books({}, running, done, specs, order, jobs, earlier, timestamp)
      ensures forall n :: 0 <= n < |nodes| ==> n in running || n in done
      ensures LiveDataNodes() <= done
      ensures Distinct(order) && InputsFirst(order)
      ensures forall n :: n in order <==> 0 <= n < |nodes| && !IsLive(n)
      ensures jobs == earlier + JobsOf(order, timestamp)
    {
      forall n | n in order
        ensures 0 <= n < |nodes| && !IsLive(n)
      {
        var k :| 0 <= k < |order| && order[k] == n;
      }
    }

    /**
     * executeGraph: gathers every node, marks the live-data nodes as
     * executed, then, round after round, submits what can run and takes in
     * one round of completions, until nothing is left to submit. Jobs still
     * executing at that point are not waited for.
     */
    method ExecuteGraph(iterationTimestamp: int, retriever: set<JobSpec> -> seq<JobResult>)
      requires Ranked() && RetrieverLive(retriever)
      requires toExecute == {} && executing == {} && executingSpecifications == map[] && executed == {}
      modifies this
      ensures Consistent() && iteration == iterationTimestamp
      ensures toExecute == {}
      ensures forall n :: 0 <= n < |nodes| ==> n in executing || n in executed
      ensures LiveDataNodes() <= executed
      ensures forall n :: n in failed ==> n in old(failed) || (n in executed && !IsLive(n))
      ensures Distinct(runNodes) && InputsFirst(runNodes)
      ensures forall n :: n in runNodes <==> 0 <= n < |nodes| && !IsLive(n)
      ensures submitted == old(submitted) + JobsOf(runNodes, iterationTimestamp)
    {
      StartExecution(iterationTimestamp);
      while toExecute != {}
        invariant Consistent() && iteration == iterationTimestamp && previousJobs == old(submitted)
        invariant forall n :: n in failed ==> n in old(failed) || (n in executed && !IsLive(n))
        decreases |toExecute| + |executing|
      {
        SomethingExecutes(toExecute, executing, executed);
        EnqueueAllAvailableNodes(iterationTimestamp);
        RunningIsTracked(toExecute, executing, executed, executingSpecifications, runNodes, submitted, previousJobs, iteration);
        var batch := retriever(executingSpecifications.Keys);
        ProcessCompletions(batch);
      }
      Finished(executing, executed, executingSpecifications, runNodes, submitted, previousJobs, iteration);
    }
  }
}
