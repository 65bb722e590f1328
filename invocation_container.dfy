/**
 * The job invocation container of a calculation node
 * (AbstractCalculationNodeInvocationContainer): a table of per-job-id
 * execution records, each RUNNING, COMPLETED or FAILED with the jobs blocked
 * on it; a queue of idle calculation nodes; a queue of runnable jobs; and the
 * drain loop that runs jobs on a node until nothing runnable is left,
 * releasing the jobs that waited on each completed one and sweeping old
 * records from the table now and then.
 *
 * The container runs on several threads in the original; here every
 * operation runs to completion on its own. A job forked onto a worker thread
 * becomes a pending task, run later by RunTask in any order.
 */
module CalculationNodeInvocation {
  import opened Wrappers

  /** The table is swept after every CLEANUP_PERIOD drain chains. */
  const CLEANUP_PERIOD: int := 100
  /** How old (in nanoseconds) a finished record must be before a sweep removes it. */
  const RETENTION: int := 1000000000

  /** The range of a Java int, the width of the drain-chain counter. */
  const INT_MIN: int := -0x8000_0000
  const INT_MAX: int := 0x7fff_ffff

  /** A calculation node, by identity. */
  type NodeId = nat

  /** The status of an execution record. */
  datatype Status = Running | Completed | Failed

  /** A calculation job: its id and the ids of the jobs it needs first (absent when it needs none); ids count up from 1. */
  datatype Job = Job(jobId: nat, requiredJobIds: Option<seq<nat>>)

  /**
   * JobExecution: when the record was made, its status, and the jobs
   * (entry indices) blocked on it; `blocked` is absent until a job blocks.
   */
  datatype Execution = Execution(timestamp: int, status: Status, blocked: Option<set<nat>>)

  /**
   * JobEntry: the job, whether its receiver is still set (invalidation
   * clears it), and the execution records (indices) it requires, once
   * resolved.
   */
  datatype Entry = Entry(job: Job, live: bool, required: Option<seq<nat>>)

  /** What the container reports: its log lines that matter, the receiver callbacks and node changes. */
  datatype Event =
    | DroppedJob(entry: nat)
    | BlockedJob(entry: nat, execution: nat)
    | QueuedJob(entry: nat)
    | ForkedJob(entry: nat, node: NodeId)
    | InlineJob(entry: nat, node: NodeId)
    | ExecutionFailed(entry: nat, node: NodeId)
    | ExecutionComplete(entry: nat)
    | NodeChange

  /** The result of submitting a job: exactly one of these happens to it. */
  datatype Outcome =
    | Dropped
    | Blocked(execution: nat)
    | Queued
    | Forked(node: NodeId)
    | RanInline(node: NodeId)

  /** The first part of spawnOrQueueJob: the job may run, is dropped, or waits on one execution. */
  datatype Admission = Admitted | Refused | WaitsOn(execution: nat)

  /** The jobs in a blocked set, none when it is absent. */
  function Members(blocked: Option<set<nat>>): set<nat>
  {
    if blocked.Some? then blocked.value else {}
  }

  /**
   * getBlocked: the record afterwards has no blocked jobs; the jobs that
   * were blocked are handed back.
   */
  function TakeBlocked(e: Execution): (r: (Execution, Option<set<nat>>))
    ensures r.1 == e.blocked
    ensures r.0 == e.(blocked := None)
  {
    (e.(blocked := None), e.blocked)
  }

  /** blockJob: the entry joins the blocked set, which is created when absent. */
  function BlockJob(e: Execution, entry: nat): (r: Execution)
    ensures r.blocked.Some? && Members(r.blocked) == Members(e.blocked) + {entry}
    ensures r.status == e.status && r.timestamp == e.timestamp
  {
    e.(blocked := Some(if e.blocked.None? then {entry} else e.blocked.value + {entry}))
  }

  /** Blocking then taking hands back exactly the jobs blocked before and the new one, and leaves none. */
  lemma BlockThenTake(e: Execution, entry: nat)
    ensures TakeBlocked(BlockJob(e, entry)).1 == Some(Members(e.blocked) + {entry})
    ensures TakeBlocked(BlockJob(e, entry)).0.blocked.None?
    ensures TakeBlocked(TakeBlocked(e).0).1.None?
  {
  }

  /** A finished record: COMPLETED or FAILED. */
  predicate Terminal(e: Execution)
  {
    e.status != Running
  }

  /**
   * The position, in the required list, of the first record that is not
   * COMPLETED; none when all are.
   */
  function FirstUnmet(executions: seq<Execution>, required: seq<nat>): (r: Option<nat>)
    requires forall k :: 0 <= k < |required| ==> required[k] < |executions|
    ensures r.None? ==> forall k :: 0 <= k < |required| ==> executions[required[k]].status == Completed
    ensures r.Some? ==>
      && r.value < |required|
      && executions[required[r.value]].status != Completed
      && forall k :: 0 <= k < r.value ==> executions[required[k]].status == Completed
  {
    if required == [] then None
    else if executions[required[0]].status != Completed then Some(0)
    else
      var rest := FirstUnmet(executions, required[1..]);
      if rest.None? then None else Some(rest.value + 1)
  }

  /** The size of a blocked set. */
  function BlockedSize(blocked: Option<set<nat>>): nat
  {
    |Members(blocked)|
  }

  /** How many jobs wait in the blocked sets of the records, counted per record. */
  function BlockedCount(executions: seq<Execution>): nat
  {
    if executions == [] then 0
    else BlockedCount(executions[..|executions| - 1]) + BlockedSize(executions[|executions| - 1].blocked)
  }

  lemma BlockedCountAppend(executions: seq<Execution>, e: Execution)
    ensures BlockedCount(executions + [e]) == BlockedCount(executions) + BlockedSize(e.blocked)
  {
    assert (executions + [e])[..|executions|] == executions;
  }

  /** Replacing one record changes the count by the difference of the two blocked sets. */
  lemma {:induction false} BlockedCountUpdate(executions: seq<Execution>, i: nat, e: Execution)
    requires i < |executions|
    ensures BlockedCount(executions[i := e])
         == BlockedCount(executions) - BlockedSize(executions[i].blocked) + BlockedSize(e.blocked)
    ensures BlockedSize(executions[i].blocked) <= BlockedCount(executions)
    decreases |executions|
  {
    var last := |executions| - 1;
    var updated := executions[i := e];
    if i == last {
      assert updated[..last] == executions[..last];
    } else {
      assert updated[..last] == executions[..last][i := e];
      BlockedCountUpdate(executions[..last], i, e);
      assert executions[..last][i] == executions[i];
    }
  }

  /** incrementAndGet on a Java int: wraps from the largest value to the smallest. */
  function Inc32(x: int): (r: int)
    requires INT_MIN <= x <= INT_MAX
    ensures INT_MIN <= r <= INT_MAX
    ensures (r - x - 1) % 0x1_0000_0000 == 0
  {
    if x == INT_MAX then INT_MIN else x + 1
  }

  /** The counter after n drain chains, starting from zero. */
  function CountAfter(n: nat): (r: int)
    ensures INT_MIN <= r <= INT_MAX
  {
    if n == 0 then 0 else Inc32(CountAfter(n - 1))
  }

  /** Up to the largest int the counter equals the number of chains, so every 100th chain sweeps. */
  lemma {:induction false} CountAfterCountsChains(n: nat)
    requires n <= INT_MAX
    ensures CountAfter(n) == n
    ensures (CountAfter(n) % CLEANUP_PERIOD == 0) == (n % CLEANUP_PERIOD == 0)
  {
    if n > 0 {
      CountAfterCountsChains(n - 1);
    }
  }

  /**
   * Past the largest int the counter runs 2^32 behind the number of chains:
   * the sweep then falls on the chains whose number ends in 96, not 00.
   */
  lemma {:induction false} CountAfterWraps(n: nat)
    requires INT_MAX < n <= INT_MAX + 0x1_0000_0000
    ensures CountAfter(n) == n - 0x1_0000_0000
    ensures (CountAfter(n) % CLEANUP_PERIOD == 0) == (n % CLEANUP_PERIOD == 96)
  {
    if n == INT_MAX + 1 {
      CountAfterCountsChains(n - 1);
    } else {
      CountAfterWraps(n - 1);
    }
    ShiftedCadence(n - 0x1_0000_0000);
  }

  /** 2^32 is 96 more than a multiple of CLEANUP_PERIOD, so a shift by it moves the sweeping residue to 96. */
  lemma ShiftedCadence(x: int)
    ensures (x % CLEANUP_PERIOD == 0) == ((x + 0x1_0000_0000) % CLEANUP_PERIOD == 96)
  {
    var n := x + 0x1_0000_0000;
    if x % CLEANUP_PERIOD == 0 {
      assert n == CLEANUP_PERIOD * (x / CLEANUP_PERIOD + 42949672) + 96;
    }
    if n % CLEANUP_PERIOD == 96 {
      assert x == CLEANUP_PERIOD * (n / CLEANUP_PERIOD - 42949672);
    }
  }

  /** A record is old enough to sweep: its age exceeds RETENTION. */
  predicate Aged(e: Execution, now: int)
  {
    now - e.timestamp > RETENTION
  }

  /**
   * The keys a sweep removes: the key order scan skips RUNNING records,
   * removes finished old ones and stops at the first finished record that
   * is not old enough.
   */
  ghost predicate Retired(table: map<nat, nat>, executions: seq<Execution>, now: int, k: nat)
    requires forall j :: j in table ==> table[j] < |executions|
  {
    && k in table
    && Terminal(executions[table[k]])
    && Aged(executions[table[k]], now)
    && forall j :: j in table && j < k && Terminal(executions[table[j]]) ==> Aged(executions[table[j]], now)
  }

  /** A sweep never removes a RUNNING record, and removes only finished records older than RETENTION. */
  lemma RetiredIsFinishedAndOld(table: map<nat, nat>, executions: seq<Execution>, now: int, k: nat)
    requires forall j :: j in table ==> table[j] < |executions|
    requires Retired(table, executions, now, k)
    ensures executions[table[k]].status != Running
    ensures now - executions[table[k]].timestamp > RETENTION
  {
  }

  /** No key above a finished record that is not old enough is removed: the scan has stopped there. */
  lemma SweepStopsAtYoung(table: map<nat, nat>, executions: seq<Execution>, now: int, stop: nat, k: nat)
    requires forall j :: j in table ==> table[j] < |executions|
    requires stop in table && Terminal(executions[table[stop]]) && !Aged(executions[table[stop]], now)
    requires stop <= k
    ensures !Retired(table, executions, now, k)
  {
  }

  /** A second sweep at the same time removes nothing more. */
  lemma SweepIdempotent(table: map<nat, nat>, executions: seq<Execution>, now: int, k: nat)
    requires forall j :: j in table ==> table[j] < |executions|
    ensures !Retired(Kept(table, executions, now), executions, now, k)
  {
    var kept := Kept(table, executions, now);
    if k in kept && Terminal(executions[kept[k]]) && Aged(executions[kept[k]], now) {
      var j :| j in table && j < k && Terminal(executions[table[j]]) && !Aged(executions[table[j]], now);
      assert j in kept;
    }
  }

  /** The entries of a blocked record exist. */
  predicate BlocksWithin(e: Execution, entryCount: nat)
  {
    forall t :: t in Members(e.blocked) ==> t < entryCount
  }

  /** The records an entry requires exist. */
  predicate RequiresWithin(e: Entry, executionCount: nat)
  {
    e.required.Some? ==> forall k :: 0 <= k < |e.required.value| ==> e.required.value[k] < executionCount
  }

  /** The receiver callbacks in a trace, as the entries they report. */
  function Callbacks(trace: seq<Event>): seq<nat>
  {
    if trace == [] then []
    else
      var last := trace[|trace| - 1];
      Callbacks(trace[..|trace| - 1])
        + (if last.ExecutionFailed? || last.ExecutionComplete? then [last.entry] else [])
  }

  lemma CallbacksAppend(trace: seq<Event>, ev: Event)
    ensures Callbacks(trace + [ev])
         == Callbacks(trace) + (if ev.ExecutionFailed? || ev.ExecutionComplete? then [ev.entry] else [])
  {
    assert (trace + [ev])[..|trace|] == trace;
  }

  /** Submission events are not callbacks. */
  lemma {:induction false} CallbacksSkipSubmissions(trace: seq<Event>, more: seq<Event>)
    requires forall k :: 0 <= k < |more| ==> !more[k].ExecutionFailed? && !more[k].ExecutionComplete?
    ensures Callbacks(trace + more) == Callbacks(trace)
    decreases |more|
  {
    if more == [] {
      assert trace + more == trace;
    } else {
      var init := more[..|more| - 1];
      assert trace + more == (trace + init) + [more[|more| - 1]];
      CallbacksAppend(trace + init, more[|more| - 1]);
      CallbacksSkipSubmissions(trace, init);
    }
  }

  /** The entry a submission event is about. */
  predicate SubmissionOf(ev: Event, entry: nat)
  {
    && (ev.DroppedJob? || ev.BlockedJob? || ev.QueuedJob? || ev.ForkedJob?)
    && ev.entry == entry
  }

  /** The events that say what became of a submitted entry. */
  function SubmissionEvents(entry: nat, outcome: Outcome): seq<Event>
  {
    match outcome
    case Dropped => [DroppedJob(entry)]
    case Blocked(x) => [BlockedJob(entry, x)]
    case Queued => [QueuedJob(entry)]
    case Forked(node) => [ForkedJob(entry, node)]
    case RanInline(node) => [InlineJob(entry, node)]
  }

  /**
   * The records after which `after` extends `before`: the old ones unchanged
   * and the new ones RUNNING, made at `now`, with nothing blocked.
   */
  ghost predicate Extends(before: seq<Execution>, after: seq<Execution>, now: int)
  {
    && |before| <= |after|
    && after[..|before|] == before
    && forall i :: |before| <= i < |after| ==> after[i] == Execution(now, Running, None)
  }

  lemma ExtendsTransitive(a: seq<Execution>, b: seq<Execution>, c: seq<Execution>, now: int)
    requires Extends(a, b, now) && Extends(b, c, now)
    ensures Extends(a, c, now)
  {
    assert c[..|a|] == c[..|b|][..|a|];
  }

  /** Fresh records block nothing, so the count stays as it was. */
  lemma {:induction false} ExtendsKeepsCount(before: seq<Execution>, after: seq<Execution>, now: int)
    requires Extends(before, after, now)
    ensures BlockedCount(after) == BlockedCount(before)
    decreases |after|
  {
    if |after| > |before| {
      var init := after[..|after| - 1];
      assert Extends(before, init, now) by {
        assert init[..|before|] == after[..|before|];
      }
      ExtendsKeepsCount(before, init, now);
    } else {
      assert after == after[..|before|];
    }
  }

  /**
   * What spawnOrQueueJob decides for an entry with the given job, once its
   * required records are resolved: a job that needs nothing, or whose
   * required records are all COMPLETED, may run; otherwise the first record
   * that is not COMPLETED decides: FAILED drops the job, RUNNING makes it
   * wait on that record.
   */
  ghost predicate Decided(job: Job, required: Option<seq<nat>>, resolved: seq<Execution>, admission: Admission)
  {
    if job.requiredJobIds.None? then admission == Admitted
    else
      && required.Some?
      && (forall k :: 0 <= k < |required.value| ==> required.value[k] < |resolved|)
      && var first := FirstUnmet(resolved, required.value);
         if first.None? then admission == Admitted
         else if resolved[required.value[first.value]].status == Failed then admission == Refused
         else admission == WaitsOn(required.value[first.value])
  }

  /** A job is admitted only when every record it requires is COMPLETED. */
  lemma AdmittedOnlyWhenCompleted(job: Job, required: Option<seq<nat>>, resolved: seq<Execution>)
    requires Decided(job, required, resolved, Admitted) && job.requiredJobIds.Some?
    ensures forall k :: 0 <= k < |required.value| ==> resolved[required.value[k]].status == Completed
  {
  }

  /** A job is dropped only for a FAILED record it requires, with every one before it COMPLETED. */
  lemma RefusedForFailed(job: Job, required: Option<seq<nat>>, resolved: seq<Execution>)
    requires Decided(job, required, resolved, Refused)
    ensures job.requiredJobIds.Some? && required.Some?
    ensures exists k ::
              && 0 <= k < |required.value| && required.value[k] < |resolved|
              && resolved[required.value[k]].status == Failed
              && forall j :: 0 <= j < k ==> resolved[required.value[j]].status == Completed
  {
    var k := FirstUnmet(resolved, required.value).value;
    assert resolved[required.value[k]].status == Failed;
  }

  /** A job waits only on a RUNNING record it requires, with every one before it COMPLETED. */
  lemma WaitsOnRunning(job: Job, required: Option<seq<nat>>, resolved: seq<Execution>, x: nat)
    requires Decided(job, required, resolved, WaitsOn(x))
    ensures job.requiredJobIds.Some? && required.Some? && x < |resolved| && resolved[x].status == Running
    ensures exists k ::
              && 0 <= k < |required.value| && required.value[k] == x
              && forall j :: 0 <= j < k ==> resolved[required.value[j]].status == Completed
  {
    var k := FirstUnmet(resolved, required.value).value;
    assert required.value[k] == x;
  }

  /** The decision is a function of the job and its resolved records. */
  lemma DecidedOnce(job: Job, required: Option<seq<nat>>, resolved: seq<Execution>, a: Admission, b: Admission)
    requires Decided(job, required, resolved, a) && Decided(job, required, resolved, b)
    ensures a == b
  {
  }

  /** The records after the admission: blocked on the one waited on, otherwise as resolved. */
  function AfterAdmission(resolved: seq<Execution>, entry: nat, admission: Admission): seq<Execution>
  {
    if admission.WaitsOn? && admission.execution < |resolved|
    then resolved[admission.execution := BlockJob(resolved[admission.execution], entry)]
    else resolved
  }

  /** The table after a sweep: the retired keys removed. */
  ghost function Kept(table: map<nat, nat>, executions: seq<Execution>, now: int): map<nat, nat>
    requires forall j :: j in table ==> table[j] < |executions|
  {
    map j | j in table && !Retired(table, executions, now, j) :: table[j]
  }

  /** The least of a non-empty set of keys. */
  method Least(s: set<nat>) returns (m: nat)
    requires s != {}
    ensures m in s && forall y :: y in s ==> m <= y
  {
    m :| m in s;
    var rest := s - {m};
    while rest != {}
      invariant rest <= s && m in s
      invariant forall y :: y in s && y !in rest ==> m <= y
      decreases |rest|
    {
      var y :| y in rest;
      if y < m {
        m := y;
      }
      rest := rest - {y};
    }
  }

  /**
   * The scan of a sweep over the table, in key order: RUNNING records are
   * passed over, finished ones older than RETENTION removed, and the scan
   * stops at the first finished record that is not.
   */
  method SweepTable(scanned: map<nat, nat>, records: seq<Execution>, now: int) returns (kept: map<nat, nat>)
    requires forall j :: j in scanned ==> scanned[j] < |records|
    ensures kept == Kept(scanned, records, now)
  {
    var keys := scanned.Keys;
    kept := scanned;
    while keys != {}
      invariant keys <= scanned.Keys
      invariant forall j, k :: j in scanned && j !in keys && k in keys ==> j < k
      invariant forall j :: j in scanned && j !in keys && Terminal(records[scanned[j]]) ==> Aged(records[scanned[j]], now)
      invariant forall j :: j in kept <==> j in scanned && (j in keys || !Retired(scanned, records, now, j))
      invariant forall j :: j in kept ==> kept[j] == scanned[j]
      decreases |keys|
    {
      var k := Least(keys);
      keys := keys - {k};
      var record := records[scanned[k]];
      if Terminal(record) {
        if Aged(record, now) {
          kept := kept - {k};
        } else {
          forall j | j in keys
            ensures !Retired(scanned, records, now, j)
          {
            SweepStopsAtYoung(scanned, records, now, k, j);
          }
          break;
        }
      }
    }
    assert kept == Kept(scanned, records, now);
  }

  /** The events logged by the admission: a dropped or a blocked job. */
  function AdmissionEvents(entry: nat, admission: Admission): seq<Event>
  {
    match admission
    case Admitted => []
    case Refused => [DroppedJob(entry)]
    case WaitsOn(x) => [BlockedJob(entry, x)]
  }

  /** spawnOrQueueJob with a node: an admitted job runs inline on it. */
  function InlineOutcome(admission: Admission, node: NodeId): Outcome
  {
    match admission
    case Refused => Dropped
    case WaitsOn(x) => Blocked(x)
    case Admitted => RanInline(node)
  }

  /** spawnOrQueueJob without a node: an admitted job goes to the first idle node, or to the runnable queue. */
  function DetachedOutcome(admission: Admission, idle: seq<NodeId>): Outcome
  {
    match admission
    case Refused => Dropped
    case WaitsOn(x) => Blocked(x)
    case Admitted => if idle != [] then Forked(idle[0]) else Queued
  }

  /**
   * The records after failExecution: each old one unchanged or FAILED with
   * its blocked set taken, each new one made now with nothing blocked.
   */
  ghost predicate FailsOnly(before: seq<Execution>, after: seq<Execution>, now: int)
  {
    && |before| <= |after|
    && (forall i :: 0 <= i < |before| ==>
          after[i] == before[i] || after[i] == before[i].(status := Failed, blocked := None))
    && (forall i :: |before| <= i < |after| ==> after[i].timestamp == now && after[i].blocked.None?)
  }

  lemma FailsOnlyTransitive(a: seq<Execution>, b: seq<Execution>, c: seq<Execution>, now: int)
    requires FailsOnly(a, b, now) && FailsOnly(b, c, now)
    ensures FailsOnly(a, c, now)
  {
  }

  lemma ExtendsFailsOnly(a: seq<Execution>, b: seq<Execution>, now: int)
    requires Extends(a, b, now)
    ensures FailsOnly(a, b, now)
  {
    forall i | 0 <= i < |a|
      ensures b[i] == a[i]
    {
      assert b[..|a|][i] == b[i];
    }
  }

  /** Failing records only takes blocked sets away. */
  lemma {:induction false} FailsOnlyCount(before: seq<Execution>, after: seq<Execution>, now: int)
    requires FailsOnly(before, after, now)
    ensures BlockedCount(after) <= BlockedCount(before)
    decreases |after|
  {
    if after == [] {
    } else if |after| > |before| {
      var init := after[..|after| - 1];
      assert FailsOnly(before, init, now);
      FailsOnlyCount(before, init, now);
    } else {
      var last := |after| - 1;
      assert FailsOnly(before[..last], after[..last], now);
      FailsOnlyCount(before[..last], after[..last], now);
    }
  }

  /** The table keeps every id it had, with the same record. */
  ghost predicate Grows(before: map<nat, nat>, after: map<nat, nat>)
  {
    forall id :: id in before ==> id in after && after[id] == before[id]
  }

  /** Each of the jobs is invalidated and the record of its own job is FAILED. */
  ghost predicate TailsFailed(tails: set<nat>, entries: seq<Entry>, table: map<nat, nat>, executions: seq<Execution>)
  {
    forall t :: t in tails ==>
      && t < |entries|
      && !entries[t].live
      && entries[t].job.jobId in table
      && table[entries[t].job.jobId] < |executions|
      && executions[table[entries[t].job.jobId]].status == Failed
  }

  lemma TailsStayFailed(tails: set<nat>, entries: seq<Entry>, table: map<nat, nat>, executions: seq<Execution>,
                        entries': seq<Entry>, table': map<nat, nat>, executions': seq<Execution>, now: int)
    requires TailsFailed(tails, entries, table, executions)
    requires InvalidatesOnly(entries, entries') && Grows(table, table') && FailsOnly(executions, executions', now)
    ensures TailsFailed(tails, entries', table', executions')
  {
    forall t | t in tails
      ensures executions'[table'[entries'[t].job.jobId]].status == Failed
    {
      assert entries'[t].job == entries[t].job;
    }
  }

  /** The entries after invalidation: each unchanged or with its receiver cleared. */
  ghost predicate InvalidatesOnly(before: seq<Entry>, after: seq<Entry>)
  {
    && |before| == |after|
    && forall t :: 0 <= t < |before| ==> after[t] == before[t] || after[t] == before[t].(live := false)
  }

  lemma AppendAssociates<T>(a: seq<T>, b: seq<T>, c: seq<T>)
    ensures (a + b) + c == a + (b + c)
  {
  }

  /** The entries a trace reports as added to the runnable queue, in order. */
  function QueuedIn(trace: seq<Event>): seq<nat>
  {
    if trace == [] then []
    else
      var last := trace[|trace| - 1];
      QueuedIn(trace[..|trace| - 1]) + (if last.QueuedJob? then [last.entry] else [])
  }

  lemma {:induction false} QueuedInConcat(a: seq<Event>, b: seq<Event>)
    ensures QueuedIn(a + b) == QueuedIn(a) + QueuedIn(b)
    decreases |b|
  {
    if b == [] {
      assert a + b == a;
    } else {
      var init := b[..|b| - 1];
      assert (a + b)[..|a + b| - 1] == a + init;
      assert b[..|b| - 1] == init;
      QueuedInConcat(a, init);
      AppendAssociates(QueuedIn(a), QueuedIn(init), QueuedIn([b[|b| - 1]]));
    }
  }

  /** The state of a container, as a value: what a release compares against. */
  datatype Snap = Snap(executions: seq<Execution>, table: map<nat, nat>, entries: seq<Entry>, nodes: seq<NodeId>,
                       runnable: seq<nat>, tasks: seq<(NodeId, nat)>, trace: seq<Event>, pending: nat, jobCount: int, now: int)

  /**
   * One turn of the drain loop, as sequences: the job run joins the jobs
   * run, and what it queued joins the runnable queue.
   */
  lemma DrainStep(e: nat, queue0: seq<nat>, added: seq<Event>, ran: seq<nat>, current: nat, runnable: seq<nat>,
                  events: seq<Event>, done: Event)
    requires [e] + queue0 + QueuedIn(added) == ran + [current] + runnable
    requires !done.QueuedJob?
    ensures [e] + queue0 + QueuedIn(added + (events + [done])) == (ran + [current]) + (runnable + QueuedIn(events))
  {
    assert QueuedIn([done]) == [] by {
      assert [done][..0] == [];
    }
    QueuedInConcat(events, [done]);
    assert QueuedIn(events) + [] == QueuedIn(events);
    QueuedInConcat(added, events + [done]);
    AppendAssociates([e] + queue0, QueuedIn(added), QueuedIn(events));
    AppendAssociates(ran + [current], runnable, QueuedIn(events));
  }

  /**
   * What a release leaves as it was, from state `a` to state `b`: the jobs
   * and receivers of the entries, the status of every record, the table's
   * old keys, the callbacks, the counter and the clock; idle nodes are only
   * taken and tasks only added.
   */
  ghost predicate ReleasedBetween(a: Snap, b: Snap)
  {
    && SameJobs(a.entries, b.entries)
    && (forall t :: 0 <= t < |b.entries| ==> b.entries[t].live == a.entries[t].live)
    && StatusKept(a.executions, b.executions) && FinishedKept(a.executions, b.executions) && Grows(a.table, b.table)
    && PolledFrom(b.nodes, a.nodes) && a.tasks <= b.tasks
    && Callbacks(b.trace) == Callbacks(a.trace)
    && b.jobCount == a.jobCount && b.now == a.now
  }

  lemma ReleasedBetweenTransitive(a: Snap, b: Snap, c: Snap)
    requires ReleasedBetween(a, b) && ReleasedBetween(b, c)
    ensures ReleasedBetween(a, c)
  {
    PolledFromTransitive(c.nodes, b.nodes, a.nodes);
  }

  /** One submission event per job, in order. */
  ghost predicate Submitted(events: seq<Event>, order: seq<nat>)
  {
    |events| == |order| && forall k :: 0 <= k < |order| ==> SubmissionOf(events[k], order[k])
  }

  lemma SubmittedStep(events: seq<Event>, order: seq<nat>, ev: Event, t: nat)
    requires Submitted(events, order) && SubmissionOf(ev, t)
    ensures Submitted(events + [ev], order + [t])
  {
  }

  /**
   * The release so far: the jobs released are distinct, taken from the
   * tails already looked at, and are exactly those of them still live.
   */
  ghost predicate ReleasedSoFar(order: seq<nat>, tails: set<nat>, rest: set<nat>, entries: seq<Entry>)
  {
    && (forall t :: t in tails ==> t < |entries|)
    && (forall k :: 0 <= k < |order| ==> order[k] in tails && order[k] !in rest && entries[order[k]].live)
    && (forall t :: t in tails && t !in rest && entries[t].live ==> t in order)
    && (forall k, l :: 0 <= k < l < |order| ==> order[k] != order[l])
  }

  /** Looking at one more tail: a dead one is passed over, a live one is not yet released. */
  lemma ReleasedSkip(order: seq<nat>, tails: set<nat>, rest: set<nat>, entries: seq<Entry>, t: nat)
    requires ReleasedSoFar(order, tails, rest, entries) && t in rest && rest <= tails
    ensures !entries[t].live ==> ReleasedSoFar(order, tails, rest - {t}, entries)
    ensures entries[t].live ==> t !in order
  {
  }

  /** Looking at one more tail: a live one is released. */
  lemma ReleasedStep(order: seq<nat>, tails: set<nat>, rest: set<nat>, entries: seq<Entry>, t: nat)
    requires ReleasedSoFar(order, tails, rest, entries) && t in rest && rest <= tails && entries[t].live
    ensures ReleasedSoFar(order + [t], tails, rest - {t}, entries)
  {
  }

  /** The records keep their status and age; only blocked sets and new records differ. */
  ghost predicate StatusKept(before: seq<Execution>, after: seq<Execution>)
  {
    && |before| <= |after|
    && forall i :: 0 <= i < |before| ==>
         after[i].status == before[i].status && after[i].timestamp == before[i].timestamp
  }

  /** The records that are not RUNNING keep their blocked sets: nothing waits on a finished job. */
  ghost predicate FinishedKept(before: seq<Execution>, after: seq<Execution>)
  {
    && |before| <= |after|
    && forall i :: 0 <= i < |before| && before[i].status != Running ==> after[i].blocked == before[i].blocked
  }

  /** A job blocks only on a RUNNING record, so finished records keep their blocked sets. */
  lemma AdmissionKeepsFinished(before: seq<Execution>, resolved: seq<Execution>, entry: nat, admission: Admission, now: int)
    requires Extends(before, resolved, now)
    requires admission.WaitsOn? ==> admission.execution < |resolved| && resolved[admission.execution].status == Running
    ensures FinishedKept(before, AfterAdmission(resolved, entry, admission))
  {
    forall i | 0 <= i < |before|
      ensures resolved[i] == before[i]
    {
      assert resolved[..|before|][i] == resolved[i];
    }
  }

  /** Resolving records and blocking a job on one of them changes no status. */
  lemma AdmissionKeepsStatus(before: seq<Execution>, resolved: seq<Execution>, entry: nat, admission: Admission, now: int)
    requires Extends(before, resolved, now)
    ensures StatusKept(before, AfterAdmission(resolved, entry, admission))
  {
    forall i | 0 <= i < |before|
      ensures resolved[i] == before[i]
    {
      assert resolved[..|before|][i] == resolved[i];
    }
  }

  /** The entries keep their jobs. */
  ghost predicate SameJobs(before: seq<Entry>, after: seq<Entry>)
  {
    && |before| == |after|
    && forall t :: 0 <= t < |before| ==> after[t].job == before[t].job
  }

  /** `a` is what is left of the queue `b` after polls from its head. */
  ghost predicate PolledFrom(a: seq<NodeId>, b: seq<NodeId>)
  {
    |a| <= |b| && a == b[|b| - |a|..]
  }

  lemma PolledFromTransitive(a: seq<NodeId>, b: seq<NodeId>, c: seq<NodeId>)
    requires PolledFrom(a, b) && PolledFrom(b, c)
    ensures PolledFrom(a, c)
  {
    assert c[|c| - |a|..] == c[|c| - |b|..][|b| - |a|..];
  }

  class InvocationContainer {
    /** Whether running a job on a node returns a result (true) or throws (false). */
    const succeeds: (NodeId, Job) -> bool

    /** The JobExecution records; `table` and the entries refer to them by index. */
    var executions: seq<Execution>
    /** The execution map, from job id to record, scanned in key order. */
    var table: map<nat, nat>
    /** The JobEntry records; queues and blocked sets refer to them by index. */
    var entries: seq<Entry>
    /** The idle calculation nodes, in queue order. */
    var nodes: seq<NodeId>
    /** The runnable jobs, in queue order. */
    var runnable: seq<nat>
    /** Jobs handed to the executor service that have not started: their node and entry. */
    var tasks: seq<(NodeId, nat)>
    /** The drain-chain counter, a Java int. */
    var jobCount: int
    /** The current value of System.nanoTime. */
    var now: int
    /** What the container reported so far. */
    var trace: seq<Event>

    /** Every index refers to an existing record, and the counter is an int. */
    ghost predicate Valid()
      reads this
    {
      && INT_MIN <= jobCount <= INT_MAX
      && (forall k :: k in table ==> table[k] < |executions|)
      && (forall i :: 0 <= i < |executions| ==> BlocksWithin(executions[i], |entries|))
      && (forall t :: 0 <= t < |entries| ==> RequiresWithin(entries[t], |executions|))
      && (forall k :: 0 <= k < |runnable| ==> runnable[k] < |entries|)
      && (forall k :: 0 <= k < |tasks| ==> tasks[k].1 < |entries|)
    }

    /** The jobs still to come from the runnable queue and the blocked sets. */
    ghost function Pending(): nat
      reads this
    {
      |runnable| + BlockedCount(executions)
    }

    /** The idle nodes, the runnable queue, the forked tasks, the counter and the clock. */
    ghost function Queues(): (seq<NodeId>, seq<nat>, seq<(NodeId, nat)>, int, int)
      reads this
    {
      (nodes, runnable, tasks, jobCount, now)
    }

    constructor(succeeds: (NodeId, Job) -> bool, clock: int)
      ensures Valid()
      ensures this.succeeds == succeeds && now == clock
      ensures executions == [] && table == map[] && entries == [] && nodes == []
      ensures runnable == [] && tasks == [] && jobCount == 0 && trace == []
    {
      this.succeeds := succeeds;
      executions, table, entries, nodes := [], map[], [], [];
      runnable, tasks, jobCount, now, trace := [], [], 0, clock, [];
    }

    /** addNode: the node joins the idle queue. */
    method AddNode(node: NodeId)
      modifies this
      ensures nodes == old(nodes) + [node] && trace == old(trace) + [NodeChange]
      ensures executions == old(executions) && table == old(table) && entries == old(entries)
      ensures runnable == old(runnable) && tasks == old(tasks) && jobCount == old(jobCount) && now == old(now)
    {
      nodes := nodes + [node];
      trace := trace + [NodeChange];
    }

    /** addNodes: the nodes join the idle queue in order. */
    method AddNodes(more: seq<NodeId>)
      modifies this
      ensures nodes == old(nodes) + more && trace == old(trace) + [NodeChange]
      ensures executions == old(executions) && table == old(table) && entries == old(entries)
      ensures runnable == old(runnable) && tasks == old(tasks) && jobCount == old(jobCount) && now == old(now)
    {
      nodes := nodes + more;
      trace := trace + [NodeChange];
    }

    /** setNode: the node becomes the only idle one. */
    method SetNode(node: NodeId)
      modifies this
      ensures nodes == [node] && trace == old(trace) + [NodeChange]
      ensures executions == old(executions) && table == old(table) && entries == old(entries)
      ensures runnable == old(runnable) && tasks == old(tasks) && jobCount == old(jobCount) && now == old(now)
    {
      nodes := [node];
      trace := trace + [NodeChange];
    }

    /** setNodes: the nodes become the idle queue. */
    method SetNodes(replacement: seq<NodeId>)
      modifies this
      ensures nodes == replacement && trace == old(trace) + [NodeChange]
      ensures executions == old(executions) && table == old(table) && entries == old(entries)
      ensures runnable == old(runnable) && tasks == old(tasks) && jobCount == old(jobCount) && now == old(now)
    {
      nodes := replacement;
      trace := trace + [NodeChange];
    }

    /** Time passes. */
    method AdvanceClock(elapsed: nat)
      modifies this
      ensures now == old(now) + elapsed
      ensures executions == old(executions) && table == old(table) && entries == old(entries) && nodes == old(nodes)
      ensures runnable == old(runnable) && tasks == old(tasks) && jobCount == old(jobCount) && trace == old(trace)
    {
      now := now + elapsed;
    }

    /**
     * getExecution: get or create. Afterwards the table has a record for the
     * job id; an existing one is returned unchanged, a new one is RUNNING.
     */
    method GetExecution(jobId: nat) returns (x: nat)
      requires Valid()
      modifies this
      ensures Valid()
      ensures jobId in table && x == table[jobId] && x < |executions|
      ensures jobId in old(table) ==> table == old(table) && executions == old(executions)
      ensures jobId !in old(table) ==>
        && x == |old(executions)|
        && executions == old(executions) + [Execution(now, Running, None)]
        && table == old(table)[jobId := x]
      ensures Extends(old(executions), executions, now)
      ensures entries == old(entries) && nodes == old(nodes) && runnable == old(runnable) && tasks == old(tasks)
      ensures jobCount == old(jobCount) && now == old(now) && trace == old(trace)
    {
      if jobId in table {
        x := table[jobId];
        assert executions[..|executions|] == executions;
        return;
      }
      x := |executions|;
      executions := executions + [Execution(now, Running, None)];
      table := table[jobId := x];
      assert executions[..|old(executions)|] == old(executions);
    }

    /**
     * The required records of an entry (the resolution in spawnOrQueueJob):
     * resolved once, one record per required id, in order, by get or create;
     * an entry that has them keeps them.
     */
    method ResolveRequired(e: nat)
      requires Valid() && e < |entries| && entries[e].job.requiredJobIds.Some?
      modifies this
      ensures Valid()
      ensures |entries| == |old(entries)| && entries == old(entries)[e := entries[e]]
      ensures entries[e].job == old(entries[e].job) && entries[e].live == old(entries[e].live)
      ensures entries[e].required.Some?
      ensures old(entries[e].required).Some? ==> entries == old(entries) && executions == old(executions) && table == old(table)
      ensures old(entries[e].required).None? ==>
        var ids := entries[e].job.requiredJobIds.value;
        && |entries[e].required.value| == |ids|
        && forall k :: 0 <= k < |ids| ==> ids[k] in table && entries[e].required.value[k] == table[ids[k]]
      ensures Extends(old(executions), executions, now)
      ensures Grows(old(table), table)
      ensures Queues() == old(Queues()) && trace == old(trace)
    {
      if entries[e].required.Some? {
        assert executions[..|executions|] == executions;
        return;
      }
      var ids := entries[e].job.requiredJobIds.value;
      var required: seq<nat> := [];
      var i := 0;
      assert executions[..|executions|] == executions;
      while i < |ids|
        invariant 0 <= i <= |ids| && |required| == i
        invariant Valid()
        invariant forall k :: 0 <= k < i ==> ids[k] in table && required[k] == table[ids[k]]
        invariant Extends(old(executions), executions, now)
        invariant Grows(old(table), table)
        invariant entries == old(entries) && Queues() == old(Queues()) && trace == old(trace)
      {
        ghost var before := executions;
        var x := GetExecution(ids[i]);
        ExtendsTransitive(old(executions), before, executions, now);
        required := required + [x];
        i := i + 1;
      }
      entries := entries[e := entries[e].(required := Some(required))];
    }

    /** The scan of spawnOrQueueJob: the first required record, in list order, that is not COMPLETED. */
    method ScanRequired(required: seq<nat>) returns (first: Option<nat>)
      requires forall k :: 0 <= k < |required| ==> required[k] < |executions|
      ensures first == FirstUnmet(executions, required)
    {
      var i := 0;
      while i < |required|
        invariant 0 <= i <= |required|
        invariant forall k :: 0 <= k < i ==> executions[required[k]].status == Completed
      {
        if executions[required[i]].status != Completed {
          return Some(i);
        }
        i := i + 1;
      }
      return None;
    }

    /**
     * The first part of spawnOrQueueJob: resolves the required records,
     * then drops the job (the first record not COMPLETED is FAILED), blocks
     * it on that record (it is RUNNING), or admits it (none, or all
     * COMPLETED).
     */
    method Admit(e: nat) returns (admission: Admission, ghost resolved: seq<Execution>)
      requires Valid() && e < |entries|
      modifies this
      ensures Valid()
      ensures |entries| == |old(entries)| && entries == old(entries)[e := entries[e]]
      ensures entries[e].job == old(entries[e].job) && entries[e].live == old(entries[e].live)
      ensures Decided(entries[e].job, entries[e].required, resolved, admission)
      ensures Extends(old(executions), resolved, now)
      ensures executions == AfterAdmission(resolved, e, admission)
      ensures admission.WaitsOn? ==> admission.execution < |resolved| && resolved[admission.execution].status == Running
      ensures trace == old(trace) + AdmissionEvents(e, admission)
      ensures BlockedCount(executions) <= BlockedCount(old(executions)) + (if admission.WaitsOn? then 1 else 0)
      ensures old(entries[e].job.requiredJobIds).None? ==> entries == old(entries) && table == old(table)
      ensures Grows(old(table), table)
      ensures Queues() == old(Queues())
    {
      resolved := executions;
      assert executions[..|executions|] == executions;
      if entries[e].job.requiredJobIds.None? {
        return Admitted, resolved;
      }
      ResolveRequired(e);
      resolved := executions;
      ExtendsKeepsCount(old(executions), resolved, now);
      var required := entries[e].required.value;
      var first := ScanRequired(required);
      if first.None? {
        return Admitted, resolved;
      }
      var x := required[first.value];
      if executions[x].status == Failed {
        trace := trace + [DroppedJob(e)];
        return Refused, resolved;
      }
      BlockOn(e, x);
      return WaitsOn(x), resolved;
    }

    /** blockJob on the record a job waits on, as spawnOrQueueJob does when it is RUNNING. */
    method BlockOn(e: nat, x: nat)
      requires Valid() && e < |entries| && x < |executions|
      modifies this
      ensures Valid()
      ensures executions == old(executions)[x := BlockJob(old(executions[x]), e)]
      ensures trace == old(trace) + [BlockedJob(e, x)]
      ensures BlockedCount(executions) <= BlockedCount(old(executions)) + 1
      ensures entries == old(entries) && table == old(table) && Queues() == old(Queues())
    {
      BlockedCountUpdate(executions, x, BlockJob(executions[x], e));
      assert |Members(executions[x].blocked) + {e}| <= |Members(executions[x].blocked)| + 1;
      executions := executions[x := BlockJob(executions[x], e)];
      trace := trace + [BlockedJob(e, x)];
    }

    /**
     * spawnOrQueueJob without a node: unless dropped or blocked, the job is
     * forked to the first idle node, or appended to the runnable queue when
     * no node is idle. Exactly one of these happens.
     */
    method DispatchDetached(e: nat) returns (outcome: Outcome, admission: Admission, ghost resolved: seq<Execution>)
      requires Valid() && e < |entries|
      modifies this
      ensures Valid()
      ensures |entries| == |old(entries)| && entries == old(entries)[e := entries[e]]
      ensures entries[e].job == old(entries[e].job) && entries[e].live == old(entries[e].live)
      ensures Decided(entries[e].job, entries[e].required, resolved, admission)
      ensures outcome == DetachedOutcome(admission, old(nodes))
      ensures Extends(old(executions), resolved, now)
      ensures executions == AfterAdmission(resolved, e, admission)
      ensures admission.WaitsOn? ==> admission.execution < |resolved| && resolved[admission.execution].status == Running
      ensures trace == old(trace) + SubmissionEvents(e, outcome)
      ensures outcome.Forked? ==> nodes == old(nodes)[1..] && tasks == old(tasks) + [(outcome.node, e)] && runnable == old(runnable)
      ensures outcome.Queued? ==> runnable == old(runnable) + [e] && nodes == old(nodes) && tasks == old(tasks)
      ensures !outcome.Forked? && !outcome.Queued? ==> runnable == old(runnable) && nodes == old(nodes) && tasks == old(tasks)
      ensures Pending() <= old(Pending()) + 1
      ensures Grows(old(table), table)
      ensures jobCount == old(jobCount) && now == old(now)
    {
      admission, resolved := Admit(e);
      match admission {
        case Refused =>
          outcome := Dropped;
        case WaitsOn(x) =>
          outcome := Blocked(x);
        case Admitted =>
          outcome := ForkOrQueue(e);
      }
    }

    /** An admitted detached job: handed to an idle node as a new task, or else queued as runnable. */
    method ForkOrQueue(e: nat) returns (outcome: Outcome)
      requires Valid() && e < |entries|
      modifies this
      ensures Valid()
      ensures outcome == DetachedOutcome(Admitted, old(nodes))
      ensures trace == old(trace) + SubmissionEvents(e, outcome)
      ensures outcome.Forked? ==> nodes == old(nodes)[1..] && tasks == old(tasks) + [(outcome.node, e)] && runnable == old(runnable)
      ensures outcome.Queued? ==> runnable == old(runnable) + [e] && nodes == old(nodes) && tasks == old(tasks)
      ensures executions == old(executions) && table == old(table) && entries == old(entries)
      ensures jobCount == old(jobCount) && now == old(now)
    {
      if nodes != [] {
        var node := nodes[0];
        nodes := nodes[1..];
        tasks := tasks + [(node, e)];
        trace := trace + [ForkedJob(e, node)];
        outcome := Forked(node);
      } else {
        runnable := runnable + [e];
        trace := trace + [QueuedJob(e)];
        outcome := Queued;
      }
    }

    /**
     * failExecution: the record becomes FAILED and its blocked jobs are
     * taken; each is invalidated and the record of its own job is failed in
     * turn, so failure spreads to every job waiting, directly or not.
     */
    method FailExecution(x: nat)
      requires Valid() && x < |executions|
      modifies this
      decreases BlockedCount(executions), 0
      ensures Valid()
      ensures FailsOnly(old(executions), executions, now)
      ensures InvalidatesOnly(old(entries), entries)
      ensures executions[x].status == Failed
      ensures TailsFailed(Members(old(executions[x].blocked)), entries, table, executions)
      ensures Grows(old(table), table)
      ensures BlockedCount(executions) <= BlockedCount(old(executions))
      ensures Queues() == old(Queues()) && trace == old(trace)
    {
      var blocked := executions[x].blocked;
      BlockedCountUpdate(executions, x, executions[x].(status := Failed, blocked := None));
      executions := executions[x := executions[x].(status := Failed, blocked := None)];
      assert FailsOnly(old(executions), executions, now);
      var rest := Members(blocked);
      ghost var done: set<nat> := {};
      while rest != {}
        invariant rest <= Members(blocked)
        invariant forall u :: u in Members(blocked) ==> u in rest || u in done
        invariant forall u :: u in Members(blocked) ==> u < |entries|
        invariant Valid() && x < |executions|
        invariant FailsOnly(old(executions), executions, now)
        invariant InvalidatesOnly(old(entries), entries)
        invariant executions[x].status == Failed
        invariant BlockedCount(executions) + |rest| <= BlockedCount(old(executions))
        invariant TailsFailed(done, entries, table, executions)
        invariant Grows(old(table), table)
        invariant Queues() == old(Queues()) && trace == old(trace)
        decreases |rest|
      {
        var t :| t in rest;
        FailNext(t, x, Members(blocked), rest, done, old(executions), old(entries), old(table));
        rest := rest - {t};
        done := done + {t};
      }
    }

    /** One turn of failExecution's loop over the blocked jobs: `t`, still to do, is failed. */
    method FailNext(t: nat, ghost x: nat, ghost blocked: set<nat>, ghost rest: set<nat>, ghost done: set<nat>,
                    ghost executions0: seq<Execution>, ghost entries0: seq<Entry>, ghost table0: map<nat, nat>)
      requires t in rest && rest <= blocked
      requires forall u :: u in blocked ==> u < |entries|
      requires Valid() && x < |executions|
      requires FailsOnly(executions0, executions, now) && InvalidatesOnly(entries0, entries) && Grows(table0, table)
      requires executions[x].status == Failed
      requires TailsFailed(done, entries, table, executions)
      modifies this
      decreases BlockedCount(executions), 2
      ensures Valid() && x < |executions|
      ensures FailsOnly(executions0, executions, now) && InvalidatesOnly(entries0, entries) && Grows(table0, table)
      ensures executions[x].status == Failed
      ensures BlockedCount(executions) <= BlockedCount(old(executions))
      ensures TailsFailed(done + {t}, entries, table, executions)
      ensures Queues() == old(Queues()) && trace == old(trace)
    {
      ghost var before, entriesBefore, tableBefore := executions, entries, table;
      FailTail(t);
      FailsOnlyTransitive(executions0, before, executions, now);
      TailsStayFailed(done, entriesBefore, tableBefore, before, entries, table, executions, now);
    }

    /** One blocked job of failExecution: it is invalidated and the record of its job is failed. */
    method FailTail(t: nat)
      requires Valid() && t < |entries|
      modifies this
      decreases BlockedCount(executions), 1
      ensures Valid()
      ensures FailsOnly(old(executions), executions, now)
      ensures InvalidatesOnly(old(entries), entries)
      ensures TailsFailed({t}, entries, table, executions)
      ensures Grows(old(table), table)
      ensures BlockedCount(executions) <= BlockedCount(old(executions))
      ensures Queues() == old(Queues()) && trace == old(trace)
    {
      Invalidate(t);
      var id := entries[t].job.jobId;
      var y := GetExecution(id);
      ExtendsFailsOnly(old(executions), executions, now);
      ExtendsKeepsCount(old(executions), executions, now);
      ghost var before, invalidated := executions, entries;
      FailExecution(y);
      FailsOnlyTransitive(old(executions), before, executions, now);
      assert !invalidated[t].live && invalidated[t].job.jobId == id;
      assert !entries[t].live && entries[t].job.jobId == id;
      assert id in table && table[id] == y;
    }

    /** invalidate: the entry's receiver is cleared, so it is never released again. */
    method Invalidate(t: nat)
      requires Valid() && t < |entries|
      modifies this
      ensures Valid()
      ensures entries == old(entries)[t := old(entries[t]).(live := false)]
      ensures executions == old(executions) && table == old(table)
      ensures Queues() == old(Queues()) && trace == old(trace)
    {
      entries := entries[t := entries[t].(live := false)];
    }

    /** The jobs blocked on the record of a job id, if it has one. */
    ghost function BlockedOn(id: nat): set<nat>
      reads this
    {
      if id in table && table[id] < |executions| then Members(executions[table[id]].blocked) else {}
    }

    /** The container's state, as a value. */
    ghost function Snapshot(): Snap
      reads this
    {
      Snap(executions, table, entries, nodes, runnable, tasks, trace, Pending(), jobCount, now)
    }

    /**
     * The release in executeJobs: each job that was blocked on a completed
     * record and still has its receiver is submitted again without a node;
     * invalidated ones are passed over.
     */
    method Release(tails: set<nat>) returns (ghost order: seq<nat>, ghost events: seq<Event>)
      requires Valid() && forall t :: t in tails ==> t < |entries|
      modifies this
      ensures Valid()
      ensures ReleasedBetween(old(Snapshot()), Snapshot())
      ensures ReleasedSoFar(order, tails, {}, old(entries))
      ensures trace == old(trace) + events && Submitted(events, order)
      ensures runnable == old(runnable) + QueuedIn(events)
      ensures Pending() <= old(Pending()) + |tails|
    {
      var rest := tails;
      ghost var s0 := Snapshot();
      order, events := [], [];
      while rest != {}
        invariant rest <= tails && Valid()
        invariant ReleasedBetween(s0, Snapshot())
        invariant ReleasedSoFar(order, tails, rest, s0.entries)
        invariant trace == s0.trace + events && Submitted(events, order)
        invariant runnable == s0.runnable + QueuedIn(events)
        invariant Pending() + |rest| <= s0.pending + |tails|
        decreases |rest|
      {
        var t :| t in rest;
        order, events := ReleaseNext(t, tails, rest, order, events, s0);
        rest := rest - {t};
      }
    }

    /** One turn of the release loop: the tail `t` is looked at and, when live, released. */
    method ReleaseNext(t: nat, ghost tails: set<nat>, ghost rest: set<nat>, ghost order: seq<nat>,
                       ghost events: seq<Event>, ghost s0: Snap)
      returns (ghost order': seq<nat>, ghost events': seq<Event>)
      requires t in rest && rest <= tails && Valid()
      requires ReleasedBetween(s0, Snapshot())
      requires ReleasedSoFar(order, tails, rest, s0.entries)
      requires trace == s0.trace + events && Submitted(events, order)
      requires runnable == s0.runnable + QueuedIn(events)
      requires Pending() + |rest| <= s0.pending + |tails|
      modifies this
      ensures Valid()
      ensures ReleasedBetween(s0, Snapshot())
      ensures ReleasedSoFar(order', tails, rest - {t}, s0.entries)
      ensures trace == s0.trace + events' && Submitted(events', order')
      ensures runnable == s0.runnable + QueuedIn(events')
      ensures Pending() + |rest - {t}| <= s0.pending + |tails|
    {
      ReleasedSkip(order, tails, rest, s0.entries, t);
      order', events' := order, events;
      if entries[t].live {
        ghost var before := Snapshot();
        var ev := ReleaseOne(t);
        ReleasedBetweenTransitive(s0, before, Snapshot());
        SubmittedStep(events, order, ev, t);
        ReleasedStep(order, tails, rest, s0.entries, t);
        AppendAssociates(s0.trace, events, [ev]);
        QueuedInConcat(events, [ev]);
        AppendAssociates(s0.runnable, QueuedIn(events), QueuedIn([ev]));
        order', events' := order + [t], events + [ev];
      }
    }

    /** One released job: submitted again without a node, with exactly one submission event. */
    method ReleaseOne(t: nat) returns (ghost ev: Event)
      requires Valid() && t < |entries|
      modifies this
      ensures Valid()
      ensures ReleasedBetween(old(Snapshot()), Snapshot())
      ensures trace == old(trace) + [ev] && SubmissionOf(ev, t)
      ensures runnable == old(runnable) + QueuedIn([ev])
      ensures Pending() <= old(Pending()) + 1
    {
      var outcome, admission, resolved := DispatchDetached(t);
      AdmissionKeepsStatus(old(executions), resolved, t, admission, old(now));
      AdmissionKeepsFinished(old(executions), resolved, t, admission, old(now));
      CallbacksSkipSubmissions(old(trace), SubmissionEvents(t, outcome));
      ev := SubmissionEvents(t, outcome)[0];
      assert [ev][..0] == [];
    }

    /**
     * One turn of executeJobs: the record of the job is got or created and
     * the job runs on the node. When it throws, the record is failed (with
     * everything waiting on it) and the receiver hears of the failure; when
     * it returns, the record is COMPLETED, the jobs blocked on it are
     * released, and the receiver hears of the completion.
     */
    method RunOne(node: NodeId, e: nat) returns (ok: bool, ghost events: seq<Event>, ghost order: seq<nat>)
      requires Valid() && e < |entries|
      modifies this
      ensures Valid()
      ensures ok == succeeds(node, old(entries[e].job))
      ensures SameJobs(old(entries), entries)
      ensures var id := old(entries[e].job.jobId);
        id in table && table[id] < |executions| && executions[table[id]].status == (if ok then Completed else Failed)
      ensures var tails := old(BlockedOn(entries[e].job.jobId));
        if ok then
          executions[table[old(entries[e].job.jobId)]].blocked.None?
          && ReleasedSoFar(order, tails, {}, old(entries)) && Submitted(events, order)
        else
          FailsOnly(old(executions), executions, now) && InvalidatesOnly(old(entries), entries)
          && TailsFailed(tails, entries, table, executions) && order == []
      ensures trace == old(trace) + events + [if ok then ExecutionComplete(e) else ExecutionFailed(e, node)]
      ensures runnable == old(runnable) + QueuedIn(events)
      ensures !ok ==> events == []
      ensures Callbacks(trace) == Callbacks(old(trace)) + [e]
      ensures Grows(old(table), table)
      ensures Pending() <= old(Pending())
      ensures PolledFrom(nodes, old(nodes)) && old(tasks) <= tasks
      ensures jobCount == old(jobCount) && now == old(now)
    {
      var job := entries[e].job;
      var x := GetExecution(job.jobId);
      ExtendsKeepsCount(old(executions), executions, now);
      ok := succeeds(node, job);
      assert Members(executions[x].blocked) == old(BlockedOn(job.jobId));
      ghost var mid := executions;
      ghost var ev;
      if !ok {
        events, ev := RunFailed(node, e, x);
        ExtendsFailsOnly(old(executions), mid, now);
        FailsOnlyTransitive(old(executions), mid, executions, now);
        order := [];
      } else {
        order, events, ev := RunCompleted(e, x);
      }
    }

    /** A job that threw: its record is failed and the receiver hears of the failure on the node. */
    method RunFailed(node: NodeId, e: nat, x: nat) returns (ghost events: seq<Event>, ghost ev: Event)
      requires Valid() && e < |entries| && x < |executions|
      modifies this
      ensures Valid()
      ensures SameJobs(old(entries), entries)
      ensures x < |executions| && Grows(old(table), table)
      ensures trace == old(trace) + events + [ev] && runnable == old(runnable) + QueuedIn(events)
      ensures Callbacks(trace) == Callbacks(old(trace)) + [e]
      ensures Pending() <= old(Pending())
      ensures PolledFrom(nodes, old(nodes)) && old(tasks) <= tasks
      ensures jobCount == old(jobCount) && now == old(now)
      ensures executions[x].status == Failed && ev == ExecutionFailed(e, node) && events == []
      ensures FailsOnly(old(executions), executions, now) && InvalidatesOnly(old(entries), entries)
      ensures TailsFailed(Members(old(executions[x].blocked)), entries, table, executions)
    {
      FailExecution(x);
      FailsOnlyCount(old(executions), executions, now);
      events, ev := [], ExecutionFailed(e, node);
      CallbacksAppend(trace, ev);
      trace := trace + [ExecutionFailed(e, node)];
      assert old(trace) + events == old(trace);
    }

    /** A job that returned: its record is COMPLETED, its blocked jobs are released, the receiver hears of it. */
    method RunCompleted(e: nat, x: nat) returns (ghost order: seq<nat>, ghost events: seq<Event>, ghost ev: Event)
      requires Valid() && e < |entries| && x < |executions|
      modifies this
      ensures Valid()
      ensures SameJobs(old(entries), entries)
      ensures x < |executions| && Grows(old(table), table)
      ensures trace == old(trace) + events + [ev] && runnable == old(runnable) + QueuedIn(events)
      ensures Callbacks(trace) == Callbacks(old(trace)) + [e]
      ensures Pending() <= old(Pending())
      ensures PolledFrom(nodes, old(nodes)) && old(tasks) <= tasks
      ensures jobCount == old(jobCount) && now == old(now)
      ensures executions[x].status == Completed && executions[x].blocked.None? && ev == ExecutionComplete(e)
      ensures ReleasedSoFar(order, Members(old(executions[x].blocked)), {}, old(entries)) && Submitted(events, order)
    {
      var blocked := executions[x].blocked;
      BlockedCountUpdate(executions, x, executions[x].(status := Completed, blocked := None));
      executions := executions[x := executions[x].(status := Completed, blocked := None)];
      ghost var mid := Snapshot();
      assert mid.pending + |Members(blocked)| == old(Pending());
      order, events := Release(Members(blocked));
      assert executions[x].status == mid.executions[x].status && executions[x].blocked == mid.executions[x].blocked;
      assert trace == mid.trace + events && mid.trace == old(trace);
      ev := ExecutionComplete(e);
      CallbacksAppend(trace, ev);
      trace := trace + [ExecutionComplete(e)];
    }

    /**
     * The sweep of executeJobs: the table is scanned in key order; RUNNING
     * records are passed over, finished ones older than RETENTION are
     * removed, and the scan stops at the first finished record that is not.
     */
    method Sweep()
      requires Valid()
      modifies this
      ensures executions == old(executions) && entries == old(entries)
      ensures Queues() == old(Queues()) && trace == old(trace)
      ensures table == Kept(old(table), executions, now)
      ensures Valid()
    {
      table := SweepTable(table, executions, now);
    }

    /**
     * The end of executeJobs: the drain-chain counter is incremented (a Java
     * int, so it wraps) and every CLEANUP_PERIOD-th value triggers a sweep.
     */
    method FinishChain()
      requires Valid()
      modifies this
      ensures executions == old(executions) && entries == old(entries) && nodes == old(nodes)
      ensures runnable == old(runnable) && tasks == old(tasks) && now == old(now) && trace == old(trace)
      ensures jobCount == Inc32(old(jobCount))
      ensures table == if jobCount % CLEANUP_PERIOD == 0 then Kept(old(table), executions, now) else old(table)
      ensures Valid()
    {
      jobCount := Inc32(jobCount);
      if jobCount % CLEANUP_PERIOD == 0 {
        Sweep();
      }
    }

    /**
     * executeJobs: runs the job on the node, then polls the runnable queue
     * and runs what it gets, until the queue is empty; the node then goes
     * back to the idle queue and the chain is finished. The jobs run are the
     * first one, then the queue as it was, then every job queued meanwhile,
     * first in first out.
     */
    method ExecuteJobs(node: NodeId, e: nat) returns (ghost ran: seq<nat>, ghost added: seq<Event>)
      requires Valid() && e < |entries|
      modifies this
      ensures Valid()
      ensures SameJobs(old(entries), entries)
      ensures trace == old(trace) + added
      ensures ran == [e] + old(runnable) + QueuedIn(added)
      ensures Callbacks(trace) == Callbacks(old(trace)) + ran
      ensures runnable == []
      ensures |nodes| > 0 && nodes[|nodes| - 1] == node && PolledFrom(nodes[..|nodes| - 1], old(nodes))
      ensures old(tasks) <= tasks
      ensures jobCount == Inc32(old(jobCount)) && now == old(now)
    {
      ghost var s0 := Snapshot();
      var current: nat := e;
      var more := true;
      ran, added := [], [];
      while more
        invariant Valid() && current < |entries|
        invariant Draining(s0, ran, added)
        invariant more ==> [e] + s0.runnable + QueuedIn(added) == ran + [current] + runnable
        invariant !more ==> [e] + s0.runnable + QueuedIn(added) == ran && runnable == []
        decreases more, Pending()
      {
        more, current, ran, added := DrainNext(node, current, e, ran, added, s0);
      }
      ghost var idle := nodes;
      nodes := nodes + [node];
      assert nodes[..|nodes| - 1] == idle;
      FinishChain();
    }

    /** What the drain loop keeps: the jobs, the trace so far and its callbacks, the nodes, tasks, counter and clock. */
    ghost predicate Draining(s0: Snap, ran: seq<nat>, added: seq<Event>)
      reads this
    {
      && SameJobs(s0.entries, entries)
      && trace == s0.trace + added
      && Callbacks(trace) == Callbacks(s0.trace) + ran
      && PolledFrom(nodes, s0.nodes) && s0.tasks <= tasks
      && jobCount == s0.jobCount && now == s0.now
    }

    /** One turn of executeJobs' loop: runs the job, then polls the runnable queue for the next one. */
    method DrainNext(node: NodeId, current: nat, ghost e: nat, ghost ran: seq<nat>, ghost added: seq<Event>, ghost s0: Snap)
      returns (more: bool, next: nat, ghost ran': seq<nat>, ghost added': seq<Event>)
      requires Valid() && current < |entries|
      requires Draining(s0, ran, added)
      requires [e] + s0.runnable + QueuedIn(added) == ran + [current] + runnable
      modifies this
      ensures Valid() && next < |entries|
      ensures Draining(s0, ran', added')
      ensures more ==> [e] + s0.runnable + QueuedIn(added') == ran' + [next] + runnable && Pending() < old(Pending())
      ensures !more ==> [e] + s0.runnable + QueuedIn(added') == ran' && runnable == []
    {
      ran', added' := DrainRun(node, current, e, ran, added, s0);
      if runnable == [] {
        assert ran' + runnable == ran';
        return false, current, ran', added';
      }
      ghost var queue := runnable;
      more, next := true, runnable[0];
      runnable := runnable[1..];
      assert queue == [next] + runnable;
      AppendAssociates(ran', [next], runnable);
    }

    /** The run in one turn of executeJobs' loop: the job joins the jobs run, what it queued joins the queue. */
    method DrainRun(node: NodeId, current: nat, ghost e: nat, ghost ran: seq<nat>, ghost added: seq<Event>, ghost s0: Snap)
      returns (ghost ran': seq<nat>, ghost added': seq<Event>)
      requires Valid() && current < |entries|
      requires Draining(s0, ran, added)
      requires [e] + s0.runnable + QueuedIn(added) == ran + [current] + runnable
      modifies this
      ensures Valid()
      ensures Draining(s0, ran', added')
      ensures [e] + s0.runnable + QueuedIn(added') == ran' + runnable
      ensures Pending() <= old(Pending())
    {
      ghost var before := Snapshot();
      var ok, events, order := RunOne(node, current);
      ghost var done := if ok then ExecutionComplete(current) else ExecutionFailed(current, node);
      DrainStep(e, s0.runnable, added, ran, current, before.runnable, events, done);
      AppendAssociates(s0.trace, added, events + [done]);
      AppendAssociates(Callbacks(s0.trace), ran, [current]);
      PolledFromTransitive(nodes, before.nodes, s0.nodes);
      ran', added' := ran + [current], added + (events + [done]);
    }

    /**
     * addJob: a new entry for the job (with its receiver) is submitted. With
     * no node it is dispatched as a released job is; with a node, a job that
     * may run runs inline on it, draining the runnable queue after it.
     */
    method AddJob(job: Job, node: Option<NodeId>)
      returns (outcome: Outcome, admission: Admission, ghost resolved: seq<Execution>, ghost required: Option<seq<nat>>,
               ghost ran: seq<nat>, ghost added: seq<Event>)
      requires Valid()
      modifies this
      ensures Valid()
      ensures |entries| == |old(entries)| + 1 && entries[|old(entries)|].job == job
      ensures SameJobs(old(entries), entries[..|old(entries)|])
      ensures Decided(job, required, resolved, admission)
      ensures Extends(old(executions), resolved, old(now))
      ensures outcome == if node.None? then DetachedOutcome(admission, old(nodes)) else InlineOutcome(admission, node.value)
      ensures !outcome.RanInline? ==> trace == old(trace) + SubmissionEvents(|old(entries)|, outcome)
      ensures !outcome.RanInline? ==> executions == AfterAdmission(resolved, |old(entries)|, admission)
      ensures outcome.RanInline? ==>
        && trace == old(trace) + SubmissionEvents(|old(entries)|, outcome) + added
        && ran == [|old(entries)|] + old(runnable) + QueuedIn(added)
        && Callbacks(trace) == Callbacks(old(trace)) + ran
        && runnable == [] && jobCount == Inc32(old(jobCount))
      ensures outcome.Forked? ==>
        nodes == old(nodes)[1..] && tasks == old(tasks) + [(outcome.node, |old(entries)|)] && runnable == old(runnable)
      ensures outcome.Queued? ==> runnable == old(runnable) + [|old(entries)|] && nodes == old(nodes) && tasks == old(tasks)
      ensures (outcome.Dropped? || outcome.Blocked?) ==> runnable == old(runnable) && nodes == old(nodes) && tasks == old(tasks)
      ensures !outcome.RanInline? ==> jobCount == old(jobCount) && now == old(now)
      ensures outcome.RanInline? ==> |nodes| > 0 && nodes[|nodes| - 1] == node.value && PolledFrom(nodes[..|nodes| - 1], old(nodes))
      ensures outcome.RanInline? ==> old(tasks) <= tasks && now == old(now)
    {
      var e := NewEntry(job);
      if node.None? {
        outcome, admission, resolved := DispatchDetached(e);
        required, ran, added := entries[e].required, [], [];
      } else {
        outcome, admission, resolved, required, ran, added := SubmitInline(e, node.value);
      }
    }

    /** The JobEntry of addJob: the job with its receiver, nothing resolved yet. */
    method NewEntry(job: Job) returns (e: nat)
      requires Valid()
      modifies this
      ensures Valid()
      ensures e == |old(entries)| && entries == old(entries) + [Entry(job, true, None)]
      ensures executions == old(executions) && table == old(table)
      ensures Queues() == old(Queues()) && trace == old(trace)
    {
      e := |entries|;
      entries := entries + [Entry(job, true, None)];
    }

    /** spawnOrQueueJob with a node: a job that may run runs inline, draining the runnable queue after it. */
    method SubmitInline(e: nat, node: NodeId)
      returns (outcome: Outcome, admission: Admission, ghost resolved: seq<Execution>, ghost required: Option<seq<nat>>,
               ghost ran: seq<nat>, ghost added: seq<Event>)
      requires Valid() && e < |entries|
      modifies this
      ensures Valid()
      ensures SameJobs(old(entries), entries)
      ensures Decided(old(entries[e].job), required, resolved, admission)
      ensures Extends(old(executions), resolved, old(now))
      ensures outcome == InlineOutcome(admission, node)
      ensures !outcome.RanInline? ==> trace == old(trace) + SubmissionEvents(e, outcome)
      ensures !outcome.RanInline? ==> executions == AfterAdmission(resolved, e, admission)
      ensures outcome.RanInline? ==>
        && trace == old(trace) + SubmissionEvents(e, outcome) + added
        && ran == [e] + old(runnable) + QueuedIn(added)
        && Callbacks(trace) == Callbacks(old(trace)) + ran
        && runnable == [] && jobCount == Inc32(old(jobCount))
      ensures !outcome.RanInline? ==> Queues() == old(Queues())
      ensures outcome.RanInline? ==> |nodes| > 0 && nodes[|nodes| - 1] == node && PolledFrom(nodes[..|nodes| - 1], old(nodes))
      ensures outcome.RanInline? ==> old(tasks) <= tasks && now == old(now)
    {
      admission, resolved := Admit(e);
      required := entries[e].required;
      outcome := InlineOutcome(admission, node);
      ran, added := [], [];
      if admission.Admitted? {
        assert trace == old(trace) by {
          assert old(trace) + AdmissionEvents(e, admission) == old(trace);
        }
        ran, added := RunInline(e, node);
      } else {
        assert SameJobs(old(entries), entries);
      }
    }

    /** The inline run of spawnOrQueueJob: logged, then executeJobs on the caller's node. */
    method RunInline(e: nat, node: NodeId) returns (ghost ran: seq<nat>, ghost added: seq<Event>)
      requires Valid() && e < |entries|
      modifies this
      ensures Valid()
      ensures SameJobs(old(entries), entries)
      ensures trace == old(trace) + [InlineJob(e, node)] + added
      ensures ran == [e] + old(runnable) + QueuedIn(added)
      ensures Callbacks(trace) == Callbacks(old(trace)) + ran
      ensures runnable == [] && jobCount == Inc32(old(jobCount))
      ensures |nodes| > 0 && nodes[|nodes| - 1] == node && PolledFrom(nodes[..|nodes| - 1], old(nodes))
      ensures old(tasks) <= tasks && now == old(now)
    {
      CallbacksAppend(trace, InlineJob(e, node));
      trace := trace + [InlineJob(e, node)];
      ghost var logged, queue := trace, runnable;
      assert Callbacks(logged) == Callbacks(old(trace));
      ran, added := ExecuteJobs(node, e);
      assert trace == logged + added && ran == [e] + queue + QueuedIn(added);
    }

    /** A forked task runs on a worker: executeJobs for its node and job. */
    method RunTask(i: nat) returns (ghost ran: seq<nat>, ghost added: seq<Event>)
      requires Valid() && i < |tasks|
      modifies this
      ensures Valid()
      ensures old(tasks[..i]) + old(tasks[i + 1..]) <= tasks
      ensures trace == old(trace) + added
      ensures ran == [old(tasks[i].1)] + old(runnable) + QueuedIn(added)
      ensures Callbacks(trace) == Callbacks(old(trace)) + ran
      ensures runnable == [] && |nodes| > 0 && nodes[|nodes| - 1] == old(tasks[i].0)
      ensures jobCount == Inc32(old(jobCount))
    {
      var (node, e) := tasks[i];
      tasks := tasks[..i] + tasks[i + 1..];
      ran, added := ExecuteJobs(node, e);
    }
  }
}
