/** The per-job result aggregator: a countdown latch (absent until the first
    reset, like the source's null field) and the partial results keyed by
    worker task id. The state is an immutable value; every operation returns
    the state after the call. */
module MasterController {
  import opened Common
  import opened Sorting

  /** What one worker reported: the numbers it found and its own timing. */
  datatype WorkerResult = WorkerResult(numbers: seq<int>, processingTime: int)

  datatype Controller = Controller(latch: Option<nat>, partialResults: map<string, WorkerResult>)

  /** The servant as constructed: no latch, no results. */
  const Initial: Controller := Controller(None, map[])

  /** The latch's remaining count, 0 when there is no latch. */
  function GetJobCompletionLatchCount(c: Controller): (count: nat)
    ensures c.latch.None? ==> count == 0
    ensures c.latch.Some? ==> count == c.latch.value
  {
    match c.latch
    case None => 0
    case Some(k) => k
  }

  /** Starts a job: forgets all partial results and arms a fresh latch with
      the number of participating workers, or with 0 when that number is not
      positive. */
  function ResetForNewJob(c: Controller, participatingWorkers: int): (r: Controller)
    ensures r.partialResults == map[]
    ensures r.latch.Some?
    ensures participatingWorkers > 0 ==> GetJobCompletionLatchCount(r) == participatingWorkers
    ensures participatingWorkers <= 0 ==> GetJobCompletionLatchCount(r) == 0
  {
    Controller(Some(if participatingWorkers > 0 then participatingWorkers else 0), map[])
  }

  /** Counts a selected worker that got no task, or whose dispatch failed:
      one count down if the latch is above zero; results untouched. */
  function HandleWorkerFailureOrNoTask(c: Controller, workerId: string): (r: Controller)
    ensures r.partialResults == c.partialResults
    ensures r.latch.Some? <==> c.latch.Some?
    ensures GetJobCompletionLatchCount(r) == Max(0, GetJobCompletionLatchCount(c) - 1)
  {
    match c.latch
    case Some(k) => if k > 0 then c.(latch := Some(k - 1)) else c
    case None => c
  }

  /** Records a worker's numbers under its id, replacing an earlier entry for
      that id, then counts down if the latch is above zero. A submission that
      finds the latch at zero (late or duplicate) is still recorded. */
  function SubmitWorkerResults(c: Controller, workerId: string, numbers: seq<int>, processingTime: int): (r: Controller)
    ensures r.partialResults.Keys == c.partialResults.Keys + {workerId}
    ensures r.partialResults[workerId] == WorkerResult(numbers, processingTime)
    ensures forall id :: id in c.partialResults && id != workerId ==> r.partialResults[id] == c.partialResults[id]
    ensures r.latch.Some? <==> c.latch.Some?
    ensures GetJobCompletionLatchCount(r) == Max(0, GetJobCompletionLatchCount(c) - 1)
    ensures IsLateSubmission(c) ==> r.latch == c.latch
  {
    var stored := c.partialResults[workerId := WorkerResult(numbers, processingTime)];
    match c.latch
    case Some(k) => Controller(if k > 0 then Some(k - 1) else Some(k), stored)
    case None => Controller(None, stored)
  }

  /** True when the submission arrives with the latch already at zero: the
      source logs a warning and does not count it. */
  predicate IsLateSubmission(c: Controller)
  {
    GetJobCompletionLatchCount(c) == 0
  }

  /** A call into the aggregator from outside the dispatch loop. */
  datatype Event =
    | Submitted(workerId: string, numbers: seq<int>, processingTime: int)
    | Unreachable(workerId: string)

  function Apply(c: Controller, e: Event): Controller
  {
    match e
    case Submitted(id, numbers, t) => SubmitWorkerResults(c, id, numbers, t)
    case Unreachable(id) => HandleWorkerFailureOrNoTask(c, id)
  }

  /** The state after the events, in order. */
  function Run(c: Controller, events: seq<Event>): Controller
    decreases |events|
  {
    if events == [] then c else Run(Apply(c, events[0]), events[1..])
  }

  /** Each event between two resets takes one off the latch until it is
      zero; nothing brings it back up. */
  lemma {:induction false} RunCountsDown(c: Controller, events: seq<Event>)
    ensures GetJobCompletionLatchCount(Run(c, events)) == Max(0, GetJobCompletionLatchCount(c) - |events|)
    ensures Run(c, events).latch.Some? <==> c.latch.Some?
    decreases |events|
  {
    if events != [] {
      RunCountsDown(Apply(c, events[0]), events[1..]);
    }
  }

  /** Between resets the latch count never increases. */
  lemma CountNonIncreasing(c: Controller, events: seq<Event>, k: nat)
    requires k <= |events|
    ensures GetJobCompletionLatchCount(Run(c, events)) <= GetJobCompletionLatchCount(Run(c, events[..k]))
  {
    RunCountsDown(c, events);
    RunCountsDown(c, events[..k]);
  }

  /** Running a concatenation runs its parts in turn. */
  lemma {:induction false} RunAppend(c: Controller, a: seq<Event>, b: seq<Event>)
    ensures Run(c, a + b) == Run(Run(c, a), b)
    decreases |a|
  {
    if a == [] {
      assert a + b == b;
    } else {
      assert (a + b)[0] == a[0];
      assert (a + b)[1..] == a[1..] + b;
      RunAppend(Apply(c, a[0]), a[1..], b);
    }
  }

  /** Waiting for the job. `arrivals` are the calls that reach the aggregator
      before the waiting thread gives up. The wait succeeds at once with no
      latch or with the count at zero, and otherwise exactly when the
      arrivals bring the count to zero. */
  function AwaitJobCompletion(c: Controller, arrivals: seq<Event>): (completed: bool)
    ensures completed <==> c.latch.None? || GetJobCompletionLatchCount(c) <= |arrivals|
  {
    RunCountsDown(c, arrivals);
    if c.latch.None? then true
    else if GetJobCompletionLatchCount(c) == 0 then true
    else GetJobCompletionLatchCount(Run(c, arrivals)) == 0
  }

  /** Before the first reset there is no latch: no sequence of failure
      reports and submissions creates one, the count stays 0, and a wait
      returns true at once. */
  lemma InitialHasNoLatch(events: seq<Event>)
    ensures GetJobCompletionLatchCount(Initial) == 0
    ensures Run(Initial, events).latch.None?
    ensures AwaitJobCompletion(Run(Initial, events), [])
  {
    RunCountsDown(Initial, events);
  }

  /** Every number of every stored result, with multiplicity. */
  ghost function AllNumbers(m: map<string, WorkerResult>): multiset<int>
    decreases |m|
  {
    if m == map[] then multiset{}
    else
      var id :| id in m;
      multiset(m[id].numbers) + AllNumbers(m - {id})
  }

  /** The collection can be taken apart starting from any entry. */
  lemma {:induction false} AllNumbersRemove(m: map<string, WorkerResult>, id: string)
    requires id in m
    ensures AllNumbers(m) == multiset(m[id].numbers) + AllNumbers(m - {id})
    decreases |m|
  {
    var first :| first in m && AllNumbers(m) == multiset(m[first].numbers) + AllNumbers(m - {first});
    if first != id {
      var rest := m - {first};
      AllNumbersRemove(rest, id);
      AllNumbersRemove(m - {id}, first);
      assert rest - {id} == (m - {id}) - {first};
    }
  }

  /** Merges the stored results: concatenates every entry's numbers (map
      order) and sorts ascending. Nothing is deduplicated. */
  method GetAllFoundPerfectNumbers(c: Controller) returns (all: seq<int>)
    ensures Sorted(all)
    ensures multiset(all) == AllNumbers(c.partialResults)
    ensures |all| == |AllNumbers(c.partialResults)|
  {
    var rest := c.partialResults;
    var collected: seq<int> := [];
    while rest != map[]
      invariant multiset(collected) + AllNumbers(rest) == AllNumbers(c.partialResults)
      decreases |rest|
    {
      var id :| id in rest;
      AllNumbersRemove(rest, id);
      collected := collected + rest[id].numbers;
      rest := rest - {id};
    }
    all := Sort(collected);
  }
}
