/** The master's job entry point: choose live workers, arm the aggregator,
    walk a cursor over the job range handing each selected worker its piece,
    account for the workers that got nothing, then wait, merge and pick the
    status text for the requester. A send outcome is an oracle `sendOk`
    saying whether the asynchronous dispatch call to a worker was accepted. */
module MasterService {
  import opened Common
  import opened Sorting
  import opened Partition
  import opened WorkerRegistry
  import opened MasterController
  import opened WorkerUtils
  import opened JobResults

  /** What the dispatch loop did for one selected worker. */
  datatype Assignment =
    | Dispatched(worker: Handle, subRange: Range)
    | SendFailed(worker: Handle, subRange: Range)
    | NoTask(worker: Handle)
  {
    /** The worker's piece, whether or not the send went through. */
    predicate HasPiece()
    {
      Dispatched? || SendFailed?
    }
  }

  /** The i-th selected worker receives the i-th piece while pieces remain,
      and nothing afterwards; a failed send still consumes its piece. */
  function Planned(worker: Handle, i: nat, pieces: seq<Range>, sent: bool): Assignment
  {
    if i < |pieces| then
      if sent then Dispatched(worker, pieces[i]) else SendFailed(worker, pieces[i])
    else NoTask(worker)
  }

  /** The i-th worker holds a piece exactly while pieces remain, that piece
      is the i-th, and it is dispatched exactly when the send succeeds. */
  lemma PlannedHoldsPiece(worker: Handle, i: nat, pieces: seq<Range>, sent: bool)
    ensures Planned(worker, i, pieces, sent).worker == worker
    ensures Planned(worker, i, pieces, sent).HasPiece() <==> i < |pieces|
    ensures i < |pieces| ==> Planned(worker, i, pieces, sent).subRange == pieces[i]
    ensures Planned(worker, i, pieces, sent).Dispatched? <==> i < |pieces| && sent
  {
  }

  /** How many assignments reached their worker. */
  function DispatchedCount(assignments: seq<Assignment>): nat
    decreases |assignments|
  {
    if assignments == [] then 0
    else
      var last := assignments[|assignments| - 1];
      DispatchedCount(assignments[..|assignments| - 1]) + (if last.Dispatched? then 1 else 0)
  }

  /** The string the source logs a proxy under. */
  function ProxyString(h: Handle): string
  {
    h.endpoint
  }

  /** The first |assignments| workers were handled as planned. */
  ghost predicate HandledAsPlanned(assignments: seq<Assignment>, workers: seq<Handle>, pieces: seq<Range>, sendOk: Handle -> bool)
  {
    && |assignments| <= |workers|
    && forall j :: 0 <= j < |assignments| ==> assignments[j] == Planned(workers[j], j, pieces, sendOk(workers[j]))
  }

  lemma HandledAsPlannedExtend(assignments: seq<Assignment>, workers: seq<Handle>, pieces: seq<Range>,
                               sendOk: Handle -> bool, next: Assignment)
    requires HandledAsPlanned(assignments, workers, pieces, sendOk)
    requires |assignments| < |workers|
    requires next == Planned(workers[|assignments|], |assignments|, pieces, sendOk(workers[|assignments|]))
    ensures HandledAsPlanned(assignments + [next], workers, pieces, sendOk)
    ensures DispatchedCount(assignments + [next]) == DispatchedCount(assignments) + (if next.Dispatched? then 1 else 0)
  {
    assert (assignments + [next])[..|assignments|] == assignments;
  }

  /** The latch bookkeeping the loop keeps: results untouched, and one
      count down for every handled worker that was not dispatched. */
  ghost predicate CountedDown(r: Controller, c: Controller, handled: int, dispatched: int)
  {
    && r.partialResults == c.partialResults
    && (r.latch.Some? <==> c.latch.Some?)
    && GetJobCompletionLatchCount(r) == Max(0, GetJobCompletionLatchCount(c) - (handled - dispatched))
  }

  /** The inner loop of the source: once the range is used up, every
      remaining selected worker is told to the aggregator as having no task. */
  method MarkRemainingNoTask(workers: seq<Handle>, ghost pieces: seq<Range>, ghost sendOk: Handle -> bool,
                             assignments0: seq<Assignment>, dispatched: nat, ghost c: Controller, r0: Controller)
    returns (assignments: seq<Assignment>, r: Controller)
    requires HandledAsPlanned(assignments0, workers, pieces, sendOk)
    requires |assignments0| >= |pieces|
    requires dispatched == DispatchedCount(assignments0) && dispatched <= |assignments0|
    requires CountedDown(r0, c, |assignments0|, dispatched)
    ensures HandledAsPlanned(assignments, workers, pieces, sendOk) && |assignments| == |workers|
    ensures dispatched == DispatchedCount(assignments)
    ensures CountedDown(r, c, |workers|, dispatched)
  {
    assignments, r := assignments0, r0;
    var j := |assignments0|;
    while j < |workers|
      invariant j == |assignments| && j <= |workers|
      invariant HandledAsPlanned(assignments, workers, pieces, sendOk)
      invariant dispatched == DispatchedCount(assignments)
      invariant CountedDown(r, c, j, dispatched)
    {
      r := HandleWorkerFailureOrNoTask(r, ProxyString(workers[j]));
      HandledAsPlannedExtend(assignments, workers, pieces, sendOk, NoTask(workers[j]));
      assignments := assignments + [NoTask(workers[j])];
      j := j + 1;
    }
  }

  /** The dispatch loop of `findPerfectNumbersInRange`. The pieces are
      those of a chunk of max(1, ceil(T / k)) numbers for T numbers and k
      selected workers; the cursor moves past a piece whether or not its send
      succeeds; once the range is used up the remaining workers get no task.
      Every worker that does not end up dispatched counts the latch down
      once. */
  method DispatchSubRanges(job: Range, workers: seq<Handle>, sendOk: Handle -> bool, c: Controller)
    returns (assignments: seq<Assignment>, dispatched: nat, r: Controller)
    requires job.Count() > 0 && |workers| > 0
    ensures |assignments| == |workers|
    ensures forall i :: 0 <= i < |workers| ==>
              assignments[i]
              == Planned(workers[i], i, Pieces(job.start, job.end, ChunkSize(job.Count(), |workers|)), sendOk(workers[i]))
    ensures dispatched == DispatchedCount(assignments)
    ensures dispatched <= |workers|
    ensures r.partialResults == c.partialResults
    ensures r.latch.Some? <==> c.latch.Some?
    ensures GetJobCompletionLatchCount(r) == Max(0, GetJobCompletionLatchCount(c) - (|workers| - dispatched))
  {
    var chunk := ChunkSize(job.Count(), |workers|);
    ghost var pieces := Pieces(job.start, job.end, chunk);
    PiecesFitWorkers(job.start, job.end, chunk, |workers|);
    var cursor := job.start;
    assignments, dispatched, r := [], 0, c;
    var i := 0;
    while i < |workers|
      invariant i == |assignments| && i <= |workers| && i <= |pieces|
      invariant Pieces(cursor, job.end, chunk) == pieces[i..]
      invariant HandledAsPlanned(assignments, workers, pieces, sendOk)
      invariant dispatched == DispatchedCount(assignments) && dispatched <= i
      invariant CountedDown(r, c, i, dispatched)
    {
      if cursor > job.end {
        assignments, r := MarkRemainingNoTask(workers, pieces, sendOk, assignments, dispatched, c, r);
        break;
      }
      var worker := workers[i];
      var subEnd := Min(job.end, cursor + chunk - 1);
      var subRange := Range(cursor, subEnd);
      assert pieces[i..] == [subRange] + Pieces(subEnd + 1, job.end, chunk);
      assert pieces[i] == subRange && pieces[i + 1..] == pieces[i..][1..];
      var outcome: Assignment;
      if sendOk(worker) {
        outcome := Dispatched(worker, subRange);
        dispatched := dispatched + 1;
      } else {
        r := HandleWorkerFailureOrNoTask(r, ProxyString(worker));
        outcome := SendFailed(worker, subRange);
      }
      HandledAsPlannedExtend(assignments, workers, pieces, sendOk, outcome);
      assignments := assignments + [outcome];
      cursor := subEnd + 1;
      i := i + 1;
    }
  }

  /** When every send succeeds, every piece is dispatched. */
  lemma {:induction false} AllSentDispatchesEveryPiece(assignments: seq<Assignment>, workers: seq<Handle>,
                                                       pieces: seq<Range>, sendOk: Handle -> bool, n: nat)
    requires |assignments| == |workers| && n <= |workers|
    requires forall i :: 0 <= i < |workers| ==> assignments[i] == Planned(workers[i], i, pieces, sendOk(workers[i]))
    requires forall h :: h in workers ==> sendOk(h)
    ensures DispatchedCount(assignments[..n]) == Min(n, |pieces|)
    decreases n
  {
    if n > 0 {
      AllSentDispatchesEveryPiece(assignments, workers, pieces, sendOk, n - 1);
      assert assignments[..n][..n - 1] == assignments[..n - 1];
      assert sendOk(workers[n - 1]);
    }
  }

  /** The status the requester is told. */
  datatype Status =
    | NoWorkersAvailable
    | InvalidRange
    | NothingDispatched
    | NoLiveWorkers
    | Completed(participants: nat)
    | TimedOut

  /** The text the notifier receives for each status. */
  function StatusMessage(s: Status): (m: string)
    ensures s.Completed? ==> |m| > 44 && m[20..|m| - 24] == NatToString(s.participants)
  {
    match s
    case NoWorkersAvailable => "No hay workers activos disponibles."
    case InvalidRange => "Rango inválido."
    case NothingDispatched => "No se pudieron despachar tareas a ningún worker."
    // The two longest texts are written as two joined literals so that the
    // verifier can see their characters (see FixedMessage); the text is unchanged.
    case NoLiveWorkers => "No hay workers activos " + "para procesar la solicitud."
    case Completed(n) =>
      var m := "Trabajo completado. " + NatToString(n) + " worker(s) participaron.";
      assert m[20..|m| - 24] == NatToString(n);
      m
    case TimedOut => "Trabajo finalizado (timeout o errores). " + "Algunos workers podrían no haber respondido."
  }

  /** The requester can tell every outcome apart from its text alone,
      including how many workers took part. */
  lemma StatusMessagesDistinct(a: Status, b: Status)
    requires StatusMessage(a) == StatusMessage(b)
    ensures a == b
  {
    if a.Completed? && b.Completed? {
      var m := StatusMessage(a);
      assert NatToString(a.participants) == m[20..|m| - 24] == NatToString(b.participants);
      NatToStringInjective(a.participants, b.participants);
    } else if a.Completed? {
      CompletionMarker(a.participants);
      FixedMessage(b);
    } else if b.Completed? {
      CompletionMarker(b.participants);
      FixedMessage(a);
    } else {
      FixedMessage(a);
      FixedMessage(b);
    }
  }

  /** The completion text has 'c' (of "completado") at position 8. */
  lemma CompletionMarker(n: nat)
    ensures |StatusMessage(Completed(n))| > 8 && StatusMessage(Completed(n))[8] == 'c'
  {
    var m := StatusMessage(Completed(n));
    assert m[..20] == "Trabajo completado. ";
  }

  /** Each fixed text has its own length and no 'c' at position 8. */
  lemma FixedMessage(s: Status)
    requires !s.Completed?
    ensures |StatusMessage(s)| == FixedLength(s) && StatusMessage(s)[8] != 'c'
  {
    var m := StatusMessage(s);
    match s
    case NoWorkersAvailable =>
      TextFacts("No hay workers activos disponibles.", "", 'o');
      assert m == "No hay workers activos disponibles." + "";
    case InvalidRange =>
      TextFacts("Rango inválido.", "", 'v');
      assert m == "Rango inválido." + "";
    case NothingDispatched =>
      TextFacts("No se pudieron despachar tareas a ningún worker.", "", 'd');
      assert m == "No se pudieron despachar tareas a ningún worker." + "";
    case NoLiveWorkers =>
      TextFacts("No hay workers activos ", "para procesar la solicitud.", 'o');
      assert m == "No hay workers activos " + "para procesar la solicitud.";
    case TimedOut =>
      TextFacts("Trabajo finalizado (timeout o errores). ", "Algunos workers podrían no haber respondido.", 'f');
      assert m == "Trabajo finalizado (timeout o errores). " + "Algunos workers podrían no haber respondido.";
  }

  /** Position 8 of a joined text lies in its first part. */
  lemma TextFacts(m1: string, m2: string, c: char)
    requires |m1| > 8 && m1[8] == c
    ensures |m1 + m2| == |m1| + |m2| && (m1 + m2)[8] == c
  {
  }

  function FixedLength(s: Status): nat
  {
    match s
    case NoWorkersAvailable => 35
    case InvalidRange => 15
    case NothingDispatched => 48
    case NoLiveWorkers => 50
    case Completed(_) => 0
    case TimedOut => 84
  }

  /** The rule the background thread applies once the wait is over. */
  function ChooseStatus(dispatched: nat, selected: nat, completed: bool): (s: Status)
    ensures selected > 0 ==> (s == NothingDispatched <==> dispatched == 0)
    ensures selected > 0 && dispatched > 0 ==> (s == Completed(dispatched) <==> completed)
    ensures selected > 0 && dispatched > 0 ==> (s == TimedOut <==> !completed)
    ensures s == NoLiveWorkers <==> selected == 0
  {
    if dispatched == 0 && selected > 0 then NothingDispatched
    else if selected == 0 then NoLiveWorkers
    else if completed then Completed(dispatched)
    else TimedOut
  }

  /** What the requester's notifier receives (the elapsed time is left out). */
  datatype Notification = Notification(range: Range, numbers: seq<int>, status: Status)

  /** Everything a job request leaves behind: the registry after the
      selection sweep, the aggregator after the wait, what the loop did, the
      latch count the background thread started waiting on, and the
      notification, if any was sent. */
  datatype JobOutcome = JobOutcome(
    registry: seq<Handle>,
    controller: Controller,
    assignments: seq<Assignment>,
    awaitedCount: nat,
    notification: Option<Notification>)

  /** What a job that passed both early exits leaves behind: `workers` got
      their pieces as planned, the background thread waited on one count
      per dispatched worker, the aggregator then saw `arrivals`, and the
      requester is told the sorted union of the stored results with the
      status the wait decided. */
  ghost predicate JobCompletedAsPlanned(
      job: Range, workers: seq<Handle>, sendOk: Handle -> bool, arrivals: seq<Event>,
      assignments: seq<Assignment>, awaitedCount: nat, controller: Controller, note: Notification)
    requires job.Count() > 0 && |workers| > 0
  {
    var pieces := Pieces(job.start, job.end, ChunkSize(job.Count(), |workers|));
    && |assignments| == |workers|
    && (forall i :: 0 <= i < |workers| ==> assignments[i] == Planned(workers[i], i, pieces, sendOk(workers[i])))
    && awaitedCount == DispatchedCount(assignments)
    && controller == Run(Controller(Some(awaitedCount), map[]), arrivals)
    && note.range == job
    && note.status == (if awaitedCount == 0 then NothingDispatched
                       else if awaitedCount <= |arrivals| then Completed(awaitedCount)
                       else TimedOut)
    && Sorted(note.numbers)
    && multiset(note.numbers) == AllNumbers(controller.partialResults)
  }

  /** The part of `findPerfectNumbersInRange` after both early exits: the
      dispatch loop, the reset when nothing was dispatched, and the
      background wait, merge and status choice. `c` is the aggregator just
      reset for |workers| responses. */
  method DispatchAndCollect(job: Range, workers: seq<Handle>, sendOk: Handle -> bool, c: Controller, arrivals: seq<Event>)
    returns (assignments: seq<Assignment>, awaited: nat, ctrl: Controller, note: Notification)
    requires job.Count() > 0 && |workers| > 0
    requires c == Controller(Some(|workers|), map[])
    ensures JobCompletedAsPlanned(job, workers, sendOk, arrivals, assignments, awaited, ctrl, note)
  {
    var dispatched, afterLoop;
    assignments, dispatched, afterLoop := DispatchSubRanges(job, workers, sendOk, c);
    ctrl := afterLoop;
    if dispatched == 0 && workers != [] {
      ctrl := ResetForNewJob(ctrl, 0);
    }
    assert ctrl == Controller(Some(dispatched), map[]);
    awaited := GetJobCompletionLatchCount(ctrl);
    var completed := AwaitJobCompletion(ctrl, arrivals);
    ctrl := Run(ctrl, arrivals);
    var numbers := GetAllFoundPerfectNumbers(ctrl);
    var status := ChooseStatus(dispatched, |workers|, completed);
    note := Notification(job, numbers, status);
  }

  /** `findPerfectNumbersInRange`. `arrivals` are the aggregator calls that
      come in, after the dispatch loop, before the waiting thread stops. */
  method FindPerfectNumbersInRange(
      registry: seq<Handle>, alive: Handle -> bool, job: Range, hasNotifier: bool, requested: int,
      sendOk: Handle -> bool, c: Controller, arrivals: seq<Event>)
    returns (out: JobOutcome)
    // A null notifier: nothing happens.
    ensures !hasNotifier ==> out == JobOutcome(registry, c, [], 0, None)
    ensures hasNotifier ==> out.registry == PruneDead(registry, alive)
    ensures hasNotifier ==> out.notification.Some? && out.notification.value.range == job
    // No live worker: an empty answer at once, the aggregator untouched.
    ensures hasNotifier && (forall h :: h in registry ==> !alive(h)) ==>
              out.controller == c && out.assignments == []
              && out.notification.value == Notification(job, [], NoWorkersAvailable)
    // A live worker but an empty range: an empty answer, the latch reset to 0.
    ensures hasNotifier && (exists h :: h in registry && alive(h)) && job.Count() <= 0 ==>
              out.controller == Controller(Some(0), map[]) && out.assignments == []
              && out.notification.value == Notification(job, [], InvalidRange)
    // A real job, over the workers the selection picked.
    ensures hasNotifier && (exists h :: h in registry && alive(h)) && job.Count() > 0 ==>
              var selected := SelectWorkersForTask(registry, requested, alive).selected;
              && |selected| > 0
              && JobCompletedAsPlanned(job, selected, sendOk, arrivals, out.assignments,
                                       out.awaitedCount, out.controller, out.notification.value)
  {
    if !hasNotifier {
      return JobOutcome(registry, c, [], 0, None);
    }
    var selection := SelectWorkersForTask(registry, requested, alive);
    var workers := selection.selected;
    if workers == [] {
      return JobOutcome(selection.registry, c, [], 0, Some(Notification(job, [], NoWorkersAvailable)));
    }
    var ctrl := ResetForNewJob(c, |workers|);
    var total := job.end - job.start + 1;
    if total <= 0 {
      ctrl := ResetForNewJob(ctrl, 0);
      return JobOutcome(selection.registry, ctrl, [], 0, Some(Notification(job, [], InvalidRange)));
    }
    var assignments, awaited, note;
    assignments, awaited, ctrl, note := DispatchAndCollect(job, workers, sendOk, ctrl, arrivals);
    out := JobOutcome(selection.registry, ctrl, assignments, awaited, Some(note));
  }

  /** A job whose every send succeeds and whose every piece is answered
      correctly reports exactly the perfect numbers of its range, in
      ascending order, as completed by one worker per piece. */
  lemma CorrectAnswersReportAllPerfects(
      job: Range, workers: seq<Handle>, sendOk: Handle -> bool, arrivals: seq<Event>, owner: seq<nat>,
      assignments: seq<Assignment>, awaitedCount: nat, controller: Controller, note: Notification)
    requires job.Count() > 0 && |workers| > 0
    requires JobCompletedAsPlanned(job, workers, sendOk, arrivals, assignments, awaitedCount, controller, note)
    requires forall h :: h in workers ==> sendOk(h)
    requires AnswersEveryPiece(arrivals, Pieces(job.start, job.end, ChunkSize(job.Count(), |workers|)), owner)
    ensures forall x :: x in note.numbers <==> job.Contains(x) && Perfect(x)
    ensures StrictlyAscending(note.numbers)
    ensures note.status == Completed(|Pieces(job.start, job.end, ChunkSize(job.Count(), |workers|))|)
  {
    var chunk := ChunkSize(job.Count(), |workers|);
    var pieces := Pieces(job.start, job.end, chunk);
    PiecesFitWorkers(job.start, job.end, chunk, |workers|);
    AllSentDispatchesEveryPiece(assignments, workers, pieces, sendOk, |workers|);
    assert assignments[..|workers|] == assignments;
    MergeOfCorrectAnswers(job, chunk, Controller(Some(awaitedCount), map[]), arrivals, owner, note.numbers);
  }
}
