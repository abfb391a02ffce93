/** What the merged answer of a job is when every piece's worker answers
    correctly: the perfect numbers of the whole job range, each once, in
    ascending order. This is the contract between the partitioner, the
    worker's range scan and the aggregator's merge. */
module JobResults {
  import opened Sorting
  import opened Partition
  import opened MasterController
  import opened WorkerUtils

  /** What a correct worker submits for `piece`: each perfect number of the
      piece once, ascending (the contract of the range scan). */
  ghost predicate ReportsPerfectsOf(numbers: seq<int>, piece: Range)
  {
    && StrictlyAscending(numbers)
    && forall x :: x in numbers <==> piece.Contains(x) && Perfect(x)
  }

  /** The worker's task: scan the piece and submit what it found under the
      task id the master gave it. The submission is a correct answer. */
  method WorkerAnswer(piece: Range, workerJobId: string, processingTime: int) returns (e: Event)
    ensures e.Submitted? && e.workerId == workerJobId && e.processingTime == processingTime
    ensures ReportsPerfectsOf(e.numbers, piece)
  {
    var ns := GetPerfectNumbersInRange(piece.start, piece.end);
    e := Event.Submitted(workerJobId, ns, processingTime);
  }

  /** Every arrival is a submission; `owner[j]` is the piece arrival j
      answers, each piece is answered exactly once, correctly, and the
      per-worker task ids are pairwise distinct. */
  ghost predicate AnswersEveryPiece(arrivals: seq<Event>, pieces: seq<Range>, owner: seq<nat>)
  {
    && |arrivals| == |pieces|
    && |owner| == |arrivals|
    && (forall j :: 0 <= j < |arrivals| ==> owner[j] < |pieces|)
    && (forall j :: 0 <= j < |arrivals| ==> arrivals[j].Submitted?)
    && (forall j :: 0 <= j < |arrivals| ==> ReportsPerfectsOf(arrivals[j].numbers, pieces[owner[j]]))
    && (forall i, j :: 0 <= i < j < |arrivals| ==> owner[i] != owner[j])
    && (forall p :: 0 <= p < |pieces| ==> p in owner)
    && (forall i, j :: 0 <= i < j < |arrivals| ==> arrivals[i].workerId != arrivals[j].workerId)
  }

  /** The numbers carried by the submissions among `events`, with multiplicity. */
  ghost function Submitted(events: seq<Event>): multiset<int>
    decreases |events|
  {
    if events == [] then multiset{}
    else
      var last := events[|events| - 1];
      Submitted(events[..|events| - 1]) + (if last.Submitted? then multiset(last.numbers) else multiset{})
  }

  ghost function TaskIds(events: seq<Event>): set<string>
  {
    set j | 0 <= j < |events| :: events[j].workerId
  }

  /** Submissions under fresh ids, starting from no results, leave exactly
      their numbers in the aggregator. */
  lemma {:induction false} FreshSubmissionsCollected(c: Controller, events: seq<Event>)
    requires c.partialResults == map[]
    requires forall j :: 0 <= j < |events| ==> events[j].Submitted?
    requires forall i, j :: 0 <= i < j < |events| ==> events[i].workerId != events[j].workerId
    ensures Run(c, events).partialResults.Keys == TaskIds(events)
    ensures AllNumbers(Run(c, events).partialResults) == Submitted(events)
    decreases |events|
  {
    if events == [] {
      assert TaskIds(events) == {};
    } else {
      var init := events[..|events| - 1];
      var last := events[|events| - 1];
      FreshSubmissionsCollected(c, init);
      var before := Run(c, init);
      RunLast(c, events);
      TaskIdsLast(events);
      assert last.workerId !in TaskIds(init);
      SubmitFresh(before, last);
    }
  }

  /** A submission under an id not yet stored adds its numbers to the
      collection and its id to the keys. */
  lemma SubmitFresh(before: Controller, e: Event)
    requires e.Submitted? && e.workerId !in before.partialResults
    ensures Apply(before, e).partialResults.Keys == before.partialResults.Keys + {e.workerId}
    ensures AllNumbers(Apply(before, e).partialResults) == AllNumbers(before.partialResults) + multiset(e.numbers)
  {
    var after := Apply(before, e).partialResults;
    AllNumbersRemove(after, e.workerId);
    assert after - {e.workerId} == before.partialResults;
  }

  lemma RunLast(c: Controller, events: seq<Event>)
    requires events != []
    ensures Run(c, events) == Apply(Run(c, events[..|events| - 1]), events[|events| - 1])
  {
    var init := events[..|events| - 1];
    var last := events[|events| - 1];
    assert events == init + [last];
    RunAppend(c, init, [last]);
    assert Run(Apply(Run(c, init), last), []) == Apply(Run(c, init), last);
  }

  lemma TaskIdsLast(events: seq<Event>)
    requires events != []
    ensures TaskIds(events) == TaskIds(events[..|events| - 1]) + {events[|events| - 1].workerId}
  {
    var init := events[..|events| - 1];
    forall id | id in TaskIds(events)
      ensures id in TaskIds(init) + {events[|events| - 1].workerId}
    {
      var j :| 0 <= j < |events| && events[j].workerId == id;
      if j < |init| { assert init[j] == events[j]; }
    }
    forall id | id in TaskIds(init)
      ensures id in TaskIds(events)
    {
      var j :| 0 <= j < |init| && init[j].workerId == id;
      assert events[j] == init[j];
    }
  }

  /** A number is among the submitted ones iff some submission carries it. */
  lemma {:induction false} SubmittedMembership(events: seq<Event>, x: int)
    ensures x in Submitted(events)
        <==> exists j :: 0 <= j < |events| && events[j].Submitted? && x in events[j].numbers
    decreases |events|
  {
    if events != [] {
      var init := events[..|events| - 1];
      SubmittedMembership(init, x);
      assert forall j :: 0 <= j < |init| ==> init[j] == events[j];
    }
  }

  /** A strictly ascending sequence holds each value at most once. */
  lemma {:induction false} StrictHasNoDuplicates(s: seq<int>, x: int)
    requires StrictlyAscending(s)
    ensures multiset(s)[x] <= 1
    decreases |s|
  {
    if s != [] {
      assert s == [s[0]] + s[1..];
      StrictHasNoDuplicates(s[1..], x);
      if x == s[0] {
        assert x !in s[1..];
      }
    }
  }

  /** Two different pieces of a tiling share no number. */
  lemma PiecesShareNothing(ps: seq<Range>, start: int, end: int, chunk: int, p: nat, q: nat, x: int)
    requires Tiles(ps, start, end, chunk)
    requires p < |ps| && q < |ps| && p != q
    requires ps[p].Contains(x)
    ensures !ps[q].Contains(x)
  {
    if p < q {
      TilesDisjoint(ps, start, end, chunk, p, q);
    } else {
      TilesDisjoint(ps, start, end, chunk, q, p);
    }
  }

  /** With pairwise different pieces, no number is submitted twice. */
  lemma {:induction false} SubmittedOnce(events: seq<Event>, pieces: seq<Range>, owner: seq<nat>,
                                         start: int, end: int, chunk: int, x: int)
    requires Tiles(pieces, start, end, chunk)
    requires |owner| == |events|
    requires forall j :: 0 <= j < |events| ==> owner[j] < |pieces|
    requires forall j :: 0 <= j < |events| ==> events[j].Submitted?
    requires forall j :: 0 <= j < |events| ==> ReportsPerfectsOf(events[j].numbers, pieces[owner[j]])
    requires forall i, j :: 0 <= i < j < |events| ==> owner[i] != owner[j]
    ensures Submitted(events)[x] <= 1
    decreases |events|
  {
    if events != [] {
      var n := |events| - 1;
      var init := events[..n];
      SubmittedOnce(init, pieces, owner[..n], start, end, chunk, x);
      StrictHasNoDuplicates(events[n].numbers, x);
      if x in events[n].numbers {
        SubmittedMembership(init, x);
        if x in Submitted(init) {
          var j :| 0 <= j < |init| && init[j].Submitted? && x in init[j].numbers;
          assert events[j] == init[j];
          PiecesShareNothing(pieces, start, end, chunk, owner[n], owner[j], x);
        }
      }
    }
  }

  /** The merged answer of a job whose pieces were all answered correctly
      holds exactly the perfect numbers of the job range, ascending and each
      once, whatever order the answers came in. */
  lemma MergeOfCorrectAnswers(job: Range, chunk: int, c: Controller, arrivals: seq<Event>,
                              owner: seq<nat>, merged: seq<int>)
    requires job.Count() > 0 && chunk >= 1
    requires c.partialResults == map[]
    requires AnswersEveryPiece(arrivals, Pieces(job.start, job.end, chunk), owner)
    requires Sorted(merged) && multiset(merged) == AllNumbers(Run(c, arrivals).partialResults)
    ensures forall x :: x in merged <==> job.Contains(x) && Perfect(x)
    ensures StrictlyAscending(merged)
  {
    var pieces := Pieces(job.start, job.end, chunk);
    PiecesTile(job.start, job.end, chunk);
    FreshSubmissionsCollected(c, arrivals);
    forall x
      ensures x in merged <==> job.Contains(x) && Perfect(x)
    {
      SubmittedMembership(arrivals, x);
      if job.Contains(x) && Perfect(x) {
        TilesCover(pieces, job.start, job.end, chunk, x);
        var p :| 0 <= p < |pieces| && pieces[p].Contains(x);
        assert p in owner;
        var j :| 0 <= j < |arrivals| && owner[j] == p;
        assert x in arrivals[j].numbers;
      }
      if x in merged {
        assert x in multiset(merged);
        var j :| 0 <= j < |arrivals| && arrivals[j].Submitted? && x in arrivals[j].numbers;
        assert pieces[owner[j]].Contains(x);
      }
    }
    forall x
      ensures multiset(merged)[x] <= 1
    {
      SubmittedOnce(arrivals, pieces, owner, job.start, job.end, chunk, x);
    }
    SortedDistinctIsStrict(merged);
  }
}
