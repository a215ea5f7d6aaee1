/** When an aggregated EOSE fires, read off the steps of a run: what relays did, and what the
    pool's user asked for. */
module PoolAnswers {
  import opened Pool

  /** The step counts as the relay's answer for an id: its EOSE on the id's wire subscription, or
      its leaving `connected`. An empty id is none of ours. */
  predicate Answers(step: Step, id: string, url: string)
  {
    (id != "" && step == RelayEose(url, WireSubId(id))) || step == ConnectionState(url, false)
  }

  /** The step ends an opening of the id: a close, a reuse or a stop. */
  predicate Ends(step: Step, id: string)
  {
    step == Step.Stop || step == Close(id) || (step.Open? && step.id == id)
  }

  ghost predicate Unbroken(steps: seq<Step>, id: string)
  {
    forall step | step in steps :: !Ends(step, id)
  }

  lemma UnbrokenParts(steps: seq<Step>, id: string)
    requires steps != [] && Unbroken(steps, id)
    ensures steps == steps[..|steps| - 1] + [steps[|steps| - 1]]
    ensures Unbroken(steps[..|steps| - 1], id) && !Ends(steps[|steps| - 1], id)
  {
  }

  ghost function Answered(steps: seq<Step>, id: string, connected: set<string>): set<string>
  {
    set url | url in connected && exists step | step in steps :: Answers(step, id, url)
  }

  /** Opening `r` is one of this id, running its course. */
  ghost predicate Runs(s: State, r: nat, id: string)
  {
    Inv(s) && !s.stopped && r < |s.openings| && s.openings[r].id == id && !s.openings[r].status.Dropped?
  }

  /** One step on: a live opening's relay goes when it answers; a fired one stands still. */
  ghost predicate MovesOn(o: Opening, after: Opening, step: Step, id: string)
  {
    && after.id == o.id && after.snapshot == o.snapshot && !after.status.Dropped?
    && (o.status.Fired? ==> after == o)
    && (o.status.Live? ==> forall url :: url in after.gone <==> url in o.gone || Answers(step, id, url))
  }

  /** The ids waiting are told apart by their openings. */
  lemma OtherIds(s: State, r: nat, id: string, other: string)
    requires Runs(s, r, id) && other in s.pending
    ensures s.pending[other] == r ==> other == id && s.openings[r].status.Live?
  {
    assert OpeningOk(s, r) && OpeningOk(s, s.pending[other]);
  }

  lemma LiveIsPending(s: State, r: nat, id: string)
    requires Runs(s, r, id)
    ensures s.openings[r].status.Live? <==> id in s.pending && s.pending[id] == r
  {
    assert OpeningOk(s, r);
  }

  lemma OpeningMoves(s: State, other: string, hasFilters: bool, connected: set<string>, r: nat, id: string)
    requires Runs(s, r, id) && other != id
    ensures r < |Opened(s, other, hasFilters, connected).openings|
    ensures Opened(s, other, hasFilters, connected).openings[r] == s.openings[r]
    ensures Closed(s, other).openings[r] == s.openings[r]
  {
    if other in s.pending {
      OtherIds(s, r, id, other);
    }
  }

  lemma AnswerMoves(s: State, url: string, wire: string, r: nat, id: string)
    requires Runs(s, r, id)
    ensures MovesOn(s.openings[r], RelayAnswered(s, url, wire).openings[r], RelayEose(url, wire), id)
  {
    LiveIsPending(s, r, id);
    WireIdReverses(id, wire);
    match FromWireSubId(wire)
    case None =>
    case Some(other) =>
      if other in s.pending {
        OtherIds(s, r, id, other);
      }
  }

  lemma LeavingMoves(s: State, url: string, r: nat, id: string)
    requires Runs(s, r, id)
    ensures r < |RelayLeft(s, url).openings|
    ensures MovesOn(s.openings[r], RelayLeft(s, url).openings[r], ConnectionState(url, false), id)
  {
    WhoIsLive(s, r);
    WhoIsDone(s, r, url);
  }

  lemma MicrotaskMoves(s: State, r: nat, id: string)
    requires Runs(s, r, id) && s.micro != []
    ensures MovesOn(s.openings[r], MicrotaskRan(s).openings[r], Microtask, id)
  {
    LiveIsPending(s, r, id);
    if s.openings[s.micro[0]].id in s.pending {
      OtherIds(s, r, id, s.openings[s.micro[0]].id);
    }
  }

  lemma StepMoves(s: State, step: Step, r: nat, id: string)
    requires Runs(s, r, id) && !Ends(step, id)
    ensures Runs(Next(s, step), r, id) && MovesOn(s.openings[r], Next(s, step).openings[r], step, id)
  {
    StepKeepsInv(s, step);
    match step
    case Open(other, hasFilters, connected) => OpeningMoves(s, other, hasFilters, connected, r, id);
    case Close(other) => OpeningMoves(s, other, false, {}, r, id);
    case RelayEose(url, wire) => AnswerMoves(s, url, wire, r, id);
    case ConnectionState(url, up) =>
      if !up {
        LeavingMoves(s, url, r, id);
      }
    case Microtask =>
      if s.micro != [] {
        MicrotaskMoves(s, r, id);
      }
    case Start =>
  }

  lemma Opens(s: State, id: string, hasFilters: bool, connected: set<string>)
    requires Inv(s) && !s.stopped
    ensures var after := Next(s, Open(id, hasFilters, connected));
            && Runs(after, |s.openings|, id) && after.fired[|s.openings|] == 0
            && after.openings[|s.openings|] == Opening(id, if hasFilters then connected else {}, {}, Live)
  {
    OpenedKeepsInv(s, id, hasFilters, connected);
    assert OpeningOk(Next(s, Open(id, hasFilters, connected)), |s.openings|);
  }

  /** What an opening has seen of a run: a live one exactly the answers, a fired one all of them. */
  ghost predicate Tracks(o: Opening, connected: set<string>, answered: set<string>)
  {
    o.snapshot == connected && if o.status.Fired? then connected <= answered else o.gone * connected == answered
  }

  lemma TracksOneMore(s: State, step: Step, r: nat, id: string, connected: set<string>, steps: seq<Step>)
    requires Runs(s, r, id) && !Ends(step, id) && connected != {}
    requires Tracks(s.openings[r], connected, Answered(steps, id, connected))
    ensures Runs(Next(s, step), r, id)
    ensures Tracks(Next(s, step).openings[r], connected, Answered(steps + [step], id, connected))
  {
    StepMoves(s, step, r, id);
    AnsweredOneMore(steps, step, id, connected);
    assert OpeningOk(Next(s, step), r);
  }

  lemma AnsweredOneMore(steps: seq<Step>, step: Step, id: string, connected: set<string>)
    ensures Answered(steps + [step], id, connected)
         == Answered(steps, id, connected) + (set url | url in connected && Answers(step, id, url))
  {
    assert forall x :: x in steps + [step] <==> x in steps || x == step;
  }

  lemma {:induction false} RunTracks(s: State, id: string, connected: set<string>, steps: seq<Step>)
    requires Inv(s) && !s.stopped && connected != {} && Unbroken(steps, id)
    ensures var begun := Next(s, Open(id, true, connected));
            && Inv(begun) && Runs(After(begun, steps), |s.openings|, id)
            && Tracks(After(begun, steps).openings[|s.openings|], connected, Answered(steps, id, connected))
    decreases |steps|
  {
    Opens(s, id, true, connected);
    if steps != [] {
      var front, last := steps[..|steps| - 1], steps[|steps| - 1];
      UnbrokenParts(steps, id);
      RunTracks(s, id, connected, front);
      TracksOneMore(After(Next(s, Open(id, true, connected)), front), last, |s.openings|, id, connected, front);
    }
  }

  /** In every run: from its opening on a running pool with some relays connected, until a close, a
      reuse or a stop, the aggregated EOSE has fired if and only if each of those relays has since
      sent EOSE for it or left `connected`. */
  lemma FiresWhenAllAnswered(s: State, id: string, connected: set<string>, steps: seq<Step>, end: State)
    requires Reachable(s) && !s.stopped && connected != {} && Unbroken(steps, id)
    requires Inv(Next(s, Open(id, true, connected))) && end == After(Next(s, Open(id, true, connected)), steps)
    ensures end.fired[|s.openings|] == 1
            <==> forall url | url in connected :: exists step | step in steps :: Answers(step, id, url)
  {
    RunTracks(s, id, connected, steps);
    assert OpeningOk(end, |s.openings|);
    assert forall url | url in connected :: url in Answered(steps, id, connected) <==> exists step | step in steps :: Answers(step, id, url);
  }

  // ---- nobody to wait for

  ghost function Microtasks(steps: seq<Step>): nat
  {
    if steps == [] then 0 else
      Microtasks(steps[..|steps| - 1]) + (if steps[|steps| - 1].Microtask? then 1 else 0)
  }

  /** Until it runs, an opening's own guard moves up in the queue. */
  ghost predicate Queued(s: State, r: nat, left: int)
  {
    r < |s.openings| && (s.openings[r].status.Fired? || (0 <= left < |s.micro| && s.micro[left] == r))
  }

  lemma QueuedOneMore(s: State, step: Step, r: nat, id: string, left: int, after: State, now: int)
    requires Runs(s, r, id) && !Ends(step, id) && Queued(s, r, left)
    requires after == Next(s, step) && now == (if step.Microtask? then left - 1 else left)
    ensures Queued(after, r, now)
  {
    StepMoves(s, step, r, id);
    LiveIsPending(s, r, id);
  }

  lemma {:induction false} RunRuns(s: State, steps: seq<Step>, r: nat, id: string)
    requires Runs(s, r, id) && Unbroken(steps, id)
    ensures Runs(After(s, steps), r, id)
    decreases |steps|
  {
    if steps != [] {
      var front, last := steps[..|steps| - 1], steps[|steps| - 1];
      UnbrokenParts(steps, id);
      RunRuns(s, front, r, id);
      StepMoves(After(s, front), last, r, id);
    }
  }

  lemma OneMoreStep(begun: State, front: seq<Step>, last: Step)
    requires Inv(begun)
    ensures After(begun, front + [last]) == Next(After(begun, front), last)
    ensures Microtasks(front + [last]) == Microtasks(front) + (if last.Microtask? then 1 else 0)
  {
    assert (front + [last])[..|front|] == front;
  }

  lemma {:induction false} RunQueues(begun: State, steps: seq<Step>, r: nat, id: string, left: int, end: State, now: int)
    requires Runs(begun, r, id) && Queued(begun, r, left) && Unbroken(steps, id)
    requires end == After(begun, steps) && now == left - Microtasks(steps)
    ensures Queued(end, r, now)
    decreases |steps|
  {
    if steps != [] {
      var front, last := steps[..|steps| - 1], steps[|steps| - 1];
      UnbrokenParts(steps, id);
      var before, then' := After(begun, front), left - Microtasks(front);
      RunQueues(begun, front, r, id, left, before, then');
      RunRuns(begun, front, r, id);
      OneMoreStep(begun, front, last);
      QueuedOneMore(before, last, r, id, then', end, now);
    }
  }

  /** In every run: with nobody to wait for, the EOSE does not fire on opening, and has fired once
      every microtask queued up to then has run. */
  lemma FiresOnItsMicrotask(s: State, id: string, hasFilters: bool, connected: set<string>, steps: seq<Step>, end: State)
    requires Reachable(s) && !s.stopped && (!hasFilters || connected == {}) && Unbroken(steps, id)
    requires Inv(Next(s, Open(id, hasFilters, connected)))
    requires end == After(Next(s, Open(id, hasFilters, connected)), steps) && Microtasks(steps) > |s.micro|
    ensures Next(s, Open(id, hasFilters, connected)).fired[|s.openings|] == 0 && end.fired[|s.openings|] == 1
  {
    Opens(s, id, hasFilters, connected);
    RunQueues(Next(s, Open(id, hasFilters, connected)), steps, |s.openings|, id, |s.micro|, end, |s.micro| - Microtasks(steps));
    RunRuns(Next(s, Open(id, hasFilters, connected)), steps, |s.openings|, id);
    assert OpeningOk(end, |s.openings|);
  }

  // ---- ended openings

  lemma EndsDrop(s: State, step: Step, r: nat, id: string)
    requires Inv(s) && r < |s.openings| && s.openings[r].id == id && s.fired[r] == 0
    requires Ends(step, id) && (step.Open? ==> !s.stopped)
    ensures Inv(Next(s, step)) && r < |Next(s, step).openings| && Next(s, step).openings[r].status.Dropped?
  {
    StepKeepsInv(s, step);
    assert OpeningOk(s, r);
    WhoIsLive(s, r);
    if id in s.pending {
      assert OpeningOk(s, s.pending[id]);
    }
  }

  /** In every run: an opening that has not fired by the time its id is closed, reused on a running
      pool, or the pool is stopped, never fires. */
  lemma EndedNeverFires(s: State, id: string, hasFilters: bool, connected: set<string>, steps: seq<Step>, last: Step,
                        more: seq<Step>, before: State)
    requires Reachable(s) && !s.stopped && Unbroken(steps, id) && Ends(last, id)
    requires Inv(Next(s, Open(id, hasFilters, connected)))
    requires before == After(Next(s, Open(id, hasFilters, connected)), steps) && before.fired[|s.openings|] == 0
    ensures Inv(Next(before, last)) && After(Next(before, last), more).fired[|s.openings|] == 0
  {
    Opens(s, id, hasFilters, connected);
    RunRuns(Next(s, Open(id, hasFilters, connected)), steps, |s.openings|, id);
    EndsDrop(before, last, |s.openings|, id);
    DroppedNeverFires(Next(before, last), more, |s.openings|);
  }

  lemma StaysSubscribed(s: State, step: Step, id: string)
    requires Inv(s) && !s.stopped && id in s.subscriptions && !Ends(step, id)
    ensures id in Next(s, step).subscriptions && !Next(s, step).stopped
  {
  }

  lemma {:induction false} RunStaysSubscribed(begun: State, steps: seq<Step>, id: string)
    requires Inv(begun) && !begun.stopped && id in begun.subscriptions && Unbroken(steps, id)
    ensures id in After(begun, steps).subscriptions && !After(begun, steps).stopped
    decreases |steps|
  {
    if steps != [] {
      var front, last := steps[..|steps| - 1], steps[|steps| - 1];
      UnbrokenParts(steps, id);
      RunStaysSubscribed(begun, front, id);
      StaysSubscribed(After(begun, front), last, id);
    }
  }

  /** In every run: an id opened with filters is subscribed to until it is closed, reused or the
      pool stops; a close, a stop and a reuse without filters end that. */
  lemma SubscribedWhileOpen(s: State, id: string, connected: set<string>, steps: seq<Step>, end: State)
    requires Reachable(s) && !s.stopped && Unbroken(steps, id)
    requires Inv(Next(s, Open(id, true, connected))) && end == After(Next(s, Open(id, true, connected)), steps)
    ensures id in end.subscriptions
    ensures id !in Next(end, Close(id)).subscriptions && id !in Next(end, Step.Stop).subscriptions
    ensures id !in Next(end, Open(id, false, connected)).subscriptions
  {
    RunStaysSubscribed(Next(s, Open(id, true, connected)), steps, id);
    EndsSubscription(end, id, connected);
  }

  lemma EndsSubscription(s: State, id: string, connected: set<string>)
    requires Inv(s) && !s.stopped
    ensures id !in Next(s, Close(id)).subscriptions && id !in Next(s, Step.Stop).subscriptions
    ensures id !in Next(s, Open(id, false, connected)).subscriptions
  {
  }
}
