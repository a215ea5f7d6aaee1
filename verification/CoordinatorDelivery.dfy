/** What does go out: accepted ingests and released EOSEs, read off runs of the coordinator. */
module CoordinatorDelivery {
  import opened Order
  import opened Events
  import opened Coordinator
  import opened CoordinatorInvariant
  import opened CoordinatorRuns
  import opened CoordinatorTheorems

  // ---- what runs keep of a subscription

  lemma PersistsOn(a: Sub, b: Sub, c: Sub)
    requires Persists(a, b) && Persists(b, c)
    ensures Persists(a, c)
  {
  }

  /** A run keeps the invariant, what went out, and each subscription's links. */
  lemma {:induction false} RunPersists(s: State, steps: seq<Step>, n: nat)
    requires Inv(s) && n in s.states
    ensures Inv(After(s, steps)) && s.wire <= After(s, steps).wire
    ensures n in After(s, steps).states && Persists(s.states[n], After(s, steps).states[n])
    decreases |steps|
  {
    if steps != [] {
      var before, step := After(s, steps[..|steps| - 1]), steps[|steps| - 1];
      RunPersists(s, steps[..|steps| - 1], n);
      StepKeepsInv(before, step);
      StepPersists(before, step, n);
      StepSendsToListeners(before, step);
      PersistsOn(s.states[n], before.states[n], Next(before, step).states[n]);
      assert s.wire <= before.wire <= Next(before, step).wire;
    }
  }

  // ---- accepted ingests are delivered

  ghost predicate WasDelivered(wire: seq<Sent>, n: nat, e: Event)
  {
    exists i | 0 <= i < |wire| :: wire[i].Delivered? && wire[i].ref == n && wire[i].event == e
  }

  lemma StaysDelivered(wire: seq<Sent>, more: seq<Sent>, n: nat, e: Event)
    requires WasDelivered(wire, n, e) && wire <= more
    ensures WasDelivered(more, n, e)
  {
    var i :| 0 <= i < |wire| && wire[i].Delivered? && wire[i].ref == n && wire[i].event == e;
    assert more[i] == wire[i];
  }

  /** An event arriving for an open subscription that does not know its id becomes its next link. */
  lemma ArrivalIsQueued(s: State, n: nat, e: Event)
    requires Routes(s) && n in s.subs && e.id !in s.states[n].sentIds
    ensures var after := Next(s, UpstreamEvent(n, e));
            n in after.states && after.states[n].chain == s.states[n].chain + [Ingest(e)]
  {
  }

  /** The link's turn: with the id still unknown and the subscription open, its ingest begins. */
  lemma TurnBegins(s: State, n: nat, k: nat, e: Event)
    requires n in s.states && k < |s.states[n].chain| && s.states[n].chain[k] == Ingest(e)
    requires s.states[n].done == k && !s.states[n].busy && !s.states[n].closed && e.id !in s.states[n].sentIds
    ensures var after := Next(s, RunTask(n)); n in after.states && after.states[n].busy && after.states[n].done == k
  {
  }

  lemma SuccessIsSent(s: State, n: nat, k: nat, e: Event)
    requires n in s.states && k < |s.states[n].chain| && s.states[n].chain[k] == Ingest(e)
    requires s.states[n].done == k && s.states[n].busy && !s.states[n].closed
    ensures WasDelivered(Next(s, FinishIngest(n, Ingested(true, false))).wire, n, e)
  {
    var wire := Next(s, FinishIngest(n, Ingested(true, false))).wire;
    assert wire[|s.wire|].Delivered? && wire[|s.wire|].ref == n && wire[|s.wire|].event == e;
  }

  /** The link of an event, from its arrival on. */
  ghost predicate HoldsLink(s: State, n: nat, k: nat, e: Event)
  {
    Inv(s) && n in s.states && k < |s.states[n].chain| && s.states[n].chain[k] == Ingest(e)
  }

  lemma LinkStays(s: State, steps: seq<Step>, n: nat, k: nat, e: Event)
    requires HoldsLink(s, n, k, e)
    ensures HoldsLink(After(s, steps), n, k, e) && Persists(s.states[n], After(s, steps).states[n])
    ensures s.wire <= After(s, steps).wire
  {
    RunPersists(s, steps, n);
  }

  lemma StepKeepsLink(s: State, step: Step, n: nat, k: nat, e: Event)
    requires HoldsLink(s, n, k, e)
    ensures HoldsLink(Next(s, step), n, k, e)
  {
    StepKeepsInv(s, step);
    StepPersists(s, step, n);
  }

  lemma ArrivalHoldsLink(s: State, n: nat, e: Event)
    requires Inv(s) && n in s.subs && e.id !in s.states[n].sentIds
    ensures HoldsLink(Next(s, UpstreamEvent(n, e)), n, |s.states[n].chain|, e)
  {
    ArrivalIsQueued(s, n, e);
    StepKeepsInv(s, UpstreamEvent(n, e));
  }

  /** From its turn to its settling. */
  lemma IngestedThenSent(turn: State, n: nat, k: nat, e: Event, c: seq<Step>, settling: State, d: seq<Step>, end: State)
    requires HoldsLink(turn, n, k, e) && turn.states[n].done == k
    requires !turn.states[n].busy && !turn.states[n].closed && e.id !in turn.states[n].sentIds
    requires settling == After(Next(turn, RunTask(n)), c)
    requires n in settling.states && settling.states[n].done == k && !settling.states[n].closed
    requires end == After(Next(settling, FinishIngest(n, Ingested(true, false))), d)
    ensures WasDelivered(end.wire, n, e)
  {
    TurnBegins(turn, n, k, e);
    StepKeepsLink(turn, RunTask(n), n, k, e);
    LinkStays(Next(turn, RunTask(n)), c, n, k, e);
    SuccessIsSent(settling, n, k, e);
    StepKeepsLink(settling, FinishIngest(n, Ingested(true, false)), n, k, e);
    LinkStays(Next(settling, FinishIngest(n, Ingested(true, false))), d, n, k, e);
    StaysDelivered(Next(settling, FinishIngest(n, Ingested(true, false))).wire, end.wire, n, e);
  }

  /** In every run: an event that arrives for an open subscription with an id it does not hold,
      whose turn finds the id still not held and the subscription open, and whose ingest then
      succeeds unsuperseded while it is open, is on the wire from there on. */
  lemma AcceptedIsDelivered(cap: nat, a: seq<Step>, n: nat, e: Event, b: seq<Step>, c: seq<Step>, d: seq<Step>,
                            arrival: State, turn: State, settling: State, end: State)
    requires arrival == After(Init(cap), a) && n in arrival.subs
    requires n in arrival.states && e.id !in arrival.states[n].sentIds
    requires turn == After(Next(arrival, UpstreamEvent(n, e)), b)
    requires n in turn.states && turn.states[n].done == |arrival.states[n].chain|
    requires !turn.states[n].busy && !turn.states[n].closed && e.id !in turn.states[n].sentIds
    requires settling == After(Next(turn, RunTask(n)), c)
    requires n in settling.states && settling.states[n].done == |arrival.states[n].chain| && !settling.states[n].closed
    requires end == After(Next(settling, FinishIngest(n, Ingested(true, false))), d)
    ensures WasDelivered(end.wire, n, e)
  {
    EveryRunKeepsInv(cap, a);
    ArrivalHoldsLink(arrival, n, e);
    LinkStays(Next(arrival, UpstreamEvent(n, e)), b, n, |arrival.states[n].chain|, e);
    IngestedThenSent(turn, n, |arrival.states[n].chain|, e, c, settling, d, end);
  }

  /** An ingest that throws, is refused, brought a superseded version, or settles after a close
      adds nothing to the wire. */
  lemma NothingElseIsDelivered(s: State, n: nat, result: IngestResult)
    requires result.Threw? || !result.success || result.superseded || n !in s.states || s.states[n].closed
    ensures Next(s, FinishIngest(n, result)).wire == s.wire
  {
    assert s.wire + [] == s.wire;
  }

  lemma OthersSendNothing(s: State, step: Step)
    requires !step.RunTask? && !step.FinishIngest?
    ensures Next(s, step).wire == s.wire
  {
    assert s.wire + [] == s.wire;
  }

  /** Events go out only when an ingest settles, EOSE only when its link is reached. */
  lemma WhoSends(s: State, step: Step, i: nat)
    requires |s.wire| <= i < |Next(s, step).wire|
    ensures if Next(s, step).wire[i].Delivered? then step.FinishIngest? else step.RunTask?
  {
    if !step.RunTask? && !step.FinishIngest? {
      OthersSendNothing(s, step);
    }
  }

  /** No link waits for ever: the next one settles on its turn or awaits its ingest, and an
      awaited ingest settles with it. */
  lemma LinksSettle(s: State, n: nat, result: IngestResult)
    requires n in s.states && s.states[n].done < |s.states[n].chain|
    ensures !s.states[n].busy ==>
              var after := Next(s, RunTask(n));
              n in after.states && (after.states[n].done == s.states[n].done + 1 || Awaiting(after.states[n]))
    ensures Awaiting(s.states[n]) ==>
              var after := Next(s, FinishIngest(n, result));
              n in after.states && after.states[n].done == s.states[n].done + 1 && !after.states[n].busy
  {
    if Awaiting(s.states[n]) {
      AddPersists(s.cap, s.states[n], s.states[n].chain[s.states[n].done].event.id);
    }
  }

  // ---- released EOSEs go out

  /** The aggregated EOSE and the timeout both leave an open subscription with its release queued. */
  lemma ReleaseIsQueued(s: State, step: Step, n: nat) returns (k: nat)
    requires Inv(s) && n in s.subs && (step == UpstreamEose(n) || step == Timeout(n))
    ensures var after := Next(s, step);
            n in after.states && k < |after.states[n].chain| && after.states[n].chain[k] == ReleaseEose
  {
    assert SubOk(s.cap, s.states[n]);
    if s.states[n].eoseSent {
      k :| 0 <= k < |s.states[n].chain| && s.states[n].chain[k] == ReleaseEose;
    } else {
      k := |s.states[n].chain|;
    }
  }

  lemma ReachedReleaseIsOut(s: State, n: nat, k: nat)
    requires Inv(s) && n in s.states && !s.states[n].closed && k < s.states[n].done
    requires k < |s.states[n].chain| && s.states[n].chain[k] == ReleaseEose
    ensures Eose(n, k) in s.wire
  {
    assert EoseOf(s.wire, n, s.states[n]);
  }

  /** In every run: once an open subscription is told EOSE or times out, and everything queued by
      then has settled, its EOSE is on the wire, if it is still open. */
  lemma EoseGoesOut(cap: nat, a: seq<Step>, step: Step, n: nat, b: seq<Step>, told: State, end: State)
    requires n in After(Init(cap), a).subs && (step == UpstreamEose(n) || step == Timeout(n))
    requires told == Next(After(Init(cap), a), step) && end == After(told, b)
    requires n in told.states && n in end.states
    requires !end.states[n].closed && end.states[n].done >= |told.states[n].chain|
    ensures exists k :: Eose(n, k) in end.wire
  {
    EveryRunKeepsInv(cap, a);
    var k := ReleaseIsQueued(After(Init(cap), a), step, n);
    StepKeepsInv(After(Init(cap), a), step);
    RunPersists(told, b, n);
    ReachedReleaseIsOut(end, n, k);
  }

  // ---- what opening and marking leave behind

  /** A REQ leaves a fresh, open subscription that its client routes to, that the pool holds, and
      that knows every id sent from local storage. */
  lemma OpensAfresh(s: State, key: Key, ids: seq<string>)
    requires Inv(s)
    ensures var after := Next(s, Open(key, ids));
            && key in after.byClientSub
            && var n := after.byClientSub[key];
            && n !in s.states && n in after.states && n in after.subs && n in after.pool && !after.states[n].closed
            && after.states[n].key == key && after.states[n].chain == [] && !after.states[n].eoseSent
            && forall id | id in ids :: id in after.states[n].sentIds
  {
    OpenedKeepsInv(s, key, ids);
    ClosedKeepsInv(s, key);
    forall id | id in ids ensures id in FirstOccurrences(ids) {
      assert id in Elements(ids) && id in Elements(FirstOccurrences(ids));
    }
  }

  /** An id marked as delivered is known from then on, and the same event arriving upstream changes
      nothing, unless eviction takes that very id: the oldest of a window already over its cap,
      or the only one under a cap of none. */
  lemma MarkedIsKnown(s: State, key: Key, e: Event)
    requires Inv(s) && key in s.byClientSub
    ensures var n := s.byClientSub[key];
            var held := s.states[n].sentIds;
            var after := Next(s, MarkDelivered(key, e.id));
            && (e.id in after.states[n].sentIds
                <==> if held == [] then s.cap > 0 else held[0] != e.id || |held| <= s.cap)
            && (e.id in after.states[n].sentIds <==> Next(after, UpstreamEvent(n, e)) == after)
  {
    var n := s.byClientSub[key];
    var sub := s.states[n];
    var after := Next(s, MarkDelivered(key, e.id));
    assert SubOk(s.cap, sub);
    AddedOrEvicted(s.cap, sub, e.id);
    assert after.states[n] == AddSentId(s.cap, sub, e.id);
    if e.id !in after.states[n].sentIds {
      assert |Next(after, UpstreamEvent(n, e)).states[n].chain| == |after.states[n].chain| + 1;
    }
  }

  lemma AddedOrEvicted(cap: nat, sub: Sub, id: string)
    requires NoDuplicates(sub.sentIds)
    ensures id in AddSentId(cap, sub, id).sentIds
            <==> if sub.sentIds == [] then cap > 0 else sub.sentIds[0] != id || |sub.sentIds| <= cap
  {
    var w := sub.sentIds;
    if id in w {
      var i :| 0 <= i < |w| && w[i] == id;
      assert i > 0 ==> w[1..][i - 1] == id;
      assert i == 0 ==> forall j | 1 <= j < |w| :: w[j] != id;
    } else {
      assert (w + [id])[|w|] == id;
      assert w != [] ==> (w + [id])[1..][|w| - 1] == id;
    }
  }
}
