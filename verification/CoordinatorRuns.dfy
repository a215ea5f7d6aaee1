/** The coordinator over whole runs: one EOSE, in its place; nothing after close; no redelivery
    inside the dedup window. */
module CoordinatorRuns {
  import opened Events
  import opened Coordinator
  import opened CoordinatorInvariant

  ghost predicate AllSubs(s: State)
  {
    forall n | n in s.states :: SubOk(s.cap, s.states[n])
  }

  /** Open subscriptions, their client's routes to them and the pool's subscriptions match one to one. */
  ghost predicate Routes(s: State)
  {
    && (forall n | n in s.states :: 1 <= n <= s.sequence)
    && (forall n | n in s.subs :: n in s.states)
    && (forall n | n in s.states :: n in s.subs <==> !s.states[n].closed)
    && (forall key | key in s.byClientSub :: s.byClientSub[key] in s.subs && s.states[s.byClientSub[key]].key == key)
    && (forall n | n in s.subs :: s.states[n].key in s.byClientSub && s.byClientSub[s.states[n].key] == n)
    && s.pool == s.subs
  }

  /** A message in the log came from the link it names. */
  ghost predicate Logged(cap: nat, sub: Sub, w: Sent)
  {
    && w.ticket < sub.done <= |sub.chain|
    && (w.Eose? ==> sub.chain[w.ticket] == ReleaseEose)
    && (w.Delivered? ==>
          && sub.chain[w.ticket] == Ingest(w.event)
          && w.at < |sub.entered| && sub.entered[w.at] == w.event.id
          && |sub.seed| <= w.mark && Forgotten(cap, sub.entered, w.mark, w.event.id))
  }

  ghost predicate LogOk(s: State)
  {
    forall i | 0 <= i < |s.wire| :: s.wire[i].ref in s.states && Logged(s.cap, s.states[s.wire[i].ref], s.wire[i])
  }

  ghost predicate Before(v: Sent, w: Sent)
  {
    v.ref == w.ref ==> v.ticket < w.ticket && (v.Delivered? && w.Delivered? ==> v.at < w.mark)
  }

  ghost predicate LogOrdered(wire: seq<Sent>)
  {
    forall i, j | 0 <= i < j < |wire| :: Before(wire[i], wire[j])
  }

  /** Whatever was delivered before an ingest began had entered the dedup history by then. */
  ghost predicate LogBeforeBusy(s: State)
  {
    forall i | 0 <= i < |s.wire| && s.wire[i].Delivered? && s.wire[i].ref in s.states && s.states[s.wire[i].ref].busy ::
      s.wire[i].at < s.states[s.wire[i].ref].mark
  }

  ghost predicate EoseOf(wire: seq<Sent>, n: nat, sub: Sub)
  {
    !sub.closed ==>
      forall i | 0 <= i < sub.done && i < |sub.chain| && sub.chain[i].ReleaseEose? :: Eose(n, i) in wire
  }

  /** An open subscription whose release has been reached has sent its EOSE. */
  ghost predicate EoseOut(s: State)
  {
    forall n | n in s.states :: EoseOf(s.wire, n, s.states[n])
  }

  ghost predicate LogInv(s: State)
  {
    LogOk(s) && LogOrdered(s.wire) && LogBeforeBusy(s) && EoseOut(s)
  }

  ghost predicate Inv(s: State)
  {
    AllSubs(s) && Routes(s) && LogInv(s)
  }

  // ---- one subscription moves

  lemma LoggedStays(cap: nat, sub: Sub, after: Sub, w: Sent)
    requires Logged(cap, sub, w) && Extends(sub, after) && after.done <= |after.chain|
    ensures Logged(cap, after, w)
  {
    if w.Delivered? {
      ForgottenStays(cap, sub.entered, after.entered, w.mark, w.event.id);
    }
  }

  /** What a step of subscription `n` may put on the wire. */
  ghost predicate Emits(cap: nat, n: nat, sub: Sub, after: Sub, out: seq<Sent>)
  {
    && |out| <= 1
    && (|out| == 1 ==>
          && out[0].ref == n && out[0].ticket == sub.done < after.done && !sub.closed && Logged(cap, after, out[0])
          && !after.busy && (out[0].Delivered? ==> sub.busy && out[0].mark == sub.mark))
    && (!after.closed ==>
          forall i | sub.done <= i < after.done && i < |after.chain| && after.chain[i].ReleaseEose? :: Eose(n, i) in out)
  }

  /** Subscription `n` moves on, the rest stands still. */
  ghost predicate Moves(s: State, n: nat, after: Sub, out: seq<Sent>)
  {
    && n in s.states && Extends(s.states[n], after) && SubOk(s.cap, after)
    && after.closed == s.states[n].closed && Emits(s.cap, n, s.states[n], after, out)
  }

  lemma MoveKeepsLogOk(s: State, n: nat, after: Sub, out: seq<Sent>)
    requires LogOk(s) && Moves(s, n, after, out)
    ensures LogOk(Update(s, n, after, out))
  {
    var s' := Update(s, n, after, out);
    forall i | 0 <= i < |s'.wire| ensures s'.wire[i].ref in s'.states && Logged(s.cap, s'.states[s'.wire[i].ref], s'.wire[i]) {
      if i < |s.wire| {
        assert Logged(s.cap, s.states[s.wire[i].ref], s.wire[i]);
        if s.wire[i].ref == n {
          LoggedStays(s.cap, s.states[n], after, s.wire[i]);
        }
      }
    }
  }

  lemma MoveKeepsOrder(s: State, n: nat, after: Sub, out: seq<Sent>)
    requires LogOk(s) && LogOrdered(s.wire) && LogBeforeBusy(s) && Moves(s, n, after, out)
    ensures LogOrdered(s.wire + out)
  {
    forall i, j | 0 <= i < j < |s.wire + out| ensures Before((s.wire + out)[i], (s.wire + out)[j]) {
      if j >= |s.wire| {
        assert (s.wire + out)[i] == s.wire[i] && (s.wire + out)[j] == out[0];
        assert Logged(s.cap, s.states[s.wire[i].ref], s.wire[i]);
      } else {
        assert Before(s.wire[i], s.wire[j]);
      }
    }
  }

  lemma MoveKeepsBusy(s: State, n: nat, after: Sub, out: seq<Sent>)
    requires LogOk(s) && LogBeforeBusy(s) && Moves(s, n, after, out)
    ensures LogBeforeBusy(Update(s, n, after, out))
  {
    var s' := Update(s, n, after, out);
    forall i | 0 <= i < |s'.wire| && s'.wire[i].Delivered? && s'.wire[i].ref in s'.states && s'.states[s'.wire[i].ref].busy
      ensures s'.wire[i].at < s'.states[s'.wire[i].ref].mark
    {
      assert i < |s.wire| ==> Logged(s.cap, s.states[s.wire[i].ref], s.wire[i]);
    }
  }

  lemma MoveKeepsEose(s: State, n: nat, after: Sub, out: seq<Sent>)
    requires AllSubs(s) && EoseOut(s) && Moves(s, n, after, out)
    ensures EoseOut(Update(s, n, after, out))
  {
    var s' := Update(s, n, after, out);
    forall k | k in s'.states ensures EoseOf(s'.wire, k, s'.states[k]) {
      assert k in s.states && EoseOf(s.wire, k, s.states[k]) && SubOk(s.cap, s.states[k]);
      forall i | 0 <= i < s'.states[k].done && i < |s'.states[k].chain| && s'.states[k].chain[i].ReleaseEose? && !s'.states[k].closed
        ensures Eose(k, i) in s'.wire
      {
        if k == n && i >= s.states[n].done {
          assert Eose(n, i) in out;
        } else {
          assert s.states[k].chain[i] == s'.states[k].chain[i];
          assert Eose(k, i) in s.wire;
        }
      }
    }
  }

  lemma MoveKeepsRoutes(s: State, n: nat, after: Sub, out: seq<Sent>)
    requires Routes(s) && Moves(s, n, after, out)
    ensures Routes(Update(s, n, after, out))
  {
  }

  lemma MoveKeepsInv(s: State, n: nat, after: Sub, out: seq<Sent>)
    requires Inv(s) && Moves(s, n, after, out)
    ensures Inv(Update(s, n, after, out))
  {
    MoveKeepsLogOk(s, n, after, out);
    MoveKeepsOrder(s, n, after, out);
    MoveKeepsBusy(s, n, after, out);
    MoveKeepsEose(s, n, after, out);
    MoveKeepsRoutes(s, n, after, out);
  }

  // ---- subscriptions open and close

  /** Nothing goes out; subscriptions at most close, and new ones start empty. */
  ghost predicate Quiet(s: State, after: State)
  {
    && after.cap == s.cap && after.wire == s.wire
    && (forall n | n in s.states :: n in after.states && (after.states[n] == s.states[n] || after.states[n] == Shut(s.states[n])))
    && (forall n | n in after.states && n !in s.states :: SubOk(s.cap, after.states[n]) && after.states[n].done == 0)
  }

  lemma QuietKeepsSubs(s: State, after: State)
    requires AllSubs(s) && Quiet(s, after)
    ensures AllSubs(after)
  {
    forall n | n in after.states ensures SubOk(s.cap, after.states[n]) {
      if n in s.states {
        assert SubOk(s.cap, s.states[n]);
        ShutKeepsSub(s.cap, s.states[n]);
      }
    }
  }

  lemma QuietKeepsLogOk(s: State, after: State)
    requires LogOk(s) && Quiet(s, after)
    ensures LogOk(after)
  {
    forall i | 0 <= i < |s.wire| ensures s.wire[i].ref in after.states && Logged(s.cap, after.states[s.wire[i].ref], s.wire[i]) {
      assert Logged(s.cap, s.states[s.wire[i].ref], s.wire[i]);
    }
  }

  lemma QuietKeepsRest(s: State, after: State)
    requires LogOk(s) && LogBeforeBusy(s) && EoseOut(s) && Quiet(s, after)
    ensures LogBeforeBusy(after) && EoseOut(after)
  {
    forall i | 0 <= i < |s.wire| && s.wire[i].Delivered? && s.wire[i].ref in after.states && after.states[s.wire[i].ref].busy
      ensures s.wire[i].at < after.states[s.wire[i].ref].mark
    {
      assert s.wire[i].ref in s.states;
    }
    forall n | n in after.states ensures EoseOf(s.wire, n, after.states[n]) {
      if n in s.states {
        assert EoseOf(s.wire, n, s.states[n]);
      }
    }
  }

  lemma QuietKeepsLog(s: State, after: State)
    requires AllSubs(s) && LogInv(s) && Quiet(s, after)
    ensures AllSubs(after) && LogInv(after)
  {
    QuietKeepsSubs(s, after);
    QuietKeepsLogOk(s, after);
    QuietKeepsRest(s, after);
  }

  lemma ClosedKeepsInv(s: State, key: Key)
    requires Inv(s)
    ensures Inv(Closed(s, key)) && Quiet(s, Closed(s, key)) && key !in Closed(s, key).byClientSub
  {
    ClosedKeepsRoutes(s, key);
    QuietKeepsLog(s, Closed(s, key));
  }

  lemma ClosedKeepsRoutes(s: State, key: Key)
    requires Routes(s)
    ensures Routes(Closed(s, key)) && Quiet(s, Closed(s, key))
    ensures key !in Closed(s, key).byClientSub && Closed(s, key).sequence == s.sequence
  {
  }

  lemma AddedKeepsRoutes(c: State, key: Key, ids: seq<string>, after: State)
    requires Routes(c) && key !in c.byClientSub
    requires var n := c.sequence + 1;
             after == c.(sequence := n, states := c.states[n := NewSub(key, ids)], subs := c.subs + {n},
                         byClientSub := c.byClientSub[key := n], pool := c.pool + {n})
    ensures Routes(after) && Quiet(c, after)
  {
    NewKeepsSub(c.cap, key, ids);
  }

  lemma OpenedKeepsInv(s: State, key: Key, ids: seq<string>)
    requires Inv(s)
    ensures Inv(Opened(s, key, ids)) && Quiet(Closed(s, key), Opened(s, key, ids))
  {
    ClosedKeepsInv(s, key);
    AddedKeepsRoutes(Closed(s, key), key, ids, Opened(s, key, ids));
    QuietKeepsLog(Closed(s, key), Opened(s, key, ids));
  }

  lemma DisconnectedKeepsRoutes(s: State, client: string)
    requires Routes(s)
    ensures Routes(Disconnected(s, client)) && Quiet(s, Disconnected(s, client))
  {
  }

  lemma StoppedKeepsRoutes(s: State)
    requires Routes(s)
    ensures Routes(Stopped(s)) && Quiet(s, Stopped(s))
  {
  }

  // ---- every step

  lemma MarkedKeepsInv(s: State, key: Key, id: string)
    requires Inv(s)
    ensures Inv(Marked(s, key, id))
  {
    if key in s.byClientSub {
      var n := s.byClientSub[key];
      assert SubOk(s.cap, s.states[n]);
      AddKeepsSub(s.cap, s.states[n], id);
      MoveKeepsInv(s, n, AddSentId(s.cap, s.states[n], id), []);
    }
  }

  lemma EventKeepsInv(s: State, n: nat, e: Event)
    requires Inv(s)
    ensures Inv(EventArrived(s, n, e))
  {
    if n in s.subs && e.id !in s.states[n].sentIds {
      assert SubOk(s.cap, s.states[n]);
      EnqueueKeepsSub(s.cap, s.states[n], e);
      MoveKeepsInv(s, n, Enqueue(s.states[n], Ingest(e)), []);
    }
  }

  lemma FlushedKeepsInv(s: State, n: nat)
    requires Inv(s)
    ensures Inv(Flushed(s, n))
  {
    if n in s.subs && !s.states[n].eoseSent {
      assert SubOk(s.cap, s.states[n]);
      ReleaseKeepsSub(s.cap, s.states[n]);
      MoveKeepsInv(s, n, Release(s.states[n]), []);
    }
  }

  lemma BeganKeepsInv(s: State, n: nat)
    requires Inv(s) && n in s.states && Ready(s.states[n])
    ensures Inv(Began(s, n))
  {
    var sub := s.states[n];
    assert SubOk(s.cap, sub);
    BeginKeepsSub(s.cap, sub);
    var out := if sub.chain[sub.done].ReleaseEose? && !sub.closed then [Eose(n, sub.done)] else [];
    assert Emits(s.cap, n, sub, Begin(sub), out);
    MoveKeepsInv(s, n, Begin(sub), out);
  }

  lemma EntryIsThere(cap: nat, sub: Sub, id: string)
    requires WindowOk(cap, sub)
    ensures var after := AddSentId(cap, sub, id);
            EntryOf(sub, id) < |after.entered| && after.entered[EntryOf(sub, id)] == id
  {
    if id in sub.sentIds {
      var k := IndexOf(sub.sentIds, id);
      assert sub.entered[sub.evicted + k] == sub.sentIds[k];
    }
  }

  lemma ResumeEmits(cap: nat, n: nat, sub: Sub, result: IngestResult)
    requires SubOk(cap, sub) && Awaiting(sub) && Accepted(sub, result) && SubOk(cap, Resume(cap, sub, result))
    ensures var e := sub.chain[sub.done].event;
            Logged(cap, Resume(cap, sub, result), Delivered(n, sub.done, e, sub.mark, EntryOf(sub, e.id)))
  {
    var e := sub.chain[sub.done].event;
    EntryIsThere(cap, sub, e.id);
    AddKeepsWindow(cap, sub, e.id);
    ForgottenStays(cap, sub.entered, AddSentId(cap, sub, e.id).entered, sub.mark, e.id);
  }

  lemma ResumedKeepsInv(s: State, n: nat, result: IngestResult)
    requires Inv(s) && n in s.states && Awaiting(s.states[n])
    ensures Inv(Resumed(s, n, result))
  {
    var sub := s.states[n];
    var e := sub.chain[sub.done].event;
    assert SubOk(s.cap, sub);
    ResumeKeepsSub(s.cap, sub, result);
    var out := if Accepted(sub, result) && !result.superseded
               then [Delivered(n, sub.done, e, sub.mark, EntryOf(sub, e.id))] else [];
    if Accepted(sub, result) {
      ResumeEmits(s.cap, n, sub, result);
    }
    MoveKeepsInv(s, n, Resume(s.cap, sub, result), out);
  }

  lemma DisconnectedKeepsInv(s: State, client: string)
    requires Inv(s)
    ensures Inv(Disconnected(s, client))
  {
    DisconnectedKeepsRoutes(s, client);
    QuietKeepsLog(s, Disconnected(s, client));
  }

  lemma StoppedKeepsInv(s: State)
    requires Inv(s)
    ensures Inv(Stopped(s))
  {
    StoppedKeepsRoutes(s);
    QuietKeepsLog(s, Stopped(s));
  }

  /** Steps inside one subscription. */
  lemma TurnKeepsInv(s: State, n: nat)
    requires Inv(s)
    ensures Inv(Next(s, RunTask(n)))
  {
    if n in s.states && Ready(s.states[n]) {
      BeganKeepsInv(s, n);
    }
  }

  lemma SettlingKeepsInv(s: State, n: nat, result: IngestResult)
    requires Inv(s)
    ensures Inv(Next(s, FinishIngest(n, result)))
  {
    if n in s.states && Awaiting(s.states[n]) {
      ResumedKeepsInv(s, n, result);
    }
  }

  lemma InnerStepKeepsInv(s: State, step: Step)
    requires Inv(s) && !step.Open? && !step.Close? && !step.Disconnect? && !step.Stop?
    ensures Inv(Next(s, step))
  {
    match step
    case MarkDelivered(key, id) => MarkedKeepsInv(s, key, id);
    case UpstreamEvent(n, e) => EventKeepsInv(s, n, e);
    case UpstreamEose(n) => FlushedKeepsInv(s, n);
    case Timeout(n) => FlushedKeepsInv(s, n);
    case RunTask(n) => TurnKeepsInv(s, n);
    case FinishIngest(n, result) => SettlingKeepsInv(s, n, result);
  }

  lemma StepKeepsInv(s: State, step: Step)
    requires Inv(s)
    ensures Inv(Next(s, step))
  {
    match step
    case Open(key, ids) => OpenedKeepsInv(s, key, ids);
    case Close(key) => ClosedKeepsInv(s, key);
    case Disconnect(client) => DisconnectedKeepsInv(s, client);
    case Stop => StoppedKeepsInv(s);
    case _ => InnerStepKeepsInv(s, step);
  }

  lemma {:induction false} EveryRunKeepsInv(cap: nat, steps: seq<Step>)
    ensures Inv(After(Init(cap), steps))
    decreases |steps|
  {
    if steps != [] {
      EveryRunKeepsInv(cap, steps[..|steps| - 1]);
      StepKeepsInv(After(Init(cap), steps[..|steps| - 1]), steps[|steps| - 1]);
    }
  }
}
