/** The coordinator as the object it is: fields its methods update. */
module CoordinatorObject {
  import opened Order
  import opened Events
  import opened Coordinator
  import opened CoordinatorRuns

  class UpstreamCoordinator {
    const maxSentIdsPerSub: nat
    var states: map<nat, Sub>
    var subs: set<nat>
    var byClientSub: map<Key, nat>
    var upstreamSubSequence: nat
    /** The subscriptions open at the pool, and everything sent to clients. */
    var pool: set<nat>
    var wire: seq<Sent>

    ghost function Abs(): State
      reads this
    {
      State(maxSentIdsPerSub, states, subs, byClientSub, upstreamSubSequence, pool, wire)
    }

    /** Every registered subscription has its state. */
    ghost predicate Valid()
      reads this
    {
      subs <= states.Keys
    }

    constructor (maxSentIds: nat)
      ensures Valid() && Abs() == Init(maxSentIds)
    {
      maxSentIdsPerSub := maxSentIds;
      states, subs, byClientSub := map[], {}, map[];
      upstreamSubSequence, pool, wire := 0, {}, [];
    }

    method OpenForSubscription(key: Key, sentIds: seq<string>)
      requires Valid()
      modifies this
      ensures Valid() && Abs() == Opened(old(Abs()), key, sentIds)
    {
      CloseForSubscription(key);
      upstreamSubSequence := upstreamSubSequence + 1;
      var n := upstreamSubSequence;
      var seededIds := [];
      for i := 0 to |sentIds|
        invariant seededIds == FirstOccurrences(sentIds[..i])
        invariant Abs() == Closed(old(Abs()), key).(sequence := n)
      {
        assert sentIds[..i + 1][..i] == sentIds[..i];
        if sentIds[i] !in seededIds {
          seededIds := seededIds + [sentIds[i]];
        }
      }
      assert sentIds[..|sentIds|] == sentIds;
      states := states[n := Sub(key, seededIds, seededIds, seededIds, 0, false, true, false, [], 0, false, 0)];
      subs := subs + {n};
      byClientSub := byClientSub[key := n];
      pool := pool + {n};
    }

    method CloseForSubscription(key: Key)
      requires Valid()
      modifies this
      ensures Valid() && Abs() == Closed(old(Abs()), key)
    {
      if key !in byClientSub {
        return;
      }
      var n := byClientSub[key];
      byClientSub := byClientSub - {key};
      if n in subs {
        states := states[n := states[n].(closed := true, timer := false)];
        subs := subs - {n};
      }
      pool := pool - {n};
    }

    /** Closes the client's subscriptions one by one. */
    method CloseAllForClient(client: string)
      requires Valid() && OneToOne(Abs())
      modifies this
      ensures Valid() && Abs() == Disconnected(old(Abs()), client)
    {
      ghost var all, start, gone := KeysOf(Abs(), client), Abs(), {};
      var keys := set key | key in byClientSub && key.client == client;
      ClosedNone(start);
      while keys != {}
        invariant gone == all - keys && keys <= all
        invariant Valid() && Abs() == ClosedAll(start, gone)
        decreases keys
      {
        var key :| key in keys;
        ClosedOneMore(start, gone, key);
        keys := keys - {key};
        gone := gone + {key};
        CloseForSubscription(key);
      }
      assert gone == all;
    }

    method MarkDelivered(key: Key, eventId: string)
      requires Valid()
      modifies this`states
      ensures Valid() && Abs() == Marked(old(Abs()), key, eventId)
    {
      if key in byClientSub {
        var n := byClientSub[key];
        if n in subs {
          assert wire + [] == wire;
          AddId(n, eventId);
        }
      }
    }

    /** Adds an id to a subscription's window, dropping the oldest above the cap. */
    method AddId(n: nat, id: string)
      requires n in states
      modifies this`states
      ensures states == old(states)[n := AddSentId(maxSentIdsPerSub, old(states)[n], id)]
    {
      var state := states[n];
      if id !in state.sentIds {
        state := state.(sentIds := state.sentIds + [id], entered := state.entered + [id]);
      }
      if |state.sentIds| > maxSentIdsPerSub {
        state := state.(sentIds := state.sentIds[1..], evicted := state.evicted + 1);
      }
      states := states[n := state];
    }

    method HandleUpstreamEvent(n: nat, event: Event)
      requires Valid()
      modifies this`states
      ensures Valid() && Abs() == EventArrived(old(Abs()), n, event)
    {
      assert wire + [] == wire;
      if n in subs {
        var state := states[n];
        if event.id !in state.sentIds {
          states := states[n := state.(chain := state.chain + [Ingest(event)])];
        }
      }
    }

    /** Releases the client's EOSE onto the chain as it stands, once. */
    method FlushEose(n: nat)
      requires Valid()
      modifies this`states
      ensures Valid() && Abs() == Flushed(old(Abs()), n)
    {
      assert wire + [] == wire;
      if n in subs && !states[n].eoseSent {
        var state := states[n].(eoseSent := true, timer := false);
        states := states[n := state.(chain := state.chain + [ReleaseEose])];
      }
    }

    /** The next link of a chain begins. */
    method RunTask(n: nat)
      requires Valid() && n in states && Ready(states[n])
      modifies this`states, this`wire
      ensures Valid() && Abs() == Began(old(Abs()), n)
    {
      assert wire + [] == wire;
      var state := states[n];
      match state.chain[state.done]
      case ReleaseEose =>
        if !state.closed {
          wire := wire + [Eose(n, state.done)];
        }
        states := states[n := state.(done := state.done + 1)];
      case Ingest(event) =>
        if state.closed || event.id in state.sentIds {
          states := states[n := state.(done := state.done + 1)];
        } else {
          states := states[n := state.(busy := true, mark := |state.entered|)];
        }
    }

    /** An awaited ingest resolves; closing while it was pending drops the delivery. */
    method FinishIngest(n: nat, result: IngestResult)
      requires Valid() && n in states && Awaiting(states[n])
      modifies this`states, this`wire
      ensures Valid() && Abs() == Resumed(old(Abs()), n, result)
    {
      assert wire + [] == wire;
      var state := states[n];
      var event := state.chain[state.done].event;
      if result.Ingested? && result.success && !state.closed {
        AddId(n, event.id);
        if !result.superseded {
          wire := wire + [Delivered(n, state.done, event, state.mark, EntryOf(state, event.id))];
        }
      }
      states := states[n := states[n].(busy := false, done := state.done + 1)];
    }

    method Stop()
      requires Valid()
      modifies this
      ensures Valid() && Abs() == Stopped(old(Abs()))
    {
      var left := subs;
      ghost var start := states;
      while left != {}
        invariant left <= subs <= states.Keys && states.Keys == start.Keys
        invariant forall n | n in states :: states[n] == if n in subs - left then Shut(start[n]) else start[n]
        invariant subs == old(subs) && upstreamSubSequence == old(upstreamSubSequence) && wire == old(wire)
        decreases left
      {
        var n :| n in left;
        states := states[n := states[n].(closed := true, timer := false)];
        left := left - {n};
      }
      subs, byClientSub, pool := {}, map[], {};
    }
  }

  /** Each client subscription routes to the object made for it. */
  ghost predicate OneToOne(s: State)
  {
    forall key | key in s.byClientSub ::
      s.byClientSub[key] in s.subs && s.byClientSub[key] in s.states && s.states[s.byClientSub[key]].key == key
  }

  /** In every run the routes are one to one, which is all the closing loop needs. */
  lemma RunsAreOneToOne(s: State)
    requires Inv(s)
    ensures OneToOne(s) && s.subs <= s.states.Keys
  {
  }

  lemma ClosedNone(s: State)
    ensures ClosedAll(s, {}) == s
  {
    assert s.byClientSub - {} == s.byClientSub && s.subs - {} == s.subs && s.pool - {} == s.pool;
    assert ClosedAll(s, {}).states == s.states;
  }

  ghost function Refs(s: State, gone: set<Key>): set<nat>
  {
    set key | key in gone && key in s.byClientSub :: s.byClientSub[key]
  }

  lemma OneMoreRef(s: State, gone: set<Key>, key: Key)
    requires OneToOne(s) && key in s.byClientSub && key !in gone
    ensures s.byClientSub[key] !in Refs(s, gone) && Refs(s, gone + {key}) == Refs(s, gone) + {s.byClientSub[key]}
  {
  }

  /** Closing one more of a client's subscriptions. */
  lemma ClosedOneMore(s: State, gone: set<Key>, key: Key)
    requires OneToOne(s) && key in s.byClientSub && key !in gone
    ensures Closed(ClosedAll(s, gone), key) == ClosedAll(s, gone + {key})
  {
    OneMoreRef(s, gone, key);
    var c, d := Closed(ClosedAll(s, gone), key), ClosedAll(s, gone + {key});
    assert c.byClientSub == d.byClientSub && c.subs == d.subs && c.pool == d.pool && c.states == d.states;
  }
}
