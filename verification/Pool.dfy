/** Aggregating each upstream relay's EOSE into one per subscription. */
module Pool {
  import opened Events

  /** What became of one `openSubscription`. */
  datatype Status = Live | Fired | Dropped

  /** One `openSubscription`: the relays connected then, and those that have since answered it
      or left `connected`. */
  datatype Opening = Opening(id: string, snapshot: set<string>, gone: set<string>, status: Status)

  /** The pool. The pending set an opening makes is named by the opening's number, so two sets
      made for one id are told apart; `micro` is the queue of guarded microtasks. */
  datatype State = State(
    openings: seq<Opening>, sets: seq<set<string>>, pending: map<string, nat>,
    subscriptions: set<string>, micro: seq<nat>, stopped: bool, fired: multiset<nat>)

  function Init(): State
  {
    State([], [], map[], {}, [], false, multiset{})
  }

  const WIRE_SUB_ID_SUFFIX := ":0"

  /** The id rx-nostr puts on the wire for ours. */
  function WireSubId(id: string): string
  {
    id + WIRE_SUB_ID_SUFFIX
  }

  function FromWireSubId(wire: string): Option<string>
  {
    if |wire| >= 2 && wire[|wire| - 2..] == WIRE_SUB_ID_SUFFIX then Some(wire[..|wire| - 2]) else None
  }

  lemma WireIdReverses(id: string, wire: string)
    ensures FromWireSubId(wire) == Some(id) <==> wire == WireSubId(id)
  {
    assert WireSubId(id)[|WireSubId(id)| - 2..] == WIRE_SUB_ID_SUFFIX && WireSubId(id)[..|id|] == id;
    if FromWireSubId(wire) == Some(id) {
      assert wire == wire[..|wire| - 2] + wire[|wire| - 2..];
    }
  }

  /** The representation: every number names an opening. */
  ghost predicate Valid(s: State)
  {
    && |s.sets| == |s.openings|
    && (forall id | id in s.pending :: s.pending[id] < |s.openings|)
    && (forall i | 0 <= i < |s.micro| :: s.micro[i] < |s.openings|)
  }

  function WithStatus(openings: seq<Opening>, r: nat, status: Status): seq<Opening>
    requires r < |openings|
  {
    openings[r := openings[r].(status := status)]
  }

  function Closed(s: State, id: string): State
    requires Valid(s)
  {
    s.(openings := if id in s.pending then WithStatus(s.openings, s.pending[id], Dropped) else s.openings,
       pending := s.pending - {id}, subscriptions := s.subscriptions - {id})
  }

  /** A relay that gets no filters owes nothing. */
  function Opened(s: State, id: string, hasFilters: bool, connected: set<string>): State
    requires Valid(s)
  {
    if s.stopped then s else
      var c := Closed(s, id);
      Awaited(c.(subscriptions := if hasFilters then c.subscriptions + {id} else c.subscriptions),
              id, if hasFilters then connected else {})
  }

  /** A fresh pending set for an id. */
  function Awaited(s: State, id: string, snapshot: set<string>): State
  {
    var r := |s.openings|;
    s.(openings := s.openings + [Opening(id, snapshot, {}, Live)], sets := s.sets + [snapshot],
       pending := s.pending[id := r], micro := if snapshot == {} then s.micro + [r] else s.micro)
  }

  /** Emits the aggregated EOSE and forgets the pending set. */
  function Fire(s: State, id: string): State
    requires Valid(s)
  {
    if id !in s.pending then s else
      var r := s.pending[id];
      s.(openings := WithStatus(s.openings, r, Fired), pending := s.pending - {id}, fired := s.fired + multiset{r})
  }

  function Struck(s: State, r: nat, url: string): State
    requires Valid(s) && r < |s.openings|
  {
    s.(sets := s.sets[r := s.sets[r] - {url}],
       openings := s.openings[r := s.openings[r].(gone := s.openings[r].gone + {url})])
  }

  function RelayAnswered(s: State, url: string, wire: string): State
    requires Valid(s)
  {
    match FromWireSubId(wire)
    case None => s
    case Some(id) =>
      if id == "" || id !in s.pending then s else
        var after := Struck(s, s.pending[id], url);
        if after.sets[s.pending[id]] == {} then Fire(after, id) else after
  }

  /** The ids whose aggregate a departing relay completes. */
  ghost function Completed(s: State, url: string): set<string>
    requires Valid(s)
  {
    set id | id in s.pending && url in s.sets[s.pending[id]] && s.sets[s.pending[id]] == {url}
  }

  ghost function RefsOf(s: State, ids: set<string>): set<nat>
    requires Valid(s)
  {
    set id | id in ids && id in s.pending :: s.pending[id]
  }

  ghost function Departed(o: Opening, live: bool, done: bool, url: string): Opening
  {
    var struck := if live then o.(gone := o.gone + {url}) else o;
    if done then struck.(status := Fired) else struck
  }

  /** A relay struck from the pending sets of the ids in `seen`, and the ids in `done` fired. */
  ghost function Partly(s: State, url: string, seen: set<string>, done: set<string>): State
    requires Valid(s)
  {
    var live, over := RefsOf(s, seen), RefsOf(s, done);
    s.(openings := seq(|s.openings|, r requires 0 <= r < |s.openings| => Departed(s.openings[r], r in live, r in over, url)),
       sets := seq(|s.sets|, r requires 0 <= r < |s.sets| => if r in live then s.sets[r] - {url} else s.sets[r]),
       pending := s.pending - done,
       fired := s.fired + multiset(over))
  }

  /** A relay is no longer `connected`: every pending set stops waiting for it. */
  ghost function RelayLeft(s: State, url: string): State
    requires Valid(s)
  {
    Partly(s, url, s.pending.Keys, Completed(s, url))
  }

  /** The next microtask fires only if the id still holds the set it was queued for. */
  function MicrotaskRan(s: State): State
    requires Valid(s) && s.micro != []
  {
    var r := s.micro[0];
    var id := s.openings[r].id;
    var rest := s.(micro := s.micro[1..]);
    if id in s.pending && s.pending[id] == r then Fire(rest, id) else rest
  }

  ghost function Stopped(s: State): State
    requires Valid(s)
  {
    var live := RefsOf(s, s.pending.Keys);
    s.(openings := seq(|s.openings|, r requires 0 <= r < |s.openings| =>
                         if r in live then s.openings[r].(status := Dropped) else s.openings[r]),
       pending := map[], subscriptions := {}, stopped := true)
  }

  datatype Step =
    | Open(id: string, hasFilters: bool, connected: set<string>)
    | Close(id: string)
    | RelayEose(url: string, wire: string)
    | ConnectionState(url: string, up: bool)
    | Microtask
    | Start
    | Stop

  ghost function Next(s: State, step: Step): State
    requires Valid(s)
  {
    match step
    case Open(id, hasFilters, connected) => Opened(s, id, hasFilters, connected)
    case Close(id) => Closed(s, id)
    case RelayEose(url, wire) => RelayAnswered(s, url, wire)
    case ConnectionState(url, up) => if up then s else RelayLeft(s, url)
    case Microtask => if s.micro == [] then s else MicrotaskRan(s)
    case Start => s.(stopped := false)
    case Stop => Stopped(s)
  }

  // ---- what every run keeps

  /** A live opening is what its id waits on; it waits for exactly the relays still owing an
      answer, and if none does its own microtask is queued. */
  ghost predicate OpeningOk(s: State, r: nat)
    requires Valid(s) && r < |s.openings|
  {
    var o := s.openings[r];
    && (o.status.Live? <==> o.id in s.pending && s.pending[o.id] == r)
    && (o.status.Live? ==> s.sets[r] == o.snapshot - o.gone && (s.sets[r] == {} ==> o.snapshot == {} && r in s.micro))
    && (o.status.Fired? ==> o.snapshot <= o.gone) && (r in s.micro ==> o.snapshot == {})
    && s.fired[r] == (if o.status.Fired? then 1 else 0)
  }

  ghost predicate Inv(s: State)
  {
    && Valid(s)
    && (forall id | id in s.pending :: s.openings[s.pending[id]].id == id)
    && (forall r: nat | r < |s.openings| :: OpeningOk(s, r))
    && (forall r: nat | r >= |s.openings| :: s.fired[r] == 0)
  }

  lemma ClosedKeepsInv(s: State, id: string)
    requires Inv(s)
    ensures Inv(Closed(s, id)) && id !in Closed(s, id).pending && |Closed(s, id).openings| == |s.openings|
  {
    var s' := Closed(s, id);
    forall r: nat | r < |s'.openings| ensures OpeningOk(s', r) {
      assert OpeningOk(s, r);
    }
  }

  lemma AddedKeepsInv(c: State, id: string, snapshot: set<string>, after: State)
    requires Inv(c) && id !in c.pending
    requires |after.openings| == |c.openings| + 1 && |after.sets| == |c.sets| + 1
    requires after.openings == c.openings + [Opening(id, snapshot, {}, Live)] && after.sets == c.sets + [snapshot]
    requires after.pending == c.pending[id := |c.openings|] && after.fired == c.fired
    requires after.micro == if snapshot == {} then c.micro + [|c.openings|] else c.micro
    ensures Inv(after)
  {
    forall r: nat | r < |after.openings| ensures OpeningOk(after, r) {
      if r < |c.openings| {
        assert OpeningOk(c, r);
      }
    }
  }

  lemma OpenedKeepsInv(s: State, id: string, hasFilters: bool, connected: set<string>)
    requires Inv(s)
    ensures Inv(Opened(s, id, hasFilters, connected))
  {
    if !s.stopped {
      ClosedKeepsInv(s, id);
      AddedKeepsInv(Closed(s, id), id, if hasFilters then connected else {}, Opened(s, id, hasFilters, connected));
    }
  }

  /** Firing is right once nothing is owed, whatever the microtask queue holds. */
  ghost predicate InvBut(s: State, id: string)
  {
    && Valid(s) && id in s.pending && s.sets[s.pending[id]] == {}
    && (forall i | i in s.pending :: s.openings[s.pending[i]].id == i)
    && (forall r: nat | r < |s.openings| && r != s.pending[id] :: OpeningOk(s, r))
    && (forall r: nat | r >= |s.openings| :: s.fired[r] == 0)
    && (s.pending[id] in s.micro ==> s.openings[s.pending[id]].snapshot == {})
    && s.openings[s.pending[id]].snapshot <= s.openings[s.pending[id]].gone && s.fired[s.pending[id]] == 0
  }

  lemma FireRestoresInv(s: State, id: string)
    requires InvBut(s, id)
    ensures Inv(Fire(s, id))
  {
    var s' := Fire(s, id);
    forall r: nat | r < |s'.openings| ensures OpeningOk(s', r) {
      assert r != s.pending[id] ==> OpeningOk(s, r);
    }
  }

  lemma RelayAnsweredKeepsInv(s: State, url: string, wire: string)
    requires Inv(s)
    ensures Inv(RelayAnswered(s, url, wire))
  {
    match FromWireSubId(wire)
    case None =>
    case Some(id) =>
      if id != "" && id in s.pending {
        StruckKeeps(s, id, url);
        if Struck(s, s.pending[id], url).sets[s.pending[id]] == {} {
          FireRestoresInv(Struck(s, s.pending[id], url), id);
        }
      }
  }

  lemma StruckKeeps(s: State, id: string, url: string)
    requires Inv(s) && id in s.pending
    ensures var after := Struck(s, s.pending[id], url);
            Valid(after) && if after.sets[s.pending[id]] == {} then InvBut(after, id) else Inv(after)
  {
    var after := Struck(s, s.pending[id], url);
    assert OpeningOk(s, s.pending[id]);
    forall r: nat | r < |s.openings| && r != s.pending[id] ensures OpeningOk(after, r) {
      assert OpeningOk(s, r);
    }
  }

  lemma RelayLeftKeepsInv(s: State, url: string)
    requires Inv(s)
    ensures Inv(RelayLeft(s, url))
  {
    var s' := RelayLeft(s, url);
    forall r: nat | r < |s'.openings| ensures OpeningOk(s', r) {
      assert OpeningOk(s, r);
      WhoIsLive(s, r);
      WhoIsDone(s, r, url);
    }
  }

  lemma WhoIsLive(s: State, r: nat)
    requires Inv(s) && r < |s.openings|
    ensures r in RefsOf(s, s.pending.Keys) <==> s.openings[r].status.Live?
  {
    assert OpeningOk(s, r);
  }

  lemma WhoIsDone(s: State, r: nat, url: string)
    requires Inv(s) && r < |s.openings|
    ensures r in RefsOf(s, Completed(s, url)) <==> s.openings[r].status.Live? && s.openings[r].id in Completed(s, url)
  {
    assert OpeningOk(s, r);
  }

  lemma MicrotaskKeepsInv(s: State)
    requires Inv(s) && s.micro != []
    ensures Inv(MicrotaskRan(s))
  {
    var r := s.micro[0];
    var rest := s.(micro := s.micro[1..]);
    assert s.micro == [r] + rest.micro;
    assert OpeningOk(s, r);
    forall q: nat | q < |s.openings| && q != r ensures OpeningOk(rest, q) {
      assert OpeningOk(s, q);
    }
    if s.openings[r].status.Live? {
      LiveWithMicrotask(s, r);
      FireRestoresInv(rest, s.openings[r].id);
    } else {
      assert OpeningOk(rest, r);
    }
  }

  lemma LiveWithMicrotask(s: State, r: nat)
    requires Inv(s) && r in s.micro && s.openings[r].status.Live?
    ensures s.sets[r] == {} && s.openings[r].snapshot == {}
  {
    assert OpeningOk(s, r);
  }

  lemma StoppedKeepsInv(s: State)
    requires Inv(s)
    ensures Inv(Stopped(s))
  {
    var s' := Stopped(s);
    forall r: nat | r < |s'.openings| ensures OpeningOk(s', r) {
      assert OpeningOk(s, r);
      WhoIsLive(s, r);
    }
  }

  lemma StartedKeepsInv(s: State)
    requires Inv(s)
    ensures Inv(s.(stopped := false))
  {
    forall r: nat | r < |s.openings| ensures OpeningOk(s.(stopped := false), r) {
      assert OpeningOk(s, r);
    }
  }

  lemma StepKeepsInv(s: State, step: Step)
    requires Inv(s)
    ensures Inv(Next(s, step))
  {
    match step
    case Open(id, hasFilters, connected) => OpenedKeepsInv(s, id, hasFilters, connected);
    case Close(id) => ClosedKeepsInv(s, id);
    case RelayEose(url, wire) => RelayAnsweredKeepsInv(s, url, wire);
    case ConnectionState(url, up) =>
      if !up {
        RelayLeftKeepsInv(s, url);
      }
    case Microtask =>
      if s.micro != [] {
        MicrotaskKeepsInv(s);
      }
    case Start =>
      StartedKeepsInv(s);
    case Stop => StoppedKeepsInv(s);
  }

  /** A whole run. */
  ghost function After(s: State, steps: seq<Step>): (after: State)
    requires Inv(s)
    ensures Inv(after)
  {
    if steps == [] then s else
      var before := After(s, steps[..|steps| - 1]);
      StepKeepsInv(before, steps[|steps| - 1]);
      Next(before, steps[|steps| - 1])
  }

  /** A state some run reaches. */
  ghost predicate Reachable(s: State)
    ensures Reachable(s) ==> Inv(s)
  {
    exists steps :: s == After(Init(), steps)
  }

  // ---- what subscribers see

  /** Each `openSubscription` fires its aggregated EOSE at most once. */
  lemma FiresAtMostOnce(s: State, r: nat)
    requires Reachable(s)
    ensures s.fired[r] <= 1
  {
    if r < |s.openings| {
      assert OpeningOk(s, r);
    }
  }

  /** As long as an opening is neither closed nor replaced, it has fired exactly when every relay
      of a non-empty snapshot has answered or left. */
  lemma FiresExactlyWhenAllGone(s: State, r: nat)
    requires Reachable(s) && r < |s.openings|
    requires s.openings[r].snapshot != {} && !s.openings[r].status.Dropped?
    ensures s.fired[r] == 1 <==> s.openings[r].snapshot <= s.openings[r].gone
  {
    assert OpeningOk(s, r);
  }

  /** None can stall: an entry nobody owes an answer has its own microtask queued, and when that
      runs, it fires. */
  lemma NothingStalls(s: State, id: string)
    requires Reachable(s) && id in s.pending && s.sets[s.pending[id]] == {}
    ensures s.pending[id] in s.micro
    ensures s.micro[0] == s.pending[id] ==> MicrotaskRan(s).fired[s.pending[id]] == 1
  {
    assert OpeningOk(s, s.pending[id]);
  }

  /** A microtask whose opening its id no longer holds fires nothing. */
  lemma StaleMicrotaskIsSilent(s: State)
    requires Reachable(s) && s.micro != [] && !s.openings[s.micro[0]].status.Live?
    ensures MicrotaskRan(s).fired == s.fired
  {
    assert OpeningOk(s, s.micro[0]);
  }

  lemma StaysDropped(s: State, step: Step, r: nat)
    requires Inv(s) && r < |s.openings| && s.openings[r].status.Dropped?
    ensures r < |Next(s, step).openings| && Next(s, step).openings[r].status.Dropped?
  {
    assert OpeningOk(s, r);
    WhoIsLive(s, r);
    if step.ConnectionState? {
      WhoIsDone(s, r, step.url);
    }
    if step.Microtask? && s.micro != [] {
      assert OpeningOk(s, s.micro[0]);
    }
  }

  /** What was closed, replaced or stopped never fires, however the run goes on. */
  lemma {:induction false} DroppedNeverFires(s: State, more: seq<Step>, r: nat)
    requires Inv(s) && r < |s.openings| && s.openings[r].status.Dropped?
    ensures r < |After(s, more).openings| && After(s, more).openings[r].status.Dropped?
    ensures After(s, more).fired[r] == 0
    decreases |more|
  {
    if more == [] {
      assert OpeningOk(s, r);
    } else {
      var before, last := After(s, more[..|more| - 1]), more[|more| - 1];
      DroppedNeverFires(s, more[..|more| - 1], r);
      StaysDropped(before, last, r);
      StepKeepsInv(before, last);
      assert OpeningOk(Next(before, last), r);
    }
  }

  /** Reusing an id in one tick: the first opening never fires, the second still does. */
  lemma ReuseInOneTick(s: State, id: string, hasFilters: bool, connected: set<string>)
    requires Inv(s) && !s.stopped && id in s.pending
    ensures var s' := Opened(s, id, hasFilters, connected);
            var r := s.pending[id];
            s'.openings[r].status.Dropped? && s'.pending[id] == |s.openings| && s'.openings[|s.openings|].status.Live?
  {
    assert OpeningOk(s, s.pending[id]);
  }
}
