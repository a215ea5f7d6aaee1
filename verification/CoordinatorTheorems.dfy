/** What clients see of the coordinator, whatever upstream relays, timers and clients do. */
module CoordinatorTheorems {
  import opened Order
  import opened Events
  import opened Coordinator
  import opened CoordinatorInvariant
  import opened CoordinatorRuns

  /** A state some run reaches. */
  ghost predicate Reachable(s: State)
  {
    exists cap: nat, steps: seq<Step> :: s == After(Init(cap), steps)
  }

  lemma ReachableInv(s: State)
    requires Reachable(s)
    ensures Inv(s)
  {
    var cap: nat, steps :| s == After(Init(cap), steps);
    EveryRunKeepsInv(cap, steps);
  }

  lemma TicketsFollowOrder(s: State, i: nat, j: nat)
    requires LogOrdered(s.wire) && i < |s.wire| && j < |s.wire| && s.wire[i].ref == s.wire[j].ref
    ensures i < j <==> s.wire[i].ticket < s.wire[j].ticket
  {
    assert i < j ==> Before(s.wire[i], s.wire[j]);
    assert j < i ==> Before(s.wire[j], s.wire[i]);
  }

  /** Each subscription sends its client at most one EOSE. */
  lemma AtMostOneEose(s: State, i: nat, j: nat)
    requires Reachable(s) && i < |s.wire| && j < |s.wire|
    requires s.wire[i].Eose? && s.wire[j].Eose? && s.wire[i].ref == s.wire[j].ref
    ensures i == j
  {
    ReachableInv(s);
    var n := s.wire[i].ref;
    assert Logged(s.cap, s.states[n], s.wire[i]) && Logged(s.cap, s.states[n], s.wire[j]);
    assert SubOk(s.cap, s.states[n]);
    TicketsFollowOrder(s, i, j);
    TicketsFollowOrder(s, j, i);
  }

  /** The link a message came from. */
  ghost predicate CameFrom(s: State, w: Sent, task: Task)
  {
    w.ref in s.states && w.ticket < s.states[w.ref].done <= |s.states[w.ref].chain|
    && s.states[w.ref].chain[w.ticket] == task
  }

  /** An event was delivered before the EOSE exactly when it was queued before the EOSE was
      released, and by then every link queued before the release has settled. */
  lemma EoseInItsPlace(s: State, i: nat, j: nat)
    requires Reachable(s) && i < |s.wire| && j < |s.wire|
    requires s.wire[i].Delivered? && s.wire[j].Eose? && s.wire[i].ref == s.wire[j].ref
    ensures CameFrom(s, s.wire[i], Ingest(s.wire[i].event)) && CameFrom(s, s.wire[j], ReleaseEose)
    ensures i < j <==> s.wire[i].ticket < s.wire[j].ticket
  {
    ReachableInv(s);
    var n := s.wire[i].ref;
    assert Logged(s.cap, s.states[n], s.wire[i]) && Logged(s.cap, s.states[n], s.wire[j]);
    TicketsFollowOrder(s, i, j);
  }

  /** Deliveries follow the order of arrival, each link delivering at most once. */
  lemma DeliveriesInOrder(s: State, i: nat, j: nat)
    requires Reachable(s) && i < j < |s.wire| && s.wire[i].ref == s.wire[j].ref
    ensures s.wire[i].ticket < s.wire[j].ticket
  {
    ReachableInv(s);
    TicketsFollowOrder(s, i, j);
  }

  /** A subscription still open either holds an armed timeout, or has released its EOSE, which is
      on the wire as soon as everything queued before it has settled. */
  lemma EoseIsNotLost(s: State, n: nat)
    requires Reachable(s) && n in s.subs
    ensures n in s.states && var sub := s.states[n];
            if sub.eoseSent
            then !sub.timer && exists k :: 0 <= k < |sub.chain| && sub.chain[k] == ReleaseEose && (k < sub.done ==> Eose(n, k) in s.wire)
            else sub.timer
  {
    ReachableInv(s);
    var sub := s.states[n];
    assert SubOk(s.cap, sub) && EoseOf(s.wire, n, sub);
    if sub.eoseSent {
      var k :| 0 <= k < |sub.chain| && sub.chain[k] == ReleaseEose;
      assert k < sub.done ==> Eose(n, k) in s.wire;
    }
  }

  // ---- after a close

  /** The subscription's client still listens through it. */
  ghost predicate Listening(s: State, n: nat)
  {
    n in s.subs && n in s.states && s.states[n].key in s.byClientSub && s.byClientSub[s.states[n].key] == n
  }

  /** Every step sends at most one message, for a subscription its client is listening through. */
  ghost predicate SendsToListeners(s: State, after: State)
  {
    && |s.wire| <= |after.wire| && after.wire[..|s.wire|] == s.wire
    && forall i | |s.wire| <= i < |after.wire| :: Listening(s, after.wire[i].ref)
  }

  lemma StepSendsToListeners(s: State, step: Step)
    requires Routes(s)
    ensures SendsToListeners(s, Next(s, step)) && |Next(s, step).wire| <= |s.wire| + 1
  {
    if !step.RunTask? && !step.FinishIngest? {
      assert Next(s, step).wire == s.wire + [] == s.wire;
    }
  }

  ghost predicate Gone(s: State, n: nat)
  {
    n in s.states && s.states[n].closed
  }

  /** What no step takes from a subscription: links are only appended and settle in order, and an
      ingest under way stays so until it settles. */
  ghost predicate Persists(sub: Sub, after: Sub)
  {
    && after.key == sub.key && after.seed == sub.seed && (sub.closed ==> after.closed)
    && sub.chain <= after.chain && sub.done <= after.done
    && (sub.busy && after.done == sub.done ==> after.busy)
  }

  lemma AddPersists(cap: nat, sub: Sub, id: string)
    ensures Persists(sub, AddSentId(cap, sub, id))
  {
  }

  lemma ResumePersists(cap: nat, sub: Sub, result: IngestResult)
    requires Awaiting(sub)
    ensures Persists(sub, Resume(cap, sub, result))
  {
    AddPersists(cap, sub, sub.chain[sub.done].event.id);
  }

  lemma QuietPersists(s: State, after: State, n: nat)
    requires Quiet(s, after) && n in s.states
    ensures n in after.states && Persists(s.states[n], after.states[n])
  {
  }

  lemma OpeningPersists(s: State, key: Key, ids: seq<string>, n: nat)
    requires Routes(s) && n in s.states
    ensures n in Closed(s, key).states && Persists(s.states[n], Closed(s, key).states[n])
    ensures n in Opened(s, key, ids).states && Persists(s.states[n], Opened(s, key, ids).states[n])
  {
    ClosedKeepsRoutes(s, key);
    AddedKeepsRoutes(Closed(s, key), key, ids, Opened(s, key, ids));
    QuietPersists(s, Closed(s, key), n);
    QuietPersists(Closed(s, key), Opened(s, key, ids), n);
  }

  lemma MarkingPersists(s: State, key: Key, id: string, n: nat)
    requires Routes(s) && n in s.states
    ensures n in Marked(s, key, id).states && Persists(s.states[n], Marked(s, key, id).states[n])
  {
    if key in s.byClientSub {
      AddPersists(s.cap, s.states[s.byClientSub[key]], id);
    }
  }

  lemma RunningPersists(s: State, m: nat, result: IngestResult, n: nat)
    requires n in s.states && m in s.states
    ensures Ready(s.states[m]) ==> n in Began(s, m).states && Persists(s.states[n], Began(s, m).states[n])
    ensures Awaiting(s.states[m]) ==> n in Resumed(s, m, result).states && Persists(s.states[n], Resumed(s, m, result).states[n])
  {
    if Awaiting(s.states[m]) {
      ResumePersists(s.cap, s.states[m], result);
    }
  }

  lemma QueueingPersists(s: State, m: nat, e: Event, n: nat)
    requires n in s.states
    ensures n in EventArrived(s, m, e).states && Persists(s.states[n], EventArrived(s, m, e).states[n])
  {
  }

  lemma FlushingPersists(s: State, m: nat, n: nat)
    requires n in s.states
    ensures n in Flushed(s, m).states && Persists(s.states[n], Flushed(s, m).states[n])
  {
  }

  lemma LeavingPersists(s: State, client: string, n: nat)
    requires Routes(s) && n in s.states
    ensures n in Disconnected(s, client).states && Persists(s.states[n], Disconnected(s, client).states[n])
    ensures n in Stopped(s).states && Persists(s.states[n], Stopped(s).states[n])
  {
  }

  lemma StepPersists(s: State, step: Step, n: nat)
    requires Routes(s) && n in s.states
    ensures n in Next(s, step).states && Persists(s.states[n], Next(s, step).states[n])
  {
    match step
    case Open(key, ids) => OpeningPersists(s, key, ids, n);
    case Close(key) => OpeningPersists(s, key, [], n);
    case Disconnect(client) => LeavingPersists(s, client, n);
    case MarkDelivered(key, id) => MarkingPersists(s, key, id, n);
    case UpstreamEvent(m, e) => QueueingPersists(s, m, e, n);
    case UpstreamEose(m) => FlushingPersists(s, m, n);
    case Timeout(m) => FlushingPersists(s, m, n);
    case RunTask(m) =>
      if m in s.states {
        RunningPersists(s, m, Threw, n);
      }
    case FinishIngest(m, result) =>
      if m in s.states {
        RunningPersists(s, m, result, n);
      }
    case Stop => LeavingPersists(s, "", n);
  }

  lemma GoneStays(s: State, step: Step, n: nat)
    requires Inv(s) && Gone(s, n)
    ensures Gone(Next(s, step), n)
  {
    StepPersists(s, step, n);
  }

  /** How many messages a subscription has sent. */
  ghost function SentBy(wire: seq<Sent>, n: nat): nat
  {
    |set i | 0 <= i < |wire| && wire[i].ref == n|
  }

  lemma SilentGrowth(before: seq<Sent>, after: seq<Sent>, n: nat)
    requires |before| <= |after| && after[..|before|] == before
    requires forall i | |before| <= i < |after| :: after[i].ref != n
    ensures SentBy(after, n) == SentBy(before, n)
  {
    assert forall i | 0 <= i < |before| :: after[i] == before[i];
    assert (set i | 0 <= i < |after| && after[i].ref == n) == (set i | 0 <= i < |before| && before[i].ref == n);
  }

  lemma GoneIsSilent(s: State, step: Step, n: nat)
    requires Inv(s) && Gone(s, n)
    ensures SentBy(Next(s, step).wire, n) == SentBy(s.wire, n)
  {
    StepSendsToListeners(s, step);
    SilentGrowth(s.wire, Next(s, step).wire, n);
  }

  /** Once closed, a subscription object never sends again, however long the run goes on:
      neither events still being ingested nor a pending EOSE. */
  lemma {:induction false} NothingAfterClose(s: State, steps: seq<Step>, n: nat)
    requires Reachable(s) && Gone(s, n)
    ensures Gone(After(s, steps), n) && Inv(After(s, steps))
    ensures SentBy(After(s, steps).wire, n) == SentBy(s.wire, n)
    decreases |steps|
  {
    if steps == [] {
      ReachableInv(s);
    } else {
      var front, last := steps[..|steps| - 1], steps[|steps| - 1];
      NothingAfterClose(s, front, n);
      GoneStays(After(s, front), last, n);
      GoneIsSilent(After(s, front), last, n);
      StepKeepsInv(After(s, front), last);
    }
  }

  /** A CLOSE, a disconnect, a reused id and a shutdown each leave the old object closed. */
  lemma WhatCloses(s: State, key: Key, ids: seq<string>)
    requires Reachable(s) && key in s.byClientSub
    ensures var n := s.byClientSub[key];
            && Gone(Closed(s, key), n) && Gone(Opened(s, key, ids), n)
            && Gone(Disconnected(s, key.client), n) && Gone(Stopped(s), n)
            && Opened(s, key, ids).byClientSub[key] != n
  {
    ReachableInv(s);
  }

  // ---- the dedup window

  /** An id displaced at entry `k` was followed by `cap` other ids, all different. */
  lemma DisplacedByOthers(cap: nat, entered: seq<string>, k: nat)
    requires Displaced(cap, entered, k)
    ensures |Elements(entered[k + 1..k + 1 + cap])| == cap && entered[k] !in entered[k + 1..k + 1 + cap]
  {
    var span := entered[k..k + cap + 1];
    assert span[1..] == entered[k + 1..k + 1 + cap];
    assert span[0] !in span[1..];
    DistinctCount(span[1..]);
  }

  /** By the time `mark` ids had entered, the id at entry `k` had `cap` other ids behind it. */
  ghost predicate PushedOut(s: State, n: nat, k: nat, mark: nat, id: string)
  {
    && n in s.states && k + s.cap < mark <= |s.states[n].entered| && s.states[n].entered[k] == id
    && |Elements(s.states[n].entered[k + 1..k + 1 + s.cap])| == s.cap
    && id !in s.states[n].entered[k + 1..k + 1 + s.cap]
  }

  lemma ForgottenIsPushedOut(s: State, n: nat, k: nat, mark: nat, id: string)
    requires n in s.states && Forgotten(s.cap, s.states[n].entered, mark, id)
    requires k < mark && s.states[n].entered[k] == id
    ensures PushedOut(s, n, k, mark, id)
  {
    var entered := s.states[n].entered;
    DisplacedByOthers(s.cap, entered[..mark], k);
    assert entered[..mark][k + 1..k + 1 + s.cap] == entered[k + 1..k + 1 + s.cap];
  }

  /** An id that had entered the window before its ingest began, by whatever path, goes out
      only after `cap` other ids entered behind it. */
  lemma KnownIdOnlyIfPushedOut(s: State, j: nat, k: nat)
    requires Reachable(s) && j < |s.wire| && s.wire[j].Delivered? && s.wire[j].ref in s.states
    requires k < s.wire[j].mark && k < |s.states[s.wire[j].ref].entered|
    requires s.states[s.wire[j].ref].entered[k] == s.wire[j].event.id
    ensures PushedOut(s, s.wire[j].ref, k, s.wire[j].mark, s.wire[j].event.id)
  {
    ReachableInv(s);
    assert Logged(s.cap, s.states[s.wire[j].ref], s.wire[j]);
    ForgottenIsPushedOut(s, s.wire[j].ref, k, s.wire[j].mark, s.wire[j].event.id);
  }

  /** An event id is delivered again only after `cap` other ids entered the window behind it. */
  lemma RedeliveredOnlyIfPushedOut(s: State, i: nat, j: nat)
    requires Reachable(s) && i < j < |s.wire| && s.wire[i].Delivered? && s.wire[j].Delivered?
    requires s.wire[i].ref == s.wire[j].ref && s.wire[i].event.id == s.wire[j].event.id
    ensures PushedOut(s, s.wire[i].ref, s.wire[i].at, s.wire[j].mark, s.wire[j].event.id)
  {
    ReachableInv(s);
    assert Before(s.wire[i], s.wire[j]);
    assert Logged(s.cap, s.states[s.wire[i].ref], s.wire[i]);
    KnownIdOnlyIfPushedOut(s, j, s.wire[i].at);
  }

  lemma SeedEntered(cap: nat, sub: Sub, k: nat)
    requires WindowOk(cap, sub) && k < |sub.seed|
    ensures k < |sub.entered| && sub.entered[k] == sub.seed[k]
  {
  }

  /** What local storage already delivered is delivered again only after `cap` other ids. */
  lemma SeedRedeliveredOnlyIfPushedOut(s: State, n: nat, j: nat, k: nat)
    requires Reachable(s) && n in s.states && j < |s.wire| && s.wire[j].Delivered? && s.wire[j].ref == n
    requires k < |s.states[n].seed| && s.states[n].seed[k] == s.wire[j].event.id
    ensures PushedOut(s, n, k, s.wire[j].mark, s.wire[j].event.id)
  {
    ReachableInv(s);
    assert Logged(s.cap, s.states[n], s.wire[j]) && SubOk(s.cap, s.states[n]);
    SeedEntered(s.cap, s.states[n], k);
    KnownIdOnlyIfPushedOut(s, j, k);
  }

  /** The window never outgrows the cap or the seed, whichever is larger. */
  lemma WindowBounded(s: State, n: nat)
    requires Reachable(s) && n in s.states
    ensures |s.states[n].sentIds| <= s.cap || |s.states[n].sentIds| <= |s.states[n].seed|
    ensures NoDuplicates(s.states[n].sentIds)
  {
    ReachableInv(s);
    assert SubOk(s.cap, s.states[n]);
  }

  /** Exactly the subscriptions some client listens through are open at the pool. */
  lemma PoolHoldsWhatClientsHold(s: State)
    requires Reachable(s)
    ensures s.pool == set key | key in s.byClientSub :: s.byClientSub[key]
  {
    ReachableInv(s);
    forall n ensures n in s.pool <==> n in (set key | key in s.byClientSub :: s.byClientSub[key]) {
      if n in s.pool {
        assert s.states[n].key in s.byClientSub;
      }
    }
  }
}
