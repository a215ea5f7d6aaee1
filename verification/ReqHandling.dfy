/** How one REQ is answered: replay from the cache, withhold what the cache has answered in
    full, and open the rest upstream with the delivered ids as seed. */
module ReqHandling {
  import opened Order
  import opened Events
  import opened FilterUtils
  import opened Narrowing
  import C = Coordinator
  import I = CoordinatorInvariant
  import R = CoordinatorRuns
  import T = CoordinatorTheorems

  /** The freshness gate's configuration and what storage answers it. */
  datatype Gate = Gate(windows: Windows, reply: CachedAtReply, now: Number)

  datatype Outcome =
    | StorageError
    | EoseNow(sent: seq<Event>)
    | OpenUpstream(sent: seq<Event>, filters: seq<ReqFilter>)

  function IdsOf(q: seq<Event>): (r: seq<string>)
    ensures |r| == |q|
  {
    seq(|q|, i requires 0 <= i < |q| => q[i].id)
  }

  /** The filters neither narrowing withholds. */
  function Forwarded(filters: seq<ReqFilter>, sent: seq<Event>, gate: Option<Gate>): seq<ReqFilter>
  {
    var uncovered := Uncovered(filters, set id | id in IdsOf(sent));
    if gate.Some? && gate.value.reply.Times?
    then Stale(uncovered, sent, gate.value.reply.times, gate.value.windows, gate.value.now)
    else uncovered
  }

  /** The handler's decision, once the subscription is registered. */
  method AnswerReq(filters: seq<ReqFilter>, stored: Option<seq<Event>>, maxEvents: nat, upstream: bool, gate: Option<Gate>)
    returns (o: Outcome)
    requires filters != []
    ensures o.StorageError? <==> stored.None?
    ensures stored.Some? ==> o.sent == CapEvents(stored.value, maxEvents)
    ensures stored.Some? && !upstream ==> o.EoseNow?
    ensures stored.Some? && upstream ==>
              var kept := Forwarded(filters, o.sent, gate);
              o == if kept == [] then EoseNow(o.sent) else OpenUpstream(o.sent, kept)
  {
    if stored.None? {
      return StorageError;
    }
    var sent := CapEvents(stored.value, maxEvents);
    var upstreamFilters := filters;
    if upstream {
      upstreamFilters := NarrowFiltersByIdCoverage(filters, IdsOf(sent));
      if gate.Some? && |upstreamFilters| > 0 {
        upstreamFilters := FiltersForUpstream(upstreamFilters, sent, gate.value.windows, gate.value.reply, gate.value.now);
      }
      if |upstreamFilters| > 0 {
        return OpenUpstream(sent, upstreamFilters);
      }
    }
    return EoseNow(sent);
  }

  /** A filter is withheld exactly when the delivered ids cover it or every coordinate it asks for
      was delivered fresh. */
  lemma WithheldExactlyWhen(filters: seq<ReqFilter>, sent: seq<Event>, gate: Option<Gate>, f: ReqFilter)
    requires f in filters
    ensures f !in Forwarded(filters, sent, gate)
       <==> IsIdCovered(f, Elements(IdsOf(sent)))
            || (gate.Some? && gate.value.reply.Times?
                && Withheld(f, sent, gate.value.reply.times, gate.value.windows, gate.value.now))
  {
    var uncovered := Uncovered(filters, Elements(IdsOf(sent)));
    UncoveredMembers(filters, Elements(IdsOf(sent)));
    if gate.Some? && gate.value.reply.Times? {
      StaleMembers(uncovered, sent, gate.value.reply.times, gate.value.windows, gate.value.now);
    }
  }

  // ---- withholding a covered filter is unobservable

  lemma {:induction false} RunKeepsInv(s: C.State, steps: seq<C.Step>)
    requires R.Inv(s)
    ensures R.Inv(C.After(s, steps))
    decreases |steps|
  {
    if steps != [] {
      RunKeepsInv(s, steps[..|steps| - 1]);
      R.StepKeepsInv(C.After(s, steps[..|steps| - 1]), steps[|steps| - 1]);
    }
  }

  lemma StepKeepsSeed(s: C.State, step: C.Step, n: nat)
    requires R.Inv(s) && n in s.states
    ensures n in C.Next(s, step).states && C.Next(s, step).states[n].seed == s.states[n].seed
  {
    T.StepPersists(s, step, n);
  }

  lemma {:induction false} RunKeepsSeed(s: C.State, steps: seq<C.Step>, n: nat)
    requires R.Inv(s) && n in s.states
    ensures n in C.After(s, steps).states && C.After(s, steps).states[n].seed == s.states[n].seed
    decreases |steps|
  {
    if steps != [] {
      RunKeepsInv(s, steps[..|steps| - 1]);
      RunKeepsSeed(s, steps[..|steps| - 1], n);
      StepKeepsSeed(C.After(s, steps[..|steps| - 1]), steps[|steps| - 1], n);
    }
  }

  lemma HeldOrDisplaced(cap: nat, sub: C.Sub, k: nat)
    requires I.WindowOk(cap, sub) && k < |sub.seed|
    ensures sub.seed[k] in sub.sentIds || I.Displaced(cap, sub.entered, k)
  {
    if k >= sub.evicted {
      assert sub.sentIds[k - sub.evicted] == sub.entered[k];
    }
  }

  /** However the run goes on after the REQ opened its subscription, an event answering a withheld,
      id-covered filter changes nothing on arrival, unless `cap` other ids have since pushed its
      id out of the dedup window. */
  lemma WithholdingIsUnobservable(s: C.State, key: C.Key, sent: seq<Event>, f: ReqFilter, e: Event, steps: seq<C.Step>)
    requires R.Inv(s) && IsIdCovered(f, Elements(IdsOf(sent))) && Satisfies(e, f)
    ensures var begun := C.Opened(s, key, IdsOf(sent));
            var n := begun.sequence;
            var later := C.After(begun, steps);
            n in later.states
            && (C.EventArrived(later, n, e) == later
                || exists k: nat :: k < |later.states[n].entered| && later.states[n].entered[k] == e.id
                                    && I.Displaced(s.cap, later.states[n].entered, k))
  {
    var begun, n := C.Opened(s, key, IdsOf(sent)), C.Opened(s, key, IdsOf(sent)).sequence;
    var later := C.After(begun, steps);
    R.OpenedKeepsInv(s, key, IdsOf(sent));
    RunKeepsInv(begun, steps);
    RunKeepsSeed(begun, steps, n);
    CoveredHasNothingNew(f, Elements(IdsOf(sent)), e);
    assert e.id in Elements(FirstOccurrences(IdsOf(sent)));
    SameCap(begun, steps);
    assert I.SubOk(later.cap, later.states[n]);
    SeededIsKnown(later.cap, later.states[n], e.id);
  }

  lemma SeededIsKnown(cap: nat, sub: C.Sub, id: string)
    requires I.WindowOk(cap, sub) && id in Elements(sub.seed)
    ensures id in sub.sentIds
            || exists k: nat :: k < |sub.entered| && sub.entered[k] == id && I.Displaced(cap, sub.entered, k)
  {
    var k: nat :| k < |sub.seed| && sub.seed[k] == id;
    HeldOrDisplaced(cap, sub, k);
    assert sub.entered[k] == sub.seed[k];
  }

  lemma {:induction false} SameCap(s: C.State, steps: seq<C.Step>)
    ensures C.After(s, steps).cap == s.cap
    decreases |steps|
  {
    if steps != [] {
      SameCap(s, steps[..|steps| - 1]);
    }
  }
}
