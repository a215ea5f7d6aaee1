/** Which filters of a REQ need no upstream relay: those the cache has answered by id, and
    those inside their freshness window. */
module Narrowing {
  import opened Order
  import opened Events
  import opened FilterUtils

  /** What a client put under `ids`. */
  datatype IdsField = NoIds | NotAnArray(raw: string) | ListOf(values: seq<string>)

  /** A filter as it arrives in a REQ. */
  datatype ReqFilter = ReqFilter(
    ids: IdsField, authors: Option<seq<string>>, kinds: Option<seq<int>>,
    since: Option<int>, until: Option<int>, tags: seq<(string, TagCondition)>)

  /** A relay that honours a filter returns only events like this. */
  predicate Satisfies(e: Event, f: ReqFilter)
  {
    && (f.ids.ListOf? ==> e.id in f.ids.values)
    && (f.authors.Some? ==> e.pubkey in f.authors.value)
    && (f.kinds.Some? ==> e.kind in f.kinds.value)
    && (f.since.Some? ==> e.createdAt >= f.since.value)
    && (f.until.Some? ==> e.createdAt <= f.until.value)
    && forall entry | entry in f.tags :: TagEntryMatches(e, entry)
  }

  // ---- by id

  predicate IsIdCovered(f: ReqFilter, delivered: set<string>)
  {
    f.ids.ListOf? && forall id | id in f.ids.values :: id in delivered
  }

  function Uncovered(filters: seq<ReqFilter>, delivered: set<string>): seq<ReqFilter>
  {
    if filters == [] then [] else
      Uncovered(filters[..|filters| - 1], delivered)
      + (if IsIdCovered(filters[|filters| - 1], delivered) then [] else [filters[|filters| - 1]])
  }

  lemma {:induction false} NothingToCover(filters: seq<ReqFilter>, delivered: set<string>)
    requires forall f | f in filters :: !f.ids.ListOf?
    ensures Uncovered(filters, delivered) == filters
  {
    if filters != [] {
      var front := filters[..|filters| - 1];
      assert filters == front + [filters[|filters| - 1]];
      NothingToCover(front, delivered);
    }
  }

  method NarrowFiltersByIdCoverage(filters: seq<ReqFilter>, sentIds: seq<string>) returns (r: seq<ReqFilter>)
    ensures r == Uncovered(filters, Elements(sentIds))
  {
    if !exists f | f in filters :: f.ids.ListOf? {
      NothingToCover(filters, Elements(sentIds));
      return filters;
    }
    var delivered := set id | id in sentIds;
    r := [];
    for i := 0 to |filters|
      invariant r == Uncovered(filters[..i], delivered)
    {
      assert filters[..i + 1][..i] == filters[..i];
      if !IsIdCovered(filters[i], delivered) {
        r := r + [filters[i]];
      }
    }
    assert filters[..|filters|] == filters;
  }

  lemma {:induction false} UncoveredMembers(filters: seq<ReqFilter>, delivered: set<string>)
    ensures forall f :: f in Uncovered(filters, delivered) <==> f in filters && !IsIdCovered(f, delivered)
  {
    if filters != [] {
      var front, last := filters[..|filters| - 1], filters[|filters| - 1];
      assert filters == front + [last];
      UncoveredMembers(front, delivered);
    }
  }

  /** Nothing an honest relay could answer a covered filter with is new to the client. */
  lemma CoveredHasNothingNew(f: ReqFilter, delivered: set<string>, e: Event)
    requires IsIdCovered(f, delivered) && Satisfies(e, f)
    ensures e.id in delivered
  {
  }

  // ---- by freshness

  predicate IsFinite(n: Option<Number>)
  {
    n.Some? && n.value.Finite?
  }

  /** Whether a cached copy counts as fresh; anything unusable is stale. */
  predicate IsWithinWindow(cached: Option<Number>, windowSeconds: Option<Number>, now: Number)
  {
    if !IsFinite(windowSeconds) || windowSeconds.value.value <= 0.0 then false
    else if !IsFinite(cached) || !now.Finite? then false
    else if cached.value.value > now.value then false
    else now.value - cached.value.value <= windowSeconds.value.value * 1000.0
  }

  function At<K, V>(m: map<K, V>, k: K): Option<V>
  {
    if k in m then Some(m[k]) else None
  }

  type Windows = map<int, Number>

  /** A filter whose every possible answer is enumerable as (kind, author) coordinates. */
  predicate IsFreshnessEligible(f: ReqFilter, windows: Windows)
  {
    && f.ids.NoIds? && f.since.None? && f.until.None?
    && Lists(f.kinds) && Lists(f.authors)
    && (forall kind | kind in f.kinds.value :: IsReplaceableKind(kind) && kind in windows)
    && f.tags == []
  }

  /** The event was delivered fresh. */
  predicate IsFresh(e: Event, cachedAt: map<string, Number>, windows: Windows, now: Number)
  {
    IsWithinWindow(At(cachedAt, e.id), At(windows, e.kind), now)
  }

  /** Every coordinate a filter asks for was delivered by this REQ, fresh. */
  predicate AllFresh(f: ReqFilter, sent: seq<Event>, cachedAt: map<string, Number>, windows: Windows, now: Number)
    requires f.kinds.Some? && f.authors.Some?
  {
    forall kind, author | kind in f.kinds.value && author in f.authors.value ::
      exists e | e in sent :: e.kind == kind && e.pubkey == author && IsFresh(e, cachedAt, windows, now)
  }

  predicate Withheld(f: ReqFilter, sent: seq<Event>, cachedAt: map<string, Number>, windows: Windows, now: Number)
  {
    IsFreshnessEligible(f, windows) && AllFresh(f, sent, cachedAt, windows, now)
  }

  function Stale(filters: seq<ReqFilter>, sent: seq<Event>, cachedAt: map<string, Number>, windows: Windows, now: Number): seq<ReqFilter>
  {
    if filters == [] then [] else
      Stale(filters[..|filters| - 1], sent, cachedAt, windows, now)
      + (if Withheld(filters[|filters| - 1], sent, cachedAt, windows, now) then [] else [filters[|filters| - 1]])
  }

  ghost function FreshCoordinates(sent: seq<Event>, cachedAt: map<string, Number>, windows: Windows, now: Number): set<(int, string)>
  {
    set e | e in sent && IsFresh(e, cachedAt, windows, now) :: (e.kind, e.pubkey)
  }

  predicate Has(covered: set<(int, string)>, kind: int, author: string)
  {
    (kind, author) in covered
  }

  predicate AllIn(f: ReqFilter, covered: set<(int, string)>)
    requires f.kinds.Some? && f.authors.Some?
  {
    forall k, a | k in f.kinds.value && a in f.authors.value :: Has(covered, k, a)
  }

  /** The nested loops over a filter's coordinates, leaving at the first one that is not fresh. */
  method MustForward(f: ReqFilter, covered: set<(int, string)>) returns (forward: bool)
    requires f.kinds.Some? && f.authors.Some?
    ensures forward <==> !AllIn(f, covered)
  {
    var kinds, authors := f.kinds.value, f.authors.value;
    for i := 0 to |kinds|
      invariant forall k, a | k in kinds[..i] && a in authors :: Has(covered, k, a)
    {
      for j := 0 to |authors|
        invariant forall a | a in authors[..j] :: Has(covered, kinds[i], a)
      {
        if !Has(covered, kinds[i], authors[j]) {
          assert kinds[i] in f.kinds.value && authors[j] in f.authors.value;
          assert !AllIn(f, covered);
          return true;
        }
      }
      assert kinds[..i + 1] == kinds[..i] + [kinds[i]];
    }
    return false;
  }

  lemma FreshSetIsAllFresh(f: ReqFilter, sent: seq<Event>, cachedAt: map<string, Number>, windows: Windows, now: Number)
    requires f.kinds.Some? && f.authors.Some?
    ensures AllFresh(f, sent, cachedAt, windows, now)
       <==> AllIn(f, FreshCoordinates(sent, cachedAt, windows, now))
  {
    forall k, a ensures (k, a) in FreshCoordinates(sent, cachedAt, windows, now)
                   <==> exists e | e in sent :: e.kind == k && e.pubkey == a && IsFresh(e, cachedAt, windows, now)
    {
    }
  }

  method NarrowFiltersByFreshness(
    filters: seq<ReqFilter>, sent: seq<Event>, cachedAt: map<string, Number>, windows: Windows, now: Number)
    returns (r: seq<ReqFilter>)
    ensures r == Stale(filters, sent, cachedAt, windows, now)
  {
    var covered: set<(int, string)> := {};
    for i := 0 to |sent|
      invariant covered == FreshCoordinates(sent[..i], cachedAt, windows, now)
    {
      OneMoreSent(sent, i, cachedAt, windows, now);
      if IsWithinWindow(At(cachedAt, sent[i].id), At(windows, sent[i].kind), now) {
        covered := covered + {(sent[i].kind, sent[i].pubkey)};
      }
    }
    assert sent[..|sent|] == sent;
    r := [];
    for i := 0 to |filters|
      invariant r == Stale(filters[..i], sent, cachedAt, windows, now)
    {
      assert filters[..i + 1][..i] == filters[..i];
      var forward := true;
      if IsFreshnessEligible(filters[i], windows) {
        FreshSetIsAllFresh(filters[i], sent, cachedAt, windows, now);
        forward := MustForward(filters[i], covered);
      }
      if forward {
        r := r + [filters[i]];
      }
    }
    assert filters[..|filters|] == filters;
  }

  lemma OneMoreSent(sent: seq<Event>, i: nat, cachedAt: map<string, Number>, windows: Windows, now: Number)
    requires i < |sent|
    ensures FreshCoordinates(sent[..i + 1], cachedAt, windows, now)
         == FreshCoordinates(sent[..i], cachedAt, windows, now)
            + (if IsFresh(sent[i], cachedAt, windows, now) then {(sent[i].kind, sent[i].pubkey)} else {})
  {
    assert sent[..i + 1] == sent[..i] + [sent[i]];
  }

  lemma {:induction false} StaleMembers(filters: seq<ReqFilter>, sent: seq<Event>, cachedAt: map<string, Number>, windows: Windows, now: Number)
    ensures forall f :: f in Stale(filters, sent, cachedAt, windows, now)
                   <==> f in filters && !Withheld(f, sent, cachedAt, windows, now)
  {
    if filters != [] {
      var front, last := filters[..|filters| - 1], filters[|filters| - 1];
      assert filters == front + [last];
      StaleMembers(front, sent, cachedAt, windows, now);
    }
  }

  // ---- the gate around it

  /** What asking storage for insertion times comes back with. */
  datatype CachedAtReply = Unsupported | Failed | Times(times: map<string, Number>)

  lemma {:induction false} NoneEligible(filters: seq<ReqFilter>, sent: seq<Event>, times: map<string, Number>, windows: Windows, now: Number)
    requires forall f | f in filters :: !Withheld(f, sent, times, windows, now)
    ensures Stale(filters, sent, times, windows, now) == filters
  {
    if filters != [] {
      var front := filters[..|filters| - 1];
      assert filters == front + [filters[|filters| - 1]];
      NoneEligible(front, sent, times, windows, now);
    }
  }

  /** With no delivered event of a windowed kind, no filter can be withheld. */
  lemma NothingWindowed(f: ReqFilter, sent: seq<Event>, times: map<string, Number>, windows: Windows, now: Number)
    requires forall e | e in sent :: e.kind !in windows
    ensures !Withheld(f, sent, times, windows, now)
  {
    if IsFreshnessEligible(f, windows) {
      var kind, author := f.kinds.value[0], f.authors.value[0];
      assert kind in f.kinds.value && author in f.authors.value;
      assert !exists e | e in sent :: e.kind == kind && e.pubkey == author && IsFresh(e, times, windows, now);
    }
  }

  /** The gate: every failure forwards everything. `times` is what storage knows of the delivered ids. */
  method FiltersForUpstream(filters: seq<ReqFilter>, sent: seq<Event>, windows: Windows, reply: CachedAtReply, now: Number)
    returns (r: seq<ReqFilter>)
    ensures r == if reply.Times? then Stale(filters, sent, reply.times, windows, now) else filters
  {
    if !exists f | f in filters :: IsFreshnessEligible(f, windows) {
      if reply.Times? {
        NoneEligible(filters, sent, reply.times, windows, now);
      }
      return filters;
    }
    if reply.Unsupported? {
      return filters;
    }
    if forall e | e in sent :: e.kind !in windows {
      if reply.Times? {
        forall f | f in filters ensures !Withheld(f, sent, reply.times, windows, now) {
          NothingWindowed(f, sent, reply.times, windows, now);
        }
        NoneEligible(filters, sent, reply.times, windows, now);
      }
      return filters;
    }
    if reply.Failed? {
      return filters;
    }
    r := NarrowFiltersByFreshness(filters, sent, reply.times, windows, now);
  }

  /** A withheld filter rests on usable numbers throughout: every coordinate was delivered by this
      REQ with a finite, non-future cache time inside a finite, positive window. */
  lemma WithheldIsProvenFresh(f: ReqFilter, sent: seq<Event>, times: map<string, Number>, windows: Windows, now: Number,
                              kind: int, author: string)
    requires Withheld(f, sent, times, windows, now) && kind in f.kinds.value && author in f.authors.value
    ensures kind in windows && windows[kind].Finite? && windows[kind].value > 0.0 && now.Finite?
    ensures exists e | e in sent :: e.kind == kind && e.pubkey == author && e.id in times && times[e.id].Finite?
              && 0.0 <= now.value - times[e.id].value <= windows[kind].value * 1000.0
  {
    var e :| e in sent && e.kind == kind && e.pubkey == author && IsFresh(e, times, windows, now);
  }
}
