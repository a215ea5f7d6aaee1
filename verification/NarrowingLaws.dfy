/** What is withheld from the upstream relays, in the filter's own fields and the clock's own numbers. */
module NarrowingLaws {
  import opened Order
  import opened Events
  import opened FilterUtils
  import opened Narrowing
  import opened ReqHandling

  /** Cached at most `window` seconds ago, and not in the future. */
  predicate CachedWithin(e: Event, times: map<string, Number>, window: Number, now: Number)
  {
    && e.id in times && times[e.id].Finite? && window.Finite? && window.value > 0.0 && now.Finite?
    && times[e.id].value <= now.value && now.value - times[e.id].value <= window.value * 1000.0
  }

  /** The filter asks for nothing but replaceable kinds by named authors, each kind with a window. */
  ghost predicate AsksForProfiles(f: ReqFilter, windows: Windows)
  {
    && f.ids.NoIds? && f.since.None? && f.until.None? && f.tags == []
    && f.kinds.Some? && f.kinds.value != [] && f.authors.Some? && f.authors.value != []
    && forall kind | kind in f.kinds.value ::
         (kind == 0 || kind == 3 || 10000 <= kind < 20000) && kind in windows
  }

  ghost predicate DeliveredInTime(kind: int, author: string, sent: seq<Event>, gate: Gate)
    requires gate.reply.Times? && kind in gate.windows
  {
    exists e | e in sent :: e.kind == kind && e.pubkey == author
                            && CachedWithin(e, gate.reply.times, gate.windows[kind], gate.now)
  }

  /** Every coordinate was delivered by this very REQ, cached recently enough for its kind. */
  ghost predicate AllInTime(f: ReqFilter, sent: seq<Event>, gate: Gate)
    requires AsksForProfiles(f, gate.windows) && gate.reply.Times?
  {
    forall kind, author | kind in f.kinds.value && author in f.authors.value ::
      DeliveredInTime(kind, author, sent, gate)
  }

  lemma FreshIs(e: Event, gate: Gate)
    requires gate.reply.Times?
    ensures IsFresh(e, gate.reply.times, gate.windows, gate.now)
       <==> e.kind in gate.windows && CachedWithin(e, gate.reply.times, gate.windows[e.kind], gate.now)
  {
  }

  lemma AllFreshIs(f: ReqFilter, sent: seq<Event>, gate: Gate)
    requires AsksForProfiles(f, gate.windows) && gate.reply.Times?
    ensures AllFresh(f, sent, gate.reply.times, gate.windows, gate.now) <==> AllInTime(f, sent, gate)
  {
    forall kind, author | kind in f.kinds.value && author in f.authors.value
      ensures DeliveredInTime(kind, author, sent, gate)
         <==> exists e | e in sent :: e.kind == kind && e.pubkey == author
                                      && IsFresh(e, gate.reply.times, gate.windows, gate.now)
    {
      forall e | e in sent {
        FreshIs(e, gate);
      }
    }
  }

  /** A filter stays from upstream exactly when it lists ids that were all just delivered, or when
      storage told the times and all it can ask for was just delivered within its window. */
  lemma StaysHomeExactlyWhen(filters: seq<ReqFilter>, sent: seq<Event>, gate: Option<Gate>, f: ReqFilter)
    requires f in filters
    ensures f !in Forwarded(filters, sent, gate)
       <==> (f.ids.ListOf? && forall id | id in f.ids.values :: exists e | e in sent :: e.id == id)
            || (gate.Some? && gate.value.reply.Times? && AsksForProfiles(f, gate.value.windows)
                && AllInTime(f, sent, gate.value))
  {
    WithheldExactlyWhen(filters, sent, gate, f);
    forall id ensures id in Elements(IdsOf(sent)) <==> exists e | e in sent :: e.id == id {
      IdIsSent(sent, id);
    }
    if gate.Some? && gate.value.reply.Times? && AsksForProfiles(f, gate.value.windows) {
      AllFreshIs(f, sent, gate.value);
    }
  }

  lemma IdIsSent(sent: seq<Event>, id: string)
    ensures id in Elements(IdsOf(sent)) <==> exists e | e in sent :: e.id == id
  {
    if e :| e in sent && e.id == id {
      var i :| 0 <= i < |sent| && sent[i] == e;
      assert IdsOf(sent)[i] == id;
    }
    if id in IdsOf(sent) {
      var i :| 0 <= i < |sent| && IdsOf(sent)[i] == id;
      assert sent[i] in sent && sent[i].id == id;
    }
  }
}
