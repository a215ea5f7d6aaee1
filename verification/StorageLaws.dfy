/** What storage keeps, in the fields of events alone: kind numbers, `d` tags, times and ids. */
module StorageLaws {
  import opened Order
  import opened Events
  import opened Replaceable
  import opened EventStore

  /** NIP-01's kind ranges: no kind is in two of them, and the numbers at their ends. */
  lemma KindClasses(kind: int)
    ensures IsReplaceableKind(kind) <==> kind == 0 || kind == 3 || 10000 <= kind <= 19999
    ensures IsEphemeralKind(kind) <==> 20000 <= kind <= 29999
    ensures IsAddressableKind(kind) <==> 30000 <= kind <= 39999
    ensures IsCoordinateAddressableKind(kind) <==> IsReplaceableKind(kind) || IsAddressableKind(kind)
    ensures !(IsReplaceableKind(kind) && IsEphemeralKind(kind)) && !(IsEphemeralKind(kind) && IsAddressableKind(kind))
    ensures !(IsReplaceableKind(kind) && IsAddressableKind(kind))
    ensures kind == DELETION_EVENT_KIND ==> !IsCoordinateAddressableKind(kind) && !IsEphemeralKind(kind)
  {
  }

  /** The identifier is the value of the first tag named `d`, whatever follows it; a `d` tag
      without a value gives none. */
  lemma {:induction false} FirstDTag(before: seq<seq<string>>, tag: seq<string>, after: seq<seq<string>>)
    requires forall t | t in before :: t == [] || t[0] != "d"
    requires tag != [] && tag[0] == "d"
    ensures GetDTagValue(before + [tag] + after) == if |tag| > 1 then Some(tag[1]) else None
    decreases |before|
  {
    if before == [] {
      assert before + [tag] + after == [tag] + after;
    } else {
      assert before[0] in before && (before + [tag] + after)[1..] == before[1..] + [tag] + after;
      assert forall t | t in before[1..] :: t in before;
      FirstDTag(before[1..], tag, after);
    }
  }

  lemma {:induction false} NoDTag(tags: seq<seq<string>>)
    requires forall t | t in tags :: t == [] || t[0] != "d"
    ensures GetDTagValue(tags) == None
  {
    if tags != [] {
      assert tags[0] in tags && forall t | t in tags[1..] :: t in tags;
      NoDTag(tags[1..]);
    }
  }

  /** The event belongs to the same coordinate: kind and author, and for addressable kinds the
      identifier, a missing one counting as empty. */
  lemma SameCoordinate(e: Event, f: Event)
    requires 30000 <= e.kind < 40000 || e.kind == 0 || e.kind == 3 || 10000 <= e.kind < 20000
    ensures AddressOf(e) == AddressOf(f)
            <==> e.kind == f.kind && e.pubkey == f.pubkey
                 && (30000 <= e.kind < 40000 ==> ValueOr(GetDTagValue(e.tags), "") == ValueOr(GetDTagValue(f.tags), ""))
    ensures AtAddress(f, AddressOf(e)) <==> AddressOf(e) == AddressOf(f)
  {
  }

  /** The winner among versions is the newest, of equal times the one with the lowest id. */
  lemma WinnerIsNewest(versions: set<Event>, e: Event)
    requires DistinctIds(versions)
    ensures Winner(versions) == Some(e)
            <==> e in versions
                 && forall x | x in versions && x != e ::
                      e.createdAt > x.createdAt || (e.createdAt == x.createdAt && StrLess(e.id, x.id))
  {
    if e in versions && forall x | x in versions && x != e :: NewestFirst(e, x) {
      OneWinner(versions, e);
    }
  }

  /** Two events compete for one row. */
  predicate Rivals(e: Event, f: Event)
  {
    && f.kind == e.kind && f.pubkey == e.pubkey
    && (30000 <= e.kind < 40000 ==> GetDTagValue(f.tags).Some? && GetDTagValue(f.tags) == GetDTagValue(e.tags))
  }

  /** A stored row that NIP-01 keeps over the event. */
  ghost predicate IsBeatenBy(e: Event, row: Event)
  {
    && row.id != e.id && AtAddress(row, AddressOf(e))
    && (row.createdAt > e.createdAt || (row.createdAt == e.createdAt && StrLess(row.id, e.id)))
  }

  /** An event is turned away exactly when some row of its coordinate is newer, or as new with a
      lower id. */
  lemma SupersededExactlyWhen(rows: Rows, e: Event)
    requires Keyed(rows) && (e.id in rows ==> rows[e.id] == e)
    ensures IsSuperseded(rows, e) <==> exists id | id in rows :: IsBeatenBy(e, rows[id])
  {
    var versions := Versions(rows, AddressOf(e));
    VersionsDistinct(rows, AddressOf(e));
    var w := Winner(versions);
    if id :| id in rows && IsBeatenBy(e, rows[id]) {
      assert rows[id] in versions;
      WinnerBeats(versions, w.value, rows[id], e);
    }
    if IsSuperseded(rows, e) {
      var id :| id in rows && AtAddress(rows[id], AddressOf(e)) && rows[id] == w.value;
      assert IsBeatenBy(e, rows[id]);
    }
  }

  lemma WinnerBeats(versions: set<Event>, w: Event, row: Event, e: Event)
    requires DistinctIds(versions + {e}) && DistinctIds(versions) && Winner(versions) == Some(w)
    requires row in versions && row.id != e.id && NewestFirst(row, e)
    ensures Supersedes(w, e)
  {
    NewestFirstIsStrict(versions + {e});
    if w != row {
      Transitive(NewestFirst, versions + {e}, w, row, e);
    }
  }

  /** An event is kept of a set of deliveries: never an ephemeral one, always a regular one, a
      replaceable one when it is the newest of its kind and author, an addressable one when it
      carries a `d` and is the newest with that `d` too. */
  ghost predicate KeptOf(s: set<Event>, e: Event)
  {
    && e in s && !(20000 <= e.kind < 30000)
    && (30000 <= e.kind < 40000 ==> GetDTagValue(e.tags).Some?)
    && (e.kind == 0 || e.kind == 3 || 10000 <= e.kind < 20000 || 30000 <= e.kind < 40000 ==>
          forall f | f in s && f != e && Rivals(e, f) ::
            e.createdAt > f.createdAt || (e.createdAt == f.createdAt && StrLess(e.id, f.id)))
  }

  lemma RivalsAreCandidates(s: set<Event>, e: Event)
    requires Storable(e)
    ensures forall f :: f in Candidates(s, AddressOf(e)) <==> f in s && Rivals(e, f)
  {
  }

  lemma RetainedIsKept(s: set<Event>, e: Event)
    requires DistinctIds(s)
    ensures Retained(s, e) <==> KeptOf(s, e)
  {
    if e in s && IsCoordinateAddressableKind(e.kind) && Storable(e) {
      RivalsAreCandidates(s, e);
      WinnerIsNewest(Candidates(s, AddressOf(e)), e);
    }
  }

  /** After any deliveries but deletion requests, handled one at a time from an empty store, the
      table holds exactly the events to keep. */
  lemma TableHoldsTheKept(events: seq<Event>, e: Event)
    requires DistinctIds(Elements(events))
    ensures e.id in HandledAll(events) && HandledAll(events)[e.id] == e <==> KeptOf(Elements(events), e)
  {
    StoreHoldsRetained(events);
    RetainedIsKept(Elements(events), e);
  }
}
