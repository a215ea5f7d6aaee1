/** The event table as the object it is, and the handler that writes to it. */
module StorageObject {
  import opened Order
  import opened Events
  import opened Replaceable
  import opened EventStore
  import opened Deletion

  const ID_CHUNK_SIZE := 500

  datatype HandleResult = HandleResult(success: bool, stored: bool, superseded: bool)

  /** The rows an id deletion leaves. */
  function WithoutIds(rows: Rows, ids: seq<string>, pubkey: string): Rows
  {
    map id | id in rows && !(id in ids && rows[id].pubkey == pubkey && rows[id].kind != DELETION_EVENT_KIND) :: rows[id]
  }

  function WithoutVersions(rows: Rows, a: Address, until: int): Rows
  {
    map id | id in rows && !DeletesVersion(a, until, rows[id]) :: rows[id]
  }

  class EventTable {
    var rows: Rows

    constructor ()
      ensures rows == map[]
    {
      rows := map[];
    }

    method SaveEvent(e: Event)
      modifies this
      ensures rows == old(rows)[e.id := e]
    {
      rows := rows[e.id := e];
    }

    /** The rows of (pubkey, kind), whatever order the index gives them in, matched and reduced. */
    method GetCurrentVersion(address: Address) returns (current: Option<Event>)
      requires Keyed(rows)
      ensures current == CurrentVersion(rows, address)
    {
      var versions: seq<Event> := [];
      var left := rows.Keys;
      ghost var seen := {};
      while left != {}
        invariant left <= rows.Keys && seen == rows.Keys - left
        invariant Elements(versions) == Versions(Only(rows, seen), address)
        decreases left
      {
        var id :| id in left;
        OneMoreRow(rows, seen, id, address, versions);
        if rows[id].pubkey == address.pubkey && rows[id].kind == address.kind
           && MatchesAddressIdentifier(rows[id].tags, address) {
          versions := versions + [rows[id]];
        }
        left := left - {id};
        seen := seen + {id};
        assert seen == rows.Keys - left;
      }
      assert seen == rows.Keys && Only(rows, seen) == rows;
      VersionsDistinct(rows, address);
      current := SelectCurrentVersion(versions);
    }

    method DeleteEventsByPubkeyAndKind(pubkey: string, kind: int) returns (any: bool)
      modifies this
      ensures rows == map id | id in old(rows) && !(old(rows)[id].pubkey == pubkey && old(rows)[id].kind == kind) :: old(rows)[id]
      ensures any <==> exists id | id in old(rows) :: old(rows)[id].pubkey == pubkey && old(rows)[id].kind == kind
    {
      var ids := set id | id in rows && rows[id].pubkey == pubkey && rows[id].kind == kind;
      any := ids != {};
      if any {
        ghost var id :| id in ids;
        assert rows[id].pubkey == pubkey && rows[id].kind == kind;
      } else {
        assert forall id | id in rows :: id !in ids;
      }
      rows := rows - ids;
    }

    method DeleteEventsByPubkeyKindAndDTag(pubkey: string, kind: int, dTagValue: string) returns (any: bool)
      modifies this
      ensures rows == map id | id in old(rows)
                             && !(old(rows)[id].pubkey == pubkey && old(rows)[id].kind == kind
                                  && GetDTagValue(old(rows)[id].tags) == Some(dTagValue)) :: old(rows)[id]
    {
      var ids := set id | id in rows && rows[id].pubkey == pubkey && rows[id].kind == kind
                          && GetDTagValue(rows[id].tags) == Some(dTagValue);
      any := ids != {};
      if any {
        rows := rows - ids;
      } else {
        assert forall id | id in rows :: id !in ids;
      }
    }

    method DeleteEventsByIdsForPubkey(ids: seq<string>, pubkey: string) returns (deleted: nat)
      modifies this
      ensures rows == WithoutIds(old(rows), ids, pubkey) && deleted == |old(rows)| - |rows|
    {
      if ids == [] {
        assert WithoutIds(rows, ids, pubkey) == rows;
        return 0;
      }
      var gone := set id | id in rows && id in ids && rows[id].pubkey == pubkey && rows[id].kind != DELETION_EVENT_KIND;
      deleted := |gone|;
      RowsLeft(rows, gone);
      rows := rows - gone;
    }

    /** The SQLite adapter's version: the same deletion in chunks of bounded size. */
    method DeleteEventsByIdsInChunks(ids: seq<string>, pubkey: string) returns (deleted: nat)
      modifies this
      ensures rows == WithoutIds(old(rows), ids, pubkey) && deleted == |old(rows)| - |rows|
    {
      deleted := 0;
      var i := 0;
      ghost var before := rows;
      assert WithoutIds(rows, ids[..0], pubkey) == rows;
      while i < |ids|
        invariant 0 <= i <= |ids| && rows == WithoutIds(before, ids[..i], pubkey)
        invariant deleted == |before| - |rows|
      {
        var end := if i + ID_CHUNK_SIZE < |ids| then i + ID_CHUNK_SIZE else |ids|;
        Chunked(before, ids, i, end, pubkey);
        var changes := DeleteEventsByIdsForPubkey(ids[i..end], pubkey);
        deleted := deleted + changes;
        i := end;
      }
      assert ids[..i] == ids;
    }

    method DeleteEventsByAddress(a: Address, until: int) returns (deleted: nat)
      modifies this
      ensures rows == WithoutVersions(old(rows), a, until) && deleted == |old(rows)| - |rows|
    {
      if !IsCoordinateAddressableKind(a.kind) {
        assert WithoutVersions(rows, a, until) == rows;
        return 0;
      }
      var gone := set id | id in rows && rows[id].pubkey == a.pubkey && rows[id].kind == a.kind
                           && rows[id].createdAt <= until && MatchesAddressIdentifier(rows[id].tags, a);
      deleted := |gone|;
      RowsLeft(rows, gone);
      rows := rows - gone;
    }

    /** Ids first, then each coordinate: exactly the request's targets go, however the loop is cut. */
    method ApplyDeletionRequest(e: Event) returns (deleted: nat)
      requires Keyed(rows)
      modifies this
      ensures rows == Applied(old(rows), RequestOf(e)) && deleted == |old(rows)| - |rows|
    {
      var request := ParseDeletionRequest(e);
      ghost var before := rows;
      deleted := 0;
      IdsOnly(before, request);
      if request.ids != [] {
        deleted := DeleteEventsByIdsForPubkey(request.ids, request.pubkey);
      }
      for i := 0 to |request.addresses|
        invariant rows == Applied(before, request.(addresses := request.addresses[..i]))
        invariant deleted == |before| - |rows|
      {
        OneMoreAddress(before, request, i);
        var n := DeleteEventsByAddress(request.addresses[i], request.until);
        deleted := deleted + n;
      }
      assert request.addresses[..|request.addresses|] == request.addresses;
    }

    /** One event through the pipeline, after validation. */
    method HandleEvent(e: Event) returns (r: HandleResult)
      requires Keyed(rows)
      modifies this
      ensures e.kind == DELETION_EVENT_KIND ==> rows == Applied(old(rows)[e.id := e], RequestOf(e))
      ensures e.kind != DELETION_EVENT_KIND ==> rows == Handled(old(rows), e)
      ensures Keyed(rows) && r.success
      ensures r.superseded <==> Storable(e) && !IsEphemeralKind(e.kind) && IsSuperseded(old(rows), e)
      ensures r.stored <==> !r.superseded && !IsEphemeralKind(e.kind) && (IsAddressableKind(e.kind) ==> Storable(e))
    {
      if IsEphemeralKind(e.kind) {
        return HandleResult(true, false, false);
      }
      if IsReplaceableKind(e.kind) {
        var current := GetCurrentVersion(AddressOf(e));
        if current.Some? && Supersedes(current.value, e) {
          return HandleResult(true, false, true);
        }
        var _ := DeleteEventsByPubkeyAndKind(e.pubkey, e.kind);
        assert rows == WithoutOlder(old(rows), e);
        SaveEvent(e);
      } else if IsAddressableKind(e.kind) {
        var d := GetDTagValue(e.tags);
        if d.None? {
          return HandleResult(true, false, false);
        }
        var current := GetCurrentVersion(AddressOf(e));
        if current.Some? && Supersedes(current.value, e) {
          return HandleResult(true, false, true);
        }
        var _ := DeleteEventsByPubkeyKindAndDTag(e.pubkey, e.kind, d.value);
        assert rows == WithoutOlder(old(rows), e);
        SaveEvent(e);
      } else if e.kind == DELETION_EVENT_KIND {
        SaveEvent(e);
        var _ := ApplyDeletionRequest(e);
      } else {
        SaveEvent(e);
      }
      return HandleResult(true, true, false);
    }
  }

  ghost function Only(rows: Rows, ids: set<string>): Rows
  {
    map id | id in rows && id in ids :: rows[id]
  }

  lemma OneMoreRow(rows: Rows, seen: set<string>, id: string, address: Address, versions: seq<Event>)
    requires id in rows && Elements(versions) == Versions(Only(rows, seen), address)
    ensures Versions(Only(rows, seen + {id}), address)
         == Elements(if AtAddress(rows[id], address) then versions + [rows[id]] else versions)
  {
    var more, less := Only(rows, seen + {id}), Only(rows, seen);
    forall e ensures e in Versions(more, address)
                 <==> e in Versions(less, address) || (AtAddress(rows[id], address) && e == rows[id])
    {
      if e in Versions(more, address) {
        var k :| k in more && AtAddress(more[k], address) && more[k] == e;
        assert k == id || k in less;
      }
      if e in Versions(less, address) {
        var k :| k in less && AtAddress(less[k], address) && less[k] == e;
        assert k in more && more[k] == e;
      }
      if AtAddress(rows[id], address) && e == rows[id] {
        assert id in more && more[id] == e;
      }
    }
    assert forall e :: e in versions <==> e in Elements(versions);
  }

  lemma RowsLeft(rows: Rows, gone: set<string>)
    requires gone <= rows.Keys
    ensures |rows - gone| == |rows| - |gone|
  {
    assert (rows - gone).Keys == rows.Keys - gone;
    assert rows.Keys == (rows.Keys - gone) + gone;
  }

  lemma Chunked(before: Rows, ids: seq<string>, i: nat, end: nat, pubkey: string)
    requires i <= end <= |ids|
    ensures WithoutIds(WithoutIds(before, ids[..i], pubkey), ids[i..end], pubkey) == WithoutIds(before, ids[..end], pubkey)
  {
    assert ids[..end] == ids[..i] + ids[i..end];
  }

  lemma IdsOnly(before: Rows, r: DeletionRequest)
    requires Keyed(before)
    ensures WithoutIds(before, r.ids, r.pubkey) == Applied(before, r.(addresses := []))
    ensures r.ids == [] ==> Applied(before, r.(addresses := [])) == before
  {
  }

  lemma OneMoreAddress(before: Rows, r: DeletionRequest, i: nat)
    requires i < |r.addresses|
    ensures WithoutVersions(Applied(before, r.(addresses := r.addresses[..i])), r.addresses[i], r.until)
         == Applied(before, r.(addresses := r.addresses[..i + 1]))
  {
    assert r.addresses[..i + 1] == r.addresses[..i] + [r.addresses[i]];
  }
}
