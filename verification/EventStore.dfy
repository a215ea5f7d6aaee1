/** The event table under NIP-01 replacement, over runs of any length. */
module EventStore {
  import opened Order
  import opened Events
  import opened Replaceable

  /** The table by primary key. */
  type Rows = map<string, Event>

  ghost predicate Keyed(rows: Rows)
  {
    forall id | id in rows :: rows[id].id == id
  }

  predicate MatchesAddressIdentifier(tags: seq<seq<string>>, address: Address)
  {
    !IsAddressableKind(address.kind) || ValueOr(GetDTagValue(tags), "") == address.identifier
  }

  predicate AtAddress(e: Event, address: Address)
  {
    e.pubkey == address.pubkey && e.kind == address.kind && MatchesAddressIdentifier(e.tags, address)
  }

  /** The stored versions of a coordinate. */
  function Versions(rows: Rows, address: Address): set<Event>
  {
    set id | id in rows && AtAddress(rows[id], address) :: rows[id]
  }

  lemma VersionsDistinct(rows: Rows, address: Address)
    requires Keyed(rows)
    ensures DistinctIds(Versions(rows, address))
  {
  }

  ghost function CurrentVersion(rows: Rows, address: Address): Option<Event>
    requires Keyed(rows)
  {
    VersionsDistinct(rows, address);
    Winner(Versions(rows, address))
  }

  /** The rows a new version of a coordinate deletes before it is saved. */
  predicate Replaces(e: Event, row: Event)
  {
    row.pubkey == e.pubkey && row.kind == e.kind
    && (IsAddressableKind(e.kind) ==> GetDTagValue(e.tags).Some? && GetDTagValue(row.tags) == GetDTagValue(e.tags))
  }

  function WithoutOlder(rows: Rows, e: Event): Rows
  {
    map id | id in rows && !Replaces(e, rows[id]) :: rows[id]
  }

  /** A replaceable or addressable event the store can take. */
  predicate Storable(e: Event)
  {
    IsReplaceableKind(e.kind) || (IsAddressableKind(e.kind) && GetDTagValue(e.tags).Some?)
  }

  ghost predicate IsSuperseded(rows: Rows, e: Event)
    requires Keyed(rows)
  {
    var current := CurrentVersion(rows, AddressOf(e));
    current.Some? && Supersedes(current.value, e)
  }

  /** The table after one event of any kind but a deletion request. */
  ghost function Handled(rows: Rows, e: Event): (r: Rows)
    requires Keyed(rows)
    ensures Keyed(r)
  {
    if IsEphemeralKind(e.kind) then rows
    else if IsCoordinateAddressableKind(e.kind) then
      if !Storable(e) || IsSuperseded(rows, e) then rows else WithoutOlder(rows, e)[e.id := e]
    else rows[e.id := e]
  }

  ghost function HandledAll(events: seq<Event>): (r: Rows)
    ensures Keyed(r)
  {
    if events == [] then map[] else Handled(HandledAll(events[..|events| - 1]), events[|events| - 1])
  }

  // ---- what the table should hold, whatever the order of arrival

  ghost function Candidates(s: set<Event>, address: Address): (c: set<Event>)
    ensures DistinctIds(s) ==> DistinctIds(c)
  {
    set e | e in s && Storable(e) && AddressOf(e) == address
  }

  ghost predicate Retained(s: set<Event>, e: Event)
    requires DistinctIds(s)
  {
    && e in s && !IsEphemeralKind(e.kind)
    && (IsCoordinateAddressableKind(e.kind) ==> Storable(e) && Winner(Candidates(s, AddressOf(e))) == Some(e))
  }

  /** The table holds exactly the retained events of `s`. */
  ghost predicate Holds(rows: Rows, s: set<Event>)
  {
    DistinctIds(s) && Keyed(rows) && forall e: Event :: (e.id in rows && rows[e.id] == e) <==> Retained(s, e)
  }

  /** What the table has at a coordinate is its winner, if anything. */
  lemma VersionsAreTheWinner(rows: Rows, s: set<Event>, address: Address)
    requires Holds(rows, s) && IsCoordinateAddressableKind(address.kind)
    requires !IsAddressableKind(address.kind) ==> address.identifier == ""
    ensures var w := Winner(Candidates(s, address));
            Versions(rows, address) == if w.Some? then {w.value} else {}
  {
    var w := Winner(Candidates(s, address));
    forall e ensures e in Versions(rows, address) <==> w == Some(e) {
      if e in Versions(rows, address) {
        assert Retained(s, e) && AddressOf(e) == address;
      }
      if w == Some(e) {
        assert e in Candidates(s, address);
        assert Retained(s, e);
        assert rows[e.id] == e;
      }
    }
  }

  lemma CurrentIsTheWinner(rows: Rows, s: set<Event>, e: Event)
    requires Holds(rows, s) && Storable(e)
    ensures CurrentVersion(rows, AddressOf(e)) == Winner(Candidates(s, AddressOf(e)))
  {
    var w := Winner(Candidates(s, AddressOf(e)));
    VersionsAreTheWinner(rows, s, AddressOf(e));
    VersionsDistinct(rows, AddressOf(e));
    if w.Some? {
      OneWinner({w.value}, w.value);
    }
  }

  lemma CandidatesOfMore(s: set<Event>, e: Event, address: Address)
    ensures Candidates(s + {e}, address)
         == if Storable(e) && AddressOf(e) == address then Candidates(s, address) + {e} else Candidates(s, address)
  {
  }

  /** Events at other coordinates are kept or not as before. */
  lemma OthersUnaffected(s: set<Event>, e: Event, x: Event)
    requires DistinctIds(s + {e}) && x != e
    requires Storable(e) ==> AddressOf(x) != AddressOf(e) || !IsCoordinateAddressableKind(x.kind)
    ensures Retained(s + {e}, x) <==> Retained(s, x)
  {
    CandidatesOfMore(s, e, AddressOf(x));
  }

  lemma SupersededChangesNothing(rows: Rows, s: set<Event>, e: Event)
    requires Holds(rows, s) && DistinctIds(s + {e}) && Storable(e) && IsSuperseded(rows, e)
    ensures Holds(rows, s + {e})
  {
    CurrentIsTheWinner(rows, s, e);
    CandidatesOfMore(s, e, AddressOf(e));
    WinnerOfOneMore(Candidates(s, AddressOf(e)), e);
    forall x ensures Retained(s + {e}, x) <==> Retained(s, x) {
      if AddressOf(x) != AddressOf(e) || !IsCoordinateAddressableKind(x.kind) {
        OthersUnaffected(s, e, x);
      }
    }
  }

  lemma ReplacesSameCoordinate(rows: Rows, s: set<Event>, e: Event, x: Event)
    requires Holds(rows, s) && Storable(e) && Retained(s, x)
    ensures Replaces(e, x) <==> AddressOf(x) == AddressOf(e)
  {
  }

  lemma RowAfterReplacing(rows: Rows, s: set<Event>, e: Event, x: Event)
    requires Holds(rows, s) && DistinctIds(s + {e}) && Storable(e) && x != e
    requires Winner(Candidates(s + {e}, AddressOf(e))) == Some(e)
    ensures var after := WithoutOlder(rows, e)[e.id := e];
            (x.id in after && after[x.id] == x) <==> Retained(s + {e}, x)
  {
    if AddressOf(x) != AddressOf(e) || !IsCoordinateAddressableKind(x.kind) {
      OthersUnaffected(s, e, x);
    }
    if Retained(s, x) {
      ReplacesSameCoordinate(rows, s, e, x);
    }
  }

  lemma NewestReplaces(rows: Rows, s: set<Event>, e: Event)
    requires Holds(rows, s) && DistinctIds(s + {e}) && Storable(e) && !IsSuperseded(rows, e)
    ensures Holds(WithoutOlder(rows, e)[e.id := e], s + {e})
  {
    CurrentIsTheWinner(rows, s, e);
    CandidatesOfMore(s, e, AddressOf(e));
    WinnerOfOneMore(Candidates(s, AddressOf(e)), e);
    var after := WithoutOlder(rows, e)[e.id := e];
    forall x: Event | x != e ensures (x.id in after && after[x.id] == x) <==> Retained(s + {e}, x) {
      RowAfterReplacing(rows, s, e, x);
    }
  }

  lemma HandlingHolds(rows: Rows, s: set<Event>, e: Event)
    requires Holds(rows, s) && DistinctIds(s + {e})
    ensures Holds(Handled(rows, e), s + {e})
  {
    if Storable(e) && !IsEphemeralKind(e.kind) {
      if IsSuperseded(rows, e) {
        SupersededChangesNothing(rows, s, e);
      } else {
        NewestReplaces(rows, s, e);
      }
    } else {
      forall x | x != e ensures Retained(s + {e}, x) <==> Retained(s, x) {
        OthersUnaffected(s, e, x);
      }
    }
  }

  /** Handling any events one at a time leaves exactly the retained ones, whatever their order. */
  lemma {:induction false} StoreHoldsRetained(events: seq<Event>)
    requires DistinctIds(Elements(events))
    ensures Holds(HandledAll(events), Elements(events))
    decreases |events|
  {
    if events != [] {
      var n := |events| - 1;
      assert events == events[..n] + [events[n]];
      assert Elements(events) == Elements(events[..n]) + {events[n]};
      StoreHoldsRetained(events[..n]);
      HandlingHolds(HandledAll(events[..n]), Elements(events[..n]), events[n]);
    }
  }

  /** The order of arrival, and repeats, make no difference. */
  lemma OrderDoesNotMatter(p: seq<Event>, q: seq<Event>)
    requires DistinctIds(Elements(p)) && Elements(p) == Elements(q)
    ensures HandledAll(p) == HandledAll(q)
  {
    StoreHoldsRetained(p);
    StoreHoldsRetained(q);
    var a, b := HandledAll(p), HandledAll(q);
    forall id | id in a ensures id in b && b[id] == a[id] {
      assert Retained(Elements(p), a[id]);
    }
    forall id | id in b ensures id in a {
      assert Retained(Elements(p), b[id]);
    }
  }

  /** Per coordinate, storage has exactly one row, the version every reader of the deliveries
      would pick too. */
  lemma OneRowPerCoordinate(events: seq<Event>, address: Address)
    requires DistinctIds(Elements(events)) && IsCoordinateAddressableKind(address.kind)
    requires !IsAddressableKind(address.kind) ==> address.identifier == ""
    ensures var w := Winner(Candidates(Elements(events), address));
            Versions(HandledAll(events), address) == if w.Some? then {w.value} else {}
  {
    StoreHoldsRetained(events);
    VersionsAreTheWinner(HandledAll(events), Elements(events), address);
  }
}
