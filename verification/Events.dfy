/** The event record, kind classification, and NIP-01's newest-first order. */
module Events {
  import opened Order

  datatype Option<+T> = None | Some(value: T)

  datatype Event = Event(
    id: string, pubkey: string, createdAt: int, kind: int,
    tags: seq<seq<string>>, content: string, sig: string)

  const DELETION_EVENT_KIND := 5

  predicate IsReplaceableKind(kind: int)
  {
    10000 <= kind < 20000 || kind == 0 || kind == 3
  }

  predicate IsEphemeralKind(kind: int)
  {
    20000 <= kind < 30000
  }

  predicate IsAddressableKind(kind: int)
  {
    30000 <= kind < 40000
  }

  predicate IsCoordinateAddressableKind(kind: int)
  {
    IsReplaceableKind(kind) || IsAddressableKind(kind)
  }

  /** Newer first; equal timestamps by lowest id. */
  predicate NewestFirst(a: Event, b: Event)
  {
    a.createdAt > b.createdAt || (a.createdAt == b.createdAt && StrLess(a.id, b.id))
  }

  /** A table holds at most one row per primary key. */
  ghost predicate DistinctIds(table: set<Event>)
  {
    forall a, b | a in table && b in table && a.id == b.id :: a == b
  }

  lemma NewestFirstIsStrict(table: set<Event>)
    requires DistinctIds(table)
    ensures StrictOrderOn(NewestFirst, table)
  {
    forall x ensures !NewestFirst(x, x) {
      StrLessIrreflexive(x.id);
    }
    forall x, y | x in table && y in table && x != y
      ensures NewestFirst(x, y) || NewestFirst(y, x)
    {
      StrLessTotal(x.id, y.id);
    }
    forall x, y, z | NewestFirst(x, y) && NewestFirst(y, z) ensures NewestFirst(x, z) {
      if x.createdAt == y.createdAt == z.createdAt {
        StrLessTransitive(x.id, y.id, z.id);
      }
    }
  }
}
