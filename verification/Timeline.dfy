/** The widget's capped, newest-first timeline as a fold over deliveries. */
module Timeline {
  import opened Order
  import opened Events

  /** Where a new event goes: before the first strictly older one. */
  function Slot(events: seq<Event>, e: Event): (k: nat)
    ensures k <= |events|
    ensures forall i | 0 <= i < k :: events[i].createdAt >= e.createdAt
    ensures k < |events| ==> events[k].createdAt < e.createdAt
  {
    if events == [] || events[0].createdAt < e.createdAt then 0 else 1 + Slot(events[1..], e)
  }

  function Placed(events: seq<Event>, e: Event): seq<Event>
  {
    events[..Slot(events, e)] + [e] + events[Slot(events, e)..]
  }

  predicate HasId(events: seq<Event>, id: string)
  {
    exists e | e in events :: e.id == id
  }

  function Inserted(events: seq<Event>, e: Event, maxSize: nat): seq<Event>
  {
    if HasId(events, e.id) then events else Take(Placed(events, e), maxSize)
  }

  /** Scans for the place to insert at. */
  method InsertEvent(events: seq<Event>, e: Event, maxSize: nat) returns (next: seq<Event>)
    ensures next == Inserted(events, e, maxSize)
  {
    if HasId(events, e.id) {
      return events;
    }
    var insertAt := |events|;
    for i := 0 to |events|
      invariant insertAt == |events| && forall k | 0 <= k < i :: events[k].createdAt >= e.createdAt
    {
      if events[i].createdAt < e.createdAt {
        insertAt := i;
        break;
      }
    }
    SlotIs(events, e, insertAt);
    next := events[..insertAt] + [e] + events[insertAt..];
    if |next| > maxSize {
      next := next[..maxSize];
    }
  }

  lemma SlotIs(events: seq<Event>, e: Event, k: nat)
    requires k <= |events| && forall i | 0 <= i < k :: events[i].createdAt >= e.createdAt
    requires k < |events| ==> events[k].createdAt < e.createdAt
    ensures Slot(events, e) == k
  {
  }

  /** What a run of deliveries leaves on screen. */
  function Folded(deliveries: seq<Event>, maxSize: nat): seq<Event>
  {
    if deliveries == [] then [] else
      Inserted(Folded(deliveries[..|deliveries| - 1], maxSize), deliveries[|deliveries| - 1], maxSize)
  }

  // ---- the specification: sort everything that ever arrived, then cut

  /** Newest first; equal timestamps in the order of first arrival. */
  ghost predicate ShownBefore(arrivals: seq<Event>, a: Event, b: Event)
  {
    a.createdAt > b.createdAt
    || (a.createdAt == b.createdAt
        && exists i, j :: 0 <= i < j < |arrivals| && arrivals[i] == a && arrivals[j] == b)
  }

  /** The stable newest-first sort of a sequence of arrivals. */
  function StableSort(arrivals: seq<Event>): seq<Event>
  {
    if arrivals == [] then [] else Placed(StableSort(arrivals[..|arrivals| - 1]), arrivals[|arrivals| - 1])
  }

  ghost predicate IsStableSort(q: seq<Event>, arrivals: seq<Event>)
  {
    Elements(q) == Elements(arrivals) && |q| == |arrivals|
    && forall i, j | 0 <= i < j < |q| :: ShownBefore(arrivals, q[i], q[j])
  }

  lemma PlacedElements(q: seq<Event>, e: Event)
    ensures Elements(Placed(q, e)) == Elements(q) + {e} && |Placed(q, e)| == |q| + 1
  {
    var k := Slot(q, e);
    assert q == q[..k] + q[k..];
    forall x ensures x in Placed(q, e) <==> x in q || x == e {
      assert x in q <==> x in q[..k] || x in q[k..];
    }
  }

  lemma ArrivedEarlier(arrivals: seq<Event>, e: Event, a: Event, b: Event)
    ensures ShownBefore(arrivals, a, b) ==> ShownBefore(arrivals + [e], a, b)
    ensures a in arrivals && a.createdAt >= e.createdAt ==> ShownBefore(arrivals + [e], a, e)
  {
    if ShownBefore(arrivals, a, b) && a.createdAt == b.createdAt {
      var i, j :| 0 <= i < j < |arrivals| && arrivals[i] == a && arrivals[j] == b;
      assert (arrivals + [e])[i] == a && (arrivals + [e])[j] == b;
    }
    if a in arrivals && a.createdAt == e.createdAt {
      var i :| 0 <= i < |arrivals| && arrivals[i] == a;
      assert (arrivals + [e])[i] == a && (arrivals + [e])[|arrivals|] == e;
    }
  }

  lemma SortedByTime(q: seq<Event>, arrivals: seq<Event>, i: nat, j: nat)
    requires IsStableSort(q, arrivals) && i <= j < |q|
    ensures q[i].createdAt >= q[j].createdAt
  {
    assert i < j ==> ShownBefore(arrivals, q[i], q[j]);
  }

  lemma PlacingSorts(q: seq<Event>, arrivals: seq<Event>, e: Event)
    requires IsStableSort(q, arrivals)
    ensures IsStableSort(Placed(q, e), arrivals + [e])
  {
    var k, r := Slot(q, e), Placed(q, e);
    PlacedElements(q, e);
    assert forall x :: x in arrivals + [e] <==> x in arrivals || x == e;
    forall i, j | 0 <= i < j < |r| ensures ShownBefore(arrivals + [e], r[i], r[j]) {
      PlacedInOrder(q, arrivals, e, i, j);
    }
  }

  lemma PlacedAt(q: seq<Event>, e: Event, i: nat)
    requires i <= |q|
    ensures Placed(q, e)[i] == if i < Slot(q, e) then q[i] else if i == Slot(q, e) then e else q[i - 1]
  {
  }

  lemma OldPairInOrder(q: seq<Event>, arrivals: seq<Event>, e: Event, a: nat, b: nat)
    requires IsStableSort(q, arrivals) && a < b < |q|
    ensures ShownBefore(arrivals + [e], q[a], q[b])
  {
    assert ShownBefore(arrivals, q[a], q[b]);
    ArrivedEarlier(arrivals, e, q[a], q[b]);
  }

  lemma NewPairInOrder(q: seq<Event>, arrivals: seq<Event>, e: Event, a: nat)
    requires IsStableSort(q, arrivals) && a < |q|
    ensures a < Slot(q, e) ==> ShownBefore(arrivals + [e], q[a], e)
    ensures a >= Slot(q, e) ==> ShownBefore(arrivals + [e], e, q[a])
  {
    if a < Slot(q, e) {
      assert q[a] in Elements(q) && q[a] in Elements(arrivals);
      ArrivedEarlier(arrivals, e, q[a], e);
    } else {
      SortedByTime(q, arrivals, Slot(q, e), a);
    }
  }

  lemma PlacedInOrder(q: seq<Event>, arrivals: seq<Event>, e: Event, i: nat, j: nat)
    requires IsStableSort(q, arrivals) && i < j <= |q|
    ensures ShownBefore(arrivals + [e], Placed(q, e)[i], Placed(q, e)[j])
  {
    var k := Slot(q, e);
    PlacedAt(q, e, i);
    PlacedAt(q, e, j);
    if i == k {
      NewPairInOrder(q, arrivals, e, j - 1);
    } else if j == k {
      NewPairInOrder(q, arrivals, e, i);
    } else {
      OldPairInOrder(q, arrivals, e, if i < k then i else i - 1, if j < k then j else j - 1);
    }
  }

  lemma {:induction false} SortIsStable(arrivals: seq<Event>)
    ensures IsStableSort(StableSort(arrivals), arrivals)
  {
    if arrivals != [] {
      var front, e := arrivals[..|arrivals| - 1], arrivals[|arrivals| - 1];
      SortIsStable(front);
      PlacingSorts(StableSort(front), front, e);
      assert arrivals == front + [e];
    }
  }

  // ---- the fold is the sort, cut

  lemma CutBeforeSlot(q: seq<Event>, e: Event, maxSize: nat)
    requires maxSize < |q| && Slot(q, e) < maxSize
    ensures Take(Placed(q[..maxSize], e), maxSize) == Take(Placed(q, e), maxSize)
  {
    var k := Slot(q, e);
    SlotIs(q[..maxSize], e, k);
    assert q[..maxSize][..k] == q[..k];
    assert Take(Placed(q, e), maxSize) == q[..k] + [e] + q[k..maxSize - 1];
    assert Take(Placed(q[..maxSize], e), maxSize) == q[..k] + [e] + q[k..maxSize - 1];
  }

  lemma CutAtEnd(q: seq<Event>, e: Event, maxSize: nat)
    requires maxSize <= |q| && forall i | 0 <= i < maxSize :: q[i].createdAt >= e.createdAt
    ensures Take(Placed(q[..maxSize], e), maxSize) == q[..maxSize]
  {
    SlotIs(q[..maxSize], e, maxSize);
  }

  /** Cutting before or after inserting makes no difference to the cut. */
  lemma CutCommutes(q: seq<Event>, e: Event, maxSize: nat)
    ensures Take(Placed(Take(q, maxSize), e), maxSize) == Take(Placed(q, e), maxSize)
  {
    if maxSize < |q| {
      if Slot(q, e) < maxSize {
        CutBeforeSlot(q, e, maxSize);
      } else {
        CutAtEnd(q, e, maxSize);
        assert Placed(q, e)[..maxSize] == q[..maxSize];
      }
    }
  }

  /** An event that fell off the end falls off again. */
  lemma DroppedStaysDropped(q: seq<Event>, arrivals: seq<Event>, e: Event, maxSize: nat)
    requires IsStableSort(q, arrivals) && e in q && e !in Take(q, maxSize)
    ensures Take(Placed(Take(q, maxSize), e), maxSize) == Take(q, maxSize)
  {
    forall k | 0 <= k < |Take(q, maxSize)| ensures q[k] != e {
      assert q[k] == Take(q, maxSize)[k];
    }
    var j :| 0 <= j < |q| && q[j] == e;
    forall i | 0 <= i < maxSize ensures q[i].createdAt >= e.createdAt {
      SortedByTime(q, arrivals, i, j);
    }
    CutAtEnd(q, e, maxSize);
  }

  lemma SameIdSameEvent(q: seq<Event>, all: set<Event>, e: Event)
    requires DistinctIds(all) && Elements(q) <= all && e in all
    ensures HasId(q, e.id) <==> e in q
  {
    assert forall x | x in q :: x in Elements(q);
  }

  lemma ShownAreKnown(q: seq<Event>, arrivals: seq<Event>, maxSize: nat, e: Event)
    requires Elements(q) == Elements(arrivals)
    ensures Elements(Take(q, maxSize)) <= Elements(arrivals) && (e in q <==> e in arrivals)
  {
    assert forall x | x in Take(q, maxSize) :: x in Elements(q);
    assert e in Elements(q) <==> e in Elements(arrivals);
  }

  lemma OneMoreDelivery(q: seq<Event>, arrivals: seq<Event>, e: Event, maxSize: nat, all: set<Event>)
    requires DistinctIds(all) && Elements(arrivals) <= all && e in all && IsStableSort(q, arrivals)
    ensures Inserted(Take(q, maxSize), e, maxSize) == Take(if e in arrivals then q else Placed(q, e), maxSize)
  {
    ShownAreKnown(q, arrivals, maxSize, e);
    SameIdSameEvent(Take(q, maxSize), all, e);
    if e in Take(q, maxSize) {
      assert e in Elements(Take(q, maxSize));
    } else if e in arrivals {
      DroppedStaysDropped(q, arrivals, e, maxSize);
    } else {
      CutCommutes(q, e, maxSize);
    }
  }

  lemma SortOfMore(arrivals: seq<Event>, e: Event)
    ensures StableSort(arrivals + [e]) == Placed(StableSort(arrivals), e)
  {
    assert (arrivals + [e])[..|arrivals|] == arrivals;
  }

  /** Whatever is delivered, however often and in whatever order, the timeline shows the first
      `maxSize` of the stable newest-first sort of the distinct events by first arrival. */
  lemma {:induction false} FoldIsSortedCut(deliveries: seq<Event>, maxSize: nat)
    requires DistinctIds(Elements(deliveries))
    ensures Folded(deliveries, maxSize) == Take(StableSort(FirstOccurrences(deliveries)), maxSize)
    ensures IsStableSort(StableSort(FirstOccurrences(deliveries)), FirstOccurrences(deliveries))
  {
    SortIsStable(FirstOccurrences(deliveries));
    if deliveries != [] {
      var front, e := deliveries[..|deliveries| - 1], deliveries[|deliveries| - 1];
      assert deliveries == front + [e];
      assert Elements(front) <= Elements(deliveries) && e in Elements(deliveries);
      FoldIsSortedCut(front, maxSize);
      OneMoreDelivery(StableSort(FirstOccurrences(front)), FirstOccurrences(front), e, maxSize, Elements(deliveries));
      SortOfMore(FirstOccurrences(front), e);
    }
  }
}
