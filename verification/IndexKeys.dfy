/** IndexedDB's keys: how compound keys compare, which rows a range of an index holds, and in
    which order an index is walked. */
module IndexKeys {
  import opened Order
  import opened Events
  import opened TagIndex

  /** One component of a key, in IndexedDB's order: `Dexie.minKey`, numbers, strings, `Dexie.maxKey`. */
  datatype Component = MinKey | Number(n: int) | Text(s: string) | MaxKey

  type Key = seq<Component>

  predicate ComponentLess(a: Component, b: Component)
  {
    match (a, b)
    case (Number(m), Number(n)) => m < n
    case (Text(s), Text(t)) => StrLess(s, t)
    case (MinKey, _) => !b.MinKey?
    case (Number(_), _) => b.Text? || b.MaxKey?
    case (Text(_), _) => b.MaxKey?
    case (MaxKey, _) => false
  }

  /** Compound keys compare component by component. */
  predicate KeyLess(a: Key, b: Key)
  {
    b != [] && (a == [] || ComponentLess(a[0], b[0]) || (a[0] == b[0] && KeyLess(a[1..], b[1..])))
  }

  lemma ComponentsCompare(a: Component, b: Component)
    ensures !ComponentLess(a, a)
    ensures !ComponentLess(a, b) && !ComponentLess(b, a) ==> a == b
  {
    if a.Text? && b.Text? {
      StrLessIrreflexive(a.s);
      StrLessTotal(a.s, b.s);
    } else if a.Text? {
      StrLessIrreflexive(a.s);
    }
  }

  lemma OneComponent(a: Component, b: Component)
    ensures KeyLess([a], [b]) <==> ComponentLess(a, b)
  {
    assert [a][1..] == [] && [b][1..] == [];
  }

  lemma TwoComponents(a: Component, b: Component, c: Component, d: Component)
    ensures KeyLess([a, b], [c, d]) <==> ComponentLess(a, c) || (a == c && ComponentLess(b, d))
  {
    assert [a, b][1..] == [b] && [c, d][1..] == [d];
    OneComponent(b, d);
  }

  lemma ThreeComponents(a: Component, b: Component, c: Component, d: Component, e: Component, f: Component)
    ensures KeyLess([a, b, c], [d, e, f])
            <==> ComponentLess(a, d) || (a == d && (ComponentLess(b, e) || (b == e && ComponentLess(c, f))))
  {
    assert [a, b, c][1..] == [b, c] && [d, e, f][1..] == [e, f];
    TwoComponents(b, c, e, f);
  }

  /** The indexes of the events table a query may use. */
  datatype Index =
    | ById | ByCreatedAt | ByKind | ByPubkey | ByIndexedTags | ByPubkeyKind
    | ByKindCreatedAt | ByPubkeyCreatedAt | ByPubkeyKindCreatedAt

  /** A row's key in an index; an index of many entries per row has none of its own. */
  function KeyOf(index: Index, e: Event): Key
  {
    match index
    case ById => [Text(e.id)]
    case ByCreatedAt => [Number(e.createdAt)]
    case ByKind => [Number(e.kind)]
    case ByPubkey => [Text(e.pubkey)]
    case ByIndexedTags => []
    case ByPubkeyKind => [Text(e.pubkey), Number(e.kind)]
    case ByKindCreatedAt => [Number(e.kind), Number(e.createdAt)]
    case ByPubkeyCreatedAt => [Text(e.pubkey), Number(e.createdAt)]
    case ByPubkeyKindCreatedAt => [Text(e.pubkey), Number(e.kind), Number(e.createdAt)]
  }

  /** The row is listed under a key: for the tag index, under each of its indexed tags. */
  predicate ListedUnder(index: Index, e: Event, key: Key)
  {
    if index.ByIndexedTags? then exists tag | tag in GetIndexedTags(e.tags) :: key == [Text(tag)]
    else key == KeyOf(index, e)
  }

  /** `between(low, high, true, true)`: both ends included. */
  datatype Range = Range(index: Index, low: Key, high: Key)

  predicate InRange(r: Range, e: Event)
  {
    !KeyLess(KeyOf(r.index, e), r.low) && !KeyLess(r.high, KeyOf(r.index, e))
  }

  /** Walking an index backwards: by descending key, then by descending primary key. */
  predicate WalkedBefore(index: Index, a: Event, b: Event)
  {
    KeyLess(KeyOf(index, b), KeyOf(index, a)) || (KeyOf(index, a) == KeyOf(index, b) && StrLess(b.id, a.id))
  }

  /** The lower end of a time range, open without `since`. */
  function Low(since: Option<int>): Component
  {
    if since.Some? then Number(since.value) else MinKey
  }

  function High(until: Option<int>): Component
  {
    if until.Some? then Number(until.value) else MaxKey
  }

  predicate InTimeRange(e: Event, since: Option<int>, until: Option<int>)
  {
    (since.Some? ==> since.value <= e.createdAt) && (until.Some? ==> e.createdAt <= until.value)
  }

  lemma TimeBounds(e: Event, since: Option<int>, until: Option<int>)
    ensures InTimeRange(e, since, until)
            <==> !ComponentLess(Number(e.createdAt), Low(since)) && !ComponentLess(High(until), Number(e.createdAt))
  {
  }

  // ---- the ranges a newest-first read walks

  /** A descending range: one kind's rows, one author's, or all rows, within a time range. */
  datatype Cursor =
    | NewestOfKind(kind: int, since: Option<int>, until: Option<int>)
    | NewestOfAuthor(pubkey: string, ofKind: Option<int>, since: Option<int>, until: Option<int>)
    | NewestOfAll(since: Option<int>, until: Option<int>)

  function BetweenCreatedAt(since: Option<int>, until: Option<int>): Range
  {
    Range(ByCreatedAt, [Low(since)], [High(until)])
  }

  function RangeOf(c: Cursor): Range
  {
    match c
    case NewestOfKind(kind, since, until) =>
      Range(ByKindCreatedAt, [Number(kind), Low(since)], [Number(kind), High(until)])
    case NewestOfAuthor(pubkey, None, since, until) =>
      Range(ByPubkeyCreatedAt, [Text(pubkey), Low(since)], [Text(pubkey), High(until)])
    case NewestOfAuthor(pubkey, Some(kind), since, until) =>
      Range(ByPubkeyKindCreatedAt, [Text(pubkey), Number(kind), Low(since)], [Text(pubkey), Number(kind), High(until)])
    case NewestOfAll(since, until) => BetweenCreatedAt(since, until)
  }

  predicate Covers(c: Cursor, e: Event)
  {
    InRange(RangeOf(c), e)
  }

  /** The rows a cursor is meant to walk. */
  predicate Wanted(c: Cursor, e: Event)
  {
    InTimeRange(e, c.since, c.until)
    && match c
       case NewestOfKind(kind, _, _) => e.kind == kind
       case NewestOfAuthor(pubkey, kind, _, _) => e.pubkey == pubkey && (kind.Some? ==> e.kind == kind.value)
       case NewestOfAll(_, _) => true
  }

  lemma BetweenTimes(e: Event, since: Option<int>, until: Option<int>)
    ensures InRange(BetweenCreatedAt(since, until), e) <==> InTimeRange(e, since, until)
  {
    OneComponent(Number(e.createdAt), Low(since));
    OneComponent(High(until), Number(e.createdAt));
    TimeBounds(e, since, until);
  }

  lemma BetweenPairs(first: Component, time: Component, fixed: Component, low: Component, high: Component)
    ensures !KeyLess([first, time], [fixed, low]) && !KeyLess([fixed, high], [first, time])
            <==> first == fixed && !ComponentLess(time, low) && !ComponentLess(high, time)
  {
    TwoComponents(first, time, fixed, low);
    TwoComponents(fixed, high, first, time);
    ComponentsCompare(first, fixed);
  }

  lemma BetweenTriples(first: Component, second: Component, time: Component, fixed: Component, also: Component,
                       low: Component, high: Component)
    ensures !KeyLess([first, second, time], [fixed, also, low]) && !KeyLess([fixed, also, high], [first, second, time])
            <==> first == fixed && second == also && !ComponentLess(time, low) && !ComponentLess(high, time)
  {
    ThreeComponents(first, second, time, fixed, also, low);
    ThreeComponents(fixed, also, high, first, second, time);
    ComponentsCompare(first, fixed);
    ComponentsCompare(second, also);
  }

  /** The key range of each cursor holds exactly the rows it is meant to walk. */
  lemma RangeIsWanted(c: Cursor, e: Event)
    ensures Covers(c, e) <==> Wanted(c, e)
  {
    TimeBounds(e, c.since, c.until);
    match c
    case NewestOfKind(kind, since, until) =>
      BetweenPairs(Number(e.kind), Number(e.createdAt), Number(kind), Low(since), High(until));
    case NewestOfAuthor(pubkey, None, since, until) =>
      BetweenPairs(Text(e.pubkey), Number(e.createdAt), Text(pubkey), Low(since), High(until));
    case NewestOfAuthor(pubkey, Some(kind), since, until) =>
      BetweenTriples(Text(e.pubkey), Number(e.kind), Number(e.createdAt), Text(pubkey), Number(kind), Low(since), High(until));
    case NewestOfAll(since, until) => BetweenTimes(e, since, until);
  }

  /** Newest first, equal timestamps by descending id. */
  predicate Descending(a: Event, b: Event)
  {
    a.createdAt > b.createdAt || (a.createdAt == b.createdAt && StrLess(b.id, a.id))
  }

  lemma SamePrefix(c: Cursor, a: Event, b: Event)
    requires Wanted(c, a) && Wanted(c, b)
    ensures WalkedBefore(RangeOf(c).index, a, b) <==> Descending(a, b)
  {
    var s, t := Number(a.createdAt), Number(b.createdAt);
    match c
    case NewestOfKind(kind, _, _) =>
      TwoComponents(Number(kind), t, Number(kind), s);
    case NewestOfAuthor(pubkey, None, _, _) =>
      TwoComponents(Text(pubkey), t, Text(pubkey), s);
      ComponentsCompare(Text(pubkey), Text(pubkey));
    case NewestOfAuthor(pubkey, Some(kind), _, _) =>
      ThreeComponents(Text(pubkey), Number(kind), t, Text(pubkey), Number(kind), s);
      ComponentsCompare(Text(pubkey), Text(pubkey));
    case NewestOfAll(_, _) =>
      OneComponent(t, s);
  }

  /** Within a cursor's range, index order walked backwards is newest first. */
  lemma CursorDescends(c: Cursor, a: Event, b: Event)
    requires Covers(c, a) && Covers(c, b) && WalkedBefore(RangeOf(c).index, a, b)
    ensures Descending(a, b)
  {
    RangeIsWanted(c, a);
    RangeIsWanted(c, b);
    SamePrefix(c, a, b);
  }
}
