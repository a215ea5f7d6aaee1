/** How a filter is answered from the Dexie events table: the index planner, the
    early-stopping newest-first reader, and the proof that both give NIP-01's answer. */
module DexieQuery {
  import opened Order
  import opened Events
  import opened FilterUtils
  import opened TagIndex
  import opened IndexKeys

  const MAX_ORDERED_KINDS := 8
  const MAX_ORDERED_AUTHOR_CURSORS := 16

  /** A Dexie collection read whole: the rows under any of some keys, or a key range with a filter. */
  datatype Collection =
    | AnyOf(index: Index, keys: seq<Key>)
    | Filtered(range: Range, authors: Option<seq<string>>, kinds: Option<seq<int>>)
    | WholeTable

  /** The row lies in the collection. */
  predicate Holds(c: Collection, e: Event)
  {
    match c
    case AnyOf(index, keys) => exists key | key in keys :: ListedUnder(index, e, key)
    case Filtered(range, authors, kinds) =>
      InRange(range, e) && (authors.Some? ==> e.pubkey in authors.value) && (kinds.Some? ==> e.kind in kinds.value)
    case WholeTable => true
  }

  function TextKeys(q: seq<string>): (r: seq<Key>)
    ensures forall s :: [Component.Text(s)] in r <==> s in q
    ensures forall key | key in r :: exists s | s in q :: key == [Component.Text(s)]
  {
    var r := seq(|q|, i requires 0 <= i < |q| => [Component.Text(q[i])]);
    assert forall i | 0 <= i < |q| :: r[i] == [Component.Text(q[i])];
    r
  }

  function NumberKeys(q: seq<int>): (r: seq<Key>)
    ensures forall n :: [Component.Number(n)] in r <==> n in q
  {
    var r := seq(|q|, i requires 0 <= i < |q| => [Component.Number(q[i])]);
    assert forall i | 0 <= i < |q| :: r[i] == [Component.Number(q[i])];
    r
  }

  function PairKeys(pairs: seq<(string, int)>): (r: seq<Key>)
    ensures forall s, n :: [Component.Text(s), Component.Number(n)] in r <==> (s, n) in pairs
  {
    var r := seq(|pairs|, i requires 0 <= i < |pairs| => [Component.Text(pairs[i].0), Component.Number(pairs[i].1)]);
    assert forall i | 0 <= i < |pairs| :: r[i] == [Component.Text(pairs[i].0), Component.Number(pairs[i].1)];
    r
  }

  ghost function Rows(table: set<Event>, c: Collection): set<Event>
  {
    set e | e in table && Holds(c, e)
  }

  /** The pairs `[author, kind]`, author by author. */
  function Combinations(authors: seq<string>, kinds: seq<int>): (r: seq<(string, int)>)
    ensures forall a, k :: (a, k) in r <==> a in authors && k in kinds
  {
    if authors == [] then [] else
      var ofFirst := seq(|kinds|, i requires 0 <= i < |kinds| => (authors[0], kinds[i]));
      assert forall k :: k in kinds ==> (authors[0], k) in ofFirst by {
        assert forall i | 0 <= i < |kinds| :: ofFirst[i] == (authors[0], kinds[i]);
      }
      ofFirst + Combinations(authors[1..], kinds)
  }

  function BuildOptimizedQuery(f: Filter): Collection
  {
    var values := TagIndexValues(f.tags);
    var timed := f.since.Some? || f.until.Some?;
    var between := BetweenCreatedAt(f.since, f.until);
    if Lists(f.ids) then AnyOf(ById, TextKeys(f.ids.value))
    else if Lists(f.authors) && Lists(f.kinds) && timed then Filtered(between, f.authors, f.kinds)
    else if Lists(f.authors) && timed then Filtered(between, f.authors, None)
    else if Lists(f.authors) && Lists(f.kinds) then AnyOf(ByPubkeyKind, PairKeys(Combinations(f.authors.value, f.kinds.value)))
    else if values != [] then AnyOf(ByIndexedTags, TextKeys(values))
    else if Lists(f.kinds) && timed then Filtered(between, None, f.kinds)
    else if Lists(f.kinds) then AnyOf(ByKind, NumberKeys(f.kinds.value))
    else if Lists(f.authors) then AnyOf(ByPubkey, TextKeys(f.authors.value))
    else if timed then Filtered(between, None, None)
    else WholeTable
  }

  datatype QueryPlan =
    | NewestPlan(cursors: seq<Cursor>, limit: nat)
    | ScanPlan(collection: Collection, scanLimit: Option<nat>)

  /** `[...new Set(q)]`: first occurrences, in order. */
  function Distinct<T(==,!new)>(q: seq<T>): (r: seq<T>)
    ensures forall x :: x in r <==> x in q
    ensures NoDuplicates(r)
  {
    if q == [] then [] else
      var rest := Distinct(q[..|q| - 1]);
      var x := q[|q| - 1];
      assert q == q[..|q| - 1] + [x];
      if x in rest then rest else rest + [x]
  }

  function DistinctOf<T(==,!new)>(o: Option<seq<T>>): seq<T>
  {
    if Lists(o) then Distinct(o.value) else []
  }

  function AuthorKindCursors(pairs: seq<(string, int)>, f: Filter): seq<Cursor>
  {
    seq(|pairs|, i requires 0 <= i < |pairs| => NewestOfAuthor(pairs[i].0, Some(pairs[i].1), f.since, f.until))
  }

  function AuthorCursors(authors: seq<string>, f: Filter): seq<Cursor>
  {
    seq(|authors|, i requires 0 <= i < |authors| => NewestOfAuthor(authors[i], None, f.since, f.until))
  }

  function KindCursors(kinds: seq<int>, f: Filter): seq<Cursor>
  {
    seq(|kinds|, i requires 0 <= i < |kinds| => NewestOfKind(kinds[i], f.since, f.until))
  }

  function PlanQuery(f: Filter): QueryPlan
  {
    var limit := NormalizeLimit(f.limit);
    if limit.None? || limit.value == 0 || f.ids.Some? || TagIndexValues(f.tags) != [] then
      ScanPlan(BuildOptimizedQuery(f), limit)
    else
      var kinds := DistinctOf(f.kinds);
      var authors := DistinctOf(f.authors);
      var authorCursors := |authors| * if |kinds| > 1 then |kinds| else 1;
      if authors != [] && authorCursors <= MAX_ORDERED_AUTHOR_CURSORS then
        if kinds != [] then NewestPlan(AuthorKindCursors(Combinations(authors, kinds), f), limit.value)
        else NewestPlan(AuthorCursors(authors, f), limit.value)
      else if kinds != [] && |kinds| <= MAX_ORDERED_KINDS then
        NewestPlan(KindCursors(kinds, f), limit.value)
      else
        NewestPlan([NewestOfAll(f.since, f.until)], limit.value)
  }

  /** Some collection the plan opens holds the row. */
  predicate Reaches(plan: QueryPlan, e: Event)
  {
    match plan
    case NewestPlan(cursors, _) => exists c | c in cursors :: Covers(c, e)
    case ScanPlan(c, _) => Holds(c, e)
  }

  predicate IsTagLookup(plan: QueryPlan)
  {
    plan.ScanPlan? && plan.collection.AnyOf? && plan.collection.index.ByIndexedTags?
  }

  lemma TagLookupHolds(values: seq<string>, e: Event)
    ensures Holds(AnyOf(ByIndexedTags, TextKeys(values)), e) <==> FoundByTags(e, values)
  {
    if FoundByTags(e, values) {
      var v :| v in values && v in GetIndexedTags(e.tags);
      assert [Component.Text(v)] in TextKeys(values) && ListedUnder(ByIndexedTags, e, [Component.Text(v)]);
    }
  }

  lemma ListedByOwnKey(index: Index, keys: seq<Key>, e: Event)
    requires !index.ByIndexedTags? && KeyOf(index, e) in keys
    ensures Holds(AnyOf(index, keys), e)
  {
    assert ListedUnder(index, e, KeyOf(index, e));
  }

  /** A whole-collection read that is no tag lookup holds every matching row. */
  lemma ScanHolds(f: Filter, e: Event)
    requires EventMatchesFilter(e, f)
    ensures var c := BuildOptimizedQuery(f);
            if c.AnyOf? && c.index.ByIndexedTags? then Holds(c, e) <==> FoundByTags(e, TagIndexValues(f.tags))
            else Holds(c, e)
  {
    BetweenTimes(e, f.since, f.until);
    TagLookupHolds(TagIndexValues(f.tags), e);
    var c := BuildOptimizedQuery(f);
    if c.AnyOf? && !c.index.ByIndexedTags? {
      ListedByOwnKey(c.index, c.keys, e);
    }
  }

  /** A matching row is out of its plan's reach exactly when the plan is a tag
      lookup and the row's index entries lack every looked-up value. */
  lemma PlanReachesExactly(f: Filter, e: Event)
    requires EventMatchesFilter(e, f) && !RejectsEveryRow(f)
    ensures Reaches(PlanQuery(f), e) <==> IsTagLookup(PlanQuery(f)) ==> FoundByTags(e, TagIndexValues(f.tags))
  {
    if PlanQuery(f).NewestPlan? {
      CursorReaches(f, e);
    } else {
      ScanHolds(f, e);
    }
  }

  lemma InList<T>(q: seq<T>, x: T) returns (i: nat)
    requires x in q
    ensures i < |q| && q[i] == x
  {
    i :| 0 <= i < |q| && q[i] == x;
  }

  lemma ReachedBy(plan: QueryPlan, i: nat, e: Event)
    requires plan.NewestPlan? && i < |plan.cursors| && Wanted(plan.cursors[i], e)
    ensures Reaches(plan, e)
  {
    RangeIsWanted(plan.cursors[i], e);
  }

  /** The lists a newest plan opens its cursors over, and the author and kind of a match in them. */
  lemma PlannedLists(f: Filter, e: Event)
    requires EventMatchesFilter(e, f)
    ensures InTimeRange(e, f.since, f.until)
    ensures DistinctOf(f.kinds) != [] ==> e.kind in DistinctOf(f.kinds)
    ensures DistinctOf(f.authors) != [] ==> e.pubkey in DistinctOf(f.authors)
  {
  }

  lemma CursorReaches(f: Filter, e: Event)
    requires EventMatchesFilter(e, f) && PlanQuery(f).NewestPlan?
    ensures Reaches(PlanQuery(f), e)
  {
    var plan := PlanQuery(f);
    var kinds, authors := DistinctOf(f.kinds), DistinctOf(f.authors);
    var pairs := Combinations(authors, kinds);
    PlannedLists(f, e);
    var i: nat := 0;
    if plan.cursors == AuthorKindCursors(pairs, f) && authors != [] && kinds != [] {
      i := InList(pairs, (e.pubkey, e.kind));
    } else if plan.cursors == AuthorCursors(authors, f) && authors != [] {
      i := InList(authors, e.pubkey);
    } else if plan.cursors == KindCursors(kinds, f) && kinds != [] {
      i := InList(kinds, e.kind);
    }
    ReachedBy(plan, i, e);
  }

  /** Up to 100 indexable tags per row, no plan walks past a match. */
  lemma PlanReachesMatches(f: Filter, e: Event)
    requires EventMatchesFilter(e, f) && !RejectsEveryRow(f) && FullyIndexed(e)
    ensures Reaches(PlanQuery(f), e)
  {
    PlanReachesExactly(f, e);
    if TagIndexValues(f.tags) != [] {
      MatchIsFoundByTags(e, f);
    }
  }

  lemma {:induction false} CombinationsDistinct(authors: seq<string>, kinds: seq<int>)
    requires NoDuplicates(authors) && NoDuplicates(kinds)
    ensures NoDuplicates(Combinations(authors, kinds))
  {
    if authors != [] {
      CombinationsDistinct(authors[1..], kinds);
      var rest := Combinations(authors[1..], kinds);
      assert authors[0] !in authors[1..];
      forall j | 0 <= j < |rest| ensures rest[j].0 != authors[0] {
        assert (rest[j].0, rest[j].1) in rest;
      }
    }
  }

  ghost predicate Disjoint(cursors: seq<Cursor>)
  {
    forall i, j, e | 0 <= i < j < |cursors| :: !(Covers(cursors[i], e) && Covers(cursors[j], e))
  }

  /** Cursors of one kind over different authors or kinds share no row. */
  lemma DifferentTargets(c: Cursor, d: Cursor, e: Event)
    requires (c.NewestOfKind? && d.NewestOfKind? && c.kind != d.kind)
          || (c.NewestOfAuthor? && d.NewestOfAuthor?
              && (c.pubkey != d.pubkey || (c.ofKind.Some? && d.ofKind.Some? && c.ofKind != d.ofKind)))
    ensures !(Covers(c, e) && Covers(d, e))
  {
    RangeIsWanted(c, e);
    RangeIsWanted(d, e);
  }

  lemma AuthorKindsDisjoint(pairs: seq<(string, int)>, f: Filter)
    requires NoDuplicates(pairs)
    ensures Disjoint(AuthorKindCursors(pairs, f))
  {
    var cursors := AuthorKindCursors(pairs, f);
    forall i, j, e | 0 <= i < j < |cursors| ensures !(Covers(cursors[i], e) && Covers(cursors[j], e)) {
      assert pairs[i] != pairs[j];
      DifferentTargets(cursors[i], cursors[j], e);
    }
  }

  lemma AuthorsDisjoint(authors: seq<string>, f: Filter)
    requires NoDuplicates(authors)
    ensures Disjoint(AuthorCursors(authors, f))
  {
    var cursors := AuthorCursors(authors, f);
    forall i, j, e | 0 <= i < j < |cursors| ensures !(Covers(cursors[i], e) && Covers(cursors[j], e)) {
      DifferentTargets(cursors[i], cursors[j], e);
    }
  }

  lemma KindsDisjoint(kinds: seq<int>, f: Filter)
    requires NoDuplicates(kinds)
    ensures Disjoint(KindCursors(kinds, f))
  {
    var cursors := KindCursors(kinds, f);
    forall i, j, e | 0 <= i < j < |cursors| ensures !(Covers(cursors[i], e) && Covers(cursors[j], e)) {
      DifferentTargets(cursors[i], cursors[j], e);
    }
  }

  /** No row is delivered by two cursors of one plan. */
  lemma CursorsAreDisjoint(f: Filter)
    ensures PlanQuery(f).NewestPlan? ==> Disjoint(PlanQuery(f).cursors)
  {
    var kinds, authors := DistinctOf(f.kinds), DistinctOf(f.authors);
    CombinationsDistinct(authors, kinds);
    AuthorKindsDisjoint(Combinations(authors, kinds), f);
    AuthorsDisjoint(authors, f);
    KindsDisjoint(kinds, f);
  }

  /** The database: a collection read whole, in any order, and a key range walked backwards. */
  datatype Engine = Engine(scan: Collection -> seq<Event>, reverse: Range -> seq<Event>)

  /** The engine answers from the table: what lies in a collection or a range, each row once, a
      range's rows in the order of its index. */
  ghost predicate Serves(db: Engine, table: set<Event>)
  {
    && (forall c :: Elements(db.scan(c)) == Rows(table, c) && NoDuplicates(db.scan(c)))
    && (forall r :: InIndexOrder(r, db.reverse(r), table))
  }

  ghost predicate InIndexOrder(r: Range, walk: seq<Event>, table: set<Event>)
  {
    && Elements(walk) == (set e | e in table && InRange(r, e)) && NoDuplicates(walk)
    && forall i, j | 0 <= i < j < |walk| :: WalkedBefore(r.index, walk[i], walk[j])
  }

  function WalkOf(db: Engine, c: Cursor): seq<Event>
  {
    db.reverse(RangeOf(c))
  }

  /** A cursor's walk: the rows it covers, each once, newest first. */
  lemma WalkIsNewestFirst(db: Engine, table: set<Event>, c: Cursor)
    requires Serves(db, table)
    ensures forall e :: e in WalkOf(db, c) <==> e in table && Covers(c, e)
    ensures NoDuplicates(WalkOf(db, c)) && Sorted(Descending, WalkOf(db, c)) && NewestToOldest(WalkOf(db, c))
  {
    var walk := WalkOf(db, c);
    assert InIndexOrder(RangeOf(c), walk, table);
    forall e ensures e in walk <==> e in table && Covers(c, e) {
      assert e in walk <==> e in Elements(walk);
    }
    forall i, j | 0 <= i < j < |walk| ensures Descending(walk[i], walk[j]) {
      assert walk[i] in walk && walk[j] in walk;
      CursorDescends(c, walk[i], walk[j]);
    }
  }

  /** The first `limit` of a newest-first list and everything tied with the last of them. */
  function WithTies(matches: seq<Event>, limit: nat): seq<Event>
    requires limit > 0
  {
    if |matches| < limit then matches
    else NotOlder(matches, matches[limit - 1].createdAt)
  }

  function NotOlder(q: seq<Event>, boundary: int): seq<Event>
  {
    if q == [] then [] else
      (if q[0].createdAt >= boundary then [q[0]] else []) + NotOlder(q[1..], boundary)
  }

  predicate NewestToOldest(q: seq<Event>)
  {
    forall i, j | 0 <= i < j < |q| :: q[i].createdAt >= q[j].createdAt
  }

  lemma {:induction false} NotOlderElements(q: seq<Event>, boundary: int)
    ensures forall e :: e in NotOlder(q, boundary) <==> e in q && e.createdAt >= boundary
    ensures NoDuplicates(q) ==> NoDuplicates(NotOlder(q, boundary))
  {
    if q != [] {
      NotOlderElements(q[1..], boundary);
      assert q == [q[0]] + q[1..];
      if NoDuplicates(q) {
        assert q[0] !in q[1..];
      }
    }
  }

  lemma {:induction false} NotOlderSplit(p: seq<Event>, q: seq<Event>, boundary: int)
    requires forall e | e in p :: e.createdAt >= boundary
    requires forall e | e in q :: e.createdAt < boundary
    ensures NotOlder(p + q, boundary) == p
  {
    if p != [] {
      assert (p + q)[1..] == p[1..] + q;
      NotOlderSplit(p[1..], q, boundary);
    } else if q != [] {
      assert p + q == q && [] + q[1..] == q[1..];
      NotOlderSplit([], q[1..], boundary);
    }
  }

  /** The kept rows before and after a cut of the walk. */
  lemma {:induction false} KeepSplit(f: Filter, p: seq<Event>, q: seq<Event>)
    ensures Keep(f, p + q) == Keep(f, p) + Keep(f, q)
  {
    if p == [] {
      assert p + q == q;
    } else {
      assert (p + q)[1..] == p[1..] + q;
      KeepSplit(f, p[1..], q);
    }
  }

  /** Stopping at the boundary loses nothing but older rows. */
  lemma StopIsComplete(f: Filter, walk: seq<Event>, i: nat, limit: nat, boundary: Option<int>)
    requires limit > 0 && i <= |walk| && NewestToOldest(walk)
    requires boundary == if |Keep(f, walk[..i])| < limit then None else Some(Keep(f, walk[..i])[limit - 1].createdAt)
    requires forall e | e in Keep(f, walk[..i]) :: boundary.Some? ==> e.createdAt >= boundary.value
    requires i < |walk| ==> boundary.Some? && walk[i].createdAt < boundary.value
    ensures Keep(f, walk[..i]) == WithTies(Keep(f, walk), limit)
  {
    var p, q := walk[..i], walk[i..];
    assert walk == p + q;
    KeepSplit(f, p, q);
    if boundary.Some? {
      KeepElements(f, q);
      NotOlderSplit(Keep(f, p), Keep(f, q), boundary.value);
      assert Keep(f, walk)[limit - 1] == Keep(f, p)[limit - 1];
    } else {
      assert p == walk;
    }
  }

  /** The rows read so far, and the boundary once `limit` of them are there. */
  ghost predicate ReadSoFar(rows: seq<Event>, boundary: Option<int>, f: Filter, walk: seq<Event>, i: nat, limit: nat)
    requires limit > 0 && i <= |walk|
  {
    && rows == Keep(f, walk[..i])
    && boundary == (if |rows| < limit then None else Some(rows[limit - 1].createdAt))
    && (boundary.Some? ==> forall e | e in rows :: e.createdAt >= boundary.value)
  }

  lemma ReadOneMore(rows: seq<Event>, boundary: Option<int>, f: Filter, walk: seq<Event>, i: nat, limit: nat)
    requires limit > 0 && i < |walk| && NewestToOldest(walk) && ReadSoFar(rows, boundary, f, walk, i, limit)
    requires boundary.Some? ==> walk[i].createdAt >= boundary.value
    ensures !EventMatchesFilter(walk[i], f) ==> ReadSoFar(rows, boundary, f, walk, i + 1, limit)
    ensures EventMatchesFilter(walk[i], f) ==>
              ReadSoFar(rows + [walk[i]], if |rows| + 1 == limit then Some(walk[i].createdAt) else boundary, f, walk, i + 1, limit)
  {
    KeepAppend(f, walk[..i], walk[i]);
    assert walk[..i + 1] == walk[..i] + [walk[i]];
    KeepElements(f, walk[..i]);
    assert forall e | e in rows + [walk[i]] :: e in walk[..i] || e == walk[i];
  }

  /** Reads the newest `limit` matches and the ties of the last of them, stopping early. */
  method ReadNewest(walk: seq<Event>, f: Filter, limit: nat) returns (rows: seq<Event>)
    requires limit > 0 && NewestToOldest(walk)
    ensures rows == WithTies(Keep(f, walk), limit)
  {
    rows := [];
    var boundary: Option<int> := None;
    var i := 0;
    while i < |walk| && !(boundary.Some? && walk[i].createdAt < boundary.value)
      invariant 0 <= i <= |walk| && ReadSoFar(rows, boundary, f, walk, i, limit)
      decreases |walk| - i
    {
      ReadOneMore(rows, boundary, f, walk, i, limit);
      if EventMatchesFilter(walk[i], f) {
        rows := rows + [walk[i]];
        if |rows| == limit {
          boundary := Some(walk[i].createdAt);
        }
      }
      i := i + 1;
    }
    StopIsComplete(f, walk, i, limit, boundary);
  }

  /** What a row the cursor left behind tells us: `limit` kept rows are newer. */
  lemma LeftBehind(f: Filter, walk: seq<Event>, limit: nat, x: Event) returns (newer: set<Event>)
    requires limit > 0 && NoDuplicates(walk) && NewestToOldest(walk)
    requires x in walk && EventMatchesFilter(x, f)
    requires x !in WithTies(Keep(f, walk), limit)
    ensures newer <= Elements(WithTies(Keep(f, walk), limit)) && |newer| == limit
    ensures forall e | e in newer :: e.createdAt > x.createdAt
  {
    var matches := Keep(f, walk);
    KeepElements(f, walk);
    KeepDistinct(f, walk);
    KeepOrder(f, walk);
    NotOlderElements(matches, matches[limit - 1].createdAt);
    FirstMatches(matches, limit);
    newer := Elements(matches[..limit]);
  }

  lemma FirstMatches(matches: seq<Event>, limit: nat)
    requires 0 < limit <= |matches| && NoDuplicates(matches) && NewestToOldest(matches)
    ensures |Elements(matches[..limit])| == limit
    ensures forall e | e in Elements(matches[..limit]) ::
              e in matches && e.createdAt >= matches[limit - 1].createdAt
  {
    DistinctCount(matches[..limit]);
  }

  lemma {:induction false} KeepOrder(f: Filter, q: seq<Event>)
    requires NewestToOldest(q)
    ensures NewestToOldest(Keep(f, q))
  {
    if q != [] {
      KeepOrder(f, q[1..]);
      KeepElements(f, q[1..]);
      forall e | e in Keep(f, q[1..]) ensures q[0].createdAt >= e.createdAt {
        var i :| 0 <= i < |q[1..]| && q[1..][i] == e;
        assert q[i + 1] == e;
      }
    }
  }

  /** The rows a filter matches among those a plan reaches. */
  ghost function Reached(table: set<Event>, f: Filter, plan: QueryPlan): set<Event>
  {
    set e | e in Matching(table, f) && Reaches(plan, e)
  }

  lemma IndexingSuffices(table: set<Event>, f: Filter)
    requires forall e | e in table :: FullyIndexed(e)
    ensures Reached(table, f, PlanQuery(f)) == Matching(table, f)
  {
    forall e | e in Matching(table, f) ensures e in Reached(table, f, PlanQuery(f)) {
      PlanReachesMatches(f, e);
    }
  }

  /** What a cursor reads of its walk. */
  function ReadOf(db: Engine, f: Filter, c: Cursor, limit: nat): seq<Event>
    requires limit > 0
  {
    WithTies(Keep(f, WalkOf(db, c)), limit)
  }

  /** The rows the plan's cursors read between them. */
  ghost predicate ReadBy(rows: seq<Event>, f: Filter, db: Engine, cursors: seq<Cursor>, limit: nat)
    requires limit > 0
  {
    forall e :: e in rows <==> exists c | c in cursors :: e in ReadOf(db, f, c, limit)
  }

  /** Merged cursor reads, sorted and cut, are the newest of everything reached. */
  lemma MergedCursors(table: set<Event>, f: Filter, db: Engine, plan: QueryPlan, rows: seq<Event>)
    requires DistinctIds(table) && Serves(db, table) && !RejectsEveryRow(f)
    requires plan.NewestPlan? && plan.limit > 0 && NoDuplicates(rows)
    requires ReadBy(rows, f, db, plan.cursors, plan.limit)
    ensures CapEvents(rows, plan.limit) == Newest(Reached(table, f, plan), plan.limit)
  {
    var all := Reached(table, f, plan);
    ReadRowsAreReached(table, f, db, plan, rows);
    NewestFirstIsStrict(Elements(rows));
    forall x | x in all && x !in rows
      ensures |Elements(rows)| >= plan.limit
      ensures NewestFirst(SortSet(NewestFirst, Elements(rows))[plan.limit - 1], x)
    {
      UnreadIsLater(table, f, db, plan, rows, x);
    }
    NewestOfKept(all, rows, plan.limit);
  }

  lemma ReadRowsAreReached(table: set<Event>, f: Filter, db: Engine, plan: QueryPlan, rows: seq<Event>)
    requires DistinctIds(table) && Serves(db, table) && !RejectsEveryRow(f)
    requires plan.NewestPlan? && plan.limit > 0
    requires ReadBy(rows, f, db, plan.cursors, plan.limit)
    ensures Elements(rows) <= Reached(table, f, plan) && DistinctIds(Elements(rows))
  {
    forall e | e in rows ensures e in Reached(table, f, plan) {
      CursorRowIsReached(table, f, db, plan, rows, e);
    }
    SubsetKeepsIds(Elements(rows), Reached(table, f, plan));
  }

  lemma SubsetKeepsIds(s: set<Event>, t: set<Event>)
    requires s <= t && DistinctIds(t)
    ensures DistinctIds(s)
  {
  }

  lemma CursorRowIsReached(table: set<Event>, f: Filter, db: Engine, plan: QueryPlan, rows: seq<Event>, e: Event)
    requires Serves(db, table) && !RejectsEveryRow(f) && plan.NewestPlan? && plan.limit > 0
    requires ReadBy(rows, f, db, plan.cursors, plan.limit) && e in rows
    ensures e in Reached(table, f, plan)
  {
    var c :| c in plan.cursors && e in ReadOf(db, f, c, plan.limit);
    CursorRow(table, f, db, c, plan.limit, e);
    assert Reaches(plan, e);
  }

  lemma NewestOfKept(all: set<Event>, rows: seq<Event>, limit: nat)
    requires DistinctIds(all) && Elements(rows) <= all && NoDuplicates(rows) && limit > 0
    requires StrictOrderOn(NewestFirst, Elements(rows))
    requires forall x | x in all && x !in rows ::
      |Elements(rows)| >= limit && NewestFirst(SortSet(NewestFirst, Elements(rows))[limit - 1], x)
    ensures CapEvents(rows, limit) == Newest(all, limit)
  {
    NewestFirstIsStrict(all);
    var q := SortSet(NewestFirst, Elements(rows));
    assert forall x | x in all - Elements(q) :: x !in Elements(rows) && x !in rows;
    TopAgrees(NewestFirst, all, q, limit);
    CapIsNewest(rows, limit);
  }

  /** A reached row no cursor read: `limit` rows that were read are newer. */
  lemma NewerWereRead(table: set<Event>, f: Filter, db: Engine, plan: QueryPlan, rows: seq<Event>, x: Event)
    returns (newer: set<Event>)
    requires Serves(db, table) && plan.NewestPlan? && plan.limit > 0
    requires ReadBy(rows, f, db, plan.cursors, plan.limit) && x in Reached(table, f, plan) && x !in rows
    ensures newer <= Elements(rows) && |newer| == plan.limit && forall e | e in newer :: e.createdAt > x.createdAt
  {
    var c :| c in plan.cursors && Covers(c, x);
    WalkIsNewestFirst(db, table, c);
    newer := LeftBehind(f, WalkOf(db, c), plan.limit, x);
    forall e | e in newer ensures e in Elements(rows) {
      assert e in ReadOf(db, f, c, plan.limit);
    }
  }

  lemma AfterNewer(kept: set<Event>, x: Event, newer: set<Event>, limit: nat)
    requires DistinctIds(kept + {x}) && limit > 0
    requires newer <= kept && |newer| == limit && forall e | e in newer :: e.createdAt > x.createdAt
    ensures StrictOrderOn(NewestFirst, kept) && |kept| >= limit
    ensures NewestFirst(SortSet(NewestFirst, kept)[limit - 1], x)
  {
    NewestFirstIsStrict(kept + {x});
    NthBefore(NewestFirst, kept, x, newer, limit);
  }

  lemma UnreadIsLater(table: set<Event>, f: Filter, db: Engine, plan: QueryPlan, rows: seq<Event>, x: Event)
    requires DistinctIds(table) && Serves(db, table) && plan.NewestPlan? && plan.limit > 0
    requires ReadBy(rows, f, db, plan.cursors, plan.limit)
    requires Elements(rows) <= table && x in Reached(table, f, plan) && x !in rows
    ensures StrictOrderOn(NewestFirst, Elements(rows)) && |Elements(rows)| >= plan.limit
    ensures NewestFirst(SortSet(NewestFirst, Elements(rows))[plan.limit - 1], x)
  {
    var newer := NewerWereRead(table, f, db, plan, rows, x);
    SubsetKeepsIds(Elements(rows) + {x}, table);
    AfterNewer(Elements(rows), x, newer, plan.limit);
  }

  lemma {:induction false} TiesAreKept(matches: seq<Event>, limit: nat)
    requires limit > 0
    ensures forall e | e in WithTies(matches, limit) :: e in matches
    ensures NoDuplicates(matches) ==> NoDuplicates(WithTies(matches, limit))
  {
    if |matches| >= limit {
      NotOlderElements(matches, matches[limit - 1].createdAt);
    }
  }

  lemma CursorRow(table: set<Event>, f: Filter, db: Engine, c: Cursor, limit: nat, e: Event)
    requires Serves(db, table) && limit > 0 && e in ReadOf(db, f, c, limit)
    ensures e in table && Covers(c, e) && EventMatchesFilter(e, f)
  {
    KeepElements(f, WalkOf(db, c));
    TiesAreKept(Keep(f, WalkOf(db, c)), limit);
    WalkIsNewestFirst(db, table, c);
  }

  /** The rows read so far came from the cursors before `k`. */
  ghost predicate FromEarlier(rows: seq<Event>, cursors: seq<Cursor>, k: nat)
    requires k <= |cursors|
  {
    forall e | e in rows :: exists j :: 0 <= j < k && Covers(cursors[j], e)
  }

  /** Rows of different cursors, each read without duplicates, do not collide. */
  lemma NextCursor(table: set<Event>, f: Filter, db: Engine, cursors: seq<Cursor>, limit: nat, k: nat, rows: seq<Event>)
    requires Serves(db, table) && limit > 0 && Disjoint(cursors) && k < |cursors|
    requires NoDuplicates(rows) && FromEarlier(rows, cursors, k)
    ensures NoDuplicates(rows + ReadOf(db, f, cursors[k], limit))
    ensures FromEarlier(rows + ReadOf(db, f, cursors[k], limit), cursors, k + 1)
  {
    var more := ReadOf(db, f, cursors[k], limit);
    WalkIsNewestFirst(db, table, cursors[k]);
    KeepDistinct(f, WalkOf(db, cursors[k]));
    TiesAreKept(Keep(f, WalkOf(db, cursors[k])), limit);
    forall e | e in more ensures Covers(cursors[k], e) && e !in rows {
      CursorRow(table, f, db, cursors[k], limit, e);
    }
    DisjointAppend(rows, more);
  }

  lemma DisjointAppend(p: seq<Event>, q: seq<Event>)
    requires NoDuplicates(p) && NoDuplicates(q)
    requires forall e | e in q :: e !in p
    ensures NoDuplicates(p + q)
  {
    forall i, j | 0 <= i < j < |p + q| ensures (p + q)[i] != (p + q)[j] {
      if i < |p| <= j {
        assert p[i] in p && q[j - |p|] in q;
      }
    }
  }

  lemma ReadByOneMore(rows: seq<Event>, f: Filter, db: Engine, cursors: seq<Cursor>, limit: nat, k: nat)
    requires limit > 0 && k < |cursors| && ReadBy(rows, f, db, cursors[..k], limit)
    ensures ReadBy(rows + ReadOf(db, f, cursors[k], limit), f, db, cursors[..k + 1], limit)
  {
    assert cursors[..k + 1] == cursors[..k] + [cursors[k]];
    forall e ensures e in rows + ReadOf(db, f, cursors[k], limit)
                     <==> exists c | c in cursors[..k + 1] :: e in ReadOf(db, f, c, limit)
    {
      if e in rows {
        var c :| c in cursors[..k] && e in ReadOf(db, f, c, limit);
        assert c in cursors[..k + 1];
      }
      if e in ReadOf(db, f, cursors[k], limit) {
        assert cursors[k] in cursors[..k + 1];
      }
    }
  }

  /** Reads every cursor of the plan, one after another. */
  method ReadCursors(db: Engine, ghost table: set<Event>, f: Filter, cursors: seq<Cursor>, limit: nat)
    returns (rows: seq<Event>)
    requires Serves(db, table) && limit > 0 && Disjoint(cursors)
    ensures NoDuplicates(rows) && ReadBy(rows, f, db, cursors, limit)
  {
    rows := [];
    for k := 0 to |cursors|
      invariant NoDuplicates(rows) && FromEarlier(rows, cursors, k)
      invariant ReadBy(rows, f, db, cursors[..k], limit)
    {
      WalkIsNewestFirst(db, table, cursors[k]);
      var more := ReadNewest(WalkOf(db, cursors[k]), f, limit);
      NextCursor(table, f, db, cursors, limit, k, rows);
      ReadByOneMore(rows, f, db, cursors, limit, k);
      rows := rows + more;
    }
    assert cursors[..|cursors|] == cursors;
  }

  lemma ScannedRows(db: Engine, table: set<Event>, f: Filter, c: Collection, limit: Option<nat>)
    requires Serves(db, table) && !RejectsEveryRow(f)
    ensures NoDuplicates(Keep(f, db.scan(c))) && Elements(Keep(f, db.scan(c))) == Reached(table, f, ScanPlan(c, limit))
  {
    KeepDistinct(f, db.scan(c));
    KeepElements(f, db.scan(c));
    assert forall e :: e in db.scan(c) <==> e in Elements(db.scan(c));
  }

  /** The newest mode: every cursor read, merged and cut. */
  method ReadNewestMode(db: Engine, ghost table: set<Event>, f: Filter, plan: QueryPlan) returns (r: seq<Event>)
    requires DistinctIds(table) && Serves(db, table) && !RejectsEveryRow(f) && plan == PlanQuery(f) && plan.NewestPlan?
    ensures r == Newest(Reached(table, f, plan), plan.limit)
  {
    CursorsAreDisjoint(f);
    var rows := ReadCursors(db, table, f, plan.cursors, plan.limit);
    MergedCursors(table, f, db, plan, rows);
    r := CapEvents(rows, plan.limit);
  }

  /** The scan mode: the collection read whole, filtered, and cut if there is a limit. */
  method ReadScanMode(db: Engine, ghost table: set<Event>, f: Filter, plan: QueryPlan) returns (r: seq<Event>)
    requires DistinctIds(table) && Serves(db, table) && !RejectsEveryRow(f) && plan.ScanPlan?
    ensures plan.scanLimit.Some? ==> r == Newest(Reached(table, f, plan), plan.scanLimit.value)
    ensures plan.scanLimit.None? ==> NoDuplicates(r) && Elements(r) == Reached(table, f, plan)
  {
    r := Keep(f, db.scan(plan.collection));
    ScannedRows(db, table, f, plan.collection, plan.scanLimit);
    if plan.scanLimit.Some? {
      CapIsNewest(r, plan.scanLimit.value);
      r := CapEvents(r, plan.scanLimit.value);
    }
  }

  lemma NothingReached(table: set<Event>, f: Filter)
    requires RejectsEveryRow(f)
    ensures Reached(table, f, PlanQuery(f)) == {} && forall n: nat :: Newest({}, n) == []
  {
  }

  /** Answers one filter. With a limit: the newest `limit` of all matching rows,
      newest first, ties by lowest id. Without: exactly the matching rows. */
  method QueryEvents(db: Engine, ghost table: set<Event>, f: Filter) returns (r: seq<Event>)
    requires DistinctIds(table) && Serves(db, table)
    ensures NormalizeLimit(f.limit).Some? ==> r == Newest(Reached(table, f, PlanQuery(f)), NormalizeLimit(f.limit).value)
    ensures NormalizeLimit(f.limit).None? ==> NoDuplicates(r) && Elements(r) == Reached(table, f, PlanQuery(f))
    ensures (forall e | e in table :: FullyIndexed(e)) ==> Reached(table, f, PlanQuery(f)) == Matching(table, f)
  {
    if forall e | e in table :: FullyIndexed(e) {
      IndexingSuffices(table, f);
    }
    if RejectsEveryRow(f) {
      NothingReached(table, f);
      return [];
    }
    var plan := PlanQuery(f);
    if plan.NewestPlan? {
      r := ReadNewestMode(db, table, f, plan);
    } else {
      r := ReadScanMode(db, table, f, plan);
    }
  }
}
