/** How the same filter is answered from SQLite: narrow in SQL, push `LIMIT` only
    when no later check can drop a row, re-check in code, truncate. */
module SqliteQuery {
  import opened Order
  import opened Events
  import opened FilterUtils
  import opened TagIndex

  const MAX_IN_PARAMS := 500

  /** The WHERE clause: a conjunction of the conditions present. */
  datatype Where = Where(
    ids: Option<seq<string>>, authors: Option<seq<string>>, kinds: Option<seq<int>>,
    tagged: Option<seq<string>>, since: Option<int>, until: Option<int>)

  predicate Selects(w: Where, e: Event)
  {
    && (w.ids.Some? ==> e.id in w.ids.value)
    && (w.authors.Some? ==> e.pubkey in w.authors.value)
    && (w.kinds.Some? ==> e.kind in w.kinds.value)
    && (w.tagged.Some? ==> FoundByTags(e, w.tagged.value))
    && (w.since.Some? ==> e.createdAt >= w.since.value)
    && (w.until.Some? ==> e.createdAt <= w.until.value)
  }

  /** An `IN` list is pushed only when it is non-empty and not over the cap. */
  function Pushed<T>(values: Option<seq<T>>): Option<seq<T>>
  {
    if values.Some? && 0 < |values.value| <= MAX_IN_PARAMS then values else None
  }

  predicate OverCap<T>(values: Option<seq<T>>)
  {
    values.Some? && |values.value| > MAX_IN_PARAMS
  }

  predicate HasTagFilter(f: Filter)
  {
    exists entry | entry in f.tags :: entry.1.Values?
  }

  /** The values of every `#x` array, flattened; the caller has rejected odd names. */
  function TagValues(tags: seq<(string, TagCondition)>): seq<string>
    requires forall entry | entry in tags :: SingleLetter(entry.0)
  {
    if tags == [] then []
    else
      assert tags[0] in tags && forall entry | entry in tags[1..] :: entry in tags;
      (if tags[0].1.Values? then GetIndexedTagValues(tags[0].0, tags[0].1.values) else [])
      + TagValues(tags[1..])
  }

  /** The WHERE clause, and whether it decides the filter completely. */
  function BuildFilterQuery(f: Filter): (r: (Where, bool))
    requires !RejectsEveryRow(f)
  {
    LettersOnly(f);
    var tagValues := TagValues(f.tags);
    var bare := Where(None, None, None, None, f.since, f.until);
    if tagValues != [] && !Lists(f.ids) && !Lists(f.authors) && !Lists(f.kinds) then
      (bare.(tagged := if |tagValues| <= MAX_IN_PARAMS then Some(tagValues) else None), !HasTagFilter(f))
    else
      (bare.(ids := Pushed(f.ids), authors := Pushed(f.authors), kinds := Pushed(f.kinds)),
       !(HasTagFilter(f) || OverCap(f.ids) || OverCap(f.authors) || OverCap(f.kinds)))
  }

  lemma LettersOnly(f: Filter)
    requires !RejectsEveryRow(f)
    ensures forall entry | entry in f.tags :: SingleLetter(entry.0) && entry.1.Values?
  {
  }

  lemma {:induction false} SameTagValues(tags: seq<(string, TagCondition)>)
    requires forall entry | entry in tags :: SingleLetter(entry.0)
    ensures TagValues(tags) == TagIndexValues(tags)
  {
    if tags != [] {
      SameTagValues(tags[1..]);
      assert tags[0] in tags;
    }
  }

  /** A pushed list holds whatever the list held. */
  lemma PushedHolds<T>(values: Option<seq<T>>, x: T)
    requires values.Some? ==> x in values.value
    ensures Pushed(values).Some? ==> x in Pushed(values).value
  {
  }

  lemma TagsKeepMatches(f: Filter, e: Event)
    requires EventMatchesFilter(e, f) && !RejectsEveryRow(f) && FullyIndexed(e) && TagIndexValues(f.tags) != []
    ensures (forall entry | entry in f.tags :: SingleLetter(entry.0)) && FoundByTags(e, TagValues(f.tags))
  {
    LettersOnly(f);
    SameTagValues(f.tags);
    MatchIsFoundByTags(e, f);
  }

  lemma ListsKeepMatches(f: Filter, e: Event)
    requires EventMatchesFilter(e, f)
    ensures Selects(Where(Pushed(f.ids), Pushed(f.authors), Pushed(f.kinds), None, f.since, f.until), e)
    ensures Selects(Where(None, None, None, None, f.since, f.until), e)
  {
    PushedHolds(f.ids, e.id);
    PushedHolds(f.authors, e.pubkey);
    PushedHolds(f.kinds, e.kind);
  }

  /** SQL never narrows a matching row away, up to 100 indexable tags. */
  lemma NarrowingKeepsMatches(f: Filter, e: Event)
    requires EventMatchesFilter(e, f) && !RejectsEveryRow(f) && FullyIndexed(e)
    ensures Selects(BuildFilterQuery(f).0, e)
  {
    LettersOnly(f);
    SameTagValues(f.tags);
    ListsKeepMatches(f, e);
    if TagIndexValues(f.tags) != [] {
      TagsKeepMatches(f, e);
    }
  }

  /** When the clause is complete, the row check drops nothing or drops everything. */
  lemma CompleteNarrowing(f: Filter)
    requires !RejectsEveryRow(f) && BuildFilterQuery(f).1
    ensures
      || (forall e :: Selects(BuildFilterQuery(f).0, e) <==> EventMatchesFilter(e, f))
      || (forall e :: !EventMatchesFilter(e, f))
  {
    LettersOnly(f);
    assert forall entry :: entry !in f.tags;
  }

  /** The database: the selected rows, unordered or in `created_at DESC, id ASC` order. */
  datatype Database = Database(all: Where -> seq<Event>, ordered: Where -> seq<Event>)

  ghost function Rows(table: set<Event>, w: Where): set<Event>
  {
    set e | e in table && Selects(w, e)
  }

  ghost predicate Holds(db: Database, table: set<Event>)
  {
    && (forall w :: Elements(db.all(w)) == Rows(table, w) && NoDuplicates(db.all(w)))
    && (forall w :: Elements(db.ordered(w)) == Rows(table, w) && Sorted(NewestFirst, db.ordered(w)))
  }

  /** The rows a filter matches among those its clause selects. */
  ghost function Selected(table: set<Event>, f: Filter): set<Event>
  {
    if RejectsEveryRow(f) then {}
    else set e | e in Matching(table, f) && Selects(BuildFilterQuery(f).0, e)
  }

  lemma SelectionSuffices(table: set<Event>, f: Filter)
    requires forall e | e in table :: FullyIndexed(e)
    ensures Selected(table, f) == Matching(table, f)
  {
    forall e | e in Matching(table, f) ensures e in Selected(table, f) {
      NarrowingKeepsMatches(f, e);
    }
  }

  lemma RowMembers(db: Database, table: set<Event>, w: Where)
    requires Holds(db, table)
    ensures forall e :: e in db.all(w) <==> e in table && Selects(w, e)
    ensures forall e :: e in db.ordered(w) <==> e in table && Selects(w, e)
  {
    forall e ensures e in db.all(w) <==> e in table && Selects(w, e) {
      assert e in db.all(w) <==> e in Elements(db.all(w));
    }
    forall e ensures e in db.ordered(w) <==> e in table && Selects(w, e) {
      assert e in db.ordered(w) <==> e in Elements(db.ordered(w));
    }
  }

  /** Re-checking the ordered rows leaves exactly the matching ones, in order. */
  lemma RecheckedInOrder(db: Database, table: set<Event>, f: Filter)
    requires DistinctIds(table) && Holds(db, table) && !RejectsEveryRow(f)
    ensures DistinctIds(Selected(table, f)) && StrictOrderOn(NewestFirst, Selected(table, f))
    ensures Keep(f, db.ordered(BuildFilterQuery(f).0)) == SortSet(NewestFirst, Selected(table, f))
  {
    var w := BuildFilterQuery(f).0;
    var kept := Keep(f, db.ordered(w));
    RowMembers(db, table, w);
    KeepElements(f, db.ordered(w));
    KeepSorted(NewestFirst, f, db.ordered(w));
    assert Elements(kept) == Selected(table, f);
    NewestFirstIsStrict(Selected(table, f));
    SortedUnique(NewestFirst, kept, SortSet(NewestFirst, Selected(table, f)));
  }

  lemma {:induction false} KeepAll(f: Filter, q: seq<Event>)
    requires forall e | e in q :: EventMatchesFilter(e, f)
    ensures Keep(f, q) == q
  {
    if q != [] {
      assert q == [q[0]] + q[1..];
      KeepAll(f, q[1..]);
    }
  }

  /** A pushed `LIMIT` cuts the same rows the final slice would. */
  lemma PushedLimit(db: Database, table: set<Event>, f: Filter, limit: nat)
    requires Holds(db, table) && !RejectsEveryRow(f) && BuildFilterQuery(f).1
    ensures Take(Keep(f, Take(db.ordered(BuildFilterQuery(f).0), limit)), limit)
         == Take(Keep(f, db.ordered(BuildFilterQuery(f).0)), limit)
  {
    var all := db.ordered(BuildFilterQuery(f).0);
    var cut := Take(all, limit);
    CompleteNarrowing(f);
    RowMembers(db, table, BuildFilterQuery(f).0);
    assert forall e | e in cut :: e in all;
    if forall e | e in all :: EventMatchesFilter(e, f) {
      KeepAll(f, all);
      KeepAll(f, cut);
    } else {
      KeepElements(f, all);
      KeepElements(f, cut);
      KeepNone(f, all);
      KeepNone(f, cut);
    }
  }

  lemma {:induction false} KeepNone(f: Filter, q: seq<Event>)
    requires forall e | e in q :: !EventMatchesFilter(e, f)
    ensures Keep(f, q) == []
  {
    if q != [] {
      KeepNone(f, q[1..]);
    }
  }

  /** Answers one filter; with a limit, the sequence NIP-01 asks for. */
  method QueryEvents(db: Database, ghost table: set<Event>, f: Filter) returns (r: seq<Event>)
    requires DistinctIds(table) && Holds(db, table)
    ensures NormalizeLimit(f.limit).Some? ==> r == Newest(Selected(table, f), NormalizeLimit(f.limit).value)
    ensures NormalizeLimit(f.limit).None? ==> NoDuplicates(r) && Elements(r) == Selected(table, f)
    ensures (forall e | e in table :: FullyIndexed(e)) ==> Selected(table, f) == Matching(table, f)
  {
    if forall e | e in table :: FullyIndexed(e) {
      SelectionSuffices(table, f);
    }
    if RejectsEveryRow(f) {
      assert Selected(table, f) == {};
      return [];
    }
    var (w, complete) := BuildFilterQuery(f);
    var limit := NormalizeLimit(f.limit);
    if limit.Some? {
      RecheckedInOrder(db, table, f);
      var rows := db.ordered(w);
      if complete {
        PushedLimit(db, table, f, limit.value);
        rows := Take(rows, limit.value);
      }
      return Take(Keep(f, rows), limit.value);
    }
    RowMembers(db, table, w);
    KeepElements(f, db.all(w));
    KeepDistinct(f, db.all(w));
    return Keep(f, db.all(w));
  }
}
