/** What a filter's conditions mean, and what the newest-first answer is, in the fields of events
    and filters alone. */
module FilterLaws {
  import opened Order
  import opened Events
  import opened FilterUtils

  // ---- the conditions

  /** A filter that asks for nothing in particular matches every row. */
  lemma NothingAsked(table: set<Event>, limit: Option<Number>)
    ensures Matching(table, Filter(None, None, None, None, None, limit, [])) == table
  {
  }

  /** Each field condition keeps the rows it names: one of the ids, authors or kinds, and both ends
      of the time range included. */
  lemma FieldsNarrow(table: set<Event>, f: Filter, ids: seq<string>, authors: seq<string>, kinds: seq<int>, time: int)
    ensures Matching(table, f.(ids := Some(ids))) == set e | e in Matching(table, f.(ids := None)) && e.id in ids
    ensures Matching(table, f.(authors := Some(authors))) == set e | e in Matching(table, f.(authors := None)) && e.pubkey in authors
    ensures Matching(table, f.(kinds := Some(kinds))) == set e | e in Matching(table, f.(kinds := None)) && e.kind in kinds
    ensures Matching(table, f.(since := Some(time))) == set e | e in Matching(table, f.(since := None)) && time <= e.createdAt
    ensures Matching(table, f.(until := Some(time))) == set e | e in Matching(table, f.(until := None)) && e.createdAt <= time
  {
  }

  /** The limit has no say in what matches. */
  lemma LimitIsNoCondition(table: set<Event>, f: Filter, limit: Option<Number>)
    ensures Matching(table, f.(limit := limit)) == Matching(table, f)
  {
  }

  /** One more tag condition intersects. */
  lemma TagsNarrow(table: set<Event>, f: Filter, condition: (string, TagCondition))
    ensures Matching(table, f.(tags := f.tags + [condition]))
         == Matching(table, f) * Matching(table, f.(tags := [condition]))
  {
    forall e ensures e in Matching(table, f.(tags := f.tags + [condition]))
                     <==> e in Matching(table, f) && e in Matching(table, f.(tags := [condition]))
    {
      assert forall entry :: entry in f.tags + [condition] <==> entry in f.tags || entry in [condition];
      assert condition in [condition];
    }
  }

  /** The values under one `#x` key are alternatives: two lists together match what either matches. */
  lemma AlternativesUnite(table: set<Event>, f: Filter, name: string, p: seq<TagValue>, q: seq<TagValue>)
    requires forall v | v in p + q :: v.Text? && v.text != ""
    ensures Matching(table, f.(tags := f.tags + [(name, Values(p + q))]))
         == Matching(table, f.(tags := f.tags + [(name, Values(p))])) + Matching(table, f.(tags := f.tags + [(name, Values(q))]))
  {
    TagsNarrow(table, f, (name, Values(p + q)));
    TagsNarrow(table, f, (name, Values(p)));
    TagsNarrow(table, f, (name, Values(q)));
    OneListUnites(table, f, name, p, q);
  }

  lemma OneListUnites(table: set<Event>, f: Filter, name: string, p: seq<TagValue>, q: seq<TagValue>)
    requires forall v | v in p + q :: v.Text? && v.text != ""
    ensures Matching(table, f.(tags := [(name, Values(p + q))]))
         == Matching(table, f.(tags := [(name, Values(p))])) + Matching(table, f.(tags := [(name, Values(q))]))
  {
    assert forall v :: v in p + q <==> v in p || v in q;
    var both, one, other := f.(tags := [(name, Values(p + q))]), f.(tags := [(name, Values(p))]), f.(tags := [(name, Values(q))]);
    forall e ensures e in Matching(table, both) <==> e in Matching(table, one) || e in Matching(table, other) {
      SingleCondition(e, both, name, p + q);
      SingleCondition(e, one, name, p);
      SingleCondition(e, other, name, q);
    }
  }

  /** A filter with one tag condition of usable values, spelled out. */
  lemma SingleCondition(e: Event, f: Filter, name: string, values: seq<TagValue>)
    requires f.tags == [(name, Values(values))] && forall v | v in values :: v.Text? && v.text != ""
    ensures RejectsEveryRow(f) <==> !SingleLetter(name)
    ensures EventMatchesFilter(e, f)
            <==> EventMatchesFilter(e, f.(tags := [])) && exists v | v in values :: HasTag(e, name, v)
  {
    assert (name, Values(values)) in f.tags;
    assert forall entry | entry in f.tags :: entry == (name, Values(values));
    assert TagEntryMatches(e, (name, Values(values))) <==> exists v | v in values :: HasTag(e, name, v);
  }

  predicate IsLetter(c: char)
  {
    'a' <= c <= 'z' || 'A' <= c <= 'Z'
  }

  /** A condition of one value is met exactly by the rows with a tag of that name whose second
      element is the value; a condition of no value by none. */
  lemma OneValueAsked(table: set<Event>, f: Filter, letter: char, value: string)
    requires IsLetter(letter) && value != ""
    ensures Matching(table, f.(tags := [([letter], Values([Text(value)]))]))
         == set e | e in Matching(table, f.(tags := []))
                    && exists t | t in e.tags :: |t| >= 2 && t[0] == [letter] && t[1] == value
    ensures Matching(table, f.(tags := [([letter], Values([]))])) == {}
  {
    var one := f.(tags := [([letter], Values([Text(value)]))]);
    forall e ensures e in Matching(table, one)
                     <==> e in Matching(table, f.(tags := []))
                          && exists t | t in e.tags :: |t| >= 2 && t[0] == [letter] && t[1] == value
    {
      SingleCondition(e, one, [letter], [Text(value)]);
      assert Text(value) in [Text(value)];
      assert one.(tags := []) == f.(tags := []);
    }
    forall e ensures e !in Matching(table, f.(tags := [([letter], Values([]))])) {
      SingleCondition(e, f.(tags := [([letter], Values([]))]), [letter], []);
    }
  }

  /** A condition no row can be asked for turns the filter down whole: a key that is no single
      letter, something that is no list, or a value that is no text or an empty one. */
  lemma OddConditionsMatchNothing(table: set<Event>, f: Filter, condition: (string, TagCondition))
    requires condition in f.tags
    requires |condition.0| != 1 || !IsLetter(condition.0[0]) || condition.1.NotArray?
          || exists v | v in condition.1.values :: v.NotText? || v.text == ""
    ensures Matching(table, f) == {}
  {
  }

  // ---- the answer

  /** The strings agree up to `k`, where one ends or has the smaller code unit. */
  ghost predicate PartsAt(a: string, b: string, k: int)
  {
    0 <= k <= |a| && k < |b| && a[..k] == b[..k] && (k == |a| || a[k] < b[k])
  }

  /** What JavaScript's `<` says of two strings: at the first place they part, the smaller code
      unit, or the end of the shorter string. */
  lemma {:induction false} StrLessMeans(a: string, b: string)
    ensures StrLess(a, b) <==> exists k :: PartsAt(a, b, k)
  {
    if a == "" || b == "" {
      assert b != "" ==> PartsAt(a, b, 0);
    } else if a[0] != b[0] {
      assert a[0] < b[0] ==> PartsAt(a, b, 0);
      forall k | 0 < k <= |a| && k < |b| ensures a[..k] != b[..k] {
        assert a[..k][0] != b[..k][0];
      }
    } else {
      StrLessMeans(a[1..], b[1..]);
      PartLater(a, b);
    }
  }

  lemma PartLater(a: string, b: string)
    requires a != "" && b != "" && a[0] == b[0]
    ensures (exists k :: PartsAt(a, b, k)) <==> exists k :: PartsAt(a[1..], b[1..], k)
  {
    forall k | PartsAt(a, b, k) ensures PartsAt(a[1..], b[1..], k - 1) {
      assert k > 0 && a[1..][..k - 1] == a[..k][1..] && b[1..][..k - 1] == b[..k][1..];
    }
    forall k | PartsAt(a[1..], b[1..], k) ensures PartsAt(a, b, k + 1) {
      assert a[..k + 1] == [a[0]] + a[1..][..k] && b[..k + 1] == [b[0]] + b[1..][..k];
    }
  }

  /** The order of an answer: later first, and of equal times the lower id. */
  lemma AnswerOrder(rows: set<Event>, limit: nat, i: nat, j: nat)
    requires DistinctIds(rows) && i < j < |Newest(rows, limit)|
    ensures var a, b := Newest(rows, limit)[i], Newest(rows, limit)[j];
            a.createdAt > b.createdAt || (a.createdAt == b.createdAt && StrLess(a.id, b.id))
  {
    NewestFirstIsStrict(rows);
    assert NewestFirst(SortSet(NewestFirst, rows)[i], SortSet(NewestFirst, rows)[j]);
  }

  /** An answer holds as many rows as it may, each once, and whatever it leaves out comes after
      all of it. */
  lemma AnswerIsTheTop(rows: set<Event>, limit: nat)
    requires DistinctIds(rows)
    ensures var r := Newest(rows, limit);
            && |r| == (if |rows| < limit then |rows| else limit) && NoDuplicates(r) && Elements(r) <= rows
            && forall x, i | x in rows - Elements(r) && 0 <= i < |r| ::
                 r[i].createdAt > x.createdAt || (r[i].createdAt == x.createdAt && StrLess(r[i].id, x.id))
  {
    NewestFirstIsStrict(rows);
    var q, r := SortSet(NewestFirst, rows), Newest(rows, limit);
    SortedHasNoDuplicates(NewestFirst, q);
    DistinctCount(q);
    forall x, i | x in rows - Elements(r) && 0 <= i < |r| ensures NewestFirst(r[i], x) {
      assert x in Elements(q);
      if limit < |q| {
        LaterElement(NewestFirst, q, limit, i, x);
      }
    }
  }

  lemma PartKeepsIds(all: set<Event>, part: set<Event>)
    requires DistinctIds(all) && part <= all
    ensures DistinctIds(part)
  {
  }

  /** The answer over two sets of rows is the two answers merged and cut. */
  lemma AnswerOfUnion(a: set<Event>, b: set<Event>, all: set<Event>, kept: set<Event>, limit: nat)
    requires all == a + b && DistinctIds(all) && DistinctIds(a) && DistinctIds(b) && DistinctIds(kept)
    requires kept == Elements(Newest(a, limit)) + Elements(Newest(b, limit))
    ensures Newest(all, limit) == Newest(kept, limit)
  {
    if limit > 0 {
      KeptSuffices(a, b, all, kept, limit);
    }
  }

  lemma KeptSuffices(a: set<Event>, b: set<Event>, all: set<Event>, kept: set<Event>, limit: nat)
    requires all == a + b && DistinctIds(all) && DistinctIds(a) && DistinctIds(b) && DistinctIds(kept) && limit > 0
    requires kept == Elements(Newest(a, limit)) + Elements(Newest(b, limit))
    ensures Newest(all, limit) == Newest(kept, limit)
  {
    AnswerIsTheTop(a, limit);
    AnswerIsTheTop(b, limit);
    NewestFirstIsStrict(all);
    NewestFirstIsStrict(kept);
    var q := SortSet(NewestFirst, kept);
    forall y | y in all - Elements(q) ensures |q| >= limit && NewestFirst(q[limit - 1], y) {
      if y in a {
        LeftOutIsLater(a, all, kept, limit, y);
      } else {
        LeftOutIsLater(b, all, kept, limit, y);
      }
    }
    TopAgrees(NewestFirst, all, q, limit);
  }

  /** A row left out of an answer finds it full, and later than all of it. */
  lemma LeftOutOfFull(a: set<Event>, top: seq<Event>, limit: nat, y: Event)
    requires DistinctIds(a) && top == Newest(a, limit) && y in a && y !in Elements(top)
    ensures Elements(top) <= a && |Elements(top)| == limit && forall e | e in Elements(top) :: NewestFirst(e, y)
  {
    AnswerIsTheTop(a, limit);
    DistinctCount(top);
    if |a| < limit {
      Cardinality(Elements(top), a);
    }
    forall e | e in Elements(top) ensures NewestFirst(e, y) {
      var i :| 0 <= i < |top| && top[i] == e;
    }
  }

  lemma FullIsBefore(top: set<Event>, kept: set<Event>, all: set<Event>, limit: nat, y: Event)
    requires DistinctIds(all) && top <= kept <= all && y in all && |top| == limit > 0
    requires forall e | e in top :: NewestFirst(e, y)
    ensures StrictOrderOn(NewestFirst, kept) && |SortSet(NewestFirst, kept)| >= limit
    ensures NewestFirst(SortSet(NewestFirst, kept)[limit - 1], y)
  {
    PartKeepsIds(all, kept + {y});
    NewestFirstIsStrict(kept + {y});
    NthBefore(NewestFirst, kept, y, top, limit);
    DistinctCount(SortSet(NewestFirst, kept));
  }

  lemma LeftOutIsLater(a: set<Event>, all: set<Event>, kept: set<Event>, limit: nat, y: Event)
    requires DistinctIds(a) && DistinctIds(all) && a <= all && limit > 0 && y in a - kept
    requires Elements(Newest(a, limit)) <= kept <= all
    ensures StrictOrderOn(NewestFirst, kept) && |SortSet(NewestFirst, kept)| >= limit
    ensures NewestFirst(SortSet(NewestFirst, kept)[limit - 1], y)
  {
    var top := Elements(Newest(a, limit));
    LeftOutOfFull(a, Newest(a, limit), limit, y);
    FullIsBefore(top, kept, all, limit, y);
  }

  /** So the readers' answer to a filter with two alternative lists is their answers to each list,
      merged and cut. */
  lemma AnswersOfAlternatives(table: set<Event>, f: Filter, name: string, p: seq<TagValue>, q: seq<TagValue>, limit: nat,
                              one: set<Event>, other: set<Event>, both: set<Event>)
    requires DistinctIds(table) && forall v | v in p + q :: v.Text? && v.text != ""
    requires one == Matching(table, f.(tags := f.tags + [(name, Values(p))]))
    requires other == Matching(table, f.(tags := f.tags + [(name, Values(q))]))
    requires both == Matching(table, f.(tags := f.tags + [(name, Values(p + q))]))
    ensures DistinctIds(one) && DistinctIds(other) && DistinctIds(both)
    ensures var kept := Elements(Newest(one, limit)) + Elements(Newest(other, limit));
            DistinctIds(kept) && Newest(both, limit) == Newest(kept, limit)
  {
    PartKeepsIds(table, one);
    PartKeepsIds(table, other);
    PartKeepsIds(table, both);
    AlternativesUnite(table, f, name, p, q);
    AnswerIsTheTop(one, limit);
    AnswerIsTheTop(other, limit);
    var kept := Elements(Newest(one, limit)) + Elements(Newest(other, limit));
    PartKeepsIds(table, kept);
    AnswerOfUnion(one, other, both, kept, limit);
  }
}
