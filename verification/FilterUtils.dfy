/** What a NIP-01 filter asks for, and the answer every reader must give. */
module FilterUtils {
  import opened Order
  import opened Events

  /** One entry of the array under a `#x` key; a client may send anything. */
  datatype TagValue = Text(text: string) | NotText

  /** What sits under a `#x` key. */
  datatype TagCondition = NotArray | Values(values: seq<TagValue>)

  /** A JavaScript number, as far as `limit` is concerned. */
  datatype Number = NaN | PositiveInfinity | NegativeInfinity | Finite(value: real)

  /** `tags` lists the entries whose key starts with `#`, the `#` stripped. */
  datatype Filter = Filter(
    ids: Option<seq<string>>, authors: Option<seq<string>>, kinds: Option<seq<int>>,
    since: Option<int>, until: Option<int>, limit: Option<Number>,
    tags: seq<(string, TagCondition)>)

  predicate Lists<T(==)>(o: Option<seq<T>>)
  {
    o.Some? && o.value != []
  }

  /** The tags of `e` under `name` hold `value` in second place. */
  predicate HasTag(e: Event, name: string, value: TagValue)
  {
    value.Text? && exists t | t in e.tags :: |t| >= 2 && t[0] == name && t[1] == value.text
  }

  predicate TagEntryMatches(e: Event, entry: (string, TagCondition))
  {
    entry.1.Values? ==> exists v | v in entry.1.values :: HasTag(e, entry.0, v)
  }

  predicate EventMatchesFilter(e: Event, f: Filter)
  {
    && (f.ids.Some? ==> e.id in f.ids.value)
    && (f.authors.Some? ==> e.pubkey in f.authors.value)
    && (f.kinds.Some? ==> e.kind in f.kinds.value)
    && (f.since.Some? ==> e.createdAt >= f.since.value)
    && (f.until.Some? ==> e.createdAt <= f.until.value)
    && forall entry | entry in f.tags :: TagEntryMatches(e, entry)
  }

  /** `None` is "no client limit". */
  function NormalizeLimit(limit: Option<Number>): (r: Option<nat>)
    ensures r.None? <==> limit.None? || limit.value in {NaN, PositiveInfinity}
    ensures r.Some? && limit.value.Finite? && limit.value.value >= 0.0 ==>
              r.value as real <= limit.value.value < r.value as real + 1.0
    ensures r.Some? && !(limit.value.Finite? && limit.value.value >= 0.0) ==> r.value == 0
  {
    if limit.None? || limit.value.NaN? || limit.value.PositiveInfinity? then None
    else if limit.value.NegativeInfinity? || limit.value.value < 0.0 then Some(0)
    else Some(limit.value.value.Floor)
  }

  predicate SingleLetter(name: string)
  {
    |name| == 1 && ('a' <= name[0] <= 'z' || 'A' <= name[0] <= 'Z')
  }

  predicate UsableValue(v: TagValue)
  {
    v.Text? && v.text != []
  }

  /** A tag condition no stored row can satisfy. */
  predicate RejectsEveryRow(f: Filter)
  {
    exists entry | entry in f.tags ::
      !SingleLetter(entry.0) || entry.1.NotArray? || exists v | v in entry.1.values :: !UsableValue(v)
  }

  /** The rows of `table` a filter asks for. */
  ghost function Matching(table: set<Event>, f: Filter): set<Event>
  {
    set e | e in table && !RejectsEveryRow(f) && EventMatchesFilter(e, f)
  }

  /** NIP-01's answer with a limit: the newest `limit` of the matching rows. */
  ghost function Newest(rows: set<Event>, limit: nat): seq<Event>
    requires DistinctIds(rows)
  {
    NewestFirstIsStrict(rows);
    Take(SortSet(NewestFirst, rows), limit)
  }

  /** JavaScript's `filter` with the row predicate. */
  function Keep(f: Filter, q: seq<Event>): seq<Event>
  {
    if q == [] then [] else
      (if EventMatchesFilter(q[0], f) then [q[0]] else []) + Keep(f, q[1..])
  }

  lemma {:induction false} KeepElements(f: Filter, q: seq<Event>)
    ensures forall e :: e in Keep(f, q) <==> e in q && EventMatchesFilter(e, f)
  {
    if q != [] {
      KeepElements(f, q[1..]);
      assert q == [q[0]] + q[1..];
    }
  }

  lemma {:induction false} KeepSorted(less: (Event, Event) -> bool, f: Filter, q: seq<Event>)
    requires Sorted(less, q)
    ensures Sorted(less, Keep(f, q))
  {
    if q != [] {
      KeepSorted(less, f, q[1..]);
      KeepElements(f, q[1..]);
      forall e | e in Keep(f, q[1..]) ensures less(q[0], e) {
        var i :| 0 <= i < |q[1..]| && q[1..][i] == e;
        assert q[i + 1] == e;
      }
    }
  }

  lemma {:induction false} KeepDistinct(f: Filter, q: seq<Event>)
    requires NoDuplicates(q)
    ensures NoDuplicates(Keep(f, q))
  {
    if q != [] {
      KeepDistinct(f, q[1..]);
      KeepElements(f, q[1..]);
      assert q[0] !in q[1..];
    }
  }

  lemma {:induction false} KeepAppend(f: Filter, p: seq<Event>, e: Event)
    ensures Keep(f, p + [e]) == Keep(f, p) + if EventMatchesFilter(e, f) then [e] else []
  {
    if p == [] {
      assert p + [e] == [e];
    } else {
      KeepAppend(f, p[1..], e);
      assert (p + [e])[1..] == p[1..] + [e];
    }
  }

  /** Nothing later in the list must come first. */
  predicate InNewestFirstOrder(q: seq<Event>)
  {
    forall i, j | 0 <= i < j < |q| :: !NewestFirst(q[j], q[i])
  }

  function Insert(e: Event, q: seq<Event>): (r: seq<Event>)
    requires InNewestFirstOrder(q)
    ensures InNewestFirstOrder(r) && multiset(r) == multiset{e} + multiset(q)
  {
    if q == [] || !NewestFirst(q[0], e) then
      NewestFirstTransfer(e, q);
      assert multiset([e] + q) == multiset{e} + multiset(q);
      [e] + q
    else
      assert q == [q[0]] + q[1..];
      var rest := Insert(e, q[1..]);
      InsertOrder(e, q, rest);
      [q[0]] + rest
  }

  lemma NewestFirstTransfer(e: Event, q: seq<Event>)
    requires InNewestFirstOrder(q) && (q == [] || !NewestFirst(q[0], e))
    ensures InNewestFirstOrder([e] + q)
  {
    forall j | 0 <= j < |q| ensures !NewestFirst(q[j], e) {
      assert j > 0 ==> !NewestFirst(q[j], q[0]);
      StrLessTotal(q[0].id, q[j].id);
      StrLessTotal(q[0].id, e.id);
      if StrLess(q[j].id, e.id) && StrLess(q[0].id, q[j].id) {
        StrLessTransitive(q[0].id, q[j].id, e.id);
      }
    }
  }

  lemma InsertOrder(e: Event, q: seq<Event>, rest: seq<Event>)
    requires q != [] && InNewestFirstOrder(q) && NewestFirst(q[0], e)
    requires InNewestFirstOrder(rest) && multiset(rest) == multiset{e} + multiset(q[1..])
    ensures InNewestFirstOrder([q[0]] + rest)
  {
    forall x | x in rest ensures !NewestFirst(x, q[0]) {
      assert x in multiset(rest);
      if x == e {
        StrLessIrreflexive(e.id);
        if StrLess(q[0].id, e.id) && StrLess(e.id, q[0].id) {
          StrLessTransitive(e.id, q[0].id, e.id);
        }
      } else {
        assert x in multiset(q[1..]);
        var i :| 0 <= i < |q[1..]| && q[1..][i] == x;
        assert !NewestFirst(q[i + 1], q[0]);
      }
    }
  }

  /** The stable sort behind `capEvents`. */
  function SortNewestFirst(q: seq<Event>): (r: seq<Event>)
    ensures InNewestFirstOrder(r) && multiset(r) == multiset(q)
  {
    if q == [] then [] else
      assert q == [q[0]] + q[1..];
      Insert(q[0], SortNewestFirst(q[1..]))
  }

  function CapEvents(q: seq<Event>, maxEvents: nat): seq<Event>
  {
    Take(SortNewestFirst(q), maxEvents)
  }

  /** On distinct rows the cap is NIP-01's answer over them. */
  lemma CapIsNewest(q: seq<Event>, limit: nat)
    requires NoDuplicates(q) && DistinctIds(Elements(q))
    ensures CapEvents(q, limit) == Newest(Elements(q), limit)
  {
    var r := SortNewestFirst(q);
    SameMembers(r, q);
    NewestFirstIsStrict(Elements(q));
    forall i, j | 0 <= i < j < |r| ensures NewestFirst(r[i], r[j]) {
      assert r[i] in Elements(q) && r[j] in Elements(q);
      if r[i] == r[j] {
        DuplicateCount(r, i, j);
        SingleCount(q, r[i]);
      }
    }
    SortedUnique(NewestFirst, r, SortSet(NewestFirst, Elements(q)));
  }

  lemma SameMembers(r: seq<Event>, q: seq<Event>)
    requires multiset(r) == multiset(q)
    ensures Elements(r) == Elements(q)
  {
    forall e ensures e in r <==> e in q {
      assert e in r <==> e in multiset(r);
      assert e in q <==> e in multiset(q);
    }
  }

  lemma DuplicateCount(r: seq<Event>, i: nat, j: nat)
    requires i < j < |r| && r[i] == r[j]
    ensures multiset(r)[r[i]] >= 2
  {
    assert r == r[..j] + [r[j]] + r[j + 1..];
    assert r[..j][i] in multiset(r[..j]);
  }

  lemma {:induction false} SingleCount(q: seq<Event>, e: Event)
    requires NoDuplicates(q)
    ensures multiset(q)[e] <= 1
  {
    if q != [] {
      SingleCount(q[1..], e);
      assert q == [q[0]] + q[1..];
      assert q[0] !in q[1..];
      if e == q[0] {
        assert e !in multiset(q[1..]);
      }
    }
  }
}
