/** Prioritised eviction under a size cap, in both storage adapters. */
module Eviction {
  import opened Order
  import opened Events
  import opened IndexKeys

  datatype Strategy = FIFO | LRU | LFU

  datatype Row = Row(id: string, pubkey: string, kind: int, createdAt: int, lastAccessedAt: int, accessCount: int)

  datatype Priority = Priority(pubkeys: seq<string>, kinds: seq<int>)

  ghost predicate DistinctRows(table: set<Row>)
  {
    forall a, b | a in table && b in table && a.id == b.id :: a == b
  }

  // ---- retention

  predicate IsAlwaysRetainedKind(kind: int)
  {
    kind == DELETION_EVENT_KIND
  }

  /** cache-relay's per-row matcher. */
  predicate IsPriority(priority: Option<Priority>, row: Row)
  {
    IsAlwaysRetainedKind(row.kind)
    || (priority.Some? && (row.pubkey in priority.value.pubkeys || row.kind in priority.value.kinds))
  }

  predicate HasPriorityRules(priority: Option<Priority>)
  {
    priority.Some? && (|priority.value.pubkeys| > 0 || |priority.value.kinds| > 0)
  }

  /** The server's SQL condition: an `OR` of the lists that are not empty. */
  predicate RetentionCondition(priority: Option<Priority>, row: Row)
  {
    row.kind == DELETION_EVENT_KIND
    || (HasPriorityRules(priority)
        && ((|priority.value.pubkeys| > 0 && row.pubkey in priority.value.pubkeys)
            || (|priority.value.kinds| > 0 && row.kind in priority.value.kinds)))
  }

  // ---- the two adapters' orders

  /** A row's key under a strategy's index. */
  function IndexKey(strategy: Strategy, row: Row): Key
  {
    match strategy
    case FIFO => [Number(row.createdAt)]
    case LRU => [Number(row.lastAccessedAt)]
    case LFU => [Number(row.accessCount), Number(row.lastAccessedAt)]
  }

  /** An index walk: by key, then by primary key. */
  predicate IndexOrder(strategy: Strategy, a: Row, b: Row)
  {
    KeyLess(IndexKey(strategy, a), IndexKey(strategy, b))
    || (IndexKey(strategy, a) == IndexKey(strategy, b) && StrLess(a.id, b.id))
  }

  /** The server's `ORDER BY`, column by column. */
  predicate OrderBy(strategy: Strategy, a: Row, b: Row)
  {
    match strategy
    case FIFO => a.createdAt < b.createdAt || (a.createdAt == b.createdAt && StrLess(a.id, b.id))
    case LRU => a.lastAccessedAt < b.lastAccessedAt || (a.lastAccessedAt == b.lastAccessedAt && StrLess(a.id, b.id))
    case LFU =>
      a.accessCount < b.accessCount
      || (a.accessCount == b.accessCount
          && (a.lastAccessedAt < b.lastAccessedAt || (a.lastAccessedAt == b.lastAccessedAt && StrLess(a.id, b.id))))
  }

  /** What eviction promises: retained rows last, and otherwise in strategy order. */
  predicate EvictedBefore(strategy: Strategy, priority: Option<Priority>, a: Row, b: Row)
  {
    if IsPriority(priority, a) == IsPriority(priority, b) then OrderBy(strategy, a, b) else IsPriority(priority, b)
  }

  lemma SameOrder(strategy: Strategy, a: Row, b: Row)
    ensures IndexOrder(strategy, a, b) == OrderBy(strategy, a, b)
  {
    match strategy
    case FIFO => OneComponent(Number(a.createdAt), Number(b.createdAt));
    case LRU => OneComponent(Number(a.lastAccessedAt), Number(b.lastAccessedAt));
    case LFU =>
      TwoComponents(Number(a.accessCount), Number(a.lastAccessedAt), Number(b.accessCount), Number(b.lastAccessedAt));
  }

  /** The matcher and the SQL condition retain the same rows. */
  lemma SameRetention(priority: Option<Priority>, row: Row)
    ensures IsPriority(priority, row) <==> RetentionCondition(priority, row)
  {
  }

  /** The rows of a strategy's index, in its order. */
  ghost predicate IsIndex(index: seq<Row>, table: set<Row>, strategy: Strategy)
  {
    Elements(index) == table && NoDuplicates(index)
    && forall i, j | 0 <= i < j < |index| :: IndexOrder(strategy, index[i], index[j])
  }

  /** The rows of a `SELECT … ORDER BY`. */
  ghost predicate IsOrdered(rows: seq<Row>, table: set<Row>, strategy: Strategy)
  {
    Elements(rows) == table && NoDuplicates(rows)
    && forall i, j | 0 <= i < j < |rows| :: OrderBy(strategy, rows[i], rows[j])
  }

  // ---- what is evicted

  /** The rows of a sequence that are, or are not, retained. */
  function Select(rows: seq<Row>, priority: Option<Priority>, retained: bool): seq<Row>
  {
    if rows == [] then [] else
      var last := rows[|rows| - 1];
      Select(rows[..|rows| - 1], priority, retained) + (if IsPriority(priority, last) == retained then [last] else [])
  }

  lemma {:induction false} SelectMembers(rows: seq<Row>, priority: Option<Priority>, retained: bool)
    ensures forall row :: row in Select(rows, priority, retained) <==> row in rows && IsPriority(priority, row) == retained
  {
    if rows != [] {
      var front, last := rows[..|rows| - 1], rows[|rows| - 1];
      assert rows == front + [last];
      SelectMembers(front, priority, retained);
    }
  }

  /** A table in eviction order, given its index. */
  function EvictionOrder(index: seq<Row>, priority: Option<Priority>): seq<Row>
  {
    Select(index, priority, false) + Select(index, priority, true)
  }

  /** The victims: the first rows in eviction order, as many as exceed the cap. */
  function Victims(index: seq<Row>, maxSize: int, priority: Option<Priority>): seq<Row>
  {
    if maxSize <= 0 || |index| <= maxSize then [] else Take(EvictionOrder(index, priority), |index| - maxSize)
  }

  lemma {:induction false} SelectKeepsOrder(index: seq<Row>, table: set<Row>, strategy: Strategy,
                                            priority: Option<Priority>, retained: bool)
    requires IsIndex(index, table, strategy)
    ensures IsIndex(Select(index, priority, retained), Elements(Select(index, priority, retained)), strategy)
  {
    if index != [] {
      var front, last := index[..|index| - 1], index[|index| - 1];
      assert IsIndex(front, Elements(front), strategy);
      SelectKeepsOrder(front, Elements(front), strategy, priority, retained);
      var r := Select(front, priority, retained);
      SelectMembers(front, priority, retained);
      forall i | 0 <= i < |r| ensures IndexOrder(strategy, r[i], last) && r[i] != last {
        assert r[i] in front;
        var k :| 0 <= k < |front| && front[k] == r[i];
        assert index[k] == front[k];
      }
    }
  }

  lemma {:induction false} SelectCounts(rows: seq<Row>, priority: Option<Priority>)
    ensures |Select(rows, priority, false)| + |Select(rows, priority, true)| == |rows|
  {
    if rows != [] {
      SelectCounts(rows[..|rows| - 1], priority);
    }
  }

  /** Eviction order puts every row once, non-retained rows first and each kind in strategy order. */
  lemma EvictionOrderIsRight(index: seq<Row>, table: set<Row>, strategy: Strategy, priority: Option<Priority>)
    requires IsIndex(index, table, strategy)
    ensures var q := EvictionOrder(index, priority);
            Elements(q) == table && |q| == |index| && NoDuplicates(q)
            && forall i, j | 0 <= i < j < |q| :: EvictedBefore(strategy, priority, q[i], q[j])
  {
    var p, r := Select(index, priority, false), Select(index, priority, true);
    SelectCounts(index, priority);
    SelectMembers(index, priority, false);
    SelectMembers(index, priority, true);
    SelectKeepsOrder(index, table, strategy, priority, false);
    SelectKeepsOrder(index, table, strategy, priority, true);
    var q := p + r;
    forall row ensures row in q <==> row in table {
      assert row in q <==> row in p || row in r;
      assert row in Elements(index) <==> row in index;
    }
    forall i, j | 0 <= i < j < |q| ensures EvictedBefore(strategy, priority, q[i], q[j]) && q[i] != q[j] {
      assert i < |p| ==> q[i] in p;
      assert i >= |p| ==> q[i] in r;
      assert j < |p| ==> q[j] in p;
      assert j >= |p| ==> q[j] in r;
      SameOrder(strategy, q[i], q[j]);
    }
  }

  lemma TakenApart(q: seq<Row>, n: nat, x: Row, y: Row) returns (i: nat, j: nat)
    requires x in Take(q, n) && y in q && y !in Take(q, n)
    ensures i < j < |q| && q[i] == x && q[j] == y
  {
    i :| 0 <= i < |Take(q, n)| && Take(q, n)[i] == x;
    j :| 0 <= j < |q| && q[j] == y;
    forall k | 0 <= k < |Take(q, n)| ensures q[k] != y {
      assert q[k] == Take(q, n)[k];
    }
  }

  lemma VictimBeforeSurvivor(index: seq<Row>, table: set<Row>, n: nat, strategy: Strategy, priority: Option<Priority>,
                             x: Row, y: Row)
    requires IsIndex(index, table, strategy)
    requires x in Take(EvictionOrder(index, priority), n) && y in table && y !in Take(EvictionOrder(index, priority), n)
    ensures EvictedBefore(strategy, priority, x, y)
  {
    var q := EvictionOrder(index, priority);
    EvictionOrderIsRight(index, table, strategy, priority);
    assert y in Elements(q);
    var i, j := TakenApart(q, n, x, y);
  }

  lemma ExcessIsTaken(index: seq<Row>, table: set<Row>, n: nat, strategy: Strategy, priority: Option<Priority>)
    requires IsIndex(index, table, strategy) && n <= |index|
    ensures Elements(Take(EvictionOrder(index, priority), n)) <= table && |table| == |index|
    ensures |table - Elements(Take(EvictionOrder(index, priority), n))| == |table| - n
  {
    var q := EvictionOrder(index, priority);
    EvictionOrderIsRight(index, table, strategy, priority);
    DistinctCount(index);
    DistinctCount(Take(q, n));
    assert forall x | x in Take(q, n) :: x in Elements(q);
    SizeWithout(table, Elements(Take(q, n)));
  }

  /** Every victim comes before every survivor. */
  ghost predicate ComeFirst(strategy: Strategy, priority: Option<Priority>, gone: set<Row>, table: set<Row>)
  {
    forall x, y | x in gone && y in table - gone :: EvictedBefore(strategy, priority, x, y)
  }

  lemma ExcessComesFirst(index: seq<Row>, table: set<Row>, n: nat, strategy: Strategy, priority: Option<Priority>)
    requires IsIndex(index, table, strategy)
    ensures ComeFirst(strategy, priority, Elements(Take(EvictionOrder(index, priority), n)), table)
  {
    var gone := Elements(Take(EvictionOrder(index, priority), n));
    forall x, y | x in gone && y in table - gone ensures EvictedBefore(strategy, priority, x, y) {
      VictimBeforeSurvivor(index, table, n, strategy, priority, x, y);
    }
  }

  /** Exactly the excess goes, and every victim comes before every survivor: no retained row
      goes while a non-retained one remains, and otherwise none goes before an earlier one. */
  lemma VictimsComeFirst(index: seq<Row>, table: set<Row>, maxSize: int, strategy: Strategy, priority: Option<Priority>,
                         gone: set<Row>)
    requires IsIndex(index, table, strategy) && 0 < maxSize < |index|
    requires gone == Elements(Victims(index, maxSize, priority))
    ensures gone <= table && |table| == |index| && |table - gone| == maxSize
    ensures ComeFirst(strategy, priority, gone, table)
  {
    var n: nat := |index| - maxSize;
    assert Victims(index, maxSize, priority) == Take(EvictionOrder(index, priority), n);
    ExcessIsTaken(index, table, n, strategy, priority);
    ExcessComesFirst(index, table, n, strategy, priority);
  }

  /** A set of victims that all come before all survivors is determined by its size: the two
      adapters, or any other, evict the same rows. */
  lemma VictimsAreDetermined(table: set<Row>, strategy: Strategy, priority: Option<Priority>, a: set<Row>, b: set<Row>)
    requires DistinctRows(table) && a <= table && b <= table && |a| == |b|
    requires ComeFirst(strategy, priority, a, table) && ComeFirst(strategy, priority, b, table)
    ensures a == b
  {
    if a != b {
      if a <= b {
        Cardinality(a, b);
      }
      if b <= a {
        Cardinality(b, a);
      }
      var x :| x in a && x !in b;
      var y :| y in b && y !in a;
      EvictionIsAsymmetric(strategy, priority, x, y);
    }
  }

  lemma EvictionIsAsymmetric(strategy: Strategy, priority: Option<Priority>, x: Row, y: Row)
    ensures !(EvictedBefore(strategy, priority, x, y) && EvictedBefore(strategy, priority, y, x))
  {
    if StrLess(x.id, y.id) && StrLess(y.id, x.id) {
      StrLessTransitive(x.id, y.id, x.id);
      StrLessIrreflexive(x.id);
    }
  }

  // ---- the adapters

  /** What trimming to `maxSize` promises, whichever adapter does it. */
  ghost predicate Trimmed(before: set<Row>, after: set<Row>, maxSize: int, strategy: Strategy, priority: Option<Priority>)
  {
    if maxSize <= 0 || |before| <= maxSize then after == before
    else after <= before && |after| == maxSize && ComeFirst(strategy, priority, before - after, before)
  }

  lemma VictimsTrim(index: seq<Row>, table: set<Row>, after: set<Row>, maxSize: int, strategy: Strategy,
                    priority: Option<Priority>)
    requires IsIndex(index, table, strategy) && after == table - Elements(Victims(index, maxSize, priority))
    ensures Trimmed(table, after, maxSize, strategy, priority)
    ensures 0 < maxSize < |table| ==> |after| == maxSize
  {
    DistinctCount(index);
    var gone := Elements(Victims(index, maxSize, priority));
    if 0 < maxSize < |index| {
      VictimsComeFirst(index, table, maxSize, strategy, priority, gone);
      assert table - after == gone;
    } else {
      assert gone == {};
    }
  }

  /** The promise leaves no choice. */
  lemma TrimmedIsUnique(before: set<Row>, a: set<Row>, b: set<Row>, maxSize: int, strategy: Strategy,
                        priority: Option<Priority>)
    requires DistinctRows(before)
    requires Trimmed(before, a, maxSize, strategy, priority) && Trimmed(before, b, maxSize, strategy, priority)
    ensures a == b
  {
    if 0 < maxSize < |before| {
      SizeWithout(before, a);
      SizeWithout(before, b);
      VictimsAreDetermined(before, strategy, priority, before - a, before - b);
      assert a == before - (before - a) && b == before - (before - b);
    }
  }

  /** The server is left with the rows the browser is left with. */
  lemma AdaptersAgree(index: seq<Row>, before: set<Row>, after: set<Row>, maxSize: int, strategy: Strategy,
                      priority: Option<Priority>)
    requires DistinctRows(before) && IsIndex(index, before, strategy)
    requires Trimmed(before, after, maxSize, strategy, priority)
    ensures after == before - Elements(Victims(index, maxSize, priority))
  {
    var browser := before - Elements(Victims(index, maxSize, priority));
    VictimsTrim(index, before, browser, maxSize, strategy, priority);
    TrimmedIsUnique(before, browser, after, maxSize, strategy, priority);
  }

  /** The index after a bulk delete. */
  function Left(index: seq<Row>, deleted: seq<Row>): seq<Row>
  {
    if index == [] then [] else
      Left(index[..|index| - 1], deleted) + (if index[|index| - 1] in deleted then [] else [index[|index| - 1]])
  }

  /** With every non-retained row gone, the index holds the retained ones. */
  lemma {:induction false} OnlyRetainedLeft(index: seq<Row>, priority: Option<Priority>, deleted: seq<Row>)
    requires forall row | row in index :: row in deleted <==> !IsPriority(priority, row)
    ensures Left(index, deleted) == Select(index, priority, true)
  {
    if index != [] {
      assert index == index[..|index| - 1] + [index[|index| - 1]];
      OnlyRetainedLeft(index[..|index| - 1], priority, deleted);
    }
  }

  lemma {:induction false} SelectPrefix(index: seq<Row>, i: nat, priority: Option<Priority>, retained: bool)
    requires i <= |index|
    ensures Select(index[..i], priority, retained) <= Select(index, priority, retained)
    decreases |index| - i
  {
    if i < |index| {
      assert index[..i + 1][..i] == index[..i];
      SelectPrefix(index, i + 1, priority, retained);
    } else {
      assert index[..i] == index;
    }
  }

  /** First pass: walk the index past retained rows, collecting up to `enough` victims. */
  method CollectUnretained(index: seq<Row>, enough: nat, priority: Option<Priority>) returns (victims: seq<Row>)
    ensures victims == Take(Select(index, priority, false), enough)
  {
    victims := [];
    var i := 0;
    while i < |index| && |victims| < enough
      invariant 0 <= i <= |index| && |victims| <= enough
      invariant victims == Select(index[..i], priority, false)
    {
      assert index[..i + 1][..i] == index[..i];
      if !IsPriority(priority, index[i]) {
        victims := victims + [index[i]];
      }
      i := i + 1;
    }
    SelectPrefix(index, i, priority, false);
    assert index[..|index|] == index;
  }

  method IndexAfter(index: seq<Row>, deleted: seq<Row>) returns (rest: seq<Row>)
    ensures rest == Left(index, deleted)
  {
    rest := [];
    for i := 0 to |index|
      invariant rest == Left(index[..i], deleted)
    {
      assert index[..i + 1][..i] == index[..i];
      if index[i] !in deleted {
        rest := rest + [index[i]];
      }
    }
    assert index[..|index|] == index;
  }

  lemma TwoPasses(index: seq<Row>, excess: nat, priority: Option<Priority>, first: seq<Row>)
    requires first == Take(Select(index, priority, false), excess) && excess <= |index|
    ensures |first| <= excess
    ensures |first| == excess ==> Take(EvictionOrder(index, priority), excess) == first
    ensures |first| < excess ==>
              Take(EvictionOrder(index, priority), excess) == first + Take(Left(index, first), excess - |first|)
  {
    if |first| < excess {
      SelectMembers(index, priority, false);
      OnlyRetainedLeft(index, priority, first);
    }
  }

  class CacheTable {
    var rows: set<Row>

    constructor (initial: set<Row>)
      ensures rows == initial
    {
      rows := initial;
    }

    method BulkDelete(victims: seq<Row>)
      modifies this
      ensures rows == old(rows) - Elements(victims)
    {
      rows := rows - (set row | row in victims);
    }

    /** The two passes: unretained rows in index order, then whatever the index still lists. */
    method DeleteExcess(index: seq<Row>, excess: nat, priority: Option<Priority>) returns (evicted: nat)
      requires excess <= |index|
      modifies this
      ensures rows == old(rows) - Elements(Take(EvictionOrder(index, priority), excess))
      ensures evicted == |Take(EvictionOrder(index, priority), excess)|
    {
      ghost var before := rows;
      var nonPriorityVictims := CollectUnretained(index, excess, priority);
      TwoPasses(index, excess, priority, nonPriorityVictims);
      BulkDelete(nonPriorityVictims);
      var remaining := excess - |nonPriorityVictims|;
      evicted := |nonPriorityVictims|;
      if remaining > 0 {
        var rest := IndexAfter(index, nonPriorityVictims);
        var priorityVictims := Take(rest, remaining);
        BulkDelete(priorityVictims);
        evicted := evicted + |priorityVictims|;
        DeletedInTurn(before, nonPriorityVictims, priorityVictims);
      }
    }

    /** Trims the table to `maxSize`, walking the strategy's index twice when the first pass falls short. */
    method EnforceLimit(index: seq<Row>, maxSize: int, strategy: Strategy, priority: Option<Priority>)
      returns (evicted: nat)
      requires IsIndex(index, rows, strategy)
      modifies this
      ensures rows == old(rows) - Elements(Victims(index, maxSize, priority))
      ensures evicted == |Victims(index, maxSize, priority)|
    {
      if maxSize <= 0 || |index| <= maxSize {
        assert rows - {} == rows;
        return 0;
      }
      evicted := DeleteExcess(index, |index| - maxSize, priority);
    }
  }

  lemma DeletedInTurn(rows: set<Row>, p: seq<Row>, q: seq<Row>)
    ensures rows - Elements(p) - Elements(q) == rows - Elements(p + q)
  {
    assert forall x :: x in p + q <==> x in p || x in q;
  }

  // ---- the server

  /** `SELECT … WHERE NOT condition ORDER BY …`, from the rows in order. */
  function NotRetained(ordered: seq<Row>, priority: Option<Priority>): seq<Row>
  {
    if ordered == [] then [] else
      var last := ordered[|ordered| - 1];
      NotRetained(ordered[..|ordered| - 1], priority) + (if RetentionCondition(priority, last) then [] else [last])
  }

  /** `SELECT … ORDER BY …` once rows have been deleted. */
  function Remaining(ordered: seq<Row>, rows: set<Row>): seq<Row>
  {
    if ordered == [] then [] else
      var last := ordered[|ordered| - 1];
      Remaining(ordered[..|ordered| - 1], rows) + (if last in rows then [last] else [])
  }

  lemma {:induction false} WhereIsSelect(ordered: seq<Row>, priority: Option<Priority>)
    ensures NotRetained(ordered, priority) == Select(ordered, priority, false)
  {
    if ordered != [] {
      WhereIsSelect(ordered[..|ordered| - 1], priority);
      SameRetention(priority, ordered[|ordered| - 1]);
    }
  }

  lemma {:induction false} RemainingIsLeft(ordered: seq<Row>, rows: set<Row>, deleted: seq<Row>)
    requires forall row | row in ordered :: row in rows <==> row !in deleted
    ensures Remaining(ordered, rows) == Left(ordered, deleted)
  {
    if ordered != [] {
      assert ordered == ordered[..|ordered| - 1] + [ordered[|ordered| - 1]];
      RemainingIsLeft(ordered[..|ordered| - 1], rows, deleted);
    }
  }

  /** An `ORDER BY` list is an index walk. */
  lemma OrderedIsIndex(ordered: seq<Row>, table: set<Row>, strategy: Strategy)
    requires IsOrdered(ordered, table, strategy)
    ensures IsIndex(ordered, table, strategy) && |ordered| == |table|
  {
    DistinctCount(ordered);
    forall i, j | 0 <= i < j < |ordered| ensures IndexOrder(strategy, ordered[i], ordered[j]) {
      SameOrder(strategy, ordered[i], ordered[j]);
    }
  }

  /** The two statements' rows are the first rows in eviction order. */
  lemma ServerPasses(ordered: seq<Row>, rows: set<Row>, excess: nat, priority: Option<Priority>, first: seq<Row>)
    requires Elements(ordered) == rows && excess <= |ordered| && first == Take(NotRetained(ordered, priority), excess)
    ensures |first| <= excess
    ensures |first| == excess ==> first == Take(EvictionOrder(ordered, priority), excess)
    ensures |first| < excess ==>
              first + Take(Remaining(ordered, rows - Elements(first)), excess - |first|)
              == Take(EvictionOrder(ordered, priority), excess)
  {
    WhereIsSelect(ordered, priority);
    TwoPasses(ordered, excess, priority, first);
    RemainingAfter(ordered, rows, first);
  }

  /** Rows to delete: each once, and all still there. */
  ghost predicate Selects(victims: seq<Row>, rows: set<Row>)
  {
    NoDuplicates(victims) && Elements(victims) <= rows
  }

  lemma VictimsAreRows(ordered: seq<Row>, rows: set<Row>, excess: nat, strategy: Strategy, priority: Option<Priority>)
    requires IsIndex(ordered, rows, strategy) && excess <= |ordered|
    ensures Selects(Take(EvictionOrder(ordered, priority), excess), rows)
    ensures |Take(EvictionOrder(ordered, priority), excess)| == excess
  {
    EvictionOrderIsRight(ordered, rows, strategy, priority);
    assert forall row | row in Take(EvictionOrder(ordered, priority), excess) ::
        row in Elements(EvictionOrder(ordered, priority));
  }

  lemma PartsAreRows(p: seq<Row>, q: seq<Row>, rows: set<Row>)
    requires Selects(p + q, rows)
    ensures Selects(p, rows) && Selects(q, rows - Elements(p))
  {
    forall i, j | 0 <= i < j < |p| ensures p[i] != p[j] {
      assert (p + q)[i] != (p + q)[j];
    }
    forall i, j | 0 <= i < j < |q| ensures q[i] != q[j] {
      assert (p + q)[|p| + i] != (p + q)[|p| + j];
    }
    forall row | row in q ensures row in rows && row !in p {
      var j :| 0 <= j < |q| && q[j] == row;
      assert (p + q)[|p| + j] == row && row in Elements(p + q);
      forall i | 0 <= i < |p| ensures p[i] != row {
        assert (p + q)[i] != (p + q)[|p| + j];
      }
    }
    forall row | row in p ensures row in rows {
      assert row in p + q && row in Elements(p + q);
    }
  }

  lemma RemainingAfter(ordered: seq<Row>, rows: set<Row>, deleted: seq<Row>)
    requires Elements(ordered) == rows
    ensures Remaining(ordered, rows - Elements(deleted)) == Left(ordered, deleted)
  {
    forall row | row in ordered ensures row in rows - Elements(deleted) <==> row !in deleted {
      assert row in Elements(ordered);
    }
    RemainingIsLeft(ordered, rows - Elements(deleted), deleted);
  }

  class EventsTable {
    var rows: set<Row>

    constructor (initial: set<Row>)
      ensures rows == initial
    {
      rows := initial;
    }

    /** `DELETE … WHERE id IN (SELECT …)`; the statement reports how many rows went. */
    method Delete(victims: seq<Row>) returns (changes: nat)
      requires DistinctRows(rows) && Selects(victims, rows)
      modifies this
      ensures rows == old(rows) - Elements(victims) && changes == |victims|
    {
      var ids := set row | row in victims :: row.id;
      DeletedById(rows, victims);
      rows := set row | row in rows && row.id !in ids;
      changes := |victims|;
    }

    /** The two statements: first the rows the condition does not retain, then whatever is left. */
    method DeleteExcess(ordered: seq<Row>, excess: nat, strategy: Strategy, priority: Option<Priority>)
      returns (deleted: nat)
      requires DistinctRows(rows) && IsIndex(ordered, rows, strategy) && excess <= |ordered|
      modifies this
      ensures rows == old(rows) - Elements(Take(EvictionOrder(ordered, priority), excess))
      ensures deleted == excess
    {
      ghost var before := rows;
      var victims := Take(NotRetained(ordered, priority), excess);
      ServerPasses(ordered, before, excess, priority, victims);
      VictimsAreRows(ordered, before, excess, strategy, priority);
      if |victims| < excess {
        PartsAreRows(victims, Take(Remaining(ordered, before - Elements(victims)), excess - |victims|), before);
      }
      deleted := Delete(victims);
      var remaining := excess - deleted;
      if remaining > 0 {
        var priorityVictims := Take(Remaining(ordered, rows), remaining);
        var changes := Delete(priorityVictims);
        DeletedInTurn(before, victims, priorityVictims);
        deleted := deleted + changes;
      }
    }

    /** Trims the table to `maxSize`. */
    method EnforceLimit(ordered: seq<Row>, maxSize: int, strategy: Strategy, priority: Option<Priority>)
      returns (evicted: nat)
      requires DistinctRows(rows) && IsOrdered(ordered, rows, strategy)
      modifies this
      ensures Trimmed(old(rows), rows, maxSize, strategy, priority)
      ensures evicted == |old(rows)| - |rows|
    {
      if maxSize <= 0 || |rows| <= maxSize {
        return 0;
      }
      ghost var before := rows;
      OrderedIsIndex(ordered, rows, strategy);
      evicted := DeleteExcess(ordered, |rows| - maxSize, strategy, priority);
      ExcessTrims(ordered, before, rows, maxSize, strategy, priority);
    }
  }

  lemma ExcessTrims(ordered: seq<Row>, before: set<Row>, after: set<Row>, maxSize: int, strategy: Strategy,
                    priority: Option<Priority>)
    requires IsIndex(ordered, before, strategy) && 0 < maxSize < |before| == |ordered|
    requires after == before - Elements(Take(EvictionOrder(ordered, priority), |before| - maxSize))
    ensures Trimmed(before, after, maxSize, strategy, priority) && |after| == maxSize
  {
    assert Victims(ordered, maxSize, priority) == Take(EvictionOrder(ordered, priority), |before| - maxSize);
    VictimsTrim(ordered, before, after, maxSize, strategy, priority);
  }

  /** Deleting by id takes exactly the selected rows. */
  lemma DeletedById(rows: set<Row>, victims: seq<Row>)
    requires DistinctRows(rows) && Selects(victims, rows)
    ensures var ids := set row | row in victims :: row.id;
            (set row | row in rows && row.id !in ids) == rows - Elements(victims)
  {
    var ids := set row | row in victims :: row.id;
    forall row | row in rows ensures row.id in ids <==> row in victims {
      if row.id in ids {
        var v :| v in victims && v.id == row.id;
        assert v in Elements(victims);
      }
    }
  }
}
