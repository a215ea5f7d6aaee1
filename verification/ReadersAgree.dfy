/** The browser's and the server's readers answer alike. */
module ReadersAgree {
  import opened Order
  import opened Events
  import opened FilterUtils
  import opened TagIndex
  import D = DexieQuery
  import S = SqliteQuery

  /** Over one table with no truncated rows, both readers give a limited filter the same sequence
      and an unlimited one the same set. */
  method ReadBoth(dexie: D.Engine, sqlite: S.Database, ghost table: set<Event>, f: Filter) returns (a: seq<Event>, b: seq<Event>)
    requires DistinctIds(table) && D.Serves(dexie, table) && S.Holds(sqlite, table)
    requires forall e | e in table :: FullyIndexed(e)
    ensures NormalizeLimit(f.limit).Some? ==> a == b == Newest(Matching(table, f), NormalizeLimit(f.limit).value)
    ensures NormalizeLimit(f.limit).None? ==> Elements(a) == Elements(b) == Matching(table, f)
  {
    a := D.QueryEvents(dexie, table, f);
    b := S.QueryEvents(sqlite, table, f);
  }
}
