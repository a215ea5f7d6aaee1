/** Who is evicted, in the columns of the rows. */
module EvictionLaws {
  import opened Order
  import opened Events
  import opened Eviction

  /** Kept as long as anything else can go: deletion requests, and what the rules name. */
  predicate Spared(row: Row, priority: Option<Priority>)
  {
    row.kind == 5
    || (priority.Some? && (row.pubkey in priority.value.pubkeys || row.kind in priority.value.kinds))
  }

  /** A table that fits stays; otherwise it is cut to size. A spared row goes only when every row
      left is spared; among rows alike in that, the oldest, the longest unused or the least used
      go first, and of equal ones the lowest id. */
  lemma WhoGoes(before: set<Row>, after: set<Row>, maxSize: int, strategy: Strategy, priority: Option<Priority>,
                gone: Row, left: Row)
    requires Trimmed(before, after, maxSize, strategy, priority) && gone in before - after && left in after
    ensures 0 < maxSize < |before| && |after| == maxSize
    ensures Spared(gone, priority) ==> Spared(left, priority)
    ensures Spared(gone, priority) == Spared(left, priority) ==>
              match strategy {
                case FIFO =>
                  gone.createdAt <= left.createdAt
                  && (gone.createdAt == left.createdAt ==> StrLess(gone.id, left.id))
                case LRU =>
                  gone.lastAccessedAt <= left.lastAccessedAt
                  && (gone.lastAccessedAt == left.lastAccessedAt ==> StrLess(gone.id, left.id))
                case LFU =>
                  gone.accessCount <= left.accessCount
                  && (gone.accessCount == left.accessCount ==> gone.lastAccessedAt <= left.lastAccessedAt)
                  && (gone.accessCount == left.accessCount && gone.lastAccessedAt == left.lastAccessedAt ==>
                        StrLess(gone.id, left.id))
              }
  {
    assert left in before - (before - after);
    assert EvictedBefore(strategy, priority, gone, left);
  }

  /** The browser's trim is such a cut too. */
  lemma BrowserTrims(index: seq<Row>, table: set<Row>, maxSize: int, strategy: Strategy, priority: Option<Priority>)
    requires IsIndex(index, table, strategy)
    ensures Trimmed(table, table - Elements(Victims(index, maxSize, priority)), maxSize, strategy, priority)
    ensures |Victims(index, maxSize, priority)| == if 0 < maxSize < |table| then |table| - maxSize else 0
  {
    VictimsTrim(index, table, table - Elements(Victims(index, maxSize, priority)), maxSize, strategy, priority);
    DistinctCount(index);
    EvictionOrderIsRight(index, table, strategy, priority);
  }
}
