/** The thread under a post: replies hung breadth-first under the events they answer,
    within a depth and a node cap, with counts of what was left out. */
module ReplyTree {
  import opened Order
  import opened Events
  import opened ReplyGraph

  /** A reply candidate: the event's fields the tree reads, and the parents its tags name. */
  datatype Reply = Reply(
    id: string, kind: int, createdAt: int, parentId: Option<string>, parentAddress: Option<string>)

  /** Which post the thread hangs under. */
  datatype Match = Match(id: Option<string>, address: Option<string>)

  predicate IsReplyEvent(e: Reply, target: Match)
  {
    e.kind == 1 && target.id != Some(e.id) && (e.parentId.Some? || e.parentAddress.Some?)
  }

  function RootKey(target: Match): Option<string>
  {
    if target.address.Some? then target.address else target.id
  }

  /** The key an event hangs under, given the ids of the replies at hand. */
  function ParentKey(e: Reply, target: Match, known: set<string>, rootId: Option<string>): Option<string>
  {
    if e.parentId == Some(e.id) then None
    else if e.parentId.Some? && e.parentId.value in known then e.parentId
    else if target.address.Some? && e.parentAddress == target.address
            && (e.parentId.None? || e.parentId == rootId || e.parentId == target.address) then target.address
    else e.parentId
  }

  /** Whether a delivered event is kept: its parent is the post or a reply already held. */
  predicate AcceptsReply(e: Reply, target: Match, known: set<string>, rootId: Option<string>)
  {
    IsReplyEvent(e, target)
    && var key := ParentKey(e, target, known, rootId);
    key.Some? && (key == RootKey(target) || key.value in known)
  }

  predicate OlderFirst(a: Reply, b: Reply)
  {
    a.createdAt < b.createdAt || (a.createdAt == b.createdAt && StrLess(a.id, b.id))
  }

  /** The replies of a delivery by id; the first copy of an id wins. */
  function Kept(events: seq<Reply>, target: Match): (r: map<string, Reply>)
    ensures forall id | id in r :: r[id].id == id && IsReplyEvent(r[id], target) && r[id] in events
    ensures forall e | e in events && IsReplyEvent(e, target) :: e.id in r
  {
    if events == [] then map[] else
      var e := events[|events| - 1];
      var before := Kept(events[..|events| - 1], target);
      assert events == events[..|events| - 1] + [e];
      if IsReplyEvent(e, target) && e.id !in before then before[e.id := e] else before
  }

  function ParentsOf(kept: map<string, Reply>, target: Match, rootId: Option<string>): Parents
  {
    map id | id in kept && ParentKey(kept[id], target, kept.Keys, rootId).Some?
      :: ParentKey(kept[id], target, kept.Keys, rootId).value
  }

  /** Sorting one list of siblings. */
  function Insert(e: Reply, q: seq<Reply>): (r: seq<Reply>)
    ensures Elements(r) == Elements(q) + {e} && |r| == |q| + 1
  {
    if q == [] then [e]
    else if OlderFirst(q[0], e) then
      assert q == [q[0]] + q[1..];
      assert Elements([q[0]] + Insert(e, q[1..])) == {q[0]} + Elements(Insert(e, q[1..]));
      [q[0]] + Insert(e, q[1..])
    else
      assert Elements([e] + q) == {e} + Elements(q);
      [e] + q
  }

  function SortOlderFirst(q: seq<Reply>): (r: seq<Reply>)
    ensures Elements(r) == Elements(q) && |r| == |q|
  {
    if q == [] then [] else
      assert q == [q[0]] + q[1..];
      Insert(q[0], SortOlderFirst(q[1..]))
  }

  function Ids(q: seq<Reply>): (r: seq<string>)
    ensures |r| == |q|
  {
    seq(|q|, i requires 0 <= i < |q| => q[i].id)
  }

  type Children = map<string, seq<Reply>>

  function At(children: Children, key: string): seq<Reply>
  {
    if key in children then children[key] else []
  }

  /** `children` lists, for every key, exactly the replies hanging directly under it. */
  ghost predicate Indexes(children: Children, p: Parents)
  {
    forall key :: ListsChildren(p, key, Ids(At(children, key)))
  }

  /** Counts everything below a key with a stack. It ends because each pop settles
      one reply for good; the key must not hang below itself. */
  method Descendants(children: Children, ghost p: Parents, key: string) returns (count: nat)
    requires Indexes(children, p) && !OnCycle(p, key)
    ensures count == |Below(p, key)|
  {
    count := 0;
    var stack := [key];
    assert Weight(p, []) == 0 && [key] == [] + [key];
    WeightAppend(p, [], key);
    while stack != []
      invariant OffCycles(p, stack)
      invariant count + Weight(p, stack) == |Below(p, key)| + |stack|
      decreases Weight(p, stack)
    {
      var current := stack[|stack| - 1];
      ghost var rest := stack[..|stack| - 1];
      ghost var before := count;
      stack := stack[..|stack| - 1];
      var found := At(children, current);
      for i := 0 to |found|
        invariant stack == rest + Ids(found)[..i] && count == before + i
      {
        count := count + 1;
        stack := stack + [found[i].id];
      }
      assert Ids(found)[..|found|] == Ids(found);
      PoppedAndPushed(p, current, rest, Ids(found));
    }
  }

  ghost predicate OffCycles(p: Parents, keys: seq<string>)
  {
    forall k | k in keys :: !OnCycle(p, k)
  }

  lemma PoppedAndPushed(p: Parents, current: string, rest: seq<string>, found: seq<string>)
    requires ListsChildren(p, current, found) && OffCycles(p, rest) && !OnCycle(p, current)
    ensures OffCycles(p, rest + found)
    ensures Weight(p, rest + found) == Weight(p, rest) + |Below(p, current)|
    ensures Weight(p, rest + [current]) == Weight(p, rest) + 1 + |Below(p, current)|
  {
    BelowIsWeight(p, current, found);
    WeightConcat(p, rest, found);
    WeightAppend(p, rest, current);
    forall k | k in rest + found ensures !OnCycle(p, k) {
      if k in found {
        ChildOffCycle(p, k);
      }
    }
  }
}
