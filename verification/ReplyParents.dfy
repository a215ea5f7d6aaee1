/** Whose child a reply is, in the fields its tags spell out, and what that means for the finished tree. */
module ReplyParents {
  import opened Order
  import opened Events
  import opened ReplyGraph
  import opened ReplyTree
  import opened ReplyBuild
  import opened ReplyTheorems
  import opened ReplyIndex
  import opened ReplyThread
  import opened ReplyResult

  // ---- what is kept

  /** Kept are the kind 1 events that are not the post itself and name some parent. */
  lemma {:induction false} KeptAre(events: seq<Reply>, target: Match, id: string)
    ensures id in Kept(events, target)
            <==> target.id != Some(id)
                 && exists e | e in events :: e.id == id && e.kind == 1 && (e.parentId.Some? || e.parentAddress.Some?)
  {
  }

  lemma {:induction false} KeptStays(p: seq<Reply>, q: seq<Reply>, target: Match, id: string)
    requires id in Kept(p, target)
    ensures id in Kept(p + q, target) && Kept(p + q, target)[id] == Kept(p, target)[id]
    decreases |q|
  {
    if q == [] {
      assert p + q == p;
    } else {
      assert (p + q)[..|p + q| - 1] == p + q[..|q| - 1];
      KeptStays(p, q[..|q| - 1], target, id);
    }
  }

  lemma KeptNext(p: seq<Reply>, e: Reply, target: Match)
    requires IsReplyEvent(e, target) && e.id !in Kept(p, target)
    ensures Kept(p + [e], target) == Kept(p, target)[e.id := e]
  {
    assert (p + [e])[..|p|] == p;
  }

  /** Of several copies of one id the first delivered is kept. */
  lemma FirstCopyIsKept(before: seq<Reply>, e: Reply, after: seq<Reply>, target: Match)
    requires e.kind == 1 && target.id != Some(e.id) && (e.parentId.Some? || e.parentAddress.Some?)
    requires forall x | x in before :: x.id != e.id
    ensures var kept := Kept(before + [e] + after, target); e.id in kept && kept[e.id] == e
  {
    KeptNext(before, e, target);
    KeptStays(before + [e], after, target, e.id);
  }

  // ---- whose child a reply is

  /** The post's key: its coordinate if it has one, else its id. */
  lemma RootIs(t: Thread, events: seq<Reply>, target: Match, rootId: Option<string>)
    requires ThreadOf(t, events, target, rootId)
    ensures if target.address.Some? then t.root == target.address.value else target.id == Some(t.root)
  {
  }

  /** A kept reply naming another kept reply hangs under it, whatever coordinate it names besides. */
  lemma UnderTheReplyNamed(t: Thread, events: seq<Reply>, target: Match, rootId: Option<string>, e: Reply, p: string)
    requires ThreadOf(t, events, target, rootId) && e.id in Kept(events, target) && Kept(events, target)[e.id] == e
    requires e.parentId == Some(p) && p in Kept(events, target) && p != e.id
    ensures e.id in t.parents && t.parents[e.id] == p
  {
  }

  /** A reply naming the post itself hangs under it. */
  lemma UnderThePostNamed(t: Thread, events: seq<Reply>, target: Match, rootId: Option<string>, e: Reply)
    requires ThreadOf(t, events, target, rootId) && e.id in Kept(events, target) && Kept(events, target)[e.id] == e
    requires e.parentId == Some(t.root) && e.id != t.root
    ensures e.id in t.parents && t.parents[e.id] == t.root
  {
  }

  /** A reply naming the post's coordinate hangs under it when it names no event besides, or the
      post's own event id, which is no kept reply's. */
  lemma UnderTheCoordinateNamed(t: Thread, events: seq<Reply>, target: Match, rootId: Option<string>, e: Reply, a: string)
    requires ThreadOf(t, events, target, rootId) && e.id in Kept(events, target) && Kept(events, target)[e.id] == e
    requires target.address == Some(a) && e.parentAddress == Some(a)
    requires e.parentId.None?
          || (e.parentId == rootId && e.parentId.value !in Kept(events, target))
    ensures e.id in t.parents && t.parents[e.id] == a == t.root
  {
  }

  /** The tags name nothing the thread holds: an event that is neither kept nor a name of the
      post, the reply itself, or only some other coordinate. */
  predicate NamesNothingHere(e: Reply, kept: map<string, Reply>, target: Match, rootId: Option<string>)
  {
    if e.parentId.Some? then
      e.parentId.value == e.id
      || (e.parentId.value !in kept
          && e.parentId != (if target.address.Some? then target.address else target.id)
          && !(e.parentId == rootId && target.address.Some? && e.parentAddress == target.address))
    else !(target.address.Some? && e.parentAddress == target.address)
  }

  lemma ChainStops(p: Parents, x: string, k: string)
    requires x !in p || (p[x] != k && p[x] !in p)
    ensures !HangsBelow(p, x, k)
  {
    forall n: nat | n > 0 ensures !Climbs(p, x, k, n) {
    }
  }

  /** Such a reply is nowhere below the post: an absent parent is not replaced by the post. */
  lemma NowhereBelow(t: Thread, events: seq<Reply>, target: Match, rootId: Option<string>, e: Reply)
    requires ThreadOf(t, events, target, rootId) && e.id in Kept(events, target) && Kept(events, target)[e.id] == e
    requires NamesNothingHere(e, Kept(events, target), target, rootId)
    ensures !HangsBelow(t.parents, e.id, t.root) && e.id !in Below(t.parents, t.root)
  {
    ChainStops(t.parents, e.id, t.root);
  }

  /** The gate on delivery lets a reply in exactly when it names a reply already held or, in one of
      those ways, the post. */
  lemma GateIs(e: Reply, target: Match, known: set<string>, rootId: Option<string>)
    ensures AcceptsReply(e, target, known, rootId)
            <==> e.kind == 1 && target.id != Some(e.id) && e.parentId != Some(e.id)
                 && ((e.parentId.Some? && e.parentId.value in known)
                     || (e.parentId.Some? && e.parentId == (if target.address.Some? then target.address else target.id))
                     || (target.address.Some? && e.parentAddress == target.address
                         && (e.parentId.None? || e.parentId == rootId)))
  {
  }

  // ---- in the finished tree

  /** A node's depth and owner follow its parent. */
  lemma OwnedByParent(t: Thread, tree: Tree, j: nat)
    requires t.Valid() && Placed(t, tree) && j < |tree.nodes|
    ensures var x := tree.nodes[j].event.id;
            && x in t.parents && x != t.root && HangsBelow(t.parents, x, t.root)
            && (t.parents[x] == t.root ==> j in tree.roots && tree.nodes[j].depth == 1)
            && (t.parents[x] != t.root ==>
                  exists i: nat :: i < |tree.nodes| && tree.nodes[i].event.id == t.parents[x] && j in tree.nodes[i].children
                                   && tree.nodes[j].depth == tree.nodes[i].depth + 1)
  {
    var x := tree.nodes[j].event.id;
    assert Attached(t, tree, j) && Climbs(t.parents, x, t.root, tree.nodes[j].depth);
    NotRoot(t, tree, j);
    if t.parents[x] == t.root {
      forall i: nat | i < |tree.nodes| ensures tree.nodes[i].event.id != t.root {
        NotRoot(t, tree, i);
      }
      assert Climbs(t.parents, x, t.root, 1);
      DepthIsUnique(t.parents, x, t.root, tree.nodes[j].depth, 1);
    } else {
      var i: nat :| i < |tree.nodes| && j in tree.nodes[i].children && t.parents[x] == tree.nodes[i].event.id;
      assert Climbs(t.parents, t.parents[x], t.root, tree.nodes[i].depth);
      DepthIsUnique(t.parents, x, t.root, tree.nodes[j].depth, tree.nodes[i].depth + 1);
    }
  }

  /** A node whose reply names another kept reply is a child of that reply's node, one level down;
      any other node is a direct reply. */
  lemma OwnerIsNamed(t: Thread, tree: Tree, events: seq<Reply>, target: Match, rootId: Option<string>, j: nat)
    requires t.Valid() && ThreadOf(t, events, target, rootId) && Placed(t, tree) && Pending(t, tree, [])
    requires j < |tree.nodes|
    ensures var p := tree.nodes[j].event.parentId;
            if p.Some? && p.value in Kept(events, target) && p.value != t.root then
              exists i: nat :: i < |tree.nodes| && tree.nodes[i].event.id == p.value && j in tree.nodes[i].children
                               && tree.nodes[j].depth == tree.nodes[i].depth + 1
            else j in tree.roots && tree.nodes[j].depth == 1
  {
    var e := tree.nodes[j].event;
    NodeIsKept(t, tree, Kept(events, target), j);
    OwnedByParent(t, tree, j);
    if e.parentId.Some? && e.parentId.value in Kept(events, target) && e.parentId.value != t.root {
      NotItsOwnParent(t, events, target, rootId, e);
      UnderTheReplyNamed(t, events, target, rootId, e, e.parentId.value);
    } else {
      DirectlyBelow(t, events, target, rootId, e);
    }
  }

  lemma NotItsOwnParent(t: Thread, events: seq<Reply>, target: Match, rootId: Option<string>, e: Reply)
    requires ThreadOf(t, events, target, rootId) && e.id in t.parents && Kept(events, target)[e.id] == e
    ensures e.parentId != Some(e.id)
  {
  }

  /** What is below the post and names no other kept reply is a direct reply. */
  lemma DirectlyBelow(t: Thread, events: seq<Reply>, target: Match, rootId: Option<string>, e: Reply)
    requires ThreadOf(t, events, target, rootId) && e.id in t.parents && Kept(events, target)[e.id] == e
    requires HangsBelow(t.parents, e.id, t.root) && e.id != t.root
    requires !(e.parentId.Some? && e.parentId.value in Kept(events, target) && e.parentId.value != t.root)
    ensures t.parents[e.id] == t.root
  {
    if NamesNothingHere(e, Kept(events, target), target, rootId) {
      NowhereBelow(t, events, target, rootId, e);
    }
  }

  /** The replies an `i`-th answers the `i + 1`-th, and the last one the post. */
  predicate AnswersUpTo(kept: map<string, Reply>, root: string, chain: seq<string>)
  {
    && chain != []
    && (forall i | 0 <= i < |chain| :: chain[i] in kept && chain[i] != root && kept[chain[i]].id == chain[i])
    && (forall i | 0 <= i < |chain| - 1 :: kept[chain[i]].parentId == Some(chain[i + 1]) && chain[i] != chain[i + 1])
    && kept[chain[|chain| - 1]].parentId == Some(root)
  }

  lemma RestOfChain(kept: map<string, Reply>, root: string, chain: seq<string>)
    requires AnswersUpTo(kept, root, chain) && |chain| > 1
    ensures AnswersUpTo(kept, root, chain[1..])
  {
    var rest := chain[1..];
    assert rest[|rest| - 1] == chain[|chain| - 1];
    assert forall i | 0 <= i < |rest| :: rest[i] == chain[i + 1];
  }

  lemma {:induction false} ChainClimbs(t: Thread, events: seq<Reply>, target: Match, rootId: Option<string>, chain: seq<string>)
    requires ThreadOf(t, events, target, rootId) && AnswersUpTo(Kept(events, target), t.root, chain)
    ensures Climbs(t.parents, chain[0], t.root, |chain|)
    decreases |chain|
  {
    var kept := Kept(events, target);
    if |chain| == 1 {
      UnderThePostNamed(t, events, target, rootId, kept[chain[0]]);
      assert Climbs(t.parents, chain[0], t.root, 1);
    } else {
      RestOfChain(kept, t.root, chain);
      ChainClimbs(t, events, target, rootId, chain[1..]);
      UnderTheReplyNamed(t, events, target, rootId, kept[chain[0]], chain[1]);
    }
  }

  /** With room for every kept reply, a reply `n` answers away from the post is placed at depth
      `n`, if the depth cap allows. */
  lemma PlacedByItsChain(t: Thread, tree: Tree, events: seq<Reply>, target: Match, rootId: Option<string>, chain: seq<string>)
    returns (j: nat)
    requires t.Valid() && ThreadOf(t, events, target, rootId)
    requires Placed(t, tree) && Pending(t, tree, []) && ShallowFirst(t, tree, [])
    requires AnswersUpTo(Kept(events, target), t.root, chain) && |chain| <= t.maxDepth
    requires |Kept(events, target)| < t.maxNodes
    ensures j < |tree.nodes| && tree.nodes[j].event.id == chain[0] && tree.nodes[j].depth == |chain|
  {
    ChainClimbs(t, events, target, rootId, chain);
    FitsUnderTheCap(t, tree, events, target, rootId);
    if !IsPlaced(tree, chain[0]) {
      LeftOutOnlyWhenSpent(t, tree, chain[0], |chain|);
    }
    var i :| 0 <= i < |tree.nodes| && tree.nodes[i].event.id == chain[0];
    j := i;
    assert Climbs(t.parents, tree.nodes[j].event.id, t.root, tree.nodes[j].depth);
    DepthIsUnique(t.parents, chain[0], t.root, tree.nodes[j].depth, |chain|);
  }

  lemma FitsUnderTheCap(t: Thread, tree: Tree, events: seq<Reply>, target: Match, rootId: Option<string>)
    requires t.Valid() && ThreadOf(t, events, target, rootId) && Placed(t, tree) && Pending(t, tree, [])
    ensures tree.total <= |Kept(events, target)|
  {
    HiddenIsUnplaced(t, tree);
    BelowIsKept(events, target, rootId, t.root);
    Cardinality(PlacedIds(tree), Kept(events, target).Keys);
  }

  /** Siblings stand oldest first, and of equal times the lower id. */
  lemma SiblingsInOrder(t: Thread, tree: Tree, events: seq<Reply>, target: Match, rootId: Option<string>, i: nat, a: nat, b: nat)
    requires t.Valid() && ThreadOf(t, events, target, rootId) && Placed(t, tree) && Pending(t, tree, [])
    requires i < |tree.nodes| && a < b < |tree.nodes[i].children|
    ensures tree.nodes[i].children[a] < |tree.nodes| && tree.nodes[i].children[b] < |tree.nodes|
    ensures var x, y := tree.nodes[tree.nodes[i].children[a]].event, tree.nodes[tree.nodes[i].children[b]].event;
            x.createdAt < y.createdAt || (x.createdAt == y.createdAt && StrLess(x.id, y.id))
  {
    assert !IsOwner([], Some(i)) && NodeFiled(t, tree, i);
    ListedInOrder(t, events, target, rootId, tree.nodes[i].event.id, a, b);
  }

  lemma RootsInOrder(t: Thread, tree: Tree, events: seq<Reply>, target: Match, rootId: Option<string>, a: nat, b: nat)
    requires t.Valid() && ThreadOf(t, events, target, rootId) && Placed(t, tree) && Pending(t, tree, [])
    requires a < b < |tree.roots|
    ensures tree.roots[a] < |tree.nodes| && tree.roots[b] < |tree.nodes|
    ensures var x, y := tree.nodes[tree.roots[a]].event, tree.nodes[tree.roots[b]].event;
            x.createdAt < y.createdAt || (x.createdAt == y.createdAt && StrLess(x.id, y.id))
  {
    assert !IsOwner([], None) && RootFiled(t, tree);
    ListedInOrder(t, events, target, rootId, t.root, a, b);
  }

  lemma ListedInOrder(t: Thread, events: seq<Reply>, target: Match, rootId: Option<string>, key: string, a: nat, b: nat)
    requires ThreadOf(t, events, target, rootId) && a < b < |At(t.children, key)|
    ensures OlderFirst(At(t.children, key)[a], At(t.children, key)[b])
  {
    var kept := Kept(events, target);
    assert At(t.children, key) == OldestFirst(kept, t.parents, key);
    UnderIsStrict(kept, t.parents, key);
  }
}
