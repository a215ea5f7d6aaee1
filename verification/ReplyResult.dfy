/** The finished reply tree: counters that reconcile, caps spent on shallow replies,
    and exactly when the builder's stack loop ends. */
module ReplyResult {
  import opened Order
  import opened Events
  import opened ReplyGraph
  import opened ReplyTree
  import opened ReplyBuild
  import opened ReplyTheorems
  import opened ReplyIndex
  import opened ReplyThread

  const DEFAULT_REPLY_DEPTH := 3
  const MAX_REPLY_NODES := 200

  function AtLeast(least: int, value: Option<int>, otherwise: int): (r: int)
    ensures r >= least && (r == least || r == if value.Some? then value.value else otherwise)
    ensures value.None? && otherwise >= least ==> r == otherwise
    ensures value.Some? ==> r >= value.value
  {
    var v := if value.Some? then value.value else otherwise;
    if v < least then least else v
  }

  /** The ids placed in a tree. */
  ghost function PlacedIds(tree: Tree): set<string>
  {
    Elements(NodeIds(tree))
  }

  function NodeIds(tree: Tree): (r: seq<string>)
    ensures |r| == |tree.nodes|
  {
    seq(|tree.nodes|, i requires 0 <= i < |tree.nodes| => tree.nodes[i].event.id)
  }

  /** `hidden` counts exactly the connected replies that are not placed. */
  lemma HiddenIsUnplaced(t: Thread, tree: Tree)
    requires t.Valid() && Placed(t, tree) && Pending(t, tree, [])
    ensures PlacedIds(tree) <= Below(t.parents, t.root) && tree.total == |PlacedIds(tree)|
    ensures tree.hidden == |Below(t.parents, t.root) - PlacedIds(tree)|
  {
    var ids := NodeIds(tree);
    forall x | x in PlacedIds(tree) ensures x in Below(t.parents, t.root) {
      var i :| 0 <= i < |ids| && ids[i] == x;
      assert Climbs(t.parents, x, t.root, tree.nodes[i].depth) && HangsBelow(t.parents, x, t.root);
    }
    assert NoDuplicates(ids);
    DistinctCount(ids);
    assert PlacedIds(tree) == Elements(ids);
    assert Keys([]) == [];
    SizeWithout(Below(t.parents, t.root), PlacedIds(tree));
  }

  /** Every placed node carries the kept copy of its reply. */
  lemma NodeIsKept(t: Thread, tree: Tree, kept: map<string, Reply>, j: nat)
    requires OwnIds(kept) && Placed(t, tree) && Pending(t, tree, []) && j < |tree.nodes|
    requires forall key :: At(t.children, key) == OldestFirst(kept, t.parents, key)
    ensures tree.nodes[j].event.id in kept && kept[tree.nodes[j].event.id] == tree.nodes[j].event
  {
    assert Attached(t, tree, j) && !IsOwner([], None);
    if j in tree.roots {
      assert RootFiled(t, tree);
      InList(t, tree, kept, tree.roots, tree.hiddenRoots, t.root, j);
    } else {
      var i: nat :| i < |tree.nodes| && j in tree.nodes[i].children;
      assert !IsOwner([], Some(i)) && NodeFiled(t, tree, i);
      InList(t, tree, kept, tree.nodes[i].children, tree.nodes[i].hiddenChildren, tree.nodes[i].event.id, j);
    }
  }

  lemma InList(t: Thread, tree: Tree, kept: map<string, Reply>, indices: seq<nat>, hidden: nat, key: string, j: nat)
    requires OwnIds(kept) && j in indices && j < |tree.nodes|
    requires At(t.children, key) == OldestFirst(kept, t.parents, key)
    requires Prefix(tree, indices, hidden, At(t.children, key))
    ensures tree.nodes[j].event.id in kept && kept[tree.nodes[j].event.id] == tree.nodes[j].event
  {
    var k :| 0 <= k < |indices| && indices[k] == j;
    assert tree.nodes[j].event == At(t.children, key)[k];
    assert At(t.children, key)[k] in Elements(OldestFirst(kept, t.parents, key));
    assert tree.nodes[j].event in Under(kept, t.parents, key);
  }

  /** The thread a delivery spells out: who answers whom, oldest answers first. */
  ghost predicate ThreadOf(t: Thread, events: seq<Reply>, target: Match, rootId: Option<string>)
  {
    && RootKey(target) == Some(t.root) && t.parents == ParentsOf(Kept(events, target), target, rootId)
    && OwnIds(Kept(events, target))
    && forall key :: At(t.children, key) == OldestFirst(Kept(events, target), t.parents, key)
  }

  /** Every delivery spells out a thread, cycles or not, under any caps. */
  lemma DeliveryHasThread(events: seq<Reply>, target: Match, rootId: Option<string>, maxDepth: nat, maxNodes: nat)
    returns (t: Thread)
    requires RootKey(target).Some?
    ensures ThreadOf(t, events, target, rootId) && t.maxDepth == maxDepth && t.maxNodes == maxNodes
  {
    var kept := Kept(events, target);
    var p := ParentsOf(kept, target, rootId);
    t := Thread(p, map key | key in p.Values :: OldestFirst(kept, p, key), RootKey(target).value, maxDepth, maxNodes);
    forall key ensures At(t.children, key) == OldestFirst(kept, p, key) {
      if key !in p.Values {
        assert Under(kept, p, key) == {};
      }
    }
  }

  /** Reads a thread's index off a delivery. */
  method Index(events: seq<Reply>, target: Match, rootId: Option<string>, root: string, maxDepth: nat, maxNodes: nat)
    returns (t: Thread, size: nat)
    requires RootKey(target) == Some(root) && !OnCycle(ParentsOf(Kept(events, target), target, rootId), root)
    ensures t.Valid() && ThreadOf(t, events, target, rootId) && t.maxDepth == maxDepth && t.maxNodes == maxNodes
    ensures size == |Kept(events, target)|
  {
    var byId, values := CollectReplies(events, target);
    var grouped := GroupByParent(values, byId, target, rootId);
    var children := SortAll(grouped);
    ghost var p := ParentsOf(byId, target, rootId);
    forall key ensures At(children, key) == OldestFirst(byId, p, key) {
      SortedGroups(grouped, byId, values, p, key);
    }
    IndexedBy(children, byId, p);
    t := Thread(ParentsOf(byId, target, rootId), children, root, maxDepth, maxNodes);
    size := |byId|;
  }

  lemma BelowIsKept(events: seq<Reply>, target: Match, rootId: Option<string>, root: string)
    ensures var kept := Kept(events, target);
            var below := Below(ParentsOf(kept, target, rootId), root);
            below <= kept.Keys && |kept| - |below| == |kept.Keys - below|
  {
    var kept := Kept(events, target);
    SizeWithout(kept.Keys, Below(ParentsOf(kept, target, rootId), root));
  }

  /** Builds the thread under a post. Kept replies split exactly three ways: placed, hidden
      by a cap, and orphans whose chain of parents never reaches the root. */
  method BuildReplyTree(events: seq<Reply>, target: Match, maxDepth: Option<int>, maxNodes: Option<int>, rootId: Option<string>)
    returns (tree: Tree, orphans: int, ghost t: Thread)
    requires RootKey(target).Some? ==>
               !OnCycle(ParentsOf(Kept(events, target), target, rootId), RootKey(target).value)
    ensures RootKey(target).None? ==> tree == Tree([], [], 0, 0, 0) && orphans == 0
    ensures RootKey(target).Some? ==>
              && t.Valid() && ThreadOf(t, events, target, rootId)
              && (maxDepth.None? ==> t.maxDepth == 3) && (maxNodes.None? ==> t.maxNodes == 200)
              && (maxDepth.Some? ==> t.maxDepth == if maxDepth.value < 1 then 1 else maxDepth.value)
              && (maxNodes.Some? ==> t.maxNodes == if maxNodes.value < 0 then 0 else maxNodes.value)
              && Placed(t, tree) && Pending(t, tree, []) && ShallowFirst(t, tree, [])
              && tree.total + tree.hidden == |Below(t.parents, t.root)|
              && orphans == |Kept(events, target).Keys - Below(t.parents, t.root)|
              && orphans == |Kept(events, target)| - tree.total - tree.hidden
  {
    var root := RootKey(target);
    if root.None? {
      tree, orphans := Tree([], [], 0, 0, 0), 0;
      t := Thread(map[], map[], "", 1, 0);
      return;
    }
    var thread, size := Index(events, target, rootId, root.value,
                              AtLeast(1, maxDepth, DEFAULT_REPLY_DEPTH), AtLeast(0, maxNodes, MAX_REPLY_NODES));
    tree := Grow(thread);
    t := thread;
    assert Keys([]) == [];
    BelowIsKept(events, target, rootId, root.value);
    orphans := AtLeast(0, Some(size - tree.total - tree.hidden), 0);
  }

  /** A connected reply within the depth cap is left out only when the node cap is spent on
      replies no deeper than it. */
  lemma LeftOutOnlyWhenSpent(t: Thread, tree: Tree, x: string, n: nat)
    requires ShallowFirst(t, tree, []) && x in t.parents && 1 <= n <= t.maxDepth && Climbs(t.parents, x, t.root, n)
    requires !IsPlaced(tree, x)
    ensures tree.total == t.maxNodes && forall i | 0 <= i < |tree.nodes| :: tree.nodes[i].depth <= n
  {
    assert Accounted(t, tree, [], x, n);
  }

  // ---- the gate on delivery

  /** A reply once accepted stays accepted as more replies are held, though its parent may change. */
  lemma AcceptanceIsMonotone(e: Reply, target: Match, known: set<string>, more: set<string>, rootId: Option<string>)
    requires AcceptsReply(e, target, known, rootId) && known <= more
    ensures AcceptsReply(e, target, more, rootId)
  {
  }

  /** The gate drops nothing the tree would place: whatever connects to the root is accepted once
      its thread is held. */
  lemma ConnectedIsAccepted(events: seq<Reply>, target: Match, rootId: Option<string>, root: string, x: string)
    requires RootKey(target) == Some(root)
    requires x in Below(ParentsOf(Kept(events, target), target, rootId), root)
    ensures AcceptsReply(Kept(events, target)[x], target, Kept(events, target).Keys, rootId)
  {
    var kept := Kept(events, target);
    var p := ParentsOf(kept, target, rootId);
    var n: nat :| n > 0 && Climbs(p, x, root, n);
    if n > 1 {
      assert Climbs(p, p[x], root, n - 1);
    }
  }

  // ---- when the stack loop ends

  /** One turn of the loop: pop a key, count and push its children. */
  function Pop(children: Children, stack: seq<string>): seq<string>
    requires stack != []
  {
    stack[..|stack| - 1] + Ids(At(children, stack[|stack| - 1]))
  }

  /** The stack after `n` turns, if the loop gets that far. */
  function StackAfter(children: Children, stack: seq<string>, n: nat): seq<string>
    decreases n
  {
    if n == 0 || stack == [] then stack else StackAfter(children, Pop(children, stack), n - 1)
  }

  ghost predicate Ends(children: Children, stack: seq<string>)
  {
    exists n: nat :: StackAfter(children, stack, n) == []
  }

  /** Some key of the stack is on a cycle. */
  ghost predicate Stuck(p: Parents, stack: seq<string>)
  {
    exists k :: k in stack && OnCycle(p, k)
  }

  /** Every key on a cycle has a child on that cycle. */
  lemma CycleGoesDown(p: Parents, k: string) returns (c: string)
    requires OnCycle(p, k)
    ensures c in p && p[c] == k && OnCycle(p, c)
  {
    var n: nat :| n > 0 && Climbs(p, k, k, n);
    c := LastStep(p, k, k, n);
    assert Climbs(p, c, k, 1);
    ClimbsOn(p, c, k, c, 1, n - 1);
  }

  lemma PopStaysStuck(children: Children, p: Parents, stack: seq<string>)
    requires Indexes(children, p) && Stuck(p, stack)
    ensures stack != [] && Stuck(p, Pop(children, stack))
  {
    var k :| k in stack && OnCycle(p, k);
    var top := stack[|stack| - 1];
    if k == top {
      var c := CycleGoesDown(p, k);
      assert ListsChildren(p, top, Ids(At(children, top)));
      assert c in Pop(children, stack);
    } else {
      assert k in stack[..|stack| - 1];
      assert k in Pop(children, stack);
    }
  }

  lemma {:induction false} StuckForever(children: Children, p: Parents, stack: seq<string>, n: nat)
    requires Indexes(children, p) && Stuck(p, stack)
    ensures StackAfter(children, stack, n) != []
    decreases n
  {
    PopStaysStuck(children, p, stack);
    if n > 0 {
      StuckForever(children, p, Pop(children, stack), n - 1);
    }
  }

  /** Each turn settles one reply for good. */
  lemma PopLightens(children: Children, p: Parents, stack: seq<string>)
    requires Indexes(children, p) && OffCycles(p, stack) && stack != []
    ensures OffCycles(p, Pop(children, stack)) && Weight(p, stack) == Weight(p, Pop(children, stack)) + 1
  {
    var rest, top := stack[..|stack| - 1], stack[|stack| - 1];
    assert ListsChildren(p, top, Ids(At(children, top)));
    assert top in stack && forall k | k in rest :: k in stack;
    PoppedAndPushed(p, top, rest, Ids(At(children, top)));
    assert rest + [top] == stack;
  }

  lemma {:induction false} EndsInTime(children: Children, p: Parents, stack: seq<string>, n: nat)
    requires Indexes(children, p) && OffCycles(p, stack) && n == Weight(p, stack)
    ensures StackAfter(children, stack, n) == []
    decreases n
  {
    if stack != [] {
      PopLightens(children, p, stack);
      EndsInTime(children, p, Pop(children, stack), n - 1);
    }
  }

  /** The loop that counts what hangs below a key ends exactly when the key does not hang
      below itself. */
  lemma EndsOffCycles(children: Children, p: Parents, key: string)
    requires Indexes(children, p)
    ensures Ends(children, [key]) <==> !OnCycle(p, key)
  {
    if OnCycle(p, key) {
      assert key in [key] && Stuck(p, [key]);
      forall n: nat ensures StackAfter(children, [key], n) != [] {
        StuckForever(children, p, [key], n);
      }
    } else {
      EndsInTime(children, p, [key], Weight(p, [key]));
    }
  }

  // ---- when the whole builder ends

  /** Where the breadth-first walk stands: how many replies are placed, and the slots still to be filed. */
  datatype Walk = Walk(total: nat, slots: seq<Slot>)

  function Start(t: Thread): Walk
  {
    Walk(0, [Slot(t.root, 1, None)])
  }

  /** How many replies of the next slot get placed. */
  function NextPlaced(t: Thread, w: Walk): (m: nat)
    requires w.slots != []
    ensures m <= |At(t.children, w.slots[0].key)| && (w.total <= t.maxNodes ==> w.total + m <= t.maxNodes)
  {
    Placeable(w.total, w.slots[0].depth, |At(t.children, w.slots[0].key)|, t)
  }

  /** The walk after its next slot is filed, once the counting is done. */
  function Filed(t: Thread, w: Walk): Walk
    requires w.slots != []
  {
    var m := NextPlaced(t, w);
    Walk(w.total + m, w.slots[1..] + NewSlots(At(t.children, w.slots[0].key)[..m], w.slots[0].depth + 1, w.total))
  }

  /** Filing the next slot ends: so does counting below each reply it skips. */
  ghost predicate FilingEnds(t: Thread, w: Walk)
    requires w.slots != []
  {
    forall e | e in At(t.children, w.slots[0].key)[NextPlaced(t, w)..] :: Ends(t.children, [e.id])
  }

  /** Filing ends for every slot the walk comes to. Under the node cap it comes to finitely
      many, so a walk that does not end has come to an endless count. */
  ghost predicate WalkEnds(t: Thread, w: Walk)
    requires w.total <= t.maxNodes
    decreases |w.slots| + 2 * (t.maxNodes - w.total)
  {
    w.slots == [] || (FilingEnds(t, w) && WalkEnds(t, Filed(t, w)))
  }

  /** `FileSlot` takes the walk's step. */
  lemma FilingIsStep(t: Thread, tree: Tree, slots: seq<Slot>, m: nat, after: Tree, more: seq<Slot>)
    requires slots != [] && tree.total == |tree.nodes| && (slots[0].owner.Some? ==> slots[0].owner.value < |tree.nodes|)
    requires m == Placeable(tree.total, slots[0].depth, |At(t.children, slots[0].key)|, t)
    requires Files(t, tree, slots[0], m, after) && Opens(t, tree, slots[0], m, more)
    ensures Filed(t, Walk(tree.total, slots)) == Walk(after.total, slots[1..] + more)
  {
    assert more == NewSlots(At(t.children, slots[0].key)[..m], slots[0].depth + 1, tree.total);
  }

  /** Some slot still to be filed hangs below itself. */
  ghost predicate StuckSlots(p: Parents, slots: seq<Slot>)
  {
    exists i | 0 <= i < |slots| :: OnCycle(p, slots[i].key)
  }

  /** A slot on a cycle is filed only by opening another, or by an endless count. */
  lemma StuckSlot(t: Thread, w: Walk)
    requires Indexes(t.children, t.parents) && StuckSlots(t.parents, w.slots) && FilingEnds(t, w)
    ensures StuckSlots(t.parents, Filed(t, w).slots)
  {
    var i :| 0 <= i < |w.slots| && OnCycle(t.parents, w.slots[i].key);
    var list, m := At(t.children, w.slots[0].key), NextPlaced(t, w);
    if i > 0 {
      assert Filed(t, w).slots[i - 1] == w.slots[i];
    } else {
      var c := CycleGoesDown(t.parents, w.slots[0].key);
      assert ListsChildren(t.parents, w.slots[0].key, Ids(list));
      var j :| 0 <= j < |list| && Ids(list)[j] == c;
      if j < m {
        assert Filed(t, w).slots[|w.slots| - 1 + j].key == c;
      } else {
        assert list[m..][j - m] in list[m..];
        EndsOffCycles(t.children, t.parents, c);
      }
    }
  }

  lemma {:induction false} StuckWalk(t: Thread, w: Walk)
    requires Indexes(t.children, t.parents) && StuckSlots(t.parents, w.slots) && w.total <= t.maxNodes
    ensures !WalkEnds(t, w)
    decreases |w.slots| + 2 * (t.maxNodes - w.total)
  {
    if FilingEnds(t, w) {
      StuckSlot(t, w);
      StuckWalk(t, Filed(t, w));
    }
  }

  lemma FreeChildren(t: Thread, key: string)
    requires Indexes(t.children, t.parents) && !OnCycle(t.parents, key)
    ensures forall j | 0 <= j < |At(t.children, key)| ::
              !OnCycle(t.parents, At(t.children, key)[j].id) && Ends(t.children, [At(t.children, key)[j].id])
  {
    var list := At(t.children, key);
    assert ListsChildren(t.parents, key, Ids(list));
    forall j | 0 <= j < |list| ensures !OnCycle(t.parents, list[j].id) && Ends(t.children, [list[j].id]) {
      assert Ids(list)[j] in Ids(list);
      ChildOffCycle(t.parents, list[j].id);
      EndsOffCycles(t.children, t.parents, list[j].id);
    }
  }

  lemma FreeSlots(p: Parents, rest: seq<Slot>, list: seq<Reply>, depth: nat, start: nat)
    requires !StuckSlots(p, rest) && forall j | 0 <= j < |list| :: !OnCycle(p, list[j].id)
    ensures !StuckSlots(p, rest + NewSlots(list, depth, start))
  {
    var slots := rest + NewSlots(list, depth, start);
    forall i | 0 <= i < |slots| ensures !OnCycle(p, slots[i].key) {
      if i >= |rest| {
        assert slots[i].key == list[i - |rest|].id;
      }
    }
  }

  /** Filing a slot off every cycle ends, and opens only such slots. */
  lemma FreeSlot(t: Thread, w: Walk)
    requires Indexes(t.children, t.parents) && w.slots != [] && !StuckSlots(t.parents, w.slots)
    ensures FilingEnds(t, w) && !StuckSlots(t.parents, Filed(t, w).slots)
  {
    var list, m := At(t.children, w.slots[0].key), NextPlaced(t, w);
    FreeChildren(t, w.slots[0].key);
    assert !StuckSlots(t.parents, w.slots[1..]) by {
      forall i | 0 <= i < |w.slots[1..]| ensures !OnCycle(t.parents, w.slots[1..][i].key) {
        assert w.slots[1..][i] == w.slots[i + 1];
      }
    }
    FreeSlots(t.parents, w.slots[1..], list[..m], w.slots[0].depth + 1, w.total);
  }

  lemma {:induction false} FreeWalk(t: Thread, w: Walk)
    requires Indexes(t.children, t.parents) && !StuckSlots(t.parents, w.slots) && w.total <= t.maxNodes
    ensures WalkEnds(t, w)
    decreases |w.slots| + 2 * (t.maxNodes - w.total)
  {
    if w.slots != [] {
      FreeSlot(t, w);
      FreeWalk(t, Filed(t, w));
    }
  }

  /** The builder ends if and only if the root does not hang below itself, under any caps. */
  lemma BuilderEnds(t: Thread, events: seq<Reply>, target: Match, rootId: Option<string>)
    requires ThreadOf(t, events, target, rootId)
    ensures WalkEnds(t, Start(t)) <==> !OnCycle(t.parents, t.root)
  {
    IndexedBy(t.children, Kept(events, target), t.parents);
    assert Start(t).slots[0].key == t.root;
    if OnCycle(t.parents, t.root) {
      StuckWalk(t, Start(t));
    } else {
      FreeWalk(t, Start(t));
    }
  }

  /** A root that is no kept reply's id is on no cycle. */
  lemma RootOffCycle(events: seq<Reply>, target: Match, rootId: Option<string>, root: string)
    requires RootKey(target) == Some(root) && root !in Kept(events, target)
    ensures !OnCycle(ParentsOf(Kept(events, target), target, rootId), root)
  {
    var p := ParentsOf(Kept(events, target), target, rootId);
    forall n: nat | n > 0 ensures !Climbs(p, root, root, n) {
    }
  }

  /** A plain post's own id is never a kept reply's, so its thread always ends. */
  lemma PlainPostEnds(events: seq<Reply>, target: Match, rootId: Option<string>, root: string)
    requires target.address.None? && target.id == Some(root)
    ensures !OnCycle(ParentsOf(Kept(events, target), target, rootId), root)
  {
    if root in Kept(events, target) {
      assert false;
    }
    RootOffCycle(events, target, rootId, root);
  }

  /** What NIP-01 ids look like; a coordinate never does. */
  predicate IsEventId(id: string)
  {
    |id| == 64 && forall i | 0 <= i < |id| :: '0' <= id[i] <= '9' || 'a' <= id[i] <= 'f'
  }

  /** With every id a hash and an addressable post's key a coordinate, every thread ends. */
  lemma HashIdsEnd(events: seq<Reply>, target: Match, rootId: Option<string>, root: string)
    requires RootKey(target) == Some(root) && (target.address.Some? ==> ':' in target.address.value)
    requires forall e | e in events :: IsEventId(e.id)
    ensures !OnCycle(ParentsOf(Kept(events, target), target, rootId), root)
  {
    if target.address.None? {
      PlainPostEnds(events, target, rootId, root);
    } else {
      assert root !in Kept(events, target);
      RootOffCycle(events, target, rootId, root);
    }
  }

  /** An addressable post has no guard of its own: whatever its coordinate, a reply whose id
      spells it hangs below itself, counting below it never ends, and neither does the builder. */
  lemma CoordinateCycle(t: Thread, a: string, e: Reply, target: Match)
    requires e == Reply(a, 1, 0, None, Some(a)) && target == Match(None, Some(a))
    requires ThreadOf(t, [e], target, None)
    ensures OnCycle(t.parents, t.root) && !Ends(t.children, [a]) && !WalkEnds(t, Start(t))
  {
    assert [e][..0] == [];
    assert Kept([e], target) == map[a := e];
    assert Climbs(t.parents, a, a, 0) && Climbs(t.parents, a, a, 1);
    IndexedBy(t.children, Kept([e], target), t.parents);
    EndsOffCycles(t.children, t.parents, a);
    BuilderEnds(t, [e], target, None);
  }
}
