/** What the finished reply tree guarantees: nothing is lost, nothing is counted twice,
    and the caps spend themselves on the shallow replies first. */
module ReplyTheorems {
  import opened Events
  import opened ReplyGraph
  import opened ReplyTree
  import opened ReplyBuild

  /** Every node is a reply, once, at its distance from the root and within the depth cap. */
  ghost predicate NodesSound(t: Thread, tree: Tree)
  {
    forall i | 0 <= i < |tree.nodes| ::
      && tree.nodes[i].event.id in t.parents && 1 <= tree.nodes[i].depth <= t.maxDepth
      && Climbs(t.parents, tree.nodes[i].event.id, t.root, tree.nodes[i].depth)
  }

  ghost predicate Distinct(tree: Tree)
  {
    forall i, j | 0 <= i < j < |tree.nodes| :: tree.nodes[i].event.id != tree.nodes[j].event.id
  }

  /** A slot still to be filed has nothing attached yet. */
  ghost predicate Waiting(t: Thread, tree: Tree, slot: Slot)
  {
    && slot.depth >= 1 && Climbs(t.parents, slot.key, t.root, slot.depth - 1)
    && match slot.owner
       case None => slot.key == t.root && slot.depth == 1 && tree.roots == [] && tree.hiddenRoots == 0
       case Some(o) =>
         && o < |tree.nodes| && tree.nodes[o].event.id == slot.key && slot.depth == tree.nodes[o].depth + 1
         && tree.nodes[o].children == [] && tree.nodes[o].hiddenChildren == 0
  }

  ghost predicate DistinctOwners(slots: seq<Slot>)
  {
    forall i, j | 0 <= i < j < |slots| :: slots[i].owner != slots[j].owner
  }

  ghost predicate AllWaiting(t: Thread, tree: Tree, slots: seq<Slot>)
  {
    && (forall i | 0 <= i < |slots| :: Waiting(t, tree, slots[i]))
    && DistinctOwners(slots)
  }

  /** The attached nodes are the first of the list, the rest is charged. */
  ghost predicate Prefix(tree: Tree, indices: seq<nat>, hidden: nat, list: seq<Reply>)
  {
    && |indices| + hidden == |list|
    && forall j | 0 <= j < |indices| :: indices[j] < |tree.nodes| && tree.nodes[indices[j]].event == list[j]
  }

  ghost predicate IsOwner(slots: seq<Slot>, owner: Option<nat>)
  {
    exists i | 0 <= i < |slots| :: slots[i].owner == owner
  }

  /** Whatever is not waiting is filed: its children are a prefix of its replies, oldest first. */
  ghost predicate OthersFiled(t: Thread, tree: Tree, slots: seq<Slot>)
  {
    && (forall i: nat | i < |tree.nodes| && !IsOwner(slots, Some(i)) :: NodeFiled(t, tree, i))
    && (!IsOwner(slots, None) ==> RootFiled(t, tree))
  }

  /** Each node is attached under its parent. */
  ghost predicate Attached(t: Thread, tree: Tree, j: nat)
    requires j < |tree.nodes| && tree.nodes[j].event.id in t.parents
  {
    || (t.parents[tree.nodes[j].event.id] == t.root && j in tree.roots)
    || exists i: nat :: i < |tree.nodes| && j in tree.nodes[i].children && t.parents[tree.nodes[j].event.id] == tree.nodes[i].event.id
  }

  ghost predicate AllAttached(t: Thread, tree: Tree)
    requires NodesSound(t, tree)
  {
    forall j: nat | j < |tree.nodes| :: Attached(t, tree, j)
  }

  function Keys(slots: seq<Slot>): (r: seq<string>)
    ensures |r| == |slots|
  {
    seq(|slots|, i requires 0 <= i < |slots| => slots[i].key)
  }

  /** Conservation: placed, hidden and still waiting below a slot add up to everything below the root. */
  ghost predicate Balanced(t: Thread, tree: Tree, slots: seq<Slot>)
  {
    tree.total + tree.hidden + Weight(t.parents, Keys(slots)) == |Below(t.parents, t.root)| + |slots|
  }

  /** What holds of the nodes placed so far. */
  ghost predicate Placed(t: Thread, tree: Tree)
  {
    tree.total == |tree.nodes| <= t.maxNodes && NodesSound(t, tree) && Distinct(tree) && AllAttached(t, tree)
  }

  /** What holds of the slots still to be filed. */
  ghost predicate Pending(t: Thread, tree: Tree, slots: seq<Slot>)
  {
    AllWaiting(t, tree, slots) && OthersFiled(t, tree, slots) && Balanced(t, tree, slots)
  }

  // ---- filing the first waiting slot keeps every part of this

  lemma ChildDepth(t: Thread, slot: Slot, c: string)
    requires slot.depth >= 1 && Climbs(t.parents, slot.key, t.root, slot.depth - 1)
    requires c in t.parents && t.parents[c] == slot.key
    ensures Climbs(t.parents, c, t.root, slot.depth)
  {
  }

  lemma NodesStaySound(t: Thread, tree: Tree, slot: Slot, m: nat, after: Tree)
    requires t.Valid() && NodesSound(t, tree) && Waiting(t, tree, slot)
    requires Files(t, tree, slot, m, after) && (m > 0 ==> slot.depth <= t.maxDepth)
    ensures NodesSound(t, after)
  {
    ListedChildren(t, slot.key);
    var list := At(t.children, slot.key);
    forall i | 0 <= i < |after.nodes|
      ensures after.nodes[i].event.id in t.parents && 1 <= after.nodes[i].depth <= t.maxDepth
      ensures Climbs(t.parents, after.nodes[i].event.id, t.root, after.nodes[i].depth)
    {
      if i >= |tree.nodes| {
        ChildDepth(t, slot, list[i - |tree.nodes|].id);
      } else {
        assert after.nodes[i].event == tree.nodes[i].event;
      }
    }
  }

  /** A placed node is not the root, or the root would hang below itself. */
  lemma NotRoot(t: Thread, tree: Tree, i: nat)
    requires t.Valid() && NodesSound(t, tree) && i < |tree.nodes|
    ensures tree.nodes[i].event.id != t.root
  {
    assert Climbs(t.parents, tree.nodes[i].event.id, t.root, tree.nodes[i].depth);
  }

  /** The children of a waiting slot are not placed yet. */
  lemma ChildIsNew(t: Thread, tree: Tree, slot: Slot, j: nat)
    requires t.Valid() && NodesSound(t, tree) && Distinct(tree) && AllAttached(t, tree) && Waiting(t, tree, slot)
    requires j < |tree.nodes|
    ensures t.parents[tree.nodes[j].event.id] != slot.key
  {
    assert Attached(t, tree, j);
    var parent := t.parents[tree.nodes[j].event.id];
    if parent == t.root && j in tree.roots {
      if slot.owner.Some? {
        NotRoot(t, tree, slot.owner.value);
      }
    } else {
      var i: nat :| i < |tree.nodes| && j in tree.nodes[i].children && parent == tree.nodes[i].event.id;
      NotRoot(t, tree, i);
      if slot.owner.Some? && slot.owner.value != i {
        assert tree.nodes[slot.owner.value].event.id != tree.nodes[i].event.id;
      }
    }
  }

  lemma NodesStayDistinct(t: Thread, tree: Tree, slot: Slot, m: nat, after: Tree)
    requires t.Valid() && NodesSound(t, tree) && Distinct(tree) && AllAttached(t, tree) && Waiting(t, tree, slot)
    requires Files(t, tree, slot, m, after)
    ensures Distinct(after)
  {
    ListedChildren(t, slot.key);
    var list := At(t.children, slot.key);
    var n := |tree.nodes|;
    forall i, j | 0 <= i < j < |after.nodes| ensures after.nodes[i].event.id != after.nodes[j].event.id {
      if j < n {
        assert after.nodes[i].event == tree.nodes[i].event && after.nodes[j].event == tree.nodes[j].event;
      } else {
        assert after.nodes[j].event == list[j - n];
        if i < n {
          ChildIsNew(t, tree, slot, i);
          assert after.nodes[i].event == tree.nodes[i].event;
        } else {
          assert after.nodes[i].event == list[i - n];
          assert Ids(list)[i - n] != Ids(list)[j - n];
        }
      }
    }
  }

  lemma StillAttached(t: Thread, tree: Tree, slot: Slot, m: nat, after: Tree)
    requires t.Valid() && NodesSound(t, tree) && AllAttached(t, tree) && Waiting(t, tree, slot)
    requires Files(t, tree, slot, m, after) && NodesSound(t, after)
    ensures AllAttached(t, after)
  {
    ListedChildren(t, slot.key);
    var list := At(t.children, slot.key);
    var n := |tree.nodes|;
    forall j: nat | j < |after.nodes| ensures Attached(t, after, j) {
      if j < n {
        assert Attached(t, tree, j) && after.nodes[j].event == tree.nodes[j].event;
        if !(t.parents[tree.nodes[j].event.id] == t.root && j in tree.roots) {
          var i: nat :| i < n && j in tree.nodes[i].children && t.parents[tree.nodes[j].event.id] == tree.nodes[i].event.id;
          assert after.nodes[i].event == tree.nodes[i].event && j in after.nodes[i].children;
        }
      } else {
        assert after.nodes[j].event == list[j - n] && Range(n, m)[j - n] == j;
        if slot.owner.Some? {
          var o := slot.owner.value;
          assert after.nodes[o].event == tree.nodes[o].event && j in after.nodes[o].children;
        }
      }
    }
  }

  lemma OldSlotWaits(t: Thread, tree: Tree, slot: Slot, m: nat, after: Tree, other: Slot)
    requires Waiting(t, tree, slot) && Waiting(t, tree, other) && other.owner != slot.owner
    requires Files(t, tree, slot, m, after)
    ensures Waiting(t, after, other)
  {
    if other.owner.Some? {
      assert after.nodes[other.owner.value] == tree.nodes[other.owner.value];
    }
  }

  lemma NewSlotIsWaiting(t: Thread, tree: Tree, slot: Slot, m: nat, after: Tree, j: nat)
    requires t.Valid() && Waiting(t, tree, slot) && Files(t, tree, slot, m, after) && j < m
    ensures Waiting(t, after, Slot(At(t.children, slot.key)[j].id, slot.depth + 1, Some(|tree.nodes| + j)))
  {
    ListedChildren(t, slot.key);
    assert after.nodes[|tree.nodes| + j] == Node(At(t.children, slot.key)[j], slot.depth, [], 0);
    ChildDepth(t, slot, At(t.children, slot.key)[j].id);
  }

  ghost predicate OwnersBelow(slots: seq<Slot>, n: nat)
  {
    forall i | 0 <= i < |slots| :: slots[i].owner.Some? ==> slots[i].owner.value < n
  }

  lemma OwnersStayDistinct(t: Thread, tree: Tree, slot: Slot, rest: seq<Slot>, m: nat, more: seq<Slot>)
    requires DistinctOwners(rest) && OwnersBelow(rest, |tree.nodes|) && Opens(t, tree, slot, m, more)
    ensures DistinctOwners(rest + more)
  {
  }

  lemma SlotStillWaits(t: Thread, tree: Tree, slots: seq<Slot>, m: nat, after: Tree, more: seq<Slot>, i: nat)
    requires t.Valid() && slots != [] && AllWaiting(t, tree, slots) && Waiting(t, tree, slots[0])
    requires Files(t, tree, slots[0], m, after) && Opens(t, tree, slots[0], m, more)
    requires i < |slots[1..] + more|
    ensures Waiting(t, after, (slots[1..] + more)[i])
  {
    if i < |slots| - 1 {
      assert (slots[1..] + more)[i] == slots[i + 1];
      OldSlotWaits(t, tree, slots[0], m, after, slots[i + 1]);
    } else {
      assert (slots[1..] + more)[i] == more[i - (|slots| - 1)];
      NewSlotIsWaiting(t, tree, slots[0], m, after, i - (|slots| - 1));
    }
  }

  lemma OthersStillWait(t: Thread, tree: Tree, slots: seq<Slot>, m: nat, after: Tree, more: seq<Slot>)
    requires t.Valid() && slots != [] && AllWaiting(t, tree, slots) && Waiting(t, tree, slots[0])
    requires Files(t, tree, slots[0], m, after) && Opens(t, tree, slots[0], m, more)
    ensures AllWaiting(t, after, slots[1..] + more)
  {
    forall i | 0 <= i < |slots[1..] + more| ensures Waiting(t, after, (slots[1..] + more)[i]) {
      SlotStillWaits(t, tree, slots, m, after, more, i);
    }
    RestIsDistinct(t, tree, slots);
    OwnersStayDistinct(t, tree, slots[0], slots[1..], m, more);
  }

  lemma RestIsDistinct(t: Thread, tree: Tree, slots: seq<Slot>)
    requires slots != [] && AllWaiting(t, tree, slots)
    ensures DistinctOwners(slots[1..]) && OwnersBelow(slots[1..], |tree.nodes|)
  {
    forall i | 0 <= i < |slots| - 1 ensures slots[1..][i].owner.Some? ==> slots[1..][i].owner.value < |tree.nodes| {
      assert Waiting(t, tree, slots[i + 1]);
    }
  }

  lemma PlacedArePrefix(tree: Tree, slot: Slot, list: seq<Reply>, m: nat, after: Tree, indices: seq<nat>)
    requires m <= |list| && |after.nodes| == |tree.nodes| + m && AddsNodes(tree, slot, list, m, after)
    requires indices == [] + Range(|tree.nodes|, m)
    ensures Prefix(after, indices, |list| - m, list)
  {
    forall j | 0 <= j < m ensures indices[j] < |after.nodes| && after.nodes[indices[j]].event == list[j] {
      assert after.nodes[|tree.nodes| + j] == Node(list[j], slot.depth, [], 0);
    }
  }

  lemma SlotIsFiled(t: Thread, tree: Tree, slot: Slot, m: nat, after: Tree)
    requires Waiting(t, tree, slot) && Files(t, tree, slot, m, after)
    ensures slot.owner.None? ==> RootFiled(t, after)
    ensures slot.owner.Some? ==> NodeFiled(t, after, slot.owner.value)
  {
    PlacedArePrefix(tree, slot, At(t.children, slot.key), m, after, [] + Range(|tree.nodes|, m));
  }

  lemma PrefixKept(tree: Tree, slot: Slot, after: Tree, indices: seq<nat>, hidden: nat, list: seq<Reply>)
    requires Prefix(tree, indices, hidden, list) && |after.nodes| >= |tree.nodes| && KeepsNodes(tree, slot, after)
    ensures Prefix(after, indices, hidden, list)
  {
  }

  /** What node `i` has attached and hidden is what it should have. */
  ghost predicate NodeFiled(t: Thread, tree: Tree, i: nat)
    requires i < |tree.nodes|
  {
    Prefix(tree, tree.nodes[i].children, tree.nodes[i].hiddenChildren, At(t.children, tree.nodes[i].event.id))
  }

  ghost predicate RootFiled(t: Thread, tree: Tree)
  {
    Prefix(tree, tree.roots, tree.hiddenRoots, At(t.children, t.root))
  }

  lemma NodeStaysFiled(t: Thread, tree: Tree, slot: Slot, m: nat, after: Tree, i: nat)
    requires slot.owner.Some? ==> slot.owner.value < |tree.nodes|
    requires Files(t, tree, slot, m, after) && i < |tree.nodes| && slot.owner != Some(i) && NodeFiled(t, tree, i)
    ensures NodeFiled(t, after, i)
  {
    assert after.nodes[i] == tree.nodes[i];
    PrefixKept(tree, slot, after, tree.nodes[i].children, tree.nodes[i].hiddenChildren, At(t.children, tree.nodes[i].event.id));
  }

  lemma NewSlotWaits(t: Thread, tree: Tree, slot: Slot, rest: seq<Slot>, m: nat, more: seq<Slot>, i: nat)
    requires Opens(t, tree, slot, m, more) && |tree.nodes| <= i < |tree.nodes| + m
    ensures IsOwner(rest + more, Some(i))
  {
    assert (rest + more)[|rest| + (i - |tree.nodes|)].owner == Some(i);
  }

  lemma OtherStaysFiled(t: Thread, tree: Tree, slots: seq<Slot>, m: nat, after: Tree, more: seq<Slot>, i: nat)
    requires slots != [] && Waiting(t, tree, slots[0]) && OthersFiled(t, tree, slots)
    requires Files(t, tree, slots[0], m, after)
    requires i < |tree.nodes| && !IsOwner(slots[1..] + more, Some(i))
    ensures NodeFiled(t, after, i)
  {
    SlotIsFiled(t, tree, slots[0], m, after);
    if slots[0].owner != Some(i) {
      NotWaiting(slots, more, Some(i));
      NodeStaysFiled(t, tree, slots[0], m, after, i);
    }
  }

  lemma RootStaysFiled(t: Thread, tree: Tree, slots: seq<Slot>, m: nat, after: Tree, more: seq<Slot>)
    requires slots != [] && Waiting(t, tree, slots[0]) && OthersFiled(t, tree, slots)
    requires Files(t, tree, slots[0], m, after) && !IsOwner(slots[1..] + more, None)
    ensures RootFiled(t, after)
  {
    SlotIsFiled(t, tree, slots[0], m, after);
    if slots[0].owner.Some? {
      NotWaiting(slots, more, None);
      PrefixKept(tree, slots[0], after, tree.roots, tree.hiddenRoots, At(t.children, t.root));
    }
  }

  lemma OthersStayFiled(t: Thread, tree: Tree, slots: seq<Slot>, m: nat, after: Tree, more: seq<Slot>)
    requires slots != [] && Waiting(t, tree, slots[0]) && OthersFiled(t, tree, slots)
    requires Files(t, tree, slots[0], m, after) && Opens(t, tree, slots[0], m, more)
    ensures OthersFiled(t, after, slots[1..] + more)
  {
    assert |after.nodes| == |tree.nodes| + m;
    forall i: nat | i < |after.nodes| && !IsOwner(slots[1..] + more, Some(i)) ensures NodeFiled(t, after, i) {
      if i >= |tree.nodes| {
        NewSlotWaits(t, tree, slots[0], slots[1..], m, more, i);
      } else {
        OtherStaysFiled(t, tree, slots, m, after, more, i);
      }
    }
    if !IsOwner(slots[1..] + more, None) {
      RootStaysFiled(t, tree, slots, m, after, more);
    }
  }

  lemma NotWaiting(slots: seq<Slot>, more: seq<Slot>, owner: Option<nat>)
    requires slots != [] && !IsOwner(slots[1..] + more, owner) && slots[0].owner != owner
    ensures !IsOwner(slots, owner)
  {
    forall i | 0 <= i < |slots| ensures slots[i].owner != owner {
      assert i > 0 ==> slots[i] == (slots[1..] + more)[i - 1];
    }
  }

  /** A slot's replies split into those placed and those skipped; together they are all that hangs below its key. */
  lemma ListSplits(t: Thread, slot: Slot, list: seq<Reply>, m: nat)
    requires t.Valid() && slot.depth >= 1 && Climbs(t.parents, slot.key, t.root, slot.depth - 1)
    requires list == At(t.children, slot.key) && m <= |list|
    ensures |Below(t.parents, slot.key)| == Weight(t.parents, Ids(list[..m])) + Weight(t.parents, Ids(list[m..]))
  {
    DescendantOffCycle(t.parents, slot.key, t.root, slot.depth - 1);
    assert ListsChildren(t.parents, slot.key, Ids(list));
    BelowIsWeight(t.parents, slot.key, Ids(list));
    assert Ids(list) == Ids(list[..m]) + Ids(list[m..]);
    WeightConcat(t.parents, Ids(list[..m]), Ids(list[m..]));
  }

  lemma HeadWeight(p: Parents, slots: seq<Slot>)
    requires slots != []
    ensures Weight(p, Keys(slots)) == 1 + |Below(p, slots[0].key)| + Weight(p, Keys(slots[1..]))
  {
    var key := slots[0].key;
    assert Keys(slots) == [key] + Keys(slots[1..]);
    WeightConcat(p, [key], Keys(slots[1..]));
    assert [key] == [] + [key];
    WeightAppend(p, [], key);
  }

  lemma TailWeight(t: Thread, tree: Tree, slot: Slot, rest: seq<Slot>, m: nat, more: seq<Slot>)
    requires Opens(t, tree, slot, m, more)
    ensures Weight(t.parents, Keys(rest + more)) == Weight(t.parents, Keys(rest)) + Weight(t.parents, Ids(At(t.children, slot.key)[..m]))
  {
    assert Keys(rest + more) == Keys(rest) + Ids(At(t.children, slot.key)[..m]);
    WeightConcat(t.parents, Keys(rest), Ids(At(t.children, slot.key)[..m]));
  }

  lemma StaysBalanced(t: Thread, tree: Tree, slots: seq<Slot>, m: nat, after: Tree, more: seq<Slot>)
    requires t.Valid() && slots != [] && Balanced(t, tree, slots) && Waiting(t, tree, slots[0])
    requires Files(t, tree, slots[0], m, after) && Opens(t, tree, slots[0], m, more)
    requires after.hidden == tree.hidden + Weight(t.parents, Ids(At(t.children, slots[0].key)[m..]))
    ensures Balanced(t, after, slots[1..] + more)
  {
    ListSplits(t, slots[0], At(t.children, slots[0].key), m);
    HeadWeight(t.parents, slots);
    TailWeight(t, tree, slots[0], slots[1..], m, more);
  }

  /** Filing a waiting slot keeps what holds of the nodes. */
  lemma FilingKeepsPlaced(t: Thread, tree: Tree, slot: Slot, m: nat, after: Tree)
    requires t.Valid() && Placed(t, tree) && Waiting(t, tree, slot)
    requires Files(t, tree, slot, m, after) && tree.total + m <= t.maxNodes
    requires m > 0 ==> slot.depth <= t.maxDepth
    ensures Placed(t, after)
  {
    NodesStaySound(t, tree, slot, m, after);
    NodesStayDistinct(t, tree, slot, m, after);
    StillAttached(t, tree, slot, m, after);
  }

  /** Filing the first waiting slot keeps what holds of the slots. */
  lemma FilingKeepsPending(t: Thread, tree: Tree, slots: seq<Slot>, m: nat, after: Tree, more: seq<Slot>)
    requires t.Valid() && slots != [] && Pending(t, tree, slots) && Waiting(t, tree, slots[0])
    requires Files(t, tree, slots[0], m, after) && Opens(t, tree, slots[0], m, more)
    requires after.hidden == tree.hidden + Weight(t.parents, Ids(At(t.children, slots[0].key)[m..]))
    ensures Pending(t, after, slots[1..] + more)
  {
    OthersStillWait(t, tree, slots, m, after, more);
    OthersStayFiled(t, tree, slots, m, after, more);
    StaysBalanced(t, tree, slots, m, after, more);
  }
}
