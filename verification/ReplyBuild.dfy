/** Growing the reply tree breadth-first under a depth and a node cap. Nodes live in one
    list in the order they are placed and name each other by position in it. */
module ReplyBuild {
  import opened Order
  import opened Events
  import opened ReplyGraph
  import opened ReplyTree

  datatype Node = Node(event: Reply, depth: nat, children: seq<nat>, hiddenChildren: nat)

  /** Where a level's children get attached; no owner at the top level. */
  datatype Slot = Slot(key: string, depth: nat, owner: Option<nat>)

  datatype Tree = Tree(nodes: seq<Node>, roots: seq<nat>, total: nat, hidden: nat, hiddenRoots: nat)

  /** What one tree is built from. */
  datatype Thread = Thread(parents: Parents, children: Children, root: string, maxDepth: nat, maxNodes: nat)
  {
    ghost predicate Valid()
    {
      Indexes(children, parents) && !OnCycle(parents, root)
    }
  }

  /** How many of `n` children at a depth can still be placed. */
  function Placeable(total: nat, depth: nat, n: nat, t: Thread): (m: nat)
    ensures m <= n
  {
    if depth > t.maxDepth || total >= t.maxNodes then 0
    else if n <= t.maxNodes - total then n
    else t.maxNodes - total
  }

  function Range(start: nat, n: nat): (r: seq<nat>)
    ensures |r| == n
  {
    seq(n, j requires 0 <= j < n => start + j)
  }

  function NewNodes(list: seq<Reply>, depth: nat): (r: seq<Node>)
    ensures |r| == |list|
  {
    seq(|list|, j requires 0 <= j < |list| => Node(list[j], depth, [], 0))
  }

  function NewSlots(list: seq<Reply>, depth: nat, start: nat): (r: seq<Slot>)
    ensures |r| == |list|
  {
    seq(|list|, j requires 0 <= j < |list| => Slot(list[j].id, depth, Some(start + j)))
  }

  /** The tree after `m` children of a slot are placed and `left` are charged to it. */
  function Attach(tree: Tree, slot: Slot, placed: seq<Reply>, left: nat, hiddenBelow: nat): Tree
    requires slot.owner.Some? ==> slot.owner.value < |tree.nodes|
  {
    var indices := Range(|tree.nodes|, |placed|);
    var added := NewNodes(placed, slot.depth);
    match slot.owner
    case None =>
      Tree(tree.nodes + added, tree.roots + indices, tree.total + |placed|, tree.hidden + hiddenBelow,
           tree.hiddenRoots + left)
    case Some(o) =>
      var owner := tree.nodes[o];
      var owner' := owner.(children := owner.children + indices, hiddenChildren := owner.hiddenChildren + left);
      Tree(tree.nodes[o := owner'] + added, tree.roots, tree.total + |placed|, tree.hidden + hiddenBelow,
           tree.hiddenRoots)
  }

  /** Counts what a list of skipped children costs, subtrees and all. */
  method CountSkipped(t: Thread, ghost key: string, skipped: seq<Reply>) returns (count: nat)
    requires t.Valid() && !OnCycle(t.parents, key)
    requires forall i | 0 <= i < |skipped| :: skipped[i].id in t.parents && t.parents[skipped[i].id] == key
    ensures count == Weight(t.parents, Ids(skipped))
  {
    count := 0;
    for i := 0 to |skipped|
      invariant count == Weight(t.parents, Ids(skipped[..i]))
    {
      ChildOffCycle(t.parents, skipped[i].id);
      var below := Descendants(t.children, t.parents, skipped[i].id);
      assert Ids(skipped[..i + 1]) == Ids(skipped[..i]) + [skipped[i].id];
      WeightAppend(t.parents, Ids(skipped[..i]), skipped[i].id);
      count := count + 1 + below;
    }
    assert skipped[..|skipped|] == skipped;
  }

  /** How filing a slot changes the tree: `m` of its children become nodes. */
  ghost predicate Files(t: Thread, tree: Tree, slot: Slot, m: nat, after: Tree)
    requires slot.owner.Some? ==> slot.owner.value < |tree.nodes|
  {
    var list := At(t.children, slot.key);
    && m <= |list| && |after.nodes| == |tree.nodes| + m && after.total == tree.total + m
    && KeepsNodes(tree, slot, after)
    && AddsNodes(tree, slot, list, m, after)
    && (slot.owner.None? ==>
          after.roots == tree.roots + Range(|tree.nodes|, m) && after.hiddenRoots == tree.hiddenRoots + |list| - m)
    && (slot.owner.Some? ==>
          && after.roots == tree.roots && after.hiddenRoots == tree.hiddenRoots
          && var o := slot.owner.value;
          && after.nodes[o].children == tree.nodes[o].children + Range(|tree.nodes|, m)
          && after.nodes[o].hiddenChildren == tree.nodes[o].hiddenChildren + |list| - m)
  }

  ghost predicate KeepsNodes(tree: Tree, slot: Slot, after: Tree)
    requires |after.nodes| >= |tree.nodes|
  {
    forall i | 0 <= i < |tree.nodes| ::
      && after.nodes[i].event == tree.nodes[i].event && after.nodes[i].depth == tree.nodes[i].depth
      && (slot.owner != Some(i) ==> after.nodes[i] == tree.nodes[i])
  }

  ghost predicate AddsNodes(tree: Tree, slot: Slot, list: seq<Reply>, m: nat, after: Tree)
    requires m <= |list| && |after.nodes| == |tree.nodes| + m
  {
    forall i | |tree.nodes| <= i < |after.nodes| :: after.nodes[i] == Node(list[i - |tree.nodes|], slot.depth, [], 0)
  }

  /** Each placed child opens a slot of its own, one level down. */
  ghost predicate Opens(t: Thread, tree: Tree, slot: Slot, m: nat, more: seq<Slot>)
  {
    && |more| == m <= |At(t.children, slot.key)|
    && forall j | 0 <= j < m :: more[j] == Slot(At(t.children, slot.key)[j].id, slot.depth + 1, Some(|tree.nodes| + j))
  }

  lemma AttachFiles(t: Thread, tree: Tree, slot: Slot, m: nat, below: nat, after: Tree)
    requires slot.owner.Some? ==> slot.owner.value < |tree.nodes|
    requires m <= |At(t.children, slot.key)|
    requires after == Attach(tree, slot, At(t.children, slot.key)[..m], |At(t.children, slot.key)| - m, below)
    ensures Files(t, tree, slot, m, after) && after.hidden == tree.hidden + below
  {
  }

  lemma AttachNext(tree: Tree, slot: Slot, list: seq<Reply>, i: nat)
    requires slot.owner.Some? ==> slot.owner.value < |tree.nodes|
    requires i < |list|
    ensures Attach(Attach(tree, slot, list[..i], 0, 0), slot, [list[i]], 0, 0) == Attach(tree, slot, list[..i + 1], 0, 0)
  {
    var added, last := NewNodes(list[..i], slot.depth), NewNodes([list[i]], slot.depth);
    var n := |tree.nodes|;
    assert NewNodes(list[..i + 1], slot.depth) == added + last;
    assert Range(n, i + 1) == Range(n, i) + Range(n + i, 1);
    if slot.owner.None? {
      assert tree.nodes + (added + last) == tree.nodes + added + last;
      assert tree.roots + (Range(n, i) + Range(n + i, 1)) == tree.roots + Range(n, i) + Range(n + i, 1);
    } else {
      var o := slot.owner.value;
      var own := tree.nodes[o].children;
      assert own + (Range(n, i) + Range(n + i, 1)) == own + Range(n, i) + Range(n + i, 1);
      UpdateTwice(tree.nodes, o, Attach(tree, slot, list[..i], 0, 0).nodes[o],
                  Attach(tree, slot, list[..i + 1], 0, 0).nodes[o], added, last);
    }
  }

  lemma UpdateTwice(nodes: seq<Node>, o: nat, x: Node, y: Node, added: seq<Node>, last: seq<Node>)
    requires o < |nodes|
    ensures (nodes[o := x] + added)[o := y] + last == nodes[o := y] + (added + last)
  {
  }

  lemma NextSlot(list: seq<Reply>, depth: nat, start: nat, i: nat)
    requires i < |list|
    ensures NewSlots(list[..i], depth, start) + [Slot(list[i].id, depth, Some(start + i))] == NewSlots(list[..i + 1], depth, start)
  {
  }

  lemma AttachRest(tree: Tree, slot: Slot, placed: seq<Reply>, left: nat, below: nat)
    requires slot.owner.Some? ==> slot.owner.value < |tree.nodes|
    ensures Attach(Attach(tree, slot, placed, 0, 0), slot, [], left, below) == Attach(tree, slot, placed, left, below)
    ensures Attach(tree, slot, [], 0, 0) == tree
  {
    var a := Attach(tree, slot, placed, 0, 0);
    assert NewNodes([], slot.depth) == [] && forall n: nat :: Range(n, 0) == [];
    if slot.owner.Some? {
      var o := slot.owner.value;
      assert a.nodes[o].children + [] == a.nodes[o].children;
      assert tree.nodes[o].children + [] == tree.nodes[o].children;
      assert tree.nodes[o := tree.nodes[o]] == tree.nodes;
    }
  }

  /** The slot's children placed one by one while both caps allow. */
  method PlaceChildren(t: Thread, tree: Tree, slot: Slot, list: seq<Reply>) returns (r: Tree, more: seq<Slot>, index: nat)
    requires tree.total == |tree.nodes| && (slot.owner.Some? ==> slot.owner.value < |tree.nodes|)
    ensures index == Placeable(tree.total, slot.depth, |list|, t)
    ensures r == Attach(tree, slot, list[..index], 0, 0)
    ensures more == NewSlots(list[..index], slot.depth + 1, |tree.nodes|)
  {
    r, more, index := tree, [], 0;
    ghost var m := Placeable(tree.total, slot.depth, |list|, t);
    AttachRest(tree, slot, [], 0, 0);
    if slot.depth <= t.maxDepth {
      while index < |list| && r.total < t.maxNodes
        invariant 0 <= index <= m && r.total == tree.total + index && |r.nodes| == |tree.nodes| + index
        invariant r == Attach(tree, slot, list[..index], 0, 0)
        invariant more == NewSlots(list[..index], slot.depth + 1, |tree.nodes|)
      {
        AttachNext(tree, slot, list, index);
        NextSlot(list, slot.depth + 1, |tree.nodes|, index);
        more := more + [Slot(list[index].id, slot.depth + 1, Some(|r.nodes|))];
        r := Attach(r, slot, [list[index]], 0, 0);
        index := index + 1;
      }
    }
  }

  /** Files one slot: places what both caps allow, and charges the rest. */
  method FileSlot(t: Thread, tree: Tree, slot: Slot) returns (r: Tree, more: seq<Slot>, placed: nat)
    requires t.Valid() && !OnCycle(t.parents, slot.key) && tree.total == |tree.nodes|
    requires slot.owner.Some? ==> slot.owner.value < |tree.nodes|
    ensures placed == Placeable(tree.total, slot.depth, |At(t.children, slot.key)|, t)
    ensures Files(t, tree, slot, placed, r)
    ensures r.hidden == tree.hidden + Weight(t.parents, Ids(At(t.children, slot.key)[placed..]))
    ensures Opens(t, tree, slot, placed, more)
  {
    var list := At(t.children, slot.key);
    r, more, placed := PlaceChildren(t, tree, slot, list);
    var below := SkipRest(t, slot.key, placed);
    AttachRest(tree, slot, list[..placed], |list| - placed, below);
    r := Attach(r, slot, [], |list| - placed, below);
    AttachFiles(t, tree, slot, placed, below, r);
    OpensPlaced(t, tree, slot, placed, more);
  }

  /** What skipping all but the first children of a key costs. */
  method SkipRest(t: Thread, key: string, placed: nat) returns (below: nat)
    requires t.Valid() && !OnCycle(t.parents, key) && placed <= |At(t.children, key)|
    ensures below == Weight(t.parents, Ids(At(t.children, key)[placed..]))
  {
    ListedChildren(t, key);
    below := CountSkipped(t, key, At(t.children, key)[placed..]);
  }

  lemma OpensPlaced(t: Thread, tree: Tree, slot: Slot, m: nat, more: seq<Slot>)
    requires m <= |At(t.children, slot.key)|
    requires more == NewSlots(At(t.children, slot.key)[..m], slot.depth + 1, |tree.nodes|)
    ensures Opens(t, tree, slot, m, more)
  {
  }

  lemma ListedChildren(t: Thread, key: string)
    requires t.Valid()
    ensures forall i | 0 <= i < |At(t.children, key)| ::
              At(t.children, key)[i].id in t.parents && t.parents[At(t.children, key)[i].id] == key
    ensures NoDuplicates(Ids(At(t.children, key)))
    ensures forall c | c in t.parents && t.parents[c] == key :: c in Ids(At(t.children, key))
  {
    assert ListsChildren(t.parents, key, Ids(At(t.children, key)));
    forall i | 0 <= i < |At(t.children, key)|
      ensures At(t.children, key)[i].id in t.parents && t.parents[At(t.children, key)[i].id] == key
    {
      assert Ids(At(t.children, key))[i] in Ids(At(t.children, key));
    }
  }
}
