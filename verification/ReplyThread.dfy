/** Building the whole thread: the index, the breadth-first growth, and what the result guarantees. */
module ReplyThread {
  import opened Events
  import opened ReplyGraph
  import opened ReplyTree
  import opened ReplyBuild
  import opened ReplyTheorems

  ghost predicate IsPlaced(tree: Tree, x: string)
  {
    exists i | 0 <= i < |tree.nodes| :: tree.nodes[i].event.id == x
  }

  ghost predicate NoneDeeper(tree: Tree, n: nat)
  {
    forall i | 0 <= i < |tree.nodes| :: tree.nodes[i].depth <= n
  }

  /** A slot still to be filed leads to `x`. */
  ghost predicate Leads(p: Parents, slots: seq<Slot>, x: string)
  {
    exists i | 0 <= i < |slots| :: HangsBelow(p, x, slots[i].key)
  }

  /** The node cap is spent, and on nothing deeper than `n`. */
  ghost predicate Spent(t: Thread, tree: Tree, n: nat)
  {
    tree.total == t.maxNodes && NoneDeeper(tree, n)
  }

  ghost predicate Accounted(t: Thread, tree: Tree, slots: seq<Slot>, x: string, n: nat)
  {
    IsPlaced(tree, x) || Leads(t.parents, slots, x) || Spent(t, tree, n)
  }

  /** Every connected reply within the depth cap is placed, still to come, or behind shallower ones. */
  ghost predicate ShallowFirst(t: Thread, tree: Tree, slots: seq<Slot>)
  {
    forall x, n: nat | x in t.parents && 1 <= n <= t.maxDepth && Climbs(t.parents, x, t.root, n) ::
      Accounted(t, tree, slots, x, n)
  }

  /** The queue of a breadth-first walk: one level, then the next. */
  ghost predicate Level(slots: seq<Slot>, depth: nat)
  {
    forall i | 0 <= i < |slots| :: slots[i].depth == depth
  }

  lemma PlacedStays(tree: Tree, slot: Slot, after: Tree, x: string)
    requires |after.nodes| >= |tree.nodes| && KeepsNodes(tree, slot, after) && IsPlaced(tree, x)
    ensures IsPlaced(after, x)
  {
    var i :| 0 <= i < |tree.nodes| && tree.nodes[i].event.id == x;
    assert after.nodes[i].event == tree.nodes[i].event;
  }

  lemma LeadsBeyond(p: Parents, slots: seq<Slot>, more: seq<Slot>, x: string)
    requires slots != [] && Leads(p, slots, x) && !HangsBelow(p, x, slots[0].key)
    ensures Leads(p, slots[1..] + more, x)
  {
    var i :| 0 <= i < |slots| && HangsBelow(p, x, slots[i].key);
    assert (slots[1..] + more)[i - 1] == slots[i];
  }

  lemma NoneDeeperStays(t: Thread, tree: Tree, slot: Slot, m: nat, after: Tree, n: nat)
    requires slot.owner.Some? ==> slot.owner.value < |tree.nodes|
    requires Files(t, tree, slot, m, after) && NoneDeeper(tree, n) && slot.depth <= n
    ensures NoneDeeper(after, n)
  {
  }

  lemma SpentStays(t: Thread, tree: Tree, slot: Slot, m: nat, after: Tree, n: nat)
    requires slot.owner.Some? ==> slot.owner.value < |tree.nodes|
    requires Files(t, tree, slot, m, after) && Spent(t, tree, n)
    requires m == Placeable(tree.total, slot.depth, |At(t.children, slot.key)|, t)
    ensures Spent(t, after, n)
  {
    assert m == 0;
  }

  /** The child of `key` that `x` climbs through, and how far down `x` is. */
  lemma ThroughChild(t: Thread, slot: Slot, x: string, n: nat) returns (j: nat)
    requires t.Valid() && slot.depth >= 1 && Climbs(t.parents, slot.key, t.root, slot.depth - 1)
    requires Climbs(t.parents, x, t.root, n) && HangsBelow(t.parents, x, slot.key)
    ensures j < |At(t.children, slot.key)| && slot.depth <= n
    ensures x == At(t.children, slot.key)[j].id || HangsBelow(t.parents, x, At(t.children, slot.key)[j].id)
  {
    var k: nat :| k > 0 && Climbs(t.parents, x, slot.key, k);
    ClimbsOn(t.parents, x, slot.key, t.root, k, slot.depth - 1);
    DepthIsUnique(t.parents, x, t.root, n, k + slot.depth - 1);
    var c := LastStep(t.parents, x, slot.key, k);
    ListedChildren(t, slot.key);
    assert c in Ids(At(t.children, slot.key));
    j :| 0 <= j < |At(t.children, slot.key)| && Ids(At(t.children, slot.key))[j] == c;
  }

  lemma FirstChildPlaced(t: Thread, tree: Tree, slot: Slot, m: nat, after: Tree, j: nat)
    requires slot.owner.Some? ==> slot.owner.value < |tree.nodes|
    requires Files(t, tree, slot, m, after) && j < m
    ensures IsPlaced(after, At(t.children, slot.key)[j].id)
  {
    assert after.nodes[|tree.nodes| + j] == Node(At(t.children, slot.key)[j], slot.depth, [], 0);
  }

  lemma NewSlotLeads(t: Thread, tree: Tree, slot: Slot, rest: seq<Slot>, m: nat, more: seq<Slot>, j: nat, x: string)
    requires Opens(t, tree, slot, m, more) && j < m && HangsBelow(t.parents, x, At(t.children, slot.key)[j].id)
    ensures Leads(t.parents, rest + more, x)
  {
    assert (rest + more)[|rest| + j] == more[j];
  }

  /** A reply below the slot being filed is placed, led to by a new slot, or behind the spent cap. */
  lemma BelowFiled(t: Thread, tree: Tree, slots: seq<Slot>, m: nat, after: Tree, more: seq<Slot>, x: string, n: nat)
    requires t.Valid() && slots != [] && Waiting(t, tree, slots[0]) && NoneDeeper(tree, slots[0].depth)
    requires Files(t, tree, slots[0], m, after) && Opens(t, tree, slots[0], m, more)
    requires m == Placeable(tree.total, slots[0].depth, |At(t.children, slots[0].key)|, t)
    requires n <= t.maxDepth && Climbs(t.parents, x, t.root, n) && HangsBelow(t.parents, x, slots[0].key)
    requires tree.total <= t.maxNodes
    ensures Accounted(t, after, slots[1..] + more, x, n)
  {
    var j := ThroughChild(t, slots[0], x, n);
    if j < m {
      FirstChildPlaced(t, tree, slots[0], m, after, j);
      if x != At(t.children, slots[0].key)[j].id {
        NewSlotLeads(t, tree, slots[0], slots[1..], m, more, j, x);
      }
    } else {
      NoneDeeperStays(t, tree, slots[0], m, after, slots[0].depth);
    }
  }

  lemma StaysAccounted(t: Thread, tree: Tree, slots: seq<Slot>, m: nat, after: Tree, more: seq<Slot>, x: string, n: nat)
    requires t.Valid() && slots != [] && Waiting(t, tree, slots[0]) && NoneDeeper(tree, slots[0].depth)
    requires Files(t, tree, slots[0], m, after) && Opens(t, tree, slots[0], m, more)
    requires m == Placeable(tree.total, slots[0].depth, |At(t.children, slots[0].key)|, t)
    requires n <= t.maxDepth && Climbs(t.parents, x, t.root, n) && Accounted(t, tree, slots, x, n)
    requires tree.total <= t.maxNodes
    ensures Accounted(t, after, slots[1..] + more, x, n)
  {
    if IsPlaced(tree, x) {
      PlacedStays(tree, slots[0], after, x);
    } else if Spent(t, tree, n) {
      SpentStays(t, tree, slots[0], m, after, n);
    } else if HangsBelow(t.parents, x, slots[0].key) {
      BelowFiled(t, tree, slots, m, after, more, x, n);
    } else {
      LeadsBeyond(t.parents, slots, more, x);
    }
  }

  lemma StaysShallowFirst(t: Thread, tree: Tree, slots: seq<Slot>, m: nat, after: Tree, more: seq<Slot>)
    requires t.Valid() && slots != [] && Waiting(t, tree, slots[0]) && NoneDeeper(tree, slots[0].depth)
    requires Files(t, tree, slots[0], m, after) && Opens(t, tree, slots[0], m, more)
    requires m == Placeable(tree.total, slots[0].depth, |At(t.children, slots[0].key)|, t)
    requires ShallowFirst(t, tree, slots) && tree.total <= t.maxNodes
    ensures ShallowFirst(t, after, slots[1..] + more)
  {
    forall x, n: nat | x in t.parents && 1 <= n <= t.maxDepth && Climbs(t.parents, x, t.root, n)
      ensures Accounted(t, after, slots[1..] + more, x, n)
    {
      StaysAccounted(t, tree, slots, m, after, more, x, n);
    }
  }

  /** What the walk keeps: `slots` are filed in order; nothing placed is deeper than the level being filed. */
  ghost predicate Growing(t: Thread, tree: Tree, slots: seq<Slot>, depth: nat)
  {
    Placed(t, tree) && Pending(t, tree, slots) && ShallowFirst(t, tree, slots) && NoneDeeper(tree, depth)
  }

  lemma {:induction false} WeightCoversList(p: Parents, keys: seq<string>)
    ensures Weight(p, keys) >= |keys|
  {
    if keys != [] {
      WeightCoversList(p, keys[..|keys| - 1]);
    }
  }

  lemma WithinBelow(t: Thread, tree: Tree, slots: seq<Slot>)
    requires Balanced(t, tree, slots)
    ensures tree.total <= |Below(t.parents, t.root)|
  {
    WeightCoversList(t.parents, Keys(slots));
  }

  /** One turn of the inner loop. */
  lemma Turn(t: Thread, tree: Tree, slots: seq<Slot>, m: nat, after: Tree, more: seq<Slot>)
    requires t.Valid() && slots != [] && Waiting(t, tree, slots[0]) && Growing(t, tree, slots, slots[0].depth)
    requires Files(t, tree, slots[0], m, after) && Opens(t, tree, slots[0], m, more)
    requires m == Placeable(tree.total, slots[0].depth, |At(t.children, slots[0].key)|, t)
    requires after.hidden == tree.hidden + Weight(t.parents, Ids(At(t.children, slots[0].key)[m..]))
    ensures Growing(t, after, slots[1..] + more, slots[0].depth)
  {
    FilingKeepsPlaced(t, tree, slots[0], m, after);
    FilingKeepsPending(t, tree, slots, m, after, more);
    StaysShallowFirst(t, tree, slots, m, after, more);
    NoneDeeperStays(t, tree, slots[0], m, after, slots[0].depth);
  }

  lemma WaitingFacts(t: Thread, tree: Tree, slots: seq<Slot>, i: nat)
    requires t.Valid() && Pending(t, tree, slots) && i < |slots|
    ensures Waiting(t, tree, slots[i]) && !OnCycle(t.parents, slots[i].key)
  {
    assert Waiting(t, tree, slots[i]);
    DescendantOffCycle(t.parents, slots[i].key, t.root, slots[i].depth - 1);
  }

  lemma Started(t: Thread)
    requires t.Valid()
    ensures Growing(t, Tree([], [], 0, 0, 0), [Slot(t.root, 1, None)], 0)
  {
    var tree, slots := Tree([], [], 0, 0, 0), [Slot(t.root, 1, None)];
    assert slots[0].owner == None;
    assert Climbs(t.parents, t.root, t.root, 0);
    assert Waiting(t, tree, slots[0]);
    assert Keys(slots) == [] + [t.root];
    WeightAppend(t.parents, [], t.root);
    assert IsOwner(slots, None);
    forall x, n: nat | x in t.parents && 1 <= n <= t.maxDepth && Climbs(t.parents, x, t.root, n)
      ensures Leads(t.parents, slots, x)
    {
      assert HangsBelow(t.parents, x, slots[0].key);
    }
  }

  /** The walk's next slot filed. */
  method FileNext(t: Thread, tree: Tree, slot: Slot, ghost slots: seq<Slot>) returns (after: Tree, more: seq<Slot>, ghost left: seq<Slot>)
    requires t.Valid() && slots != [] && slots[0] == slot && Growing(t, tree, slots, slot.depth)
    ensures Growing(t, after, left, slot.depth) && left == slots[1..] + more && Level(more, slot.depth + 1)
    ensures after.total == tree.total + |more|
  {
    WaitingFacts(t, tree, slots, 0);
    var placed;
    after, more, placed := FileSlot(t, tree, slot);
    Turn(t, tree, slots, placed, after, more);
    left := slots[1..] + more;
  }

  lemma Queued(slots: seq<Slot>, frontier: seq<Slot>, i: nat, next: seq<Slot>, more: seq<Slot>)
    requires i < |frontier| && slots == frontier[i..] + next
    ensures slots[1..] + more == frontier[i + 1..] + (next + more)
  {
  }

  /** One level: every slot of the frontier filed, their children collected for the next. */
  method GrowLevel(t: Thread, before: Tree, frontier: seq<Slot>, ghost depth: nat) returns (tree: Tree, next: seq<Slot>)
    requires t.Valid() && Growing(t, before, frontier, depth) && Level(frontier, depth)
    ensures Growing(t, tree, next, depth) && Level(next, depth + 1)
    ensures tree.total == before.total + |next|
  {
    tree, next := before, [];
    ghost var slots := frontier;
    for i := 0 to |frontier|
      invariant slots == frontier[i..] + next && Growing(t, tree, slots, depth)
      invariant Level(next, depth + 1) && tree.total == before.total + |next|
    {
      var more;
      ghost var left;
      tree, more, left := FileNext(t, tree, frontier[i], slots);
      Queued(slots, frontier, i, next, more);
      slots, next := left, next + more;
    }
    assert slots == next;
  }

  /** The whole breadth-first walk. */
  method Grow(t: Thread) returns (tree: Tree)
    requires t.Valid()
    ensures Placed(t, tree) && Pending(t, tree, []) && ShallowFirst(t, tree, [])
  {
    tree := Tree([], [], 0, 0, 0);
    var frontier := [Slot(t.root, 1, None)];
    Started(t);
    ghost var depth := 1;
    while frontier != []
      invariant Growing(t, tree, frontier, depth) && Level(frontier, depth)
      decreases |Below(t.parents, t.root)| - tree.total, |frontier|
    {
      WithinBelow(t, tree, frontier);
      var next;
      tree, next := GrowLevel(t, tree, frontier, depth);
      WithinBelow(t, tree, next);
      frontier := next;
      depth := depth + 1;
    }
  }
}
