/** Parent pointers written by strangers: chains, cycles, and what hangs below a key. */
module ReplyGraph {
  import opened Order

  /** Each reply id's parent key; a key need not be a reply. */
  type Parents = map<string, string>

  /** Following `n` parent pointers from `x` arrives at `k`. */
  predicate Climbs(p: Parents, x: string, k: string, n: nat)
    decreases n
  {
    if n == 0 then x == k else x in p && Climbs(p, p[x], k, n - 1)
  }

  ghost predicate OnCycle(p: Parents, k: string)
  {
    exists n: nat :: n > 0 && Climbs(p, k, k, n)
  }

  ghost predicate HangsBelow(p: Parents, x: string, k: string)
  {
    exists n: nat :: n > 0 && Climbs(p, x, k, n)
  }

  /** Everything whose chain of parents passes through `k`. */
  ghost function Below(p: Parents, k: string): set<string>
  {
    set x | x in p && HangsBelow(p, x, k)
  }

  lemma {:induction false} ClimbsOn(p: Parents, x: string, y: string, z: string, m: nat, n: nat)
    requires Climbs(p, x, y, m) && Climbs(p, y, z, n)
    ensures Climbs(p, x, z, m + n)
    decreases m
  {
    if m > 0 {
      ClimbsOn(p, p[x], y, z, m - 1, n);
    }
  }

  /** Chains are deterministic: the longer climb passes through the shorter one's end. */
  lemma {:induction false} ClimbsThrough(p: Parents, x: string, y: string, z: string, m: nat, n: nat)
    requires Climbs(p, x, y, m) && Climbs(p, x, z, n) && m <= n
    ensures Climbs(p, y, z, n - m)
    decreases m
  {
    if m > 0 {
      ClimbsThrough(p, p[x], y, z, m - 1, n - 1);
    }
  }

  /** The last step of a climb to `k` goes through a child of `k`. */
  lemma {:induction false} LastStep(p: Parents, x: string, k: string, n: nat) returns (c: string)
    requires n > 0 && Climbs(p, x, k, n)
    ensures c in p && p[c] == k && Climbs(p, x, c, n - 1)
    decreases n
  {
    if n == 1 {
      c := x;
    } else {
      c := LastStep(p, p[x], k, n - 1);
    }
  }

  lemma ChildIsBelow(p: Parents, c: string)
    requires c in p
    ensures HangsBelow(p, c, p[c])
  {
    assert Climbs(p, c, p[c], 1);
  }

  lemma CycleOfParent(p: Parents, c: string, n: nat)
    requires n > 0 && Climbs(p, c, c, n)
    ensures Climbs(p, p[c], p[c], n)
  {
    assert Climbs(p, c, p[c], 1);
    ClimbsOn(p, c, c, p[c], n, 1);
  }

  /** A child of a key off every cycle is off every cycle. */
  lemma ChildOffCycle(p: Parents, c: string)
    requires c in p && !OnCycle(p, p[c])
    ensures !OnCycle(p, c)
  {
    forall n: nat | n > 0 ensures !Climbs(p, c, c, n) {
      if Climbs(p, c, c, n) {
        CycleOfParent(p, c, n);
      }
    }
  }

  /** Whatever climbs to a key off every cycle is itself off every cycle. */
  lemma {:induction false} DescendantOffCycle(p: Parents, x: string, k: string, n: nat)
    requires Climbs(p, x, k, n) && !OnCycle(p, k)
    ensures !OnCycle(p, x)
    decreases n
  {
    if n > 0 {
      DescendantOffCycle(p, p[x], k, n - 1);
      ChildOffCycle(p, x);
    }
  }

  /** A climb to a key off every cycle has one length. */
  lemma DepthIsUnique(p: Parents, x: string, k: string, m: nat, n: nat)
    requires Climbs(p, x, k, m) && Climbs(p, x, k, n) && !OnCycle(p, k)
    ensures m == n
  {
    if m < n {
      ClimbsThrough(p, x, k, k, m, n);
    }
    if n < m {
      ClimbsThrough(p, x, k, k, n, m);
    }
  }

  /** A child and what hangs below it. */
  ghost function Branch(p: Parents, c: string): set<string>
  {
    {c} + Below(p, c)
  }

  lemma BranchIsBelow(p: Parents, c: string, k: string)
    requires c in p && p[c] == k
    ensures Branch(p, c) <= Below(p, k)
  {
    ChildIsBelow(p, c);
    forall x | x in Below(p, c) ensures x in Below(p, k) {
      var n: nat :| n > 0 && Climbs(p, x, c, n);
      ClimbsOn(p, x, c, k, n, 1);
    }
  }

  /** Branches of different children of one key do not meet, unless the key is on a cycle. */
  lemma BranchesDisjoint(p: Parents, c: string, d: string, k: string)
    requires c in p && d in p && p[c] == k && p[d] == k && c != d && !OnCycle(p, k)
    ensures Branch(p, c) !! Branch(p, d)
  {
    forall x | x in Branch(p, c) && x in Branch(p, d) ensures false {
      var m: nat :| Climbs(p, x, c, m);
      var n: nat :| Climbs(p, x, d, n);
      MeetingPoint(p, x, c, d, k, m, n);
    }
  }

  lemma MeetingPoint(p: Parents, x: string, c: string, d: string, k: string, m: nat, n: nat)
    requires c in p && d in p && p[c] == k && p[d] == k && !OnCycle(p, k)
    requires Climbs(p, x, c, m) && Climbs(p, x, d, n)
    ensures c == d
  {
    assert Climbs(p, c, k, 1) && Climbs(p, d, k, 1);
    ClimbsOn(p, x, c, k, m, 1);
    ClimbsOn(p, x, d, k, n, 1);
    DepthIsUnique(p, x, k, m + 1, n + 1);
    ClimbsThrough(p, x, c, d, m, n);
  }

  /** All branches of a list of children. */
  ghost function Branches(p: Parents, children: seq<string>): set<string>
  {
    if children == [] then {} else Branches(p, children[..|children| - 1]) + Branch(p, children[|children| - 1])
  }

  /** How many replies a list of children accounts for, subtrees and all. */
  ghost function Weight(p: Parents, children: seq<string>): nat
  {
    if children == [] then 0
    else Weight(p, children[..|children| - 1]) + 1 + |Below(p, children[|children| - 1])|
  }

  /** The list names exactly the replies whose parent is `k`, once each. */
  ghost predicate ListsChildren(p: Parents, k: string, children: seq<string>)
  {
    NoDuplicates(children) && forall c :: c in children <==> c in p && p[c] == k
  }

  lemma {:induction false} InBranches(p: Parents, children: seq<string>, x: string)
    ensures x in Branches(p, children) <==> exists c | c in children :: x in Branch(p, c)
  {
    if children != [] {
      var n := |children| - 1;
      InBranches(p, children[..n], x);
      assert children == children[..n] + [children[n]];
      assert forall c :: c in children <==> c in children[..n] || c == children[n];
    }
  }

  ghost predicate Siblings(p: Parents, k: string, children: seq<string>)
  {
    NoDuplicates(children) && forall c | c in children :: c in p && p[c] == k
  }

  lemma {:induction false} WeightIsSize(p: Parents, k: string, children: seq<string>)
    requires Siblings(p, k, children) && !OnCycle(p, k)
    ensures |Branches(p, children)| == Weight(p, children)
  {
    if children != [] {
      var n := |children| - 1;
      var last := children[n];
      assert children[..n] <= children && forall c | c in children[..n] :: c in children;
      assert Siblings(p, k, children[..n]);
      WeightIsSize(p, k, children[..n]);
      LastIsApart(p, k, children[..n], last);
      NotBelowItself(p, last, k);
    }
  }

  lemma NotBelowItself(p: Parents, c: string, k: string)
    requires c in p && p[c] == k && !OnCycle(p, k)
    ensures c !in Below(p, c) && |Branch(p, c)| == 1 + |Below(p, c)|
  {
    ChildOffCycle(p, c);
    assert !HangsBelow(p, c, c);
  }

  lemma LastIsApart(p: Parents, k: string, others: seq<string>, last: string)
    requires Siblings(p, k, others) && !OnCycle(p, k) && last in p && p[last] == k && last !in others
    ensures Branches(p, others) !! Branch(p, last)
  {
    forall x | x in Branches(p, others) && x in Branch(p, last) ensures false {
      InBranches(p, others, x);
      var c :| c in others && x in Branch(p, c);
      BranchesDisjoint(p, c, last, k);
    }
  }

  /** What hangs below a key is its children and what hangs below them, counted once. */
  lemma BelowIsWeight(p: Parents, k: string, children: seq<string>)
    requires ListsChildren(p, k, children) && !OnCycle(p, k)
    ensures |Below(p, k)| == Weight(p, children)
  {
    WeightIsSize(p, k, children);
    forall x ensures x in Below(p, k) <==> x in Branches(p, children) {
      InBranches(p, children, x);
      if x in Below(p, k) {
        var n: nat :| n > 0 && Climbs(p, x, k, n);
        var c := LastStep(p, x, k, n);
        assert x == c || HangsBelow(p, x, c);
        assert x in Branch(p, c);
      }
      if exists c | c in children :: x in Branch(p, c) {
        var c :| c in children && x in Branch(p, c);
        BranchIsBelow(p, c, k);
      }
    }
    assert Below(p, k) == Branches(p, children);
  }

  lemma {:induction false} WeightAppend(p: Parents, xs: seq<string>, c: string)
    ensures Weight(p, xs + [c]) == Weight(p, xs) + 1 + |Below(p, c)|
  {
    assert (xs + [c])[..|xs|] == xs;
  }

  lemma {:induction false} WeightConcat(p: Parents, xs: seq<string>, ys: seq<string>)
    ensures Weight(p, xs + ys) == Weight(p, xs) + Weight(p, ys)
  {
    if ys == [] {
      assert xs + ys == xs;
    } else {
      var n := |ys| - 1;
      WeightConcat(p, xs, ys[..n]);
      WeightAppend(p, xs + ys[..n], ys[n]);
      assert xs + ys == xs + ys[..n] + [ys[n]];
    }
  }
}
