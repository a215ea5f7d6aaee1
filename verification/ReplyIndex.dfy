/** The reply tree's index: the replies at hand by id, and under each key the replies that
    name it as parent, oldest first. */
module ReplyIndex {
  import opened Order
  import opened Events
  import opened ReplyGraph
  import opened ReplyTree

  /** The replies hanging directly under a key. */
  ghost function Under(kept: map<string, Reply>, p: Parents, key: string): set<Reply>
  {
    set c | c in p && p[c] == key && c in kept :: kept[c]
  }

  ghost predicate OwnIds(kept: map<string, Reply>)
  {
    forall id | id in kept :: kept[id].id == id
  }

  lemma OlderFirstIsStrict(s: set<Reply>)
    requires forall a, b | a in s && b in s && a.id == b.id :: a == b
    ensures StrictOrderOn(OlderFirst, s)
  {
    forall x ensures !OlderFirst(x, x) {
      StrLessIrreflexive(x.id);
    }
    forall x, y | x in s && y in s && x != y ensures OlderFirst(x, y) || OlderFirst(y, x) {
      StrLessTotal(x.id, y.id);
    }
    forall x, y, z | OlderFirst(x, y) && OlderFirst(y, z) ensures OlderFirst(x, z) {
      if x.createdAt == y.createdAt == z.createdAt {
        StrLessTransitive(x.id, y.id, z.id);
      }
    }
  }

  lemma UnderIsStrict(kept: map<string, Reply>, p: Parents, key: string)
    requires OwnIds(kept)
    ensures StrictOrderOn(OlderFirst, Under(kept, p, key))
  {
    OlderFirstIsStrict(Under(kept, p, key));
  }

  /** What the list under a key should be: its replies, oldest first. */
  ghost function OldestFirst(kept: map<string, Reply>, p: Parents, key: string): seq<Reply>
    requires OwnIds(kept)
  {
    UnderIsStrict(kept, p, key);
    SortSet(OlderFirst, Under(kept, p, key))
  }

  lemma {:induction false} InsertSorted(e: Reply, q: seq<Reply>)
    requires StrictOrderOn(OlderFirst, Elements(q) + {e}) && e !in q && Sorted(OlderFirst, q)
    ensures Sorted(OlderFirst, Insert(e, q))
  {
    if q != [] && OlderFirst(q[0], e) {
      assert Elements(q[1..]) <= Elements(q);
      InsertSorted(e, q[1..]);
      HeadStays(e, q, Insert(e, q[1..]));
    } else if q != [] {
      forall j | 0 <= j < |q| ensures OlderFirst(e, q[j]) {
        assert q[0] in Elements(q) && q[j] in Elements(q);
        if j > 0 {
          Transitive(OlderFirst, Elements(q) + {e}, e, q[0], q[j]);
        }
      }
    }
  }

  lemma HeadStays(e: Reply, q: seq<Reply>, tail: seq<Reply>)
    requires q != [] && OlderFirst(q[0], e) && Sorted(OlderFirst, q)
    requires Sorted(OlderFirst, tail) && Elements(tail) == Elements(q[1..]) + {e}
    ensures Sorted(OlderFirst, [q[0]] + tail)
  {
    forall j | 0 <= j < |tail| ensures OlderFirst(q[0], tail[j]) {
      assert tail[j] in Elements(tail);
      if tail[j] != e {
        assert tail[j] in q[1..];
      }
    }
  }

  /** Sorting distinct replies sorts them. */
  lemma {:induction false} SortSorts(q: seq<Reply>)
    requires StrictOrderOn(OlderFirst, Elements(q)) && NoDuplicates(q)
    ensures Sorted(OlderFirst, SortOlderFirst(q))
  {
    if q != [] {
      assert q == [q[0]] + q[1..];
      assert Elements(q) == Elements(q[1..]) + {q[0]};
      SortSorts(q[1..]);
      assert q[0] !in q[1..];
      assert q[0] !in Elements(SortOlderFirst(q[1..]));
      InsertSorted(q[0], SortOlderFirst(q[1..]));
    }
  }

  /** The replies of a delivery in the order their ids first appear. */
  method CollectReplies(events: seq<Reply>, target: Match) returns (byId: map<string, Reply>, values: seq<Reply>)
    ensures byId == Kept(events, target)
    ensures NoDuplicates(values) && Elements(values) == byId.Values
  {
    byId, values := map[], [];
    for i := 0 to |events|
      invariant byId == Kept(events[..i], target)
      invariant NoDuplicates(values) && Elements(values) == byId.Values
    {
      assert events[..i + 1][..i] == events[..i];
      if IsReplyEvent(events[i], target) && events[i].id !in byId {
        ghost var before := byId;
        assert events[i] !in byId.Values;
        byId := byId[events[i].id := events[i]];
        values := values + [events[i]];
        AddedValue(before, events[i].id, events[i]);
      }
    }
    assert events[..|events|] == events;
  }

  lemma AddedValue(m: map<string, Reply>, k: string, v: Reply)
    requires k !in m
    ensures m[k := v].Values == m.Values + {v}
  {
    assert forall x | x in m.Values :: exists j :: j in m && m[j] == x && m[k := v][j] == x;
    assert m[k := v][k] == v;
  }

  /** The replies among the first `done` of a list that hang under a key. */
  ghost predicate Groups(children: Children, done: seq<Reply>, p: Parents)
  {
    forall key :: NoDuplicates(At(children, key))
      && forall e :: e in At(children, key) <==> e in done && e.id in p && p[e.id] == key
  }

  lemma GroupNext(children: Children, done: seq<Reply>, p: Parents, e: Reply, after: Children)
    requires Groups(children, done, p) && e !in done
    requires after == if e.id in p then children[p[e.id] := At(children, p[e.id]) + [e]] else children
    ensures Groups(after, done + [e], p)
  {
    forall key ensures NoDuplicates(At(after, key))
      && forall x :: x in At(after, key) <==> x in done + [e] && x.id in p && p[x.id] == key
    {
      assert NoDuplicates(At(children, key)) && e !in At(children, key);
    }
  }

  /** Files each reply under the key it answers. */
  method GroupByParent(values: seq<Reply>, byId: map<string, Reply>, target: Match, rootId: Option<string>)
    returns (childrenOf: Children)
    requires NoDuplicates(values) && Elements(values) == byId.Values && OwnIds(byId)
    ensures Groups(childrenOf, values, ParentsOf(byId, target, rootId))
  {
    childrenOf := map[];
    ghost var p := ParentsOf(byId, target, rootId);
    for i := 0 to |values|
      invariant Groups(childrenOf, values[..i], p)
    {
      ghost var before := childrenOf;
      assert values[i] in Elements(values);
      var key := ParentKey(values[i], target, byId.Keys, rootId);
      if key.Some? {
        if key.value in childrenOf {
          childrenOf := childrenOf[key.value := childrenOf[key.value] + [values[i]]];
        } else {
          assert [] + [values[i]] == [values[i]];
          childrenOf := childrenOf[key.value := [values[i]]];
        }
      }
      assert values[..i + 1] == values[..i] + [values[i]];
      ParentKnown(byId, values[i], target, rootId);
      assert values[i] !in values[..i];
      GroupNext(before, values[..i], p, values[i], childrenOf);
    }
    assert values[..|values|] == values;
  }

  lemma ParentKnown(byId: map<string, Reply>, e: Reply, target: Match, rootId: Option<string>)
    requires OwnIds(byId) && e in byId.Values
    ensures var key := ParentKey(e, target, byId.Keys, rootId);
            var p := ParentsOf(byId, target, rootId);
            (e.id in p <==> key.Some?) && (key.Some? ==> p[e.id] == key.value)
  {
    var id :| id in byId && byId[id] == e;
  }

  /** Each list sorted. */
  function SortAll(children: Children): Children
  {
    map key | key in children :: SortOlderFirst(children[key])
  }

  lemma GroupIsUnder(children: Children, kept: map<string, Reply>, values: seq<Reply>, p: Parents, key: string)
    requires OwnIds(kept) && Elements(values) == kept.Values && p.Keys <= kept.Keys
    requires Groups(children, values, p)
    ensures Elements(At(children, key)) == Under(kept, p, key) && NoDuplicates(At(children, key))
  {
    assert NoDuplicates(At(children, key));
    forall e ensures e in At(children, key) <==> e in Under(kept, p, key) {
      if e in At(children, key) {
        assert e in Elements(values);
        var id :| id in kept && kept[id] == e;
      }
      if e in Under(kept, p, key) {
        var c :| c in p && p[c] == key && c in kept && kept[c] == e;
        assert e in kept.Values && e in Elements(values);
      }
    }
  }

  /** The sorted groups are the oldest-first lists. */
  lemma SortedGroups(children: Children, kept: map<string, Reply>, values: seq<Reply>, p: Parents, key: string)
    requires OwnIds(kept) && Elements(values) == kept.Values && p.Keys <= kept.Keys
    requires Groups(children, values, p)
    ensures At(SortAll(children), key) == OldestFirst(kept, p, key)
  {
    GroupIsUnder(children, kept, values, p, key);
    UnderIsStrict(kept, p, key);
    SortSorts(At(children, key));
    SortedUnique(OlderFirst, SortOlderFirst(At(children, key)), OldestFirst(kept, p, key));
  }

  /** An index of oldest-first lists lists every key's children once. */
  lemma IndexedBy(children: Children, kept: map<string, Reply>, p: Parents)
    requires OwnIds(kept) && p.Keys <= kept.Keys
    requires forall key :: At(children, key) == OldestFirst(kept, p, key)
    ensures Indexes(children, p)
  {
    forall key ensures ListsChildren(p, key, Ids(At(children, key))) {
      var list := OldestFirst(kept, p, key);
      assert At(children, key) == list;
      ListedOnce(kept, p, key, list);
    }
  }

  lemma ListedOnce(kept: map<string, Reply>, p: Parents, key: string, list: seq<Reply>)
    requires OwnIds(kept) && p.Keys <= kept.Keys
    requires Elements(list) == Under(kept, p, key) && NoDuplicates(list)
    ensures ListsChildren(p, key, Ids(list))
  {
    forall i, j | 0 <= i < j < |list| ensures list[i].id != list[j].id {
      assert list[i] in Elements(list) && list[j] in Elements(list);
    }
    forall c ensures c in Ids(list) <==> c in p && p[c] == key {
      if c in Ids(list) {
        var i :| 0 <= i < |list| && Ids(list)[i] == c;
        assert list[i] in Elements(list);
      }
      if c in p && p[c] == key {
        assert kept[c] in Under(kept, p, key) && kept[c] in Elements(list);
        var i :| 0 <= i < |list| && list[i] == kept[c];
        assert Ids(list)[i] == c;
      }
    }
  }
}
