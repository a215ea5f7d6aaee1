/** Which tags of a row the index lists, by their place in the row, and which rows a filter's tag
    conditions reach through it. */
module TagIndexLaws {
  import opened Order
  import opened Events
  import opened FilterUtils
  import opened TagIndex

  /** A tag with a single letter for a name and a value that is not empty. */
  predicate Indexable(t: seq<string>)
  {
    |t| >= 2 && |t[0]| == 1 && ('a' <= t[0][0] <= 'z' || 'A' <= t[0][0] <= 'Z') && t[1] != ""
  }

  /** The names that go first when not all can. */
  predicate GoesFirst(t: seq<string>)
  {
    Indexable(t) && t[0] in {"e", "p", "a", "t", "d", "h", "m", "q", "r"}
  }

  /** Where the row's indexable tags are that go first, or that do not. */
  function Places(tags: seq<seq<string>>, first: bool): set<nat>
  {
    set i: nat | i < |tags| && Indexable(tags[i]) && GoesFirst(tags[i]) == first
  }

  /** How many tags are listed before the tag at `i`. */
  function Rank(tags: seq<seq<string>>, i: nat): nat
    requires i < |tags| && Indexable(tags[i])
  {
    if GoesFirst(tags[i]) then |Places(tags[..i], true)|
    else |Places(tags, true)| + |Places(tags[..i], false)|
  }

  ghost predicate ListedAt(tags: seq<seq<string>>, key: string, i: nat)
  {
    i < |tags| && Indexable(tags[i]) && key == tags[i][0] + ":" + tags[i][1] && Rank(tags, i) < 100
  }

  // ---- the two halves of the index

  function Half(tags: seq<seq<string>>, first: bool): seq<string>
  {
    WithPriority(FormattedTags(tags), first)
  }

  function KeyOfTag(t: seq<string>, first: bool): seq<string>
  {
    if Indexable(t) && GoesFirst(t) == first then [t[0] + ":" + t[1]] else []
  }

  lemma {:induction false} FormattedOfBoth(p: seq<seq<string>>, q: seq<seq<string>>)
    ensures FormattedTags(p + q) == FormattedTags(p) + FormattedTags(q)
    decreases |p|
  {
    if p == [] {
      assert p + q == q;
    } else {
      assert (p + q)[1..] == p[1..] + q;
      FormattedOfBoth(p[1..], q);
    }
  }

  lemma {:induction false} PriorityOfBoth(p: seq<string>, q: seq<string>, wanted: bool)
    ensures WithPriority(p + q, wanted) == WithPriority(p, wanted) + WithPriority(q, wanted)
    decreases |p|
  {
    if p == [] {
      assert p + q == q;
    } else {
      assert (p + q)[1..] == p[1..] + q;
      PriorityOfBoth(p[1..], q, wanted);
    }
  }

  lemma FormattedAlone(t: seq<string>)
    ensures FormattedTags([t]) == if Indexable(t) then [t[0] + ":" + t[1]] else []
  {
    assert [t][1..] == [];
  }

  lemma HalfOfOne(t: seq<string>, first: bool)
    ensures Half([t], first) == KeyOfTag(t, first)
  {
    FormattedAlone(t);
    if Indexable(t) {
      var key := t[0] + ":" + t[1];
      assert key[0] == t[0][0] && t[0] == [t[0][0]];
      var keys := [key];
      assert FormattedTags([t]) == keys && keys[1..] == [];
      assert WithPriority(keys, first) == if (key[0] in PRIORITY_TAGS) == first then keys else [];
      assert GoesFirst(t) <==> key[0] in PRIORITY_TAGS;
    }
  }

  lemma HalfOfBoth(p: seq<seq<string>>, q: seq<seq<string>>, first: bool)
    ensures Half(p + q, first) == Half(p, first) + Half(q, first)
  {
    FormattedOfBoth(p, q);
    PriorityOfBoth(FormattedTags(p), FormattedTags(q), first);
  }

  lemma OneMorePlace(front: seq<seq<string>>, t: seq<string>, first: bool)
    ensures |Places(front + [t], first)| == |Places(front, first)| + |KeyOfTag(t, first)|
  {
    if Indexable(t) && GoesFirst(t) == first {
      assert Places(front + [t], first) == Places(front, first) + {|front|};
    } else {
      assert Places(front + [t], first) == Places(front, first);
    }
  }

  /** Each half lists a key for each of its places. */
  lemma {:induction false} HalfCounts(tags: seq<seq<string>>, first: bool)
    ensures |Half(tags, first)| == |Places(tags, first)|
  {
    if tags == [] {
      assert Places(tags, first) == {};
    } else {
      var front, t := tags[..|tags| - 1], tags[|tags| - 1];
      assert tags == front + [t];
      HalfCounts(front, first);
      HalfOfBoth(front, [t], first);
      HalfOfOne(t, first);
      OneMorePlace(front, t, first);
    }
  }

  lemma {:induction false} HalvesCount(tags: seq<seq<string>>)
    ensures |FormattedTags(tags)| == |Half(tags, true)| + |Half(tags, false)|
  {
    HalvesOf(FormattedTags(tags));
  }

  lemma {:induction false} HalvesOf(keys: seq<string>)
    ensures |keys| == |WithPriority(keys, true)| + |WithPriority(keys, false)|
    ensures forall key :: key in keys <==> key in WithPriority(keys, true) || key in WithPriority(keys, false)
  {
    if keys != [] {
      HalvesOf(keys[1..]);
      assert keys == [keys[0]] + keys[1..];
    }
  }

  /** The key of the tag at `i` stands in its half after those of the earlier tags. */
  lemma PlaceInHalf(tags: seq<seq<string>>, i: nat)
    requires i < |tags| && Indexable(tags[i])
    ensures var first := GoesFirst(tags[i]);
            var n := |Places(tags[..i], first)|;
            n < |Half(tags, first)| && Half(tags, first)[n] == tags[i][0] + ":" + tags[i][1]
  {
    var first := GoesFirst(tags[i]);
    HalfCounts(tags[..i], first);
    HalfOfOne(tags[i], first);
    HalfOfBoth(tags[..i], [tags[i]], first);
    HalfOfBoth(tags[..i] + [tags[i]], tags[i + 1..], first);
    assert tags == tags[..i] + [tags[i]] + tags[i + 1..];
  }

  /** Every key of a half is the key of some tag, with as many before it. */
  lemma {:induction false} HalfComesFrom(tags: seq<seq<string>>, first: bool, n: nat) returns (i: nat)
    requires n < |Half(tags, first)|
    ensures i < |tags| && Indexable(tags[i]) && GoesFirst(tags[i]) == first
    ensures |Places(tags[..i], first)| == n && Half(tags, first)[n] == tags[i][0] + ":" + tags[i][1]
  {
    var front, t := tags[..|tags| - 1], tags[|tags| - 1];
    assert tags == front + [t];
    HalfOfBoth(front, [t], first);
    HalfOfOne(t, first);
    if n < |Half(front, first)| {
      i := HalfComesFrom(front, first, n);
      assert front[..i] == tags[..i];
    } else {
      i := |front|;
      HalfCounts(front, first);
      assert tags[..i] == front;
    }
  }

  // ---- what is listed

  /** The listing whatever its length: the first hundred of the halves one after the other. */
  lemma ListingIs(tags: seq<seq<string>>, key: string)
    ensures key in GetIndexedTags(tags) <==> key in Take(Half(tags, true) + Half(tags, false), 100)
  {
    HalvesOf(FormattedTags(tags));
  }

  lemma ListedHasPlace(tags: seq<seq<string>>, key: string, n: nat)
    requires n < 100 && n < |Half(tags, true) + Half(tags, false)| && (Half(tags, true) + Half(tags, false))[n] == key
    ensures exists i: nat :: ListedAt(tags, key, i)
  {
    var p := Half(tags, true);
    HalfCounts(tags, true);
    if n < |p| {
      var i := HalfComesFrom(tags, true, n);
      assert ListedAt(tags, key, i);
    } else {
      var i := HalfComesFrom(tags, false, n - |p|);
      assert ListedAt(tags, key, i);
    }
  }

  lemma PlaceIsListed(tags: seq<seq<string>>, key: string, i: nat)
    requires ListedAt(tags, key, i)
    ensures key in Take(Half(tags, true) + Half(tags, false), 100)
  {
    var both, n := Half(tags, true) + Half(tags, false), Rank(tags, i);
    PlaceInHalf(tags, i);
    HalfCounts(tags, true);
    assert both[n] == key;
    assert Take(both, 100)[n] == key;
  }

  /** A row is listed under the names and values of its indexable tags, the first hundred of them
      with the nine preferred names ahead of the others; and under nothing else. */
  lemma ListedExactly(tags: seq<seq<string>>, key: string)
    ensures key in GetIndexedTags(tags) <==> exists i: nat :: ListedAt(tags, key, i)
  {
    ListingIs(tags, key);
    var top := Take(Half(tags, true) + Half(tags, false), 100);
    if key in top {
      var n :| 0 <= n < |top| && top[n] == key;
      ListedHasPlace(tags, key, n);
    }
    if i: nat :| ListedAt(tags, key, i) {
      PlaceIsListed(tags, key, i);
    }
  }

  /** No tag is cut off exactly when at most a hundred are indexable. */
  lemma NothingCutOff(e: Event)
    ensures FullyIndexed(e) <==> |Places(e.tags, true)| + |Places(e.tags, false)| <= 100
  {
    HalvesCount(e.tags);
    HalfCounts(e.tags, true);
    HalfCounts(e.tags, false);
  }

  // ---- what is looked up

  ghost predicate AsksFor(tags: seq<(string, TagCondition)>, name: string, text: string)
  {
    exists entry | entry in tags :: entry.0 == name && entry.1.Values? && Text(text) in entry.1.values
  }

  lemma {:induction false} ValuesLookedUp(name: string, values: seq<TagValue>, key: string)
    requires SingleLetter(name)
    ensures key in GetIndexedTagValues(name, values)
            <==> exists v | v in values :: v.Text? && v.text != "" && key == name + ":" + v.text
  {
    if values != [] {
      assert values == [values[0]] + values[1..];
      ValuesLookedUp(name, values[1..], key);
      assert forall v :: v in values <==> v == values[0] || v in values[1..];
    }
  }

  lemma {:induction false} LookedUp(tags: seq<(string, TagCondition)>, name: string, text: string)
    requires SingleLetter(name) && text != ""
    ensures name + ":" + text in TagIndexValues(tags) <==> AsksFor(tags, name, text)
  {
    if tags != [] {
      var entry, rest := tags[0], tags[1..];
      assert tags == [entry] + rest;
      LookedUp(rest, name, text);
      assert AsksFor(tags, name, text)
             <==> (entry.0 == name && entry.1.Values? && Text(text) in entry.1.values) || AsksFor(rest, name, text) by {
        assert forall x :: x in tags <==> x == entry || x in rest;
      }
      if entry.1.Values? && SingleLetter(entry.0) {
        ValuesLookedUp(entry.0, entry.1.values, name + ":" + text);
        forall v: TagValue | v.Text? && entry.0 + ":" + v.text == name + ":" + text ensures entry.0 == name && v.text == text {
          KeySplits(entry.0, v.text, name, text);
        }
      }
    }
  }

  lemma KeySplits(a: string, s: string, b: string, t: string)
    requires |a| == |b| == 1 && a + ":" + s == b + ":" + t
    ensures a == b && s == t
  {
    assert (a + ":" + s)[0] == a[0] && (b + ":" + t)[0] == b[0];
    assert (a + ":" + s)[2..] == s && (b + ":" + t)[2..] == t;
  }

  ghost predicate ReachedThrough(e: Event, f: Filter, i: nat)
  {
    i < |e.tags| && Indexable(e.tags[i]) && Rank(e.tags, i) < 100 && AsksFor(f.tags, e.tags[i][0], e.tags[i][1])
  }

  /** A filter's tag lookup reaches a row exactly through a tag that one of its conditions asks for
      and that fewer than a hundred others are listed before. */
  lemma ReachedExactlyWhen(e: Event, f: Filter)
    ensures FoundByTags(e, TagIndexValues(f.tags)) <==> exists i: nat :: ReachedThrough(e, f, i)
  {
    if i: nat :| ReachedThrough(e, f, i) {
      var key := e.tags[i][0] + ":" + e.tags[i][1];
      LookedUp(f.tags, e.tags[i][0], e.tags[i][1]);
      assert ListedAt(e.tags, key, i);
      ListedExactly(e.tags, key);
    }
    if v :| v in TagIndexValues(f.tags) && v in GetIndexedTags(e.tags) {
      ListedExactly(e.tags, v);
      var i: nat :| ListedAt(e.tags, v, i);
      LookedUp(f.tags, e.tags[i][0], e.tags[i][1]);
      assert ReachedThrough(e, f, i);
    }
  }
}
