/** The flattened single-letter tag index, and when it can find a row. */
module TagIndex {
  import opened Order
  import opened Events
  import opened FilterUtils

  const MAX_INDEXED_TAGS := 100
  const PRIORITY_TAGS := {'e', 'p', 'a', 't', 'd', 'h', 'm', 'q', 'r'}

  function FormatTagForIndex(tag: seq<string>): Option<string>
  {
    if |tag| < 2 || tag[0] == "" || tag[1] == "" || !SingleLetter(tag[0]) then None
    else Some(tag[0] + ":" + tag[1])
  }

  function FormattedTags(tags: seq<seq<string>>): seq<string>
  {
    if tags == [] then []
    else
      match FormatTagForIndex(tags[0])
      case None => FormattedTags(tags[1..])
      case Some(t) => [t] + FormattedTags(tags[1..])
  }

  function WithPriority(tags: seq<string>, wanted: bool): seq<string>
  {
    if tags == [] then []
    else
      (if (tags[0] != "" && tags[0][0] in PRIORITY_TAGS) == wanted then [tags[0]] else [])
      + WithPriority(tags[1..], wanted)
  }

  /** What `saveEvent` writes to the row's `indexed_tags` column. */
  function GetIndexedTags(tags: seq<seq<string>>): seq<string>
  {
    var formatted := FormattedTags(tags);
    if |formatted| > MAX_INDEXED_TAGS then
      Take(WithPriority(formatted, true) + WithPriority(formatted, false), MAX_INDEXED_TAGS)
    else formatted
  }

  function GetIndexedTagValues(name: string, values: seq<TagValue>): seq<string>
    requires SingleLetter(name)
  {
    if values == [] then []
    else
      (if UsableValue(values[0]) then [name + ":" + values[0].text] else [])
      + GetIndexedTagValues(name, values[1..])
  }

  /** The index keys a filter's tag conditions can be looked up by, all keys together. */
  function TagIndexValues(tags: seq<(string, TagCondition)>): seq<string>
  {
    if tags == [] then []
    else
      (if tags[0].1.Values? && SingleLetter(tags[0].0)
       then GetIndexedTagValues(tags[0].0, tags[0].1.values) else [])
      + TagIndexValues(tags[1..])
  }

  /** An index lookup by `values` reaches `e`. */
  predicate FoundByTags(e: Event, values: seq<string>)
  {
    exists v | v in values :: v in GetIndexedTags(e.tags)
  }

  /** No tag of `e` was cut off the index. */
  predicate FullyIndexed(e: Event)
  {
    |FormattedTags(e.tags)| <= MAX_INDEXED_TAGS
  }

  lemma {:induction false} TagIsFormatted(tags: seq<seq<string>>, t: seq<string>)
    requires t in tags && FormatTagForIndex(t).Some?
    ensures FormatTagForIndex(t).value in FormattedTags(tags)
  {
    if t != tags[0] {
      assert tags == [tags[0]] + tags[1..];
      TagIsFormatted(tags[1..], t);
    }
  }

  lemma {:induction false} ValueIsLookedUp(name: string, values: seq<TagValue>, v: TagValue)
    requires SingleLetter(name) && v in values && UsableValue(v)
    ensures name + ":" + v.text in GetIndexedTagValues(name, values)
  {
    if v != values[0] {
      assert values == [values[0]] + values[1..];
      ValueIsLookedUp(name, values[1..], v);
    }
  }

  lemma {:induction false} EntryIsLookedUp(
    tags: seq<(string, TagCondition)>, entry: (string, TagCondition), value: string)
    requires entry in tags && entry.1.Values? && SingleLetter(entry.0)
    requires value in GetIndexedTagValues(entry.0, entry.1.values)
    ensures value in TagIndexValues(tags)
  {
    if entry != tags[0] {
      assert tags == [tags[0]] + tags[1..];
      EntryIsLookedUp(tags[1..], entry, value);
    }
  }

  /** If the lookup has any value at all, some entry of the filter is usable. */
  lemma {:induction false} LookupComesFromEntry(tags: seq<(string, TagCondition)>)
    requires TagIndexValues(tags) != []
    ensures exists entry | entry in tags :: entry.1.Values?
  {
    if tags[0].1.Values? {
      assert tags[0] in tags;
    } else {
      LookupComesFromEntry(tags[1..]);
      var entry :| entry in tags[1..] && entry.1.Values?;
      assert entry in tags;
    }
  }

  /** A matching row with at most 100 indexable tags is found by the lookup. */
  lemma MatchIsFoundByTags(e: Event, f: Filter)
    requires EventMatchesFilter(e, f) && !RejectsEveryRow(f)
    requires TagIndexValues(f.tags) != [] && FullyIndexed(e)
    ensures FoundByTags(e, TagIndexValues(f.tags))
  {
    LookupComesFromEntry(f.tags);
    var entry :| entry in f.tags && entry.1.Values?;
    assert TagEntryMatches(e, entry);
    var v :| v in entry.1.values && HasTag(e, entry.0, v);
    var t :| t in e.tags && |t| >= 2 && t[0] == entry.0 && t[1] == v.text;
    assert SingleLetter(entry.0) && UsableValue(v);
    TagIsFormatted(e.tags, t);
    ValueIsLookedUp(entry.0, entry.1.values, v);
    EntryIsLookedUp(f.tags, entry, entry.0 + ":" + v.text);
    assert FormatTagForIndex(t).value == entry.0 + ":" + v.text;
  }

  /** Tags that fill the index: `n` of one value, then one of another. */
  function Crowded(n: nat): seq<seq<string>>
  {
    if n == 0 then [["e", "y"]] else [["e", "x"]] + Crowded(n - 1)
  }

  function CrowdedKeys(n: nat): seq<string>
  {
    if n == 0 then ["e:y"] else ["e:x"] + CrowdedKeys(n - 1)
  }

  lemma CrowdedTag(v: string, key: string)
    requires v != "" && key == "e:" + v
    ensures FormatTagForIndex(["e", v]) == Some(key)
    ensures key != "" && key[0] in PRIORITY_TAGS
  {
    assert "e" + ":" == "e:";
  }

  lemma FormattedHead(tag: seq<string>, rest: seq<seq<string>>, key: string)
    requires FormatTagForIndex(tag) == Some(key)
    ensures FormattedTags([tag] + rest) == [key] + FormattedTags(rest)
  {
    assert ([tag] + rest)[1..] == rest;
  }

  lemma {:induction false} CrowdedKeysAre(n: nat)
    ensures |CrowdedKeys(n)| == n + 1 && forall i | 0 <= i < n :: CrowdedKeys(n)[i] == "e:x"
  {
    if n > 0 {
      CrowdedKeysAre(n - 1);
    }
  }

  lemma {:induction false} CrowdedIsFormatted(n: nat)
    ensures FormattedTags(Crowded(n)) == CrowdedKeys(n) && ["e", "y"] in Crowded(n)
    decreases n
  {
    if n == 0 {
      CrowdedTag("y", "e:y");
      FormattedHead(["e", "y"], [], "e:y");
      assert [["e", "y"]] + [] == [["e", "y"]] && ["e:y"] + [] == ["e:y"];
    } else {
      CrowdedIsFormatted(n - 1);
      CrowdedTag("x", "e:x");
      FormattedHead(["e", "x"], Crowded(n - 1), "e:x");
    }
  }

  lemma {:induction false} CrowdedIsPriority(n: nat)
    ensures WithPriority(CrowdedKeys(n), true) == CrowdedKeys(n) && WithPriority(CrowdedKeys(n), false) == []
  {
    CrowdedTag("x", "e:x");
    CrowdedTag("y", "e:y");
    if n == 0 {
      assert WithPriority([], true) == [] && WithPriority([], false) == [] && ["e:y"] + [] == ["e:y"];
    } else {
      CrowdedIsPriority(n - 1);
      assert CrowdedKeys(n)[1..] == CrowdedKeys(n - 1);
    }
  }

  lemma OnlyTheFirst(keys: seq<string>, n: nat)
    requires n <= |keys| && forall i | 0 <= i < n :: keys[i] == "e:x"
    ensures "e:y" !in Take(keys, n)
  {
    forall k | k in Take(keys, n) ensures k == "e:x" {
      var i :| 0 <= i < |Take(keys, n)| && Take(keys, n)[i] == k;
      assert keys[i] == k;
    }
  }

  lemma CrowdedIsTruncated(n: nat)
    requires n == MAX_INDEXED_TAGS
    ensures "e:y" !in GetIndexedTags(Crowded(n)) && |FormattedTags(Crowded(n))| > MAX_INDEXED_TAGS
  {
    CrowdedIsFormatted(n);
    CrowdedKeysAre(n);
    CrowdedIsPriority(n);
    assert CrowdedKeys(n) + [] == CrowdedKeys(n);
    OnlyTheFirst(CrowdedKeys(n), n);
  }

  lemma LookupOfY()
    ensures TagIndexValues([("e", Values([Text("y")]))]) == ["e:y"]
  {
    assert "e" + ":" + "y" == "e:y";
    assert GetIndexedTagValues("e", []) == [] && GetIndexedTagValues("e", [Text("y")]) == ["e:y"] + [] == ["e:y"];
    assert TagIndexValues([]) == [];
  }

  lemma TagMatches(e: Event, f: Filter)
    requires ["e", "y"] in e.tags
    requires f == Filter(None, None, None, None, None, None, [("e", Values([Text("y")]))])
    ensures EventMatchesFilter(e, f) && !RejectsEveryRow(f)
  {
    assert HasTag(e, "e", Text("y"));
    assert forall entry | entry in f.tags :: entry == ("e", Values([Text("y")]));
    assert TagEntryMatches(e, ("e", Values([Text("y")])));
  }

  /** Past a hundred tags the index forgets: this row matches the filter, but the lookup by the
      filter's tag does not reach it. */
  lemma CrowdedOutOfTheIndex(e: Event, f: Filter, n: nat)
    requires n == MAX_INDEXED_TAGS && e.tags == Crowded(n)
    requires f == Filter(None, None, None, None, None, None, [("e", Values([Text("y")]))])
    ensures EventMatchesFilter(e, f) && !RejectsEveryRow(f) && !FullyIndexed(e)
    ensures TagIndexValues(f.tags) == ["e:y"] && !FoundByTags(e, ["e:y"])
  {
    CrowdedIsFormatted(n);
    CrowdedKeysAre(n);
    CrowdedIsTruncated(n);
    LookupOfY();
    TagMatches(e, f);
  }
}
