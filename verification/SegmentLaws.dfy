/** Which events a note quotes as cards, where, and which pictures go under which piece of text, in
    the fields of the parts. */
module SegmentLaws {
  import opened Order
  import opened Events
  import opened ContentParts
  import opened Segments
  import opened SegmentMedia

  /** The parts name the event or coordinate of this key. */
  ghost predicate Mentions(parts: seq<Part>, key: string)
  {
    exists p | p in parts :: p.Entity? && p.key == Some(key)
  }

  /** The parts attach a picture, video or sound from this URL. */
  ghost predicate Attaches(parts: seq<Part>, url: string)
  {
    exists p | p in parts :: p.Media? && p.url == url
  }

  // ---- lists read off in order

  /** Of two first occurrences, the earlier in the list occurs before the other has. */
  lemma {:induction false} FirstOccurrencesInOrder<T(!new)>(q: seq<T>, i: nat, j: nat) returns (n: nat)
    requires i < j < |FirstOccurrences(q)|
    ensures n <= |q| && FirstOccurrences(q)[i] in q[..n] && FirstOccurrences(q)[j] !in q[..n]
  {
    var front := q[..|q| - 1];
    var before := FirstOccurrences(front);
    assert before <= FirstOccurrences(q);
    if j < |before| {
      n := FirstOccurrencesInOrder(front, i, j);
      assert front[..n] == q[..n];
    } else {
      n := |front|;
      assert before[i] in Elements(before) && before[i] in Elements(front);
      assert q[|front|] == FirstOccurrences(q)[j] && FirstOccurrences(q)[j] !in Elements(before);
      assert FirstOccurrences(q)[j] !in Elements(front);
    }
  }

  lemma {:induction false} KeysAre(parts: seq<Part>, key: string)
    ensures key in Keys(parts) <==> Mentions(parts, key)
  {
    if parts != [] {
      var front, p := parts[..|parts| - 1], parts[|parts| - 1];
      assert parts == front + [p];
      KeysAre(front, key);
      assert Mentions(parts, key) <==> Mentions(front, key) || (p.Entity? && p.key == Some(key));
    }
  }

  lemma {:induction false} UrlsAre(parts: seq<Part>, url: string)
    ensures url in Urls(parts) <==> Attaches(parts, url)
  {
    if parts != [] {
      var front, p := parts[..|parts| - 1], parts[|parts| - 1];
      assert parts == front + [p];
      UrlsAre(front, url);
      assert Attaches(parts, url) <==> Attaches(front, url) || (p.Media? && p.url == url);
    }
  }

  /** Any front of the keys is read off some front of the parts. */
  lemma {:induction false} KeysSoFar(parts: seq<Part>, n: nat) returns (m: nat)
    requires n <= |Keys(parts)|
    ensures m <= |parts| && Keys(parts[..m]) == Keys(parts)[..n]
  {
    if n == |Keys(parts)| {
      m := |parts|;
      assert parts[..m] == parts;
    } else {
      m := KeysSoFar(parts[..|parts| - 1], n);
      assert parts[..|parts| - 1][..m] == parts[..m];
    }
  }

  lemma {:induction false} UrlsSoFar(parts: seq<Part>, n: nat) returns (m: nat)
    requires n <= |Urls(parts)|
    ensures m <= |parts| && Urls(parts[..m]) == Urls(parts)[..n]
  {
    if n == |Urls(parts)| {
      m := |parts|;
      assert parts[..m] == parts;
    } else {
      m := UrlsSoFar(parts[..|parts| - 1], n);
      assert parts[..|parts| - 1][..m] == parts[..m];
    }
  }

  lemma {:induction false} KeysAreFew(parts: seq<Part>)
    ensures |Keys(parts)| <= |parts|
  {
    if parts != [] {
      KeysAreFew(parts[..|parts| - 1]);
    }
  }

  /** With as many keys as parts, every part is an entity, with the key at its place. */
  lemma {:induction false} KeyAtPlace(parts: seq<Part>, i: nat)
    requires |Keys(parts)| == |parts| && i < |parts|
    ensures parts[i].Entity? && parts[i].key == Some(Keys(parts)[i])
  {
    var front := parts[..|parts| - 1];
    KeysAreFew(front);
    if i < |front| {
      KeyAtPlace(front, i);
    }
  }

  lemma {:induction false} UrlsAreFew(parts: seq<Part>)
    ensures |Urls(parts)| <= |parts|
  {
    if parts != [] {
      UrlsAreFew(parts[..|parts| - 1]);
    }
  }

  lemma {:induction false} UrlAtPlace(parts: seq<Part>, i: nat)
    requires |Urls(parts)| == |parts| && i < |parts|
    ensures parts[i].Media? && parts[i].url == Urls(parts)[i]
  {
    var front := parts[..|parts| - 1];
    UrlsAreFew(front);
    if i < |front| {
      UrlAtPlace(front, i);
    }
  }

  // ---- which references become cards

  /** `key` is mentioned where `other` has not been yet. */
  ghost predicate MentionedBefore(parts: seq<Part>, key: string, other: string)
  {
    exists n: nat :: n <= |parts| && Mentions(parts[..n], key) && !Mentions(parts[..n], other)
  }

  lemma KeysInOrder(parts: seq<Part>, i: nat, j: nat)
    requires i < j < |FirstOccurrences(Keys(parts))|
    ensures MentionedBefore(parts, FirstOccurrences(Keys(parts))[i], FirstOccurrences(Keys(parts))[j])
  {
    var first := FirstOccurrences(Keys(parts));
    var n := FirstOccurrencesInOrder(Keys(parts), i, j);
    var m := KeysSoFar(parts, n);
    KeysAre(parts[..m], first[i]);
    KeysAre(parts[..m], first[j]);
  }

  function Cap(depth: nat): nat
  {
    if depth == 0 then 10 else if depth < 5 then 2 else 0
  }

  /** What is selected at a depth: references with a key, one per key, in the order of their first
      mention, ten in a note itself, two in a quoted one and none from the fifth level down. */
  ghost predicate Selects(parts: seq<Part>, depth: nat, selected: seq<Part>)
  {
    |Keys(selected)| == |selected| && Keys(selected) == Take(FirstOccurrences(Keys(parts)), MaxEmbeds(depth))
  }

  lemma SelectedAre(parts: seq<Part>, depth: nat, selected: seq<Part>, i: nat)
    requires Selects(parts, depth, selected) && i < |selected|
    ensures |selected| <= Cap(depth)
    ensures selected[i].Entity? && selected[i].key.Some? && Mentions(parts, selected[i].key.value)
    ensures forall j | i < j < |selected| ::
              selected[j].Entity? && selected[j].key.Some? && selected[i].key != selected[j].key
              && MentionedBefore(parts, selected[i].key.value, selected[j].key.value)
  {
    var first := FirstOccurrences(Keys(parts));
    KeyAtPlace(selected, i);
    assert first[i] in Elements(first) && first[i] in Elements(Keys(parts));
    KeysAre(parts, first[i]);
    forall j | i < j < |selected|
      ensures selected[j].Entity? && selected[j].key.Some? && selected[i].key != selected[j].key
              && MentionedBefore(parts, selected[i].key.value, selected[j].key.value)
    {
      KeyAtPlace(selected, j);
      KeysInOrder(parts, i, j);
    }
  }

  /** A reference is passed over only when the cap is spent on references mentioned before it. */
  lemma PassedOverOnlyWhenFull(parts: seq<Part>, depth: nat, selected: seq<Part>, key: string)
    requires Selects(parts, depth, selected) && Mentions(parts, key) && !Mentions(selected, key)
    ensures |selected| == Cap(depth)
    ensures forall i | 0 <= i < |selected| ::
              selected[i].Entity? && selected[i].key.Some? && MentionedBefore(parts, selected[i].key.value, key)
  {
    var first := FirstOccurrences(Keys(parts));
    KeysAre(parts, key);
    KeysAre(selected, key);
    assert key in Elements(first);
    var j :| 0 <= j < |first| && first[j] == key;
    forall i | 0 <= i < |selected| ensures first[i] != key {
      assert first[i] == Keys(selected)[i];
    }
    forall i | 0 <= i < |selected|
      ensures selected[i].Entity? && selected[i].key.Some? && MentionedBefore(parts, selected[i].key.value, key)
    {
      KeyAtPlace(selected, i);
      KeysInOrder(parts, i, j);
    }
  }

  // ---- the cards and what is seen around them

  lemma MentionedIs(parts: seq<Part>, embedded: set<string>, key: string)
    ensures key in Mentioned(parts, embedded) <==> key in embedded && Mentions(parts, key)
  {
    if key in embedded && Mentions(parts, key) {
      var p :| p in parts && p.Entity? && p.key == Some(key);
      assert IsEmbedded(p, embedded) && KeyOf(p).value == key;
    }
  }

  /** The part is a quotation that has its card further up. */
  ghost predicate HasCardAbove(read: seq<Part>, p: Part, embedded: set<string>)
  {
    p.Entity? && p.key.Some? && p.key.value in embedded && Mentions(read, p.key.value)
  }

  /** Reading on by one part: everything is seen as written, but a quotation once only. */
  lemma SeenOnce(read: seq<Part>, p: Part, embedded: set<string>)
    ensures VisibleOnce([], embedded) == []
    ensures VisibleOnce(read + [p], embedded)
         == VisibleOnce(read, embedded) + if HasCardAbove(read, p, embedded) then [] else Visible([p])
  {
    OnceMore(read, p, embedded);
    if KeyOf(p).Some? {
      MentionedIs(read, embedded, KeyOf(p).value);
    }
    assert [p][..0] == [] && [] + VisiblePart(p) == VisiblePart(p);
  }

  lemma {:induction false} CardsAre(segments: seq<Segment>, p: Part)
    ensures p in Cards(segments) <==> Card(p) in segments
  {
    if segments != [] {
      var front, s := segments[..|segments| - 1], segments[|segments| - 1];
      assert segments == front + [s];
      CardsAre(front, p);
    }
  }

  lemma {:induction false} FirstMentionsQuote(parts: seq<Part>, embedded: set<string>, p: Part)
    requires p in FirstMentions(parts, embedded)
    ensures p in parts && IsEmbedded(p, embedded)
  {
    var front := parts[..|parts| - 1];
    assert parts == front + [parts[|parts| - 1]];
    if p in FirstMentions(front, embedded) {
      FirstMentionsQuote(front, embedded, p);
    }
  }

  /** An event has a card exactly when it is embedded and the note mentions it; and every card is a
      part of the note that quotes such an event. */
  lemma CardExactlyWhen(parts: seq<Part>, embedded: set<string>, segments: seq<Segment>, key: string)
    requires Cards(segments) == FirstMentions(parts, embedded)
    ensures (exists p :: Card(p) in segments && p.Entity? && p.key == Some(key)) <==> key in embedded && Mentions(parts, key)
    ensures forall p | Card(p) in segments :: p in parts && p.Entity? && p.key.Some? && p.key.value in embedded
  {
    OneCardEach(parts, embedded);
    MentionedIs(parts, embedded, key);
    KeysAre(FirstMentions(parts, embedded), key);
    forall p {
      CardsAre(segments, p);
    }
    forall p | Card(p) in segments ensures p in parts && IsEmbedded(p, embedded) {
      FirstMentionsQuote(parts, embedded, p);
    }
    if key in Mentioned(parts, embedded) {
      assert key in Elements(Keys(FirstMentions(parts, embedded)));
    }
    if key in Keys(FirstMentions(parts, embedded)) {
      assert key in Elements(Keys(FirstMentions(parts, embedded)));
      var p :| p in FirstMentions(parts, embedded) && p.Entity? && p.key == Some(key);
      assert Card(p) in segments;
    }
  }

  lemma {:induction false} CardsOfBoth(p: seq<Segment>, q: seq<Segment>)
    ensures Cards(p + q) == Cards(p) + Cards(q)
  {
    if q == [] {
      assert p + q == p;
    } else {
      assert (p + q)[..|p + q| - 1] == p + q[..|q| - 1];
      CardsOfBoth(p, q[..|q| - 1]);
    }
  }

  /** No event has two cards. */
  lemma OneCardPerEvent(parts: seq<Part>, embedded: set<string>, segments: seq<Segment>, i: nat, j: nat)
    requires Cards(segments) == FirstMentions(parts, embedded)
    requires i < j < |segments| && segments[i].Card? && segments[j].Card?
    ensures KeyOf(segments[i].part) != KeyOf(segments[j].part)
  {
    OneCardEach(parts, embedded);
    var upper, lower := segments[..j], segments[j..];
    assert segments == upper + lower && upper[i] == segments[i] && lower[0] == segments[j];
    CardsOfBoth(upper, lower);
    CardsAre(upper, segments[i].part);
    CardsAre(lower, segments[j].part);
    CardsAre(segments, segments[i].part);
    assert Card(segments[i].part) in segments;
    FirstMentionsQuote(parts, embedded, segments[i].part);
    KeysOfBoth(Cards(upper), Cards(lower));
    if KeyOf(segments[i].part) == KeyOf(segments[j].part) {
      var key := KeyOf(segments[i].part).value;
      KeysAre(Cards(upper), key);
      KeysAre(Cards(lower), key);
      TwiceIn(Keys(Cards(upper)), Keys(Cards(lower)), key);
    }
  }

  lemma TwiceIn<T>(p: seq<T>, q: seq<T>, x: T)
    requires x in p && x in q
    ensures !NoDuplicates(p + q)
  {
    var i :| 0 <= i < |p| && p[i] == x;
    var j :| 0 <= j < |q| && q[j] == x;
    assert (p + q)[i] == (p + q)[|p| + j];
  }

  /** Every piece of text shows something: a character, a link, an attachment, or an entity with no
      card of its own. */
  lemma RunsShowSomething(segments: seq<Segment>, embedded: set<string>, i: nat)
    requires NoBlankRuns(segments, embedded) && i < |segments| && segments[i].Run?
    ensures exists p | p in segments[i].parts ::
              p.Link? || p.Media? || (p.Text? && exists k :: 0 <= k < |p.text| && !IsSpace(p.text[k]))
              || (p.Entity? && !(p.key.Some? && p.key.value in embedded))
  {
    assert !IsBlank(segments[i].parts, embedded);
    var p :| p in segments[i].parts && !(if p.Text? then Blank(p.text) else IsEmbedded(p, embedded));
  }

  // ---- which attachments go under which piece

  ghost predicate Writes(s: Segment, url: string)
  {
    s.Run? && Attaches(s.parts, url)
  }

  /** An attachment is shown under the first piece of text that writes its URL, and there alone. */
  lemma ShownUnderTheFirst(lists: seq<seq<Part>>, segments: seq<Segment>, k: nat, url: string)
    requires |lists| == |segments| && Shared(lists, segments) && k < |segments|
    ensures Attaches(lists[k], url) <==> Writes(segments[k], url) && forall j | 0 <= j < k :: !Writes(segments[j], url)
  {
    UrlGoesToFirst(lists, segments, k, url);
    UrlsAre(lists[k], url);
    forall j | 0 <= j <= k ensures url in Urls(RunOf(segments[j])) <==> Writes(segments[j], url) {
      UrlsAre(RunOf(segments[j]), url);
    }
  }

  lemma {:induction false} AllMediaHaveUrls(media: seq<Part>)
    requires forall p | p in media :: p.Media?
    ensures |Urls(media)| == |media|
  {
    if media != [] {
      var front := media[..|media| - 1];
      assert media == front + [media[|media| - 1]];
      AllMediaHaveUrls(front);
    }
  }

  /** What is new in a list keeps its order. */
  lemma {:induction false} NewInOrder(p: seq<string>, q: seq<string>, i: nat, j: nat) returns (a: nat, b: nat)
    requires i < j < |NewIn(p, q)|
    ensures a < b < |q| && q[a] == NewIn(p, q)[i] && q[b] == NewIn(p, q)[j]
  {
    var front := q[..|q| - 1];
    if j < |NewIn(p, front)| {
      a, b := NewInOrder(p, front, i, j);
    } else {
      b := |front|;
      NewInMembers(p, front);
      assert NewIn(p, q)[i] == NewIn(p, front)[i] && NewIn(p, front)[i] in front;
      a :| 0 <= a < |front| && front[a] == NewIn(p, front)[i];
    }
  }

  /** Under one piece each URL is shown once, in the order the piece first writes them. */
  lemma ShownInOrder(lists: seq<seq<Part>>, segments: seq<Segment>, k: nat, i: nat, j: nat)
    requires |lists| == |segments| && Shared(lists, segments) && OwnMedia(lists, segments)
    requires k < |segments| && i < j < |lists[k]|
    ensures lists[k][i].Media? && lists[k][j].Media? && lists[k][i].url != lists[k][j].url && segments[k].Run?
    ensures exists n: nat :: n <= |segments[k].parts| && Attaches(segments[k].parts[..n], lists[k][i].url)
                             && !Attaches(segments[k].parts[..n], lists[k][j].url)
  {
    var list, run := lists[k], RunOf(segments[k]);
    var written := Urls(run);
    var first := FirstOccurrences(written);
    assert AllMediaFrom(list, run) && list[i] in list && list[i] in run;
    AllMediaHaveUrls(list);
    UrlAtPlace(list, i);
    UrlAtPlace(list, j);
    assert IsShareOf(list, segments[..k], segments[k]);
    var a, b := NewInOrder(AllUrls(segments[..k]), first, i, j);
    var n := FirstOccurrencesInOrder(written, a, b);
    var m := UrlsSoFar(run, n);
    UrlsAre(run[..m], list[i].url);
    UrlsAre(run[..m], list[j].url);
  }
}
