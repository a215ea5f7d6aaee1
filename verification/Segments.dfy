/** Splitting a note around its quoted events, and its media across the pieces. */
module Segments {
  import opened Order
  import opened Events
  import opened ContentParts

  const MAX_EMBED_DEPTH := 5
  const MAX_EMBEDS_PER_NOTE := 2
  const MAX_EMBEDS_PER_TOP_NOTE := 10

  // ---- which references become cards

  function KeyOf(p: Part): Option<string>
  {
    if p.Entity? then p.key else None
  }

  /** The keys written in a note, in order, repeats included. */
  function Keys(parts: seq<Part>): seq<string>
  {
    if parts == [] then [] else
      Keys(parts[..|parts| - 1])
      + (if KeyOf(parts[|parts| - 1]).Some? then [KeyOf(parts[|parts| - 1]).value] else [])
  }

  function MaxEmbeds(depth: nat): nat
  {
    if depth >= MAX_EMBED_DEPTH then 0 else if depth == 0 then MAX_EMBEDS_PER_TOP_NOTE else MAX_EMBEDS_PER_NOTE
  }

  lemma {:induction false} FirstOccurrencesGrow<T>(p: seq<T>, q: seq<T>)
    ensures FirstOccurrences(p) <= FirstOccurrences(p + q)
  {
    if q == [] {
      assert p + q == p;
    } else {
      FirstOccurrencesGrow(p, q[..|q| - 1]);
      FirstOccurrencesOfMore(p + q[..|q| - 1], q[|q| - 1]);
      assert p + q[..|q| - 1] + [q[|q| - 1]] == p + q;
    }
  }

  lemma {:induction false} KeysOfBoth(p: seq<Part>, q: seq<Part>)
    ensures Keys(p + q) == Keys(p) + Keys(q)
  {
    if q == [] {
      assert p + q == p;
    } else {
      KeysOfBoth(p, q[..|q| - 1]);
      assert (p + q)[..|p + q| - 1] == p + q[..|q| - 1];
    }
  }

  lemma KeysOfMore(parts: seq<Part>, p: Part)
    ensures Keys(parts + [p]) == if KeyOf(p).Some? then Keys(parts) + [KeyOf(p).value] else Keys(parts)
  {
    assert (parts + [p])[..|parts|] == parts;
  }

  /** The references selected from the parts read so far. */
  ghost predicate Selection(selected: seq<Part>, read: seq<Part>)
  {
    Keys(selected) == FirstOccurrences(Keys(read)) && |Keys(selected)| == |selected|
  }

  lemma SelectionPasses(selected: seq<Part>, read: seq<Part>, p: Part)
    requires Selection(selected, read) && (KeyOf(p).None? || KeyOf(p).value in Keys(selected))
    ensures Selection(selected, read + [p])
  {
    KeysOfMore(read, p);
    if KeyOf(p).Some? {
      FirstOccurrencesOfMore(Keys(read), KeyOf(p).value);
    }
  }

  lemma SelectionGrows(selected: seq<Part>, read: seq<Part>, p: Part)
    requires Selection(selected, read) && KeyOf(p).Some? && KeyOf(p).value !in Keys(selected)
    ensures Selection(selected + [p], read + [p]) && Keys(selected + [p]) == Keys(selected) + [KeyOf(p).value]
  {
    KeysOfMore(read, p);
    KeysOfMore(selected, p);
    FirstOccurrencesOfMore(Keys(read), KeyOf(p).value);
  }

  lemma SelectionTurn(selected: seq<Part>, read: seq<Part>, p: Part, seen: set<string>)
    requires Selection(selected, read) && seen == Elements(Keys(selected))
    ensures KeyOf(p).Some? && KeyOf(p).value !in seen ==>
              && Selection(selected + [p], read + [p])
              && Elements(Keys(selected + [p])) == seen + {KeyOf(p).value}
    ensures KeyOf(p).None? || KeyOf(p).value in seen ==> Selection(selected, read + [p])
  {
    if KeyOf(p).Some? && KeyOf(p).value !in seen {
      SelectionGrows(selected, read, p);
      ElementsOfMore(Keys(selected), KeyOf(p).value);
    } else {
      SelectionPasses(selected, read, p);
    }
  }

  lemma ElementsOfMore<T>(q: seq<T>, x: T)
    ensures Elements(q + [x]) == Elements(q) + {x}
  {
  }

  lemma SelectionStops(selected: seq<Part>, parts: seq<Part>, i: nat, max: nat)
    requires i <= |parts| && Selection(selected, parts[..i]) && |selected| <= max && (i < |parts| ==> |selected| == max)
    ensures Keys(selected) == Take(FirstOccurrences(Keys(parts)), max)
  {
    if i == |parts| {
      assert parts[..i] == parts;
    } else {
      KeysOfBoth(parts[..i], parts[i..]);
      assert parts[..i] + parts[i..] == parts;
      FirstOccurrencesGrow(Keys(parts[..i]), Keys(parts[i..]));
    }
  }

  /** The first references, up to the cap for this depth, one per event. */
  method SelectEmbeds(parts: seq<Part>, depth: nat) returns (selected: seq<Part>)
    ensures Keys(selected) == Take(FirstOccurrences(Keys(parts)), MaxEmbeds(depth)) && |Keys(selected)| == |selected|
    ensures forall p | p in selected :: p in parts
  {
    selected := [];
    if depth >= MAX_EMBED_DEPTH {
      return;
    }
    var max := if depth == 0 then MAX_EMBEDS_PER_TOP_NOTE else MAX_EMBEDS_PER_NOTE;
    var seen: set<string> := {};
    var i := 0;
    while i < |parts| && |selected| < max
      invariant 0 <= i <= |parts| && |selected| <= max && Selection(selected, parts[..i])
      invariant seen == Elements(Keys(selected))
      invariant forall p | p in selected :: p in parts
    {
      var key := KeyOf(parts[i]);
      assert parts[..i + 1] == parts[..i] + [parts[i]];
      SelectionTurn(selected, parts[..i], parts[i], seen);
      if key.Some? && key.value !in seen {
        seen := seen + {key.value};
        selected := selected + [parts[i]];
      }
      i := i + 1;
    }
    SelectionStops(selected, parts, i, max);
  }

  // ---- splitting the note

  datatype Segment = Run(parts: seq<Part>) | Card(part: Part)

  predicate IsEmbedded(p: Part, embedded: set<string>)
  {
    KeyOf(p).Some? && KeyOf(p).value in embedded
  }

  /** A run a reader would see nothing of. */
  predicate IsBlank(run: seq<Part>, embedded: set<string>)
  {
    forall p | p in run :: if p.Text? then Blank(p.text) else IsEmbedded(p, embedded)
  }

  function Flatten(segments: seq<Segment>): seq<Part>
  {
    if segments == [] then [] else
      Flatten(segments[..|segments| - 1])
      + (match segments[|segments| - 1] case Run(parts) => parts case Card(part) => [part])
  }

  function Cards(segments: seq<Segment>): seq<Part>
  {
    if segments == [] then [] else
      Cards(segments[..|segments| - 1])
      + (match segments[|segments| - 1] case Run(_) => [] case Card(part) => [part])
  }

  /** The embedded keys a stretch of parts mentions. */
  function Mentioned(parts: seq<Part>, embedded: set<string>): set<string>
  {
    set p | p in parts && IsEmbedded(p, embedded) :: KeyOf(p).value
  }

  /** The first mention of each embedded key. */
  function FirstMentions(parts: seq<Part>, embedded: set<string>): seq<Part>
  {
    if parts == [] then [] else
      var front, p := parts[..|parts| - 1], parts[|parts| - 1];
      FirstMentions(front, embedded)
      + (if IsEmbedded(p, embedded) && KeyOf(p).value !in Mentioned(front, embedded) then [p] else [])
  }

  /** What a reader sees: ink, items, and each embedded event where it is first mentioned. */
  function VisibleOnce(parts: seq<Part>, embedded: set<string>): seq<Seen>
  {
    if parts == [] then [] else
      var front, p := parts[..|parts| - 1], parts[|parts| - 1];
      VisibleOnce(front, embedded)
      + (if IsEmbedded(p, embedded) && KeyOf(p).value in Mentioned(front, embedded) then [] else VisiblePart(p))
  }

  lemma OnceMore(parts: seq<Part>, p: Part, embedded: set<string>)
    ensures VisibleOnce(parts + [p], embedded)
         == VisibleOnce(parts, embedded)
            + (if IsEmbedded(p, embedded) && KeyOf(p).value in Mentioned(parts, embedded) then [] else VisiblePart(p))
    ensures FirstMentions(parts + [p], embedded)
         == FirstMentions(parts, embedded)
            + (if IsEmbedded(p, embedded) && KeyOf(p).value !in Mentioned(parts, embedded) then [p] else [])
    ensures Mentioned(parts + [p], embedded)
         == Mentioned(parts, embedded) + (if IsEmbedded(p, embedded) then {KeyOf(p).value} else {})
  {
    assert (parts + [p])[..|parts|] == parts;
  }

  /** Every part of a run is invisible, given what was placed before it. */
  ghost predicate Unseen(run: seq<Part>, embedded: set<string>, placed: set<string>)
  {
    forall p | p in run :: if p.Text? then Blank(p.text) else IsEmbedded(p, embedded) && KeyOf(p).value in placed
  }

  lemma {:induction false} UnseenRun(before: seq<Part>, run: seq<Part>, embedded: set<string>)
    requires Unseen(run, embedded, Mentioned(before, embedded))
    ensures VisibleOnce(before + run, embedded) == VisibleOnce(before, embedded)
    ensures Mentioned(before + run, embedded) == Mentioned(before, embedded)
  {
    if run == [] {
      assert before + run == before;
    } else {
      var front, p := run[..|run| - 1], run[|run| - 1];
      assert run == front + [p] && before + run == before + front + [p];
      assert forall x | x in front :: x in run;
      UnseenRun(before, front, embedded);
      OnceMore(before + front, p, embedded);
      if p.Text? {
        BlankHasNoInk(p.text);
        assert VisiblePart(p) == [] && VisibleOnce(before, embedded) + [] == VisibleOnce(before, embedded);
      }
    }
  }

  ghost predicate OnlyRepeats(run: seq<Part>, embedded: set<string>, placed: set<string>)
  {
    forall p | p in run && IsEmbedded(p, embedded) :: KeyOf(p).value in placed
  }

  predicate NoBlankRuns(segments: seq<Segment>, embedded: set<string>)
  {
    forall i | 0 <= i < |segments| && segments[i].Run? :: !IsBlank(segments[i].parts, embedded)
  }

  lemma RunsStayFull(segments: seq<Segment>, s: Segment, embedded: set<string>)
    requires NoBlankRuns(segments, embedded) && (s.Run? ==> !IsBlank(s.parts, embedded))
    ensures NoBlankRuns(segments + [s], embedded)
  {
  }

  /** The split so far: it shows what has been read, places every mention once, and keeps every
      mention inside the open run a repeat. */
  ghost predicate SplitOk(segments: seq<Segment>, run: seq<Part>, placed: set<string>, read: seq<Part>, embedded: set<string>)
  {
    && VisibleOnce(Flatten(segments) + run, embedded) == VisibleOnce(read, embedded)
    && Cards(segments) == FirstMentions(read, embedded)
    && placed == Mentioned(read, embedded) == Mentioned(Flatten(segments), embedded)
    && OnlyRepeats(run, embedded, placed)
    && NoBlankRuns(segments, embedded)
  }

  lemma RunWithinPlaced(before: seq<Part>, run: seq<Part>, embedded: set<string>)
    requires OnlyRepeats(run, embedded, Mentioned(before, embedded))
    ensures Mentioned(before + run, embedded) == Mentioned(before, embedded)
  {
  }

  lemma OneMoreSegment(segments: seq<Segment>, s: Segment)
    ensures Flatten(segments + [s]) == Flatten(segments) + (match s case Run(parts) => parts case Card(part) => [part])
    ensures Cards(segments + [s]) == Cards(segments) + (match s case Run(_) => [] case Card(part) => [part])
  {
    assert (segments + [s])[..|segments|] == segments;
  }

  lemma DropRunOk(segments: seq<Segment>, run: seq<Part>, placed: set<string>, read: seq<Part>, embedded: set<string>)
    requires SplitOk(segments, run, placed, read, embedded) && IsBlank(run, embedded)
    ensures SplitOk(segments, [], placed, read, embedded)
  {
    assert Flatten(segments) + [] == Flatten(segments);
    assert forall p | p in run && !p.Text? :: IsEmbedded(p, embedded);
    UnseenRun(Flatten(segments), run, embedded);
  }

  lemma CloseRunOk(segments: seq<Segment>, run: seq<Part>, placed: set<string>, read: seq<Part>, embedded: set<string>)
    requires SplitOk(segments, run, placed, read, embedded) && !IsBlank(run, embedded)
    ensures SplitOk(segments + [Run(run)], [], placed, read, embedded)
  {
    RunWithinPlaced(Flatten(segments), run, embedded);
    OneMoreSegment(segments, Run(run));
    RunsStayFull(segments, Run(run), embedded);
    assert Flatten(segments) + run + [] == Flatten(segments) + run;
    assert Cards(segments) + [] == Cards(segments);
  }

  lemma FlushOk(segments: seq<Segment>, run: seq<Part>, placed: set<string>, read: seq<Part>, embedded: set<string>, after: seq<Segment>)
    requires SplitOk(segments, run, placed, read, embedded)
    requires after == if IsBlank(run, embedded) then segments else segments + [Run(run)]
    ensures SplitOk(after, [], placed, read, embedded)
  {
    if IsBlank(run, embedded) {
      DropRunOk(segments, run, placed, read, embedded);
    } else {
      CloseRunOk(segments, run, placed, read, embedded);
    }
  }

  lemma PlaceOk(segments: seq<Segment>, placed: set<string>, read: seq<Part>, embedded: set<string>, p: Part)
    requires SplitOk(segments, [], placed, read, embedded) && IsEmbedded(p, embedded) && KeyOf(p).value !in placed
    ensures SplitOk(segments + [Card(p)], [], placed + {KeyOf(p).value}, read + [p], embedded)
  {
    CardShows(segments, read, embedded, p);
    CardIsListed(segments, read, embedded, p);
    RunsStayFull(segments, Card(p), embedded);
    OnceMore(read, p, embedded);
  }

  lemma CardIsListed(segments: seq<Segment>, read: seq<Part>, embedded: set<string>, p: Part)
    requires Cards(segments) == FirstMentions(read, embedded)
    requires IsEmbedded(p, embedded) && KeyOf(p).value !in Mentioned(read, embedded)
    ensures Cards(segments + [Card(p)]) == FirstMentions(read + [p], embedded)
  {
    OneMoreSegment(segments, Card(p));
    OnceMore(read, p, embedded);
  }

  /** A new card shows its event, in the segments as in the parts read. */
  lemma CardShows(segments: seq<Segment>, read: seq<Part>, embedded: set<string>, p: Part)
    requires VisibleOnce(Flatten(segments) + [], embedded) == VisibleOnce(read, embedded)
    requires Mentioned(read, embedded) == Mentioned(Flatten(segments), embedded)
    ensures VisibleOnce(Flatten(segments + [Card(p)]) + [], embedded) == VisibleOnce(read + [p], embedded)
    ensures Mentioned(read + [p], embedded) == Mentioned(Flatten(segments + [Card(p)]), embedded)
  {
    OneMoreSegment(segments, Card(p));
    NothingAdded(Flatten(segments));
    NothingAdded(Flatten(segments + [Card(p)]));
    OnceMore(Flatten(segments), p, embedded);
    OnceMore(read, p, embedded);
  }

  lemma NothingAdded(q: seq<Part>)
    ensures q + [] == q
  {
  }

  lemma KeepOk(segments: seq<Segment>, run: seq<Part>, placed: set<string>, read: seq<Part>, embedded: set<string>, p: Part)
    requires SplitOk(segments, run, placed, read, embedded) && (IsEmbedded(p, embedded) ==> KeyOf(p).value in placed)
    ensures SplitOk(segments, run + [p], placed, read + [p], embedded)
  {
    RunWithinPlaced(Flatten(segments), run, embedded);
    assert Flatten(segments) + (run + [p]) == Flatten(segments) + run + [p];
    OnceMore(Flatten(segments) + run, p, embedded);
    OnceMore(read, p, embedded);
    assert FirstMentions(read, embedded) + [] == FirstMentions(read, embedded);
  }

  /** Text, card, text, card: in source order, each embedded event placed once. */
  method NoteSegments(parts: seq<Part>, embedded: set<string>) returns (segments: seq<Segment>)
    ensures VisibleOnce(Flatten(segments), embedded) == VisibleOnce(parts, embedded)
    ensures Cards(segments) == FirstMentions(parts, embedded)
    ensures NoBlankRuns(segments, embedded)
  {
    segments := [];
    var placed: set<string> := {};
    var run: seq<Part> := [];
    assert Flatten([]) + run == [];
    for i := 0 to |parts|
      invariant SplitOk(segments, run, placed, parts[..i], embedded)
    {
      var p := parts[i];
      assert parts[..i + 1] == parts[..i] + [p];
      if IsEmbedded(p, embedded) && KeyOf(p).value !in placed {
        var flushed := Flush(segments, run, embedded);
        FlushOk(segments, run, placed, parts[..i], embedded, flushed);
        PlaceOk(flushed, placed, parts[..i], embedded, p);
        placed := placed + {KeyOf(p).value};
        segments := flushed + [Card(p)];
        run := [];
      } else {
        KeepOk(segments, run, placed, parts[..i], embedded, p);
        run := run + [p];
      }
    }
    assert parts[..|parts|] == parts;
    var flushed := Flush(segments, run, embedded);
    FlushOk(segments, run, placed, parts, embedded, flushed);
    segments := flushed;
    assert Flatten(segments) + [] == Flatten(segments);
  }

  method Flush(segments: seq<Segment>, run: seq<Part>, embedded: set<string>) returns (after: seq<Segment>)
    ensures after == if IsBlank(run, embedded) then segments else segments + [Run(run)]
  {
    after := if |run| > 0 && !IsBlank(run, embedded) then segments + [Run(run)] else segments;
  }

  /** The cards are exactly the embedded events the note mentions, once each. */
  lemma {:induction false} OneCardEach(parts: seq<Part>, embedded: set<string>)
    ensures Elements(Keys(FirstMentions(parts, embedded))) == Mentioned(parts, embedded)
    ensures NoDuplicates(Keys(FirstMentions(parts, embedded)))
    ensures |Keys(FirstMentions(parts, embedded))| == |FirstMentions(parts, embedded)|
  {
    if parts != [] {
      var front, p := parts[..|parts| - 1], parts[|parts| - 1];
      OneCardEach(front, embedded);
      assert parts == front + [p];
      OnceMore(front, p, embedded);
      MentionAdds(FirstMentions(front, embedded), p, embedded, Mentioned(front, embedded));
    }
  }

  lemma MentionAdds(cards: seq<Part>, p: Part, embedded: set<string>, seen: set<string>)
    requires Elements(Keys(cards)) == seen && NoDuplicates(Keys(cards)) && |Keys(cards)| == |cards|
    ensures var after := cards + (if IsEmbedded(p, embedded) && KeyOf(p).value !in seen then [p] else []);
            && Elements(Keys(after)) == seen + (if IsEmbedded(p, embedded) then {KeyOf(p).value} else {})
            && NoDuplicates(Keys(after)) && |Keys(after)| == |after|
  {
    if IsEmbedded(p, embedded) && KeyOf(p).value !in seen {
      var k := KeyOf(p).value;
      assert (cards + [p])[..|cards|] == cards;
      assert Keys(cards + [p]) == Keys(cards) + [k];
      assert k !in Keys(cards) by {
        assert k in Keys(cards) ==> k in Elements(Keys(cards));
      }
      assert forall x :: x in Keys(cards) + [k] <==> x in Keys(cards) || x == k;
    } else {
      assert cards + [] == cards;
    }
  }

  /** Every selected reference is placed: as many cards as references selected. */
  lemma SelectedAreAllPlaced(parts: seq<Part>, selected: seq<Part>, embedded: set<string>)
    requires embedded == Elements(Keys(selected)) && forall p | p in selected :: p in parts
    ensures Elements(Keys(FirstMentions(parts, embedded))) == embedded
  {
    OneCardEach(parts, embedded);
    forall k | k in embedded ensures k in Mentioned(parts, embedded) {
      KeyFromPart(selected, k);
      var p :| p in selected && KeyOf(p) == Some(k);
      assert p in parts && IsEmbedded(p, embedded);
    }
  }

  lemma {:induction false} KeyFromPart(parts: seq<Part>, k: string)
    requires k in Keys(parts)
    ensures exists p | p in parts :: KeyOf(p) == Some(k)
  {
    var front, last := parts[..|parts| - 1], parts[|parts| - 1];
    assert parts == front + [last];
    if k in Keys(front) {
      KeyFromPart(front, k);
      var p :| p in front && KeyOf(p) == Some(k);
      assert p in parts;
    } else {
      assert last in parts;
    }
  }
}
