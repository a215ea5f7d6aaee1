/** A note's parts: scanning covers the content, lifting attachments out loses no ink. */
module ContentParts {
  import opened Events

  datatype MediaKind = Image | Video | Audio

  /** `key` is what `embedKey` makes of the entity: none for a person. */
  datatype Part =
    | Text(text: string)
    | Link(href: string, written: string)
    | Media(media: MediaKind, url: string)
    | Entity(key: Option<string>, raw: string)

  // ---- whitespace

  /** JavaScript's `\s`, which is also what `trim` removes. */
  predicate IsSpace(c: char)
  {
    '\t' <= c <= '\r' || c == ' ' || c == '\U{A0}' || c == '\U{1680}' || '\U{2000}' <= c <= '\U{200A}'
    || c in {'\U{2028}', '\U{2029}', '\U{202F}', '\U{205F}', '\U{3000}', '\U{FEFF}'}
  }

  predicate Blank(s: string)
  {
    forall i | 0 <= i < |s| :: IsSpace(s[i])
  }

  function TrimStart(s: string): string
  {
    if s != "" && IsSpace(s[0]) then TrimStart(s[1..]) else s
  }

  function TrimEnd(s: string): string
  {
    if s != "" && IsSpace(s[|s| - 1]) then TrimEnd(s[..|s| - 1]) else s
  }

  function Leading(s: string): string
  {
    if s != "" && IsSpace(s[0]) then [s[0]] + Leading(s[1..]) else ""
  }

  function Trailing(s: string): string
  {
    if s != "" && IsSpace(s[|s| - 1]) then Trailing(s[..|s| - 1]) + [s[|s| - 1]] else ""
  }

  /** The characters that leave a mark. */
  function Ink(s: string): string
  {
    if s == "" then "" else (if IsSpace(s[0]) then "" else [s[0]]) + Ink(s[1..])
  }

  lemma {:induction false} InkOfBoth(a: string, b: string)
    ensures Ink(a + b) == Ink(a) + Ink(b)
  {
    if a == "" {
      assert a + b == b;
    } else {
      assert (a + b)[1..] == a[1..] + b;
      InkOfBoth(a[1..], b);
    }
  }

  lemma {:induction false} BlankHasNoInk(s: string)
    requires Blank(s)
    ensures Ink(s) == ""
  {
    if s != "" {
      BlankHasNoInk(s[1..]);
    }
  }

  lemma InkAfterSpace(c: char, s: string)
    requires IsSpace(c)
    ensures Ink([c] + s) == Ink(s)
  {
    assert ([c] + s)[1..] == s;
  }

  lemma {:induction false} SplitLeading(s: string)
    ensures s == Leading(s) + TrimStart(s) && Blank(Leading(s)) && Ink(TrimStart(s)) == Ink(s)
    ensures TrimStart(s) != "" ==> !IsSpace(TrimStart(s)[0])
  {
    if s != "" && IsSpace(s[0]) {
      var c, rest := s[0], s[1..];
      assert s == [c] + rest;
      SplitLeading(rest);
      InkAfterSpace(c, rest);
      assert Leading(s) == [c] + Leading(rest) && TrimStart(s) == TrimStart(rest);
    } else {
      assert Leading(s) == "" && TrimStart(s) == s;
    }
  }

  lemma {:induction false} TrimEndInk(s: string)
    ensures Ink(TrimEnd(s)) == Ink(s) && EndsWithInk(TrimEnd(s))
  {
    if s != "" && IsSpace(s[|s| - 1]) {
      var front, last := s[..|s| - 1], s[|s| - 1];
      TrimEndInk(front);
      InkOfSpace(front, last);
      assert s == front + [last];
    }
  }

  lemma {:induction false} SplitTrailing(s: string)
    ensures s == TrimEnd(s) + Trailing(s) && Blank(Trailing(s))
  {
    if s != "" && IsSpace(s[|s| - 1]) {
      var front, last := s[..|s| - 1], s[|s| - 1];
      SplitTrailing(front);
      assert s == front + [last];
      Regrouped(TrimEnd(front), Trailing(front), [last]);
    } else {
      assert s + "" == s;
    }
  }

  lemma InkOfSpace(s: string, c: char)
    requires IsSpace(c)
    ensures Ink(s + [c]) == Ink(s)
  {
    InkOfBoth(s, [c]);
    BlankHasNoInk([c]);
  }

  lemma Regrouped<T>(a: seq<T>, b: seq<T>, c: seq<T>)
    ensures a + (b + c) == a + b + c
  {
  }

  predicate StartsWithInk(s: string)
  {
    s != "" ==> !IsSpace(s[0])
  }

  predicate EndsWithInk(s: string)
  {
    s != "" ==> !IsSpace(s[|s| - 1])
  }

  lemma {:induction false} TrimEndKeepsStart(s: string)
    requires StartsWithInk(s)
    ensures StartsWithInk(TrimEnd(s))
  {
    if s != "" && IsSpace(s[|s| - 1]) {
      TrimEndKeepsStart(s[..|s| - 1]);
    }
  }

  // ---- what a reader sees

  datatype Seen = Char(c: char) | Item(part: Part)

  function Chars(s: string): seq<Seen>
  {
    seq(|s|, i requires 0 <= i < |s| => Char(s[i]))
  }

  function VisiblePart(p: Part): seq<Seen>
  {
    if p.Text? then Chars(Ink(p.text)) else [Item(p)]
  }

  /** The ink and the items of a run of parts, in order. */
  function Visible(parts: seq<Part>): seq<Seen>
  {
    if parts == [] then [] else Visible(parts[..|parts| - 1]) + VisiblePart(parts[|parts| - 1])
  }

  lemma VisibleAppend(parts: seq<Part>, p: Part)
    ensures Visible(parts + [p]) == Visible(parts) + VisiblePart(p)
  {
    assert (parts + [p])[..|parts|] == parts;
  }

  lemma VisibleLast(parts: seq<Part>, p: Part, q: Part)
    requires parts != [] && VisiblePart(q) == VisiblePart(parts[|parts| - 1]) + VisiblePart(p)
    ensures Visible(parts[..|parts| - 1] + [q]) == Visible(parts) + VisiblePart(p)
  {
    VisibleAppend(parts[..|parts| - 1], q);
    Regrouped(Visible(parts[..|parts| - 1]), VisiblePart(parts[|parts| - 1]), VisiblePart(p));
  }

  lemma CharsOfBoth(s: string, t: string)
    ensures Chars(s + t) == Chars(s) + Chars(t)
  {
  }

  lemma JoinedTextShowsBoth(s: string, t: string)
    ensures VisiblePart(Text(s + t)) == VisiblePart(Text(s)) + VisiblePart(Text(t))
  {
    InkOfBoth(s, t);
    CharsOfBoth(Ink(s), Ink(t));
  }

  // ---- normalising

  function MergeInto(merged: seq<Part>, p: Part): seq<Part>
  {
    if p.Text? && merged != [] && merged[|merged| - 1].Text?
    then merged[..|merged| - 1] + [Text(merged[|merged| - 1].text + p.text)]
    else merged + [p]
  }

  function Merge(parts: seq<Part>): seq<Part>
  {
    if parts == [] then [] else MergeInto(Merge(parts[..|parts| - 1]), parts[|parts| - 1])
  }

  function TrimFirst(parts: seq<Part>): seq<Part>
  {
    if parts != [] && parts[0].Text? then [Text(TrimStart(parts[0].text))] + parts[1..] else parts
  }

  function TrimLast(parts: seq<Part>): seq<Part>
  {
    if parts != [] && parts[|parts| - 1].Text?
    then parts[..|parts| - 1] + [Text(TrimEnd(parts[|parts| - 1].text))] else parts
  }

  predicate IsEmptyText(p: Part)
  {
    p.Text? && |p.text| == 0
  }

  function Unless(empty: bool, p: Part): seq<Part>
  {
    if empty then [] else [p]
  }

  function DropEmpty(parts: seq<Part>): seq<Part>
  {
    if parts == [] then [] else
      DropEmpty(parts[..|parts| - 1]) + Unless(IsEmptyText(parts[|parts| - 1]), parts[|parts| - 1])
  }

  function Normalized(parts: seq<Part>): seq<Part>
  {
    DropEmpty(TrimLast(TrimFirst(Merge(parts))))
  }

  /** Nothing empty, no two texts side by side, no whitespace at either end. */
  ghost predicate Tidy(parts: seq<Part>)
  {
    && (forall i | 0 <= i < |parts| :: !IsEmptyText(parts[i]))
    && NoneAdjacent(parts)
    && InkAtStart(parts) && InkAtEnd(parts)
  }

  ghost predicate NoneAdjacent(parts: seq<Part>)
  {
    forall i | 0 <= i < |parts| - 1 :: !(parts[i].Text? && parts[i + 1].Text?)
  }

  /** The merging loop. */
  method MergeTexts(parts: seq<Part>) returns (merged: seq<Part>)
    ensures merged == Merge(parts)
  {
    merged := [];
    for i := 0 to |parts|
      invariant merged == Merge(parts[..i])
    {
      assert parts[..i + 1][..i] == parts[..i];
      var n := |merged|;
      if parts[i].Text? && n > 0 && merged[n - 1].Text? {
        merged := merged[..n - 1] + [Text(merged[n - 1].text + parts[i].text)];
      } else {
        merged := merged + [parts[i]];
      }
    }
    assert parts[..|parts|] == parts;
  }

  /** The final filter. */
  method DropEmptyTexts(parts: seq<Part>) returns (r: seq<Part>)
    ensures r == DropEmpty(parts)
  {
    r := [];
    for i := 0 to |parts|
      invariant r == DropEmpty(parts[..i])
    {
      assert parts[..i + 1][..i] == parts[..i];
      if !parts[i].Text? || |parts[i].text| > 0 {
        r := r + [parts[i]];
      }
    }
    assert parts[..|parts|] == parts;
  }

  method Normalize(parts: seq<Part>) returns (r: seq<Part>)
    ensures r == Normalized(parts)
  {
    var merged := MergeTexts(parts);
    r := DropEmptyTexts(TrimLast(TrimFirst(merged)));
  }

  lemma {:induction false} MergeFacts(parts: seq<Part>)
    ensures NoneAdjacent(Merge(parts)) && Visible(Merge(parts)) == Visible(parts)
  {
    if parts != [] {
      var front, p := parts[..|parts| - 1], parts[|parts| - 1];
      MergeFacts(front);
      MergingKeeps(Merge(front), p);
    }
  }

  lemma MergingKeeps(m: seq<Part>, p: Part)
    requires NoneAdjacent(m)
    ensures NoneAdjacent(MergeInto(m, p)) && Visible(MergeInto(m, p)) == Visible(m) + VisiblePart(p)
  {
    if p.Text? && m != [] && m[|m| - 1].Text? {
      JoinedTextShowsBoth(m[|m| - 1].text, p.text);
      VisibleLast(m, p, Text(m[|m| - 1].text + p.text));
    } else {
      VisibleAppend(m, p);
    }
  }

  lemma {:induction false} VisibleBoth(p: seq<Part>, q: seq<Part>)
    ensures Visible(p + q) == Visible(p) + Visible(q)
  {
    if q == [] {
      assert p + q == p && Visible(p) + [] == Visible(p);
    } else {
      var front, last := q[..|q| - 1], q[|q| - 1];
      VisibleBoth(p, front);
      assert (p + q)[..|p + q| - 1] == p + front && (p + q)[|p + q| - 1] == last;
      Regrouped(Visible(p), Visible(front), VisiblePart(last));
    }
  }

  lemma SwapText(before: seq<Part>, s: string, t: string, after: seq<Part>)
    requires Ink(s) == Ink(t)
    ensures Visible(before + [Text(s)] + after) == Visible(before + [Text(t)] + after)
  {
    VisibleBoth(before + [Text(s)], after);
    VisibleBoth(before + [Text(t)], after);
    VisibleAppend(before, Text(s));
    VisibleAppend(before, Text(t));
  }

  lemma TrimFirstShape(m: seq<Part>)
    requires NoneAdjacent(m)
    ensures NoneAdjacent(TrimFirst(m)) && InkAtStart(TrimFirst(m))
  {
    if m != [] && m[0].Text? {
      SplitLeading(m[0].text);
    }
  }

  lemma HeadAndRest(m: seq<Part>)
    requires m != []
    ensures m == [] + [m[0]] + m[1..]
  {
  }

  lemma TrimFirstShows(m: seq<Part>)
    ensures Visible(TrimFirst(m)) == Visible(m)
  {
    if m != [] && m[0].Text? {
      var s, rest := m[0].text, m[1..];
      SplitLeading(s);
      SwapText([], s, TrimStart(s), rest);
      HeadAndRest(m);
      HeadAndRest(TrimFirst(m));
    }
  }

  lemma TrimLastShows(m: seq<Part>)
    ensures Visible(TrimLast(m)) == Visible(m) && |TrimLast(m)| == |m|
  {
    if m != [] && m[|m| - 1].Text? {
      var n := |m| - 1;
      TrimEndInk(m[n].text);
      SwapText(m[..n], m[n].text, TrimEnd(m[n].text), []);
      assert m[..n] + [m[n]] + [] == m;
      assert m[..n] + [Text(TrimEnd(m[n].text))] + [] == TrimLast(m);
    }
  }

  ghost predicate InkAtStart(parts: seq<Part>)
  {
    parts != [] && parts[0].Text? ==> StartsWithInk(parts[0].text)
  }

  ghost predicate InkAtEnd(parts: seq<Part>)
  {
    parts != [] && parts[|parts| - 1].Text? ==> EndsWithInk(parts[|parts| - 1].text)
  }

  lemma TrimLastShape(m: seq<Part>)
    requires NoneAdjacent(m) && InkAtStart(m)
    ensures NoneAdjacent(TrimLast(m)) && InkAtStart(TrimLast(m)) && InkAtEnd(TrimLast(m))
  {
    if m != [] && m[|m| - 1].Text? {
      var n := |m| - 1;
      TrimEndInk(m[n].text);
      if n == 0 {
        TrimEndKeepsStart(m[0].text);
      }
    }
  }

  lemma {:induction false} DropEmptyShows(m: seq<Part>)
    ensures Visible(DropEmpty(m)) == Visible(m)
    ensures forall i | 0 <= i < |DropEmpty(m)| :: !IsEmptyText(DropEmpty(m)[i])
  {
    if m != [] {
      var front, p := m[..|m| - 1], m[|m| - 1];
      DropEmptyShows(front);
      if IsEmptyText(p) {
        assert Ink(p.text) == "";
        assert VisiblePart(p) == [] && Visible(front) + [] == Visible(front);
        assert DropEmpty(front) + [] == DropEmpty(front);
      } else {
        VisibleAppend(DropEmpty(front), p);
      }
    }
  }

  /** Emptied ends leave items behind them, so what is text at an end was text at that end. */
  ghost predicate SameEnds(r: seq<Part>, m: seq<Part>)
  {
    && (r != [] && r[0].Text? ==> m != [] && m[0] == r[0])
    && (r != [] && r[|r| - 1].Text? ==> m != [] && m[|m| - 1] == r[|r| - 1])
    && (m != [] && !m[|m| - 1].Text? ==> r != [] && r[|r| - 1] == m[|m| - 1])
    && (r == [] ==> |m| <= 1)
  }

  lemma {:induction false} DropEmptyShape(m: seq<Part>)
    requires NoneAdjacent(m)
    ensures NoneAdjacent(DropEmpty(m)) && SameEnds(DropEmpty(m), m)
  {
    if m != [] {
      var front, p := m[..|m| - 1], m[|m| - 1];
      assert m == front + [p];
      forall i | 0 <= i < |front| - 1 ensures !(front[i].Text? && front[i + 1].Text?) {
        assert front[i] == m[i] && front[i + 1] == m[i + 1];
      }
      DropEmptyShape(front);
      DropOneMore(DropEmpty(front), front, p);
    }
  }

  lemma DropOneMore(r: seq<Part>, front: seq<Part>, p: Part)
    requires NoneAdjacent(front + [p]) && NoneAdjacent(r) && SameEnds(r, front)
    ensures NoneAdjacent(r + Unless(IsEmptyText(p), p))
    ensures SameEnds(r + Unless(IsEmptyText(p), p), front + [p])
  {
    var m := front + [p];
    if front != [] {
      assert m[|front| - 1] == front[|front| - 1] && m[|front|] == p && m[0] == front[0];
    }
    if IsEmptyText(p) {
      assert r + [] == r;
    } else if r == [] {
      assert r + [p] == [p];
      if front != [] {
        assert front[0].Text?;
      }
    }
  }

  /** Whatever goes in, what comes out is tidy and shows the same. */
  lemma NormalizedIsTidy(parts: seq<Part>)
    ensures Tidy(Normalized(parts)) && Visible(Normalized(parts)) == Visible(parts)
  {
    MergeFacts(parts);
    TrimFirstShape(Merge(parts));
    TrimFirstShows(Merge(parts));
    var m := TrimFirst(Merge(parts));
    TrimLastShows(m);
    TrimLastShape(m);
    DropEmptyShows(TrimLast(m));
    DropEmptyShape(TrimLast(m));
  }

  lemma {:induction false} MergeIsNoop(parts: seq<Part>)
    requires NoneAdjacent(parts)
    ensures Merge(parts) == parts
  {
    if parts != [] {
      var front := parts[..|parts| - 1];
      MergeIsNoop(front);
      assert parts == front + [parts[|parts| - 1]];
      assert front != [] ==> front[|front| - 1] == parts[|parts| - 2];
    }
  }

  lemma {:induction false} DropIsNoop(parts: seq<Part>)
    requires forall i | 0 <= i < |parts| :: !IsEmptyText(parts[i])
    ensures DropEmpty(parts) == parts
  {
    if parts != [] {
      var front := parts[..|parts| - 1];
      DropIsNoop(front);
      assert parts == front + [parts[|parts| - 1]];
    }
  }

  lemma TidyIsNormal(parts: seq<Part>)
    requires Tidy(parts)
    ensures Normalized(parts) == parts
  {
    MergeIsNoop(parts);
    if parts != [] && parts[0].Text? {
      assert TrimStart(parts[0].text) == parts[0].text;
    }
    assert TrimFirst(parts) == parts;
    if parts != [] && parts[|parts| - 1].Text? {
      assert TrimEnd(parts[|parts| - 1].text) == parts[|parts| - 1].text;
    }
    assert TrimLast(parts) == parts;
    DropIsNoop(parts);
  }
}
