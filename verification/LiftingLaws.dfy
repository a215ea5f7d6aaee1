/** What a lifted list keeps, in the characters and the fields of the parts. */
module LiftingLaws {
  import opened ContentParts
  import opened Lifting

  lemma {:induction false} NewlinesOfBoth(a: string, b: string)
    ensures CountNewlines(a + b) == CountNewlines(a) + CountNewlines(b)
  {
    if b == "" {
      assert a + b == a;
    } else {
      assert (a + b)[..|a + b| - 1] == a + b[..|b| - 1];
      NewlinesOfBoth(a, b[..|b| - 1]);
    }
  }

  lemma {:induction false} NoNewlines(a: string)
    requires '\n' !in a
    ensures CountNewlines(a) == 0
  {
    if a != "" {
      NoNewlines(a[..|a| - 1]);
    }
  }

  lemma OneNewline(a: string, b: string)
    ensures CountNewlines(a + "\n" + b) == CountNewlines(a) + 1 + CountNewlines(b)
  {
    NewlinesOfBoth(a + "\n", b);
    NewlinesOfBoth(a, "\n");
    assert "\n"[..0] == "";
  }

  /** A hole without whitespace closes tight; otherwise it closes to a space, to the one newline
      written there, or to one blank line. */
  lemma GapClosesTo(a: string, b: string, c: string)
    ensures CollapseGap("") == ""
    ensures a != "" && '\n' !in a ==> CollapseGap(a) == " "
    ensures '\n' !in a && '\n' !in b ==> CollapseGap(a + "\n" + b) == "\n"
    ensures CollapseGap(a + "\n" + b + "\n" + c) == "\n\n"
  {
    if '\n' !in a {
      NoNewlines(a);
      if '\n' !in b {
        NoNewlines(b);
      }
    }
    OneNewline(a, b);
    OneNewline(a + "\n" + b, c);
  }

  // ---- what a reader sees

  /** Every item is seen, every character that is not whitespace is seen, in the order written. */
  lemma SeenIs(p: Part, q: seq<Part>, r: seq<Part>, s: string, c: char, t: string)
    ensures Visible([]) == [] && Visible(q + r) == Visible(q) + Visible(r)
    ensures !p.Text? ==> Visible([p]) == [Item(p)]
    ensures Visible([Text("")]) == []
    ensures Visible([Text(s + [c] + t)])
         == Visible([Text(s)]) + (if IsSpace(c) then [] else [Char(c)]) + Visible([Text(t)])
  {
    VisibleBoth(q, r);
    SeenAlone(p);
    SeenAlone(Text(""));
    SeenWithin(s, c, t);
  }

  lemma SeenWithin(s: string, c: char, t: string)
    ensures Visible([Text(s + [c] + t)])
         == Visible([Text(s)]) + (if IsSpace(c) then [] else [Char(c)]) + Visible([Text(t)])
  {
    SeenAlone(Text(s));
    SeenAlone(Text(t));
    SeenAlone(Text(s + [c] + t));
    JoinedTextShowsBoth(s + [c], t);
    JoinedTextShowsBoth(s, [c]);
    assert Ink([c]) == if IsSpace(c) then "" else [c];
  }

  lemma SeenAlone(p: Part)
    ensures Visible([p]) == VisiblePart(p)
  {
    assert [p][..0] == [] && [] + VisiblePart(p) == VisiblePart(p);
  }

  lemma {:induction false} ItemIsSeen(parts: seq<Part>, p: Part)
    ensures Item(p) in Visible(parts) <==> p in parts && !p.Text?
  {
    if parts != [] {
      var front, last := parts[..|parts| - 1], parts[|parts| - 1];
      assert parts == front + [last];
      ItemIsSeen(front, p);
      assert Item(p) in VisiblePart(last) <==> p == last && !p.Text?;
    }
  }

  // ---- which parts are lifted

  /** The rows below the text: attachments, and the notes a card quotes. */
  predicate ShownBelow(p: Part, rule: Rule)
  {
    match p
    case Text(_) => false
    case Link(_, _) => false
    case Media(_, _) => rule.liftMedia
    case Entity(key, _) => key.Some? && rule.embedded.Some? && key.value in rule.embedded.value
  }

  lemma {:induction false} LeftToRead(parts: seq<Part>, rule: Rule, p: Part)
    ensures p in Unlifted(parts, rule) <==> p in parts && !ShownBelow(p, rule)
  {
    if parts != [] {
      var front, last := parts[..|parts| - 1], parts[|parts| - 1];
      assert parts == front + [last];
      LeftToRead(front, rule, p);
    }
  }

  /** Of the links, entities and attachments, just those shown below go; the rest stay. */
  lemma ItemsLeft(parts: seq<Part>, rule: Rule, p: Part)
    requires !p.Text?
    ensures p in Lifted(parts, rule) <==> p in parts && !ShownBelow(p, rule)
  {
    LiftingKeepsTheRest(parts, rule);
    ItemIsSeen(Lifted(parts, rule), p);
    ItemIsSeen(Unlifted(parts, rule), p);
    LeftToRead(parts, rule, p);
  }

  /** Lifting goes part by part: what is left of two lists is what is left of each. */
  lemma {:induction false} LeftOfBoth(p: seq<Part>, q: seq<Part>, rule: Rule)
    ensures Unlifted(p + q, rule) == Unlifted(p, rule) + Unlifted(q, rule)
  {
    if q == [] {
      assert p + q == p;
    } else {
      assert (p + q)[..|p + q| - 1] == p + q[..|q| - 1];
      LeftOfBoth(p, q[..|q| - 1], rule);
    }
  }

  lemma LeftInPlace(before: seq<Part>, p: Part, after: seq<Part>, rule: Rule)
    ensures Unlifted(before + [p] + after, rule)
         == Unlifted(before, rule) + (if ShownBelow(p, rule) then [] else [p]) + Unlifted(after, rule)
  {
    LeftOfBoth(before + [p], after, rule);
    LeftOfBoth(before, [p], rule);
    assert [p][..0] == [] && Unlifted([p], rule) == if ShownBelow(p, rule) then [] else [p];
  }

  /** In place: with the parts around one part, the card shows what it shows of those before, the
      part unless it is shown below, and what it shows of those after. */
  lemma ShownInPlace(before: seq<Part>, p: Part, after: seq<Part>, rule: Rule)
    ensures Visible(Lifted(before + [p] + after, rule))
         == Visible(Lifted(before, rule)) + (if ShownBelow(p, rule) then [] else Visible([p])) + Visible(Lifted(after, rule))
  {
    var left, right, here := Unlifted(before, rule), Unlifted(after, rule), if ShownBelow(p, rule) then [] else [p];
    LiftingKeepsTheRest(before + [p] + after, rule);
    LiftingKeepsTheRest(before, rule);
    LiftingKeepsTheRest(after, rule);
    LeftInPlace(before, p, after, rule);
    VisibleBoth(left + here, right);
    VisibleBoth(left, here);
    assert Visible([]) == [];
  }
}
