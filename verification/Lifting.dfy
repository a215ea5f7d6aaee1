/** Lifting attachments and quoted notes out of the text, closing the hole they leave. */
module Lifting {
  import opened Events
  import opened ContentParts

  function CountNewlines(s: string): nat
  {
    if s == "" then 0 else CountNewlines(s[..|s| - 1]) + (if s[|s| - 1] == '\n' then 1 else 0)
  }

  /** What stays of the whitespace around a lifted run. */
  function CollapseGap(whitespace: string): string
  {
    if whitespace == "" then ""
    else if CountNewlines(whitespace) >= 2 then "\n\n"
    else if CountNewlines(whitespace) == 1 then "\n"
    else " "
  }

  /** Which parts a card renders outside the text; never text itself. */
  datatype Rule = Rule(liftMedia: bool, embedded: Option<set<string>>)
  {
    predicate Lifts(p: Part)
    {
      (p.Media? && liftMedia)
      || (p.Entity? && p.key.Some? && embedded.Some? && p.key.value in embedded.value)
    }
  }

  /** The walk's state: what is emitted, and the whitespace of the gap still open. */
  datatype Walk = Walk(result: seq<Part>, gap: Option<string>)

  function LastText(result: seq<Part>): Option<string>
  {
    if result != [] && result[|result| - 1].Text? then Some(result[|result| - 1].text) else None
  }

  /** A lifted part opens a gap, taking the whitespace before it. */
  function OpenGap(w: Walk): Walk
  {
    if w.gap.Some? then w
    else
      match LastText(w.result)
      case None => Walk(w.result, Some(""))
      case Some(s) => Walk(w.result[..|w.result| - 1] + [Text(TrimEnd(s))], Some(Trailing(s)))
  }

  function AddText(w: Walk, s: string): Walk
  {
    if w.gap.None? then Walk(w.result + [Text(s)], None)
    else
      var gap := w.gap.value + Leading(s);
      if TrimStart(s) == "" then Walk(w.result, Some(gap))
      else Walk(w.result + [Text(CollapseGap(gap) + TrimStart(s))], None)
  }

  function AddItem(w: Walk, p: Part): Walk
  {
    Walk((if w.gap.Some? then w.result + [Text(CollapseGap(w.gap.value))] else w.result) + [p], None)
  }

  function Step(w: Walk, p: Part, rule: Rule): Walk
  {
    if rule.Lifts(p) then OpenGap(w) else if p.Text? then AddText(w, p.text) else AddItem(w, p)
  }

  function WalkAll(parts: seq<Part>, rule: Rule): Walk
  {
    if parts == [] then Walk([], None) else Step(WalkAll(parts[..|parts| - 1], rule), parts[|parts| - 1], rule)
  }

  function Lifted(parts: seq<Part>, rule: Rule): seq<Part>
  {
    Normalized(WalkAll(parts, rule).result)
  }

  /** The parts left to read. */
  function Unlifted(parts: seq<Part>, rule: Rule): seq<Part>
  {
    if parts == [] then [] else
      Unlifted(parts[..|parts| - 1], rule) + Unless(rule.Lifts(parts[|parts| - 1]), parts[|parts| - 1])
  }

  /** One walk over the parts, carrying the open gap. */
  method LiftParts(parts: seq<Part>, rule: Rule) returns (r: seq<Part>)
    ensures r == Lifted(parts, rule)
  {
    var result: seq<Part> := [];
    var gap: Option<string> := None;
    for i := 0 to |parts|
      invariant Walk(result, gap) == WalkAll(parts[..i], rule)
    {
      assert parts[..i + 1][..i] == parts[..i];
      var part := parts[i];
      if rule.Lifts(part) {
        if gap.None? {
          var last := LastText(result);
          if last.Some? {
            gap := Some(Trailing(last.value));
            result := result[..|result| - 1] + [Text(TrimEnd(last.value))];
          } else {
            gap := Some("");
          }
        }
      } else if part.Text? {
        if gap.None? {
          result := result + [Text(part.text)];
        } else {
          gap := Some(gap.value + Leading(part.text));
          if |TrimStart(part.text)| > 0 {
            result := result + [Text(CollapseGap(gap.value) + TrimStart(part.text))];
            gap := None;
          }
        }
      } else {
        if gap.Some? {
          result := result + [Text(CollapseGap(gap.value))];
          gap := None;
        }
        result := result + [part];
      }
    }
    assert parts[..|parts|] == parts;
    r := Normalize(result);
  }

  // ---- nothing visible is lost

  ghost predicate WalkOk(w: Walk, shown: seq<Seen>, rule: Rule)
  {
    && Visible(w.result) == shown && (w.gap.Some? ==> Blank(w.gap.value))
    && forall p | p in w.result :: !rule.Lifts(p)
  }

  lemma CollapsedIsBlank(s: string)
    ensures Blank(CollapseGap(s)) && Ink(CollapseGap(s)) == ""
  {
    BlankHasNoInk(CollapseGap(s));
  }

  lemma OpenGapOk(w: Walk, shown: seq<Seen>, rule: Rule)
    requires WalkOk(w, shown, rule)
    ensures WalkOk(OpenGap(w), shown, rule)
  {
    if w.gap.None? {
      TrimLastShows(w.result);
      assert OpenGap(w).result == TrimLast(w.result);
      if LastText(w.result).Some? {
        SplitTrailing(LastText(w.result).value);
      }
    }
  }

  lemma BlankBoth(s: string, t: string)
    requires Blank(s) && Blank(t)
    ensures Blank(s + t)
  {
  }

  lemma InkAfterGap(gap: string, s: string)
    ensures Ink(CollapseGap(gap) + TrimStart(s)) == Ink(s)
  {
    SplitLeading(s);
    CollapsedIsBlank(gap);
    InkOfBoth(CollapseGap(gap), TrimStart(s));
    assert "" + Ink(s) == Ink(s);
  }

  lemma SameInkShows(result: seq<Part>, t: string, s: string)
    requires Ink(t) == Ink(s)
    ensures Visible(result + [Text(t)]) == Visible(result) + VisiblePart(Text(s))
  {
    VisibleAppend(result, Text(t));
  }

  lemma AddTextOk(w: Walk, shown: seq<Seen>, rule: Rule, s: string)
    requires WalkOk(w, shown, rule)
    ensures WalkOk(AddText(w, s), shown + VisiblePart(Text(s)), rule)
  {
    if w.gap.None? {
      VisibleAppend(w.result, Text(s));
    } else {
      SplitLeading(s);
      BlankBoth(w.gap.value, Leading(s));
      if TrimStart(s) == "" {
        assert VisiblePart(Text(s)) == [] && shown + [] == shown;
      } else {
        InkAfterGap(w.gap.value + Leading(s), s);
        SameInkShows(w.result, CollapseGap(w.gap.value + Leading(s)) + TrimStart(s), s);
      }
    }
  }

  lemma AddItemOk(w: Walk, shown: seq<Seen>, rule: Rule, p: Part)
    requires WalkOk(w, shown, rule) && !rule.Lifts(p)
    ensures WalkOk(AddItem(w, p), shown + VisiblePart(p), rule)
  {
    if w.gap.Some? {
      var q := CollapseGap(w.gap.value);
      CollapsedIsBlank(w.gap.value);
      SameInkShows(w.result, q, "");
      assert VisiblePart(Text("")) == [] && shown + [] == shown;
      VisibleAppend(w.result + [Text(q)], p);
    } else {
      VisibleAppend(w.result, p);
    }
  }

  lemma {:induction false} WalkShows(parts: seq<Part>, rule: Rule)
    ensures WalkOk(WalkAll(parts, rule), Visible(Unlifted(parts, rule)), rule)
  {
    if parts != [] {
      var front, p := parts[..|parts| - 1], parts[|parts| - 1];
      WalkShows(front, rule);
      var w, shown := WalkAll(front, rule), Visible(Unlifted(front, rule));
      if rule.Lifts(p) {
        OpenGapOk(w, shown, rule);
        assert Unlifted(front, rule) + [] == Unlifted(front, rule);
      } else {
        VisibleAppend(Unlifted(front, rule), p);
        if p.Text? {
          AddTextOk(w, shown, rule, p.text);
        } else {
          AddItemOk(w, shown, rule, p);
        }
      }
    }
  }

  lemma {:induction false} MergeMembers(parts: seq<Part>)
    ensures forall p | p in Merge(parts) && !p.Text? :: p in parts
  {
    if parts != [] {
      var front := parts[..|parts| - 1];
      MergeMembers(front);
      assert parts == front + [parts[|parts| - 1]];
      assert forall p | p in Merge(parts) && !p.Text? :: p in Merge(front) || p == parts[|parts| - 1];
    }
  }

  lemma {:induction false} DropMembers(parts: seq<Part>)
    ensures forall p | p in DropEmpty(parts) :: p in parts
  {
    if parts != [] {
      DropMembers(parts[..|parts| - 1]);
      assert parts == parts[..|parts| - 1] + [parts[|parts| - 1]];
    }
  }

  lemma NormalizedMembers(parts: seq<Part>)
    ensures forall p | p in Normalized(parts) && !p.Text? :: p in parts
  {
    var m := Merge(parts);
    MergeMembers(parts);
    DropMembers(TrimLast(TrimFirst(m)));
    TrimmedMembers(m);
  }

  lemma TrimmedMembers(m: seq<Part>)
    ensures forall p | p in TrimLast(TrimFirst(m)) && !p.Text? :: p in m
  {
    var a := TrimFirst(m);
    forall p | p in a && !p.Text? ensures p in m {
      var i :| 0 <= i < |a| && a[i] == p;
      assert m[i] == p;
    }
    forall p | p in TrimLast(a) && !p.Text? ensures p in a {
      var i :| 0 <= i < |TrimLast(a)| && TrimLast(a)[i] == p;
      assert a[i] == p;
    }
  }

  /** Lifting keeps every other part in order with all the ink between them, and leaves no lifted
      part, no empty text, no two texts side by side and no whitespace at the ends. */
  lemma LiftingKeepsTheRest(parts: seq<Part>, rule: Rule)
    ensures Visible(Lifted(parts, rule)) == Visible(Unlifted(parts, rule))
    ensures Tidy(Lifted(parts, rule))
    ensures forall p | p in Lifted(parts, rule) :: !rule.Lifts(p)
  {
    WalkShows(parts, rule);
    NormalizedIsTidy(WalkAll(parts, rule).result);
    NormalizedMembers(WalkAll(parts, rule).result);
  }

  lemma {:induction false} NothingToLift(parts: seq<Part>, rule: Rule)
    requires forall p | p in parts :: !rule.Lifts(p)
    ensures WalkAll(parts, rule) == Walk(parts, None)
  {
    if parts != [] {
      var front := parts[..|parts| - 1];
      assert parts == front + [parts[|parts| - 1]];
      NothingToLift(front, rule);
    }
  }

  /** Lifting twice is lifting once. */
  lemma LiftingIsIdempotent(parts: seq<Part>, rule: Rule)
    ensures Lifted(Lifted(parts, rule), rule) == Lifted(parts, rule)
  {
    LiftingKeepsTheRest(parts, rule);
    NothingToLift(Lifted(parts, rule), rule);
    TidyIsNormal(Lifted(parts, rule));
  }

  // ---- the hole closes to one separator

  /** A run of lifted parts and the whitespace between them. */
  ghost predicate IsRun(run: seq<Part>, rule: Rule)
  {
    forall p | p in run :: rule.Lifts(p) || (p.Text? && Blank(p.text))
  }

  /** All the whitespace written inside a run. */
  function SpaceIn(run: seq<Part>): string
  {
    if run == [] then "" else
      SpaceIn(run[..|run| - 1]) + (if run[|run| - 1].Text? then run[|run| - 1].text else "")
  }

  lemma {:induction false} LeadingOfBlank(s: string)
    requires Blank(s)
    ensures Leading(s) == s && TrimStart(s) == ""
  {
    if s != "" {
      LeadingOfBlank(s[1..]);
      assert s == [s[0]] + s[1..];
    }
  }

  lemma WidenOne(w: Walk, p: Part, rule: Rule)
    requires w.gap.Some? && (rule.Lifts(p) || (p.Text? && Blank(p.text)))
    ensures Step(w, p, rule) == Walk(w.result, Some(w.gap.value + (if p.Text? then p.text else "")))
  {
    if p.Text? {
      LeadingOfBlank(p.text);
    } else {
      assert w.gap.value + "" == w.gap.value;
    }
  }

  lemma {:induction false} RunWidensGap(parts: seq<Part>, run: seq<Part>, rule: Rule)
    requires WalkAll(parts, rule).gap.Some? && IsRun(run, rule)
    ensures WalkAll(parts + run, rule) == Walk(WalkAll(parts, rule).result, Some(WalkAll(parts, rule).gap.value + SpaceIn(run)))
  {
    var gap := WalkAll(parts, rule).gap.value;
    if run == [] {
      assert parts + run == parts;
      assert gap + "" == gap;
    } else {
      var front, p := run[..|run| - 1], run[|run| - 1];
      assert run == front + [p];
      RunWidensGap(parts, front, rule);
      assert (parts + run)[..|parts + run| - 1] == parts + front;
      WidenOne(WalkAll(parts + front, rule), p, rule);
      Regrouped(gap, SpaceIn(front), if p.Text? then p.text else "");
    }
  }

  /** Between two stretches of text, a whole run of lifted parts leaves one separator, as wide as
      the whitespace around and inside the run calls for. */
  lemma HoleCloses(a: string, first: Part, run: seq<Part>, b: string, rule: Rule)
    requires rule.Lifts(first) && IsRun(run, rule) && TrimStart(b) != ""
    ensures WalkAll([Text(a), first] + run + [Text(b)], rule)
         == Walk([Text(TrimEnd(a)), Text(CollapseGap(Trailing(a) + SpaceIn(run) + Leading(b)) + TrimStart(b))], None)
  {
    var head := [Text(a)];
    assert head[..0] == [] && [] + [Text(a)] == head;
    assert WalkAll(head, rule) == Walk(head, None);
    var both := [Text(a), first];
    assert both[..1] == head;
    assert head[..0] + [Text(TrimEnd(a))] == [Text(TrimEnd(a))];
    assert WalkAll(both, rule) == Walk([Text(TrimEnd(a))], Some(Trailing(a)));
    RunWidensGap(both, run, rule);
    var all := both + run + [Text(b)];
    assert all[..|all| - 1] == both + run;
  }
}
