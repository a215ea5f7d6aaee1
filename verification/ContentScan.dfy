/** Cutting a note's content into parts: every character lands in exactly one. */
module ContentScan {
  import opened Events
  import opened ContentParts

  const MAX_MEDIA := 8
  const MAX_PARTS := 200

  /** What one regex match turned out to be; `kept` is a URL's length after its tail is trimmed. */
  datatype Token = NotAToken | Url(href: string, media: Option<MediaKind>, kept: nat) | Reference(key: Option<string>)

  datatype Found = Found(index: nat, length: nat, token: Token)

  function Consumed(f: Found): nat
  {
    match f.token
    case NotAToken => 0
    case Url(_, _, kept) => kept
    case Reference(_) => f.length
  }

  /** The matches of one scan: in order, apart, and within the content. */
  predicate IsScan(found: seq<Found>, n: nat)
  {
    && (forall i | 0 <= i < |found| ::
          found[i].length > 0 && found[i].index + found[i].length <= n
          && (found[i].token.Url? ==> 0 < found[i].token.kept <= found[i].length))
    && forall i, j | 0 <= i < j < |found| :: found[i].index + found[i].length <= found[j].index
  }

  datatype Span = Span(start: nat, end: nat)

  /** Each part covers a stretch of the content, and the stretches meet end to end. */
  ghost predicate Covers(spans: seq<Span>, n: nat)
  {
    && (forall i | 0 <= i < |spans| :: spans[i].start < spans[i].end)
    && (forall i | 0 < i < |spans| :: spans[i].start == spans[i - 1].end)
    && (if spans == [] then n == 0 else spans[0].start == 0 && spans[|spans| - 1].end == n)
  }

  /** A part says what its stretch of the content says. */
  predicate Reads(p: Part, clean: string, s: Span, found: seq<Found>)
  {
    s.start <= s.end <= |clean|
    && match p
       case Text(text) => text == clean[s.start..s.end]
       case Link(href, written) =>
         written == clean[s.start..s.end]
         && exists f | f in found :: f.index == s.start && f.token.Url? && f.token.href == href && f.token.kept == s.end - s.start
       case Media(kind, url) =>
         exists f | f in found :: f.index == s.start && f.token == Url(url, Some(kind), s.end - s.start)
       case Entity(key, raw) =>
         raw == clean[s.start..s.end] && exists f | f in found :: f.index == s.start && f.length == s.end - s.start && f.token == Reference(key)
  }

  function MediaCount(parts: seq<Part>): nat
  {
    if parts == [] then 0 else MediaCount(parts[..|parts| - 1]) + (if parts[|parts| - 1].Media? then 1 else 0)
  }

  ghost predicate AllRead(parts: seq<Part>, clean: string, spans: seq<Span>, found: seq<Found>)
  {
    |spans| == |parts| && forall i | 0 <= i < |parts| :: Reads(parts[i], clean, spans[i], found)
  }

  ghost predicate EndsAtItem(parts: seq<Part>)
  {
    parts == [] || !parts[|parts| - 1].Text?
  }

  /** The parts and spans of the content up to `n`. */
  ghost predicate ScannedTo(parts: seq<Part>, clean: string, spans: seq<Span>, found: seq<Found>, n: nat)
  {
    Covers(spans, n) && AllRead(parts, clean, spans, found) && NoneAdjacent(parts)
  }

  lemma AddPart(parts: seq<Part>, clean: string, spans: seq<Span>, found: seq<Found>, n: nat, p: Part, end: nat)
    requires ScannedTo(parts, clean, spans, found, n) && n < end <= |clean|
    requires Reads(p, clean, Span(n, end), found) && (p.Text? ==> EndsAtItem(parts))
    ensures ScannedTo(parts + [p], clean, spans + [Span(n, end)], found, end)
    ensures MediaCount(parts + [p]) == MediaCount(parts) + (if p.Media? then 1 else 0)
  {
    assert (parts + [p])[..|parts|] == parts;
    CoverOn(spans, n, end);
    ReadOn(parts, clean, spans, found, p, Span(n, end));
  }

  lemma CoverOn(spans: seq<Span>, n: nat, end: nat)
    requires Covers(spans, n) && n < end
    ensures Covers(spans + [Span(n, end)], end)
  {
  }

  lemma ReadOn(parts: seq<Part>, clean: string, spans: seq<Span>, found: seq<Found>, p: Part, s: Span)
    requires AllRead(parts, clean, spans, found) && Reads(p, clean, s, found)
    ensures AllRead(parts + [p], clean, spans + [s], found)
  {
  }

  // ---- every token becomes its part

  /** The parts that are not text, in order. */
  function Tokens(parts: seq<Part>): seq<Part>
  {
    if parts == [] then [] else
      Tokens(parts[..|parts| - 1]) + (if parts[|parts| - 1].Text? then [] else [parts[|parts| - 1]])
  }

  predicate Fits(f: Found, clean: string)
  {
    f.index + f.length <= |clean| && f.length > 0 && (f.token.Url? ==> 0 < f.token.kept <= f.length)
  }

  predicate IsToken(f: Found, clean: string)
  {
    Fits(f, clean) && !f.token.NotAToken?
  }

  function PartOf(f: Found, clean: string, mediaCount: nat): Part
    requires IsToken(f, clean)
  {
    var raw := clean[f.index..f.index + Consumed(f)];
    match f.token
    case Url(href, media, _) => if media.Some? && mediaCount < MAX_MEDIA then Media(media.value, href) else Link(href, raw)
    case Reference(key) => Entity(key, raw)
  }

  /** What the matches up to a point stand for, in order; a media URL past the cap is a link. */
  function TokenParts(found: seq<Found>, clean: string): seq<Part>
  {
    if found == [] then [] else
      var f := found[|found| - 1];
      var before := TokenParts(found[..|found| - 1], clean);
      if IsToken(f, clean) then before + [PartOf(f, clean, MediaCount(before))] else before
  }

  /** A match of a scan fits, and the next one starts after it. */
  lemma InScan(found: seq<Found>, i: nat, clean: string)
    requires IsScan(found, |clean|) && i < |found|
    ensures found[i] in found && Fits(found[i], clean)
    ensures i + 1 < |found| ==> found[i].index + found[i].length <= found[i + 1].index
  {
  }

  lemma TokensOfMore(parts: seq<Part>, p: Part)
    ensures Tokens(parts + [p]) == if p.Text? then Tokens(parts) else Tokens(parts) + [p]
    ensures MediaCount(parts + [p]) == MediaCount(parts) + (if p.Media? then 1 else 0)
  {
    assert (parts + [p])[..|parts|] == parts;
    assert Tokens(parts) + [] == Tokens(parts);
  }

  lemma {:induction false} MediaAreTokens(parts: seq<Part>)
    ensures MediaCount(Tokens(parts)) == MediaCount(parts)
  {
    if parts != [] {
      var front, p := parts[..|parts| - 1], parts[|parts| - 1];
      assert parts == front + [p];
      MediaAreTokens(front);
      TokensOfMore(front, p);
      TokensOfMore(Tokens(front), p);
    }
  }

  lemma TokenPartsOfMore(found: seq<Found>, i: nat, clean: string)
    requires i < |found|
    ensures TokenParts(found[..i + 1], clean) ==
              if IsToken(found[i], clean)
              then TokenParts(found[..i], clean) + [PartOf(found[i], clean, MediaCount(TokenParts(found[..i], clean)))]
              else TokenParts(found[..i], clean)
  {
    assert found[..i + 1][..i] == found[..i];
  }

  /** Emits the text since the last token, if any. */
  method FlushText(parts: seq<Part>, clean: string, ghost spans: seq<Span>, ghost found: seq<Found>, textStart: nat, until: nat)
    returns (after: seq<Part>, ghost spans': seq<Span>)
    requires ScannedTo(parts, clean, spans, found, textStart) && EndsAtItem(parts) && textStart <= until <= |clean|
    ensures ScannedTo(after, clean, spans', found, until) && Tokens(after) == Tokens(parts)
    ensures |parts| <= |after| <= |parts| + 1
  {
    after, spans' := parts, spans;
    if until > textStart {
      AddPart(parts, clean, spans, found, textStart, Text(clean[textStart..until]), until);
      TokensOfMore(parts, Text(clean[textStart..until]));
      after := parts + [Text(clean[textStart..until])];
      spans' := spans + [Span(textStart, until)];
    }
  }

  lemma TokenReads(f: Found, clean: string, found: seq<Found>, mediaCount: nat)
    requires f in found && IsToken(f, clean)
    ensures Reads(PartOf(f, clean, mediaCount), clean, Span(f.index, f.index + Consumed(f)), found)
    ensures !PartOf(f, clean, mediaCount).Text? && Consumed(f) > 0 && f.index + Consumed(f) <= |clean|
  {
  }

  lemma AddItem(parts: seq<Part>, clean: string, spans: seq<Span>, found: seq<Found>, s: Span, part: Part)
    requires ScannedTo(parts, clean, spans, found, s.start) && s.start < s.end <= |clean|
    requires Reads(part, clean, s, found) && !part.Text?
    ensures ScannedTo(parts + [part], clean, spans + [s], found, s.end)
    ensures EndsAtItem(parts + [part]) && Tokens(parts + [part]) == Tokens(parts) + [part]
  {
    AddPart(parts, clean, spans, found, s.start, part, s.end);
    TokensOfMore(parts, part);
  }

  /** The text before a token, then the token. */
  method AddToken(parts: seq<Part>, clean: string, ghost spans: seq<Span>, ghost found: seq<Found>, textStart: nat, f: Found, mediaCount: nat)
    returns (after: seq<Part>, ghost spans': seq<Span>)
    requires ScannedTo(parts, clean, spans, found, textStart) && EndsAtItem(parts)
    requires f in found && textStart <= f.index && IsToken(f, clean)
    ensures ScannedTo(after, clean, spans', found, f.index + Consumed(f)) && EndsAtItem(after)
    ensures Tokens(after) == Tokens(parts) + [PartOf(f, clean, mediaCount)]
    ensures |parts| < |after| <= |parts| + 2
  {
    var flushed;
    ghost var spans0;
    flushed, spans0 := FlushText(parts, clean, spans, found, textStart, f.index);
    var part := PartOf(f, clean, mediaCount);
    ghost var s := Span(f.index, f.index + Consumed(f));
    TokenReads(f, clean, found, mediaCount);
    AddItem(flushed, clean, spans0, found, s, part);
    after, spans' := flushed + [part], spans0 + [s];
  }

  /** What the scan keeps: the tokens met so far are the non-text parts, with their media counted. */
  ghost predicate Emitted(parts: seq<Part>, mediaCount: nat, found: seq<Found>, i: nat, clean: string)
    requires i <= |found|
  {
    Tokens(parts) == TokenParts(found[..i], clean) && mediaCount == MediaCount(parts) <= MAX_MEDIA
  }

  lemma EmittedOneMore(parts: seq<Part>, mediaCount: nat, found: seq<Found>, i: nat, clean: string, after: seq<Part>)
    requires i < |found| && Emitted(parts, mediaCount, found, i, clean)
    ensures !IsToken(found[i], clean) ==> Emitted(parts, mediaCount, found, i + 1, clean)
    ensures IsToken(found[i], clean) && Tokens(after) == Tokens(parts) + [PartOf(found[i], clean, mediaCount)] ==>
              Emitted(after, mediaCount + if PartOf(found[i], clean, mediaCount).Media? then 1 else 0, found, i + 1, clean)
  {
    TokenPartsOfMore(found, i, clean);
    MediaAreTokens(parts);
    MediaAreTokens(after);
    if IsToken(found[i], clean) {
      TokensOfMore(Tokens(parts), PartOf(found[i], clean, mediaCount));
    }
  }

  /** One match of the scan. */
  method ReadMatch(parts: seq<Part>, clean: string, ghost spans: seq<Span>, found: seq<Found>, i: nat, textStart: nat, mediaCount: nat)
    returns (after: seq<Part>, ghost spans': seq<Span>, textStart': nat, mediaCount': nat)
    requires i < |found| && Fits(found[i], clean) && textStart <= found[i].index
    requires ScannedTo(parts, clean, spans, found, textStart) && EndsAtItem(parts) && Emitted(parts, mediaCount, found, i, clean)
    ensures ScannedTo(after, clean, spans', found, textStart') && EndsAtItem(after)
    ensures Emitted(after, mediaCount', found, i + 1, clean)
    ensures textStart' <= found[i].index + found[i].length && |after| <= |parts| + 2
  {
    after, spans', textStart', mediaCount' := parts, spans, textStart, mediaCount;
    var f := found[i];
    if !f.token.NotAToken? {
      after, spans' := AddToken(parts, clean, spans, found, textStart, f, mediaCount);
      if PartOf(f, clean, mediaCount).Media? {
        mediaCount' := mediaCount + 1;
      }
      textStart' := f.index + Consumed(f);
    }
    EmittedOneMore(parts, mediaCount, found, i, clean, after);
  }

  /** Splits a note body into parts, in source order. Of the tokens all become their parts, unless
      the cap on parts stops the scan after the first `read` matches. */
  method ParseContent(clean: string, found: seq<Found>) returns (parts: seq<Part>, ghost spans: seq<Span>, ghost read: nat)
    requires IsScan(found, |clean|)
    ensures ScannedTo(parts, clean, spans, found, |clean|)
    ensures MediaCount(parts) <= MAX_MEDIA && |parts| <= MAX_PARTS + 2
    ensures read <= |found| && (read < |found| ==> |parts| >= MAX_PARTS)
    ensures Tokens(parts) == TokenParts(found[..read], clean)
  {
    parts, spans := [], [];
    var textStart: nat, mediaCount: nat, i: nat := 0, 0, 0;
    while i < |found| && |parts| < MAX_PARTS
      invariant 0 <= i <= |found| && textStart <= |clean| && (i < |found| ==> textStart <= found[i].index)
      invariant ScannedTo(parts, clean, spans, found, textStart) && EndsAtItem(parts)
      invariant Emitted(parts, mediaCount, found, i, clean) && |parts| <= MAX_PARTS + 1
    {
      InScan(found, i, clean);
      parts, spans, textStart, mediaCount := ReadMatch(parts, clean, spans, found, i, textStart, mediaCount);
      i := i + 1;
    }
    read := i;
    MediaAreTokens(parts);
    parts, spans := FlushText(parts, clean, spans, found, textStart, |clean|);
    MediaAreTokens(parts);
  }

  /** The stretches the parts cover, read one after the other, are the content. */
  function Source(spans: seq<Span>, clean: string): string
    requires forall i | 0 <= i < |spans| :: spans[i].start <= spans[i].end <= |clean|
  {
    if spans == [] then "" else Source(spans[..|spans| - 1], clean) + clean[spans[|spans| - 1].start..spans[|spans| - 1].end]
  }

  lemma {:induction false} CoveringReadsAll(spans: seq<Span>, clean: string, n: nat)
    requires Covers(spans, n) && n <= |clean|
    requires forall i | 0 <= i < |spans| :: spans[i].start <= spans[i].end <= |clean|
    ensures Source(spans, clean) == clean[..n]
  {
    if spans != [] {
      var front, last := spans[..|spans| - 1], spans[|spans| - 1];
      assert Covers(front, last.start);
      CoveringReadsAll(front, clean, last.start);
      assert clean[..last.start] + clean[last.start..n] == clean[..n];
    }
  }
}
