/** What each match of a scan becomes, in the match's own fields. */
module ScanLaws {
  import opened ContentParts
  import opened ContentScan

  predicate IsMediaUrl(f: Found)
  {
    f.token.Url? && f.token.media.Some?
  }

  /** Where the attachments among the matches are. */
  function MediaUrls(found: seq<Found>): set<nat>
  {
    set i: nat | i < |found| && IsMediaUrl(found[i])
  }

  lemma OneMoreMatch(found: seq<Found>, f: Found)
    ensures |MediaUrls(found + [f])| == |MediaUrls(found)| + (if IsMediaUrl(f) then 1 else 0)
  {
    if IsMediaUrl(f) {
      assert MediaUrls(found + [f]) == MediaUrls(found) + {|found|};
    } else {
      assert MediaUrls(found + [f]) == MediaUrls(found);
    }
  }

  ghost predicate AllFit(found: seq<Found>, clean: string)
  {
    forall i | 0 <= i < |found| :: Fits(found[i], clean)
  }

  lemma AddToTokens(found: seq<Found>, f: Found, clean: string)
    requires Fits(f, clean)
    ensures var before := TokenParts(found, clean);
            TokenParts(found + [f], clean) == before + if f.token.NotAToken? then [] else [PartOf(f, clean, MediaCount(before))]
  {
    assert (found + [f])[..|found|] == found;
  }

  /** Eight attachments at most, and no fewer than there are URLs for. */
  lemma {:induction false} EightAttachments(found: seq<Found>, clean: string)
    requires AllFit(found, clean)
    ensures MediaCount(TokenParts(found, clean)) == if |MediaUrls(found)| < 8 then |MediaUrls(found)| else 8
  {
    if found == [] {
      assert MediaUrls(found) == {};
    } else {
      var front, f := found[..|found| - 1], found[|found| - 1];
      assert found == front + [f];
      EightAttachments(front, clean);
      OneMoreMatch(front, f);
      AddToTokens(front, f, clean);
      if !f.token.NotAToken? {
        TokensOfMore(TokenParts(front, clean), PartOf(f, clean, MediaCount(TokenParts(front, clean))));
      }
    }
  }

  /** What a match stands for when `earlier` media URLs were met before it. */
  function Becomes(f: Found, clean: string, earlier: nat): seq<Part>
    requires Fits(f, clean)
  {
    match f.token
    case NotAToken => []
    case Reference(key) => [Entity(key, clean[f.index..f.index + f.length])]
    case Url(href, media, kept) =>
      if media.Some? && earlier < 8 then [Media(media.value, href)]
      else [Link(href, clean[f.index..f.index + kept])]
  }

  lemma PartIs(f: Found, clean: string, count: nat, earlier: nat)
    requires Fits(f, clean) && !f.token.NotAToken? && count == if earlier < 8 then earlier else 8
    ensures [PartOf(f, clean, count)] == Becomes(f, clean, earlier)
  {
  }

  /** The matches of a scan all fit. */
  lemma ScanFits(found: seq<Found>, clean: string)
    requires IsScan(found, |clean|)
    ensures AllFit(found, clean)
  {
    forall i | 0 <= i < |found| ensures Fits(found[i], clean) {
      InScan(found, i, clean);
    }
  }

  lemma OneMorePart(before: seq<Found>, f: Found, clean: string)
    requires AllFit(before, clean) && Fits(f, clean)
    ensures TokenParts(before + [f], clean) == TokenParts(before, clean) + Becomes(f, clean, |MediaUrls(before)|)
  {
    EightAttachments(before, clean);
    AddToTokens(before, f, clean);
    if !f.token.NotAToken? {
      PartIs(f, clean, MediaCount(TokenParts(before, clean)), |MediaUrls(before)|);
    }
  }

  /** Each match in its turn: a rejected one leaves no part, one of the first eight media URLs is an
      attachment, any other URL a link, a reference an entity; links and references as written. */
  lemma MatchBecomes(found: seq<Found>, clean: string, i: nat)
    requires AllFit(found, clean) && i < |found|
    ensures TokenParts(found[..i + 1], clean)
         == TokenParts(found[..i], clean) + Becomes(found[i], clean, |MediaUrls(found[..i])|)
  {
    FrontFits(found, clean, i);
    OneMorePart(found[..i], found[i], clean);
    assert found[..i + 1] == found[..i] + [found[i]];
  }

  lemma FrontFits(found: seq<Found>, clean: string, i: nat)
    requires AllFit(found, clean) && i < |found|
    ensures AllFit(found[..i], clean) && Fits(found[i], clean)
  {
  }
}
