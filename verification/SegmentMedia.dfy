/** A note's attachments, each shown once however the note is split. */
module SegmentMedia {
  import opened Order
  import opened ContentParts
  import opened Segments

  /** The URLs attached in a stretch of parts, in order, repeats included. */
  function Urls(parts: seq<Part>): seq<string>
  {
    if parts == [] then [] else
      Urls(parts[..|parts| - 1]) + (if parts[|parts| - 1].Media? then [parts[|parts| - 1].url] else [])
  }

  function RunOf(s: Segment): seq<Part>
  {
    if s.Run? then s.parts else []
  }

  /** All URLs attached across the runs. */
  function AllUrls(segments: seq<Segment>): seq<string>
  {
    if segments == [] then [] else AllUrls(segments[..|segments| - 1]) + Urls(RunOf(segments[|segments| - 1]))
  }

  function Concat(lists: seq<seq<Part>>): seq<Part>
  {
    if lists == [] then [] else Concat(lists[..|lists| - 1]) + lists[|lists| - 1]
  }

  ghost predicate AllMediaFrom(media: seq<Part>, parts: seq<Part>)
  {
    forall p | p in media :: p.Media? && p in parts
  }

  lemma UrlsOfMore(parts: seq<Part>, p: Part)
    ensures Urls(parts + [p]) == if p.Media? then Urls(parts) + [p.url] else Urls(parts)
  {
    assert (parts + [p])[..|parts|] == parts;
  }

  lemma {:induction false} UrlsOfBoth(p: seq<Part>, q: seq<Part>)
    ensures Urls(p + q) == Urls(p) + Urls(q)
  {
    if q == [] {
      assert p + q == p && Urls(p) + [] == Urls(p);
    } else {
      var front, last := q[..|q| - 1], q[|q| - 1];
      var added := if last.Media? then [last.url] else [];
      UrlsOfBoth(p, front);
      assert (p + q)[..|p + q| - 1] == p + front;
      assert Urls(p + q) == Urls(p) + Urls(front) + added;
      Regrouped(Urls(p), Urls(front), added);
    }
  }

  /** The attachments kept from the parts read so far. */
  ghost predicate Gallery(media: seq<Part>, read: seq<Part>)
  {
    Urls(media) == FirstOccurrences(Urls(read)) && |Urls(media)| == |media|
  }

  lemma GalleryGrows(media: seq<Part>, read: seq<Part>, p: Part)
    requires Gallery(media, read)
    ensures p.Media? && p.url !in Elements(Urls(media)) ==> Gallery(media + [p], read + [p])
    ensures !p.Media? || p.url in Elements(Urls(media)) ==> Gallery(media, read + [p])
    ensures p.Media? ==> Elements(Urls(media + [p])) == Elements(Urls(media)) + {p.url}
  {
    UrlsOfMore(read, p);
    UrlsOfMore(media, p);
    if p.Media? {
      FirstOccurrencesOfMore(Urls(read), p.url);
      ElementsOfMore(Urls(media), p.url);
    }
  }

  /** The attachments of one stretch, each URL at its first mention. */
  method MediaParts(parts: seq<Part>) returns (media: seq<Part>)
    ensures Urls(media) == FirstOccurrences(Urls(parts)) && |Urls(media)| == |media| && AllMediaFrom(media, parts)
  {
    media := [];
    var seen: set<string> := {};
    for i := 0 to |parts|
      invariant Gallery(media, parts[..i]) && AllMediaFrom(media, parts) && seen == Elements(Urls(media))
    {
      var p := parts[i];
      assert parts[..i + 1] == parts[..i] + [p];
      GalleryGrows(media, parts[..i], p);
      if p.Media? && p.url !in seen {
        seen := seen + {p.url};
        media := media + [p];
      }
    }
    assert parts[..|parts|] == parts;
  }

  // ---- carrying the dedup across runs

  /** The URLs of `q` that are not in `p`. */
  function NewIn(p: seq<string>, q: seq<string>): seq<string>
  {
    if q == [] then [] else NewIn(p, q[..|q| - 1]) + (if q[|q| - 1] in p then [] else [q[|q| - 1]])
  }

  lemma {:induction false} NewInMembers(p: seq<string>, q: seq<string>)
    ensures forall x :: x in NewIn(p, q) <==> x in q && x !in p
  {
    if q != [] {
      NewInMembers(p, q[..|q| - 1]);
      assert q == q[..|q| - 1] + [q[|q| - 1]];
    }
  }

  /** First occurrences over two lists: those of the first, then what the second adds. */
  lemma {:induction false} FirstOfBoth(p: seq<string>, q: seq<string>)
    ensures FirstOccurrences(p + q) == FirstOccurrences(p) + NewIn(p, FirstOccurrences(q))
  {
    if q == [] {
      assert p + q == p && FirstOccurrences(p) + [] == FirstOccurrences(p);
    } else {
      var front, x := q[..|q| - 1], q[|q| - 1];
      FirstOfBoth(p, front);
      assert p + q == p + front + [x] && q == front + [x];
      FirstOccurrencesOfMore(p + front, x);
      FirstOccurrencesOfMore(front, x);
      FirstAddsOne(p, front, x);
    }
  }

  lemma FirstAddsOne(p: seq<string>, front: seq<string>, x: string)
    requires FirstOccurrences(p + front) == FirstOccurrences(p) + NewIn(p, FirstOccurrences(front))
    ensures (if x in FirstOccurrences(p + front) then FirstOccurrences(p + front) else FirstOccurrences(p + front) + [x])
         == FirstOccurrences(p)
            + NewIn(p, if x in FirstOccurrences(front) then FirstOccurrences(front) else FirstOccurrences(front) + [x])
  {
    var f, g := FirstOccurrences(p), FirstOccurrences(front);
    NewInMembers(p, g);
    InFirst(p, x);
    if x !in g {
      assert (g + [x])[..|g|] == g;
      if x in p {
        assert NewIn(p, g) + [] == NewIn(p, g);
      } else {
        assert f + NewIn(p, g) + [x] == f + (NewIn(p, g) + [x]);
      }
    }
  }

  lemma InFirst(p: seq<string>, x: string)
    ensures x in FirstOccurrences(p) <==> x in p
  {
    assert x in Elements(FirstOccurrences(p)) <==> x in Elements(p);
  }

  lemma {:induction false} NewInSame(p: seq<string>, r: seq<string>, q: seq<string>)
    requires Elements(p) == Elements(r)
    ensures NewIn(p, q) == NewIn(r, q)
  {
    if q != [] {
      NewInSame(p, r, q[..|q| - 1]);
      assert q[|q| - 1] in Elements(p) <==> q[|q| - 1] in Elements(r);
    }
  }

  /** What is left of the media read so far once what `before` showed is skipped. */
  ghost predicate Skipped(list: seq<Part>, before: seq<string>, read: seq<Part>)
  {
    Urls(list) == NewIn(before, Urls(read)) && |Urls(list)| == |list|
  }

  /** The filter over one run: what has been shown already is skipped. */
  method SkipShown(media: seq<Part>, shown: set<string>, ghost before: seq<string>) returns (list: seq<Part>, seen: set<string>)
    requires shown == Elements(before) && NoDuplicates(Urls(media)) && |Urls(media)| == |media|
    requires forall p | p in media :: p.Media?
    ensures Urls(list) == NewIn(before, Urls(media)) && |Urls(list)| == |list|
    ensures seen == shown + Elements(Urls(list)) && forall p | p in list :: p in media
  {
    list, seen := [], shown;
    assert media[..0] == [] && Elements(Urls(list)) == {};
    for i := 0 to |media|
      invariant Skipped(list, before, media[..i]) && seen == shown + Elements(Urls(list))
      invariant forall p | p in list :: p in media
    {
      SkipTurn(list, before, media, i);
      if media[i].url !in seen {
        seen := seen + {media[i].url};
        list := list + [media[i]];
      }
    }
    assert media[..|media|] == media;
  }

  lemma SkippedGrows(list: seq<Part>, before: seq<string>, read: seq<Part>, p: Part)
    requires Skipped(list, before, read) && p.Media? && p.url !in Urls(read)
    ensures p.url !in Elements(Urls(list))
    ensures p.url in Elements(before) ==> Skipped(list, before, read + [p])
    ensures p.url !in Elements(before) ==> Skipped(list + [p], before, read + [p])
    ensures Elements(Urls(list + [p])) == Elements(Urls(list)) + {p.url}
  {
    UrlsOfMore(read, p);
    UrlsOfMore(list, p);
    NewInMembers(before, Urls(read));
    NewInOneMore(before, Urls(read), p.url);
    ElementsOfMore(Urls(list), p.url);
  }

  lemma NewInOneMore(before: seq<string>, urls: seq<string>, x: string)
    ensures NewIn(before, urls + [x]) == if x in Elements(before) then NewIn(before, urls) else NewIn(before, urls) + [x]
  {
    assert (urls + [x])[..|urls|] == urls;
    assert NewIn(before, urls) + [] == NewIn(before, urls);
  }

  lemma SplitAt<T>(q: seq<T>, i: nat)
    requires i < |q|
    ensures q == q[..i] + [q[i]] + q[i + 1..] && q[..i + 1] == q[..i] + [q[i]]
  {
  }

  /** Within one run the URLs differ. */
  lemma FreshInRun(read: seq<Part>, p: Part, rest: seq<Part>)
    requires NoDuplicates(Urls(read + [p] + rest)) && p.Media?
    ensures p.url !in Urls(read)
  {
    UrlsOfMore(read, p);
    UrlsOfBoth(read + [p], rest);
    ApartFromLast(Urls(read), p.url, Urls(rest));
  }

  lemma SkipTurn(list: seq<Part>, before: seq<string>, media: seq<Part>, i: nat)
    requires i < |media| && NoDuplicates(Urls(media)) && media[i].Media? && Skipped(list, before, media[..i])
    ensures media[i].url !in Elements(Urls(list))
    ensures media[i].url in Elements(before) ==> Skipped(list, before, media[..i + 1])
    ensures media[i].url !in Elements(before) ==> Skipped(list + [media[i]], before, media[..i + 1])
    ensures Elements(Urls(list + [media[i]])) == Elements(Urls(list)) + {media[i].url}
  {
    SplitAt(media, i);
    FreshInRun(media[..i], media[i], media[i + 1..]);
    SkippedGrows(list, before, media[..i], media[i]);
  }

  lemma ApartFromLast(p: seq<string>, u: string, q: seq<string>)
    requires NoDuplicates(p + [u] + q)
    ensures u !in p
  {
    forall i | 0 <= i < |p| ensures p[i] != u {
      assert (p + [u] + q)[i] == p[i] && (p + [u] + q)[|p|] == u;
    }
  }

  /** Each list holds attachments of its own segment. */
  ghost predicate OwnMedia(lists: seq<seq<Part>>, read: seq<Segment>)
    requires |lists| == |read|
  {
    forall k | 0 <= k < |lists| :: AllMediaFrom(lists[k], RunOf(read[k]))
  }

  /** A segment's list: its own URLs at their first mention, less those of the segments before. */
  ghost predicate IsShareOf(list: seq<Part>, before: seq<Segment>, segment: Segment)
  {
    Urls(list) == NewIn(AllUrls(before), FirstOccurrences(Urls(RunOf(segment))))
  }

  ghost predicate Shared(lists: seq<seq<Part>>, read: seq<Segment>)
    requires |lists| == |read|
  {
    forall k | 0 <= k < |lists| :: IsShareOf(lists[k], read[..k], read[k])
  }

  /** The lists dealt out for the segments read so far. */
  ghost predicate Dealt(lists: seq<seq<Part>>, read: seq<Segment>)
  {
    && |lists| == |read| && Urls(Concat(lists)) == FirstOccurrences(AllUrls(read))
    && OwnMedia(lists, read) && Shared(lists, read)
  }

  /** One list per segment; a URL belongs to the first segment it was written in, and to no other. */
  method SegmentMedia(segments: seq<Segment>) returns (lists: seq<seq<Part>>)
    ensures |lists| == |segments| && Urls(Concat(lists)) == FirstOccurrences(AllUrls(segments))
    ensures OwnMedia(lists, segments) && Shared(lists, segments)
  {
    lists := [];
    var seen: set<string> := {};
    for i := 0 to |segments|
      invariant Dealt(lists, segments[..i]) && seen == Elements(Urls(Concat(lists)))
    {
      var list;
      list, seen := DealOne(segments[i], seen, Urls(Concat(lists)));
      SplitAt(segments, i);
      DealtOneMore(lists, segments[..i], segments[i], list);
      lists := lists + [list];
    }
    assert segments[..|segments|] == segments;
  }

  /** The list of one segment. */
  method DealOne(segment: Segment, shown: set<string>, ghost before: seq<string>) returns (list: seq<Part>, seen: set<string>)
    requires shown == Elements(before)
    ensures Urls(list) == NewIn(before, FirstOccurrences(Urls(RunOf(segment)))) && AllMediaFrom(list, RunOf(segment))
    ensures seen == shown + Elements(Urls(list))
  {
    list, seen := [], shown;
    assert Elements(Urls(list)) == {};
    if segment.Run? {
      var media := MediaParts(segment.parts);
      list, seen := SkipShown(media, shown, before);
    }
  }

  lemma DealtOneMore(lists: seq<seq<Part>>, read: seq<Segment>, segment: Segment, list: seq<Part>)
    requires Dealt(lists, read) && AllMediaFrom(list, RunOf(segment))
    requires Urls(list) == NewIn(Urls(Concat(lists)), FirstOccurrences(Urls(RunOf(segment))))
    ensures Dealt(lists + [list], read + [segment])
    ensures Elements(Urls(Concat(lists + [list]))) == Elements(Urls(Concat(lists))) + Elements(Urls(list))
  {
    AllUrlsOfMore(read, segment);
    OwnMediaGrows(lists, read, segment, list);
    NewInSame(Urls(Concat(lists)), AllUrls(read), FirstOccurrences(Urls(RunOf(segment))));
    SharedGrows(lists, read, segment, list);
    OneMoreList(lists, list, AllUrls(read), Urls(RunOf(segment)));
  }

  lemma AllUrlsOfMore(read: seq<Segment>, segment: Segment)
    ensures AllUrls(read + [segment]) == AllUrls(read) + Urls(RunOf(segment))
  {
    assert (read + [segment])[..|read|] == read;
  }

  lemma OwnMediaGrows(lists: seq<seq<Part>>, read: seq<Segment>, segment: Segment, list: seq<Part>)
    requires |lists| == |read| && OwnMedia(lists, read) && AllMediaFrom(list, RunOf(segment))
    ensures OwnMedia(lists + [list], read + [segment])
  {
  }

  lemma SharedGrows(lists: seq<seq<Part>>, read: seq<Segment>, segment: Segment, list: seq<Part>)
    requires |lists| == |read| && Shared(lists, read) && IsShareOf(list, read, segment)
    ensures Shared(lists + [list], read + [segment])
  {
    var more := read + [segment];
    forall k | 0 <= k < |lists + [list]| ensures IsShareOf((lists + [list])[k], more[..k], more[k]) {
      assert more[..k] == read[..k];
      assert read[..|read|] == read;
    }
  }

  /** A URL's attachment is listed under the first segment that writes it, and under that alone. */
  lemma UrlGoesToFirst(lists: seq<seq<Part>>, segments: seq<Segment>, k: nat, url: string)
    requires |lists| == |segments| && Shared(lists, segments) && k < |segments|
    ensures url in Urls(lists[k])
            <==> url in Urls(RunOf(segments[k])) && forall j | 0 <= j < k :: url !in Urls(RunOf(segments[j]))
  {
    assert IsShareOf(lists[k], segments[..k], segments[k]);
    NewInMembers(AllUrls(segments[..k]), FirstOccurrences(Urls(RunOf(segments[k]))));
    InFirst(Urls(RunOf(segments[k])), url);
    InAllUrls(segments[..k], url);
    assert forall j | 0 <= j < k :: segments[..k][j] == segments[j];
  }

  lemma {:induction false} InAllUrls(segments: seq<Segment>, url: string)
    ensures url in AllUrls(segments) <==> exists j :: 0 <= j < |segments| && url in Urls(RunOf(segments[j]))
  {
    if segments != [] {
      var front := segments[..|segments| - 1];
      InAllUrls(front, url);
      assert forall j | 0 <= j < |front| :: front[j] == segments[j];
    }
  }

  lemma ConcatOneMore(lists: seq<seq<Part>>, list: seq<Part>)
    ensures Concat(lists + [list]) == Concat(lists) + list
  {
    assert (lists + [list])[..|lists|] == lists;
  }

  lemma OneMoreList(lists: seq<seq<Part>>, list: seq<Part>, before: seq<string>, urls: seq<string>)
    requires Urls(Concat(lists)) == FirstOccurrences(before)
    requires Urls(list) == NewIn(FirstOccurrences(before), FirstOccurrences(urls))
    ensures Urls(Concat(lists + [list])) == FirstOccurrences(before + urls)
    ensures Elements(Urls(Concat(lists + [list]))) == Elements(Urls(Concat(lists))) + Elements(Urls(list))
  {
    ConcatOneMore(lists, list);
    UrlsOfBoth(Concat(lists), list);
    FirstOfBoth(before, urls);
    NewInSame(FirstOccurrences(before), before, FirstOccurrences(urls));
    forall x ensures x in Urls(Concat(lists)) + Urls(list) <==> x in Urls(Concat(lists)) || x in Urls(list) {
    }
  }
}
