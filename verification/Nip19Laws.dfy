/** Written entities decode to what was written: keys, event ids with their optional author and
    kind, and nothing else. */
module Nip19Laws {
  import opened Events
  import opened Regroup
  import opened Bech32
  import opened Nip19

  /** The first entry of a type. */
  function FirstValue(entries: seq<Entry>, kind: int): Option<seq<int>>
  {
    if entries == [] then None
    else if entries[0].kind == kind then Some(entries[0].value)
    else FirstValue(entries[1..], kind)
  }

  lemma {:induction false} FirstOfMore(entries: seq<Entry>, e: Entry, kind: int)
    ensures FirstValue(entries + [e], kind)
         == if FirstValue(entries, kind).Some? then FirstValue(entries, kind)
            else if e.kind == kind then Some(e.value) else None
  {
    if entries == [] {
      assert entries + [e] == [e];
    } else {
      assert (entries + [e])[1..] == entries[1..] + [e];
      FirstOfMore(entries[1..], e, kind);
    }
  }

  lemma {:induction false} FirstIsFirst(entries: seq<Entry>, kind: int)
    ensures FirstOf(Grouped(entries), kind) == FirstValue(entries, kind)
    ensures kind in Grouped(entries) ==> Grouped(entries)[kind] != []
  {
    if entries != [] {
      var front, last := entries[..|entries| - 1], entries[|entries| - 1];
      assert entries == front + [last];
      FirstIsFirst(front, kind);
      FirstOfMore(front, last, kind);
    }
  }

  // ---- plain entities

  /** A public key written as `npub1…` decodes to exactly that key. */
  lemma NpubRoundTrip(casing: Casing, s: string, key: seq<int>)
    requires Standard(casing) && |key| == 32 && AllBelow(key, 256) && IsEncoding(s, "npub", key)
    ensures DecodeEntity(casing, s) == Some(Npub(key))
  {
    EncodedLength(s, "npub", key);
    EncodingDecodes(casing, s, "npub", key);
  }

  /** A key or an event id of any other length than 32 bytes decodes to nothing. */
  lemma WrongLengthIsRefused(casing: Casing, s: string, hrp: string, bytes: seq<int>)
    requires Standard(casing) && hrp in {"npub", "note"} && AllBelow(bytes, 256) && |bytes| != 32
    requires IsEncoding(s, hrp, bytes) && |s| <= MAX_BECH32_LENGTH
    ensures DecodeEntity(casing, s) == None
  {
    EncodingDecodes(casing, s, hrp, bytes);
  }

  /** A string that begins with `nsec1`, in whatever case, decodes to nothing. */
  lemma SecretsAreRefused(casing: Casing, s: string)
    requires "nsec1" <= casing.lower(s)
    ensures DecodeEntity(casing, s) == None
  {
  }

  /** So does anything accepted under another prefix. */
  lemma OtherPrefixesAreRefused(casing: Casing, s: string)
    requires Decode(casing, s).Ok? && !IsPrefix(Decode(casing, s).hrp)
    ensures DecodeEntity(casing, s) == None
  {
    DecodedBytes(casing, s);
  }

  // ---- entities with entries

  lemma EntriesDecode(casing: Casing, s: string, hrp: string, entries: seq<Entry>)
    requires Standard(casing) && hrp in {"nprofile", "nevent", "naddr"} && WellFormed(entries)
    requires IsEncoding(s, hrp, Flatten(entries)) && |s| <= MAX_BECH32_LENGTH
    ensures DecodeEntity(casing, s) == FromTlv(hrp, Grouped(entries))
  {
    ParseFlattened(entries);
    EncodingDecodes(casing, s, hrp, Flatten(entries));
  }

  /** Four bytes as a number, most significant first. */
  function BigEndian(v: seq<int>): int
    requires |v| == 4
  {
    0x100_0000 * v[0] + 0x1_0000 * v[1] + 0x100 * v[2] + v[3]
  }

  lemma KindReads(v: seq<int>)
    requires |v| == 4 && AllBelow(v, 256)
    ensures ReadKind(Some(v)) == Some(BigEndian(v))
  {
    WrapsBack(BigEndian(v));
  }

  function Only32(value: Option<seq<int>>): Option<seq<int>>
  {
    if value.Some? && |value.value| == 32 then value else None
  }

  function OnlyKind(value: Option<seq<int>>): Option<int>
  {
    if value.Some? && |value.value| == 4 then Some(BigEndian(value.value)) else None
  }

  lemma {:induction false} FirstIsWellFormed(entries: seq<Entry>, kind: int)
    requires WellFormed(entries) && FirstValue(entries, kind).Some?
    ensures AllBelow(FirstValue(entries, kind).value, 256)
  {
    if entries[0].kind != kind {
      FirstIsWellFormed(entries[1..], kind);
    }
  }

  /** Whatever entries an `nevent1…` string carries, in whatever order: its event id is the first
      entry of type 0, its author the first of type 2, its kind the first of type 3, each only at
      its proper length; without an id it is nothing. */
  lemma NeventDecodes(casing: Casing, s: string, entries: seq<Entry>)
    requires Standard(casing) && WellFormed(entries)
    requires IsEncoding(s, "nevent", Flatten(entries)) && |s| <= MAX_BECH32_LENGTH
    ensures DecodeEntity(casing, s)
         == match Only32(FirstValue(entries, 0))
            case None => None
            case Some(id) => Some(Nevent(id, Only32(FirstValue(entries, 2)), OnlyKind(FirstValue(entries, 3))))
  {
    EntriesDecode(casing, s, "nevent", entries);
    FirstIsFirst(entries, 0);
    FirstIsFirst(entries, 2);
    FirstIsFirst(entries, 3);
    KindIsRead(entries);
  }

  lemma KindIsRead(entries: seq<Entry>)
    requires WellFormed(entries)
    ensures ReadKind(FirstValue(entries, 3)) == OnlyKind(FirstValue(entries, 3))
  {
    if FirstValue(entries, 3).Some? && |FirstValue(entries, 3).value| == 4 {
      FirstIsWellFormed(entries, 3);
      KindReads(FirstValue(entries, 3).value);
    }
  }

  /** An `nprofile1…` string is its first entry of type 0, if that is a key. */
  lemma NprofileDecodes(casing: Casing, s: string, entries: seq<Entry>)
    requires Standard(casing) && WellFormed(entries)
    requires IsEncoding(s, "nprofile", Flatten(entries)) && |s| <= MAX_BECH32_LENGTH
    ensures DecodeEntity(casing, s)
         == match Only32(FirstValue(entries, 0)) case None => None case Some(key) => Some(Nprofile(key))
  {
    EntriesDecode(casing, s, "nprofile", entries);
    FirstIsFirst(entries, 0);
  }

  /** An `naddr1…` string needs all three: identifier, author and kind. */
  lemma NaddrDecodes(casing: Casing, s: string, entries: seq<Entry>)
    requires Standard(casing) && WellFormed(entries)
    requires IsEncoding(s, "naddr", Flatten(entries)) && |s| <= MAX_BECH32_LENGTH
    ensures var identifier, author, kind := FirstValue(entries, 0), Only32(FirstValue(entries, 2)), OnlyKind(FirstValue(entries, 3));
            DecodeEntity(casing, s)
              == if identifier.None? || author.None? || kind.None? then None
                 else Some(Naddr(kind.value, author.value, identifier.value))
  {
    EntriesDecode(casing, s, "naddr", entries);
    FirstIsFirst(entries, 0);
    FirstIsFirst(entries, 2);
    FirstIsFirst(entries, 3);
    KindIsRead(entries);
  }

  // ---- round trips

  function RelayEntries(relays: seq<seq<int>>): (r: seq<Entry>)
    ensures |r| == |relays| && forall i | 0 <= i < |r| :: r[i] == Entry(1, relays[i])
  {
    seq(|relays|, i requires 0 <= i < |relays| => Entry(1, relays[i]))
  }

  /** The entries written for an event: its id, relays to ask, and what is known of it. */
  function NeventEntries(id: seq<int>, relays: seq<seq<int>>, author: Option<seq<int>>, kind: Option<nat>): seq<Entry>
  {
    [Entry(0, id)] + RelayEntries(relays)
    + (if author.Some? then [Entry(2, author.value)] else [])
    + (if kind.Some? then [Entry(3, KindBytes(kind.value))] else [])
  }

  predicate AreRelays(relays: seq<seq<int>>)
  {
    forall i | 0 <= i < |relays| :: |relays[i]| < 256 && AllBelow(relays[i], 256)
  }

  lemma {:induction false} FirstPast(p: seq<Entry>, q: seq<Entry>, kind: int)
    requires forall i | 0 <= i < |p| :: p[i].kind != kind
    ensures FirstValue(p + q, kind) == FirstValue(q, kind)
    decreases |p|
  {
    if p == [] {
      assert p + q == q;
    } else {
      assert (p + q)[1..] == p[1..] + q;
      FirstPast(p[1..], q, kind);
    }
  }

  lemma NeventFirsts(id: seq<int>, relays: seq<seq<int>>, author: Option<seq<int>>, kind: Option<nat>, entries: seq<Entry>)
    requires entries == NeventEntries(id, relays, author, kind)
    ensures FirstValue(entries, 0) == Some(id) && FirstValue(entries, 2) == author
    ensures FirstValue(entries, 3) == if kind.Some? then Some(KindBytes(kind.value)) else None
  {
    var head := [Entry(0, id)] + RelayEntries(relays);
    var authors := if author.Some? then [Entry(2, author.value)] else [];
    var kinds := if kind.Some? then [Entry(3, KindBytes(kind.value))] else [];
    assert entries == head + (authors + kinds) == head + authors + kinds;
    FirstPast(head, authors + kinds, 2);
    FirstPast(head + authors, kinds, 3);
    assert author.None? ==> authors + kinds == kinds;
    assert kinds != [] ==> kinds[1..] == [];
  }

  lemma NeventWellFormed(id: seq<int>, relays: seq<seq<int>>, author: Option<seq<int>>, kind: Option<nat>)
    requires |id| < 256 && AllBelow(id, 256) && AreRelays(relays)
    requires author.Some? ==> |author.value| < 256 && AllBelow(author.value, 256)
    ensures WellFormed(NeventEntries(id, relays, author, kind))
  {
    var entries := NeventEntries(id, relays, author, kind);
    forall i | 0 <= i < |entries| ensures 0 <= entries[i].kind < 256 && |entries[i].value| < 256 && AllBelow(entries[i].value, 256) {
      assert 1 <= i <= |relays| ==> entries[i] == Entry(1, relays[i - 1]);
    }
  }

  lemma KindEntryReads(kind: nat)
    ensures OnlyKind(Some(KindBytes(kind))) == Some(kind % 0x1_0000_0000)
  {
    KindReads(KindBytes(kind));
    KindRoundTrip(kind);
  }

  /** An event id written as `nevent1…`, with any relays and with or without author and kind,
      decodes to exactly these, the kind modulo 2^32. */
  lemma NeventRoundTrip(casing: Casing, s: string, id: seq<int>, relays: seq<seq<int>>, author: Option<seq<int>>,
                        kind: Option<nat>)
    requires Standard(casing) && |id| == 32 && AllBelow(id, 256) && AreRelays(relays)
    requires author.Some? ==> |author.value| == 32 && AllBelow(author.value, 256)
    requires IsEncoding(s, "nevent", Flatten(NeventEntries(id, relays, author, kind))) && |s| <= MAX_BECH32_LENGTH
    ensures DecodeEntity(casing, s)
         == Some(Nevent(id, author, if kind.Some? then Some(kind.value % 0x1_0000_0000) else None))
  {
    var entries := NeventEntries(id, relays, author, kind);
    NeventWellFormed(id, relays, author, kind);
    NeventDecodes(casing, s, entries);
    NeventFirsts(id, relays, author, kind, entries);
    if kind.Some? {
      KindEntryReads(kind.value);
    }
  }

  lemma NprofileWellFormed(key: seq<int>, relays: seq<seq<int>>)
    requires |key| < 256 && AllBelow(key, 256) && AreRelays(relays)
    ensures WellFormed([Entry(0, key)] + RelayEntries(relays))
  {
  }

  /** A public key written as `nprofile1…`, with any relays, decodes to exactly that key. */
  lemma NprofileRoundTrip(casing: Casing, s: string, key: seq<int>, relays: seq<seq<int>>)
    requires Standard(casing) && |key| == 32 && AllBelow(key, 256) && AreRelays(relays)
    requires IsEncoding(s, "nprofile", Flatten([Entry(0, key)] + RelayEntries(relays))) && |s| <= MAX_BECH32_LENGTH
    ensures DecodeEntity(casing, s) == Some(Nprofile(key))
  {
    NprofileWellFormed(key, relays);
    NprofileDecodes(casing, s, [Entry(0, key)] + RelayEntries(relays));
  }
}
