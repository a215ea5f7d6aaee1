/** NIP-19 entities: the TLV stream ("Shareable identifiers with extra metadata") and
    the decoder on top of bech32. Keys, ids and identifiers are kept as bytes. */
module Nip19 {
  import opened Events
  import opened Regroup
  import opened Bech32

  const TLV_SPECIAL := 0
  const TLV_AUTHOR := 2
  const TLV_KIND := 3

  datatype Entry = Entry(kind: int, value: seq<int>)

  /** The entries of a TLV stream, unless it is cut short. */
  function ParseEntries(bytes: seq<int>): Option<seq<Entry>>
    requires AllBelow(bytes, 256)
    decreases |bytes|
  {
    if bytes == [] then Some([])
    else if |bytes| < 2 || 2 + bytes[1] > |bytes| then None
    else
      match ParseEntries(bytes[2 + bytes[1]..])
      case None => None
      case Some(rest) => Some([Entry(bytes[0], bytes[2..2 + bytes[1]])] + rest)
  }

  predicate WellFormed(entries: seq<Entry>)
  {
    forall i | 0 <= i < |entries| ::
      0 <= entries[i].kind < 256 && |entries[i].value| < 256 && AllBelow(entries[i].value, 256)
  }

  function Flatten(entries: seq<Entry>): seq<int>
  {
    if entries == [] then []
    else [entries[0].kind, |entries[0].value|] + entries[0].value + Flatten(entries[1..])
  }

  lemma {:induction false} FlattenIsBytes(entries: seq<Entry>)
    requires WellFormed(entries)
    ensures AllBelow(Flatten(entries), 256)
  {
    if entries != [] {
      FlattenIsBytes(entries[1..]);
    }
  }

  /** Parsing inverts flattening. */
  lemma {:induction false} ParseFlattened(entries: seq<Entry>)
    requires WellFormed(entries)
    ensures AllBelow(Flatten(entries), 256) && ParseEntries(Flatten(entries)) == Some(entries)
  {
    FlattenIsBytes(entries);
    if entries != [] {
      var e := entries[0];
      var bytes := Flatten(entries);
      ParseFlattened(entries[1..]);
      assert bytes[2..2 + |e.value|] == e.value;
      assert bytes[2 + |e.value|..] == Flatten(entries[1..]);
      assert [Entry(e.kind, e.value)] + entries[1..] == entries;
    }
  }

  /** Flattening inverts parsing; a parsed value is never longer than 255 bytes. */
  lemma {:induction false} FlattenParsed(bytes: seq<int>)
    requires AllBelow(bytes, 256) && ParseEntries(bytes).Some?
    ensures Flatten(ParseEntries(bytes).value) == bytes && WellFormed(ParseEntries(bytes).value)
    decreases |bytes|
  {
    if bytes != [] {
      var n := bytes[1];
      var rest := bytes[2 + n..];
      FlattenParsed(rest);
      ParsedEntry(bytes, Entry(bytes[0], bytes[2..2 + n]), ParseEntries(rest).value);
    }
  }

  lemma ParsedEntry(bytes: seq<int>, e: Entry, rest: seq<Entry>)
    requires |bytes| >= 2 && 0 <= bytes[1] && 2 + bytes[1] <= |bytes| && AllBelow(bytes, 256)
    requires e == Entry(bytes[0], bytes[2..2 + bytes[1]])
    requires WellFormed(rest) && Flatten(rest) == bytes[2 + bytes[1]..]
    ensures Flatten([e] + rest) == bytes && WellFormed([e] + rest)
  {
    assert ([e] + rest)[1..] == rest;
    assert bytes == [bytes[0], bytes[1]] + bytes[2..2 + bytes[1]] + bytes[2 + bytes[1]..];
  }

  type Tlv = map<int, seq<seq<int>>>

  function Add(tlv: Tlv, e: Entry): Tlv
  {
    tlv[e.kind := (if e.kind in tlv then tlv[e.kind] else []) + [e.value]]
  }

  /** The values by type, in order of appearance. */
  function Grouped(entries: seq<Entry>): Tlv
  {
    if entries == [] then map[] else Add(Grouped(entries[..|entries| - 1]), entries[|entries| - 1])
  }

  /** The whole stream parses to what is done and what the rest parses to. */
  predicate Continues(whole: Option<seq<Entry>>, done: seq<Entry>, rest: Option<seq<Entry>>)
  {
    whole == match rest case None => None case Some(more) => Some(done + more)
  }

  lemma NextEntry(whole: Option<seq<Entry>>, done: seq<Entry>, rest: Option<seq<Entry>>, e: Entry, tail: Option<seq<Entry>>)
    requires Continues(whole, done, rest)
    requires rest == match tail case None => None case Some(more) => Some([e] + more)
    ensures Continues(whole, done + [e], tail)
    ensures Grouped(done + [e]) == Add(Grouped(done), e)
  {
    if tail.Some? {
      assert done + ([e] + tail.value) == (done + [e]) + tail.value;
    }
    assert (done + [e])[..|done|] == done;
  }

  /** Reads the stream entry by entry. */
  method ParseTlv(bytes: seq<int>) returns (r: Option<Tlv>)
    requires AllBelow(bytes, 256)
    ensures r == match ParseEntries(bytes) case None => None case Some(entries) => Some(Grouped(entries))
  {
    var entries: Tlv := map[];
    var offset := 0;
    ghost var done: seq<Entry> := [];
    assert bytes[0..] == bytes;
    ghost var whole := ParseEntries(bytes);
    assert whole.Some? ==> [] + whole.value == whole.value;
    while offset < |bytes|
      invariant 0 <= offset <= |bytes| && entries == Grouped(done)
      invariant Continues(whole, done, ParseEntries(bytes[offset..]))
    {
      ghost var rest := bytes[offset..];
      if offset + 2 > |bytes| {
        return None;
      }
      var kind := bytes[offset];
      var length := bytes[offset + 1];
      var start := offset + 2;
      var end := start + length;
      if end > |bytes| {
        return None;
      }
      assert rest[2..2 + length] == bytes[start..end] && rest[2 + length..] == bytes[end..];
      NextEntry(whole, done, ParseEntries(rest), Entry(kind, bytes[start..end]), ParseEntries(bytes[end..]));
      entries := entries[kind := (if kind in entries then entries[kind] else []) + [bytes[start..end]]];
      done := done + [Entry(kind, bytes[start..end])];
      offset := end;
    }
    assert done + [] == done;
    return Some(entries);
  }

  function FirstOf(tlv: Tlv, kind: int): Option<seq<int>>
  {
    if kind in tlv && tlv[kind] != [] then Some(tlv[kind][0]) else None
  }

  function Read32(value: Option<seq<int>>): Option<seq<int>>
  {
    if value.Some? && |value.value| == 32 then value else None
  }

  /** Four bytes, big endian; the sign the 32-bit shift may set is taken back by `>>> 0`. */
  function ReadKind(value: Option<seq<int>>): Option<int>
  {
    if value.None? || |value.value| != 4 then None
    else
      var v := value.value;
      Some(Wrap(v[0] * 0x100_0000 + v[1] * 0x1_0000 + v[2] * 0x100 + v[3]) % 0x1_0000_0000)
  }

  datatype Entity =
    | Npub(pubkey: seq<int>)
    | Nprofile(pubkey: seq<int>)
    | Note(id: seq<int>)
    | Nevent(id: seq<int>, author: Option<seq<int>>, eventKind: Option<int>)
    | Naddr(kind: int, pubkey: seq<int>, identifier: seq<int>)

  /** The three TLV entities. */
  function FromTlv(hrp: string, tlv: Tlv): Option<Entity>
    requires hrp in {"nprofile", "nevent", "naddr"}
  {
    var special := FirstOf(tlv, TLV_SPECIAL);
    var author := Read32(FirstOf(tlv, TLV_AUTHOR));
    var kind := ReadKind(FirstOf(tlv, TLV_KIND));
    if hrp == "nprofile" then
      if Read32(special).Some? then Some(Nprofile(special.value)) else None
    else if hrp == "nevent" then
      if Read32(special).Some? then Some(Nevent(special.value, author, kind)) else None
    else if special.None? || author.None? || kind.None? then None
    else Some(Naddr(kind.value, author.value, special.value))
  }

  function EntityOf(hrp: string, bytes: seq<int>): Option<Entity>
    requires AllBelow(bytes, 256)
  {
    if hrp == "npub" then if |bytes| == 32 then Some(Npub(bytes)) else None
    else if hrp == "note" then if |bytes| == 32 then Some(Note(bytes)) else None
    else if hrp !in {"nprofile", "nevent", "naddr"} then None
    else
      match ParseEntries(bytes)
      case None => None
      case Some(entries) => FromTlv(hrp, Grouped(entries))
  }

  predicate IsSecretKey(casing: Casing, input: string)
  {
    "nsec1" <= casing.lower(input)
  }

  /** What a string stands for. */
  ghost function DecodeEntity(casing: Casing, input: string): Option<Entity>
  {
    if IsSecretKey(casing, input) || !Decode(casing, input).Ok? then None
    else
      DecodedBytes(casing, input);
      EntityOf(Decode(casing, input).hrp, Decode(casing, input).bytes)
  }

  lemma DecodedBytes(casing: Casing, input: string)
    requires Decode(casing, input).Ok?
    ensures AllBelow(Decode(casing, input).bytes, 256)
  {
    AcceptedIsEncoding(casing, input);
  }

  method DecodeNip19(casing: Casing, input: string) returns (r: Option<Entity>)
    ensures r == DecodeEntity(casing, input)
  {
    if IsSecretKey(casing, input) {
      return None;
    }
    var decoded := DecodeBech32(casing, input);
    if !decoded.Ok? {
      return None;
    }
    DecodedBytes(casing, input);
    var hrp, bytes := decoded.hrp, decoded.bytes;
    if hrp == "npub" {
      return if |bytes| == 32 then Some(Npub(bytes)) else None;
    }
    if hrp == "note" {
      return if |bytes| == 32 then Some(Note(bytes)) else None;
    }
    if hrp != "nprofile" && hrp != "nevent" && hrp != "naddr" {
      return None;
    }
    var tlv := ParseTlv(bytes);
    if tlv.None? {
      return None;
    }
    return FromTlv(hrp, tlv.value);
  }

  /** `kind` as four bytes, big endian, of its value modulo 2^32. */
  function KindBytes(kind: nat): (r: seq<int>)
    ensures |r| == 4 && AllBelow(r, 256)
  {
    [kind / 0x100_0000 % 256, kind / 0x1_0000 % 256, kind / 0x100 % 256, kind % 256]
  }

  lemma KindRoundTrip(kind: nat)
    ensures ReadKind(Some(KindBytes(kind))) == Some(kind % 0x1_0000_0000)
  {
    var a, b, c := kind / 0x100, kind / 0x1_0000, kind / 0x100_0000;
    Digits(kind, a, b, c);
    var v := c % 256 * 0x100_0000 + b % 256 * 0x1_0000 + a % 256 * 0x100 + kind % 256;
    Reassembled(kind, c / 0x100, v);
    WrapsBack(v);
  }

  lemma Digits(kind: nat, a: nat, b: nat, c: nat)
    requires a == kind / 0x100 && b == kind / 0x1_0000 && c == kind / 0x100_0000
    ensures kind == 0x1_0000_0000 * (c / 0x100)
                    + (c % 256 * 0x100_0000 + b % 256 * 0x1_0000 + a % 256 * 0x100 + kind % 256)
    ensures 0 <= c % 256 * 0x100_0000 + b % 256 * 0x1_0000 + a % 256 * 0x100 + kind % 256 < 0x1_0000_0000
  {
    assert b == a / 0x100 && c == b / 0x100;
    assert kind == 0x100 * a + kind % 0x100 && a == 0x100 * b + a % 0x100 && b == 0x100 * c + b % 0x100;
    assert c == 0x100 * (c / 0x100) + c % 0x100;
  }

  lemma Reassembled(kind: nat, q: nat, v: nat)
    requires kind == 0x1_0000_0000 * q + v && v < 0x1_0000_0000
    ensures kind % 0x1_0000_0000 == v
  {
  }

  lemma WrapsBack(v: int)
    requires 0 <= v < 0x1_0000_0000
    ensures Wrap(v) % 0x1_0000_0000 == v
  {
  }

  /** The entries written for a replaceable coordinate. */
  function NaddrEntries(kind: nat, author: seq<int>, identifier: seq<int>): seq<Entry>
  {
    [Entry(TLV_SPECIAL, identifier), Entry(TLV_AUTHOR, author), Entry(TLV_KIND, KindBytes(kind))]
  }

  function NaddrBytes(kind: nat, author: seq<int>, identifier: seq<int>): seq<int>
  {
    [0, |identifier|] + identifier + [2, |author|] + author + [3, 4] + KindBytes(kind)
  }

  lemma NaddrIsFlat(kind: nat, author: seq<int>, identifier: seq<int>)
    ensures NaddrBytes(kind, author, identifier) == Flatten(NaddrEntries(kind, author, identifier))
  {
    var e := NaddrEntries(kind, author, identifier);
    assert e[1..][1..] == [e[2]] && e[2..][1..] == [];
    assert Flatten(e[2..]) == [3, 4] + KindBytes(kind) + [];
    assert e[1..][1..] == e[2..];
    assert Flatten(e[1..]) == [2, |author|] + author + Flatten(e[2..]);
  }

  lemma NaddrGroups(kind: nat, author: seq<int>, identifier: seq<int>)
    ensures Grouped(NaddrEntries(kind, author, identifier)) ==
              map[0 := [identifier], 2 := [author], 3 := [KindBytes(kind)]]
  {
    var a, b, c := Entry(TLV_SPECIAL, identifier), Entry(TLV_AUTHOR, author), Entry(TLV_KIND, KindBytes(kind));
    assert [a, b, c][..2] == [a, b] && [a, b][..1] == [a] && [a][..0] == [];
    FreshType(map[], a);
    assert Grouped([a]) == map[0 := [identifier]];
    FreshType(Grouped([a]), b);
    assert Grouped([a, b]) == map[0 := [identifier], 2 := [author]];
    FreshType(Grouped([a, b]), c);
  }

  lemma FreshType(tlv: Tlv, e: Entry)
    requires e.kind !in tlv
    ensures Add(tlv, e) == tlv[e.kind := [e.value]]
  {
    assert [] + [e.value] == [e.value];
  }

  /** Read back from its own bytes, a coordinate is what was written. */
  lemma NaddrEntity(kind: nat, author: seq<int>, identifier: seq<int>)
    requires |author| == 32 && AllBelow(author, 256) && |identifier| < 256 && AllBelow(identifier, 256)
    ensures AllBelow(NaddrBytes(kind, author, identifier), 256)
    ensures EntityOf("naddr", NaddrBytes(kind, author, identifier)) ==
              Some(Naddr(kind % 0x1_0000_0000, author, identifier))
  {
    var entries := NaddrEntries(kind, author, identifier);
    NaddrIsFlat(kind, author, identifier);
    ParseFlattened(entries);
    NaddrGroups(kind, author, identifier);
    KindRoundTrip(kind);
  }

  lemma EncodedLength(s: string, hrp: string, bytes: seq<int>)
    requires IsEncoding(s, hrp, bytes)
    ensures 5 * (|s| - |hrp| - 7) < 8 * |bytes| + 5
  {
    var words :| Spells(s, hrp, words) && Regroups(words, bytes);
    BitCount(words);
    BitCount(bytes);
  }

  /** A coordinate survives being written as `naddr1...` and read back, its kind modulo
      2^32, for every identifier a TLV length byte can measure. */
  lemma NaddrRoundTrip(casing: Casing, s: string, kind: nat, author: seq<int>, identifier: seq<int>)
    requires Standard(casing)
    requires |author| == 32 && AllBelow(author, 256) && |identifier| < 256 && AllBelow(identifier, 256)
    requires IsEncoding(s, "naddr", NaddrBytes(kind, author, identifier))
    ensures DecodeEntity(casing, s) == Some(Naddr(kind % 0x1_0000_0000, author, identifier))
  {
    var bytes := NaddrBytes(kind, author, identifier);
    NaddrEntity(kind, author, identifier);
    EncodedLength(s, "naddr", bytes);
    EncodingDecodes(casing, s, "naddr", bytes);
  }

  predicate IsPrefix(hrp: string)
  {
    hrp in {"npub", "note", "nprofile", "nevent", "naddr"}
  }

  lemma PrefixFacts(hrp: string)
    requires IsPrefix(hrp)
    ensures Lower(hrp) == hrp && IsAscii(hrp) && |hrp| >= 2 && hrp[1] != 's'
  {
  }

  lemma NotSecret(s: string, hrp: string, bytes: seq<int>)
    requires IsEncoding(s, hrp, bytes) && |hrp| >= 2 && hrp[1] != 's'
    ensures !("nsec1" <= s)
  {
    var words :| Spells(s, hrp, words) && Regroups(words, bytes);
    assert s[1] == hrp[1];
  }

  /** What an encoding decodes to is what its prefix makes of its bytes. */
  lemma EncodingDecodes(casing: Casing, s: string, hrp: string, bytes: seq<int>)
    requires Standard(casing) && IsPrefix(hrp) && IsEncoding(s, hrp, bytes) && AllBelow(bytes, 256)
    requires |s| <= MAX_BECH32_LENGTH
    ensures Decode(casing, s) == Ok(hrp, bytes) && DecodeEntity(casing, s) == EntityOf(hrp, bytes)
  {
    PrefixFacts(hrp);
    EncodingIsLower(casing, s, hrp, bytes);
    RoundTrip(casing, s, hrp, bytes);
    NotSecret(s, hrp, bytes);
  }

  /** No string decodes to a coordinate with a longer identifier. */
  lemma NoLongIdentifier(casing: Casing, s: string)
    requires DecodeEntity(casing, s).Some? && DecodeEntity(casing, s).value.Naddr?
    ensures |DecodeEntity(casing, s).value.identifier| < 256
  {
    DecodedBytes(casing, s);
    ShortIdentifier(Decode(casing, s).hrp, Decode(casing, s).bytes);
  }

  lemma ShortIdentifier(hrp: string, bytes: seq<int>)
    requires AllBelow(bytes, 256) && EntityOf(hrp, bytes).Some? && EntityOf(hrp, bytes).value.Naddr?
    ensures |EntityOf(hrp, bytes).value.identifier| < 256
  {
    var entries := ParseEntries(bytes).value;
    FlattenParsed(bytes);
    GroupedValues(entries, TLV_SPECIAL);
    assert Grouped(entries)[TLV_SPECIAL][0] in Grouped(entries)[TLV_SPECIAL];
  }

  lemma {:induction false} GroupedValues(entries: seq<Entry>, kind: int)
    ensures kind in Grouped(entries) ==>
              Grouped(entries)[kind] != [] &&
              forall v | v in Grouped(entries)[kind] :: exists e | e in entries :: e.value == v
  {
    if entries != [] {
      GroupedValues(entries[..|entries| - 1], kind);
      assert entries == entries[..|entries| - 1] + [entries[|entries| - 1]];
    }
  }

  /** An event id survives being written as `note1...` and read back. */
  lemma NoteRoundTrip(casing: Casing, s: string, id: seq<int>)
    requires Standard(casing) && |id| == 32 && AllBelow(id, 256) && IsEncoding(s, "note", id)
    ensures DecodeEntity(casing, s) == Some(Note(id))
  {
    EncodedLength(s, "note", id);
    EncodingDecodes(casing, s, "note", id);
  }
}
