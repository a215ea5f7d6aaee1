/** NIP-09 deletion requests: reading their targets, and what applying one removes. */
module Deletion {
  import opened Order
  import opened Events
  import opened Replaceable
  import opened EventStore

  const MAX_DELETION_REFERENCES := 1000
  const MAX_SAFE_INTEGER := 9007199254740991

  // ---- coordinates as text

  predicate IsDigit(c: char)
  {
    '0' <= c <= '9'
  }

  function Digit(n: nat): char
    requires n < 10
  {
    '0' + n as char
  }

  /** A kind as decimal text. */
  function PrintNat(n: nat): string
  {
    if n < 10 then [Digit(n)] else PrintNat(n / 10) + [Digit(n % 10)]
  }

  predicate AllDigits(s: string)
  {
    forall i | 0 <= i < |s| :: IsDigit(s[i])
  }

  /** Digits only, and no leading zero except `0` itself. */
  predicate CanonicalKind(s: string)
  {
    s != "" && AllDigits(s) && (s[0] != '0' || |s| == 1)
  }

  function ReadNat(s: string): nat
    requires AllDigits(s)
  {
    if s == "" then 0 else ReadNat(s[..|s| - 1]) * 10 + (s[|s| - 1] as int - '0' as int)
  }

  predicate Hex64(s: string)
  {
    |s| == 64 && forall i | 0 <= i < |s| :: IsDigit(s[i]) || 'a' <= s[i] <= 'f'
  }

  /** `indexOf(c, start)`: the first position from `start`, or the length when there is none. */
  function IndexOf(s: string, c: char, start: nat): (k: nat)
    requires start <= |s|
    ensures start <= k <= |s| && (k < |s| ==> s[k] == c)
    ensures forall j | start <= j < k :: s[j] != c
    decreases |s| - start
  {
    if start == |s| || s[start] == c then start else IndexOf(s, c, start + 1)
  }

  function ParseAddress(value: string): Option<Address>
  {
    var first := IndexOf(value, ':', 0);
    if first == 0 || first == |value| then None else
      var second := IndexOf(value, ':', first + 1);
      if second == |value| then None else
        var rawKind, pubkey := value[..first], value[first + 1..second];
        if !CanonicalKind(rawKind) || ReadNat(rawKind) > MAX_SAFE_INTEGER || !Hex64(pubkey) then None
        else Some(Address(ReadNat(rawKind), pubkey, value[second + 1..]))
  }

  /** The key a coordinate is filed under, and the text of its `a` tag. */
  function PrintAddress(a: Address): string
    requires a.kind >= 0
  {
    PrintNat(a.kind) + ":" + a.pubkey + ":" + a.identifier
  }

  lemma {:induction false} PrintedNat(n: nat)
    ensures CanonicalKind(PrintNat(n)) && ReadNat(PrintNat(n)) == n
    ensures n > 0 ==> PrintNat(n)[0] != '0'
  {
    if n < 10 {
      assert PrintNat(n)[..0] == "";
    } else {
      PrintedNat(n / 10);
      var s := PrintNat(n);
      assert s[..|s| - 1] == PrintNat(n / 10);
    }
  }

  lemma {:induction false} ReadThenPrint(s: string)
    requires CanonicalKind(s)
    ensures PrintNat(ReadNat(s)) == s && (s[0] != '0' ==> ReadNat(s) > 0)
  {
    if |s| == 1 {
      assert s[..0] == "" && ReadNat(s) == s[0] as int - '0' as int;
      assert s == [s[0]];
    } else {
      var front := s[..|s| - 1];
      assert front[0] == s[0] && AllDigits(front);
      ReadThenPrint(front);
      assert s == front + [s[|s| - 1]];
    }
  }

  /** A decimal numeral: one more digit is ten times as much and the digit. */
  lemma DecimalGrows(n: nat, digit: char)
    requires n > 0 && '0' <= digit <= '9'
    ensures PrintNat(10 * n + (digit as int - '0' as int)) == PrintNat(n) + [digit]
    ensures PrintNat(digit as int - '0' as int) == [digit]
  {
  }

  /** 32 bytes in lower-case hex. */
  lemma Hex64Is(s: string)
    ensures Hex64(s) <==> |s| == 64 && forall i | 0 <= i < |s| :: s[i] in "0123456789abcdef"
  {
    forall i | 0 <= i < |s| ensures s[i] in "0123456789abcdef" <==> IsDigit(s[i]) || 'a' <= s[i] <= 'f' {
      HexDigit(s[i]);
    }
  }

  lemma HexDigit(c: char)
    ensures c in "0123456789abcdef" <==> IsDigit(c) || 'a' <= c <= 'f'
  {
    var digits := "0123456789abcdef";
    assert IsDigit(c) ==> digits[c as int - '0' as int] == c;
    assert 'a' <= c <= 'f' ==> digits[c as int - 'a' as int + 10] == c;
  }

  lemma NoColonIn(s: string)
    requires AllDigits(s) || Hex64(s)
    ensures forall i | 0 <= i < |s| :: s[i] != ':'
  {
  }

  lemma FirstColon(s: string, rest: string, start: nat)
    requires start <= |s| && forall i | start <= i < |s| :: s[i] != ':'
    ensures IndexOf(s + ":" + rest, ':', start) == |s|
  {
    assert (s + ":" + rest)[|s|] == ':';
    assert forall i | start <= i < |s| :: (s + ":" + rest)[i] == s[i];
  }

  predicate WellFormed(a: Address)
  {
    0 <= a.kind <= MAX_SAFE_INTEGER && Hex64(a.pubkey)
  }

  /** Three texts joined by colons, cut at the two colons. */
  lemma JoinedParts(p: string, q: string, r: string, value: string)
    requires value == p + ":" + q + ":" + r
    ensures value == p + ":" + (q + ":" + r)
    ensures value[..|p|] == p && value[|p| + 1..|p| + 1 + |q|] == q && value[|p| + 1 + |q| + 1..] == r
  {
  }

  /** Where a printed key's first two colons stand. */
  lemma PrintedColons(p: string, q: string, r: string, value: string)
    requires value == p + ":" + q + ":" + r
    requires (forall i | 0 <= i < |p| :: p[i] != ':') && forall i | 0 <= i < |q| :: q[i] != ':'
    ensures IndexOf(value, ':', 0) == |p| && IndexOf(value, ':', |p| + 1) == |p| + 1 + |q|
  {
    JoinedParts(p, q, r, value);
    FirstColon(p, q + ":" + r, 0);
    var head := p + ":" + q;
    assert forall i | |p| + 1 <= i < |head| :: head[i] == q[i - |p| - 1];
    FirstColon(head, r, |p| + 1);
  }

  lemma PrintedParses(a: Address)
    requires WellFormed(a)
    ensures ParseAddress(PrintAddress(a)) == Some(a)
  {
    PrintedNat(a.kind);
    NoColonIn(PrintNat(a.kind));
    NoColonIn(a.pubkey);
    JoinedParts(PrintNat(a.kind), a.pubkey, a.identifier, PrintAddress(a));
    PrintedColons(PrintNat(a.kind), a.pubkey, a.identifier, PrintAddress(a));
  }

  lemma ParsedPrints(value: string, a: Address)
    requires ParseAddress(value) == Some(a)
    ensures WellFormed(a) && value == PrintAddress(a)
  {
    var first := IndexOf(value, ':', 0);
    var second := IndexOf(value, ':', first + 1);
    ReadThenPrint(value[..first]);
    assert value == value[..first] + [value[first]] + value[first + 1..second] + [value[second]] + value[second + 1..];
  }

  /** Parsing inverts printing, colons in the identifier included, and accepts nothing else. */
  lemma ParseInvertsPrint(value: string, a: Address)
    ensures ParseAddress(value) == Some(a) <==> WellFormed(a) && value == PrintAddress(a)
  {
    if ParseAddress(value) == Some(a) {
      ParsedPrints(value, a);
    }
    if WellFormed(a) {
      PrintedParses(a);
    }
  }

  // ---- the targets of a request

  datatype DeletionRequest = DeletionRequest(pubkey: string, ids: seq<string>, addresses: seq<Address>, until: int)

  predicate NamesId(tag: seq<string>)
  {
    |tag| >= 2 && tag[0] == "e" && Hex64(tag[1])
  }

  /** An `a` tag counts when it is well formed, the requester's own, and of a kind addressed by coordinate. */
  predicate NamesAddress(tag: seq<string>, pubkey: string)
  {
    |tag| >= 2 && tag[0] == "a" && ParseAddress(tag[1]).Some?
    && ParseAddress(tag[1]).value.pubkey == pubkey && IsCoordinateAddressableKind(ParseAddress(tag[1]).value.kind)
  }

  function IdRefs(tags: seq<seq<string>>): seq<string>
  {
    if tags == [] then [] else
      IdRefs(tags[..|tags| - 1]) + (if NamesId(tags[|tags| - 1]) then [tags[|tags| - 1][1]] else [])
  }

  function AddressRefs(tags: seq<seq<string>>, pubkey: string): seq<Address>
  {
    if tags == [] then [] else
      AddressRefs(tags[..|tags| - 1], pubkey)
      + (if NamesAddress(tags[|tags| - 1], pubkey) then [ParseAddress(tags[|tags| - 1][1]).value] else [])
  }

  /** The first thousand distinct references of each type. */
  function RequestOf(e: Event): DeletionRequest
  {
    DeletionRequest(e.pubkey, Take(FirstOccurrences(IdRefs(e.tags)), MAX_DELETION_REFERENCES),
                    Take(FirstOccurrences(AddressRefs(e.tags, e.pubkey)), MAX_DELETION_REFERENCES), e.createdAt)
  }

  /** A new reference is dropped once `n` are held. */
  lemma CappedAdd<T>(q: seq<T>, x: T, n: nat)
    ensures var held := Take(FirstOccurrences(q), n);
            Take(FirstOccurrences(q + [x]), n) == if x in held || |held| >= n then held else held + [x]
  {
    FirstOccurrencesOfMore(q, x);
    var f := FirstOccurrences(q);
    if |f| < n {
    } else {
      assert forall y | y in f[..n] :: y in f;
      if x !in f {
        assert (f + [x])[..n] == f[..n];
      }
    }
  }

  ghost predicate KeysOf(keys: seq<string>, addresses: seq<Address>)
  {
    |keys| == |addresses| && forall i | 0 <= i < |keys| :: WellFormed(addresses[i]) && keys[i] == PrintAddress(addresses[i])
  }

  /** Distinct coordinates have distinct keys. */
  lemma KeyIdentifies(keys: seq<string>, addresses: seq<Address>, a: Address)
    requires KeysOf(keys, addresses) && WellFormed(a)
    ensures PrintAddress(a) in keys <==> a in addresses
  {
    if PrintAddress(a) in keys {
      var i :| 0 <= i < |keys| && keys[i] == PrintAddress(a);
      PrintedParses(a);
      PrintedParses(addresses[i]);
      assert addresses[i] == a;
    }
    if a in addresses {
      var i :| 0 <= i < |addresses| && addresses[i] == a;
      assert keys[i] == PrintAddress(a);
    }
  }

  /** Reads the references off the request's tags. */
  method ParseDeletionRequest(e: Event) returns (r: DeletionRequest)
    ensures r == RequestOf(e)
  {
    var ids, addresses, keys := [], [], [];
    for i := 0 to |e.tags|
      invariant ids == Take(FirstOccurrences(IdRefs(e.tags[..i])), MAX_DELETION_REFERENCES)
      invariant addresses == Take(FirstOccurrences(AddressRefs(e.tags[..i], e.pubkey)), MAX_DELETION_REFERENCES)
      invariant KeysOf(keys, addresses)
    {
      ids, addresses, keys := ReadTag(e, i, ids, addresses, keys);
    }
    assert e.tags[..|e.tags|] == e.tags;
    r := DeletionRequest(e.pubkey, ids, addresses, e.createdAt);
  }

  lemma RefsOfMore(tags: seq<seq<string>>, i: nat, pubkey: string)
    requires i < |tags|
    ensures IdRefs(tags[..i + 1]) == if NamesId(tags[i]) then IdRefs(tags[..i]) + [tags[i][1]] else IdRefs(tags[..i])
    ensures AddressRefs(tags[..i + 1], pubkey)
         == if NamesAddress(tags[i], pubkey) then AddressRefs(tags[..i], pubkey) + [ParseAddress(tags[i][1]).value]
            else AddressRefs(tags[..i], pubkey)
  {
    assert tags[..i + 1][..i] == tags[..i];
  }

  /** One id referenced. */
  method ReadId(ghost refs: seq<string>, id: string, ids: seq<string>) returns (ids': seq<string>)
    requires ids == Take(FirstOccurrences(refs), MAX_DELETION_REFERENCES)
    ensures ids' == Take(FirstOccurrences(refs + [id]), MAX_DELETION_REFERENCES)
  {
    ids' := ids;
    CappedAdd(refs, id, MAX_DELETION_REFERENCES);
    if |ids| >= MAX_DELETION_REFERENCES && id !in ids {
      return;
    }
    if id !in ids {
      ids' := ids + [id];
    }
  }

  /** One coordinate referenced; the map's keys are the printed coordinates. */
  method ReadAddress(ghost refs: seq<Address>, a: Address, addresses: seq<Address>, keys: seq<string>)
    returns (addresses': seq<Address>, keys': seq<string>)
    requires KeysOf(keys, addresses) && WellFormed(a)
    requires addresses == Take(FirstOccurrences(refs), MAX_DELETION_REFERENCES)
    ensures addresses' == Take(FirstOccurrences(refs + [a]), MAX_DELETION_REFERENCES)
    ensures KeysOf(keys', addresses')
  {
    addresses', keys' := addresses, keys;
    KeyIdentifies(keys, addresses, a);
    CappedAdd(refs, a, MAX_DELETION_REFERENCES);
    var key := PrintAddress(a);
    if |addresses| >= MAX_DELETION_REFERENCES && key !in keys {
      return;
    }
    if key !in keys {
      addresses', keys' := addresses + [a], keys + [key];
    }
  }

  lemma TagKinds(tag: seq<string>, pubkey: string)
    ensures NamesId(tag) ==> !NamesAddress(tag, pubkey)
    ensures NamesAddress(tag, pubkey) ==> WellFormed(ParseAddress(tag[1]).value)
    ensures |tag| >= 2 && tag[1] == "" ==> !NamesId(tag) && !NamesAddress(tag, pubkey)
  {
    if NamesAddress(tag, pubkey) {
      ParsedPrints(tag[1], ParseAddress(tag[1]).value);
    }
  }

  /** One turn of the loop over the tags. */
  method ReadTag(e: Event, i: nat, ids: seq<string>, addresses: seq<Address>, keys: seq<string>)
    returns (ids': seq<string>, addresses': seq<Address>, keys': seq<string>)
    requires i < |e.tags| && KeysOf(keys, addresses)
    requires ids == Take(FirstOccurrences(IdRefs(e.tags[..i])), MAX_DELETION_REFERENCES)
    requires addresses == Take(FirstOccurrences(AddressRefs(e.tags[..i], e.pubkey)), MAX_DELETION_REFERENCES)
    ensures ids' == Take(FirstOccurrences(IdRefs(e.tags[..i + 1])), MAX_DELETION_REFERENCES)
    ensures addresses' == Take(FirstOccurrences(AddressRefs(e.tags[..i + 1], e.pubkey)), MAX_DELETION_REFERENCES)
    ensures KeysOf(keys', addresses')
  {
    ids', addresses', keys' := ids, addresses, keys;
    RefsOfMore(e.tags, i, e.pubkey);
    TagKinds(e.tags[i], e.pubkey);
    if |e.tags[i]| < 2 || e.tags[i][1] == "" {
      return;
    }
    if NamesId(e.tags[i]) {
      ids' := ReadId(IdRefs(e.tags[..i]), e.tags[i][1], ids);
    } else if NamesAddress(e.tags[i], e.pubkey) {
      addresses', keys' := ReadAddress(AddressRefs(e.tags[..i], e.pubkey), ParseAddress(e.tags[i][1]).value, addresses, keys);
    }
  }

  // ---- what a request deletes

  /** Whether a stored row is a target of a request. */
  predicate Deletes(r: DeletionRequest, row: Event)
  {
    (row.id in r.ids && row.pubkey == r.pubkey && row.kind != DELETION_EVENT_KIND)
    || (exists a | a in r.addresses :: DeletesVersion(a, r.until, row))
  }

  /** Whether a row is a version of a coordinate, no newer than the request. */
  predicate DeletesVersion(a: Address, until: int, row: Event)
  {
    IsCoordinateAddressableKind(a.kind) && AtAddress(row, a) && row.createdAt <= until
  }

  /** The table after a request is applied. */
  function Applied(rows: Rows, r: DeletionRequest): Rows
  {
    map id | id in rows && !Deletes(r, rows[id]) :: rows[id]
  }

  lemma {:induction false} RefsAreOwn(tags: seq<seq<string>>, pubkey: string, a: Address)
    requires a in AddressRefs(tags, pubkey)
    ensures a.pubkey == pubkey && IsCoordinateAddressableKind(a.kind)
    ensures exists tag | tag in tags :: NamesAddress(tag, pubkey) && ParseAddress(tag[1]) == Some(a)
  {
    var n := |tags| - 1;
    assert tags == tags[..n] + [tags[n]];
    if a in AddressRefs(tags[..n], pubkey) {
      RefsAreOwn(tags[..n], pubkey, a);
      var tag :| tag in tags[..n] && NamesAddress(tag, pubkey) && ParseAddress(tag[1]) == Some(a);
      assert tag in tags;
    } else {
      assert tags[n] in tags;
    }
  }

  lemma RequestAddresses(e: Event, a: Address)
    requires a in RequestOf(e).addresses
    ensures a in AddressRefs(e.tags, e.pubkey)
  {
    var f := FirstOccurrences(AddressRefs(e.tags, e.pubkey));
    assert a in Elements(f);
  }

  /** Only the requester's own events are targets, and never a deletion request. */
  lemma OnlyOwnAndNeverRequests(e: Event, row: Event)
    requires Deletes(RequestOf(e), row)
    ensures row.pubkey == e.pubkey && row.kind != DELETION_EVENT_KIND
  {
    var r := RequestOf(e);
    if !(row.id in r.ids && row.pubkey == r.pubkey && row.kind != DELETION_EVENT_KIND) {
      var a :| a in r.addresses && DeletesVersion(a, r.until, row);
      RequestAddresses(e, a);
      RefsAreOwn(e.tags, e.pubkey, a);
    }
  }

  lemma {:induction false} RefsOfTags(tags: seq<seq<string>>, pubkey: string, tag: seq<string>)
    requires tag in tags
    ensures NamesId(tag) ==> tag[1] in IdRefs(tags)
    ensures NamesAddress(tag, pubkey) ==> ParseAddress(tag[1]).value in AddressRefs(tags, pubkey)
  {
    var n := |tags| - 1;
    assert tags == tags[..n] + [tags[n]];
    if tag in tags[..n] {
      RefsOfTags(tags[..n], pubkey, tag);
    }
  }

  lemma {:induction false} IdRefsFromTags(tags: seq<seq<string>>, id: string)
    requires id in IdRefs(tags)
    ensures exists tag | tag in tags :: NamesId(tag) && tag[1] == id
  {
    var n := |tags| - 1;
    assert tags == tags[..n] + [tags[n]];
    if id in IdRefs(tags[..n]) {
      IdRefsFromTags(tags[..n], id);
      var tag :| tag in tags[..n] && NamesId(tag) && tag[1] == id;
      assert tag in tags;
    } else {
      assert tags[n] in tags;
    }
  }

  /** An `e` tag of the request spells the id of one of its author's other events. */
  ghost predicate NamedById(e: Event, row: Event)
  {
    && row.pubkey == e.pubkey && row.kind != 5 && Hex64(row.id)
    && exists tag | tag in e.tags :: |tag| >= 2 && tag[0] == "e" && tag[1] == row.id
  }

  /** An `a` tag of the request spells the coordinate its author's row is a version of, a version
      no newer than the request: `kind:pubkey:d`, where the `d` counts for addressable kinds. */
  ghost predicate NamedByCoordinate(e: Event, row: Event)
  {
    && row.pubkey == e.pubkey && Hex64(row.pubkey) && row.createdAt <= e.createdAt
    && IsCoordinateAddressableKind(row.kind)
    && exists tag, d | tag in e.tags ::
         SpellsCoordinate(tag, row, d) && (IsAddressableKind(row.kind) ==> d == ValueOr(GetDTagValue(row.tags), ""))
  }

  predicate SpellsCoordinate(tag: seq<string>, row: Event, d: string)
  {
    |tag| >= 2 && tag[0] == "a" && row.kind >= 0 && tag[1] == PrintNat(row.kind) + ":" + row.pubkey + ":" + d
  }

  lemma KindIsSafe(kind: int)
    requires IsCoordinateAddressableKind(kind)
    ensures 0 <= kind <= MAX_SAFE_INTEGER
  {
  }

  lemma CoordinateTag(e: Event, tag: seq<string>, row: Event)
    requires NamesAddress(tag, e.pubkey)
    ensures AtAddress(row, ParseAddress(tag[1]).value)
            <==> row.pubkey == e.pubkey && Hex64(row.pubkey) && IsCoordinateAddressableKind(row.kind)
                 && exists d :: SpellsCoordinate(tag, row, d)
                                && (IsAddressableKind(row.kind) ==> d == ValueOr(GetDTagValue(row.tags), ""))
  {
    var a := ParseAddress(tag[1]).value;
    ParsedPrints(tag[1], a);
    if AtAddress(row, a) {
      assert SpellsCoordinate(tag, row, a.identifier);
    }
    if row.pubkey == e.pubkey && Hex64(row.pubkey) && IsCoordinateAddressableKind(row.kind) {
      forall d | SpellsCoordinate(tag, row, d) ensures a == Address(row.kind, row.pubkey, d) {
        KindIsSafe(row.kind);
        PrintedParses(Address(row.kind, row.pubkey, d));
      }
    }
  }

  lemma SpelledIsNamed(e: Event, tag: seq<string>, row: Event, d: string)
    requires row.pubkey == e.pubkey && Hex64(row.pubkey) && IsCoordinateAddressableKind(row.kind)
    requires SpellsCoordinate(tag, row, d)
    ensures NamesAddress(tag, e.pubkey)
  {
    KindIsSafe(row.kind);
    PrintedParses(Address(row.kind, row.pubkey, d));
  }

  /** What the request's tags say: the row is named by id, or is a version of a named coordinate. */
  ghost predicate NamedBy(e: Event, row: Event)
  {
    NamedById(e, row) || NamedByCoordinate(e, row)
  }

  /** The caps drop nothing. */
  ghost predicate WithinCaps(e: Event)
  {
    |FirstOccurrences(IdRefs(e.tags))| <= 1000 && |FirstOccurrences(AddressRefs(e.tags, e.pubkey))| <= 1000
  }

  lemma KeptReferences(e: Event, id: string, a: Address)
    ensures id in RequestOf(e).ids ==> id in IdRefs(e.tags)
    ensures WithinCaps(e) && id in IdRefs(e.tags) ==> id in RequestOf(e).ids
    ensures WithinCaps(e) && a in AddressRefs(e.tags, e.pubkey) ==> a in RequestOf(e).addresses
  {
    var f, g := FirstOccurrences(IdRefs(e.tags)), FirstOccurrences(AddressRefs(e.tags, e.pubkey));
    assert id in Elements(f) <==> id in Elements(IdRefs(e.tags));
    assert a in Elements(g) <==> a in Elements(AddressRefs(e.tags, e.pubkey));
  }

  lemma TargetIsNamed(e: Event, row: Event)
    requires Deletes(RequestOf(e), row)
    ensures NamedBy(e, row)
  {
    var r := RequestOf(e);
    if row.id in r.ids && row.pubkey == r.pubkey && row.kind != DELETION_EVENT_KIND {
      KeptReferences(e, row.id, Address(0, "", ""));
      IdRefsFromTags(e.tags, row.id);
    } else {
      var a :| a in r.addresses && DeletesVersion(a, r.until, row);
      RequestAddresses(e, a);
      RefsAreOwn(e.tags, e.pubkey, a);
      var tag :| tag in e.tags && NamesAddress(tag, e.pubkey) && ParseAddress(tag[1]) == Some(a);
      CoordinateTag(e, tag, row);
    }
  }

  lemma NamedIsTarget(e: Event, row: Event)
    requires WithinCaps(e) && NamedBy(e, row)
    ensures Deletes(RequestOf(e), row)
  {
    if NamedById(e, row) {
      var tag :| tag in e.tags && |tag| >= 2 && tag[0] == "e" && tag[1] == row.id;
      RefsOfTags(e.tags, e.pubkey, tag);
      KeptReferences(e, row.id, Address(0, "", ""));
    } else {
      var tag, d :| tag in e.tags && SpellsCoordinate(tag, row, d)
                    && (IsAddressableKind(row.kind) ==> d == ValueOr(GetDTagValue(row.tags), ""));
      SpelledIsNamed(e, tag, row, d);
      CoordinateTag(e, tag, row);
      var a := ParseAddress(tag[1]).value;
      RefsOfTags(e.tags, e.pubkey, tag);
      KeptReferences(e, row.id, a);
      assert DeletesVersion(a, e.createdAt, row);
    }
  }

  /** A request deletes nothing but what it names and, within the caps, all of it. */
  lemma DeletesExactlyTheNamed(e: Event, row: Event)
    ensures Deletes(RequestOf(e), row) ==> NamedBy(e, row)
    ensures WithinCaps(e) ==> (Deletes(RequestOf(e), row) <==> NamedBy(e, row))
  {
    if Deletes(RequestOf(e), row) {
      TargetIsNamed(e, row);
    }
    if WithinCaps(e) && NamedBy(e, row) {
      NamedIsTarget(e, row);
    }
  }

  // ---- handling requests, each saved before it is applied

  /** The table after deletion requests are handled one at a time. */
  function Handling(rows: Rows, requests: seq<Event>): Rows
  {
    if requests == [] then rows else
      var e := requests[|requests| - 1];
      Applied(Handling(rows, requests[..|requests| - 1])[e.id := e], RequestOf(e))
  }

  ghost predicate AreRequests(requests: seq<Event>)
  {
    DistinctIds(Elements(requests)) && forall e | e in requests :: e.kind == DELETION_EVENT_KIND
  }

  ghost predicate IsRequest(requests: seq<Event>, id: string)
  {
    exists e | e in requests :: e.id == id
  }

  /** No request of the run targets the row. */
  ghost predicate Spared(requests: seq<Event>, row: Event)
  {
    forall e | e in requests :: !Deletes(RequestOf(e), row)
  }

  lemma RequestIsSpared(requests: seq<Event>, row: Event)
    requires row.kind == DELETION_EVENT_KIND
    ensures Spared(requests, row)
  {
    forall e | e in requests ensures !Deletes(RequestOf(e), row) {
      if Deletes(RequestOf(e), row) {
        OnlyOwnAndNeverRequests(e, row);
      }
    }
  }

  /** What the table holds under one id afterwards: the request with that id, or the row it held
      if no request targets it. */
  lemma {:induction false} Settled(rows: Rows, requests: seq<Event>, id: string)
    requires AreRequests(requests)
    ensures id in Handling(rows, requests) <==> IsRequest(requests, id) || (id in rows && Spared(requests, rows[id]))
    ensures forall e | e in requests && e.id == id :: id in Handling(rows, requests) && Handling(rows, requests)[id] == e
    ensures id in Handling(rows, requests) && !IsRequest(requests, id) ==> Handling(rows, requests)[id] == rows[id]
  {
    if requests != [] {
      var front, e := requests[..|requests| - 1], requests[|requests| - 1];
      assert requests == front + [e] && Elements(front) <= Elements(requests);
      assert forall x :: x in requests <==> x in front || x == e;
      Settled(rows, front, id);
      SettledOneMore(rows, Handling(rows, front), front, e, id);
    }
  }

  lemma SettledOneMore(rows: Rows, before: Rows, front: seq<Event>, e: Event, id: string)
    requires AreRequests(front + [e])
    requires id in before <==> IsRequest(front, id) || (id in rows && Spared(front, rows[id]))
    requires forall x | x in front && x.id == id :: id in before && before[id] == x
    requires id in before && !IsRequest(front, id) ==> before[id] == rows[id]
    ensures var after := Applied(before[e.id := e], RequestOf(e));
            && (id in after <==> IsRequest(front + [e], id) || (id in rows && Spared(front + [e], rows[id])))
            && (forall x | x in front + [e] && x.id == id :: id in after && after[id] == x)
            && (id in after && !IsRequest(front + [e], id) ==> after[id] == rows[id])
  {
    assert e in front + [e] && forall x | x in front :: x in front + [e];
    if e.id == id {
      RequestIsSpared([e], e);
      assert e in [e] && !Deletes(RequestOf(e), e);
      forall x | x in front + [e] && x.id == id ensures x == e {
        assert x in Elements(front + [e]) && e in Elements(front + [e]);
      }
    } else if IsRequest(front, id) {
      var x :| x in front && x.id == id;
      RequestIsSpared([e], x);
      assert e in [e];
    } else {
      assert !IsRequest(front + [e], id);
    }
  }

  ghost predicate SameRequests(p: seq<Event>, q: seq<Event>)
  {
    forall e :: e in p <==> e in q
  }

  lemma SameElements(p: seq<Event>, q: seq<Event>)
    requires AreRequests(p) && Elements(p) == Elements(q)
    ensures SameRequests(p, q) && AreRequests(q)
  {
    forall e ensures e in p <==> e in q {
      assert e in p <==> e in Elements(p);
      assert e in q <==> e in Elements(q);
    }
  }

  lemma SameSettled(rows: Rows, p: seq<Event>, q: seq<Event>, id: string)
    requires AreRequests(p) && AreRequests(q) && SameRequests(p, q)
    ensures id in Handling(rows, p) <==> id in Handling(rows, q)
    ensures id in Handling(rows, p) ==> Handling(rows, p)[id] == Handling(rows, q)[id]
  {
    Settled(rows, p, id);
    Settled(rows, q, id);
    if IsRequest(p, id) {
      var e :| e in p && e.id == id;
      assert e in q;
    } else {
      assert !IsRequest(q, id);
      assert id in rows ==> (Spared(p, rows[id]) <==> Spared(q, rows[id]));
    }
  }

  /** Deletion requests, repeats included, leave the same table whatever order they arrive in. */
  lemma RequestsInAnyOrder(rows: Rows, p: seq<Event>, q: seq<Event>)
    requires AreRequests(p) && Elements(p) == Elements(q)
    ensures Handling(rows, p) == Handling(rows, q)
  {
    SameElements(p, q);
    forall id ensures id in Handling(rows, p) <==> id in Handling(rows, q)
              ensures id in Handling(rows, p) ==> Handling(rows, p)[id] == Handling(rows, q)[id]
    {
      SameSettled(rows, p, q, id);
    }
  }

  /** Handling a request again changes nothing. */
  lemma Idempotent(rows: Rows, e: Event)
    requires e.kind == DELETION_EVENT_KIND
    ensures Handling(rows, [e, e]) == Handling(rows, [e])
  {
    assert Elements([e, e]) == Elements([e]);
    RequestsInAnyOrder(rows, [e, e], [e]);
  }

  /** Two requests leave the same table in either order. */
  lemma Commute(rows: Rows, e: Event, f: Event)
    requires e.kind == DELETION_EVENT_KIND && f.kind == DELETION_EVENT_KIND && (e.id == f.id ==> e == f)
    ensures Handling(rows, [e, f]) == Handling(rows, [f, e])
  {
    assert Elements([e, f]) == Elements([f, e]);
    RequestsInAnyOrder(rows, [e, f], [f, e]);
  }
}
