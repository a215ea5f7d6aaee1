/** Bech32 strings (BIP-173, without its 90-character cap): the decoder, the encoder,
    their round trip, and detection of errors confined to six characters. */
module Bech32 {
  import opened Events
  import opened Words
  import opened Checksum
  import opened Regroup

  const CHARSET := "qpzry9x8gf2tvdw0s3jn54khce6mua7l"
  const MAX_BECH32_LENGTH := 1024

  datatype Reason = TooShort | MixedCase | InvalidCharacter(c: char) | BadChecksum | BadPadding
  datatype Decoded = Ok(hrp: string, bytes: seq<int>) | Rejected(reason: Reason)

  /** The platform's `toLowerCase` and `toUpperCase`. */
  datatype Casing = Casing(lower: string -> string, upper: string -> string)

  function LowerChar(c: char): char
  {
    if 'A' <= c <= 'Z' then c + (32 as char) else c
  }

  function UpperChar(c: char): char
  {
    if 'a' <= c <= 'z' then c - (32 as char) else c
  }

  predicate IsAscii(s: string)
  {
    forall i | 0 <= i < |s| :: s[i] < 128 as char
  }

  function Lower(s: string): (r: string)
    ensures |r| == |s|
  {
    seq(|s|, i requires 0 <= i < |s| => LowerChar(s[i]))
  }

  function Upper(s: string): (r: string)
    ensures |r| == |s|
  {
    seq(|s|, i requires 0 <= i < |s| => UpperChar(s[i]))
  }

  /** What Unicode and ECMAScript say of ASCII strings; elsewhere casing is left open. */
  ghost predicate Standard(casing: Casing)
  {
    forall s | IsAscii(s) :: casing.lower(s) == Lower(s) && casing.upper(s) == Upper(s)
  }

  /** `lastIndexOf('1')`. */
  function LastOne(s: string): (r: int)
    ensures -1 <= r < |s|
    ensures r >= 0 ==> s[r] == '1'
    ensures forall i | r < i < |s| :: s[i] != '1'
  {
    if s == "" then -1
    else if s[|s| - 1] == '1' then |s| - 1
    else LastOne(s[..|s| - 1])
  }

  function CharAt(v: int): char
    requires 0 <= v < 32
  {
    CHARSET[v]
  }

  /** `CHARSET.indexOf(c)`. */
  function IndexOf(c: char): (r: int)
    ensures -1 <= r < 32
  {
    IndexFrom(c, 0)
  }

  function IndexFrom(c: char, k: nat): (r: int)
    requires k <= 32
    ensures -1 <= r < 32
    decreases 32 - k
  {
    if k == 32 then -1 else if CharAt(k) == c then k else IndexFrom(c, k + 1)
  }

  lemma {:induction false} IndexFromFinds(c: char, k: nat)
    requires k <= 32
    ensures IndexFrom(c, k) >= 0 ==> CharAt(IndexFrom(c, k)) == c
    ensures IndexFrom(c, k) == -1 ==> forall i | k <= i < 32 :: CharAt(i) != c
    decreases 32 - k
  {
    if k < 32 && CharAt(k) != c {
      IndexFromFinds(c, k + 1);
    }
  }

  /** The position each character has in the alphabet; others have none. */
  function Position(c: char): int
  {
    match c
    case 'q' => 0 case 'p' => 1 case 'z' => 2 case 'r' => 3 case 'y' => 4 case '9' => 5 case 'x' => 6 case '8' => 7
    case 'g' => 8 case 'f' => 9 case '2' => 10 case 't' => 11 case 'v' => 12 case 'd' => 13 case 'w' => 14 case '0' => 15
    case 's' => 16 case '3' => 17 case 'j' => 18 case 'n' => 19 case '5' => 20 case '4' => 21 case 'k' => 22 case 'h' => 23
    case 'c' => 24 case 'e' => 25 case '6' => 26 case 'm' => 27 case 'u' => 28 case 'a' => 29 case '7' => 30 case 'l' => 31
    case _ => -1
  }

  /** The alphabet's characters are distinct, lower case, and not the separator. */
  lemma CharsetIndex(v: int)
    requires 0 <= v < 32
    ensures IndexOf(CharAt(v)) == v && CharAt(v) != '1' && LowerChar(CharAt(v)) == CharAt(v) && CharAt(v) < 128 as char
  {
    IndexFromFinds(CharAt(v), 0);
    PositionOf(v);
    PositionOf(IndexOf(CharAt(v)));
  }

  lemma PositionOf(v: int)
    requires 0 <= v < 32
    ensures Position(CharAt(v)) == v && CharAt(v) != '1' && LowerChar(CharAt(v)) == CharAt(v) && CharAt(v) < 128 as char
  {
  }

  /** The first character outside the alphabet. */
  function FirstInvalid(data: string): (r: Option<char>)
    ensures r.None? <==> forall i | 0 <= i < |data| :: IndexOf(data[i]) >= 0
  {
    if data == "" then None
    else if IndexOf(data[0]) < 0 then Some(data[0])
    else
      assert forall i | 0 <= i < |data| :: i > 0 ==> data[i] == data[1..][i - 1];
      FirstInvalid(data[1..])
  }

  function WordValues(data: string): (r: seq<int>)
    requires FirstInvalid(data).None?
    ensures |r| == |data| && AllBelow(r, 32)
  {
    seq(|data|, i requires 0 <= i < |data| => IndexOf(data[i]))
  }

  function Chars(words: seq<int>): (r: string)
    requires AllBelow(words, 32)
    ensures |r| == |words|
  {
    seq(|words|, i requires 0 <= i < |words| => CharAt(words[i]))
  }

  /** Small integers as the checksum sees them. */
  function AsWords(values: seq<int>): (r: seq<word>)
    requires AllBelow(values, 32)
    ensures |r| == |values|
  {
    seq(|values|, i requires 0 <= i < |values| => values[i] as word)
  }

  function Code(c: char): word
  {
    (c as int) as word
  }

  function HighPart(c: char): word
  {
    Code(c) >> 5
  }

  function LowPart(c: char): word
  {
    Code(c) & 31
  }

  /** The prefix as the checksum sees it: high parts, zero, low parts. */
  function HrpExpand(hrp: string): seq<word>
  {
    seq(|hrp|, i requires 0 <= i < |hrp| => HighPart(hrp[i])) + [0]
    + seq(|hrp|, i requires 0 <= i < |hrp| => LowPart(hrp[i]))
  }

  function PrefixOf(hrp: string, words: seq<int>): seq<word>
    requires AllBelow(words, 32)
  {
    HrpExpand(hrp) + AsWords(words)
  }

  method ExpandHrp(hrp: string) returns (result: seq<word>)
    ensures result == HrpExpand(hrp)
  {
    result := [];
    for i := 0 to |hrp|
      invariant result == seq(i, j requires 0 <= j < i => HighPart(hrp[j]))
    {
      result := result + [HighPart(hrp[i])];
    }
    result := result + [0];
    ghost var high := result;
    for i := 0 to |hrp|
      invariant result == high + seq(i, j requires 0 <= j < i => LowPart(hrp[j]))
    {
      result := result + [LowPart(hrp[i])];
    }
  }

  ghost predicate IsPayload(words: seq<int>, bytes: seq<int>)
  {
    AllBelow(bytes, 256) && Regroups(words, bytes)
  }

  /** The byte string the words carry, if they carry one. */
  ghost function BytesOf(words: seq<int>): Option<seq<int>>
  {
    if exists bytes :: IsPayload(words, bytes) then
      var bytes :| IsPayload(words, bytes);
      Some(bytes)
    else None
  }

  lemma BytesOfPayload(words: seq<int>, bytes: seq<int>)
    requires IsPayload(words, bytes)
    ensures BytesOf(words) == Some(bytes)
  {
    var other := BytesOf(words).value;
    SameBytes(words, other, bytes);
  }

  /** What the part after the separator decodes to, under a prefix. */
  ghost function DecodeData(hrp: string, data: string): Decoded
  {
    if |data| < 6 then Rejected(TooShort)
    else if FirstInvalid(data).Some? then Rejected(InvalidCharacter(FirstInvalid(data).value))
    else if Polymod(PrefixOf(hrp, WordValues(data))) != 1 then Rejected(BadChecksum)
    else
      match BytesOf(WordValues(data)[..|data| - 6])
      case None => Rejected(BadPadding)
      case Some(bytes) => Ok(hrp, bytes)
  }

  /** What a string decodes to. */
  ghost function Decode(casing: Casing, input: string): Decoded
  {
    var lowered := casing.lower(input);
    var separator := LastOne(lowered);
    if |input| == 0 || |input| > MAX_BECH32_LENGTH then Rejected(TooShort)
    else if input != lowered && input != casing.upper(input) then Rejected(MixedCase)
    else if separator < 1 then Rejected(TooShort)
    else DecodeData(lowered[..separator], lowered[separator + 1..])
  }

  /** The decoder's character loop: the words, or the first character that is none. */
  method ReadWords(data: string) returns (bad: Option<char>, words: seq<int>)
    ensures bad == FirstInvalid(data)
    ensures bad.None? ==> words == WordValues(data)
  {
    words := [];
    for i := 0 to |data|
      invariant FirstInvalid(data) == FirstInvalid(data[i..])
      invariant |words| == i && forall j | 0 <= j < i :: words[j] == IndexOf(data[j]) && words[j] >= 0
    {
      var value := IndexOf(data[i]);
      assert data[i..][1..] == data[i + 1..];
      if value == -1 {
        return Some(data[i]), words;
      }
      words := words + [value];
    }
    return None, words;
  }

  method RegroupPayload(words: seq<int>) returns (r: Option<seq<int>>)
    requires AllBelow(words, 32)
    ensures r == BytesOf(words)
  {
    r := ConvertWordsToBytes(words);
    if r.Some? {
      BytesOfPayload(words, r.value);
    }
  }

  method ReadData(hrp: string, data: string) returns (r: Decoded)
    ensures r == DecodeData(hrp, data)
  {
    if |data| < 6 {
      return Rejected(TooShort);
    }
    var bad, words := ReadWords(data);
    if bad.Some? {
      return Rejected(InvalidCharacter(bad.value));
    }
    var expanded := ExpandHrp(hrp);
    var chk := ComputePolymod(expanded + AsWords(words));
    if chk != 1 {
      return Rejected(BadChecksum);
    }
    var bytes := RegroupPayload(words[..|words| - 6]);
    return if bytes.None? then Rejected(BadPadding) else Ok(hrp, bytes.value);
  }

  method DecodeBech32(casing: Casing, input: string) returns (r: Decoded)
    ensures r == Decode(casing, input)
  {
    if |input| == 0 || |input| > MAX_BECH32_LENGTH {
      return Rejected(TooShort);
    }
    if input != casing.lower(input) && input != casing.upper(input) {
      return Rejected(MixedCase);
    }
    var lowered := casing.lower(input);
    var separator := LastOne(lowered);
    if separator < 1 {
      return Rejected(TooShort);
    }
    r := ReadData(lowered[..separator], lowered[separator + 1..]);
  }

  function DropFive(x: word): word
  {
    x >> 5
  }

  /** `p >> (5 * (6 - k))`: the first `k` of the six 5-bit digits of a 30-bit number. */
  function TopDigits(p: word, k: nat): word
    requires k <= 6
    decreases 6 - k
  {
    if k == 6 then p else DropFive(TopDigits(p, k + 1))
  }

  function LastFive(x: word): word
  {
    x & 31
  }

  function Digit(x: word): int
  {
    LastFive(x) as int
  }

  lemma DigitIsSmall(x: word)
    ensures 0 <= Digit(x) < 32 && Digit(x) as word == LastFive(x)
  {
    LastFiveIsSmall(x);
    SmallWord(LastFive(x));
  }

  lemma LastFiveIsSmall(x: word)
    ensures LastFive(x) < 32
  {
  }

  lemma SmallWord(b: word)
    requires b < 32
    ensures b as int < 32 && (b as int) as word == b
  {
  }

  /** The six checksum words. */
  function TailOf(checksum: word): (r: seq<int>)
    ensures |r| == 6 && AllBelow(r, 32)
  {
    seq(6, i requires 0 <= i < 6 => DigitAt(checksum, i))
  }

  function DigitAt(checksum: word, i: nat): (r: int)
    requires i < 6
    ensures 0 <= r < 32 && r as word == LastFive(TopDigits(checksum, i + 1))
  {
    DigitIsSmall(TopDigits(checksum, i + 1));
    Digit(TopDigits(checksum, i + 1))
  }

  const SIX_ZEROS: seq<word> := [0, 0, 0, 0, 0, 0]

  function ChecksumOf(hrp: string, words: seq<int>): word
    requires AllBelow(words, 32)
  {
    Xor(Polymod(PrefixOf(hrp, words) + SIX_ZEROS), 1)
  }

  /** `s` is the bech32 string of `bytes` under `hrp`. */
  ghost predicate IsEncoding(s: string, hrp: string, bytes: seq<int>)
  {
    exists words :: Spells(s, hrp, words) && Regroups(words, bytes)
  }

  predicate Spells(s: string, hrp: string, words: seq<int>)
  {
    AllBelow(words, 32) && s == hrp + "1" + Chars(words + TailOf(ChecksumOf(hrp, words)))
  }

  method Bech32Encode(hrp: string, bytes: seq<int>) returns (s: string)
    requires AllBelow(bytes, 256)
    ensures IsEncoding(s, hrp, bytes)
  {
    var words := ConvertBytesToWords(bytes);
    var expanded := ExpandHrp(hrp);
    var polymod := ComputePolymod(expanded + AsWords(words) + SIX_ZEROS);
    s := hrp + "1" + Chars(words + TailOf(Xor(polymod, 1)));
    assert Spells(s, hrp, words);
  }

  predicate Bounded(values: seq<word>)
  {
    forall i | 0 <= i < |values| :: values[i] < 0x40000000
  }

  lemma PrefixIsBounded(hrp: string, words: seq<int>)
    requires AllBelow(words, 32)
    ensures Bounded(PrefixOf(hrp, words))
  {
    forall i | 0 <= i < |hrp| ensures HighPart(hrp[i]) < 0x40000000 && LowPart(hrp[i]) < 0x40000000 {
      PartsAreSmall(Code(hrp[i]));
    }
    forall i | 0 <= i < |words| ensures AsWords(words)[i] < 0x40000000 {
      WordIsSmall(words[i]);
    }
  }

  lemma PartsAreSmall(x: word)
    ensures x >> 5 < 0x40000000 && x & 31 < 0x40000000
  {
  }

  lemma WordIsSmall(v: int)
    requires 0 <= v < 32
    ensures (v as word) < 32
  {
  }

  lemma NextDigit(x: word)
    requires x < 0x40000000
    ensures Shifted(DropFive(x), LastFive(x)) == x
    ensures DropFive(x) < 0x2000000 && LastFive(x) < 32
  {
  }

  lemma {:induction false} TopDigitsBounded(p: word, k: nat)
    requires p < 0x40000000 && k <= 6
    ensures TopDigits(p, k) < 0x40000000
    decreases 6 - k
  {
    if k < 6 {
      TopDigitsBounded(p, k + 1);
      NextDigit(TopDigits(p, k + 1));
    }
  }

  lemma NoDigitsLeft(p: word)
    requires p < 0x40000000
    ensures TopDigits(p, 0) == 0
  {
    assert TopDigits(p, 5) == DropFive(p);
    assert TopDigits(p, 4) == DropFive(TopDigits(p, 5));
    assert TopDigits(p, 3) == DropFive(TopDigits(p, 4));
    assert TopDigits(p, 2) == DropFive(TopDigits(p, 3));
    assert TopDigits(p, 1) == DropFive(TopDigits(p, 2));
    SixDrops(p);
  }

  lemma SixDrops(p: word)
    requires p < 0x40000000
    ensures DropFive(DropFive(DropFive(DropFive(DropFive(DropFive(p)))))) == 0
  {
  }

  predicate AreDigitsOf(digits: seq<word>, p: word)
    requires |digits| == 6
  {
    forall i | 0 <= i < 6 :: digits[i] == LastFive(TopDigits(p, i + 1))
  }

  /** Six digits from state zero line up to the number they came from. */
  lemma {:induction false} DigitsLineUp(p: word, digits: seq<word>, k: nat)
    requires p < 0x40000000 && k <= 6 && |digits| == 6 && AreDigitsOf(digits, p)
    ensures Fold(0, digits[..k]) == TopDigits(p, k)
  {
    if k == 0 {
      NoDigitsLeft(p);
    } else {
      DigitsLineUp(p, digits, k - 1);
      FoldNext(0, digits, k - 1);
      TopDigitsBounded(p, k);
      NextDigit(TopDigits(p, k));
      StepOfSmall(TopDigits(p, k - 1), LastFive(TopDigits(p, k)));
    }
  }

  /** A tail that lines up to what six zeros leave, but for one, makes the checksum come out as one. */
  lemma TailFits(values: seq<word>, tail: seq<word>, z: word)
    requires |tail| == 6 && z == Polymod(values + SIX_ZEROS) && Fold(0, tail) == Xor(z, 1)
    ensures Polymod(values + tail) == 1
  {
    FoldAppend(1, values, SIX_ZEROS);
    FoldAppend(1, values, tail);
    FromZeros(Fold(1, values), tail);
    XorBack(z);
  }

  lemma ZerosAreBounded(values: seq<word>, z: word)
    requires Bounded(values) && z == Polymod(values + SIX_ZEROS)
    ensures Xor(z, 1) < 0x40000000
  {
    FoldAppend(1, values, SIX_ZEROS);
    FoldIsBounded(1, values);
    FoldIsBounded(Fold(1, values), SIX_ZEROS);
    ChecksumIsBounded(z);
  }

  /** Appending the tail makes the checksum come out as one. */
  lemma TailCompletes(values: seq<word>)
    requires Bounded(values)
    ensures Polymod(values + AsWords(TailOf(Xor(Polymod(values + SIX_ZEROS), 1)))) == 1
  {
    var z := Polymod(values + SIX_ZEROS);
    ZerosAreBounded(values, z);
    TailLinesUp(Xor(z, 1));
    TailFits(values, AsWords(TailOf(Xor(z, 1))), z);
  }

  lemma TailLinesUp(p: word)
    requires p < 0x40000000
    ensures Fold(0, AsWords(TailOf(p))) == p
  {
    var tail := AsWords(TailOf(p));
    TailIsDigits(p, tail);
    DigitsLineUp(p, tail, 6);
    assert tail[..6] == tail;
  }

  lemma TailIsDigits(p: word, tail: seq<word>)
    requires tail == AsWords(TailOf(p))
    ensures |tail| == 6 && AreDigitsOf(tail, p)
  {
    forall i | 0 <= i < 6 ensures tail[i] == LastFive(TopDigits(p, i + 1)) {
      assert tail[i] == DigitAt(p, i) as word;
    }
  }

  /** Six words change the checksum of six zeros by exactly what they line up to. */
  lemma FromZeros(c: word, tail: seq<word>)
    requires |tail| == 6
    ensures Fold(c, tail) == Xor(Fold(c, SIX_ZEROS), Fold(0, tail))
  {
    XorCancels(c);
    FoldIsLinear(c, 0, SIX_ZEROS, tail);
    XorWithZeros(tail);
  }

  lemma XorWithZeros(tail: seq<word>)
    requires |tail| == 6
    ensures XorAll(SIX_ZEROS, tail) == tail
  {
    forall i | 0 <= i < 6 ensures XorAll(SIX_ZEROS, tail)[i] == tail[i] {
      XorCancels(tail[i]);
    }
  }

  lemma ChecksumIsBounded(z: word)
    requires z < 0x40000000
    ensures Xor(z, 1) < 0x40000000
  {
  }

  lemma XorBack(z: word)
    ensures Xor(z, Xor(z, 1)) == 1
  {
  }

  lemma CharsetChars(words: seq<int>)
    requires AllBelow(words, 32)
    ensures forall i | 0 <= i < |words| :: Chars(words)[i] != '1' && IndexOf(Chars(words)[i]) == words[i]
    ensures IsAscii(Chars(words)) && Lower(Chars(words)) == Chars(words)
  {
    forall i | 0 <= i < |words| ensures Chars(words)[i] != '1' && IndexOf(Chars(words)[i]) == words[i]
      && LowerChar(Chars(words)[i]) == Chars(words)[i] && Chars(words)[i] < 128 as char
    {
      CharsetIndex(words[i]);
    }
  }

  lemma {:induction false} SeparatorIsLast(hrp: string, data: string)
    requires forall i | 0 <= i < |data| :: data[i] != '1'
    ensures LastOne(hrp + "1" + data) == |hrp|
    decreases |data|
  {
    var s := hrp + "1" + data;
    if data == "" {
      assert s[|s| - 1] == '1';
    } else {
      var rest := data[..|data| - 1];
      assert s[|s| - 1] == data[|data| - 1];
      assert s[..|s| - 1] == hrp + "1" + rest;
      SeparatorIsLast(hrp, rest);
    }
  }

  /** An encoded string splits at its separator into the prefix and the words. */
  lemma SpelledParts(s: string, hrp: string, words: seq<int>)
    requires AllBelow(words, 32) && s == hrp + "1" + Chars(words)
    ensures LastOne(s) == |hrp| && s[..|hrp|] == hrp && s[|hrp| + 1..] == Chars(words)
  {
    CharsetChars(words);
    SeparatorIsLast(hrp, Chars(words));
  }

  /** Under a lower-case ASCII prefix, an encoding is its own lower case. */
  lemma EncodingIsLower(casing: Casing, s: string, hrp: string, bytes: seq<int>)
    requires Standard(casing) && IsEncoding(s, hrp, bytes) && IsAscii(hrp) && Lower(hrp) == hrp
    ensures casing.lower(s) == s
  {
    var words :| Spells(s, hrp, words) && Regroups(words, bytes);
    CharsetChars(words + TailOf(ChecksumOf(hrp, words)));
    LowerIsKept(hrp, Chars(words + TailOf(ChecksumOf(hrp, words))));
  }

  lemma LowerIsKept(hrp: string, data: string)
    requires Lower(hrp) == hrp && Lower(data) == data && IsAscii(hrp) && IsAscii(data)
    ensures var s := hrp + "1" + data; Lower(s) == s && IsAscii(s)
  {
    var s := hrp + "1" + data;
    forall i | 0 <= i < |s| ensures LowerChar(s[i]) == s[i] && s[i] < 128 as char {
      assert i < |hrp| ==> s[i] == Lower(hrp)[i];
      assert i > |hrp| ==> s[i] == Lower(data)[i - |hrp| - 1];
    }
  }

  lemma ValuesOfChars(words: seq<int>)
    requires AllBelow(words, 32)
    ensures FirstInvalid(Chars(words)).None? && WordValues(Chars(words)) == words
  {
    CharsetChars(words);
  }

  lemma CompleteData(hrp: string, words: seq<int>, bytes: seq<int>)
    requires AllBelow(words, 32) && IsPayload(words, bytes)
    ensures DecodeData(hrp, Chars(words + TailOf(ChecksumOf(hrp, words)))) == Ok(hrp, bytes)
  {
    var tail := TailOf(ChecksumOf(hrp, words));
    ValuesOfChars(words + tail);
    PrefixIsBounded(hrp, words);
    TailCompletes(PrefixOf(hrp, words));
    PrefixAndTail(hrp, words, tail);
    assert (words + tail)[..|words|] == words;
    BytesOfPayload(words, bytes);
  }

  lemma PrefixAndTail(hrp: string, words: seq<int>, tail: seq<int>)
    requires AllBelow(words, 32) && AllBelow(tail, 32)
    ensures PrefixOf(hrp, words + tail) == PrefixOf(hrp, words) + AsWords(tail)
  {
    AsWordsAppend(words, tail);
    Reassociated(HrpExpand(hrp), AsWords(words), AsWords(tail));
  }

  lemma AsWordsAppend(p: seq<int>, q: seq<int>)
    requires AllBelow(p, 32) && AllBelow(q, 32)
    ensures AsWords(p + q) == AsWords(p) + AsWords(q)
  {
  }

  lemma Reassociated(p: seq<word>, q: seq<word>, r: seq<word>)
    ensures p + (q + r) == p + q + r
  {
  }

  /** Decoding inverts encoding, for every prefix and byte string whose encoding is its own
      lower case, as `EncodingIsLower` has it, and stays within the length cap. */
  lemma RoundTrip(casing: Casing, s: string, hrp: string, bytes: seq<int>)
    requires IsEncoding(s, hrp, bytes) && AllBelow(bytes, 256)
    requires hrp != "" && casing.lower(s) == s && |s| <= MAX_BECH32_LENGTH
    ensures Decode(casing, s) == Ok(hrp, bytes)
  {
    var words :| Spells(s, hrp, words) && Regroups(words, bytes);
    SpelledParts(s, hrp, words + TailOf(ChecksumOf(hrp, words)));
    CompleteData(hrp, words, bytes);
  }

  function FromWord(n: nat): word
  {
    if n == 0 then 0 else FromWord(n - 1) + 1
  }

  lemma NextNumber(b: word, n: nat)
    requires 0 < n < 256 && b as int == n - 1
    ensures (b + 1) as int == n
  {
  }

  lemma {:induction false} CountUp(n: nat)
    requires n < 256
    ensures FromWord(n) as int == n
  {
    if n > 0 {
      CountUp(n - 1);
      NextNumber(FromWord(n - 1), n);
    }
  }

  lemma NumberRoundTrip(n: nat)
    requires n < 256
    ensures (n as word) as int == n
  {
    CountUp(n);
  }

  lemma SameNumbers(p: seq<int>, q: seq<int>)
    requires AllBelow(p, 32) && AllBelow(q, 32) && AsWords(p) == AsWords(q)
    ensures p == q
  {
    assert |p| == |AsWords(p)| == |AsWords(q)| == |q|;
    forall i | 0 <= i < |p| ensures p[i] == q[i] {
      assert AsWords(p)[i] == AsWords(q)[i];
      NumberRoundTrip(p[i]);
      NumberRoundTrip(q[i]);
    }
  }

  lemma FiveBitWords(values: seq<int>)
    requires AllBelow(values, 32)
    ensures FiveBit(AsWords(values))
  {
    forall i | 0 <= i < |values| ensures AsWords(values)[i] < 32 {
      WordIsSmall(values[i]);
    }
  }

  /** Six words in one place are determined by everything around them. */
  lemma WindowIsDetermined(hrp: string, before: seq<int>, p: seq<int>, q: seq<int>, after: seq<int>)
    requires AllBelow(before, 32) && AllBelow(p, 32) && AllBelow(q, 32) && AllBelow(after, 32)
    requires |p| == |q| <= 6
    requires Polymod(PrefixOf(hrp, before + p + after)) == Polymod(PrefixOf(hrp, before + q + after))
    ensures p == q
  {
    PrefixAndTail(hrp, before + p, after);
    PrefixAndTail(hrp, before + q, after);
    PrefixAndTail(hrp, before, p);
    PrefixAndTail(hrp, before, q);
    FiveBitWords(p);
    FiveBitWords(q);
    WindowOfSix(PrefixOf(hrp, before), AsWords(p), AsWords(q), AsWords(after));
    SameNumbers(p, q);
  }

  lemma CharsOfValues(data: string)
    requires FirstInvalid(data).None?
    ensures Chars(WordValues(data)) == data
  {
    forall i | 0 <= i < |data| ensures Chars(WordValues(data))[i] == data[i] {
      IndexFromFinds(data[i], 0);
    }
  }

  /** The checksum is the only tail the decoder accepts. */
  lemma OnlyTail(hrp: string, words: seq<int>, tail: seq<int>)
    requires AllBelow(words, 32) && AllBelow(tail, 32) && |tail| == 6
    requires Polymod(PrefixOf(hrp, words + tail)) == 1
    ensures tail == TailOf(ChecksumOf(hrp, words))
  {
    var own := TailOf(ChecksumOf(hrp, words));
    PrefixIsBounded(hrp, words);
    TailCompletes(PrefixOf(hrp, words));
    PrefixAndTail(hrp, words, own);
    assert words + tail + [] == words + tail && words + own + [] == words + own;
    WindowIsDetermined(hrp, words, tail, own, []);
  }

  lemma CutAtSeparator(t: string, k: nat)
    requires k < |t| && t[k] == '1'
    ensures t == t[..k] + "1" + t[k + 1..]
  {
  }

  /** Where the decoder cuts a string it accepts. */
  lemma AcceptedSplit(casing: Casing, s: string) returns (hrp: string, data: string)
    requires Decode(casing, s).Ok?
    ensures casing.lower(s) == hrp + "1" + data && DecodeData(hrp, data) == Decode(casing, s)
    ensures hrp != "" && |s| <= MAX_BECH32_LENGTH
  {
    var lowered := casing.lower(s);
    var separator := LastOne(lowered);
    hrp, data := lowered[..separator], lowered[separator + 1..];
    CutAtSeparator(lowered, separator);
  }

  /** An accepted string is its prefix, the separator and data accepted under it. */
  lemma AcceptedParts(casing: Casing, s: string) returns (data: string)
    requires Decode(casing, s).Ok?
    ensures casing.lower(s) == Decode(casing, s).hrp + "1" + data
    ensures DecodeData(Decode(casing, s).hrp, data) == Decode(casing, s)
    ensures FirstInvalid(data).None? && Polymod(PrefixOf(Decode(casing, s).hrp, WordValues(data))) == 1
  {
    var hrp;
    hrp, data := AcceptedSplit(casing, s);
    HrpIsKept(hrp, data);
    AcceptedWords(hrp, data);
  }

  lemma HrpIsKept(hrp: string, data: string)
    ensures DecodeData(hrp, data).Ok? ==> DecodeData(hrp, data).hrp == hrp
  {
  }

  /** What acceptance says of the words. */
  lemma AcceptedWords(hrp: string, data: string)
    requires DecodeData(hrp, data).Ok?
    ensures FirstInvalid(data).None? && |data| >= 6
    ensures Polymod(PrefixOf(hrp, WordValues(data))) == 1
    ensures IsPayload(WordValues(data)[..|data| - 6], DecodeData(hrp, data).bytes)
  {
    BytesOfIsPayload(WordValues(data)[..|data| - 6]);
  }

  lemma BytesOfIsPayload(words: seq<int>)
    ensures BytesOf(words).Some? ==> IsPayload(words, BytesOf(words).value)
  {
  }

  /** Whatever is accepted is, up to letter case, the encoding of its own bytes. */
  lemma AcceptedIsEncoding(casing: Casing, s: string)
    requires Decode(casing, s).Ok?
    ensures IsEncoding(casing.lower(s), Decode(casing, s).hrp, Decode(casing, s).bytes) && AllBelow(Decode(casing, s).bytes, 256)
  {
    var data := AcceptedParts(casing, s);
    AcceptedData(Decode(casing, s).hrp, data);
  }

  lemma AcceptedData(hrp: string, data: string)
    requires DecodeData(hrp, data).Ok?
    ensures IsEncoding(hrp + "1" + data, hrp, DecodeData(hrp, data).bytes)
    ensures AllBelow(DecodeData(hrp, data).bytes, 256)
  {
    AcceptedWords(hrp, data);
    var words := WordValues(data);
    var payload, tail := words[..|words| - 6], words[|words| - 6..];
    assert words == payload + tail;
    OnlyTail(hrp, payload, tail);
    CharsOfValues(data);
    assert Spells(hrp + "1" + data, hrp, payload);
  }

  /** The round trip's conditions are exact: an encoding decodes to what was encoded if and only
      if its prefix is not empty, it is its own lower case, and it keeps to the length cap. */
  lemma RoundTripExactly(casing: Casing, s: string, hrp: string, bytes: seq<int>)
    requires IsEncoding(s, hrp, bytes) && AllBelow(bytes, 256)
    ensures Decode(casing, s) == Ok(hrp, bytes)
            <==> hrp != "" && casing.lower(s) == s && |s| <= MAX_BECH32_LENGTH
  {
    if Decode(casing, s) == Ok(hrp, bytes) {
      var own, data := AcceptedSplit(casing, s);
      HrpIsKept(own, data);
      AcceptedIsEncoding(casing, s);
      OneEncoding(s, casing.lower(s), hrp, bytes);
    }
    if hrp != "" && casing.lower(s) == s && |s| <= MAX_BECH32_LENGTH {
      RoundTrip(casing, s, hrp, bytes);
    }
  }

  lemma OneEncoding(s: string, t: string, hrp: string, bytes: seq<int>)
    requires IsEncoding(s, hrp, bytes) && IsEncoding(t, hrp, bytes)
    ensures s == t
  {
    var v :| Spells(s, hrp, v) && Regroups(v, bytes);
    var w :| Spells(t, hrp, w) && Regroups(w, bytes);
    SameWords(v, w, bytes);
  }

  /** Two accepted strings of one prefix whose lower cases have one length and agree outside six
      consecutive characters are the same string, up to letter case. */
  lemma DetectsBursts(casing: Casing, s: string, t: string, at: nat, width: nat)
    requires Decode(casing, s).Ok? && Decode(casing, t).Ok? && Decode(casing, s).hrp == Decode(casing, t).hrp
    requires |casing.lower(s)| == |casing.lower(t)|
    requires |Decode(casing, s).hrp| < at && width <= 6 && at + width <= |casing.lower(s)|
    requires casing.lower(s)[..at] == casing.lower(t)[..at]
    requires casing.lower(s)[at + width..] == casing.lower(t)[at + width..]
    ensures casing.lower(s) == casing.lower(t)
  {
    var hrp := Decode(casing, s).hrp;
    var d := AcceptedParts(casing, s);
    var e := AcceptedParts(casing, t);
    BurstInString(hrp, d, casing.lower(s), e, casing.lower(t), at, width);
  }

  lemma BurstInString(hrp: string, d: string, s: string, e: string, t: string, at: nat, width: nat)
    requires s == hrp + "1" + d && t == hrp + "1" + e && |s| == |t|
    requires |hrp| < at && width <= 6 && at + width <= |s|
    requires s[..at] == t[..at] && s[at + width..] == t[at + width..]
    requires FirstInvalid(d).None? && FirstInvalid(e).None?
    requires Polymod(PrefixOf(hrp, WordValues(d))) == 1 && Polymod(PrefixOf(hrp, WordValues(e))) == 1
    ensures s == t
  {
    SameTail(hrp + "1", d, s, e, t, at, width);
    BurstInData(hrp, d, e, at - |hrp| - 1, width);
  }

  lemma SameTail(head: string, d: string, s: string, e: string, t: string, at: nat, width: nat)
    requires s == head + d && t == head + e && |head| <= at && at + width <= |s| == |t|
    requires s[..at] == t[..at] && s[at + width..] == t[at + width..]
    ensures d[..at - |head|] == e[..at - |head|] && d[at - |head| + width..] == e[at - |head| + width..]
  {
    var k := at - |head|;
    assert d[..k] == s[..at][|head|..] && e[..k] == t[..at][|head|..];
    assert d[k + width..] == s[at + width..] && e[k + width..] == t[at + width..];
  }

  lemma BurstInData(hrp: string, d: string, e: string, k: nat, width: nat)
    requires FirstInvalid(d).None? && FirstInvalid(e).None? && |d| == |e|
    requires Polymod(PrefixOf(hrp, WordValues(d))) == Polymod(PrefixOf(hrp, WordValues(e)))
    requires width <= 6 && k + width <= |d| && d[..k] == e[..k] && d[k + width..] == e[k + width..]
    ensures d == e
  {
    var v, w := WordValues(d), WordValues(e);
    SameValues(d, e, k, width);
    SplitThree(v, w, k, width);
    WindowIsDetermined(hrp, v[..k], v[k..k + width], w[k..k + width], v[k + width..]);
    CharsOfValues(d);
    CharsOfValues(e);
  }

  lemma SplitThree(v: seq<int>, w: seq<int>, k: nat, width: nat)
    requires |v| == |w| && k + width <= |v| && v[..k] == w[..k] && v[k + width..] == w[k + width..]
    ensures v == v[..k] + v[k..k + width] + v[k + width..]
    ensures w == v[..k] + w[k..k + width] + v[k + width..]
  {
  }

  lemma SameValues(d: string, e: string, k: nat, width: nat)
    requires FirstInvalid(d).None? && FirstInvalid(e).None? && |d| == |e| && k + width <= |d|
    requires d[..k] == e[..k] && d[k + width..] == e[k + width..]
    ensures WordValues(d)[..k] == WordValues(e)[..k] && WordValues(d)[k + width..] == WordValues(e)[k + width..]
  {
    forall i | 0 <= i < k ensures WordValues(d)[i] == WordValues(e)[i] {
      assert d[..k][i] == e[..k][i];
    }
    forall i | k + width <= i < |d| ensures WordValues(d)[i] == WordValues(e)[i] {
      assert d[k + width..][i - k - width] == e[k + width..][i - k - width];
    }
  }
}
