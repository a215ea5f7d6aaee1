/** The bech32 decoder on letter case, and on an example BIP-173 lists as valid. */
module Bech32Laws {
  import opened Events
  import opened Words
  import opened Checksum
  import opened Regroup
  import opened Bech32

  /** A string with letters of both cases is refused, and for that reason when its length is in order. */
  lemma MixedCaseIsRefused(casing: Casing, s: string, i: nat, j: nat)
    requires Standard(casing) && IsAscii(s) && i < |s| && j < |s| && 'a' <= s[i] <= 'z' && 'A' <= s[j] <= 'Z'
    ensures Decode(casing, s) == Rejected(if |s| > 1024 then TooShort else MixedCase)
  {
    assert Lower(s)[j] != s[j] && Upper(s)[i] != s[i];
  }

  lemma LowerOfCases(s: string)
    requires IsAscii(s)
    ensures Lower(Upper(s)) == Lower(s) == Lower(Lower(s)) && Upper(Upper(s)) == Upper(s)
    ensures IsAscii(Upper(s)) && IsAscii(Lower(s))
  {
  }

  /** All capitals or all small letters make no difference. */
  lemma CaseMakesNoDifference(casing: Casing, s: string)
    requires Standard(casing) && IsAscii(s)
    ensures Decode(casing, Upper(s)) == Decode(casing, Lower(s))
  {
    LowerOfCases(s);
  }

  /** The 32 characters, in the order of their values. */
  lemma AlphabetIs(v: int)
    requires 0 <= v < 32
    ensures CharAt(v) == "qpzry9x8gf2tvdw0s3jn54khce6mua7l"[v] && IndexOf("qpzry9x8gf2tvdw0s3jn54khce6mua7l"[v]) == v
  {
    CharsetIndex(v);
  }

  // ---- "A12UEL5L"

  lemma NextChecksum(values: seq<word>, k: nat, before: word, v: word, next: word)
    requires k < |values| && values[k] == v && Fold(1, values[..k]) == before && FlatStep(before, v) == next
    ensures Fold(1, values[..k + 1]) == next
  {
    FoldNext(1, values, k);
    StepIsFlat(before, v);
  }

  lemma FirstHalf(values: seq<word>)
    requires |values| >= 5 && values[0] == 3 && values[1] == 0 && values[2] == 1 && values[3] == 10 && values[4] == 28
    ensures Fold(1, values[..5]) == 0x230055c
  {
    assert Fold(1, values[..0]) == 1;
    NextChecksum(values, 0, 1, 3, 0x23);
    NextChecksum(values, 1, 0x23, 0, 0x460);
    NextChecksum(values, 2, 0x460, 1, 0x8c01);
    NextChecksum(values, 3, 0x8c01, 10, 0x11802a);
    NextChecksum(values, 4, 0x11802a, 28, 0x230055c);
  }

  lemma ExampleChecksum(values: seq<word>)
    requires |values| == 9 && values[0] == 3 && values[1] == 0 && values[2] == 1 && values[3] == 10 && values[4] == 28
    requires values[5] == 25 && values[6] == 31 && values[7] == 20 && values[8] == 31
    ensures Polymod(values) == 1
  {
    FirstHalf(values);
    NextChecksum(values, 5, 0x230055c, 25, 0x3d6afc2b);
    NextChecksum(values, 6, 0x3d6afc2b, 31, 0x2f84386);
    NextChecksum(values, 7, 0x2f84386, 20, 0x24622766);
    NextChecksum(values, 8, 0x24622766, 31, 1);
    assert values[..9] == values;
  }

  lemma ExampleWords()
    ensures FirstInvalid("2uel5l").None? && WordValues("2uel5l") == [10, 28, 25, 31, 20, 31]
  {
    CharsetIndex(10);
    CharsetIndex(28);
    CharsetIndex(25);
    CharsetIndex(31);
    CharsetIndex(20);
    var data := "2uel5l";
    assert data[0] == CharAt(10) && data[1] == CharAt(28) && data[2] == CharAt(25);
    assert data[3] == CharAt(31) && data[4] == CharAt(20) && data[5] == CharAt(31);
    assert forall i | 0 <= i < 6 :: IndexOf(data[i]) >= 0;
  }

  lemma ExampleExpanded()
    ensures PrefixOf("a", [10, 28, 25, 31, 20, 31]) == [3, 0, 1, 10, 28, 25, 31, 20, 31]
  {
    LetterA();
    var words := [10, 28, 25, 31, 20, 31];
    assert AsWords(words) == [10, 28, 25, 31, 20, 31];
    assert HrpExpand("a") == [HighPart('a'), 0, LowPart('a')];
  }

  lemma LetterA()
    ensures HighPart('a') == 3 && LowPart('a') == 1
  {
    assert 'a' as int == 97;
    SmallCode(97 as word);
  }

  lemma SmallCode(x: word)
    requires x == 97
    ensures x >> 5 == 3 && x & 31 == 1
  {
  }

  lemma NothingRegroups()
    ensures BytesOf([]) == Some([])
  {
    assert Bits([], 5) == [] && Bits([], 8) == [] && Zeros(0) == [];
    assert Bits([], 5) == Bits([], 8) + Zeros(0);
    BytesOfPayload([], []);
  }

  /** A string that is its own lower case is decoded part by part. */
  lemma DecodesByParts(casing: Casing, s: string, hrp: string, data: string)
    requires s == hrp + "1" + data && hrp != "" && casing.lower(s) == s && |s| <= MAX_BECH32_LENGTH
    requires forall i | 0 <= i < |data| :: data[i] != '1'
    ensures Decode(casing, s) == DecodeData(hrp, data)
  {
    SeparatorIsLast(hrp, data);
    assert s[..|hrp|] == hrp && s[|hrp| + 1..] == data;
  }

  lemma ExampleCases(s: string, capitals: string)
    requires s == "a12uel5l" && capitals == "A12UEL5L"
    ensures IsAscii(s) && Lower(s) == s && Upper(s) == capitals
    ensures s[..1] == "a" && s[2..] == "2uel5l" && s == s[..1] + "1" + s[2..]
    ensures forall i | 0 <= i < |s[2..]| :: s[2..][i] != '1'
  {
  }

  lemma InEitherCase(casing: Casing, s: string, capitals: string, hrp: string, data: string)
    requires Standard(casing) && IsAscii(s) && Lower(s) == s && Upper(s) == capitals
    requires s == hrp + "1" + data && hrp != "" && |s| <= MAX_BECH32_LENGTH
    requires forall i | 0 <= i < |data| :: data[i] != '1'
    ensures Decode(casing, s) == Decode(casing, capitals) == DecodeData(hrp, data)
  {
    CaseMakesNoDifference(casing, s);
    DecodesByParts(casing, s, hrp, data);
  }

  lemma ExampleData(hrp: string, data: string)
    requires hrp == "a" && data == "2uel5l"
    ensures DecodeData(hrp, data) == Ok(hrp, [])
  {
    ExampleWords();
    ExampleExpanded();
    ExampleChecksum(PrefixOf(hrp, WordValues(data)));
    NothingRegroups();
    assert WordValues(data)[..0] == [];
  }

  /** BIP-173 lists it as valid: the prefix `a` with no data, in capitals or small letters. */
  lemma ListedExample(casing: Casing, s: string, capitals: string)
    requires Standard(casing) && s == "a12uel5l" && capitals == "A12UEL5L"
    ensures Decode(casing, s) == Decode(casing, capitals) == Ok(s[..1], [])
  {
    ExampleCases(s, capitals);
    ExampleData(s[..1], s[2..]);
    InEitherCase(casing, s, capitals, s[..1], s[2..]);
  }
}
