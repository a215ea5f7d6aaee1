/** Regrouping between 5-bit words and 8-bit bytes through an accumulator that wraps
    at 32 bits: both loops are read as moving one string of bits. */
module Regroup {
  import opened Events

  /** What JavaScript's bitwise operators make of an integer: a signed 32-bit number. */
  function Wrap(x: int): int
  {
    (x + 0x8000_0000) % 0x1_0000_0000 - 0x8000_0000
  }

  /** `x >> k`: halving towards minus infinity, the sign kept. */
  function ShiftRight(x: int, k: nat): int
    decreases k, x
  {
    if k == 0 then x else ShiftRight(x / 2, k - 1)
  }

  function Doubled(x: int, k: nat): int
  {
    if k == 0 then x else 2 * Doubled(x, k - 1)
  }

  /** `x << k`. */
  function ShiftLeft(x: int, k: nat): int
  {
    Wrap(Doubled(x, k))
  }

  /** `(acc << 5) | w` for a 5-bit `w`: the shift leaves room for it. */
  function PushWord(acc: int, w: int): int
  {
    Wrap(32 * acc + w)
  }

  /** `(acc << 8) | b` for a byte `b`. */
  function PushByte(acc: int, b: int): int
  {
    Wrap(256 * acc + b)
  }

  /** The low `n` bits in two's complement, most significant first. */
  function LowBits(x: int, n: nat): (r: seq<bool>)
    ensures |r| == n
    decreases n, x
  {
    if n == 0 then [] else LowBits(x / 2, n - 1) + [x % 2 == 1]
  }

  predicate DivisibleByPower(d: int, n: nat)
    decreases n
  {
    n == 0 || (d % 2 == 0 && DivisibleByPower(d / 2, n - 1))
  }

  lemma {:induction false} DoubledDivides(x: int, n: nat, k: nat)
    requires n <= k
    ensures DivisibleByPower(Doubled(x, k), n)
    decreases n
  {
    if n > 0 {
      DoubledDivides(x, n - 1, k - 1);
      assert Doubled(x, k) / 2 == Doubled(x, k - 1);
    }
  }

  /** Bits above the lowest `n` do not show in them. */
  lemma {:induction false} SameLowBits(x: int, d: int, n: nat)
    requires DivisibleByPower(d, n)
    ensures LowBits(x + d, n) == LowBits(x, n)
    decreases n
  {
    if n > 0 {
      assert (x + d) / 2 == x / 2 + d / 2 && (x + d) % 2 == x % 2;
      SameLowBits(x / 2, d / 2, n - 1);
    }
  }

  lemma PowersOfTwo(x: int)
    ensures Doubled(x, 5) == 32 * x && Doubled(x, 8) == 256 * x && Doubled(x, 32) == 0x1_0000_0000 * x
  {
    EightDoublings(x);
    EightDoublings(256 * x);
    EightDoublings(0x1_0000 * x);
    EightDoublings(0x100_0000 * x);
    DoubledTwice(x, 8, 8);
    DoubledTwice(x, 16, 8);
    DoubledTwice(x, 24, 8);
  }

  lemma EightDoublings(x: int)
    ensures Doubled(x, 8) == 256 * x && Doubled(x, 5) == 32 * x
  {
    assert Doubled(x, 1) == 2 * x;
    assert Doubled(x, 2) == 4 * x;
    assert Doubled(x, 3) == 8 * x;
    assert Doubled(x, 4) == 16 * x;
    assert Doubled(x, 5) == 32 * x;
    assert Doubled(x, 6) == 64 * x;
    assert Doubled(x, 7) == 128 * x;
  }

  lemma {:induction false} DoubledTwice(x: int, j: nat, k: nat)
    ensures Doubled(x, j + k) == Doubled(Doubled(x, j), k)
    decreases k
  {
    if k > 0 {
      DoubledTwice(x, j, k - 1);
    }
  }

  /** Wrapping at 32 bits keeps the low bits. */
  lemma WrapKeepsLowBits(x: int, n: nat)
    requires n <= 32
    ensures LowBits(Wrap(x), n) == LowBits(x, n)
  {
    var q := (x + 0x8000_0000) / 0x1_0000_0000;
    assert Wrap(x) == x + 0x1_0000_0000 * -q;
    PowersOfTwo(-q);
    DoubledDivides(-q, n, 32);
    SameLowBits(x, Doubled(-q, 32), n);
  }

  lemma {:induction false} SplitLowBits(x: int, n: nat, k: nat)
    ensures LowBits(x, n + k) == LowBits(ShiftRight(x, k), n) + LowBits(x, k)
    decreases k
  {
    if k > 0 {
      SplitLowBits(x / 2, n, k - 1);
    }
  }

  lemma {:induction false} DoubledBits(x: int, n: nat, k: nat)
    ensures LowBits(Doubled(x, k), n + k) == LowBits(x, n) + Zeros(k)
    decreases k
  {
    if k == 0 {
      assert LowBits(x, n) + Zeros(0) == LowBits(x, n);
    } else {
      DoubledBits(x, n, k - 1);
      assert Doubled(x, k) / 2 == Doubled(x, k - 1) && Doubled(x, k) % 2 == 0;
      assert Zeros(k) == Zeros(k - 1) + [false];
    }
  }

  /** `x` is below 2^n. */
  predicate Fits(x: int, n: nat)
    decreases n
  {
    if n == 0 then x == 0 else x >= 0 && Fits(x / 2, n - 1)
  }

  lemma SmallFits(x: int)
    ensures 0 <= x < 32 ==> Fits(x, 5)
    ensures 0 <= x < 256 ==> Fits(x, 8)
  {
    if 0 <= x < 256 {
      assert x / 2 / 2 / 2 < 32;
      FiveBitsFit(x / 2 / 2 / 2);
    }
    if 0 <= x < 32 {
      FiveBitsFit(x);
    }
  }

  lemma FiveBitsFit(x: int)
    requires 0 <= x < 32
    ensures Fits(x, 5)
  {
    var y := x / 2 / 2;
    assert y / 2 / 2 / 2 == 0;
    assert Fits(y / 2 / 2, 1);
    assert Fits(y, 3);
    assert Fits(x / 2, 4);
  }

  /** A value below 2^n is determined by its low `n` bits. */
  lemma {:induction false} BitsDetermine(x: int, y: int, n: nat)
    requires Fits(x, n) && Fits(y, n) && LowBits(x, n) == LowBits(y, n)
    ensures x == y
    decreases n
  {
    if n > 0 {
      assert LowBits(x, n)[..n - 1] == LowBits(x / 2, n - 1);
      assert LowBits(y, n)[..n - 1] == LowBits(y / 2, n - 1);
      assert LowBits(x, n)[n - 1] == (x % 2 == 1) && LowBits(y, n)[n - 1] == (y % 2 == 1);
      BitsDetermine(x / 2, y / 2, n - 1);
    }
  }

  predicate AllBelow(values: seq<int>, bound: int)
  {
    forall i | 0 <= i < |values| :: 0 <= values[i] < bound
  }

  /** The bits of a list of `k`-bit values. */
  function Bits(values: seq<int>, k: nat): seq<bool>
  {
    if values == [] then [] else Bits(values[..|values| - 1], k) + LowBits(values[|values| - 1], k)
  }

  lemma {:induction false} BitCount(values: seq<int>)
    ensures |Bits(values, 5)| == 5 * |values| && |Bits(values, 8)| == 8 * |values|
  {
    if values != [] {
      BitCount(values[..|values| - 1]);
    }
  }

  function Zeros(n: nat): (r: seq<bool>)
    ensures |r| == n
  {
    seq(n, i => false)
  }

  /** `words` carry the bits of `bytes` followed by fewer than five zero bits. */
  ghost predicate Regroups(words: seq<int>, bytes: seq<int>)
  {
    exists pad: nat :: pad < 5 && Bits(words, 5) == Bits(bytes, 8) + Zeros(pad)
  }

  lemma BitsAppend(values: seq<int>, v: int, k: nat)
    ensures Bits(values + [v], k) == Bits(values, k) + LowBits(v, k)
  {
    assert (values + [v])[..|values|] == values;
  }

  lemma LowFive(x: int, q: int, r: int)
    requires x == 32 * q + r
    ensures LowBits(x, 5) == LowBits(r, 5)
  {
    PowersOfTwo(q);
    DoubledDivides(q, 5, 5);
    SameLowBits(r, Doubled(q, 5), 5);
  }

  lemma LowEight(x: int, q: int, r: int)
    requires x == 256 * q + r
    ensures LowBits(x, 8) == LowBits(r, 8)
  {
    PowersOfTwo(q);
    DoubledDivides(q, 8, 8);
    SameLowBits(r, Doubled(q, 8), 8);
  }

  lemma WordPushedIn(acc: int, w: int)
    requires 0 <= w < 32
    ensures ShiftRight(32 * acc + w, 5) == acc && LowBits(32 * acc + w, 5) == LowBits(w, 5)
  {
    FiveHalves(32 * acc + w);
    LowFive(32 * acc + w, acc, w);
  }

  /** Shifting bits in appends them; wrap-around never reaches the bits in use. */
  lemma PushedBits(x: int, acc: int, v: int, n: nat, k: nat)
    requires n + k <= 32 && ShiftRight(x, k) == acc && LowBits(x, k) == LowBits(v, k)
    ensures LowBits(Wrap(x), n + k) == LowBits(acc, n) + LowBits(v, k)
  {
    WrapKeepsLowBits(x, n + k);
    SplitLowBits(x, n, k);
  }

  /** Shifting a word in appends its bits. */
  lemma PushWordBits(acc: int, w: int, n: nat)
    requires n <= 8 && 0 <= w < 32
    ensures LowBits(PushWord(acc, w), n + 5) == LowBits(acc, n) + LowBits(w, 5)
  {
    WordPushedIn(acc, w);
    PushedBits(32 * acc + w, acc, w, n, 5);
  }

  lemma FiveHalves(x: int)
    ensures ShiftRight(x, 5) == x / 32
  {
    assert ShiftRight(x / 2 / 2 / 2, 2) == ShiftRight(x / 2 / 2 / 2 / 2, 1) == x / 2 / 2 / 2 / 2 / 2;
    assert ShiftRight(x, 5) == ShiftRight(x / 2, 4) == ShiftRight(x / 2 / 2, 3);
  }

  lemma EightHalves(x: int)
    ensures ShiftRight(x, 8) == x / 256
  {
    assert ShiftRight(x, 8) == ShiftRight(x / 2, 7) == ShiftRight(x / 2 / 2, 6) == ShiftRight(x / 2 / 2 / 2, 5);
    FiveHalves(x / 2 / 2 / 2);
  }

  lemma BytePushedIn(acc: int, b: int)
    requires 0 <= b < 256
    ensures ShiftRight(256 * acc + b, 8) == acc && LowBits(256 * acc + b, 8) == LowBits(b, 8)
  {
    EightHalves(256 * acc + b);
    LowEight(256 * acc + b, acc, b);
  }

  lemma PushByteBits(acc: int, b: int, n: nat)
    requires n <= 8 && 0 <= b < 256
    ensures LowBits(PushByte(acc, b), n + 8) == LowBits(acc, n) + LowBits(b, 8)
  {
    BytePushedIn(acc, b);
    PushedBits(256 * acc + b, acc, b, n, 8);
  }

  /** `(acc >> n) & 0xff`. */
  function ByteAt(acc: int, n: nat): int
  {
    ShiftRight(acc, n) % 256
  }

  /** `(acc >> n) & 31`. */
  function WordAt(acc: int, n: nat): int
  {
    ShiftRight(acc, n) % 32
  }

  lemma ByteAtBits(acc: int, n: nat)
    ensures LowBits(acc, n + 8) == LowBits(ByteAt(acc, n), 8) + LowBits(acc, n)
  {
    var x := ShiftRight(acc, n);
    SplitLowBits(acc, 8, n);
    assert 8 + n == n + 8;
    LowEight(x, x / 256, x % 256);
  }

  lemma WordAtBits(acc: int, n: nat)
    ensures LowBits(acc, n + 5) == LowBits(WordAt(acc, n), 5) + LowBits(acc, n)
  {
    var x := ShiftRight(acc, n);
    SplitLowBits(acc, 5, n);
    assert 5 + n == n + 5;
    LowFive(x, x / 32, x % 32);
  }

  /** The decoder's test on the leftover `n` bits: `(acc << (8 - n)) & 0xff` is zero. */
  predicate LeftoverIsZero(acc: int, n: nat)
    requires n <= 8
  {
    ShiftLeft(acc, 8 - n) % 256 == 0
  }

  /** That test passes exactly when the leftover bits are all zero. */
  lemma LeftoverBits(acc: int, n: nat)
    requires n <= 8
    ensures LeftoverIsZero(acc, n) <==> LowBits(acc, n) == Zeros(n)
  {
    var x := ShiftLeft(acc, 8 - n);
    ShiftedLeftover(acc, n);
    LowEight(x, x / 256, x % 256);
    ZeroByBits(x % 256);
    ZerosSplit(LowBits(acc, n), 8 - n);
  }

  lemma ShiftedLeftover(acc: int, n: nat)
    requires n <= 8
    ensures LowBits(ShiftLeft(acc, 8 - n), 8) == LowBits(acc, n) + Zeros(8 - n)
  {
    WrapKeepsLowBits(Doubled(acc, 8 - n), 8);
    DoubledBits(acc, n, 8 - n);
  }

  lemma ZeroByBits(x: int)
    requires 0 <= x < 256
    ensures x == 0 <==> LowBits(x, 8) == Zeros(8)
  {
    DoubledBits(0, 0, 8);
    PowersOfTwo(0);
    assert LowBits(0, 0) + Zeros(8) == Zeros(8);
    SmallFits(x);
    SmallFits(0);
    if LowBits(x, 8) == Zeros(8) {
      BitsDetermine(x, 0, 8);
    }
  }

  lemma ZerosSplit(p: seq<bool>, k: nat)
    ensures p + Zeros(k) == Zeros(|p| + k) <==> p == Zeros(|p|)
  {
    assert Zeros(|p| + k) == Zeros(|p|) + Zeros(k);
    assert (p + Zeros(k))[..|p|] == p && (Zeros(|p|) + Zeros(k))[..|p|] == Zeros(|p|);
  }

  /** The encoder's last word: `(acc << (5 - n)) & 31`. */
  function LastWord(acc: int, n: nat): int
    requires n <= 5
  {
    ShiftLeft(acc, 5 - n) % 32
  }

  lemma LastWordBits(acc: int, n: nat)
    requires n <= 5
    ensures LowBits(LastWord(acc, n), 5) == LowBits(acc, n) + Zeros(5 - n)
  {
    var x := ShiftLeft(acc, 5 - n);
    WrapKeepsLowBits(Doubled(acc, 5 - n), 5);
    DoubledBits(acc, n, 5 - n);
    LowFive(x, x / 32, x % 32);
  }

  /** Appending to both sides of `done == p + q`. */
  lemma Appended(done: seq<bool>, p: seq<bool>, q: seq<bool>, r: seq<bool>)
    requires done == p + q
    ensures done + r == p + (q + r)
  {
  }

  lemma Moved(done: seq<bool>, p: seq<bool>, q: seq<bool>, r: seq<bool>)
    requires done == p + (q + r)
    ensures done == (p + q) + r
  {
  }

  lemma Cancelled(p: seq<bool>, q: seq<bool>, r: seq<bool>, t: seq<bool>)
    requires p + q == r + t && |p| == |r|
    ensures p == r && q == t
  {
    assert p == (p + q)[..|p|] && r == (r + t)[..|p|];
    assert q == (p + q)[|p|..] && t == (r + t)[|p|..];
  }

  /** The bits taken so far are those given out and those left in the accumulator. */
  predicate Carried(taken: seq<bool>, given: seq<int>, k: nat, acc: int, bits: nat)
  {
    taken == Bits(given, k) + LowBits(acc, bits)
  }

  lemma WordTaken(words: seq<int>, k: nat, bytes: seq<int>, acc: int, bits: nat)
    requires AllBelow(words, 32) && k < |words| && bits <= 8
    requires Carried(Bits(words[..k], 5), bytes, 8, acc, bits)
    ensures Carried(Bits(words[..k + 1], 5), bytes, 8, PushWord(acc, words[k]), bits + 5)
  {
    assert words[..k + 1] == words[..k] + [words[k]];
    BitsAppend(words[..k], words[k], 5);
    PushWordBits(acc, words[k], bits);
    Appended(Bits(words[..k], 5), Bits(bytes, 8), LowBits(acc, bits), LowBits(words[k], 5));
  }

  lemma ByteGiven(taken: seq<bool>, bytes: seq<int>, acc: int, bits: nat, more: seq<int>, left: nat)
    requires AllBelow(bytes, 256) && Carried(taken, bytes, 8, acc, bits)
    requires bits == left + 8 && more == bytes + [ByteAt(acc, left)]
    ensures Carried(taken, more, 8, acc, left) && AllBelow(more, 256)
  {
    ByteAtBits(acc, left);
    BitsAppend(bytes, ByteAt(acc, left), 8);
    Moved(taken, Bits(bytes, 8), LowBits(ByteAt(acc, left), 8), LowBits(acc, left));
  }

  /** The decoder's loop: 5-bit words into bytes, rejecting non-zero or over-long padding. */
  method ConvertWordsToBytes(words: seq<int>) returns (r: Option<seq<int>>)
    requires AllBelow(words, 32)
    ensures r.Some? ==> AllBelow(r.value, 256) && Regroups(words, r.value)
    ensures r.None? ==> !exists bytes :: Regroups(words, bytes)
  {
    var acc := 0;
    var bits := 0;
    var bytes: seq<int> := [];
    for k := 0 to |words|
      invariant 0 <= bits <= 7 && AllBelow(bytes, 256)
      invariant Carried(Bits(words[..k], 5), bytes, 8, acc, bits)
    {
      WordTaken(words, k, bytes, acc, bits);
      acc := PushWord(acc, words[k]);
      bits := bits + 5;
      ghost var taken := Bits(words[..k + 1], 5);
      while bits >= 8
        invariant 0 <= bits <= 12 && AllBelow(bytes, 256)
        invariant Carried(taken, bytes, 8, acc, bits)
      {
        var left := bits - 8;
        var more := bytes + [ByteAt(acc, left)];
        ByteGiven(taken, bytes, acc, bits, more, left);
        bytes, bits := more, left;
      }
    }
    assert words[..|words|] == words;
    Leftover(words, bytes, acc, bits);
    if bits >= 5 || !LeftoverIsZero(acc, bits) {
      return None;
    }
    return Some(bytes);
  }

  /** A remainder of five bits or more, or not all zero, rules out every byte string. */
  lemma Leftover(words: seq<int>, bytes: seq<int>, acc: int, bits: nat)
    requires Carried(Bits(words, 5), bytes, 8, acc, bits) && bits < 8
    ensures if bits >= 5 || !LeftoverIsZero(acc, bits) then !exists other :: Regroups(words, other)
            else Regroups(words, bytes)
  {
    LeftoverBits(acc, bits);
    if bits >= 5 || !LeftoverIsZero(acc, bits) {
      forall other ensures !Regroups(words, other) {
        NoOtherRegrouping(words, bytes, LowBits(acc, bits), other);
      }
    }
  }

  lemma NoOtherRegrouping(words: seq<int>, bytes: seq<int>, rest: seq<bool>, other: seq<int>)
    requires Bits(words, 5) == Bits(bytes, 8) + rest && |rest| < 8
    requires |rest| >= 5 || rest != Zeros(|rest|)
    ensures !Regroups(words, other)
  {
    BitCount(bytes);
    BitCount(other);
    forall pad: nat | pad < 5 ensures Bits(words, 5) != Bits(other, 8) + Zeros(pad) {
      NotThisPadding(Bits(bytes, 8), |bytes|, rest, Bits(other, 8), |other|, pad);
    }
  }

  lemma NotThisPadding(p: seq<bool>, m: nat, rest: seq<bool>, q: seq<bool>, n: nat, pad: nat)
    requires |p| == 8 * m && |q| == 8 * n && |rest| < 8 && pad < 5
    requires |rest| >= 5 || rest != Zeros(|rest|)
    ensures p + rest != q + Zeros(pad)
  {
    if m == n && p + rest == q + Zeros(pad) {
      Cancelled(p, rest, q, Zeros(pad));
    }
    assert |p + rest| == 8 * m + |rest| && |q + Zeros(pad)| == 8 * n + pad;
  }

  lemma ByteTaken(bytes: seq<int>, k: nat, words: seq<int>, acc: int, bits: nat)
    requires AllBelow(bytes, 256) && k < |bytes| && bits <= 8
    requires Carried(Bits(bytes[..k], 8), words, 5, acc, bits)
    ensures Carried(Bits(bytes[..k + 1], 8), words, 5, PushByte(acc, bytes[k]), bits + 8)
  {
    assert bytes[..k + 1] == bytes[..k] + [bytes[k]];
    BitsAppend(bytes[..k], bytes[k], 8);
    PushByteBits(acc, bytes[k], bits);
    Appended(Bits(bytes[..k], 8), Bits(words, 5), LowBits(acc, bits), LowBits(bytes[k], 8));
  }

  lemma WordGiven(taken: seq<bool>, words: seq<int>, acc: int, bits: nat, more: seq<int>, left: nat)
    requires AllBelow(words, 32) && Carried(taken, words, 5, acc, bits)
    requires bits == left + 5 && more == words + [WordAt(acc, left)]
    ensures Carried(taken, more, 5, acc, left) && AllBelow(more, 32)
  {
    WordAtBits(acc, left);
    BitsAppend(words, WordAt(acc, left), 5);
    Moved(taken, Bits(words, 5), LowBits(WordAt(acc, left), 5), LowBits(acc, left));
  }

  lemma LastWordGiven(bytes: seq<int>, words: seq<int>, acc: int, bits: nat)
    requires AllBelow(words, 32) && 0 < bits <= 4 && Carried(Bits(bytes, 8), words, 5, acc, bits)
    ensures Regroups(words + [LastWord(acc, bits)], bytes) && AllBelow(words + [LastWord(acc, bits)], 32)
  {
    LastWordBits(acc, bits);
    BitsAppend(words, LastWord(acc, bits), 5);
    Appended(Bits(bytes, 8), Bits(words, 5), LowBits(acc, bits), Zeros(5 - bits));
    assert Bits(words + [LastWord(acc, bits)], 5) == Bits(bytes, 8) + Zeros(5 - bits);
  }

  /** The encoder's loop: bytes into 5-bit words, the last one padded with zero bits. */
  method ConvertBytesToWords(bytes: seq<int>) returns (words: seq<int>)
    requires AllBelow(bytes, 256)
    ensures AllBelow(words, 32) && Regroups(words, bytes)
  {
    var acc := 0;
    var bits := 0;
    words := [];
    for k := 0 to |bytes|
      invariant 0 <= bits <= 4 && AllBelow(words, 32)
      invariant Carried(Bits(bytes[..k], 8), words, 5, acc, bits)
    {
      ByteTaken(bytes, k, words, acc, bits);
      acc := PushByte(acc, bytes[k]);
      bits := bits + 8;
      ghost var taken := Bits(bytes[..k + 1], 8);
      while bits >= 5
        invariant 0 <= bits <= 12 && AllBelow(words, 32)
        invariant Carried(taken, words, 5, acc, bits)
      {
        var left := bits - 5;
        var more := words + [WordAt(acc, left)];
        WordGiven(taken, words, acc, bits, more, left);
        words, bits := more, left;
      }
    }
    assert bytes[..|bytes|] == bytes;
    if bits > 0 {
      LastWordGiven(bytes, words, acc, bits);
      words := words + [LastWord(acc, bits)];
    } else {
      assert Bits(words, 5) == Bits(bytes, 8) + Zeros(0);
    }
  }

  predicate AllFit(values: seq<int>, k: nat)
  {
    forall i | 0 <= i < |values| :: Fits(values[i], k)
  }

  /** A list of `k`-bit values is determined by its bits. */
  lemma {:induction false} BitStringsDetermine(p: seq<int>, q: seq<int>, k: nat)
    requires k > 0 && Bits(p, k) == Bits(q, k) && |p| == |q| && AllFit(p, k) && AllFit(q, k)
    ensures p == q
    decreases |p|
  {
    if p != [] {
      var n := |p| - 1;
      SameSplit(Bits(p[..n], k), LowBits(p[n], k), Bits(q[..n], k), LowBits(q[n], k));
      BitStringsDetermine(p[..n], q[..n], k);
      BitsDetermine(p[n], q[n], k);
      assert p == p[..n] + [p[n]] && q == q[..n] + [q[n]];
    }
  }

  lemma SameSplit(p: seq<bool>, q: seq<bool>, r: seq<bool>, t: seq<bool>)
    requires p + q == r + t && |q| == |t|
    ensures p == r && q == t
  {
    assert |p + q| == |r + t|;
    Cancelled(p, q, r, t);
  }

  lemma SmallListsFit(values: seq<int>)
    ensures AllBelow(values, 32) ==> AllFit(values, 5)
    ensures AllBelow(values, 256) ==> AllFit(values, 8)
  {
    forall i | 0 <= i < |values| ensures 0 <= values[i] < 32 ==> Fits(values[i], 5) {
      SmallFits(values[i]);
    }
    forall i | 0 <= i < |values| ensures 0 <= values[i] < 256 ==> Fits(values[i], 8) {
      SmallFits(values[i]);
    }
  }

  lemma SamePayload(p: seq<bool>, b: nat, m: nat, q: seq<bool>, c: nat, n: nat)
    requires p + Zeros(m) == q + Zeros(n) && |p| == 8 * b && |q| == 8 * c && m < 5 && n < 5
    ensures p == q && b == c
  {
    assert |p + Zeros(m)| == 8 * b + m && |q + Zeros(n)| == 8 * c + n;
    Cancelled(p, Zeros(m), q, Zeros(n));
  }

  lemma SamePadding(x: seq<bool>, p: seq<bool>, v: nat, m: nat, q: seq<bool>, w: nat, n: nat)
    requires p == x + Zeros(m) && q == x + Zeros(n) && |p| == 5 * v && |q| == 5 * w && m < 5 && n < 5
    ensures p == q && v == w
  {
  }

  /** Words decode to at most one byte string. */
  lemma SameBytes(words: seq<int>, b: seq<int>, c: seq<int>)
    requires Regroups(words, b) && Regroups(words, c) && AllBelow(b, 256) && AllBelow(c, 256)
    ensures b == c
  {
    var m: nat :| m < 5 && Bits(words, 5) == Bits(b, 8) + Zeros(m);
    var n: nat :| n < 5 && Bits(words, 5) == Bits(c, 8) + Zeros(n);
    BitCount(b);
    BitCount(c);
    SamePayload(Bits(b, 8), |b|, m, Bits(c, 8), |c|, n);
    SmallListsFit(b);
    SmallListsFit(c);
    BitStringsDetermine(b, c, 8);
  }

  /** An accepted payload re-encodes to the same words. */
  lemma SameWords(v: seq<int>, w: seq<int>, bytes: seq<int>)
    requires Regroups(v, bytes) && Regroups(w, bytes) && AllBelow(v, 32) && AllBelow(w, 32)
    ensures v == w
  {
    var m: nat :| m < 5 && Bits(v, 5) == Bits(bytes, 8) + Zeros(m);
    var n: nat :| n < 5 && Bits(w, 5) == Bits(bytes, 8) + Zeros(n);
    BitCount(v);
    BitCount(w);
    SamePadding(Bits(bytes, 8), Bits(v, 5), |v|, m, Bits(w, 5), |w|, n);
    SmallListsFit(v);
    SmallListsFit(w);
    BitStringsDetermine(v, w, 5);
  }
}
