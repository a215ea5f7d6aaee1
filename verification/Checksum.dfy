/** The bech32 checksum of BIP-173 ("Checksum"): a linear, injective step on 30-bit
    states, and the error detection that follows. */
module Checksum {
  import opened Words

  const GENERATOR: seq<word> := [0x3b6a57b2, 0x26508e6d, 0x1ea119fa, 0x3d4233dd, 0x2a1462b3]

  function Top(chk: word): word
  {
    chk >> 25
  }

  /** `state` with the generators of the low `n` bits of `top` mixed in. */
  function Mixed(state: word, top: word, n: nat): word
    requires n <= 5
    decreases n
  {
    if n == 0 then state
    else Xor(Mixed(state, top, n - 1), Pick(Bit(top, n - 1), GENERATOR[n - 1]))
  }

  /** One input value folded into the state. */
  function Step(chk: word, value: word): word
  {
    Mixed(Shifted(chk, value), Top(chk), 5)
  }

  function Fold(chk: word, values: seq<word>): word
    decreases |values|
  {
    if values == [] then chk else Fold(Step(chk, values[0]), values[1..])
  }

  function Polymod(values: seq<word>): word
  {
    Fold(1, values)
  }

  lemma {:induction false} FoldAppend(chk: word, p: seq<word>, q: seq<word>)
    ensures Fold(chk, p + q) == Fold(Fold(chk, p), q)
    decreases |p|
  {
    if p == [] {
      assert p + q == q;
    } else {
      assert (p + q)[1..] == p[1..] + q;
      FoldAppend(Step(chk, p[0]), p[1..], q);
    }
  }

  lemma FoldNext(chk: word, values: seq<word>, k: nat)
    requires k < |values|
    ensures Fold(chk, values[..k + 1]) == Step(Fold(chk, values[..k]), values[k])
  {
    assert values[..k + 1] == values[..k] + [values[k]];
    FoldAppend(chk, values[..k], [values[k]]);
    assert Fold(Fold(chk, values[..k]), [values[k]]) == Fold(Step(Fold(chk, values[..k]), values[k]), []);
  }

  lemma MixedNext(state: word, top: word, i: nat, chk: word)
    requires i < 5 && chk == Mixed(state, top, i)
    ensures Mixed(state, top, i + 1) == if Bit(top, i) != 0 then Xor(chk, GENERATOR[i]) else chk
  {
    XorCancels(chk);
  }

  /** One generator mixed in for each bit shifted out. */
  method MixIn(state: word, top: word) returns (chk: word)
    ensures chk == Mixed(state, top, 5)
  {
    chk := state;
    for i := 0 to 5
      invariant chk == Mixed(state, top, i)
    {
      MixedNext(state, top, i, chk);
      if Bit(top, i) != 0 {
        chk := Xor(chk, GENERATOR[i]);
      }
    }
  }

  /** The state shifted by five per value, one generator per bit shifted out. */
  method ComputePolymod(values: seq<word>) returns (chk: word)
    ensures chk == Polymod(values)
  {
    chk := 1;
    for k := 0 to |values|
      invariant chk == Fold(1, values[..k])
    {
      FoldNext(1, values, k);
      chk := MixIn(Shifted(chk, values[k]), Top(chk));
    }
    assert values[..|values|] == values;
  }

  lemma PickIsLinear(a: word, b: word, g: word)
    requires a < 2 && b < 2
    ensures Pick(Xor(a, b), g) == Xor(Pick(a, g), Pick(b, g))
  {
    XorCancels(g);
    if a != 0 && b != 0 {
      assert Pick(Xor(a, b), g) == 0;
    } else if a != 0 {
      assert Pick(b, g) == 0 && Pick(Xor(a, b), g) == g;
    } else {
      assert Pick(a, g) == 0;
    }
  }

  lemma BitIsLinear(s: word, t: word, k: nat)
    requires k < 5
    ensures Bit(Xor(s, t), k) == Xor(Bit(s, k), Bit(t, k))
    ensures Bit(s, k) < 2 && Bit(t, k) < 2
  {
    RightIsLinear(s, t, k);
    LowBitIsLinear(Right(s, k), Right(t, k));
  }

  lemma {:induction false} MixedIsLinear(a: word, b: word, s: word, t: word, n: nat)
    requires n <= 5
    ensures Mixed(Xor(a, b), Xor(s, t), n) == Xor(Mixed(a, s, n), Mixed(b, t, n))
    decreases n
  {
    if n > 0 {
      MixedIsLinear(a, b, s, t, n - 1);
      BitIsLinear(s, t, n - 1);
      PickIsLinear(Bit(s, n - 1), Bit(t, n - 1), GENERATOR[n - 1]);
      XorExchange(Mixed(a, s, n - 1), Mixed(b, t, n - 1),
                  Pick(Bit(s, n - 1), GENERATOR[n - 1]), Pick(Bit(t, n - 1), GENERATOR[n - 1]));
    }
  }

  lemma ShiftedIsLinear(a: word, b: word, v: word, w: word)
    ensures Shifted(Xor(a, b), Xor(v, w)) == Xor(Shifted(a, v), Shifted(b, w))
    ensures Top(Xor(a, b)) == Xor(Top(a), Top(b))
  {
  }

  /** Folding one value in is linear over xor. */
  lemma StepIsLinear(a: word, b: word, v: word, w: word)
    ensures Step(Xor(a, b), Xor(v, w)) == Xor(Step(a, v), Step(b, w))
  {
    ShiftedIsLinear(a, b, v, w);
    MixedIsLinear(Shifted(a, v), Shifted(b, w), Top(a), Top(b), 5);
  }

  /** All five generators, for given bits of the top. */
  lemma MixedFive(s: word, t: word, b0: word, b1: word, b2: word, b3: word, b4: word)
    requires b0 == Bit(t, 0) && b1 == Bit(t, 1) && b2 == Bit(t, 2) && b3 == Bit(t, 3) && b4 == Bit(t, 4)
    ensures Mixed(s, t, 5) ==
              Xor(Xor(Xor(Xor(Xor(s, Pick(b0, 0x3b6a57b2)), Pick(b1, 0x26508e6d)), Pick(b2, 0x1ea119fa)),
                      Pick(b3, 0x3d4233dd)), Pick(b4, 0x2a1462b3))
  {
    assert Mixed(s, t, 1) == Xor(s, Pick(b0, GENERATOR[0]));
    assert Mixed(s, t, 2) == Xor(Mixed(s, t, 1), Pick(b1, GENERATOR[1]));
    assert Mixed(s, t, 3) == Xor(Mixed(s, t, 2), Pick(b2, GENERATOR[2]));
    assert Mixed(s, t, 4) == Xor(Mixed(s, t, 3), Pick(b3, GENERATOR[3]));
    assert Mixed(s, t, 5) == Xor(Mixed(s, t, 4), Pick(b4, GENERATOR[4]));
  }

  lemma StepIsFlat(a: word, v: word)
    ensures Step(a, v) == FlatStep(a, v)
  {
    BitsOfTop(a);
    MixedFive(Shifted(a, v), Top(a), (a >> 25) & 1, (a >> 26) & 1, (a >> 27) & 1, (a >> 28) & 1, (a >> 29) & 1);
  }

  lemma BitsOfTop(a: word)
    ensures Bit(Top(a), 0) == (a >> 25) & 1 && Bit(Top(a), 1) == (a >> 26) & 1 && Bit(Top(a), 2) == (a >> 27) & 1
    ensures Bit(Top(a), 3) == (a >> 28) & 1 && Bit(Top(a), 4) == (a >> 29) & 1
  {
  }

  /** The state stays below 2^30; no non-zero state is folded to zero; nothing is
      fed back while the state is below 2^25. */
  lemma StepFacts(a: word, v: word)
    requires a < 0x40000000 && v < 0x40000000
    ensures Step(a, v) < 0x40000000
    ensures Step(a, 0) == 0 ==> a == 0
    ensures a < 0x2000000 ==> Step(a, v) == Shifted(a, v)
  {
    StepIsFlat(a, v);
    StepIsFlat(a, 0);
    FlatStepIsBounded(a, v);
    FlatStepIsInjective(a);
    if a < 0x2000000 {
      FlatStepOfSmall(a, v);
    }
  }

  /** The step is injective on 30-bit states: inputs alike, different states stay different. */
  lemma StepIsInjective(a: word, b: word, v: word)
    requires a < 0x40000000 && b < 0x40000000 && Step(a, v) == Step(b, v)
    ensures a == b
  {
    StepIsLinear(a, b, v, v);
    XorCancels(v);
    XorCancels(Step(a, v));
    XorIsBounded(a, b);
    StepFacts(Xor(a, b), 0);
    EqualByXor(a, b);
  }

  lemma XorIsBounded(a: word, b: word)
    requires a < 0x40000000 && b < 0x40000000
    ensures Xor(a, b) < 0x40000000
  {
  }

  /** `checksum(values)` is a 30-bit number. */
  lemma {:induction false} FoldIsBounded(chk: word, values: seq<word>)
    requires chk < 0x40000000 && forall i | 0 <= i < |values| :: values[i] < 0x40000000
    ensures Fold(chk, values) < 0x40000000
    decreases |values|
  {
    if values != [] {
      StepFacts(chk, values[0]);
      FoldIsBounded(Step(chk, values[0]), values[1..]);
    }
  }

  function XorAll(p: seq<word>, q: seq<word>): (r: seq<word>)
    requires |p| == |q|
    ensures |r| == |p|
  {
    seq(|p|, i requires 0 <= i < |p| => Xor(p[i], q[i]))
  }

  /** Folding whole inputs is linear over xor. */
  lemma {:induction false} FoldIsLinear(a: word, b: word, p: seq<word>, q: seq<word>)
    requires |p| == |q|
    ensures Fold(Xor(a, b), XorAll(p, q)) == Xor(Fold(a, p), Fold(b, q))
    decreases |p|
  {
    if p != [] {
      StepIsLinear(a, b, p[0], q[0]);
      assert XorAll(p, q)[1..] == XorAll(p[1..], q[1..]);
      FoldIsLinear(Step(a, p[0]), Step(b, q[0]), p[1..], q[1..]);
    }
  }

  /** Up to six 5-bit words from state zero are simply lined up. */
  predicate FiveBit(values: seq<word>)
  {
    forall i | 0 <= i < |values| :: values[i] < 32
  }

  /** 2^(5k). */
  function Room(k: nat): word
    requires k <= 6
  {
    match k
    case 0 => 1
    case 1 => 0x20
    case 2 => 0x400
    case 3 => 0x8000
    case 4 => 0x100000
    case 5 => 0x2000000
    case _ => 0x40000000
  }

  /** `d` is a number of `k` five-bit digits. */
  predicate Fits(d: word, k: nat)
    requires k <= 6
  {
    d < Room(k)
  }

  predicate IsZero(d: word)
  {
    d == 0
  }

  lemma NextLinedUp(d: word, v: word, k: nat)
    requires k < 6 && v < 32 && Fits(d, k)
    ensures Fits(Step(d, v), k + 1)
    ensures IsZero(Step(d, v)) <==> IsZero(d) && IsZero(v)
  {
    LinedUp(d, v, k);
    StepOfSmall(d, v);
  }

  lemma StepOfSmall(d: word, v: word)
    requires d < 0x2000000 && v < 32
    ensures Step(d, v) == Shifted(d, v)
  {
    StepFacts(d, v);
  }

  lemma LinedUp(d: word, v: word, k: nat)
    requires k < 6 && v < 32 && Fits(d, k)
    ensures d < 0x2000000 && Fits(Shifted(d, v), k + 1)
    ensures IsZero(Shifted(d, v)) <==> IsZero(d) && IsZero(v)
  {
  }

  predicate ZeroUpTo(values: seq<word>, k: nat)
    requires k <= |values|
  {
    forall i | 0 <= i < k :: IsZero(values[i])
  }

  lemma {:induction false} ShortFold(values: seq<word>, k: nat)
    requires k <= |values| <= 6 && FiveBit(values)
    ensures Fits(Fold(0, values[..k]), k)
    ensures IsZero(Fold(0, values[..k])) <==> ZeroUpTo(values, k)
  {
    if k > 0 {
      ShortFold(values, k - 1);
      FoldNext(0, values, k - 1);
      NextLinedUp(Fold(0, values[..k - 1]), values[k - 1], k - 1);
      ZeroOneMore(values, k);
    }
  }

  lemma ZeroOneMore(values: seq<word>, k: nat)
    requires 0 < k <= |values|
    ensures ZeroUpTo(values, k) <==> ZeroUpTo(values, k - 1) && IsZero(values[k - 1])
  {
  }

  /** A difference, once in the state, survives any run of equal inputs. */
  lemma {:induction false} DifferenceSurvives(d: word, zeros: seq<word>)
    requires d < 0x40000000 && (forall i | 0 <= i < |zeros| :: zeros[i] == 0) && Fold(d, zeros) == 0
    ensures d == 0
    decreases |zeros|
  {
    if zeros != [] {
      StepFacts(d, 0);
      DifferenceSurvives(Step(d, 0), zeros[1..]);
    }
  }

  /** Two lists folded from one state differ by what their word-wise xor lines up to. */
  lemma FoldedDifference(start: word, p: seq<word>, q: seq<word>)
    requires |p| == |q|
    ensures Xor(Fold(start, p), Fold(start, q)) == Fold(0, XorAll(p, q))
  {
    XorCancels(start);
    FoldIsLinear(start, start, p, q);
  }

  /** States told apart before a common tail are told apart after it. */
  lemma TailKeepsApart(s: word, t: word, after: seq<word>)
    requires Xor(s, t) < 0x40000000 && Fold(s, after) == Fold(t, after)
    ensures Xor(s, t) == 0
  {
    FoldIsLinear(s, t, after, after);
    XorCancels(Fold(s, after));
    forall i | 0 <= i < |after| ensures XorAll(after, after)[i] == 0 {
      XorCancels(after[i]);
    }
    DifferenceSurvives(Xor(s, t), XorAll(after, after));
  }

  /** Up to six five-bit words whose word-wise xor lines up to nothing are equal. */
  lemma NoDifference(p: seq<word>, q: seq<word>)
    requires |p| == |q| <= 6 && FiveBit(p) && FiveBit(q)
    ensures Fold(0, XorAll(p, q)) < 0x40000000
    ensures Fold(0, XorAll(p, q)) == 0 ==> p == q
  {
    var d := XorAll(p, q);
    forall i | 0 <= i < |d| ensures d[i] < 32 {
      XorIsFiveBit(p[i], q[i]);
    }
    ShortFold(d, |d|);
    assert d[..|d|] == d;
    RoomIsBounded(|d|);
    if Fold(0, d) == 0 {
      forall i | 0 <= i < |p| ensures p[i] == q[i] {
        assert IsZero(d[i]);
        EqualByXor(p[i], q[i]);
      }
    }
  }

  lemma FoldThree(before: seq<word>, p: seq<word>, after: seq<word>)
    ensures Polymod(before + p + after) == Fold(Fold(Fold(1, before), p), after)
  {
    FoldAppend(1, before + p, after);
    FoldAppend(1, before, p);
  }

  /** Inputs with equal checksums that differ only inside a window of six are equal. */
  lemma WindowOfSix(before: seq<word>, p: seq<word>, q: seq<word>, after: seq<word>)
    requires |p| == |q| <= 6 && FiveBit(p) && FiveBit(q)
    requires Polymod(before + p + after) == Polymod(before + q + after)
    ensures p == q
  {
    var start := Fold(1, before);
    FoldThree(before, p, after);
    FoldThree(before, q, after);
    FoldedDifference(start, p, q);
    NoDifference(p, q);
    TailKeepsApart(Fold(start, p), Fold(start, q), after);
  }

  lemma XorIsFiveBit(a: word, b: word)
    requires a < 32 && b < 32
    ensures Xor(a, b) < 32
  {
  }

  lemma RoomIsBounded(k: nat)
    requires k <= 6
    ensures Room(k) <= 0x40000000
  {
  }
}
