/** 32-bit words under JavaScript's bitwise operators, and the bit-level facts the
    bech32 checksum rests on. */
module Words {

  type word = bv32

  function Xor(a: word, b: word): word
  {
    a ^ b
  }

  lemma XorCancels(g: word)
    ensures Xor(g, g) == 0 && Xor(g, 0) == g && Xor(0, g) == g
  {
  }

  lemma EqualByXor(a: word, b: word)
    requires Xor(a, b) == 0
    ensures a == b
  {
  }

  lemma XorExchange(a: word, b: word, p: word, q: word)
    ensures Xor(Xor(a, b), Xor(p, q)) == Xor(Xor(a, p), Xor(b, q))
  {
    calc {
      Xor(Xor(a, b), Xor(p, q));
      { XorAssociates(Xor(a, b), p, q); XorAssociates(a, b, p); }
      Xor(Xor(a, Xor(b, p)), q);
      { XorCommutes(b, p); XorAssociates(a, p, b); }
      Xor(Xor(Xor(a, p), b), q);
      { XorAssociates(Xor(a, p), b, q); }
      Xor(Xor(a, p), Xor(b, q));
    }
  }

  lemma XorAssociates(a: word, b: word, c: word)
    ensures Xor(Xor(a, b), c) == Xor(a, Xor(b, c))
  {
  }

  lemma XorCommutes(a: word, b: word)
    ensures Xor(a, b) == Xor(b, a)
  {
  }

  /** The generator, if the bit is set. */
  function Pick(bit: word, generator: word): word
  {
    if bit != 0 then generator else 0
  }

  function Half(bits: word): word
  {
    bits >> 1
  }

  /** `top >> k`. */
  function Right(top: word, k: nat): word
  {
    if k == 0 then top else Half(Right(top, k - 1))
  }

  function Low(bits: word): word
  {
    bits & 1
  }

  /** `(top >> k) & 1`. */
  function Bit(top: word, k: nat): word
    requires k < 5
  {
    Low(Right(top, k))
  }

  lemma LowBitIsLinear(s: word, t: word)
    ensures Low(Xor(s, t)) == Xor(Low(s), Low(t)) && Low(s) < 2 && Low(t) < 2
  {
  }

  lemma HalfIsLinear(s: word, t: word)
    ensures Half(Xor(s, t)) == Xor(Half(s), Half(t))
  {
  }

  lemma {:induction false} RightIsLinear(s: word, t: word, k: nat)
    ensures Right(Xor(s, t), k) == Xor(Right(s, k), Right(t, k))
  {
    if k > 0 {
      RightIsLinear(s, t, k - 1);
      HalfIsLinear(Right(s, k - 1), Right(t, k - 1));
    }
  }

  /** The state shifted by one value, before the feedback. */
  function Shifted(chk: word, value: word): word
  {
    ((chk & 0x1ffffff) << 5) ^ value
  }

  /** The step spelled out as one expression. */
  function FlatStep(a: word, v: word): word
  {
    Xor(Xor(Xor(Xor(Xor(Shifted(a, v), Pick((a >> 25) & 1, 0x3b6a57b2)), Pick((a >> 26) & 1, 0x26508e6d)),
                    Pick((a >> 27) & 1, 0x1ea119fa)), Pick((a >> 28) & 1, 0x3d4233dd)),
        Pick((a >> 29) & 1, 0x2a1462b3))
  }

  lemma FlatStepIsBounded(a: word, v: word)
    requires a < 0x40000000 && v < 0x40000000
    ensures FlatStep(a, v) < 0x40000000
  {
  }

  lemma Solve(x: word, p: word, y: word)
    requires Xor(x, p) == y
    ensures x == Xor(p, y)
  {
  }

  lemma SolveFive(s: word, p0: word, p1: word, p2: word, p3: word, p4: word)
    requires Xor(Xor(Xor(Xor(Xor(s, p0), p1), p2), p3), p4) == 0
    ensures s == Xor(p0, Xor(p1, Xor(p2, Xor(p3, Xor(p4, 0)))))
  {
    var x1 := Xor(s, p0);
    var x2 := Xor(x1, p1);
    var x3 := Xor(x2, p2);
    var x4 := Xor(x3, p3);
    Solve(x4, p4, 0);
    Solve(x3, p3, x4);
    Solve(x2, p2, x3);
    Solve(x1, p1, x2);
    Solve(s, p0, x1);
  }

  /** The low five bits of the feedback give away the five bits that caused it. */
  lemma FeedbackGivenAway(a: word, p0: word, p1: word, p2: word, p3: word, p4: word)
    requires a < 0x40000000 && Shifted(a, 0) == Xor(p0, Xor(p1, Xor(p2, Xor(p3, Xor(p4, 0)))))
    requires p0 == if (a >> 25) & 1 != 0 then 0x3b6a57b2 else 0
    requires p1 == if (a >> 26) & 1 != 0 then 0x26508e6d else 0
    requires p2 == if (a >> 27) & 1 != 0 then 0x1ea119fa else 0
    requires p3 == if (a >> 28) & 1 != 0 then 0x3d4233dd else 0
    requires p4 == if (a >> 29) & 1 != 0 then 0x2a1462b3 else 0
    ensures a == 0
  {
  }

  lemma UnmixedIsZero(a: word, f: word, p0: word, p1: word, p2: word, p3: word, p4: word)
    requires a < 0x40000000
    requires f == Xor(Xor(Xor(Xor(Xor(Shifted(a, 0), p0), p1), p2), p3), p4)
    requires p0 == if (a >> 25) & 1 != 0 then 0x3b6a57b2 else 0
    requires p1 == if (a >> 26) & 1 != 0 then 0x26508e6d else 0
    requires p2 == if (a >> 27) & 1 != 0 then 0x1ea119fa else 0
    requires p3 == if (a >> 28) & 1 != 0 then 0x3d4233dd else 0
    requires p4 == if (a >> 29) & 1 != 0 then 0x2a1462b3 else 0
    ensures f == 0 ==> a == 0
  {
    if f == 0 {
      SolveFive(Shifted(a, 0), p0, p1, p2, p3, p4);
      FeedbackGivenAway(a, p0, p1, p2, p3, p4);
    }
  }

  lemma PicksOf(a: word)
    ensures Pick((a >> 25) & 1, 0x3b6a57b2) == if (a >> 25) & 1 != 0 then 0x3b6a57b2 else 0
    ensures Pick((a >> 26) & 1, 0x26508e6d) == if (a >> 26) & 1 != 0 then 0x26508e6d else 0
    ensures Pick((a >> 27) & 1, 0x1ea119fa) == if (a >> 27) & 1 != 0 then 0x1ea119fa else 0
    ensures Pick((a >> 28) & 1, 0x3d4233dd) == if (a >> 28) & 1 != 0 then 0x3d4233dd else 0
    ensures Pick((a >> 29) & 1, 0x2a1462b3) == if (a >> 29) & 1 != 0 then 0x2a1462b3 else 0
  {
  }

  lemma FlatStepIsInjective(a: word)
    requires a < 0x40000000
    ensures FlatStep(a, 0) == 0 ==> a == 0
  {
    PicksOf(a);
    UnmixedIsZero(a, FlatStep(a, 0), Pick((a >> 25) & 1, 0x3b6a57b2), Pick((a >> 26) & 1, 0x26508e6d),
                  Pick((a >> 27) & 1, 0x1ea119fa), Pick((a >> 28) & 1, 0x3d4233dd), Pick((a >> 29) & 1, 0x2a1462b3));
  }

  lemma TopIsClear(a: word)
    requires a < 0x2000000
    ensures (a >> 25) & 1 == 0 && (a >> 26) & 1 == 0 && (a >> 27) & 1 == 0
    ensures (a >> 28) & 1 == 0 && (a >> 29) & 1 == 0
  {
  }

  lemma NothingPicked(s: word, bit: word, g: word)
    requires bit == 0
    ensures Xor(s, Pick(bit, g)) == s
  {
  }

  lemma FlatStepOfSmall(a: word, v: word)
    requires a < 0x2000000
    ensures FlatStep(a, v) == Shifted(a, v)
  {
    TopIsClear(a);
    var s := Shifted(a, v);
    NothingPicked(s, (a >> 25) & 1, 0x3b6a57b2);
    NothingPicked(s, (a >> 26) & 1, 0x26508e6d);
    NothingPicked(s, (a >> 27) & 1, 0x1ea119fa);
    NothingPicked(s, (a >> 28) & 1, 0x3d4233dd);
    NothingPicked(s, (a >> 29) & 1, 0x2a1462b3);
  }
}
