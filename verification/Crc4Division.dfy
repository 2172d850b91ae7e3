/** What the CRC-4 is: the remainder of a division by x^4 + x + 1, over GF(2), of the calibration words as one number. */
module Crc4Division {
  import opened BitwiseIntegers
  import opened Iteration
  import opened Crc4
  import opened Crc4Bursts

  /** The product of q and x^4 + x + 1. */
  function Times(q: nat): nat {
    Xor(Shl(q, 4), Xor(2 * q, q))
  }

  // ---- Multiples of the generator ----

  lemma DoubleIsShift(x: nat)
    ensures Shl(x, 1) == 2 * x && Shl(x, 0) == x
  {
    assert Shl(x, 1) == 2 * Shl(x, 0);
  }

  lemma TimesIsLinear(a: nat, b: nat)
    ensures Times(Xor(a, b)) == Xor(Times(a), Times(b))
  {
    XorShifted(a, b, 4);
    XorDouble(a, b, 2 * a, 2 * b);
    XorRearranged(2 * a, 2 * b, a, b);
    XorRearranged(Shl(a, 4), Shl(b, 4), Xor(2 * a, a), Xor(2 * b, b));
  }

  lemma TimesDouble(q: nat)
    ensures Times(2 * q) == 2 * Times(q)
  {
    DoubleIsShift(q);
    ShlAddsUp(q, 1, 4);
    assert Shl(2 * q, 4) == 2 * Shl(q, 4);
    XorDouble(2 * q, q, 2 * (2 * q), 2 * q);
    XorDouble(Shl(q, 4), Xor(2 * q, q), 2 * Shl(q, 4), 2 * Xor(2 * q, q));
  }

  lemma TimesOne()
    ensures Times(0) == 0 && Times(1) == 0x13
  {
    ShlZero(4);
    XorZero(0);
    DoubleIsShift(1);
    assert Shl(1, 4) == 2 * Shl(1, 3) && Shl(1, 3) == 2 * Shl(1, 2) && Shl(1, 2) == 2 * Shl(1, 1);
    PowersOfTwo();
    XorDisjoint(2, 1, 1, 1);
    XorDisjoint(16, 1, 4, 3);
  }

  lemma TimesBit(t: nat)
    requires t < 2
    ensures Times(t) == 0x13 * t && Shl(Times(t), 12) == 0x13000 * t
  {
    TimesOne();
    ShlConstants(Times(t));
  }

  lemma EvenAndBit(q: nat, t: nat)
    requires t < 2
    ensures Xor(2 * q, t) == 2 * q + t
  {
    DoubleIsShift(q);
    assert Pow2(1) == 2 * Pow2(0);
    XorDisjoint(2 * q, q, 1, t);
  }

  /** One more binary digit of the quotient. */
  lemma TimesOneMore(q: nat, t: nat, more: nat, v: nat, f: nat)
    requires t < 2 && more == 2 * q + t && v == 2 * Times(q) && f == Times(t)
    ensures Times(more) == Xor(v, f)
  {
    EvenAndBit(q, t);
    TimesDouble(q);
    TimesSum(2 * q, t, more, v, f);
  }

  lemma TimesSum(a: nat, b: nat, sum: nat, x: nat, y: nat)
    requires sum == Xor(a, b) && x == Times(a) && y == Times(b)
    ensures Times(sum) == Xor(x, y)
  {
    TimesIsLinear(a, b);
  }

  lemma DoubleShifted(x: nat, k: nat)
    ensures Shl(2 * x, k) == 2 * Shl(x, k)
  {
    DoubleIsShift(x);
    DoubleIsShift(Shl(x, k));
    ShlAddsUp(x, 1, k);
    ShlAddsUp(x, k, 1);
  }

  lemma Shifted12(q: nat, t: nat, more: nat, f: nat, g: nat)
    requires t < 2 && more == 2 * q + t && f == Times(t) && g == Shl(f, 12)
    ensures Shl(Times(more), 12) == Xor(2 * Shl(Times(q), 12), g)
  {
    var v := 2 * Times(q);
    TimesOneMore(q, t, more, v, f);
    XorShifted(v, f, 12);
    DoubleShifted(Times(q), 12);
  }

  // ---- The register holds the remainder ----

  /** The register and the number differ by a multiple of the generator, shifted by twelve bits. */
  predicate Congruent(a: nat, r: nat, q: nat) {
    Xor(a, r) == Shl(Times(q), 12)
  }

  /** The bit that a shift moves out of the register, with the feedback, is one subtraction of the generator. */
  lemma StepSubtracts(r: nat, t: nat, g: nat)
    requires r < 0x1_0000 && t == (if Top(r) then 1 else 0) && g == 0x13000 * t
    ensures StepRegister(r) == Xor(2 * r, g)
  {
    var low := Low(2 * r, 16);
    PowersOfTwo();
    OutgoingBit(r, t);
    Split(2 * r, 16);
    LowXor(2 * r, FeedbackOf(r), 16);
    FeedbackFits(r);
    ShlConstants(t);
    XorJoined(2 * r, t, low, g, t, FeedbackOf(r), 16);
    XorSelf(t);
    ShlZero(16);
  }

  lemma OutgoingBit(r: nat, t: nat)
    requires r < 0x1_0000 && t == (if Top(r) then 1 else 0)
    ensures Shr(2 * r, 16) == t
  {
    Halves(2 * r, r, 0);
    assert Shr(2 * r, 16) == Shr(r, 15);
    PowersOfTwo();
    Split(r, 15);
    ShlIsProduct(Shr(r, 15), 15);
    assert Shr(r, 15) < 2;
  }

  lemma FeedbackFits(r: nat)
    ensures FeedbackOf(r) < 0x1_0000 && Low(FeedbackOf(r), 16) == FeedbackOf(r)
  {
    PowersOfTwo();
    LowOfSmall(FeedbackOf(r), 16);
  }

  lemma StepIsCongruent(a: nat, r: nat, q: nat) returns (more: nat)
    requires r < 0x1_0000 && Congruent(a, r, q)
    ensures Congruent(2 * a, StepRegister(r), more)
  {
    var t: nat := if Top(r) then 1 else 0;
    var f := Times(t);
    var g := Shl(f, 12);
    more := 2 * q + t;
    TimesBit(t);
    StepSubtracts(r, t, g);
    Shifted12(q, t, more, f, g);
    XorAssociates(2 * a, 2 * r, g);
    XorDouble(a, r, 2 * a, 2 * r);
  }

  predicate StepsCongruent(a: nat, r: nat, count: nat, q: nat) {
    Congruent(Shl(a, count), StepsRegister(r, count), q)
  }

  lemma OneMoreStep(a: nat, r: nat, before: nat, count: nat, q: nat) returns (more: nat)
    requires r < 0x1_0000 && count == before + 1 && StepsCongruent(a, r, before, q)
    ensures StepsCongruent(a, r, count, more)
  {
    var now := StepsRegister(r, before);
    RegisterFits(r, before);
    more := StepIsCongruent(Shl(a, before), now, q);
    IterateOneMore(StepRegister, r, before, now);
  }

  lemma {:induction false} StepsAreCongruent(a: nat, r: nat, start: nat, q: nat, count: nat) returns (more: nat)
    requires r < 0x1_0000 && start <= count && StepsCongruent(a, r, start, q)
    ensures StepsCongruent(a, r, count, more)
    decreases count
  {
    if start == count {
      more := q;
    } else {
      var fewer: nat :| count == fewer + 1;
      var before := StepsAreCongruent(a, r, start, q, fewer);
      more := OneMoreStep(a, r, fewer, count, before);
    }
  }

  lemma XorOfBoth(a: nat, r: nat, byte: nat)
    ensures Xor(Xor(a, byte), Xor(r, byte)) == Xor(a, r)
  {
    XorRearranged(a, byte, r, byte);
    XorSelf(byte);
    XorZero(Xor(a, r));
  }

  /** A byte is fed to the number and to the register. */
  lemma FeedBoth(a: nat, n: nat, m: nat, r: nat, byte: nat, s: nat)
    requires byte < 0x100 && a == Shl(n, 8) && m == a + byte && s == Xor(r, byte)
    ensures Xor(m, s) == Xor(a, r)
  {
    PowersOfTwo();
    XorDisjoint(a, n, 8, byte);
    XorOfBoth(a, r, byte);
  }

  lemma FeedIsSteps(r: nat, byte: nat, s: nat)
    requires r < 0x1_0000 && byte < 0x100 && s == Xor(r, byte)
    ensures s < 0x1_0000 && FeedRegister(r, byte) == StepsRegister(s, 8)
  {
    PowersOfTwo();
    XorOfSmall(r, byte, 16);
    WordIsItself(s);
    FeedIs(r, byte, s);
  }

  lemma FedIsCongruent(n: nat, r: nat, q: nat, byte: nat) returns (more: nat)
    requires r < 0x1_0000 && byte < 0x100 && Congruent(Shl(n, 8), r, q)
    ensures Congruent(Shl(Join(n, byte), 8), FeedRegister(r, byte), more) && FeedRegister(r, byte) < 0x1_0000
  {
    var s := Xor(r, byte);
    FeedBoth(Shl(n, 8), n, Join(n, byte), r, byte, s);
    FeedIsSteps(r, byte, s);
    RegisterFits(s, 8);
    assert Shl(Join(n, byte), 0) == Join(n, byte) && StepsRegister(s, 0) == s;
    more := StepsAreCongruent(Join(n, byte), s, 0, q, 8);
  }

  lemma {:induction false} RunIsCongruent(bytes: seq<nat>) returns (q: nat)
    requires ByteSized(bytes)
    ensures Congruent(Shl(ByteNumber(bytes), 8), RunRegister(bytes), q) && RunRegister(bytes) < 0x1_0000
    decreases |bytes|
  {
    if bytes == [] {
      q := 0;
      ShlZero(8);
      ShlZero(12);
      XorZero(0);
      TimesOne();
    } else {
      var init := bytes[..|bytes| - 1];
      q := RunIsCongruent(init);
      q := FedIsCongruent(ByteNumber(init), RunRegister(init), q, bytes[|bytes| - 1]);
    }
  }

  // ---- The remainder of the words ----

  /** The words without the stored nibble, as one number of 112 bits. */
  function Dividend(prom: Words): nat
    requires |prom| == 7
  {
    Number([Low(prom[0], 12)] + prom[1..])
  }

  lemma PreparedNumber(prom: Words)
    requires |prom| == 7 && WordSized(prom)
    ensures WordSized(Prepared(prom)) && Number(Prepared(prom)) == Shl(Dividend(prom), 16)
  {
    var cleared := [Low(prom[0], 12)] + prom[1..];
    assert Prepared(prom) == cleared + [0];
    assert (cleared + [0])[..7] == cleared;
    PowersOfTwo();
    Split(prom[0], 12);
  }

  lemma UpperNibble(n: nat, r: nat, crc: nat, q: nat)
    requires Congruent(Shl(Shl(n, 16), 8), r, q) && r < 0x1_0000 && crc == Nibble(r)
    ensures Xor(Shl(n, 12), crc) == Times(q) && crc < 16
  {
    var a := Shl(Shl(n, 16), 8);
    ShlAddsUp(n, 16, 8);
    ShlAddsUp(n, 12, 12);
    ShrXor(a, r, 12);
    PowersOfTwo();
    SplitIsUnique(a, Shl(n, 12), 0, 12);
    SplitIsUnique(Shl(Times(q), 12), Times(q), 0, 12);
    ShrLow(r, 12, 4);
    LowOfSmall(r, 16);
    Split(Shr(r, 12), 4);
  }

  /** The words, with the four bits of the CRC behind them in twelve, are a multiple of the generator. */
  lemma CrcDivides(prom: Words) returns (q: nat)
    requires |prom| == 7 && WordSized(prom)
    ensures Xor(Shl(Dividend(prom), 12), Crc4Of(prom)) == Times(q) && Crc4Of(prom) < 16
  {
    var bytes := Bytes(Prepared(prom));
    CrcIsRegisterCrc(prom);
    PreparedNumber(prom);
    BytesSpell(Prepared(prom));
    q := RunIsCongruent(bytes);
    UpperNibble(Dividend(prom), RunRegister(bytes), Crc4Of(prom), q);
  }

  lemma {:induction false} MultiplesAreLarge(q: nat)
    requires q > 0
    ensures Times(q) >= 16
  {
    var h, t := q / 2, q % 2;
    TimesBit(t);
    TimesOneMore(h, t, q, 2 * Times(h), Times(t));
    if h > 0 {
      MultiplesAreLarge(h);
      StaysLarge(2 * Times(h), Times(t));
    }
  }

  lemma StaysLarge(a: nat, b: nat)
    requires a >= 32 > b
    ensures Xor(a, b) >= 32
  {
    assert Pow2(5) == 2 * Pow2(4);
    PowersOfTwo();
    ShrXor(a, b, 5);
    LowOfSmall(b, 5);
    XorZero(Shr(a, 5));
    Split(a, 5);
    ShlZero(5);
    if Xor(a, b) < 32 {
      LowOfSmall(Xor(a, b), 5);
    }
  }

  lemma RemainderIsUnique(n: nat, r: nat, s: nat, p: nat, q: nat)
    requires r < 16 && s < 16 && Xor(n, r) == Times(p) && Xor(n, s) == Times(q)
    ensures r == s
  {
    TimesIsLinear(p, q);
    XorRearranged(n, r, n, s);
    XorSelf(n);
    XorZero(Xor(r, s));
    PowersOfTwo();
    XorOfSmall(r, s, 4);
    if Xor(p, q) > 0 {
      MultiplesAreLarge(Xor(p, q));
    } else {
      TimesOne();
      XorUndoes(r, s);
      XorZero(r);
    }
  }

  /** For all words: the CRC is the one number below 16 with which they are a multiple of x^4 + x + 1. */
  lemma CrcIsRemainder(prom: Words, crc: nat)
    requires |prom| == 7 && WordSized(prom) && crc < 16
    ensures crc == Crc4Of(prom) <==> exists q: nat :: Xor(Shl(Dividend(prom), 12), crc) == Times(q)
  {
    var q := CrcDivides(prom);
    if p: nat :| Xor(Shl(Dividend(prom), 12), crc) == Times(p) {
      RemainderIsUnique(Shl(Dividend(prom), 12), crc, Crc4Of(prom), p, q);
    }
  }

  /** So a sensor is accepted exactly if its words, with the stored nibble behind them, are a multiple of x^4 + x + 1. */
  lemma AcceptedExactly(prom: Words)
    requires |prom| == 7 && WordSized(prom)
    ensures Accepted(prom) <==> exists q: nat :: Xor(Shl(Dividend(prom), 12), Nibble(prom[0])) == Times(q)
  {
    PowersOfTwo();
    Split(Shr(prom[0], 12), 4);
    CrcIsRemainder(prom, Nibble(prom[0]));
  }
}
