module Words {
  import opened PolyDivision

  predicate Top(x: bv32) {
    x & 0x80000000 != 0
  }

  /** The n leading bits of x. */
  function Leading(x: bv32, n: nat): (r: Bits)
    ensures |r| == n
    decreases n
  {
    if n == 0 then [] else [Top(x)] + Leading(x << 1, n - 1)
  }

  function WordBits(x: bv32): (r: Bits)
    ensures |r| == 32
  {
    Leading(x, 32)
  }

  function ByteBits(b: bv8): Octet {
    Leading((b as bv32) << 24, 8)
  }

  lemma TopXor(x: bv32, y: bv32)
    ensures Top(x ^ y) == (Top(x) != Top(y))
    ensures (x ^ y) << 1 == (x << 1) ^ (y << 1)
  {
  }

  function Shifted(x: bv32, n: nat): bv32
    decreases n
  {
    if n == 0 then x else Shifted(x << 1, n - 1)
  }

  lemma {:induction false} LeadingAt(x: bv32, n: nat, k: nat)
    requires k < n
    ensures Leading(x, n)[k] == Top(Shifted(x, k))
    decreases n
  {
    if k > 0 {
      LeadingAt(x << 1, n - 1, k - 1);
    }
  }

  predicate IsXor(x: bv32, y: bv32, z: bv32) {
    z == x ^ y
  }

  lemma ShiftIsXor(x: bv32, y: bv32, z: bv32)
    requires IsXor(x, y, z)
    ensures IsXor(x << 1, y << 1, z << 1)
  {
    TopXor(x, y);
  }

  lemma {:induction false} ShiftedXor(x: bv32, y: bv32, z: bv32, k: nat)
    requires IsXor(x, y, z)
    ensures IsXor(Shifted(x, k), Shifted(y, k), Shifted(z, k))
    decreases k
  {
    if k > 0 {
      ShiftIsXor(x, y, z);
      ShiftedXor(x << 1, y << 1, z << 1, k - 1);
    }
  }

  lemma XorAt(x: bv32, y: bv32, n: nat, k: nat)
    requires k < n
    ensures Leading(x ^ y, n)[k] == (Leading(x, n)[k] != Leading(y, n)[k])
  {
    LeadingAt(x ^ y, n, k);
    LeadingAt(x, n, k);
    LeadingAt(y, n, k);
    ShiftedXor(x, y, x ^ y, k);
    TopXor(Shifted(x, k), Shifted(y, k));
  }

  lemma LeadingXor(x: bv32, y: bv32, n: nat)
    ensures Leading(x ^ y, n) == Xor(Leading(x, n), Leading(y, n))
  {
    forall k | 0 <= k < n ensures Leading(x ^ y, n)[k] == Xor(Leading(x, n), Leading(y, n))[k] {
      XorAt(x, y, n, k);
    }
  }

  lemma {:induction false} LeadingSplit(x: bv32, n: nat, m: nat)
    ensures Leading(x, n + m) == Leading(x, n) + Leading(Shifted(x, n), m)
    decreases n
  {
    if n > 0 {
      LeadingSplit(x << 1, n - 1, m);
      assert [Top(x)] + (Leading(x << 1, n - 1) + Leading(Shifted(x, n), m)) == Leading(x, n) + Leading(Shifted(x, n), m);
    }
  }

  lemma Shifted8(x: bv32)
    ensures Shifted(x, 8) == x << 8
  {
    assert Shifted(x << 7, 1) == Shifted((x << 7) << 1, 0);
    assert Shifted(x << 6, 2) == Shifted(x << 7, 1);
    assert Shifted(x << 5, 3) == Shifted(x << 6, 2);
    assert Shifted(x << 4, 4) == Shifted(x << 5, 3);
    assert Shifted(x << 3, 5) == Shifted(x << 4, 4);
    assert Shifted(x << 2, 6) == Shifted(x << 3, 5);
    assert Shifted(x << 1, 7) == Shifted(x << 2, 6);
  }

  lemma {:induction false} ShiftedAdd(x: bv32, n: nat, m: nat)
    ensures Shifted(x, n + m) == Shifted(Shifted(x, n), m)
    decreases n
  {
    if n > 0 {
      ShiftedAdd(x << 1, n - 1, m);
    }
  }

  lemma ShiftedOut(x: bv32)
    ensures Shifted(x, 32) == 0
  {
    ShiftedAdd(x, 8, 24);
    ShiftedAdd(x << 8, 8, 16);
    ShiftedAdd(x << 16, 8, 8);
    Shifted8(x);
    Shifted8(x << 8);
    Shifted8(x << 16);
    Shifted8(x << 24);
    assert (x << 8) << 8 == x << 16 && (x << 16) << 8 == x << 24 && (x << 24) << 8 == 0;
  }

  lemma LeadingSplit8(x: bv32, m: nat)
    ensures Leading(x, 8 + m) == Leading(x, 8) + Leading(x << 8, m)
  {
    LeadingSplit(x, 8, m);
    Shifted8(x);
  }

  lemma LeadingOfZero(n: nat)
    ensures Leading(0, n) == Zeros(n)
    decreases n
  {
    if n > 0 {
      assert (0 as bv32) << 1 == 0;
      LeadingOfZero(n - 1);
    }
  }

  /** Eight leading bits that are zero, one position at a time. */
  lemma LeadingZeros8(x: bv32)
    requires x & 0xff000000 == 0
    ensures Leading(x, 8) == Zeros(8)
  {
    assert !Top(x << 7) && Leading(x << 7, 1) == [false];
    assert !Top(x << 6) && (x << 6) << 1 == x << 7 && Leading(x << 6, 2) == [false, false];
    assert !Top(x << 5) && (x << 5) << 1 == x << 6 && Leading(x << 5, 3) == [false] + Leading(x << 6, 2);
    assert !Top(x << 4) && (x << 4) << 1 == x << 5 && Leading(x << 4, 4) == [false] + Leading(x << 5, 3);
    assert !Top(x << 3) && (x << 3) << 1 == x << 4 && Leading(x << 3, 5) == [false] + Leading(x << 4, 4);
    assert !Top(x << 2) && (x << 2) << 1 == x << 3 && Leading(x << 2, 6) == [false] + Leading(x << 3, 5);
    assert !Top(x << 1) && (x << 1) << 1 == x << 2 && Leading(x << 1, 7) == [false] + Leading(x << 2, 6);
    assert !Top(x);
  }

  function Ones(n: nat): (z: Bits)
    ensures |z| == n
  {
    seq(n, i => true)
  }

  lemma LeadingOnes8(x: bv32)
    requires x & 0xff000000 == 0xff000000
    ensures Leading(x, 8) == Ones(8)
  {
    assert Top(x << 7) && Leading(x << 7, 1) == [true];
    assert Top(x << 6) && (x << 6) << 1 == x << 7 && Leading(x << 6, 2) == [true, true];
    assert Top(x << 5) && (x << 5) << 1 == x << 6 && Leading(x << 5, 3) == [true] + Leading(x << 6, 2);
    assert Top(x << 4) && (x << 4) << 1 == x << 5 && Leading(x << 4, 4) == [true] + Leading(x << 5, 3);
    assert Top(x << 3) && (x << 3) << 1 == x << 4 && Leading(x << 3, 5) == [true] + Leading(x << 4, 4);
    assert Top(x << 2) && (x << 2) << 1 == x << 3 && Leading(x << 2, 6) == [true] + Leading(x << 3, 5);
    assert Top(x << 1) && (x << 1) << 1 == x << 2 && Leading(x << 1, 7) == [true] + Leading(x << 2, 6);
    assert Top(x) && Leading(x, 8) == [true] + Leading(x << 1, 7);
  }

  predicate IsAllOnes(x: bv32) {
    x == 0xffffffff
  }

  lemma AllOnes(x: bv32)
    requires IsAllOnes(x)
    ensures WordBits(x) == Ones(32)
  {
    FourBytes(x);
    OnesEverywhere(x);
    LeadingOnes8(x);
    LeadingOnes8(x << 8);
    LeadingOnes8(x << 16);
    LeadingOnes8(x << 24);
    FourOnes(Leading(x, 8), Leading(x << 8, 8), Leading(x << 16, 8), Leading(x << 24, 8), WordBits(x));
  }

  lemma FourOnes(a: Bits, b: Bits, c: Bits, d: Bits, all: Bits)
    requires a == b == c == d == Ones(8) && all == a + (b + (c + d))
    ensures all == Ones(32)
  {
  }

  lemma OnesEverywhere(x: bv32)
    requires IsAllOnes(x)
    ensures x & 0xff000000 == (x << 8) & 0xff000000 == (x << 16) & 0xff000000 == (x << 24) & 0xff000000 == 0xff000000
  {
  }

  lemma XorZeros(a: Bits)
    ensures Xor(a, Zeros(|a|)) == a
    ensures Xor(Zeros(|a|), a) == a
  {
  }

  lemma TopByte(x: bv32)
    ensures Leading(x, 8) == ByteBits((x >> 24) as bv8)
  {
    var high, low := x & 0xff000000, x & 0x00ffffff;
    assert high ^ low == x;
    assert (((x >> 24) as bv8) as bv32) << 24 == high;
    LeadingXor(high, low, 8);
    assert low & 0xff000000 == 0;
    LeadingZeros8(low);
    XorZeros(Leading(high, 8));
  }

  lemma ShiftOneBit(x: bv32)
    ensures WordBits(x << 1) == WordBits(x)[1..] + [false]
  {
    LeadingSplit(x << 1, 31, 1);
    ShiftedOut(x);
    assert Shifted(x << 1, 31) == 0;
    assert Leading(0, 1) == [false];
    assert WordBits(x) == [Top(x)] + Leading(x << 1, 31);
  }

  lemma ShiftOneByte(x: bv32)
    ensures WordBits(x << 8) == WordBits(x)[8..] + Zeros(8)
  {
    LeadingSplit8(x, 24);
    LeadingSplit(x << 8, 24, 8);
    ShiftedOut(x);
    ShiftedAdd(x, 8, 24);
    Shifted8(x);
    LeadingOfZero(8);
  }

  lemma HighByteWord(b: bv8)
    ensures WordBits((b as bv32) << 24) == ByteBits(b) + Zeros(24)
  {
    LeadingSplit8((b as bv32) << 24, 24);
    assert ((b as bv32) << 24) << 8 == 0;
    LeadingOfZero(24);
  }

  lemma SmallShifts(w: bv32)
    requires w & 0xffffff00 == 0
    ensures w & 0xff000000 == 0 && (w << 8) & 0xff000000 == 0 && (w << 16) & 0xff000000 == 0
    ensures (w << 8) << 8 == w << 16 && (w << 16) << 8 == w << 24
  {
  }

  lemma FourBytes(x: bv32)
    ensures WordBits(x) == Leading(x, 8) + (Leading(x << 8, 8) + (Leading(x << 16, 8) + Leading(x << 24, 8)))
  {
    assert (x << 8) << 8 == x << 16 && (x << 16) << 8 == x << 24;
    LeadingSplit8(x, 24);
    LeadingSplit8(x << 8, 16);
    LeadingSplit8(x << 16, 8);
  }

  lemma LowByteWord(w: bv32)
    requires w & 0xffffff00 == 0
    ensures WordBits(w) == Zeros(24) + Leading(w << 24, 8)
  {
    SmallShifts(w);
    LeadingZeros8(w);
    LeadingZeros8(w << 8);
    LeadingZeros8(w << 16);
    FourBytes(w);
    ZerosInFront(Leading(w << 24, 8));
  }

  lemma ZerosInFront(b: Bits)
    ensures Zeros(8) + (Zeros(8) + (Zeros(8) + b)) == Zeros(24) + b
  {
  }

  lemma XorDisjoint(a: Bits, b: Bits)
    requires |a| == 24 && |b| == 8
    ensures Xor(a + Zeros(8), Zeros(24) + b) == a + b
  {
  }

  lemma OrIsXor(x: bv32, b: bv8)
    ensures (x << 8) | (b as bv32) == (x << 8) ^ (b as bv32)
    ensures (b as bv32) & 0xffffff00 == 0
  {
  }

  lemma JoinDisjointWords(word: bv32, high: bv32, low: bv32, a: Bits, b: Bits)
    requires word == high ^ low
    requires |a| == 24 && WordBits(high) == a + Zeros(8)
    requires |b| == 8 && WordBits(low) == Zeros(24) + b
    ensures WordBits(word) == a + b
  {
    LeadingXor(high, low, 32);
    XorDisjoint(a, b);
  }

  /** Appending a byte to a big-endian number. */
  lemma AppendByte(x: bv32, b: bv8)
    ensures WordBits((x << 8) | (b as bv32)) == WordBits(x)[8..] + ByteBits(b)
  {
    ShiftOneByte(x);
    LowByte(b, b as bv32);
    OrIsXor(x, b);
    JoinDisjointWords((x << 8) | (b as bv32), x << 8, b as bv32, WordBits(x)[8..], ByteBits(b));
  }

  lemma LowByte(b: bv8, w: bv32)
    requires w == b as bv32
    ensures WordBits(w) == Zeros(24) + ByteBits(b)
  {
    LowByteWord(w);
  }

  lemma ByteXor(a: bv8, b: bv8)
    ensures ByteBits(a ^ b) == Xor(ByteBits(a), ByteBits(b))
  {
    assert ((a ^ b) as bv32) << 24 == ((a as bv32) << 24) ^ ((b as bv32) << 24);
    LeadingXor((a as bv32) << 24, (b as bv32) << 24, 8);
  }

  function Rejoin(top: bool, rest: bv32): bv32 {
    if top then (rest >> 1) | 0x80000000 else rest >> 1
  }

  lemma Rejoined(x: bv32)
    ensures Rejoin(Top(x), x << 1) == x
  {
    if Top(x) {
      assert x & 0x80000000 == 0x80000000;
      assert ((x << 1) >> 1) | (x & 0x80000000) == x;
    } else {
      assert x & 0x80000000 == 0;
      assert ((x << 1) >> 1) | (x & 0x80000000) == x;
    }
  }

  lemma {:induction false} LeadingInjective(x: bv32, y: bv32, n: nat)
    requires Leading(x, n) == Leading(y, n) && Shifted(x, n) == Shifted(y, n)
    ensures x == y
    decreases n
  {
    if n > 0 {
      assert Leading(x, n)[0] == Leading(y, n)[0];
      assert Leading(x << 1, n - 1) == Leading(x, n)[1..] == Leading(y, n)[1..] == Leading(y << 1, n - 1);
      LeadingInjective(x << 1, y << 1, n - 1);
      Rejoined(x);
      Rejoined(y);
    }
  }

  lemma WordBitsInjective(x: bv32, y: bv32)
    requires WordBits(x) == WordBits(y)
    ensures x == y
  {
    ShiftedOut(x);
    ShiftedOut(y);
    LeadingInjective(x, y, 32);
  }
}
