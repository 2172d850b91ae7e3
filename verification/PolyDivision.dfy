/**
 Bit-serial division of a message by the generator polynomial of CRC-32, over GF(2).
 This is the reference against which the table-driven code is proved. A register is a
 sequence of 32 bits, most significant first; a message is a sequence of bits of any length.
 */
module PolyDivision {
  type Bits = seq<bool>

  /** The terms below x^32 of x^32 + x^26 + x^23 + ... + 1. */
  predicate IsTerm(exponent: int) {
    exponent in {26, 23, 22, 16, 12, 11, 10, 8, 7, 5, 4, 2, 1, 0}
  }

  function Generator(): (g: Bits)
    ensures |g| == 32
  {
    seq(32, i => IsTerm(31 - i))
  }

  function Zeros(n: nat): (z: Bits)
    ensures |z| == n
  {
    seq(n, i => false)
  }

  function Xor(a: Bits, b: Bits): (r: Bits)
    requires |a| == |b|
    ensures |r| == |a|
  {
    seq(|a|, i requires 0 <= i < |a| => a[i] != b[i])
  }

  lemma XorSelf(a: Bits)
    ensures Xor(a, a) == Zeros(|a|)
  {
  }

  /** Shifts one message bit into the division: subtract the generator when the leading terms differ. */
  function Step(reg: Bits, bit: bool): (r: Bits)
    requires |reg| == 32
    ensures |r| == 32
  {
    var shifted := reg[1..] + [false];
    if reg[0] != bit then Xor(shifted, Generator()) else shifted
  }

  function Divide(reg: Bits, message: Bits): (r: Bits)
    requires |reg| == 32
    ensures |r| == 32
    decreases |message|
  {
    if message == [] then reg else Divide(Step(reg, message[0]), message[1..])
  }

  /** The division may be interrupted anywhere and resumed from its register. */
  lemma {:induction false} DivideInPieces(reg: Bits, m: Bits, n: Bits)
    requires |reg| == 32
    ensures Divide(reg, m + n) == Divide(Divide(reg, m), n)
    decreases |m|
  {
    if m == [] {
      assert m + n == n;
    } else {
      assert (m + n)[1..] == m[1..] + n;
      DivideInPieces(Step(reg, m[0]), m[1..], n);
    }
  }

  lemma StepLinear(a: Bits, b: Bits, x: bool, y: bool)
    requires |a| == |b| == 32
    ensures Step(Xor(a, b), x != y) == Xor(Step(a, x), Step(b, y))
  {
    var l, r := Step(Xor(a, b), x != y), Xor(Step(a, x), Step(b, y));
    forall k | 0 <= k < 32 ensures l[k] == r[k] {
    }
  }

  /** The difference of two divisions is the division of the difference. */
  lemma {:induction false} DivideLinear(a: Bits, b: Bits, m: Bits, n: Bits)
    requires |a| == |b| == 32 && |m| == |n|
    ensures Divide(Xor(a, b), Xor(m, n)) == Xor(Divide(a, m), Divide(b, n))
    decreases |m|
  {
    if m != [] {
      StepLinear(a, b, m[0], n[0]);
      assert Xor(m, n)[1..] == Xor(m[1..], n[1..]);
      DivideLinear(Step(a, m[0]), Step(b, n[0]), m[1..], n[1..]);
    }
  }

  /**
   Up to 32 bits clear the register exactly when they spell the register's leading bits and the rest
   of the register is already clear. The argument runs backwards: the generator's constant term puts
   a one in the last position of every subtraction, so no step of such a run can have subtracted.
   */
  lemma {:induction false} ClearedExactlyByItself(reg: Bits, m: Bits)
    requires |reg| == 32 && |m| <= 32
    ensures Divide(reg, m) == Zeros(32) <==> reg == m + Zeros(32 - |m|)
    decreases |m|
  {
    if m == [] {
      assert m + Zeros(32) == Zeros(32);
    } else {
      var next, rest := Step(reg, m[0]), m[1..];
      ClearedExactlyByItself(next, rest);
      var tail := Zeros(32 - |rest|);
      assert tail[|tail| - 1] == false;
      assert next[31] == (reg[0] != m[0]);
      if next == rest + tail {
        assert next[31] == (rest + tail)[31] == false;
        assert next == reg[1..] + [false];
        forall k | 0 <= k < 32 ensures reg[k] == (m + Zeros(32 - |m|))[k] {
          if k > 0 {
            assert reg[k] == next[k - 1] == (rest + tail)[k - 1];
          }
        }
      }
      if reg == m + Zeros(32 - |m|) {
        assert reg[0] == m[0];
        forall k | 0 <= k < 32 ensures next[k] == (rest + tail)[k] {
          if k < 31 {
            assert next[k] == reg[k + 1];
          }
        }
      }
    }
  }

  /** Bits that equal the leading bits of the register are shifted out without a subtraction. */
  lemma XorOfJoined(a: Bits, b: Bits, c: Bits, d: Bits)
    requires |a| == |c| && |b| == |d|
    ensures Xor(a + b, c + d) == Xor(a, c) + Xor(b, d)
  {
  }

  lemma XorWithZeros(a: Bits)
    ensures Xor(a, Zeros(|a|)) == a && Xor(Zeros(|a|), a) == a
  {
  }

  lemma XorTwice(a: Bits, b: Bits)
    requires |a| == |b|
    ensures Xor(a, Xor(a, b)) == b
  {
  }

  /** What the register starts with acts like a change of the first 32 bits of the message. */
  lemma StartIsChangeOfFirst(reg: Bits, first: Bits, rest: Bits)
    requires |reg| == |first| == 32
    ensures Divide(reg, first + rest) == Divide(Zeros(32), Xor(reg, first) + rest)
  {
    var zeros := Zeros(|rest|);
    ClearedExactlyByItself(reg, reg);
    assert reg + Zeros(0) == reg;
    DivideInPieces(reg, reg, zeros);
    ZerosKeepZero(|rest|);
    XorOfJoined(reg, zeros, Xor(reg, first), rest);
    XorTwice(reg, first);
    XorWithZeros(rest);
    XorWithZeros(reg);
    DivideLinear(reg, Zeros(32), reg + zeros, Xor(reg, first) + rest);
    XorWithZeros(Divide(Zeros(32), Xor(reg, first) + rest));
  }

  lemma {:induction false} ShiftsOut(m: Bits, rest: Bits)
    requires |m| + |rest| == 32
    ensures Divide(m + rest, m) == rest + Zeros(|m|)
    decreases |m|
  {
    if m == [] {
      assert m + rest == rest == rest + Zeros(0);
    } else {
      assert Step(m + rest, m[0]) == m[1..] + (rest + [false]);
      ShiftsOut(m[1..], rest + [false]);
      assert rest + [false] + Zeros(|m| - 1) == rest + Zeros(|m|);
    }
  }

  /** Eight message bits at once: the leading byte selects a remainder, the rest of the register moves up. */
  lemma DivideByte(reg: Bits, b: Bits)
    requires |reg| == 32 && |b| == 8
    ensures Divide(reg, b) == Xor(Divide(Xor(reg[..8], b) + Zeros(24), Zeros(8)), reg[8..] + Zeros(8))
  {
    var high, low := Xor(reg[..8], b) + Zeros(24), b + reg[8..];
    assert Xor(high, low) == reg;
    assert Xor(Zeros(8), b) == b;
    DivideLinear(high, low, Zeros(8), b);
    ShiftsOut(b, reg[8..]);
  }

  lemma OnlyZeroStepsToZero(reg: Bits)
    requires |reg| == 32 && Step(reg, false) == Zeros(32)
    ensures reg == Zeros(32)
  {
    var next := Step(reg, false);
    assert next[31] == reg[0];
    assert forall k :: 0 < k < 32 ==> reg[k] == next[k - 1];
  }

  lemma {:induction false} ZerosKeepNonzero(reg: Bits, n: nat)
    requires |reg| == 32 && reg != Zeros(32)
    ensures Divide(reg, Zeros(n)) != Zeros(32)
    decreases n
  {
    if n > 0 {
      var next := Step(reg, false);
      assert next != Zeros(32) by {
        if next == Zeros(32) {
          OnlyZeroStepsToZero(reg);
        }
      }
      assert Zeros(n)[1..] == Zeros(n - 1);
      ZerosKeepNonzero(next, n - 1);
    }
  }

  lemma {:induction false} ZerosKeepZero(n: nat)
    ensures Divide(Zeros(32), Zeros(n)) == Zeros(32)
  {
    if n > 0 {
      assert Step(Zeros(32), false) == Zeros(32);
      assert Zeros(n)[1..] == Zeros(n - 1);
      ZerosKeepZero(n - 1);
    }
  }

  /** m and n differ somewhere, and only inside the 32 bits that start at offset. */
  ghost predicate BurstError(m: Bits, n: Bits, offset: nat) {
    |m| == |n| && m != n &&
    forall k :: 0 <= k < |m| && m[k] != n[k] ==> offset <= k < offset + 32
  }

  /** A message that is zero except for a nonzero stretch of at most 32 bits has a nonzero remainder. */
  lemma BurstHasRemainder(before: nat, burst: Bits, after: nat, k: nat)
    requires |burst| <= 32 && k < |burst| && burst[k]
    ensures Divide(Zeros(32), Zeros(before) + burst + Zeros(after)) != Zeros(32)
  {
    DivideInPieces(Zeros(32), Zeros(before) + burst, Zeros(after));
    DivideInPieces(Zeros(32), Zeros(before), burst);
    ZerosKeepZero(before);
    ClearedExactlyByItself(Zeros(32), burst);
    assert (burst + Zeros(32 - |burst|))[k] != Zeros(32)[k];
    ZerosKeepNonzero(Divide(Zeros(32), burst), after);
  }

  lemma BurstShape(m: Bits, n: Bits, offset: nat) returns (burst: Bits, after: nat, k: nat)
    requires BurstError(m, n, offset)
    ensures |burst| <= 32 && k < |burst| && burst[k]
    ensures Xor(m, n) == Zeros(offset) + burst + Zeros(after)
  {
    var d := Xor(m, n);
    var at :| 0 <= at < |m| && m[at] != n[at];
    var end := if offset + 32 <= |m| then offset + 32 else |m|;
    burst, after, k := d[offset..end], |m| - end, at - offset;
    var shape := Zeros(offset) + burst + Zeros(after);
    forall i | 0 <= i < |m| ensures d[i] == shape[i] {
    }
  }

  /** No burst of at most 32 bits, at any bit offset, leaves the remainder unchanged. */
  lemma BurstChangesRemainder(reg: Bits, m: Bits, n: Bits, offset: nat)
    requires |reg| == 32 && BurstError(m, n, offset)
    ensures Divide(reg, m) != Divide(reg, n)
  {
    var burst, after, k := BurstShape(m, n, offset);
    BurstHasRemainder(offset, burst, after, k);
    DivideLinear(reg, reg, m, n);
    XorSelf(reg);
    XorSelf(Divide(reg, m));
  }

  // ---- Messages made of octets ----

  type Octet = b: Bits | |b| == 8 witness [false, false, false, false, false, false, false, false]

  function Flatten(octets: seq<Octet>): (m: Bits)
    ensures |m| == 8 * |octets|
  {
    if octets == [] then [] else octets[0] + Flatten(octets[1..])
  }

  lemma {:induction false} FlattenAppend(a: seq<Octet>, b: seq<Octet>)
    ensures Flatten(a + b) == Flatten(a) + Flatten(b)
  {
    if a == [] {
      assert a + b == b;
    } else {
      assert (a + b)[1..] == a[1..] + b;
      FlattenAppend(a[1..], b);
    }
  }

  lemma {:induction false} FlattenAt(octets: seq<Octet>, i: nat, j: nat)
    requires i < |octets| && j < 8
    ensures Flatten(octets)[8 * i + j] == octets[i][j]
    decreases |octets|
  {
    if i > 0 {
      FlattenAt(octets[1..], i - 1, j);
    }
  }

  lemma FlattenOne(b: Octet)
    ensures Flatten([b]) == b
  {
    assert Flatten([b]) == b + Flatten([b][1..]);
  }

  lemma DifferingBit(a: seq<Octet>, b: seq<Octet>, k: nat) returns (i: nat)
    requires |a| == |b| && k < 8 * |a| && Flatten(a)[k] != Flatten(b)[k]
    ensures i < |a| && 8 * i <= k < 8 * i + 8 && a[i] != b[i]
  {
    i := k / 8;
    FlattenAt(a, i, k % 8);
    FlattenAt(b, i, k % 8);
  }

  lemma FlattenInjective(a: seq<Octet>, b: seq<Octet>)
    requires |a| == |b| && a != b
    ensures Flatten(a) != Flatten(b)
  {
    var i :| 0 <= i < |a| && a[i] != b[i];
    var j :| 0 <= j < 8 && a[i][j] != b[i][j];
    FlattenAt(a, i, j);
    FlattenAt(b, i, j);
  }

  /** Octet strings that differ within four neighbouring octets differ by a burst of at most 32 bits. */
  lemma OctetBurst(a: seq<Octet>, b: seq<Octet>, at: nat)
    requires |a| == |b| && a != b
    requires forall i :: 0 <= i < |a| && a[i] != b[i] ==> at <= i < at + 4
    ensures BurstError(Flatten(a), Flatten(b), 8 * at)
  {
    FlattenInjective(a, b);
    forall k | 0 <= k < 8 * |a| && Flatten(a)[k] != Flatten(b)[k] ensures 8 * at <= k < 8 * at + 32 {
      var i := DifferingBit(a, b, k);
    }
  }
}
