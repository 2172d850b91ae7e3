/** The pressure sensor's CRC-4: computed on unbounded integers, proved to be a 16-bit shift register's. */
module Crc4 {
  import opened BitwiseIntegers
  import opened Iteration

  const FEEDBACK: nat := 0x3000

  /** Whether bit 15 is set. */
  predicate Top(n: nat) {
    Shr(n, 15) % 2 == 1
  }

  function FeedbackOf(n: nat): nat {
    if Top(n) then FEEDBACK else 0
  }

  /** One round of the inner loop, on an integer that is never cut down to size. */
  function StepBig(n: nat): nat {
    Xor(2 * n, FeedbackOf(n))
  }

  /** One shift of a 16-bit register. */
  function StepRegister(r: nat): nat {
    Low(StepBig(r), 16)
  }

  function StepsBig(n: nat, count: nat): nat {
    Iterate(StepBig, n, count)
  }

  function StepsRegister(r: nat, count: nat): nat {
    Iterate(StepRegister, r, count)
  }

  /** One round of the outer loop. */
  function FeedBig(n: nat, byte: nat): nat {
    StepsBig(Xor(n, byte), 8)
  }

  function FeedRegister(r: nat, byte: nat): nat {
    StepsRegister(Low(Xor(r, byte), 16), 8)
  }

  function RunBig(bytes: seq<nat>): nat {
    Fold(FeedBig, bytes)
  }

  function RunRegister(bytes: seq<nat>): nat {
    Fold(FeedRegister, bytes)
  }

  /** The four bits that are kept in the end, or stored in the first word. */
  function Nibble(n: nat): nat {
    Low(Shr(n, 12), 4)
  }

  // ---- The integer and the register ----

  lemma TopOfLow(n: nat)
    ensures Top(Low(n, 16)) <==> Top(n)
  {
    ShrLow(n, 15, 1);
    assert Low(Shr(n, 15), 1) == 2 * Low(Shr(n, 15) / 2, 0) + Shr(n, 15) % 2;
    Halves(Low(Shr(n, 15), 1), 0, Shr(n, 15) % 2);
  }

  lemma NibbleOfLow(n: nat)
    ensures Nibble(Low(n, 16)) == Nibble(n)
  {
    ShrLow(n, 12, 4);
    LowLow(Shr(n, 12), 4, 0);
  }

  lemma DoubleOfLow(n: nat)
    ensures Low(2 * Low(n, 16), 16) == Low(2 * n, 16)
  {
    LowDouble(n, 15);
    LowDouble(Low(n, 16), 15);
    LowLow(n, 15, 1);
  }

  lemma StepAgrees(n: nat)
    ensures Low(StepBig(n), 16) == StepRegister(Low(n, 16))
  {
    TopOfLow(n);
    DoubleOfLow(n);
    LowXor(2 * n, FeedbackOf(n), 16);
    LowXor(2 * Low(n, 16), FeedbackOf(n), 16);
  }

  function Low16(n: nat): nat {
    Low(n, 16)
  }

  lemma StepsAgree(n: nat, count: nat)
    ensures Low(StepsBig(n, count), 16) == StepsRegister(Low(n, 16), count)
  {
    forall m: nat ensures Low16(StepBig(m)) == StepRegister(Low16(m)) {
      StepAgrees(m);
    }
    IterateSimulates(StepBig, StepRegister, Low16, n, count);
  }

  lemma XoredAgree(n: nat, r: nat, byte: nat)
    requires Low(n, 16) == r
    ensures Low(Xor(n, byte), 16) == Low(Xor(r, byte), 16)
  {
    LowXor(n, byte, 16);
    LowXor(r, byte, 16);
    LowLow(n, 16, 0);
  }

  /** Within one byte, after any number of shifts, the low 16 bits of the integer are the register. */
  lemma ShiftsAgree(n: nat, byte: nat, count: nat)
    ensures Low(StepsBig(Xor(n, byte), count), 16) == StepsRegister(Low(Xor(Low(n, 16), byte), 16), count)
  {
    XoredAgree(n, Low(n, 16), byte);
    StepsAgree(Xor(n, byte), count);
  }

  /** And so they are after any bytes. */
  lemma RegisterAgrees(bytes: seq<nat>)
    ensures Low(RunBig(bytes), 16) == RunRegister(bytes)
  {
    forall n: nat, byte: nat ensures Low16(FeedBig(n, byte)) == FeedRegister(Low16(n), byte) {
      ShiftsAgree(n, byte, 8);
    }
    PowersOfTwo();
    LowOfSmall(0, 16);
    FoldSimulates(FeedBig, FeedRegister, Low16, bytes);
  }

  // ---- The calibration words ----

  type Words = seq<nat>

  predicate WordSized(words: Words) {
    forall i :: 0 <= i < |words| ==> words[i] < 0x1_0000
  }

  /** The words as the loop reads them: the stored CRC cleared from the first, and a zero word appended. */
  function Prepared(prom: Words): (r: Words)
    requires |prom| == 7
    ensures |r| == 8
  {
    [Low(prom[0], 12)] + prom[1..] + [0]
  }

  /** The i-th byte of the words, high byte first. */
  function ByteAt(words: Words, i: nat): nat
    requires i < 2 * |words|
  {
    if i % 2 == 1 then Low(words[i / 2], 8) else Shr(words[i / 2], 8)
  }

  function Bytes(words: Words): (r: seq<nat>)
    ensures |r| == 2 * |words| && forall i :: 0 <= i < |r| ==> r[i] == ByteAt(words, i)
  {
    seq(2 * |words|, i requires 0 <= i < 2 * |words| => ByteAt(words, i))
  }

  function Crc4Of(prom: Words): nat
    requires |prom| == 7
  {
    Nibble(RunBig(Bytes(Prepared(prom))))
  }

  /** The nibble stored in the first word is the computed one. */
  predicate Accepted(prom: Words)
    requires |prom| == 7
  {
    Nibble(prom[0]) == Crc4Of(prom)
  }

  /** The computed nibble is that of a 16-bit register, for all calibration words. */
  lemma CrcIsRegisterCrc(prom: Words)
    requires |prom| == 7
    ensures Crc4Of(prom) == Nibble(RunRegister(Bytes(Prepared(prom))))
  {
    var bytes := Bytes(Prepared(prom));
    RegisterAgrees(bytes);
    NibbleOfLow(RunBig(bytes));
  }

  /** It does not depend on the nibble stored in the first word. */
  lemma StoredNibbleIsIgnored(prom: Words, other: Words)
    requires |prom| == |other| == 7 && prom[1..] == other[1..] && Low(prom[0], 12) == Low(other[0], 12)
    ensures Crc4Of(prom) == Crc4Of(other)
  {
    assert Prepared(prom) == Prepared(other);
  }
}
