/** What the CRC-4 detects: every burst of at most four bits in the calibration words. */
module Crc4Bursts {
  import opened BitwiseIntegers
  import opened Iteration
  import opened Crc4

  // ---- The run is linear ----

  lemma OddXor(a: nat, b: nat)
    ensures Xor(a, b) % 2 == 1 <==> (a % 2 == 1) != (b % 2 == 1)
  {
    XorParts(a, b);
    OddSum(a % 2, b % 2);
  }

  lemma OddSum(x: nat, y: nat)
    requires x < 2 && y < 2
    ensures Parity(x, y) == 1 <==> (x == 1) != (y == 1)
  {
  }

  lemma TopIsLinear(a: nat, b: nat)
    ensures Top(Xor(a, b)) <==> Top(a) != Top(b)
  {
    ShrXor(a, b, 15);
    OddXor(Shr(a, 15), Shr(b, 15));
  }

  lemma FeedbackIsLinear(a: nat, b: nat)
    ensures FeedbackOf(Xor(a, b)) == Xor(FeedbackOf(a), FeedbackOf(b))
  {
    TopIsLinear(a, b);
    XorSelf(FEEDBACK);
    XorZero(FEEDBACK);
    XorZero(0);
  }

  lemma StepIsLinear(a: nat, b: nat)
    ensures StepBig(Xor(a, b)) == Xor(StepBig(a), StepBig(b))
  {
    FeedbackIsLinear(a, b);
    XorDouble(a, b, 2 * a, 2 * b);
    XorRearranged(2 * a, 2 * b, FeedbackOf(a), FeedbackOf(b));
  }

  lemma StepsAreLinear(a: nat, b: nat, count: nat)
    ensures StepsBig(Xor(a, b), count) == Xor(StepsBig(a, count), StepsBig(b, count))
  {
    forall x: nat, y: nat ensures StepBig(Xor(x, y)) == Xor(StepBig(x), StepBig(y)) {
      StepIsLinear(x, y);
    }
    IterateIsLinear(StepBig, Xor, a, b, count);
  }

  lemma FeedIsLinear(a: nat, b: nat, x: nat, y: nat)
    ensures FeedBig(Xor(a, b), Xor(x, y)) == Xor(FeedBig(a, x), FeedBig(b, y))
  {
    XorRearranged(a, b, x, y);
    StepsAreLinear(Xor(a, x), Xor(b, y), 8);
  }

  /** Two sequences, combined place by place. */
  function Zip(plus: (nat, nat) -> nat, a: seq<nat>, b: seq<nat>): (r: seq<nat>)
    requires |a| == |b|
    ensures |r| == |a| && forall i :: 0 <= i < |a| ==> r[i] == plus(a[i], b[i])
  {
    seq(|a|, i requires 0 <= i < |a| => plus(a[i], b[i]))
  }

  function XorAll(a: seq<nat>, b: seq<nat>): (r: seq<nat>)
    requires |a| == |b|
    ensures |r| == |a| && forall i :: 0 <= i < |a| ==> r[i] == Xor(a[i], b[i])
  {
    Zip(Xor, a, b)
  }

  lemma {:induction false} RunIsLinear(a: seq<nat>, b: seq<nat>)
    requires |a| == |b|
    ensures RunBig(XorAll(a, b)) == Xor(RunBig(a), RunBig(b))
    decreases |a|
  {
    if a == [] {
      XorZero(0);
    } else {
      var m := |a| - 1;
      RunIsLinear(a[..m], b[..m]);
      assert XorAll(a, b)[..m] == XorAll(a[..m], b[..m]);
      FeedIsLinear(RunBig(a[..m]), RunBig(b[..m]), a[m], b[m]);
    }
  }

  lemma NibbleIsLinear(a: nat, b: nat)
    ensures Nibble(Xor(a, b)) == Xor(Nibble(a), Nibble(b))
  {
    ShrXor(a, b, 12);
    LowXor(Shr(a, 12), Shr(b, 12), 4);
  }

  // ---- What becomes of a burst in the register ----

  lemma OneFreeShift(z: nat)
    requires 2 * z < 0x1_0000
    ensures StepRegister(z) == 2 * z
  {
    PowersOfTwo();
    LowOfSmall(z, 15);
    XorZero(2 * z);
    LowOfSmall(2 * z, 16);
  }

  lemma {:induction false} IterateDoubles(f: nat -> nat, r: nat, count: nat)
    requires forall z: nat :: 2 * z < 0x1_0000 ==> f(z) == 2 * z
    requires Shl(r, count) < 0x1_0000
    ensures Iterate(f, r, count) == Shl(r, count)
    decreases count
  {
    if count > 0 {
      IterateDoubles(f, r, count - 1);
    }
  }

  /** Shifts that push nothing out feed nothing back. */
  lemma FreeShifts(r: nat, count: nat)
    requires Shl(r, count) < 0x1_0000
    ensures StepsRegister(r, count) == Shl(r, count)
  {
    forall z: nat | 2 * z < 0x1_0000 ensures StepRegister(z) == 2 * z {
      OneFreeShift(z);
    }
    IterateDoubles(StepRegister, r, count);
  }

  function Upper(w: nat): nat {
    0x1000 * w
  }

  /** A register whose four upper bits alone are in use, and not all zero. */
  predicate UpperOnly(r: nat) {
    exists w: nat :: 1 <= w < 16 && r == Upper(w)
  }

  lemma IsUpper(w: nat)
    requires 1 <= w < 16
    ensures UpperOnly(Upper(w))
  {
  }

  lemma UpperParts(w: nat)
    requires w < 16
    ensures Shr(Upper(w), 12) == w && Nibble(Upper(w)) == w
  {
    PowersOfTwo();
    ShlConstants(w);
    SplitIsUnique(Upper(w), w, 0, 12);
    LowOfSmall(w, 4);
  }

  lemma UpperOverflows(w: nat)
    requires 8 <= w < 16
    ensures Top(Upper(w)) && Low(2 * Upper(w), 16) == Upper(2 * w - 16)
  {
    PowersOfTwo();
    ShlIsProduct(1, 15);
    SplitIsUnique(Upper(w), 1, Upper(w - 8), 15);
    ShlIsProduct(1, 16);
    SplitIsUnique(2 * Upper(w), 1, Upper(2 * w - 16), 16);
  }

  /** Fed back into an even number below 16, the two feedback bits leave something. */
  lemma FeedbackStays(v: nat)
    requires v < 16 && v % 2 == 0
    ensures 1 <= Xor(v, 3) < 16 && Xor(Upper(v), FEEDBACK) == Upper(Xor(v, 3))
  {
    PowersOfTwo();
    XorOfSmall(v, 3, 4);
    XorParts(v, 3);
    ShlConstants(v);
    ShlConstants(3);
    ShlConstants(Xor(v, 3));
    XorShifted(v, 3, 12);
  }

  lemma FedBack(n: nat, m: nat, r: nat)
    requires Top(n) && Low(2 * n, 16) == m && Xor(m, FEEDBACK) == r < 0x1_0000
    ensures StepRegister(n) == r
  {
    PowersOfTwo();
    LowXor(2 * n, FEEDBACK, 16);
    LowOfSmall(FEEDBACK, 16);
  }

  lemma UpperFeedsBack(w: nat)
    requires 8 <= w < 16
    ensures UpperOnly(StepRegister(Upper(w)))
  {
    var v := 2 * w - 16;
    UpperOverflows(w);
    FeedbackStays(v);
    FedBack(Upper(w), Upper(v), Upper(Xor(v, 3)));
    IsUpper(Xor(v, 3));
  }

  lemma UpperStep(w: nat)
    requires 1 <= w < 16
    ensures UpperOnly(StepRegister(Upper(w)))
  {
    if w < 8 {
      OneFreeShift(Upper(w));
      IsUpper(2 * w);
    } else {
      UpperFeedsBack(w);
    }
  }

  lemma UpperStaysUpper(r: nat)
    requires UpperOnly(r)
    ensures UpperOnly(StepRegister(r))
  {
    var w: nat :| 1 <= w < 16 && r == Upper(w);
    UpperStep(w);
  }

  /** Once only the upper bits are in use, that stays so. */
  lemma UpperAfter(r: nat, m: nat, count: nat)
    requires m <= count && UpperOnly(StepsRegister(r, m))
    ensures UpperOnly(StepsRegister(r, count))
  {
    forall t: nat | UpperOnly(t) ensures UpperOnly(StepRegister(t)) {
      UpperStaysUpper(t);
    }
    IterateKeepsFrom(StepRegister, UpperOnly, r, m, count);
  }

  /** Up to four neighbouring bits, at place k from below. */
  predicate Burst(value: nat, w: nat, k: nat) {
    1 <= w < 16 && k <= 12 && value == Shl(w, k)
  }

  lemma BurstReachesUpper(value: nat, w: nat, k: nat)
    requires Burst(value, w, k)
    ensures StepsRegister(value, 12 - k) == Upper(w)
  {
    ShlAddsUp(w, k, 12 - k);
    ShlConstants(w);
    FreeShifts(value, 12 - k);
  }

  // ---- What becomes of it over the bytes ----

  lemma FeedNothing(r: nat)
    requires r < 0x1_0000
    ensures Low(Xor(r, 0), 16) == r && Low(Xor(0, r), 16) == r
  {
    PowersOfTwo();
    XorZero(r);
    LowOfSmall(r, 16);
  }

  lemma FeedIs(r: nat, byte: nat, fed: nat)
    requires Low(Xor(r, byte), 16) == fed
    ensures FeedRegister(r, byte) == StepsRegister(fed, 8)
  {
  }

  lemma FeedZero(r: nat)
    requires r < 0x1_0000
    ensures FeedRegister(r, 0) == StepsRegister(r, 8)
  {
    FeedNothing(r);
    FeedIs(r, 0, r);
  }

  lemma FreeByte(x: nat)
    requires x < 0x100
    ensures StepsRegister(x, 8) == 0x100 * x
  {
    ShlConstants(x);
    FreeShifts(x, 8);
  }

  lemma FeedFirst(x: nat)
    requires x < 0x100
    ensures FeedRegister(0, x) == 0x100 * x
  {
    FeedNothing(x);
    FreeByte(x);
  }

  lemma BytesJoined(x: nat, y: nat)
    requires x < 0x100 && y < 0x100
    ensures Low(Xor(0x100 * x, y), 16) == 0x100 * x + y
  {
    ByteJoined(x, y);
    WordIsItself(0x100 * x + y);
  }

  lemma ByteJoined(x: nat, y: nat)
    requires y < 0x100
    ensures Xor(0x100 * x, y) == 0x100 * x + y
  {
    PowersOfTwo();
    ShlConstants(x);
    XorDisjoint(0x100 * x, x, 8, y);
  }

  lemma WordIsItself(z: nat)
    requires z < 0x1_0000
    ensures Low(z, 16) == z
  {
    PowersOfTwo();
    LowOfSmall(z, 16);
  }

  lemma FeedSecond(x: nat, y: nat, value: nat)
    requires x < 0x100 && y < 0x100 && value == 0x100 * x + y
    ensures FeedRegister(0x100 * x, y) == StepsRegister(value, 8)
  {
    BytesJoined(x, y);
    FeedIs(0x100 * x, y, value);
  }

  lemma RegisterFits(r: nat, count: nat)
    requires r < 0x1_0000
    ensures StepsRegister(r, count) < 0x1_0000
  {
    PowersOfTwo();
    if count > 0 {
      Split(StepBig(StepsRegister(r, count - 1)), 16);
    }
  }

  lemma TwoFed(x: nat, y: nat, value: nat)
    requires x < 0x100 && y < 0x100 && value == 0x100 * x + y
    ensures FeedRegister(FeedRegister(FeedRegister(0, x), y), 0) == StepsRegister(value, 16)
  {
    FeedFirst(x);
    FeedSecond(x, y, value);
    RegisterFits(value, 8);
    FeedZero(StepsRegister(value, 8));
    IterateAddsUp(StepRegister, value, 8, 8);
  }

  /** Two bytes that hold a burst, and a zero byte, bring it into the upper four bits. */
  lemma EnteredBurst(x: nat, y: nat, w: nat, k: nat, value: nat)
    requires x < 0x100 && y < 0x100 && value == 0x100 * x + y && Burst(value, w, k)
    ensures UpperOnly(FeedRegister(FeedRegister(FeedRegister(0, x), y), 0))
  {
    TwoFed(x, y, value);
    BurstReachesUpper(value, w, k);
    IsUpper(w);
    UpperAfter(value, 12 - k, 16);
  }

  lemma UpperFeedsUpper(r: nat)
    requires UpperOnly(r)
    ensures UpperOnly(FeedRegister(r, 0))
  {
    FeedZero(r);
    assert StepsRegister(r, 0) == r;
    UpperAfter(r, 0, 8);
  }

  /** The bytes are zero but for a burst in the bytes i and i + 1. */
  predicate BurstAt(e: seq<nat>, i: nat, w: nat, k: nat) {
    && i + 1 < |e| && e[i] < 0x100 && e[i + 1] < 0x100
    && (forall j :: 0 <= j < |e| && j != i && j != i + 1 ==> e[j] == 0)
    && Burst(0x100 * e[i] + e[i + 1], w, k)
  }

  lemma BurstEnters(e: seq<nat>, i: nat, w: nat, k: nat)
    requires BurstAt(e, i, w, k) && i + 2 < |e|
    ensures UpperOnly(RunRegister(e[..i + 3]))
  {
    FeedFirst(0);
    FoldKeeps(FeedRegister, (r: nat) => r == 0, e, 0, i);
    FoldOneMore(FeedRegister, e, i);
    FoldOneMore(FeedRegister, e, i + 1);
    FoldOneMore(FeedRegister, e, i + 2);
    EnteredBurst(e[i], e[i + 1], w, k, 0x100 * e[i] + e[i + 1]);
  }

  lemma BurstStays(e: seq<nat>, i: nat, w: nat, k: nat)
    requires BurstAt(e, i, w, k) && i + 2 < |e|
    ensures UpperOnly(RunRegister(e))
  {
    BurstEnters(e, i, w, k);
    forall r: nat | UpperOnly(r) ensures UpperOnly(FeedRegister(r, 0)) {
      UpperFeedsUpper(r);
    }
    FoldKeeps(FeedRegister, UpperOnly, e, i + 3, |e|);
    assert e[..|e|] == e;
  }

  /** A burst with at least one byte behind it shows in the nibble that is kept. */
  lemma BurstShows(e: seq<nat>, i: nat, w: nat, k: nat)
    requires BurstAt(e, i, w, k) && i + 2 < |e|
    ensures Nibble(RunBig(e)) != 0
  {
    BurstStays(e, i, w, k);
    var u: nat :| 1 <= u < 16 && RunRegister(e) == Upper(u);
    UpperParts(u);
    RegisterAgrees(e);
    NibbleOfLow(RunBig(e));
  }

  lemma DifferenceShows(bytes: seq<nat>, e: seq<nat>)
    requires |bytes| == |e| && Nibble(RunBig(e)) != 0
    ensures Nibble(RunBig(XorAll(bytes, e))) != Nibble(RunBig(bytes))
  {
    RunIsLinear(bytes, e);
    NibbleIsLinear(RunBig(bytes), RunBig(e));
    if Xor(Nibble(RunBig(bytes)), Nibble(RunBig(e))) == Nibble(RunBig(bytes)) {
      XorChanges(Nibble(RunBig(bytes)), Nibble(RunBig(e)));
    }
  }

  // ---- Bursts in the words ----

  /** The words as one number, first word highest. */
  function Number(words: Words): nat {
    if words == [] then 0 else Shl(Number(words[..|words| - 1]), 16) + words[|words| - 1]
  }

  /** A number with one more byte behind it. */
  function Join(n: nat, byte: nat): nat {
    Shl(n, 8) + byte
  }

  function ByteNumber(bytes: seq<nat>): nat {
    if bytes == [] then 0 else Join(ByteNumber(bytes[..|bytes| - 1]), bytes[|bytes| - 1])
  }

  predicate ByteSized(bytes: seq<nat>) {
    forall i :: 0 <= i < |bytes| ==> bytes[i] < 0x100
  }

  lemma OneMoreByte(bytes: seq<nat>, n: nat, byte: nat)
    requires ByteNumber(bytes) == n
    ensures ByteNumber(bytes + [byte]) == Join(n, byte)
  {
    assert (bytes + [byte])[..|bytes|] == bytes;
  }

  lemma {:induction false} ZeroNumber(bytes: seq<nat>)
    requires ByteNumber(bytes) == 0
    ensures forall i :: 0 <= i < |bytes| ==> bytes[i] == 0
  {
    if bytes != [] {
      var init := bytes[..|bytes| - 1];
      ShlZero(8);
      ShlMonotone(ByteNumber(init), 0, 8);
      ZeroNumber(init);
      assert forall i :: 0 <= i < |init| ==> bytes[i] == init[i];
    }
  }

  /** A number below 256 lies in its last byte. */
  lemma SmallNumber(bytes: seq<nat>)
    requires bytes != [] && ByteSized(bytes) && ByteNumber(bytes) < 0x100
    ensures bytes[|bytes| - 1] == ByteNumber(bytes)
    ensures forall i :: 0 <= i < |bytes| - 1 ==> bytes[i] == 0
  {
    var init, last := bytes[..|bytes| - 1], bytes[|bytes| - 1];
    PowersOfTwo();
    SplitIsUnique(ByteNumber(bytes), ByteNumber(init), last, 8);
    LowOfSmall(ByteNumber(bytes), 8);
    ZeroNumber(init);
    assert forall i :: 0 <= i < |init| ==> bytes[i] == init[i];
  }

  lemma TwoBytes(a: nat, b: nat, w: nat, p: nat)
    requires a < 16 && b < 0x100 && 1 <= w < 16 && 0x100 * a + b == Shl(w, p)
    ensures p <= 12
  {
    if p > 12 {
      ShlAddsUp(w, p - 12, 12);
      ShlConstants(Shl(w, p - 12));
      ShlAtLeast(w, p - 12);
    }
  }

  lemma NumberOfTwo(e: seq<nat>)
    requires |e| == 2
    ensures ByteNumber(e) == 0x100 * e[0] + e[1]
  {
    assert e == [] + [e[0]] + [e[1]];
    ShlZero(8);
    OneMoreByte([], 0, e[0]);
    OneMoreByte([] + [e[0]], e[0], e[1]);
    ShlConstants(e[0]);
  }

  lemma LastIsZero(e: seq<nat>, w: nat, p: nat)
    requires |e| > 0 && ByteSized(e) && p >= 8 && ByteNumber(e) == Shl(w, p)
    ensures e[|e| - 1] == 0 && ByteNumber(e[..|e| - 1]) == Shl(w, p - 8)
  {
    PowersOfTwo();
    ShlAddsUp(w, p - 8, 8);
    SplitIsUnique(ByteNumber(e), ByteNumber(e[..|e| - 1]), e[|e| - 1], 8);
    SplitIsUnique(Shl(w, p), Shl(w, p - 8), 0, 8);
  }

  lemma ShortBurst(w: nat, p: nat)
    requires w < 16 && p < 8
    ensures Shl(w, p) < 0x1000
  {
    ShlAddsUp(w, p, 8 - p);
    ShlConstants(w);
    ShlAtLeast(Shl(w, p), 8 - p);
  }

  lemma InLastTwo(e: seq<nat>, w: nat, p: nat)
    requires |e| > 2 && ByteSized(e) && w < 16 && p < 8 && ByteNumber(e) == Shl(w, p)
    ensures 0x100 * e[|e| - 2] + e[|e| - 1] == Shl(w, p)
    ensures forall i :: 0 <= i < |e| - 2 ==> e[i] == 0
  {
    var init := e[..|e| - 1];
    ShortBurst(w, p);
    ShlConstants(ByteNumber(init));
    SmallNumber(init);
    assert forall i :: 0 <= i < |init| ==> e[i] == init[i];
  }

  /** Where in the bytes a burst in the number lies. */
  lemma {:induction false} Locate(e: seq<nat>, w: nat, p: nat) returns (i: nat, k: nat)
    requires |e| >= 2 && ByteSized(e) && e[0] < 16 && 1 <= w < 16 && ByteNumber(e) == Shl(w, p)
    ensures BurstAt(e, i, w, k)
    decreases |e|
  {
    var init, last := e[..|e| - 1], e[|e| - 1];
    if |e| == 2 {
      i, k := 0, p;
      NumberOfTwo(e);
      TwoBytes(e[0], e[1], w, p);
    } else if p >= 8 {
      LastIsZero(e, w, p);
      i, k := Locate(init, w, p - 8);
      assert forall j :: 0 <= j < |init| ==> e[j] == init[j];
    } else {
      i, k := |e| - 2, p;
      InLastTwo(e, w, p);
    }
  }

  lemma BytesOfWord(word: nat)
    requires word < 0x1_0000
    ensures word == Shl(Shr(word, 8), 8) + Low(word, 8) && Shr(word, 8) < 0x100 && Low(word, 8) < 0x100
  {
    PowersOfTwo();
    Split(word, 8);
    ShlConstants(Shr(word, 8));
  }

  lemma WordNumber(n: nat, word: nat, high: nat, low: nat)
    requires word == Shl(high, 8) + low
    ensures Join(Join(n, high), low) == Shl(n, 16) + word
  {
    ShlSum(Shl(n, 8), high, 8);
    ShlAddsUp(n, 8, 8);
  }

  lemma BytesSnoc(words: Words, word: nat)
    ensures Bytes(words + [word]) == Bytes(words) + [Shr(word, 8)] + [Low(word, 8)]
  {
    var more := words + [word];
    assert |Bytes(more)| == |Bytes(words)| + 2;
    forall i | 0 <= i < |Bytes(words)| ensures Bytes(more)[i] == Bytes(words)[i] {
      assert more[i / 2] == words[i / 2];
    }
  }

  lemma SpellsOneMore(bytes: seq<nat>, n: nat, word: nat)
    requires ByteNumber(bytes) == n && ByteSized(bytes) && word < 0x1_0000
    ensures ByteNumber(bytes + [Shr(word, 8)] + [Low(word, 8)]) == Shl(n, 16) + word
    ensures ByteSized(bytes + [Shr(word, 8)] + [Low(word, 8)])
  {
    BytesOfWord(word);
    WordNumber(n, word, Shr(word, 8), Low(word, 8));
    OneMoreByte(bytes, n, Shr(word, 8));
    OneMoreByte(bytes + [Shr(word, 8)], Join(n, Shr(word, 8)), Low(word, 8));
  }

  lemma {:induction false} BytesSpell(words: Words)
    requires WordSized(words)
    ensures ByteNumber(Bytes(words)) == Number(words) && ByteSized(Bytes(words))
    decreases |words|
  {
    if words == [] {
      assert Bytes(words) == [];
    } else {
      var init, last := words[..|words| - 1], words[|words| - 1];
      assert words == init + [last];
      BytesSpell(init);
      BytesSnoc(init, last);
      SpellsOneMore(Bytes(init), Number(init), last);
    }
  }

  /** An operation that works on each byte of its own. */
  ghost predicate Bytewise(plus: (nat, nat) -> nat) {
    && plus(0, 0) == 0
    && (forall x, y :: x < 0x100 && y < 0x100 ==> plus(x, y) < 0x100)
    && forall m, n, x, y :: x < 0x100 && y < 0x100 ==> plus(Join(m, x), Join(n, y)) == Join(plus(m, n), plus(x, y))
  }

  lemma {:induction false} NumberOfZip(plus: (nat, nat) -> nat, a: seq<nat>, b: seq<nat>)
    requires Bytewise(plus) && |a| == |b| && ByteSized(a) && ByteSized(b)
    ensures ByteNumber(Zip(plus, a, b)) == plus(ByteNumber(a), ByteNumber(b)) && ByteSized(Zip(plus, a, b))
    decreases |a|
  {
    if a != [] {
      var m := |a| - 1;
      NumberOfZip(plus, a[..m], b[..m]);
      assert Zip(plus, a, b)[..m] == Zip(plus, a[..m], b[..m]);
    }
  }

  lemma XorIsBytewise()
    ensures Bytewise(Xor)
  {
    PowersOfTwo();
    XorZero(0);
    forall x: nat, y: nat | x < 0x100 && y < 0x100 ensures Xor(x, y) < 0x100 {
      XorOfSmall(x, y, 8);
    }
    forall m: nat, n: nat, x: nat, y: nat | x < 0x100 && y < 0x100
      ensures Xor(Join(m, x), Join(n, y)) == Join(Xor(m, n), Xor(x, y))
    {
      XorJoined(Join(m, x), m, x, Join(n, y), n, y, 8);
    }
  }

  lemma XorOfNumbers(a: seq<nat>, b: seq<nat>)
    requires |a| == |b| && ByteSized(a) && ByteSized(b)
    ensures ByteNumber(XorAll(a, b)) == Xor(ByteNumber(a), ByteNumber(b)) && ByteSized(XorAll(a, b))
  {
    XorIsBytewise();
    NumberOfZip(Xor, a, b);
  }

  /** The upper byte with and without the stored nibble. */
  lemma UpperByte(x: nat)
    requires x < 0x1_0000
    ensures Shr(x, 8) == Shl(Nibble(x), 4) + Shr(Low(x, 12), 8) && Shr(Low(x, 12), 8) < 16
  {
    PowersOfTwo();
    ShrLow(x, 8, 4);
    Split(Shr(x, 8), 4);
    ShrAddsUp(x, 8, 4);
    LowOfSmall(x, 16);
    ShrLow(x, 12, 4);
  }

  lemma SameUpper(a: nat, b: nat, n: nat, u: nat, v: nat)
    requires u < 16 && v < 16 && a == Shl(n, 4) + u && b == Shl(n, 4) + v
    ensures Xor(a, b) == Xor(u, v) < 16
  {
    PowersOfTwo();
    XorJoined(a, n, u, b, n, v, 4);
    XorSelf(n);
    ShlZero(4);
  }

  /** Where the stored nibbles agree, the words differ as they do without them. */
  lemma FirstBytes(x: nat, y: nat)
    requires x < 0x1_0000 && y < 0x1_0000 && Nibble(x) == Nibble(y)
    ensures Xor(Shr(x, 8), Shr(y, 8)) == Xor(Shr(Low(x, 12), 8), Shr(Low(y, 12), 8)) < 16
  {
    UpperByte(x);
    UpperByte(y);
    SameUpper(Shr(x, 8), Shr(y, 8), Nibble(x), Shr(Low(x, 12), 8), Shr(Low(y, 12), 8));
  }

  /** The bytes of the prepared words. */
  lemma PreparedByte(prom: Words, i: nat)
    requires |prom| == 7 && i < 16
    ensures Bytes(Prepared(prom))[i]
      == if i == 0 then Shr(Low(prom[0], 12), 8) else if i < 14 then Bytes(prom)[i] else 0
  {
    if i == 1 {
      LowLow(prom[0], 8, 4);
    } else if i >= 14 {
      PowersOfTwo();
      LowOfSmall(0, 8);
    }
  }

  lemma Undo(a: nat, b: nat, e: nat)
    requires e == Xor(a, b)
    ensures Xor(a, e) == b
  {
    XorUndoes(a, b);
  }

  lemma PreparedByteDiffers(prom: Words, other: Words, e: seq<nat>, i: nat)
    requires |prom| == |other| == 7 && WordSized(prom) && WordSized(other) && Nibble(prom[0]) == Nibble(other[0])
    requires e == XorAll(Bytes(prom), Bytes(other)) + [0, 0] && i < 16
    ensures e[i] == Xor(Bytes(Prepared(prom))[i], Bytes(Prepared(other))[i])
    ensures i == 0 ==> e[i] < 16
  {
    PreparedByte(prom, i);
    PreparedByte(other, i);
    if i == 0 {
      FirstBytes(prom[0], other[0]);
    } else if i >= 14 {
      XorZero(0);
    }
  }

  /** The difference of the bytes, with two zero bytes behind it, turns one prepared PROM into the other. */
  lemma PreparedDiffer(prom: Words, other: Words, e: seq<nat>)
    requires |prom| == |other| == 7 && WordSized(prom) && WordSized(other) && Nibble(prom[0]) == Nibble(other[0])
    requires e == XorAll(Bytes(prom), Bytes(other)) + [0, 0]
    ensures e[0] < 16 && XorAll(Bytes(Prepared(prom)), e) == Bytes(Prepared(other))
  {
    forall i: nat | i < 16 ensures Xor(Bytes(Prepared(prom))[i], e[i]) == Bytes(Prepared(other))[i] && (i == 0 ==> e[i] < 16) {
      PreparedByteDiffers(prom, other, e, i);
      Undo(Bytes(Prepared(prom))[i], Bytes(Prepared(other))[i], e[i]);
    }
  }

  lemma BurstChangesCrc(prom: Words, other: Words, e: seq<nat>, i: nat, w: nat, k: nat)
    requires |prom| == |other| == 7 && |e| == 16 && BurstAt(e, i, w, k) && i + 2 < |e|
    requires XorAll(Bytes(Prepared(prom)), e) == Bytes(Prepared(other))
    ensures Crc4Of(other) != Crc4Of(prom)
  {
    BurstShows(e, i, w, k);
    DifferenceShows(Bytes(Prepared(prom)), e);
  }

  lemma ZerosBehind(d: seq<nat>, i: nat, w: nat, k: nat)
    requires BurstAt(d, i, w, k)
    ensures BurstAt(d + [0, 0], i, w, k)
  {
  }

  /**
   If a PROM is accepted, no PROM is that differs from it by a burst: by at most four neighbouring bits of the
   seven words, read as one number, that leave the stored nibble alone.
   */
  lemma BurstIsRejected(prom: Words, other: Words, w: nat, p: nat)
    requires |prom| == |other| == 7 && WordSized(prom) && WordSized(other)
    requires Accepted(prom) && Nibble(other[0]) == Nibble(prom[0])
    requires 1 <= w < 16 && Xor(Number(prom), Number(other)) == Shl(w, p)
    ensures !Accepted(other)
  {
    var d := XorAll(Bytes(prom), Bytes(other));
    var e := d + [0, 0];
    BytesSpell(prom);
    BytesSpell(other);
    XorOfNumbers(Bytes(prom), Bytes(other));
    PreparedDiffer(prom, other, e);
    var i, k := Locate(d, w, p);
    ZerosBehind(d, i, w, k);
    BurstChangesCrc(prom, other, e, i, w, k);
  }
}
