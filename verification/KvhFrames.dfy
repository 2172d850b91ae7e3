/** One 40-byte Format B datagram of the KVH 1775: header, layout, checksum. */
module KvhFrames {
  import opened PolyDivision
  import opened Words
  import opened Crc32
  import opened KvhConstants

  const HEADER_BYTES: seq<bv8> := [0xfe, 0x81, 0xff, 0x56]

  /** Big-endian value of a byte string, truncated to 32 bits as the accumulating loop truncates it. */
  function BigEndian(bytes: seq<bv8>): bv32
    decreases |bytes|
  {
    if bytes == [] then 0 else Accumulate(BigEndian(bytes[..|bytes| - 1]), bytes[|bytes| - 1])
  }

  function Accumulate(word: bv32, b: bv8): bv32 {
    (word << 8) | (b as bv32)
  }

  lemma AccumulateBits(word: bv32, b: bv8)
    ensures WordBits(Accumulate(word, b)) == WordBits(word)[8..] + ByteBits(b)
  {
    AppendByte(word, b);
  }

  lemma MoveUp(word: Bits, zeros: nat, m: Bits, b: Octet)
    requires zeros >= 8 && word == Zeros(zeros) + m
    ensures word[8..] + b == Zeros(zeros - 8) + (m + b)
  {
  }

  /** The low bits of the word are m and the others are zero. */
  ghost predicate Spells(word: bv32, m: Bits) {
    |m| <= 32 && WordBits(word) == Zeros(32 - |m|) + m
  }

  lemma ZeroSpellsNothing()
    ensures Spells(0, [])
  {
    LeadingOfZero(32);
    assert Zeros(32) + [] == Zeros(32);
  }

  lemma AccumulateSpells(word: bv32, b: bv8, m: Bits)
    requires Spells(word, m) && |m| <= 24
    ensures Spells(Accumulate(word, b), m + ByteBits(b))
  {
    AccumulateBits(word, b);
    MoveUp(WordBits(word), 32 - |m|, m, ByteBits(b));
  }

  lemma BigEndianFour(a: bv8, b: bv8, c: bv8, d: bv8)
    ensures BigEndian([a, b, c, d]) == Accumulate(Accumulate(Accumulate(Accumulate(0, a), b), c), d)
  {
    assert [a, b, c, d][..3] == [a, b, c] && [a, b, c][..2] == [a, b] && [a, b][..1] == [a] && [a][..0] == [];
    assert BigEndian([a]) == Accumulate(0, a);
    assert BigEndian([a, b]) == Accumulate(BigEndian([a]), b);
    assert BigEndian([a, b, c]) == Accumulate(BigEndian([a, b]), c);
  }

  lemma DataBitsFour(a: bv8, b: bv8, c: bv8, d: bv8)
    ensures DataBits([a, b, c, d]) == [] + ByteBits(a) + ByteBits(b) + ByteBits(c) + ByteBits(d)
  {
    assert DataBits([]) == [];
    assert [] + [a] == [a] && [a] + [b] == [a, b] && [a, b] + [c] == [a, b, c] && [a, b, c] + [d] == [a, b, c, d];
    DataBitsSnoc([], a);
    DataBitsSnoc([a], b);
    DataBitsSnoc([a, b], c);
    DataBitsSnoc([a, b, c], d);
  }

  lemma FourAccumulated(a: bv8, b: bv8, c: bv8, d: bv8)
    ensures Spells(Accumulate(Accumulate(Accumulate(Accumulate(0, a), b), c), d),
                   [] + ByteBits(a) + ByteBits(b) + ByteBits(c) + ByteBits(d))
  {
    var w1 := Accumulate(0, a);
    var w2 := Accumulate(w1, b);
    var w3 := Accumulate(w2, c);
    ZeroSpellsNothing();
    AccumulateSpells(0, a, []);
    AccumulateSpells(w1, b, [] + ByteBits(a));
    AccumulateSpells(w2, c, [] + ByteBits(a) + ByteBits(b));
    AccumulateSpells(w3, d, [] + ByteBits(a) + ByteBits(b) + ByteBits(c));
  }

  lemma FourSpell(a: bv8, b: bv8, c: bv8, d: bv8)
    ensures WordBits(BigEndian([a, b, c, d])) == DataBits([a, b, c, d])
  {
    FourAccumulated(a, b, c, d);
    BigEndianFour(a, b, c, d);
    DataBitsFour(a, b, c, d);
    assert Zeros(0) + DataBits([a, b, c, d]) == DataBits([a, b, c, d]);
  }

  lemma AsFour<T>(s: seq<T>)
    requires |s| == 4
    ensures s == [s[0], s[1], s[2], s[3]]
  {
  }

  /** Four accumulated bytes are spelt by the word. */
  lemma FourBytesSpell(bytes: seq<bv8>)
    requires |bytes| == 4
    ensures WordBits(BigEndian(bytes)) == DataBits(bytes)
  {
    AsFour(bytes);
    FourSpell(bytes[0], bytes[1], bytes[2], bytes[3]);
  }

  predicate HasHeader(buf: seq<bv8>) {
    4 <= |buf| && buf[..4] == HEADER_BYTES
  }

  /** The stored checksum is the one computed over the bytes that precede it. */
  predicate FrameOk(frame: seq<bv8>) {
    |frame| == DATAGRAM_SIZE && CrcWord(INIT, frame[..36]) == BigEndian(frame[36..])
  }

  lemma EqualWords(x: bv32, y: bv32)
    ensures x == y <==> WordBits(x) == WordBits(y)
  {
    if WordBits(x) == WordBits(y) {
      WordBitsInjective(x, y);
    }
  }

  lemma RemainderOfBoth(body: seq<bv8>, stored: seq<bv8>)
    ensures Divide(WordBits(INIT), DataBits(body + stored)) == Divide(WordBits(CrcWord(INIT, body)), DataBits(stored))
  {
    CrcIsRemainder(INIT, body);
    DataBitsAppend(body, stored);
    DivideInPieces(WordBits(INIT), DataBits(body), DataBits(stored));
  }

  lemma ClearedByWord(computed: bv32, stored: seq<bv8>)
    requires |stored| == 4
    ensures Divide(WordBits(computed), DataBits(stored)) == Zeros(32) <==> computed == BigEndian(stored)
  {
    FourBytesSpell(stored);
    EqualWords(computed, BigEndian(stored));
    ClearedExactlyByItself(WordBits(computed), DataBits(stored));
    assert DataBits(stored) + Zeros(0) == DataBits(stored);
  }

  /** A frame passes exactly when the register, run over all 40 bytes, ends at zero. */
  lemma PassesExactlyAtZero(frame: seq<bv8>)
    requires |frame| == DATAGRAM_SIZE
    ensures FrameOk(frame) <==> Divide(WordBits(INIT), DataBits(frame)) == Zeros(32)
  {
    assert frame == frame[..36] + frame[36..];
    RemainderOfBoth(frame[..36], frame[36..]);
    ClearedByWord(CrcWord(INIT, frame[..36]), frame[36..]);
  }

  /** In other words: exactly when the generator divides the frame with its first four bytes inverted. */
  lemma PassesExactlyIfDivisible(frame: seq<bv8>)
    requires |frame| == DATAGRAM_SIZE
    ensures FrameOk(frame) <==> Divide(Zeros(32), FirstInverted(DataBits(frame))) == Zeros(32)
  {
    PassesExactlyAtZero(frame);
    AllOnes(INIT);
    OnesInvertFirst(WordBits(INIT), DataBits(frame));
  }

  /** Changing a passing frame by any burst of at most 32 bits, at any bit offset, makes it fail. */
  lemma BurstDetected(frame: seq<bv8>, changed: seq<bv8>, offset: nat)
    requires FrameOk(frame) && |changed| == DATAGRAM_SIZE
    requires BurstError(DataBits(frame), DataBits(changed), offset)
    ensures !FrameOk(changed)
  {
    PassesExactlyAtZero(frame);
    PassesExactlyAtZero(changed);
    BurstChangesRemainder(WordBits(INIT), DataBits(frame), DataBits(changed), offset);
  }

  function WordBytes(w: bv32): seq<bv8> {
    [(w >> 24) as bv8, ((w >> 16) & 0xff) as bv8, ((w >> 8) & 0xff) as bv8, (w & 0xff) as bv8]
  }

  lemma AccumulateBytes(w: bv32)
    ensures Accumulate(Accumulate(Accumulate(Accumulate(0, (w >> 24) as bv8), ((w >> 16) & 0xff) as bv8),
                       ((w >> 8) & 0xff) as bv8), (w & 0xff) as bv8) == w
  {
  }

  lemma WordBytesSpell(w: bv32)
    ensures BigEndian(WordBytes(w)) == w
  {
    BigEndianFour((w >> 24) as bv8, ((w >> 16) & 0xff) as bv8, ((w >> 8) & 0xff) as bv8, (w & 0xff) as bv8);
    AccumulateBytes(w);
  }

  /** Every 36 bytes can be completed to a frame that passes. */
  function Seal(body: seq<bv8>): (frame: seq<bv8>)
    requires |body| == 36
    ensures FrameOk(frame) && frame[..36] == body
  {
    WordBytesSpell(CrcWord(INIT, body));
    var frame := body + WordBytes(CrcWord(INIT, body));
    assert frame[..36] == body && frame[36..] == WordBytes(CrcWord(INIT, body));
    frame
  }

  lemma ByteBitsInjective(a: bv8, b: bv8)
    requires ByteBits(a) == ByteBits(b)
    ensures a == b
  {
    HighByteWord(a);
    HighByteWord(b);
    WordBitsInjective((a as bv32) << 24, (b as bv32) << 24);
    assert (((a as bv32) << 24) >> 24) as bv8 == a && (((b as bv32) << 24) >> 24) as bv8 == b;
  }

  lemma OctetsDifferWhereBytesDo(a: seq<bv8>, b: seq<bv8>, i: nat)
    requires |a| == |b| && i < |a|
    ensures Octets(a)[i] != Octets(b)[i] <==> a[i] != b[i]
  {
    if ByteBits(a[i]) == ByteBits(b[i]) {
      ByteBitsInjective(a[i], b[i]);
    }
  }

  lemma OctetsDifferWithin(a: seq<bv8>, b: seq<bv8>, at: nat)
    requires |a| == |b| && a != b
    requires forall i :: 0 <= i < |a| && a[i] != b[i] ==> at <= i < at + 4
    ensures Octets(a) != Octets(b)
    ensures forall i :: 0 <= i < |a| && Octets(a)[i] != Octets(b)[i] ==> at <= i < at + 4
  {
    forall i | 0 <= i < |a| && Octets(a)[i] != Octets(b)[i] ensures at <= i < at + 4 {
      OctetsDifferWhereBytesDo(a, b, i);
    }
    var i :| 0 <= i < |a| && a[i] != b[i];
    OctetsDifferWhereBytesDo(a, b, i);
  }

  lemma DataBitsInjective(a: seq<bv8>, b: seq<bv8>)
    requires |a| == |b| <= 4 && a != b
    ensures DataBits(a) != DataBits(b)
  {
    OctetsDifferWithin(a, b, 0);
    FlattenInjective(Octets(a), Octets(b));
  }

  lemma HeaderWord()
    ensures BigEndian(HEADER_BYTES) == HEADER
  {
    var h := HEADER_BYTES;
    assert h[..3] == [0xfe, 0x81, 0xff] && h[..3][..2] == [0xfe, 0x81] && h[..3][..2][..1] == [0xfe];
    assert h[..3][..2][..1][..0] == [];
    assert BigEndian(h[..3][..2][..1]) == 0xfe;
    assert BigEndian(h[..3][..2]) == 0xfe81;
    assert BigEndian(h[..3]) == 0xfe81ff;
  }

  /** The accumulated word equals the header constant exactly when the four bytes are the header. */
  lemma HeaderRecognised(bytes: seq<bv8>)
    requires |bytes| == 4
    ensures BigEndian(bytes) == HEADER <==> bytes == HEADER_BYTES
  {
    HeaderWord();
    if bytes != HEADER_BYTES {
      FourBytesSpell(bytes);
      FourBytesSpell(HEADER_BYTES);
      DataBitsInjective(bytes, HEADER_BYTES);
    }
  }

  /** In particular, changing up to four consecutive bytes of a passing frame makes it fail. */
  lemma FourByteChangeDetected(frame: seq<bv8>, changed: seq<bv8>, at: nat)
    requires FrameOk(frame) && |changed| == DATAGRAM_SIZE && changed != frame
    requires forall i :: 0 <= i < DATAGRAM_SIZE && frame[i] != changed[i] ==> at <= i < at + 4
    ensures !FrameOk(changed)
  {
    OctetsDifferWithin(frame, changed, at);
    OctetBurst(Octets(frame), Octets(changed), at);
    BurstDetected(frame, changed, 8 * at);
  }
}
