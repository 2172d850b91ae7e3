/** The fields of a datagram: where they lie, and that the 40 bytes are those fields, printed in order. */
module KvhDatagrams {
  import opened KvhConstants
  import opened KvhFrames

  /**
   The fields of a datagram. The six inertial values are kept as the 32-bit patterns that the original
   reinterprets as floats; the temperature as the 16-bit pattern that it reinterprets as signed.
   */
  datatype SensorData = SensorData(
    gyro: seq<bv32>, accel: seq<bv32>, timestampUs: bv32, counter: bv8, temperatureRaw: bv16, crc: bv32)

  function LowHalf(word: bv32): bv16 {
    (word & 0xffff) as bv16
  }

  /** Where each field lies in the 40 bytes. */
  function Layout(f: seq<bv8>): SensorData
    requires |f| == DATAGRAM_SIZE
  {
    SensorData(
      [BigEndian(f[4..8]), BigEndian(f[8..12]), BigEndian(f[12..16])],
      [BigEndian(f[16..20]), BigEndian(f[20..24]), BigEndian(f[24..28])],
      BigEndian(f[28..32]),
      f[33],
      LowHalf(BigEndian(f[34..36])),
      BigEndian(f[36..40]))
  }

  predicate StatusNominal(f: seq<bv8>)
    requires |f| == DATAGRAM_SIZE
  {
    f[32] == NOMINAL_STATUS
  }

  // ---- Printing ----

  function HalfBytes(h: bv16): seq<bv8> {
    [(h >> 8) as bv8, (h & 0xff) as bv8]
  }

  /** A frame with these fields. */
  function Print(d: SensorData, status: bv8): seq<bv8>
    requires |d.gyro| == |d.accel| == 3
  {
    HEADER_BYTES
    + WordBytes(d.gyro[0]) + WordBytes(d.gyro[1]) + WordBytes(d.gyro[2])
    + WordBytes(d.accel[0]) + WordBytes(d.accel[1]) + WordBytes(d.accel[2])
    + WordBytes(d.timestampUs) + [status, d.counter] + HalfBytes(d.temperatureRaw) + WordBytes(d.crc)
  }

  lemma AccumulatedBytes(a: bv8, b: bv8, c: bv8, d: bv8)
    ensures WordBytes(Accumulate(Accumulate(Accumulate(Accumulate(0, a), b), c), d)) == [a, b, c, d]
  {
  }

  /** Four bytes are the word that they spell. */
  lemma WordOfBytes(bytes: seq<bv8>)
    requires |bytes| == 4
    ensures WordBytes(BigEndian(bytes)) == bytes
  {
    AsFour(bytes);
    BigEndianFour(bytes[0], bytes[1], bytes[2], bytes[3]);
    AccumulatedBytes(bytes[0], bytes[1], bytes[2], bytes[3]);
  }

  lemma BigEndianTwo(a: bv8, b: bv8)
    ensures BigEndian([a, b]) == Accumulate(Accumulate(0, a), b)
  {
    assert [a, b][..1] == [a] && [a][..0] == [];
    assert BigEndian([a]) == Accumulate(0, a);
  }

  lemma HalfOfAccumulated(a: bv8, b: bv8)
    ensures HalfBytes(LowHalf(Accumulate(Accumulate(0, a), b))) == [a, b]
  {
  }

  lemma AccumulatedHalf(h: bv16)
    ensures LowHalf(Accumulate(Accumulate(0, (h >> 8) as bv8), (h & 0xff) as bv8)) == h
  {
  }

  lemma HalfOfBytes(bytes: seq<bv8>)
    requires |bytes| == 2
    ensures HalfBytes(LowHalf(BigEndian(bytes))) == bytes
  {
    assert bytes == [bytes[0], bytes[1]];
    BigEndianTwo(bytes[0], bytes[1]);
    HalfOfAccumulated(bytes[0], bytes[1]);
  }

  lemma HalfBytesSpell(h: bv16)
    ensures LowHalf(BigEndian(HalfBytes(h))) == h
  {
    BigEndianTwo((h >> 8) as bv8, (h & 0xff) as bv8);
    AccumulatedHalf(h);
  }

  /** The parts of the 40 bytes. */
  lemma Parts(f: seq<bv8>)
    requires |f| == DATAGRAM_SIZE
    ensures f == f[..4] + f[4..8] + f[8..12] + f[12..16] + f[16..20] + f[20..24] + f[24..28] + f[28..32]
      + [f[32], f[33]] + f[34..36] + f[36..40]
  {
  }

  lemma PartsOf(f: seq<bv8>, h: seq<bv8>, x: seq<bv8>, y: seq<bv8>, z: seq<bv8>, u: seq<bv8>, v: seq<bv8>, w: seq<bv8>, t: seq<bv8>,
                s: bv8, n: bv8, k: seq<bv8>, c: seq<bv8>)
    requires |h| == |x| == |y| == |z| == |u| == |v| == |w| == |t| == |c| == 4 && |k| == 2
    requires f == h + x + y + z + u + v + w + t + [s, n] + k + c
    ensures |f| == DATAGRAM_SIZE && f[..4] == h && f[4..8] == x && f[8..12] == y && f[12..16] == z
    ensures f[16..20] == u && f[20..24] == v && f[24..28] == w && f[28..32] == t && f[32] == s && f[33] == n
    ensures f[34..36] == k && f[36..40] == c
  {
  }

  /** Round trip: whatever the fields are, they are read from the frame that is printed from them. */
  lemma PrintedIsRead(d: SensorData, status: bv8)
    requires |d.gyro| == |d.accel| == 3
    ensures |Print(d, status)| == DATAGRAM_SIZE && HasHeader(Print(d, status))
    ensures Layout(Print(d, status)) == d && (StatusNominal(Print(d, status)) <==> status == 0x77)
  {
    PartsOf(Print(d, status), HEADER_BYTES, WordBytes(d.gyro[0]), WordBytes(d.gyro[1]), WordBytes(d.gyro[2]),
      WordBytes(d.accel[0]), WordBytes(d.accel[1]), WordBytes(d.accel[2]), WordBytes(d.timestampUs),
      status, d.counter, HalfBytes(d.temperatureRaw), WordBytes(d.crc));
    WordBytesSpell(d.gyro[0]);
    WordBytesSpell(d.gyro[1]);
    WordBytesSpell(d.gyro[2]);
    WordBytesSpell(d.accel[0]);
    WordBytesSpell(d.accel[1]);
    WordBytesSpell(d.accel[2]);
    WordBytesSpell(d.timestampUs);
    WordBytesSpell(d.crc);
    HalfBytesSpell(d.temperatureRaw);
  }

  predicate PrintsTo(d: SensorData, status: bv8, f: seq<bv8>) {
    |d.gyro| == |d.accel| == 3 && Print(d, status) == f
  }

  /** And every 40 bytes with the header are printed from the fields that are read from them. */
  lemma ReadIsPrinted(f: seq<bv8>)
    requires |f| == DATAGRAM_SIZE && HasHeader(f)
    ensures PrintsTo(Layout(f), f[32], f)
  {
    Parts(f);
    WordOfBytes(f[4..8]);
    WordOfBytes(f[8..12]);
    WordOfBytes(f[12..16]);
    WordOfBytes(f[16..20]);
    WordOfBytes(f[20..24]);
    WordOfBytes(f[24..28]);
    WordOfBytes(f[28..32]);
    HalfOfBytes(f[34..36]);
    WordOfBytes(f[36..40]);
  }
}
