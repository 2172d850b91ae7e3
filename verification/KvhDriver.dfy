/** The packet receiver of the KVH driver: the object whose methods read, scan, check and parse. */
module KvhDriver {
  import opened Crc32
  import opened KvhConstants
  import opened KvhFrames
  import opened KvhDatagrams
  import opened KvhScanner
  import opened CircularBuffers

  /** The two tests of the real driver. */
  const KVH: Judge := Judge(w => HasHeader(w), w => FrameOk(w))

  lemma OneByteWord(b: bv8)
    ensures (BigEndian([b]) & 0xff) as bv8 == b
  {
    assert [b][..0] == [];
    assert BigEndian([b]) == Accumulate(0, b);
  }

  /** Accumulates size bytes, most significant first, from a cursor that moves past them. */
  method ParseUnsigned(tmp: array<bv8>, cursor: nat, size: nat) returns (word: bv32, next: nat)
    requires cursor + size <= tmp.Length
    ensures word == BigEndian(tmp[cursor..cursor + size]) && next == cursor + size
  {
    word, next := 0, cursor;
    var end := cursor + size;
    while next < end
      invariant cursor <= next <= end
      invariant word == BigEndian(tmp[cursor..next])
    {
      word := Accumulate(word, tmp[next]);
      assert tmp[cursor..next + 1][..next - cursor] == tmp[cursor..next];
      next := next + 1;
    }
  }

  method ParseThree(tmp: array<bv8>, cursor: nat) returns (words: seq<bv32>, next: nat)
    requires cursor + 12 <= tmp.Length
    ensures words == [BigEndian(tmp[cursor..cursor + 4]), BigEndian(tmp[cursor + 4..cursor + 8]),
                      BigEndian(tmp[cursor + 8..cursor + 12])]
    ensures next == cursor + 12
  {
    var x, y, z;
    x, next := ParseUnsigned(tmp, cursor, 4);
    y, next := ParseUnsigned(tmp, next, 4);
    z, next := ParseUnsigned(tmp, next, 4);
    words := [x, y, z];
  }

  /** A one-byte field, narrowed to eight bits. */
  method ParseByte(tmp: array<bv8>, cursor: nat) returns (b: bv8, next: nat)
    requires cursor < tmp.Length
    ensures b == tmp[cursor] && next == cursor + 1
  {
    var word;
    word, next := ParseUnsigned(tmp, cursor, 1);
    assert tmp[cursor..next] == [tmp[cursor]];
    OneByteWord(tmp[cursor]);
    b := (word & 0xff) as bv8;
  }

  method ParseHalf(tmp: array<bv8>, cursor: nat) returns (half: bv16, next: nat)
    requires cursor + 2 <= tmp.Length
    ensures half == LowHalf(BigEndian(tmp[cursor..cursor + 2])) && next == cursor + 2
  {
    var word;
    word, next := ParseUnsigned(tmp, cursor, 2);
    half := LowHalf(word);
  }

  /** Reads the fields in order, starting behind the header; true when the status byte is nominal. */
  method ParseFields(tmp: array<bv8>) returns (data: SensorData, nominal: bool, next: nat)
    requires tmp.Length == DATAGRAM_SIZE
    ensures data == Layout(tmp[..]) && nominal == StatusNominal(tmp[..]) && next == DATAGRAM_SIZE
  {
    assert forall a: nat, b: nat :: a <= b <= DATAGRAM_SIZE ==> tmp[a..b] == tmp[..][a..b];
    var gyro, accel, timestamp, status, counter, temperature, crc;
    gyro, next := ParseThree(tmp, N_BYTES_HEADER);
    accel, next := ParseThree(tmp, next);
    timestamp, next := ParseUnsigned(tmp, next, 4);
    status, next := ParseByte(tmp, next);
    counter, next := ParseByte(tmp, next);
    temperature, next := ParseHalf(tmp, next);
    crc, next := ParseUnsigned(tmp, next, 4);
    data := SensorData(gyro, accel, timestamp, counter, temperature, crc);
    nominal := status == NOMINAL_STATUS;
  }

  /** And so behind a header the fields are those that make up the frame. */
  method ParseDatagram(tmp: array<bv8>) returns (data: SensorData, nominal: bool, next: nat)
    requires tmp.Length == DATAGRAM_SIZE
    ensures data == Layout(tmp[..]) && (nominal <==> tmp[32] == 0x77) && next == DATAGRAM_SIZE
    ensures HasHeader(tmp[..]) ==> PrintsTo(data, tmp[32], tmp[..])
  {
    data, nominal, next := ParseFields(tmp);
    if HasHeader(tmp[..]) {
      ReadIsPrinted(tmp[..]);
    }
  }

  /** The checksum over all bytes before the last four, one byte at a time. */
  method CalculateChecksum(tmp: array<bv8>, end: nat) returns (crc: bv32)
    requires end == DATAGRAM_SIZE == tmp.Length
    ensures crc == CrcWord(INIT, tmp[..36])
  {
    crc := INIT;
    var i := 0;
    while i < end - N_BYTES_CRC
      invariant 0 <= i <= 36
      invariant crc == CrcWord(INIT, tmp[..i])
    {
      crc := CrcUpdate(crc, [tmp[i]]);
      CrcInPieces(INIT, tmp[..i], [tmp[i]]);
      assert tmp[..i] + [tmp[i]] == tmp[..i + 1];
      i := i + 1;
    }
  }

  class Driver {
    const ring: CircularBuffer
    var checksumIsOk: bool
    var noInternalError: bool
    var sensorData: SensorData

    ghost predicate Valid()
      reads this, ring
    {
      ring.Valid() && ring.capacity == 2 * DATAGRAM_SIZE
    }

    constructor ()
      ensures Valid() && fresh(ring) && fresh(ring.cells)
      ensures ring.Contents() == []
      ensures !checksumIsOk && noInternalError
    {
      ring := new CircularBuffer(2 * DATAGRAM_SIZE);
      checksumIsOk, noInternalError := false, true;
      sensorData := SensorData([], [], 0, 0, 0, 0);
    }

    /** Adds what the serial port delivered to the ring, which drops its oldest bytes if there is no room. */
    method ReadBytes(chunk: Bytes) returns (n: nat)
      requires Valid() && |chunk| <= DATAGRAM_SIZE
      modifies ring, ring.cells
      ensures Valid() && n == |chunk|
      ensures ring.Contents() == PushAll(old(ring.Contents()), chunk, 2 * DATAGRAM_SIZE)
    {
      n := |chunk|;
      ghost var all := PushAll(ring.Contents(), chunk, ring.capacity);
      assert chunk[0..] == chunk;
      var i := 0;
      while i < DATAGRAM_SIZE && i < n
        invariant 0 <= i <= n && Valid()
        invariant PushAll(ring.Contents(), chunk[i..], ring.capacity) == all
      {
        PushNext(ring.Contents(), chunk, i, ring.capacity);
        ring.Add(chunk[i]);
        i := i + 1;
      }
    }

    /** The range-for over the ring that is left after four bytes. */
    method HeaderMatches() returns (matches: bool)
      requires Valid() && |ring.Contents()| >= DATAGRAM_SIZE
      ensures matches == HasHeader(ring.Contents()[..DATAGRAM_SIZE])
    {
      var first := ring.Collect(4);
      var parsed: bv32 := 0;
      var i := 0;
      while i < |first|
        invariant 0 <= i <= |first| && parsed == BigEndian(first[..i])
      {
        assert first[..i + 1][..i] == first[..i];
        parsed := Accumulate(parsed, first[i]);
        i := i + 1;
      }
      matches := parsed == HEADER;
      assert first[..i] == first;
      HeaderRecognised(first);
      assert first == ring.Contents()[..DATAGRAM_SIZE][..4];
    }

    /** Copies the datagram at the front of the ring into an array. */
    method CopyDatagram() returns (tmp: array<bv8>)
      requires Valid() && |ring.Contents()| >= DATAGRAM_SIZE
      ensures fresh(tmp) && tmp.Length == DATAGRAM_SIZE && tmp[..] == ring.Contents()[..DATAGRAM_SIZE]
    {
      var bytes := ring.Collect(DATAGRAM_SIZE);
      tmp := new bv8[DATAGRAM_SIZE];
      var i := 0;
      while i < DATAGRAM_SIZE
        invariant 0 <= i <= DATAGRAM_SIZE && tmp[..i] == bytes[..i]
      {
        tmp[i] := bytes[i];
        i := i + 1;
      }
    }

    /** Parses and checks the datagram at the front of the ring; the fields are updated whatever the checksum says. */
    method ParseAndCheck()
      requires Valid() && |ring.Contents()| >= DATAGRAM_SIZE
      modifies this
      ensures sensorData == Layout(ring.Contents()[..DATAGRAM_SIZE])
      ensures noInternalError == StatusNominal(ring.Contents()[..DATAGRAM_SIZE])
      ensures checksumIsOk == FrameOk(ring.Contents()[..DATAGRAM_SIZE])
    {
      var tmp := CopyDatagram();
      var next;
      sensorData, noInternalError, next := ParseDatagram(tmp);
      var crc := CalculateChecksum(tmp, next);
      checksumIsOk := crc == sensorData.crc;
      assert tmp[..36] == tmp[..][..36];
      CheckedAgainst(tmp[..]);
    }

    /** What the fields say after a call, given the windows whose checksum it computed. */
    ghost predicate Reports(judged: Judged, oldOk: bool, oldNominal: bool, oldData: SensorData)
      reads this
    {
      match judged
      case Nothing => checksumIsOk == oldOk && noInternalError == oldNominal && sensorData == oldData
      case Window(w) =>
        |w| == DATAGRAM_SIZE && checksumIsOk == FrameOk(w) && noInternalError == StatusNominal(w) && sensorData == Layout(w)
    }

    /**
     One call, after a read that delivered chunk (nothing when the read failed): the ring ends up with what
     the scan leaves over, the result says whether any checksum was computed, and the fields describe the
     last datagram whose checksum was.
     */
    method TryReadingNewPacket(chunk: Bytes) returns (r: bool)
      requires Valid() && |ring.Contents()| < DATAGRAM_SIZE && |chunk| <= DATAGRAM_SIZE
      modifies this, ring, ring.cells
      ensures Valid() && |ring.Contents()| < DATAGRAM_SIZE
      ensures ring.Contents() == Call(KVH, old(ring.Contents()), chunk).rest
      ensures r == Call(KVH, old(ring.Contents()), chunk).found
      ensures Reports(LastJudged(Call(KVH, old(ring.Contents()), chunk).pieces),
                      old(checksumIsOk), old(noInternalError), old(sensorData))
    {
      CallLeavesLittle(KVH, ring.Contents(), chunk);
      PushAllKeepsNewest(ring.Contents(), chunk, 2 * DATAGRAM_SIZE);
      var bytesRead := ReadBytes(chunk);
      if bytesRead < 1 {
        assert ring.Contents() == old(ring.Contents());
        return false;
      }
      r := FindDatagram();
    }

    /** The search through the ring for a datagram with a good checksum. */
    method FindDatagram() returns (r: bool)
      requires Valid()
      modifies this, ring
      ensures Valid() && ring.Contents() == Scan(KVH, old(ring.Contents()), false).rest
      ensures r == Scan(KVH, old(ring.Contents()), false).found
      ensures Reports(LastJudged(Scan(KVH, old(ring.Contents()), false).pieces),
                      old(checksumIsOk), old(noInternalError), old(sensorData))
    {
      ghost var whole := Scan(KVH, ring.Contents(), false);
      ghost var judged := Nothing;
      var foundDatagram := false;
      while DATAGRAM_SIZE <= ring.Size()
        invariant Valid()
        invariant SameEnd(whole, Scan(KVH, ring.Contents(), foundDatagram), judged)
        invariant Reports(judged, old(checksumIsOk), old(noInternalError), old(sensorData))
        decreases ring.Size()
      {
        foundDatagram := SeekHeader(foundDatagram, whole, judged);
        if !foundDatagram {
          return false;
        }
        SameEndStep(KVH, whole, ring.Contents(), true, judged);
        ParseAndCheck();
        judged := Window(ring.Contents()[..DATAGRAM_SIZE]);
        if checksumIsOk {
          RemoveDatagram();
          return true;
        }
        ring.Remove();
      }
      return foundDatagram;
    }

    /** The inner loop: drops bytes until the ring begins with the header or holds less than a datagram. */
    method SeekHeader(found: bool, ghost whole: Outcome, ghost judged: Judged) returns (foundDatagram: bool)
      requires Valid() && DATAGRAM_SIZE <= ring.Size()
      requires SameEnd(whole, Scan(KVH, ring.Contents(), found), judged)
      modifies ring
      ensures Valid() && ring.Size() <= old(ring.Size())
      ensures SameEnd(whole, Scan(KVH, ring.Contents(), foundDatagram), judged)
      ensures if foundDatagram then DATAGRAM_SIZE <= ring.Size() else ring.Size() < DATAGRAM_SIZE
    {
      foundDatagram := found;
      while !foundDatagram
        invariant Valid() && ring.Size() <= old(ring.Size())
        invariant SameEnd(whole, Scan(KVH, ring.Contents(), foundDatagram), judged)
        invariant foundDatagram ==> DATAGRAM_SIZE <= ring.Size()
        decreases !foundDatagram, ring.Size()
      {
        if ring.Size() < DATAGRAM_SIZE {
          return;
        }
        SameEndStep(KVH, whole, ring.Contents(), foundDatagram, judged);
        foundDatagram := HeaderMatches();
        if !foundDatagram {
          ring.Remove();
        }
      }
    }

    /** Clears the datagram that was just accepted. */
    method RemoveDatagram()
      requires Valid() && |ring.Contents()| >= DATAGRAM_SIZE
      modifies ring
      ensures Valid() && ring.Contents() == old(ring.Contents())[DATAGRAM_SIZE..]
    {
      var j := 0;
      while j < DATAGRAM_SIZE
        invariant 0 <= j <= DATAGRAM_SIZE && Valid()
        invariant ring.Contents() == old(ring.Contents())[j..]
      {
        ring.Remove();
        j := j + 1;
      }
    }
  }

  lemma CheckedAgainst(f: Bytes)
    requires |f| == DATAGRAM_SIZE
    ensures FrameOk(f) <==> CrcWord(INIT, f[..36]) == Layout(f).crc
  {
    assert f[36..] == f[36..40];
  }
}
