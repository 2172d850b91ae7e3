/** Runs of the real receiver: a stream on which it departs from the greedy scan. */
module KvhRuns {
  import opened KvhConstants
  import opened KvhFrames
  import opened KvhScanner
  import opened Sequences
  import opened KvhDriver

  /** A header, then zeros, then one more byte. */
  function Bogus(last: bv8): (w: Bytes)
    ensures |w| == DATAGRAM_SIZE
  {
    HEADER_BYTES + ZeroBytes(35) + [last]
  }

  function ZeroBytes(n: nat): (z: Bytes)
    ensures |z| == n
  {
    seq(n, i => 0)
  }

  /** Of two windows that differ in one byte, one fails. */
  lemma OneIsBogus() returns (last: bv8)
    ensures last == 0 || last == 1
    ensures !FrameOk(Bogus(last))
  {
    if FrameOk(Bogus(0)) {
      last := 1;
      assert Bogus(0)[39] == 0 && Bogus(1)[39] == 1;
      FourByteChangeDetected(Bogus(0), Bogus(1), 39);
    } else {
      last := 0;
    }
  }

  /** The bogus window runs into a window that has a good checksum but no header. */
  function Trap(last: bv8): (buf: Bytes)
    ensures |buf| == 79 && buf[..DATAGRAM_SIZE] == Bogus(last) && buf[39..] == Seal([last] + ZeroBytes(35))
  {
    assert Seal([last] + ZeroBytes(35))[0] == (Seal([last] + ZeroBytes(35))[..36])[0];
    Bogus(last)[..39] + Seal([last] + ZeroBytes(35))
  }

  lemma FirstByteOfHeader(w: Bytes)
    requires HasHeader(w)
    ensures w[0] == 0xfe
  {
    assert w[0] == w[..4][0];
  }

  lemma TrapIsDeceptive(last: bv8)
    requires last == 0 || last == 1
    requires !FrameOk(Bogus(last))
    ensures Deceptive(KVH, Trap(last), false)
  {
    var buf := Trap(last);
    AtStart(buf);
    assert buf[0] == 0xfe && buf[1] == 0x81 && buf[2] == 0xff && buf[3] == 0x56;
    assert At(buf, 39) == buf[39..];
    assert buf[..DATAGRAM_SIZE][..4] == HEADER_BYTES;
    assert KVH.hasHeader(At(buf, 0));
    forall q: nat | 0 < q < DATAGRAM_SIZE ensures !HasHeader(At(buf, q)) {
      assert buf[q] != 0xfe;
      if HasHeader(At(buf, q)) {
        FirstByteOfHeader(At(buf, q));
      }
    }
    assert !GenuineBefore(KVH, buf, 39);
    assert DeceptiveAt(KVH, buf, false, 39);
  }

  /** There are two reads after which the driver has accepted a frame that no greedy scan for headers accepts. */
  lemma RunCanBeDeceived() returns (chunks: seq<Bytes>)
    ensures ReadsFit(chunks) && |chunks| == 2
    ensures Accepted(Run(KVH, [], chunks).pieces, 0) != Greedy(KVH, Concat(chunks), 0)
  {
    var last := OneIsBogus();
    var buf := Trap(last);
    chunks := [buf[..39], buf[39..]];
    TrapIsDeceptive(last);
    assert Call(KVH, [], buf[..39]).rest == buf[..39] by {
      assert [] + buf[..39] == buf[..39];
    }
    var later := chunks[1..];
    assert later == [buf[39..]] && later[0] == buf[39..];
    assert buf[..39] + buf[39..] == buf;
    assert Buffers(KVH, [], chunks) == [[] + buf[..39]] + Buffers(KVH, buf[..39], later);
    assert Buffers(KVH, buf[..39], later)[0] == buf;
    assert buf in Buffers(KVH, [], chunks);
    GreedyIffNeverDeceived(KVH, chunks);
  }
}
