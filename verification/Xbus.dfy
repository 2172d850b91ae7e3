/** The Xbus message format: preamble, bus id, message id, length in one or three bytes, payload, checksum. */
module Xbus {
  type byte = x: int | 0 <= x < 256

  const PREAMBLE: byte := 0xfa
  const LENGTH_EXTENDER: byte := 0xff
  const OFFSET_TO_BID := 1
  const OFFSET_TO_MID := 2
  const OFFSET_TO_LEN := 3
  const OFFSET_TO_PAYLOAD := 4
  const OFFSET_TO_PAYLOAD_EXT := 6

  // ---- Messages as byte strings ----

  /** Enough bytes are there to read the length field. */
  predicate HeaderComplete(m: seq<byte>) {
    |m| >= 4 && (m[OFFSET_TO_LEN] == LENGTH_EXTENDER ==> |m| >= 6)
  }

  function PayloadLength(m: seq<byte>): (n: nat)
    requires HeaderComplete(m)
    ensures n < 65536
  {
    if m[OFFSET_TO_LEN] != LENGTH_EXTENDER then m[OFFSET_TO_LEN]
    else m[OFFSET_TO_LEN + 2] as int + 256 * (m[OFFSET_TO_LEN + 1] as int)
  }

  function PayloadOffset(m: seq<byte>): nat
    requires HeaderComplete(m)
  {
    if m[OFFSET_TO_LEN] == LENGTH_EXTENDER then OFFSET_TO_PAYLOAD_EXT else OFFSET_TO_PAYLOAD
  }

  function RawLength(m: seq<byte>): nat
    requires HeaderComplete(m)
  {
    PayloadLength(m) + (if m[OFFSET_TO_LEN] == LENGTH_EXTENDER then 7 else 5)
  }

  function Sum(m: seq<byte>): nat {
    if m == [] then 0 else Sum(m[..|m| - 1]) + m[|m| - 1]
  }

  /** All bytes behind the preamble add up to a multiple of 256. */
  predicate Balanced(m: seq<byte>)
    requires m != []
  {
    Sum(m[1..]) % 256 == 0
  }

  function LengthField(n: nat): seq<byte>
    requires n < 65536
  {
    if n < 255 then [n] else [LENGTH_EXTENDER, n / 256, n % 256]
  }

  function Header(bid: byte, mid: byte, n: nat): (h: seq<byte>)
    requires n < 65536
    ensures HeaderComplete(h) && PayloadLength(h) == n && PayloadOffset(h) == |h|
    ensures RawLength(h) == |h| + n + 1
  {
    [PREAMBLE, bid, mid] + LengthField(n)
  }

  function Checksum(body: seq<byte>): byte {
    (0 - Sum(body) as int) % 256
  }

  /** A whole message. */
  function Encode(bid: byte, mid: byte, payload: seq<byte>): (m: seq<byte>)
    requires |payload| < 65536
  {
    var front := Header(bid, mid, |payload|) + payload;
    front + [Checksum(front[1..])]
  }

  lemma SumSnoc(m: seq<byte>, b: byte)
    ensures Sum(m + [b]) == Sum(m) + b
  {
    assert (m + [b])[..|m|] == m;
  }

  lemma HeaderExtends(m: seq<byte>, more: seq<byte>)
    requires HeaderComplete(m)
    ensures HeaderComplete(m + more) && RawLength(m + more) == RawLength(m)
    ensures PayloadLength(m + more) == PayloadLength(m) && PayloadOffset(m + more) == PayloadOffset(m)
  {
  }

  /** Encoding produces a message that measures itself, passes the check and gives back its parts. */
  lemma EncodeIsWellFormed(bid: byte, mid: byte, payload: seq<byte>)
    requires |payload| < 65536
    ensures var m := Encode(bid, mid, payload);
      && HeaderComplete(m) && RawLength(m) == |m| && Balanced(m)
      && m[0] == PREAMBLE && m[OFFSET_TO_BID] == bid && m[OFFSET_TO_MID] == mid
      && PayloadLength(m) == |payload|
      && PayloadOffset(m) + |payload| <= |m|
      && m[PayloadOffset(m)..PayloadOffset(m) + |payload|] == payload
  {
    var h := Header(bid, mid, |payload|);
    var front := h + payload;
    var m := Encode(bid, mid, payload);
    assert m == h + (payload + [Checksum(front[1..])]);
    HeaderExtends(h, payload + [Checksum(front[1..])]);
    assert m[1..] == front[1..] + [Checksum(front[1..])];
    SumSnoc(front[1..], Checksum(front[1..]));
  }

  /** Where everything stands in a message: a payload of 255 bytes or more has its length in two bytes, high byte first. */
  lemma EncodedBytes(bid: byte, mid: byte, payload: seq<byte>)
    requires |payload| < 65536
    ensures var m, n := Encode(bid, mid, payload), |payload|;
      && |m| == (if n < 255 then n + 5 else n + 7)
      && m[0] == 0xfa && m[1] == bid && m[2] == mid
      && (if n < 255 then m[3] == n && m[4..4 + n] == payload
          else m[3] == 0xff && 256 * (m[4] as int) + m[5] as int == n && m[6..6 + n] == payload)
      && Sum(m[1..]) % 256 == 0
  {
    EncodeIsWellFormed(bid, mid, payload);
  }

  // ---- The operations on a message buffer ----

  predicate Readable(m: array<byte>)
    reads m
  {
    HeaderComplete(m[..])
  }

  method GetPayloadLength(m: array<byte>) returns (n: nat)
    requires Readable(m)
    ensures n == PayloadLength(m[..])
  {
    var length := m[OFFSET_TO_LEN];
    if length != LENGTH_EXTENDER {
      n := length;
    } else {
      n := m[OFFSET_TO_LEN + 2];
      n := n + (m[OFFSET_TO_LEN + 1] as int) * 256;
    }
  }

  method GetRawLength(m: array<byte>) returns (n: nat)
    requires Readable(m)
    ensures n == RawLength(m[..])
  {
    n := GetPayloadLength(m);
    if m[OFFSET_TO_LEN] == LENGTH_EXTENDER {
      n := n + 7;
    } else {
      n := n + 5;
    }
  }

  method SetPayloadLength(m: array<byte>, n: nat)
    requires n < 65536 && m.Length >= if n < 255 then 4 else 6
    modifies m
    ensures m[..] == old(m[..OFFSET_TO_LEN]) + LengthField(n) + old(m[OFFSET_TO_LEN + |LengthField(n)|..])
  {
    if n < 255 {
      m[OFFSET_TO_LEN] := n;
    } else {
      m[OFFSET_TO_LEN] := LENGTH_EXTENDER;
      m[OFFSET_TO_LEN + 1] := n / 256;
      m[OFFSET_TO_LEN + 2] := n % 256;
    }
  }

  /** Starts a message: everything behind the header stays as it was. */
  method Message(m: array<byte>, bid: byte, mid: byte, n: nat)
    requires n < 65536 && m.Length >= if n < 255 then 4 else 6
    modifies m
    ensures m[..] == Header(bid, mid, n) + old(m[|Header(bid, mid, n)|..])
  {
    m[0] := PREAMBLE;
    m[OFFSET_TO_BID] := bid;
    m[OFFSET_TO_MID] := mid;
    SetPayloadLength(m, n);
  }

  method InsertChecksum(m: array<byte>)
    requires Readable(m) && RawLength(m[..]) <= m.Length
    modifies m
    ensures var n := old(RawLength(m[..]));
      m[..] == old(m[..])[n - 1 := Checksum(old(m[1..n - 1]))]
  {
    var n := GetRawLength(m);
    ghost var before := m[..];
    var checksum: byte := 0;
    var i := 0;
    while i < n - 2
      invariant 0 <= i <= n - 2 && checksum == Checksum(before[1..1 + i])
      invariant m[..] == before
    {
      ChecksumSnoc(before, 1 + i);
      checksum := (checksum - m[1 + i]) % 256;
      i := i + 1;
    }
    m[n - 1] := checksum;
    assert before[1..n - 1] == old(m[1..n - 1]);
  }

  lemma ChecksumSnoc(m: seq<byte>, end: nat)
    requires 1 <= end < |m|
    ensures Checksum(m[1..end + 1]) == (Checksum(m[1..end]) - m[end]) % 256
  {
    assert m[1..end + 1] == m[1..end] + [m[end]];
    SumSnoc(m[1..end], m[end]);
    NegatedSum(Sum(m[1..end]), m[end]);
  }

  lemma NegatedSum(s: int, b: int)
    ensures (0 - (s + b)) % 256 == ((0 - s) % 256 - b) % 256
  {
  }

  method VerifyChecksum(m: array<byte>) returns (ok: bool)
    requires Readable(m) && RawLength(m[..]) <= m.Length
    ensures ok == Balanced(m[..RawLength(m[..])])
  {
    var n := GetRawLength(m);
    var checksum: byte := 0;
    var i := 1;
    while i < n
      invariant 1 <= i <= n && checksum == Sum(m[1..i]) % 256
    {
      SumModSnoc(m[..], i);
      assert m[1..i] == m[..][1..i] && m[1..i + 1] == m[..][1..i + 1];
      checksum := (checksum + m[i]) % 256;
      i := i + 1;
    }
    assert m[..n][1..] == m[1..n];
    ok := checksum == 0;
  }

  lemma SumModSnoc(m: seq<byte>, end: nat)
    requires 1 <= end < |m|
    ensures Sum(m[1..end + 1]) % 256 == (Sum(m[1..end]) % 256 + m[end]) % 256
  {
    assert m[1..end + 1] == m[1..end] + [m[end]];
    SumSnoc(m[1..end], m[end]);
    ReducedSum(Sum(m[1..end]), m[end], 256);
  }

  lemma ReducedSum(s: int, b: int, n: int)
    requires n == 256
    ensures (s + b) % n == (s % n + b) % n
  {
  }

  /** Header, payload, checksum, in that order, make the encoded message. */
  lemma BuiltMessage(bid: byte, mid: byte, payload: seq<byte>, before: seq<byte>, after: seq<byte>)
    requires |payload| < 65536
    requires var h := Header(bid, mid, |payload|);
      && |h| + |payload| + 1 <= |before|
      && before[..|h|] == h && before[|h|..|h| + |payload|] == payload
      && after == before[|h| + |payload| := Checksum(before[1..|h| + |payload|])]
    ensures |Encode(bid, mid, payload)| <= |after|
    ensures after[..|Encode(bid, mid, payload)|] == Encode(bid, mid, payload)
  {
    var h := Header(bid, mid, |payload|);
    var front := h + payload;
    assert before[..|front|] == front;
    assert before[1..|front|] == front[1..];
    assert after[..|front| + 1] == front + [Checksum(front[1..])];
  }
}
