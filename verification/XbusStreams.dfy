/** The incremental parser against a parser that looks at whole messages, on every byte sequence. */
module XbusStreams {
  import opened Sequences
  import opened Xbus
  import opened XbusParsers

  /** How a parser that was started afresh ends on a stream; end counts the bytes it has taken. */
  datatype Ending = Message(end: nat, frame: seq<byte>) | Overflow(end: nat) | Incomplete

  /** The incremental parser, byte by byte, up to its first message or overflow. */
  function Incremental(v: View, stream: seq<byte>, at: nat, size: nat): Ending
    requires v.Idle? || v.Collecting?
    decreases |stream|
  {
    if stream == [] then
      Incomplete
    else
      var (next, result) := Take(v, stream[0], size);
      match next
      case Complete(bytes) => Message(at + 1, bytes)
      case Overflowed => Overflow(at + 1)
      case _ => Incremental(next, stream[1..], at + 1, size)
  }

  /**
   The parser that sees the whole stream: skip to a preamble, measure the message there by its own length
   field, check it, and go on behind it when it does not add up.
   */
  function WholeMessages(stream: seq<byte>, at: nat, size: nat): Ending
    decreases |stream|
  {
    if stream == [] then
      Incomplete
    else if stream[0] != PREAMBLE then
      WholeMessages(stream[1..], at + 1, size)
    else if Fits(stream, size) then
      var n := RawLength(stream);
      if Balanced(stream[..n]) then Message(at + n, stream[..n]) else WholeMessages(stream[n..], at + n, size)
    else if size <= |stream| then
      Overflow(at + if size == 0 then 1 else size)
    else
      Incomplete
  }

  /** The message at the front is all there, and the buffer can hold it. */
  predicate Fits(stream: seq<byte>, size: nat) {
    HeaderComplete(stream) && RawLength(stream) <= |stream| && RawLength(stream) <= size
  }

  predicate NotYetWhole(bytes: seq<byte>) {
    HeaderComplete(bytes) ==> |bytes| < RawLength(bytes)
  }

  lemma WholePrefixFits(bytes: seq<byte>, more: seq<byte>, size: nat)
    requires Whole(bytes) && |bytes| <= size
    ensures Fits(bytes + more, size) && RawLength(bytes + more) == |bytes|
    ensures (bytes + more)[..|bytes|] == bytes && (bytes + more)[|bytes|..] == more
  {
    HeaderExtends(bytes, more);
  }

  /** A stream whose first size bytes contain no whole message does not fit. */
  lemma FullBufferDoesNotFit(bytes: seq<byte>, more: seq<byte>, size: nat)
    requires |bytes| == size && NotYetWhole(bytes)
    ensures !Fits(bytes + more, size)
  {
    if Fits(bytes + more, size) {
      assert HeaderComplete(bytes);
      HeaderExtends(bytes, more);
    }
  }

  lemma WholeOrNotYet(bytes: seq<byte>, b: byte)
    requires NotYetWhole(bytes)
    ensures Whole(bytes + [b]) || NotYetWhole(bytes + [b])
  {
    if HeaderComplete(bytes) {
      HeaderExtends(bytes, [b]);
    }
  }

  lemma {:induction false} CollectingAgrees(bytes: seq<byte>, rest: seq<byte>, at: nat, size: nat)
    requires bytes != [] && bytes[0] == PREAMBLE && NotYetWhole(bytes) && |bytes| < size
    ensures Incremental(Collecting(bytes), rest, at + |bytes|, size) == WholeMessages(bytes + rest, at, size)
    decreases |rest|, 0
  {
    if rest == [] {
      assert bytes + rest == bytes;
    } else {
      var more := bytes + [rest[0]];
      assert bytes + rest == more + rest[1..];
      WholeOrNotYet(bytes, rest[0]);
      if Whole(more) {
        WholePrefixFits(more, rest[1..], size);
        if !Balanced(more) {
          IncrementalIsWholeMessage(rest[1..], at + |more|, size);
        }
      } else if size <= |more| {
        FullBufferDoesNotFit(more, rest[1..], size);
      } else {
        CollectingAgrees(more, rest[1..], at, size);
      }
    }
  }

  /** On every byte sequence and for every buffer size, byte by byte is message by message. */
  lemma {:induction false} IncrementalIsWholeMessage(stream: seq<byte>, at: nat, size: nat)
    ensures Incremental(Idle, stream, at, size) == WholeMessages(stream, at, size)
    decreases |stream|, 1
  {
    if stream != [] {
      if stream[0] != PREAMBLE {
        IncrementalIsWholeMessage(stream[1..], at + 1, size);
      } else if size > 1 {
        assert stream == [stream[0]] + stream[1..];
        CollectingAgrees([stream[0]], stream[1..], at, size);
      }
    }
  }

  lemma {:induction false} SkipsJunk(junk: seq<byte>, stream: seq<byte>, at: nat, size: nat)
    requires PREAMBLE !in junk
    ensures WholeMessages(junk + stream, at, size) == WholeMessages(stream, at + |junk|, size)
    decreases |junk|
  {
    if junk == [] {
      assert junk + stream == stream;
    } else {
      assert (junk + stream)[1..] == junk[1..] + stream;
      SkipsJunk(junk[1..], stream, at + 1, size);
    }
  }

  /** Round trip: an encoded message behind any bytes that are not a preamble is reported at its last byte, unchanged. */
  lemma EncodedMessageIsReceived(junk: seq<byte>, bid: byte, mid: byte, payload: seq<byte>, more: seq<byte>, size: nat)
    requires PREAMBLE !in junk && |payload| < 65536
    requires |Encode(bid, mid, payload)| <= size
    ensures Incremental(Idle, junk + Encode(bid, mid, payload) + more, 0, size)
      == Message(|junk| + |Encode(bid, mid, payload)|, Encode(bid, mid, payload))
  {
    var m := Encode(bid, mid, payload);
    EncodeIsWellFormed(bid, mid, payload);
    IncrementalIsWholeMessage(junk + m + more, 0, size);
    assert junk + m + more == junk + (m + more);
    SkipsJunk(junk, m + more, 0, size);
    WholePrefixFits(m, more, size);
  }

  // ---- Before the end: what is reported for each byte ----

  /** The results for the bytes up to the first message or overflow. */
  function Results(v: View, stream: seq<byte>, size: nat): seq<Result>
    requires v.Idle? || v.Collecting?
    decreases |stream|
  {
    if stream == [] then
      []
    else
      var (next, result) := Take(v, stream[0], size);
      [result] + if next.Idle? || next.Collecting? then Results(next, stream[1..], size) else []
  }

  function Repeat(r: Result, n: nat): (rs: seq<Result>)
    ensures |rs| == n
  {
    seq(n, i => r)
  }

  lemma PrefixIsNotWhole(m: seq<byte>, k: nat)
    requires Whole(m) && k < |m|
    ensures !Whole(m[..k])
  {
    if HeaderComplete(m[..k]) {
      HeaderExtends(m[..k], m[k..]);
      assert m[..k] + m[k..] == m;
    }
  }

  lemma RepeatOneMore(r: Result, n: nat, last: Result)
    ensures [r] + (Repeat(r, n) + [last]) == Repeat(r, n + 1) + [last]
  {
  }

  lemma {:induction false} QuietWhileCollecting(m: seq<byte>, k: nat, size: nat)
    requires Whole(m) && Balanced(m) && |m| <= size && k < |m|
    ensures Results(Collecting(m[..k]), m[k..], size) == Repeat(ResOk, |m| - k - 1) + [ResMessageReceived]
    decreases |m| - k
  {
    assert m[..k] + [m[k..][0]] == m[..k + 1] && m[k..][1..] == m[k + 1..];
    if k + 1 == |m| {
      assert m[..k + 1] == m;
      assert Repeat(ResOk, 0) + [ResMessageReceived] == [ResMessageReceived];
    } else {
      PrefixIsNotWhole(m, k + 1);
      QuietWhileCollecting(m, k + 1, size);
      RepeatOneMore(ResOk, |m| - k - 2, ResMessageReceived);
    }
  }

  lemma WholeMessageResults(m: seq<byte>, size: nat)
    requires Whole(m) && Balanced(m) && m[0] == PREAMBLE && |m| <= size
    ensures Results(Idle, m, size) == [ResFoundPreamble] + (Repeat(ResOk, |m| - 2) + [ResMessageReceived])
  {
    assert m[..1] == [m[0]];
    QuietWhileCollecting(m, 1, size);
  }

  /** Every byte of an encoded message is answered: preamble found, then nothing to report, then the message. */
  lemma EncodedMessageResults(bid: byte, mid: byte, payload: seq<byte>, size: nat)
    requires |payload| < 65536
    requires |Encode(bid, mid, payload)| <= size
    ensures Results(Idle, Encode(bid, mid, payload), size)
      == [ResFoundPreamble] + (Repeat(ResOk, |Encode(bid, mid, payload)| - 2) + [ResMessageReceived])
  {
    EncodeIsWellFormed(bid, mid, payload);
    WholeMessageResults(Encode(bid, mid, payload), size);
  }

  /** In any state, the result of a byte says exactly where the parser has come from and got to. */
  lemma ResultTellsTheStep(v: View, b: byte, size: nat)
    requires v.Idle? || v.Collecting?
    ensures var (next, result) := Take(v, b, size);
      && (result == ResMessageReceived <==> next.Complete?)
      && (result == ResBufferOverflow <==> next.Overflowed?)
      && (result == ResSpuriousByte <==> v.Idle? && next.Idle?)
      && (result == ResFoundPreamble <==> v.Idle? && next.Collecting?)
      && (result == ResCheckSumError <==> v.Collecting? && next.Idle?)
      && (result == ResOk <==> v.Collecting? && next.Collecting?)
  {
  }

  /** The parser that is not started anew after a message. */
  function Late(v: View, bytes: seq<byte>, size: nat): (r: View)
    requires v.Complete? && v.bytes != []
    ensures r.Complete? && r.bytes != []
    decreases |bytes|
  {
    if bytes == [] then v else Late(Take(v, bytes[0], size).0, bytes[1..], size)
  }

  /** Then every later byte takes the place of the checksum, and is answered as if it completed the message. */
  lemma {:induction false} LateBytesOverwrite(m: seq<byte>, bytes: seq<byte>, b: byte, size: nat)
    requires m != []
    ensures Late(Complete(m), bytes + [b], size) == Complete(m[..|m| - 1] + [b])
    ensures Take(Late(Complete(m), bytes, size), b, size).1 == ResMessageReceived
    decreases |bytes|
  {
    if bytes == [] {
      assert bytes + [b] == [b] && [b][1..] == [];
    } else {
      var later := m[..|m| - 1] + [bytes[0]];
      assert (bytes + [b])[1..] == bytes[1..] + [b];
      LateBytesOverwrite(later, bytes[1..], b, size);
      assert later[..|later| - 1] == m[..|m| - 1];
    }
  }

  // ---- Many messages, with a fresh start after each ----

  /** The frames that a receiver hands on when it starts its parser anew after every message. */
  function ReceiveAll(stream: seq<byte>, size: nat): seq<seq<byte>>
    decreases |stream|
  {
    match Incremental(Idle, stream, 0, size)
    case Message(end, frame) => if 0 < end <= |stream| then [frame] + ReceiveAll(stream[end..], size) else []
    case _ => []
  }

  /** The message is received unchanged, whatever follows it. */
  ghost predicate Delivered(m: seq<byte>, size: nat) {
    m != [] && forall more: seq<byte> :: Incremental(Idle, m + more, 0, size) == Message(|m|, m)
  }

  lemma ReceiveFirst(m: seq<byte>, more: seq<byte>, size: nat)
    requires Delivered(m, size)
    ensures ReceiveAll(m + more, size) == [m] + ReceiveAll(more, size)
  {
    assert (m + more)[|m|..] == more;
  }

  lemma {:induction false} DeliveredInOrder(messages: seq<seq<byte>>, size: nat)
    requires forall i :: 0 <= i < |messages| ==> Delivered(messages[i], size)
    ensures ReceiveAll(Concat(messages), size) == messages
    decreases |messages|
  {
    if messages == [] {
      assert ReceiveAll([], size) == [];
    } else {
      ReceiveFirst(messages[0], Concat(messages[1..]), size);
      DeliveredInOrder(messages[1..], size);
    }
  }

  ghost predicate IsEncoded(m: seq<byte>) {
    exists bid: byte, mid: byte, payload: seq<byte> :: |payload| < 65536 && m == Encode(bid, mid, payload)
  }

  lemma EncodedIsDelivered(m: seq<byte>, size: nat)
    requires IsEncoded(m) && |m| <= size
    ensures Delivered(m, size)
  {
    var bid: byte, mid: byte, payload: seq<byte> :| |payload| < 65536 && m == Encode(bid, mid, payload);
    forall more: seq<byte> ensures Incremental(Idle, m + more, 0, size) == Message(|m|, m) {
      EncodedMessageIsReceived([], bid, mid, payload, more, size);
      assert [] + m + more == m + more;
    }
  }

  /** What is sent message by message is received message by message. */
  lemma AllMessagesAreReceived(messages: seq<seq<byte>>, size: nat)
    requires forall i :: 0 <= i < |messages| ==> IsEncoded(messages[i]) && |messages[i]| <= size
    ensures ReceiveAll(Concat(messages), size) == messages
  {
    forall i | 0 <= i < |messages| ensures Delivered(messages[i], size) {
      EncodedIsDelivered(messages[i], size);
    }
    DeliveredInOrder(messages, size);
  }
}
