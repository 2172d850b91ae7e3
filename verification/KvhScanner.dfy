/**
 What the resynchronising scanner of the KVH driver does to a byte stream, as functions on values,
 and what that means for whole runs over any division of the stream into reads. The two tests on a
 40-byte window, header and checksum, are parameters here; KvhDriver supplies the real ones.
 */
module KvhScanner {
  import opened KvhConstants
  import opened Sequences

  type Bytes = seq<bv8>

  datatype Judge = Judge(hasHeader: Bytes -> bool, frameOk: Bytes -> bool)

  /**
   What became of the byte or bytes at the front of the buffer. Each piece records the 40 bytes that
   were looked at: a window without a header or with a bad checksum gives up its first byte only.
   */
  datatype Piece = NoHeader(window: Bytes) | BadCrc(window: Bytes) | Frame(window: Bytes) {
    function Consumed(): nat {
      if Frame? then DATAGRAM_SIZE else 1
    }
  }

  predicate Justified(j: Judge, p: Piece) {
    && |p.window| == DATAGRAM_SIZE
    && match p
       case NoHeader(w) => !j.hasHeader(w)
       case BadCrc(w) => !j.frameOk(w)
       case Frame(w) => j.frameOk(w)
  }

  datatype Outcome = Outcome(pieces: seq<Piece>, rest: Bytes, found: bool)

  /**
   One call, from a buffer. Once a header has been seen, found stays set, so later windows of the
   same call are judged by their checksum alone.
   */
  function Scan(j: Judge, buf: Bytes, found: bool): Outcome
    decreases |buf|
  {
    if |buf| < DATAGRAM_SIZE then
      Outcome([], buf, found)
    else if !found && !j.hasHeader(buf[..DATAGRAM_SIZE]) then
      Prepend(NoHeader(buf[..DATAGRAM_SIZE]), Scan(j, buf[1..], false))
    else if j.frameOk(buf[..DATAGRAM_SIZE]) then
      Outcome([Frame(buf[..DATAGRAM_SIZE])], buf[DATAGRAM_SIZE..], true)
    else
      Prepend(BadCrc(buf[..DATAGRAM_SIZE]), Scan(j, buf[1..], true))
  }

  function Prepend(p: Piece, o: Outcome): Outcome {
    o.(pieces := [p] + o.pieces)
  }

  /** The call ended by accepting a frame, and accepted no other. */
  predicate Accepts(pieces: seq<Piece>) {
    pieces != [] && (if pieces[0].Frame? then |pieces| == 1 else Accepts(pieces[1..]))
  }

  predicate NoFrame(pieces: seq<Piece>) {
    forall p :: p in pieces ==> !p.Frame?
  }

  datatype Judged = Nothing | Window(window: Bytes)

  /** The last window whose checksum was computed. */
  function LastJudged(pieces: seq<Piece>): Judged {
    if pieces == [] then
      Nothing
    else
      var later := LastJudged(pieces[1..]);
      if later.Window? then later else if pieces[0].NoHeader? then Nothing else Window(pieces[0].window)
  }

  /**
   One call accepts at most one frame, as its last act; without one, less than a datagram is left over.
   It reports a find exactly when some checksum was computed, and the last one computed was good
   exactly when a frame was accepted.
   */
  lemma {:induction false} ScanShape(j: Judge, buf: Bytes, found: bool)
    ensures var o := Scan(j, buf, found);
      && (Accepts(o.pieces) || NoFrame(o.pieces))
      && (if Accepts(o.pieces) then |o.rest| <= |buf| - DATAGRAM_SIZE else |o.rest| < DATAGRAM_SIZE)
      && (o.found <==> found || LastJudged(o.pieces).Window?)
      && (Accepts(o.pieces) <==> LastJudged(o.pieces).Window? && j.frameOk(LastJudged(o.pieces).window))
    decreases |buf|
  {
    var o := Scan(j, buf, found);
    if |buf| >= DATAGRAM_SIZE {
      if !found && !j.hasHeader(buf[..DATAGRAM_SIZE]) {
        ScanShape(j, buf[1..], false);
        assert o.pieces[1..] == Scan(j, buf[1..], false).pieces;
      } else if j.frameOk(buf[..DATAGRAM_SIZE]) {
        assert LastJudged([]) == Nothing && o.pieces[1..] == [];
      } else {
        ScanShape(j, buf[1..], true);
        assert o.pieces[1..] == Scan(j, buf[1..], true).pieces;
      }
    }
  }

  /** A scan that is under way, with judged the last window so far, ends as the whole scan does. */
  predicate SameEnd(whole: Outcome, remaining: Outcome, judged: Judged) {
    && whole.rest == remaining.rest
    && whole.found == remaining.found
    && LastJudged(whole.pieces)
       == if LastJudged(remaining.pieces).Window? then LastJudged(remaining.pieces) else judged
  }

  lemma LastJudgedPrepend(p: Piece, o: Outcome)
    ensures LastJudged(Prepend(p, o).pieces)
      == if LastJudged(o.pieces).Window? then LastJudged(o.pieces)
         else if p.NoHeader? then Nothing else Window(p.window)
  {
    assert ([p] + o.pieces)[1..] == o.pieces;
  }

  /** How the end is kept in view when the scanner drops a byte, sees a header, or accepts. */
  lemma SameEndStep(j: Judge, whole: Outcome, buf: Bytes, found: bool, judged: Judged)
    requires |buf| >= DATAGRAM_SIZE && SameEnd(whole, Scan(j, buf, found), judged)
    ensures !found && !j.hasHeader(buf[..DATAGRAM_SIZE]) ==> SameEnd(whole, Scan(j, buf[1..], false), judged)
    ensures found || j.hasHeader(buf[..DATAGRAM_SIZE]) ==> SameEnd(whole, Scan(j, buf, true), judged)
    ensures (found || j.hasHeader(buf[..DATAGRAM_SIZE])) && !j.frameOk(buf[..DATAGRAM_SIZE])
      ==> SameEnd(whole, Scan(j, buf[1..], true), Window(buf[..DATAGRAM_SIZE]))
    ensures (found || j.hasHeader(buf[..DATAGRAM_SIZE])) && j.frameOk(buf[..DATAGRAM_SIZE])
      ==> SameEnd(whole, Outcome([], buf[DATAGRAM_SIZE..], true), Window(buf[..DATAGRAM_SIZE]))
  {
    if !found && !j.hasHeader(buf[..DATAGRAM_SIZE]) {
      LastJudgedPrepend(NoHeader(buf[..DATAGRAM_SIZE]), Scan(j, buf[1..], false));
    } else if j.frameOk(buf[..DATAGRAM_SIZE]) {
      LastJudgedPrepend(Frame(buf[..DATAGRAM_SIZE]), Outcome([], buf[DATAGRAM_SIZE..], true));
      assert [Frame(buf[..DATAGRAM_SIZE])] + [] == [Frame(buf[..DATAGRAM_SIZE])];
    } else {
      LastJudgedPrepend(BadCrc(buf[..DATAGRAM_SIZE]), Scan(j, buf[1..], true));
    }
  }

  /** The pieces account for the stream from its start up to the unread rest, each with its own window. */
  ghost predicate Explains(j: Judge, pieces: seq<Piece>, stream: Bytes, rest: Bytes)
    decreases |pieces|
  {
    if pieces == [] then
      stream == rest
    else
      && Justified(j, pieces[0])
      && pieces[0].window <= stream
      && Explains(j, pieces[1..], stream[pieces[0].Consumed()..], rest)
  }

  lemma {:induction false} ScanExplains(j: Judge, buf: Bytes, found: bool)
    ensures Explains(j, Scan(j, buf, found).pieces, buf, Scan(j, buf, found).rest)
    decreases |buf|
  {
    if |buf| >= DATAGRAM_SIZE {
      var o := Scan(j, buf, found);
      if !found && !j.hasHeader(buf[..DATAGRAM_SIZE]) {
        ScanExplains(j, buf[1..], false);
        assert o.pieces[1..] == Scan(j, buf[1..], false).pieces;
      } else if j.frameOk(buf[..DATAGRAM_SIZE]) {
        assert o.pieces[1..] == [];
      } else {
        ScanExplains(j, buf[1..], true);
        assert o.pieces[1..] == Scan(j, buf[1..], true).pieces;
      }
    }
  }

  lemma {:induction false} ExplainsMore(j: Judge, pieces: seq<Piece>, stream: Bytes, rest: Bytes, more: Bytes)
    requires Explains(j, pieces, stream, rest)
    ensures Explains(j, pieces, stream + more, rest + more)
    decreases |pieces|
  {
    if pieces != [] {
      var n := pieces[0].Consumed();
      assert (stream + more)[n..] == stream[n..] + more;
      ExplainsMore(j, pieces[1..], stream[n..], rest, more);
    }
  }

  lemma {:induction false} ExplainsThen(j: Judge, first: seq<Piece>, second: seq<Piece>, stream: Bytes, mid: Bytes, rest: Bytes)
    requires Explains(j, first, stream, mid) && Explains(j, second, mid, rest)
    ensures Explains(j, first + second, stream, rest)
    decreases |first|
  {
    if first == [] {
      assert first + second == second;
    } else {
      assert (first + second)[1..] == first[1..] + second;
      ExplainsThen(j, first[1..], second, stream[first[0].Consumed()..], mid, rest);
    }
  }

  /** The bytes that the pieces took out of the stream. */
  function Taken(pieces: seq<Piece>): Bytes {
    if pieces == [] then
      []
    else
      var p := pieces[0];
      (if p.Consumed() <= |p.window| then p.window[..p.Consumed()] else p.window) + Taken(pieces[1..])
  }

  /** Conservation: every byte of the stream was accepted in a frame, discarded with a reason, or is left over. */
  lemma {:induction false} NothingLost(j: Judge, pieces: seq<Piece>, stream: Bytes, rest: Bytes)
    requires Explains(j, pieces, stream, rest)
    ensures Taken(pieces) + rest == stream
    decreases |pieces|
  {
    if pieces != [] {
      var n := pieces[0].Consumed();
      NothingLost(j, pieces[1..], stream[n..], rest);
      assert pieces[0].window[..n] == stream[..n];
    }
  }

  // ---- Runs ----

  /** What the driver has done, and still holds, after a sequence of reads; an empty chunk is a failed read. */
  datatype History = History(pieces: seq<Piece>, rest: Bytes)

  function Run(j: Judge, buf: Bytes, chunks: seq<Bytes>): History
    decreases |chunks|
  {
    if chunks == [] then
      History([], buf)
    else
      var o := Call(j, buf, chunks[0]);
      var later := Run(j, o.rest, chunks[1..]);
      History(o.pieces + later.pieces, later.rest)
  }

  function Call(j: Judge, buf: Bytes, chunk: Bytes): Outcome {
    if chunk == [] then Outcome([], buf, false) else Scan(j, buf + chunk, false)
  }

  predicate ReadsFit(chunks: seq<Bytes>) {
    forall i :: 0 <= i < |chunks| ==> |chunks[i]| <= DATAGRAM_SIZE
  }

  /** Between calls at most 39 bytes are held, so a read of at most 40 never overflows the ring of 80. */
  lemma CallLeavesLittle(j: Judge, buf: Bytes, chunk: Bytes)
    requires |buf| < DATAGRAM_SIZE && |chunk| <= DATAGRAM_SIZE
    ensures |Call(j, buf, chunk).rest| < DATAGRAM_SIZE
  {
    ScanShape(j, buf + chunk, false);
  }

  lemma CallExplains(j: Judge, buf: Bytes, chunk: Bytes)
    ensures Explains(j, Call(j, buf, chunk).pieces, buf + chunk, Call(j, buf, chunk).rest)
  {
    if chunk == [] {
      assert buf + chunk == buf;
    } else {
      ScanExplains(j, buf + chunk, false);
    }
  }

  lemma ExplainsBoth(j: Judge, first: seq<Piece>, second: seq<Piece>, b: Bytes, mid: Bytes, more: Bytes, rest: Bytes)
    requires Explains(j, first, b, mid) && Explains(j, second, mid + more, rest)
    ensures Explains(j, first + second, b + more, rest)
  {
    ExplainsMore(j, first, b, mid, more);
    ExplainsThen(j, first, second, b + more, mid + more, rest);
  }

  lemma FirstChunk(buf: Bytes, chunks: seq<Bytes>)
    requires chunks != []
    ensures buf + Concat(chunks) == (buf + chunks[0]) + Concat(chunks[1..])
  {
  }

  /** Unconditionally: a run explains the whole stream, and nothing was discarded without a reason. */
  lemma {:induction false} RunExplains(j: Judge, buf: Bytes, chunks: seq<Bytes>)
    requires |buf| < DATAGRAM_SIZE && ReadsFit(chunks)
    ensures Explains(j, Run(j, buf, chunks).pieces, buf + Concat(chunks), Run(j, buf, chunks).rest)
    ensures |Run(j, buf, chunks).rest| < DATAGRAM_SIZE
    decreases |chunks|
  {
    if chunks == [] {
      assert buf + Concat(chunks) == buf;
    } else {
      var o, more := Call(j, buf, chunks[0]), Concat(chunks[1..]);
      var later := Run(j, o.rest, chunks[1..]);
      CallExplains(j, buf, chunks[0]);
      CallLeavesLittle(j, buf, chunks[0]);
      RunExplains(j, o.rest, chunks[1..]);
      ExplainsBoth(j, o.pieces, later.pieces, buf + chunks[0], o.rest, more, later.rest);
      FirstChunk(buf, chunks);
    }
  }

  // ---- The greedy leftmost scan ----

  predicate Genuine(j: Judge, window: Bytes) {
    j.hasHeader(window) && j.frameOk(window)
  }

  datatype Found = Found(at: nat, frame: Bytes)

  /** Accept the leftmost window that has a header and a good checksum, go on behind it. */
  function Greedy(j: Judge, stream: Bytes, at: nat): seq<Found>
    decreases |stream|
  {
    if |stream| < DATAGRAM_SIZE then
      []
    else if Genuine(j, stream[..DATAGRAM_SIZE]) then
      [Found(at, stream[..DATAGRAM_SIZE])] + Greedy(j, stream[DATAGRAM_SIZE..], at + DATAGRAM_SIZE)
    else
      Greedy(j, stream[1..], at + 1)
  }

  /** The frames that were accepted, with their places in the stream. */
  function Accepted(pieces: seq<Piece>, at: nat): seq<Found>
    decreases |pieces|
  {
    if pieces == [] then
      []
    else
      (if pieces[0].Frame? then [Found(at, pieces[0].window)] else [])
      + Accepted(pieces[1..], at + pieces[0].Consumed())
  }

  predicate HeadersOnly(j: Judge, pieces: seq<Piece>) {
    forall p :: p in pieces && p.Frame? ==> j.hasHeader(p.window)
  }

  lemma {:induction false} GreedyStartsAt(j: Judge, stream: Bytes, at: nat)
    ensures forall f :: f in Greedy(j, stream, at) ==> f.at >= at
    decreases |stream|
  {
    if |stream| >= DATAGRAM_SIZE {
      if Genuine(j, stream[..DATAGRAM_SIZE]) {
        GreedyStartsAt(j, stream[DATAGRAM_SIZE..], at + DATAGRAM_SIZE);
      } else {
        GreedyStartsAt(j, stream[1..], at + 1);
      }
    }
  }

  lemma HeadersOnlyTail(j: Judge, pieces: seq<Piece>)
    requires pieces != []
    ensures HeadersOnly(j, pieces) <==> (pieces[0].Frame? ==> j.hasHeader(pieces[0].window)) && HeadersOnly(j, pieces[1..])
  {
    assert pieces == [pieces[0]] + pieces[1..];
  }

  /** The run accepted what the greedy scan accepts exactly when every accepted window began with the header. */
  lemma {:induction false} GreedyIffHeaders(j: Judge, pieces: seq<Piece>, stream: Bytes, rest: Bytes, at: nat)
    requires Explains(j, pieces, stream, rest) && |rest| < DATAGRAM_SIZE
    ensures Accepted(pieces, at) == Greedy(j, stream, at) <==> HeadersOnly(j, pieces)
    decreases |pieces|
  {
    if pieces != [] {
      var p, tail := pieces[0], pieces[1..];
      var next := stream[p.Consumed()..];
      GreedyIffHeaders(j, tail, next, rest, at + p.Consumed());
      HeadersOnlyTail(j, pieces);
      assert p.window == stream[..DATAGRAM_SIZE];
      if p.Frame? {
        var head := Found(at, p.window);
        assert Accepted(pieces, at) == [head] + Accepted(tail, at + DATAGRAM_SIZE);
        assert Accepted(pieces, at)[0] == head && Accepted(pieces, at)[1..] == Accepted(tail, at + DATAGRAM_SIZE);
        if j.hasHeader(p.window) {
          assert Greedy(j, stream, at) == [head] + Greedy(j, next, at + DATAGRAM_SIZE);
          assert Greedy(j, stream, at)[1..] == Greedy(j, next, at + DATAGRAM_SIZE);
        } else {
          assert Greedy(j, stream, at) == Greedy(j, stream[1..], at + 1);
          GreedyStartsAt(j, stream[1..], at + 1);
          assert head !in Greedy(j, stream, at);
        }
      } else {
        assert !Genuine(j, stream[..DATAGRAM_SIZE]);
        assert Accepted(pieces, at) == Accepted(tail, at + 1);
      }
    }
  }

  /** The 40 bytes at a place in a buffer. */
  function At(buf: Bytes, p: nat): Bytes
    requires p + DATAGRAM_SIZE <= |buf|
  {
    buf[p..p + DATAGRAM_SIZE]
  }

  lemma AtTail(buf: Bytes, n: nat)
    requires n <= |buf|
    ensures forall p: nat :: p + DATAGRAM_SIZE <= |buf[n..]| ==> At(buf[n..], p) == At(buf, p + n)
  {
  }

  lemma AtStart(buf: Bytes)
    requires |buf| >= DATAGRAM_SIZE
    ensures At(buf, 0) == buf[..DATAGRAM_SIZE]
  {
  }

  /** Good checksums come with headers. */
  predicate HonestStream(j: Judge, stream: Bytes) {
    forall p: nat :: p <= |stream| - DATAGRAM_SIZE && j.frameOk(At(stream, p)) ==> j.hasHeader(At(stream, p))
  }

  lemma {:induction false} HonestMeansHeaders(j: Judge, pieces: seq<Piece>, stream: Bytes, rest: Bytes)
    requires Explains(j, pieces, stream, rest) && HonestStream(j, stream)
    ensures HeadersOnly(j, pieces)
    decreases |pieces|
  {
    if pieces != [] {
      var n := pieces[0].Consumed();
      AtStart(stream);
      AtTail(stream, n);
      assert pieces[0].window == stream[..DATAGRAM_SIZE] == At(stream, 0);
      HonestMeansHeaders(j, pieces[1..], stream[n..], rest);
      HeadersOnlyTail(j, pieces);
    }
  }

  /** On such a stream the accepted frames do not depend on how it was cut into reads. */
  lemma ChunkingDoesNotMatter(j: Judge, chunks: seq<Bytes>)
    requires ReadsFit(chunks) && HonestStream(j, Concat(chunks))
    ensures Accepted(Run(j, [], chunks).pieces, 0) == Greedy(j, Concat(chunks), 0)
  {
    RunExplains(j, [], chunks);
    assert [] + Concat(chunks) == Concat(chunks);
    HonestMeansHeaders(j, Run(j, [], chunks).pieces, Concat(chunks), Run(j, [], chunks).rest);
    GreedyIffHeaders(j, Run(j, [], chunks).pieces, Concat(chunks), Run(j, [], chunks).rest, 0);
  }

  // ---- A clean stream ----

  predicate AllGenuine(j: Judge, frames: seq<Bytes>) {
    forall i :: 0 <= i < |frames| ==> |frames[i]| == DATAGRAM_SIZE && Genuine(j, frames[i])
  }

  function FramesAt(frames: seq<Bytes>, at: nat): seq<Found>
    decreases |frames|
  {
    if frames == [] then [] else [Found(at, frames[0])] + FramesAt(frames[1..], at + DATAGRAM_SIZE)
  }

  /** A buffer that holds a whole frame begins with the first. */
  lemma FirstFrame(b: Bytes, more: Bytes, frames: seq<Bytes>, tail: Bytes, j: Judge)
    requires AllGenuine(j, frames) && |tail| < DATAGRAM_SIZE && |b| >= DATAGRAM_SIZE
    requires b + more == Concat(frames) + tail
    ensures frames != [] && b[..DATAGRAM_SIZE] == frames[0]
    ensures b[DATAGRAM_SIZE..] + more == Concat(frames[1..]) + tail
  {
    assert |frames| == 0 ==> |b + more| < DATAGRAM_SIZE;
    var stream := frames[0] + (Concat(frames[1..]) + tail);
    assert b + more == stream;
    assert b[..DATAGRAM_SIZE] == stream[..DATAGRAM_SIZE] == frames[0];
    assert b[DATAGRAM_SIZE..] + more == (b + more)[DATAGRAM_SIZE..] == stream[DATAGRAM_SIZE..];
  }

  lemma GenuineIsAccepted(j: Judge, b: Bytes)
    requires |b| >= DATAGRAM_SIZE && Genuine(j, b[..DATAGRAM_SIZE])
    ensures Scan(j, b, false) == Outcome([Frame(b[..DATAGRAM_SIZE])], b[DATAGRAM_SIZE..], true)
  {
  }

  lemma AcceptedFirst(frame: Bytes, later: seq<Piece>, at: nat)
    ensures Accepted([Frame(frame)] + later, at) == [Found(at, frame)] + Accepted(later, at + DATAGRAM_SIZE)
  {
    assert ([Frame(frame)] + later)[1..] == later;
  }

  /**
   A stream of genuine frames, and perhaps the beginning of another, is accepted frame by frame, however it
   is cut into reads: windows that straddle two frames are never looked at.
   */
  lemma {:induction false} CleanStreamIsAccepted(
      j: Judge, buf: Bytes, chunks: seq<Bytes>, frames: seq<Bytes>, tail: Bytes, at: nat)
    requires AllGenuine(j, frames) && |tail| < DATAGRAM_SIZE && |buf| < DATAGRAM_SIZE && ReadsFit(chunks)
    requires buf + Concat(chunks) == Concat(frames) + tail
    ensures Accepted(Run(j, buf, chunks).pieces, at) == FramesAt(frames, at)
    ensures Run(j, buf, chunks).rest == tail
    decreases |chunks|
  {
    if chunks == [] {
      assert buf + Concat(chunks) == buf;
      NoRoomForFrames(j, buf, frames, tail);
    } else {
      var b, more := buf + chunks[0], Concat(chunks[1..]);
      FirstChunk(buf, chunks);
      if |b| < DATAGRAM_SIZE {
        assert chunks[0] == [] ==> b == buf;
        assert Call(j, buf, chunks[0]).rest == b && Call(j, buf, chunks[0]).pieces == [];
        CleanStreamIsAccepted(j, b, chunks[1..], frames, tail, at);
        assert [] + Run(j, b, chunks[1..]).pieces == Run(j, b, chunks[1..]).pieces;
      } else {
        FirstFrame(b, more, frames, tail, j);
        GenuineIsAccepted(j, b);
        var rest := b[DATAGRAM_SIZE..];
        CleanStreamIsAccepted(j, rest, chunks[1..], frames[1..], tail, at + DATAGRAM_SIZE);
        AcceptedFirst(frames[0], Run(j, rest, chunks[1..]).pieces, at);
      }
    }
  }

  lemma FirstInConcat(frames: seq<Bytes>)
    ensures frames != [] ==> |Concat(frames)| >= |frames[0]|
  {
  }

  lemma NoRoomForFrames(j: Judge, buf: Bytes, frames: seq<Bytes>, tail: Bytes)
    requires AllGenuine(j, frames) && |buf| < DATAGRAM_SIZE && buf == Concat(frames) + tail
    ensures frames == [] && buf == tail
  {
    FirstInConcat(frames);
  }

  // ---- Exactly when a run departs from the greedy scan ----

  predicate HeaderBefore(j: Judge, buf: Bytes, p: nat) {
    exists q: nat :: q < p && q <= |buf| - DATAGRAM_SIZE && j.hasHeader(At(buf, q))
  }

  predicate GenuineBefore(j: Judge, buf: Bytes, p: nat) {
    exists q: nat :: q < p && q <= |buf| - DATAGRAM_SIZE && Genuine(j, At(buf, q))
  }

  /** A good checksum without a header, behind a header, with no genuine frame in front of it. */
  predicate DeceptiveAt(j: Judge, buf: Bytes, found: bool, p: nat)
    requires p + DATAGRAM_SIZE <= |buf|
  {
    && j.frameOk(At(buf, p)) && !j.hasHeader(At(buf, p))
    && (found || HeaderBefore(j, buf, p))
    && !GenuineBefore(j, buf, p)
  }

  predicate Deceptive(j: Judge, buf: Bytes, found: bool) {
    exists p: nat :: p <= |buf| - DATAGRAM_SIZE && DeceptiveAt(j, buf, found, p)
  }

  lemma HeaderBeforeTail(j: Judge, buf: Bytes, p: nat)
    requires |buf| >= DATAGRAM_SIZE
    ensures HeaderBefore(j, buf, p + 1) <==> j.hasHeader(buf[..DATAGRAM_SIZE]) || HeaderBefore(j, buf[1..], p)
  {
    AtStart(buf);
    AtTail(buf, 1);
    if HeaderBefore(j, buf, p + 1) {
      var q: nat :| q < p + 1 && q <= |buf| - DATAGRAM_SIZE && j.hasHeader(At(buf, q));
      if q > 0 {
        assert At(buf[1..], q - 1) == At(buf, q);
      }
    }
    if j.hasHeader(buf[..DATAGRAM_SIZE]) {
      assert j.hasHeader(At(buf, 0));
    }
    if HeaderBefore(j, buf[1..], p) {
      var q: nat :| q < p && q <= |buf[1..]| - DATAGRAM_SIZE && j.hasHeader(At(buf[1..], q));
      assert j.hasHeader(At(buf, q + 1));
    }
  }

  lemma GenuineBeforeTail(j: Judge, buf: Bytes, p: nat)
    requires |buf| >= DATAGRAM_SIZE
    ensures GenuineBefore(j, buf, p + 1) <==> Genuine(j, buf[..DATAGRAM_SIZE]) || GenuineBefore(j, buf[1..], p)
  {
    AtStart(buf);
    AtTail(buf, 1);
    if GenuineBefore(j, buf, p + 1) {
      var q: nat :| q < p + 1 && q <= |buf| - DATAGRAM_SIZE && Genuine(j, At(buf, q));
      if q > 0 {
        assert At(buf[1..], q - 1) == At(buf, q);
      }
    }
    if Genuine(j, buf[..DATAGRAM_SIZE]) {
      assert Genuine(j, At(buf, 0));
    }
    if GenuineBefore(j, buf[1..], p) {
      var q: nat :| q < p && q <= |buf[1..]| - DATAGRAM_SIZE && Genuine(j, At(buf[1..], q));
      assert Genuine(j, At(buf, q + 1));
    }
  }

  lemma DeceptiveAtTail(j: Judge, buf: Bytes, found: bool, p: nat)
    requires p + 41 <= |buf| && !Genuine(j, buf[..DATAGRAM_SIZE])
    ensures DeceptiveAt(j, buf, found, p + 1)
      <==> DeceptiveAt(j, buf[1..], found || j.hasHeader(buf[..DATAGRAM_SIZE]), p)
  {
    AtTail(buf, 1);
    HeaderBeforeTail(j, buf, p);
    GenuineBeforeTail(j, buf, p);
  }

  lemma DeceptiveTail(j: Judge, buf: Bytes, found: bool)
    requires |buf| >= DATAGRAM_SIZE && !Genuine(j, buf[..DATAGRAM_SIZE])
    requires !DeceptiveAt(j, buf, found, 0)
    ensures Deceptive(j, buf, found) <==> Deceptive(j, buf[1..], found || j.hasHeader(buf[..DATAGRAM_SIZE]))
  {
    var found' := found || j.hasHeader(buf[..DATAGRAM_SIZE]);
    if Deceptive(j, buf, found) {
      var p: nat :| p <= |buf| - DATAGRAM_SIZE && DeceptiveAt(j, buf, found, p);
      DeceptiveAtTail(j, buf, found, p - 1);
    }
    if Deceptive(j, buf[1..], found') {
      var p: nat :| p <= |buf[1..]| - DATAGRAM_SIZE && DeceptiveAt(j, buf[1..], found', p);
      DeceptiveAtTail(j, buf, found, p);
    }
  }

  lemma GenuineStartIsNotDeceptive(j: Judge, buf: Bytes, found: bool)
    requires |buf| >= DATAGRAM_SIZE && Genuine(j, buf[..DATAGRAM_SIZE])
    ensures !Deceptive(j, buf, found)
  {
    AtStart(buf);
    assert forall p: nat :: p > 0 ==> GenuineBefore(j, buf, p);
  }

  /** A call accepts a frame that lacks the header exactly when its buffer is deceptive. */
  lemma {:induction false} CallDeceived(j: Judge, buf: Bytes, found: bool)
    ensures HeadersOnly(j, Scan(j, buf, found).pieces) <==> !Deceptive(j, buf, found)
    decreases |buf|
  {
    if |buf| >= DATAGRAM_SIZE {
      var w, o := buf[..DATAGRAM_SIZE], Scan(j, buf, found);
      AtStart(buf);
      if !found && !j.hasHeader(w) {
        CallDeceived(j, buf[1..], false);
        DeceptiveTail(j, buf, false);
        HeadersOnlyTail(j, o.pieces);
        assert o.pieces[1..] == Scan(j, buf[1..], false).pieces;
      } else if j.frameOk(w) {
        if j.hasHeader(w) {
          GenuineStartIsNotDeceptive(j, buf, found);
        } else {
          assert DeceptiveAt(j, buf, found, 0);
          assert Frame(w) in o.pieces;
        }
      } else {
        CallDeceived(j, buf[1..], true);
        DeceptiveTail(j, buf, found);
        HeadersOnlyTail(j, o.pieces);
        assert o.pieces[1..] == Scan(j, buf[1..], true).pieces;
      }
    }
  }

  /** The buffers that the calls of a run scan. */
  function Buffers(j: Judge, buf: Bytes, chunks: seq<Bytes>): seq<Bytes>
    decreases |chunks|
  {
    if chunks == [] then [] else [buf + chunks[0]] + Buffers(j, Call(j, buf, chunks[0]).rest, chunks[1..])
  }

  predicate NeverDeceived(j: Judge, buffers: seq<Bytes>) {
    forall b :: b in buffers ==> !Deceptive(j, b, false)
  }

  lemma HeadersOnlyBoth(j: Judge, first: seq<Piece>, second: seq<Piece>)
    ensures HeadersOnly(j, first + second) <==> HeadersOnly(j, first) && HeadersOnly(j, second)
  {
    assert forall p :: p in first + second <==> p in first || p in second;
  }

  lemma {:induction false} RunDeceived(j: Judge, buf: Bytes, chunks: seq<Bytes>)
    requires |buf| < DATAGRAM_SIZE && ReadsFit(chunks)
    ensures HeadersOnly(j, Run(j, buf, chunks).pieces) <==> NeverDeceived(j, Buffers(j, buf, chunks))
    decreases |chunks|
  {
    if chunks != [] {
      var o := Call(j, buf, chunks[0]);
      CallLeavesLittle(j, buf, chunks[0]);
      RunDeceived(j, o.rest, chunks[1..]);
      HeadersOnlyBoth(j, o.pieces, Run(j, o.rest, chunks[1..]).pieces);
      CallDeceived(j, buf + chunks[0], false);
      var bs := Buffers(j, buf, chunks);
      assert bs[0] == buf + chunks[0] && bs[1..] == Buffers(j, o.rest, chunks[1..]);
      assert forall b :: b in bs <==> b == bs[0] || b in bs[1..];
    }
  }

  /** For every stream and every way of reading it: the frames are the greedy ones iff no call met a deceptive buffer. */
  lemma GreedyIffNeverDeceived(j: Judge, chunks: seq<Bytes>)
    requires ReadsFit(chunks)
    ensures Accepted(Run(j, [], chunks).pieces, 0) == Greedy(j, Concat(chunks), 0)
      <==> NeverDeceived(j, Buffers(j, [], chunks))
  {
    RunExplains(j, [], chunks);
    assert [] + Concat(chunks) == Concat(chunks);
    RunDeceived(j, [], chunks);
    GreedyIffHeaders(j, Run(j, [], chunks).pieces, Concat(chunks), Run(j, [], chunks).rest, 0);
  }
}
