/** The incremental Xbus parser: one byte at a time into a receive buffer. */
module XbusParsers {
  import opened Xbus

  datatype Result = ResOk | ResMessageReceived | ResBufferOverflow | ResCheckSumError | ResFoundPreamble | ResSpuriousByte

  // ---- What the parser does, in terms of the bytes since the last accepted preamble ----

  datatype View = Idle | Collecting(bytes: seq<byte>) | Complete(bytes: seq<byte>) | Overflowed

  /** The bytes are as many as their own header asks for. */
  predicate Whole(bytes: seq<byte>) {
    HeaderComplete(bytes) && RawLength(bytes) == |bytes|
  }

  function Take(v: View, b: byte, size: nat): (View, Result)
    requires !v.Overflowed? && (v.Complete? ==> v.bytes != [])
  {
    match v
    case Idle =>
      if b != PREAMBLE then (Idle, ResSpuriousByte)
      else if size <= 1 then (Overflowed, ResBufferOverflow)
      else (Collecting([b]), ResFoundPreamble)
    case Collecting(bytes) =>
      var more := bytes + [b];
      if Whole(more) then
        if Balanced(more) then (Complete(more), ResMessageReceived) else (Idle, ResCheckSumError)
      else if size <= |more| then (Overflowed, ResBufferOverflow)
      else (Collecting(more), ResOk)
    case Complete(bytes) =>
      // without a new initialisation, later bytes land on the checksum
      (Complete(bytes[..|bytes| - 1] + [b]), ResMessageReceived)
  }

  /** What one more byte does to the running sum, and to the question whether the message is whole. */
  lemma OneMore(bytes: seq<byte>, b: byte, checksum: nat)
    requires bytes != [] && !(HeaderComplete(bytes) && RawLength(bytes) <= |bytes|)
    requires checksum == Sum(bytes[1..]) % 65536
    ensures var more := bytes + [b];
      && (checksum + b) % 65536 == Sum(more[1..]) % 65536
      && (Balanced(more) <==> (checksum + b) % 65536 % 256 == 0)
      && (HeaderComplete(bytes) ==> HeaderComplete(more) && RawLength(more) == RawLength(bytes))
      && (Whole(more) ==> HeaderComplete(bytes))
  {
    var more := bytes + [b];
    assert more[1..] == bytes[1..] + [b];
    SumSnoc(bytes[1..], b);
    RunningSum(Sum(bytes[1..]), b, checksum);
    if HeaderComplete(bytes) {
      HeaderExtends(bytes, [b]);
    }
  }

  lemma Remainder16(x: int, q: int, r: int)
    requires x == 65536 * q + r && 0 <= r < 65536
    ensures x % 65536 == r
  {
  }

  lemma Remainder8(x: int, q: int, r: int)
    requires x == 256 * q + r && 0 <= r < 256
    ensures x % 256 == r
  {
  }

  lemma RunningSum(s: nat, b: byte, checksum: nat)
    requires checksum == s % 65536
    ensures (checksum + b) % 65536 == (s + b) % 65536
    ensures (checksum + b) % 65536 % 256 == (s + b) % 256
  {
    var high, carry := s / 65536, if checksum + b < 65536 then 0 else 1;
    var t := checksum + b - 65536 * carry;
    Remainder16(checksum + b, carry, t);
    Remainder16(s + b, high + carry, t);
    Remainder8(s + b, 256 * (high + carry) + t / 256, t % 256);
  }

  // ---- The parser object ----

  datatype State = HaveNothing | HavePreamble | HaveLengthExtenderByte | HaveLength | HaveMessage | HaveError

  class XbusParser {
    const rxBuffer: array<byte>
    const rxBufferSize: nat
    var idxWrite: nat
    var totalLength: nat
    var payloadLength: nat
    var offsetToPayload: nat
    var checksum: nat
    var lastError: Result
    var state: State

    ghost predicate Valid()
      reads this, rxBuffer
    {
      && 1 <= rxBufferSize <= rxBuffer.Length
      && match state
         case HaveNothing => true
         case HaveError => lastError == ResBufferOverflow
         case HaveMessage => 5 <= totalLength <= rxBufferSize && idxWrite == totalLength - 1
         case _ => totalLength == idxWrite < rxBufferSize && Consistent(rxBuffer[..totalLength])
    }

    /** The running fields describe the bytes received since the preamble, which are not a whole message yet. */
    ghost predicate Consistent(bytes: seq<byte>)
      reads this
    {
      && bytes != []
      && checksum == Sum(bytes[1..]) % 65536
      && match state
         case HavePreamble => |bytes| <= 3
         case HaveLengthExtenderByte =>
           && 4 <= |bytes| <= 5 && bytes[3] == LENGTH_EXTENDER && offsetToPayload == OFFSET_TO_PAYLOAD_EXT
           && (|bytes| == 5 ==> payloadLength == 256 * (bytes[4] as int))
         case HaveLength =>
           && HeaderComplete(bytes) && |bytes| < RawLength(bytes)
           && payloadLength == PayloadLength(bytes) && offsetToPayload == PayloadOffset(bytes)
         case _ => false
    }

    ghost function Abstract(): View
      requires Valid()
      reads this, rxBuffer
    {
      match state
      case HaveNothing => Idle
      case HaveError => Overflowed
      case HaveMessage => Complete(rxBuffer[..totalLength])
      case _ => Collecting(rxBuffer[..totalLength])
    }

    constructor (buffer: array<byte>, bufferSize: nat)
      requires 1 <= bufferSize <= buffer.Length
      ensures Valid() && rxBuffer == buffer && rxBufferSize == bufferSize
      ensures Abstract() == Idle
    {
      rxBuffer, rxBufferSize := buffer, bufferSize;
      idxWrite, totalLength, payloadLength, offsetToPayload, checksum := 0, 0, 0, 0, 0;
      lastError, state := ResOk, HaveNothing;
    }

    /** The case for the bytes up to the first length byte. */
    method AfterPreamble(b: byte, ghost bytes: seq<byte>)
      requires state == HavePreamble && Consistent(bytes) && totalLength == |bytes|
      modifies this`state, this`totalLength, this`payloadLength, this`offsetToPayload, this`checksum
      ensures Consistent(bytes + [b]) && totalLength == |bytes + [b]| && !Whole(bytes + [b])
    {
      OneMore(bytes, b, checksum);
      totalLength := totalLength + 1;
      checksum := (checksum + b) % 65536;
      if totalLength == OFFSET_TO_LEN + 1 {
        if b != LENGTH_EXTENDER {
          state := HaveLength;
          payloadLength := b;
          offsetToPayload := OFFSET_TO_PAYLOAD;
        } else {
          state := HaveLengthExtenderByte;
          offsetToPayload := OFFSET_TO_PAYLOAD_EXT;
        }
      }
    }

    /** The case for the two bytes of an extended length. */
    method AfterExtender(b: byte, ghost bytes: seq<byte>)
      requires state == HaveLengthExtenderByte && Consistent(bytes) && totalLength == |bytes|
      modifies this`state, this`totalLength, this`payloadLength, this`checksum
      ensures Consistent(bytes + [b]) && totalLength == |bytes + [b]| && !Whole(bytes + [b])
    {
      OneMore(bytes, b, checksum);
      totalLength := totalLength + 1;
      checksum := (checksum + b) % 65536;
      if totalLength == OFFSET_TO_LEN + 2 {
        payloadLength := 256 * (b as int);
      }
      if totalLength == OFFSET_TO_LEN + 3 {
        payloadLength := payloadLength + b;
        state := HaveLength;
      }
    }

    /** The case for payload and checksum; good says that the message is whole and adds up. */
    method AfterLength(b: byte, ghost bytes: seq<byte>) returns (result: Result)
      requires state == HaveLength && Consistent(bytes) && totalLength == |bytes|
      modifies this`state, this`totalLength, this`checksum
      ensures totalLength == |bytes + [b]|
      ensures if !Whole(bytes + [b]) then Consistent(bytes + [b]) && result == ResOk
              else if Balanced(bytes + [b]) then state == HaveMessage && result == ResOk && totalLength >= 5
              else state == HaveNothing && result == ResCheckSumError
    {
      OneMore(bytes, b, checksum);
      result := ResOk;
      totalLength := totalLength + 1;
      checksum := (checksum + b) % 65536;
      if totalLength == offsetToPayload + payloadLength + 1 {
        if checksum % 256 == 0 {
          state := HaveMessage;
        } else {
          state := HaveNothing;
          result := ResCheckSumError;
        }
      }
    }

    /** The three cases between preamble and checksum. */
    method Collect(b: byte, ghost bytes: seq<byte>) returns (result: Result)
      requires Consistent(bytes) && totalLength == |bytes|
      modifies this`state, this`totalLength, this`payloadLength, this`offsetToPayload, this`checksum
      ensures totalLength == |bytes + [b]|
      ensures if !Whole(bytes + [b]) then Consistent(bytes + [b]) && result == ResOk
              else if Balanced(bytes + [b]) then state == HaveMessage && result == ResOk && totalLength >= 5
              else state == HaveNothing && result == ResCheckSumError
    {
      result := ResOk;
      match state {
        case HavePreamble => AfterPreamble(b, bytes);
        case HaveLengthExtenderByte => AfterExtender(b, bytes);
        case HaveLength => result := AfterLength(b, bytes);
      }
    }

    /** Moves on to the next cell; the parser is stuck once the buffer is full without a message. */
    method AdvanceIndex(soFar: Result) returns (result: Result)
      modifies this`idxWrite, this`state, this`lastError
      ensures idxWrite == old(idxWrite) + 1
      ensures if idxWrite >= rxBufferSize then state == HaveError && result == lastError == ResBufferOverflow
              else state == old(state) && lastError == old(lastError) && result == soFar
    {
      result := soFar;
      idxWrite := idxWrite + 1;
      if idxWrite >= rxBufferSize {
        state := HaveError;
        lastError := ResBufferOverflow;
        result := lastError;
      }
    }

    method TakeFirst(b: byte) returns (result: Result)
      requires Valid() && state == HaveNothing
      modifies this, rxBuffer
      ensures Valid() && (Abstract(), result) == Take(Idle, b, rxBufferSize)
    {
      if b == PREAMBLE {
        idxWrite := 0;
        rxBuffer[idxWrite] := b;
        state := HavePreamble;
        totalLength := 1;
        checksum := 0;
        assert rxBuffer[..1] == [b];
        result := AdvanceIndex(ResFoundPreamble);
      } else {
        result := ResSpuriousByte;
      }
    }

    method TakeNext(b: byte) returns (result: Result)
      requires Valid() && Abstract().Collecting?
      modifies this, rxBuffer
      ensures Valid() && (Abstract(), result) == Take(old(Abstract()), b, rxBufferSize)
    {
      ghost var bytes := rxBuffer[..idxWrite];
      rxBuffer[idxWrite] := b;
      assert rxBuffer[..idxWrite + 1] == bytes + [b];
      result := Collect(rxBuffer[idxWrite], bytes);
      if result != ResCheckSumError {
        if state == HaveMessage {
          result := ResMessageReceived;
        } else {
          result := AdvanceIndex(result);
        }
      }
    }

    method TakeLate(b: byte) returns (result: Result)
      requires Valid() && state == HaveMessage
      modifies this, rxBuffer
      ensures Valid() && (Abstract(), result) == Take(old(Abstract()), b, rxBufferSize)
    {
      ghost var bytes := rxBuffer[..totalLength];
      rxBuffer[idxWrite] := b;
      assert rxBuffer[..totalLength] == bytes[..|bytes| - 1] + [b];
      result := ResMessageReceived;
    }

    /**
     Takes one byte. The size variable of the caller is written when there is a message: sizeIn is what it
     held, sizeOut what it holds afterwards. A parser that has overflowed must be started anew.
     */
    method InsertByte(b: byte, sizeIn: nat) returns (result: Result, sizeOut: nat)
      requires Valid() && state != HaveError
      modifies this, rxBuffer
      ensures Valid()
      ensures (Abstract(), result) == Take(old(Abstract()), b, rxBufferSize)
      ensures sizeOut == if Abstract().Complete? then |Abstract().bytes| else sizeIn
    {
      if state == HaveNothing {
        result := TakeFirst(b);
      } else if state == HaveMessage {
        result := TakeLate(b);
      } else {
        result := TakeNext(b);
      }
      sizeOut := if state == HaveMessage then totalLength else sizeIn;
    }
  }
}
