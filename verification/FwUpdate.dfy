/** The firmware updater object: it reads the file through the host, and sends Xbus messages from its transmit buffer. */
module FwUpdate {
  import opened Sequences
  import opened Xbus
  import opened FwImage
  import opened FwMachine

  const FWU_REQUIRED_TXBUFFER_SIZE := 300
  const XBUS_MASTERDEVICE: byte := 0xff

  /** The message that carries a command. */
  function Frame(c: Command): seq<byte> {
    if |c.Payload()| < 65536 then Encode(XBUS_MASTERDEVICE, XMID_FIRMWARE_UPDATE, c.Payload()) else []
  }

  function Frames(commands: seq<Command>): (frames: seq<seq<byte>>)
    ensures |frames| == |commands|
  {
    Map(Frame, commands)
  }

  /** A buffer with some bytes written over it. */
  function Overlaid(buffer: seq<byte>, at: nat, bytes: seq<byte>): (r: seq<byte>)
    requires at + |bytes| <= |buffer|
    ensures |r| == |buffer|
  {
    buffer[..at] + bytes + buffer[at + |bytes|..]
  }

  lemma OneMoreOverlaid(buffer: seq<byte>, at: nat, bytes: seq<byte>, i: nat)
    requires i < |bytes| && at + |bytes| <= |buffer|
    ensures Overlaid(buffer, at, bytes[..i + 1]) == Overlaid(buffer, at, bytes[..i])[at + i := bytes[i]]
  {
  }

  /** Bytes laid behind what is already there continue it. */
  lemma OverlaidBehind(buffer: seq<byte>, front: seq<byte>, bytes: seq<byte>)
    requires |front| + |bytes| <= |buffer| && buffer[..|front|] == front
    ensures Overlaid(buffer, |front|, bytes)[..|front| + |bytes|] == front + bytes
  {
  }

  /** The header of a message to the module with a payload of n bytes. */
  function Opening(n: nat): (h: seq<byte>)
    requires n < 65536
    ensures |h| == if n < 255 then 4 else 6
  {
    Header(XBUS_MASTERDEVICE, XMID_FIRMWARE_UPDATE, n)
  }

  predicate StartsWith(buffer: seq<byte>, front: seq<byte>) {
    |front| <= |buffer| && buffer[..|front|] == front
  }

  lemma Starts(buffer: seq<byte>, first: seq<byte>, second: seq<byte>)
    requires StartsWith(buffer, first + second)
    ensures buffer[..|first|] == first && buffer == first + buffer[|first|..]
    ensures buffer[|first|..|first| + |second|] == second
  {
    var n := |first| + |second|;
    assert buffer[..n][..|first|] == buffer[..|first|] && buffer[..n][|first|..] == buffer[|first|..n];
    assert (first + second)[..|first|] == first && (first + second)[|first|..] == second;
  }

  lemma FrameSize(c: Command)
    requires |c.Payload()| < 65536
    ensures |Frame(c)| == |Opening(|c.Payload()|)| + |c.Payload()| + 1
  {
  }

  /** A buffer that holds header and payload is ready for its checksum. */
  lemma ReadyForChecksum(buffer: seq<byte>, c: Command)
    requires |c.Payload()| < 65536 && StartsWith(buffer, Opening(|c.Payload()|) + c.Payload())
    ensures HeaderComplete(buffer) && RawLength(buffer) == |Frame(c)|
  {
    var front := Opening(|c.Payload()|);
    FrameSize(c);
    Starts(buffer, front, c.Payload());
    HeaderExtends(front, buffer[|front|..]);
  }

  /** And with its checksum it holds the frame. */
  lemma FrameIsComplete(before: seq<byte>, c: Command, after: seq<byte>)
    requires |c.Payload()| < 65536 && StartsWith(before, Opening(|c.Payload()|) + c.Payload())
    requires |Frame(c)| <= |before| && after == before[|Frame(c)| - 1 := Checksum(before[1..|Frame(c)| - 1])]
    ensures StartsWith(after, Opening(|c.Payload()|) + c.Payload()) && StartsWith(after, Frame(c))
  {
    var h, payload := Opening(|c.Payload()|), c.Payload();
    FrameSize(c);
    Starts(before, h, payload);
    BuiltMessage(XBUS_MASTERDEVICE, XMID_FIRMWARE_UPDATE, payload, before, after);
  }

  lemma PageSlicePayload(slice: seq<byte>)
    ensures PageSlice(slice).Payload() == [FWUP_PAGESLICE] + slice && |PageSlice(slice).Payload()| == 1 + |slice|
  {
  }

  lemma PageHeaderPayload(h: seq<byte>, address: seq<byte>, slices: nat)
    ensures |PageHeader(address, slices).Payload()| == |address| + 3
    ensures (h + ([FWUP_HEADER] + address)) + [slices % 256, slices / 256 % 256]
      == h + PageHeader(address, slices).Payload()
  {
  }

  class FwUpdate {
    /** What the host's read callback reads from. */
    const file: seq<byte>
    const txBuffer: array<byte>
    var state: State
    var header: XffHeader
    var nofPages: nat
    var nofSlicesPerPage: nat
    var pageCounter: nat
    var sliceCounter: nat
    var readIndex: nat
    var endOfFile: bool
    /** What the host's send callback was given, and the verdicts its ready handler was given. */
    var wire: seq<seq<byte>>
    var verdicts: seq<Verdict>
    /** What the messages on the wire mean. */
    ghost var commands: seq<Command>

    ghost predicate Valid()
      reads this
    {
      txBuffer.Length == FWU_REQUIRED_TXBUFFER_SIZE && wire == Frames(commands)
    }

    ghost function Abstract(): Fw
      reads this
    {
      Fw(state, header, nofPages, nofSlicesPerPage, pageCounter, sliceCounter, readIndex, endOfFile, commands, verdicts)
    }

    constructor (file: seq<byte>, txBuffer: array<byte>, header: XffHeader)
      requires txBuffer.Length == FWU_REQUIRED_TXBUFFER_SIZE
      ensures Valid() && this.file == file && this.txBuffer == txBuffer && Fresh(Abstract())
    {
      this.file, this.txBuffer, this.header := file, txBuffer, header;
      state := Idle;
      nofPages, nofSlicesPerPage, pageCounter, sliceCounter, readIndex := 0, 0, 0, 0, 0;
      endOfFile := false;
      wire, verdicts, commands := [], [], [];
    }

    // ---- Reading ----
    // A header is read from start on, and has been read up to the place at, or else to the end of the file.

    method ReadUint32(ghost start: nat, ghost at: nat) returns (n: nat)
      requires start <= at && readIndex == ReadTo(file, start, at)
      modifies this`readIndex, this`endOfFile
      ensures n == U32(file, at) && readIndex == ReadTo(file, start, at + 4)
      ensures endOfFile == (old(endOfFile) || at + 4 > |file|)
    {
      ReadingOn(file, start, at, 4);
      var buffer := Read(file, readIndex, 4);
      readIndex := readIndex + |buffer|;
      if |buffer| == 4 {
        n := ((buffer[0] as int * 256 + buffer[1] as int) * 256 + buffer[2] as int) * 256 + buffer[3] as int;
      } else {
        endOfFile := true;
        n := 0;
      }
    }

    method ReadUint16(ghost start: nat, ghost at: nat) returns (n: nat)
      requires start <= at && readIndex == ReadTo(file, start, at)
      modifies this`readIndex, this`endOfFile
      ensures n == U16(file, at) && readIndex == ReadTo(file, start, at + 2)
      ensures endOfFile == (old(endOfFile) || at + 2 > |file|)
    {
      ReadingOn(file, start, at, 2);
      var buffer := Read(file, readIndex, 2);
      readIndex := readIndex + |buffer|;
      if |buffer| == 2 {
        n := buffer[0] as int * 256 + buffer[1] as int;
      } else {
        endOfFile := true;
        n := 0;
      }
    }

    method ReadUint8(ghost start: nat, ghost at: nat) returns (b: byte)
      requires start <= at && readIndex == ReadTo(file, start, at)
      modifies this`readIndex, this`endOfFile
      ensures b == U8(file, at) && readIndex == ReadTo(file, start, at + 1)
      ensures endOfFile == (old(endOfFile) || at + 1 > |file|)
    {
      ReadingOn(file, start, at, 1);
      var buffer := Read(file, readIndex, 1);
      readIndex := readIndex + |buffer|;
      if |buffer| == 1 {
        b := buffer[0];
      } else {
        endOfFile := true;
        b := 0;
      }
    }

    method ReadBytes(ghost start: nat, ghost at: nat, n: nat) returns (bytes: seq<byte>)
      requires start <= at && readIndex == ReadTo(file, start, at) && n > 0
      modifies this`readIndex, this`endOfFile
      ensures bytes == Bytes(file, at, n) && readIndex == ReadTo(file, start, at + n)
      ensures endOfFile == (old(endOfFile) || at + n > |file|)
    {
      bytes := [];
      var i := 0;
      while i < n
        invariant 0 <= i <= n && bytes == Bytes(file, at, i)
        invariant readIndex == ReadTo(file, start, at + i)
        invariant endOfFile == (old(endOfFile) || (i > 0 && at + i > |file|))
      {
        var b := ReadUint8(start, at + i);
        bytes := bytes + [b];
        i := i + 1;
      }
    }

    /** The header at the read index, field by field, in the older or the newer format, also if the file ends within it. */
    method ReadXffHeader()
      modifies this`readIndex, this`endOfFile, this`header
      ensures Abstract() == ReadHeader(old(Abstract()), file)
    {
      ghost var start := readIndex;
      var globalId := ReadUint32(start, start);
      if globalId != 0 {
        header := header.(globalId := globalId);
        ReadOlderHeader(start);
      } else {
        var headerSize := ReadUint32(start, start + 4);
        globalId := ReadUint32(start, start + 8);
        header := header.(globalId := globalId);
        ReadNewerHeader(start);
      }
    }

    /** The fields that both formats have in common: section size to page size. */
    method ReadSizes(ghost start: nat, ghost at: nat)
      requires start <= at && readIndex == ReadTo(file, start, at)
      modifies this`readIndex, this`endOfFile, this`header
      ensures header == SizesAt(file, at, old(header))
      ensures readIndex == ReadTo(file, start, at + 14)
      ensures endOfFile == (old(endOfFile) || at + 14 > |file|)
    {
      var sectionSize := ReadUint32(start, at);
      var revision := ReadBytes(start, at + 4, 3);
      var version := ReadBytes(start, at + 7, 2);
      var chipId := ReadUint8(start, at + 9);
      var sections := ReadUint8(start, at + 10);
      var addressLength := ReadUint8(start, at + 11);
      var pageSize := ReadUint16(start, at + 12);
      header := header.(sectionSize := sectionSize, firmwareRevision := revision, xffVersion := version,
                        chipId := chipId, numberOfSections := sections, addressLength := addressLength,
                        pageSize := pageSize);
    }

    method ReadOlderHeader(ghost start: nat)
      requires U32(file, start) != 0 && readIndex == ReadTo(file, start, start + 4)
      modifies this`readIndex, this`endOfFile, this`header
      ensures header == OlderHeaderAt(file, start, old(header))
      ensures readIndex == ReadTo(file, start, Body(file, start))
      ensures endOfFile == (old(endOfFile) || !HeaderFits(file, start))
    {
      ReadSizes(start, start + 4);
      FirstOfTwo(file, start + 11);
      var sliceSize := FWUP_DEFAULT_SLICE_SIZE;
      if header.xffVersion[0] >= 2 {
        sliceSize := ReadUint16(start, start + 18);
      }
      header := header.(sliceSize := sliceSize);
    }

    method ReadNewerHeader(ghost start: nat)
      requires U32(file, start) == 0 && readIndex == ReadTo(file, start, start + 12)
      modifies this`readIndex, this`endOfFile, this`header
      ensures header == NewerHeaderAt(file, start, old(header))
      ensures readIndex == ReadTo(file, start, Body(file, start))
      ensures endOfFile == (old(endOfFile) || !HeaderFits(file, start))
    {
      ReadSizes(start, start + 12);
      FirstOfTwo(file, start + 19);
      var sliceSize := ReadUint16(start, start + 26);
      var hardware := ReadBytes(start, start + 28, 2);
      header := header.(sliceSize := sliceSize, hardwareVersion := hardware);
      if header.xffVersion[0] >= 4 {
        var productCode := ReadBytes(start, start + 30, 20);
        var variant := ReadUint32(start, start + 50);
        header := header.(productCode := productCode, productVariant := variant);
      }
    }

    // ---- Sending ----

    /** Copies bytes into the transmit buffer. */
    method Store(at: nat, bytes: seq<byte>)
      requires at + |bytes| <= txBuffer.Length
      modifies txBuffer
      ensures txBuffer[..] == Overlaid(old(txBuffer[..]), at, bytes)
    {
      ghost var before := txBuffer[..];
      var i := 0;
      while i < |bytes|
        invariant 0 <= i <= |bytes|
        invariant txBuffer[..] == Overlaid(before, at, bytes[..i])
      {
        OneMoreOverlaid(before, at, bytes, i);
        txBuffer[at + i] := bytes[i];
        i := i + 1;
      }
      assert bytes[..i] == bytes;
    }

    /** Adds the checksum and hands the message to the host. */
    method Transmit(ghost c: Command)
      requires Valid() && |c.Payload()| <= 293 && StartsWith(txBuffer[..], Opening(|c.Payload()|) + c.Payload())
      modifies this`wire, this`commands, txBuffer
      ensures Valid() && commands == old(commands) + [c]
    {
      ghost var before := txBuffer[..];
      FrameSize(c);
      ReadyForChecksum(before, c);
      InsertChecksum(txBuffer);
      FrameIsComplete(before, c, txBuffer[..]);
      ReadyForChecksum(txBuffer[..], c);
      var n := GetRawLength(txBuffer);
      wire := wire + [txBuffer[..n]];
      commands := commands + [c];
      MapSnoc(Frame, old(commands), c);
    }

    /** Starts a message whose payload begins as given. */
    method Compose(n: nat, bytes: seq<byte>)
      requires Valid() && |bytes| <= n <= 293
      modifies txBuffer
      ensures StartsWith(txBuffer[..], Opening(n) + bytes)
    {
      Message(txBuffer, XBUS_MASTERDEVICE, XMID_FIRMWARE_UPDATE, n);
      ghost var before := txBuffer[..];
      assert before[..|Opening(n)|] == Opening(n);
      Store(|Opening(n)|, bytes);
      OverlaidBehind(before, Opening(n), bytes);
    }

    /** A command whose payload is at hand. */
    method Send(c: Command)
      requires Valid() && |c.Payload()| <= 293
      modifies this`wire, this`commands, txBuffer
      ensures Valid() && commands == old(commands) + [c]
    {
      Compose(|c.Payload()|, c.Payload());
      Transmit(c);
    }

    method SendReady()
      requires Valid()
      modifies this`wire, this`commands, txBuffer
      ensures Valid() && commands == old(commands) + [Ready]
    {
      Send(Ready);
    }

    method SendOther()
      requires Valid()
      modifies this`wire, this`commands, txBuffer
      ensures Valid() && Abstract() == FwMachine.SendOther(old(Abstract()))
    {
      Send(Other(header.chipId));
    }

    method SendFinished()
      requires Valid()
      modifies this`wire, this`commands, txBuffer
      ensures Valid() && commands == old(commands) + [Finished]
    {
      Send(Finished);
    }

    /** The next bytes of the file, straight into the transmit buffer, behind a command byte. */
    method FetchPayload(first: byte, n: nat, extra: nat) returns (bytes: seq<byte>)
      requires Valid() && 1 + n + extra <= 293
      modifies this`readIndex, txBuffer
      ensures bytes == Read(file, old(readIndex), n) && readIndex == old(readIndex) + |bytes|
      ensures StartsWith(txBuffer[..], Opening(1 + n + extra) + ([first] + bytes))
    {
      bytes := Read(file, readIndex, n);
      Compose(1 + n + extra, [first] + bytes);
      readIndex := readIndex + |bytes|;
    }

    method SendHeader()
      requires Valid()
      modifies this`readIndex, this`endOfFile, this`wire, this`commands, txBuffer
      ensures Valid() && Abstract() == FwMachine.SendHeader(old(Abstract()), file)
    {
      var bytes := FetchPayload(FWUP_HEADER, header.addressLength, 2);
      if |bytes| == header.addressLength {
        AppendSliceCount(bytes);
        Transmit(PageHeader(bytes, nofSlicesPerPage));
      } else {
        endOfFile := true;
      }
    }

    /** The slice count of a page header, behind the address. */
    method AppendSliceCount(bytes: seq<byte>)
      requires Valid() && |bytes| <= 255
      requires StartsWith(txBuffer[..], Opening(|bytes| + 3) + ([FWUP_HEADER] + bytes))
      modifies txBuffer
      ensures var c := PageHeader(bytes, nofSlicesPerPage);
        |c.Payload()| == |bytes| + 3 && StartsWith(txBuffer[..], Opening(|bytes| + 3) + c.Payload())
    {
      ghost var before := txBuffer[..];
      var front := Opening(|bytes| + 3) + ([FWUP_HEADER] + bytes);
      var count: seq<byte> := [nofSlicesPerPage % 256, nofSlicesPerPage / 256 % 256];
      Store(|front|, count);
      OverlaidBehind(before, front, count);
      PageHeaderPayload(Opening(|bytes| + 3), bytes, nofSlicesPerPage);
    }

    method SendSlice()
      requires Valid() && header.sliceSize <= 292
      modifies this`readIndex, this`endOfFile, this`wire, this`commands, txBuffer
      ensures Valid() && Abstract() == FwMachine.SendSlice(old(Abstract()), file)
    {
      var bytes := FetchPayload(FWUP_PAGESLICE, header.sliceSize, 0);
      if |bytes| == header.sliceSize {
        PageSlicePayload(bytes);
        assert StartsWith(txBuffer[..], Opening(1 + |bytes|) + ([FWUP_PAGESLICE] + bytes));
        Transmit(PageSlice(bytes));
      } else {
        endOfFile := true;
      }
    }

    // ---- The protocol ----

    method EnterNewSection()
      requires Valid() && Divisible(Abstract(), file)
      modifies this, txBuffer
      ensures Valid() && Abstract() == FwMachine.EnterNewSection(old(Abstract()), file)
    {
      GeometryIsTheHeaders(file, readIndex, header);
      ReadXffHeader();
      SizeUp();
      SendOther();
    }

    method SizeUp()
      requires GeometryOf(header).Record() > 0 && header.sliceSize > 0
      modifies this`nofPages, this`nofSlicesPerPage, this`pageCounter, this`sliceCounter
      ensures Abstract() == FwMachine.SizeUp(old(Abstract()))
    {
      nofPages := Div(header.sectionSize, header.pageSize + header.addressLength);
      nofSlicesPerPage := Div(header.pageSize, header.sliceSize);
      pageCounter := 0;
      sliceCounter := 0;
    }

    method Start()
      requires Valid()
      modifies this, txBuffer
      ensures Valid() && Abstract() == Begin(old(Abstract()))
    {
      if state == Idle {
        readIndex := 0;
        endOfFile := false;
        state := FwMachine.Start;
        SendReady();
      } else {
        verdicts := verdicts + [Failed];
      }
    }

    method Fail()
      requires Valid()
      modifies this`verdicts, this`state
      ensures Valid() && Abstract() == FwMachine.Fail(old(Abstract()))
    {
      verdicts := verdicts + [Failed];
      state := Idle;
    }

    /** A message from the module: what one step of the state machine says. */
    method HandleXbus(m: array<byte>)
      requires Valid() && m != txBuffer && Readable(m) && PayloadOffset(m[..]) < m.Length
      requires EntersSection(Abstract(), m[OFFSET_TO_MID], m[PayloadOffset(m[..])]) ==> Divisible(Abstract(), file)
      requires state.WaitHeaderResult? || state.WaitSliceReady? ==> header.sliceSize <= 292
      modifies this, txBuffer
      ensures Valid()
      ensures Abstract() == Handle(old(Abstract()), file, m[OFFSET_TO_MID], m[PayloadOffset(m[..])])
    {
      if m[OFFSET_TO_MID] != XMID_FIRMWARE_UPDATE {
        return;
      }
      var ack := m[PayloadOffset(m[..])];
      match state {
        case Idle =>
        case Start =>
          if ack == FWUP_READY {
            EnterNewSection();
            state := WaitReady;
          }
        case WaitReady =>
          if ack == FWUP_READY {
            SendHeader();
            state := WaitHeaderResult;
          } else {
            Fail();
          }
        case WaitHeaderResult =>
          if ack == FWUP_READY {
            SendSlice();
            sliceCounter := 1;
            state := WaitSliceReady;
          } else {
            Fail();
          }
        case WaitSliceReady =>
          if ack == FWUP_READY {
            if sliceCounter < nofSlicesPerPage {
              SendSlice();
              sliceCounter := sliceCounter + 1;
            } else {
              state := WaitPageOk;
            }
          } else {
            Fail();
          }
        case WaitPageOk =>
          if ack == FWUP_OK {
            state := WaitPageReady;
          } else {
            Fail();
          }
        case WaitPageReady =>
          if ack == FWUP_READY {
            PageIsReady();
          } else {
            Fail();
          }
      }
    }

    /** All pages of the section are sent. */
    method NextSection(ghost was: Fw)
      requires Valid() && LastPageDone(was) && Divisible(was, file)
      requires Abstract() == was.(pageCounter := was.pageCounter + 1)
      modifies this, txBuffer
      ensures Valid() && Abstract() == FwMachine.EnterNewSection(was, file).(state := WaitReady)
    {
      CounterIsReset(was, file);
      EnterNewSection();
      state := WaitReady;
    }

    /** There is another page, or the file has ended. */
    method NextPage(ghost was: Fw)
      requires Valid() && !LastPageDone(was) && Abstract() == was.(pageCounter := was.pageCounter + 1)
      modifies this, txBuffer
      ensures Valid() && Abstract() == PageReady(was, file)
    {
      SendHeader();
      if endOfFile {
        SendFinished();
        verdicts := verdicts + [Success];
        state := Idle;
      } else {
        state := WaitHeaderResult;
      }
    }

    /** The page is done: on to the next section, to the next page, or to the end. */
    method PageIsReady()
      requires Valid() && state.WaitPageReady?
      requires LastPageDone(Abstract()) ==> Divisible(Abstract(), file)
      modifies this, txBuffer
      ensures Valid() && Abstract() == PageReady(old(Abstract()), file)
    {
      ghost var was := Abstract();
      pageCounter := pageCounter + 1;
      if nofPages != 0 && pageCounter == nofPages {
        NextSection(was);
      } else {
        NextPage(was);
      }
    }
  }
}
