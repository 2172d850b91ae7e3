/** From file to module: the bytes that an update puts on the wire, taken apart by the incremental parser. */
module FwWire {
  import opened Sequences
  import opened Xbus
  import opened XbusStreams
  import opened FwImage
  import opened FwMachine
  import opened FwUpdate

  /** What an address length of one byte, a slice of at most 292 bytes and a page size in two bytes allow. */
  predicate Small(c: Command) {
    match c
    case PageHeader(address, slices) => |address| <= 255 && slices < 65536
    case PageSlice(slice) => |slice| <= 292
    case _ => true
  }

  /** The payload fits the transmit buffer, with header and checksum. */
  lemma SmallPayload(c: Command)
    requires Small(c)
    ensures |c.Payload()| <= 293
  {
  }

  predicate AllSmall(commands: seq<Command>) {
    forall i :: 0 <= i < |commands| ==> Small(commands[i])
  }

  lemma SmallAppend(a: seq<Command>, b: seq<Command>)
    requires AllSmall(a) && AllSmall(b)
    ensures AllSmall(a + b)
  {
  }

  lemma {:induction false} SlicesAreSmall(f: seq<byte>, at: nat, size: nat, n: nat)
    requires size <= 292
    ensures AllSmall(Slices(f, at, size, n))
    decreases n
  {
    if n > 0 {
      SlicesAreSmall(f, at + size, size, n - 1);
      SmallAppend([PageSlice(Read(f, at, size))], Slices(f, at + size, size, n - 1));
    }
  }

  lemma {:induction false} PagesAreSmall(f: seq<byte>, at: nat, g: Geometry, n: nat, pages: nat)
    requires g.slice <= 292 && g.address <= 255 && n < 65536
    ensures AllSmall(Pages(f, at, g, n, pages))
    decreases pages
  {
    if pages > 0 {
      var rest := Pages(f, at + g.Record(), g, n, pages - 1);
      PagesAreSmall(f, at + g.Record(), g, n, pages - 1);
      SlicesAreSmall(f, at + g.address, g.slice, n);
      SmallAppend(Slices(f, at + g.address, g.slice, n), rest);
      SmallAppend([PageHeader(Read(f, at, g.address), n)], Slices(f, at + g.address, g.slice, n) + rest);
    }
  }

  lemma AddressIsAByte(f: seq<byte>, i: nat)
    ensures GeometryAt(f, i).address <= 255
  {
  }

  lemma {:induction false} SectionsAreSmall(f: seq<byte>, i: nat)
    requires WellFormed(f, i)
    ensures AllSmall(Sections(f, i))
    decreases |f| - i
  {
    var g := GeometryAt(f, i);
    var pages := Pages(f, Body(f, i), g, SlicesPerPage(g), PageCount(f, i));
    var rest := if Announced(f, i) != 0 then Sections(f, SectionEnd(f, i)) else [];
    AddressIsAByte(f, i);
    EndOfAtLeast(0, g.slice, SlicesPerPage(g));
    PagesAreSmall(f, Body(f, i), g, SlicesPerPage(g), PageCount(f, i));
    if Announced(f, i) != 0 {
      SectionsAreSmall(f, SectionEnd(f, i));
    }
    SmallAppend(pages, rest);
    SmallAppend([Other(g.chip)], pages + rest);
  }

  lemma TransferIsSmall(f: seq<byte>)
    requires WellFormed(f, 0)
    ensures AllSmall(Transfer(f))
  {
    SectionsAreSmall(f, 0);
    SmallAppend(Sections(f, 0), [Finished]);
    SmallAppend([Ready], Sections(f, 0) + [Finished]);
  }

  lemma FrameIsDelivered(c: Command)
    requires Small(c)
    ensures Delivered(Frame(c), 300)
  {
    SmallPayload(c);
    assert IsEncoded(Frame(c));
    EncodedIsDelivered(Frame(c), 300);
  }

  /** Every message of a transfer arrives as it was sent, in a receive buffer of 300 bytes. */
  lemma TransferArrives(f: seq<byte>)
    requires WellFormed(f, 0)
    ensures ReceiveAll(Concat(Frames(Transfer(f))), 300) == Frames(Transfer(f))
  {
    var commands := Transfer(f);
    TransferIsSmall(f);
    forall i | 0 <= i < |commands| ensures Delivered(Frames(commands)[i], 300) {
      FrameIsDelivered(commands[i]);
    }
    DeliveredInOrder(Frames(commands), 300);
  }

  /** The payload of a received frame is the payload of the command that was sent. */
  lemma PayloadArrives(c: Command)
    requires Small(c)
    ensures var m := Frame(c);
      && HeaderComplete(m) && PayloadOffset(m) + PayloadLength(m) <= |m|
      && m[PayloadOffset(m)..PayloadOffset(m) + PayloadLength(m)] == c.Payload()
  {
    SmallPayload(c);
    EncodeIsWellFormed(XBUS_MASTERDEVICE, XMID_FIRMWARE_UPDATE, c.Payload());
  }

  /** How the module reads a payload. */
  function Understood(p: seq<byte>): (c: seq<Command>) {
    if |p| == 1 && p[0] == 0x52 then [Ready]
    else if |p| == 1 && p[0] == 0x46 then [Finished]
    else if |p| == 2 && p[0] == 0x4f then [Other(p[1])]
    else if |p| >= 3 && p[0] == 0x53 then [PageHeader(p[1..|p| - 2], p[|p| - 2] as int + 256 * (p[|p| - 1] as int))]
    else if |p| >= 1 && p[0] == 0x54 then [PageSlice(p[1..])]
    else []
  }

  lemma LowByteFirst(n: nat)
    requires n < 65536
    ensures n % 256 + 256 * (n / 256 % 256) == n
  {
  }

  /** What a frame says to the module. */
  function Said(m: seq<byte>): seq<Command> {
    if HeaderComplete(m) && PayloadOffset(m) + PayloadLength(m) <= |m| then
      Understood(m[PayloadOffset(m)..PayloadOffset(m) + PayloadLength(m)])
    else
      []
  }

  function AllSaid(frames: seq<seq<byte>>): seq<Command> {
    if frames == [] then [] else Said(frames[0]) + AllSaid(frames[1..])
  }

  /** A payload means one command only: the one that was sent. */
  lemma PayloadIsUnderstood(c: Command)
    requires Small(c)
    ensures Understood(c.Payload()) == [c]
  {
    match c {
      case PageHeader(address, slices) =>
        LowByteFirst(slices);
        var p := c.Payload();
        assert |p| == |address| + 3 && p[1..|p| - 2] == address;
      case _ =>
    }
  }

  /** So what a received frame says is what was sent, to the module's address and under the update's message id. */
  lemma CommandArrives(c: Command)
    requires Small(c)
    ensures var m := Frame(c); |m| >= 3 && m[1] == 0xff && m[2] == 0xf2 && Said(m) == [c]
  {
    SmallPayload(c);
    PayloadArrives(c);
    EncodedBytes(XBUS_MASTERDEVICE, XMID_FIRMWARE_UPDATE, c.Payload());
    PayloadIsUnderstood(c);
  }

  lemma {:induction false} FramesSay(commands: seq<Command>)
    requires AllSmall(commands)
    ensures AllSaid(Frames(commands)) == commands
    decreases |commands|
  {
    if commands != [] {
      var c, rest := commands[0], commands[1..];
      CommandArrives(c);
      FramesSay(rest);
      MapCons(Frame, c, rest);
      assert commands == [c] + rest;
      SaidFirst(Frame(c), Frames(rest));
    }
  }

  lemma SaidFirst(m: seq<byte>, more: seq<seq<byte>>)
    ensures AllSaid([m] + more) == Said(m) + AllSaid(more)
  {
    assert ([m] + more)[1..] == more;
  }

  /**
   End to end: what the module understands, when it takes the bytes of a transfer apart with the incremental
   parser, is the transfer; so the addresses and slices it gets are the file without its section headers.
   */
  lemma TransferIsUnderstood(f: seq<byte>)
    requires WellFormed(f, 0)
    ensures var heard := AllSaid(ReceiveAll(Concat(Frames(Transfer(f))), 300));
      heard == Transfer(f) && CarriedAll(heard) == WithoutHeaders(f, 0)
  {
    TransferArrives(f);
    TransferIsSmall(f);
    FramesSay(Transfer(f));
    TransferCarriesTheFile(f);
  }
}
