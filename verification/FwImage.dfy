/** A firmware file: sections of a header and pages, each page an address and a number of slices. */
module FwImage {
  import opened Xbus

  const FWUP_READY: byte := 0x52
  const FWUP_OK: byte := 0x53
  const FWUP_FINISHED: byte := 0x46
  const FWUP_HEADER: byte := 0x53
  const FWUP_PAGESLICE: byte := 0x54
  const FWUP_OTHER: byte := 0x4f
  const FWUP_DEFAULT_SLICE_SIZE := 64

  datatype XffHeader = XffHeader(
    globalId: nat, sectionSize: nat, firmwareRevision: seq<byte>, xffVersion: seq<byte>, chipId: byte,
    numberOfSections: byte, addressLength: byte, pageSize: nat, sliceSize: nat,
    hardwareVersion: seq<byte>, productCode: seq<byte>, productVariant: nat)

  // ---- Reading ----

  /** At most n bytes of the file. */
  function Read(f: seq<byte>, at: nat, n: nat): (bytes: seq<byte>)
    ensures |bytes| <= n && (at + n <= |f| ==> bytes == f[at..at + n])
  {
    if at + n <= |f| then f[at..at + n] else if at <= |f| then f[at..] else []
  }

  /** Where one is who has read on from start up to the place at: at the end of the file, if that comes first. */
  function ReadTo(f: seq<byte>, start: nat, at: nat): nat {
    if at <= |f| then at else if start <= |f| then |f| else start
  }

  lemma ReadingOn(f: seq<byte>, start: nat, at: nat, n: nat)
    requires start <= at
    ensures var i := ReadTo(f, start, at);
      i + |Read(f, i, n)| == ReadTo(f, start, at + n) && (i == at || (i >= |f| && at > |f|))
  {
  }

  /** A number of which a byte is missing is read as zero. */
  function U8(f: seq<byte>, i: nat): byte {
    if i + 1 <= |f| then f[i] else 0
  }

  function U16(f: seq<byte>, i: nat): (n: nat)
    ensures n < 65536
  {
    if i + 2 <= |f| then f[i] as int * 256 + f[i + 1] as int else 0
  }

  function U32(f: seq<byte>, i: nat): nat {
    if i + 4 <= |f| then U16(f, i) * 65536 + U16(f, i + 2) else 0
  }

  function Bytes(f: seq<byte>, i: nat, n: nat): (r: seq<byte>)
    ensures |r| == n
  {
    if n == 0 then [] else Bytes(f, i, n - 1) + [U8(f, i + n - 1)]
  }

  lemma FirstOfTwo(f: seq<byte>, i: nat)
    ensures Bytes(f, i, 2)[0] == U8(f, i)
  {
    assert Bytes(f, i, 1) == Bytes(f, i, 0) + [U8(f, i)];
  }

  // ---- The section header at a place in the file ----

  /** The older header starts with a nonzero id and is 18 or 20 bytes long, the newer one 30 or 54. */
  function HeaderLength(f: seq<byte>, i: nat): (n: nat)
    ensures n == 18 || n == 20 || n == 30 || n == 54
  {
    if U32(f, i) != 0 then if U8(f, i + 11) >= 2 then 20 else 18 else if U8(f, i + 19) >= 4 then 54 else 30
  }

  /** The file does not end within the header. */
  predicate HeaderFits(f: seq<byte>, i: nat) {
    i + HeaderLength(f, i) <= |f|
  }

  /** The fields that both formats have in common, from i on: section size to page size. */
  function SizesAt(f: seq<byte>, i: nat, former: XffHeader): XffHeader {
    former.(
      sectionSize := U32(f, i), firmwareRevision := Bytes(f, i + 4, 3), xffVersion := Bytes(f, i + 7, 2),
      chipId := U8(f, i + 9), numberOfSections := U8(f, i + 10), addressLength := U8(f, i + 11), pageSize := U16(f, i + 12))
  }

  function OlderHeaderAt(f: seq<byte>, i: nat, former: XffHeader): XffHeader {
    SizesAt(f, i + 4, former).(sliceSize := if U8(f, i + 11) >= 2 then U16(f, i + 18) else FWUP_DEFAULT_SLICE_SIZE)
  }

  function NewerHeaderAt(f: seq<byte>, i: nat, former: XffHeader): XffHeader {
    var h := SizesAt(f, i + 12, former).(sliceSize := U16(f, i + 26), hardwareVersion := Bytes(f, i + 28, 2));
    if U8(f, i + 19) >= 4 then h.(productCode := Bytes(f, i + 30, 20), productVariant := U32(f, i + 50)) else h
  }

  /** The header at i; fields that its version does not have keep their former values. */
  function HeaderAt(f: seq<byte>, i: nat, former: XffHeader): XffHeader {
    if U32(f, i) != 0 then OlderHeaderAt(f, i, former.(globalId := U32(f, i)))
    else NewerHeaderAt(f, i, former.(globalId := U32(f, i + 8)))
  }

  /** The sizes that steer the transfer. */
  datatype Geometry = Geometry(section: nat, address: nat, page: nat, slice: nat, chip: byte) {
    function Record(): nat {
      page + address
    }
  }

  function GeometryOf(h: XffHeader): Geometry {
    Geometry(h.sectionSize, h.addressLength, h.pageSize, h.sliceSize, h.chipId)
  }

  function GeometryAt(f: seq<byte>, i: nat): Geometry {
    if U32(f, i) != 0 then
      Geometry(U32(f, i + 4), U8(f, i + 15), U16(f, i + 16),
               if U8(f, i + 11) >= 2 then U16(f, i + 18) else FWUP_DEFAULT_SLICE_SIZE, U8(f, i + 13))
    else
      Geometry(U32(f, i + 12), U8(f, i + 23), U16(f, i + 24), U16(f, i + 26), U8(f, i + 21))
  }

  lemma GeometryIsTheHeaders(f: seq<byte>, i: nat, former: XffHeader)
    ensures GeometryOf(HeaderAt(f, i, former)) == GeometryAt(f, i)
  {
  }

  /** Truncating division of unsigned numbers. */
  function Div(a: nat, b: nat): nat
    requires b > 0
  {
    a / b
  }

  /** Where n pieces of one size end. */
  function EndOf(at: nat, size: nat, n: nat): (end: nat)
    ensures at <= end
    ensures n > 0 ==> at + size <= end
    decreases n
  {
    if n == 0 then at else EndOf(at + size, size, n - 1)
  }

  lemma {:induction false} EndOfIsProduct(at: nat, size: nat, n: nat)
    ensures EndOf(at, size, n) == at + n * size
    decreases n
  {
    if n > 0 {
      EndOfIsProduct(at + size, size, n - 1);
      assert n * size == size + (n - 1) * size;
    }
  }

  lemma {:induction false} EndOfMoves(at: nat, d: nat, size: nat, n: nat)
    ensures EndOf(at + d, size, n) == EndOf(at, size, n) + d
    decreases n
  {
    if n > 0 {
      EndOfMoves(at + size, d, size, n - 1);
    }
  }

  lemma {:induction false} EndOfAtLeast(at: nat, size: nat, n: nat)
    requires size > 0
    ensures at + n <= EndOf(at, size, n)
    decreases n
  {
    if n > 0 {
      EndOfAtLeast(at + size, size, n - 1);
    }
  }

  /** The slices of a page tile it. */
  predicate Tiled(page: nat, slice: nat) {
    slice > 0 && EndOf(0, slice, Div(page, slice)) == page
  }

  lemma TiledIffDivisible(page: nat, slice: nat)
    requires slice > 0
    ensures Tiled(page, slice) <==> page % slice == 0
  {
    EndOfIsProduct(0, slice, Div(page, slice));
    assert page == Div(page, slice) * slice + page % slice;
  }

  /** Sizes with which the transfer can be carried out: no division by zero, and slices that fit the transmit buffer. */
  predicate Sensible(g: Geometry) {
    && g.address > 0
    && 0 < g.slice <= 292
    && 0 < g.page < 65536 && Tiled(g.page, g.slice)
  }

  // ---- Well-formed files ----

  function Body(f: seq<byte>, i: nat): nat {
    i + HeaderLength(f, i)
  }

  /** The number of pages that the header announces; zero means: up to the end of the file. */
  function Announced(f: seq<byte>, i: nat): nat
    requires Sensible(GeometryAt(f, i))
  {
    Div(GeometryAt(f, i).section, GeometryAt(f, i).Record())
  }

  /** The number of pages of the section at i. */
  function PageCount(f: seq<byte>, i: nat): nat
    requires HeaderFits(f, i) && Sensible(GeometryAt(f, i))
  {
    if Announced(f, i) != 0 then Announced(f, i) else Div(|f| - Body(f, i), GeometryAt(f, i).Record())
  }

  function SectionEnd(f: seq<byte>, i: nat): (end: nat)
    requires HeaderFits(f, i) && Sensible(GeometryAt(f, i))
    ensures i < Body(f, i) <= end
  {
    EndOf(Body(f, i), GeometryAt(f, i).Record(), PageCount(f, i))
  }

  /** From i on the file consists of sections; only the last one announces no page count, and it is not empty. */
  predicate WellFormed(f: seq<byte>, i: nat)
    decreases |f| - i
  {
    && HeaderFits(f, i) && Sensible(GeometryAt(f, i))
    && PageCount(f, i) > 0
    && SectionEnd(f, i) <= |f|
    && (if Announced(f, i) != 0 then WellFormed(f, SectionEnd(f, i)) else SectionEnd(f, i) == |f|)
  }

  /** The header of a file of one section, with pages of an address of 4 bytes and two slices of 4. */
  const SMALL_HEADER: seq<byte> := [0, 0, 0, 1, 0, 0, 0, 0, 1, 0, 0, 2, 0, 7, 1, 4, 0, 8, 0, 4]

  lemma OnePageIsWellFormed(f: seq<byte>)
    requires |f| == 32 && U32(f, 0) != 0 && f[11] == 2
    requires GeometryAt(f, 0) == Geometry(0, 4, 8, 4, 7)
    ensures WellFormed(f, 0) && Announced(f, 0) == 0 && PageCount(f, 0) == 1
  {
    assert EndOf(0, 4, 2) == 8;
    assert EndOf(20, 12, 1) == 32;
  }

  /** Such a file, with any one page behind its header, is well formed. */
  lemma SmallFileIsWellFormed(page: seq<byte>)
    requires |page| == 12
    ensures WellFormed(SMALL_HEADER + page, 0)
  {
    var f := SMALL_HEADER + page;
    assert forall i :: 0 <= i < 20 ==> f[i] == SMALL_HEADER[i];
    assert U16(f, 0) == 0 && U16(f, 2) == 1;
    assert U16(f, 4) == 0 && U16(f, 6) == 0;
    assert U16(f, 16) == 8 && U16(f, 18) == 4;
    OnePageIsWellFormed(f);
  }

  // ---- The commands that carry the file ----

  /** What the updater sends to the module. */
  datatype Command =
    | Ready
    | Other(chip: byte)
    | PageHeader(address: seq<byte>, slices: nat)
    | PageSlice(slice: seq<byte>)
    | Finished
  {
    /** The payload of the Xbus message; the slice count goes out low byte first, in two bytes. */
    function Payload(): seq<byte> {
      match this
      case Ready => [FWUP_READY]
      case Other(chip) => [FWUP_OTHER, chip]
      case PageHeader(address, slices) => [FWUP_HEADER] + address + [slices % 256, slices / 256 % 256]
      case PageSlice(slice) => [FWUP_PAGESLICE] + slice
      case Finished => [FWUP_FINISHED]
    }

    /** The file bytes that it carries. */
    function Carried(): seq<byte> {
      match this
      case PageHeader(address, _) => address
      case PageSlice(slice) => slice
      case _ => []
    }
  }

  function Slices(f: seq<byte>, at: nat, size: nat, n: nat): seq<Command>
    decreases n
  {
    if n == 0 then [] else [PageSlice(Read(f, at, size))] + Slices(f, at + size, size, n - 1)
  }

  function SlicesPerPage(g: Geometry): nat
    requires Sensible(g)
  {
    Div(g.page, g.slice)
  }

  /** The commands of one page of n slices, in front of the others. */
  function PageCommands(f: seq<byte>, at: nat, g: Geometry, n: nat, rest: seq<Command>): seq<Command> {
    [PageHeader(Read(f, at, g.address), n)] + (Slices(f, at + g.address, g.slice, n) + rest)
  }

  /** The commands of a number of pages of n slices each. */
  function Pages(f: seq<byte>, at: nat, g: Geometry, n: nat, pages: nat): seq<Command>
    decreases pages
  {
    if pages == 0 then [] else PageCommands(f, at, g, n, Pages(f, at + g.Record(), g, n, pages - 1))
  }

  function Sections(f: seq<byte>, i: nat): seq<Command>
    requires WellFormed(f, i)
    decreases |f| - i
  {
    [Other(GeometryAt(f, i).chip)]
    + (Pages(f, Body(f, i), GeometryAt(f, i), SlicesPerPage(GeometryAt(f, i)), PageCount(f, i))
    + if Announced(f, i) != 0 then Sections(f, SectionEnd(f, i)) else [])
  }

  /** Everything that is sent for a file. */
  function Transfer(f: seq<byte>): seq<Command>
    requires WellFormed(f, 0)
  {
    [Ready] + (Sections(f, 0) + [Finished])
  }

  // ---- The commands carry every byte behind the headers, once and in order ----

  function CarriedAll(commands: seq<Command>): seq<byte> {
    if commands == [] then [] else commands[0].Carried() + CarriedAll(commands[1..])
  }

  /** The file without its section headers. */
  function WithoutHeaders(f: seq<byte>, i: nat): seq<byte>
    requires WellFormed(f, i)
    decreases |f| - i
  {
    f[Body(f, i)..SectionEnd(f, i)]
    + if Announced(f, i) != 0 then WithoutHeaders(f, SectionEnd(f, i)) else []
  }

  lemma {:induction false} CarriedAppend(a: seq<Command>, b: seq<Command>)
    ensures CarriedAll(a + b) == CarriedAll(a) + CarriedAll(b)
  {
    if a == [] {
      assert a + b == b;
    } else {
      assert (a + b)[1..] == a[1..] + b;
      CarriedAppend(a[1..], b);
    }
  }

  lemma CarriedCons(command: Command, more: seq<Command>)
    ensures CarriedAll([command] + more) == command.Carried() + CarriedAll(more)
  {
    assert ([command] + more)[1..] == more;
  }

  lemma Join(f: seq<byte>, a: nat, b: nat, c: nat)
    requires a <= b <= c <= |f|
    ensures f[a..b] + f[b..c] == f[a..c]
  {
  }

  lemma {:induction false} SlicesCarry(f: seq<byte>, at: nat, size: nat, n: nat)
    requires EndOf(at, size, n) <= |f|
    ensures CarriedAll(Slices(f, at, size, n)) == f[at..EndOf(at, size, n)]
    decreases n
  {
    if n > 0 {
      var rest := Slices(f, at + size, size, n - 1);
      SlicesCarry(f, at + size, size, n - 1);
      CarriedCons(PageSlice(Read(f, at, size)), rest);
      Join(f, at, at + size, EndOf(at, size, n));
    }
  }

  lemma CarriedParts(head: Command, slices: seq<Command>, rest: seq<Command>)
    ensures CarriedAll([head] + (slices + rest)) == head.Carried() + CarriedAll(slices) + CarriedAll(rest)
  {
    CarriedCons(head, slices + rest);
    CarriedAppend(slices, rest);
  }

  lemma SlicesOfPageCarry(f: seq<byte>, body: nat, g: Geometry, n: nat)
    requires EndOf(0, g.slice, n) == g.page && body + g.page <= |f|
    ensures CarriedAll(Slices(f, body, g.slice, n)) == f[body..body + g.page]
  {
    EndOfMoves(0, body, g.slice, n);
    SlicesCarry(f, body, g.slice, n);
  }

  lemma Pieces(head: Command, slices: seq<Command>, rest: seq<Command>, f: seq<byte>, a: nat, b: nat, c: nat, d: nat)
    requires a <= b <= c <= d <= |f|
    requires head.Carried() == f[a..b] && CarriedAll(slices) == f[b..c] && CarriedAll(rest) == f[c..d]
    ensures CarriedAll([head] + (slices + rest)) == f[a..d]
  {
    CarriedParts(head, slices, rest);
    Join(f, a, b, c);
    Join(f, a, c, d);
  }

  lemma PageCarries(f: seq<byte>, at: nat, g: Geometry, n: nat, rest: seq<Command>, end: nat)
    requires EndOf(0, g.slice, n) == g.page && at + g.Record() <= end <= |f|
    requires CarriedAll(rest) == f[at + g.Record()..end]
    ensures CarriedAll(PageCommands(f, at, g, n, rest)) == f[at..end]
  {
    var body := at + g.address;
    SlicesOfPageCarry(f, body, g, n);
    Pieces(PageHeader(Read(f, at, g.address), n), Slices(f, body, g.slice, n), rest, f, at, body, body + g.page, end);
  }

  lemma {:induction false} PagesCarry(f: seq<byte>, at: nat, g: Geometry, n: nat, pages: nat)
    requires EndOf(0, g.slice, n) == g.page && EndOf(at, g.Record(), pages) <= |f|
    ensures CarriedAll(Pages(f, at, g, n, pages)) == f[at..EndOf(at, g.Record(), pages)]
    decreases pages
  {
    var end := EndOf(at, g.Record(), pages);
    if pages == 0 {
      assert f[at..end] == [];
    } else {
      var next := at + g.Record();
      assert end == EndOf(next, g.Record(), pages - 1);
      PagesCarry(f, next, g, n, pages - 1);
      PageCarries(f, at, g, n, Pages(f, next, g, n, pages - 1), end);
    }
  }

  lemma {:induction false} SectionsCarry(f: seq<byte>, i: nat)
    requires WellFormed(f, i)
    ensures CarriedAll(Sections(f, i)) == WithoutHeaders(f, i)
    decreases |f| - i
  {
    var g := GeometryAt(f, i);
    var pages := Pages(f, Body(f, i), g, SlicesPerPage(g), PageCount(f, i));
    var rest := if Announced(f, i) != 0 then Sections(f, SectionEnd(f, i)) else [];
    PagesCarry(f, Body(f, i), g, SlicesPerPage(g), PageCount(f, i));
    if Announced(f, i) != 0 {
      SectionsCarry(f, SectionEnd(f, i));
    }
    CarriedAppend(pages, rest);
    CarriedCons(Other(g.chip), pages + rest);
  }

  /** The whole transfer carries exactly the file without its section headers. */
  lemma TransferCarriesTheFile(f: seq<byte>)
    requires WellFormed(f, 0)
    ensures CarriedAll(Transfer(f)) == WithoutHeaders(f, 0)
  {
    SectionsCarry(f, 0);
    assert [Finished] + [] == [Finished];
    CarriedCons(Finished, []);
    CarriedAppend(Sections(f, 0), [Finished]);
    CarriedCons(Ready, Sections(f, 0) + [Finished]);
  }
}
