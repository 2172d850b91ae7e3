/** Section headers as byte strings: what is read from a file, printed again, is what the file holds. */
module FwHeaders {
  import opened Xbus
  import opened FwImage

  // ---- Printing ----

  function Spell16(n: nat): seq<byte> {
    [n / 256 % 256, n % 256]
  }

  function Spell32(n: nat): seq<byte> {
    [n / 16777216 % 256, n / 65536 % 256, n / 256 % 256, n % 256]
  }

  function PrintSizes(h: XffHeader): seq<byte> {
    Spell32(h.sectionSize) + (h.firmwareRevision + (h.xffVersion + ([h.chipId, h.numberOfSections, h.addressLength] + Spell16(h.pageSize))))
  }

  function PrintOlder(h: XffHeader): seq<byte>
    requires h.xffVersion != []
  {
    Spell32(h.globalId) + (PrintSizes(h) + if h.xffVersion[0] >= 2 then Spell16(h.sliceSize) else [])
  }

  /** The newer format begins with four zero bytes and the header's own size. */
  function PrintNewer(h: XffHeader, size: nat): seq<byte>
    requires h.xffVersion != []
  {
    [0, 0, 0, 0] + (Spell32(size) + (Spell32(h.globalId) + (PrintSizes(h) + (Spell16(h.sliceSize) + (h.hardwareVersion + PrintProduct(h))))))
  }

  /** Later versions of the newer format end with the product. */
  function PrintProduct(h: XffHeader): seq<byte>
    requires h.xffVersion != []
  {
    if h.xffVersion[0] >= 4 then h.productCode + Spell32(h.productVariant) else []
  }

  // ---- Numbers ----

  lemma DigitsOf16(a: byte, b: byte, n: nat)
    requires n == a as int * 256 + b as int
    ensures n / 256 % 256 == a && n % 256 == b
  {
  }

  lemma DigitsOf32(a: byte, b: byte, c: byte, d: byte, n: nat)
    requires n == (a as int * 256 + b as int) * 65536 + (c as int * 256 + d as int)
    ensures n / 16777216 % 256 == a && n / 65536 % 256 == b && n / 256 % 256 == c && n % 256 == d
  {
    assert n / 256 == a as int * 65536 + b as int * 256 + c as int;
    assert n / 65536 == a as int * 256 + b as int;
    assert n / 16777216 == a as int;
  }

  /** A number is read as its bytes spell it, high byte first, or as 0 if the file does not hold them all. */
  lemma NumbersAreSpelled(f: seq<byte>, i: nat)
    ensures if i + 2 <= |f| then Spell16(U16(f, i)) == f[i..i + 2] else U16(f, i) == 0
    ensures if i + 4 <= |f| then Spell32(U32(f, i)) == f[i..i + 4] else U32(f, i) == 0
    ensures U32(f, i) < 0x1_0000_0000
  {
    if i + 2 <= |f| {
      DigitsOf16(f[i], f[i + 1], U16(f, i));
    }
    if i + 4 <= |f| {
      DigitsOf32(f[i], f[i + 1], f[i + 2], f[i + 3], U32(f, i));
    }
  }

  lemma {:induction false} BytesAreThose(f: seq<byte>, i: nat, n: nat)
    requires i + n <= |f|
    ensures Bytes(f, i, n) == f[i..i + n]
    decreases n
  {
    if n > 0 {
      BytesAreThose(f, i, n - 1);
    }
  }

  // ---- Headers ----

  lemma SizesArePrinted(f: seq<byte>, i: nat, former: XffHeader)
    requires i + 14 <= |f|
    ensures PrintSizes(SizesAt(f, i, former)) == f[i..i + 14]
    ensures SizesAt(f, i, former).xffVersion == f[i + 7..i + 9]
  {
    NumbersAreSpelled(f, i);
    BytesAreThose(f, i + 4, 3);
    BytesAreThose(f, i + 7, 2);
    NumbersAreSpelled(f, i + 12);
    FiveParts(f, i);
  }

  lemma FiveParts(f: seq<byte>, i: nat)
    requires i + 14 <= |f|
    ensures f[i..i + 14] == f[i..i + 4] + (f[i + 4..i + 7] + (f[i + 7..i + 9] + ([f[i + 9], f[i + 10], f[i + 11]] + f[i + 12..i + 14])))
  {
    assert [f[i + 9], f[i + 10], f[i + 11]] == f[i + 9..i + 12];
    Join(f, i + 9, i + 12, i + 14);
    Join(f, i + 7, i + 9, i + 14);
    Join(f, i + 4, i + 7, i + 14);
    Join(f, i, i + 4, i + 14);
  }

  lemma PrintSizesOnly(h: XffHeader, k: XffHeader)
    requires h.sectionSize == k.sectionSize && h.firmwareRevision == k.firmwareRevision && h.xffVersion == k.xffVersion
    requires h.chipId == k.chipId && h.numberOfSections == k.numberOfSections
    requires h.addressLength == k.addressLength && h.pageSize == k.pageSize
    ensures PrintSizes(h) == PrintSizes(k)
  {
  }

  lemma Zero32(f: seq<byte>, i: nat)
    requires i + 4 <= |f|
    ensures U32(f, i) == 0 <==> f[i..i + 4] == [0, 0, 0, 0]
  {
    NumbersAreSpelled(f, i);
    if f[i..i + 4] == [0, 0, 0, 0] {
      assert f[i] == f[i..i + 4][0] && f[i + 1] == f[i..i + 4][1] && f[i + 2] == f[i..i + 4][2] && f[i + 3] == f[i..i + 4][3];
    }
  }

  lemma OlderIsPrinted(f: seq<byte>, i: nat, former: XffHeader, h: XffHeader)
    requires HeaderFits(f, i) && U32(f, i) != 0 && h == HeaderAt(f, i, former)
    ensures h.xffVersion != [] && f[i..Body(f, i)] == PrintOlder(h)
    ensures h == former.(globalId := h.globalId, sectionSize := h.sectionSize, firmwareRevision := h.firmwareRevision,
      xffVersion := h.xffVersion, chipId := h.chipId, numberOfSections := h.numberOfSections,
      addressLength := h.addressLength, pageSize := h.pageSize, sliceSize := if h.xffVersion[0] < 2 then 64 else h.sliceSize)
  {
    var early := former.(globalId := U32(f, i));
    NumbersAreSpelled(f, i);
    SizesArePrinted(f, i + 4, early);
    PrintSizesOnly(h, SizesAt(f, i + 4, early));
    assert h.xffVersion[0] == f[i + 11];
    Join(f, i, i + 4, i + 18);
    if h.xffVersion[0] >= 2 {
      NumbersAreSpelled(f, i + 18);
      Join(f, i + 4, i + 18, i + 20);
      Join(f, i, i + 4, i + 20);
    }
  }

  lemma NewerIsPrinted(f: seq<byte>, i: nat, former: XffHeader, h: XffHeader)
    requires HeaderFits(f, i) && U32(f, i) == 0 && h == HeaderAt(f, i, former)
    ensures h.xffVersion != [] && f[i..Body(f, i)] == PrintNewer(h, U32(f, i + 4))
    ensures h.xffVersion[0] < 4 ==> h.productCode == former.productCode && h.productVariant == former.productVariant
  {
    var early := former.(globalId := U32(f, i + 8));
    Zero32(f, i);
    NumbersAreSpelled(f, i + 4);
    NumbersAreSpelled(f, i + 8);
    SizesArePrinted(f, i + 12, early);
    PrintSizesOnly(h, SizesAt(f, i + 12, early));
    NumbersAreSpelled(f, i + 26);
    BytesAreThose(f, i + 28, 2);
    ProductIsPrinted(f, i, former, h);
    SixParts(f, i, Body(f, i));
  }

  lemma ProductIsPrinted(f: seq<byte>, i: nat, former: XffHeader, h: XffHeader)
    requires HeaderFits(f, i) && U32(f, i) == 0 && h == HeaderAt(f, i, former) && h.xffVersion == f[i + 19..i + 21]
    ensures f[i + 30..Body(f, i)] == PrintProduct(h)
    ensures h.xffVersion[0] < 4 ==> h.productCode == former.productCode && h.productVariant == former.productVariant
  {
    assert h.xffVersion[0] == f[i + 19];
    if h.xffVersion[0] >= 4 {
      BytesAreThose(f, i + 30, 20);
      NumbersAreSpelled(f, i + 50);
      Join(f, i + 30, i + 50, i + 54);
    }
  }

  lemma SixParts(f: seq<byte>, i: nat, end: nat)
    requires i + 30 <= end <= |f|
    ensures f[i..end] == f[i..i + 4] + (f[i + 4..i + 8] + (f[i + 8..i + 12] + (f[i + 12..i + 26]
      + (f[i + 26..i + 28] + (f[i + 28..i + 30] + f[i + 30..end])))))
  {
    Join(f, i + 28, i + 30, end);
    Join(f, i + 26, i + 28, end);
    Join(f, i + 12, i + 26, end);
    Join(f, i + 8, i + 12, end);
    Join(f, i + 4, i + 8, end);
    Join(f, i, i + 4, end);
  }

  /** A complete header, printed again from the fields that were read, is what the file holds: no field is lost or exchanged. */
  lemma HeaderIsPrinted(f: seq<byte>, i: nat, former: XffHeader)
    requires HeaderFits(f, i)
    ensures var h := HeaderAt(f, i, former);
      h.xffVersion != [] && f[i..Body(f, i)] == if f[i..i + 4] != [0, 0, 0, 0] then PrintOlder(h) else PrintNewer(h, U32(f, i + 4))
  {
    Zero32(f, i);
    if U32(f, i) != 0 {
      OlderIsPrinted(f, i, former, HeaderAt(f, i, former));
    } else {
      NewerIsPrinted(f, i, former, HeaderAt(f, i, former));
    }
  }

  /** The counts of a well-formed section: as many records as fit the announced size, and slices that make up a page. */
  lemma CountsFit(f: seq<byte>, i: nat)
    requires WellFormed(f, i)
    ensures var g := GeometryAt(f, i);
      && (Announced(f, i) != 0 ==> PageCount(f, i) == Announced(f, i))
      && Announced(f, i) * (g.page + g.address) <= g.section < (Announced(f, i) + 1) * (g.page + g.address)
      && SlicesPerPage(g) * g.slice == g.page
  {
    var g := GeometryAt(f, i);
    TruncatedQuotient(g.section, g.page + g.address);
    EndOfIsProduct(0, g.slice, SlicesPerPage(g));
  }

  lemma TruncatedQuotient(a: nat, b: nat)
    requires b > 0
    ensures a / b * b <= a < (a / b + 1) * b
  {
    assert a == a / b * b + a % b;
  }
}
