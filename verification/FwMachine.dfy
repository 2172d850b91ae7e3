/** The firmware updater as a state machine on values: one step for every message from the module. */
module FwMachine {
  import opened Xbus
  import opened FwImage

  const XMID_FIRMWARE_UPDATE: byte := 0xf2

  datatype State = Idle | Start | WaitReady | WaitHeaderResult | WaitSliceReady | WaitPageOk | WaitPageReady

  datatype Verdict = Success | Failed

  datatype Fw = Fw(
    state: State, header: XffHeader, nofPages: nat, nofSlicesPerPage: nat, pageCounter: nat, sliceCounter: nat,
    readIndex: nat, endOfFile: bool, sent: seq<Command>, results: seq<Verdict>)

  /** The sizes in the header at the read index can be divided by. */
  predicate Divisible(f: Fw, file: seq<byte>) {
    GeometryAt(file, f.readIndex).Record() > 0 && GeometryAt(file, f.readIndex).slice > 0
  }

  /** A section that begins at the end of the file has zero sizes: after the last one, none may be entered. */
  lemma NoSectionAtTheEnd(f: Fw, file: seq<byte>)
    requires f.readIndex >= |file|
    ensures !Divisible(f, file)
  {
  }

  /** And the header is complete. */
  predicate SectionReadable(f: Fw, file: seq<byte>) {
    HeaderFits(file, f.readIndex) && Divisible(f, file)
  }

  function ReadHeader(f: Fw, file: seq<byte>): Fw {
    var i, body := f.readIndex, Body(file, f.readIndex);
    f.(header := HeaderAt(file, i, f.header), readIndex := ReadTo(file, i, body),
       endOfFile := f.endOfFile || !HeaderFits(file, i))
  }

  function SizeUp(f: Fw): Fw
    requires GeometryOf(f.header).Record() > 0 && f.header.sliceSize > 0
  {
    f.(nofPages := Div(f.header.sectionSize, f.header.pageSize + f.header.addressLength),
       nofSlicesPerPage := Div(f.header.pageSize, f.header.sliceSize),
       pageCounter := 0, sliceCounter := 0)
  }

  function SendOther(f: Fw): Fw {
    f.(sent := f.sent + [Other(f.header.chipId)])
  }

  function EnterNewSection(f: Fw, file: seq<byte>): Fw
    requires Divisible(f, file)
  {
    GeometryIsTheHeaders(file, f.readIndex, f.header);
    SendOther(SizeUp(ReadHeader(f, file)))
  }

  /** Entering a section, the page counter starts anew. */
  lemma CounterIsReset(f: Fw, file: seq<byte>)
    requires Divisible(f, file)
    ensures Divisible(f.(pageCounter := f.pageCounter + 1), file)
    ensures EnterNewSection(f.(pageCounter := f.pageCounter + 1), file) == EnterNewSection(f, file)
  {
  }

  function SendHeader(f: Fw, file: seq<byte>): Fw {
    var bytes := Read(file, f.readIndex, f.header.addressLength);
    var moved := f.(readIndex := f.readIndex + |bytes|);
    if |bytes| == f.header.addressLength then
      moved.(sent := f.sent + [PageHeader(bytes, f.nofSlicesPerPage)])
    else
      moved.(endOfFile := true)
  }

  function SendSlice(f: Fw, file: seq<byte>): Fw {
    var bytes := Read(file, f.readIndex, f.header.sliceSize);
    var moved := f.(readIndex := f.readIndex + |bytes|);
    if |bytes| == f.header.sliceSize then moved.(sent := f.sent + [PageSlice(bytes)]) else moved.(endOfFile := true)
  }

  function Fail(f: Fw): Fw {
    f.(results := f.results + [Failed], state := Idle)
  }

  /** The updates that the host starts. */
  function Begin(f: Fw): Fw {
    if f.state.Idle? then
      f.(readIndex := 0, endOfFile := false, state := Start, sent := f.sent + [Ready])
    else
      f.(results := f.results + [Failed])
  }

  /** The acknowledgement that keeps the transfer going. */
  function Expected(s: State): byte {
    if s.WaitPageOk? then FWUP_OK else FWUP_READY
  }

  predicate LastPageDone(f: Fw) {
    f.nofPages != 0 && f.pageCounter + 1 == f.nofPages
  }

  predicate EntersSection(f: Fw, mid: byte, ack: byte) {
    && mid == XMID_FIRMWARE_UPDATE && ack == FWUP_READY
    && (f.state.Start? || (f.state.WaitPageReady? && LastPageDone(f)))
  }

  /** The page is done: on to the next section, to the next page, or to the end. */
  function PageReady(f: Fw, file: seq<byte>): Fw
    requires LastPageDone(f) ==> Divisible(f, file)
  {
    if LastPageDone(f) then
      EnterNewSection(f, file).(state := WaitReady)
    else
      var g := SendHeader(f.(pageCounter := f.pageCounter + 1), file);
      if g.endOfFile then
        g.(sent := g.sent + [Finished], results := g.results + [Success], state := Idle)
      else
        g.(state := WaitHeaderResult)
  }

  /** One message from the module: its message id and the first byte of its payload. */
  function Handle(f: Fw, file: seq<byte>, mid: byte, ack: byte): Fw
    requires EntersSection(f, mid, ack) ==> Divisible(f, file)
  {
    if mid != XMID_FIRMWARE_UPDATE || f.state.Idle? then f
    else if f.state.Start? then
      if ack == FWUP_READY then EnterNewSection(f, file).(state := WaitReady) else f
    else if ack != Expected(f.state) then Fail(f)
    else
      match f.state
      case WaitReady => SendHeader(f, file).(state := WaitHeaderResult)
      case WaitHeaderResult => SendSlice(f, file).(sliceCounter := 1, state := WaitSliceReady)
      case WaitSliceReady =>
        if f.sliceCounter < f.nofSlicesPerPage then
          SendSlice(f, file).(sliceCounter := f.sliceCounter + 1)
        else
          f.(state := WaitPageOk)
      case WaitPageOk => f.(state := WaitPageReady)
      case WaitPageReady => PageReady(f, file)
  }

  // ---- Where the transfer stands ----

  /** What is in store for one section: its sizes, its pages, where it ends, and what is to be sent after it. */
  datatype Plan = Plan(g: Geometry, announced: nat, slices: nat, pages: nat, end: nat, after: seq<Command>)

  function PlanAt(file: seq<byte>, i: nat): Plan
    requires WellFormed(file, i)
  {
    var g := GeometryAt(file, i);
    Plan(g, Announced(file, i), SlicesPerPage(g), PageCount(file, i), SectionEnd(file, i),
         (if Announced(file, i) != 0 then Sections(file, SectionEnd(file, i)) else []) + [Finished])
  }

  predicate Sound(p: Plan, file: seq<byte>) {
    && p.g.address > 0 && 0 < p.g.slice <= 292 && p.slices > 0 && p.pages > 0
    && EndOf(0, p.g.slice, p.slices) == p.g.page
    && p.end <= |file|
    && (p.announced != 0 ==> p.announced == p.pages)
  }

  /** What comes after the section: the next one, or the end of the file. */
  predicate Continues(p: Plan, file: seq<byte>) {
    if p.announced == 0 then
      p.end == |file| && p.after == [Finished]
    else
      WellFormed(file, p.end) && p.after == Sections(file, p.end) + [Finished]
  }

  /** The updater's own fields agree with the plan. */
  predicate Follows(f: Fw, p: Plan) {
    && f.header.addressLength == p.g.address && f.header.pageSize == p.g.page && f.header.sliceSize == p.g.slice
    && f.nofPages == p.announced && f.nofSlicesPerPage == p.slices
    && !f.endOfFile
    && f.results == []
  }

  /** The commands for k more pages from the place at, and for everything after the section. */
  function FromPage(file: seq<byte>, p: Plan, at: nat, k: nat): seq<Command> {
    Pages(file, at, p.g, p.slices, k) + p.after
  }

  /** The commands for k more slices from the place at, for the pages behind them, and so on. */
  function FromSlice(file: seq<byte>, p: Plan, at: nat, slices: nat, pages: nat): seq<Command> {
    Slices(file, at, p.g.slice, slices) + FromPage(file, p, EndOf(at, p.g.slice, slices), pages)
  }

  /** What was sent and what is still to be sent make up all. */
  predicate Splits(all: seq<Command>, sent: seq<Command>, todo: seq<Command>) {
    sent + todo == all
  }

  /** The position in the section, state by state, and that what was sent and what is still to be sent make up all. */
  predicate InPlace(f: Fw, file: seq<byte>, p: Plan, all: seq<Command>) {
    if f.state.WaitReady? then
      && f.pageCounter == 0
      && EndOf(f.readIndex, p.g.Record(), p.pages) == p.end
      && Splits(all, f.sent, FromPage(file, p, f.readIndex, p.pages))
    else
      && !f.state.Idle? && !f.state.Start?
      && f.pageCounter < p.pages
      && var pages, slices := p.pages - f.pageCounter - 1, SlicesLeft(f, p);
         && EndOf(EndOf(f.readIndex, p.g.slice, slices), p.g.Record(), pages) == p.end
         && Splits(all, f.sent, FromSlice(file, p, f.readIndex, slices, pages))
         && (f.state.WaitSliceReady? ==> 1 <= f.sliceCounter <= p.slices)
  }

  /** How many slices of the current page are still to be sent. */
  function SlicesLeft(f: Fw, p: Plan): nat {
    match f.state
    case WaitHeaderResult => p.slices
    case WaitSliceReady => if f.sliceCounter <= p.slices then p.slices - f.sliceCounter else 0
    case _ => 0
  }

  predicate Underway(f: Fw, file: seq<byte>, p: Plan, all: seq<Command>) {
    Sound(p, file) && Follows(f, p) && InPlace(f, file, p, all)
  }

  /** What holds from the start of an update to its end, whatever the module answers. */
  ghost predicate Good(f: Fw, file: seq<byte>)
    requires WellFormed(file, 0)
  {
    match f.state
    case Idle =>
      || (f.results == [Success] && f.sent == Transfer(file))
      || (f.results == [Failed] && f.sent <= Transfer(file))
    case Start => f.readIndex == 0 && !f.endOfFile && f.sent == [Ready] && f.results == []
    case _ => exists p: Plan :: Continues(p, file) && Underway(f, file, p, Transfer(file))
  }

  function Rank(s: State): nat {
    match s
    case WaitSliceReady => 3
    case WaitPageOk => 2
    case WaitPageReady => 1
    case Idle => 0
    case _ => 4
  }

  function BytesLeft(f: Fw, file: seq<byte>): nat {
    if f.readIndex <= |file| then |file| - f.readIndex else 0
  }

  /** Progress: bytes left, then the state. */
  predicate Less(f: Fw, g: Fw, file: seq<byte>) {
    || BytesLeft(f, file) < BytesLeft(g, file)
    || (BytesLeft(f, file) == BytesLeft(g, file) && Rank(f.state) < Rank(g.state))
  }

  // ---- Every step keeps it ----

  lemma PlanIsSound(file: seq<byte>, i: nat)
    requires WellFormed(file, i)
    ensures Sound(PlanAt(file, i), file) && Continues(PlanAt(file, i), file)
  {
    assert EndOf(0, GeometryAt(file, i).slice, 0) == 0;
  }

  lemma PlanSends(file: seq<byte>, i: nat)
    requires WellFormed(file, i)
    ensures var p := PlanAt(file, i);
      && Sections(file, i) + [Finished] == [Other(p.g.chip)] + FromPage(file, p, Body(file, i), p.pages)
      && EndOf(Body(file, i), p.g.Record(), p.pages) == p.end
  {
    var p := PlanAt(file, i);
    var pages := Pages(file, Body(file, i), p.g, p.slices, p.pages);
    var later := if Announced(file, i) != 0 then Sections(file, SectionEnd(file, i)) else [];
    assert ([Other(p.g.chip)] + (pages + later)) + [Finished] == [Other(p.g.chip)] + (pages + (later + [Finished]));
  }

  lemma Moves(all: seq<Command>, sent: seq<Command>, c: Command, todo: seq<Command>, rest: seq<Command>)
    requires Splits(all, sent, todo) && todo == [c] + rest
    ensures Splits(all, sent + [c], rest)
  {
  }

  lemma EnterFollows(f: Fw, file: seq<byte>, p: Plan, todo: seq<Command>, all: seq<Command>)
    requires SectionReadable(f, file) && !f.endOfFile && f.results == []
    requires Sound(p, file) && p.g == GeometryAt(file, f.readIndex)
    requires p.announced == Div(p.g.section, p.g.Record()) && p.slices == Div(p.g.page, p.g.slice)
    requires EndOf(Body(file, f.readIndex), p.g.Record(), p.pages) == p.end
    requires todo == [Other(p.g.chip)] + FromPage(file, p, Body(file, f.readIndex), p.pages)
    requires Splits(all, f.sent, todo)
    ensures Underway(EnterNewSection(f, file).(state := WaitReady), file, p, all)
    ensures BytesLeft(EnterNewSection(f, file), file) < BytesLeft(f, file)
  {
    GeometryIsTheHeaders(file, f.readIndex, f.header);
    Moves(all, f.sent, Other(p.g.chip), todo, FromPage(file, p, Body(file, f.readIndex), p.pages));
  }

  /** Entering the section at the read index, with everything before it sent. */
  lemma EnterStep(f: Fw, file: seq<byte>, all: seq<Command>)
    requires WellFormed(file, f.readIndex) && !f.endOfFile && f.results == []
    requires Splits(all, f.sent, Sections(file, f.readIndex) + [Finished])
    ensures SectionReadable(f, file)
    ensures Continues(PlanAt(file, f.readIndex), file)
    ensures Underway(EnterNewSection(f, file).(state := WaitReady), file, PlanAt(file, f.readIndex), all)
    ensures BytesLeft(EnterNewSection(f, file), file) < BytesLeft(f, file)
  {
    PlanIsSound(file, f.readIndex);
    PlanSends(file, f.readIndex);
    EnterFollows(f, file, PlanAt(file, f.readIndex), Sections(file, f.readIndex) + [Finished], all);
  }

  lemma PageEnds(p: Plan, at: nat)
    requires EndOf(0, p.g.slice, p.slices) == p.g.page
    ensures EndOf(at + p.g.address, p.g.slice, p.slices) == at + p.g.Record()
  {
    EndOfMoves(0, at + p.g.address, p.g.slice, p.slices);
  }

  lemma PageUnfolds(file: seq<byte>, p: Plan, at: nat, k: nat)
    requires EndOf(at + p.g.address, p.g.slice, p.slices) == at + p.g.Record()
    ensures FromPage(file, p, at, k + 1)
      == [PageHeader(Read(file, at, p.g.address), p.slices)] + FromSlice(file, p, at + p.g.address, p.slices, k)
  {
    var head := [PageHeader(Read(file, at, p.g.address), p.slices)];
    var slices := Slices(file, at + p.g.address, p.g.slice, p.slices);
    var rest := Pages(file, at + p.g.Record(), p.g, p.slices, k);
    assert FromSlice(file, p, at + p.g.address, p.slices, k) == slices + (rest + p.after);
    Associate(head, slices, rest, p.after);
    assert FromPage(file, p, at, k + 1) == (head + (slices + rest)) + p.after;
  }

  lemma Associate(a: seq<Command>, b: seq<Command>, c: seq<Command>, d: seq<Command>)
    ensures (a + (b + c)) + d == a + (b + (c + d))
  {
  }

  lemma SliceUnfolds(file: seq<byte>, p: Plan, at: nat, slices: nat, pages: nat)
    ensures FromSlice(file, p, at, slices + 1, pages)
      == [PageSlice(Read(file, at, p.g.slice))] + FromSlice(file, p, at + p.g.slice, slices, pages)
    ensures EndOf(at, p.g.slice, slices + 1) == EndOf(at + p.g.slice, p.g.slice, slices)
  {
    var c, rest := [PageSlice(Read(file, at, p.g.slice))], Slices(file, at + p.g.slice, p.g.slice, slices);
    var more := FromPage(file, p, EndOf(at, p.g.slice, slices + 1), pages);
    assert (c + rest) + more == c + (rest + more);
  }

  lemma HeaderGoesOut(f: Fw, file: seq<byte>)
    requires f.readIndex + f.header.addressLength <= |file|
    ensures SendHeader(f, file) == f.(
      readIndex := f.readIndex + f.header.addressLength,
      sent := f.sent + [PageHeader(Read(file, f.readIndex, f.header.addressLength), f.nofSlicesPerPage)])
  {
  }

  lemma SliceGoesOut(f: Fw, file: seq<byte>)
    requires f.readIndex + f.header.sliceSize <= |file|
    ensures SendSlice(f, file) == f.(
      readIndex := f.readIndex + f.header.sliceSize,
      sent := f.sent + [PageSlice(Read(file, f.readIndex, f.header.sliceSize))])
  {
  }

  /** Sending the header of a page, when k + 1 pages are left. */
  lemma HeaderStep(f: Fw, file: seq<byte>, p: Plan, k: nat, all: seq<Command>)
    requires Sound(p, file) && Follows(f, p)
    requires f.pageCounter < p.pages && k == p.pages - f.pageCounter - 1
    requires EndOf(f.readIndex, p.g.Record(), k + 1) == p.end
    requires Splits(all, f.sent, FromPage(file, p, f.readIndex, k + 1))
    ensures Underway(SendHeader(f, file).(state := WaitHeaderResult), file, p, all)
    ensures !SendHeader(f, file).endOfFile
    ensures BytesLeft(SendHeader(f, file), file) < BytesLeft(f, file)
  {
    var at := f.readIndex;
    assert EndOf(at, p.g.Record(), k + 1) == EndOf(at + p.g.Record(), p.g.Record(), k);
    HeaderGoesOut(f, file);
    PageEnds(p, at);
    PageUnfolds(file, p, at, k);
    Moves(all, f.sent, PageHeader(Read(file, at, p.g.address), p.slices), FromPage(file, p, at, k + 1),
          FromSlice(file, p, at + p.g.address, p.slices, k));
  }

  /** Sending a slice, when k + 1 slices of the page are left. */
  lemma SliceStep(f: Fw, file: seq<byte>, p: Plan, k: nat, all: seq<Command>)
    requires Sound(p, file) && Follows(f, p) && f.pageCounter < p.pages && k < p.slices
    requires var pages := p.pages - f.pageCounter - 1;
      && EndOf(EndOf(f.readIndex, p.g.slice, k + 1), p.g.Record(), pages) == p.end
      && Splits(all, f.sent, FromSlice(file, p, f.readIndex, k + 1, pages))
    ensures Underway(SendSlice(f, file).(sliceCounter := p.slices - k, state := WaitSliceReady), file, p, all)
    ensures BytesLeft(SendSlice(f, file), file) < BytesLeft(f, file)
  {
    var at, pages := f.readIndex, p.pages - f.pageCounter - 1;
    SliceUnfolds(file, p, at, k, pages);
    SliceGoesOut(f, file);
    Moves(all, f.sent, PageSlice(Read(file, at, p.g.slice)), FromSlice(file, p, at, k + 1, pages),
          FromSlice(file, p, at + p.g.slice, k, pages));
  }

  lemma NothingLeftOfPage(f: Fw, file: seq<byte>, p: Plan, all: seq<Command>)
    requires Underway(f, file, p, all) && SlicesLeft(f, p) == 0 && !f.state.WaitReady?
    ensures EndOf(f.readIndex, p.g.Record(), p.pages - f.pageCounter - 1) == p.end
    ensures Splits(all, f.sent, FromPage(file, p, f.readIndex, p.pages - f.pageCounter - 1))
  {
    var more := FromPage(file, p, f.readIndex, p.pages - f.pageCounter - 1);
    assert Slices(file, f.readIndex, p.g.slice, 0) == [];
    assert [] + more == more;
  }

  /** The last page of the last section: the read runs into the end of the file. */
  lemma FinishStep(f: Fw, file: seq<byte>, p: Plan, all: seq<Command>)
    requires Underway(f, file, p, all) && f.state.WaitPageReady?
    requires Continues(p, file) && f.pageCounter + 1 == p.pages && p.announced == 0
    ensures var g := SendHeader(f, file);
      g.endOfFile && g.readIndex == f.readIndex && g.sent == f.sent && Splits(all, f.sent, [Finished])
  {
    NothingLeftOfPage(f, file, p, all);
    assert FromPage(file, p, f.readIndex, 0) == p.after;
  }

  /** After the last page of any other section the next one begins where this one ended. */
  lemma NextSectionStep(f: Fw, file: seq<byte>, p: Plan, all: seq<Command>)
    requires Underway(f, file, p, all) && f.state.WaitPageReady?
    requires Continues(p, file) && f.pageCounter + 1 == p.pages && p.announced != 0
    ensures WellFormed(file, f.readIndex)
    ensures Splits(all, f.sent, Sections(file, f.readIndex) + [Finished])
  {
    NothingLeftOfPage(f, file, p, all);
    assert FromPage(file, p, f.readIndex, 0) == p.after;
  }

  // ---- Whole runs ----

  lemma PrefixOfAll(all: seq<Command>, sent: seq<Command>, todo: seq<Command>)
    requires Splits(all, sent, todo)
    ensures sent <= all
  {
  }

  lemma SentIsPrefix(f: Fw, file: seq<byte>, p: Plan, all: seq<Command>)
    requires Underway(f, file, p, all)
    ensures f.sent <= all && f.results == []
  {
    if f.state.WaitReady? {
      PrefixOfAll(all, f.sent, FromPage(file, p, f.readIndex, p.pages));
    } else {
      PrefixOfAll(all, f.sent, FromSlice(file, p, f.readIndex, SlicesLeft(f, p), p.pages - f.pageCounter - 1));
    }
  }

  function Next(f: Fw, file: seq<byte>): Fw
    requires f.state.Start? || (f.state.WaitPageReady? && LastPageDone(f)) ==> Divisible(f, file)
  {
    Handle(f, file, XMID_FIRMWARE_UPDATE, Expected(f.state))
  }

  lemma StepInWaitReady(f: Fw, file: seq<byte>, p: Plan, all: seq<Command>)
    requires Underway(f, file, p, all) && f.state.WaitReady?
    ensures Underway(Next(f, file), file, p, all) && Less(Next(f, file), f, file)
  {
    HeaderStep(f, file, p, p.pages - 1, all);
  }

  lemma StepInWaitHeaderResult(f: Fw, file: seq<byte>, p: Plan, all: seq<Command>)
    requires Underway(f, file, p, all) && f.state.WaitHeaderResult?
    ensures Underway(Next(f, file), file, p, all) && Less(Next(f, file), f, file)
  {
    SliceStep(f, file, p, p.slices - 1, all);
  }

  lemma StepInWaitSliceReady(f: Fw, file: seq<byte>, p: Plan, all: seq<Command>)
    requires Underway(f, file, p, all) && f.state.WaitSliceReady?
    ensures Underway(Next(f, file), file, p, all) && Less(Next(f, file), f, file)
  {
    if f.sliceCounter < f.nofSlicesPerPage {
      SliceStep(f, file, p, p.slices - f.sliceCounter - 1, all);
    } else {
      assert SlicesLeft(f, p) == 0 == SlicesLeft(Next(f, file), p);
    }
  }

  lemma StepInWaitPageOk(f: Fw, file: seq<byte>, p: Plan, all: seq<Command>)
    requires Underway(f, file, p, all) && f.state.WaitPageOk?
    ensures Underway(Next(f, file), file, p, all) && Less(Next(f, file), f, file)
  {
    assert SlicesLeft(f, p) == 0 == SlicesLeft(Next(f, file), p);
  }

  lemma NextHeader(f: Fw, file: seq<byte>)
    requires f.state.WaitPageReady? && !LastPageDone(f)
    requires !SendHeader(f.(pageCounter := f.pageCounter + 1), file).endOfFile
    ensures Next(f, file) == SendHeader(f.(pageCounter := f.pageCounter + 1), file).(state := WaitHeaderResult)
  {
  }

  lemma StepToNextPage(f: Fw, file: seq<byte>, p: Plan, all: seq<Command>)
    requires Underway(f, file, p, all) && f.state.WaitPageReady? && f.pageCounter + 1 < p.pages
    ensures !LastPageDone(f)
    ensures Underway(Next(f, file), file, p, all) && Less(Next(f, file), f, file)
  {
    NothingLeftOfPage(f, file, p, all);
    HeaderStep(f.(pageCounter := f.pageCounter + 1), file, p, p.pages - f.pageCounter - 2, all);
    NextHeader(f, file);
  }

  lemma StepToFinish(f: Fw, file: seq<byte>, p: Plan, all: seq<Command>)
    requires Underway(f, file, p, all) && f.state.WaitPageReady? && Continues(p, file)
    requires f.pageCounter + 1 == p.pages && p.announced == 0
    ensures !LastPageDone(f)
    ensures var g := Next(f, file); g.state.Idle? && g.sent == all && g.results == [Success] && Less(g, f, file)
  {
    FinishStep(f, file, p, all);
    CountingDoesNotMatter(f, file);
  }

  lemma CountingDoesNotMatter(f: Fw, file: seq<byte>)
    ensures SendHeader(f.(pageCounter := f.pageCounter + 1), file) == SendHeader(f, file).(pageCounter := f.pageCounter + 1)
  {
  }

  /** With the expected acknowledgement the transfer goes on, or ends in success with everything sent. */
  lemma ExpectedStep(f: Fw, file: seq<byte>)
    requires WellFormed(file, 0) && Good(f, file) && !f.state.Idle?
    ensures f.state.Start? || (f.state.WaitPageReady? && LastPageDone(f)) ==> SectionReadable(f, file)
    ensures Good(Next(f, file), file) && Less(Next(f, file), f, file)
    ensures Next(f, file).state.Idle? ==> Next(f, file).results == [Success]
  {
    if f.state.Start? {
      EnterStep(f, file, Transfer(file));
    } else {
      var p: Plan :| Continues(p, file) && Underway(f, file, p, Transfer(file));
      StepOfPlan(f, file, p, Transfer(file));
      PlanMakesGood(f, Next(f, file), file, p);
    }
  }

  /** Where one expected acknowledgement leads: on in the section, into the next one, or to the end. */
  predicate Arrives(f: Fw, g: Fw, file: seq<byte>, p: Plan, all: seq<Command>) {
    || Underway(g, file, p, all)
    || (WellFormed(file, f.readIndex) && Continues(PlanAt(file, f.readIndex), file)
        && Underway(g, file, PlanAt(file, f.readIndex), all))
    || (g.state.Idle? && g.sent == all && g.results == [Success])
  }

  lemma PlanMakesGood(f: Fw, g: Fw, file: seq<byte>, p: Plan)
    requires WellFormed(file, 0) && Continues(p, file) && Arrives(f, g, file, p, Transfer(file))
    ensures Good(g, file)
    ensures g.state.Idle? ==> g.results == [Success]
  {
  }

  lemma StepInPage(f: Fw, file: seq<byte>, p: Plan, all: seq<Command>)
    requires Underway(f, file, p, all) && !f.state.WaitPageReady?
    ensures Underway(Next(f, file), file, p, all) && Less(Next(f, file), f, file)
  {
    match f.state {
      case WaitReady => StepInWaitReady(f, file, p, all);
      case WaitHeaderResult => StepInWaitHeaderResult(f, file, p, all);
      case WaitSliceReady => StepInWaitSliceReady(f, file, p, all);
      case WaitPageOk => StepInWaitPageOk(f, file, p, all);
    }
  }

  lemma StepToNextSection(f: Fw, file: seq<byte>, p: Plan, all: seq<Command>)
    requires Continues(p, file) && Underway(f, file, p, all) && f.state.WaitPageReady?
    requires f.pageCounter + 1 == p.pages && p.announced != 0
    ensures LastPageDone(f) && SectionReadable(f, file)
    ensures Arrives(f, Next(f, file), file, p, all) && Less(Next(f, file), f, file)
  {
    NextSectionStep(f, file, p, all);
    EnterStep(f, file, all);
  }

  lemma StepAtPageEnd(f: Fw, file: seq<byte>, p: Plan, all: seq<Command>)
    requires Continues(p, file) && Underway(f, file, p, all) && f.state.WaitPageReady?
    ensures LastPageDone(f) ==> SectionReadable(f, file)
    ensures Arrives(f, Next(f, file), file, p, all) && Less(Next(f, file), f, file)
  {
    if f.pageCounter + 1 < p.pages {
      StepToNextPage(f, file, p, all);
    } else if p.announced == 0 {
      StepToFinish(f, file, p, all);
    } else {
      StepToNextSection(f, file, p, all);
    }
  }

  /** One expected acknowledgement in a section. */
  lemma StepOfPlan(f: Fw, file: seq<byte>, p: Plan, all: seq<Command>)
    requires Continues(p, file) && Underway(f, file, p, all)
    ensures f.state.WaitPageReady? && LastPageDone(f) ==> SectionReadable(f, file)
    ensures Arrives(f, Next(f, file), file, p, all) && Less(Next(f, file), f, file)
  {
    if f.state.WaitPageReady? {
      StepAtPageEnd(f, file, p, all);
    } else {
      StepInPage(f, file, p, all);
    }
  }

  /** Any other answer is ignored, or ends the update as failed. */
  lemma OtherAnswer(f: Fw, file: seq<byte>, mid: byte, ack: byte)
    requires mid != XMID_FIRMWARE_UPDATE || f.state.Idle? || ack != Expected(f.state)
    ensures !EntersSection(f, mid, ack)
    ensures Handle(f, file, mid, ack) == f || (!f.state.Idle? && !f.state.Start? && Handle(f, file, mid, ack) == Fail(f))
  {
  }

  /** As long as an update is under way, there is no verdict and what was sent begins the transfer. */
  lemma GoodSoFar(f: Fw, file: seq<byte>)
    requires WellFormed(file, 0) && Good(f, file) && !f.state.Idle? && !f.state.Start?
    ensures f.sent <= Transfer(file) && f.results == []
  {
    var p: Plan :| Continues(p, file) && Underway(f, file, p, Transfer(file));
    SentIsPrefix(f, file, p, Transfer(file));
  }

  lemma FailureIsGood(f: Fw, file: seq<byte>)
    requires WellFormed(file, 0) && f.sent <= Transfer(file) && f.results == []
    ensures Good(Fail(f), file)
  {
    assert Fail(f).results == [Failed];
  }

  lemma OtherStep(f: Fw, file: seq<byte>, mid: byte, ack: byte)
    requires WellFormed(file, 0) && Good(f, file)
    requires mid != XMID_FIRMWARE_UPDATE || f.state.Idle? || ack != Expected(f.state)
    ensures !EntersSection(f, mid, ack)
    ensures Good(Handle(f, file, mid, ack), file)
  {
    OtherAnswer(f, file, mid, ack);
    if Handle(f, file, mid, ack) != f {
      GoodSoFar(f, file);
      FailureIsGood(f, file);
    }
  }

  lemma AnyStep(f: Fw, file: seq<byte>, mid: byte, ack: byte)
    requires WellFormed(file, 0) && Good(f, file)
    ensures EntersSection(f, mid, ack) ==> SectionReadable(f, file)
    ensures Good(Handle(f, file, mid, ack), file)
  {
    if mid == XMID_FIRMWARE_UPDATE && !f.state.Idle? && ack == Expected(f.state) {
      ExpectedStep(f, file);
    } else {
      OtherStep(f, file, mid, ack);
    }
  }

  /** The two things that the C code takes for granted hold in every run on a well-formed file. */
  lemma NothingGoesWrong(f: Fw, file: seq<byte>, mid: byte, ack: byte)
    requires WellFormed(file, 0) && Good(f, file)
    ensures EntersSection(f, mid, ack) ==> SectionReadable(f, file)
    ensures f.state.WaitHeaderResult? || f.state.WaitSliceReady? ==> f.header.sliceSize <= 292
  {
    AnyStep(f, file, mid, ack);
    if f.state.WaitHeaderResult? || f.state.WaitSliceReady? {
      var p: Plan :| Continues(p, file) && Underway(f, file, p, Transfer(file));
    }
  }

  /** An update that is just about to be started. */
  predicate Fresh(f: Fw) {
    f.state.Idle? && f.sent == [] && f.results == []
  }

  lemma BeginIsGood(f: Fw, file: seq<byte>)
    requires WellFormed(file, 0) && Fresh(f)
    ensures Good(Begin(f), file)
  {
  }

  /** The run in which the module always answers as expected; it ends, by the measure. */
  ghost function RunToEnd(f: Fw, file: seq<byte>): (g: Fw)
    requires WellFormed(file, 0) && Good(f, file)
    ensures g.state.Idle?
    decreases BytesLeft(f, file), Rank(f.state)
  {
    if f.state.Idle? then
      f
    else
      ExpectedStep(f, file);
      RunToEnd(Next(f, file), file)
  }

  lemma {:induction false} RunSucceeds(f: Fw, file: seq<byte>)
    requires WellFormed(file, 0) && Good(f, file) && (f.state.Idle? ==> f.results == [Success])
    ensures RunToEnd(f, file).results == [Success] && RunToEnd(f, file).sent == Transfer(file)
    decreases BytesLeft(f, file), Rank(f.state)
  {
    if !f.state.Idle? {
      ExpectedStep(f, file);
      RunSucceeds(Next(f, file), file);
    }
  }

  /** A whole update in which the module always answers as expected. */
  ghost function SmoothUpdate(f: Fw, file: seq<byte>): (g: Fw)
    requires WellFormed(file, 0) && Fresh(f)
  {
    BeginIsGood(f, file);
    RunToEnd(Begin(f), file)
  }

  /** Exact transmission: every byte behind the section headers, once and in order, then exactly one success. */
  lemma ExactTransmission(f: Fw, file: seq<byte>)
    requires WellFormed(file, 0) && Fresh(f)
    ensures var g := SmoothUpdate(f, file);
      && g.state.Idle? && g.results == [Success]
      && g.sent == Transfer(file) && CarriedAll(g.sent) == WithoutHeaders(file, 0)
  {
    BeginIsGood(f, file);
    RunSucceeds(Begin(f), file);
    TransferCarriesTheFile(file);
  }

  /** A run on whatever the module sends: message ids and first payload bytes. */
  datatype Answer = Answer(mid: byte, ack: byte)

  ghost function After(f: Fw, file: seq<byte>, a: Answer): (g: Fw)
    requires WellFormed(file, 0) && Good(f, file)
    ensures Good(g, file)
  {
    AnyStep(f, file, a.mid, a.ack);
    Handle(f, file, a.mid, a.ack)
  }

  ghost function RunOn(f: Fw, file: seq<byte>, answers: seq<Answer>): (g: Fw)
    requires WellFormed(file, 0) && Good(f, file)
    ensures Good(g, file)
    decreases |answers|
  {
    if answers == [] then f else RunOn(After(f, file, answers[0]), file, answers[1..])
  }

  /** An update under whatever answers. */
  ghost function UpdateOn(f: Fw, file: seq<byte>, answers: seq<Answer>): (g: Fw)
    requires WellFormed(file, 0) && Fresh(f)
    ensures Good(g, file)
  {
    BeginIsGood(f, file);
    RunOn(Begin(f), file, answers)
  }

  lemma CarriedPrefix(a: seq<Command>, b: seq<Command>)
    requires a <= b
    ensures CarriedAll(a) <= CarriedAll(b)
  {
    assert b == a + b[|a|..];
    CarriedAppend(a, b[|a|..]);
  }

  /**
   Whatever the module answers: what was sent is the beginning of the transfer; there is never more than
   one verdict, none while the update is under way; and success is reported only when all was sent.
   */
  lemma AnyRunIsSafe(f: Fw, file: seq<byte>, answers: seq<Answer>)
    requires WellFormed(file, 0) && Fresh(f)
    ensures var g := UpdateOn(f, file, answers);
      && g.sent <= Transfer(file)
      && CarriedAll(g.sent) <= WithoutHeaders(file, 0)
      && |g.results| == (if g.state.Idle? then 1 else 0)
      && (g.results == [Success] ==> g.sent == Transfer(file))
  {
    var g := UpdateOn(f, file, answers);
    if !g.state.Idle? && !g.state.Start? {
      var p: Plan :| Continues(p, file) && Underway(g, file, p, Transfer(file));
      SentIsPrefix(g, file, p, Transfer(file));
    }
    TransferCarriesTheFile(file);
    CarriedPrefix(g.sent, Transfer(file));
  }

  // ---- When exactly an update fails ----

  /** A firmware message that is not the acknowledgement the state asks for; before the module is ready there is none. */
  predicate Refuses(f: Fw, a: Answer) {
    && a.mid == 0xf2 && !f.state.Idle? && !f.state.Start?
    && a.ack != (if f.state.WaitPageOk? then 0x53 else 0x52)
  }

  /** A refusal ends the update: one more failure, nothing more sent or read. */
  lemma RefusalEnds(f: Fw, file: seq<byte>, a: Answer)
    requires Refuses(f, a)
    ensures !EntersSection(f, a.mid, a.ack)
    ensures Handle(f, file, a.mid, a.ack) == f.(state := Idle, results := f.results + [Failed])
  {
  }

  /** What is no refusal is ignored, or moves the transfer on; it never brings a failure. */
  lemma OthersDoNotFail(f: Fw, file: seq<byte>, a: Answer)
    requires !Refuses(f, a) && (EntersSection(f, a.mid, a.ack) ==> Divisible(f, file))
    ensures var g := Handle(f, file, a.mid, a.ack);
      && (g.results == f.results || (g.results == f.results + [Success] && g.state.Idle?))
      && (a.mid != 0xf2 || f.state.Idle? || (f.state.Start? && a.ack != 0x52) ==> g == f)
  {
  }

  /** The k-th answer finds the update under way and refuses it. */
  ghost predicate RefusedAt(f: Fw, file: seq<byte>, answers: seq<Answer>, k: nat)
    requires WellFormed(file, 0) && Good(f, file)
  {
    k < |answers| && Refuses(RunOn(f, file, answers[..k]), answers[k])
  }

  lemma RefusedLater(f: Fw, file: seq<byte>, answers: seq<Answer>, k: nat)
    requires WellFormed(file, 0) && Good(f, file) && answers != []
    ensures RefusedAt(f, file, answers, k + 1) <==> RefusedAt(After(f, file, answers[0]), file, answers[1..], k)
  {
    if k + 1 < |answers| {
      assert answers[..k + 1][0] == answers[0] && answers[..k + 1][1..] == answers[1..][..k];
    }
  }

  lemma RefusedFirst(f: Fw, file: seq<byte>, answers: seq<Answer>)
    requires WellFormed(file, 0) && Good(f, file) && answers != []
    ensures RefusedAt(f, file, answers, 0) <==> Refuses(f, answers[0])
  {
    assert answers[..0] == [];
  }

  ghost predicate EverRefused(f: Fw, file: seq<byte>, answers: seq<Answer>)
    requires WellFormed(file, 0) && Good(f, file)
  {
    exists k: nat :: RefusedAt(f, file, answers, k)
  }

  lemma RefusedNowOrLater(f: Fw, file: seq<byte>, answers: seq<Answer>)
    requires WellFormed(file, 0) && Good(f, file) && answers != [] && EverRefused(f, file, answers)
    ensures Refuses(f, answers[0]) || EverRefused(After(f, file, answers[0]), file, answers[1..])
  {
    var k: nat :| RefusedAt(f, file, answers, k);
    if k == 0 {
      RefusedFirst(f, file, answers);
    } else {
      var before: nat :| k == before + 1;
      RefusedLater(f, file, answers, before);
    }
  }

  lemma RefusedEver(f: Fw, file: seq<byte>, answers: seq<Answer>)
    requires WellFormed(file, 0) && Good(f, file) && answers != []
    requires Refuses(f, answers[0]) || EverRefused(After(f, file, answers[0]), file, answers[1..])
    ensures EverRefused(f, file, answers)
  {
    if Refuses(f, answers[0]) {
      RefusedFirst(f, file, answers);
    } else {
      var k: nat :| RefusedAt(After(f, file, answers[0]), file, answers[1..], k);
      RefusedLater(f, file, answers, k);
    }
  }

  lemma OneMoreVerdict(results: seq<Verdict>, v: Verdict)
    requires results == []
    ensures results + [v] == [v] && [v][0] == v
  {
  }

  lemma FailsByRefusal(f: Fw, file: seq<byte>, a: Answer)
    requires EntersSection(f, a.mid, a.ack) ==> Divisible(f, file)
    requires !f.state.Idle? ==> f.results == []
    ensures Handle(f, file, a.mid, a.ack).results == [Failed] <==> f.results == [Failed] || Refuses(f, a)
  {
    if Refuses(f, a) {
      RefusalEnds(f, file, a);
      OneMoreVerdict(f.results, Failed);
    } else {
      OthersDoNotFail(f, file, a);
      if !f.state.Idle? {
        OneMoreVerdict(f.results, Success);
      }
    }
  }

  lemma FailsAtOnce(f: Fw, file: seq<byte>, a: Answer)
    requires WellFormed(file, 0) && Good(f, file)
    ensures After(f, file, a).results == [Failed] <==> f.results == [Failed] || Refuses(f, a)
  {
    VerdictOnlyAtEnd(f, file);
    AnyStep(f, file, a.mid, a.ack);
    FailsByRefusal(f, file, a);
  }

  lemma {:induction false} FailsInRun(f: Fw, file: seq<byte>, answers: seq<Answer>)
    requires WellFormed(file, 0) && Good(f, file)
    ensures RunOn(f, file, answers).results == [Failed] <==> f.results == [Failed] || EverRefused(f, file, answers)
    decreases |answers|
  {
    if answers != [] {
      FailsAtOnce(f, file, answers[0]);
      FailsInRun(After(f, file, answers[0]), file, answers[1..]);
      if EverRefused(f, file, answers) {
        RefusedNowOrLater(f, file, answers);
      } else if Refuses(f, answers[0]) || EverRefused(After(f, file, answers[0]), file, answers[1..]) {
        RefusedEver(f, file, answers);
      }
    }
  }

  lemma VerdictOnlyAtEnd(f: Fw, file: seq<byte>)
    requires WellFormed(file, 0) && Good(f, file)
    ensures !f.state.Idle? ==> f.results == []
  {
    if !f.state.Idle? && !f.state.Start? {
      GoodSoFar(f, file);
    }
  }

  /** An update fails if and only if some firmware message, while it is under way, is not the acknowledgement asked for. */
  lemma FailsExactly(f: Fw, file: seq<byte>, answers: seq<Answer>)
    requires WellFormed(file, 0) && Fresh(f)
    ensures Good(Begin(f), file)
    ensures UpdateOn(f, file, answers).results == [Failed]
      <==> exists k: nat :: RefusedAt(Begin(f), file, answers, k)
  {
    BeginIsGood(f, file);
    FailsInRun(Begin(f), file, answers);
  }

  /** A start while an update is under way fails and disturbs nothing. */
  lemma StartIsRefused(f: Fw)
    requires !f.state.Idle?
    ensures Begin(f) == f.(results := f.results + [Failed])
  {
  }

  // ---- Reading at the end of any file ----

  lemma CarriedSnoc(commands: seq<Command>, c: Command)
    ensures CarriedAll(commands + [c]) == CarriedAll(commands) + c.Carried()
  {
    CarriedAppend(commands, [c]);
    CarriedCons(c, []);
    assert [c] + [] == [c];
  }

  /** On any file, an address or a slice is sent if all of it is there; else nothing is, and the rest is read to the end of the file. */
  lemma SentOrAtEnd(f: Fw, file: seq<byte>, g: Fw, n: nat)
    requires f.readIndex <= |file|
    requires (g == SendHeader(f, file) && n == f.header.addressLength) || (g == SendSlice(f, file) && n == f.header.sliceSize)
    ensures if f.readIndex + n <= |file| then
        && CarriedAll(g.sent) == CarriedAll(f.sent) + file[f.readIndex..f.readIndex + n]
        && |g.sent| == |f.sent| + 1 && g.readIndex == f.readIndex + n && g.endOfFile == f.endOfFile
      else
        g.sent == f.sent && g.readIndex == |file| && g.endOfFile
  {
    if f.readIndex + n <= |file| {
      CarriedSnoc(f.sent, g.sent[|g.sent| - 1]);
    }
  }
}
