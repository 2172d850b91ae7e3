/** The dialogue of an update: which acknowledgements the module must give, as a function of the file alone. */
module FwDialogue {
  import opened Xbus
  import opened FwImage
  import opened FwMachine

  /** The acknowledgements that keep the update going up to its end. */
  ghost function Dialogue(f: Fw, file: seq<byte>): seq<byte>
    requires WellFormed(file, 0) && Good(f, file)
    decreases BytesLeft(f, file), Rank(f.state)
  {
    if f.state.Idle? then
      []
    else
      ExpectedStep(f, file);
      [Expected(f.state)] + Dialogue(Next(f, file), file)
  }

  /** The module's answers to one command, given what follows it: ready; after the last slice of a page, ready, page ok, ready. */
  function AnswersTo(c: Command, later: seq<Command>): seq<byte> {
    if c.Finished? then []
    else if c.PageSlice? && (later == [] || !later[0].PageSlice?) then [0x52, 0x53, 0x52]
    else [0x52]
  }

  function AnswersToAll(commands: seq<Command>): seq<byte>
    decreases |commands|
  {
    if commands == [] then [] else AnswersTo(commands[0], commands[1..]) + AnswersToAll(commands[1..])
  }

  /** The answers that are due before the next command can go out. */
  function Due(s: State, todo: seq<Command>): seq<byte> {
    match s
    case Idle => []
    case WaitSliceReady => if todo != [] && todo[0].PageSlice? then [0x52] else [0x52, 0x53, 0x52]
    case WaitPageOk => [0x53, 0x52]
    case _ => [0x52]
  }

  lemma FirstOfSections(file: seq<byte>, i: nat)
    requires WellFormed(file, i)
    ensures Sections(file, i) != [] && Sections(file, i)[0].Other?
  {
  }

  lemma FirstOfPage(file: seq<byte>, p: Plan, at: nat, k: nat)
    requires Continues(p, file)
    ensures FromPage(file, p, at, k) != [] && !FromPage(file, p, at, k)[0].PageSlice?
  {
    if k == 0 {
      assert FromPage(file, p, at, 0) == p.after;
      if p.announced != 0 {
        FirstOfSections(file, p.end);
      }
    }
  }

  lemma FirstOfSlices(file: seq<byte>, p: Plan, at: nat, k: nat, pages: nat)
    ensures k > 0 ==> FromSlice(file, p, at, k, pages) != [] && FromSlice(file, p, at, k, pages)[0].PageSlice?
    ensures k == 0 ==> FromSlice(file, p, at, k, pages) == FromPage(file, p, at, pages)
  {
  }

  lemma RestOfAll(all: seq<Command>, sent: seq<Command>, todo: seq<Command>)
    requires Splits(all, sent, todo)
    ensures sent <= all && all[|sent|..] == todo
  {
  }

  /** A slice is next to be sent exactly if the page has slices left. */
  lemma SliceIsNext(f: Fw, file: seq<byte>, p: Plan, all: seq<Command>)
    requires Continues(p, file) && Underway(f, file, p, all) && f.state.WaitSliceReady?
    ensures f.sent < all && (all[|f.sent|].PageSlice? <==> f.sliceCounter < f.nofSlicesPerPage)
  {
    var at, k, pages := f.readIndex, SlicesLeft(f, p), p.pages - f.pageCounter - 1;
    var todo := FromSlice(file, p, at, k, pages);
    RestOfAll(all, f.sent, todo);
    FirstOfSlices(file, p, at, k, pages);
    FirstOfPage(file, p, at, pages);
    assert all[|f.sent|] == todo[0];
  }

  // ---- One answer ----

  predicate SentOne(f: Fw, g: Fw) {
    |g.sent| == |f.sent| + 1 && g.sent[..|f.sent|] == f.sent
  }

  /** Which command the expected answer sets off, state by state. */
  predicate Advances(f: Fw, g: Fw) {
    match f.state
    case Idle => true
    case Start => SentOne(f, g) && g.sent[|f.sent|].Other? && g.state.WaitReady?
    case WaitReady => SentOne(f, g) && g.sent[|f.sent|].PageHeader? && g.state.WaitHeaderResult?
    case WaitHeaderResult => SentOne(f, g) && g.sent[|f.sent|].PageSlice? && g.state.WaitSliceReady?
    case WaitSliceReady =>
      if f.sliceCounter < f.nofSlicesPerPage then SentOne(f, g) && g.sent[|f.sent|].PageSlice? && g.state.WaitSliceReady?
      else g.sent == f.sent && g.state.WaitPageOk?
    case WaitPageOk => g.sent == f.sent && g.state.WaitPageReady?
    case WaitPageReady =>
      && SentOne(f, g)
      && match g.sent[|f.sent|]
         case Other(_) => g.state.WaitReady?
         case PageHeader(_, _) => g.state.WaitHeaderResult?
         case Finished => g.state.Idle?
         case _ => false
  }

  lemma HeaderOrEnd(f: Fw, file: seq<byte>)
    requires !f.endOfFile
    ensures var g := SendHeader(f, file);
      if g.endOfFile then g.sent == f.sent else SentOne(f, g) && g.sent[|f.sent|].PageHeader?
  {
  }

  lemma SliceOrEnd(f: Fw, file: seq<byte>)
    requires !f.endOfFile
    ensures var g := SendSlice(f, file);
      if g.endOfFile then g.sent == f.sent else SentOne(f, g) && g.sent[|f.sent|].PageSlice?
  {
  }

  lemma NextAdvances(f: Fw, file: seq<byte>, g: Fw)
    requires f.state.Start? || (f.state.WaitPageReady? && LastPageDone(f)) ==> Divisible(f, file)
    requires g == Next(f, file) && !f.state.Idle? && !f.endOfFile && (g.state.Idle? || !g.endOfFile)
    ensures Advances(f, g)
  {
    var counted := f.(pageCounter := f.pageCounter + 1);
    HeaderOrEnd(f, file);
    HeaderOrEnd(counted, file);
    SliceOrEnd(f, file);
  }

  /** The command that goes out is the next of the transfer. */
  lemma NextOfAll(all: seq<Command>, f: Fw, g: Fw)
    requires f.sent <= all && g.sent <= all && SentOne(f, g)
    ensures all[|f.sent|..] == [g.sent[|f.sent|]] + all[|g.sent|..]
  {
    assert all[|f.sent|] == g.sent[|f.sent|];
  }

  /** What is due before the answer is the answer and what is due after it, with what the command sent makes due. */
  lemma DueAdvances(f: Fw, g: Fw, todo: seq<Command>, rest: seq<Command>)
    requires !f.state.Idle? && Advances(f, g)
    requires if g.sent == f.sent then rest == todo else todo == [g.sent[|f.sent|]] + rest
    requires f.state.WaitSliceReady? && g.sent == f.sent ==> todo != [] && !todo[0].PageSlice?
    ensures Due(f.state, todo) + AnswersToAll(todo) == [Expected(f.state)] + (Due(g.state, rest) + AnswersToAll(rest))
  {
    if g.sent != f.sent {
      assert todo[1..] == rest;
      assert AnswersTo(todo[0], rest) == Due(g.state, rest);
      assert Due(f.state, todo) == [Expected(f.state)];
    }
  }

  // ---- The whole update ----

  lemma GoodIsPrefix(f: Fw, file: seq<byte>)
    requires WellFormed(file, 0) && Good(f, file)
    ensures f.sent <= Transfer(file)
  {
    if f.state.Start? {
      assert Transfer(file)[0] == Ready;
    } else if !f.state.Idle? {
      GoodSoFar(f, file);
    }
  }

  lemma NotAtEnd(f: Fw, file: seq<byte>)
    requires WellFormed(file, 0) && Good(f, file)
    ensures f.state.Idle? || !f.endOfFile
  {
    if !f.state.Idle? && !f.state.Start? {
      var p: Plan :| Continues(p, file) && Underway(f, file, p, Transfer(file));
    }
  }

  lemma PageHasEnded(f: Fw, file: seq<byte>)
    requires WellFormed(file, 0) && Good(f, file) && f.state.WaitSliceReady? && f.sliceCounter >= f.nofSlicesPerPage
    ensures f.sent < Transfer(file) && !Transfer(file)[|f.sent|].PageSlice?
  {
    var p: Plan :| Continues(p, file) && Underway(f, file, p, Transfer(file));
    SliceIsNext(f, file, p, Transfer(file));
  }

  lemma DueNext(f: Fw, file: seq<byte>, g: Fw, all: seq<Command>)
    requires WellFormed(file, 0) && Good(f, file) && !f.state.Idle? && all == Transfer(file)
    requires f.sent <= all && g.sent <= all && Advances(f, g)
    ensures Due(f.state, all[|f.sent|..]) + AnswersToAll(all[|f.sent|..])
      == [Expected(f.state)] + (Due(g.state, all[|g.sent|..]) + AnswersToAll(all[|g.sent|..]))
  {
    if g.sent != f.sent {
      NextOfAll(all, f, g);
    } else if f.state.WaitSliceReady? {
      PageHasEnded(f, file);
    }
    DueAdvances(f, g, all[|f.sent|..], all[|g.sent|..]);
  }

  lemma {:induction false} DialogueFrom(f: Fw, file: seq<byte>, all: seq<Command>)
    requires WellFormed(file, 0) && Good(f, file) && all == Transfer(file)
    requires f.state.Idle? ==> f.results == [Success]
    ensures f.sent <= all && Dialogue(f, file) == Due(f.state, all[|f.sent|..]) + AnswersToAll(all[|f.sent|..])
    decreases BytesLeft(f, file), Rank(f.state)
  {
    GoodIsPrefix(f, file);
    if f.state.Idle? {
      assert all[|f.sent|..] == [];
    } else {
      ExpectedStep(f, file);
      var g := Next(f, file);
      NotAtEnd(f, file);
      NotAtEnd(g, file);
      NextAdvances(f, file, g);
      DialogueFrom(g, file, all);
      DueNext(f, file, g, all);
    }
  }

  /** The acknowledgements of a smooth update are a function of the transfer: one for each command, three after the last slice of a page. */
  lemma ExactDialogue(f: Fw, file: seq<byte>)
    requires WellFormed(file, 0) && Fresh(f)
    ensures Good(Begin(f), file) && Dialogue(Begin(f), file) == AnswersToAll(Transfer(file))
  {
    BeginIsGood(f, file);
    DialogueFrom(Begin(f), file, Transfer(file));
    assert Transfer(file)[..1] == [Ready];
    assert Transfer(file)[1..] == Transfer(file)[|Begin(f).sent|..];
  }

  /** The module's messages with these acknowledgements. */
  function Messages(acks: seq<byte>): (r: seq<Answer>)
    ensures |r| == |acks|
  {
    seq(|acks|, i requires 0 <= i < |acks| => Answer(0xf2, acks[i]))
  }

  lemma MessagesCons(ack: byte, more: seq<byte>)
    ensures Messages([ack] + more) == [Answer(0xf2, ack)] + Messages(more)
  {
  }

  lemma RunOnCons(f: Fw, file: seq<byte>, a: Answer, more: seq<Answer>)
    requires WellFormed(file, 0) && Good(f, file)
    ensures RunOn(f, file, [a] + more) == RunOn(After(f, file, a), file, more)
  {
    assert ([a] + more)[1..] == more;
  }

  lemma ExpectedIsNext(f: Fw, file: seq<byte>)
    requires WellFormed(file, 0) && Good(f, file) && !f.state.Idle?
    ensures f.state.Start? || (f.state.WaitPageReady? && LastPageDone(f)) ==> Divisible(f, file)
    ensures After(f, file, Answer(0xf2, Expected(f.state))) == Next(f, file) && Good(Next(f, file), file)
    ensures Less(Next(f, file), f, file)
  {
    ExpectedStep(f, file);
  }

  lemma {:induction false} DialogueIsRun(f: Fw, file: seq<byte>)
    requires WellFormed(file, 0) && Good(f, file)
    ensures RunOn(f, file, Messages(Dialogue(f, file))) == RunToEnd(f, file)
    decreases BytesLeft(f, file), Rank(f.state)
  {
    if !f.state.Idle? {
      ExpectedIsNext(f, file);
      var g := Next(f, file);
      DialogueIsRun(g, file);
      MessagesCons(Expected(f.state), Dialogue(g, file));
      RunOnCons(f, file, Answer(0xf2, Expected(f.state)), Messages(Dialogue(g, file)));
    }
  }

  /** A module that gives these acknowledgements, and no other, gets the whole file, and the host gets one success. */
  lemma TheseAnswersSucceed(f: Fw, file: seq<byte>)
    requires WellFormed(file, 0) && Fresh(f)
    ensures var g := UpdateOn(f, file, Messages(AnswersToAll(Transfer(file))));
      g.results == [Success] && CarriedAll(g.sent) == WithoutHeaders(file, 0)
  {
    ExactDialogue(f, file);
    DialogueIsRun(Begin(f), file);
    ExactTransmission(f, file);
  }
}
