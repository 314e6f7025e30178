/** What a collected report rests on: a complete conversation with the board, in which the image and the reader
    were seen on the target or sent and checked. */
module Conversation {
  import opened ConsoleText
  import opened RunEvents
  import opened Script
  import opened BootMonitor

  /** The lines sent since the last sequence was started. */
  function LinesSince(trace: seq<Event>): seq<Line>
  {
    if trace == [] then []
    else
      match trace[|trace| - 1]
      case Started => []
      case Sent(line) => LinesSince(trace[..|trace| - 1]) + [line]
      case _ => LinesSince(trace[..|trace| - 1])
  }

  lemma {:induction false} LinesAreSent(x: Job, trace: seq<Event>)
    ensures After(x, trace).lines == LinesSince(trace)
  {
    if trace != [] {
      LinesAreSent(x, trace[..|trace| - 1]);
      LineStep(x, After(x, trace[..|trace| - 1]), trace[|trace| - 1]);
    }
  }

  lemma LineStep(x: Job, m: Monitor, e: Event)
    ensures Step(x, m, e).lines == match e
                                   case Started => []
                                   case Sent(line) => m.lines + [line]
                                   case _ => m.lines
  {
    match e
    case Looked(text) => LookKeepsLines(x, m, text);
    case Waited(prompt, text) => WaitKeepsLines(x, m, prompt, text);
    case _ =>
  }

  lemma LookKeepsLines(x: Job, m: Monitor, text: string)
    ensures Seen(x, m, text).lines == m.lines
  {
  }

  lemma WaitKeepsLines(x: Job, m: Monitor, prompt: Prompt, text: string)
    ensures Awaited(x, m, prompt, text).lines == m.lines
  {
  }

  /** Looking for eMMC partitions a second time without unmounting in between is for boots that have shown none;
      unmounting is for those that have not. */
  lemma UnmountingIsDecided(x: Job, trace: seq<Event>, i: nat)
    requires Safe(x, trace) && i < |trace|
    ensures trace[i] == Sent(GrepEmmc) && EndsIn(LinesSince(trace[..i]), [GrepEmmc]) ==> Shown(x, trace[..i], EmmcIsUnmounted)
    ensures trace[i] == Sent(UnmountEmmc) ==> !After(x, trace[..i]).noEmmc
  {
    LinesAreSent(x, trace[..i]);
    assert Allowed(x, After(x, trace[..i]), trace[i]);
    if trace[i] == Sent(GrepEmmc) && EndsIn(LinesSince(trace[..i]), [GrepEmmc]) {
      FactsAreShown(x, trace[..i], EmmcIsUnmounted);
    }
  }

  // ----- the two files on the target -----

  datatype File = Image | Reader

  function Known(m: Monitor, f: File): Supply
  {
    match f
    case Image => m.image
    case Reader => m.reader
  }

  /** The line whose answer shows that the file is there, and the checksum it has to show. */
  function Question(f: File): Line
  {
    match f
    case Image => CheckSum
    case Reader => CheckReader
  }

  function SumOf(x: Job, f: File): string
  {
    match f
    case Image => x.sha256
    case Reader => x.readerSha
  }

  /** What has to be sent for the file to be delivered, and what then has to appear. */
  function Delivery(x: Job, f: File): seq<Line>
  {
    match f
    case Image => ImageLines(x) + [CheckSum]
    case Reader => ReaderLines(x) + [CompileReader]
  }

  function Receipt(f: File): Prompt
  {
    match f
    case Image => ChecksumShown
    case Reader => CompileDone
  }

  /** The last line of the delivery, whose answer is the receipt. */
  function LastOf(f: File): Line
  {
    match f
    case Image => CheckSum
    case Reader => CompileReader
  }

  /** What the receipt of a file shows. */
  lemma ReceiptComes(x: Job, m: Monitor, f: File, text: string)
    requires m.console == Answers(LastOf(f))
    ensures var n := Awaited(x, m, Receipt(f), text);
            && n == m.(image := n.image, reader := n.reader)
            && Known(n, f) == (if EndsIn(m.lines, Delivery(x, f)) then Delivered else Known(m, f))
            && (if f == Image then n.reader == m.reader else n.image == m.image)
  {
  }

  /** Event `n`, in the current sequence, is a look at a buffer that, cleared before, answers to the question
      alone, and the text shows the checksum. */
  ghost predicate SeenAt(x: Job, trace: seq<Event>, f: File, n: int)
  {
    && 0 <= n < |trace| && trace[n].Looked? && Contains(trace[n].text, SumOf(x, f))
    && FreshMeans(trace[..n], Answers(Question(f))) && SameSequence(trace, n)
  }

  /** At event `n`, in the current sequence, the receipt came, in a buffer cleared before the last line, and
      the lines before it end in the whole delivery. */
  ghost predicate DeliveredAt(x: Job, trace: seq<Event>, f: File, n: int)
  {
    && 0 <= n < |trace| && trace[n].Waited? && trace[n].prompt == Receipt(f)
    && FreshMeans(trace[..n], Answers(LastOf(f)))
    && EndsIn(LinesSince(trace[..n]), Delivery(x, f)) && SameSequence(trace, n)
  }

  ghost predicate SameSequence(trace: seq<Event>, n: int)
  {
    forall k | 0 <= k < |trace| && n < k :: trace[k] != Started
  }

  ghost predicate SupplyMeans(x: Job, trace: seq<Event>, f: File, s: Supply)
  {
    match s
    case Unknown => true
    case Present => exists n :: SeenAt(x, trace, f, n)
    case Delivered => exists n :: DeliveredAt(x, trace, f, n)
  }

  lemma SupplyStays(x: Job, front: seq<Event>, e: Event, f: File, s: Supply)
    requires SupplyMeans(x, front, f, s) && e != Started
    ensures SupplyMeans(x, front + [e], f, s)
  {
    var trace := front + [e];
    match s
    case Unknown =>
    case Present =>
      var n :| SeenAt(x, front, f, n);
      assert trace[..n] == front[..n];
      assert SeenAt(x, trace, f, n);
    case Delivered =>
      var n :| DeliveredAt(x, front, f, n);
      assert trace[..n] == front[..n];
      assert DeliveredAt(x, trace, f, n);
  }

  /** How this event can have made the file known. */
  predicate Shows(x: Job, m: Monitor, e: Event, f: File, s: Supply)
  {
    match s
    case Unknown => true
    case Present => e.Looked? && Contains(e.text, SumOf(x, f)) && m.console == Answers(Question(f))
    case Delivered =>
      && e.Waited? && e.prompt == Receipt(f) && m.console == Answers(LastOf(f))
      && EndsIn(m.lines, Delivery(x, f))
  }

  lemma SupplyStep(x: Job, m: Monitor, e: Event, f: File)
    ensures var s := Known(Step(x, m, e), f); (s == Known(m, f) && e != Started) || Shows(x, m, e, f, s)
  {
    match e
    case Looked(text) => LookStep(x, m, text, f);
    case Waited(prompt, text) => WaitStep(x, m, prompt, text, f);
    case _ => OtherStep(m, e, f);
  }

  lemma OtherStep(m: Monitor, e: Event, f: File)
    ensures var s := Known(Passed(m, e), f); (s == Known(m, f) && e != Started) || s == Unknown
  {
    if e.Sent? { LineIsKnown(m, e.line, f); }
  }

  lemma LineIsKnown(m: Monitor, line: Line, f: File)
    ensures var s := Known(Passed(m, Sent(line)), f); s == Known(m, f) || s == Unknown
  {
    if line == Reboot {
      assert Passed(m, Sent(line)) == Rebooted(m).(lines := m.lines + [Reboot]);
    } else {
      assert Passed(m, Sent(line)) == Wrote(m, line);
    }
  }

  lemma LookStep(x: Job, m: Monitor, text: string, f: File)
    ensures var s := Known(Seen(x, m, text), f); s == Known(m, f) || Shows(x, m, Looked(text), f, s)
  {
  }

  lemma WaitStep(x: Job, m: Monitor, prompt: Prompt, text: string, f: File)
    ensures var s := Known(Awaited(x, m, prompt, text), f); s == Known(m, f) || Shows(x, m, Waited(prompt, text), f, s)
  {
  }

  lemma ShownNow(x: Job, front: seq<Event>, e: Event, f: File, s: Supply)
    requires Shows(x, After(x, front), e, f, s)
    ensures SupplyMeans(x, front + [e], f, s)
  {
    var trace, n := front + [e], |front|;
    FreshIsSound(x, front);
    LinesAreSent(x, front);
    assert trace[..n] == front;
    match s
    case Unknown =>
    case Present => assert SeenAt(x, trace, f, n);
    case Delivered => assert DeliveredAt(x, trace, f, n);
  }

  /** What the monitor knows of a file has been shown in the current sequence. */
  lemma {:induction false} SuppliesAreShown(x: Job, trace: seq<Event>, f: File)
    ensures SupplyMeans(x, trace, f, Known(After(x, trace), f))
  {
    if trace != [] {
      var front, e := trace[..|trace| - 1], trace[|trace| - 1];
      var s := Known(After(x, trace), f);
      assert trace == front + [e];
      SupplyStep(x, After(x, front), e, f);
      if Shows(x, After(x, front), e, f, s) {
        ShownNow(x, front, e, f, s);
      } else {
        SuppliesAreShown(x, front, f);
        SupplyStays(x, front, e, f, s);
      }
    }
  }

  /** The current sequence has said all it has to say, line by line; each file was seen on the target, and
      then not sent, or was sent as a whole, and its receipt came. */
  ghost predicate RestsOnTarget(x: Job, trace: seq<Event>)
  {
    exists image, reader, a, b :: Told(x, trace, image, reader, a, b)
  }

  ghost predicate Told(x: Job, trace: seq<Event>, image: Supply, reader: Supply, a: bool, b: bool)
  {
    && image != Unknown && SupplyMeans(x, trace, Image, image)
    && reader != Unknown && SupplyMeans(x, trace, Reader, reader)
    && LinesSince(trace) == WholeScript(x, image == Present, reader == Present, a, b)
  }

  /** In a safe trace a report is collected only at the end of such a conversation. */
  lemma CollectingIsEarned(x: Job, trace: seq<Event>, i: nat)
    requires Safe(x, trace) && i < |trace| && trace[i].Collected?
    ensures RestsOnTarget(x, trace[..i])
  {
    var front := trace[..i];
    var m := After(x, front);
    assert Allowed(x, m, trace[i]);
    var a: bool, b: bool :| IsConversation(x, m, a, b);
    LinesAreSent(x, front);
    SuppliesAreShown(x, front, Image);
    SuppliesAreShown(x, front, Reader);
    assert Told(x, front, m.image, m.reader, a, b);
  }
}
