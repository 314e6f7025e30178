/** What the runner must have seen before it may act.

    A boot of the board begins when its power is cycled or when it is told to reboot; what was seen in
    an earlier boot counts for nothing. */
module BootMonitor {
  import opened ConsoleText
  import opened RunEvents
  import opened Script

  /** The buffer holds nothing since it was cleared, or answers to one line only, or possibly older text. */
  datatype Fresh = Stale | Empty | Answers(line: Line)

  /** What the current boot has shown, and, across the boots of one sequence, the lines sent and what is known
      of the image and of the reader on the target. */
  datatype Monitor = Monitor(
    lines: seq<Line>,
    image: Supply,
    reader: Supply,
    console: Fresh,
    uboot: bool,
    banner: bool,
    sdRoot: bool,
    noEmmc: bool,
    loaded: bool,
    started: bool
  )

  const START := Monitor([], Unknown, Unknown, Stale, false, false, false, false, false, false)

  /** After a power cycle or a reboot. */
  function Rebooted(m: Monitor): Monitor
  {
    START.(lines := m.lines, image := m.image, reader := m.reader)
  }

  /** What a look at the buffer proves. */
  function Seen(x: Job, m: Monitor, text: string): Monitor
  {
    m.(sdRoot := if m.console == Answers(FindRoot) then IsOnSd(text) else m.sdRoot,
       noEmmc := if m.console == Answers(GrepEmmc) then HasNoEmmc(text) else m.noEmmc,
       loaded := if m.console == Answers(LoadM4) then IsLoaded(text) else m.loaded,
       started := if m.console == Answers(BootAux) then IsStarted(x, text) else m.started,
       image := if m.console == Answers(CheckSum) && Contains(text, x.sha256) then Present else m.image,
       reader := if m.console == Answers(CheckReader) && Contains(text, x.readerSha) then Present else m.reader)
  }

  /** A line is sent; asking for a checksum is to forget what is known. */
  function Wrote(m: Monitor, line: Line): Monitor
  {
    m.(lines := m.lines + [line],
       image := if line == CheckSum then Unknown else m.image,
       reader := if line == CheckReader then Unknown else m.reader,
       console := if m.console == Empty then Answers(line) else Stale)
  }

  /** The buffer is cleared and one line sent. */
  function Asked(m: Monitor, line: Line): Monitor
  {
    Wrote(m.(console := Empty), line)
  }

  /** What was waited for has come. The image or the reader is delivered if the lines before say so. */
  function Awaited(x: Job, m: Monitor, prompt: Prompt, text: string): Monitor
  {
    m.(banner := if prompt == LoginPrompt && m.console == Answers(BootLinux) then IsKirkstone(text) else m.banner,
       image := if prompt == ChecksumShown && IsLast(m, CheckSum, ImageLines(x)) then Delivered else m.image,
       reader := if prompt == CompileDone && IsLast(m, CompileReader, ReaderLines(x)) then Delivered else m.reader)
  }

  /** The buffer answers to `line` alone, and before it the whole file was sent. */
  predicate IsLast(m: Monitor, line: Line, file: seq<Line>)
  {
    m.console == Answers(line) && EndsIn(m.lines, file + [line])
  }

  lemma StartSeen(x: Job, m: Monitor, text: string)
    ensures Seen(x, Asked(m, BootAux), text) == Asked(m, BootAux).(started := IsStarted(x, text))
  {
  }

  lemma EmmcSeen(x: Job, m: Monitor, text: string)
    ensures Seen(x, Asked(m, GrepEmmc), text) == Asked(m, GrepEmmc).(noEmmc := HasNoEmmc(text))
  {
  }

  function Step(x: Job, m: Monitor, e: Event): Monitor
  {
    match e
    case Waited(prompt, text) => Awaited(x, m, prompt, text)
    case Looked(text) => Seen(x, m, text)
    case _ => Passed(m, e)
  }

  /** Events that show nothing. */
  function Passed(m: Monitor, e: Event): Monitor
  {
    match e
    case Started => m.(lines := [], image := Unknown, reader := Unknown, console := Stale)
    case RelayCycle => Rebooted(m)
    case Sent(Reboot) => Rebooted(m).(lines := m.lines + [Reboot])
    case Sent(line) => Wrote(m, line)
    case Clear => m.(console := Empty)
    case OpenLink => m.(console := Stale)
    case CloseLink => m.(console := Stale)
    case Nudge => m.(console := Stale)
    case AtUboot => m.(uboot := true)
    case _ => m
  }

  predicate IsTransfer(line: Line)
  {
    line.CheckSum? || line.HeredocBegin? || line.Data? || line.HeredocEnd? || line.CheckReader? || line.ReaderBegin?
    || line.ReaderSource? || line.ReaderEnd? || line.CompileReader? || line.MarkReader?
  }

  /** The lines sent are those of a complete sequence. */
  predicate IsComplete(x: Job, m: Monitor)
  {
    && m.image != Unknown && m.reader != Unknown
    && exists a: bool, b: bool :: IsConversation(x, m, a, b)
  }

  predicate IsConversation(x: Job, m: Monitor, unmountFirst: bool, unmountThen: bool)
  {
    m.lines == WholeScript(x, m.image == Present, m.reader == Present, unmountFirst, unmountThen)
  }

  /** This line was the last one sent. */
  predicate Repeats(m: Monitor, line: Line)
  {
    m.lines != [] && m.lines[|m.lines| - 1] == line
  }

  /** The safety rules. What a boot must have shown counts for that boot only. */
  predicate MaySend(m: Monitor, line: Line)
  {
    match line
    case Credentials => m.banner
    case GrepEmmc => m.sdRoot && (Repeats(m, GrepEmmc) ==> m.noEmmc)
    case UnmountEmmc => m.sdRoot && !m.noEmmc
    case MarkReader => m.sdRoot && m.noEmmc && m.reader == Delivered
    case Reboot => m.image != Unknown && m.reader != Unknown
    case BootAux => m.loaded && m.image != Unknown
    case RunReader => m.sdRoot && m.noEmmc && m.started && m.banner && m.reader != Unknown
    case _ => IsTransfer(line) ==> m.sdRoot && m.noEmmc
  }

  predicate MayCollect(x: Job, m: Monitor)
  {
    m.sdRoot && m.noEmmc && m.started && m.banner && IsComplete(x, m)
  }

  predicate Allowed(x: Job, m: Monitor, e: Event)
  {
    match e
    case Sent(line) => MaySend(m, line)
    case Collected(_) => MayCollect(x, m)
    case _ => true
  }

  function After(x: Job, trace: seq<Event>): Monitor
  {
    if trace == [] then START else Step(x, After(x, trace[..|trace| - 1]), trace[|trace| - 1])
  }

  ghost predicate Safe(x: Job, trace: seq<Event>)
  {
    forall i | 0 <= i < |trace| :: Allowed(x, After(x, trace[..i]), trace[i])
  }

  /** The monitor's values along a trace in which every event was allowed. */
  ghost predicate IsHistory(x: Job, trace: seq<Event>, history: seq<Monitor>)
  {
    && |history| == |trace| + 1 && history[0] == START
    && forall i {:trigger trace[i]} | 0 <= i < |trace| ::
         Allowed(x, history[i], trace[i]) && history[i + 1] == Step(x, history[i], trace[i])
  }

  lemma {:induction false} HistoryIsAfter(x: Job, trace: seq<Event>, history: seq<Monitor>, n: nat)
    requires IsHistory(x, trace, history) && n <= |trace|
    ensures After(x, trace[..n]) == history[n]
  {
    if n > 0 {
      HistoryIsAfter(x, trace, history, n - 1);
      assert trace[..n][..n - 1] == trace[..n - 1] && trace[..n][n - 1] == trace[n - 1];
    }
  }

  lemma HistoryIsSafe(x: Job, trace: seq<Event>, history: seq<Monitor>)
    requires IsHistory(x, trace, history)
    ensures Safe(x, trace)
  {
    forall i | 0 <= i < |trace| ensures Allowed(x, After(x, trace[..i]), trace[i]) {
      HistoryIsAfter(x, trace, history, i);
    }
  }

  // ----- what the rules mean, without the monitor -----

  /** Events that neither add to the buffer's input nor clear it nor disturb the board. */
  predicate IsPassive(e: Event)
  {
    !(e.Sent? || e.Clear? || e.Nudge? || e.RelayCycle? || e.OpenLink? || e.CloseLink? || e.Started?)
  }

  /** Since the buffer was cleared at `c`, in this boot, the line sent at `s` is all that was sent. */
  ghost predicate AnswersSince(trace: seq<Event>, c: nat, s: nat, line: Line)
  {
    && c < s < |trace| && trace[c] == Clear && trace[s] == Sent(line) && line != Reboot
    && forall k | c < k < |trace| && k != s :: IsPassive(trace[k])
  }

  /** At some moment of the current boot the buffer, cleared in this boot, showed the answer to `line`,
      and that answer had property `ok`. */
  ghost predicate Proven(trace: seq<Event>, line: Line, login: bool, ok: string -> bool)
  {
    exists c: nat, s: nat, j: nat :: ProvenAt(trace, c, s, j, line, login, ok)
  }

  ghost predicate ProvenAt(trace: seq<Event>, c: nat, s: nat, j: nat, line: Line, login: bool, ok: string -> bool)
  {
    && j < |trace| && AnswersSince(trace[..j], c, s, line)
    && (if login then trace[j].Waited? && trace[j].prompt == LoginPrompt else trace[j].Looked?)
    && ok(trace[j].text)
    && forall k | c <= k < |trace| :: !StartsBoot(trace[k])
  }

  lemma ProvenStays(trace: seq<Event>, e: Event, line: Line, login: bool, ok: string -> bool)
    requires Proven(trace, line, login, ok) && !StartsBoot(e)
    ensures Proven(trace + [e], line, login, ok)
  {
    var c: nat, s: nat, j: nat :| ProvenAt(trace, c, s, j, line, login, ok);
    assert (trace + [e])[..j] == trace[..j];
    assert ProvenAt(trace + [e], c, s, j, line, login, ok);
  }

  lemma ProvenNow(trace: seq<Event>, e: Event, c: nat, s: nat, line: Line, login: bool, ok: string -> bool)
    requires AnswersSince(trace, c, s, line)
    requires if login then e.Waited? && e.prompt == LoginPrompt else e.Looked?
    requires ok(e.text)
    ensures Proven(trace + [e], line, login, ok)
  {
    assert (trace + [e])[..|trace|] == trace;
    assert ProvenAt(trace + [e], c, s, |trace|, line, login, ok);
  }

  /** What the freshness of the buffer means. */
  ghost predicate FreshMeans(trace: seq<Event>, f: Fresh)
  {
    match f
    case Stale => true
    case Empty => exists c: nat :: ClearedAt(trace, c)
    case Answers(line) => exists c: nat, s: nat :: AnswersSince(trace, c, s, line)
  }

  ghost predicate ClearedAt(trace: seq<Event>, c: nat)
  {
    c < |trace| && trace[c] == Clear && forall k | c < k < |trace| :: IsPassive(trace[k])
  }

  lemma PassiveStep(trace: seq<Event>, e: Event, f: Fresh)
    requires FreshMeans(trace, f) && IsPassive(e)
    ensures FreshMeans(trace + [e], f)
  {
    if f == Empty {
      var c: nat :| ClearedAt(trace, c);
      assert ClearedAt(trace + [e], c);
    } else if f.Answers? {
      var c: nat, s: nat :| AnswersSince(trace, c, s, f.line);
      assert AnswersSince(trace + [e], c, s, f.line);
    }
  }

  lemma PassiveKeepsConsole(x: Job, m: Monitor, e: Event)
    requires IsPassive(e)
    ensures Step(x, m, e).console == m.console
  {
  }

  lemma SendStep(trace: seq<Event>, line: Line)
    requires FreshMeans(trace, Empty) && line != Reboot
    ensures FreshMeans(trace + [Sent(line)], Answers(line))
  {
    var c: nat :| ClearedAt(trace, c);
    assert AnswersSince(trace + [Sent(line)], c, |trace|, line);
  }

  /** How an event changes the freshness of the buffer. */
  function NextFresh(f: Fresh, e: Event): Fresh
  {
    if IsPassive(e) then f
    else if e == Clear then Empty
    else if e.Sent? && e.line != Reboot && f == Empty then Answers(e.line)
    else Stale
  }

  lemma ConsoleStep(x: Job, m: Monitor, e: Event)
    ensures Step(x, m, e).console == NextFresh(m.console, e)
  {
    if IsPassive(e) { PassiveKeepsConsole(x, m, e); }
  }

  lemma FreshStep(front: seq<Event>, e: Event, f: Fresh)
    requires FreshMeans(front, f)
    ensures FreshMeans(front + [e], NextFresh(f, e))
  {
    if IsPassive(e) {
      PassiveStep(front, e, f);
    } else if e == Clear {
      assert ClearedAt(front + [e], |front|);
    } else if e.Sent? && e.line != Reboot && f == Empty {
      SendStep(front, e.line);
    }
  }

  lemma {:induction false} FreshIsSound(x: Job, trace: seq<Event>)
    ensures FreshMeans(trace, After(x, trace).console)
  {
    if trace != [] {
      var front, e := trace[..|trace| - 1], trace[|trace| - 1];
      FreshIsSound(x, front);
      ConsoleStep(x, After(x, front), e);
      FreshStep(front, e, After(x, front).console);
      assert trace == front + [e];
    }
  }

  function StartedAs(x: Job): string -> bool { text => IsStarted(x, text) }

  function OnSd(): string -> bool { text => IsOnSd(text) }

  function NoEmmc(): string -> bool { text => HasNoEmmc(text) }

  function Kirkstone(): string -> bool { text => IsKirkstone(text) }

  function FatLoaded(): string -> bool { text => IsLoaded(text) }

  /** The things that a boot can have shown. */
  datatype Fact = SystemIsExpected | RootIsOnSd | EmmcIsUnmounted | FirmwareIsLoaded | CoreIsStarted

  predicate Holds(m: Monitor, f: Fact)
  {
    match f
    case SystemIsExpected => m.banner
    case RootIsOnSd => m.sdRoot
    case EmmcIsUnmounted => m.noEmmc
    case FirmwareIsLoaded => m.loaded
    case CoreIsStarted => m.started
  }

  function QuestionOf(f: Fact): Line
  {
    match f
    case SystemIsExpected => BootLinux
    case RootIsOnSd => FindRoot
    case EmmcIsUnmounted => GrepEmmc
    case FirmwareIsLoaded => LoadM4
    case CoreIsStarted => BootAux
  }

  function AnswerTo(x: Job, f: Fact): string -> bool
  {
    match f
    case SystemIsExpected => Kirkstone()
    case RootIsOnSd => OnSd()
    case EmmcIsUnmounted => NoEmmc()
    case FirmwareIsLoaded => FatLoaded()
    case CoreIsStarted => StartedAs(x)
  }

  /** The current boot of this trace has shown the fact. */
  ghost predicate Shown(x: Job, trace: seq<Event>, f: Fact)
  {
    Proven(trace, QuestionOf(f), f == SystemIsExpected, AnswerTo(x, f))
  }

  /** A fact that holds held before, in this boot, or is shown by this event. */
  lemma HoldsBecause(x: Job, m: Monitor, e: Event, f: Fact)
    requires Holds(Step(x, m, e), f)
    ensures (Holds(m, f) && !StartsBoot(e)) || ShownBy(x, m, e, f)
  {
    if e.Looked? {
      ShownByLook(x, m, e.text, f);
    } else if e.Waited? {
      ShownByWait(x, m, e.prompt, e.text, f);
    } else {
      OthersShowNothing(m, e, f);
    }
  }

  lemma ShownByLook(x: Job, m: Monitor, text: string, f: Fact)
    requires Holds(Seen(x, m, text), f)
    ensures Holds(m, f) || ShownBy(x, m, Looked(text), f)
  {
  }

  lemma ShownByWait(x: Job, m: Monitor, prompt: Prompt, text: string, f: Fact)
    requires Holds(Step(x, m, Waited(prompt, text)), f)
    ensures Holds(m, f) || ShownBy(x, m, Waited(prompt, text), f)
  {
    if f != SystemIsExpected { WaitKeeps(x, m, prompt, text, f); }
  }

  lemma WaitKeeps(x: Job, m: Monitor, prompt: Prompt, text: string, f: Fact)
    requires f != SystemIsExpected
    ensures Holds(Awaited(x, m, prompt, text), f) == Holds(m, f)
  {
  }

  lemma OthersShowNothing(m: Monitor, e: Event, f: Fact)
    requires Holds(Passed(m, e), f)
    ensures Holds(m, f) && !StartsBoot(e)
  {
  }

  predicate ShownBy(x: Job, m: Monitor, e: Event, f: Fact)
  {
    && m.console == Answers(QuestionOf(f))
    && (if f == SystemIsExpected then e.Waited? && e.prompt == LoginPrompt else e.Looked?)
    && AnswerTo(x, f)(e.text)
  }

  /** What the monitor holds has been shown. */
  lemma {:induction false} FactsAreShown(x: Job, trace: seq<Event>, f: Fact)
    requires Holds(After(x, trace), f)
    ensures Shown(x, trace, f)
  {
    if trace != [] {
      var front, e := trace[..|trace| - 1], trace[|trace| - 1];
      assert trace == front + [e];
      HoldsBecause(x, After(x, front), e, f);
      if Holds(After(x, front), f) && !StartsBoot(e) {
        FactsAreShown(x, front, f);
        ProvenStays(front, e, QuestionOf(f), f == SystemIsExpected, AnswerTo(x, f));
      } else {
        FreshIsSound(x, front);
        var c: nat, s: nat :| AnswersSince(front, c, s, QuestionOf(f));
        ProvenNow(front, e, c, s, QuestionOf(f), f == SystemIsExpected, AnswerTo(x, f));
      }
    }
  }

  // ----- the safety theorems, about any safe trace -----

  /** What an event needs to have been shown. */
  predicate Needs(e: Event, f: Fact)
  {
    match e
    case Sent(line) =>
      (match f
       case SystemIsExpected => line.Credentials? || line.RunReader?
       case RootIsOnSd => IsTransfer(line) || line.GrepEmmc? || line.UnmountEmmc? || line.RunReader?
       case EmmcIsUnmounted => IsTransfer(line) || line.RunReader?
       case FirmwareIsLoaded => line.BootAux?
       case CoreIsStarted => line.RunReader?)
    case Collected(_) => f != FirmwareIsLoaded
    case _ => false
  }

  lemma NeedsAreHeld(x: Job, m: Monitor, e: Event, f: Fact)
    requires Allowed(x, m, e) && Needs(e, f)
    ensures Holds(m, f)
  {
  }

  /** Boot-epoch safety. In a safe trace, whatever an event needs was shown in the boot in which the event
      happens. Credentials need the login banner to name the expected image. Writing to the target needs
      its root on the SD card and no eMMC partition mounted. Starting the core needs a successful load.
      Collecting needs all of the first three and the core started at the addresses of the ELF file. */
  lemma SafeInItsBoot(x: Job, trace: seq<Event>, i: nat, f: Fact)
    requires Safe(x, trace) && i < |trace| && Needs(trace[i], f)
    ensures Shown(x, trace[..i], f)
  {
    NeedsAreHeld(x, After(x, trace[..i]), trace[i], f);
    FactsAreShown(x, trace[..i], f);
  }
}
