/** The VisionCB runner: one run from power cycle to collected result, against any behaviour of the board,
    the probe and the tools. */
module Runner {
  import opened Outcomes
  import opened Pattern
  import opened ConsoleText
  import opened RunEvents
  import opened Script
  import opened BootMonitor
  import opened Conversation
  import RunMonitor
  import SerialLink
  import Base64

  const REENUMERATE_TIMEOUT := 15_000
  const REENUMERATE_POLL := 500

  /** The world: how building the firmware and reading its addresses ended, the answers to requests, which are
      numbered, so that they may differ each time, the clock for the wait for the probe that follows
      request `h`, and what the reader's output amounts to. */
  datatype Env = Env(prepared: Outcome<()>, answer: nat -> Answer, clock: nat -> (nat -> nat), read: string -> Reading)

  ghost predicate Ticking(env: Env)
  {
    forall h: nat :: SerialLink.Advances(ClockOf(env, h), REENUMERATE_POLL)
  }

  function AnswerNo(env: Env, n: nat): Answer { env.answer(n) }

  function ReadingOf(env: Env, text: string): Reading { env.read(text) }

  function ClockOf(env: Env, h: nat): nat -> nat { env.clock(h) }

  /** What the event says of the world is so. */
  predicate IsTrue(env: Env, e: Event)
  {
    match e
    case Prepared(outcome) => outcome == env.prepared
    case Heard(_, n, a) => a == AnswerNo(env, n)
    case Read(text, reading) => reading == ReadingOf(env, text)
    case Deadline(h, n) => ClockOf(env, h)(n) >= ClockOf(env, h)(0) + REENUMERATE_TIMEOUT
    case _ => true
  }

  ghost predicate Truthful(env: Env, trace: seq<Event>)
  {
    forall i | 0 <= i < |trace| :: IsTrue(env, trace[i])
  }

  /** Both monitors side by side. */
  datatype State = State(boot: Monitor, run: RunMonitor.Run)

  predicate Legal(env: Env, x: Job, s: State, e: Event)
  {
    Allowed(x, s.boot, e) && RunMonitor.Permitted(s.run, e) && IsTrue(env, e)
  }

  function Next(x: Job, s: State, e: Event): State
  {
    State(Step(x, s.boot, e), RunMonitor.Step(x, s.run, e))
  }

  /** The states of the monitors along a trace in which every event was legal. */
  ghost predicate IsCourse(env: Env, x: Job, trace: seq<Event>, history: seq<State>)
  {
    |history| == |trace| + 1 && forall i | 0 <= i < |history| :: IsState(env, x, trace, history, i)
  }

  /** The first state, or the next after a legal event. */
  ghost predicate IsState(env: Env, x: Job, trace: seq<Event>, history: seq<State>, i: nat)
    requires i <= |trace| < |history|
  {
    if i == 0 then history[0] == State(START, RunMonitor.START)
    else Legal(env, x, history[i - 1], trace[i - 1]) && history[i] == Next(x, history[i - 1], trace[i - 1])
  }

  lemma CourseBegins(env: Env, x: Job, trace: seq<Event>, history: seq<State>)
    requires IsCourse(env, x, trace, history)
    ensures history[0] == State(START, RunMonitor.START)
  {
    assert IsState(env, x, trace, history, 0);
  }

  /** One more legal event. */
  lemma CourseGrows(env: Env, x: Job, trace: seq<Event>, history: seq<State>, e: Event)
    requires IsCourse(env, x, trace, history) && Legal(env, x, history[|trace|], e)
    ensures IsCourse(env, x, trace + [e], history + [Next(x, history[|trace|], e)])
  {
    var t, h := trace + [e], history + [Next(x, history[|trace|], e)];
    forall i | 0 <= i < |h| ensures IsState(env, x, t, h, i) {
      if i < |history| {
        assert IsState(env, x, trace, history, i);
        assert h[i] == history[i];
        if i > 0 { assert t[i - 1] == trace[i - 1] && h[i - 1] == history[i - 1]; }
      }
    }
  }

  /** From request `n` on, two power cycles that work, each followed by a prompt that does not come. */
  predicate Silent(env: Env, n: nat)
  {
    && !AnswerNo(env, n).Crash? && AnswerNo(env, n + 1).No?
    && !AnswerNo(env, n + 2).Crash? && AnswerNo(env, n + 3).No?
  }

  /** The monitor without the freshness of the buffer and without the lines sent. */
  function Lasting(m: Monitor): Monitor { m.(console := Stale, lines := []) }

  function Bare<T>(o: Outcome<T>): Outcome<()>
  {
    match o
    case Done(_) => Done(())
    case TestFailure => TestFailure
    case InfrastructureError => InfrastructureError
    case RecoveryRequired => RecoveryRequired
    case Unexpected => Unexpected
  }

  /** A normal end, or an exception for which there is cause. */
  predicate Blames<T>(c: RunMonitor.Cause, o: Outcome<T>)
  {
    o.Done? || RunMonitor.Justifies(c, Bare(o))
  }

  /** An exception passes through. */
  function Failed<T>(o: Outcome<()>): (f: Outcome<T>)
    requires !o.Done?
    ensures Bare(f) == o
  {
    match o
    case TestFailure => TestFailure
    case InfrastructureError => InfrastructureError
    case RecoveryRequired => RecoveryRequired
    case Unexpected => Unexpected
  }

  /** The limits on a whole run. */
  predicate WithinBounds(t: RunMonitor.Tally)
  {
    t.relays <= 4 && t.hubs <= 4 && t.opens <= 2 && t.sequences <= 2
  }

  /** The runner holds a link if one is open, or if closing the last one failed. */
  predicate Linked(t: RunMonitor.Tally, linked: bool)
  {
    if t.releaseFailed then linked && t.turn == RunMonitor.Closed
    else t.turn == if linked then RunMonitor.Open else RunMonitor.Closed
  }

  /** The run has ended, normally if and only if an acceptable report was collected, and with a recovery error
      only for the probe or for the second sequence, unless the preparation ended so. */
  predicate Concluded(t: RunMonitor.Tally)
  {
    && t.ended != RunMonitor.Running && (t.ended.Failed? ==> !t.ended.exception.Done?)
    && (t.ended == RunMonitor.Passed <==> t.collected.Some? && Accepted(t.collected.value))
    && (t.ended.Failed? && t.ended.exception == RecoveryRequired ==>
          t.ended.stage == Preparing || t.ended.stage == Probing || (t.ended.stage == Sequencing && t.sequences == 2))
  }

  /** If this is an exception, it is the one that ended the run so far. */
  predicate EndedBy<T>(t: RunMonitor.Tally, o: Outcome<T>)
  {
    !o.Done? ==> t.ended.Failed? && t.ended.exception == Bare(o) && t.ended.stage != Preparing
  }

  /** The board stays silent during a first sequence that begins with request `n`, and closing the link for
      the retry fails. */
  predicate ReleaseFails(env: Env, n: nat)
  {
    Silent(env, n) && AnswerNo(env, n + 4).Crash?
  }

  /** The same for a run that begins with request 0: the probe is there and the link opens. */
  predicate Stuck(env: Env)
  {
    AnswerNo(env, 0).Yes? && !AnswerNo(env, 1).Crash? && ReleaseFails(env, 2)
  }

  /** The exit code for an ending. */
  function CodeOf(ended: RunMonitor.Ending): nat
  {
    match ended
    case Passed => 0
    case Failed(_, exception) => ExitCode(exception)
    case Running => ExitCode<()>(Unexpected)
  }

  class Session {
    const env: Env
    const job: Job
    var asked: nat
    ghost var trace: seq<Event>
    ghost var history: seq<State>
    ghost var m: Monitor
    ghost var r: RunMonitor.Run

    /** The monitors have followed the trace, which is true of the world. */
    ghost predicate Followed()
      reads this
    {
      IsCourse(env, job, trace, history) && history[|trace|] == State(m, r)
    }

    ghost predicate Valid()
      reads this
    {
      Followed() && r.talk.heard == asked
    }

    /** No failed close waits to be raised. */
    ghost predicate Ready()
      reads this
    {
      Valid() && !r.talk.closeCrashed
    }

    constructor (env: Env, job: Job)
      ensures Ready() && m == START && r == RunMonitor.START && trace == [] && asked == 0
      ensures this.env == env && this.job == job
    {
      this.env := env;
      this.job := job;
      asked := 0;
      trace := [];
      history := [State(START, RunMonitor.START)];
      m := START;
      r := RunMonitor.START;
    }

    ghost method Append(e: Event)
      requires Followed() && Allowed(job, m, e) && RunMonitor.Permitted(r, e) && IsTrue(env, e)
      modifies this`trace, this`history, this`m, this`r
      ensures Followed() && trace == old(trace) + [e]
      ensures m == Step(job, old(m), e)
      ensures r == RunMonitor.Run(RunMonitor.StepTally(old(r).tally, e), RunMonitor.StepTalk(job, old(r).talk, e))
    {
      CourseGrows(env, job, trace, history, e);
      m := Step(job, m, e);
      r := RunMonitor.Step(job, r, e);
      trace := trace + [e];
      history := history + [State(m, r)];
    }

    /** Every event but an answer. */
    ghost method Emit(e: Event)
      requires Valid() && !e.Heard? && Allowed(job, m, e) && RunMonitor.Permitted(r, e) && IsTrue(env, e)
      modifies this`trace, this`history, this`m, this`r
      ensures Ready() && trace == old(trace) + [e]
      ensures m == Step(job, old(m), e)
      ensures r.tally == RunMonitor.StepTally(old(r).tally, e)
      ensures r.talk == RunMonitor.StepTalk(job, old(r).talk, e)
    {
      Append(e);
    }

    /** Events that only the boot monitor follows. */
    ghost method EmitConsole(e: Event)
      requires Ready() && (e == Clear || e == Nudge || (e == AtUboot && RunMonitor.Permitted(r, e)))
      modifies this`trace, this`history, this`m, this`r
      ensures Ready() && trace == old(trace) + [e] && r == old(r)
      ensures m == match e
                   case Clear => old(m).(console := Empty)
                   case Nudge => old(m).(console := Stale)
                   case _ => old(m).(uboot := true)
    {
      Append(e);
    }

    method Ask(q: Request) returns (a: Answer)
      requires Ready()
      modifies this
      ensures Valid() && a == AnswerNo(env, old(asked)) && asked == old(asked) + 1
      ensures trace == old(trace) + [Heard(q, old(asked), a)]
      ensures m == old(m) && r.tally == old(r).tally
      ensures r.talk == old(r).talk.(heard := asked, last := RunMonitor.Last(q, a),
                                     cause := RunMonitor.CauseOfAnswer(q, a),
                                     closeCrashed := q == Closing && a == Crash)
    {
      a := AnswerNo(env, asked);
      Append(Heard(q, asked, a));
      asked := asked + 1;
    }

    // ----- the console -----

    method ClearBuffer()
      requires Ready()
      modifies this`trace, this`history, this`m, this`r
      ensures Ready() && m == old(m).(console := Empty) && r == old(r)
    {
      EmitConsole(Clear);
    }

    method Send(line: Line) returns (ok: bool)
      requires Ready() && MaySend(m, line) && line != Reboot
      modifies this
      ensures Ready() && m.lines == old(m).lines + [line]
      ensures m.console == if old(m).console == Empty then Answers(line) else Stale
      ensures Lasting(m) == Lasting(old(m)).(image := m.image, reader := m.reader)
      ensures m.image == if line == CheckSum then Unknown else old(m).image
      ensures m.reader == if line == CheckReader then Unknown else old(m).reader
      ensures r.tally == old(r).tally && r.talk.line == Some(line)
      ensures !ok ==> r.talk.cause == RunMonitor.Crashed
    {
      Emit(Sent(line));
      var a := Ask(Sending);
      ok := !a.Crash?;
    }

    method Look() returns (text: string)
      requires Ready()
      modifies this
      ensures Ready() && m == Seen(job, old(m), text)
      ensures r.tally == old(r).tally && r.talk.seen == text
      ensures r.talk.cause == RunMonitor.CauseOfLook(job, old(r).talk.line, text)
    {
      var a := Ask(Looking);
      text := RunMonitor.TextOf(a);
      Emit(Looked(text));
    }

    method Wait(prompt: Prompt) returns (a: Answer)
      requires Ready() && prompt != ChecksumShown && prompt != CompileDone
      modifies this
      ensures Ready() && r.tally == old(r).tally && m == old(m).(banner := m.banner)
      ensures m.banner == if a.Yes? && prompt == LoginPrompt && m.console == Answers(BootLinux) then IsKirkstone(a.text)
                          else old(m).banner
      ensures a.No? ==> r.talk.cause == RunMonitor.Missing(Waiting(prompt))
      ensures a.Crash? ==> r.talk.cause == RunMonitor.Crashed
      ensures a.Yes? && prompt == LoginPrompt && !IsKirkstone(a.text) ==> r.talk.cause == RunMonitor.Rejected
    {
      a := Ask(Waiting(prompt));
      if a.Yes? { Emit(Waited(prompt, a.text)); }
    }

    /** Waits for the receipt of a file. */
    method WaitFor(f: File) returns (a: Answer)
      requires Ready() && m.console == Answers(LastOf(f))
      modifies this
      ensures Ready() && r.tally == old(r).tally
      ensures m == if a.Yes? then Awaited(job, old(m), Receipt(f), a.text) else old(m)
      ensures a.No? ==> r.talk.cause == RunMonitor.Missing(Waiting(Receipt(f)))
      ensures a.Crash? ==> r.talk.cause == RunMonitor.Crashed
    {
      a := Ask(Waiting(Receipt(f)));
      if a.Yes? { Emit(Waited(Receipt(f), a.text)); }
    }

    /** Clears the buffer and sends one line, whose answer is then all that the buffer can hold. */
    method SendFresh(line: Line) returns (ok: bool)
      requires Ready() && MaySend(m, line) && line != Reboot
      modifies this
      ensures Ready() && r.tally == old(r).tally && m.console == Answers(line)
      ensures m.lines == old(m).lines + [line] && Lasting(m) == Lasting(old(m)).(image := m.image, reader := m.reader)
      ensures m.image == if line == CheckSum then Unknown else old(m).image
      ensures m.reader == if line == CheckReader then Unknown else old(m).reader
      ensures if ok then r.talk.line == Some(line) else r.talk.cause == RunMonitor.Crashed
    {
      ClearBuffer();
      ok := Send(line);
    }

    /** Clears the buffer, sends one line and looks at what came back. */
    method AskLine(line: Line) returns (ok: bool, text: string)
      requires Ready() && MaySend(m, line) && line != Reboot
      modifies this
      ensures Ready() && r.tally == old(r).tally
      ensures m == if ok then Seen(job, Asked(old(m), line), text) else Asked(old(m), line)
      ensures r.talk.cause == if ok then RunMonitor.CauseOfLook(job, Some(line), text) else RunMonitor.Crashed
    {
      ok := SendFresh(line);
      text := "";
      if ok { text := Look(); }
    }

    /** Clears the buffer, sends one line and waits for what should follow. */
    method SendAndWait(line: Line, prompt: Prompt) returns (a: Answer)
      requires Ready() && MaySend(m, line) && line != Reboot && line != CheckSum && line != CheckReader
      requires prompt != ChecksumShown && prompt != CompileDone
      modifies this
      ensures Ready() && r.tally == old(r).tally
      ensures m.lines == old(m).lines + [line] && Lasting(m) == Lasting(old(m)).(banner := m.banner)
      ensures m.banner == if a.Yes? && prompt == LoginPrompt && line == BootLinux then IsKirkstone(a.text) else old(m).banner
      ensures a.No? ==> r.talk.cause == RunMonitor.Missing(Waiting(prompt))
      ensures a.Crash? ==> r.talk.cause == RunMonitor.Crashed
      ensures a.Yes? && prompt == LoginPrompt && !IsKirkstone(a.text) ==> r.talk.cause == RunMonitor.Rejected
    {
      var ok := SendFresh(line);
      a := Crash;
      if ok { a := Wait(prompt); }
    }

    method CatchUbootPrompt() returns (a: Answer)
      requires Ready()
      modifies this
      ensures Ready() && r.tally == old(r).tally
      ensures m == old(m).(console := Stale, uboot := old(m).uboot || a.Yes?)
      ensures a == AnswerNo(env, old(asked)) && asked == old(asked) + 1
      ensures a.No? ==> r.talk.cause == RunMonitor.Missing(Prompting)
      ensures a.Crash? ==> r.talk.cause == RunMonitor.Crashed
    {
      EmitConsole(Clear);
      EmitConsole(Nudge);
      a := Ask(Prompting);
      if a.Yes? { EmitConsole(AtUboot); }
    }

    // ----- acquiring the console -----

    method AcquireConsole(attempts: nat) returns (o: Outcome<()>)
      requires Ready() && attempts > 0
      modifies this
      ensures Ready() && r.tally == old(r).tally.(relays := r.tally.relays)
      ensures old(r).tally.relays < r.tally.relays <= old(r).tally.relays + attempts
      ensures o.Done? || o.RecoveryRequired? || o.Unexpected?
      ensures Blames(r.talk.cause, o)
      ensures m.lines == old(m).lines && (o.Done? ==> m.uboot)
      ensures o.RecoveryRequired? ==> r.tally.relays == old(r).tally.relays + attempts
      ensures attempts == 2 && Silent(env, old(asked)) ==> o.RecoveryRequired? && asked == old(asked) + 4
    {
      for attempt := 0 to attempts
        invariant Ready() && asked == old(asked) + 2 * attempt && m.lines == old(m).lines
        invariant r.tally == old(r).tally.(relays := old(r).tally.relays + attempt)
        invariant attempt > 0 ==> r.talk.cause == RunMonitor.Missing(Prompting)
      {
        var ok := CyclePower();
        if !ok { return Unexpected; }
        ClearBuffer();
        var a := CatchUbootPrompt();
        match a
        case Yes(_) => return Done(());
        case Crash => return Unexpected;
        case No =>
      }
      return RecoveryRequired;
    }

    method CyclePower() returns (ok: bool)
      requires Ready()
      modifies this
      ensures Ready() && m == Rebooted(old(m)) && r.tally == old(r).tally.(relays := old(r).tally.relays + 1)
      ensures ok == !AnswerNo(env, old(asked)).Crash? && asked == old(asked) + 1
      ensures !ok ==> r.talk.cause == RunMonitor.Crashed
    {
      Emit(RelayCycle);
      var a := Ask(Power);
      ok := !a.Crash?;
    }

    // ----- booting Linux from the SD card -----

    method FatLoad(line: Line) returns (o: Outcome<()>)
      requires Ready() && (line == FatLoadImage || line == FatLoadTree)
      modifies this
      ensures Ready() && r.tally == old(r).tally && Lasting(m) == Lasting(old(m))
      ensures o.Done? ==> m.lines == old(m).lines + [line]
      ensures o.Done? || o.RecoveryRequired? || o.Unexpected?
      ensures Blames(r.talk.cause, o)
    {
      var a := SendAndWait(line, FatLoadDone);
      match a
      case Yes(_) => return Done(());
      case No => return RecoveryRequired;
      case Crash => return Unexpected;
    }

    method LoadBoth() returns (o: Outcome<()>)
      requires Ready()
      modifies this
      ensures Ready() && r.tally == old(r).tally && Lasting(m) == Lasting(old(m))
      ensures o.Done? ==> m.lines == old(m).lines + [FatLoadImage, FatLoadTree]
      ensures o.Done? || o.RecoveryRequired? || o.Unexpected?
      ensures Blames(r.talk.cause, o)
    {
      o := FatLoad(FatLoadImage);
      if o.Done? { o := FatLoad(FatLoadTree); }
    }

    method PrepareLinux() returns (o: Outcome<()>)
      requires Ready()
      modifies this
      ensures Ready() && r.tally == old(r).tally && Lasting(m) == Lasting(old(m))
      ensures o.Done? ==> m.lines == old(m).lines + [FatLoadImage, FatLoadTree, SetBootArgs]
      ensures o.Done? || o.RecoveryRequired? || o.Unexpected?
      ensures Blames(r.talk.cause, o)
    {
      o := LoadBoth();
      if o.Done? {
        var ok := Send(SetBootArgs);
        if !ok { o := Unexpected; }
      }
    }

    method BootAndCheck() returns (o: Outcome<()>)
      requires Ready()
      modifies this
      ensures Ready() && r.tally == old(r).tally && Lasting(m) == Lasting(old(m)).(banner := m.banner)
      ensures o.Done? ==> m.lines == old(m).lines + [BootLinux]
      ensures o.Done? ==> m.banner
      ensures !o.TestFailure? && Blames(r.talk.cause, o)
    {
      var a := SendAndWait(BootLinux, LoginPrompt);
      match a
      case No => return RecoveryRequired;
      case Crash => return Unexpected;
      case Yes(text) => return if Contains(text, EXPECTED_OS_MARKER) then Done(()) else InfrastructureError;
    }

    method ResumeLinux() returns (o: Outcome<()>)
      requires Ready()
      modifies this
      ensures Ready() && r.tally == old(r).tally && Lasting(m) == Lasting(old(m)).(banner := m.banner)
      ensures o.Done? ==> m.lines == old(m).lines + RESUME
      ensures o.Done? ==> m.banner
      ensures !o.TestFailure? && Blames(r.talk.cause, o)
    {
      o := PrepareLinux();
      if o.Done? { o := BootAndCheck(); }
    }

    method SendCredentials() returns (ok: bool)
      requires Ready() && m.banner
      modifies this
      ensures Ready() && r.tally == old(r).tally && Lasting(m) == Lasting(old(m)) && (ok ==> m.console == Stale)
      ensures ok ==> m.lines == old(m).lines + LOGIN
      ensures !ok ==> r.talk.cause == RunMonitor.Crashed
    {
      ClearBuffer();
      ok := Send(Credentials);
      if ok { ok := Send(EmptyLine); }
    }

    method Login() returns (o: Outcome<()>)
      requires Ready() && m.banner
      modifies this
      ensures Ready() && r.tally == old(r).tally && Lasting(m) == Lasting(old(m))
      ensures o.Done? ==> m.lines == old(m).lines + LOGIN
      ensures o.Done? || o.InfrastructureError? || o.Unexpected?
      ensures Blames(r.talk.cause, o)
    {
      var ok := SendCredentials();
      if !ok { return Unexpected; }
      var a := Wait(ShellPrompt);
      match a
      case Yes(_) => return Done(());
      case No => return InfrastructureError;
      case Crash => return Unexpected;
    }

    // ----- storage safety -----

    method CheckRoot() returns (o: Outcome<()>)
      requires Ready()
      modifies this
      ensures Ready() && r.tally == old(r).tally && Lasting(m) == Lasting(old(m)).(sdRoot := m.sdRoot)
      ensures o.Done? ==> m.lines == old(m).lines + [FindRoot]
      ensures o.Done? ==> m.sdRoot
      ensures o.Done? || o.InfrastructureError? || o.Unexpected?
      ensures Blames(r.talk.cause, o)
    {
      var ok, text := AskLine(FindRoot);
      if !ok { return Unexpected; }
      return if Contains(text, SD_ROOT_DEVICE) then Done(()) else InfrastructureError;
    }

    method UnmountEmmcPartitions() returns (ok: bool)
      requires Ready() && m.sdRoot && !m.noEmmc
      modifies this
      ensures Ready() && r.tally == old(r).tally && Lasting(m) == Lasting(old(m))
      ensures ok ==> m.lines == old(m).lines + [UnmountEmmc]
      ensures !ok ==> r.talk.cause == RunMonitor.Crashed
    {
      ClearBuffer();
      var text;
      ok, text := AskLine(UnmountEmmc);
    }

    /** Whether the target shows a mounted eMMC partition. */
    method LookForEmmc() returns (ok: bool, mounted: bool)
      requires Ready() && m.sdRoot && (Repeats(m, GrepEmmc) ==> m.noEmmc)
      modifies this
      ensures Ready() && r.tally == old(r).tally && Lasting(m) == Lasting(old(m)).(noEmmc := m.noEmmc)
      ensures m.lines == old(m).lines + [GrepEmmc] && (ok ==> m.noEmmc == !mounted)
      ensures r.talk.cause == if !ok then RunMonitor.Crashed else if mounted then RunMonitor.Rejected else RunMonitor.Fine
    {
      var text;
      ghost var before := m;
      ok, text := AskLine(GrepEmmc);
      EmmcSeen(job, before, text);
      mounted := ShowsEmmc(text);
    }

    method CheckEmmc() returns (o: Outcome<()>)
      requires Ready() && m.sdRoot && (Repeats(m, GrepEmmc) ==> m.noEmmc)
      modifies this
      ensures !o.Unexpected? ==> m.lines == old(m).lines + [GrepEmmc]
      ensures Ready() && r.tally == old(r).tally && Lasting(m) == Lasting(old(m)).(noEmmc := m.noEmmc)
      ensures (o.Done? ==> m.noEmmc) && (o.InfrastructureError? ==> !m.noEmmc)
      ensures o.Done? || o.InfrastructureError? || o.Unexpected?
      ensures Blames(r.talk.cause, o)
    {
      var ok, mounted := LookForEmmc();
      if !ok { return Unexpected; }
      return if mounted then InfrastructureError else Done(());
    }

    /** What the first check finds mounted is unmounted; the second check decides. */
    method VerifyNoEmmc() returns (o: Outcome<()>, ghost unmounted: bool)
      requires Ready() && m.sdRoot && !Repeats(m, GrepEmmc)
      modifies this
      ensures Ready() && r.tally == old(r).tally && Lasting(m) == Lasting(old(m)).(noEmmc := m.noEmmc)
      ensures o.Done? ==> m.lines == old(m).lines + [GrepEmmc] + (if unmounted then [UnmountEmmc] else []) + [GrepEmmc]
      ensures o.Done? ==> m.noEmmc
      ensures o.Done? || o.InfrastructureError? || o.Unexpected?
      ensures Blames(r.talk.cause, o)
    {
      unmounted := false;
      o := CheckEmmc();
      if o.Unexpected? { return; }
      if o.InfrastructureError? {
        var ok := UnmountEmmcPartitions();
        unmounted := true;
        if !ok { return Unexpected, true; }
      }
      o := CheckEmmc();
    }

    method VerifyStorage() returns (o: Outcome<()>, ghost unmounted: bool)
      requires Ready()
      modifies this
      ensures o.Done? ==> m.lines == old(m).lines + StorageLines(unmounted)
      ensures Ready() && r.tally == old(r).tally
      ensures Lasting(m) == Lasting(old(m)).(sdRoot := m.sdRoot, noEmmc := m.noEmmc)
      ensures o.Done? ==> m.sdRoot && m.noEmmc
      ensures o.Done? || o.InfrastructureError? || o.Unexpected?
      ensures Blames(r.talk.cause, o)
    {
      unmounted := false;
      o := CheckRoot();
      if o.Done? { o, unmounted := VerifyNoEmmc(); }
    }

    // ----- firmware transfer -----

    method SendData(lines: seq<string>) returns (ok: bool)
      requires Ready() && m.sdRoot && m.noEmmc
      modifies this
      ensures Ready() && r.tally == old(r).tally && Lasting(m) == Lasting(old(m))
      ensures if ok then m.lines == old(m).lines + DataLines(lines) else r.talk.cause == RunMonitor.Crashed
    {
      ok := true;
      for k := 0 to |lines|
        invariant Ready() && r.tally == old(r).tally && Lasting(m) == Lasting(old(m))
        invariant m.lines == old(m).lines + DataLines(lines[..k])
      {
        ok := Send(Data(lines[k]));
        if !ok { return; }
        assert DataLines(lines[..k]) + [Data(lines[k])] == DataLines(lines[..k + 1]);
      }
      assert lines[..|lines|] == lines;
    }

    method SendImage() returns (ok: bool)
      requires Ready() && m.sdRoot && m.noEmmc
      modifies this
      ensures Ready() && r.tally == old(r).tally && Lasting(m) == Lasting(old(m))
      ensures if ok then m.lines == old(m).lines + ImageLines(job) else r.talk.cause == RunMonitor.Crashed
    {
      Enclosed(m.lines, HeredocBegin, DataLines(Base64.Lines(Base64.Encode(job.image))), HeredocEnd);
      ok := Send(HeredocBegin);
      if ok { ok := SendData(Base64.Lines(Base64.Encode(job.image))); }
      if ok { ok := Send(HeredocEnd); }
    }

    /** Whether the target shows the checksum of the image. */
    method LookForImage() returns (ok: bool, there: bool)
      requires Ready() && m.sdRoot && m.noEmmc
      modifies this
      ensures Ready() && r.tally == old(r).tally && Lasting(m) == Lasting(old(m)).(image := m.image)
      ensures m.lines == old(m).lines + [CheckSum] && (ok ==> m.image == if there then Present else Unknown)
      ensures !ok ==> r.talk.cause == RunMonitor.Crashed
    {
      var text;
      ok, text := AskLine(CheckSum);
      there := Contains(text, job.sha256);
    }

    method TransferFirmware() returns (o: Outcome<()>)
      requires Ready() && m.sdRoot && m.noEmmc
      modifies this
      ensures Ready() && r.tally == old(r).tally && Lasting(m) == Lasting(old(m)).(image := m.image)
      ensures o.Done? ==> m.image != Unknown && m.lines == old(m).lines + TransferLines(job, m.image == Present)
      ensures o.Done? || o.InfrastructureError? || o.Unexpected?
      ensures Blames(r.talk.cause, o)
    {
      Joins(m.lines, [CheckSum], ImageLines(job) + [CheckSum]);
      var ok, there := LookForImage();
      if !ok { return Unexpected; }
      if there { return Done(()); }
      o := SendAndVerify();
    }

    method SendAndVerify() returns (o: Outcome<()>)
      requires Ready() && m.sdRoot && m.noEmmc
      modifies this
      ensures Ready() && r.tally == old(r).tally && Lasting(m) == Lasting(old(m)).(image := m.image)
      ensures o.Done? ==> m.image == Delivered && m.lines == old(m).lines + (ImageLines(job) + [CheckSum])
      ensures o.Done? || o.InfrastructureError? || o.Unexpected?
      ensures Blames(r.talk.cause, o)
    {
      ClearBuffer();
      ghost var before := m.lines;
      var ok := SendImage();
      if !ok { return Unexpected; }
      DeliveredLast(before, ImageLines(job), CheckSum);
      o := Conclude(Image);
    }

    /** The last line of a delivery, and the wait for its receipt; without it, an infrastructure error. */
    method Conclude(f: File) returns (o: Outcome<()>)
      requires Ready() && m.sdRoot && m.noEmmc
      modifies this
      ensures Ready() && r.tally == old(r).tally && m.lines == old(m).lines + [LastOf(f)]
      ensures Lasting(m) == Lasting(old(m)).(image := m.image, reader := m.reader)
      ensures if f == Image then m.reader == old(m).reader else m.image == old(m).image
      ensures o.Done? && EndsIn(m.lines, Delivery(job, f)) ==> Known(m, f) == Delivered
      ensures o.Done? || o.InfrastructureError? || o.Unexpected?
      ensures Blames(r.talk.cause, o)
    {
      var a := AskReceipt(f);
      match a
      case Yes(_) => return Done(());
      case No => return InfrastructureError;
      case Crash => return Unexpected;
    }

    method AskReceipt(f: File) returns (a: Answer)
      requires Ready() && m.sdRoot && m.noEmmc
      modifies this
      ensures Ready() && r.tally == old(r).tally && m.lines == old(m).lines + [LastOf(f)]
      ensures Lasting(m) == Lasting(old(m)).(image := m.image, reader := m.reader)
      ensures if f == Image then m.reader == old(m).reader else m.image == old(m).image
      ensures a.Yes? && EndsIn(m.lines, Delivery(job, f)) ==> Known(m, f) == Delivered
      ensures a.No? ==> r.talk.cause == RunMonitor.Missing(Waiting(Receipt(f)))
      ensures a.Crash? ==> r.talk.cause == RunMonitor.Crashed
    {
      var ok := SendFresh(LastOf(f));
      a := Crash;
      if ok {
        ghost var asking := m;
        a := WaitFor(f);
        ReceiptComes(job, asking, f, RunMonitor.TextOf(a));
      }
    }

    method SendSource(lines: seq<string>) returns (ok: bool)
      requires Ready() && m.sdRoot && m.noEmmc
      modifies this
      ensures Ready() && r.tally == old(r).tally && Lasting(m) == Lasting(old(m))
      ensures if ok then m.lines == old(m).lines + SourceLines(lines) else r.talk.cause == RunMonitor.Crashed
    {
      ok := true;
      for k := 0 to |lines|
        invariant Ready() && r.tally == old(r).tally && Lasting(m) == Lasting(old(m))
        invariant m.lines == old(m).lines + SourceLines(lines[..k])
      {
        ok := Send(ReaderSource(lines[k]));
        if !ok { return; }
        assert SourceLines(lines[..k]) + [ReaderSource(lines[k])] == SourceLines(lines[..k + 1]);
      }
      assert lines[..|lines|] == lines;
    }

    method SendReaderSource() returns (ok: bool)
      requires Ready() && m.sdRoot && m.noEmmc
      modifies this
      ensures Ready() && r.tally == old(r).tally && Lasting(m) == Lasting(old(m))
      ensures if ok then m.lines == old(m).lines + ReaderLines(job) else r.talk.cause == RunMonitor.Crashed
    {
      Enclosed(m.lines, ReaderBegin, SourceLines(job.readerSource), ReaderEnd);
      ok := Send(ReaderBegin);
      if ok { ok := SendSource(job.readerSource); }
      if ok { ok := Send(ReaderEnd); }
    }

    /** Whether the target shows the checksum of the reader's source. */
    method LookForReader() returns (ok: bool, there: bool)
      requires Ready() && m.sdRoot && m.noEmmc
      modifies this
      ensures Ready() && r.tally == old(r).tally && Lasting(m) == Lasting(old(m)).(reader := m.reader)
      ensures m.lines == old(m).lines + [CheckReader] && (ok ==> m.reader == if there then Present else Unknown)
      ensures !ok ==> r.talk.cause == RunMonitor.Crashed
    {
      var text;
      ok, text := AskLine(CheckReader);
      there := Contains(text, job.readerSha);
    }

    method EnsureReader() returns (o: Outcome<()>)
      requires Ready() && m.sdRoot && m.noEmmc
      modifies this
      ensures Ready() && r.tally == old(r).tally && Lasting(m) == Lasting(old(m)).(reader := m.reader)
      ensures o.Done? ==> m.reader != Unknown && m.lines == old(m).lines + InstallLines(job, m.reader == Present)
      ensures o.Done? || o.InfrastructureError? || o.Unexpected?
      ensures Blames(r.talk.cause, o)
    {
      Joins(m.lines, [CheckReader], ReaderLines(job) + [CompileReader, MarkReader]);
      var ok, there := LookForReader();
      if !ok { return Unexpected; }
      if there { return Done(()); }
      o := InstallReader();
    }

    method InstallReader() returns (o: Outcome<()>)
      requires Ready() && m.sdRoot && m.noEmmc
      modifies this
      ensures Ready() && r.tally == old(r).tally && Lasting(m) == Lasting(old(m)).(reader := m.reader)
      ensures o.Done? ==> m.reader == Delivered && m.lines == old(m).lines + (ReaderLines(job) + [CompileReader, MarkReader])
      ensures o.Done? || o.InfrastructureError? || o.Unexpected?
      ensures Blames(r.talk.cause, o)
    {
      o := CompileAnew();
      if o.Done? {
        var ok := Send(MarkReader);
        if !ok { o := Unexpected; }
      }
    }

    method CompileAnew() returns (o: Outcome<()>)
      requires Ready() && m.sdRoot && m.noEmmc
      modifies this
      ensures Ready() && r.tally == old(r).tally && Lasting(m) == Lasting(old(m)).(reader := m.reader)
      ensures o.Done? ==> m.reader == Delivered && m.lines == old(m).lines + (ReaderLines(job) + [CompileReader])
      ensures o.Done? || o.InfrastructureError? || o.Unexpected?
      ensures Blames(r.talk.cause, o)
    {
      ClearBuffer();
      ghost var before := m.lines;
      var ok := SendReaderSource();
      if !ok { return Unexpected; }
      DeliveredLast(before, ReaderLines(job), CompileReader);
      o := Conclude(Reader);
    }

    // ----- starting the core -----

    method RescanSdCard() returns (ok: bool)
      requires Ready()
      modifies this
      ensures Ready() && r.tally == old(r).tally && Lasting(m) == Lasting(old(m))
      ensures ok ==> m.lines == old(m).lines + [SelectCard, RescanCard]
      ensures !ok ==> r.talk.cause == RunMonitor.Crashed
    {
      ok := Send(SelectCard);
      if ok { ok := Send(RescanCard); }
    }

    method AskLoad() returns (o: Outcome<()>)
      requires Ready()
      modifies this
      ensures Ready() && r.tally == old(r).tally && Lasting(m) == Lasting(old(m)).(loaded := m.loaded)
      ensures o.Done? ==> m.lines == old(m).lines + [LoadM4]
      ensures o.Done? ==> m.loaded
      ensures o.Done? || o.InfrastructureError? || o.Unexpected?
      ensures Blames(r.talk.cause, o)
    {
      var ok, text := AskLine(LoadM4);
      if !ok { return Unexpected; }
      return if IsLoaded(text) then Done(()) else InfrastructureError;
    }

    method LoadFirmware() returns (o: Outcome<()>)
      requires Ready()
      modifies this
      ensures Ready() && r.tally == old(r).tally && Lasting(m) == Lasting(old(m)).(loaded := m.loaded)
      ensures o.Done? ==> m.lines == old(m).lines + LOAD
      ensures o.Done? ==> m.loaded
      ensures o.Done? || o.InfrastructureError? || o.Unexpected?
      ensures Blames(r.talk.cause, o)
    {
      var ok := RescanSdCard();
      if !ok { return Unexpected; }
      o := AskLoad();
    }

    /** Starts the core and looks at the line with its addresses. */
    method AskStart() returns (ok: bool, text: string)
      requires Ready() && m.loaded && m.image != Unknown
      modifies this
      ensures Ready() && r.tally == old(r).tally
      ensures m.lines == old(m).lines + [BootAux] && Lasting(m) == Lasting(old(m)).(started := m.started)
      ensures m.started == if ok then IsStarted(job, text) else old(m).started
      ensures r.talk.cause == if ok then RunMonitor.CauseOfLook(job, Some(BootAux), text) else RunMonitor.Crashed
    {
      ghost var before := m;
      ok, text := AskLine(BootAux);
      StartSeen(job, before, text);
    }

    method CopyAndStart() returns (ok: bool, text: string)
      requires Ready() && m.loaded && m.image != Unknown
      modifies this
      ensures Ready() && r.tally == old(r).tally && Lasting(m) == Lasting(old(m)).(started := m.started)
      ensures ok ==> m.lines == old(m).lines + START_CORE
      ensures ok ==> m.started == IsStarted(job, text)
      ensures r.talk.cause == if ok then RunMonitor.CauseOfLook(job, Some(BootAux), text) else RunMonitor.Crashed
    {
      text := "";
      OneByOne(m.lines, CopyM4, BootAux);
      ok := Send(CopyM4);
      if ok { ok, text := AskStart(); }
    }

    /** No line with the addresses is an infrastructure error, other addresses are a test failure. */
    method StartCore() returns (o: Outcome<()>, text: string)
      requires Ready() && m.loaded && m.image != Unknown
      modifies this
      ensures Ready() && r.tally == old(r).tally && Lasting(m) == Lasting(old(m)).(started := m.started)
      ensures !o.Unexpected? ==> m.lines == old(m).lines + START_CORE
      ensures o.Done? ==> m.started
      ensures !o.RecoveryRequired? && Blames(r.talk.cause, o)
      ensures !o.Unexpected? ==>
                o == if FindBanner(text, 0).None? then InfrastructureError
                     else if Confirms(text, job.stack, job.pc) then Done(())
                     else TestFailure
    {
      var ok;
      ok, text := CopyAndStart();
      if !ok { return Unexpected, text; }
      if FindBanner(text, 0).None? { return InfrastructureError, text; }
      o := if Confirms(text, job.stack, job.pc) then Done(()) else TestFailure;
    }

    // ----- collecting -----

    method SendReaderCommands() returns (ok: bool)
      requires Ready() && m.sdRoot && m.noEmmc && m.started && m.banner && m.reader != Unknown
      modifies this
      ensures Ready() && r.tally == old(r).tally && Lasting(m) == Lasting(old(m))
      ensures if ok then m.console == Stale && r.talk.line == Some(EchoEnd) && m.lines == old(m).lines + COLLECT
              else r.talk.cause == RunMonitor.Crashed
    {
      ClearBuffer();
      ThreeByThree(m.lines, EchoBegin, RunReader, EchoEnd);
      ok := Send(EchoBegin);
      if ok { ok := Send(RunReader); }
      if ok { ok := Send(EchoEnd); }
    }

    method AskReader() returns (a: Answer)
      requires Ready() && m.sdRoot && m.noEmmc && m.started && m.banner && m.reader != Unknown
      modifies this
      ensures Ready() && r.tally == old(r).tally && Lasting(m) == Lasting(old(m))
      ensures match a
              case Yes(text) => r.talk.seen == text && m.lines == old(m).lines + COLLECT
              case No => r.talk.cause == RunMonitor.Missing(Waiting(EndMarker))
              case Crash => r.talk.cause == RunMonitor.Crashed
    {
      var ok := SendReaderCommands();
      if !ok { return Crash; }
      a := Wait(EndMarker);
      if a.Yes? {
        var text := Look();
        a := Yes(text);
      }
    }

    /** Runs the reader at the end of a conversation that lacks only this. */
    method CollectResult(ghost unmountFirst: bool, ghost unmountThen: bool) returns (o: Outcome<Report>)
      requires Ready() && m.sdRoot && m.noEmmc && m.started && m.banner && r.tally.collected.None?
      requires m.image != Unknown && m.reader != Unknown
      requires m.lines + COLLECT == WholeScript(job, m.image == Present, m.reader == Present, unmountFirst, unmountThen)
      modifies this
      ensures Ready() && Lasting(m) == Lasting(old(m))
      ensures r.tally == if o.Done? then old(r).tally.(collected := Some(o.value)) else old(r).tally
      ensures o.Done? || o.InfrastructureError? || o.Unexpected?
      ensures Blames(r.talk.cause, o)
    {
      var a := AskReader();
      match a
      case Crash => return Unexpected;
      case No => return InfrastructureError;
      case Yes(text) =>
        assert IsConversation(job, m, unmountFirst, unmountThen);
        o := ReadReport(text);
    }

    /** What the reader's output amounts to. */
    method ReadReport(text: string) returns (o: Outcome<Report>)
      requires Ready() && m.sdRoot && m.noEmmc && m.started && m.banner && r.tally.collected.None? && r.talk.seen == text
      requires IsComplete(job, m)
      modifies this
      ensures Ready() && m == old(m)
      ensures r.tally == if o.Done? then old(r).tally.(collected := Some(o.value)) else old(r).tally
      ensures match ReadingOf(env, text)
              case Unreadable => o == InfrastructureError
              case Malformed => o == Unexpected
              case Readable(report) => o == Done(report)
      ensures Blames(r.talk.cause, o)
    {
      var reading := ReadingOf(env, text);
      Emit(Read(text, reading));
      match reading
      case Unreadable => return InfrastructureError;
      case Malformed => return Unexpected;
      case Readable(report) =>
        Emit(Collected(report));
        return Done(report);
    }

    // ----- the sequence -----

    /** From power-on to a target that holds the firmware and the reader. */
    method FirstBoot() returns (o: Outcome<()>, ghost unmounted: bool)
      requires Ready()
      modifies this
      ensures Ready() && r.tally == old(r).tally.(relays := r.tally.relays)
      ensures old(r).tally.relays < r.tally.relays <= old(r).tally.relays + 2
      ensures o.Done? ==> m.image != Unknown && m.reader != Unknown
      ensures o.Done? ==> m.lines == old(m).lines + (RESUME + LOGIN + StorageLines(unmounted)
                                                     + TransferLines(job, m.image == Present)
                                                     + InstallLines(job, m.reader == Present))
      ensures !o.TestFailure? && Blames(r.talk.cause, o)
      ensures Silent(env, old(asked)) ==> o.RecoveryRequired? && asked == old(asked) + 4
    {
      unmounted := false;
      ghost var before := m.lines;
      o := AcquireConsole(2);
      if o.Done? { o := BootAndLogin(); }
      if o.Done? {
        ghost var halfway := m.lines;
        o, unmounted := FillTarget();
        if o.Done? {
          ThreeMore(before, RESUME + LOGIN, StorageLines(unmounted), TransferLines(job, m.image == Present),
                    InstallLines(job, m.reader == Present));
        }
      }
    }

    method BootAndLogin() returns (o: Outcome<()>)
      requires Ready()
      modifies this
      ensures Ready() && r.tally == old(r).tally && Lasting(m) == Lasting(old(m)).(banner := m.banner)
      ensures o.Done? ==> m.lines == old(m).lines + (RESUME + LOGIN) && m.banner
      ensures !o.TestFailure? && Blames(r.talk.cause, o)
    {
      ghost var before := m.lines;
      o := ResumeLinux();
      if o.Done? { o := Login(); }
      Joins(before, RESUME, LOGIN);
    }

    method FillTarget() returns (o: Outcome<()>, ghost unmounted: bool)
      requires Ready()
      modifies this
      ensures Ready() && r.tally == old(r).tally
      ensures o.Done? ==> m.image != Unknown && m.reader != Unknown
      ensures o.Done? ==> m.lines == old(m).lines + StorageLines(unmounted) + TransferLines(job, m.image == Present)
                                     + InstallLines(job, m.reader == Present)
      ensures !o.TestFailure? && Blames(r.talk.cause, o)
    {
      o, unmounted := VerifyStorage();
      if o.Done? { o := TransferFirmware(); }
      if o.Done? { o := EnsureReader(); }
    }

    method EnterUboot() returns (o: Outcome<()>)
      requires Ready() && m.image != Unknown && m.reader != Unknown
      modifies this
      ensures Ready() && r.tally == old(r).tally && m.image == old(m).image && m.reader == old(m).reader
      ensures o.Done? ==> m.lines == old(m).lines + [Reboot]
      ensures o.Done? || o.RecoveryRequired? || o.Unexpected?
      ensures Blames(r.talk.cause, o) && (o.Done? ==> m.uboot)
    {
      ClearBuffer();
      var ok := IssueReboot();
      if !ok { return Unexpected; }
      var a := CatchUbootPrompt();
      match a
      case Yes(_) => return Done(());
      case No => return RecoveryRequired;
      case Crash => return Unexpected;
    }

    method IssueReboot() returns (ok: bool)
      requires Ready() && m.image != Unknown && m.reader != Unknown
      modifies this
      ensures Ready() && m == Rebooted(old(m)).(lines := old(m).lines + [Reboot]) && r.tally == old(r).tally
      ensures !ok ==> r.talk.cause == RunMonitor.Crashed
    {
      Emit(Sent(Reboot));
      var a := Ask(Sending);
      ok := !a.Crash?;
    }

    method LoadAndStart() returns (o: Outcome<()>)
      requires Ready() && m.image != Unknown
      modifies this
      ensures Ready() && r.tally == old(r).tally && m.image == old(m).image && m.reader == old(m).reader
      ensures o.Done? ==> m.started && m.lines == old(m).lines + (LOAD + START_CORE)
      ensures Blames(r.talk.cause, o)
    {
      ghost var before := m.lines;
      o := LoadFirmware();
      var text;
      if o.Done? { o, text := StartCore(); }
      Joins(before, LOAD, START_CORE);
    }

    /** Starts the core, boots Linux again and checks everything that the new boot could have changed. */
    method SecondBoot() returns (o: Outcome<()>, ghost unmounted: bool)
      requires Ready() && m.image != Unknown
      modifies this
      ensures Ready() && r.tally == old(r).tally && m.image == old(m).image && m.reader == old(m).reader
      ensures o.Done? ==> m.sdRoot && m.noEmmc && m.started && m.banner
      ensures o.Done? ==> m.lines == old(m).lines + (LOAD + START_CORE) + (RESUME + LOGIN) + StorageLines(unmounted)
      ensures Blames(r.talk.cause, o)
    {
      unmounted := false;
      o := LoadAndStart();
      if o.Done? { o := BootAndLogin(); }
      if o.Done? { o, unmounted := VerifyStorage(); }
    }

    /** Up to the second prompt. */
    method FirstPart() returns (o: Outcome<()>, ghost unmounted: bool)
      requires Ready() && m.lines == []
      modifies this
      ensures Ready() && r.tally == old(r).tally.(relays := r.tally.relays)
      ensures old(r).tally.relays < r.tally.relays <= old(r).tally.relays + 2
      ensures o.Done? ==> m.image != Unknown && m.reader != Unknown
                          && m.lines == FirstHalf(job, m.image == Present, m.reader == Present, unmounted)
      ensures Blames(r.talk.cause, o)
      ensures Silent(env, old(asked)) ==> o.RecoveryRequired? && asked == old(asked) + 4
    {
      o, unmounted := FirstBoot();
      if o.Done? {
        FirstIsHalf(job, m.image == Present, m.reader == Present, unmounted);
        o := EnterUboot();
      }
    }

    /** From the second prompt on. */
    method SecondPart(ghost unmounted: bool) returns (o: Outcome<Report>)
      requires Ready() && r.tally.collected.None? && m.image != Unknown && m.reader != Unknown
      requires m.lines == FirstHalf(job, m.image == Present, m.reader == Present, unmounted)
      modifies this
      ensures Ready() && r.tally == if o.Done? then old(r).tally.(collected := Some(o.value)) else old(r).tally
      ensures Blames(r.talk.cause, o)
    {
      ghost var first := m.lines;
      var done;
      ghost var b;
      done, b := SecondBoot();
      if !done.Done? { return Failed(done); }
      SecondIsHalf(first, b);
      HalvesMakeWhole(job, m.image == Present, m.reader == Present, unmounted, b);
      o := CollectResult(unmounted, b);
    }

    method WholeSequence() returns (o: Outcome<Report>)
      requires Ready() && r.tally.collected.None? && m.lines == []
      modifies this
      ensures Ready() && old(r).tally.relays < r.tally.relays <= old(r).tally.relays + 2
      ensures r.tally == old(r).tally.(relays := r.tally.relays, collected := if o.Done? then Some(o.value) else None)
      ensures Blames(r.talk.cause, o)
      ensures Silent(env, old(asked)) ==> o.RecoveryRequired? && asked == old(asked) + 4
    {
      var done;
      ghost var a;
      done, a := FirstPart();
      if !done.Done? { return Failed(done); }
      o := SecondPart(a);
    }

    /** How the tally looks after one sequence with this outcome. */
    ghost predicate RanOnce(before: RunMonitor.Tally, after: RunMonitor.Tally, o: Outcome<Report>)
    {
      && before.relays < after.relays <= before.relays + 2
      && after == before.(relays := after.relays, sequences := before.sequences + 1,
                          collected := if o.Done? then Some(o.value) else None,
                          ended := if o.Done? then RunMonitor.Running else RunMonitor.Failed(Sequencing, Bare(o)))
    }

    /** One attempt at the whole sequence; an exception that ends it is raised with its cause. */
    method RunHardwareSequence() returns (o: Outcome<Report>)
      requires Ready() && r.tally.collected.None? && r.tally.turn == RunMonitor.Open
      modifies this
      ensures Ready() && RanOnce(old(r).tally, r.tally, o)
      ensures Silent(env, old(asked)) ==> o.RecoveryRequired? && asked == old(asked) + 4
    {
      Emit(Started);
      o := WholeSequence();
      if !o.Done? { Emit(Raised(Sequencing, Bare(o))); }
    }

    // ----- the probe -----

    /** Polls until the probe is back or the deadline has passed. */
    method AwaitProbe() returns (o: Outcome<()>)
      requires Ready() && Ticking(env)
      modifies this
      ensures Ready() && r.tally == old(r).tally && m == old(m)
      ensures o.Done? || o.RecoveryRequired? || o.Unexpected?
      ensures Blames(r.talk.cause, o)
    {
      var h := asked;
      var clock := ClockOf(env, h);
      assert SerialLink.Advances(clock, REENUMERATE_POLL);
      var deadline := clock(0) + REENUMERATE_TIMEOUT;
      var n := 1;
      while clock(n) < deadline
        invariant n > 0 && Ready() && r.tally == old(r).tally && m == old(m)
        decreases deadline - clock(n)
      {
        var a := Ask(Lookup);
        match a {
          case Yes(_) => return Done(());
          case Crash => return Unexpected;
          case No =>
        }
        assert clock(n + 1) >= clock(n) + REENUMERATE_POLL;
        n := n + 1;
      }
      Emit(Deadline(h, n));
      return RecoveryRequired;
    }

    method RecoverProbe(attempts: nat) returns (o: Outcome<()>)
      requires Ready() && Ticking(env) && attempts > 0
      modifies this
      ensures Ready() && m == old(m) && r.tally == old(r).tally.(hubs := r.tally.hubs)
      ensures old(r).tally.hubs < r.tally.hubs <= old(r).tally.hubs + attempts
      ensures o.Done? || o.RecoveryRequired? || o.Unexpected?
      ensures Blames(r.talk.cause, o)
      ensures o.RecoveryRequired? ==> r.tally.hubs == old(r).tally.hubs + attempts
    {
      o := RecoveryRequired;
      for attempt := 0 to attempts
        invariant Ready() && m == old(m) && r.tally == old(r).tally.(hubs := old(r).tally.hubs + attempt)
        invariant attempt > 0 ==> Blames(r.talk.cause, o)
        invariant o == RecoveryRequired
      {
        var ok := CycleHub();
        if !ok { return Unexpected; }
        o := AwaitProbe();
        if !o.RecoveryRequired? { return; }
      }
    }

    method CycleHub() returns (ok: bool)
      requires Ready()
      modifies this
      ensures Ready() && m == old(m) && r.tally == old(r).tally.(hubs := old(r).tally.hubs + 1)
      ensures !ok ==> r.talk.cause == RunMonitor.Crashed
    {
      Emit(HubCycle);
      var a := Ask(HubPower);
      ok := !a.Crash?;
    }

    /** A probe that is there is used as it is; only one that is not is power-cycled. */
    method DiscoverDevice() returns (o: Outcome<()>)
      requires Ready() && Ticking(env)
      modifies this
      ensures Ready() && m == old(m) && r.tally == old(r).tally.(hubs := r.tally.hubs)
      ensures o.Done? || o.RecoveryRequired? || o.Unexpected?
      ensures Blames(r.talk.cause, o)
      ensures r.tally.hubs <= old(r).tally.hubs + 2 && (o.RecoveryRequired? ==> r.tally.hubs == old(r).tally.hubs + 2)
      ensures AnswerNo(env, old(asked)).Yes? ==> o.Done? && r.tally.hubs == old(r).tally.hubs && asked == old(asked) + 1
      ensures AnswerNo(env, old(asked)).No? ==> r.tally.hubs > old(r).tally.hubs
    {
      var a := Ask(Lookup);
      match a
      case Yes(_) => return Done(());
      case Crash => return Unexpected;
      case No => o := RecoverProbe(2);
    }

    // ----- links -----

    method OpenConsole() returns (ok: bool)
      requires Ready() && r.tally.turn == RunMonitor.Closed
      modifies this
      ensures Ready()
      ensures r.tally == if ok then old(r).tally.(opens := old(r).tally.opens + 1, turn := RunMonitor.Open) else old(r).tally
      ensures ok == !AnswerNo(env, old(asked)).Crash? && asked == old(asked) + 1
      ensures !ok ==> r.talk.cause == RunMonitor.Crashed
    {
      var a := Ask(Opening);
      ok := !a.Crash?;
      if ok { Emit(OpenLink); }
    }

    /** One call of close, which may raise. */
    method CloseConsole() returns (ok: bool)
      requires Ready()
      modifies this
      ensures Valid() && r.talk.closeCrashed == !ok
      ensures trace == old(trace) + [CloseLink, Heard(Closing, old(asked), AnswerNo(env, old(asked)))]
      ensures r.tally == old(r).tally.(turn := if old(r).tally.turn == RunMonitor.Open then RunMonitor.Closed
                                               else RunMonitor.Untidy)
      ensures ok == !AnswerNo(env, old(asked)).Crash? && asked == old(asked) + 1
      ensures !ok ==> r.talk.cause == RunMonitor.Crashed
    {
      Emit(CloseLink);
      var a := Ask(Closing);
      ok := !a.Crash?;
    }

    // ----- the retry -----

    /** Finds the probe again and opens a link. */
    method Reconnect() returns (o: Outcome<()>)
      requires Ready() && Ticking(env) && r.tally.turn == RunMonitor.Closed
      modifies this
      ensures Ready() && old(r).tally.hubs < r.tally.hubs <= old(r).tally.hubs + 2
      ensures r.tally == old(r).tally.(hubs := r.tally.hubs, ended := r.tally.ended,
                                       opens := old(r).tally.opens + (if o.Done? then 1 else 0),
                                       turn := if o.Done? then RunMonitor.Open else RunMonitor.Closed)
      ensures if o.Done? then r.tally.ended == old(r).tally.ended
              else r.tally.ended == RunMonitor.Failed(Probing, o)
                   || (r.tally.ended == RunMonitor.Failed(Linking, o) && o.Unexpected?)
    {
      o := RecoverProbe(2);
      if !o.Done? {
        Emit(Raised(Probing, o));
        return;
      }
      var ok := OpenConsole();
      if !ok {
        Emit(Raised(Linking, Unexpected));
        o := Unexpected;
      }
    }

    /** With no link open: finds the probe again, opens a link and runs the sequence once. */
    method RunWithFreshProbe() returns (o: Outcome<Report>, linked: bool)
      requires Ready() && Ticking(env) && r.tally.turn == RunMonitor.Closed && r.tally.collected.None?
      modifies this
      ensures Ready() && RunMonitor.WithinRetry(old(r).tally, r.tally)
      ensures r.tally.releaseFailed == old(r).tally.releaseFailed
      ensures r.tally.turn == if linked then RunMonitor.Open else RunMonitor.Closed
      ensures r.tally.collected == if o.Done? then Some(o.value) else None
      ensures EndedBy(r.tally, o)
      ensures linked <==> r.tally.sequences > old(r).tally.sequences
      ensures o.Done? || r.tally.ended == RunMonitor.Failed(Sequencing, RecoveryRequired) ==> linked
      ensures o.RecoveryRequired? ==> r.tally.ended.stage in {Probing, Sequencing}
    {
      var reached := Reconnect();
      linked := reached.Done?;
      if linked {
        o := RunHardwareSequence();
      } else {
        o := Failed(reached);
      }
    }

    /** The handler for a sequence that left the board unresponsive. `linked` says whether the runner still
        holds a link, closed or not. */
    method Retry() returns (o: Outcome<Report>, linked: bool)
      requires Ready() && Ticking(env) && r.tally.turn == RunMonitor.Open && r.tally.collected.None?
      requires !r.tally.releaseFailed
      modifies this
      ensures Ready() && RunMonitor.WithinRetry(old(r).tally, r.tally)
      ensures r.tally.releaseFailed <==> AnswerNo(env, old(asked)).Crash?
      ensures r.tally.releaseFailed ==> linked && r.tally.turn == RunMonitor.Closed && o.Unexpected? && asked == old(asked) + 1
      ensures !r.tally.releaseFailed ==> r.tally.turn == if linked then RunMonitor.Open else RunMonitor.Closed
      ensures r.tally.collected == if o.Done? then Some(o.value) else None
      ensures EndedBy(r.tally, o)
      ensures o.Done? || r.tally.ended == RunMonitor.Failed(Sequencing, RecoveryRequired) ==>
                r.tally.sequences == old(r).tally.sequences + 1
      ensures o.RecoveryRequired? ==> r.tally.ended.stage in {Probing, Sequencing}
    {
      var ok := CloseConsole();
      if !ok {
        Emit(Raised(Releasing, Unexpected));
        return Unexpected, true;
      }
      o, linked := RunWithFreshProbe();
    }

    // ----- the whole run -----

    /** One sequence, and one more if the board was left unresponsive. */
    method RunSequences() returns (o: Outcome<Report>, linked: bool)
      requires Ready() && Ticking(env) && r.tally.turn == RunMonitor.Open && r.tally.collected.None?
      requires !r.tally.releaseFailed && r.tally.sequences == 0
      modifies this
      ensures Ready() && r.tally.relays <= old(r).tally.relays + 4 && r.tally.hubs <= old(r).tally.hubs + 2
      ensures r.tally.opens <= old(r).tally.opens + 1 && r.tally.sequences <= 2
      ensures Linked(r.tally, linked) && r.tally.collected == (if o.Done? then Some(o.value) else None)
      ensures EndedBy(r.tally, o)
      ensures o.RecoveryRequired? ==> r.tally.ended.stage == Probing || (r.tally.ended.stage == Sequencing && r.tally.sequences == 2)
      ensures ReleaseFails(env, old(asked)) ==> r.tally.releaseFailed && asked == old(asked) + 5
    {
      o := RunHardwareSequence();
      linked := true;
      if o.RecoveryRequired? {
        o, linked := Retry();
      }
    }

    /** The part of the run whose exceptions are caught: the code it leaves and whether a link is still held. */
    method TryRun() returns (code: nat, linked: bool)
      requires Ready() && Ticking(env) && r.tally == RunMonitor.START.tally
      modifies this
      ensures Ready() && WithinBounds(r.tally) && Linked(r.tally, linked) && Concluded(r.tally) && code == CodeOf(r.tally.ended)
      ensures old(asked) == 0 && Stuck(env) ==> r.tally.releaseFailed && asked == 7
      ensures r.tally.ended.Failed? ==> r.tally.ended.stage != Preparing
    {
      var probe := DiscoverDevice();
      if !probe.Done? {
        Emit(Raised(Probing, probe));
        return ExitCode(probe), false;
      }
      var ok := OpenConsole();
      if !ok {
        Emit(Raised(Linking, Unexpected));
        return ExitCode<()>(Unexpected), false;
      }
      var o;
      o, linked := RunSequences();
      code := Judge(o);
    }

    /** The checks on what was collected. */
    method Judge(o: Outcome<Report>) returns (code: nat)
      requires Ready() && r.tally.collected == (if o.Done? then Some(o.value) else None)
      requires EndedBy(r.tally, o)
      requires o.RecoveryRequired? ==> r.tally.ended.stage == Probing || (r.tally.ended.stage == Sequencing && r.tally.sequences == 2)
      modifies this
      ensures Ready() && r.tally == old(r).tally.(ended := r.tally.ended) && asked == old(asked)
      ensures Concluded(r.tally) && code == CodeOf(r.tally.ended)
      ensures r.tally.ended.Failed? ==> r.tally.ended.stage != Preparing
    {
      if !o.Done? { return ExitCode(o); }
      Emit(Judged(Accepted(o.value)));
      if !Accepted(o.value) {
        Emit(Raised(Judging, TestFailure));
        return ExitCode<()>(TestFailure);
      }
      return 0;
    }

    /** What the monitors know at the end of a run. */
    method Execute() returns (exit: Option<nat>)
      requires Ready() && Ticking(env) && m == START && r == RunMonitor.START && trace == []
      modifies this
      ensures Valid() && WithinBounds(r.tally) && Concluded(r.tally)
      ensures exit == if r.talk.closeCrashed then None else Some(CodeOf(r.tally.ended))
      ensures r.tally.turn == RunMonitor.Closed <==> !r.tally.releaseFailed
      ensures old(asked) == 0 && env.prepared.Done? && Stuck(env) ==>
                r.tally.releaseFailed && (exit.None? <==> AnswerNo(env, 7).Crash?)
      ensures if env.prepared.Done? then r.tally.ended.Failed? ==> r.tally.ended.stage != Preparing
              else r.tally.ended == RunMonitor.Failed(Preparing, env.prepared)
    {
      Emit(Prepared(env.prepared));
      var code, linked := ExitCode(env.prepared), false;
      if env.prepared.Done? {
        code, linked := TryRun();
      } else {
        Emit(Raised(Preparing, env.prepared));
      }
      exit := Some(code);
      if linked {
        var ok := CloseConsole();
        if !ok { exit := None; }
      }
    }

    /** A whole run. Every event is safe in its boot, true of the world, and, if it is an exception, due. The exit
        code is that of whatever ended the run last; there is none if the last close, which nothing guards, raises. */
    method Run() returns (exit: Option<nat>)
      requires Ready() && Ticking(env) && m == START && r == RunMonitor.START && trace == [] && asked == 0
      modifies this
      ensures Safe(job, trace) && RunMonitor.Justified(job, trace) && Truthful(env, trace)
      ensures RunMonitor.CountOf(trace, RelayCycle) <= 4 && RunMonitor.CountOf(trace, HubCycle) <= 4
      ensures RunMonitor.CountOf(trace, OpenLink) <= 2 && RunMonitor.CountOf(trace, Started) <= 2
      ensures trace != [] && (exit.None? <==> RunMonitor.IsFailedClose(trace[|trace| - 1]))
      ensures exit.Some? ==> CodedBy(trace, exit.value)
      ensures forall i | 0 <= i < |trace| && trace[i].Collected? :: RestsOnTarget(job, trace[..i])
      ensures exit.Some? && env.prepared.Done? ==>
                (exit.value == 0 <==> exists report :: RunMonitor.CollectedIn(trace, report) && Accepted(report))
      ensures exit.Some? && env.prepared.Done? ==> (exit.value == 3 <==> Unrecovered(trace))
      ensures exit.Some? && exit.value != 0 ==> RunMonitor.Troubled(job, trace)
      ensures RunMonitor.EachClosedOnce(trace) <==> !RunMonitor.CloseFailedEarly(trace)
      ensures env.prepared.Done? && Stuck(env) ==>
                RunMonitor.CloseFailedEarly(trace) && (exit.None? <==> AnswerNo(env, 7).Crash?)
    {
      exit := Execute();
      RunMeans(env, job, trace, history, exit);
    }
  }

  ghost predicate EndedWith(trace: seq<Event>, exception: Outcome<()>)
  {
    exists stage :: RunMonitor.EndsBy(trace, Raised(stage, exception))
  }

  /** The exit code says what ended the run last. */
  ghost predicate CodedBy(trace: seq<Event>, code: nat)
  {
    && (code == 0 <==> RunMonitor.EndsBy(trace, Judged(true)))
    && (code == 1 <==> EndedWith(trace, TestFailure))
    && (code == 2 <==> EndedWith(trace, InfrastructureError) || EndedWith(trace, Unexpected))
    && (code == 3 <==> EndedWith(trace, RecoveryRequired))
    && code <= 3
  }

  lemma CollectionsRest(x: Job, trace: seq<Event>)
    requires Safe(x, trace)
    ensures forall i | 0 <= i < |trace| && trace[i].Collected? :: RestsOnTarget(x, trace[..i])
  {
    forall i | 0 <= i < |trace| && trace[i].Collected? ensures RestsOnTarget(x, trace[..i]) {
      CollectingIsEarned(x, trace, i);
    }
  }

  /** An ending by one thing is no ending by another. */
  lemma EndedOnce(trace: seq<Event>, end: Event)
    requires RunMonitor.EndsBy(trace, end)
    ensures RunMonitor.EndsBy(trace, Judged(true)) <==> end == Judged(true)
    ensures forall exception :: EndedWith(trace, exception) <==> end.Raised? && end.exception == exception
  {
    if RunMonitor.EndsBy(trace, Judged(true)) { RunMonitor.EndIsUnique(trace, end, Judged(true)); }
    forall exception ensures EndedWith(trace, exception) <==> end.Raised? && end.exception == exception {
      if stage: Stage :| RunMonitor.EndsBy(trace, Raised(stage, exception)) {
        RunMonitor.EndIsUnique(trace, end, Raised(stage, exception));
      }
      if end.Raised? { assert RunMonitor.EndsBy(trace, Raised(end.stage, end.exception)); }
    }
  }

  /** A recovery error ended the run: the probe's, or that of the second sequence. */
  ghost predicate Unrecovered(trace: seq<Event>)
  {
    || RunMonitor.EndsBy(trace, Raised(Probing, RecoveryRequired))
    || (RunMonitor.EndsBy(trace, Raised(Sequencing, RecoveryRequired)) && RunMonitor.CountOf(trace, Started) == 2)
  }

  lemma CourseProjects(env: Env, x: Job, trace: seq<Event>, history: seq<State>)
    requires IsCourse(env, x, trace, history)
    ensures Safe(x, trace) && RunMonitor.Justified(x, trace) && Truthful(env, trace)
    ensures After(x, trace) == history[|trace|].boot && RunMonitor.After(x, trace) == history[|trace|].run
  {
    var boots := seq(|history|, i requires 0 <= i < |history| => history[i].boot);
    var runs := seq(|history|, i requires 0 <= i < |history| => history[i].run);
    assert IsState(env, x, trace, history, 0);
    forall i | 0 <= i < |trace|
      ensures Allowed(x, boots[i], trace[i]) && boots[i + 1] == Step(x, boots[i], trace[i])
      ensures RunMonitor.Permitted(runs[i], trace[i]) && runs[i + 1] == RunMonitor.Step(x, runs[i], trace[i])
      ensures IsTrue(env, trace[i])
    {
      assert IsState(env, x, trace, history, i + 1);
    }
    assert IsHistory(x, trace, boots);
    assert RunMonitor.IsHistory(x, trace, runs);
    HistoryIsSafe(x, trace, boots);
    HistoryIsAfter(x, trace, boots, |trace|);
    assert trace[..|trace|] == trace;
    RunMonitor.HistoryIsJustified(x, trace, runs);
  }

  /** From the monitors to the trace. */
  lemma RunMeans(env: Env, x: Job, trace: seq<Event>, history: seq<State>, exit: Option<nat>)
    requires IsCourse(env, x, trace, history)
    requires var t, k := history[|trace|].run.tally, history[|trace|].run.talk;
             && WithinBounds(t) && Concluded(t)
             && exit == (if k.closeCrashed then None else Some(CodeOf(t.ended)))
             && (t.turn == RunMonitor.Closed <==> !t.releaseFailed)
             && (env.prepared.Done? && t.ended.Failed? ==> t.ended.stage != Preparing)
    ensures Safe(x, trace) && RunMonitor.Justified(x, trace) && Truthful(env, trace)
    ensures RunMonitor.CountOf(trace, RelayCycle) <= 4 && RunMonitor.CountOf(trace, HubCycle) <= 4
    ensures RunMonitor.CountOf(trace, OpenLink) <= 2 && RunMonitor.CountOf(trace, Started) <= 2
    ensures trace != [] && (exit.None? <==> RunMonitor.IsFailedClose(trace[|trace| - 1]))
    ensures exit.Some? ==> CodedBy(trace, exit.value)
    ensures forall i | 0 <= i < |trace| && trace[i].Collected? :: RestsOnTarget(x, trace[..i])
    ensures exit.Some? && env.prepared.Done? ==>
              (exit.value == 0 <==> exists report :: RunMonitor.CollectedIn(trace, report) && Accepted(report))
    ensures exit.Some? && env.prepared.Done? ==> (exit.value == 3 <==> Unrecovered(trace))
    ensures exit.Some? && exit.value != 0 ==> RunMonitor.Troubled(x, trace)
    ensures RunMonitor.EachClosedOnce(trace) <==> !RunMonitor.CloseFailedEarly(trace)
    ensures history[|trace|].run.tally.releaseFailed <==> RunMonitor.CloseFailedEarly(trace)
  {
    CourseProjects(env, x, trace, history);
    CourseBegins(env, x, trace, history);
    CollectionsRest(x, trace);
    RunMonitor.TallyCounts(x, trace);
    RunMonitor.ReleaseMeans(x, trace);
    RunMonitor.LinksAreClosedOnce(x, trace);
    if exit.Some? {
      CodeMeans(env, x, trace, history[|trace|].run.tally);
      if exit.value != 0 { FailureMeans(x, trace, exit.value); }
    }
  }

  lemma FailureMeans(x: Job, trace: seq<Event>, code: nat)
    requires RunMonitor.Justified(x, trace) && CodedBy(trace, code) && code != 0
    ensures RunMonitor.Troubled(x, trace)
  {
    var exception := if code == 1 then TestFailure else if code == 3 then RecoveryRequired
                     else if EndedWith(trace, InfrastructureError) then InfrastructureError else Unexpected;
    assert EndedWith(trace, exception);
    var stage: Stage :| RunMonitor.EndsBy(trace, Raised(stage, exception));
    RunMonitor.FailureNeedsTrouble(x, trace, Raised(stage, exception));
  }

  lemma CodeMeans(env: Env, x: Job, trace: seq<Event>, t: RunMonitor.Tally)
    requires RunMonitor.Justified(x, trace) && t == RunMonitor.After(x, trace).tally && Concluded(t)
    requires env.prepared.Done? && t.ended.Failed? ==> t.ended.stage != Preparing
    ensures CodedBy(trace, CodeOf(t.ended))
    ensures CodeOf(t.ended) == 0 <==> exists report :: RunMonitor.CollectedIn(trace, report) && Accepted(report)
    ensures env.prepared.Done? ==> (CodeOf(t.ended) == 3 <==> Unrecovered(trace))
  {
    RunMonitor.EndingMeans(x, trace);
    EndedOnce(trace, if t.ended == RunMonitor.Passed then Judged(true) else Raised(t.ended.stage, t.ended.exception));
    AcceptedMeans(x, trace, t);
    UnrecoveredMeans(x, trace, t);
  }

  lemma UnrecoveredMeans(x: Job, trace: seq<Event>, t: RunMonitor.Tally)
    requires t == RunMonitor.After(x, trace).tally && t.ended != RunMonitor.Running
    ensures Unrecovered(trace) <==>
              || t.ended == RunMonitor.Failed(Probing, RecoveryRequired)
              || (t.ended == RunMonitor.Failed(Sequencing, RecoveryRequired) && t.sequences == 2)
  {
    RunMonitor.EndingMeans(x, trace);
    RunMonitor.TallyCounts(x, trace);
    if RunMonitor.EndsBy(trace, Raised(Probing, RecoveryRequired)) {
      RunMonitor.EndingIsThis(x, trace, Raised(Probing, RecoveryRequired));
    }
    if RunMonitor.EndsBy(trace, Raised(Sequencing, RecoveryRequired)) {
      RunMonitor.EndingIsThis(x, trace, Raised(Sequencing, RecoveryRequired));
    }
  }

  lemma AcceptedMeans(x: Job, trace: seq<Event>, t: RunMonitor.Tally)
    requires RunMonitor.Justified(x, trace) && t == RunMonitor.After(x, trace).tally
    ensures t.collected.Some? && Accepted(t.collected.value)
       <==> exists report :: RunMonitor.CollectedIn(trace, report) && Accepted(report)
  {
    forall report ensures RunMonitor.CollectedIn(trace, report) <==> t.collected == Some(report) {
      RunMonitor.CollectedMeans(x, trace, report);
    }
  }

  /** The board stays silent, closing the console for the retry raises, and so does everything after it. */
  function WorstCase(): Env
  {
    Env(Done(()), n => if n == 3 || n == 5 then No else if n >= 6 then Crash else Yes(""),
        h => n => REENUMERATE_POLL * n, text => Unreadable)
  }

  lemma WorstCaseIsStuck()
    ensures Ticking(WorstCase()) && Stuck(WorstCase()) && AnswerNo(WorstCase(), 7).Crash?
  {
    forall h: nat ensures SerialLink.Advances(ClockOf(WorstCase(), h), REENUMERATE_POLL) {}
  }

  /** A run that closes a link twice. The cleanup closes the console that the retry could not close; that this
      raises too, as it would on a descriptor that is closed, leaves no exit code. */
  method ClosesTwice(job: Job) returns (s: Session, exit: Option<nat>)
    ensures Truthful(s.env, s.trace) && s.env == WorstCase()
    ensures RunMonitor.CloseFailedEarly(s.trace) && !RunMonitor.EachClosedOnce(s.trace) && exit.None?
  {
    var env := WorstCase();
    WorstCaseIsStuck();
    s := new Session(env, job);
    exit := s.Run();
  }
}
