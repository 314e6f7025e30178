/** Why a run ends the way it ends.

    Exceptions are events, and each needs a cause: a bad answer of the world, or a look that did not show
    what it had to show. The monitor keeps the last cause, the links, the collected report and the ending. */
module RunMonitor {
  import opened Outcomes
  import opened Pattern
  import opened ConsoleText
  import opened RunEvents

  /** What can make an exception due. */
  datatype Cause =
    | Fine
    | Crashed
    | Missing(request: Request)
    | Rejected
    | Mismatch
    | Refused
    | Told(outcome: Outcome<()>)

  /** No link is open, one is, or a link was closed that was closed already. */
  datatype Turn = Closed | Open | Untidy

  datatype Ending = Running | Passed | Failed(stage: Stage, exception: Outcome<()>)

  datatype Tally = Tally(
    relays: nat,
    hubs: nat,
    opens: nat,
    sequences: nat,
    turn: Turn,
    releaseFailed: bool,
    collected: Option<Report>,
    ended: Ending
  )

  datatype Last = NothingYet | Last(request: Request, answer: Answer)

  datatype Talk = Talk(
    heard: nat,
    last: Last,
    line: Option<Line>,
    cause: Cause,
    closeCrashed: bool,
    seen: string,
    offered: Option<Report>
  )

  datatype Run = Run(tally: Tally, talk: Talk)

  const START := Run(Tally(0, 0, 0, 0, Closed, false, None, Running), Talk(0, NothingYet, None, Fine, false, "", None))

  function TextOf(a: Answer): string { if a.Yes? then a.text else "" }

  function CauseOfAnswer(q: Request, a: Answer): Cause
  {
    match a
    case Yes(_) => Fine
    case No => Missing(q)
    case Crash => Crashed
  }

  /** What a look at the answer to this line gives cause for. */
  function CauseOfLook(x: Job, line: Option<Line>, text: string): Cause
  {
    match line
    case Some(FindRoot) => if IsOnSd(text) then Fine else Rejected
    case Some(GrepEmmc) => if HasNoEmmc(text) then Fine else Rejected
    case Some(LoadM4) => if IsLoaded(text) then Fine else Rejected
    case Some(BootAux) =>
      if FindBanner(text, 0).None? then Rejected else if IsStarted(x, text) then Fine else Mismatch
    case _ => Fine
  }

  function CauseOfReading(reading: Reading): Cause
  {
    match reading
    case Unreadable => Rejected
    case Malformed => Crashed
    case Readable(_) => Fine
  }

  function StepTally(t: Tally, e: Event): Tally
  {
    match e
    case RelayCycle => t.(relays := t.relays + 1)
    case HubCycle => t.(hubs := t.hubs + 1)
    case OpenLink => t.(opens := t.opens + 1, turn := Open)
    case CloseLink => t.(turn := if t.turn == Open then Closed else Untidy)
    case Started => t.(sequences := t.sequences + 1, ended := Running)
    case Collected(report) => t.(collected := Some(report))
    case Judged(accepted) => if accepted then t.(ended := Passed) else t
    case Raised(stage, exception) =>
      t.(ended := Failed(stage, exception), releaseFailed := t.releaseFailed || stage == Releasing)
    case _ => t
  }

  function StepTalk(x: Job, k: Talk, e: Event): Talk
  {
    var k := k.(closeCrashed := false);
    match e
    case Prepared(outcome) => k.(cause := if outcome.Done? then Fine else Told(outcome))
    case Heard(q, n, a) =>
      k.(heard := k.heard + 1, last := Last(q, a), cause := CauseOfAnswer(q, a), closeCrashed := q == Closing && a == Crash)
    case Deadline(_, _) => k.(cause := Missing(Lookup))
    case Sent(line) => k.(line := Some(line))
    case Waited(prompt, text) => k.(cause := if prompt == LoginPrompt && !IsKirkstone(text) then Rejected else Fine)
    case Looked(text) => k.(seen := text, cause := CauseOfLook(x, k.line, text))
    case Read(_, reading) =>
      k.(cause := CauseOfReading(reading), offered := if reading.Readable? then Some(reading.report) else None)
    case Judged(accepted) => k.(cause := if accepted then Fine else Refused)
    case _ => k
  }

  function Step(x: Job, r: Run, e: Event): Run
  {
    Run(StepTally(r.tally, e), StepTalk(x, r.talk, e))
  }

  /** Whether this exception is due: after an exception of the world, after something that did not come,
      after an answer that did not show what it had to, after a refused report. */
  predicate Justifies(c: Cause, exception: Outcome<()>)
  {
    match c
    case Fine => false
    case Crashed => exception == Unexpected
    case Missing(q) =>
      match q {
        case Prompting => exception == RecoveryRequired
        case Lookup => exception == RecoveryRequired
        case Waiting(prompt) =>
          exception == if prompt == FatLoadDone || prompt == LoginPrompt then RecoveryRequired else InfrastructureError
        case _ => false
      }
    case Rejected => exception == InfrastructureError
    case Mismatch => exception == TestFailure
    case Refused => exception == TestFailure
    case Told(outcome) => exception == outcome && !outcome.Done?
  }

  /** Answers are heard in order and used truthfully; links are opened one at a time; a report is collected once,
      as it was read; exceptions have a cause; a failed close is raised at once. */
  predicate Permitted(r: Run, e: Event)
  {
    && (r.talk.closeCrashed ==> e == Raised(Releasing, Unexpected))
    && match e
       case Heard(_, n, _) => n == r.talk.heard
       case OpenLink => r.tally.turn == Closed && r.talk.last.Last? && r.talk.last.request == Opening && !r.talk.last.answer.Crash?
       case Started => r.tally.turn == Open
       case AtUboot => r.talk.last.Last? && r.talk.last.request == Prompting && r.talk.last.answer.Yes?
       case Waited(prompt, text) => r.talk.last == Last(Waiting(prompt), Yes(text))
       case Looked(text) => r.talk.last.Last? && r.talk.last.request == Looking && text == TextOf(r.talk.last.answer)
       case Read(text, _) => text == r.talk.seen
       case Collected(report) => r.talk.offered == Some(report) && r.tally.collected.None?
       case Judged(accepted) => r.tally.collected.Some? && accepted == Accepted(r.tally.collected.value)
       case Raised(stage, exception) =>
         Justifies(r.talk.cause, exception) && (stage == Releasing <==> r.talk.closeCrashed)
       case _ => true
  }

  function After(x: Job, trace: seq<Event>): Run
  {
    if trace == [] then START else Step(x, After(x, trace[..|trace| - 1]), trace[|trace| - 1])
  }

  /** Every event of the trace was permitted when it happened. */
  ghost predicate Justified(x: Job, trace: seq<Event>)
  {
    forall i | 0 <= i < |trace| :: Permitted(After(x, trace[..i]), trace[i])
  }

  /** The monitor's values along a trace in which every event was permitted. */
  ghost predicate IsHistory(x: Job, trace: seq<Event>, history: seq<Run>)
  {
    && |history| == |trace| + 1 && history[0] == START
    && forall i {:trigger trace[i]} | 0 <= i < |trace| ::
         Permitted(history[i], trace[i]) && history[i + 1] == Step(x, history[i], trace[i])
  }

  lemma {:induction false} HistoryIsAfter(x: Job, trace: seq<Event>, history: seq<Run>, n: nat)
    requires IsHistory(x, trace, history) && n <= |trace|
    ensures After(x, trace[..n]) == history[n]
  {
    if n > 0 {
      HistoryIsAfter(x, trace, history, n - 1);
      assert trace[..n][..n - 1] == trace[..n - 1] && trace[..n][n - 1] == trace[n - 1];
    }
  }

  lemma HistoryIsJustified(x: Job, trace: seq<Event>, history: seq<Run>)
    requires IsHistory(x, trace, history)
    ensures Justified(x, trace) && After(x, trace) == history[|trace|]
  {
    forall i | 0 <= i < |trace| ensures Permitted(After(x, trace[..i]), trace[i]) {
      HistoryIsAfter(x, trace, history, i);
    }
    HistoryIsAfter(x, trace, history, |trace|);
    assert trace[..|trace|] == trace;
  }

  // ----- what the tally means, without the monitor -----

  /** The last event of this trace that ends something: an exception, an accepted report, a new sequence. */
  predicate Ends(e: Event) { e.Raised? || e == Judged(true) || e.Started? }

  ghost predicate EndsBy(trace: seq<Event>, e: Event)
  {
    exists i :: LastEnd(trace, i) && trace[i] == e
  }

  ghost predicate LastEnd(trace: seq<Event>, i: int)
  {
    0 <= i < |trace| && Ends(trace[i]) && forall k | i < k < |trace| :: !Ends(trace[k])
  }

  /** A run has passed if the last thing to end anything was an accepted report, and failed if it was an
      exception. */
  lemma {:induction false} EndingMeans(x: Job, trace: seq<Event>)
    ensures var ended := After(x, trace).tally.ended;
            && (ended == Passed ==> EndsBy(trace, Judged(true)))
            && (ended.Failed? ==> EndsBy(trace, Raised(ended.stage, ended.exception)))
  {
    if trace != [] {
      var n := |trace| - 1;
      var front, e := trace[..n], trace[n];
      EndingMeans(x, front);
      if Ends(e) {
        assert LastEnd(trace, n);
      } else {
        KeepsEnding(After(x, front).tally, e);
        var ended := After(x, front).tally.ended;
        if ended == Passed { EndStays(front, e, Judged(true)); }
        if ended.Failed? { EndStays(front, e, Raised(ended.stage, ended.exception)); }
        assert trace == front + [e];
      }
    }
  }

  /** Only one thing can be the last to end anything. */
  lemma EndIsUnique(trace: seq<Event>, e: Event, f: Event)
    requires EndsBy(trace, e) && EndsBy(trace, f)
    ensures e == f
  {
    var i :| LastEnd(trace, i) && trace[i] == e;
    var j :| LastEnd(trace, j) && trace[j] == f;
  }

  /** The tally knows the exception that ended the run last. */
  lemma EndingIsThis(x: Job, trace: seq<Event>, e: Event)
    requires EndsBy(trace, e) && e.Raised? && After(x, trace).tally.ended != Running
    ensures After(x, trace).tally.ended == Failed(e.stage, e.exception)
  {
    EndingMeans(x, trace);
    var ended := After(x, trace).tally.ended;
    EndIsUnique(trace, e, if ended == Passed then Judged(true) else Raised(ended.stage, ended.exception));
  }

  /** How often this event happens. */
  function CountOf(trace: seq<Event>, e: Event): nat
  {
    if trace == [] then 0 else CountOf(trace[..|trace| - 1], e) + if trace[|trace| - 1] == e then 1 else 0
  }

  lemma {:induction false} TallyCounts(x: Job, trace: seq<Event>)
    ensures var t := After(x, trace).tally;
            && t.relays == CountOf(trace, RelayCycle) && t.hubs == CountOf(trace, HubCycle)
            && t.opens == CountOf(trace, OpenLink) && t.sequences == CountOf(trace, Started)
  {
    if trace != [] {
      TallyCounts(x, trace[..|trace| - 1]);
      CountStep(After(x, trace[..|trace| - 1]).tally, trace[|trace| - 1]);
    }
  }

  lemma CountStep(t: Tally, e: Event)
    ensures var u := StepTally(t, e);
            && u.relays == t.relays + (if e == RelayCycle then 1 else 0)
            && u.hubs == t.hubs + (if e == HubCycle then 1 else 0)
            && u.opens == t.opens + (if e == OpenLink then 1 else 0)
            && u.sequences == t.sequences + (if e == Started then 1 else 0)
  {
  }

  /** What a retry may add to the tally: one sequence, one link, two cycles of either kind. */
  predicate WithinRetry(before: Tally, after: Tally)
  {
    && before.relays <= after.relays <= before.relays + 2 && before.hubs <= after.hubs <= before.hubs + 2
    && before.sequences <= after.sequences <= before.sequences + 1 && before.opens <= after.opens <= before.opens + 1
  }

  lemma KeepsEnding(t: Tally, e: Event)
    requires !Ends(e)
    ensures StepTally(t, e).ended == t.ended
  {
  }

  lemma EndStays(front: seq<Event>, e: Event, end: Event)
    requires EndsBy(front, end) && !Ends(e)
    ensures EndsBy(front + [e], end)
  {
    var i :| LastEnd(front, i) && front[i] == end;
    assert LastEnd(front + [e], i) && (front + [e])[i] == end;
  }

  lemma JustifiedFront(x: Job, trace: seq<Event>)
    requires Justified(x, trace) && trace != []
    ensures Justified(x, trace[..|trace| - 1])
    ensures Permitted(After(x, trace[..|trace| - 1]), trace[|trace| - 1])
  {
    assert forall i | 0 <= i < |trace| - 1 :: trace[..|trace| - 1][..i] == trace[..i];
  }

  ghost predicate CollectedIn(trace: seq<Event>, r: Report)
  {
    exists i :: 0 <= i < |trace| && trace[i] == Collected(r)
  }

  /** The tally knows exactly the collected report. */
  lemma {:induction false} CollectedMeans(x: Job, trace: seq<Event>, r: Report)
    requires Justified(x, trace)
    ensures CollectedIn(trace, r) <==> After(x, trace).tally.collected == Some(r)
  {
    if trace != [] {
      var front, e := trace[..|trace| - 1], trace[|trace| - 1];
      JustifiedFront(x, trace);
      CollectedMeans(x, front, r);
      assert trace == front + [e];
      CollectedMore(front, e, r);
      CollectStep(After(x, front).tally, e);
    }
  }

  lemma CollectedMore(front: seq<Event>, e: Event, r: Report)
    ensures CollectedIn(front + [e], r) <==> CollectedIn(front, r) || e == Collected(r)
  {
    var trace := front + [e];
    if CollectedIn(front, r) {
      var i :| 0 <= i < |front| && front[i] == Collected(r);
      assert trace[i] == Collected(r);
    }
    if e == Collected(r) { assert trace[|front|] == Collected(r); }
    if CollectedIn(trace, r) && e != Collected(r) {
      var i :| 0 <= i < |trace| && trace[i] == Collected(r);
      assert front[i] == Collected(r);
    }
  }

  lemma CollectStep(t: Tally, e: Event)
    ensures StepTally(t, e).collected == if e.Collected? then Some(e.report) else t.collected
  {
  }

  // ----- links -----

  predicate IsLinkEvent(e: Event) { e == OpenLink || e == CloseLink }

  /** The link opened at `i` is closed at `j`, and nothing is opened or closed in between. */
  ghost predicate Pairs(trace: seq<Event>, i: int, j: int)
  {
    && 0 <= i < j < |trace| && trace[i] == OpenLink && trace[j] == CloseLink
    && forall k | i < k < j :: !IsLinkEvent(trace[k])
  }

  ghost predicate IsClosed(trace: seq<Event>, i: int) { exists j :: Pairs(trace, i, j) }

  ghost predicate ClosesALink(trace: seq<Event>, j: int) { exists i :: Pairs(trace, i, j) }

  /** Every link that is opened is closed, and every close closes a link that is open: each exactly once. */
  ghost predicate EachClosedOnce(trace: seq<Event>)
  {
    && (forall i | 0 <= i < |trace| && trace[i] == OpenLink :: IsClosed(trace, i))
    && (forall j | 0 <= j < |trace| && trace[j] == CloseLink :: ClosesALink(trace, j))
  }

  /** All links before `o` are closed once, and the one opened at `o` is still open. */
  ghost predicate StillOpen(trace: seq<Event>, o: int)
  {
    && 0 <= o < |trace| && trace[o] == OpenLink && EachClosedOnce(trace[..o])
    && forall k | o < k < |trace| :: !IsLinkEvent(trace[k])
  }

  ghost predicate HasStrayClose(trace: seq<Event>)
  {
    exists j :: 0 <= j < |trace| && trace[j] == CloseLink && !ClosesALink(trace, j)
  }

  ghost predicate TurnMeans(trace: seq<Event>, turn: Turn)
  {
    match turn
    case Closed => EachClosedOnce(trace)
    case Open => exists o :: StillOpen(trace, o)
    case Untidy => HasStrayClose(trace)
  }

  lemma PairsStay(front: seq<Event>, e: Event, i: int, j: int)
    requires j < |front|
    ensures Pairs(front + [e], i, j) <==> Pairs(front, i, j)
  {
    assert forall k | 0 <= k < |front| :: (front + [e])[k] == front[k];
    if Pairs(front + [e], i, j) {
      forall k | i < k < j ensures !IsLinkEvent(front[k]) { assert !IsLinkEvent((front + [e])[k]); }
    }
  }

  lemma StrayStays(front: seq<Event>, e: Event)
    requires HasStrayClose(front)
    ensures HasStrayClose(front + [e])
  {
    var j :| 0 <= j < |front| && front[j] == CloseLink && !ClosesALink(front, j);
    var trace := front + [e];
    if ClosesALink(trace, j) {
      var i :| Pairs(trace, i, j);
      PairsStay(front, e, i, j);
    }
    assert trace[j] == CloseLink && !ClosesALink(trace, j);
  }

  /** Closed links stay closed once. */
  lemma TidyStays(front: seq<Event>, e: Event)
    requires EachClosedOnce(front) && !IsLinkEvent(e)
    ensures EachClosedOnce(front + [e])
  {
    var trace := front + [e];
    forall i | 0 <= i < |trace| && trace[i] == OpenLink ensures IsClosed(trace, i) {
      assert IsClosed(front, i);
      var j :| Pairs(front, i, j);
      PairsStay(front, e, i, j);
    }
    forall j | 0 <= j < |trace| && trace[j] == CloseLink ensures ClosesALink(trace, j) {
      assert ClosesALink(front, j);
      var i :| Pairs(front, i, j);
      PairsStay(front, e, i, j);
    }
  }

  /** Closing the one open link. */
  lemma CloseStep(front: seq<Event>, o: int)
    requires StillOpen(front, o)
    ensures EachClosedOnce(front + [CloseLink])
  {
    var trace := front + [CloseLink];
    assert Pairs(trace, o, |front|);
    forall i | 0 <= i < |trace| && trace[i] == OpenLink ensures IsClosed(trace, i) {
      if i < o {
        assert front[..o][i] == OpenLink && IsClosed(front[..o], i);
        var j :| Pairs(front[..o], i, j);
        assert Pairs(trace, i, j);
      }
    }
    forall j | 0 <= j < |trace| && trace[j] == CloseLink ensures ClosesALink(trace, j) {
      if j < o {
        assert front[..o][j] == CloseLink && ClosesALink(front[..o], j);
        var i :| Pairs(front[..o], i, j);
        assert Pairs(trace, i, j);
      }
    }
  }

  /** A close when nothing is open closes nothing. */
  lemma StrayStep(front: seq<Event>)
    requires EachClosedOnce(front)
    ensures HasStrayClose(front + [CloseLink])
  {
    var trace := front + [CloseLink];
    var j := |front|;
    if ClosesALink(trace, j) {
      var i :| Pairs(trace, i, j);
      assert IsClosed(front, i);
      var k :| Pairs(front, i, k);
      assert IsLinkEvent(trace[k]) && i < k < j;
    }
    assert trace[j] == CloseLink && !ClosesALink(trace, j);
  }

  lemma {:induction false} TurnIsSound(x: Job, trace: seq<Event>)
    requires Justified(x, trace)
    ensures TurnMeans(trace, After(x, trace).tally.turn)
  {
    if trace != [] {
      var n := |trace| - 1;
      var front, e := trace[..n], trace[n];
      JustifiedFront(x, trace);
      TurnIsSound(x, front);
      assert trace == front + [e];
      TurnStep(front, e, After(x, front).tally);
    }
  }

  lemma TurnStep(front: seq<Event>, e: Event, t: Tally)
    requires TurnMeans(front, t.turn) && (e == OpenLink ==> t.turn == Closed)
    ensures TurnMeans(front + [e], StepTally(t, e).turn)
  {
    var trace := front + [e];
    match t.turn {
      case Untidy => StrayStays(front, e);
      case Closed =>
        if e == OpenLink {
          assert trace[..|front|] == front;
          assert StillOpen(trace, |front|);
        } else if e == CloseLink {
          StrayStep(front);
        } else {
          TidyStays(front, e);
        }
      case Open =>
        var o :| StillOpen(front, o);
        if e == CloseLink {
          CloseStep(front, o);
        } else {
          assert trace[..o] == front[..o];
          assert StillOpen(trace, o);
        }
    }
  }

  lemma OpenIsNotClosed(trace: seq<Event>, o: int)
    requires StillOpen(trace, o)
    ensures !IsClosed(trace, o)
  {
    forall j ensures !Pairs(trace, o, j) {
      if o < j < |trace| { assert !IsLinkEvent(trace[j]); }
    }
  }

  /** At the end of a justified trace the links are in order if and only if the monitor says so. */
  lemma LinksAreClosedOnce(x: Job, trace: seq<Event>)
    requires Justified(x, trace)
    ensures After(x, trace).tally.turn == Closed <==> EachClosedOnce(trace)
  {
    TurnIsSound(x, trace);
    if After(x, trace).tally.turn == Open {
      var o :| StillOpen(trace, o);
      OpenIsNotClosed(trace, o);
    }
  }

  // ----- failed closes -----

  predicate IsFailedClose(e: Event) { e.Heard? && e.request == Closing && e.answer == Crash }

  /** Closing a link failed, and the run went on. */
  ghost predicate CloseFailedEarly(trace: seq<Event>)
  {
    exists i :: 0 <= i < |trace| - 1 && IsFailedClose(trace[i])
  }

  lemma {:induction false} ReleaseMeans(x: Job, trace: seq<Event>)
    requires Justified(x, trace)
    ensures After(x, trace).talk.closeCrashed <==> trace != [] && IsFailedClose(trace[|trace| - 1])
    ensures After(x, trace).tally.releaseFailed <==> CloseFailedEarly(trace)
  {
    if trace != [] {
      var n := |trace| - 1;
      var front, e := trace[..n], trace[n];
      JustifiedFront(x, trace);
      ReleaseMeans(x, front);
      assert trace == front + [e];
      ReleaseStep(x, After(x, front), e);
      EarlierCloses(front, e);
    }
  }

  lemma EarlierCloses(front: seq<Event>, e: Event)
    ensures CloseFailedEarly(front + [e]) <==>
              CloseFailedEarly(front) || (front != [] && IsFailedClose(front[|front| - 1]))
  {
    var trace := front + [e];
    if CloseFailedEarly(front) {
      var i :| 0 <= i < |front| - 1 && IsFailedClose(front[i]);
      assert IsFailedClose(trace[i]);
    }
    if front != [] && IsFailedClose(front[|front| - 1]) {
      assert IsFailedClose(trace[|front| - 1]);
    }
    if CloseFailedEarly(trace) {
      var i :| 0 <= i < |front| && IsFailedClose(trace[i]);
      assert IsFailedClose(front[i]);
    }
  }

  lemma ReleaseStep(x: Job, r: Run, e: Event)
    requires Permitted(r, e)
    ensures Step(x, r, e).talk.closeCrashed == IsFailedClose(e)
    ensures Step(x, r, e).tally.releaseFailed == (r.tally.releaseFailed || r.talk.closeCrashed)
  {
  }

  // ----- causes -----

  /** The last line sent: what a look looks for the answer to. */
  function LastLine(trace: seq<Event>): Option<Line>
  {
    if trace == [] then None
    else if trace[|trace| - 1].Sent? then Some(trace[|trace| - 1].line)
    else LastLine(trace[..|trace| - 1])
  }

  lemma {:induction false} LastLineIsKept(x: Job, trace: seq<Event>)
    ensures After(x, trace).talk.line == LastLine(trace)
  {
    if trace != [] {
      LastLineIsKept(x, trace[..|trace| - 1]);
      SentStep(x, After(x, trace[..|trace| - 1]).talk, trace[|trace| - 1]);
    }
  }

  lemma SentStep(x: Job, k: Talk, e: Event)
    ensures StepTalk(x, k, e).line == if e.Sent? then Some(e.line) else k.line
  {
  }

  /** An event that gives this cause when `line` is the last line sent. */
  predicate Brings(x: Job, line: Option<Line>, e: Event, c: Cause)
  {
    match e
    case Prepared(outcome) => c == Told(outcome) && !outcome.Done?
    case Heard(q, _, answer) => (answer == Crash && c == Crashed) || (answer == No && c == Missing(q))
    case Deadline(_, _) => c == Missing(Lookup)
    case Waited(prompt, text) => prompt == LoginPrompt && !IsKirkstone(text) && c == Rejected
    case Looked(text) => c != Fine && c == CauseOfLook(x, line, text)
    case Read(_, reading) => (reading == Unreadable && c == Rejected) || (reading == Malformed && c == Crashed)
    case Judged(accepted) => !accepted && c == Refused
    case _ => false
  }

  ghost predicate BroughtAt(x: Job, trace: seq<Event>, j: int, c: Cause)
  {
    0 <= j < |trace| && Brings(x, LastLine(trace[..j]), trace[j], c)
  }

  ghost predicate Happened(x: Job, trace: seq<Event>, c: Cause)
  {
    exists j :: BroughtAt(x, trace, j, c)
  }

  /** A cause is kept, lifted, or comes from the event. */
  lemma CauseStep(x: Job, k: Talk, e: Event)
    ensures var c := StepTalk(x, k, e).cause; c == k.cause || c == Fine || Brings(x, k.line, e, c)
  {
  }

  lemma BroughtEarlier(x: Job, trace: seq<Event>, n: nat, c: Cause)
    requires n <= |trace| && Happened(x, trace[..n], c)
    ensures Happened(x, trace, c)
  {
    var j :| BroughtAt(x, trace[..n], j, c);
    assert trace[..n][..j] == trace[..j];
    assert BroughtAt(x, trace, j, c);
  }

  lemma {:induction false} CausesAreReal(x: Job, trace: seq<Event>)
    ensures After(x, trace).talk.cause == Fine || Happened(x, trace, After(x, trace).talk.cause)
  {
    if trace != [] {
      var n := |trace| - 1;
      CausesAreReal(x, trace[..n]);
      LastLineIsKept(x, trace[..n]);
      CauseStep(x, After(x, trace[..n]).talk, trace[n]);
      var c := After(x, trace).talk.cause;
      if Brings(x, LastLine(trace[..n]), trace[n], c) {
        assert BroughtAt(x, trace, n, c);
      } else if c != Fine {
        BroughtEarlier(x, trace, n, c);
      }
    }
  }

  /** No exception is raised without something that happened before it and makes it due. */
  lemma ExceptionsAreDue(x: Job, trace: seq<Event>, i: nat)
    requires Justified(x, trace) && i < |trace| && trace[i].Raised?
    ensures exists c :: Justifies(c, trace[i].exception) && Happened(x, trace[..i], c)
  {
    var c := After(x, trace[..i]).talk.cause;
    assert Permitted(After(x, trace[..i]), trace[i]);
    CausesAreReal(x, trace[..i]);
    assert Justifies(c, trace[i].exception) && Happened(x, trace[..i], c);
  }

  /** Something that makes an exception due happened. */
  ghost predicate Troubled(x: Job, trace: seq<Event>)
  {
    exists c :: c != Fine && Happened(x, trace, c)
  }

  /** A run that ended by an exception met with trouble. */
  lemma FailureNeedsTrouble(x: Job, trace: seq<Event>, e: Event)
    requires Justified(x, trace) && e.Raised? && EndsBy(trace, e)
    ensures Troubled(x, trace)
  {
    var i :| LastEnd(trace, i) && trace[i] == e;
    ExceptionsAreDue(x, trace, i);
    var c :| Justifies(c, e.exception) && Happened(x, trace[..i], c);
    BroughtEarlier(x, trace, i, c);
    assert c != Fine && Happened(x, trace, c);
  }
}
