/** A whole run: the firmware publishes, the stream reaches the buffer in pieces, the host polls and decides. */
module EndToEnd {
  import opened Words
  import opened RuntimeContract
  import opened Codec
  import opened BenchRecord
  import opened Firmware
  import opened FirmwareProofs
  import opened VerdictProofs
  import opened Composition
  import opened SerialLink
  import opened Host

  /** The reader thread only adds to the buffer between one look and the next. */
  ghost predicate Extends(a: seq<Event>, b: seq<Event>)
  {
    |a| <= |b| && b[..|a|] == a && forall k | |a| <= k < |b| :: b[k] != Clear
  }

  lemma {:induction false} ReceivedGrows(a: seq<Event>, b: seq<Event>)
    requires Extends(a, b)
    ensures ReceivedAfter(a) <= ReceivedAfter(b)
    decreases |b|
  {
    if |a| < |b| {
      var front := b[..|b| - 1];
      assert front[..|a|] == a;
      ReceivedGrows(a, front);
      OneEvent(front, b[|b| - 1]);
      assert front + [b[|b| - 1]] == b;
    } else {
      assert a == b;
    }
  }

  /** What the locked steps before each look have made of the buffer, and that it is part of this stream. */
  ghost predicate Delivers(w: World, events: nat -> seq<Event>, stream: seq<Byte>)
  {
    && (forall n: nat :: w.snapshot(n) == BufferAfter(EventsAt(events, n)))
    && (forall n: nat :: Extends(EventsAt(events, n), EventsAt(events, n + 1)))
    && (forall n: nat :: ReceivedAfter(EventsAt(events, n)) <= stream)
  }

  function EventsAt(events: nat -> seq<Event>, n: nat): seq<Event> { events(n) }

  /** How many bytes have arrived at look number `n`. */
  function Got(events: nat -> seq<Event>, n: nat): nat { |ReceivedAfter(EventsAt(events, n))| }

  lemma {:induction false} ArrivalGoesOn(w: World, events: nat -> seq<Event>, stream: seq<Byte>, n: nat, m: nat)
    requires Delivers(w, events, stream) && n <= m
    ensures Got(events, n) <= Got(events, m)
  {
    if n < m {
      ArrivalGoesOn(w, events, stream, n, m - 1);
      assert Extends(EventsAt(events, m - 1), EventsAt(events, m - 1 + 1));
      ReceivedGrows(EventsAt(events, m - 1), EventsAt(events, m));
    }
  }

  /** A buffer into which something has arrived is not empty. */
  lemma ArrivalShows(w: World, events: nat -> seq<Event>, stream: seq<Byte>, n: nat)
    requires Delivers(w, events, stream) && Got(events, n) > 0
    ensures Polled(w, n) != ""
  {
    BufferIsLive(EventsAt(events, n));
  }

  /** Quiet noise, the frame of the published record, and whatever follows. */
  function StreamOf(noise: seq<Byte>, p: seq<U32>, rest: seq<Byte>): seq<Byte>
  {
    noise + (FrameOf(p) + rest)
  }

  /** The frame is complete at look number `n`: its end marker has arrived. */
  predicate CompleteAt(events: nat -> seq<Event>, n: nat, noise: seq<Byte>, p: seq<U32>)
  {
    Got(events, n) >= |noise| + |FrameOf(p)| - 2
  }

  /** A look shows the stored record if the frame is complete, and nothing at all otherwise. */
  lemma LookShows(dev: Device, s: Sample, stack: seq<U32>, memory: seq<U32>,
                  w: World, events: nat -> seq<Event>, noise: seq<Byte>, rest: seq<Byte>, n: nat)
    requires Sane(dev) && Final(dev, OutcomeOf(dev, s), stack, memory)
    requires Framing.Quiet(Transport.Text(noise)) && |FrameOf(PrefixOf(memory))| + |rest| <= KEEP
    requires Delivers(w, events, StreamOf(noise, PrefixOf(memory), rest))
    ensures var text := Polled(w, n);
            if CompleteAt(events, n, noise, PrefixOf(memory)) then
              && Pattern.Search(text, 0).Some? && Reading(text).Done?
              && (Acceptable(Reading(text).value) <==> AllGood(dev, s))
            else Pattern.Search(text, 0).None?
  {
    var frame, got := FrameOf(PrefixOf(memory)), Got(events, n);
    var stream := StreamOf(noise, PrefixOf(memory), rest);
    var e := EventsAt(events, n);
    assert ReceivedAfter(e) == stream[..got];
    if got < |noise| {
      assert stream[..got] == noise[..got];
      NoiseIsNotFound(e, noise, got);
    } else {
      assert stream[..got] == noise + (frame + rest)[..got - |noise|];
      ConsoleResultIsTheRun(dev, s, stack, memory, e, noise, rest, got - |noise|);
    }
  }

  lemma HitMeansComplete(dev: Device, s: Sample, stack: seq<U32>, memory: seq<U32>,
                         w: World, events: nat -> seq<Event>, noise: seq<Byte>, rest: seq<Byte>, n: nat)
    requires Sane(dev) && Final(dev, OutcomeOf(dev, s), stack, memory)
    requires Framing.Quiet(Transport.Text(noise)) && |FrameOf(PrefixOf(memory))| + |rest| <= KEEP
    requires Delivers(w, events, StreamOf(noise, PrefixOf(memory), rest))
    ensures Hits(w, FrameFinder())(n) <==> CompleteAt(events, n, noise, PrefixOf(memory))
  {
    LookShows(dev, s, stack, memory, w, events, noise, rest, n);
  }

  /** A look before the deadline at which the frame is complete is not missed. */
  lemma CompletionIsNotMissed(dev: Device, s: Sample, stack: seq<U32>, memory: seq<U32>,
                              w: World, events: nat -> seq<Event>, noise: seq<Byte>, rest: seq<Byte>,
                              limits: Limits, polls: nat, k: nat)
    requires Sane(dev) && Final(dev, OutcomeOf(dev, s), stack, memory)
    requires Framing.Quiet(Transport.Text(noise)) && |FrameOf(PrefixOf(memory))| + |rest| <= KEEP
    requires Delivers(w, events, StreamOf(noise, PrefixOf(memory), rest))
    requires Advances(w.clock, limits.interval)
    requires LastLook(w.clock, Hits(w, FrameFinder()), limits.timeout, polls)
    requires CompleteAt(events, k, noise, PrefixOf(memory)) && w.clock(k) < w.clock(0) + limits.timeout
    ensures CompleteAt(events, polls - 1, noise, PrefixOf(memory))
  {
    HitMeansComplete(dev, s, stack, memory, w, events, noise, rest, k);
    HitMeansComplete(dev, s, stack, memory, w, events, noise, rest, polls - 1);
    DecidedInTime(w.clock, limits.interval, Hits(w, FrameFinder()), limits.timeout, polls, k);
  }

  /** The polled run. The host exits with 0 or 1 if the frame is complete at its last look, which it is if it
      is complete at any look before the deadline; it then exits with 0 if and only if everything in the run
      went well. If the frame is not complete at its last look but something has arrived, it exits with 3. */
  lemma PolledRun(dev: Device, s: Sample, stack: seq<U32>, memory: seq<U32>,
                  w: World, events: nat -> seq<Event>, noise: seq<Byte>, rest: seq<Byte>,
                  probe: Probe, limits: Limits, polls: nat, tries: nat)
    requires Sane(dev) && Final(dev, OutcomeOf(dev, s), stack, memory)
    requires Framing.Quiet(Transport.Text(noise)) && |FrameOf(PrefixOf(memory))| + |rest| <= KEEP
    requires Delivers(w, events, StreamOf(noise, PrefixOf(memory), rest))
    requires Ticking(w, probe, limits) && Effort(w, probe, limits, polls, tries)
    ensures var exit := ExitOf(CollectedAfter(w, probe, polls, tries));
            var p := PrefixOf(memory);
            && (CompleteAt(events, polls - 1, noise, p) ==> exit == if AllGood(dev, s) then 0 else 1)
            && (!CompleteAt(events, polls - 1, noise, p) && Got(events, polls) > 0 ==> exit == 3)
    ensures forall k: nat | CompleteAt(events, k, noise, PrefixOf(memory)) && w.clock(k) < w.clock(0) + limits.timeout ::
              CompleteAt(events, polls - 1, noise, PrefixOf(memory))
  {
    var p := PrefixOf(memory);
    LookShows(dev, s, stack, memory, w, events, noise, rest, polls - 1);
    forall k: nat | CompleteAt(events, k, noise, p) && w.clock(k) < w.clock(0) + limits.timeout
      ensures CompleteAt(events, polls - 1, noise, p)
    {
      CompletionIsNotMissed(dev, s, stack, memory, w, events, noise, rest, limits, polls, k);
    }
    if Got(events, polls) > 0 {
      ArrivalShows(w, events, StreamOf(noise, p, rest), polls);
    }
  }

  /** The same for a console that has shown something by the second look: completion before the deadline
      decides between exit codes 0 and 1 on the one hand and, if the frame never completes, 3. */
  lemma TalkingConsole(dev: Device, s: Sample, stack: seq<U32>, memory: seq<U32>,
                       w: World, events: nat -> seq<Event>, noise: seq<Byte>, rest: seq<Byte>,
                       probe: Probe, limits: Limits, polls: nat, tries: nat)
    requires Sane(dev) && Final(dev, OutcomeOf(dev, s), stack, memory)
    requires Framing.Quiet(Transport.Text(noise)) && |FrameOf(PrefixOf(memory))| + |rest| <= KEEP
    requires Delivers(w, events, StreamOf(noise, PrefixOf(memory), rest)) && Got(events, 1) > 0
    requires Ticking(w, probe, limits) && Effort(w, probe, limits, polls, tries)
    ensures var exit := ExitOf(CollectedAfter(w, probe, polls, tries));
            exit == if CompleteAt(events, polls - 1, noise, PrefixOf(memory)) then (if AllGood(dev, s) then 0 else 1) else 3
    ensures tries == 0
  {
    ArrivalGoesOn(w, events, StreamOf(noise, PrefixOf(memory), rest), 1, polls);
    PolledRun(dev, s, stack, memory, w, events, noise, rest, probe, limits, polls, tries);
    ArrivalShows(w, events, StreamOf(noise, PrefixOf(memory), rest), polls);
  }

  /** From the sample to the exit code: with a correct codec and a frame that is complete at a look before
      the deadline, the host exits with 0 if and only if the core has a cycle counter and the sample is
      complete, valid, small enough and free of NaN, and with 1 otherwise. */
  lemma CorrectCodecExitsZero(dev: Device, rt: Runtime, s: Sample, stack: seq<U32>, memory: seq<U32>,
                              w: World, events: nat -> seq<Event>, noise: seq<Byte>, rest: seq<Byte>,
                              probe: Probe, limits: Limits, polls: nat, tries: nat, k: nat)
    requires Lawful(rt) && Sane(dev) && Faithful(dev, rt, s) && Final(dev, OutcomeOf(dev, s), stack, memory)
    requires Framing.Quiet(Transport.Text(noise)) && |FrameOf(PrefixOf(memory))| + |rest| <= KEEP
    requires Delivers(w, events, StreamOf(noise, PrefixOf(memory), rest))
    requires Ticking(w, probe, limits) && Effort(w, probe, limits, polls, tries)
    requires CompleteAt(events, k, noise, PrefixOf(memory)) && w.clock(k) < w.clock(0) + limits.timeout
    ensures ExitOf(CollectedAfter(w, probe, polls, tries))
         == if dev.hasDwt && FirmwareProofs.Complete(rt, s) && EncodedSize(rt, s) <= BUFFER_CAPACITY then 0 else 1
  {
    PolledRun(dev, s, stack, memory, w, events, noise, rest, probe, limits, polls, tries);
    CorrectCodecVerdict(dev, rt, s);
  }

  /** The silent console: the last attempt over the debug probe read memory word by word while the firmware
      ran. If the host then exits with 0, everything in the run went well; and if that attempt began after
      the run was over, it exits with 0 or 1 accordingly. */
  lemma SilentConsole(dev: Device, s: Sample, stack: seq<U32>, memory: seq<U32>,
                      run: seq<Store>, log: seq<Store>, states: seq<TornRead.State>,
                      w: World, probe: Probe, limits: Limits, polls: nat, tries: nat)
    requires Sane(dev) && Final(dev, OutcomeOf(dev, s), stack, memory)
    requires forall k | 0 <= k < STRUCT_WORDS :: memory[k] == WordAfter(run, k)
    requires TornRead.Continues(run, log) && TornRead.Reading(log, states)
    requires |states[|states| - 1].image| == PREFIX_WORDS
    requires Effort(w, probe, limits, polls, tries) && Silent(w, polls) && tries > 0
    requires AttemptNo(probe, tries - 1) == Attempt(true, Layout.Image(states[|states| - 1].image))
    ensures var exit := ExitOf(CollectedAfter(w, probe, polls, tries));
            && (exit == 0 ==> AllGood(dev, s))
            && (states[0].done >= |run| ==> exit == if AllGood(dev, s) then 0 else 1)
  {
    var image := states[|states| - 1].image;
    ImageState(image);
    SwdExit(w, probe, limits, polls, tries, Layout.Image(image));
    ProbeRead(dev, s, stack, memory, run, log, states);
  }

  lemma ImageState(image: seq<U32>)
    requires |image| == PREFIX_WORDS
    ensures IsWire(Layout.Image(image)) && StateOf(Layout.Image(image)) == image[STATE_AT]
  {
    WordsOfImage(image);
    StateIsThirdWord(Layout.Image(image));
  }

  /** What a read over the debug probe shows of the run. */
  lemma ProbeRead(dev: Device, s: Sample, stack: seq<U32>, memory: seq<U32>,
                  run: seq<Store>, log: seq<Store>, states: seq<TornRead.State>)
    requires Sane(dev) && Final(dev, OutcomeOf(dev, s), stack, memory)
    requires forall k | 0 <= k < STRUCT_WORDS :: memory[k] == WordAfter(run, k)
    requires TornRead.Continues(run, log) && TornRead.Reading(log, states)
    requires |states[|states| - 1].image| == PREFIX_WORDS
    ensures var image := states[|states| - 1].image;
            && IsWire(Layout.Image(image))
            && (Acceptable(Host.ParseResult(Layout.Image(image))) ==> AllGood(dev, s))
            && (states[0].done >= |run| ==> image[STATE_AT] == STATE_TEST_COMPLETE
                                            && (AllGood(dev, s) ==> Acceptable(Host.ParseResult(Layout.Image(image)))))
  {
    var image := states[|states| - 1].image;
    ParsedIsStored(image);
    if Acceptable(Host.ParseResult(Layout.Image(image))) {
      AcceptedProbeReadIsTheRun(dev, s, stack, memory, run, log, states);
    }
    if states[0].done >= |run| {
      LateRead(dev, s, stack, memory, run, log, states);
    }
  }

  lemma LateRead(dev: Device, s: Sample, stack: seq<U32>, memory: seq<U32>,
                 run: seq<Store>, log: seq<Store>, states: seq<TornRead.State>)
    requires Sane(dev) && Final(dev, OutcomeOf(dev, s), stack, memory)
    requires forall k | 0 <= k < STRUCT_WORDS :: memory[k] == WordAfter(run, k)
    requires TornRead.Continues(run, log) && TornRead.Reading(log, states)
    requires |states[|states| - 1].image| == PREFIX_WORDS && states[0].done >= |run|
    ensures var image := states[|states| - 1].image;
            && image[STATE_AT] == STATE_TEST_COMPLETE && |Values(image)| == 27 && Values(image)[0] < TWO_32
            && (Acceptable(Values(image)) <==> AllGood(dev, s))
  {
    var image := states[|states| - 1].image;
    TornRead.LateReadIsFinal(run, log, states, |states| - 1);
    FinalImage(run, image, memory);
    SameTail(image, PrefixOf(memory));
    AcceptanceIsExact(dev, s, stack, memory);
  }

  lemma FinalImage(run: seq<Store>, image: seq<U32>, memory: seq<U32>)
    requires TornRead.IsFinalRecord(run, image) && |memory| == STRUCT_WORDS
    requires forall k | 0 <= k < STRUCT_WORDS :: memory[k] == WordAfter(run, k)
    ensures forall k | 0 <= k < PREFIX_WORDS && k != COUNTER_AT :: image[k] == PrefixOf(memory)[k]
  {
    forall k | 0 <= k < PREFIX_WORDS && k != COUNTER_AT ensures image[k] == PrefixOf(memory)[k] {
      assert TornRead.EqualsFinal(run, image, k);
    }
  }
}
