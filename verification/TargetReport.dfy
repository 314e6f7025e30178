/** What the report of a reader on the target says about the firmware's run.

    The reader is not part of this model; what is assumed of it is that it reads the words of the record in
    increasing order while the firmware runs, and prints six of them. */
module TargetReport {
  import opened Words
  import opened Codec
  import opened BenchRecord
  import opened Firmware
  import opened FirmwareProofs
  import opened TornRead
  import RunEvents
  import Composition
  import Host
  import Layout


  function ReportOf(image: seq<U32>): RunEvents.Report
    requires |image| == PREFIX_WORDS
  {
    RunEvents.Report(Host.HexWord(image[0]), image[1], image[2], image[10], image[14], image[3])
  }

  /** After the run, store by store, the counter counts the turns of the loop. */
  ghost predicate Beating(run: seq<Store>, log: seq<Store>)
  {
    && Continues(run, log) && WordAfter(run, COUNTER_AT) == 0
    && forall i | |run| <= i < |log| :: log[i].value == (i - |run| + 1) % TWO_32
  }

  lemma {:induction false} CounterCounts(run: seq<Store>, log: seq<Store>, d: nat)
    requires Beating(run, log) && |run| <= d <= |log|
    ensures WordAfter(log[..d], COUNTER_AT) == (d - |run|) % TWO_32
  {
    if d > |run| {
      assert log[..d][d - 1] == log[d - 1];
    }
  }

  lemma NextCount(n: nat)
    ensures (n % TWO_32 + 1) % TWO_32 == (n + 1) % TWO_32
  {
  }

  /** Another turn of the loop. */
  lemma BeatGoesOn(run: seq<Store>, log: seq<Store>, e: Store)
    requires Beating(run, log) && e == Store(COUNTER_AT, (WordAfter(log, COUNTER_AT) + 1) % TWO_32)
    ensures Beating(run, log + [e])
  {
    CounterCounts(run, log, |log|);
    assert log[..|log|] == log;
    NextCount(|log| - |run|);
    OneMore(run, log, e);
  }

  lemma OneMore(run: seq<Store>, log: seq<Store>, e: Store)
    requires Beating(run, log) && e == Store(COUNTER_AT, (|log| - |run| + 1) % TWO_32)
    ensures Beating(run, log + [e])
  {
    assert (log + [e])[..|run|] == log[..|run|];
  }

  /** The counter was read after the state, so when the state shows completion the counter shows beats. */
  ghost predicate CounterShows(run: seq<Store>, log: seq<Store>, s: State)
  {
    |s.image| > COUNTER_AT && s.image[STATE_AT] == STATE_TEST_COMPLETE ==>
      exists d: nat :: ShowsBeats(run, s, d)
  }

  ghost predicate ShowsBeats(run: seq<Store>, s: State, d: nat)
  {
    |run| + d <= s.done && |s.image| > COUNTER_AT && s.image[COUNTER_AT] == d % TWO_32
  }

  /** The heartbeat that was read had come at least once. */
  ghost predicate HasBeaten(run: seq<Store>, s: State)
  {
    exists d: nat :: ShowsBeats(run, s, d) && d % TWO_32 > 0
  }

  lemma CounterStep(run: seq<Store>, log: seq<Store>, s: State, t: State)
    requires Beating(run, log) && CounterShows(run, log, s) && TornRead.Safe(run, log, s) && Next(log, s, t)
    ensures CounterShows(run, log, t)
  {
    if |t.image| > COUNTER_AT && t.image[STATE_AT] == STATE_TEST_COMPLETE {
      if |s.image| > COUNTER_AT {
        var d: nat :| ShowsBeats(run, s, d);
        assert ShowsBeats(run, t, d);
      } else {
        CounterCounts(run, log, s.done);
        assert ShowsBeats(run, t, s.done - |run|);
      }
    }
  }

  lemma {:induction false} CounterIsRead(run: seq<Store>, log: seq<Store>, states: seq<State>, i: nat)
    requires Beating(run, log) && TornRead.Reading(log, states) && i < |states|
    ensures CounterShows(run, log, states[i])
  {
    if i > 0 {
      CounterIsRead(run, log, states, i - 1);
      EveryStateIsSafe(run, log, states, i - 1);
      CounterStep(run, log, states[i - 1], states[i]);
    }
  }

  /** The report is acceptable if and only if the record is one that the host would accept and shows a heartbeat. */
  lemma AcceptedAsRecord(image: seq<U32>)
    requires |image| == PREFIX_WORDS
    ensures RunEvents.Accepted(ReportOf(image)) <==>
              image[0] == 0x5142_4e31 && image[1] == 1 && image[2] == 2 && image[10] == 1 && image[14] == 0 && image[3] > 0
  {
    Host.MagicText(image[0]);
  }

  lemma AcceptableToo(image: seq<U32>)
    requires |image| == PREFIX_WORDS && RunEvents.Accepted(ReportOf(image))
    ensures Host.Acceptable(Host.ParseResult(Layout.Image(image))) && image[3] > 0
    ensures Host.ParseResult(Layout.Image(image)) == Values(image)
    ensures forall k | 0 <= k < 17 :: Values(image)[k] == image[k]
  {
    AcceptedAsRecord(image);
    Composition.ParsedIsStored(image);
    Composition.HeadOfValues(image);
  }

  lemma BeatsAreRead(run: seq<Store>, log: seq<Store>, states: seq<State>)
    requires Beating(run, log) && TornRead.Reading(log, states)
    requires var image := states[|states| - 1].image;
             |image| == PREFIX_WORDS && image[STATE_AT] == STATE_TEST_COMPLETE
    ensures HasBeaten(run, states[|states| - 1]) <==> states[|states| - 1].image[COUNTER_AT] > 0
  {
    CounterIsRead(run, log, states, |states| - 1);
    var d: nat :| ShowsBeats(run, states[|states| - 1], d);
  }

  /** A report that is accepted, read at any moment, proves that everything in the firmware's run went well, that
      the run was over, and that at least one heartbeat had come; and its other five entries are final. */
  lemma AcceptedReportIsTheRun(dev: Device, s: Sample, stack: seq<U32>, w: seq<U32>, run: seq<Store>, log: seq<Store>,
                               states: seq<State>)
    requires Sane(dev) && Final(dev, OutcomeOf(dev, s), stack, w)
    requires forall k | 0 <= k < STRUCT_WORDS :: w[k] == WordAfter(run, k)
    requires Beating(run, log) && TornRead.Reading(log, states)
    requires |states[|states| - 1].image| == PREFIX_WORDS && RunEvents.Accepted(ReportOf(states[|states| - 1].image))
    ensures AllGood(dev, s) && HasBeaten(run, states[|states| - 1])
    ensures ReportOf(states[|states| - 1].image) == ReportOf(Composition.PrefixOf(w)).(counter := states[|states| - 1].image[3])
  {
    var image := states[|states| - 1].image;
    AcceptableToo(image);
    BeatsAreRead(run, log, states);
    Composition.AcceptedProbeReadIsTheRun(dev, s, stack, w, run, log, states);
    Composition.HeadOfValues(Composition.PrefixOf(w));
    SameReport(image, Composition.PrefixOf(w));
  }

  lemma SameReport(a: seq<U32>, b: seq<U32>)
    requires |a| == |b| == PREFIX_WORDS && forall k | 0 <= k < 17 && k != COUNTER_AT :: a[k] == b[k]
    ensures ReportOf(a) == ReportOf(b).(counter := a[3])
  {
  }

  /** Conversely, a good run is accepted by whoever reads after it, unless the counter shows zero: before the
      first heartbeat, and at each multiple of 2^32 of them. */
  lemma GoodRunIsAccepted(dev: Device, s: Sample, stack: seq<U32>, w: seq<U32>, run: seq<Store>, log: seq<Store>,
                          states: seq<State>)
    requires Sane(dev) && Final(dev, OutcomeOf(dev, s), stack, w)
    requires forall k | 0 <= k < STRUCT_WORDS :: w[k] == WordAfter(run, k)
    requires Beating(run, log) && TornRead.Reading(log, states)
    requires |states[|states| - 1].image| == PREFIX_WORDS && states[0].done >= |run|
    ensures RunEvents.Accepted(ReportOf(states[|states| - 1].image)) <==>
              AllGood(dev, s) && HasBeaten(run, states[|states| - 1])
  {
    var last := states[|states| - 1];
    LateWords(w, run, log, states);
    FinalIsAccepted(dev, s, stack, w, last.image);
    BeatsAreRead(run, log, states);
  }

  lemma LateWords(w: seq<U32>, run: seq<Store>, log: seq<Store>, states: seq<State>)
    requires |w| == STRUCT_WORDS && forall k | 0 <= k < STRUCT_WORDS :: w[k] == WordAfter(run, k)
    requires Continues(run, log) && TornRead.Reading(log, states)
    requires |states[|states| - 1].image| == PREFIX_WORDS && states[0].done >= |run|
    ensures forall k | 0 <= k < PREFIX_WORDS && k != COUNTER_AT :: states[|states| - 1].image[k] == w[k]
  {
    var image := states[|states| - 1].image;
    LateReadIsFinal(run, log, states, |states| - 1);
    forall k | 0 <= k < PREFIX_WORDS && k != COUNTER_AT ensures image[k] == w[k] {
      assert EqualsFinal(run, image, k);
    }
  }

  lemma FinalIsAccepted(dev: Device, s: Sample, stack: seq<U32>, w: seq<U32>, image: seq<U32>)
    requires Sane(dev) && Final(dev, OutcomeOf(dev, s), stack, w) && |image| == PREFIX_WORDS
    requires forall k | 0 <= k < PREFIX_WORDS && k != COUNTER_AT :: image[k] == w[k]
    ensures image[STATE_AT] == STATE_TEST_COMPLETE
    ensures RunEvents.Accepted(ReportOf(image)) <==> AllGood(dev, s) && image[COUNTER_AT] > 0
  {
    AcceptedAsRecord(image);
    PassIsExact(dev, s, stack, w);
  }
}
