/** From the codec to the verdict of the host. */
module Composition {
  import opened Words
  import opened RuntimeContract
  import opened Codec
  import opened Layout
  import opened Overhead
  import opened Stack
  import opened BenchRecord
  import opened Firmware
  import opened FirmwareProofs
  import opened VerdictProofs
  import TornRead
  import Transport
  import Framing
  import Pattern
  import SerialLink
  import Host
  import opened Outcomes

  /** The part of the struct that is transmitted. */
  function PrefixOf(w: seq<U32>): seq<U32>
    requires |w| == STRUCT_WORDS
  {
    w[..PREFIX_WORDS]
  }

  /** Sends the prefix of the struct as it lies in memory. */
  method Publish(board: Board, uart: Transport.Uart)
    requires board.Valid()
    modifies uart
    ensures uart.sent == old(uart.sent) + FrameOf(PrefixOf(board.words[..]))
  {
    uart.ReportResult(Image(board.words[..PREFIX_WORDS]));
  }

  lemma WordsOfImage(words: seq<U32>)
    ensures |Image(words)| % 4 == 0 && WordsOf(Image(words)) == words
  {
    if words != [] {
      WordsOfImage(words[1..]);
      FirstWord(words);
      ImageDrops(words, 1);
    }
  }

  /** What the host reads out of a transmitted prefix is what the firmware stored. */
  lemma ParsedIsStored(words: seq<U32>)
    requires |words| == PREFIX_WORDS
    ensures Host.IsWire(Image(words)) && Host.ParseResult(Image(words)) == Values(words)
  {
    WordsOfImage(words);
  }

  /** The host accepts exactly the finished records of runs in which everything went well. */
  lemma AcceptanceIsExact(dev: Device, s: Sample, stack: seq<U32>, w: seq<U32>)
    requires Sane(dev) && Final(dev, OutcomeOf(dev, s), stack, w)
    ensures |Values(PrefixOf(w))| == 27 && Values(PrefixOf(w))[0] < TWO_32
    ensures Host.Acceptable(Values(PrefixOf(w))) <==> AllGood(dev, s)
  {
    PassIsExact(dev, s, stack, w);
    var p := PrefixOf(w);
    HeadOfValues(p);
  }

  lemma HeadOfValues(p: seq<U32>)
    requires |p| == PREFIX_WORDS
    ensures forall k | 0 <= k < 17 :: Values(p)[k] == p[k]
  {
    assert Values(p)[..17] == p[..17];
    assert forall k | 0 <= k < 17 :: Values(p)[k] == Values(p)[..17][k] == p[..17][k];
  }

  /** The bytes of the frame that carries a prefix. */
  function FrameOf(p: seq<U32>): (frame: seq<Byte>)
    ensures Transport.IsAscii(Transport.Frame(Transport.Hex(Image(p))))
    ensures frame == Transport.Ascii(Transport.Frame(Transport.Hex(Image(p))))
  {
    Transport.HexIsHex(Image(p));
    Transport.FrameInBytes(Transport.Hex(Image(p)));
    Transport.Ascii(Transport.Frame(Transport.Hex(Image(p))))
  }

  /** Over the console: whatever quiet noise precedes the frame, however the stream is cut into chunks,
      the host finds nothing before the end marker is complete, and then the stored record, which it accepts
      if and only if the run was good. `n` counts what has arrived after the noise. */
  lemma ConsoleResultIsTheRun(dev: Device, s: Sample, stack: seq<U32>, w: seq<U32>,
                              events: seq<SerialLink.Event>, noise: seq<Byte>, rest: seq<Byte>, n: nat)
    requires Sane(dev) && Final(dev, OutcomeOf(dev, s), stack, w)
    requires Framing.Quiet(Transport.Text(noise))
    requires n <= |FrameOf(PrefixOf(w))| + |rest| && n <= SerialLink.KEEP
    requires SerialLink.ReceivedAfter(events) == noise + (FrameOf(PrefixOf(w)) + rest)[..n]
    ensures var text := Transport.Text(SerialLink.BufferAfter(events));
            if n < |FrameOf(PrefixOf(w))| - 2 then Pattern.Search(text, 0).None?
            else && Pattern.Search(text, 0).Some?
                 && Host.Reading(text) == Done(Values(PrefixOf(w)))
                 && (Host.Acceptable(Host.Reading(text).value) <==> AllGood(dev, s))
  {
    var bytes := Image(PrefixOf(w));
    SerialLink.FrameIsFound(events, noise, bytes, rest, n);
    Transport.HexReadsBack(bytes);
    ParsedIsStored(PrefixOf(w));
    AcceptanceIsExact(dev, s, stack, w);
  }

  /** With a correct codec the host accepts if and only if the core has a cycle counter and the sample is
      complete, valid, small enough and free of NaN. */
  lemma CorrectCodecIsAccepted(dev: Device, rt: Runtime, s: Sample, stack: seq<U32>, w: seq<U32>)
    requires Lawful(rt) && Sane(dev) && Faithful(dev, rt, s) && Final(dev, OutcomeOf(dev, s), stack, w)
    ensures |Values(PrefixOf(w))| == 27 && Values(PrefixOf(w))[0] < TWO_32
    ensures Host.Validate(Host.BuildBenchmark(Values(PrefixOf(w)))) == Done(())
       <==> dev.hasDwt && FirmwareProofs.Complete(rt, s) && EncodedSize(rt, s) <= BUFFER_CAPACITY
  {
    AcceptanceIsExact(dev, s, stack, w);
    Host.ValidationIsExact(Values(PrefixOf(w)));
    CorrectCodecVerdict(dev, rt, s);
  }

  /** Over the debug probe, while the firmware runs: an accepted read proves that the run was good, and
      every value in it, the heartbeat counter aside, is the one the firmware finally stored. */
  lemma AcceptedProbeReadIsTheRun(dev: Device, s: Sample, stack: seq<U32>, w: seq<U32>, run: seq<Store>, log: seq<Store>,
                                  states: seq<TornRead.State>)
    requires Sane(dev) && Final(dev, OutcomeOf(dev, s), stack, w)
    requires forall k | 0 <= k < STRUCT_WORDS :: w[k] == WordAfter(run, k)
    requires TornRead.Continues(run, log) && TornRead.Reading(log, states)
    requires |states[|states| - 1].image| == PREFIX_WORDS
    requires var raw := Host.ParseResult(Image(states[|states| - 1].image)); Host.Acceptable(raw)
    ensures AllGood(dev, s)
    ensures var raw := Host.ParseResult(Image(states[|states| - 1].image));
            forall k | 0 <= k < 27 && k != COUNTER_AT :: raw[k] == Values(PrefixOf(w))[k]
  {
    var image, p := states[|states| - 1].image, PrefixOf(w);
    ParsedIsStored(image);
    HeadOfValues(image);
    ProbeSeesFinalWords(run, log, states, w);
    SameTail(image, p);
    AcceptanceIsExact(dev, s, stack, w);
  }

  lemma ProbeSeesFinalWords(run: seq<Store>, log: seq<Store>, states: seq<TornRead.State>, w: seq<U32>)
    requires |w| == STRUCT_WORDS && forall k | 0 <= k < STRUCT_WORDS :: w[k] == WordAfter(run, k)
    requires TornRead.Continues(run, log) && TornRead.Reading(log, states)
    requires var image := states[|states| - 1].image;
             |image| == PREFIX_WORDS && image[0] == MAGIC && image[1] == VERSION && image[2] == STATE_TEST_COMPLETE
    ensures forall k | 0 <= k < PREFIX_WORDS && k != COUNTER_AT :: states[|states| - 1].image[k] == PrefixOf(w)[k]
  {
    TornRead.AcceptedReadIsFinal(run, log, states);
    var image := states[|states| - 1].image;
    forall k | 0 <= k < PREFIX_WORDS && k != COUNTER_AT ensures image[k] == PrefixOf(w)[k] {
      assert TornRead.EqualsFinal(run, image, k);
    }
  }

  lemma SameTail(a: seq<U32>, b: seq<U32>)
    requires |a| == |b| == PREFIX_WORDS && forall k | 0 <= k < PREFIX_WORDS && k != COUNTER_AT :: a[k] == b[k]
    ensures forall k | 0 <= k < 27 && k != COUNTER_AT :: Values(a)[k] == Values(b)[k]
  {
    assert a[20..22] == b[20..22] && a[24..26] == b[24..26] && a[28..] == b[28..];
    HeadOfValues(a);
    HeadOfValues(b);
    assert Values(a)[17..] == Values(b)[17..];
    forall k | 17 <= k < 27 ensures Values(a)[k] == Values(b)[k] { assert Values(a)[k] == Values(a)[17..][k - 17]; }
  }

  // ----- the summary of the timings -----

  /** A summary that describes these durations: attained extremes, exact total, mean between the extremes
      and nearest to the exact one. */
  ghost predicate Describes(stats: Host.Stats, deltas: seq<U32>)
  {
    && deltas != []
    && stats.min in deltas && stats.max in deltas
    && (forall x | x in deltas :: stats.min <= x <= stats.max)
    && stats.sum == SumOf(deltas)
    && 100 * stats.min <= stats.mean <= 100 * stats.max
    && Host.IsNearest(100 * SumOf(deltas), |deltas|, stats.mean)
  }

  lemma LoopIsDescribed(l: Loop, w: seq<U32>, deltas: seq<U32>)
    requires Recorded(l, w, deltas) && |deltas| == ITERATIONS
    ensures Describes(StatsOf(w, l), deltas)
  {
    AggregatesAreSound(l, w, deltas);
    Host.MeanIsBetween(ITERATIONS, w[l.min], w[l.min + 1], SumOf(deltas));
    Host.RoundsToNearest(100 * SumOf(deltas), ITERATIONS, Host.RoundHalfEven(100 * SumOf(deltas), ITERATIONS));
  }

  /** In the host's document every loop's summary describes the durations that the firmware measured. */
  lemma SummaryIsSound(dev: Device, s: Sample, stack: seq<U32>, w: seq<U32>)
    requires Sane(dev) && Final(dev, OutcomeOf(dev, s), stack, w) && OutcomeOf(dev, s).Looped?
    ensures |Values(PrefixOf(w))| == 27 && Values(PrefixOf(w))[0] < TWO_32
    ensures var b := Host.BuildBenchmark(Values(PrefixOf(w)));
            && b.iterations == ITERATIONS && b.failures == Failures(dev, s)
            && Describes(b.encode, EncodeDeltas(dev))
            && Describes(b.decode, DecodeDeltas(dev))
            && Describes(b.roundTrip, RoundTripDeltas(dev))
  {
    StatsOfLoops(w);
    LoopIsDescribed(ENCODE_LOOP, w, EncodeDeltas(dev));
    LoopIsDescribed(DECODE_LOOP, w, DecodeDeltas(dev));
    LoopIsDescribed(ROUNDTRIP_LOOP, w, RoundTripDeltas(dev));
  }

  function StatsOf(w: seq<U32>, l: Loop): Host.Stats
    requires |w| == STRUCT_WORDS && IsLoop(l)
  {
    Host.StatsFor(ITERATIONS, w[l.min], w[l.min + 1], FieldAt(w, l.sum, Long))
  }

  lemma StatsOfLoops(w: seq<U32>)
    requires |w| == STRUCT_WORDS && w[ITERATION_COUNT_AT] == ITERATIONS
    ensures |Values(PrefixOf(w))| == 27 && Values(PrefixOf(w))[0] < TWO_32
    ensures var b := Host.BuildBenchmark(Values(PrefixOf(w)));
            && b.iterations == ITERATIONS && b.failures == w[FAILURES_AT]
            && b.encode == StatsOf(w, ENCODE_LOOP) && b.decode == StatsOf(w, DECODE_LOOP)
            && b.roundTrip == StatsOf(w, ROUNDTRIP_LOOP)
  {
    HeadOfValues(PrefixOf(w));
    TailOfValues(PrefixOf(w));
  }

  lemma TailOfValues(p: seq<U32>)
    requires |p| == PREFIX_WORDS
    ensures var v := Values(p);
            && v[17] == FieldAt(p, ENCODE_SUM_AT, Long) && v[18] == p[DECODE_MIN_AT] && v[19] == p[DECODE_MIN_AT + 1]
            && v[20] == FieldAt(p, DECODE_SUM_AT, Long) && v[21] == p[ROUNDTRIP_MIN_AT] && v[22] == p[ROUNDTRIP_MIN_AT + 1]
            && v[23] == FieldAt(p, ROUNDTRIP_SUM_AT, Long)
  {
  }

  lemma LastOfValues(p: seq<U32>)
    requires |p| == PREFIX_WORDS
    ensures var v := Values(p); v[24] == p[WATERMARK_AT] && v[25] == p[REGION_AT] && v[26] == p[HEAP_AT]
  {
  }

  /** The rest of the document: what the host writes about the device, the proof pass and the stack is true. */
  lemma DocumentIsSound(dev: Device, s: Sample, stack: seq<U32>, w: seq<U32>)
    requires Sane(dev) && Final(dev, OutcomeOf(dev, s), stack, w)
    ensures |Values(PrefixOf(w))| == 27 && Values(PrefixOf(w))[0] < TWO_32
    ensures var b := Host.BuildBenchmark(Values(PrefixOf(w)));
            && b.state == STATE_TEST_COMPLETE && b.resultCode == w[10] && b.counter == 0
            && b.dwtSupported == dev.hasDwt && b.region == 4 * |stack| && b.heap == 0
            && (dev.hasDwt ==> b.encodedBytes == dev.encode(0).written
                               && b.overhead < TWO_32
                               && UpperMedian(Deltas(dev.clock, 0, OVERHEAD_SAMPLES), b.overhead))
            && (OutcomeOf(dev, s).Looped? ==> b.watermark == Watermark(stack) && b.iterations == 500
                                              && b.failures == Failures(dev, s))
            && (!OutcomeOf(dev, s).Looped? ==> b.watermark == 0 && b.iterations == 0 && b.failures == 0
                                               && b.encode == b.decode == b.roundTrip == Host.Stats(0, 0, 0, 0))
            && (!dev.hasDwt ==> b.encodedBytes == 0 && b.overhead == 0)
  {
    DocumentEntries(w);
    if !OutcomeOf(dev, s).Looped? { NoLoops(w); }
  }

  /** The document of an accepted read over the debug probe is the document of the finished record, but for the
      heartbeat, which is the one that was read. */
  lemma ProbeDocumentIsTheRun(dev: Device, s: Sample, stack: seq<U32>, w: seq<U32>, run: seq<Store>, log: seq<Store>,
                              states: seq<TornRead.State>)
    requires Sane(dev) && Final(dev, OutcomeOf(dev, s), stack, w)
    requires forall k | 0 <= k < STRUCT_WORDS :: w[k] == WordAfter(run, k)
    requires TornRead.Continues(run, log) && TornRead.Reading(log, states)
    requires |states[|states| - 1].image| == PREFIX_WORDS
    requires Host.Acceptable(Host.ParseResult(Image(states[|states| - 1].image)))
    ensures |Values(PrefixOf(w))| == 27 && Values(PrefixOf(w))[0] < TWO_32
    ensures var image := states[|states| - 1].image;
            Host.BuildBenchmark(Host.ParseResult(Image(image)))
            == Host.BuildBenchmark(Values(PrefixOf(w))).(counter := image[3])
  {
    var image, p := states[|states| - 1].image, PrefixOf(w);
    ParsedIsStored(image);
    HeadOfValues(image);
    AcceptedProbeReadIsTheRun(dev, s, stack, w, run, log, states);
    SameDocument(Values(image), Values(p));
  }

  /** Which word of the record each entry of the document is. */
  lemma DocumentEntries(w: seq<U32>)
    requires |w| == STRUCT_WORDS
    ensures |Values(PrefixOf(w))| == 27 && Values(PrefixOf(w))[0] < TWO_32
    ensures var b := Host.BuildBenchmark(Values(PrefixOf(w)));
            && b.state == w[STATE_AT] && b.counter == w[COUNTER_AT] && b.encodedBytes == w[ENCODED_BYTES_AT]
            && b.resultCode == w[RESULT_CODE_AT] && (b.dwtSupported <==> w[DWT_SUPPORTED_AT] != 0)
            && b.overhead == w[OVERHEAD_AT] && b.failures == w[FAILURES_AT]
            && (w[ITERATION_COUNT_AT] <= 500 ==> b.iterations == w[ITERATION_COUNT_AT])
            && b.watermark == w[WATERMARK_AT] && b.region == w[REGION_AT] && b.heap == w[HEAP_AT]
  {
    HeadOfValues(PrefixOf(w));
    LastOfValues(PrefixOf(w));
  }

  /** The entries of the loops, when they were not reached. */
  lemma NoLoops(w: seq<U32>)
    requires |w| == STRUCT_WORDS && forall k | 0 <= k < |w| && IsLoopWord(k) :: w[k] == 0
    ensures |Values(PrefixOf(w))| == 27 && Values(PrefixOf(w))[0] < TWO_32
    ensures var b := Host.BuildBenchmark(Values(PrefixOf(w)));
            && b.watermark == 0 && b.iterations == 0 && b.failures == 0
            && b.encode == b.decode == b.roundTrip == Host.Stats(0, 0, 0, 0)
  {
    HeadOfValues(PrefixOf(w));
    TailOfValues(PrefixOf(w));
    LastOfValues(PrefixOf(w));
  }

  lemma SameDocument(a: Host.Raw, b: Host.Raw)
    requires forall k | 0 <= k < 27 && k != COUNTER_AT :: a[k] == b[k]
    ensures Host.BuildBenchmark(a) == Host.BuildBenchmark(b).(counter := a[3])
  {
  }
}
