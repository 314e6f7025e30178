/** What a published record says about the run that produced it. */
module FirmwareProofs {
  import opened Words
  import opened RuntimeContract
  import opened Codec
  import opened CodecProofs
  import opened Layout
  import opened Overhead
  import opened BenchRecord
  import opened Firmware

  ghost predicate NoneBad(bad: nat -> bool)
  {
    forall i: nat | i < ITERATIONS :: !bad(i)
  }

  lemma NoFailuresMeansNoneBad(bad: nat -> bool)
    ensures BadCount(bad, ITERATIONS) == 0 <==> NoneBad(bad)
  {
    assert NoneBad(bad) ==> BadIterations(bad, ITERATIONS) == {};
    if !NoneBad(bad) {
      var i: nat :| i < ITERATIONS && bad(i);
      assert i in BadIterations(bad, ITERATIONS);
    }
  }

  /** All that a PASS stands for: the proof pass and each of the 1500 timed iterations. */
  ghost predicate AllGood(dev: Device, s: Sample)
    requires Sane(dev)
  {
    && dev.hasDwt
    && dev.encode(0).status == StatusOk
    && !DecodedBad(s, ProofDecode(dev))
    && NoneBad(EncodeBad(dev))
    && NoneBad(DecodeBad(dev, s, Payload(dev)))
    && NoneBad(RoundTripBad(dev, s))
  }

  /** Call `n` decodes this to a sample that matches. */
  predicate Decodes(dev: Device, s: Sample, n: nat, payload: seq<Byte>)
  {
    dev.decode(n, payload).status == StatusOk && Matches(s, dev.decode(n, payload).value)
  }

  /** Call `n` encodes to as many bytes as the first call. */
  predicate Encodes(dev: Device, n: nat)
  {
    dev.encode(n).status == StatusOk && dev.encode(n).written == dev.encode(0).written
  }

  /** Calls `n` encode, and decode what was just written. */
  predicate RoundTrips(dev: Device, s: Sample, n: nat)
    requires Sane(dev)
  {
    dev.encode(n).status == StatusOk && Decodes(dev, s, n, dev.encode(n).buffer[..dev.encode(n).written])
  }

  lemma EncodeLoopMeans(dev: Device)
    ensures NoneBad(EncodeBad(dev)) <==> forall n: nat | 1 <= n <= 500 :: Encodes(dev, n)
  {
    if NoneBad(EncodeBad(dev)) {
      forall n: nat | 1 <= n <= 500 ensures Encodes(dev, n) {
        assert !EncodeBad(dev)(n - 1);
        assert 1 + (n - 1) == n;
      }
    } else {
      var i: nat :| i < ITERATIONS && EncodeBad(dev)(i);
      assert !Encodes(dev, 1 + i);
    }
  }

  lemma DecodeLoopMeans(dev: Device, s: Sample, payload: seq<Byte>)
    ensures NoneBad(DecodeBad(dev, s, payload)) <==> forall n: nat | 1 <= n <= 500 :: Decodes(dev, s, n, payload)
  {
    if NoneBad(DecodeBad(dev, s, payload)) {
      forall n: nat | 1 <= n <= 500 ensures Decodes(dev, s, n, payload) {
        assert !DecodeBad(dev, s, payload)(n - 1);
        assert 1 + (n - 1) == n;
      }
    } else {
      var i: nat :| i < ITERATIONS && DecodeBad(dev, s, payload)(i);
      assert !Decodes(dev, s, 1 + i, payload);
    }
  }

  lemma RoundTripLoopMeans(dev: Device, s: Sample)
    requires Sane(dev)
    ensures NoneBad(RoundTripBad(dev, s)) <==> forall n: nat | 501 <= n <= 1000 :: RoundTrips(dev, s, n)
  {
    if NoneBad(RoundTripBad(dev, s)) {
      forall n: nat | 501 <= n <= 1000 ensures RoundTrips(dev, s, n) {
        RoundTripMeans(dev, s, n - 501, n);
      }
    } else {
      var i: nat :| i < ITERATIONS && RoundTripBad(dev, s)(i);
      RoundTripMeans(dev, s, i, 1 + ITERATIONS + i);
    }
  }

  lemma RoundTripMeans(dev: Device, s: Sample, i: nat, n: nat)
    requires Sane(dev) && n == 1 + ITERATIONS + i
    ensures RoundTripBad(dev, s)(i) <==> !RoundTrips(dev, s, n)
  {
    var e := dev.encode(n);
    assert RoundTripBad(dev, s)(i) <==> e.status != StatusOk || DecodedBad(s, dev.decode(n, Written(e)));
  }

  /** All went well means, call by call: the first call encodes, and decodes what was just written; the next 500
      encode to the same size; as many decode what call 500 has left in the buffer; and the last 500 again do both. */
  lemma AllGoodMeans(dev: Device, s: Sample)
    requires Sane(dev)
    ensures AllGood(dev, s) <==>
              && dev.hasDwt
              && RoundTrips(dev, s, 0)
              && (forall n: nat | 1 <= n <= 500 :: Encodes(dev, n))
              && (forall n: nat | 1 <= n <= 500 ::
                    Decodes(dev, s, n, dev.encode(500).buffer[..dev.encode(0).written]))
              && (forall n: nat | 501 <= n <= 1000 :: RoundTrips(dev, s, n))
  {
    EncodeLoopMeans(dev);
    DecodeLoopMeans(dev, s, Payload(dev));
    RoundTripLoopMeans(dev, s);
  }

  lemma OutcomeIsExact(dev: Device, s: Sample)
    requires Sane(dev)
    ensures OutcomeOf(dev, s) == Looped(0) <==> AllGood(dev, s)
  {
    NoFailuresMeansNoneBad(EncodeBad(dev));
    NoFailuresMeansNoneBad(DecodeBad(dev, s, Payload(dev)));
    NoFailuresMeansNoneBad(RoundTripBad(dev, s));
  }

  /** The published verdict is PASS if and only if nothing went wrong, and then no failure is recorded. */
  lemma PassIsExact(dev: Device, s: Sample, stack: seq<U32>, w: seq<U32>)
    requires Sane(dev) && Final(dev, OutcomeOf(dev, s), stack, w)
    ensures w[RESULT_CODE_AT] == RESULT_PASS <==> AllGood(dev, s)
    ensures w[RESULT_CODE_AT] == RESULT_PASS ==> w[FAILURES_AT] == 0 && w[ITERATION_COUNT_AT] == ITERATIONS
    ensures w[FAILURES_AT] <= 3 * ITERATIONS
    ensures w[RESULT_CODE_AT] == RESULT_FAIL_VALIDATION ==> w[FAILURES_AT] == Failures(dev, s) > 0
  {
    OutcomeIsExact(dev, s);
  }

  /** The result code of a finished record, in the numbers of the header, says where the run first went wrong. */
  lemma CodesMean(dev: Device, s: Sample, stack: seq<U32>, w: seq<U32>)
    requires Sane(dev) && Final(dev, OutcomeOf(dev, s), stack, w)
    ensures w[10] == 5 <==> !dev.hasDwt
    ensures w[10] == 2 <==> dev.hasDwt && dev.encode(0).status != StatusOk
    ensures w[10] == 3 <==> dev.hasDwt && dev.encode(0).status == StatusOk && DecodedBad(s, ProofDecode(dev))
    ensures w[10] == 4 <==> dev.hasDwt && dev.encode(0).status == StatusOk && !DecodedBad(s, ProofDecode(dev))
                            && Failures(dev, s) > 0
    ensures w[10] == 1 <==> AllGood(dev, s)
  {
    OutcomeIsExact(dev, s);
  }

  /** The identification and the stages of a finished record, in the numbers of the header: zero is a stage that
      was not reached, one a stage that succeeded, two one that failed. */
  lemma StagesMean(dev: Device, s: Sample, stack: seq<U32>, w: seq<U32>)
    requires Sane(dev) && Final(dev, OutcomeOf(dev, s), stack, w)
    ensures w[0] == 0x5142_4e31 && w[1] == 1 && w[2] == 2 && w[3] == 0
    ensures var encoded := dev.hasDwt && dev.encode(0).status == StatusOk;
            && w[4] == (if !dev.hasDwt then 0 else if encoded then 1 else 2)
            && w[5] == (if !encoded then 0 else if DecodedBad(s, ProofDecode(dev)) then 2 else 1)
            && w[6] == (if encoded && !DecodedBad(s, ProofDecode(dev)) then 1 else 0)
            && w[7] == (if dev.hasDwt then dev.statusWord(dev.encode(0).status) else 0)
            && w[8] == (if encoded then dev.statusWord(ProofDecode(dev).status) else 0)
            && w[9] == (if dev.hasDwt then dev.encode(0).written else 0)
            && w[11] == (if dev.hasDwt then 1 else 0)
            && w[13] == (if w[6] == 1 then 500 else 0)
            && w[14] == (if w[6] == 1 then Failures(dev, s) else 0)
  {
  }

  /** The aggregates of one loop describe its samples, and the 64-bit sum is exact. */
  lemma AggregatesAreSound(l: Loop, w: seq<U32>, deltas: seq<U32>)
    requires Recorded(l, w, deltas) && |deltas| == ITERATIONS
    ensures w[l.samples..l.samples + ITERATIONS] == deltas
    ensures w[l.min] in deltas && w[l.min + 1] in deltas
    ensures forall x | x in deltas :: w[l.min] <= x <= w[l.min + 1]
    ensures FieldAt(w, l.sum, Long) == SumOf(deltas)
    ensures ITERATIONS * w[l.min] <= SumOf(deltas) <= ITERATIONS * w[l.min + 1]
  {
    ExtremesAreAttained(deltas);
    SumIsBetween(deltas, MinOf(deltas), MaxOf(deltas));
  }

  /** The clock advances by less than 2^32 cycles between the two reads of each iteration. */
  ghost predicate ShortIterations(dev: Device, first: nat)
  {
    forall i: nat | i < ITERATIONS :: ElapsedIn(dev, first + 2 * i)
  }

  ghost predicate ElapsedIn(dev: Device, read: nat)
  {
    dev.clock(read) <= dev.clock(read + 1) < dev.clock(read) + TWO_32
  }

  /** True durations, from the unbounded clock. */
  function Elapsed(dev: Device, read: nat): int { dev.clock(read + 1) - dev.clock(read) }

  /** What the loops record are true durations, however often the 32-bit counter wrapped. */
  lemma SamplesAreElapsed(dev: Device, first: nat, i: nat)
    requires ShortIterations(dev, first) && i < ITERATIONS
    ensures Deltas(dev.clock, first, ITERATIONS)[i] == Elapsed(dev, first + 2 * i)
  {
    assert ElapsedIn(dev, first + 2 * i);
    DeltaIsElapsed(dev.clock, first + 2 * i);
  }

  // ----- the sample that the firmware ships -----

  const DEVICE_ID: seq<Byte> := [0x6E, 0x75, 0x63, 0x6C, 0x65, 0x6F, 0x2D, 0x68, 0x69, 0x6C, 0x2D, 0x30, 0x31]

  /** 24.5 in IEEE 754 binary32: 1.53125 times two to the fourth. */
  const TEMPERATURE_BITS: U32 := 0x41C4_0000

  predicate AllPresent(s: Sample)
  {
    && s.sequence.has && s.timestampMs.has && s.temperatureBits.has && s.batteryMv.has && s.calibrated.has
    && s.status.has && s.deviceId.has && s.rawPayload.has && s.readings.has
  }

  /** All fields are set and valid, and the temperature is a number. */
  predicate Complete(rt: Runtime, s: Sample)
  {
    AllPresent(s) && Encodable(rt, s) && !IsNan(s.temperatureBits.value)
  }

  /** Copies a text up to its terminating zero. */
  method CopyText(buffer: seq<Byte>, text: seq<Byte>) returns (copied: seq<Byte>, length: nat)
    requires |text| <= |buffer| && forall i | 0 <= i < |text| :: text[i] != 0
    ensures |copied| == |buffer| && length == |text| && copied[..length] == text
  {
    var terminated := text + [0];
    copied, length := buffer, 0;
    while terminated[length] != 0
      invariant 0 <= length <= |text| && |copied| == |buffer|
      invariant forall k | 0 <= k < length :: copied[k] == text[k]
      decreases |text| - length
    {
      copied := copied[length := terminated[length]];
      length := length + 1;
    }
  }

  lemma DeviceIdIsText(rt: Runtime)
    requires LawfulUtf8(rt)
    ensures |DEVICE_ID| == 13 && IsText(rt, DEVICE_ID)
    ensures forall i | 0 <= i < 13 :: DEVICE_ID[i] != 0
  {
  }

  method PopulateSample(rt: Runtime) returns (s: Sample)
    requires LawfulUtf8(rt)
    ensures Complete(rt, s) && Bounded(s)
    ensures s.sequence.value == 1001 && s.timestampMs.value == 1700000000123 && s.batteryMv.value == 3700
    ensures s.calibrated.value && s.status.value == 1
    ensures s.deviceId.data[..s.deviceId.length] == DEVICE_ID
    ensures s.rawPayload.data[..s.rawPayload.length] == [0xDE, 0xAD, 0xBE, 0xEF]
    ensures s.readings.data[..s.readings.length] == [-120, 0, 340, 4095]
  {
    s := ZeroSample();
    s := s.(sequence := Slot(true, 1001), timestampMs := Slot(true, 1700000000123),
            temperatureBits := Slot(true, TEMPERATURE_BITS), batteryMv := Slot(true, 3700),
            calibrated := Slot(true, true), status := Slot(true, 1));
    s := PopulateBuffers(s);
    SampleIsComplete(rt, s);
  }

  method PopulateBuffers(before: Sample) returns (s: Sample)
    ensures s == before.(deviceId := s.deviceId, rawPayload := s.rawPayload, readings := s.readings)
    ensures s.deviceId.has && s.deviceId.length == 13 && s.deviceId.data[..13] == DEVICE_ID
    ensures s.rawPayload.has && s.rawPayload.length == 4 && s.rawPayload.data[..4] == [0xDE, 0xAD, 0xBE, 0xEF]
    ensures s.readings.has && s.readings.length == 4 && s.readings.data[..4] == [-120, 0, 340, 4095]
  {
    assert forall i | 0 <= i < |DEVICE_ID| :: DEVICE_ID[i] != 0;
    var id, length := CopyText(before.deviceId.data, DEVICE_ID);
    var payload := CopyInto(before.rawPayload.data, [0xDE, 0xAD, 0xBE, 0xEF]);
    var readings := CopyInto(before.readings.data, [-120, 0, 340, 4095]);
    s := before.(deviceId := Buffer(true, id, length), rawPayload := Buffer(true, payload, 4),
                 readings := Buffer(true, readings, 4));
  }

  lemma SampleIsComplete(rt: Runtime, s: Sample)
    requires LawfulUtf8(rt) && AllPresent(s) && s.status.value == 1 && s.temperatureBits.value == TEMPERATURE_BITS
    requires s.deviceId.length == 13 && s.deviceId.data[..13] == DEVICE_ID
    requires s.rawPayload.length == 4 && s.readings.length == 4
    ensures Complete(rt, s) && Bounded(s)
  {
    DeviceIdIsText(rt);
  }

  /** The copy loops. */
  method CopyInto<T>(buffer: seq<T>, values: seq<T>) returns (copied: seq<T>)
    requires |values| <= |buffer|
    ensures copied == Overwrite(buffer, values)
  {
    copied := buffer;
    for i := 0 to |values|
      invariant |copied| == |buffer| && copied[..i] == values[..i] && copied[i..] == buffer[i..]
    {
      copied := copied[i := values[i]];
    }
  }
}
