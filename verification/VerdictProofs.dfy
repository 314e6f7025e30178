/** The codec under the benchmark: a correct codec passes exactly on complete, valid samples. */
module VerdictProofs {
  import opened Words
  import opened RuntimeContract
  import opened Codec
  import opened CodecProofs
  import opened DecodeProofs
  import opened BenchRecord
  import opened Firmware
  import opened FirmwareProofs

  /** Every call of the device's codec does what the generated codec computes for sample `s`. */
  ghost predicate Faithful(dev: Device, rt: Runtime, s: Sample)
    requires Lawful(rt) && Sane(dev)
  {
    && (forall n: nat :: FaithfulEncode(dev.encode(n), Encode(rt, s, BUFFER_CAPACITY)))
    && (forall n: nat, b: seq<Byte> :: dev.decode(n, b) == Decode(rt, b))
  }

  predicate FaithfulEncode(e: EncodeCall, r: EncodeResult)
    requires e.written <= |e.buffer|
  {
    e.status == r.status && Written(e) == r.bytes
  }

  /** What comes back over the wire matches the sample unless a field is absent or the temperature is NaN. */
  lemma NormalFormMatches(s: Sample, n: Sample)
    requires NormalForm(s, n)
    ensures Matches(s, n) <==> AllPresent(s) && !IsNan(s.temperatureBits.value)
  {
  }

  /** The sample with all its fields taken to be present. */
  function AllMarked(s: Sample): Sample
  {
    s.(sequence := s.sequence.(has := true), timestampMs := s.timestampMs.(has := true),
       temperatureBits := s.temperatureBits.(has := true), batteryMv := s.batteryMv.(has := true),
       calibrated := s.calibrated.(has := true), status := s.status.(has := true),
       deviceId := s.deviceId.(has := true), rawPayload := s.rawPayload.(has := true),
       readings := s.readings.(has := true))
  }

  /** The check compares everything: it passes if and only if all fields were decoded and the two samples have the
      same normal form, but for the temperature, which is compared as a float. */
  lemma MatchIsSameContents(s: Sample, d: Sample, m: Sample, n: Sample)
    requires Bounded(s) && NormalForm(AllMarked(s), m) && NormalForm(d, n)
    ensures Matches(s, d) <==>
              && AllPresent(d)
              && FloatEq(d.temperatureBits.value, s.temperatureBits.value)
              && n == m.(temperatureBits := d.temperatureBits)
  {
    if AllPresent(d) {
      BufferMatch(s.deviceId, d.deviceId, m.deviceId, n.deviceId);
      BufferMatch(s.rawPayload, d.rawPayload, m.rawPayload, n.rawPayload);
      BufferMatch(s.readings, d.readings, m.readings, n.readings);
    }
  }

  lemma BufferMatch(s: Buffer<int>, d: Buffer<int>, m: Buffer<int>, n: Buffer<int>)
    requires d.has && |s.data| == |d.data| && s.length <= |s.data|
    requires NormalBuffer(true, s.(has := true), m) && NormalBuffer(true, d, n)
    ensures SameContents(s, d) <==> n == m
  {
    if SameContents(s, d) {
      assert n.data == m.data;
    }
    if n == m {
      forall k | 0 <= k < s.length ensures d.data[k] == s.data[k] { assert n.data[k] == m.data[k]; }
    }
  }

  /** A NaN comes back bit for bit, and is refused all the same. */
  lemma NanSurvivesAndIsRefused(rt: Runtime, s: Sample, capacity: nat)
    requires Lawful(rt) && AllPresent(s) && IsNan(s.temperatureBits.value)
    requires Encodable(rt, s) && EncodedSize(rt, s) <= capacity
    ensures var r := Decode(rt, Encode(rt, s, capacity).bytes);
            && Accepted(r) && r.value.temperatureBits == s.temperatureBits
            && !Matches(s, r.value)
    ensures IsNan(0x7FC0_0000)
  {
    EncodeStatusIsExact(rt, s, capacity);
    RoundTrip(rt, s, capacity);
    NormalFormMatches(s, Decode(rt, Encode(rt, s, capacity).bytes).value);
  }

  /** With a correct codec all 1501 checks agree: they pass if and only if the sample is complete, valid,
      fits the buffer and has a temperature that is a number. A NaN survives the trip but fails the check. */
  lemma CorrectCodecVerdict(dev: Device, rt: Runtime, s: Sample)
    requires Lawful(rt) && Sane(dev) && Faithful(dev, rt, s)
    ensures AllGood(dev, s) <==> dev.hasDwt && Complete(rt, s) && EncodedSize(rt, s) <= BUFFER_CAPACITY
  {
    var r := Encode(rt, s, BUFFER_CAPACITY);
    EncodeStatusIsExact(rt, s, BUFFER_CAPACITY);
    assert FaithfulEncode(dev.encode(0), r);
    if r.status == StatusOk {
      RoundTrip(rt, s, BUFFER_CAPACITY);
      NormalFormMatches(s, Decode(rt, r.bytes).value);
      assert FaithfulEncode(dev.encode(ITERATIONS), r);
      assert |Written(dev.encode(0))| == |r.bytes|;
      assert Payload(dev) == r.bytes;
      AllAlike(dev, rt, s, r);
    }
  }

  lemma AllAlike(dev: Device, rt: Runtime, s: Sample, r: EncodeResult)
    requires Lawful(rt) && Sane(dev) && Faithful(dev, rt, s) && r == Encode(rt, s, BUFFER_CAPACITY)
    requires r.status == StatusOk
    ensures NoneBad(EncodeBad(dev))
    ensures !DecodedBad(s, Decode(rt, r.bytes)) ==> NoneBad(DecodeBad(dev, s, r.bytes)) && NoneBad(RoundTripBad(dev, s))
  {
    forall i: nat | i < ITERATIONS
      ensures !EncodeBad(dev)(i)
      ensures !DecodedBad(s, Decode(rt, r.bytes)) ==> !DecodeBad(dev, s, r.bytes)(i) && !RoundTripBad(dev, s)(i)
    {
      EncodesAlike(dev, r, i);
      DecodesAlike(dev, rt, s, r, i);
    }
  }

  lemma CallsAlike(d: EncodeCall, e: EncodeCall, r: EncodeResult)
    requires d.written <= |d.buffer| && e.written <= |e.buffer|
    requires FaithfulEncode(d, r) && FaithfulEncode(e, r) && r.status == StatusOk
    ensures !EncodedBad(e, d)
  {
    assert |Written(d)| == d.written && |Written(e)| == e.written;
  }

  lemma EncodesAlike(dev: Device, r: EncodeResult, i: nat)
    requires Sane(dev) && r.status == StatusOk && forall n: nat :: FaithfulEncode(dev.encode(n), r)
    ensures !EncodeBad(dev)(i)
  {
    CallsAlike(dev.encode(0), dev.encode(1 + i), r);
  }

  lemma DecodesAlike(dev: Device, rt: Runtime, s: Sample, r: EncodeResult, i: nat)
    requires Lawful(rt) && Sane(dev) && Faithful(dev, rt, s) && r == Encode(rt, s, BUFFER_CAPACITY)
    requires r.status == StatusOk
    ensures DecodeBad(dev, s, r.bytes)(i) == RoundTripBad(dev, s)(i) == DecodedBad(s, Decode(rt, r.bytes))
  {
    assert FaithfulEncode(dev.encode(1 + ITERATIONS + i), r);
  }

  /** The sample that the firmware ships passes on any correct codec that encodes it within the buffer. */
  method ShippedSamplePasses(rt: Runtime, ghost dev: Device) returns (s: Sample)
    requires Lawful(rt) && Sane(dev) && dev.hasDwt
    ensures Faithful(dev, rt, s) && EncodedSize(rt, s) <= BUFFER_CAPACITY ==> OutcomeOf(dev, s) == Looped(0)
  {
    s := PopulateSample(rt);
    if Faithful(dev, rt, s) {
      CorrectCodecVerdict(dev, rt, s);
    }
    OutcomeIsExact(dev, s);
  }
}
