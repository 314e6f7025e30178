/** The benchmark on the stand-in runtime: the hypotheses of the verdict theorems can all be met. */
module StandInRun {
  import opened Words
  import opened RuntimeContract
  import opened Codec
  import opened CodecProofs
  import opened Firmware
  import opened FirmwareProofs
  import opened VerdictProofs
  import StandIn

  lemma {:induction false} BodyIsSmall(fields: seq<Field>)
    requires forall i | 0 <= i < |fields| :: |fields[i].bytes| <= LONGEST_FIELD
    ensures StandIn.BodySize(Shape(fields)) <= (2 + LONGEST_FIELD) * |fields|
  {
    if fields != [] {
      BodyIsSmall(fields[1..]);
      assert Shape(fields)[1..] == Shape(fields[1..]);
    }
  }

  /** Nine short fields always fit the buffer. */
  lemma EncodableFits(s: Sample)
    requires Encodable(StandIn.StandInRuntime(), s)
    ensures EncodedSize(StandIn.StandInRuntime(), s) <= BUFFER_CAPACITY
  {
    var rt := StandIn.StandInRuntime();
    var items := Items(rt, s);
    StandIn.RuntimeIsLawful();
    NothingFailsWhenEncodable(rt, s);
    FirstFailureWins(items, 0);
    ItemsAreShort(rt, s);
    FieldsAreStorable(items, 0);
    EstimateIsExact(rt, s);
    var fields := FieldsFrom(items, 0).value;
    if fields != [] { StandIn.StrictlyIncreasing(fields, |fields| - 1); }
    BodyIsSmall(fields);
  }

  function Padded(bytes: seq<Byte>): (buffer: seq<Byte>)
    requires |bytes| <= BUFFER_CAPACITY
    ensures |buffer| == BUFFER_CAPACITY && buffer[..|bytes|] == bytes
  {
    bytes + seq(BUFFER_CAPACITY - |bytes|, i => 0)
  }

  /** One call of the generated encoder on this runtime. */
  ghost function EncodeOn(rt: Runtime, s: Sample): EncodeCall
    requires Lawful(rt)
  {
    var r := Encode(rt, s, BUFFER_CAPACITY);
    EncodeStatusIsExact(rt, s, BUFFER_CAPACITY);
    EncodeCall(r.status, |r.bytes|, Padded(r.bytes))
  }

  ghost function DecodeOn(rt: Runtime): (nat, seq<Byte>) -> DecodeResult
  {
    (n: nat, b: seq<Byte>) => if Lawful(rt) then Decode(rt, b) else DecodeResult(StatusOk, ZeroSample(), false, 0)
  }

  /** A microcontroller with a counter, on which the generated codec runs with this runtime. */
  ghost function DeviceOn(rt: Runtime, s: Sample, clock: nat -> nat): Device
    requires Lawful(rt)
  {
    var e := EncodeOn(rt, s);
    Device(true, clock, n => e, DecodeOn(rt), status => if status == StatusOk then 0 else 1)
  }

  lemma DeviceIsFaithful(rt: Runtime, s: Sample, clock: nat -> nat)
    requires Lawful(rt)
    ensures Sane(DeviceOn(rt, s, clock)) && Faithful(DeviceOn(rt, s, clock), rt, s)
  {
    var dev := DeviceOn(rt, s, clock);
    assert FaithfulEncode(EncodeOn(rt, s), Encode(rt, s, BUFFER_CAPACITY));
    forall n: nat ensures dev.encode(n) == EncodeOn(rt, s) {}
    forall n: nat, b: seq<Byte> ensures dev.decode(n, b) == Decode(rt, b) { assert dev.decode(n, b) == DecodeOn(rt)(n, b); }
  }

  /** On this runtime the run of every sample ends as the theorems say, without any further condition:
      all 1501 checks pass if and only if the sample is complete, valid and free of NaN. */
  lemma StandInVerdict(s: Sample, clock: nat -> nat)
    ensures Lawful(StandIn.StandInRuntime())
    ensures Sane(DeviceOn(StandIn.StandInRuntime(), s, clock))
    ensures OutcomeOf(DeviceOn(StandIn.StandInRuntime(), s, clock), s) == Looped(0)
       <==> Complete(StandIn.StandInRuntime(), s)
  {
    var rt := StandIn.StandInRuntime();
    StandIn.RuntimeIsLawful();
    var dev := DeviceOn(rt, s, clock);
    DeviceIsFaithful(rt, s, clock);
    CorrectCodecVerdict(dev, rt, s);
    OutcomeIsExact(dev, s);
    if Complete(rt, s) { EncodableFits(s); }
  }
}
