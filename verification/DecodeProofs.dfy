/** The decoder inverts the encoder, and on arbitrary input means what the schema says field by field. */
module DecodeProofs {
  import opened Words
  import opened RuntimeContract
  import opened Codec
  import opened CodecProofs

  // ----- runs of the decoder -----

  /** Block `i` neither rejects nor breaks the invariant. */
  predicate Carries(blocks: (nat, View, Sample) -> Step, views: seq<View>, inv: (Sample, nat) -> bool, i: nat, n: Sample)
  {
    match Find(views, i)
    case Absent => inv(n, i + 1)
    case Present(v) => blocks(i, v, n).Stored? && inv(blocks(i, v, n).value, i + 1)
  }

  /** What every block carries holds of the value at the end of the run. */
  lemma {:induction false} RunCarries(blocks: (nat, View, Sample) -> Step, views: seq<View>,
                                      inv: (Sample, nat) -> bool, i: nat, acc: Sample)
    requires i <= FIELD_COUNT && inv(acc, i)
    requires forall j: nat, n: Sample {:trigger Carries(blocks, views, inv, j, n)} | j < FIELD_COUNT && inv(n, j) ::
               Carries(blocks, views, inv, j, n)
    ensures var r := DecodeFrom(blocks, views, i, acc); Accepted(r) && inv(r.value, FIELD_COUNT)
    decreases FIELD_COUNT - i
  {
    if i < FIELD_COUNT {
      assert Carries(blocks, views, inv, i, acc);
      match Find(views, i)
      case Absent => RunCarries(blocks, views, inv, i + 1, acc);
      case Present(v) => RunCarries(blocks, views, inv, i + 1, blocks(i, v, acc).value);
    }
  }

  /** The first block that rejects decides the outcome, whatever was stored before it. */
  lemma {:induction false} RunStops(blocks: (nat, View, Sample) -> Step, views: seq<View>,
                                    i: nat, acc: Sample, first: nat) returns (n: Sample)
    requires i <= first < FIELD_COUNT && Find(views, first).Present?
    requires forall j: nat, m: Sample | i <= j < first && Find(views, j).Present? ::
               blocks(j, Find(views, j).view, m).Stored?
    requires forall m: Sample :: blocks(first, Find(views, first).view, m).Rejected?
    ensures var step := blocks(first, Find(views, first).view, n);
            DecodeFrom(blocks, views, i, acc) == DecodeResult(step.status, step.value, true, step.at)
    decreases first - i
  {
    if i == first {
      n := acc;
    } else {
      match Find(views, i)
      case Absent => n := RunStops(blocks, views, i + 1, acc, first);
      case Present(v) => n := RunStops(blocks, views, i + 1, blocks(i, v, acc).value, first);
    }
  }

  // ----- round trip -----

  lemma UintFieldDecodes(rt: Runtime, s: Sample, i: nat, v: View, acc: Sample)
    requires LawfulUint(rt) && i in {0, 1, 2, 3, 5} && Has(s, i) && FieldStatus(rt, s, i) == StatusOk
    requires v.bytes == FieldBytes(rt, s, i) && NormalUpTo(s, acc, i)
    ensures var r := DecodeUintField(rt, i, v, acc); r.Stored? && NormalUpTo(s, r.value, i + 1)
  {
    CapacityValues();
    match i
    case 0 => assert rt.getUint(rt.putUint(4, s.sequence.value)) == Ok(s.sequence.value);
    case 1 => assert rt.getUint(rt.putUint(8, s.timestampMs.value)) == Ok(s.timestampMs.value);
    case 2 => assert rt.getUint(rt.putUint(4, s.temperatureBits.value)) == Ok(s.temperatureBits.value);
    case 3 => assert rt.getUint(rt.putUint(2, s.batteryMv.value)) == Ok(s.batteryMv.value);
    case _ => assert rt.getUint(rt.putUint(1, s.status.value)) == Ok(s.status.value);
  }

  lemma CalibratedDecodes(rt: Runtime, s: Sample, v: View, acc: Sample)
    requires LawfulBool(rt) && s.calibrated.has && v.bytes == rt.putBool(s.calibrated.value) && NormalUpTo(s, acc, 4)
    ensures var r := DecodeCalibrated(rt, v, acc); r.Stored? && NormalUpTo(s, r.value, 5)
  {
    if s.calibrated.value {
      assert rt.getBool(rt.putBool(true)) == Ok(true);
    } else {
      assert rt.getBool(rt.putBool(false)) == Ok(false);
    }
  }

  lemma BuffersDecode(rt: Runtime, s: Sample, i: nat, v: View, acc: Sample)
    requires i in {6, 7} && Has(s, i) && FieldStatus(rt, s, i) == StatusOk
    requires v.bytes == FieldBytes(rt, s, i) && NormalUpTo(s, acc, i)
    ensures var r := if i == 6 then DecodeDeviceId(rt, v, acc) else DecodeRawPayload(rt, v, acc);
            r.Stored? && NormalUpTo(s, r.value, i + 1)
  {
  }

  lemma {:induction false} ElementsReadBack(rt: Runtime, xs: seq<I16>, n: nat)
    requires LawfulInt16(rt) && n <= |xs|
    ensures |PutElements(rt, xs)| == 2 * |xs|
    ensures GetElements(rt, PutElements(rt, xs), n) == (xs[..n], StatusOk)
    decreases |xs|, n
  {
    ElementsLength(rt, xs);
    if n > 0 {
      ElementsReadBack(rt, xs, n - 1);
      ElementAt(rt, xs, n - 1);
      assert xs[..n] == xs[..n - 1] + [xs[n - 1]];
    }
  }

  lemma {:induction false} ElementAt(rt: Runtime, xs: seq<I16>, k: nat)
    requires LawfulInt16(rt) && k < |xs|
    ensures |PutElements(rt, xs)| == 2 * |xs|
    ensures PutElements(rt, xs)[2 * k..2 * k + 2] == rt.putInt16(xs[k])
  {
    ElementsLength(rt, xs);
    var front := xs[..|xs| - 1];
    ElementsLength(rt, front);
    if k < |front| {
      ElementAt(rt, front, k);
      assert PutElements(rt, xs)[2 * k..2 * k + 2] == PutElements(rt, front)[2 * k..2 * k + 2];
    } else {
      assert PutElements(rt, xs)[2 * k..2 * k + 2] == rt.putInt16(xs[k]);
    }
  }

  lemma ReadingsReadBack(rt: Runtime, xs: seq<I16>, v: View, acc: Sample)
    requires LawfulVaruint(rt) && LawfulInt16(rt)
    requires |xs| <= 4 && v.bytes == rt.putVaruint(|xs|) + PutElements(rt, xs)
    ensures DecodeReadings(rt, v, acc)
         == Stored(acc.(readings := Buffer(true, Overwrite(acc.readings.data, xs), |xs|)))
  {
    var count, elements := rt.putVaruint(|xs|), PutElements(rt, xs);
    assert rt.getVaruint(count + elements) == Ok(Varuint(|xs|, |count|));
    ElementsReadBack(rt, xs, |xs|);
    assert v.bytes[|count|..] == elements;
    assert xs[..|xs|] == xs;
  }

  lemma ReadingsAreNormal(s: Sample, acc: Sample, xs: seq<I16>)
    requires s.readings.has && s.readings.length <= 4 && xs == s.readings.data[..s.readings.length]
    requires NormalUpTo(s, acc, 8)
    ensures NormalUpTo(s, acc.(readings := Buffer(true, Overwrite(acc.readings.data, xs), |xs|)), 9)
  {
  }

  lemma ReadingsDecode(rt: Runtime, s: Sample, v: View, acc: Sample)
    requires LawfulVaruint(rt) && LawfulInt16(rt)
    requires s.readings.has && s.readings.length <= 4 && v.bytes == FieldBytes(rt, s, 8) && NormalUpTo(s, acc, 8)
    ensures var r := DecodeReadings(rt, v, acc); r.Stored? && NormalUpTo(s, r.value, 9)
  {
    var xs := s.readings.data[..s.readings.length];
    var r := DecodeReadings(rt, v, acc);
    assert r == Stored(acc.(readings := Buffer(true, Overwrite(acc.readings.data, xs), |xs|))) by {
      ReadingsReadBack(rt, xs, v, acc);
    }
    ReadingsAreNormal(s, acc, xs);
  }

  lemma FieldDecodes(rt: Runtime, s: Sample, i: nat, v: View, acc: Sample)
    requires Lawful(rt) && i < FIELD_COUNT && ItemOf(rt, s, i) == Put(v.bytes) && NormalUpTo(s, acc, i)
    ensures var r := DecodeField(rt, i, v, acc); r.Stored? && NormalUpTo(s, r.value, i + 1)
  {
    match i
    case 4 => CalibratedDecodes(rt, s, v, acc);
    case 6 => BuffersDecode(rt, s, i, v, acc);
    case 7 => BuffersDecode(rt, s, i, v, acc);
    case 8 => ReadingsDecode(rt, s, v, acc);
    case _ => UintFieldDecodes(rt, s, i, v, acc);
  }

  lemma SkippingKeepsNormal(s: Sample, acc: Sample, i: nat)
    requires i < FIELD_COUNT && !Has(s, i) && NormalUpTo(s, acc, i)
    ensures NormalUpTo(s, acc, i + 1)
  {
  }

  /** Whatever was encoded decodes, with no error and no offset, to the normal form of the sample. */
  lemma RoundTrip(rt: Runtime, s: Sample, capacity: nat)
    requires Lawful(rt) && Encode(rt, s, capacity).status == StatusOk
    ensures var r := Decode(rt, Encode(rt, s, capacity).bytes);
            Accepted(r) && NormalForm(s, r.value)
  {
    EncodeStatusIsExact(rt, s, capacity);
    NothingFailsWhenEncodable(rt, s);
    FirstFailureWins(Items(rt, s), 0);
    RecordHasSize(rt, s);
    RecordDecodes(rt, s, rt.parseRecord(Encode(rt, s, capacity).bytes).views);
  }

  /** The record holds exactly what the encoder put into it for field `i`. */
  predicate Holding(views: seq<View>, items: seq<Item>, i: nat)
    requires i < |items|
  {
    match Find(views, i)
    case Absent => items[i] == Skip
    case Present(v) => items[i] == Put(v.bytes)
  }

  lemma EncodedFieldDecodes(rt: Runtime, s: Sample, views: seq<View>, inv: (Sample, nat) -> bool, i: nat, n: Sample)
    requires Lawful(rt) && i < FIELD_COUNT && inv(n, i) && Holding(views, Items(rt, s), i)
    requires forall m: Sample, j: nat :: inv(m, j) == NormalUpTo(s, m, j)
    ensures Carries(Blocks(rt), views, inv, i, n)
  {
    assert Items(rt, s)[i] == ItemOf(rt, s, i);
    match Find(views, i)
    case Absent => SkippingKeepsNormal(s, n, i);
    case Present(v) => FieldDecodes(rt, s, i, v, n);
  }

  lemma HeldFieldsDecode(rt: Runtime, s: Sample, views: seq<View>, acc: Sample)
    requires Lawful(rt) && NormalUpTo(s, acc, 0)
    requires forall i: nat | i < FIELD_COUNT :: Holding(views, Items(rt, s), i)
    ensures var r := DecodeFrom(Blocks(rt), views, 0, acc); Accepted(r) && NormalForm(s, r.value)
  {
    var inv := (n: Sample, i: nat) => NormalUpTo(s, n, i);
    forall i: nat, n: Sample | i < FIELD_COUNT && inv(n, i) ensures Carries(Blocks(rt), views, inv, i, n) {
      assert Holding(views, Items(rt, s), i);
      EncodedFieldDecodes(rt, s, views, inv, i, n);
    }
    RunCarries(Blocks(rt), views, inv, 0, acc);
  }

  lemma RecordDecodes(rt: Runtime, s: Sample, views: seq<View>)
    requires Lawful(rt)
    requires FieldsFrom(Items(rt, s), 0).Ok? && SameFields(views, FieldsFrom(Items(rt, s), 0).value)
    ensures var r := DecodeFrom(Blocks(rt), views, 0, ZeroSample()); Accepted(r) && NormalForm(s, r.value)
  {
    forall i: nat | i < FIELD_COUNT ensures Holding(views, Items(rt, s), i) {
      FindsItem(Items(rt, s), 0, views, i);
    }
    HeldFieldsDecode(rt, s, views, ZeroSample());
  }

  // ----- the meaning of the decoder on arbitrary input -----

  /** Whether the bytes found for field `i` are acceptable. */
  predicate FieldValid(rt: Runtime, i: nat, b: seq<Byte>)
    requires i < FIELD_COUNT
  {
    match i
    case 0 => |b| == 4 && rt.getUint(b).Ok?
    case 1 => |b| == 8 && rt.getUint(b).Ok?
    case 2 => |b| == 4 && rt.getUint(b).Ok?
    case 3 => |b| == 2 && rt.getUint(b).Ok?
    case 4 => |b| == 1 && rt.getBool(b).Ok?
    case 5 => |b| == 1 && rt.getUint(b).Ok? && rt.getUint(b).value <= 2
    case 6 => |b| <= 16 && rt.validUtf8(b)
    case 7 => |b| <= 8
    case _ => ReadingsValid(rt, b)
  }

  /** A count of at most four, then exactly that many readable elements and nothing else. */
  predicate ReadingsValid(rt: Runtime, b: seq<Byte>)
  {
    match rt.getVaruint(b)
    case Err(_) => false
    case Ok(Varuint(count, used)) =>
      && count <= 4 && |b| == used + 2 * count
      && forall k | 0 <= k < count :: rt.getInt16(b[used + 2 * k..used + 2 * k + 2]).Ok?
  }

  lemma {:induction false} ElementsStatus(rt: Runtime, b: seq<Byte>, n: nat)
    requires LawfulInt16(rt) && 2 * n <= |b|
    ensures GetElements(rt, b, n).1 == StatusOk <==> forall k | 0 <= k < n :: rt.getInt16(b[2 * k..2 * k + 2]).Ok?
  {
    if n > 0 {
      ElementsStatus(rt, b, n - 1);
      assert 2 * (n - 1) == 2 * n - 2;
    }
  }

  predicate CountFits(rt: Runtime, b: seq<Byte>)
  {
    && rt.getVaruint(b).Ok? && rt.getVaruint(b).value.value <= 4
    && |b| == rt.getVaruint(b).value.used + 2 * rt.getVaruint(b).value.value
  }

  lemma ElementSlice(b: seq<Byte>, used: nat, k: nat)
    requires used + 2 * k + 2 <= |b|
    ensures b[used..][2 * k..2 * k + 2] == b[used + 2 * k..used + 2 * k + 2]
  {
  }

  lemma ElementsValid(rt: Runtime, b: seq<Byte>)
    requires LawfulInt16(rt) && CountFits(rt, b)
    ensures var Varuint(count, used) := rt.getVaruint(b).value;
            ReadingsValid(rt, b) <==> GetElements(rt, b[used..], count).1 == StatusOk
  {
    var Varuint(count, used) := rt.getVaruint(b).value;
    ElementsStatus(rt, b[used..], count);
    forall k | 0 <= k < count ensures b[used..][2 * k..2 * k + 2] == b[used + 2 * k..used + 2 * k + 2] {
      ElementSlice(b, used, k);
    }
  }

  lemma ReadingsStored(rt: Runtime, v: View, acc: Sample)
    requires LawfulVaruint(rt) && LawfulInt16(rt)
    ensures var r := DecodeReadings(rt, v, acc);
            && (r.Stored? <==> ReadingsValid(rt, v.bytes))
            && (r.Rejected? ==> r.status != StatusOk && v.offset <= r.at <= v.offset + |v.bytes|)
  {
    if CountFits(rt, v.bytes) {
      ElementsValid(rt, v.bytes);
    } else {
      assert !ReadingsValid(rt, v.bytes);
    }
  }

  /** A rejection carries an error and points into the bytes of the field. */
  predicate StepExact(r: Step, v: View, valid: bool)
  {
    && (r.Stored? <==> valid)
    && (r.Rejected? ==> r.status != StatusOk && v.offset <= r.at <= v.offset + |v.bytes|)
  }

  lemma UintBlockIsExact(rt: Runtime, i: nat, v: View, acc: Sample)
    requires LawfulUint(rt) && i in {0, 1, 2, 3, 5}
    ensures StepExact(DecodeUintField(rt, i, v, acc), v, FieldValid(rt, i, v.bytes))
  {
  }

  lemma SmallBlockIsExact(rt: Runtime, i: nat, v: View, acc: Sample)
    requires LawfulBool(rt) && rt.tooLong != StatusOk && i in {4, 6, 7}
    ensures var r := (match i case 4 => DecodeCalibrated(rt, v, acc)
                              case 6 => DecodeDeviceId(rt, v, acc)
                              case _ => DecodeRawPayload(rt, v, acc));
            StepExact(r, v, FieldValid(rt, i, v.bytes))
  {
  }

  /** A field block stores exactly the valid bytes; a rejection points into those bytes. */
  lemma BlockIsExact(rt: Runtime, i: nat, v: View, acc: Sample)
    requires Lawful(rt) && i < FIELD_COUNT
    ensures StepExact(DecodeField(rt, i, v, acc), v, FieldValid(rt, i, v.bytes))
  {
    match i
    case 8 => ReadingsStored(rt, v, acc);
    case 4 => SmallBlockIsExact(rt, i, v, acc);
    case 6 => SmallBlockIsExact(rt, i, v, acc);
    case 7 => SmallBlockIsExact(rt, i, v, acc);
    case _ => UintBlockIsExact(rt, i, v, acc);
  }

  /** Which error each violation of field `i` other than the readings is reported as; all are reported at its start. */
  predicate SimplyClassified(rt: Runtime, i: nat, b: seq<Byte>, status: Status)
  {
    var n := |b|;
    match i
    case 4 => if n != 1 then status == InvalidFieldLength else rt.getBool(b) == Err(status)
    case 6 => status == if n > 16 then rt.tooLong else InvalidUtf8
    case 7 => status == rt.tooLong
    case _ =>
      if i !in {0, 1, 2, 3, 5} then true
      else if n != Width(i) then status == InvalidFieldLength
      else if rt.getUint(b).Err? then rt.getUint(b) == Err(status)
      else i == 5 && status == UnknownEnumValue
  }

  /** Element `k` of the readings in the bytes from `used` on. */
  function ElementAtByte(rt: Runtime, b: seq<Byte>, used: nat, k: nat): Result<int>
    requires used + 2 * k + 2 <= |b|
  {
    rt.getInt16(b[used + 2 * k..used + 2 * k + 2])
  }

  /** The violations of the readings: the count at the start of the field, a wrong length just behind the
      count, and an unreadable element at that element, the first such. */
  ghost predicate ReadingsClassified(rt: Runtime, b: seq<Byte>, status: Status, at: nat)
  {
    match rt.getVaruint(b)
    case Err(e) => status == e && at == 0
    case Ok(Varuint(count, used)) =>
      if count > 4 then status == BoundsExceeded && at == 0
      else if |b| - used != 2 * count then status == InvalidFieldLength && at == used
      else exists k | 0 <= k < count :: FirstUnreadable(rt, b, used, count, k, status) && at == used + 2 * k
  }

  ghost predicate FirstUnreadable(rt: Runtime, b: seq<Byte>, used: nat, count: nat, k: nat, status: Status)
    requires |b| - used == 2 * count && k < count
  {
    && ElementAtByte(rt, b, used, k) == Err(status)
    && forall j | 0 <= j < k :: ElementAtByte(rt, b, used, j).Ok?
  }

  /** Which error each violation is reported as, and where in the input. */
  ghost predicate Classified(rt: Runtime, i: nat, v: View, status: Status, at: nat)
  {
    if i == 8 then at >= v.offset && ReadingsClassified(rt, v.bytes, status, at - v.offset)
    else at == v.offset && SimplyClassified(rt, i, v.bytes, status)
  }

  /** The element loop stops at the first unreadable element, with its status, having kept those before it. */
  lemma {:induction false} ElementsStopAt(rt: Runtime, b: seq<Byte>, n: nat) returns (k: nat)
    requires LawfulInt16(rt) && 2 * n <= |b| && GetElements(rt, b, n).1 != StatusOk
    ensures k < n && |GetElements(rt, b, n).0| == k
    ensures rt.getInt16(b[2 * k..2 * k + 2]) == Err(GetElements(rt, b, n).1)
    ensures forall j | 0 <= j < k :: rt.getInt16(b[2 * j..2 * j + 2]).Ok?
  {
    assert 2 * (n - 1) == 2 * n - 2;
    if GetElements(rt, b, n - 1).1 != StatusOk {
      k := ElementsStopAt(rt, b, n - 1);
    } else {
      k := n - 1;
      ElementsStatus(rt, b, n - 1);
    }
  }

  lemma UnreadableElement(rt: Runtime, b: seq<Byte>, used: nat, count: nat) returns (k: nat)
    requires LawfulInt16(rt) && used + 2 * count == |b| && GetElements(rt, b[used..], count).1 != StatusOk
    ensures k < count && |GetElements(rt, b[used..], count).0| == k
    ensures FirstUnreadable(rt, b, used, count, k, GetElements(rt, b[used..], count).1)
  {
    k := ElementsStopAt(rt, b[used..], count);
    forall j: nat | j <= k ensures b[used..][2 * j..2 * j + 2] == b[used + 2 * j..used + 2 * j + 2] {
      ElementSlice(b, used, j);
    }
  }

  lemma ReadingsRejectionIsClassified(rt: Runtime, v: View, acc: Sample)
    requires LawfulVaruint(rt) && LawfulInt16(rt) && DecodeReadings(rt, v, acc).Rejected?
    ensures var r := DecodeReadings(rt, v, acc); Classified(rt, 8, v, r.status, r.at)
  {
    if CountFits(rt, v.bytes) {
      var Varuint(count, used) := rt.getVaruint(v.bytes).value;
      var k := UnreadableElement(rt, v.bytes, used, count);
    }
  }

  lemma RejectionIsClassified(rt: Runtime, i: nat, v: View, acc: Sample)
    requires Lawful(rt) && i < FIELD_COUNT && DecodeField(rt, i, v, acc).Rejected?
    ensures var r := DecodeField(rt, i, v, acc); Classified(rt, i, v, r.status, r.at)
  {
    if i == 8 { ReadingsRejectionIsClassified(rt, v, acc); }
  }

  predicate FieldBad(rt: Runtime, views: seq<View>, i: nat)
    requires i < FIELD_COUNT
  {
    Find(views, i).Present? && !FieldValid(rt, i, Find(views, i).view.bytes)
  }

  lemma {:induction false} FoundIsThere(views: seq<View>, i: nat)
    ensures Find(views, i).Present? ==> Find(views, i).view in views && Find(views, i).view.index == i
  {
    if views != [] { FoundIsThere(views[1..], i); }
  }

  // What each field of a decoded sample is, in terms of the bytes found for it.

  predicate UintMeans(rt: Runtime, kept: bool, f: Lookup, n: Slot<int>)
  {
    if kept && f.Present? then rt.getUint(f.view.bytes).Ok? && n == Slot(true, rt.getUint(f.view.bytes).value)
    else n == Slot(false, 0)
  }

  predicate BoolMeans(rt: Runtime, kept: bool, f: Lookup, n: Slot<bool>)
  {
    if kept && f.Present? then rt.getBool(f.view.bytes).Ok? && n == Slot(true, rt.getBool(f.view.bytes).value)
    else n == Slot(false, false)
  }

  predicate Holds(n: Buffer<int>, size: nat, contents: seq<int>)
  {
    && |contents| == n.length <= size == |n.data|
    && forall k | 0 <= k < size :: n.data[k] == if k < n.length then contents[k] else 0
  }

  predicate BytesMean(kept: bool, f: Lookup, size: nat, n: Buffer<int>)
  {
    if kept && f.Present? then n.has && Holds(n, size, f.view.bytes) else !n.has && Holds(n, size, [])
  }

  predicate ReadingsMean(rt: Runtime, kept: bool, f: Lookup, n: Buffer<int>)
  {
    if kept && f.Present? then
      && n.has && n.length <= 4 && CountFits(rt, f.view.bytes) && n.length == rt.getVaruint(f.view.bytes).value.value
      && |n.data| == 4
      && forall k | 0 <= k < 4 :: ElementMeans(rt, f.view.bytes, rt.getVaruint(f.view.bytes).value.used, n, k)
    else !n.has && Holds(n, 4, [])
  }

  predicate ElementMeans(rt: Runtime, b: seq<Byte>, used: nat, n: Buffer<int>, k: nat)
    requires k < |n.data| && (k < n.length ==> used + 2 * k + 2 <= |b|)
  {
    if k < n.length then rt.getInt16(b[used + 2 * k..used + 2 * k + 2]) == Ok(n.data[k]) else n.data[k] == 0
  }

  /** Fields below `i` of `n` are what was found in the record, the others are zero. */
  predicate MeansUpTo(rt: Runtime, views: seq<View>, n: Sample, i: nat)
  {
    && UintMeans(rt, 0 < i, Find(views, 0), n.sequence)
    && UintMeans(rt, 1 < i, Find(views, 1), n.timestampMs)
    && UintMeans(rt, 2 < i, Find(views, 2), n.temperatureBits)
    && UintMeans(rt, 3 < i, Find(views, 3), n.batteryMv)
    && BoolMeans(rt, 4 < i, Find(views, 4), n.calibrated)
    && UintMeans(rt, 5 < i, Find(views, 5), n.status)
    && BytesMean(6 < i, Find(views, 6), 17, n.deviceId)
    && BytesMean(7 < i, Find(views, 7), 8, n.rawPayload)
    && ReadingsMean(rt, 8 < i, Find(views, 8), n.readings)
  }

  lemma {:induction false} ElementsAre(rt: Runtime, b: seq<Byte>, n: nat)
    requires LawfulInt16(rt) && 2 * n <= |b| && GetElements(rt, b, n).1 == StatusOk
    ensures |GetElements(rt, b, n).0| == n
    ensures forall k | 0 <= k < n :: rt.getInt16(b[2 * k..2 * k + 2]) == Ok(GetElements(rt, b, n).0[k])
  {
    if n > 0 {
      ElementsAre(rt, b, n - 1);
      assert 2 * (n - 1) == 2 * n - 2;
    }
  }

  lemma ReadingsStore(rt: Runtime, v: View, acc: Sample)
    requires LawfulVaruint(rt) && LawfulInt16(rt) && ReadingsValid(rt, v.bytes)
    ensures var Varuint(count, used) := rt.getVaruint(v.bytes).value;
            var elements := GetElements(rt, v.bytes[used..], count).0;
            var readings := Buffer(true, Overwrite(acc.readings.data, elements), count);
            DecodeReadings(rt, v, acc) == Stored(acc.(readings := readings))
  {
    ElementsValid(rt, v.bytes);
  }

  lemma ElementsMean(rt: Runtime, b: seq<Byte>, used: nat, count: nat, data: seq<I16>, elements: seq<I16>)
    requires LawfulInt16(rt) && count <= 4 == |data| && |b| == used + 2 * count
    requires forall k | 0 <= k < 4 :: data[k] == 0
    requires GetElements(rt, b[used..], count) == (elements, StatusOk)
    ensures |elements| == count
    ensures forall k | 0 <= k < 4 :: ElementMeans(rt, b, used, Buffer(true, Overwrite(data, elements), count), k)
  {
    ElementsAre(rt, b[used..], count);
    forall k | 0 <= k < 4 ensures ElementMeans(rt, b, used, Buffer(true, Overwrite(data, elements), count), k) {
      if k < count { assert b[used..][2 * k..2 * k + 2] == b[used + 2 * k..used + 2 * k + 2]; }
    }
  }

  lemma ReadingsMeaning(rt: Runtime, v: View, before: Buffer<I16>, elements: seq<I16>)
    requires LawfulVaruint(rt) && LawfulInt16(rt) && ReadingsValid(rt, v.bytes) && Holds(before, 4, [])
    requires var Varuint(count, used) := rt.getVaruint(v.bytes).value;
             elements == GetElements(rt, v.bytes[used..], count).0
    ensures |elements| == rt.getVaruint(v.bytes).value.value
    ensures ReadingsMean(rt, true, Present(v), Buffer(true, Overwrite(before.data, elements), |elements|))
  {
    var Varuint(count, used) := rt.getVaruint(v.bytes).value;
    ElementsValid(rt, v.bytes);
    ElementsMean(rt, v.bytes, used, count, before.data, elements);
  }

  lemma ReadingsBlockMeans(rt: Runtime, views: seq<View>, v: View, acc: Sample)
    requires LawfulVaruint(rt) && LawfulInt16(rt) && ReadingsValid(rt, v.bytes)
    requires Find(views, 8) == Present(v) && MeansUpTo(rt, views, acc, 8)
    ensures var r := DecodeReadings(rt, v, acc); r.Stored? && MeansUpTo(rt, views, r.value, 9)
  {
    ReadingsStore(rt, v, acc);
    var Varuint(count, used) := rt.getVaruint(v.bytes).value;
    ReadingsMeaning(rt, v, acc.readings, GetElements(rt, v.bytes[used..], count).0);
  }

  lemma SmallBlockMeans(rt: Runtime, views: seq<View>, i: nat, v: View, acc: Sample)
    requires i in {4, 6, 7} && Find(views, i) == Present(v) && FieldValid(rt, i, v.bytes) && MeansUpTo(rt, views, acc, i)
    ensures var r := (match i case 4 => DecodeCalibrated(rt, v, acc)
                              case 6 => DecodeDeviceId(rt, v, acc)
                              case _ => DecodeRawPayload(rt, v, acc));
            r.Stored? && MeansUpTo(rt, views, r.value, i + 1)
  {
  }

  lemma UintBlockMeans(rt: Runtime, views: seq<View>, i: nat, v: View, acc: Sample)
    requires LawfulUint(rt) && i in {0, 1, 2, 3, 5} && Find(views, i) == Present(v) && FieldValid(rt, i, v.bytes)
    requires MeansUpTo(rt, views, acc, i)
    ensures var r := DecodeUintField(rt, i, v, acc); r.Stored? && MeansUpTo(rt, views, r.value, i + 1)
  {
  }

  lemma BlockMeans(rt: Runtime, views: seq<View>, i: nat, v: View, acc: Sample)
    requires Lawful(rt) && i < FIELD_COUNT && Find(views, i) == Present(v) && FieldValid(rt, i, v.bytes)
    requires MeansUpTo(rt, views, acc, i)
    ensures var r := DecodeField(rt, i, v, acc); r.Stored? && MeansUpTo(rt, views, r.value, i + 1)
  {
    match i
    case 8 => ReadingsBlockMeans(rt, views, v, acc);
    case 4 => SmallBlockMeans(rt, views, i, v, acc);
    case 6 => SmallBlockMeans(rt, views, i, v, acc);
    case 7 => SmallBlockMeans(rt, views, i, v, acc);
    case _ => UintBlockMeans(rt, views, i, v, acc);
  }

  lemma SkippingMeans(rt: Runtime, views: seq<View>, i: nat, acc: Sample)
    requires i < FIELD_COUNT && Find(views, i) == Absent && MeansUpTo(rt, views, acc, i)
    ensures MeansUpTo(rt, views, acc, i + 1)
  {
  }

  lemma GoodFieldsAreRead(rt: Runtime, views: seq<View>)
    requires Lawful(rt) && forall j: nat | j < FIELD_COUNT :: !FieldBad(rt, views, j)
    ensures var r := DecodeFrom(Blocks(rt), views, 0, ZeroSample());
            Accepted(r) && MeansUpTo(rt, views, r.value, FIELD_COUNT)
  {
    var inv := Meaning(rt, views);
    forall i: nat, n: Sample | i < FIELD_COUNT && inv(n, i) ensures Carries(Blocks(rt), views, inv, i, n) {
      GoodFieldIsRead(rt, views, i, n);
    }
    NothingReadYet(rt, views, ZeroSample());
    RunCarries(Blocks(rt), views, inv, 0, ZeroSample());
  }

  function Meaning(rt: Runtime, views: seq<View>): (Sample, nat) -> bool
  {
    (n: Sample, i: nat) => MeansUpTo(rt, views, n, i)
  }

  lemma NothingReadYet(rt: Runtime, views: seq<View>, n: Sample)
    requires n == ZeroSample()
    ensures Meaning(rt, views)(n, 0)
  {
  }

  lemma GoodFieldIsRead(rt: Runtime, views: seq<View>, i: nat, n: Sample)
    requires Lawful(rt) && i < FIELD_COUNT && !FieldBad(rt, views, i) && Meaning(rt, views)(n, i)
    ensures Carries(Blocks(rt), views, Meaning(rt, views), i, n)
  {
    match Find(views, i)
    case Absent => SkippingMeans(rt, views, i, n);
    case Present(v) => BlockMeans(rt, views, i, v, n);
  }

  lemma FirstBadFieldDecides(rt: Runtime, views: seq<View>, first: nat)
    requires Lawful(rt) && first < FIELD_COUNT && FieldBad(rt, views, first)
    requires forall j: nat | j < first :: !FieldBad(rt, views, j)
    ensures var r, v := DecodeFrom(Blocks(rt), views, 0, ZeroSample()), Find(views, first).view;
            && r.hasOffset && StepExact(Rejected(r.status, r.offset, r.value), v, false)
            && Classified(rt, first, v, r.status, r.offset)
  {
    var blocks := Blocks(rt);
    forall j: nat, m: Sample | j <= first && Find(views, j).Present?
      ensures StepExact(blocks(j, Find(views, j).view, m), Find(views, j).view, !FieldBad(rt, views, j))
    {
      BlockIsExact(rt, j, Find(views, j).view, m);
    }
    forall j: nat, m: Sample | j < first && Find(views, j).Present?
      ensures blocks(j, Find(views, j).view, m).Stored?
    {
      assert StepExact(blocks(j, Find(views, j).view, m), Find(views, j).view, !FieldBad(rt, views, j));
    }
    forall m: Sample ensures blocks(first, Find(views, first).view, m).Rejected? {
      assert StepExact(blocks(first, Find(views, first).view, m), Find(views, first).view, false);
    }
    var n := RunStops(blocks, views, 0, ZeroSample(), first);
    assert StepExact(blocks(first, Find(views, first).view, n), Find(views, first).view, false);
    RejectionIsClassified(rt, first, Find(views, first).view, n);
  }

  lemma {:induction false} LeastBadField(rt: Runtime, views: seq<View>, i: nat) returns (first: nat)
    requires i <= FIELD_COUNT
    ensures i <= first <= FIELD_COUNT && (forall j: nat | i <= j < first :: !FieldBad(rt, views, j))
    ensures first < FIELD_COUNT ==> FieldBad(rt, views, first)
    decreases FIELD_COUNT - i
  {
    first := i;
    if i < FIELD_COUNT && !FieldBad(rt, views, i) { first := LeastBadField(rt, views, i + 1); }
  }

  predicate Acceptable(rt: Runtime, input: seq<Byte>)
  {
    var p := rt.parseRecord(input);
    p.Parsed? && p.recordId == 1 && forall j: nat | j < FIELD_COUNT :: !FieldBad(rt, p.views, j)
  }

  /** Decoding is total and exact: it accepts the acceptable inputs and no others, an accepted sample
      is field by field what the record contains, and any reported offset lies within the input. */
  lemma DecodeIsExact(rt: Runtime, input: seq<Byte>)
    requires Lawful(rt)
    ensures var r := Decode(rt, input);
            && (r.status == StatusOk <==> Acceptable(rt, input))
            && (r.status == StatusOk ==> Accepted(r) && MeansUpTo(rt, rt.parseRecord(input).views, r.value, FIELD_COUNT))
            && (r.hasOffset ==> r.offset <= |input|)
            && (r.status != StatusOk && !r.hasOffset ==> r.status == UnsupportedFieldCount)
  {
    var p := rt.parseRecord(input);
    if p.Parsed? && p.recordId == 1 {
      var first := LeastBadField(rt, p.views, 0);
      if first < FIELD_COUNT {
        FirstBadFieldDecides(rt, p.views, first);
        FoundIsThere(p.views, first);
      } else {
        GoodFieldsAreRead(rt, p.views);
      }
    }
  }

  /** When the container is sound, the error is about the bad field of lowest index and points into it. */
  lemma DecodeReportsFirstBadField(rt: Runtime, input: seq<Byte>, first: nat)
    requires Lawful(rt) && rt.parseRecord(input).Parsed? && rt.parseRecord(input).recordId == 1
    requires first < FIELD_COUNT && FieldBad(rt, rt.parseRecord(input).views, first)
    requires forall j: nat | j < first :: !FieldBad(rt, rt.parseRecord(input).views, j)
    ensures var r, v := Decode(rt, input), Find(rt.parseRecord(input).views, first).view;
            && r.status != StatusOk && r.hasOffset && v.offset <= r.offset <= v.offset + |v.bytes|
            && Classified(rt, first, v, r.status, r.offset)
  {
    FirstBadFieldDecides(rt, rt.parseRecord(input).views, first);
  }

  // ----- re-encoding -----

  lemma MeaningIsEncodable(rt: Runtime, views: seq<View>, n: Sample)
    requires MeansUpTo(rt, views, n, FIELD_COUNT)
    requires forall j: nat | j < FIELD_COUNT :: !FieldBad(rt, views, j)
    ensures Encodable(rt, n) && NormalForm(n, n)
  {
    assert !FieldBad(rt, views, 5) && !FieldBad(rt, views, 6) && !FieldBad(rt, views, 7) && !FieldBad(rt, views, 8);
    forall k | 0 <= k < 4 && n.readings.length <= k ensures n.readings.data[k] == 0 {
      if n.readings.has {
        var b := Find(views, 8).view.bytes;
        assert ElementMeans(rt, b, rt.getVaruint(b).value.used, n.readings, k);
      }
    }
    if n.deviceId.has {
      assert n.deviceId.data[..n.deviceId.length] == Find(views, 6).view.bytes;
    }
  }

  /** Every accepted input decodes to a sample that can be encoded again, and does not change any further. */
  lemma ReencodingIsAFixpoint(rt: Runtime, input: seq<Byte>, capacity: nat)
    requires Lawful(rt) && Decode(rt, input).status == StatusOk
    ensures var n := Decode(rt, input).value;
            && Encodable(rt, n)
            && (EncodedSize(rt, n) <= capacity ==>
                  && Encode(rt, n, capacity).status == StatusOk
                  && Decode(rt, Encode(rt, n, capacity).bytes) == DecodeResult(StatusOk, n, false, 0))
  {
    var n := Decode(rt, input).value;
    DecodeIsExact(rt, input);
    MeaningIsEncodable(rt, rt.parseRecord(input).views, n);
    EncodeStatusIsExact(rt, n, capacity);
    if EncodedSize(rt, n) <= capacity {
      RoundTrip(rt, n, capacity);
      NormalFormIsUnique(n, n, Decode(rt, Encode(rt, n, capacity).bytes).value);
    }
  }

  /** What a bad container leads to: the parser's own status and offset, but no offset when there are too many
      fields; a record of another kind is refused at offset zero; and nothing has been decoded. */
  lemma ContainerErrorsAreReported(rt: Runtime, input: seq<Byte>)
    requires Lawful(rt)
    ensures var p, r := rt.parseRecord(input), Decode(rt, input);
            && (p.Malformed? ==> r.status == p.status && r.value == ZeroSample())
            && (p.Malformed? && p.status != UnsupportedFieldCount ==> r.hasOffset && r.offset == p.offset)
            && (p.Malformed? && p.status == UnsupportedFieldCount ==> !r.hasOffset && r.offset == 0)
            && (p.Parsed? && p.recordId != 1 ==>
                  r == DecodeResult(UnexpectedRecordId, ZeroSample(), true, 0))
  {
  }
}
