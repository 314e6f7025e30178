/** What the codec promises: exact status, round trip, a total decoder with a per-field meaning. */
module CodecProofs {
  import opened Words
  import opened RuntimeContract
  import opened Codec

  /** The conditions the schema puts on a sample: the enumeration, the bounds, the text encoding. */
  predicate Encodable(rt: Runtime, s: Sample)
  {
    && (s.status.has ==> s.status.value <= 2)
    && (s.deviceId.has ==> s.deviceId.length <= 16 && rt.validUtf8(s.deviceId.data[..s.deviceId.length]))
    && (s.rawPayload.has ==> s.rawPayload.length <= 8)
    && (s.readings.has ==> s.readings.length <= 4)
  }

  // ----- normal forms -----

  /** `n` is `s` when `kept` and present, and zero otherwise. */
  predicate NormalSlot(kept: bool, s: Slot<int>, n: Slot<int>)
  {
    n == if kept && s.has then s else Slot(false, 0)
  }

  predicate NormalBuffer(kept: bool, s: Buffer<int>, n: Buffer<int>)
  {
    && n.has == (kept && s.has)
    && n.length == (if n.has then s.length else 0)
    && |n.data| == |s.data|
    && forall k | 0 <= k < |n.data| :: n.data[k] == if k < n.length then s.data[k] else 0
  }

  /** Fields below `i` of `n` are those of `s`; every absent field, buffer tail and later field is zero. */
  predicate NormalUpTo(s: Sample, n: Sample, i: nat)
  {
    && NormalSlot(0 < i, s.sequence, n.sequence)
    && NormalSlot(1 < i, s.timestampMs, n.timestampMs)
    && NormalSlot(2 < i, s.temperatureBits, n.temperatureBits)
    && NormalSlot(3 < i, s.batteryMv, n.batteryMv)
    && n.calibrated == (if 4 < i && s.calibrated.has then s.calibrated else Slot(false, false))
    && NormalSlot(5 < i, s.status, n.status)
    && NormalBuffer(6 < i, s.deviceId, n.deviceId)
    && NormalBuffer(7 < i, s.rawPayload, n.rawPayload)
    && NormalBuffer(8 < i, s.readings, n.readings)
  }

  /** `n` is what is left of `s` after a trip over the wire. */
  predicate NormalForm(s: Sample, n: Sample)
  {
    NormalUpTo(s, n, FIELD_COUNT)
  }

  lemma NormalFormIsUnique(s: Sample, m: Sample, n: Sample)
    requires NormalForm(s, m) && NormalForm(s, n)
    ensures m == n
  {
    assert m.deviceId.data == n.deviceId.data;
    assert m.rawPayload.data == n.rawPayload.data;
    assert m.readings.data == n.readings.data;
  }

  // ----- encoding -----

  lemma {:induction false} ElementsLength(rt: Runtime, xs: seq<I16>)
    requires LawfulInt16(rt)
    ensures |PutElements(rt, xs)| == 2 * |xs|
  {
    if xs != [] { ElementsLength(rt, xs[..|xs| - 1]); }
  }

  lemma FieldIsShort(rt: Runtime, s: Sample, i: nat)
    requires Lawful(rt) && i < FIELD_COUNT && FieldStatus(rt, s, i) == StatusOk
    ensures |FieldBytes(rt, s, i)| <= LONGEST_FIELD
  {
    CapacityValues();
    match i
    case 0 => assert |rt.putUint(4, s.sequence.value)| == 4;
    case 1 => assert |rt.putUint(8, s.timestampMs.value)| == 8;
    case 2 => assert |rt.putUint(4, s.temperatureBits.value)| == 4;
    case 3 => assert |rt.putUint(2, s.batteryMv.value)| == 2;
    case 4 => if s.calibrated.value { assert |rt.putBool(true)| == 1; } else { assert |rt.putBool(false)| == 1; }
    case 5 => assert |rt.putUint(1, s.status.value)| == 1;
    case 8 => ElementsLength(rt, s.readings.data[..s.readings.length]);
    case _ =>
  }

  lemma PrependStorable(f: Field, rest: seq<Field>)
    requires Storable(rest) && f.index < FIELD_COUNT && |f.bytes| <= LONGEST_FIELD
    requires forall r | r in rest :: f.index < r.index
    ensures Storable([f] + rest)
  {
    var all := [f] + rest;
    forall i, j | 0 <= i < j < |all| ensures all[i].index < all[j].index {
      assert all[j] == rest[j - 1] && rest[j - 1] in rest;
      if i > 0 { assert all[i] == rest[i - 1]; }
    }
  }

  ghost predicate ShortItems(items: seq<Item>)
  {
    && |items| <= FIELD_COUNT
    && forall i | 0 <= i < |items| && items[i].Put? :: |items[i].bytes| <= LONGEST_FIELD
  }

  lemma {:induction false} FieldsAreStorable(items: seq<Item>, i: nat)
    requires i <= |items| && ShortItems(items) && FieldsFrom(items, i).Ok?
    ensures Storable(FieldsFrom(items, i).value)
    ensures forall f | f in FieldsFrom(items, i).value :: i <= f.index
    decreases |items| - i
  {
    if i < |items| {
      FieldsAreStorable(items, i + 1);
      if items[i].Put? {
        PrependStorable(Field(i, items[i].bytes), FieldsFrom(items, i + 1).value);
      }
    }
  }

  /** The fields are produced exactly when no item fails, and otherwise the first failure is reported. */
  lemma {:induction false} FirstFailureWins(items: seq<Item>, i: nat)
    requires i <= |items|
    ensures FieldsFrom(items, i).Ok? <==> forall j | i <= j < |items| :: !items[j].Fail?
    ensures forall j | i <= j < |items| && items[j].Fail? && (forall k | i <= k < j :: !items[k].Fail?) ::
              FieldsFrom(items, i) == Err(items[j].status)
    decreases |items| - i
  {
    if i < |items| { FirstFailureWins(items, i + 1); }
  }

  /** Looking up an index in a parsed record finds exactly the item that was put there. */
  lemma {:induction false} FindsItem(items: seq<Item>, i: nat, views: seq<View>, j: nat)
    requires i <= |items| && FieldsFrom(items, i).Ok? && SameFields(views, FieldsFrom(items, i).value)
    ensures match Find(views, j)
            case Present(v) => i <= j < |items| && items[j] == Put(v.bytes)
            case Absent => !(i <= j < |items|) || items[j] == Skip
    decreases |items| - i
  {
    if i < |items| {
      if items[i].Put? {
        var rest := FieldsFrom(items, i + 1).value;
        forall k | 0 <= k < |rest| ensures views[1..][k].index == rest[k].index && views[1..][k].bytes == rest[k].bytes {
          assert FieldsFrom(items, i).value[k + 1] == rest[k] && views[1..][k] == views[k + 1];
        }
        FindsItem(items, i + 1, views[1..], j);
      } else {
        FindsItem(items, i + 1, views, j);
      }
    }
  }

  lemma ItemsAreShort(rt: Runtime, s: Sample)
    requires Lawful(rt)
    ensures ShortItems(Items(rt, s))
  {
    forall i | 0 <= i < FIELD_COUNT && Items(rt, s)[i].Put? ensures |Items(rt, s)[i].bytes| <= LONGEST_FIELD {
      FieldIsShort(rt, s, i);
    }
  }

  lemma {:induction false} ShapesAgree(items: seq<Item>, extents: seq<Extent>, i: nat)
    requires i <= |items| == |extents| && FieldsFrom(items, i).Ok?
    requires forall j | i <= j < |items| ::
               extents[j] == if items[j].Put? then FieldOf(|items[j].bytes|) else NoField
    ensures Shape(FieldsFrom(items, i).value) == ShapeFrom(extents, i)
    decreases |items| - i
  {
    if i < |items| {
      ShapesAgree(items, extents, i + 1);
      if items[i].Put? {
        var rest := FieldsFrom(items, i + 1).value;
        assert ([Field(i, items[i].bytes)] + rest)[1..] == rest;
      }
    }
  }

  lemma ExtentOfItem(rt: Runtime, s: Sample, j: nat)
    requires j < FIELD_COUNT && !ItemOf(rt, s, j).Fail?
    ensures Extents(rt, s)[j] == match ItemOf(rt, s, j) case Put(bytes) => FieldOf(|bytes|) case _ => NoField
  {
  }

  /** The size estimate makes no checks, but agrees with the encoder wherever the checks pass. */
  lemma EstimateIsExact(rt: Runtime, s: Sample)
    requires FieldsFrom(Items(rt, s), 0).Ok?
    ensures Shape(FieldsFrom(Items(rt, s), 0).value) == ShapeFrom(Extents(rt, s), 0)
  {
    var items, extents := Items(rt, s), Extents(rt, s);
    FirstFailureWins(items, 0);
    forall j | 0 <= j < FIELD_COUNT
      ensures extents[j] == if items[j].Put? then FieldOf(|items[j].bytes|) else NoField
    {
      assert !items[j].Fail? && items[j] == ItemOf(rt, s, j);
      ExtentOfItem(rt, s, j);
    }
    ShapesAgree(items, extents, 0);
  }

  lemma NothingFailsWhenEncodable(rt: Runtime, s: Sample)
    ensures Encodable(rt, s) <==> forall j | 0 <= j < FIELD_COUNT :: !Items(rt, s)[j].Fail?
  {
    var items := Items(rt, s);
    assert items[5] == ItemOf(rt, s, 5) && items[6] == ItemOf(rt, s, 6);
    assert items[7] == ItemOf(rt, s, 7) && items[8] == ItemOf(rt, s, 8);
  }

  /** Encoding succeeds exactly on encodable samples that fit, and then writes the estimated size. */
  lemma EncodeStatusIsExact(rt: Runtime, s: Sample, capacity: nat)
    requires Lawful(rt)
    ensures var r := Encode(rt, s, capacity);
            && (r.status == StatusOk <==> Encodable(rt, s) && EncodedSize(rt, s) <= capacity)
            && (r.status == StatusOk ==> |r.bytes| == EncodedSize(rt, s))
            && (r.status != StatusOk ==> r.bytes == [])
            && (Encodable(rt, s) && r.status != StatusOk ==> r.status == rt.tooSmall)
  {
    var items := Items(rt, s);
    FirstFailureWins(items, 0);
    NothingFailsWhenEncodable(rt, s);
    if FieldsFrom(items, 0).Ok? {
      RecordHasSize(rt, s);
      EstimateIsExact(rt, s);
    } else {
      ErrorsAreNotOk(items, 0);
    }
  }

  lemma RecordHasSize(rt: Runtime, s: Sample)
    requires Lawful(rt) && FieldsFrom(Items(rt, s), 0).Ok?
    ensures var fields := FieldsFrom(Items(rt, s), 0).value;
            && |rt.putRecord(1, fields)| == rt.recordSize(Shape(fields))
            && var p := rt.parseRecord(rt.putRecord(1, fields));
               p.Parsed? && p.recordId == 1 && SameFields(p.views, fields)
  {
    ItemsAreShort(rt, s);
    FieldsAreStorable(Items(rt, s), 0);
  }

  lemma {:induction false} ErrorsAreNotOk(items: seq<Item>, i: nat)
    requires i <= |items| && FieldsFrom(items, i).Err?
    requires forall j | 0 <= j < |items| && items[j].Fail? :: items[j].status != StatusOk
    ensures FieldsFrom(items, i).status != StatusOk
    decreases |items| - i
  {
    if i < |items| && !items[i].Fail? { ErrorsAreNotOk(items, i + 1); }
  }

  /** Of several violations, the one with the lowest field index is the one reported. */
  lemma EncodeReportsFirstViolation(rt: Runtime, s: Sample, capacity: nat, j: nat)
    requires j < FIELD_COUNT && Has(s, j) && FieldStatus(rt, s, j) != StatusOk
    requires forall k: nat | k < j && Has(s, k) :: FieldStatus(rt, s, k) == StatusOk
    ensures Encode(rt, s, capacity) == EncodeResult(FieldStatus(rt, s, j), [])
  {
    var items := Items(rt, s);
    FirstFailureWins(items, 0);
    assert items[j] == Fail(FieldStatus(rt, s, j));
    assert forall k | 0 <= k < j :: !items[k].Fail?;
  }

  /** Which status each refusal has, and which of several wins: the fields are checked in order, and the space
      last of all. */
  lemma EncodeRefusalIsClassified(rt: Runtime, s: Sample, capacity: nat)
    requires Lawful(rt)
    ensures Encode(rt, s, capacity).status ==
              if s.status.has && s.status.value > 2 then UnknownEnumValue
              else if s.deviceId.has && s.deviceId.length > 16 then BoundsExceeded
              else if s.deviceId.has && !rt.validUtf8(s.deviceId.data[..s.deviceId.length]) then InvalidUtf8
              else if s.rawPayload.has && s.rawPayload.length > 8 then BoundsExceeded
              else if s.readings.has && s.readings.length > 4 then BoundsExceeded
              else if EncodedSize(rt, s) > capacity then rt.tooSmall
              else StatusOk
  {
    EncodeStatusIsExact(rt, s, capacity);
    if Violates(rt, s, 5) { EncodeReportsFirstViolation(rt, s, capacity, 5); }
    else if Violates(rt, s, 6) { EncodeReportsFirstViolation(rt, s, capacity, 6); }
    else if Violates(rt, s, 7) { EncodeReportsFirstViolation(rt, s, capacity, 7); }
    else if Violates(rt, s, 8) { EncodeReportsFirstViolation(rt, s, capacity, 8); }
  }

  predicate Violates(rt: Runtime, s: Sample, j: nat)
    requires j < FIELD_COUNT
  {
    Has(s, j) && FieldStatus(rt, s, j) != StatusOk
  }

  /** The record holds these bytes in the field of this index, or has no such field. */
  predicate Holds(views: seq<View>, index: nat, has: bool, bytes: seq<Byte>)
  {
    match Find(views, index)
    case Present(v) => has && v.bytes == bytes
    case Absent => !has
  }

  /** Every present field is there, under its index and in its width, and no other. */
  predicate HoldsField(rt: Runtime, s: Sample, views: seq<View>, index: nat)
  {
    match index
    case 0 => Holds(views, 0, s.sequence.has, rt.putUint(4, s.sequence.value))
    case 1 => Holds(views, 1, s.timestampMs.has, rt.putUint(8, s.timestampMs.value))
    case 2 => Holds(views, 2, s.temperatureBits.has, rt.putUint(4, s.temperatureBits.value))
    case 3 => Holds(views, 3, s.batteryMv.has, rt.putUint(2, s.batteryMv.value))
    case 4 => Holds(views, 4, s.calibrated.has, rt.putBool(s.calibrated.value))
    case 5 => Holds(views, 5, s.status.has, rt.putUint(1, s.status.value))
    case 6 =>
      if s.deviceId.has
      then s.deviceId.length <= 16 && Holds(views, 6, true, s.deviceId.data[..s.deviceId.length])
      else Find(views, 6).Absent?
    case 7 =>
      if s.rawPayload.has
      then s.rawPayload.length <= 8 && Holds(views, 7, true, s.rawPayload.data[..s.rawPayload.length])
      else Find(views, 7).Absent?
    case 8 =>
      if s.readings.has
      then s.readings.length <= 4
           && Holds(views, 8, true, rt.putVaruint(s.readings.length)
                                    + PutElements(rt, s.readings.data[..s.readings.length]))
      else Find(views, 8).Absent?
    case _ => Find(views, index).Absent?
  }

  lemma HoldsItem(rt: Runtime, s: Sample, views: seq<View>, j: nat)
    requires match Find(views, j)
             case Present(v) => j < FIELD_COUNT && ItemOf(rt, s, j) == Put(v.bytes)
             case Absent => j >= FIELD_COUNT || ItemOf(rt, s, j) == Skip
    requires Encodable(rt, s)
    ensures HoldsField(rt, s, views, j)
  {
  }

  /** What a successful encoding has put into the record. */
  lemma RecordHoldsFields(rt: Runtime, s: Sample, capacity: nat, index: nat)
    requires Lawful(rt) && Encode(rt, s, capacity).status == StatusOk
    ensures var p := rt.parseRecord(Encode(rt, s, capacity).bytes);
            p.Parsed? && p.recordId == 1 && HoldsField(rt, s, p.views, index)
  {
    EncodeStatusIsExact(rt, s, capacity);
    NothingFailsWhenEncodable(rt, s);
    FirstFailureWins(Items(rt, s), 0);
    RecordHasSize(rt, s);
    var views := rt.parseRecord(Encode(rt, s, capacity).bytes).views;
    FindsItem(Items(rt, s), 0, views, index);
    HoldsItem(rt, s, views, index);
  }
}
