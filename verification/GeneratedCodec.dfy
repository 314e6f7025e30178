/** The generated encoder, size estimate and decoder, step by step, proved against module Codec. */
module GeneratedCodec {
  import opened Words
  import opened RuntimeContract
  import opened Codec
  import opened CodecProofs

  const READINGS_SCRATCH := 13

  /** A bounded output buffer; a write that does not fit changes nothing. */
  class Writer {
    const buffer: array<Byte>
    var length: nat

    ghost predicate Valid()
      reads this
    {
      length <= buffer.Length
    }

    ghost function Written(): seq<Byte>
      requires Valid()
      reads this, buffer
    {
      buffer[..length]
    }

    constructor (capacity: nat)
      ensures Valid() && fresh(buffer) && buffer.Length == capacity && Written() == []
    {
      buffer := new Byte[capacity](_ => 0);
      length := 0;
    }

    method Write(data: seq<Byte>) returns (ok: bool)
      requires Valid()
      modifies this`length, buffer
      ensures Valid()
      ensures ok == (|old(Written())| + |data| <= buffer.Length)
      ensures Written() == if ok then old(Written()) + data else old(Written())
    {
      ok := length + |data| <= buffer.Length;
      if ok {
        for k := 0 to |data|
          invariant length + |data| <= buffer.Length && length == old(length)
          invariant buffer[..length] == old(Written())
          invariant forall j | 0 <= j < k :: buffer[length + j] == data[j]
        {
          buffer[length + k] := data[k];
        }
        length := length + |data|;
        assert buffer[..length] == old(Written()) + data;
      }
    }
  }

  /** Writes one value into a scratch buffer of its own. */
  method Scratch(capacity: nat, data: seq<Byte>) returns (bytes: seq<Byte>)
    requires |data| <= capacity
    ensures bytes == data
  {
    var writer := new Writer(capacity);
    var ok := writer.Write(data);
    assert ok;
    bytes := writer.buffer[..writer.length];
  }

  ghost predicate NarrowElements(rt: Runtime)
  {
    && (forall x: I16 :: |ElementBytes(rt, x)| == 2)
    && (forall n: U32 :: |CountBytes(rt, n)| <= 5)
  }

  lemma ElementsAreNarrow(rt: Runtime)
    requires LawfulInt16(rt) && LawfulVaruint(rt)
    ensures NarrowElements(rt)
  {
  }

  lemma OneMoreElement(rt: Runtime, xs: seq<I16>, k: nat)
    requires k < |xs|
    ensures PutElements(rt, xs[..k + 1]) == PutElements(rt, xs[..k]) + ElementBytes(rt, xs[k])
  {
    assert xs[..k + 1][..k] == xs[..k];
  }

  method AppendElement(rt: Runtime, writer: Writer, xs: seq<I16>, k: nat, ghost count: seq<Byte>)
    requires NarrowElements(rt) && k < |xs| && writer.Valid() && writer.length + 2 <= writer.buffer.Length
    requires writer.Written() == count + PutElements(rt, xs[..k])
    modifies writer, writer.buffer
    ensures writer.Valid() && writer.length == old(writer.length) + 2
    ensures writer.Written() == count + PutElements(rt, xs[..k + 1])
  {
    OneMoreElement(rt, xs, k);
    var ok := writer.Write(ElementBytes(rt, xs[k]));
    assert ok;
  }

  /** The readings array: a count, then at most four elements. The scratch buffer never overflows,
      whatever the count says. */
  method ReadingsScratch(rt: Runtime, xs: seq<I16>, count: U32) returns (bytes: seq<Byte>)
    requires NarrowElements(rt) && |xs| == 4
    ensures var n := if count < 4 then count else 4;
            bytes == CountBytes(rt, count) + PutElements(rt, xs[..n])
  {
    var writer := new Writer(READINGS_SCRATCH);
    var ok := writer.Write(CountBytes(rt, count));
    assert ok;
    var k := 0;
    while k < count && k < 4
      invariant 0 <= k <= 4 && k <= count
      invariant writer.Valid() && fresh(writer) && fresh(writer.buffer) && writer.buffer.Length == READINGS_SCRATCH
      invariant writer.Written() == CountBytes(rt, count) + PutElements(rt, xs[..k])
      invariant writer.length <= 5 + 2 * k
      decreases 4 - k
    {
      AppendElement(rt, writer, xs, k, CountBytes(rt, count));
      k := k + 1;
    }
    bytes := writer.buffer[..writer.length];
  }

  // ----- the encoder -----

  /** The blocks before `i` have put `fields` in place, none of them failing. */
  ghost predicate Pending(items: seq<Item>, i: nat, fields: seq<Field>)
    requires i <= |items|
  {
    && |fields| <= i
    && FieldsFrom(items, 0) == match FieldsFrom(items, i) case Ok(rest) => Ok(fields + rest) case Err(e) => Err(e)
  }

  lemma PendingStep(items: seq<Item>, i: nat, fields: seq<Field>)
    requires i < |items| && Pending(items, i, fields)
    ensures match items[i]
            case Skip => Pending(items, i + 1, fields)
            case Put(bytes) => Pending(items, i + 1, fields + [Field(i, bytes)])
            case Fail(status) => FieldsFrom(items, 0) == Err(status)
  {
    if items[i].Put? && FieldsFrom(items, i + 1).Ok? {
      var rest := FieldsFrom(items, i + 1).value;
      assert fields + ([Field(i, items[i].bytes)] + rest) == (fields + [Field(i, items[i].bytes)]) + rest;
    }
  }

  lemma PendingStart(items: seq<Item>)
    ensures Pending(items, 0, [])
  {
    if FieldsFrom(items, 0).Ok? { assert [] + FieldsFrom(items, 0).value == FieldsFrom(items, 0).value; }
  }

  /** The field table of the encoder. */
  class FieldTable {
    const slots: array<Field>
    var count: nat

    ghost predicate Valid()
      reads this
    {
      count <= slots.Length == FIELD_COUNT
    }

    ghost function Fields(): seq<Field>
      requires Valid()
      reads this, slots
    {
      slots[..count]
    }

    constructor ()
      ensures Valid() && fresh(slots) && Fields() == []
    {
      slots := new Field[FIELD_COUNT](_ => Field(0, []));
      count := 0;
    }

    method Add(index: nat, bytes: seq<Byte>)
      requires Valid() && count < FIELD_COUNT
      modifies this`count, slots
      ensures Valid() && Fields() == old(Fields()) + [Field(index, bytes)]
    {
      slots[count] := Field(index, bytes);
      count := count + 1;
      assert slots[..count] == old(slots[..count]) + [Field(index, bytes)];
    }
  }

  lemma ItemIs(rt: Runtime, s: Sample, i: nat)
    requires i < FIELD_COUNT
    ensures Items(rt, s)[i] == ItemOf(rt, s, i)
  {
  }

  /** One scalar block: write the value to its scratch buffer and enter it in the table. */
  method ScalarBlock(ghost items: seq<Item>, i: nat, present: bool, capacity: nat, data: seq<Byte>, table: FieldTable)
    requires i < |items| == FIELD_COUNT && table.Valid() && Pending(items, i, table.Fields())
    requires items[i] == (if present then Put(data) else Skip) && |data| <= capacity
    modifies table, table.slots
    ensures table.Valid() && Pending(items, i + 1, table.Fields())
  {
    PendingStep(items, i, table.Fields());
    if present {
      var bytes := Scratch(capacity, data);
      table.Add(i, bytes);
    }
  }

  /** The items of the five fields that are written without a check. */
  ghost predicate HasScalars(rt: Runtime, s: Sample, items: seq<Item>)
  {
    && |items| == FIELD_COUNT
    && IsScalar(items[0], s.sequence.has, UintBytes(rt, 4, s.sequence.value), 4)
    && IsScalar(items[1], s.timestampMs.has, UintBytes(rt, 8, s.timestampMs.value), 8)
    && IsScalar(items[2], s.temperatureBits.has, UintBytes(rt, 4, s.temperatureBits.value), 4)
    && IsScalar(items[3], s.batteryMv.has, UintBytes(rt, 2, s.batteryMv.value), 2)
    && IsScalar(items[4], s.calibrated.has, BoolBytes(rt, s.calibrated.value), 1)
  }

  predicate IsScalar(item: Item, present: bool, data: seq<Byte>, capacity: nat)
  {
    |data| <= capacity && item == if present then Put(data) else Skip
  }

  lemma ScalarItems(rt: Runtime, s: Sample)
    requires Lawful(rt)
    ensures HasScalars(rt, s, Items(rt, s))
  {
    CapacityValues();
    ItemIs(rt, s, 0);
    ItemIs(rt, s, 1);
    ItemIs(rt, s, 2);
    ItemIs(rt, s, 3);
    ItemIs(rt, s, 4);
    assert |BoolBytes(rt, s.calibrated.value)| == 1 by {
      if s.calibrated.value { assert |rt.putBool(true)| == 1; } else { assert |rt.putBool(false)| == 1; }
    }
  }

  method EncodeCounters(rt: Runtime, s: Sample, ghost items: seq<Item>, table: FieldTable)
    requires HasScalars(rt, s, items) && table.Valid() && Pending(items, 0, table.Fields())
    modifies table, table.slots
    ensures table.Valid() && Pending(items, 2, table.Fields())
  {
    ScalarBlock(items, 0, s.sequence.has, 4, UintBytes(rt, 4, s.sequence.value), table);
    ScalarBlock(items, 1, s.timestampMs.has, 8, UintBytes(rt, 8, s.timestampMs.value), table);
  }

  method EncodeMeasurements(rt: Runtime, s: Sample, ghost items: seq<Item>, table: FieldTable)
    requires HasScalars(rt, s, items) && table.Valid() && Pending(items, 2, table.Fields())
    modifies table, table.slots
    ensures table.Valid() && Pending(items, 5, table.Fields())
  {
    ScalarBlock(items, 2, s.temperatureBits.has, 4, UintBytes(rt, 4, s.temperatureBits.value), table);
    ScalarBlock(items, 3, s.batteryMv.has, 2, UintBytes(rt, 2, s.batteryMv.value), table);
    ScalarBlock(items, 4, s.calibrated.has, 1, BoolBytes(rt, s.calibrated.value), table);
  }

  /** The first five blocks, which cannot be refused. */
  method EncodeScalars(rt: Runtime, s: Sample, table: FieldTable)
    requires Lawful(rt) && table.Valid() && table.Fields() == []
    modifies table, table.slots
    ensures table.Valid() && Pending(Items(rt, s), 5, table.Fields())
  {
    ghost var items := Items(rt, s);
    ScalarItems(rt, s);
    PendingStart(items);
    EncodeCounters(rt, s, items, table);
    EncodeMeasurements(rt, s, items, table);
  }

  method StatusBlock(rt: Runtime, s: Sample, ghost items: seq<Item>, table: FieldTable) returns (status: Status)
    requires |items| == FIELD_COUNT && items[5] == ItemOf(rt, s, 5) && table.Valid() && Pending(items, 5, table.Fields())
    requires s.status.value <= 2 ==> |UintBytes(rt, 1, s.status.value)| == 1
    modifies table, table.slots
    ensures table.Valid()
    ensures if status == StatusOk then Pending(items, 6, table.Fields()) else FieldsFrom(items, 0) == Err(status)
  {
    PendingStep(items, 5, table.Fields());
    if s.status.has {
      if !(s.status.value == 0 || s.status.value == 1 || s.status.value == 2) {
        return UnknownEnumValue;
      }
      var bytes := Scratch(1, UintBytes(rt, 1, s.status.value));
      table.Add(5, bytes);
    }
    status := StatusOk;
  }

  method DeviceIdBlock(rt: Runtime, s: Sample, ghost items: seq<Item>, table: FieldTable) returns (status: Status)
    requires |items| == FIELD_COUNT && items[6] == ItemOf(rt, s, 6) && table.Valid() && Pending(items, 6, table.Fields())
    modifies table, table.slots
    ensures table.Valid()
    ensures if status == StatusOk then Pending(items, 7, table.Fields()) else FieldsFrom(items, 0) == Err(status)
  {
    PendingStep(items, 6, table.Fields());
    if s.deviceId.has {
      if s.deviceId.length > 16 {
        return BoundsExceeded;
      }
      if !IsText(rt, s.deviceId.data[..s.deviceId.length]) {
        return InvalidUtf8;
      }
      table.Add(6, s.deviceId.data[..s.deviceId.length]);
    }
    status := StatusOk;
  }

  method RawPayloadBlock(rt: Runtime, s: Sample, ghost items: seq<Item>, table: FieldTable) returns (status: Status)
    requires |items| == FIELD_COUNT && items[7] == ItemOf(rt, s, 7) && table.Valid() && Pending(items, 7, table.Fields())
    modifies table, table.slots
    ensures table.Valid()
    ensures if status == StatusOk then Pending(items, 8, table.Fields()) else FieldsFrom(items, 0) == Err(status)
  {
    PendingStep(items, 7, table.Fields());
    if s.rawPayload.has {
      if s.rawPayload.length > 8 {
        return BoundsExceeded;
      }
      table.Add(7, s.rawPayload.data[..s.rawPayload.length]);
    }
    status := StatusOk;
  }

  method ReadingsBlock(rt: Runtime, s: Sample, ghost items: seq<Item>, table: FieldTable) returns (status: Status)
    requires |items| == FIELD_COUNT && items[8] == ItemOf(rt, s, 8) && table.Valid() && Pending(items, 8, table.Fields())
    requires NarrowElements(rt)
    modifies table, table.slots
    ensures table.Valid()
    ensures if status == StatusOk then Pending(items, 9, table.Fields()) else FieldsFrom(items, 0) == Err(status)
  {
    PendingStep(items, 8, table.Fields());
    if s.readings.has {
      if s.readings.length > 4 {
        return BoundsExceeded;
      }
      var bytes := ReadingsScratch(rt, s.readings.data, s.readings.length);
      table.Add(8, bytes);
    }
    status := StatusOk;
  }

  /** The blocks in order; the first check that fails ends the encoding. */
  method EncodeFields(rt: Runtime, s: Sample, table: FieldTable) returns (status: Status)
    requires Lawful(rt) && table.Valid() && table.Fields() == []
    modifies table, table.slots
    ensures table.Valid()
    ensures FieldsFrom(Items(rt, s), 0) == if status == StatusOk then Ok(table.Fields()) else Err(status)
  {
    ghost var items := Items(rt, s);
    CheckedItems(rt, s);
    EncodeScalars(rt, s, table);
    status := StatusBlock(rt, s, items, table);
    if status != StatusOk {
      return;
    }
    status := DeviceIdBlock(rt, s, items, table);
    if status != StatusOk {
      return;
    }
    status := RawPayloadBlock(rt, s, items, table);
    if status != StatusOk {
      return;
    }
    status := ReadingsBlock(rt, s, items, table);
    assert table.Fields() + [] == table.Fields();
  }

  lemma CheckedItems(rt: Runtime, s: Sample)
    requires Lawful(rt)
    ensures forall i | 5 <= i < FIELD_COUNT :: Items(rt, s)[i] == ItemOf(rt, s, i)
    ensures NarrowElements(rt)
    ensures s.status.value <= 2 ==> |UintBytes(rt, 1, s.status.value)| == 1
  {
    CapacityValues();
    ElementsAreNarrow(rt);
  }

  datatype EncodeReport = EncodeReport(status: Status, bytesWritten: nat)

  lemma RecordFits(rt: Runtime, s: Sample, fields: seq<Field>)
    requires Lawful(rt) && FieldsFrom(Items(rt, s), 0) == Ok(fields)
    ensures |RecordBytes(rt, fields)| == SizeOf(rt, Shape(fields))
  {
    RecordHasSize(rt, s);
  }

  /** The container writer: either the whole record or nothing. */
  method WriteRecord(rt: Runtime, fields: seq<Field>, output: array<Byte>) returns (report: EncodeReport)
    requires |RecordBytes(rt, fields)| == SizeOf(rt, Shape(fields))
    modifies output
    ensures var fits := SizeOf(rt, Shape(fields)) <= output.Length;
            var record := if fits then RecordBytes(rt, fields) else [];
            && report == EncodeReport(if fits then StatusOk else rt.tooSmall, |record|)
            && |record| <= output.Length
            && output[..] == record + old(output[..])[|record|..]
  {
    if output.Length < SizeOf(rt, Shape(fields)) {
      return EncodeReport(rt.tooSmall, 0);
    }
    var record := RecordBytes(rt, fields);
    for k := 0 to |record|
      invariant forall j | 0 <= j < output.Length :: output[j] == if j < k then record[j] else old(output[j])
    {
      output[k] := record[k];
    }
    report := EncodeReport(StatusOk, |record|);
  }

  method EncodeSample(rt: Runtime, s: Sample, output: array<Byte>) returns (report: EncodeReport)
    requires Lawful(rt)
    modifies output
    ensures var r := Encode(rt, s, output.Length);
            && report == EncodeReport(r.status, |r.bytes|)
            && |r.bytes| <= output.Length
            && output[..] == r.bytes + old(output[..])[|r.bytes|..]
  {
    var table := new FieldTable();
    var status := EncodeFields(rt, s, table);
    if status != StatusOk {
      return EncodeReport(status, 0);
    }
    RecordFits(rt, s, table.Fields());
    report := WriteRecord(rt, table.slots[..table.count], output);
  }

  // ----- the size estimate -----

  /** The first `i` fields of the table are in `shape`. */
  ghost predicate Grown(extents: seq<Extent>, i: nat, shape: seq<(nat, nat)>)
    requires i <= |extents|
  {
    shape + ShapeFrom(extents, i) == ShapeFrom(extents, 0)
  }

  /** One block of the estimate: the field enters the table with the length it would have. */
  method ExtentBlock(ghost extents: seq<Extent>, i: nat, present: bool, length: nat, shape: seq<(nat, nat)>)
    returns (grown: seq<(nat, nat)>)
    requires i < |extents| && Grown(extents, i, shape) && extents[i] == ExtentIf(present, length)
    ensures Grown(extents, i + 1, grown)
  {
    grown := shape;
    if present {
      grown := grown + [(i, length)];
      assert shape + ([(i, length)] + ShapeFrom(extents, i + 1)) == grown + ShapeFrom(extents, i + 1);
    }
  }

  function ExtentIf(present: bool, length: nat): Extent { if present then FieldOf(length) else NoField }

  ghost predicate HasExtents(rt: Runtime, s: Sample, e: seq<Extent>)
  {
    && |e| == FIELD_COUNT
    && e[0] == ExtentIf(s.sequence.has, |UintBytes(rt, 4, s.sequence.value)|)
    && e[1] == ExtentIf(s.timestampMs.has, |UintBytes(rt, 8, s.timestampMs.value)|)
    && e[2] == ExtentIf(s.temperatureBits.has, |UintBytes(rt, 4, s.temperatureBits.value)|)
    && e[3] == ExtentIf(s.batteryMv.has, |UintBytes(rt, 2, s.batteryMv.value)|)
    && e[4] == ExtentIf(s.calibrated.has, |BoolBytes(rt, s.calibrated.value)|)
    && e[5] == ExtentIf(s.status.has, |UintBytes(rt, 1, s.status.value % 256)|)
    && e[6] == ExtentIf(s.deviceId.has, s.deviceId.length)
    && e[7] == ExtentIf(s.rawPayload.has, s.rawPayload.length)
    && e[8] == ExtentIf(s.readings.has, FieldLength(rt, s, 8))
  }

  lemma ExtentIs(rt: Runtime, s: Sample, i: nat)
    requires i < FIELD_COUNT
    ensures Extents(rt, s)[i] == ExtentIf(Has(s, i), FieldLength(rt, s, i))
  {
  }

  lemma ExtentsAre(rt: Runtime, s: Sample)
    ensures HasExtents(rt, s, Extents(rt, s))
  {
    ExtentIs(rt, s, 0);
    ExtentIs(rt, s, 1);
    ExtentIs(rt, s, 2);
    ExtentIs(rt, s, 3);
    ExtentIs(rt, s, 4);
    ExtentIs(rt, s, 5);
    ExtentIs(rt, s, 6);
    ExtentIs(rt, s, 7);
    ExtentIs(rt, s, 8);
  }

  method EstimateCounters(rt: Runtime, s: Sample, ghost extents: seq<Extent>) returns (shape: seq<(nat, nat)>)
    requires HasExtents(rt, s, extents)
    ensures Grown(extents, 2, shape)
  {
    shape := [];
    assert shape + ShapeFrom(extents, 0) == ShapeFrom(extents, 0);
    shape := ExtentBlock(extents, 0, s.sequence.has, |UintBytes(rt, 4, s.sequence.value)|, shape);
    shape := ExtentBlock(extents, 1, s.timestampMs.has, |UintBytes(rt, 8, s.timestampMs.value)|, shape);
  }

  method EstimateScalars(rt: Runtime, s: Sample, ghost extents: seq<Extent>) returns (shape: seq<(nat, nat)>)
    requires HasExtents(rt, s, extents)
    ensures Grown(extents, 6, shape)
  {
    shape := EstimateCounters(rt, s, extents);
    shape := ExtentBlock(extents, 2, s.temperatureBits.has, |UintBytes(rt, 4, s.temperatureBits.value)|, shape);
    shape := ExtentBlock(extents, 3, s.batteryMv.has, |UintBytes(rt, 2, s.batteryMv.value)|, shape);
    shape := ExtentBlock(extents, 4, s.calibrated.has, |BoolBytes(rt, s.calibrated.value)|, shape);
    shape := ExtentBlock(extents, 5, s.status.has, |UintBytes(rt, 1, s.status.value % 256)|, shape);
  }

  /** No field is checked here, so the readings count can be any 32-bit number. */
  method EstimateSize(rt: Runtime, s: Sample) returns (size: nat)
    requires NarrowElements(rt)
    ensures size == EncodedSize(rt, s)
  {
    ghost var extents := Extents(rt, s);
    ExtentsAre(rt, s);
    var shape := EstimateScalars(rt, s, extents);
    shape := ExtentBlock(extents, 6, s.deviceId.has, s.deviceId.length, shape);
    shape := ExtentBlock(extents, 7, s.rawPayload.has, s.rawPayload.length, shape);
    var readings := ReadingsScratch(rt, s.readings.data, s.readings.length);
    shape := ExtentBlock(extents, 8, s.readings.has, |readings|, shape);
    assert shape + [] == shape;
    size := SizeOf(rt, shape);
  }

  // ----- the decoder -----

  /** What one block does to the result so far, and whether decoding goes on. */
  function After(rt: Runtime, views: seq<View>, i: nat, result: DecodeResult): (DecodeResult, bool)
    requires Lawful(rt) && i < FIELD_COUNT
  {
    match Find(views, i)
    case Absent => (result, true)
    case Present(v) => Applied(result, DecodeField(rt, i, v, result.value))
  }

  function Applied(result: DecodeResult, step: Step): (DecodeResult, bool)
  {
    match step
    case Stored(value) => (result.(value := value), true)
    case Rejected(status, at, value) => (DecodeResult(status, value, true, at), false)
  }

  method DecodeUintBlock(rt: Runtime, views: seq<View>, i: nat, before: DecodeResult)
    returns (result: DecodeResult, more: bool)
    requires LawfulUint(rt) && i in {0, 1, 2, 3, 5}
    ensures match Find(views, i)
            case Absent => (result, more) == (before, true)
            case Present(v) => (result, more) == Applied(before, DecodeUintField(rt, i, v, before.value))
  {
    result := before;
    var found := Find(views, i);
    if found.Present? {
      var view := found.view;
      if |view.bytes| != Width(i) {
        return DecodeResult(InvalidFieldLength, result.value, true, view.offset), false;
      }
      var read := rt.getUint(view.bytes);
      if read.Err? {
        return DecodeResult(read.status, result.value, true, view.offset), false;
      }
      if i == 5 && !(read.value == 0 || read.value == 1 || read.value == 2) {
        return DecodeResult(UnknownEnumValue, result.value, true, view.offset), false;
      }
      result := result.(value := StoreUint(i, read.value, result.value));
    }
    more := true;
  }

  method DecodeCalibratedBlock(rt: Runtime, views: seq<View>, before: DecodeResult)
    returns (result: DecodeResult, more: bool)
    ensures match Find(views, 4)
            case Absent => (result, more) == (before, true)
            case Present(v) => (result, more) == Applied(before, DecodeCalibrated(rt, v, before.value))
  {
    result := before;
    var found := Find(views, 4);
    if found.Present? {
      var view := found.view;
      if |view.bytes| != 1 {
        return DecodeResult(InvalidFieldLength, result.value, true, view.offset), false;
      }
      var read := rt.getBool(view.bytes);
      if read.Err? {
        return DecodeResult(read.status, result.value, true, view.offset), false;
      }
      result := result.(value := result.value.(calibrated := Slot(true, read.value)));
    }
    more := true;
  }

  /** Copies into the sample before the text check, so a refused text leaves its bytes behind. */
  method DecodeDeviceIdBlock(rt: Runtime, views: seq<View>, before: DecodeResult)
    returns (result: DecodeResult, more: bool)
    ensures match Find(views, 6)
            case Absent => (result, more) == (before, true)
            case Present(v) => (result, more) == Applied(before, DecodeDeviceId(rt, v, before.value))
  {
    result := before;
    var found := Find(views, 6);
    if found.Present? {
      var view := found.view;
      if |view.bytes| > 16 {
        return DecodeResult(rt.tooLong, result.value, true, view.offset), false;
      }
      var id := result.value.deviceId;
      id := id.(data := Overwrite(id.data, view.bytes));
      if !rt.validUtf8(view.bytes) {
        return DecodeResult(InvalidUtf8, result.value.(deviceId := id), true, view.offset), false;
      }
      id := id.(data := id.data[|view.bytes| := 0]);
      id := id.(length := |view.bytes|);
      id := id.(has := true);
      result := result.(value := result.value.(deviceId := id));
    }
    more := true;
  }

  method DecodeRawPayloadBlock(rt: Runtime, views: seq<View>, before: DecodeResult)
    returns (result: DecodeResult, more: bool)
    ensures match Find(views, 7)
            case Absent => (result, more) == (before, true)
            case Present(v) => (result, more) == Applied(before, DecodeRawPayload(rt, v, before.value))
  {
    result := before;
    var found := Find(views, 7);
    if found.Present? {
      var view := found.view;
      if |view.bytes| > 8 {
        return DecodeResult(rt.tooLong, result.value, true, view.offset), false;
      }
      var payload := Buffer(true, Overwrite(result.value.rawPayload.data, view.bytes), |view.bytes|);
      result := result.(value := result.value.(rawPayload := payload));
    }
    more := true;
  }

  /** Reads `count` elements from `b`, keeping those read when one cannot be. */
  method ReadElements(rt: Runtime, b: seq<Byte>, count: nat) returns (elements: seq<I16>, status: Status)
    requires LawfulInt16(rt) && |b| == 2 * count
    ensures (elements, status) == GetElements(rt, b, count)
  {
    elements, status := [], StatusOk;
    var offset := 0;
    for k := 0 to count
      invariant offset == 2 * k && status == StatusOk
      invariant (elements, status) == GetElements(rt, b, k)
    {
      var read := rt.getInt16(b[offset..offset + 2]);
      if read.Err? {
        status := read.status;
        ElementsStop(rt, b, k + 1, count);
        return;
      }
      elements := elements + [read.value];
      offset := offset + 2;
    }
  }

  /** Once an element cannot be read, the rest is not looked at. */
  lemma {:induction false} ElementsStop(rt: Runtime, b: seq<Byte>, k: nat, n: nat)
    requires LawfulInt16(rt) && k <= n && 2 * n <= |b| && GetElements(rt, b, k).1 != StatusOk
    ensures GetElements(rt, b, n) == GetElements(rt, b, k)
    decreases n - k
  {
    if k < n { ElementsStop(rt, b, k, n - 1); }
  }

  method DecodeReadingsBlock(rt: Runtime, views: seq<View>, before: DecodeResult)
    returns (result: DecodeResult, more: bool)
    requires LawfulVaruint(rt) && LawfulInt16(rt)
    ensures match Find(views, 8)
            case Absent => (result, more) == (before, true)
            case Present(v) => (result, more) == Applied(before, DecodeReadings(rt, v, before.value))
  {
    result := before;
    var found := Find(views, 8);
    if found.Present? {
      var view := found.view;
      var read := rt.getVaruint(view.bytes);
      if read.Err? {
        return DecodeResult(read.status, result.value, true, view.offset), false;
      }
      var count, offset := read.value.value, read.value.used;
      if count > 4 {
        return DecodeResult(BoundsExceeded, result.value, true, view.offset), false;
      }
      var remaining := |view.bytes| - offset;
      if count > remaining / 2 || remaining != count * 2 {
        return DecodeResult(InvalidFieldLength, result.value, true, view.offset + offset), false;
      }
      result, more := DecodeElements(rt, view, count, offset, before);
      return;
    }
    more := true;
  }

  /** The elements of the array, once its count and its length have been found to agree. */
  method DecodeElements(rt: Runtime, view: View, count: nat, offset: nat, before: DecodeResult)
    returns (result: DecodeResult, more: bool)
    requires LawfulVaruint(rt) && LawfulInt16(rt)
    requires rt.getVaruint(view.bytes) == Ok(Varuint(count, offset)) && count <= 4 && |view.bytes| - offset == 2 * count
    ensures (result, more) == Applied(before, DecodeReadings(rt, view, before.value))
  {
    result := before;
    var elements, status := ReadElements(rt, view.bytes[offset..], count);
    var readings := result.value.readings;
    readings := readings.(data := Overwrite(readings.data, elements));
    if status != StatusOk {
      return DecodeResult(status, result.value.(readings := readings), true,
                          view.offset + offset + 2 * |elements|), false;
    }
    readings := readings.(length := count, has := true);
    result := result.(value := result.value.(readings := readings));
    more := true;
  }

  /** The block for field `i` advances the run of the decoder by one field. */
  ghost predicate OneAdvance(rt: Runtime, views: seq<View>, run: (nat, Sample) -> DecodeResult, i: nat, before: DecodeResult)
    requires Lawful(rt) && i < FIELD_COUNT
  {
    var (after, more) := After(rt, views, i, before);
    run(i, before.value) == (if more then run(i + 1, after.value) else after) && (more ==> Accepted(after))
  }

  ghost predicate Advances(rt: Runtime, views: seq<View>, run: (nat, Sample) -> DecodeResult)
    requires Lawful(rt)
  {
    forall i: nat, before: DecodeResult | i < FIELD_COUNT && Accepted(before) :: OneAdvance(rt, views, run, i, before)
  }

  function RunOf(rt: Runtime, views: seq<View>): (nat, Sample) -> DecodeResult
    requires Lawful(rt)
  {
    (i: nat, acc: Sample) => if i <= FIELD_COUNT then DecodeFrom(Blocks(rt), views, i, acc) else DecodeResult(StatusOk, acc, false, 0)
  }

  lemma RunAdvances(rt: Runtime, views: seq<View>)
    requires Lawful(rt)
    ensures Advances(rt, views, RunOf(rt, views))
  {
    forall i: nat, before: DecodeResult | i < FIELD_COUNT && Accepted(before)
      ensures OneAdvance(rt, views, RunOf(rt, views), i, before)
    {
      BlockAdvances(rt, views, i, before);
    }
  }

  lemma BlockAdvances(rt: Runtime, views: seq<View>, i: nat, before: DecodeResult)
    requires Lawful(rt) && i < FIELD_COUNT && Accepted(before)
    ensures var (after, more) := After(rt, views, i, before);
            && DecodeFrom(Blocks(rt), views, i, before.value)
            == (if more then DecodeFrom(Blocks(rt), views, i + 1, after.value) else after)
            && (more ==> Accepted(after))
  {
  }

  /** The block for field `i`. */
  method DecodeBlock(rt: Runtime, views: seq<View>, i: nat, before: DecodeResult)
    returns (result: DecodeResult, more: bool)
    requires Lawful(rt) && i < FIELD_COUNT
    ensures (result, more) == After(rt, views, i, before)
  {
    match i
    case 4 => result, more := DecodeCalibratedBlock(rt, views, before);
    case 6 => result, more := DecodeDeviceIdBlock(rt, views, before);
    case 7 => result, more := DecodeRawPayloadBlock(rt, views, before);
    case 8 => result, more := DecodeReadingsBlock(rt, views, before);
    case _ => result, more := DecodeUintBlock(rt, views, i, before);
  }

  method DecodeNext(rt: Runtime, views: seq<View>, ghost run: (nat, Sample) -> DecodeResult, i: nat, before: DecodeResult)
    returns (result: DecodeResult, more: bool)
    requires Lawful(rt) && Advances(rt, views, run) && i < FIELD_COUNT && Accepted(before)
    ensures run(i, before.value) == if more then run(i + 1, result.value) else result
    ensures more ==> Accepted(result)
  {
    assert OneAdvance(rt, views, run, i, before);
    result, more := DecodeBlock(rt, views, i, before);
  }

  /** The nine blocks, which the generated code writes out one after the other; a refusal returns at once. */
  method DecodeRecord(rt: Runtime, views: seq<View>) returns (result: DecodeResult)
    requires Lawful(rt)
    ensures result == DecodeFrom(Blocks(rt), views, 0, ZeroSample())
  {
    ghost var run := RunOf(rt, views);
    RunAdvances(rt, views);
    result := DecodeResult(StatusOk, ZeroSample(), false, 0);
    ghost var final := run(0, result.value);
    for i := 0 to FIELD_COUNT
      invariant Accepted(result) && run(i, result.value) == final
    {
      var more;
      result, more := DecodeNext(rt, views, run, i, result);
      if !more { return; }
    }
  }

  method DecodeSample(rt: Runtime, input: seq<Byte>) returns (result: DecodeResult)
    requires Lawful(rt)
    ensures result == Decode(rt, input)
  {
    result := DecodeResult(StatusOk, ZeroSample(), false, 0);
    var parsed := rt.parseRecord(input);
    if parsed.Malformed? {
      result := result.(status := parsed.status);
      if parsed.status != UnsupportedFieldCount {
        result := result.(hasOffset := true, offset := parsed.offset);
      }
      return;
    }
    if parsed.recordId != 1 {
      return DecodeResult(UnexpectedRecordId, result.value, true, 0);
    }
    result := DecodeRecord(rt, parsed.views);
  }
}
