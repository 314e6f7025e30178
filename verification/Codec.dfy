/** What the generated SensorSample codec computes, field by field. */
module Codec {
  import opened Words
  import opened RuntimeContract

  /** A presence flag and a value, as the C struct pairs them. */
  datatype Slot<+T> = Slot(has: bool, value: T)

  /** A presence flag, a buffer of fixed size and the length in use. */
  datatype Buffer<+T> = Buffer(has: bool, data: seq<T>, length: U32)

  datatype SampleData = Sample(
    sequence: Slot<U32>,
    timestampMs: Slot<U64>,
    temperatureBits: Slot<U32>,
    batteryMv: Slot<U16>,
    calibrated: Slot<bool>,
    status: Slot<U32>,
    deviceId: Buffer<Byte>,
    rawPayload: Buffer<Byte>,
    readings: Buffer<I16>
  )

  function Zeros(n: nat): (z: seq<Byte>)
    ensures |z| == n
    ensures forall i | 0 <= i < n :: z[i] == 0
  {
    if n == 0 then [] else Zeros(n - 1) + [0]
  }

  /** All bytes zero, as memset leaves it. */
  function ZeroSample(): SampleData
  {
    Sample(Slot(false, 0), Slot(false, 0), Slot(false, 0), Slot(false, 0), Slot(false, false), Slot(false, 0),
           Buffer(false, Zeros(17), 0), Buffer(false, Zeros(8), 0), Buffer(false, Zeros(4), 0))
  }

  /** The C struct: its three arrays have fixed sizes. */
  type Sample = s: SampleData | |s.deviceId.data| == 17 && |s.rawPayload.data| == 8 && |s.readings.data| == 4
    witness ZeroSample()

  datatype EncodeResult = EncodeResult(status: Status, bytes: seq<Byte>)

  datatype DecodeResult = DecodeResult(status: Status, value: Sample, hasOffset: bool, offset: nat)

  /** Success, with the error position left as it was initialised. */
  predicate Accepted(r: DecodeResult) { r.status == StatusOk && !r.hasOffset && r.offset == 0 }

  // ----- the runtime's functions, named -----

  function UintBytes(rt: Runtime, width: nat, v: nat): seq<Byte> { rt.putUint(width, v) }

  function BoolBytes(rt: Runtime, v: bool): seq<Byte> { rt.putBool(v) }

  function CountBytes(rt: Runtime, n: nat): seq<Byte> { rt.putVaruint(n) }

  function ElementBytes(rt: Runtime, x: I16): seq<Byte> { rt.putInt16(x) }

  predicate IsText(rt: Runtime, b: seq<Byte>) { rt.validUtf8(b) }

  function RecordBytes(rt: Runtime, fields: seq<Field>): seq<Byte> { rt.putRecord(1, fields) }

  function SizeOf(rt: Runtime, shape: seq<(nat, nat)>): nat { rt.recordSize(shape) }

  // ----- encoding -----

  predicate Has(s: Sample, i: nat)
    requires i < FIELD_COUNT
  {
    match i
    case 0 => s.sequence.has
    case 1 => s.timestampMs.has
    case 2 => s.temperatureBits.has
    case 3 => s.batteryMv.has
    case 4 => s.calibrated.has
    case 5 => s.status.has
    case 6 => s.deviceId.has
    case 7 => s.rawPayload.has
    case _ => s.readings.has
  }

  /** The first check that field `i` fails, or StatusOk. */
  function FieldStatus(rt: Runtime, s: Sample, i: nat): Status
  {
    if i == 5 && s.status.value > 2 then UnknownEnumValue
    else if i == 6 && s.deviceId.length > 16 then BoundsExceeded
    else if i == 6 && !rt.validUtf8(s.deviceId.data[..s.deviceId.length]) then InvalidUtf8
    else if i == 7 && s.rawPayload.length > 8 then BoundsExceeded
    else if i == 8 && s.readings.length > 4 then BoundsExceeded
    else StatusOk
  }

  function PutElements(rt: Runtime, elements: seq<I16>): seq<Byte>
  {
    if elements == [] then []
    else PutElements(rt, elements[..|elements| - 1]) + rt.putInt16(elements[|elements| - 1])
  }

  function FieldBytes(rt: Runtime, s: Sample, i: nat): seq<Byte>
    requires i < FIELD_COUNT && FieldStatus(rt, s, i) == StatusOk
  {
    match i
    case 0 => rt.putUint(4, s.sequence.value)
    case 1 => rt.putUint(8, s.timestampMs.value)
    case 2 => rt.putUint(4, s.temperatureBits.value)
    case 3 => rt.putUint(2, s.batteryMv.value)
    case 4 => rt.putBool(s.calibrated.value)
    case 5 => rt.putUint(1, s.status.value)
    case 6 => s.deviceId.data[..s.deviceId.length]
    case 7 => s.rawPayload.data[..s.rawPayload.length]
    case _ => rt.putVaruint(s.readings.length) + PutElements(rt, s.readings.data[..s.readings.length])
  }

  /** What the encoder does with one field. */
  datatype Item = Skip | Fail(status: Status) | Put(bytes: seq<Byte>)

  function ItemOf(rt: Runtime, s: Sample, i: nat): Item
    requires i < FIELD_COUNT
  {
    if !Has(s, i) then Skip
    else if FieldStatus(rt, s, i) != StatusOk then Fail(FieldStatus(rt, s, i))
    else Put(FieldBytes(rt, s, i))
  }

  function Items(rt: Runtime, s: Sample): (items: seq<Item>)
    ensures |items| == FIELD_COUNT
  {
    seq(FIELD_COUNT, i requires 0 <= i < FIELD_COUNT => ItemOf(rt, s, i))
  }

  /** The fields from index `i` on, or the status of the first one that fails its check. */
  function FieldsFrom(items: seq<Item>, i: nat): Result<seq<Field>>
    requires i <= |items|
    decreases |items| - i
  {
    if i == |items| then Ok([])
    else
      match items[i]
      case Skip => FieldsFrom(items, i + 1)
      case Fail(status) => Err(status)
      case Put(bytes) =>
        var rest := FieldsFrom(items, i + 1);
        if rest.Err? then rest else Ok([Field(i, bytes)] + rest.value)
  }

  function Encode(rt: Runtime, s: Sample, capacity: nat): EncodeResult
  {
    match FieldsFrom(Items(rt, s), 0)
    case Err(status) => EncodeResult(status, [])
    case Ok(fields) =>
      if rt.recordSize(Shape(fields)) <= capacity then EncodeResult(StatusOk, rt.putRecord(1, fields))
      else EncodeResult(rt.tooSmall, [])
  }

  // ----- the size estimate, which performs no checks -----

  function FieldLength(rt: Runtime, s: Sample, i: nat): nat
    requires i < FIELD_COUNT
  {
    match i
    case 0 => |rt.putUint(4, s.sequence.value)|
    case 1 => |rt.putUint(8, s.timestampMs.value)|
    case 2 => |rt.putUint(4, s.temperatureBits.value)|
    case 3 => |rt.putUint(2, s.batteryMv.value)|
    case 4 => |rt.putBool(s.calibrated.value)|
    case 5 => |rt.putUint(1, s.status.value % 256)|
    case 6 => s.deviceId.length
    case 7 => s.rawPayload.length
    case _ =>
      var n := if s.readings.length < 4 then s.readings.length else 4;
      |rt.putVaruint(s.readings.length)| + |PutElements(rt, s.readings.data[..n])|
  }

  datatype Extent = NoField | FieldOf(length: nat)

  function Extents(rt: Runtime, s: Sample): (extents: seq<Extent>)
    ensures |extents| == FIELD_COUNT
  {
    seq(FIELD_COUNT, i requires 0 <= i < FIELD_COUNT =>
      if Has(s, i) then FieldOf(FieldLength(rt, s, i)) else NoField)
  }

  function ShapeFrom(extents: seq<Extent>, i: nat): seq<(nat, nat)>
    requires i <= |extents|
    decreases |extents| - i
  {
    if i == |extents| then []
    else if extents[i] == NoField then ShapeFrom(extents, i + 1)
    else [(i, extents[i].length)] + ShapeFrom(extents, i + 1)
  }

  function EncodedSize(rt: Runtime, s: Sample): nat
  {
    rt.recordSize(ShapeFrom(Extents(rt, s), 0))
  }

  // ----- decoding -----

  /** The result of one field block; a rejected field may leave the value partly written. */
  datatype Step =
    | Stored(value: Sample)
    | Rejected(status: Status, at: nat, value: Sample)

  function GetElements(rt: Runtime, b: seq<Byte>, n: nat): (r: (seq<I16>, Status))
    requires LawfulInt16(rt) && 2 * n <= |b|
    ensures |r.0| <= n
    ensures r.1 == StatusOk ==> |r.0| == n
  {
    if n == 0 then ([], StatusOk)
    else
      var front := GetElements(rt, b, n - 1);
      if front.1 != StatusOk then front
      else
        var last := rt.getInt16(b[2 * n - 2..2 * n]);
        if last.Err? then (front.0, last.status) else (front.0 + [last.value], StatusOk)
  }

  function Overwrite<T>(buffer: seq<T>, prefix: seq<T>): (r: seq<T>)
    requires |prefix| <= |buffer|
    ensures |r| == |buffer|
  {
    prefix + buffer[|prefix|..]
  }

  function Width(i: nat): (w: nat)
    requires i in {0, 1, 2, 3, 5}
    ensures w in {1, 2, 4, 8}
  {
    match i case 0 => 4 case 1 => 8 case 2 => 4 case 3 => 2 case _ => 1
  }

  /** Reads an unsigned scalar of the given width; the length check comes first. */
  function DecodeUint(rt: Runtime, b: seq<Byte>, width: nat): (r: Result<nat>)
    requires LawfulUint(rt) && width in {1, 2, 4, 8}
    ensures r.Ok? ==> |b| == width && r.value < Capacity(width)
    ensures r.Err? ==> r.status != StatusOk
  {
    if |b| != width then Err(InvalidFieldLength) else rt.getUint(b)
  }

  function StoreUint(i: nat, n: nat, acc: Sample): Sample
    requires i in {0, 1, 2, 3, 5} && n < Capacity(Width(i))
  {
    CapacityValues();
    match i
    case 0 => acc.(sequence := Slot(true, n))
    case 1 => acc.(timestampMs := Slot(true, n))
    case 2 => acc.(temperatureBits := Slot(true, n))
    case 3 => acc.(batteryMv := Slot(true, n))
    case _ => acc.(status := Slot(true, n))
  }

  function DecodeUintField(rt: Runtime, i: nat, v: View, acc: Sample): Step
    requires LawfulUint(rt) && i in {0, 1, 2, 3, 5}
  {
    match DecodeUint(rt, v.bytes, Width(i))
    case Err(status) => Rejected(status, v.offset, acc)
    case Ok(n) =>
      if i == 5 && n > 2 then Rejected(UnknownEnumValue, v.offset, acc) else Stored(StoreUint(i, n, acc))
  }

  function DecodeCalibrated(rt: Runtime, v: View, acc: Sample): Step
  {
    if |v.bytes| != 1 then Rejected(InvalidFieldLength, v.offset, acc)
    else
      match rt.getBool(v.bytes)
      case Err(status) => Rejected(status, v.offset, acc)
      case Ok(flag) => Stored(acc.(calibrated := Slot(true, flag)))
  }

  function DecodeDeviceId(rt: Runtime, v: View, acc: Sample): Step
  {
    if |v.bytes| > 16 then Rejected(rt.tooLong, v.offset, acc)
    else
      var copied := Overwrite(acc.deviceId.data, v.bytes);
      if !rt.validUtf8(v.bytes) then Rejected(InvalidUtf8, v.offset, acc.(deviceId := acc.deviceId.(data := copied)))
      else Stored(acc.(deviceId := Buffer(true, copied[|v.bytes| := 0], |v.bytes|)))
  }

  function DecodeRawPayload(rt: Runtime, v: View, acc: Sample): Step
  {
    if |v.bytes| > 8 then Rejected(rt.tooLong, v.offset, acc)
    else Stored(acc.(rawPayload := Buffer(true, Overwrite(acc.rawPayload.data, v.bytes), |v.bytes|)))
  }

  function DecodeReadings(rt: Runtime, v: View, acc: Sample): Step
    requires LawfulVaruint(rt) && LawfulInt16(rt)
  {
    match rt.getVaruint(v.bytes)
    case Err(status) => Rejected(status, v.offset, acc)
    case Ok(Varuint(count, used)) =>
      if count > 4 then Rejected(BoundsExceeded, v.offset, acc)
      else if |v.bytes| - used != 2 * count then Rejected(InvalidFieldLength, v.offset + used, acc)
      else
        var (elements, status) := GetElements(rt, v.bytes[used..], count);
        var filled := Overwrite(acc.readings.data, elements);
        if status != StatusOk then
          Rejected(status, v.offset + used + 2 * |elements|, acc.(readings := acc.readings.(data := filled)))
        else Stored(acc.(readings := Buffer(true, filled, count)))
  }

  /** The block of the decoder for field `i`, once the container has produced `v` for it. */
  function DecodeField(rt: Runtime, i: nat, v: View, acc: Sample): Step
    requires Lawful(rt) && i < FIELD_COUNT
  {
    match i
    case 4 => DecodeCalibrated(rt, v, acc)
    case 6 => DecodeDeviceId(rt, v, acc)
    case 7 => DecodeRawPayload(rt, v, acc)
    case 8 => DecodeReadings(rt, v, acc)
    case _ => DecodeUintField(rt, i, v, acc)
  }

  /** The nine blocks of the decoder as one function. */
  function Blocks(rt: Runtime): (nat, View, Sample) -> Step
    requires Lawful(rt)
  {
    (i: nat, v: View, acc: Sample) => if i < FIELD_COUNT then DecodeField(rt, i, v, acc) else Stored(acc)
  }

  /** Runs the blocks from `i` on, each on the field found for it; the first rejection ends the run. */
  function DecodeFrom(blocks: (nat, View, Sample) -> Step, views: seq<View>, i: nat, acc: Sample): DecodeResult
    requires i <= FIELD_COUNT
    decreases FIELD_COUNT - i
  {
    if i == FIELD_COUNT then DecodeResult(StatusOk, acc, false, 0)
    else
      match Find(views, i)
      case Absent => DecodeFrom(blocks, views, i + 1, acc)
      case Present(v) =>
        match blocks(i, v, acc)
        case Stored(value) => DecodeFrom(blocks, views, i + 1, value)
        case Rejected(status, at, value) => DecodeResult(status, value, true, at)
  }

  function Decode(rt: Runtime, input: seq<Byte>): DecodeResult
    requires Lawful(rt)
  {
    match rt.parseRecord(input)
    case Malformed(status, offset) =>
      if status == UnsupportedFieldCount then DecodeResult(status, ZeroSample(), false, 0)
      else DecodeResult(status, ZeroSample(), true, offset)
    case Parsed(recordId, views) =>
      if recordId != 1 then DecodeResult(UnexpectedRecordId, ZeroSample(), true, 0)
      else DecodeFrom(Blocks(rt), views, 0, ZeroSample())
  }
}
