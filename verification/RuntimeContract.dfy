/** The serialization runtime that the generated codec links against.

    The runtime is a separate library, so it appears here as a record of
    functions together with the contract `Lawful` that the codec relies on.
    Every theorem about the codec is about all lawful runtimes; module StandIn
    exhibits one. */
module RuntimeContract {
  import opened Words

  datatype Status =
    | StatusOk
    | BoundsExceeded
    | InvalidUtf8
    | UnknownEnumValue
    | InvalidFieldLength
    | UnexpectedRecordId
    | UnsupportedFieldCount
    | OtherStatus(code: nat)

  datatype Result<+T> = Ok(value: T) | Err(status: Status)

  /** A field handed to the container writer. */
  datatype Field = Field(index: nat, bytes: seq<Byte>)

  /** A field located by the container parser; `offset` is its position in the input. */
  datatype View = View(index: nat, bytes: seq<Byte>, offset: nat)

  datatype ParseResult =
    | Parsed(recordId: nat, views: seq<View>)
    | Malformed(status: Status, offset: nat)

  /** A count read from the front of a byte string, and the bytes it took. */
  datatype Varuint = Varuint(value: nat, used: nat)

  datatype Runtime = Runtime(
    putUint: (nat, nat) -> seq<Byte>,
    getUint: seq<Byte> -> Result<nat>,
    putInt16: int -> seq<Byte>,
    getInt16: seq<Byte> -> Result<int>,
    putBool: bool -> seq<Byte>,
    getBool: seq<Byte> -> Result<bool>,
    putVaruint: nat -> seq<Byte>,
    getVaruint: seq<Byte> -> Result<Varuint>,
    validUtf8: seq<Byte> -> bool,
    recordSize: seq<(nat, nat)> -> nat,
    putRecord: (nat, seq<Field>) -> seq<Byte>,
    parseRecord: seq<Byte> -> ParseResult,
    tooSmall: Status,
    tooLong: Status
  )

  datatype Lookup = Absent | Present(view: View)

  /** The first field with the given index, if there is one. */
  function Find(views: seq<View>, index: nat): Lookup
  {
    if views == [] then Absent
    else if views[0].index == index then Present(views[0])
    else Find(views[1..], index)
  }

  const FIELD_COUNT := 9
  const LONGEST_FIELD := 16

  /** What the container writer is asked to store: fields in increasing order, all short. */
  ghost predicate Storable(fields: seq<Field>)
  {
    && (forall i | 0 <= i < |fields| :: fields[i].index < FIELD_COUNT && |fields[i].bytes| <= LONGEST_FIELD)
    && (forall i, j | 0 <= i < j < |fields| :: fields[i].index < fields[j].index)
  }

  /** The (index, length) pairs that determine the size of a record. */
  function Shape(fields: seq<Field>): (shape: seq<(nat, nat)>)
    ensures |shape| == |fields|
  {
    if fields == [] then [] else [(fields[0].index, |fields[0].bytes|)] + Shape(fields[1..])
  }

  ghost predicate SameFields(views: seq<View>, fields: seq<Field>)
  {
    && |views| == |fields|
    && forall i | 0 <= i < |views| :: views[i].index == fields[i].index && views[i].bytes == fields[i].bytes
  }

  ghost predicate LawfulUint(rt: Runtime)
  {
    && (forall w: nat, v: nat | w in {1, 2, 4, 8} && v < Capacity(w) ::
          |rt.putUint(w, v)| == w && rt.getUint(rt.putUint(w, v)) == Ok(v))
    && (forall b: seq<Byte> | rt.getUint(b).Ok? :: rt.getUint(b).value < Capacity(|b|))
    && (forall b: seq<Byte> | rt.getUint(b).Err? :: rt.getUint(b).status != StatusOk)
  }

  ghost predicate LawfulInt16(rt: Runtime)
  {
    && (forall v: int | -0x8000 <= v < 0x8000 :: |rt.putInt16(v)| == 2 && rt.getInt16(rt.putInt16(v)) == Ok(v))
    && (forall b: seq<Byte> | rt.getInt16(b).Ok? :: -0x8000 <= rt.getInt16(b).value < 0x8000)
    && (forall b: seq<Byte> | rt.getInt16(b).Err? :: rt.getInt16(b).status != StatusOk)
  }

  ghost predicate LawfulBool(rt: Runtime)
  {
    && |rt.putBool(true)| == 1 && rt.getBool(rt.putBool(true)) == Ok(true)
    && |rt.putBool(false)| == 1 && rt.getBool(rt.putBool(false)) == Ok(false)
    && (forall b: seq<Byte> | rt.getBool(b).Err? :: rt.getBool(b).status != StatusOk)
  }

  /** A 32-bit count takes at most five bytes and is read back from the front of any longer input. */
  ghost predicate LawfulVaruint(rt: Runtime)
  {
    && (forall v: nat | v < TWO_32 :: |rt.putVaruint(v)| <= 5)
    && (forall v: nat, rest: seq<Byte> | v < TWO_32 ::
          rt.getVaruint(rt.putVaruint(v) + rest) == Ok(Varuint(v, |rt.putVaruint(v)|)))
    && (forall b: seq<Byte> | rt.getVaruint(b).Ok? :: rt.getVaruint(b).value.used <= |b|)
    && (forall b: seq<Byte> | rt.getVaruint(b).Err? :: rt.getVaruint(b).status != StatusOk)
  }

  ghost predicate LawfulRecord(rt: Runtime)
  {
    && rt.tooSmall != StatusOk && rt.tooLong != StatusOk
    && (forall fields: seq<Field> | Storable(fields) ::
          && |rt.putRecord(1, fields)| == rt.recordSize(Shape(fields))
          && var p := rt.parseRecord(rt.putRecord(1, fields));
             p.Parsed? && p.recordId == 1 && SameFields(p.views, fields))
    && (forall b: seq<Byte>, v: View | rt.parseRecord(b).Parsed? && v in rt.parseRecord(b).views ::
          v.offset + |v.bytes| <= |b| && v.bytes == b[v.offset..v.offset + |v.bytes|])
    && (forall b: seq<Byte> | rt.parseRecord(b).Malformed? ::
          rt.parseRecord(b).status != StatusOk && rt.parseRecord(b).offset <= |b|)
  }

  /** Text made of 7-bit characters only is valid UTF-8 (section 3 of RFC 3629). */
  ghost predicate LawfulUtf8(rt: Runtime)
  {
    forall b: seq<Byte> | (forall i | 0 <= i < |b| :: b[i] < 0x80) :: rt.validUtf8(b)
  }

  ghost predicate Lawful(rt: Runtime)
  {
    LawfulUint(rt) && LawfulInt16(rt) && LawfulBool(rt) && LawfulVaruint(rt) && LawfulRecord(rt) && LawfulUtf8(rt)
  }
}
