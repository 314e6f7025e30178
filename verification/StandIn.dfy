/** A concrete runtime that meets the contract of module RuntimeContract.

    The byte formats here (little-endian scalars, base-128 counts, a record of
    length-prefixed fields) stand in for a library whose source is not part of
    this model. Their only purpose is to show that `Lawful` can be satisfied. */
module StandIn {
  import opened Words
  import opened RuntimeContract

  const TruncatedRecord := OtherStatus(1)
  const TrailingBytes := OtherStatus(2)
  const BadScalar := OtherStatus(3)
  const OutputTooSmall := OtherStatus(4)

  function PutUint(width: nat, v: nat): seq<Byte> { LittleEndian(width, v) }

  function GetUint(b: seq<Byte>): Result<nat> { Ok(FromLittleEndian(b)) }

  function PutInt16(v: int): seq<Byte> { LittleEndian(2, v % TWO_16) }

  function GetInt16(b: seq<Byte>): Result<int> {
    if |b| != 2 then Err(BadScalar)
    else if FromLittleEndian(b) < 0x8000 then Ok(FromLittleEndian(b))
    else if FromLittleEndian(b) < TWO_16 then Ok(FromLittleEndian(b) - TWO_16)
    else Err(BadScalar)
  }

  function PutBool(v: bool): seq<Byte> { if v then [1] else [0] }

  function GetBool(b: seq<Byte>): Result<bool> {
    if b == [0] then Ok(false) else if b == [1] then Ok(true) else Err(BadScalar)
  }

  function PutVaruint(v: nat): (b: seq<Byte>)
  {
    if v < 128 then [v] else [128 + v % 128] + PutVaruint(v / 128)
  }

  function GetVaruint(b: seq<Byte>): (r: Result<Varuint>)
    ensures r.Ok? ==> r.value.used <= |b|
    ensures r.Err? ==> r.status != StatusOk
  {
    if b == [] then Err(TruncatedRecord)
    else if b[0] < 128 then Ok(Varuint(b[0], 1))
    else
      var rest := GetVaruint(b[1..]);
      if rest.Err? then rest
      else Ok(Varuint(b[0] - 128 + 128 * rest.value.value, 1 + rest.value.used))
  }

  function Pow128(n: nat): (c: nat)
    ensures c > 0
  {
    if n == 0 then 1 else 128 * Pow128(n - 1)
  }

  lemma {:induction false} VaruintLength(v: nat, n: nat)
    requires 0 < n && v < Pow128(n)
    ensures |PutVaruint(v)| <= n
  {
    if 128 <= v {
      assert n != 1 by { assert Pow128(1) == 128; }
      VaruintLength(v / 128, n - 1);
    }
  }

  lemma {:induction false} VaruintReadsBack(v: nat, rest: seq<Byte>)
    ensures GetVaruint(PutVaruint(v) + rest) == Ok(Varuint(v, |PutVaruint(v)|))
  {
    if 128 <= v {
      VaruintReadsBack(v / 128, rest);
      assert (PutVaruint(v) + rest)[1..] == PutVaruint(v / 128) + rest;
    }
  }

  function AllSeven(b: seq<Byte>): bool { forall i | 0 <= i < |b| :: b[i] < 0x80 }

  /** One field on the wire: its index, its length, its bytes. */
  function Body(fields: seq<Field>): (b: seq<Byte>)
  {
    if fields == [] then []
    else [fields[0].index % 256, |fields[0].bytes| % 256] + fields[0].bytes + Body(fields[1..])
  }

  function BodySize(shape: seq<(nat, nat)>): nat
  {
    if shape == [] then 0 else 2 + shape[0].1 + BodySize(shape[1..])
  }

  function RecordSize(shape: seq<(nat, nat)>): nat { 2 + BodySize(shape) }

  function PutRecord(id: nat, fields: seq<Field>): seq<Byte>
  {
    [id % 256, |fields| % 256] + Body(fields)
  }

  /** Parses `n` fields from `b`, which is the input from position `at` on. */
  function ParseBody(b: seq<Byte>, at: nat, n: nat): (r: ParseResult)
    ensures r.Malformed? ==> r.status != StatusOk && at <= r.offset <= at + |b|
    ensures r.Parsed? ==> forall v | v in r.views :: Locates(v, b, at)
    decreases n
  {
    if n == 0 then if b == [] then Parsed(0, []) else Malformed(TrailingBytes, at)
    else if |b| < 2 || |b| - 2 < b[1] then Malformed(TruncatedRecord, at)
    else
      var next: nat := 2 + b[1] as int;
      var rest := ParseBody(b[next..], at + next, n - 1);
      if rest.Malformed? then rest
      else
        assert forall v | v in rest.views :: Locates(v, b, at) by {
          forall v | v in rest.views ensures Locates(v, b, at) { LocatesInLonger(v, b, at, next); }
        }
        Parsed(0, [View(b[0], b[2..next], at + 2)] + rest.views)
  }

  predicate Locates(v: View, b: seq<Byte>, at: nat)
  {
    at <= v.offset && v.offset + |v.bytes| <= at + |b| && v.bytes == b[v.offset - at..v.offset - at + |v.bytes|]
  }

  lemma LocatesInLonger(v: View, b: seq<Byte>, at: nat, skip: nat)
    requires skip <= |b| && Locates(v, b[skip..], at + skip)
    ensures Locates(v, b, at)
  {
    var from := v.offset - at - skip;
    assert b[skip..][from..from + |v.bytes|] == b[v.offset - at..v.offset - at + |v.bytes|];
  }

  function ParseRecord(b: seq<Byte>): (r: ParseResult)
    ensures r.Malformed? ==> r.status != StatusOk && r.offset <= |b|
    ensures r.Parsed? ==> forall v | v in r.views ::
                            v.offset + |v.bytes| <= |b| && v.bytes == b[v.offset..v.offset + |v.bytes|]
  {
    if |b| < 2 then Malformed(TruncatedRecord, 0)
    else
      var body := ParseBody(b[2..], 2, b[1]);
      if body.Malformed? then body
      else
        assert forall v | v in body.views :: Locates(v, b, 0) by {
          forall v | v in body.views ensures Locates(v, b, 0) { LocatesInLonger(v, b, 0, 2); }
        }
        Parsed(b[0], body.views)
  }

  lemma {:induction false} BodyHasSize(fields: seq<Field>)
    ensures |Body(fields)| == BodySize(Shape(fields))
  {
    if fields != [] {
      BodyHasSize(fields[1..]);
      assert Shape(fields)[1..] == Shape(fields[1..]);
    }
  }

  lemma {:induction false} BodyParsesBack(fields: seq<Field>, at: nat)
    requires forall i | 0 <= i < |fields| :: fields[i].index < 256 && |fields[i].bytes| < 256
    ensures var r := ParseBody(Body(fields), at, |fields|);
            r.Parsed? && SameFields(r.views, fields)
    decreases |fields|
  {
    if fields != [] {
      var next := 2 + |fields[0].bytes|;
      FirstOfBody(fields);
      BodyParsesBack(fields[1..], at + next);
      var rest := ParseBody(Body(fields[1..]), at + next, |fields| - 1);
      assert ParseBody(Body(fields), at, |fields|)
          == Parsed(0, [View(fields[0].index, fields[0].bytes, at + 2)] + rest.views);
    }
  }

  lemma FirstOfBody(fields: seq<Field>)
    requires fields != [] && fields[0].index < 256 && |fields[0].bytes| < 256
    ensures var b, next := Body(fields), 2 + |fields[0].bytes|;
            && |b| >= next && b[0] == fields[0].index && b[1] == |fields[0].bytes|
            && b[2..next] == fields[0].bytes && b[next..] == Body(fields[1..])
  {
    var head: seq<Byte> := [fields[0].index % 256, |fields[0].bytes| % 256];
    assert Body(fields) == head + fields[0].bytes + Body(fields[1..]);
  }

  lemma {:induction false} StrictlyIncreasing(fields: seq<Field>, i: nat)
    requires Storable(fields) && i < |fields|
    ensures i <= fields[i].index
  {
    if i > 0 { StrictlyIncreasing(fields, i - 1); }
  }

  lemma HeaderOfRecord(fields: seq<Field>)
    requires |fields| < 256
    ensures var b := PutRecord(1, fields);
            |b| == 2 + |Body(fields)| && b[0] == 1 && b[1] == |fields| && b[2..] == Body(fields)
  {
    var header: seq<Byte> := [1 % 256, |fields| % 256];
    assert PutRecord(1, fields) == header + Body(fields);
  }

  lemma RecordParsesBack(fields: seq<Field>)
    requires Storable(fields)
    ensures |PutRecord(1, fields)| == RecordSize(Shape(fields))
    ensures var p := ParseRecord(PutRecord(1, fields));
            p.Parsed? && p.recordId == 1 && SameFields(p.views, fields)
  {
    if fields != [] { StrictlyIncreasing(fields, |fields| - 1); }
    BodyHasSize(fields);
    HeaderOfRecord(fields);
    BodyParsesBack(fields, 2);
  }

  function StandInRuntime(): Runtime
  {
    Runtime(PutUint, GetUint, PutInt16, GetInt16, PutBool, GetBool, PutVaruint, GetVaruint, AllSeven,
            RecordSize, PutRecord, ParseRecord, OutputTooSmall, BoundsExceeded)
  }

  lemma Int16ReadsBack(v: int)
    requires -0x8000 <= v < 0x8000
    ensures |PutInt16(v)| == 2 && GetInt16(PutInt16(v)) == Ok(v)
  {
    CapacityValues();
    LittleEndianReadsBack(2, v % TWO_16);
  }

  lemma UintIsLawful()
    ensures LawfulUint(StandInRuntime())
  {
    var rt := StandInRuntime();
    forall w: nat, v: nat | w in {1, 2, 4, 8} && v < Capacity(w)
      ensures |rt.putUint(w, v)| == w && rt.getUint(rt.putUint(w, v)) == Ok(v)
    {
      LittleEndianReadsBack(w, v);
    }
  }

  lemma Int16IsLawful()
    ensures LawfulInt16(StandInRuntime())
  {
    var rt := StandInRuntime();
    forall v: int | -0x8000 <= v < 0x8000
      ensures |rt.putInt16(v)| == 2 && rt.getInt16(rt.putInt16(v)) == Ok(v)
    {
      Int16ReadsBack(v);
    }
  }

  lemma VaruintIsLawful()
    ensures LawfulVaruint(StandInRuntime())
  {
    var rt := StandInRuntime();
    forall v: nat | v < TWO_32 ensures |rt.putVaruint(v)| <= 5 {
      assert Pow128(5) == 128 * Pow128(4) == 128 * 128 * Pow128(3) == 128 * 128 * 128 * Pow128(2);
      VaruintLength(v, 5);
    }
    forall v: nat, rest: seq<Byte> | v < TWO_32
      ensures rt.getVaruint(rt.putVaruint(v) + rest) == Ok(Varuint(v, |rt.putVaruint(v)|))
    {
      VaruintReadsBack(v, rest);
    }
  }

  lemma RecordIsLawful()
    ensures LawfulRecord(StandInRuntime())
  {
    var rt := StandInRuntime();
    forall fields: seq<Field> | Storable(fields)
      ensures && |rt.putRecord(1, fields)| == rt.recordSize(Shape(fields))
              && var p := rt.parseRecord(rt.putRecord(1, fields));
                 p.Parsed? && p.recordId == 1 && SameFields(p.views, fields)
    {
      RecordParsesBack(fields);
    }
  }

  lemma FlagsAndTextAreLawful()
    ensures LawfulBool(StandInRuntime()) && LawfulUtf8(StandInRuntime())
  {
  }

  /** The contract of the runtime is consistent. */
  lemma RuntimeIsLawful()
    ensures Lawful(StandInRuntime())
  {
    UintIsLawful();
    FlagsAndTextAreLawful();
    Int16IsLawful();
    VaruintIsLawful();
    RecordIsLawful();
  }
}
