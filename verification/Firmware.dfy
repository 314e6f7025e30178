/** The benchmark that runs on the microcontroller and publishes its result struct word by word. */
module Firmware {
  import opened Words
  import opened RuntimeContract
  import opened Codec
  import opened Layout
  import opened Overhead
  import opened Stack
  import opened BenchRecord

  const BUFFER_CAPACITY := 256

  /** What one call of the encoder under test leaves behind. */
  datatype EncodeCall = EncodeCall(status: Status, written: nat, buffer: seq<Byte>)

  /** The microcontroller and the codec under test. Calls and counter reads are numbered, so that
      nothing forces two calls to agree. */
  datatype Device = Device(
    hasDwt: bool,
    clock: nat -> nat,
    encode: nat -> EncodeCall,
    decode: (nat, seq<Byte>) -> DecodeResult,
    statusWord: Status -> U32
  )

  /** The encoder stays inside the buffer it was given. */
  ghost predicate Sane(dev: Device)
  {
    forall n: nat :: dev.encode(n).written <= BUFFER_CAPACITY == |dev.encode(n).buffer|
  }

  // ----- the check of a decoded sample -----

  /** IEEE 754 binary32 (section 3.4): an all-ones exponent with a nonzero fraction. */
  predicate IsNan(bits: U32) { bits % 0x8000_0000 > 0x7F80_0000 }

  /** Equality of floats given by their bits: NaN equals nothing, the two zeros are equal. */
  predicate FloatEq(a: U32, b: U32)
  {
    !IsNan(a) && !IsNan(b) && (a == b || (a % 0x8000_0000 == 0 && b % 0x8000_0000 == 0))
  }

  /** `d` has all fields, with the values of `s`, in use parts of buffers included. */
  predicate Matches(s: Sample, d: Sample)
  {
    && d.sequence == Slot(true, s.sequence.value)
    && d.timestampMs == Slot(true, s.timestampMs.value)
    && d.temperatureBits.has && FloatEq(d.temperatureBits.value, s.temperatureBits.value)
    && d.batteryMv == Slot(true, s.batteryMv.value)
    && d.calibrated == Slot(true, s.calibrated.value)
    && d.status == Slot(true, s.status.value)
    && SameContents(s.deviceId, d.deviceId)
    && SameContents(s.rawPayload, d.rawPayload)
    && SameContents(s.readings, d.readings)
  }

  predicate SameContents(s: Buffer<int>, d: Buffer<int>)
  {
    && d.has && d.length == s.length
    && forall k | 0 <= k < s.length && k < |s.data| && k < |d.data| :: d.data[k] == s.data[k]
  }

  /** The lengths in use lie within the arrays, as comparing the arrays demands. */
  predicate Bounded(s: Sample)
  {
    s.deviceId.length <= 17 && s.rawPayload.length <= 8 && s.readings.length <= 4
  }

  /** Compares the first `length` elements. */
  method SameElements(s: seq<int>, d: seq<int>, length: nat) returns (same: bool)
    requires length <= |s| && length <= |d|
    ensures same <==> forall k | 0 <= k < length :: d[k] == s[k]
  {
    for i := 0 to length
      invariant forall k | 0 <= k < i :: d[k] == s[k]
    {
      if d[i] != s[i] { return false; }
    }
    return true;
  }

  method ValidateDecoded(original: Sample, decoded: Sample) returns (valid: bool)
    requires Bounded(original)
    ensures valid == Matches(original, decoded)
  {
    if !decoded.sequence.has || decoded.sequence.value != original.sequence.value { return false; }
    if !decoded.timestampMs.has || decoded.timestampMs.value != original.timestampMs.value { return false; }
    if !decoded.temperatureBits.has || !FloatEq(decoded.temperatureBits.value, original.temperatureBits.value) { return false; }
    if !decoded.batteryMv.has || decoded.batteryMv.value != original.batteryMv.value { return false; }
    if !decoded.calibrated.has || decoded.calibrated.value != original.calibrated.value { return false; }
    if !decoded.status.has || decoded.status.value != original.status.value { return false; }
    if !decoded.deviceId.has || decoded.deviceId.length != original.deviceId.length { return false; }
    valid := SameElements(original.deviceId.data, decoded.deviceId.data, original.deviceId.length);
    if !valid { return; }
    if !decoded.rawPayload.has || decoded.rawPayload.length != original.rawPayload.length { return false; }
    valid := SameElements(original.rawPayload.data, decoded.rawPayload.data, original.rawPayload.length);
    if !valid { return; }
    if !decoded.readings.has || decoded.readings.length != original.readings.length { return false; }
    valid := SameElements(original.readings.data, decoded.readings.data, original.readings.length);
  }

  // ----- aggregates -----

  function MinOf(deltas: seq<U32>): U32
  {
    if deltas == [] then 0xFFFF_FFFF
    else
      var rest, x := MinOf(deltas[..|deltas| - 1]), deltas[|deltas| - 1];
      if x < rest then x else rest
  }

  function MaxOf(deltas: seq<U32>): U32
  {
    if deltas == [] then 0
    else
      var rest, x := MaxOf(deltas[..|deltas| - 1]), deltas[|deltas| - 1];
      if x > rest then x else rest
  }

  lemma {:induction false} ExtremesAreAttained(deltas: seq<U32>)
    ensures forall x | x in deltas :: MinOf(deltas) <= x <= MaxOf(deltas)
    ensures deltas != [] ==> MinOf(deltas) in deltas && MaxOf(deltas) in deltas
  {
    if deltas != [] {
      var front, last := deltas[..|deltas| - 1], deltas[|deltas| - 1];
      ExtremesAreAttained(front);
      forall x | x in deltas ensures MinOf(deltas) <= x <= MaxOf(deltas) {
        assert x in front || x == last;
      }
      if front == [] {
        assert MinOf(front) == 0xFFFF_FFFF && MaxOf(front) == 0;
      } else {
        assert forall x | x in front :: x in deltas;
      }
    }
  }

  function SumOf(deltas: seq<U32>): (sum: nat)
    ensures sum <= |deltas| * 0xFFFF_FFFF
  {
    if deltas == [] then 0 else SumOf(deltas[..|deltas| - 1]) + deltas[|deltas| - 1]
  }

  lemma {:induction false} SumIsBetween(deltas: seq<U32>, lo: nat, hi: nat)
    requires forall x | x in deltas :: lo <= x <= hi
    ensures |deltas| * lo <= SumOf(deltas) <= |deltas| * hi
  {
    if deltas != [] {
      var front, n := deltas[..|deltas| - 1], |deltas| - 1;
      forall x | x in front ensures lo <= x <= hi { assert x in deltas; }
      assert lo <= deltas[n] <= hi by { assert deltas[n] in deltas; }
      SumIsBetween(front, lo, hi);
      assert (n + 1) * lo == n * lo + lo && (n + 1) * hi == n * hi + hi;
    }
  }

  function BadIterations(bad: nat -> bool, n: nat): set<nat> { set i: nat | i < n && bad(i) }

  /** How many of the first `n` iterations are bad. */
  function BadCount(bad: nat -> bool, n: nat): (count: nat)
    ensures count <= n
  {
    FewAreBad(bad, n);
    |BadIterations(bad, n)|
  }

  lemma {:induction false} FewAreBad(bad: nat -> bool, n: nat)
    ensures |BadIterations(bad, n)| <= n
  {
    if n > 0 {
      FewAreBad(bad, n - 1);
      OneMoreIteration(bad, n - 1);
    }
  }

  lemma OneMoreIteration(bad: nat -> bool, n: nat)
    ensures |BadIterations(bad, n + 1)| == |BadIterations(bad, n)| + if bad(n) then 1 else 0
  {
    assert BadIterations(bad, n + 1) == if bad(n) then BadIterations(bad, n) + {n} else BadIterations(bad, n);
  }

  // ----- the result struct in memory -----

  /** One 32-bit store to the struct. */
  datatype Store = Store(at: nat, value: U32)

  /** The word at `k` after these stores to zeroed memory. */
  function WordAfter(log: seq<Store>, k: nat): U32
  {
    if log == [] then 0
    else
      var last := log[|log| - 1];
      if last.at == k then last.value else WordAfter(log[..|log| - 1], k)
  }

  /** A run that has announced itself and is not done: magic, version and state are not written again. */
  ghost predicate Begun(log: seq<Store>)
  {
    && |log| >= 3
    && log[0] == Store(MAGIC_AT, MAGIC)
    && log[1] == Store(VERSION_AT, VERSION)
    && log[2] == Store(STATE_AT, STATE_TEST_STARTED)
    && forall i | 3 <= i < |log| :: log[i].at > STATE_AT
  }

  /** A whole run: the last store, and no other, sets the state to complete. */
  ghost predicate Published(log: seq<Store>)
  {
    log != [] && Begun(log[..|log| - 1]) && log[|log| - 1] == Store(STATE_AT, STATE_TEST_COMPLETE)
  }

  class Board {
    const words: array<U32>
    ghost var log: seq<Store>

    ghost predicate Valid()
      reads this, words
    {
      && words.Length == STRUCT_WORDS
      && forall k | 0 <= k < STRUCT_WORDS :: words[k] == WordAfter(log, k)
    }

    constructor ()
      ensures Valid() && fresh(words) && log == []
      ensures forall k | 0 <= k < STRUCT_WORDS :: words[k] == 0
    {
      words := new U32[STRUCT_WORDS](_ => 0);
      log := [];
    }

    method Put(at: nat, value: U32)
      requires Valid() && at < STRUCT_WORDS
      modifies this, words
      ensures Valid() && log == old(log) + [Store(at, value)]
      ensures words[..] == old(words[..])[at := value]
    {
      words[at] := value;
      log := log + [Store(at, value)];
      forall k | 0 <= k < STRUCT_WORDS ensures words[k] == WordAfter(log, k) {
        assert log[..|log| - 1] == old(log);
        assert old(words[k]) == WordAfter(old(log), k);
      }
    }

    /** A 64-bit field takes two stores. */
    method PutLong(at: nat, value: U64)
      requires Valid() && Begun(log) && STATE_AT < at && at + 1 < STRUCT_WORDS
      modifies this, words
      ensures Valid() && Begun(log)
      ensures words[..] == old(words[..])[at := value % TWO_32][at + 1 := value / TWO_32]
    {
      Put(at, value % TWO_32);
      Put(at + 1, value / TWO_32);
    }
  }

  // ----- the timed loops -----

  /** Where one loop keeps its minimum, with the maximum next to it, its sum and its samples. */
  datatype Loop = Loop(min: nat, sum: nat, samples: nat)

  const ENCODE_LOOP := Loop(ENCODE_MIN_AT, ENCODE_SUM_AT, PREFIX_WORDS)
  const DECODE_LOOP := Loop(DECODE_MIN_AT, DECODE_SUM_AT, PREFIX_WORDS + ITERATIONS)
  const ROUNDTRIP_LOOP := Loop(ROUNDTRIP_MIN_AT, ROUNDTRIP_SUM_AT, PREFIX_WORDS + 2 * ITERATIONS)

  /** The words of a loop follow the common fields and do not overlap one another. */
  predicate IsLoop(l: Loop)
  {
    && FAILURES_AT < l.min && l.min + 2 <= l.sum && l.sum + 2 <= PREFIX_WORDS
    && PREFIX_WORDS <= l.samples && l.samples + ITERATIONS <= STRUCT_WORDS
  }

  /** The words that a loop writes. */
  predicate Owns(l: Loop, k: nat)
  {
    || k == FAILURES_AT || l.min <= k < l.min + 2 || l.sum <= k < l.sum + 2
    || l.samples <= k < l.samples + ITERATIONS
  }

  ghost predicate SameElsewhere(l: Loop, before: seq<U32>, after: seq<U32>)
  {
    |before| == |after| && forall k | 0 <= k < |before| && !Owns(l, k) :: after[k] == before[k]
  }

  ghost predicate OthersSame(before: seq<U32>, after: seq<U32>, a: nat, b: nat)
  {
    |before| == |after| && forall k | 0 <= k < |before| && k != a && k != b :: after[k] == before[k]
  }

  /** The aggregates and samples of a loop whose iterations so far took `deltas`. */
  ghost predicate Recorded(l: Loop, words: seq<U32>, deltas: seq<U32>)
  {
    && |words| == STRUCT_WORDS && IsLoop(l) && |deltas| <= ITERATIONS
    && words[l.min] == MinOf(deltas)
    && words[l.min + 1] == MaxOf(deltas)
    && FieldAt(words, l.sum, Long) == SumOf(deltas)
    && forall i | 0 <= i < |deltas| :: words[l.samples + i] == deltas[i]
  }

  /** A loop that started when memory was `w0`, after iterations that took `deltas` with `failed` of them bad. */
  ghost predicate Progress(l: Loop, w0: seq<U32>, words: seq<U32>, deltas: seq<U32>, failed: nat)
  {
    && Recorded(l, words, deltas) && SameElsewhere(l, w0, words)
    && words[FAILURES_AT] == w0[FAILURES_AT] + failed
    && words[FAILURES_AT] < 3 * ITERATIONS + |deltas|
  }

  method StartLoop(board: Board, l: Loop)
    requires board.Valid() && Begun(board.log) && IsLoop(l) && board.words[FAILURES_AT] < 3 * ITERATIONS
    modifies board, board.words
    ensures board.Valid() && Begun(board.log)
    ensures Progress(l, old(board.words[..]), board.words[..], [], 0)
  {
    board.Put(l.min, 0xFFFF_FFFF);
    board.Put(l.min + 1, 0);
    board.PutLong(l.sum, 0);
  }

  /** Adds to a 64-bit field: both of its words are loaded and stored. */
  method AddToSum(board: Board, at: nat, delta: U32)
    requires board.Valid() && Begun(board.log) && STATE_AT < at && at + 1 < STRUCT_WORDS
    requires FieldAt(board.words[..], at, Long) + delta < TWO_64
    modifies board, board.words
    ensures board.Valid() && Begun(board.log)
    ensures FieldAt(board.words[..], at, Long) == FieldAt(old(board.words[..]), at, Long) + delta
    ensures OthersSame(old(board.words[..]), board.words[..], at, at + 1)
  {
    var sum := board.words[at] + TWO_32 * board.words[at + 1];
    board.PutLong(at, (sum + delta) % TWO_64);
  }

  method KeepExtremes(board: Board, l: Loop, delta: U32)
    requires board.Valid() && Begun(board.log) && IsLoop(l)
    modifies board, board.words
    ensures board.Valid() && Begun(board.log)
    ensures board.words[l.min] == if delta < old(board.words[l.min]) then delta else old(board.words[l.min])
    ensures board.words[l.min + 1] == if delta > old(board.words[l.min + 1]) then delta else old(board.words[l.min + 1])
    ensures OthersSame(old(board.words[..]), board.words[..], l.min, l.min + 1)
  {
    if delta < board.words[l.min] { board.Put(l.min, delta); }
    if delta > board.words[l.min + 1] { board.Put(l.min + 1, delta); }
  }

  lemma OneMoreDelta(deltas: seq<U32>, delta: U32)
    ensures MinOf(deltas + [delta]) == if delta < MinOf(deltas) then delta else MinOf(deltas)
    ensures MaxOf(deltas + [delta]) == if delta > MaxOf(deltas) then delta else MaxOf(deltas)
    ensures SumOf(deltas + [delta]) == SumOf(deltas) + delta
  {
    assert (deltas + [delta])[..|deltas|] == deltas;
  }

  /** What one iteration does to the words of its loop. */
  ghost predicate Iterated(l: Loop, before: seq<U32>, after: seq<U32>, i: nat, delta: U32)
  {
    && IsLoop(l) && |before| == |after| == STRUCT_WORDS && i < ITERATIONS
    && after[l.min] == (if delta < before[l.min] then delta else before[l.min])
    && after[l.min + 1] == (if delta > before[l.min + 1] then delta else before[l.min + 1])
    && FieldAt(after, l.sum, Long) == FieldAt(before, l.sum, Long) + delta
    && after[l.samples + i] == delta
    && forall k | l.samples <= k < l.samples + i :: after[k] == before[k]
  }

  lemma IterationIsLocal(l: Loop, w0: seq<U32>, w1: seq<U32>, w2: seq<U32>, w3: seq<U32>, i: nat, delta: U32)
    requires IsLoop(l) && |w0| == STRUCT_WORDS && i < ITERATIONS
    requires OthersSame(w0, w1, FAILURES_AT, l.samples + i) && w1[l.samples + i] == delta
    requires OthersSame(w1, w2, l.min, l.min + 1)
    requires w2[l.min] == (if delta < w1[l.min] then delta else w1[l.min])
    requires w2[l.min + 1] == (if delta > w1[l.min + 1] then delta else w1[l.min + 1])
    requires OthersSame(w2, w3, l.sum, l.sum + 1) && FieldAt(w3, l.sum, Long) == FieldAt(w2, l.sum, Long) + delta
    ensures Iterated(l, w0, w3, i, delta) && SameElsewhere(l, w0, w3) && w3[FAILURES_AT] == w1[FAILURES_AT]
  {
  }

  lemma RecordedStep(l: Loop, before: seq<U32>, after: seq<U32>, deltas: seq<U32>, delta: U32)
    requires Recorded(l, before, deltas) && |deltas| < ITERATIONS && Iterated(l, before, after, |deltas|, delta)
    ensures Recorded(l, after, deltas + [delta])
  {
    OneMoreDelta(deltas, delta);
  }

  lemma ProgressStep(l: Loop, w0: seq<U32>, before: seq<U32>, after: seq<U32>, deltas: seq<U32>, failed: nat, delta: U32, bad: bool)
    requires Progress(l, w0, before, deltas, failed) && |deltas| < ITERATIONS && Iterated(l, before, after, |deltas|, delta)
    requires SameElsewhere(l, before, after) && after[FAILURES_AT] == before[FAILURES_AT] + if bad then 1 else 0
    ensures Progress(l, w0, after, deltas + [delta], failed + if bad then 1 else 0)
  {
    RecordedStep(l, before, after, deltas, delta);
  }

  lemma SumHasRoom(l: Loop, w0: seq<U32>, w1: seq<U32>, w2: seq<U32>, deltas: seq<U32>)
    requires Recorded(l, w0, deltas)
    requires OthersSame(w0, w1, FAILURES_AT, l.samples + |deltas|) && OthersSame(w1, w2, l.min, l.min + 1)
    ensures FieldAt(w2, l.sum, Long) <= ITERATIONS * 0xFFFF_FFFF
  {
  }

  method KeepSample(board: Board, l: Loop, i: nat, delta: U32, bad: bool)
    requires board.Valid() && Begun(board.log) && IsLoop(l) && i < ITERATIONS
    requires board.words[FAILURES_AT] < 4 * ITERATIONS
    modifies board, board.words
    ensures board.Valid() && Begun(board.log)
    ensures board.words[FAILURES_AT] == old(board.words[FAILURES_AT]) + if bad then 1 else 0
    ensures board.words[l.samples + i] == delta
    ensures OthersSame(old(board.words[..]), board.words[..], FAILURES_AT, l.samples + i)
  {
    if bad {
      board.Put(FAILURES_AT, (board.words[FAILURES_AT] + 1) % TWO_32);
    }
    board.Put(l.samples + i, delta);
  }

  /** The bookkeeping of one iteration, after its timed region. */
  method Record(board: Board, l: Loop, ghost w0: seq<U32>, ghost deltas: seq<U32>, ghost failed: nat, i: nat, delta: U32, bad: bool)
    requires board.Valid() && Begun(board.log) && i == |deltas| < ITERATIONS
    requires Progress(l, w0, board.words[..], deltas, failed)
    modifies board, board.words
    ensures board.Valid() && Begun(board.log)
    ensures Progress(l, w0, board.words[..], deltas + [delta], failed + if bad then 1 else 0)
  {
    ghost var w1 := board.words[..];
    KeepSample(board, l, i, delta, bad);
    ghost var w2 := board.words[..];
    KeepExtremes(board, l, delta);
    ghost var w3 := board.words[..];
    SumHasRoom(l, w1, w2, w3, deltas);
    AddToSum(board, l.sum, delta);
    IterationIsLocal(l, w1, w2, w3, board.words[..], i, delta);
    ProgressStep(l, w0, w1, board.words[..], deltas, failed, delta, bad);
  }

  // ----- which iterations are bad -----

  predicate DecodedBad(s: Sample, r: DecodeResult)
  {
    r.status != StatusOk || !Matches(s, r.value)
  }

  predicate EncodedBad(e: EncodeCall, first: EncodeCall)
  {
    e.status != StatusOk || e.written != first.written
  }

  /** Call 0 is the untimed proof pass; each encoding loop makes 500 calls after it. */
  function EncodeBad(dev: Device): nat -> bool
  {
    (i: nat) => EncodedBad(dev.encode(1 + i), dev.encode(0))
  }

  /** The decode loop reads what the last iteration of the encode loop left in the buffer. */
  function Payload(dev: Device): seq<Byte>
    requires Sane(dev)
  {
    dev.encode(ITERATIONS).buffer[..dev.encode(0).written]
  }

  function DecodeBad(dev: Device, s: Sample, payload: seq<Byte>): nat -> bool
  {
    (i: nat) => DecodedBad(s, dev.decode(1 + i, payload))
  }

  function Written(e: EncodeCall): seq<Byte>
    requires e.written <= |e.buffer|
  {
    e.buffer[..e.written]
  }

  function RoundTripBad(dev: Device, s: Sample): nat -> bool
    requires Sane(dev)
  {
    (i: nat) =>
      dev.encode(1 + ITERATIONS + i).status != StatusOk
      || DecodedBad(s, dev.decode(1 + ITERATIONS + i, Written(dev.encode(1 + ITERATIONS + i))))
  }

  function Failures(dev: Device, s: Sample): (n: nat)
    requires Sane(dev)
    ensures n <= 3 * ITERATIONS
  {
    BadCount(EncodeBad(dev), ITERATIONS) + BadCount(DecodeBad(dev, s, Payload(dev)), ITERATIONS)
    + BadCount(RoundTripBad(dev, s), ITERATIONS)
  }

  // ----- the three loops -----

  /** Overhead measurement takes the first 64 reads of the counter; each loop takes 1000 more. */
  const FIRST_READ := 2 * OVERHEAD_SAMPLES

  function Cycles(dev: Device, read: nat): U32 { dev.clock(read) % TWO_32 }

  lemma DeltasGrow(dev: Device, first: nat, n: nat, start: U32, end: U32, delta: U32)
    requires start == Cycles(dev, first + 2 * n) && end == Cycles(dev, first + 2 * n + 1)
    requires delta == (end - start) % TWO_32
    ensures Deltas(dev.clock, first, n) + [delta] == Deltas(dev.clock, first, n + 1)
  {
  }

  /** The recorded durations: overhead measurement reads the counter 64 times, then each loop 1000 times. */
  function EncodeDeltas(dev: Device): seq<U32> { Deltas(dev.clock, FIRST_READ, ITERATIONS) }

  function DecodeDeltas(dev: Device): seq<U32> { Deltas(dev.clock, FIRST_READ + 2 * ITERATIONS, ITERATIONS) }

  function RoundTripDeltas(dev: Device): seq<U32> { Deltas(dev.clock, FIRST_READ + 4 * ITERATIONS, ITERATIONS) }

  /** The check that follows each timed decoding. */
  method Rejects(s: Sample, r: DecodeResult) returns (bad: bool)
    requires Bounded(s)
    ensures bad == DecodedBad(s, r)
  {
    if r.status != StatusOk { return true; }
    var valid := ValidateDecoded(s, r.value);
    bad := !valid;
  }

  /** Encode only: the timed region is exactly the call. */
  method EncodeLoop(board: Board, dev: Device)
    requires board.Valid() && Begun(board.log) && board.words[FAILURES_AT] == 0
    modifies board, board.words
    ensures board.Valid() && Begun(board.log)
    ensures Progress(ENCODE_LOOP, old(board.words[..]), board.words[..],
                     EncodeDeltas(dev), BadCount(EncodeBad(dev), ITERATIONS))
  {
    ghost var w0 := board.words[..];
    ghost var bad := EncodeBad(dev);
    var first := FIRST_READ;
    StartLoop(board, ENCODE_LOOP);
    for i := 0 to ITERATIONS
      invariant board.Valid() && Begun(board.log)
      invariant Progress(ENCODE_LOOP, w0, board.words[..], Deltas(dev.clock, first, i), BadCount(bad, i))
    {
      var start := Cycles(dev, first + 2 * i);
      var r := dev.encode(1 + i);
      var end := Cycles(dev, first + 2 * i + 1);
      var failed := r.status != StatusOk || r.written != dev.encode(0).written;
      var delta := (end - start) % TWO_32;
      OneMoreIteration(bad, i);
      DeltasGrow(dev, first, i, start, end, delta);
      Record(board, ENCODE_LOOP, w0, Deltas(dev.clock, first, i), BadCount(bad, i), i, delta, failed);
    }
  }

  /** Decode only, always the same payload. */
  method DecodeLoop(board: Board, dev: Device, s: Sample, payload: seq<Byte>)
    requires board.Valid() && Begun(board.log) && board.words[FAILURES_AT] <= ITERATIONS && Bounded(s)
    modifies board, board.words
    ensures board.Valid() && Begun(board.log)
    ensures Progress(DECODE_LOOP, old(board.words[..]), board.words[..],
                     DecodeDeltas(dev), BadCount(DecodeBad(dev, s, payload), ITERATIONS))
  {
    ghost var w0 := board.words[..];
    ghost var bad := DecodeBad(dev, s, payload);
    var first := FIRST_READ + 2 * ITERATIONS;
    StartLoop(board, DECODE_LOOP);
    for i := 0 to ITERATIONS
      invariant board.Valid() && Begun(board.log)
      invariant Progress(DECODE_LOOP, w0, board.words[..], Deltas(dev.clock, first, i), BadCount(bad, i))
    {
      var start := Cycles(dev, first + 2 * i);
      var r := dev.decode(1 + i, payload);
      var end := Cycles(dev, first + 2 * i + 1);
      var delta := (end - start) % TWO_32;
      var failed := Rejects(s, r);
      OneMoreIteration(bad, i);
      DeltasGrow(dev, first, i, start, end, delta);
      Record(board, DECODE_LOOP, w0, Deltas(dev.clock, first, i), BadCount(bad, i), i, delta, failed);
    }
  }

  method RoundTripFailed(dev: Device, s: Sample, i: nat, e: EncodeCall, r: DecodeResult) returns (bad: bool)
    requires Bounded(s) && Sane(dev)
    requires e == dev.encode(1 + ITERATIONS + i) && r == dev.decode(1 + ITERATIONS + i, Written(e))
    ensures bad == RoundTripBad(dev, s)(i)
  {
    if e.status != StatusOk { return true; }
    bad := Rejects(s, r);
  }

  /** Encode and at once decode what was written, in one timed span. */
  method RoundTripLoop(board: Board, dev: Device, s: Sample)
    requires board.Valid() && Begun(board.log) && board.words[FAILURES_AT] <= 2 * ITERATIONS && Bounded(s) && Sane(dev)
    modifies board, board.words
    ensures board.Valid() && Begun(board.log)
    ensures Progress(ROUNDTRIP_LOOP, old(board.words[..]), board.words[..],
                     RoundTripDeltas(dev), BadCount(RoundTripBad(dev, s), ITERATIONS))
  {
    ghost var w0 := board.words[..];
    ghost var bad := RoundTripBad(dev, s);
    var first := FIRST_READ + 4 * ITERATIONS;
    StartLoop(board, ROUNDTRIP_LOOP);
    for i := 0 to ITERATIONS
      invariant board.Valid() && Begun(board.log)
      invariant Progress(ROUNDTRIP_LOOP, w0, board.words[..], Deltas(dev.clock, first, i), BadCount(bad, i))
    {
      var start := Cycles(dev, first + 2 * i);
      var e := dev.encode(1 + ITERATIONS + i);
      var r := dev.decode(1 + ITERATIONS + i, Written(e));
      var end := Cycles(dev, first + 2 * i + 1);
      var delta := (end - start) % TWO_32;
      var failed := RoundTripFailed(dev, s, i, e, r);
      OneMoreIteration(bad, i);
      DeltasGrow(dev, first, i, start, end, delta);
      Record(board, ROUNDTRIP_LOOP, w0, Deltas(dev.clock, first, i), BadCount(bad, i), i, delta, failed);
    }
  }

  // ----- the whole run -----

  function ProofDecode(dev: Device): DecodeResult
    requires Sane(dev)
  {
    dev.decode(0, Written(dev.encode(0)))
  }

  /** How a run goes: the first thing that fails, or the number of bad iterations. */
  datatype Outcome = NoCounter | EncodeFailed | DecodeFailed | Looped(failures: nat)

  function OutcomeOf(dev: Device, s: Sample): Outcome
    requires Sane(dev)
  {
    if !dev.hasDwt then NoCounter
    else if dev.encode(0).status != StatusOk then EncodeFailed
    else if DecodedBad(s, ProofDecode(dev)) then DecodeFailed
    else Looped(Failures(dev, s))
  }

  function Verdict(o: Outcome): U32
  {
    match o
    case NoCounter => RESULT_FAIL_NO_DWT
    case EncodeFailed => RESULT_FAIL_ENCODE
    case DecodeFailed => RESULT_FAIL_DECODE
    case Looped(failures) => if failures == 0 then RESULT_PASS else RESULT_FAIL_VALIDATION
  }

  /** The identification of the struct and of the device. */
  ghost predicate Opened(dev: Device, stackBytes: nat, w: seq<U32>)
  {
    && |w| == STRUCT_WORDS
    && w[MAGIC_AT] == MAGIC && w[VERSION_AT] == VERSION && w[COUNTER_AT] == 0
    && w[DWT_SUPPORTED_AT] == (if dev.hasDwt then 1 else 0)
    && w[REGION_AT] == stackBytes && w[HEAP_AT] == 0
  }

  predicate IsProofWord(k: nat) { ENCODE_STAGE_AT <= k <= ENCODED_BYTES_AT }

  predicate IsLoopWord(k: nat) { OVERHEAD_AT < k < REGION_AT || PREFIX_WORDS <= k }

  /** What the counter measurement and the untimed proof pass report. */
  ghost predicate ProofRecorded(dev: Device, o: Outcome, w: seq<U32>)
    requires Sane(dev) && |w| == STRUCT_WORDS
  {
    if o == NoCounter then
      w[OVERHEAD_AT] == 0 && forall k | 0 <= k < |w| && IsProofWord(k) :: w[k] == 0
    else
      && UpperMedian(Deltas(dev.clock, 0, OVERHEAD_SAMPLES), w[OVERHEAD_AT])
      && StagesRecorded(dev, o, w)
  }

  ghost predicate StagesRecorded(dev: Device, o: Outcome, w: seq<U32>)
    requires Sane(dev) && |w| == STRUCT_WORDS
  {
    && w[ENCODE_STATUS_AT] == dev.statusWord(dev.encode(0).status)
    && w[ENCODED_BYTES_AT] == dev.encode(0).written
    && w[ENCODE_STAGE_AT] == (if o == EncodeFailed then STAGE_FAILED else STAGE_OK)
    && w[DECODE_STATUS_AT] == (if o == EncodeFailed then 0 else dev.statusWord(ProofDecode(dev).status))
    && w[DECODE_STAGE_AT] == (if o == EncodeFailed then 0 else if o == DecodeFailed then STAGE_FAILED else STAGE_OK)
    && w[VALIDATE_STAGE_AT] == (if o.Looped? then STAGE_OK else 0)
  }

  ghost predicate LoopsRecorded(dev: Device, failures: nat, w: seq<U32>)
  {
    && Recorded(ENCODE_LOOP, w, EncodeDeltas(dev))
    && Recorded(DECODE_LOOP, w, DecodeDeltas(dev))
    && Recorded(ROUNDTRIP_LOOP, w, RoundTripDeltas(dev))
    && w[FAILURES_AT] == failures
  }

  /** What the timed part reports; nothing when it was not reached. */
  ghost predicate TimedRecorded(dev: Device, o: Outcome, stack: seq<U32>, w: seq<U32>)
    requires |w| == STRUCT_WORDS
  {
    match o
    case Looped(failures) =>
      && LoopsRecorded(dev, failures, w)
      && w[ITERATION_COUNT_AT] == ITERATIONS && w[WATERMARK_AT] == Watermark(stack)
    case _ => forall k | 0 <= k < |w| && IsLoopWord(k) :: w[k] == 0
  }

  /** The record of a finished run, word for word; fields that were not reached are zero. */
  ghost predicate Final(dev: Device, o: Outcome, stack: seq<U32>, w: seq<U32>)
    requires Sane(dev)
  {
    && Opened(dev, 4 * |stack|, w)
    && w[STATE_AT] == STATE_TEST_COMPLETE
    && w[RESULT_CODE_AT] == Verdict(o)
    && ProofRecorded(dev, o, w)
    && TimedRecorded(dev, o, stack, w)
  }

  /** The first three stores. */
  method Announce(board: Board)
    requires board.Valid() && board.log == []
    modifies board, board.words
    ensures board.Valid() && Begun(board.log)
    ensures board.words[MAGIC_AT] == MAGIC && board.words[VERSION_AT] == VERSION
    ensures forall k | STATE_AT < k < STRUCT_WORDS :: board.words[k] == 0
  {
    board.Put(MAGIC_AT, MAGIC);
    board.Put(VERSION_AT, VERSION);
    board.Put(STATE_AT, STATE_TEST_STARTED);
  }

  method Begin(board: Board, dev: Device, stackBytes: U32)
    requires board.Valid() && board.log == []
    modifies board, board.words
    ensures board.Valid() && Begun(board.log) && Opened(dev, stackBytes, board.words[..])
    ensures forall k | 0 <= k < STRUCT_WORDS && (IsProofWord(k) || k == OVERHEAD_AT || IsLoopWord(k)) :: board.words[k] == 0
  {
    Announce(board);
    board.Put(COUNTER_AT, 0);
    board.Put(FAILURES_AT, 0);
    board.Put(REGION_AT, stackBytes);
    board.Put(HEAP_AT, 0);
    board.Put(DWT_SUPPORTED_AT, if dev.hasDwt then 1 else 0);
  }

  /** One untimed decoding of what the proof pass encoded. */
  method ProofDecoding(board: Board, dev: Device, s: Sample) returns (bad: bool)
    requires board.Valid() && Begun(board.log) && Sane(dev) && Bounded(s)
    modifies board, board.words
    ensures board.Valid() && Begun(board.log) && bad == DecodedBad(s, ProofDecode(dev))
    ensures board.words[..] ==
      var w := old(board.words[..])[DECODE_STATUS_AT := dev.statusWord(ProofDecode(dev).status)];
      if bad then w[DECODE_STAGE_AT := STAGE_FAILED] else w[DECODE_STAGE_AT := STAGE_OK][VALIDATE_STAGE_AT := STAGE_OK]
  {
    var d := dev.decode(0, Written(dev.encode(0)));
    board.Put(DECODE_STATUS_AT, dev.statusWord(d.status));
    bad := Rejects(s, d);
    if bad {
      board.Put(DECODE_STAGE_AT, STAGE_FAILED);
    } else {
      board.Put(DECODE_STAGE_AT, STAGE_OK);
      board.Put(VALIDATE_STAGE_AT, STAGE_OK);
    }
  }

  /** One untimed encoding and decoding; `code` is zero when both worked. */
  method ProofPass(board: Board, dev: Device, s: Sample) returns (code: U32)
    requires board.Valid() && Begun(board.log) && Sane(dev) && Bounded(s) && dev.hasDwt
    requires forall k | 0 <= k < STRUCT_WORDS && IsProofWord(k) :: board.words[k] == 0
    modifies board, board.words
    ensures board.Valid() && Begun(board.log) && StagesRecorded(dev, OutcomeOf(dev, s), board.words[..])
    ensures forall k | 0 <= k < STRUCT_WORDS && !IsProofWord(k) :: board.words[k] == old(board.words[k])
    ensures code == if OutcomeOf(dev, s).Looped? then 0 else Verdict(OutcomeOf(dev, s))
  {
    var e := dev.encode(0);
    board.Put(ENCODE_STATUS_AT, dev.statusWord(e.status));
    board.Put(ENCODED_BYTES_AT, e.written);
    if e.status != StatusOk {
      board.Put(ENCODE_STAGE_AT, STAGE_FAILED);
      return RESULT_FAIL_ENCODE;
    }
    board.Put(ENCODE_STAGE_AT, STAGE_OK);
    var bad := ProofDecoding(board, dev, s);
    return if bad then RESULT_FAIL_DECODE else 0;
  }

  /** The words that are final when the loops begin. */
  predicate IsSettledWord(k: nat)
  {
    (k <= OVERHEAD_AT && k != STATE_AT && k != RESULT_CODE_AT) || REGION_AT <= k <= HEAP_AT
  }

  lemma LoopsAreApart(dev: Device, f: nat, g: nat, h: nat, w0: seq<U32>, w1: seq<U32>, w2: seq<U32>, w3: seq<U32>)
    requires |w0| == STRUCT_WORDS && w0[FAILURES_AT] == 0
    requires Progress(ENCODE_LOOP, w0, w1, EncodeDeltas(dev), f)
    requires Progress(DECODE_LOOP, w1, w2, DecodeDeltas(dev), g)
    requires Progress(ROUNDTRIP_LOOP, w2, w3, RoundTripDeltas(dev), h)
    ensures LoopsRecorded(dev, f + g + h, w3)
    ensures forall k | 0 <= k < STRUCT_WORDS && IsSettledWord(k) :: w3[k] == w0[k]
  {
    LoopIsKept(ENCODE_LOOP, DECODE_LOOP, w1, w2, EncodeDeltas(dev));
    LoopIsKept(ENCODE_LOOP, ROUNDTRIP_LOOP, w2, w3, EncodeDeltas(dev));
    LoopIsKept(DECODE_LOOP, ROUNDTRIP_LOOP, w2, w3, DecodeDeltas(dev));
  }

  lemma LoopIsKept(l: Loop, m: Loop, before: seq<U32>, after: seq<U32>, deltas: seq<U32>)
    requires Recorded(l, before, deltas) && IsLoop(m) && SameElsewhere(m, before, after)
    requires l.sum + 2 <= m.min && l.samples + ITERATIONS <= m.samples
    ensures Recorded(l, after, deltas)
  {
  }

  method ThreeLoops(board: Board, dev: Device, s: Sample)
    requires board.Valid() && Begun(board.log) && board.words[FAILURES_AT] == 0 && Sane(dev) && Bounded(s)
    modifies board, board.words
    ensures board.Valid() && Begun(board.log) && LoopsRecorded(dev, Failures(dev, s), board.words[..])
    ensures forall k | 0 <= k < STRUCT_WORDS && IsSettledWord(k) :: board.words[k] == old(board.words[k])
  {
    ghost var w0 := board.words[..];
    EncodeLoop(board, dev);
    ghost var w1 := board.words[..];
    DecodeLoop(board, dev, s, Payload(dev));
    ghost var w2 := board.words[..];
    RoundTripLoop(board, dev, s);
    LoopsAreApart(dev, BadCount(EncodeBad(dev), ITERATIONS), BadCount(DecodeBad(dev, s, Payload(dev)), ITERATIONS),
                  BadCount(RoundTripBad(dev, s), ITERATIONS), w0, w1, w2, board.words[..]);
  }

  /** The three loops and what is stored after them. */
  method TimedPart(board: Board, dev: Device, s: Sample, stack: array<U32>)
    requires board.Valid() && Begun(board.log) && board.words[FAILURES_AT] == 0
    requires Sane(dev) && Bounded(s) && stack != board.words && 4 * stack.Length < TWO_32
    modifies board, board.words
    ensures board.Valid() && Begun(board.log)
    ensures TimedRecorded(dev, Looped(Failures(dev, s)), stack[..], board.words[..])
    ensures forall k | 0 <= k < STRUCT_WORDS && IsSettledWord(k) :: board.words[k] == old(board.words[k])
  {
    ThreeLoops(board, dev, s);
    ghost var w3 := board.words[..];
    CountAndWatermark(board, stack);
    LastStoresKeepLoops(dev, Failures(dev, s), w3, board.words[..]);
  }

  method CountAndWatermark(board: Board, stack: array<U32>)
    requires board.Valid() && Begun(board.log) && stack != board.words && 4 * stack.Length < TWO_32
    modifies board, board.words
    ensures board.Valid() && Begun(board.log)
    ensures board.words[..] == old(board.words[..])[ITERATION_COUNT_AT := ITERATIONS][WATERMARK_AT := Watermark(stack[..])]
  {
    board.Put(ITERATION_COUNT_AT, ITERATIONS);
    var watermark := StackWatermark(stack);
    board.Put(WATERMARK_AT, watermark);
  }

  lemma LastStoresKeepLoops(dev: Device, failures: nat, before: seq<U32>, after: seq<U32>)
    requires LoopsRecorded(dev, failures, before) && |after| == STRUCT_WORDS
    requires forall k | FAILURES_AT <= k < STRUCT_WORDS && k != WATERMARK_AT :: after[k] == before[k]
    ensures LoopsRecorded(dev, failures, after)
  {
    StoresKeepLoop(ENCODE_LOOP, before, after, EncodeDeltas(dev));
    StoresKeepLoop(DECODE_LOOP, before, after, DecodeDeltas(dev));
    StoresKeepLoop(ROUNDTRIP_LOOP, before, after, RoundTripDeltas(dev));
  }

  lemma StoresKeepLoop(l: Loop, before: seq<U32>, after: seq<U32>, deltas: seq<U32>)
    requires Recorded(l, before, deltas) && l.sum + 2 <= WATERMARK_AT && |after| == STRUCT_WORDS
    requires forall k | FAILURES_AT <= k < STRUCT_WORDS && k != WATERMARK_AT :: after[k] == before[k]
    ensures Recorded(l, after, deltas)
  {
  }

  lemma SettledWordsStay(dev: Device, o: Outcome, stackBytes: nat, w: seq<U32>, v: seq<U32>)
    requires Sane(dev) && Opened(dev, stackBytes, w) && ProofRecorded(dev, o, w) && |v| == STRUCT_WORDS
    requires forall k | 0 <= k < STRUCT_WORDS && IsSettledWord(k) :: v[k] == w[k]
    ensures Opened(dev, stackBytes, v) && ProofRecorded(dev, o, v)
  {
  }

  /** The last two stores complete the record. */
  lemma Completes(dev: Device, o: Outcome, stack: seq<U32>, w: seq<U32>)
    requires Sane(dev) && Opened(dev, 4 * |stack|, w)
    requires ProofRecorded(dev, o, w) && TimedRecorded(dev, o, stack, w)
    ensures Final(dev, o, stack, w[RESULT_CODE_AT := Verdict(o)][STATE_AT := STATE_TEST_COMPLETE])
  {
    var v := w[RESULT_CODE_AT := Verdict(o)][STATE_AT := STATE_TEST_COMPLETE];
    SettledWordsStay(dev, o, 4 * |stack|, w, v);
    TimedWordsStay(dev, o, stack, w, v);
  }

  lemma TimedWordsStay(dev: Device, o: Outcome, stack: seq<U32>, w: seq<U32>, v: seq<U32>)
    requires |w| == |v| == STRUCT_WORDS && TimedRecorded(dev, o, stack, w)
    requires forall k | OVERHEAD_AT <= k < STRUCT_WORDS :: v[k] == w[k]
    ensures TimedRecorded(dev, o, stack, v)
  {
    if o.Looped? { LastStoresKeepLoops(dev, o.failures, w, v); }
  }

  /** The last two stores. */
  method Finish(board: Board, code: U32)
    requires board.Valid() && Begun(board.log)
    modifies board, board.words
    ensures board.Valid() && Published(board.log)
    ensures board.words[..] == old(board.words[..])[RESULT_CODE_AT := code][STATE_AT := STATE_TEST_COMPLETE]
  {
    ghost var before := board.log;
    board.Put(RESULT_CODE_AT, code);
    board.Put(STATE_AT, STATE_TEST_COMPLETE);
    assert board.log[..|board.log| - 1] == before + [Store(RESULT_CODE_AT, code)];
  }

  /** Measures the cost of reading the counter and makes the proof pass. */
  method Prepare(board: Board, dev: Device, s: Sample, ghost stackBytes: nat) returns (code: U32)
    requires board.Valid() && Begun(board.log) && Sane(dev) && Bounded(s) && dev.hasDwt
    requires Opened(dev, stackBytes, board.words[..])
    requires forall k | 0 <= k < STRUCT_WORDS && IsProofWord(k) :: board.words[k] == 0
    modifies board, board.words
    ensures board.Valid() && Begun(board.log)
    ensures Opened(dev, stackBytes, board.words[..]) && ProofRecorded(dev, OutcomeOf(dev, s), board.words[..])
    ensures forall k | 0 <= k < STRUCT_WORDS && IsLoopWord(k) :: board.words[k] == old(board.words[k])
    ensures code == if OutcomeOf(dev, s).Looped? then 0 else Verdict(OutcomeOf(dev, s))
  {
    var overhead := MeasureOverhead(dev.clock);
    board.Put(OVERHEAD_AT, overhead);
    code := ProofPass(board, dev, s);
  }

  /** Makes the loops if the proof pass worked, and returns the result code. */
  method Judge(board: Board, dev: Device, s: Sample, stack: array<U32>, proof: U32) returns (code: U32)
    requires board.Valid() && Begun(board.log)
    requires Sane(dev) && Bounded(s) && stack != board.words && 4 * stack.Length < TWO_32
    requires forall k | 0 <= k < STRUCT_WORDS && IsLoopWord(k) :: board.words[k] == 0
    requires dev.hasDwt && proof == if OutcomeOf(dev, s).Looped? then 0 else Verdict(OutcomeOf(dev, s))
    modifies board, board.words
    ensures board.Valid() && Begun(board.log)
    ensures TimedRecorded(dev, OutcomeOf(dev, s), stack[..], board.words[..])
    ensures forall k | 0 <= k < STRUCT_WORDS && IsSettledWord(k) :: board.words[k] == old(board.words[k])
    ensures code == Verdict(OutcomeOf(dev, s))
  {
    code := proof;
    if proof == 0 {
      TimedPart(board, dev, s, stack);
      code := if board.words[FAILURES_AT] == 0 then RESULT_PASS else RESULT_FAIL_VALIDATION;
    }
  }

  /** The run of a device whose counter works, up to the last two stores. */
  method Measure(board: Board, dev: Device, s: Sample, stack: array<U32>) returns (code: U32)
    requires board.Valid() && Begun(board.log) && Opened(dev, 4 * stack.Length, board.words[..])
    requires forall k | 0 <= k < STRUCT_WORDS && (IsProofWord(k) || IsLoopWord(k)) :: board.words[k] == 0
    requires Sane(dev) && Bounded(s) && stack != board.words && 4 * stack.Length < TWO_32 && dev.hasDwt
    modifies board, board.words
    ensures board.Valid() && Begun(board.log) && Opened(dev, 4 * stack.Length, board.words[..])
    ensures ProofRecorded(dev, OutcomeOf(dev, s), board.words[..])
    ensures TimedRecorded(dev, OutcomeOf(dev, s), stack[..], board.words[..])
    ensures code == Verdict(OutcomeOf(dev, s))
  {
    code := Prepare(board, dev, s, 4 * stack.Length);
    ghost var w := board.words[..];
    code := Judge(board, dev, s, stack, code);
    SettledWordsStay(dev, OutcomeOf(dev, s), 4 * stack.Length, w, board.words[..]);
  }

  method RunBenchmark(board: Board, dev: Device, s: Sample, stack: array<U32>)
    requires board.Valid() && board.log == []
    requires Sane(dev) && Bounded(s) && stack != board.words && 4 * stack.Length < TWO_32
    modifies board, board.words
    ensures board.Valid() && Published(board.log)
    ensures Final(dev, OutcomeOf(dev, s), stack[..], board.words[..])
  {
    Begin(board, dev, 4 * stack.Length);
    var code := RESULT_FAIL_NO_DWT;
    if dev.hasDwt {
      code := Measure(board, dev, s, stack);
    }
    Completes(dev, OutcomeOf(dev, s), stack[..], board.words[..]);
    Finish(board, code);
  }
}
