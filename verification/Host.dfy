/** The runner's side of a result: collect it, parse it, summarise it, accept or refuse it. */
module Host {
  import opened Words
  import opened Arithmetic
  import opened Outcomes
  import opened Pattern
  import opened Transport
  import opened Layout
  import opened BenchRecord
  import opened SerialLink

  const WIRE_SIZE := 124

  // ----- the summary -----

  /** `round(n / d)` to the nearest integer, ties to even. */
  function RoundHalfEven(n: nat, d: nat): (q: nat)
    requires d > 0
  {
    var q, r := n / d, n % d;
    if 2 * r < d || (2 * r == d && q % 2 == 0) then q else q + 1
  }

  predicate IsNearest(n: int, d: int, q: int)
  {
    || -d < 2 * (n - q * d) < d
    || ((2 * (n - q * d) == d || 2 * (n - q * d) == -d) && q % 2 == 0)
  }

  lemma NearestIsUnique(e: int, d: int, k: int)
    requires d > 0 && 0 <= e < d && k != 0 && k != 1
    ensures 2 * (e - k * d) >= 2 * d || 2 * (e - k * d) < -2 * d
  {
    if k < 0 { Times(k, -1, d); } else { Times(2, k, d); }
  }

  /** No integer is nearer to the quotient, and a tie goes to the even one. */
  lemma RoundsToNearest(n: nat, d: nat, q: int)
    requires d > 0
    ensures q == RoundHalfEven(n, d) <==> IsNearest(n, d, q)
  {
    var q0, r := n / d, n % d;
    assert n == q0 * d + r;
    var k := q - q0;
    assert q * d == q0 * d + k * d;
    if k != 0 && k != 1 {
      NearestIsUnique(r, d, k);
    } else {
      assert k == 1 ==> k * d == d;
    }
  }

  /** The rounded mean lies between the extremes whenever the exact mean does. */
  lemma MeanIsBetween(count: nat, min: nat, max: nat, total: nat)
    requires count > 0 && count * min <= total <= count * max
    ensures 100 * min <= StatsFor(count, min, max, total).mean <= 100 * max
  {
    Scale(count, min, total);
    assert 100 * total <= count * (100 * max) by { assert count * (100 * max) == 100 * (count * max); }
    RoundStaysBetween(100 * total, count, 100 * min, 100 * max);
  }

  lemma Scale(count: nat, min: nat, total: nat)
    requires count * min <= total
    ensures count * (100 * min) <= 100 * total
  {
    assert count * (100 * min) == 100 * (count * min);
  }

  lemma RoundStaysBetween(n: nat, d: nat, low: nat, high: nat)
    requires d > 0 && d * low <= n <= d * high
    ensures low <= RoundHalfEven(n, d) <= high
  {
    var q, r := n / d, n % d;
    assert n == q * d + r;
    if q < low { TimesLess(q, low, d); }
    if q > high { TimesLess(high, q, d); }
  }

  /** The mean is in hundredths of a cycle. */
  datatype Stats = Stats(min: nat, max: nat, mean: nat, sum: nat)

  function StatsFor(count: nat, min: nat, max: nat, total: nat): Stats
  {
    Stats(min, max, if count > 0 then RoundHalfEven(100 * total, count) else 0, total)
  }

  datatype Benchmark = Benchmark(
    magic: string,
    version: nat,
    state: nat,
    resultCode: nat,
    counter: nat,
    dwtSupported: bool,
    overhead: nat,
    iterations: nat,
    encodedBytes: nat,
    failures: nat,
    encode: Stats,
    decode: Stats,
    roundTrip: Stats,
    watermark: nat,
    region: nat,
    heap: nat
  )

  /** `0x%08x` of a 32-bit value. */
  function HexWord(v: U32): string
  {
    "0x" + Hex(BigEndian(v))
  }

  /** The raw result in the order of its field names. */
  type Raw = r: seq<nat> | |r| == 27 && r[0] < TWO_32 witness seq(27, _ => 0)

  function BuildBenchmark(raw: Raw): Benchmark
  {
    var n := if raw[13] > ITERATIONS then ITERATIONS else raw[13];
    Benchmark(HexWord(raw[0]), raw[1], raw[2], raw[10], raw[3], raw[11] != 0, raw[12], n, raw[9], raw[14],
              StatsFor(n, raw[15], raw[16], raw[17]),
              StatsFor(n, raw[18], raw[19], raw[20]),
              StatsFor(n, raw[21], raw[22], raw[23]),
              raw[24], raw[25], raw[26])
  }

  /** A summary of these numbers over so many iterations; without iterations the mean is zero. */
  ghost predicate Summarises(stats: Stats, count: nat, min: nat, max: nat, total: nat)
  {
    && stats.min == min && stats.max == max && stats.sum == total
    && (if count == 0 then stats.mean == 0 else IsNearest(100 * total, count, stats.mean))
  }

  /** For every raw result, wherever it was read and whatever it holds: which number of it each entry of the
      document is. At most 500 iterations are believed. */
  lemma DocumentShowsRaw(raw: Raw)
    ensures var b := BuildBenchmark(raw);
            && b.version == raw[1] && b.state == raw[2] && b.counter == raw[3] && b.encodedBytes == raw[9]
            && b.resultCode == raw[10] && (b.dwtSupported <==> raw[11] != 0) && b.overhead == raw[12]
            && b.iterations <= 500 && b.iterations <= raw[13] && (b.iterations == 500 || b.iterations == raw[13])
            && b.failures == raw[14]
            && Summarises(b.encode, b.iterations, raw[15], raw[16], raw[17])
            && Summarises(b.decode, b.iterations, raw[18], raw[19], raw[20])
            && Summarises(b.roundTrip, b.iterations, raw[21], raw[22], raw[23])
            && b.watermark == raw[24] && b.region == raw[25] && b.heap == raw[26]
    ensures BuildBenchmark(raw).magic == "0x51424e31" <==> raw[0] == 0x5142_4e31
  {
    var n := BuildBenchmark(raw).iterations;
    MagicText(raw[0]);
    StatsSummarise(n, raw[15], raw[16], raw[17]);
    StatsSummarise(n, raw[18], raw[19], raw[20]);
    StatsSummarise(n, raw[21], raw[22], raw[23]);
  }

  lemma StatsSummarise(count: nat, min: nat, max: nat, total: nat)
    ensures Summarises(StatsFor(count, min, max, total), count, min, max, total)
  {
    if count > 0 { RoundsToNearest(100 * total, count, RoundHalfEven(100 * total, count)); }
  }

  function Validate(b: Benchmark): Outcome<()>
  {
    if && b.magic == "0x51424e31" && b.version == 1 && b.state == STATE_TEST_COMPLETE
       && b.resultCode == RESULT_PASS && b.failures == 0
    then Done(()) else TestFailure
  }

  // ----- acceptance -----

  lemma {:induction false} HexIsInjective(a: seq<Byte>, b: seq<Byte>)
    requires Hex(a) == Hex(b)
    ensures a == b
  {
    HexReadsBack(a);
    HexReadsBack(b);
  }

  function BigEndian(v: U32): (bytes: seq<Byte>)
  {
    [v / 0x100_0000, v / 0x1_0000 % 256, v / 256 % 256, v % 256]
  }

  lemma BigEndianIsInjective(v: U32, w: U32)
    requires BigEndian(v) == BigEndian(w)
    ensures v == w
  {
    FourDigits(v);
    FourDigits(w);
    assert BigEndian(v)[0] == BigEndian(w)[0] && BigEndian(v)[1] == BigEndian(w)[1];
    assert BigEndian(v)[2] == BigEndian(w)[2] && BigEndian(v)[3] == BigEndian(w)[3];
  }

  lemma FourDigits(v: U32)
    ensures var b: seq<int> := BigEndian(v);
            v == 0x100_0000 * b[0] + 0x1_0000 * b[1] + 0x100 * b[2] + b[3]
  {
    assert v / 0x1_0000 == v / 256 / 256 && v / 0x100_0000 == v / 256 / 256 / 256;
  }

  lemma MagicText(v: U32)
    ensures HexWord(v) == "0x51424e31" <==> v == MAGIC
  {
    MagicHex();
    if HexWord(v) == "0x51424e31" {
      assert Hex(BigEndian(v)) == HexWord(v)[2..] == "51424e31";
      HexIsInjective(BigEndian(v), BigEndian(MAGIC));
      BigEndianIsInjective(v, MAGIC);
    }
  }

  lemma MagicHex()
    ensures Hex(BigEndian(MAGIC)) == "51424e31"
  {
    assert BigEndian(MAGIC) == [] + [0x51] + [0x42] + [0x4e] + [0x31];
    HexAppends([], 0x51);
    HexAppends([] + [0x51], 0x42);
    HexAppends([] + [0x51] + [0x42], 0x4e);
    HexAppends([] + [0x51] + [0x42] + [0x4e], 0x31);
  }

  /** The fields that the checks look at; no other field can make a result acceptable or not. */
  predicate Acceptable(raw: Raw)
  {
    raw[0] == MAGIC && raw[1] == VERSION && raw[2] == STATE_TEST_COMPLETE && raw[10] == RESULT_PASS && raw[14] == 0
  }

  lemma ValidationIsExact(raw: Raw)
    ensures Validate(BuildBenchmark(raw)) == if Acceptable(raw) then Done(()) else TestFailure
  {
    MagicText(raw[0]);
  }

  // ----- parsing and collecting -----

  predicate IsWire(bytes: seq<Byte>) { |bytes| == WIRE_SIZE }

  /** Any 124 bytes unpack: they are the image of 31 words. */
  lemma WireBytesUnpack(bytes: seq<Byte>)
    requires IsWire(bytes)
    ensures |WordsOf(bytes)| == PREFIX_WORDS && CalcSize(WireFormat()) == WIRE_SIZE
    ensures Unpack(WireFormat(), bytes) == Values(WordsOf(bytes))
  {
    ImageOfWords(bytes);
    HostReadsPrefix(WordsOf(bytes));
  }

  function ParseResult(bytes: seq<Byte>): (raw: Raw)
    requires IsWire(bytes)
    ensures raw == Values(WordsOf(bytes))
  {
    WireBytesUnpack(bytes);
    Unpack(WireFormat(), bytes)
  }

  function StateOf(bytes: seq<Byte>): nat
    requires IsWire(bytes)
  {
    FromLittleEndian(bytes[8..12])
  }

  lemma StateIsThirdWord(bytes: seq<Byte>)
    requires IsWire(bytes)
    ensures |WordsOf(bytes)| == PREFIX_WORDS && StateOf(bytes) == WordsOf(bytes)[STATE_AT]
  {
    assert WordsOf(bytes) == [FromLittleEndian(bytes[..4])] + WordsOf(bytes[4..]);
    assert WordsOf(bytes[4..]) == [FromLittleEndian(bytes[4..][..4])] + WordsOf(bytes[4..][4..]);
    assert bytes[4..][4..] == bytes[8..] && bytes[8..][..4] == bytes[8..12];
    assert WordsOf(bytes[8..])[0] == FromLittleEndian(bytes[8..][..4]);
  }

  // ----- over the debug probe -----

  /** One attempt to read the prefix of the struct; `ok` is the tool's exit status. */
  datatype Attempt = Attempt(ok: bool, bytes: seq<Byte>)

  datatype Probe = Probe(symbolFound: bool, read: nat -> Attempt, clock: nat -> nat)

  predicate Readable(a: Attempt) { a.ok && IsWire(a.bytes) }

  predicate Complete(a: Attempt) { Readable(a) && StateOf(a.bytes) == STATE_TEST_COMPLETE }

  function AttemptNo(probe: Probe, n: nat): Attempt { probe.read(n) }

  /** Which attempts end the reading: the complete ones and the unreadable ones. */
  function Decisive(probe: Probe): nat -> bool
  {
    (n: nat) => Complete(AttemptNo(probe, n)) || !Readable(AttemptNo(probe, n))
  }

  /** How reading ends after this many attempts. */
  function SwdOutcome(probe: Probe, tries: nat): Outcome<Raw>
  {
    if tries == 0 then InfrastructureError
    else
      var last := AttemptNo(probe, tries - 1);
      if !Readable(last) then InfrastructureError
      else if Complete(last) then Done(ParseResult(last.bytes))
      else RecoveryRequired
  }

  /** How many attempts are made; none if the symbol cannot be found. */
  ghost predicate SwdTries(probe: Probe, timeout: nat, tries: nat)
  {
    if probe.symbolFound then LastLook(probe.clock, Decisive(probe), timeout, tries) else tries == 0
  }

  /** Reads until the state shows completion; the first unreadable attempt or the deadline ends it. */
  method ReadResultOverSwd(probe: Probe, timeout: nat, interval: nat) returns (r: Outcome<Raw>, tries: nat)
    requires Advances(probe.clock, interval)
    ensures SwdTries(probe, timeout, tries) && r == SwdOutcome(probe, tries)
  {
    tries := 0;
    if !probe.symbolFound { return InfrastructureError, 0; }
    ghost var decisive := Decisive(probe);
    var deadline := probe.clock(0) + timeout;
    while true
      invariant forall k: nat | k < tries :: GoesOn(probe.clock, decisive, timeout, k)
      invariant tries > 0 ==> probe.clock(tries) < deadline
      decreases tries == 0, deadline - probe.clock(tries)
    {
      var attempt := AttemptNo(probe, tries);
      tries := tries + 1;
      assert decisive(tries - 1) == (Complete(attempt) || !Readable(attempt));
      if !attempt.ok || |attempt.bytes| != WIRE_SIZE { return InfrastructureError, tries; }
      if StateOf(attempt.bytes) == STATE_TEST_COMPLETE { return Done(ParseResult(attempt.bytes)), tries; }
      if probe.clock(tries) >= deadline { return RecoveryRequired, tries; }
      assert tries > 1 ==> probe.clock(tries - 1 + 1) >= probe.clock(tries - 1) + interval;
    }
  }

  // ----- over the console -----

  datatype Collected = Collected(raw: Raw, overSwd: bool)

  function FrameFinder(): string -> Option<Match> { text => Search(text, 0) }

  /** The hexadecimal group of the first match. */
  function GroupOf(text: string): (group: string)
    requires Search(text, 0).Some?
    ensures forall k | 0 <= k < |group| :: IsHex(group[k])
  {
    SearchIsExact(text, 0);
    var m := Search(text, 0).value;
    text[m.groupStart..m.groupEnd]
  }

  /** What the text of a successful poll amounts to. */
  function Reading(text: string): Outcome<Raw>
    requires Search(text, 0).Some?
  {
    var group := GroupOf(text);
    if |group| != 2 * WIRE_SIZE then InfrastructureError else Done(ParseResult(FromHex(group)))
  }

  /** The time limits of a collection, and the sleeps between looks and between attempts. */
  datatype Limits = Limits(timeout: nat, interval: nat, swdTimeout: nat, swdInterval: nat)

  ghost predicate Ticking(w: World, probe: Probe, limits: Limits)
  {
    Advances(w.clock, limits.interval) && Advances(probe.clock, limits.swdInterval)
  }

  /** The console stayed silent: no look showed a frame, and the buffer was still empty after the last one. */
  predicate Silent(w: World, polls: nat)
    requires polls > 0
  {
    Search(Polled(w, polls - 1), 0).None? && Polled(w, polls) == ""
  }

  /** How many looks are taken and how many attempts follow them: both are determined by the world. */
  ghost predicate Effort(w: World, probe: Probe, limits: Limits, polls: nat, tries: nat)
  {
    && LastLook(w.clock, Hits(w, FrameFinder()), limits.timeout, polls)
    && (if Silent(w, polls) then SwdTries(probe, limits.swdTimeout, tries) else tries == 0)
  }

  /** What is collected after that effort: the frame of the last look if it shows one; a recovery error if the
      console was not silent; and otherwise exactly what reading over the debug probe leads to. */
  function CollectedAfter(w: World, probe: Probe, polls: nat, tries: nat): Outcome<Collected>
    requires polls > 0
  {
    if Search(Polled(w, polls - 1), 0).Some? then Tagged(Reading(Polled(w, polls - 1)), false)
    else if !Silent(w, polls) then RecoveryRequired
    else Tagged(SwdOutcome(probe, tries), true)
  }

  function Tagged(o: Outcome<Raw>, overSwd: bool): Outcome<Collected>
  {
    match o
    case Done(raw) => Done(Collected(raw, overSwd))
    case TestFailure => TestFailure
    case InfrastructureError => InfrastructureError
    case RecoveryRequired => RecoveryRequired
    case Unexpected => Unexpected
  }

  /** The result comes from the first look that shows a frame, or from memory if the console stayed silent. */
  method CollectResult(w: World, probe: Probe, limits: Limits)
    returns (r: Outcome<Collected>, polls: nat, tries: nat)
    requires Ticking(w, probe, limits)
    ensures Effort(w, probe, limits, polls, tries)
    ensures r == CollectedAfter(w, probe, polls, tries)
  {
    var waited: Waited<Match>;
    tries := 0;
    waited, polls := WaitFor(w, FrameFinder(), limits.timeout, limits.interval);
    match waited
    case Found(_, text) => r := Tagged(Reading(text), false);
    case TimedOut(_) =>
      if Polled(w, polls) != "" { return RecoveryRequired, polls, 0; }
      var raw: Outcome<Raw>;
      raw, tries := ReadResultOverSwd(probe, limits.swdTimeout, limits.swdInterval);
      r := Tagged(raw, true);
  }

  /** The world leaves no choice in how much effort is made. */
  lemma EffortIsDetermined(w: World, probe: Probe, limits: Limits, polls: nat, tries: nat, polls': nat, tries': nat)
    requires Effort(w, probe, limits, polls, tries) && Effort(w, probe, limits, polls', tries')
    ensures polls == polls' && tries == tries'
  {
    LastLookIsUnique(w.clock, Hits(w, FrameFinder()), limits.timeout, polls, polls');
    if Silent(w, polls) && probe.symbolFound {
      LastLookIsUnique(probe.clock, Decisive(probe), limits.swdTimeout, tries, tries');
    }
  }

  /** The exit code of a run that collected this. */
  function ExitOf(collected: Outcome<Collected>): nat
  {
    if collected.Done? && !Acceptable(collected.value.raw) then ExitCode<()>(TestFailure) else ExitCode(collected)
  }

  /** A whole run of the host. `prepared` is how building, flashing and resetting ended. */
  method NucleoRun(prepared: Outcome<()>, w: World, probe: Probe, limits: Limits)
    returns (exit: nat, polls: nat, tries: nat)
    requires Ticking(w, probe, limits)
    ensures match prepared
            case TestFailure => exit == 1
            case InfrastructureError => exit == 2
            case RecoveryRequired => exit == 3
            case Unexpected => exit == 2
            case Done(_) => true
    ensures prepared.Done? ==> Effort(w, probe, limits, polls, tries) && exit == ExitOf(CollectedAfter(w, probe, polls, tries))
  {
    polls, tries := 0, 0;
    if !prepared.Done? { return ExitCode(prepared), polls, tries; }
    var collected;
    collected, polls, tries := CollectResult(w, probe, limits);
    if !collected.Done? { return ExitCode(collected), polls, tries; }
    var benchmark := BuildBenchmark(collected.value.raw);
    ValidationIsExact(collected.value.raw);
    exit := ExitCode(Validate(benchmark));
  }

  /** Exit code 0 means that an acceptable result was collected, 1 that an unacceptable one was, 2 that a frame
      of the wrong length was read or the memory could not be read, 3 that the console was not silent but
      showed no frame, or that it was silent and the memory did not show completion either. */
  lemma ExitCodesMean(w: World, probe: Probe, limits: Limits, polls: nat, tries: nat)
    requires Effort(w, probe, limits, polls, tries)
    ensures var exit, c := ExitOf(CollectedAfter(w, probe, polls, tries)), CollectedAfter(w, probe, polls, tries);
            var shown := Search(Polled(w, polls - 1), 0).Some?;
            && (exit == 0 <==> c.Done? && Acceptable(c.value.raw))
            && (exit == 1 <==> c.Done? && !Acceptable(c.value.raw))
            && (exit == 2 <==> if shown then |GroupOf(Polled(w, polls - 1))| != 2 * WIRE_SIZE
                               else Silent(w, polls) && (tries == 0 || !Readable(AttemptNo(probe, tries - 1))))
            && (exit == 3 <==> !shown && (!Silent(w, polls)
                               || (tries > 0 && Readable(AttemptNo(probe, tries - 1)) && !Complete(AttemptNo(probe, tries - 1)))))
  {
  }

  /** The verdict when the console was silent and the last attempt returned these bytes. */
  lemma SwdExit(w: World, probe: Probe, limits: Limits, polls: nat, tries: nat, bytes: seq<Byte>)
    requires Effort(w, probe, limits, polls, tries) && Silent(w, polls) && tries > 0
    requires IsWire(bytes) && AttemptNo(probe, tries - 1) == Attempt(true, bytes)
    ensures ExitOf(CollectedAfter(w, probe, polls, tries))
         == if StateOf(bytes) != STATE_TEST_COMPLETE then 3 else if Acceptable(ParseResult(bytes)) then 0 else 1
  {
  }
}
