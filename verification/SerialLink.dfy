/** The console link: a live buffer filled by a reader thread and polled by the runner. */
module SerialLink {
  import opened Words
  import opened Pattern
  import opened Transport
  import opened Framing

  const READ_SIZE := 4096
  const TRIM_ABOVE := 2_000_000
  const KEEP := 1_000_000

  function Suffix(s: seq<Byte>, n: nat): (r: seq<Byte>)
    requires n <= |s|
    ensures |r| == n
  {
    s[|s| - n..]
  }

  /** The buffer against everything received since it was last cleared. */
  ghost predicate Live(buf: seq<Byte>, received: seq<Byte>)
  {
    && |buf| <= TRIM_ABOVE
    && |buf| <= |received| && buf == Suffix(received, |buf|)
    && (|buf| < |received| ==> |buf| >= KEEP)
  }

  /** The link and, as ghost state, the locked steps and writes so far. */
  class Link {
    var buf: seq<Byte>
    ghost var events: seq<Event>

    ghost predicate Valid()
      reads this
    {
      buf == BufferAfter(events)
    }

    constructor ()
      ensures Valid() && buf == [] && events == []
    {
      buf := [];
      events := [];
    }

    /** The locked step of the reader thread. */
    method Extend(chunk: seq<Byte>)
      requires Valid() && |chunk| <= READ_SIZE
      modifies this
      ensures Valid() && events == old(events) + [Chunk(chunk)]
      ensures Live(buf, ReceivedAfter(events)) && ReceivedAfter(events) == ReceivedAfter(old(events)) + chunk
    {
      buf := buf + chunk;
      if |buf| > TRIM_ABOVE {
        buf := buf[|buf| - KEEP..];
      }
      OneEvent(events, Chunk(chunk));
      events := events + [Chunk(chunk)];
      BufferIsLive(events);
    }

    method ClearBuffer()
      requires Valid()
      modifies this
      ensures Valid() && buf == [] && events == old(events) + [Clear]
    {
      buf := [];
      events := events + [Clear];
    }

    method SnapshotText() returns (text: string)
      requires Valid()
      modifies this`events
      ensures Valid() && text == Text(buf) && events == old(events) + [Snapshot]
    {
      text := Text(buf);
      OneEvent(events, Snapshot);
      events := events + [Snapshot];
    }

    method SendRaw(data: seq<Byte>)
      requires Valid()
      modifies this`events
      ensures Valid() && events == old(events) + [Sent(data)]
    {
      OneEvent(events, Sent(data));
      events := events + [Sent(data)];
    }
  }

  function Grown(buf: seq<Byte>, chunk: seq<Byte>): seq<Byte>
  {
    if |buf + chunk| > TRIM_ABOVE then Suffix(buf + chunk, KEEP) else buf + chunk
  }

  lemma LiveStep(buf: seq<Byte>, received: seq<Byte>, chunk: seq<Byte>)
    requires Live(buf, received)
    ensures Live(Grown(buf, chunk), received + chunk)
  {
    assert buf + chunk == Suffix(received + chunk, |buf| + |chunk|);
  }

  // ----- both threads -----

  /** A locked step of either thread, or a write to the device. */
  datatype Event = Chunk(bytes: seq<Byte>) | Clear | Snapshot | Sent(bytes: seq<Byte>)

  function BufferStep(before: seq<Byte>, e: Event): seq<Byte>
  {
    match e
    case Chunk(bytes) => Grown(before, bytes)
    case Clear => []
    case _ => before
  }

  function ReceivedStep(before: seq<Byte>, e: Event): seq<Byte>
  {
    match e
    case Chunk(bytes) => before + bytes
    case Clear => []
    case _ => before
  }

  /** What the two threads have made of the buffer after any interleaving of their locked steps. */
  function BufferAfter(events: seq<Event>): seq<Byte>
  {
    if events == [] then [] else BufferStep(BufferAfter(events[..|events| - 1]), events[|events| - 1])
  }

  /** All that was received since the buffer was last cleared. */
  function ReceivedAfter(events: seq<Event>): seq<Byte>
  {
    if events == [] then [] else ReceivedStep(ReceivedAfter(events[..|events| - 1]), events[|events| - 1])
  }

  lemma OneEvent(events: seq<Event>, e: Event)
    ensures BufferAfter(events + [e]) == BufferStep(BufferAfter(events), e)
    ensures ReceivedAfter(events + [e]) == ReceivedStep(ReceivedAfter(events), e)
  {
    assert (events + [e])[..|events|] == events;
  }

  lemma {:induction false} BufferIsLive(events: seq<Event>)
    ensures Live(BufferAfter(events), ReceivedAfter(events))
  {
    if events != [] {
      var front := events[..|events| - 1];
      BufferIsLive(front);
      match events[|events| - 1]
      case Chunk(bytes) => LiveStep(BufferAfter(front), ReceivedAfter(front), bytes);
      case _ =>
    }
  }

  // ----- a frame that passes through the buffer -----

  lemma TextAppends(a: seq<Byte>, b: seq<Byte>)
    ensures Text(a + b) == Text(a) + Text(b)
  {
  }

  lemma TextOfAscii(text: string)
    requires IsAscii(text)
    ensures Text(Ascii(text)) == text
  {
  }

  /** Dropping the front of quiet noise leaves it quiet. */
  lemma QuietTail(prefix: string, n: nat)
    requires Quiet(prefix) && n <= |prefix|
    ensures Quiet(prefix[n..])
  {
    var text := prefix + "===";
    NoMatchInSuffix(text, n);
    assert text[n..] == prefix[n..] + "===";
  }

  lemma NoMatchInSuffix(text: string, n: nat)
    requires NoMatch(text) && n <= |text|
    ensures NoMatch(text[n..])
  {
    forall m: Match | IsMatch(text[n..], m) ensures false { ShiftedMatch(text, n, m); }
  }

  lemma NoMatchInPrefix(text: string, n: nat)
    requires NoMatch(text) && n <= |text|
    ensures NoMatch(text[..n])
  {
    forall m: Match | IsMatch(text[..n], m) ensures false { MatchesOfPrefix(text, n, m); }
  }

  lemma ShiftedMatch(text: string, n: nat, m: Match)
    requires n <= |text| && IsMatch(text[n..], m)
    ensures IsMatch(text, Match(m.start + n, m.groupStart + n, m.groupEnd + n, m.end + n))
  {
    ShiftedMarkers(text, n, MARKER_BEGIN, MARKER_END, m);
  }

  lemma ShiftedMarkers(text: string, n: nat, begin: string, end: string, m: Match)
    requires n <= |text| && Encloses(text[n..], begin, end, m)
    ensures Encloses(text, begin, end, Match(m.start + n, m.groupStart + n, m.groupEnd + n, m.end + n))
  {
    ShiftedAt(text, n, m.start, begin);
    ShiftedAt(text, n, m.end - |end|, end);
    ShiftedClasses(text, n, m.start + |begin|, m.groupStart, m.groupEnd, m.end - |end|);
  }

  lemma ShiftedAt(text: string, n: nat, p: nat, part: string)
    requires n <= |text| && At(text[n..], p, part)
    ensures At(text, p + n, part)
  {
    assert text[n..][p..p + |part|] == text[p + n..p + n + |part|];
  }

  lemma ShiftedClasses(text: string, n: nat, a: nat, b: nat, c: nat, d: nat)
    requires b <= c <= d && n + d <= |text|
    requires forall k | a <= k < b :: IsSpace(text[n..][k])
    requires forall k | b <= k < c :: IsHex(text[n..][k])
    requires forall k | c <= k < d :: IsSpace(text[n..][k])
    ensures forall k | a + n <= k < b + n :: IsSpace(text[k])
    ensures forall k | b + n <= k < c + n :: IsHex(text[k])
    ensures forall k | c + n <= k < d + n :: IsSpace(text[k])
  {
    ShiftedClass(text, n, a, b, IsSpace);
    ShiftedClass(text, n, b, c, IsHex);
    ShiftedClass(text, n, c, d, IsSpace);
  }

  lemma ShiftedClass(text: string, n: nat, a: nat, b: nat, kind: char -> bool)
    requires n + b <= |text| && forall k | a <= k < b :: kind(text[n..][k])
    ensures forall k | a + n <= k < b + n :: kind(text[k])
  {
    forall k | a + n <= k < b + n ensures kind(text[k]) { assert text[k] == text[n..][k - n]; }
  }

  /** The search result that a frame carrying `bytes` must give. */
  ghost predicate Finds(text: string, bytes: seq<Byte>)
  {
    match Search(text, 0)
    case None => false
    case Some(m) => m.groupEnd <= |text| && m.groupStart <= m.groupEnd && text[m.groupStart..m.groupEnd] == Hex(bytes)
  }

  /** What the buffer still holds of a stream whose interesting part is short. */
  lemma OnlyNoiseIsDropped(events: seq<Event>, noise: seq<Byte>, rest: seq<Byte>) returns (dropped: nat)
    requires ReceivedAfter(events) == noise + rest && |rest| <= KEEP
    requires Quiet(Text(noise))
    ensures dropped <= |noise| && BufferAfter(events) == noise[dropped..] + rest
    ensures Quiet(Text(noise[dropped..]))
  {
    BufferIsLive(events);
    dropped := |noise + rest| - |BufferAfter(events)|;
    assert (noise + rest)[dropped..] == noise[dropped..] + rest;
    QuietTail(Text(noise), dropped);
    assert Text(noise[dropped..]) == Text(noise)[dropped..];
  }

  /** The text of the buffer is a part of the stream that begins in the noise and ends where reception ended. */
  lemma BufferShowsStream(events: seq<Event>, noise: seq<Byte>, hex: string, rest: seq<Byte>, n: nat)
    returns (prefix: string)
    requires Quiet(Text(noise)) && IsAscii(Frame(hex)) && n <= |Frame(hex)| + |rest| && n <= KEEP
    requires ReceivedAfter(events) == noise + (Ascii(Frame(hex)) + rest)[..n]
    ensures Quiet(prefix) && |prefix| + n <= |Stream(prefix, hex, Text(rest))|
    ensures Text(BufferAfter(events)) == Stream(prefix, hex, Text(rest))[..|prefix| + n]
  {
    var dropped := OnlyNoiseIsDropped(events, noise, (Ascii(Frame(hex)) + rest)[..n]);
    prefix := Text(noise[dropped..]);
    StreamOfBytes(noise[dropped..], hex, rest, n);
  }

  lemma StreamOfBytes(noise: seq<Byte>, hex: string, rest: seq<Byte>, n: nat)
    requires IsAscii(Frame(hex)) && n <= |Frame(hex)| + |rest|
    ensures |noise| + n <= |Stream(Text(noise), hex, Text(rest))|
    ensures Text(noise + (Ascii(Frame(hex)) + rest)[..n]) == Stream(Text(noise), hex, Text(rest))[..|noise| + n]
  {
    TextAppends(Ascii(Frame(hex)), rest);
    TextOfAscii(Frame(hex));
    TextAppends(noise, (Ascii(Frame(hex)) + rest)[..n]);
    PrefixOfStream(Text(noise), Frame(hex), Text(rest), n);
    assert Text((Ascii(Frame(hex)) + rest)[..n]) == Text(Ascii(Frame(hex)) + rest)[..n];
  }

  lemma PrefixOfStream(a: string, b: string, c: string, n: nat)
    requires n <= |b| + |c|
    ensures a + (b + c)[..n] == (a + b + c)[..|a| + n]
  {
    assert a + b + c == a + (b + c);
  }

  /** A frame that lies within the last million bytes received is found in the buffer from the moment its
      end marker is complete, and not before, whatever the chunks were, however often the buffer was
      trimmed, and whatever quiet noise came before. */
  lemma FrameIsFound(events: seq<Event>, noise: seq<Byte>, bytes: seq<Byte>, rest: seq<Byte>, n: nat)
    requires bytes != [] && Quiet(Text(noise)) && IsAscii(Frame(Hex(bytes)))
    requires n <= |Frame(Hex(bytes))| + |rest| && n <= KEEP
    requires ReceivedAfter(events) == noise + (Ascii(Frame(Hex(bytes))) + rest)[..n]
    ensures n < |Frame(Hex(bytes))| - 2 ==> Search(Text(BufferAfter(events)), 0).None?
    ensures n >= |Frame(Hex(bytes))| - 2 ==> Finds(Text(BufferAfter(events)), bytes)
  {
    var prefix := BufferShowsStream(events, noise, Hex(bytes), rest, n);
    StreamShows(prefix, bytes, Text(rest), n);
  }

  lemma StreamShows(prefix: string, bytes: seq<Byte>, rest: string, n: nat)
    requires Quiet(prefix) && bytes != [] && |prefix| + n <= |Stream(prefix, Hex(bytes), rest)|
    ensures var text := Stream(prefix, Hex(bytes), rest)[..|prefix| + n];
            && (n < |Frame(Hex(bytes))| - 2 ==> Search(text, 0).None?)
            && (n >= |Frame(Hex(bytes))| - 2 ==> Finds(text, bytes))
  {
    HexIsHex(bytes);
    SearchFindsFrame(prefix, Hex(bytes), rest, |prefix| + n);
    ShowsGroup(Stream(prefix, Hex(bytes), rest)[..|prefix| + n], FrameMatch(|prefix|, |Hex(bytes)|), bytes);
  }

  lemma ShowsGroup(text: string, m: Match, bytes: seq<Byte>)
    requires Search(text, 0) == if |text| < m.end then None else Some(m)
    requires |text| >= m.end ==> m.groupStart <= m.groupEnd <= |text| && text[m.groupStart..m.groupEnd] == Hex(bytes)
    ensures |text| < m.end ==> Search(text, 0).None?
    ensures |text| >= m.end ==> Finds(text, bytes)
  {
  }

  /** As long as only quiet noise has arrived there is nothing to find. */
  lemma NoiseIsNotFound(events: seq<Event>, noise: seq<Byte>, n: nat)
    requires Quiet(Text(noise)) && n <= |noise| && ReceivedAfter(events) == noise[..n]
    ensures Search(Text(BufferAfter(events)), 0).None?
  {
    BufferIsLive(events);
    var dropped := n - |BufferAfter(events)|;
    var text := Text(noise) + "===";
    assert Text(BufferAfter(events)) == text[dropped..n];
    QuietPart(text, dropped, n);
    NothingToFind(text[dropped..n]);
  }

  lemma NothingToFind(text: string)
    requires NoMatch(text)
    ensures Search(text, 0).None?
  {
    SearchIsExact(text, 0);
  }

  lemma QuietPart(text: string, a: nat, b: nat)
    requires NoMatch(text) && a <= b <= |text|
    ensures NoMatch(text[a..b])
  {
    NoMatchInSuffix(text, a);
    NoMatchInPrefix(text[a..], b - a);
    assert text[a..][..b - a] == text[a..b];
  }

  // ----- polling -----

  datatype Waited<+M> = Found(match_: M, text: string) | TimedOut(last: string)

  /** The runner's view of the other threads: what the buffer holds at each poll, and the clock. */
  datatype World = World(snapshot: nat -> seq<Byte>, clock: nat -> nat)

  /** Time does not run backwards, and every sleep between two polls takes at least the interval. */
  ghost predicate Advances(clock: nat -> nat, interval: nat)
  {
    && interval > 0 && clock(0) <= clock(1)
    && forall n: nat | n > 0 :: clock(n + 1) >= clock(n) + interval
  }

  lemma {:induction false} ClockGrows(clock: nat -> nat, interval: nat, n: nat, m: nat)
    requires Advances(clock, interval) && n <= m
    ensures clock(n) <= clock(m)
    ensures n > 0 ==> clock(n) + (m - n) * interval <= clock(m)
  {
    if n < m {
      ClockGrows(clock, interval, n, m - 1);
      assert (m - n) * interval == (m - 1 - n) * interval + interval;
      if m - 1 > 0 { assert clock(m - 1 + 1) >= clock(m - 1) + interval; }
    }
  }

  /** Look number k does not decide, and the clock, read after it, does not show the deadline. */
  ghost predicate GoesOn(clock: nat -> nat, decides: nat -> bool, timeout: nat, k: nat)
  {
    !decides(k) && clock(k + 1) < clock(0) + timeout
  }

  /** Polling takes `n` looks: the last one decides or is followed by the deadline, and no earlier one. */
  ghost predicate LastLook(clock: nat -> nat, decides: nat -> bool, timeout: nat, n: nat)
  {
    && n > 0 && !GoesOn(clock, decides, timeout, n - 1)
    && forall k: nat | k < n - 1 :: GoesOn(clock, decides, timeout, k)
  }

  /** How many looks are taken is determined by the clock and by what the looks show. */
  lemma LastLookIsUnique(clock: nat -> nat, decides: nat -> bool, timeout: nat, n: nat, m: nat)
    requires LastLook(clock, decides, timeout, n) && LastLook(clock, decides, timeout, m)
    ensures n == m
  {
  }

  /** Polling takes a bounded number of looks, and a look that would decide before the deadline is not missed. */
  lemma LooksAreBounded(clock: nat -> nat, interval: nat, decides: nat -> bool, timeout: nat, n: nat)
    requires Advances(clock, interval) && LastLook(clock, decides, timeout, n)
    ensures (n - 2) * interval < timeout + 1
    ensures forall k: nat | decides(k) && clock(k) < clock(0) + timeout :: decides(n - 1) && n <= k + 1
  {
    if n > 1 {
      assert GoesOn(clock, decides, timeout, n - 2);
      ClockGrows(clock, interval, 1, n - 1);
    }
    forall k: nat | decides(k) && clock(k) < clock(0) + timeout ensures decides(n - 1) && n <= k + 1 {
      DecidedInTime(clock, interval, decides, timeout, n, k);
    }
  }

  lemma DecidedInTime(clock: nat -> nat, interval: nat, decides: nat -> bool, timeout: nat, n: nat, k: nat)
    requires Advances(clock, interval) && LastLook(clock, decides, timeout, n)
    requires decides(k) && clock(k) < clock(0) + timeout
    ensures decides(n - 1) && n <= k + 1
  {
    assert !GoesOn(clock, decides, timeout, k);
    if k >= n { ClockGrows(clock, interval, n, k); }
  }

  function Polled(w: World, n: nat): string { Text(w.snapshot(n)) }

  /** Which looks succeed. */
  function Hits<M>(w: World, find: string -> Option<M>): nat -> bool
  {
    (n: nat) => find(Polled(w, n)).Some?
  }

  /** Polls the buffer until `find` succeeds or the deadline has passed; `polls` counts the looks taken. */
  method WaitFor<M>(w: World, find: string -> Option<M>, timeout: nat, interval: nat)
    returns (r: Waited<M>, polls: nat)
    requires Advances(w.clock, interval)
    ensures LastLook(w.clock, Hits(w, find), timeout, polls)
    ensures match find(Polled(w, polls - 1))
            case Some(m) => r == Found(m, Polled(w, polls - 1))
            case None => r == TimedOut(Polled(w, polls - 1))
  {
    ghost var hits := Hits(w, find);
    var deadline := w.clock(0) + timeout;
    polls := 0;
    while true
      invariant forall k: nat | k < polls :: GoesOn(w.clock, hits, timeout, k)
      invariant polls > 0 ==> w.clock(polls) < deadline
      decreases polls == 0, deadline - w.clock(polls)
    {
      var text := Polled(w, polls);
      polls := polls + 1;
      assert hits(polls - 1) == find(text).Some?;
      match find(text) {
        case Some(m) => return Found(m, text), polls;
        case None =>
      }
      if w.clock(polls) >= deadline {
        return TimedOut(text), polls;
      }
      assert polls > 1 ==> w.clock(polls - 1 + 1) >= w.clock(polls - 1) + interval;
    }
  }

  // ----- the boot loader's prompt -----

  const PROMPT := "u-boot=>"

  /** `u-boot=>\s*$` at position `p`: only white space up to the end of a line or of the text. */
  predicate PromptAt(text: string, p: nat)
  {
    At(text, p, PROMPT) && LineEndsAfter(text, p + |PROMPT|)
  }

  predicate LineEndsAfter(text: string, b: nat)
  {
    exists q | b <= q <= |text| :: LineEndsAt(text, b, q)
  }

  predicate LineEndsAt(text: string, b: nat, q: nat)
    requires b <= q <= |text|
  {
    (q == |text| || text[q] == '\n') && forall k | b <= k < q :: IsSpace(text[k])
  }

  predicate ShowsPrompt(text: string)
  {
    exists p | 0 <= p <= |text| :: PromptAt(text, p)
  }

  /** The prompt, only white space after it, and then the end of a line or of the text. */
  ghost predicate HasPrompt(text: string)
  {
    exists before, spaces, after :: IsPrompted(text, before, spaces, after)
  }

  ghost predicate IsPrompted(text: string, before: string, spaces: string, after: string)
  {
    && text == before + "u-boot=>" + spaces + after
    && (forall k | 0 <= k < |spaces| :: IsSpace(spaces[k]))
    && (after == "" || after[0] == '\n')
  }

  /** The look recognises the prompt at the end of any line, with or without white space after it, and
      nothing else. */
  lemma PromptIsRecognised(text: string)
    ensures ShowsPrompt(text) <==> HasPrompt(text)
  {
    if ShowsPrompt(text) {
      var p :| 0 <= p <= |text| && PromptAt(text, p);
      var q :| p + |PROMPT| <= q <= |text| && LineEndsAt(text, p + |PROMPT|, q);
      SplitAtPrompt(text, p, q);
    }
    if HasPrompt(text) {
      var before, spaces, after :| IsPrompted(text, before, spaces, after);
      PromptBetween(text, before, spaces, after);
    }
  }

  lemma SplitAtPrompt(text: string, p: nat, q: nat)
    requires At(text, p, PROMPT) && p + |PROMPT| <= q <= |text| && LineEndsAt(text, p + |PROMPT|, q)
    ensures HasPrompt(text)
  {
    var b := p + |PROMPT|;
    var before, spaces, after := text[..p], text[b..q], text[q..];
    assert text == before + text[p..b] + spaces + after;
    assert IsPrompted(text, before, spaces, after);
  }

  lemma PromptBetween(text: string, before: string, spaces: string, after: string)
    requires IsPrompted(text, before, spaces, after)
    ensures ShowsPrompt(text)
  {
    var p := |before|;
    var b := p + |PROMPT|;
    var q := b + |spaces|;
    assert text[p..b] == PROMPT;
    forall k | b <= k < q ensures IsSpace(text[k]) { assert text[k] == spaces[k - b]; }
    assert q < |text| ==> text[q] == after[0];
    assert LineEndsAt(text, b, q);
    assert PromptAt(text, p);
  }

  const EMPTY_LINE: seq<Byte> := [0x0D, 0x0A]

  /** What happens on a cleared link up to the n-th look, when `arrivals(k)` is what the reader thread adds
      just before look number k. */
  function Looks(arrivals: nat -> seq<Byte>, n: nat): seq<Event>
  {
    if n == 0 then [Clear]
    else Looks(arrivals, n - 1) + LookEvents(ArrivalsAt(arrivals, n - 1))
  }

  /** One look: an empty line is sent, `chunk` arrives, the buffer is read. */
  function LookEvents(chunk: seq<Byte>): seq<Event> { [Sent(EMPTY_LINE), Chunk(chunk), Snapshot] }

  function ArrivalsAt(arrivals: nat -> seq<Byte>, k: nat): seq<Byte> { arrivals(k) }

  /** All that has arrived since the clearing, up to and including look number n - 1. */
  function Arrived(arrivals: nat -> seq<Byte>, n: nat): seq<Byte>
  {
    if n == 0 then [] else Arrived(arrivals, n - 1) + ArrivalsAt(arrivals, n - 1)
  }

  lemma OneByOne<T>(s: seq<T>, a: T, b: T, c: T)
    ensures s + [a, b, c] == s + [a] + [b] + [c]
  {
  }

  lemma Regrouped<T>(a: seq<T>, b: seq<T>, c: seq<T>)
    ensures a + (b + c) == a + b + c
  {
  }

  lemma ThreeEvents(events: seq<Event>, a: Event, b: Event, c: Event)
    ensures BufferAfter(events + [a] + [b] + [c]) == BufferStep(BufferStep(BufferStep(BufferAfter(events), a), b), c)
    ensures ReceivedAfter(events + [a] + [b] + [c]) == ReceivedStep(ReceivedStep(ReceivedStep(ReceivedAfter(events), a), b), c)
  {
    OneEvent(events, a);
    OneEvent(events + [a], b);
    OneEvent(events + [a] + [b], c);
  }

  lemma OneLook(events: seq<Event>, chunk: seq<Byte>)
    ensures ReceivedAfter(events + LookEvents(chunk)) == ReceivedAfter(events) + chunk
    ensures BufferAfter(events + LookEvents(chunk)) == Grown(BufferAfter(events), chunk)
  {
    OneByOne(events, Sent(EMPTY_LINE), Chunk(chunk), Snapshot);
    ThreeEvents(events, Sent(EMPTY_LINE), Chunk(chunk), Snapshot);
  }

  lemma OneLookMore(before: seq<Event>, looks: seq<Event>, chunk: seq<Byte>)
    requires BufferAfter(before + looks) == BufferAfter(looks)
    ensures ReceivedAfter(before + (looks + LookEvents(chunk))) == ReceivedAfter(before + looks) + chunk
    ensures BufferAfter(before + (looks + LookEvents(chunk))) == BufferAfter(looks + LookEvents(chunk))
  {
    OneLook(before + looks, chunk);
    OneLook(looks, chunk);
    Regrouped(before, looks, LookEvents(chunk));
  }

  lemma JustCleared(before: seq<Event>)
    ensures ReceivedAfter(before + [Clear]) == [] && BufferAfter(before + [Clear]) == BufferAfter([Clear])
  {
    OneEvent(before, Clear);
    OneEvent([], Clear);
    assert [] + [Clear] == [Clear];
  }

  /** Whatever happened to the link before, the buffer holds only what has arrived since the clearing. */
  lemma {:induction false} OnlyNewText(before: seq<Event>, arrivals: nat -> seq<Byte>, n: nat)
    ensures ReceivedAfter(before + Looks(arrivals, n)) == Arrived(arrivals, n)
    ensures BufferAfter(before + Looks(arrivals, n)) == BufferAfter(Looks(arrivals, n))
  {
    if n == 0 {
      JustCleared(before);
    } else {
      OnlyNewText(before, arrivals, n - 1);
      OneLookMore(before, Looks(arrivals, n - 1), ArrivalsAt(arrivals, n - 1));
    }
  }

  /** What a look at the buffer shows the runner. */
  function Seen(arrivals: nat -> seq<Byte>, k: nat): string { Text(BufferAfter(Looks(arrivals, k + 1))) }

  /** Which looks show what is looked for. */
  function Showing(arrivals: nat -> seq<Byte>, shows: string -> bool): nat -> bool
  {
    (k: nat) => shows(Seen(arrivals, k))
  }

  /** Clears the buffer, then sends one empty line before every look, and looks until the prompt shows
      or the deadline has passed. */
  method CatchUbootPrompt(link: Link, arrivals: nat -> seq<Byte>, clock: nat -> nat, timeout: nat, interval: nat)
    returns (r: Waited<()>, looks: nat)
    requires link.Valid() && Advances(clock, interval)
    requires forall k: nat :: |ArrivalsAt(arrivals, k)| <= READ_SIZE
    modifies link
    ensures link.Valid() && LastLook(clock, Showing(arrivals, ShowsPrompt), timeout, looks)
    ensures link.events == old(link.events) + Looks(arrivals, looks)
    ensures r.Found? <==> HasPrompt(Seen(arrivals, looks - 1))
    ensures r == if r.Found? then Found((), Text(link.buf)) else TimedOut(Text(link.buf))
  {
    r, looks := NudgeUntil(link, arrivals, clock, timeout, interval, ShowsPrompt);
    PromptIsRecognised(Seen(arrivals, looks - 1));
  }

  method NudgeUntil(link: Link, arrivals: nat -> seq<Byte>, clock: nat -> nat, timeout: nat, interval: nat,
                    shows: string -> bool)
    returns (r: Waited<()>, looks: nat)
    requires link.Valid() && Advances(clock, interval)
    requires forall k: nat :: |ArrivalsAt(arrivals, k)| <= READ_SIZE
    modifies link
    ensures link.Valid() && LastLook(clock, Showing(arrivals, shows), timeout, looks)
    ensures link.events == old(link.events) + Looks(arrivals, looks)
    ensures r.Found? <==> shows(Seen(arrivals, looks - 1))
    ensures r == if r.Found? then Found((), Text(link.buf)) else TimedOut(Text(link.buf))
  {
    ghost var before := link.events;
    ghost var decides := Showing(arrivals, shows);
    var deadline := clock(0) + timeout;
    link.ClearBuffer();
    looks := 0;
    while true
      invariant link.Valid() && link.events == before + Looks(arrivals, looks)
      invariant forall k: nat | k < looks :: GoesOn(clock, decides, timeout, k)
      invariant looks > 0 ==> clock(looks) < deadline
      decreases looks == 0, deadline - clock(looks)
    {
      var text := Nudge(link, before, arrivals, looks);
      looks := looks + 1;
      assert decides(looks - 1) == shows(text);
      if shows(text) { return Found((), text), looks; }
      if clock(looks) >= deadline { return TimedOut(text), looks; }
      assert looks > 1 ==> clock(looks - 1 + 1) >= clock(looks - 1) + interval;
    }
  }

  /** One look: what it shows has arrived since the clearing. */
  method Nudge(link: Link, ghost before: seq<Event>, arrivals: nat -> seq<Byte>, looks: nat) returns (text: string)
    requires link.Valid() && |ArrivalsAt(arrivals, looks)| <= READ_SIZE
    requires link.events == before + Looks(arrivals, looks)
    modifies link
    ensures link.Valid() && link.events == before + Looks(arrivals, looks + 1)
    ensures text == Text(link.buf) == Seen(arrivals, looks)
  {
    ghost var events := link.events;
    link.SendRaw(EMPTY_LINE);
    link.Extend(ArrivalsAt(arrivals, looks));
    text := link.SnapshotText();
    OneByOne(events, Sent(EMPTY_LINE), Chunk(ArrivalsAt(arrivals, looks)), Snapshot);
    Regrouped(before, Looks(arrivals, looks), LookEvents(ArrivalsAt(arrivals, looks)));
    OnlyNewText(before, arrivals, looks + 1);
  }
}
