/** What the VisionCB runner looks for in the text of the board's console. */
module ConsoleText {
  import opened Pattern
  import Transport

  /** `part in text`. */
  predicate Contains(text: string, part: string)
  {
    exists p | 0 <= p <= |text| :: At(text, p, part)
  }

  const SD_ROOT_DEVICE := "/dev/mmcblk0p2"
  const EMMC_DEVICE_PREFIX := "mmcblk2"
  const EXPECTED_OS_MARKER := "kirkstone"

  /** The line boundaries of `splitlines` that ASCII text can contain. */
  predicate IsLineEnd(c: char)
  {
    '\n' <= c <= '\r' || '\U{1c}' <= c <= '\U{1e}'
  }

  function InLine(): char -> bool { c => !IsLineEnd(c) }

  function SplitLines(text: string): (lines: seq<string>)
    decreases |text|
  {
    var q := Skip(text, 0, InLine());
    if q == |text| then (if text == "" then [] else [text])
    else [text[..q]] + SplitLines(text[q + 1..])
  }

  predicate IsEmmcLine(line: string) { Contains(line, EMMC_DEVICE_PREFIX) && Contains(line, " on ") }

  /** Some line of the output of `mount` names an eMMC partition. */
  predicate ShowsEmmc(text: string)
  {
    exists line | line in SplitLines(text) :: IsEmmcLine(line)
  }

  /** A part of the text that no line end interrupts. */
  ghost predicate Unbroken(text: string, a: nat, b: nat)
  {
    a <= b <= |text| && forall k | a <= k < b :: !IsLineEnd(text[k])
  }

  lemma SubSlice(s: string, a: nat, b: nat, c: nat, d: nat)
    requires a <= b <= |s| && c <= d <= b - a
    ensures s[a..b][c..d] == s[a + c..a + d]
  {
    var t := s[a..b];
    forall k | 0 <= k < d - c ensures t[c..d][k] == s[a + c..a + d][k] { assert t[c + k] == s[a + c + k]; }
  }

  lemma ContainsMore(part: string, whole: string, a: nat, b: nat, what: string)
    requires a <= b <= |whole| && part == whole[a..b] && Contains(part, what)
    ensures Contains(whole, what)
  {
    var p :| 0 <= p <= |part| && At(part, p, what);
    SubSlice(whole, a, b, p, p + |what|);
    assert At(whole, a + p, what);
  }

  lemma LiftPart(text: string, n: nat, a: nat, b: nat)
    requires n <= |text| && Unbroken(text[n..], a, b)
    ensures Unbroken(text, a + n, b + n) && text[n..][a..b] == text[a + n..b + n]
  {
    SubSlice(text, n, |text|, a, b);
    assert text[n..|text|] == text[n..];
    forall k | a + n <= k < b + n ensures !IsLineEnd(text[k]) { assert text[k] == text[n..][k - n]; }
  }

  /** Every line is an unbroken part of the text. */
  lemma {:induction false} LinesAreParts(text: string, line: string) returns (a: nat, b: nat)
    requires line in SplitLines(text)
    ensures Unbroken(text, a, b) && line == text[a..b]
    decreases |text|
  {
    var q := Skip(text, 0, InLine());
    if q == |text| {
      a, b := 0, |text|;
    } else if line == text[..q] {
      a, b := 0, q;
    } else {
      a, b := LinesAreParts(text[q + 1..], line);
      LiftPart(text, q + 1, a, b);
      a, b := a + q + 1, b + q + 1;
    }
  }

  lemma UnbrokenInTail(text: string, n: nat, a: nat, b: nat)
    requires Unbroken(text, a, b) && n <= a
    ensures Unbroken(text[n..], a - n, b - n) && text[n..][a - n..b - n] == text[a..b]
  {
    SubSlice(text, n, |text|, a - n, b - n);
    assert text[n..|text|] == text[n..];
    forall k | a - n <= k < b - n ensures !IsLineEnd(text[n..][k]) { assert text[n..][k] == text[k + n]; }
  }

  /** Every unbroken part of the text lies within one line. */
  lemma {:induction false} PartsAreInLines(text: string, a: nat, b: nat) returns (line: string, c: nat, d: nat)
    requires Unbroken(text, a, b) && a < b
    ensures line in SplitLines(text) && c <= d <= |line| && text[a..b] == line[c..d]
    decreases |text|, 1
  {
    var q := Skip(text, 0, InLine());
    if q == |text| {
      line, c, d := text, a, b;
    } else if a < q {
      assert b <= q;
      line, c, d := text[..q], a, b;
      SubSlice(text, 0, q, a, b);
      assert text[0..q] == text[..q];
    } else {
      line, c, d := PartInTail(text, q, a, b);
    }
  }

  lemma {:induction false} PartInTail(text: string, q: nat, a: nat, b: nat) returns (line: string, c: nat, d: nat)
    requires Unbroken(text, a, b) && q <= a < b && q == Skip(text, 0, InLine()) && q < |text|
    ensures line in SplitLines(text) && c <= d <= |line| && text[a..b] == line[c..d]
    decreases |text|, 0
  {
    assert a != q by { assert IsLineEnd(text[q]); }
    var tail := text[q + 1..];
    UnbrokenInTail(text, q + 1, a, b);
    line, c, d := PartsAreInLines(tail, a - q - 1, b - q - 1);
    assert SplitLines(text)[1..] == SplitLines(tail);
  }

  /** A mounted partition is noticed if and only if some unbroken part of the output shows it. */
  lemma EmmcIsNoticed(text: string)
    ensures ShowsEmmc(text) <==> exists a: nat, b: nat :: Unbroken(text, a, b) && IsEmmcLine(text[a..b])
  {
    if ShowsEmmc(text) {
      var line :| line in SplitLines(text) && IsEmmcLine(line);
      var a, b := LinesAreParts(text, line);
      assert Unbroken(text, a, b) && IsEmmcLine(text[a..b]);
    }
    if a: nat, b: nat :| Unbroken(text, a, b) && IsEmmcLine(text[a..b]) {
      var line, c, d := PartsAreInLines(text, a, b);
      ContainsMore(text[a..b], line, c, d, EMMC_DEVICE_PREFIX);
      ContainsMore(text[a..b], line, c, d, " on ");
      assert IsEmmcLine(line);
    }
  }

  /** A look at the first `n` characters of an answer shows a mounted partition if and only if some unbroken
      part that shows it ends within them: what is printed later is missed. */
  lemma LookSees(answer: string, n: nat)
    requires n <= |answer|
    ensures ShowsEmmc(answer[..n]) <==>
              exists a: nat, b: nat :: b <= n && Unbroken(answer, a, b) && IsEmmcLine(answer[a..b])
  {
    EmmcIsNoticed(answer[..n]);
    if a: nat, b: nat :| Unbroken(answer[..n], a, b) && IsEmmcLine(answer[..n][a..b]) {
      PartOfPrefix(answer, n, a, b);
      assert b <= n && Unbroken(answer, a, b) && IsEmmcLine(answer[a..b]);
    }
    if a: nat, b: nat :| b <= n && Unbroken(answer, a, b) && IsEmmcLine(answer[a..b]) {
      PartOfPrefix(answer, n, a, b);
      assert Unbroken(answer[..n], a, b) && IsEmmcLine(answer[..n][a..b]);
    }
  }

  lemma PartOfPrefix(text: string, n: nat, a: nat, b: nat)
    requires a <= b <= n <= |text|
    ensures text[..n][a..b] == text[a..b]
    ensures Unbroken(text[..n], a, b) <==> Unbroken(text, a, b)
  {
    SubSlice(text, 0, n, a, b);
    assert text[0..n] == text[..n];
    assert forall k | a <= k < b :: text[..n][k] == text[k];
  }

  /** No look proves by itself that nothing is mounted, least of all a look at a silent console: for every
      text there is an answer that begins with it and goes on to show a mounted partition. */
  lemma AnyLookCanMislead(text: string) returns (answer: string)
    ensures text <= answer && ShowsEmmc(answer)
    ensures !ShowsEmmc("")
  {
    var more := EMMC_DEVICE_PREFIX + " on ";
    answer := text + "\n" + more;
    var a := |text| + 1;
    assert answer[a..|answer|] == more;
    ContainsParts(EMMC_DEVICE_PREFIX, " on ");
    assert forall k | a <= k < |answer| :: answer[k] == more[k - a];
    PlainText();
    assert Unbroken(answer, a, |answer|);
    EmmcIsNoticed(answer);
    assert SplitLines("") == [];
  }

  lemma ContainsParts(a: string, b: string)
    ensures Contains(a + b, a) && Contains(a + b, b)
  {
    assert At(a + b, 0, a);
    assert At(a + b, |a|, b);
  }

  lemma PlainText()
    ensures forall k | 0 <= k < |EMMC_DEVICE_PREFIX + " on "| :: !IsLineEnd((EMMC_DEVICE_PREFIX + " on ")[k])
  {
    assert EMMC_DEVICE_PREFIX + " on " == ['m', 'm', 'c', 'b', 'l', 'k', '2', ' ', 'o', 'n', ' '];
  }

  // ----- the line that bootaux prints -----

  datatype Banner = Banner(stack: string, pc: string)

  /** `stack = 0x.., pc = 0x..` at position `p`. */
  function BannerAt(text: string, p: nat): Option<Banner>
    requires p <= |text|
  {
    if !At(text, p, "stack = 0x") then None
    else
      var a := p + 8;
      var b := Skip(text, a + 2, c => IsHex(c));
      if b == a + 2 || !At(text, b, ", pc = 0x") then None
      else
        var c := b + 7;
        var d := Skip(text, c + 2, ch => IsHex(ch));
        if d == c + 2 then None else Some(Banner(text[a..b], text[c..d]))
  }

  function FindBanner(text: string, p: nat): Option<Banner>
    requires p <= |text|
    decreases |text| - p
  {
    if BannerAt(text, p).Some? then BannerAt(text, p)
    else if p == |text| then None
    else FindBanner(text, p + 1)
  }

  function ToLower(c: char): char
  {
    if 'A' <= c <= 'Z' then c - 'A' + 'a' else c
  }

  function Lower(text: string): string
  {
    seq(|text|, k requires 0 <= k < |text| => ToLower(text[k]))
  }

  /** The core was started at the addresses of the firmware that was built. */
  predicate Confirms(text: string, stack: string, pc: string)
  {
    match FindBanner(text, 0)
    case None => false
    case Some(banner) => Lower(banner.stack) == Lower(stack) && Lower(banner.pc) == Lower(pc)
  }

  predicate IsNumber(number: string)
  {
    |number| > 2 && number[..2] == "0x" && forall k | 2 <= k < |number| :: IsHex(number[k])
  }

  /** What is found is in the text as the boot loader prints it. */
  lemma {:induction false} BannerIsPrinted(text: string, p: nat)
    requires p <= |text| && FindBanner(text, p).Some?
    ensures var b := FindBanner(text, p).value;
            IsNumber(b.stack) && IsNumber(b.pc) && Contains(text, "stack = " + b.stack + ", pc = " + b.pc)
    decreases |text| - p
  {
    if BannerAt(text, p).Some? {
      BannerAtIsPrinted(text, p);
    } else {
      BannerIsPrinted(text, p + 1);
    }
  }

  lemma Halves(text: string, p: nat, part: string, n: nat)
    requires At(text, p, part) && n <= |part|
    ensures text[p..p + n] == part[..n] && text[p + n..p + |part|] == part[n..]
  {
    assert text[p..p + |part|][..n] == text[p..p + n] && text[p..p + |part|][n..] == text[p + n..p + |part|];
  }

  lemma TwoParts(text: string, p: nat, a: nat, b: nat)
    requires p <= a <= b <= |text|
    ensures text[p..b] == text[p..a] + text[a..b]
  {
    SubSlice(text, p, b, 0, a - p);
    SubSlice(text, p, b, a - p, b - p);
  }

  lemma NumberAt(text: string, a: nat, b: nat)
    requires a + 2 < b <= |text| && text[a..a + 2] == "0x" && forall k | a + 2 <= k < b :: IsHex(text[k])
    ensures IsNumber(text[a..b])
  {
    assert text[a..b][..2] == text[a..a + 2];
  }

  lemma PrintedAt(text: string, p: nat, a: nat, b: nat, c: nat, d: nat, before: string, between: string)
    requires p <= a <= b <= c <= d <= |text| && text[p..a] == before && text[b..c] == between
    ensures At(text, p, before + text[a..b] + between + text[c..d])
  {
    TwoParts(text, p, a, b);
    TwoParts(text, p, b, c);
    TwoParts(text, p, c, d);
  }

  lemma BannerAtIsPrinted(text: string, p: nat)
    requires p <= |text| && BannerAt(text, p).Some?
    ensures var b := BannerAt(text, p).value;
            IsNumber(b.stack) && IsNumber(b.pc) && At(text, p, "stack = " + b.stack + ", pc = " + b.pc)
  {
    var a := p + 8;
    var b := Skip(text, a + 2, c => IsHex(c));
    var c := b + 7;
    var d := Skip(text, c + 2, ch => IsHex(ch));
    Halves(text, p, "stack = 0x", 8);
    Halves(text, b, ", pc = 0x", 7);
    NumberAt(text, a, b);
    NumberAt(text, c, d);
    PrintedAt(text, p, a, b, c, d, "stack = ", ", pc = ");
  }

  // ----- nothing is overlooked -----

  /** The boot loader's line stands at position `p`, with these two numbers. */
  ghost predicate Prints(text: string, p: nat, stack: string, pc: string)
  {
    IsNumber(stack) && IsNumber(pc) && At(text, p, "stack = " + stack + ", pc = " + pc)
  }

  /** The parts of a text that stands at a position. */
  lemma PartsAt(text: string, p: nat, a: string, b: string)
    requires At(text, p, a + b)
    ensures At(text, p, a) && At(text, p + |a|, b)
  {
    Halves(text, p, a + b, |a|);
    assert (a + b)[..|a|] == a && (a + b)[|a|..] == b;
  }

  lemma NumberIsHex(text: string, a: nat, number: string)
    requires At(text, a, number) && IsNumber(number)
    ensures At(text, a, "0x") && forall k | a + 2 <= k < a + |number| :: IsHex(text[k])
  {
    assert number == "0x" + number[2..];
    PartsAt(text, a, "0x", number[2..]);
    forall k | a + 2 <= k < a + |number| ensures IsHex(text[k]) {
      assert text[k] == text[a..a + |number|][k - a] == number[k - a];
    }
  }

  lemma PrefixAndNumber(text: string, p: nat, before: string, number: string)
    requires At(text, p, before + number) && IsNumber(number)
    ensures At(text, p, before + "0x") && p + |before| + 2 < p + |before| + |number| <= |text|
    ensures forall k | p + |before| + 2 <= k < p + |before| + |number| :: IsHex(text[k])
  {
    PartsAt(text, p, before, number);
    NumberIsHex(text, p + |before|, number);
    TwoParts(text, p, p + |before|, p + |before| + 2);
  }

  lemma PrintedParts(text: string, p: nat, stack: string, pc: string)
    requires Prints(text, p, stack, pc)
    ensures At(text, p, "stack = " + stack) && At(text, p + 8 + |stack|, ", pc = " + pc)
  {
    assert "stack = " + stack + ", pc = " + pc == ("stack = " + stack) + (", pc = " + pc);
    PartsAt(text, p, "stack = " + stack, ", pc = " + pc);
  }

  lemma SkipReaches(text: string, a: nat, b: nat)
    requires a <= b <= |text| && forall k | a <= k < b :: IsHex(text[k])
    ensures Skip(text, a, c => IsHex(c)) >= b
  {
  }

  lemma StackEnds(text: string, p: nat, b: nat)
    requires p + 10 < b && At(text, b, ", pc = 0x") && forall k | p + 10 <= k < b :: IsHex(text[k])
    ensures Skip(text, p + 10, c => IsHex(c)) == b
  {
    assert text[b] == text[b..b + 9][0] == ',';
    SkipIsFirst(text, p + 10, c => IsHex(c), b);
  }

  /** Where the line stands it is found, with the stack as printed. */
  lemma PrintedIsFound(text: string, p: nat, stack: string, pc: string)
    requires Prints(text, p, stack, pc)
    ensures p <= |text| && BannerAt(text, p).Some?
  {
    PrintedParts(text, p, stack, pc);
    PrefixAndNumber(text, p, "stack = ", stack);
    var b := p + 8 + |stack|;
    PrefixAndNumber(text, b, ", pc = ", pc);
    assert "stack = " + "0x" == "stack = 0x" && ", pc = " + "0x" == ", pc = 0x";
    StackEnds(text, p, b);
    SkipReaches(text, b + 9, b + 7 + |pc|);
  }

  /** The first place at or after `p` where the line stands, read up to the last digit of the second number. */
  ghost predicate FirstPrinted(text: string, p: nat, q: nat, banner: Banner)
  {
    && p <= q && Prints(text, q, banner.stack, banner.pc)
    && (forall r: nat, stack, pc | p <= r < q :: !Prints(text, r, stack, pc))
    && var end := q + |"stack = " + banner.stack + ", pc = " + banner.pc|;
       end < |text| ==> !IsHex(text[end])
  }

  lemma BannerIsMaximal(text: string, p: nat)
    requires p <= |text| && BannerAt(text, p).Some?
    ensures FirstPrinted(text, p, p, BannerAt(text, p).value)
  {
    BannerAtIsPrinted(text, p);
  }

  ghost predicate NoBanner(text: string, p: nat)
  {
    forall q: nat, stack, pc | p <= q :: !Prints(text, q, stack, pc)
  }

  ghost predicate FirstBanner(text: string, p: nat, banner: Banner)
  {
    exists q: nat :: FirstPrinted(text, p, q, banner)
  }

  lemma NotAt(text: string, p: nat, stack: string, pc: string)
    requires p > |text| || BannerAt(text, p).None?
    ensures !Prints(text, p, stack, pc)
  {
    if p <= |text| && Prints(text, p, stack, pc) { PrintedIsFound(text, p, stack, pc); }
  }

  lemma FirstIsLater(text: string, p: nat, banner: Banner)
    requires p <= |text| && BannerAt(text, p).None? && FirstBanner(text, p + 1, banner)
    ensures FirstBanner(text, p, banner)
  {
    var q: nat :| FirstPrinted(text, p + 1, q, banner);
    forall r: nat, stack, pc | p <= r < q ensures !Prints(text, r, stack, pc) {
      if r == p { NotAt(text, p, stack, pc); }
    }
    assert FirstPrinted(text, p, q, banner);
  }

  lemma NoneHere(text: string, p: nat)
    requires p <= |text| && BannerAt(text, p).None? && (p < |text| ==> NoBanner(text, p + 1))
    ensures NoBanner(text, p)
  {
    forall q: nat, stack, pc | p <= q ensures !Prints(text, q, stack, pc) {
      if q == p || q > |text| { NotAt(text, q, stack, pc); }
    }
  }

  /** The search finds the first such line if there is one, and nothing if there is none. */
  lemma {:induction false} BannerIsExact(text: string, p: nat)
    requires p <= |text|
    ensures match FindBanner(text, p)
            case Some(banner) => FirstBanner(text, p, banner)
            case None => NoBanner(text, p)
    decreases |text| - p
  {
    if BannerAt(text, p).Some? {
      BannerIsMaximal(text, p);
    } else {
      if p < |text| { BannerIsExact(text, p + 1); }
      if FindBanner(text, p).Some? {
        FirstIsLater(text, p, FindBanner(text, p).value);
      } else {
        NoneHere(text, p);
      }
    }
  }

  /** Numbers are compared digit by digit, in either case. */
  lemma SameNumber(a: string, b: string)
    requires IsNumber(a) && IsNumber(b)
    ensures Lower(a) == Lower(b) <==>
              |a| == |b| && forall k | 2 <= k < |a| :: Transport.DigitValue(a[k]) == Transport.DigitValue(b[k])
  {
    if |a| == |b| {
      forall k | 0 <= k < |a| ensures k >= 2 ==>
        (Lower(a)[k] == Lower(b)[k] <==> Transport.DigitValue(a[k]) == Transport.DigitValue(b[k])) { }
      assert a[0] == a[..2][0] && a[1] == a[..2][1] && b[0] == b[..2][0] && b[1] == b[..2][1];
    }
  }
}
