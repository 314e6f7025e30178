/** Sending a firmware image through a shell here-document as base64 text (section 4 of RFC 4648). */
module Base64 {
  import opened Words

  const LINE_LENGTH := 76
  const TERMINATOR := "B64EOF"

  type Sextet = v: int | 0 <= v < 64

  /** A character of a base64 text: six bits, padding, or neither. */
  datatype Symbol = Six(v: Sextet) | Pad | Other

  function CharOf(s: Symbol): char
  {
    match s
    case Six(v) =>
      if v < 26 then 'A' + v as char
      else if v < 52 then 'a' + (v - 26) as char
      else if v < 62 then '0' + (v - 52) as char
      else if v == 62 then '+' else '/'
    case Pad => '='
    case Other => '?'
  }

  function SymbolOf(c: char): Symbol
  {
    if 'A' <= c <= 'Z' then Six(c as int - 'A' as int)
    else if 'a' <= c <= 'z' then Six(c as int - 'a' as int + 26)
    else if '0' <= c <= '9' then Six(c as int - '0' as int + 52)
    else if c == '+' then Six(62)
    else if c == '/' then Six(63)
    else if c == '=' then Pad
    else Other
  }

  lemma CharReadsBack(s: Symbol)
    ensures SymbolOf(CharOf(s)) == s
  {
  }

  function Chars(symbols: seq<Symbol>): (text: string)
    ensures |text| == |symbols|
  {
    seq(|symbols|, k requires 0 <= k < |symbols| => CharOf(symbols[k]))
  }

  function SymbolsOf(text: string): (symbols: seq<Symbol>)
    ensures |symbols| == |text|
  {
    seq(|text|, k requires 0 <= k < |text| => SymbolOf(text[k]))
  }

  lemma CharsReadBack(symbols: seq<Symbol>)
    ensures SymbolsOf(Chars(symbols)) == symbols
  {
    forall k | 0 <= k < |symbols| ensures SymbolsOf(Chars(symbols))[k] == symbols[k] { CharReadsBack(symbols[k]); }
  }

  function High(a: Byte): Sextet { a / 4 }

  function Second(a: Byte, b: Byte): Sextet { a % 4 * 16 + b / 16 }

  function Third(b: Byte, c: Byte): Sextet { b % 16 * 4 + c / 64 }

  function Low(c: Byte): Sextet { c % 64 }

  /** Groups of three bytes become four symbols; a short last group is padded. */
  function EncodeSymbols(bytes: seq<Byte>): (symbols: seq<Symbol>)
    ensures |symbols| % 4 == 0
  {
    if |bytes| == 0 then []
    else if |bytes| == 1 then [Six(High(bytes[0])), Six(Second(bytes[0], 0)), Pad, Pad]
    else if |bytes| == 2 then [Six(High(bytes[0])), Six(Second(bytes[0], bytes[1])), Six(Third(bytes[1], 0)), Pad]
    else
      [Six(High(bytes[0])), Six(Second(bytes[0], bytes[1])), Six(Third(bytes[1], bytes[2])), Six(Low(bytes[2]))]
      + EncodeSymbols(bytes[3..])
  }

  function Encode(bytes: seq<Byte>): (text: string)
    ensures |text| % 4 == 0
  {
    Chars(EncodeSymbols(bytes))
  }

  datatype Decoded = Invalid | Bytes(bytes: seq<Byte>)

  function Byte1(p: Sextet, q: Sextet): Byte { p * 4 + q / 16 }

  function Byte2(q: Sextet, r: Sextet): Byte { q % 16 * 16 + r / 4 }

  function Byte3(r: Sextet, s: Sextet): Byte { r % 4 * 64 + s }

  function DecodeGroup(a: Symbol, b: Symbol, c: Symbol, d: Symbol): Decoded
  {
    if !a.Six? || !b.Six? then Invalid
    else if c == Pad && d == Pad then Bytes([Byte1(a.v, b.v)])
    else if !c.Six? then Invalid
    else if d == Pad then Bytes([Byte1(a.v, b.v), Byte2(b.v, c.v)])
    else if !d.Six? then Invalid
    else Bytes([Byte1(a.v, b.v), Byte2(b.v, c.v), Byte3(c.v, d.v)])
  }

  /** Only the last group may be padded. */
  function DecodeSymbols(symbols: seq<Symbol>): Decoded
  {
    if symbols == [] then Bytes([])
    else if |symbols| < 4 then Invalid
    else
      var head := DecodeGroup(symbols[0], symbols[1], symbols[2], symbols[3]);
      var tail := DecodeSymbols(symbols[4..]);
      if head.Invalid? || tail.Invalid? || (|head.bytes| < 3 && |symbols| > 4) then Invalid
      else Bytes(head.bytes + tail.bytes)
  }

  function Decode(text: string): Decoded
  {
    DecodeSymbols(SymbolsOf(text))
  }

  lemma FirstReadsBack(a: Byte, b: Byte)
    ensures Byte1(High(a), Second(a, b)) == a
  {
  }

  lemma BytesReadBack(a: Byte, b: Byte, c: Byte)
    ensures Byte1(High(a), Second(a, b)) == a
    ensures Byte2(Second(a, b), Third(b, c)) == b
    ensures Byte3(Third(b, c), Low(c)) == c
  {
  }

  lemma OneGroup(group: seq<Symbol>, rest: seq<Symbol>, head: seq<Byte>, tail: seq<Byte>)
    requires |group| == 4 && DecodeGroup(group[0], group[1], group[2], group[3]) == Bytes(head)
    requires DecodeSymbols(rest) == Bytes(tail) && (rest == [] || |head| == 3)
    ensures DecodeSymbols(group + rest) == Bytes(head + tail)
  {
    assert (group + rest)[4..] == rest;
  }

  lemma FullGroup(a: Byte, b: Byte, c: Byte, rest: seq<Symbol>, tail: seq<Byte>)
    requires DecodeSymbols(rest) == Bytes(tail)
    ensures DecodeSymbols([Six(High(a)), Six(Second(a, b)), Six(Third(b, c)), Six(Low(c))] + rest) == Bytes([a, b, c] + tail)
  {
    BytesReadBack(a, b, c);
    OneGroup([Six(High(a)), Six(Second(a, b)), Six(Third(b, c)), Six(Low(c))], rest, [a, b, c], tail);
  }

  lemma LastGroup(group: seq<Symbol>, head: seq<Byte>)
    requires |group| == 4 && DecodeGroup(group[0], group[1], group[2], group[3]) == Bytes(head)
    ensures DecodeSymbols(group) == Bytes(head)
  {
    OneGroup(group, [], head, []);
    assert group + [] == group && head + [] == head;
  }

  lemma OneByteLeft(a: Byte, b: Byte)
    requires b == 0
    ensures DecodeGroup(Six(High(a)), Six(Second(a, b)), Pad, Pad) == Bytes([a])
  {
    FirstReadsBack(a, b);
  }

  lemma TwoBytesLeft(a: Byte, b: Byte, c: Byte)
    requires c == 0
    ensures DecodeGroup(Six(High(a)), Six(Second(a, b)), Six(Third(b, c)), Pad) == Bytes([a, b])
  {
    BytesReadBack(a, b, c);
  }

  lemma {:induction false} SymbolsDecode(bytes: seq<Byte>)
    ensures DecodeSymbols(EncodeSymbols(bytes)) == Bytes(bytes)
  {
    if |bytes| >= 3 {
      SymbolsDecode(bytes[3..]);
      FullGroup(bytes[0], bytes[1], bytes[2], EncodeSymbols(bytes[3..]), bytes[3..]);
      assert bytes == [bytes[0], bytes[1], bytes[2]] + bytes[3..];
    } else if bytes != [] {
      ShortGroup(bytes);
    }
  }

  lemma ShortGroup(bytes: seq<Byte>)
    requires 0 < |bytes| < 3
    ensures DecodeSymbols(EncodeSymbols(bytes)) == Bytes(bytes)
  {
    OneByteLeft(bytes[0], 0);
    if |bytes| == 2 { TwoBytesLeft(bytes[0], bytes[1], 0); }
    assert bytes == if |bytes| == 1 then [bytes[0]] else [bytes[0], bytes[1]];
    LastGroup(EncodeSymbols(bytes), bytes);
  }

  /** Decoding gives back every byte string. */
  lemma DecodesBack(bytes: seq<Byte>)
    ensures Decode(Encode(bytes)) == Bytes(bytes)
  {
    CharsReadBack(EncodeSymbols(bytes));
    SymbolsDecode(bytes);
  }

  // ----- the text, by the tables of the standard -----

  /** Table 1 in section 4 of RFC 4648. */
  const ALPHABET := "ABCDEFGHIJKLMNOPQRSTUVWXYZ" + "abcdefghijklmnopqrstuvwxyz" + "0123456789" + "+/"

  function ByteAt(bytes: seq<Byte>, i: nat): nat { if i < |bytes| then bytes[i] else 0 }

  function Bits(a: nat, b: nat, c: nat): nat { 0x10000 * a + 0x100 * b + c }

  /** The first 24 bits, most significant byte first; bytes beyond the end are zero. */
  function FirstBits(bytes: seq<Byte>): nat { Bits(ByteAt(bytes, 0), ByteAt(bytes, 1), ByteAt(bytes, 2)) }

  /** The four digits of a 24-bit value to the base 64, most significant first. */
  predicate AreDigits(value: nat, p: nat, q: nat, r: nat, s: nat)
  {
    p < 64 && q < 64 && r < 64 && s < 64 && value == 262144 * p + 4096 * q + 64 * r + s
  }

  /** Four characters spell these digits; what stands for missing bytes is padding. */
  ghost predicate Spells(text: string, bytes: seq<Byte>, p: Sextet, q: Sextet, r: Sextet, s: Sextet)
  {
    && |text| >= 4 && AreDigits(FirstBits(bytes), p, q, r, s)
    && text[0] == CharOf(Six(p))
    && text[1] == CharOf(Six(q))
    && text[2] == CharOf(if |bytes| > 1 then Six(r) else Pad)
    && text[3] == CharOf(if |bytes| > 2 then Six(s) else Pad)
  }

  ghost predicate StartsWith(text: string, bytes: seq<Byte>)
  {
    exists p: Sextet, q: Sextet, r: Sextet, s: Sextet :: Spells(text, bytes, p, q, r, s)
  }

  /** The text is the base64 text of the bytes: four characters for every three bytes or the rest of them. */
  ghost predicate IsBase64(text: string, bytes: seq<Byte>)
  {
    if bytes == [] then text == ""
    else
      && StartsWith(text, bytes)
      && IsBase64(text[4..], if |bytes| > 3 then bytes[3..] else [])
  }

  lemma Capitals(v: nat)
    requires v < 26
    ensures "ABCDEFGHIJKLMNOPQRSTUVWXYZ"[v] == 'A' + v as char
  {
  }

  lemma Minuscules(v: nat)
    requires v < 26
    ensures "abcdefghijklmnopqrstuvwxyz"[v] == 'a' + v as char
  {
  }

  lemma Digits(v: nat)
    requires v < 10
    ensures "0123456789"[v] == '0' + v as char
  {
  }

  lemma PartAt(a: string, b: string, c: string, d: string, v: nat)
    requires |a| == |b| == 26 && |c| == 10 && |d| == 2 && v < 64
    ensures (a + b + c + d)[v] == if v < 26 then a[v] else if v < 52 then b[v - 26] else if v < 62 then c[v - 52] else d[v - 62]
  {
  }

  /** The characters of the sextets are the 64 of the table, in order, and padding is an equals sign. */
  lemma AlphabetIsStandard(v: Sextet)
    ensures |ALPHABET| == 64 && CharOf(Six(v)) == ALPHABET[v] && CharOf(Pad) == '='
  {
    PartAt("ABCDEFGHIJKLMNOPQRSTUVWXYZ", "abcdefghijklmnopqrstuvwxyz", "0123456789", "+/", v);
    if v < 26 { Capitals(v); } else if v < 52 { Minuscules(v - 26); } else if v < 62 { Digits(v - 52); }
  }

  /** The sextets of a group are the digits of its 24 bits. */
  lemma SextetsAreDigits(a: Byte, b: Byte, c: Byte)
    ensures AreDigits(Bits(a, b, c), High(a), Second(a, b), Third(b, c), Low(c))
  {
    var x: int, y: int, z: int := a, b, c;
    assert x == 4 * (x / 4) + x % 4 && y == 16 * (y / 16) + y % 16 && z == 64 * (z / 64) + z % 64;
  }

  lemma FirstGroup(bytes: seq<Byte>)
    requires bytes != []
    ensures StartsWith(Encode(bytes), bytes)
  {
    var a, b, c := bytes[0], if |bytes| > 1 then bytes[1] else 0, if |bytes| > 2 then bytes[2] else 0;
    SextetsAreDigits(a, b, c);
    assert Spells(Encode(bytes), bytes, High(a), Second(a, b), Third(b, c), Low(c));
  }

  lemma EncodeStep(bytes: seq<Byte>)
    requires bytes != []
    ensures |Encode(bytes)| >= 4 && Encode(bytes)[4..] == Encode(if |bytes| > 3 then bytes[3..] else [])
  {
  }

  /** Encoding produces the base64 text. */
  lemma {:induction false} EncodeIsBase64(bytes: seq<Byte>)
    ensures IsBase64(Encode(bytes), bytes)
    decreases |bytes|
  {
    if bytes != [] {
      FirstGroup(bytes);
      EncodeStep(bytes);
      EncodeIsBase64(if |bytes| > 3 then bytes[3..] else []);
    }
  }

  lemma DigitsAreUnique(value: nat, p: nat, q: nat, r: nat, s: nat)
    requires AreDigits(value, p, q, r, s)
    ensures p == value / 262144 % 64 && q == value / 4096 % 64 && r == value / 64 % 64 && s == value % 64
  {
    assert value / 64 == 4096 * p + 64 * q + r;
    assert value / 4096 == 64 * p + q;
  }

  /** The four characters of a group as its value determines them. */
  function GroupText(value: nat, count: nat): string
  {
    [CharOf(Six(value / 262144 % 64)), CharOf(Six(value / 4096 % 64)),
     CharOf(if count > 1 then Six(value / 64 % 64) else Pad), CharOf(if count > 2 then Six(value % 64) else Pad)]
  }

  lemma SpelledAs(text: string, bytes: seq<Byte>, p: Sextet, q: Sextet, r: Sextet, s: Sextet)
    requires Spells(text, bytes, p, q, r, s)
    ensures text[..4] == GroupText(FirstBits(bytes), |bytes|)
  {
    DigitsAreUnique(FirstBits(bytes), p, q, r, s);
  }

  lemma StartIsDetermined(text: string, bytes: seq<Byte>)
    requires StartsWith(text, bytes)
    ensures |text| >= 4 && text[..4] == GroupText(FirstBits(bytes), |bytes|)
  {
    var p: Sextet, q: Sextet, r: Sextet, s: Sextet :| Spells(text, bytes, p, q, r, s);
    SpelledAs(text, bytes, p, q, r, s);
  }

  /** There is only one base64 text of these bytes. */
  lemma {:induction false} TextIsUnique(text: string, other: string, bytes: seq<Byte>)
    requires IsBase64(text, bytes) && IsBase64(other, bytes)
    ensures text == other
    decreases |bytes|
  {
    if bytes != [] {
      StartIsDetermined(text, bytes);
      StartIsDetermined(other, bytes);
      TextIsUnique(text[4..], other[4..], if |bytes| > 3 then bytes[3..] else []);
      assert text == text[..4] + text[4..] && other == other[..4] + other[4..];
    }
  }

  /** The bytes that a base64 text stands for are the ones that decoding gives. */
  lemma OnlyThese(text: string, bytes: seq<Byte>)
    requires IsBase64(text, bytes)
    ensures Decode(text) == Bytes(bytes)
  {
    EncodeIsBase64(bytes);
    TextIsUnique(text, Encode(bytes), bytes);
    DecodesBack(bytes);
  }

  // ----- lines -----

  /** The text cut into lines of at most 76 characters. */
  function Lines(text: string): (lines: seq<string>)
    decreases |text|
  {
    if text == "" then []
    else if |text| <= LINE_LENGTH then [text]
    else [text[..LINE_LENGTH]] + Lines(text[LINE_LENGTH..])
  }

  function Concat(lines: seq<string>): string
  {
    if lines == [] then "" else lines[0] + Concat(lines[1..])
  }

  lemma {:induction false} LinesJoin(text: string)
    ensures Concat(Lines(text)) == text
    decreases |text|
  {
    if |text| > LINE_LENGTH {
      LinesJoin(text[LINE_LENGTH..]);
      assert Lines(text)[1..] == Lines(text[LINE_LENGTH..]);
    } else if text != "" {
      assert Lines(text)[1..] == [];
    }
  }

  /** No line of a padded base64 text can be taken for the terminator: its length is a multiple of four. */
  lemma {:induction false} LinesAreAligned(text: string)
    requires |text| % 4 == 0
    ensures forall k | 0 <= k < |Lines(text)| ::
              0 < |Lines(text)[k]| <= LINE_LENGTH && |Lines(text)[k]| % 4 == 0 && Lines(text)[k] != TERMINATOR
    decreases |text|
  {
    assert |TERMINATOR| == 6;
    if |text| > LINE_LENGTH {
      LinesAreAligned(text[LINE_LENGTH..]);
    }
  }

  // ----- the shell -----

  /** The body of a here-document: the lines before the first one that equals the terminator. */
  function Body(received: seq<string>): seq<string>
  {
    if received == [] || received[0] == TERMINATOR then [] else [received[0]] + Body(received[1..])
  }

  /** Line endings of two characters can reach the shell as a line and an empty line. */
  function NonBlank(lines: seq<string>): seq<string>
  {
    if lines == [] then []
    else if lines[0] == "" then NonBlank(lines[1..])
    else [lines[0]] + NonBlank(lines[1..])
  }

  lemma {:induction false} BodyIsSent(received: seq<string>, lines: seq<string>, rest: seq<string>)
    requires NonBlank(received) == lines + [TERMINATOR] + rest
    requires forall k | 0 <= k < |lines| :: lines[k] != TERMINATOR && lines[k] != ""
    ensures Concat(Body(received)) == Concat(lines)
  {
    if received != [] {
      if received[0] == "" {
        BodyIsSent(received[1..], lines, rest);
        assert Body(received)[1..] == Body(received[1..]);
      } else if lines == [] {
        assert received[0] == NonBlank(received)[0] == TERMINATOR;
      } else {
        assert received[0] == NonBlank(received)[0] == lines[0];
        assert NonBlank(received[1..]) == NonBlank(received)[1..] == lines[1..] + [TERMINATOR] + rest;
        BodyIsSent(received[1..], lines[1..], rest);
        assert Body(received)[1..] == Body(received[1..]);
      }
    }
  }

  /** Every image arrives: the here-document ends where it should, and its body is the base64 text of the image,
      and of no other bytes. */
  lemma ImageArrives(image: seq<Byte>, received: seq<string>, rest: seq<string>)
    requires NonBlank(received) == Lines(Encode(image)) + [TERMINATOR] + rest
    ensures IsBase64(Concat(Body(received)), image) && Decode(Concat(Body(received))) == Bytes(image)
    ensures forall bytes | IsBase64(Concat(Body(received)), bytes) :: bytes == image
  {
    LinesAreAligned(Encode(image));
    BodyIsSent(received, Lines(Encode(image)), rest);
    LinesJoin(Encode(image));
    EncodeIsBase64(image);
    DecodesBack(image);
    forall bytes | IsBase64(Concat(Body(received)), bytes) ensures bytes == image {
      OnlyThese(Concat(Body(received)), bytes);
    }
  }
}
