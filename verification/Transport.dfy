/** The result on the wire: hexadecimal between two markers, found again in any noise. */
module Transport {
  import opened Words
  import opened Pattern

  // ----- the firmware's side -----

  const HEX_DIGITS := "0123456789abcdef"

  function HexDigit(n: nat): (c: char)
    requires n < 16
    ensures c < '\U{80}'
  {
    DigitReadsBack(n);
    HEX_DIGITS[n]
  }

  function Hex(bytes: seq<Byte>): (text: string)
    ensures |text| == 2 * |bytes|
  {
    if bytes == [] then ""
    else Hex(bytes[..|bytes| - 1]) + [HexDigit(bytes[|bytes| - 1] / 16), HexDigit(bytes[|bytes| - 1] % 16)]
  }

  function Frame(hex: string): string
  {
    MARKER_BEGIN + "\r\n" + hex + "\r\n" + MARKER_END + "\r\n"
  }

  predicate IsAscii(text: string) { forall k | 0 <= k < |text| :: text[k] < '\U{80}' }

  function Ascii(text: string): (bytes: seq<Byte>)
    requires IsAscii(text)
    ensures |bytes| == |text|
    ensures forall k | 0 <= k < |text| :: bytes[k] == text[k] as int
  {
    seq(|text|, k requires 0 <= k < |text| => text[k] as int)
  }

  /** Characters that a C string can hold. */
  predicate IsCText(text: string) { IsAscii(text) && forall k | 0 <= k < |text| :: text[k] != '\0' }

  lemma MarkersAreText()
    ensures IsCText(MARKER_BEGIN + "\r\n") && IsCText("\r\n" + MARKER_END + "\r\n")
  {
    MarkersAsLists();
  }

  lemma FrameInBytes(hex: string)
    requires IsAscii(hex)
    ensures IsAscii(MARKER_BEGIN + "\r\n") && IsAscii("\r\n" + MARKER_END + "\r\n") && IsAscii(Frame(hex))
    ensures Ascii(MARKER_BEGIN + "\r\n") + Ascii(hex) + Ascii("\r\n" + MARKER_END + "\r\n") == Ascii(Frame(hex))
  {
    MarkersAreText();
    var a, c := MARKER_BEGIN + "\r\n", "\r\n" + MARKER_END + "\r\n";
    assert Frame(hex) == a + hex + c;
    AsciiAppends(a, hex);
    AsciiAppends(a + hex, c);
  }

  lemma Regroup(s: seq<Byte>, a: seq<Byte>, b: seq<Byte>, c: seq<Byte>)
    ensures s + a + b + c == s + (a + b + c)
  {
  }

  lemma AsciiAppends(a: string, b: string)
    requires IsAscii(a) && IsAscii(b)
    ensures IsAscii(a + b) && Ascii(a + b) == Ascii(a) + Ascii(b)
  {
  }

  class Uart {
    ghost var sent: seq<Byte>

    method WriteByte(b: Byte)
      modifies this
      ensures sent == old(sent) + [b]
    {
      sent := sent + [b];
    }

    /** A C string ends at its first zero. */
    method WriteStr(text: string)
      requires IsCText(text)
      modifies this
      ensures sent == old(sent) + Ascii(text)
    {
      var s := text + ['\0'];
      var k := 0;
      while s[k] != '\0'
        invariant 0 <= k <= |text|
        invariant sent == old(sent) + Ascii(text)[..k]
        decreases |text| - k
      {
        WriteByte(s[k] as int);
        k := k + 1;
      }
    }

    method WriteHex(bytes: seq<Byte>)
      modifies this
      ensures IsAscii(Hex(bytes)) && sent == old(sent) + Ascii(Hex(bytes))
    {
      HexIsHex(bytes);
      for i := 0 to |bytes|
        invariant IsAscii(Hex(bytes[..i])) && sent == old(sent) + Ascii(Hex(bytes[..i]))
      {
        WriteByte(HexDigit(bytes[i] / 16) as int);
        WriteByte(HexDigit(bytes[i] % 16) as int);
        HexIsHex(bytes[..i + 1]);
        assert bytes[..i + 1][..i] == bytes[..i];
      }
      assert bytes[..|bytes|] == bytes;
    }

    method ReportResult(prefix: seq<Byte>)
      modifies this
      ensures IsAscii(Frame(Hex(prefix))) && sent == old(sent) + Ascii(Frame(Hex(prefix)))
    {
      MarkersAreText();
      WriteStr(MARKER_BEGIN + "\r\n");
      WriteHex(prefix);
      WriteStr("\r\n" + MARKER_END + "\r\n");
      FrameInBytes(Hex(prefix));
      Regroup(old(sent), Ascii(MARKER_BEGIN + "\r\n"), Ascii(Hex(prefix)), Ascii("\r\n" + MARKER_END + "\r\n"));
    }
  }

  // ----- the host's side -----

  /** Decoding as ASCII replaces every other byte by one replacement character. */
  function Text(bytes: seq<Byte>): (text: string)
    ensures |text| == |bytes|
  {
    seq(|bytes|, k requires 0 <= k < |bytes| => if bytes[k] < 0x80 then bytes[k] as char else '\U{FFFD}')
  }

  function DigitValue(c: char): (v: nat)
    requires IsHex(c)
    ensures v < 16
  {
    if c <= '9' then c as int - '0' as int
    else if c <= 'F' then c as int - 'A' as int + 10
    else c as int - 'a' as int + 10
  }

  function FromHex(text: string): (bytes: seq<Byte>)
    requires IsHexText(text)
    ensures |bytes| == |text| / 2
  {
    if text == "" then []
    else FromHex(text[..|text| - 2]) + [16 * DigitValue(text[|text| - 2]) + DigitValue(text[|text| - 1])]
  }

  lemma DigitReadsBack(n: nat)
    requires n < 16
    ensures IsHex(HEX_DIGITS[n]) && HEX_DIGITS[n] < '\U{80}' && DigitValue(HEX_DIGITS[n]) == n
  {
    assert HEX_DIGITS == ['0', '1', '2', '3', '4', '5', '6', '7', '8', '9', 'a', 'b', 'c', 'd', 'e', 'f'];
  }

  lemma {:induction false} HexIsHex(bytes: seq<Byte>)
    ensures forall k | 0 <= k < |Hex(bytes)| :: IsHex(Hex(bytes)[k]) && Hex(bytes)[k] < '\U{80}'
  {
    if bytes != [] {
      HexIsHex(bytes[..|bytes| - 1]);
      ByteReadsBack(bytes[|bytes| - 1]);
    }
  }

  predicate IsHexText(text: string) { |text| % 2 == 0 && forall k | 0 <= k < |text| :: IsHex(text[k]) }

  lemma FromHexStep(front: string, c: char, d: char, bytes: seq<Byte>, b: Byte)
    requires IsHexText(front) && IsHex(c) && IsHex(d)
    requires FromHex(front) == bytes && b == 16 * DigitValue(c) + DigitValue(d)
    ensures IsHexText(front + [c, d]) && FromHex(front + [c, d]) == bytes + [b]
  {
    assert (front + [c, d])[..|front|] == front;
  }

  lemma ByteReadsBack(b: Byte)
    ensures IsHex(HexDigit(b / 16)) && IsHex(HexDigit(b % 16))
    ensures 16 * DigitValue(HexDigit(b / 16)) + DigitValue(HexDigit(b % 16)) == b
  {
    DigitReadsBack(b / 16);
    DigitReadsBack(b % 16);
  }

  lemma HexAppends(bytes: seq<Byte>, b: Byte)
    ensures Hex(bytes + [b]) == Hex(bytes) + [HexDigit(b / 16), HexDigit(b % 16)]
  {
    assert (bytes + [b])[..|bytes|] == bytes;
  }

  /** Two lower-case digits for every byte, the high half first. */
  lemma {:induction false} HexAt(bytes: seq<Byte>, k: nat)
    requires k < |bytes|
    ensures Hex(bytes)[2 * k] == "0123456789abcdef"[bytes[k] / 16]
    ensures Hex(bytes)[2 * k + 1] == "0123456789abcdef"[bytes[k] % 16]
  {
    if k < |bytes| - 1 { HexAt(bytes[..|bytes| - 1], k); }
  }

  /** A digit of either case has its value. */
  lemma DigitMeans(c: char, v: nat)
    requires IsHex(c) && v < 16
    ensures DigitValue(c) == v <==> c == "0123456789abcdef"[v] || c == "0123456789ABCDEF"[v]
  {
    assert "0123456789ABCDEF" == ['0', '1', '2', '3', '4', '5', '6', '7', '8', '9', 'A', 'B', 'C', 'D', 'E', 'F'];
    assert "0123456789abcdef" == ['0', '1', '2', '3', '4', '5', '6', '7', '8', '9', 'a', 'b', 'c', 'd', 'e', 'f'];
  }

  /** The host reads two digits of either case for every byte, the high half first. */
  lemma {:induction false} FromHexAt(text: string, k: nat)
    requires IsHexText(text) && k < |text| / 2
    ensures FromHex(text)[k] == 16 * DigitValue(text[2 * k]) + DigitValue(text[2 * k + 1])
  {
    if k < |text| / 2 - 1 { FromHexAt(text[..|text| - 2], k); }
  }

  lemma {:induction false} HexReadsBack(bytes: seq<Byte>)
    ensures IsHexText(Hex(bytes)) && FromHex(Hex(bytes)) == bytes
  {
    if bytes != [] {
      var front, b := bytes[..|bytes| - 1], bytes[|bytes| - 1];
      assert bytes == front + [b];
      HexReadsBack(front);
      OneMoreByte(front, b);
    }
  }

  lemma OneMoreByte(front: seq<Byte>, b: Byte)
    requires IsHexText(Hex(front)) && FromHex(Hex(front)) == front
    ensures IsHexText(Hex(front + [b])) && FromHex(Hex(front + [b])) == front + [b]
  {
    HexAppends(front, b);
    ByteReadsBack(b);
    FromHexStep(Hex(front), HexDigit(b / 16), HexDigit(b % 16), front, b);
  }

  // ----- the markers -----

  /** In a marker, an N preceded by an equals sign is its fourth character. */
  predicate OneStart(marker: string)
  {
    forall d | 1 <= d < |marker| && marker[d] == 'N' && marker[d - 1] == '=' :: d == 3
  }

  lemma MarkersAsLists()
    ensures MARKER_BEGIN == ['=', '=', '=', 'N', 'U', 'C', 'L', 'E', 'O', '_', 'H', 'I', 'L', '_', 'R', 'E', 'S', 'U', 'L', 'T', '_',
                             'B', 'E', 'G', 'I', 'N', '=', '=', '=']
    ensures MARKER_END == ['=', '=', '=', 'N', 'U', 'C', 'L', 'E', 'O', '_', 'H', 'I', 'L', '_', 'R', 'E', 'S', 'U', 'L', 'T', '_',
                           'E', 'N', 'D', '=', '=', '=']
  {
  }

  lemma MarkersStartOnce()
    ensures |MARKER_BEGIN| == 29 && |MARKER_END| == 27
    ensures OneStart(MARKER_BEGIN) && OneStart(MARKER_END)
    ensures MARKER_BEGIN[21] == 'B' && MARKER_END[21] == 'E' && MARKER_END[0] == '='
  {
    MarkersAsLists();
  }
}
