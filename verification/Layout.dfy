/** Where the fields of the result struct lie in memory, and how the host unpacks them.

    All fields are 32-bit or 64-bit integers, so every offset is a multiple of four bytes and is
    counted here in words. */
module Layout {
  import opened Words

  datatype Kind = Word | Long

  function Size(k: Kind): (n: nat) { if k == Word then 1 else 2 }

  // ----- natural alignment, as the C ABI lays a struct out -----

  /** The first word at or after `at` where a field of this kind may start. */
  function Align(at: nat, k: Kind): (r: nat)
    ensures at <= r <= at + 1 && (k == Long ==> r % 2 == 0)
  {
    if k == Long && at % 2 == 1 then at + 1 else at
  }

  function Offsets(kinds: seq<Kind>, at: nat): (r: seq<nat>)
    ensures |r| == |kinds|
  {
    if kinds == [] then []
    else
      var here := Align(at, kinds[0]);
      [here] + Offsets(kinds[1..], here + Size(kinds[0]))
  }

  /** The offset just past the last field. */
  function End(kinds: seq<Kind>, at: nat): (r: nat)
    ensures at <= r
  {
    if kinds == [] then at else End(kinds[1..], Align(at, kinds[0]) + Size(kinds[0]))
  }

  /** Every field is aligned, and they follow one another without overlap up to the end. */
  lemma {:induction false} FieldsAreDisjoint(kinds: seq<Kind>, at: nat, i: nat, j: nat)
    requires i < |kinds|
    ensures var o := Offsets(kinds, at);
            && at <= o[i] && (kinds[i] == Long ==> o[i] % 2 == 0) && o[i] + Size(kinds[i]) <= End(kinds, at)
            && (i < j < |kinds| ==> o[i] + Size(kinds[i]) <= o[j])
  {
    var next := Align(at, kinds[0]) + Size(kinds[0]);
    if i > 0 {
      FieldsAreDisjoint(kinds[1..], next, i - 1, if j > 0 then j - 1 else 0);
    } else if 0 < j < |kinds| {
      FieldsAreDisjoint(kinds[1..], next, j - 1, 0);
    }
  }

  /** A 64-bit value takes two words, the low one first. */
  function FieldAt(words: seq<U32>, at: nat, k: Kind): nat
    requires at + Size(k) <= |words|
  {
    if k == Word then words[at] else words[at] + TWO_32 * words[at + 1]
  }

  /** The values of the fields in a struct whose memory is `words`. */
  function FieldsOf(kinds: seq<Kind>, at: nat, words: seq<U32>): (values: seq<nat>)
    requires End(kinds, at) == |words|
    ensures |values| == |kinds|
    decreases |kinds|
  {
    if kinds == [] then []
    else
      var here := Align(at, kinds[0]);
      [FieldAt(words, here, kinds[0])] + FieldsOf(kinds[1..], here + Size(kinds[0]), words)
  }

  lemma {:induction false} FieldIsAtItsOffset(kinds: seq<Kind>, at: nat, words: seq<U32>, i: nat)
    requires End(kinds, at) == |words| && i < |kinds|
    ensures Offsets(kinds, at)[i] + Size(kinds[i]) <= |words|
    ensures FieldsOf(kinds, at, words)[i] == FieldAt(words, Offsets(kinds, at)[i], kinds[i])
    decreases |kinds|
  {
    FieldsAreDisjoint(kinds, at, i, 0);
    if i > 0 {
      FieldIsAtItsOffset(kinds[1..], Align(at, kinds[0]) + Size(kinds[0]), words, i - 1);
    }
  }

  // ----- the host's unpacking format: no alignment, padding written out -----

  /** `4x`, `I` and `Q` in the format strings of the host language. */
  datatype Code = Gap | UInt | ULong

  function Width(c: Code): nat { if c == ULong then 8 else 4 }

  function CalcSize(format: seq<Code>): nat
  {
    if format == [] then 0 else Width(format[0]) + CalcSize(format[1..])
  }

  function Unpack(format: seq<Code>, bytes: seq<Byte>): seq<nat>
    requires |bytes| == CalcSize(format)
  {
    if format == [] then []
    else
      var w := Width(format[0]);
      var rest := Unpack(format[1..], bytes[w..]);
      if format[0] == Gap then rest else [FromLittleEndian(bytes[..w])] + rest
  }

  /** The format that spells out the padding of a naturally aligned struct. */
  function FormatOf(kinds: seq<Kind>, at: nat): seq<Code>
  {
    if kinds == [] then []
    else
      var here := Align(at, kinds[0]);
      var code := if kinds[0] == Word then UInt else ULong;
      var rest := FormatOf(kinds[1..], here + Size(kinds[0]));
      if here == at then [code] + rest else [Gap, code] + rest
  }

  /** Memory as bytes; the target is little-endian. */
  function Image(words: seq<U32>): (bytes: seq<Byte>)
    ensures |bytes| == 4 * |words|
  {
    if words == [] then [] else LittleEndian(4, words[0]) + Image(words[1..])
  }

  /** The words whose memory image is `bytes`. */
  function WordsOf(bytes: seq<Byte>): (words: seq<U32>)
    requires |bytes| % 4 == 0
    ensures 4 * |words| == |bytes|
  {
    if bytes == [] then []
    else
      CapacityValues();
      [FromLittleEndian(bytes[..4])] + WordsOf(bytes[4..])
  }

  /** Memory images and words correspond one to one. */
  lemma {:induction false} ImageOfWords(bytes: seq<Byte>)
    requires |bytes| % 4 == 0
    ensures Image(WordsOf(bytes)) == bytes
  {
    if bytes != [] {
      ImageOfWords(bytes[4..]);
      LittleEndianWritesBack(bytes[..4]);
      assert WordsOf(bytes)[1..] == WordsOf(bytes[4..]);
    }
  }

  lemma {:induction false} ImageDrops(words: seq<U32>, n: nat)
    requires n <= |words|
    ensures Image(words)[4 * n..] == Image(words[n..])
  {
    if n > 0 {
      ImageDrops(words[1..], n - 1);
      assert Image(words)[4..] == Image(words[1..]);
      assert Image(words)[4 * n..] == Image(words)[4..][4 * (n - 1)..];
    }
  }

  lemma FirstWord(words: seq<U32>)
    requires words != []
    ensures FromLittleEndian(Image(words)[..4]) == words[0]
  {
    CapacityValues();
    LittleEndianReadsBack(4, words[0]);
    assert Image(words)[..4] == LittleEndian(4, words[0]);
  }

  /** The first `n` bytes carry the low digits. */
  lemma {:induction false} LittleEndianSplits(bytes: seq<Byte>, n: nat)
    requires n <= |bytes| && n <= 4
    ensures FromLittleEndian(bytes)
         == FromLittleEndian(bytes[..n])
            + (match n case 0 => 1 case 1 => 256 case 2 => 0x1_0000 case 3 => 0x100_0000 case _ => TWO_32)
              * FromLittleEndian(bytes[n..])
  {
    if n == 0 {
      assert bytes[0..] == bytes;
    } else {
      LittleEndianSplits(bytes[1..], n - 1);
      assert bytes[1..][n - 1..] == bytes[n..];
      assert bytes[..n][1..] == bytes[1..][..n - 1];
    }
  }

  lemma TwoWords(b: seq<Byte>, lo: nat, hi: nat)
    requires |b| == 8 && FromLittleEndian(b[..4]) == lo && FromLittleEndian(b[4..]) == hi
    ensures FromLittleEndian(b) == lo + TWO_32 * hi
  {
    LittleEndianSplits(b, 4);
  }

  lemma Slices(s: seq<Byte>)
    requires |s| >= 8
    ensures s[..8][..4] == s[..4] && s[..8][4..] == s[4..][..4]
  {
  }

  lemma FirstLong(words: seq<U32>)
    requires |words| >= 2
    ensures FromLittleEndian(Image(words)[..8]) == words[0] + TWO_32 * words[1]
  {
    FirstWord(words);
    FirstWord(words[1..]);
    ImageDrops(words, 1);
    Slices(Image(words));
    TwoWords(Image(words)[..8], words[0], words[1]);
  }

  lemma FirstField(words: seq<U32>, k: Kind)
    requires Size(k) <= |words|
    ensures FromLittleEndian(Image(words)[..4 * Size(k)]) == FieldAt(words, 0, k)
  {
    if k == Word { FirstWord(words); } else { FirstLong(words); }
  }

  lemma UnpackField(words: seq<U32>, at: nat, k: Kind, rest: seq<Code>)
    requires at + Size(k) <= |words| && CalcSize(rest) == 4 * (|words| - at - Size(k))
    ensures var format := [if k == Word then UInt else ULong] + rest;
            && CalcSize(format) == 4 * (|words| - at)
            && Unpack(format, Image(words[at..]))
            == [FieldAt(words, at, k)] + Unpack(rest, Image(words[at + Size(k)..]))
  {
    var format := [if k == Word then UInt else ULong] + rest;
    assert format[1..] == rest;
    FirstField(words[at..], k);
    ImageDrops(words[at..], Size(k));
    assert words[at..][Size(k)..] == words[at + Size(k)..];
  }

  lemma UnpackGap(words: seq<U32>, at: nat, rest: seq<Code>)
    requires at < |words| && CalcSize(rest) == 4 * (|words| - at - 1)
    ensures CalcSize([Gap] + rest) == 4 * (|words| - at)
    ensures Unpack([Gap] + rest, Image(words[at..])) == Unpack(rest, Image(words[at + 1..]))
  {
    assert ([Gap] + rest)[1..] == rest;
    ImageDrops(words[at..], 1);
    assert words[at..][1..] == words[at + 1..];
  }

  /** For any struct of 32- and 64-bit fields, unpacking its memory image with the explicit format
      gives back its fields, whatever the padding words contain. */
  lemma {:induction false} UnpackReadsStruct(kinds: seq<Kind>, at: nat, words: seq<U32>)
    requires End(kinds, at) == |words| && at <= |words|
    ensures CalcSize(FormatOf(kinds, at)) == 4 * (|words| - at)
    ensures Unpack(FormatOf(kinds, at), Image(words[at..])) == FieldsOf(kinds, at, words)
    decreases |kinds|
  {
    if kinds != [] {
      var here := Align(at, kinds[0]);
      var next := here + Size(kinds[0]);
      UnpackReadsStruct(kinds[1..], next, words);
      UnpackField(words, here, kinds[0], FormatOf(kinds[1..], next));
      var format := [if kinds[0] == Word then UInt else ULong] + FormatOf(kinds[1..], next);
      if here > at {
        UnpackGap(words, at, format);
        assert FormatOf(kinds, at) == [Gap] + format;
      } else {
        assert FormatOf(kinds, at) == format;
      }
    }
  }
}
