/** The result struct that the firmware publishes: its constants and its layout. */
module BenchRecord {
  import opened Words
  import opened Layout

  const MAGIC: U32 := 0x5142_4e31
  const VERSION: U32 := 1
  const STATE_TEST_STARTED: U32 := 1
  const STATE_TEST_COMPLETE: U32 := 2
  const STAGE_OK: U32 := 1
  const STAGE_FAILED: U32 := 2
  const RESULT_PASS: U32 := 1
  const RESULT_FAIL_ENCODE: U32 := 2
  const RESULT_FAIL_DECODE: U32 := 3
  const RESULT_FAIL_VALIDATION: U32 := 4
  const RESULT_FAIL_NO_DWT: U32 := 5
  const ITERATIONS := 500

  // Word offsets of the fields. A 64-bit sum takes the named word and the next one.
  const MAGIC_AT := 0
  const VERSION_AT := 1
  const STATE_AT := 2
  const COUNTER_AT := 3
  const ENCODE_STAGE_AT := 4
  const DECODE_STAGE_AT := 5
  const VALIDATE_STAGE_AT := 6
  const ENCODE_STATUS_AT := 7
  const DECODE_STATUS_AT := 8
  const ENCODED_BYTES_AT := 9
  const RESULT_CODE_AT := 10
  const DWT_SUPPORTED_AT := 11
  const OVERHEAD_AT := 12
  const ITERATION_COUNT_AT := 13
  const FAILURES_AT := 14
  const ENCODE_MIN_AT := 15
  const ENCODE_SUM_AT := 18
  const DECODE_MIN_AT := 20
  const DECODE_SUM_AT := 22
  const ROUNDTRIP_MIN_AT := 24
  const ROUNDTRIP_SUM_AT := 26
  const WATERMARK_AT := 28
  const REGION_AT := 29
  const HEAP_AT := 30
  /** The transmitted prefix ends where the three arrays of raw samples begin. */
  const PREFIX_WORDS := 31
  const STRUCT_WORDS := 1531

  /** A field list that starts with `n` 32-bit fields. */
  function WordsThen(n: nat, rest: seq<Kind>): seq<Kind>
  {
    if n == 0 then rest else [Word] + WordsThen(n - 1, rest)
  }

  function UIntsThen(n: nat, rest: seq<Code>): seq<Code>
  {
    if n == 0 then rest else [UInt] + UIntsThen(n - 1, rest)
  }

  /** Runs of a 64-bit sum followed by that many words. */
  function Groups(counts: seq<nat>): seq<Kind>
  {
    if counts == [] then [] else [Long] + WordsThen(counts[0], Groups(counts[1..]))
  }

  function GroupCodes(counts: seq<nat>): seq<Code>
  {
    if counts == [] then [] else [ULong] + UIntsThen(counts[0], GroupCodes(counts[1..]))
  }

  /** The struct as declared, without its arrays. */
  function Prefix(): seq<Kind> { WordsThen(17, Groups([2, 2, 3])) }

  /** The format string `<17I4xQ2IQ2IQ3I` of the host. */
  function WireFormat(): seq<Code> { UIntsThen(17, [Gap] + GroupCodes([2, 2, 3])) }

  lemma {:induction false} WordsFormat(n: nat, rest: seq<Kind>, at: nat)
    ensures FormatOf(WordsThen(n, rest), at) == UIntsThen(n, FormatOf(rest, at + n))
  {
    if n > 0 { WordsFormat(n - 1, rest, at + 1); }
  }

  lemma {:induction false} WordsFields(n: nat, rest: seq<Kind>, at: nat, end: nat, words: seq<U32>)
    requires end == at + n && End(rest, end) == |words|
    ensures End(WordsThen(n, rest), at) == |words| && end <= |words|
    ensures FieldsOf(WordsThen(n, rest), at, words) == words[at..end] + FieldsOf(rest, end, words)
    decreases n
  {
    if n == 0 {
      assert words[at..end] == [];
    } else {
      WordsFields(n - 1, rest, at + 1, end, words);
      OneWord(WordsThen(n - 1, rest), at, end, words, FieldsOf(rest, end, words));
    }
  }

  lemma OneWord(kinds: seq<Kind>, at: nat, end: nat, words: seq<U32>, tail: seq<nat>)
    requires End(kinds, at + 1) == |words| && at < end <= |words|
    requires FieldsOf(kinds, at + 1, words) == words[at + 1..end] + tail
    ensures End([Word] + kinds, at) == |words|
    ensures FieldsOf([Word] + kinds, at, words) == words[at..end] + tail
  {
    assert ([Word] + kinds)[1..] == kinds;
    WordFirst([Word] + kinds, at, words);
    Prepended(words, at, end, tail);
  }

  lemma WordFirst(kinds: seq<Kind>, at: nat, words: seq<U32>)
    requires kinds != [] && kinds[0] == Word && End(kinds[1..], at + 1) == |words|
    ensures End(kinds, at) == |words| && at + 1 <= |words|
    ensures FieldsOf(kinds, at, words) == [words[at]] + FieldsOf(kinds[1..], at + 1, words)
  {
    assert Align(at, Word) == at && Size(Word) == 1;
  }

  lemma Prepended(words: seq<U32>, a: nat, b: nat, tail: seq<nat>)
    requires a < b <= |words|
    ensures [words[a]] + (words[a + 1..b] + tail) == words[a..b] + tail
  {
  }

  /** Every sum is aligned when the groups start at an even word and have even sizes, except the last. */
  ghost predicate Even(counts: seq<nat>)
  {
    forall i | 0 <= i < |counts| - 1 :: counts[i] % 2 == 0
  }

  function GroupEnd(counts: seq<nat>, at: nat): nat
  {
    if counts == [] then at else GroupEnd(counts[1..], at + 2 + counts[0])
  }

  function GroupValues(counts: seq<nat>, at: nat, words: seq<U32>): seq<nat>
    requires GroupEnd(counts, at) == |words|
    decreases |counts|
  {
    if counts == [] then []
    else
      var next := at + 2 + counts[0];
      GroupEndGrows(counts[1..], next);
      [FieldAt(words, at, Long)] + (words[at + 2..next] + GroupValues(counts[1..], next, words))
  }

  lemma {:induction false} GroupEndGrows(counts: seq<nat>, at: nat)
    ensures GroupEnd(counts, at) >= at
  {
    if counts != [] { GroupEndGrows(counts[1..], at + 2 + counts[0]); }
  }

  lemma EvenTail(counts: seq<nat>, at: nat)
    requires Even(counts) && counts != [] && at % 2 == 0
    ensures Even(counts[1..]) && (counts[1..] == [] || (at + 2 + counts[0]) % 2 == 0)
  {
    assert forall i | 0 <= i < |counts| - 2 :: counts[1..][i] == counts[i + 1];
    assert |counts| > 1 ==> counts[0] % 2 == 0;
  }

  lemma OneGroupFormat(count: nat, rest: seq<Kind>, at: nat)
    requires at % 2 == 0
    ensures FormatOf([Long] + WordsThen(count, rest), at) == [ULong] + UIntsThen(count, FormatOf(rest, at + 2 + count))
  {
    WordsFormat(count, rest, at + 2);
    assert ([Long] + WordsThen(count, rest))[1..] == WordsThen(count, rest);
  }

  lemma {:induction false} GroupsFormat(counts: seq<nat>, at: nat)
    requires Even(counts) && (counts == [] || at % 2 == 0)
    ensures FormatOf(Groups(counts), at) == GroupCodes(counts)
    decreases |counts|
  {
    if counts != [] {
      EvenTail(counts, at);
      GroupsFormat(counts[1..], at + 2 + counts[0]);
      OneGroupFormat(counts[0], Groups(counts[1..]), at);
    }
  }

  lemma SumFields(rest: seq<Kind>, at: nat, words: seq<U32>)
    requires at % 2 == 0 && End(rest, at + 2) == |words|
    ensures End([Long] + rest, at) == |words|
    ensures FieldsOf([Long] + rest, at, words) == [FieldAt(words, at, Long)] + FieldsOf(rest, at + 2, words)
  {
    assert ([Long] + rest)[1..] == rest;
  }

  lemma OneGroup(count: nat, rest: seq<Kind>, at: nat, next: nat, words: seq<U32>)
    requires at % 2 == 0 && next == at + 2 + count && End(rest, next) == |words|
    ensures End([Long] + WordsThen(count, rest), at) == |words| && next <= |words|
    ensures FieldsOf([Long] + WordsThen(count, rest), at, words)
         == [FieldAt(words, at, Long)] + (words[at + 2..next] + FieldsOf(rest, next, words))
  {
    WordsFields(count, rest, at + 2, next, words);
    SumFields(WordsThen(count, rest), at, words);
  }

  lemma {:induction false} GroupsFields(counts: seq<nat>, at: nat, words: seq<U32>)
    requires Even(counts) && (counts == [] || at % 2 == 0) && GroupEnd(counts, at) == |words|
    ensures End(Groups(counts), at) == |words|
    ensures FieldsOf(Groups(counts), at, words) == GroupValues(counts, at, words)
    decreases |counts|
  {
    if counts != [] {
      EvenTail(counts, at);
      var next := at + 2 + counts[0];
      GroupsFields(counts[1..], next, words);
      OneGroup(counts[0], Groups(counts[1..]), at, next, words);
      FirstGroup(counts, at, words);
    }
  }

  lemma FirstGroup(counts: seq<nat>, at: nat, words: seq<U32>)
    requires counts != [] && GroupEnd(counts, at) == |words|
    ensures var next := at + 2 + counts[0];
            && GroupEnd(counts[1..], next) == |words| && next <= |words|
            && Groups(counts) == [Long] + WordsThen(counts[0], Groups(counts[1..]))
            && GroupValues(counts, at, words)
            == [FieldAt(words, at, Long)] + (words[at + 2..next] + GroupValues(counts[1..], next, words))
  {
    GroupEndGrows(counts[1..], at + 2 + counts[0]);
  }

  /** After an odd number of words the first sum needs one word of padding. */
  lemma PaddedFields(n: nat, counts: seq<nat>, words: seq<U32>)
    requires n % 2 == 1 && counts != [] && Even(counts) && GroupEnd(counts, n + 1) == |words|
    ensures n <= |words| && End(WordsThen(n, Groups(counts)), 0) == |words|
    ensures FormatOf(WordsThen(n, Groups(counts)), 0) == UIntsThen(n, [Gap] + GroupCodes(counts))
    ensures FieldsOf(WordsThen(n, Groups(counts)), 0, words) == words[..n] + GroupValues(counts, n + 1, words)
  {
    GroupsFormat(counts, n + 1);
    GroupsFields(counts, n + 1, words);
    PaddingFirst(counts, n, words);
    WordsFormat(n, Groups(counts), 0);
    WordsThenGroups(n, Groups(counts), words);
  }

  lemma WordsThenGroups(n: nat, rest: seq<Kind>, words: seq<U32>)
    requires End(rest, n) == |words|
    ensures n <= |words| && End(WordsThen(n, rest), 0) == |words|
    ensures FieldsOf(WordsThen(n, rest), 0, words) == words[..n] + FieldsOf(rest, n, words)
  {
    WordsFields(n, rest, 0, n, words);
    assert words[0..n] == words[..n];
  }

  lemma PaddingFirst(counts: seq<nat>, at: nat, words: seq<U32>)
    requires at % 2 == 1 && counts != [] && End(Groups(counts), at + 1) == |words|
    ensures End(Groups(counts), at) == |words|
    ensures FormatOf(Groups(counts), at) == [Gap] + FormatOf(Groups(counts), at + 1)
    ensures FieldsOf(Groups(counts), at, words) == FieldsOf(Groups(counts), at + 1, words)
  {
    var kinds := Groups(counts);
    assert kinds[0] == Long && Align(at, Long) == Align(at + 1, Long) == at + 1;
  }

  /** The fields in declaration order: the order of the names the host gives them. */
  function Values(words: seq<U32>): (values: seq<nat>)
    requires |words| == PREFIX_WORDS
    ensures |values| == 27
  {
    words[..17] + [FieldAt(words, ENCODE_SUM_AT, Long)] + words[20..22]
    + [FieldAt(words, DECODE_SUM_AT, Long)] + words[24..26]
    + [FieldAt(words, ROUNDTRIP_SUM_AT, Long)] + words[28..]
  }

  lemma TwoTwoThree(words: seq<U32>)
    requires |words| == PREFIX_WORDS
    ensures GroupEnd([2, 2, 3], 18) == PREFIX_WORDS
    ensures words[..17] + GroupValues([2, 2, 3], 18, words) == Values(words)
  {
    assert [2, 2, 3][1..] == [2, 3] && [2, 3][1..] == [3] && [3][1..] == [];
    assert GroupEnd([3], 26) == 31 && GroupEnd([2, 3], 22) == 31 && GroupEnd([2, 2, 3], 18) == 31;
    assert GroupValues([], 31, words) == [];
    assert GroupValues([3], 26, words) == [FieldAt(words, 26, Long)] + words[28..31];
    assert GroupValues([2, 3], 22, words) == [FieldAt(words, 22, Long)] + (words[24..26] + GroupValues([3], 26, words));
  }

  lemma HostReadsGroups(n: nat, counts: seq<nat>, words: seq<U32>)
    requires n % 2 == 1 && counts != [] && Even(counts) && GroupEnd(counts, n + 1) == |words|
    ensures n <= |words| && End(WordsThen(n, Groups(counts)), 0) == |words|
    ensures FormatOf(WordsThen(n, Groups(counts)), 0) == UIntsThen(n, [Gap] + GroupCodes(counts))
    ensures CalcSize(UIntsThen(n, [Gap] + GroupCodes(counts))) == 4 * |words|
    ensures Unpack(UIntsThen(n, [Gap] + GroupCodes(counts)), Image(words))
         == words[..n] + GroupValues(counts, n + 1, words)
  {
    PaddedFields(n, counts, words);
    UnpackReadsStruct(WordsThen(n, Groups(counts)), 0, words);
    assert words[0..] == words;
  }

  /** The compiler's layout of the struct and the host's format agree, so the host unpacks the
      transmitted 124 bytes into exactly the values that the firmware stored. */
  lemma HostReadsPrefix(words: seq<U32>)
    requires |words| == PREFIX_WORDS
    ensures FormatOf(Prefix(), 0) == WireFormat() && End(Prefix(), 0) == PREFIX_WORDS
    ensures CalcSize(WireFormat()) == |Image(words)| == 124
    ensures Unpack(WireFormat(), Image(words)) == Values(words)
  {
    TwoTwoThree(words);
    HostReadsGroups(17, [2, 2, 3], words);
  }
}
