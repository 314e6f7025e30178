/** Finding the frame in a stream: noise before it, a stream cut short, anything after it. */
module Framing {
  import opened Pattern
  import opened Transport

  /** The match that the transmitted frame itself gives rise to when it starts at `x`. */
  function FrameMatch(x: nat, hexLength: nat): Match
  {
    Match(x, x + |MARKER_BEGIN| + 2, x + |MARKER_BEGIN| + 2 + hexLength,
          x + |MARKER_BEGIN| + 4 + hexLength + |MARKER_END|)
  }

  /** What the host has when noise surrounds the frame. */
  function Stream(prefix: string, hex: string, suffix: string): string
  {
    prefix + Frame(hex) + suffix
  }

  ghost predicate FrameAt(text: string, x: nat, hex: string)
  {
    var q := x + |MARKER_BEGIN| + 4 + |hex|;
    && At(text, x, MARKER_BEGIN)
    && At(text, q, MARKER_END)
    && text[q - 2] == '\r' && text[q - 1] == '\n'
    && text[x + |MARKER_BEGIN|] == '\r' && text[x + |MARKER_BEGIN| + 1] == '\n'
    && (forall k | x + |MARKER_BEGIN| + 2 <= k < q - 2 :: IsHex(text[k]))
    && text[x + |MARKER_BEGIN| + 2..q - 2] == hex
  }

  lemma FrameIsThere(prefix: string, hex: string, suffix: string)
    requires forall k | 0 <= k < |hex| :: IsHex(hex[k])
    ensures FrameAt(Stream(prefix, hex, suffix), |prefix|, hex)
  {
    var text := Stream(prefix, hex, suffix);
    Pieces(prefix, MARKER_BEGIN, "\r\n", hex, MARKER_END, suffix, text);
    var at := |prefix| + |MARKER_BEGIN| + 2;
    assert forall k | at <= k < at + |hex| :: text[k] == hex[k - at];
  }

  lemma Pieces(prefix: string, begin: string, gap: string, hex: string, end: string, suffix: string, text: string)
    requires text == prefix + (begin + gap + hex + gap + end + gap) + suffix
    ensures var b := |prefix| + |begin|;
            var h := b + |gap|;
            var g := h + |hex|;
            && At(text, |prefix|, begin) && At(text, b, gap) && At(text, h, hex) && At(text, g, gap)
            && At(text, g + |gap|, end)
            && (forall k | 0 <= k < |gap| :: text[b + k] == gap[k] && text[g + k] == gap[k])
            && (forall k | h <= k < g :: text[k] == hex[k - h])
  {
    var r5 := end + (gap + suffix);
    var r4 := gap + r5;
    var r3 := hex + r4;
    var r2 := gap + r3;
    Nested(prefix, begin, gap, hex, end, suffix);
    Piece(prefix, begin, r2, text);
    Piece(prefix + begin, gap, r3, text);
    Piece(prefix + begin + gap, hex, r4, text);
    Piece(prefix + begin + gap + hex, gap, r5, text);
    Piece(prefix + begin + gap + hex + gap, end, gap + suffix, text);
  }

  lemma Nested(a: string, b: string, g: string, h: string, e: string, z: string)
    ensures a + (b + g + h + g + e + g) + z == a + (b + (g + (h + (g + (e + (g + z))))))
  {
    assert g + h + g + e + g + z == g + (h + (g + (e + (g + z))));
    assert (b + g + h + g + e + g) + z == b + (g + h + g + e + g + z);
  }

  lemma Piece(a: string, b: string, c: string, text: string)
    requires text == a + (b + c)
    ensures At(text, |a|, b) && text == (a + b) + c
    ensures forall k | |a| <= k < |a| + |b| :: text[k] == b[k - |a|]
    ensures forall k | 0 <= k < |b| :: text[|a| + k] == b[k]
  {
  }

  lemma FrameMatches(text: string, x: nat, hex: string)
    requires FrameAt(text, x, hex) && hex != ""
    ensures IsMatch(text, FrameMatch(x, |hex|))
  {
    var b, q := x + |MARKER_BEGIN|, x + |MARKER_BEGIN| + 4 + |hex|;
    LineEndIsSpace(text, b);
    LineEndIsSpace(text, q - 2);
  }

  lemma LineEndIsSpace(text: string, p: nat)
    requires p + 2 <= |text| && text[p] == '\r' && text[p + 1] == '\n'
    ensures forall k | p <= k < p + 2 :: IsSpace(text[k])
  {
  }

  /** An N after an equals sign inside a marker tells where the marker starts. */
  lemma InMarker(text: string, p: nat, marker: string, y: nat)
    requires At(text, p, marker) && OneStart(marker) && p < y < p + |marker|
    requires text[y] == 'N' && text[y - 1] == '='
    ensures y == p + 3
  {
    assert marker[y - p] == text[p..p + |marker|][y - p] && marker[y - 1 - p] == text[p..p + |marker|][y - 1 - p];
  }

  lemma CharOf(text: string, p: nat, part: string, d: nat)
    requires At(text, p, part) && d < |part|
    ensures text[p + d] == part[d]
  {
    assert text[p + d] == text[p..p + |part|][d];
  }

  lemma MarkerChars(text: string, p: nat)
    ensures At(text, p, MARKER_BEGIN) ==>
              text[p] == '=' && text[p + 2] == '=' && text[p + 3] == 'N' && text[p + 21] == 'B'
    ensures At(text, p, MARKER_END) ==>
              text[p] == '=' && text[p + 2] == '=' && text[p + 3] == 'N' && text[p + 21] == 'E'
  {
    MarkersAsLists();
    if At(text, p, MARKER_BEGIN) {
      CharOf(text, p, MARKER_BEGIN, 0);
      CharOf(text, p, MARKER_BEGIN, 2);
      CharOf(text, p, MARKER_BEGIN, 3);
      CharOf(text, p, MARKER_BEGIN, 21);
    }
    if At(text, p, MARKER_END) {
      CharOf(text, p, MARKER_END, 0);
      CharOf(text, p, MARKER_END, 2);
      CharOf(text, p, MARKER_END, 3);
      CharOf(text, p, MARKER_END, 21);
    }
  }

  lemma BetweenMarkers(text: string, m: Match, y: nat)
    requires IsMatch(text, m) && y < |text| && text[y] == 'N'
    ensures !(m.start + |MARKER_BEGIN| <= y < m.end - |MARKER_END|)
  {
  }

  /** In a match, an N after an equals sign is the fourth character of one of its markers. */
  lemma StartsInMatch(text: string, m: Match, y: nat)
    requires IsMatch(text, m) && m.start < y < m.end && text[y] == 'N' && text[y - 1] == '='
    ensures y == m.start + 3 || y == m.end - |MARKER_END| + 3
  {
    MarkersStartOnce();
    var q := m.end - |MARKER_END|;
    MarkerChars(text, q);
    BetweenMarkers(text, m, y);
    if y < m.start + |MARKER_BEGIN| {
      InMarker(text, m.start, MARKER_BEGIN, y);
    } else if y > q {
      InMarker(text, q, MARKER_END, y);
    }
  }

  /** No match starts before a begin marker and ends beyond its first three characters. */
  lemma NothingCrosses(text: string, x: nat, m: Match)
    requires At(text, x, MARKER_BEGIN) && IsMatch(text, m) && m.start < x
    ensures m.end <= x + 3
  {
    if m.end > x + 3 {
      MarkerChars(text, x);
      StartsInMatch(text, m, x + 3);
      EndMarkerIsNoBegin(text, m);
    }
  }

  lemma EndMarkerIsNoBegin(text: string, m: Match)
    requires IsMatch(text, m)
    ensures m.start < m.end - |MARKER_END| && !At(text, m.end - |MARKER_END|, MARKER_BEGIN)
  {
    MarkerChars(text, m.end - |MARKER_END|);
  }

  /** What ends within the first `n` characters does not depend on the rest. */
  lemma MatchesOfPrefix(text: string, n: nat, m: Match)
    requires n <= |text|
    ensures IsMatch(text[..n], m) <==> IsMatch(text, m) && m.end <= n
  {
    if m.end <= n && m.start + |MARKER_BEGIN| <= m.end {
      AtInPrefix(text, n, m.start, MARKER_BEGIN);
      if |MARKER_END| <= m.end { AtInPrefix(text, n, m.end - |MARKER_END|, MARKER_END); }
    }
  }

  lemma AtInPrefix(text: string, n: nat, p: nat, part: string)
    requires n <= |text| && p + |part| <= n
    ensures At(text[..n], p, part) <==> At(text, p, part)
  {
    assert text[..n][p..p + |part|] == text[p..p + |part|];
  }

  /** The noise holds no complete frame of its own, not even one that borrows the first characters that follow. */
  ghost predicate Quiet(prefix: string)
  {
    NoMatch(prefix + "===")
  }

  lemma StreamStarts(prefix: string, hex: string, suffix: string)
    ensures |Stream(prefix, hex, suffix)| >= |prefix| + 3
    ensures Stream(prefix, hex, suffix)[..|prefix| + 3] == prefix + "==="
  {
    MarkersAsLists();
    var rest := "\r\n" + (hex + ("\r\n" + (MARKER_END + ("\r\n" + suffix))));
    assert MARKER_BEGIN == "===" + MARKER_BEGIN[3..];
    Nested(prefix, MARKER_BEGIN, "\r\n", hex, MARKER_END, suffix);
    StartsWith(prefix, "===", MARKER_BEGIN[3..], rest);
  }

  lemma StartsWith(a: string, b: string, c: string, d: string)
    ensures |a + ((b + c) + d)| >= |a| + |b| && (a + ((b + c) + d))[..|a| + |b|] == a + b
  {
  }

  /** With quiet noise in front, the frame is the first match of any part of the stream that holds it. */
  lemma MatchesInStream(prefix: string, hex: string, suffix: string, m: Match)
    requires Quiet(prefix) && hex != "" && forall k | 0 <= k < |hex| :: IsHex(hex[k])
    requires IsMatch(Stream(prefix, hex, suffix), m)
    ensures m == FrameMatch(|prefix|, |hex|)
         || (m.start > |prefix| && m.end > FrameMatch(|prefix|, |hex|).end)
  {
    var text, x := Stream(prefix, hex, suffix), |prefix|;
    FrameIsThere(prefix, hex, suffix);
    FrameMatches(text, x, hex);
    NothingInNoise(prefix, hex, suffix, m);
    if m.start == x {
      OnlyOneMatchAt(text, m, FrameMatch(x, |hex|));
    } else {
      NothingCrosses(text, m.start, FrameMatch(x, |hex|));
    }
  }

  lemma NothingInNoise(prefix: string, hex: string, suffix: string, m: Match)
    requires Quiet(prefix) && IsMatch(Stream(prefix, hex, suffix), m)
    requires At(Stream(prefix, hex, suffix), |prefix|, MARKER_BEGIN)
    ensures m.start >= |prefix|
  {
    var text := Stream(prefix, hex, suffix);
    if m.start < |prefix| {
      NothingCrosses(text, |prefix|, m);
      StreamStarts(prefix, hex, suffix);
      MatchesOfPrefix(text, |prefix| + 3, m);
    }
  }

  lemma MatchesInPart(prefix: string, hex: string, suffix: string, n: nat, m: Match)
    requires Quiet(prefix) && hex != "" && forall k | 0 <= k < |hex| :: IsHex(hex[k])
    requires n <= |Stream(prefix, hex, suffix)| && IsMatch(Stream(prefix, hex, suffix)[..n], m)
    ensures m.end <= n
    ensures m == FrameMatch(|prefix|, |hex|)
         || (m.start > |prefix| && m.end > FrameMatch(|prefix|, |hex|).end)
  {
    MatchesOfPrefix(Stream(prefix, hex, suffix), n, m);
    MatchesInStream(prefix, hex, suffix, m);
  }

  /** However much of the stream has arrived, the search finds nothing before the end marker is complete,
      and from then on exactly the transmitted group. */
  lemma SearchFindsFrame(prefix: string, hex: string, suffix: string, n: nat)
    requires Quiet(prefix) && hex != "" && forall k | 0 <= k < |hex| :: IsHex(hex[k])
    requires n <= |Stream(prefix, hex, suffix)|
    ensures var m := FrameMatch(|prefix|, |hex|);
            && m.end == |prefix| + |Frame(hex)| - 2
            && Search(Stream(prefix, hex, suffix)[..n], 0) == (if n < m.end then None else Some(m))
            && (n >= m.end ==> Stream(prefix, hex, suffix)[..n][m.groupStart..m.groupEnd] == hex)
  {
    var text := Stream(prefix, hex, suffix);
    var m := FrameMatch(|prefix|, |hex|);
    FrameIsThere(prefix, hex, suffix);
    FrameMatches(text, |prefix|, hex);
    forall k: Match | IsMatch(text[..n], k) ensures k.end <= n && (k == m || (k.start > m.start && k.end > m.end)) {
      MatchesInPart(prefix, hex, suffix, n, k);
    }
    FoundInPart(text, n, m);
  }

  lemma FoundInPart(text: string, n: nat, m: Match)
    requires n <= |text| && IsMatch(text, m)
    requires forall k | IsMatch(text[..n], k) :: k.end <= n && (k == m || (k.start > m.start && k.end > m.end))
    ensures Search(text[..n], 0) == if n < m.end then None else Some(m)
    ensures n >= m.end ==> text[..n][m.groupStart..m.groupEnd] == text[m.groupStart..m.groupEnd]
  {
    MatchesOfPrefix(text, n, m);
    if n < m.end {
      SearchIsExact(text[..n], 0);
    } else {
      LeastMatchIsFound(text[..n], m);
      assert text[..n][m.groupStart..m.groupEnd] == text[m.groupStart..m.groupEnd];
    }
  }

  /** The condition on the noise is exact: if it is not met, some earlier match is found instead. */
  lemma QuietIsNeeded(prefix: string, hex: string, suffix: string)
    requires !Quiet(prefix)
    ensures Search(Stream(prefix, hex, suffix), 0).Some?
    ensures Search(Stream(prefix, hex, suffix), 0).value.start < |prefix|
  {
    var m: Match :| IsMatch(prefix + "===", m);
    MatchInNoise(prefix, hex, suffix, m);
    MatchesAreLong(Stream(prefix, hex, suffix), m);
  }

  lemma MatchInNoise(prefix: string, hex: string, suffix: string, m: Match)
    requires IsMatch(prefix + "===", m)
    ensures IsMatch(Stream(prefix, hex, suffix), m) && m.end <= |prefix| + 3
  {
    StreamStarts(prefix, hex, suffix);
    MatchesOfPrefix(Stream(prefix, hex, suffix), |prefix| + 3, m);
  }

  lemma MatchesAreLong(text: string, m: Match)
    requires IsMatch(text, m)
    ensures m.start + 57 <= m.end
    ensures Search(text, 0).Some? && Search(text, 0).value.start <= m.start
  {
    MarkersStartOnce();
    SearchIsExact(text, 0);
  }
}
