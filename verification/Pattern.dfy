/** The regular expression with which the host finds a result in the console text. */
module Pattern {
  const MARKER_BEGIN := "===NUCLEO_HIL_RESULT_BEGIN==="
  const MARKER_END := "===NUCLEO_HIL_RESULT_END==="

  datatype Option<+T> = None | Some(value: T)

  /** `\s` on text that was decoded as ASCII. */
  predicate IsSpace(c: char)
  {
    '\t' <= c <= '\r' || '\U{1c}' <= c <= ' '
  }

  predicate IsHex(c: char)
  {
    '0' <= c <= '9' || 'a' <= c <= 'f' || 'A' <= c <= 'F'
  }

  predicate At(text: string, p: nat, part: string)
  {
    p + |part| <= |text| && text[p..p + |part|] == part
  }

  /** A match: begin marker, spaces, the hex group, spaces, end marker. */
  datatype Match = Match(start: nat, groupStart: nat, groupEnd: nat, end: nat)

  ghost predicate IsMatch(text: string, m: Match)
  {
    Encloses(text, MARKER_BEGIN, MARKER_END, m)
  }

  ghost predicate Encloses(text: string, begin: string, end: string, m: Match)
  {
    && At(text, m.start, begin)
    && m.start + |begin| <= m.groupStart < m.groupEnd <= m.end - |end|
    && m.end <= |text|
    && (forall k | m.start + |begin| <= k < m.groupStart :: IsSpace(text[k]))
    && (forall k | m.groupStart <= k < m.groupEnd :: IsHex(text[k]))
    && (forall k | m.groupEnd <= k < m.end - |end| :: IsSpace(text[k]))
    && At(text, m.end - |end|, end)
  }

  /** The first position from `p` on where `kind` fails. */
  function Skip(text: string, p: nat, kind: char -> bool): (q: nat)
    requires p <= |text|
    ensures p <= q <= |text|
    ensures forall k | p <= k < q :: kind(text[k])
    ensures q < |text| ==> !kind(text[q])
    decreases |text| - p
  {
    if p < |text| && kind(text[p]) then Skip(text, p + 1, kind) else p
  }

  function MatchAt(text: string, p: nat): Option<Match>
    requires p <= |text|
  {
    if !At(text, p, MARKER_BEGIN) then None
    else
      var groupStart := Skip(text, p + |MARKER_BEGIN|, IsSpace);
      var groupEnd := Skip(text, groupStart, IsHex);
      var q := Skip(text, groupEnd, IsSpace);
      if groupEnd == groupStart || !At(text, q, MARKER_END) then None
      else Some(Match(p, groupStart, groupEnd, q + |MARKER_END|))
  }

  lemma SkipIsFirst(text: string, p: nat, kind: char -> bool, q: nat)
    requires p <= q < |text| && (forall k | p <= k < q :: kind(text[k])) && !kind(text[q])
    ensures Skip(text, p, kind) == q
  {
  }

  lemma MatchAtIsSound(text: string, p: nat)
    requires p <= |text| && MatchAt(text, p).Some?
    ensures IsMatch(text, MatchAt(text, p).value) && MatchAt(text, p).value.start == p
  {
  }

  lemma EndMarkerStops(text: string, q: nat)
    requires At(text, q, MARKER_END)
    ensures !IsSpace(text[q]) && !IsHex(text[q])
  {
    assert text[q] == text[q..q + |MARKER_END|][0] == '=';
  }

  lemma SkipsMeet(text: string, a: nat, b: nat, c: nat, d: nat)
    requires a <= b < c <= d && At(text, d, MARKER_END)
    requires (forall k | a <= k < b :: IsSpace(text[k])) && (forall k | b <= k < c :: IsHex(text[k]))
    requires forall k | c <= k < d :: IsSpace(text[k])
    ensures Skip(text, a, IsSpace) == b && Skip(text, b, IsHex) == c && Skip(text, c, IsSpace) == d
  {
    EndMarkerStops(text, d);
    SkipIsFirst(text, a, IsSpace, b);
    SkipIsFirst(text, b, IsHex, c);
    SkipIsFirst(text, c, IsSpace, d);
  }

  /** The two character classes and the marker are disjoint, so there is one way to match at a position. */
  lemma MatchAtIsComplete(text: string, m: Match)
    requires IsMatch(text, m)
    ensures MatchAt(text, m.start) == Some(m)
  {
    assert m.groupStart < m.groupEnd;
    SkipsMeet(text, m.start + |MARKER_BEGIN|, m.groupStart, m.groupEnd, m.end - |MARKER_END|);
  }

  lemma OnlyOneMatchAt(text: string, m: Match, n: Match)
    requires IsMatch(text, m) && IsMatch(text, n) && m.start == n.start
    ensures m == n
  {
    MatchAtIsComplete(text, m);
    MatchAtIsComplete(text, n);
  }

  /** Search: the match with the least start at or after `p`. */
  function Search(text: string, p: nat): Option<Match>
    requires p <= |text|
    decreases |text| - p
  {
    if MatchAt(text, p).Some? then MatchAt(text, p)
    else if p == |text| then None
    else Search(text, p + 1)
  }

  ghost predicate NoMatch(text: string)
  {
    forall m: Match :: !IsMatch(text, m)
  }

  /** `found` is a match of least start at or after `p`, or there is no match from `p` on. */
  ghost predicate Least(text: string, p: nat, found: Option<Match>)
  {
    match found
    case Some(m) => IsMatch(text, m) && p <= m.start && forall n | IsMatch(text, n) && p <= n.start :: m.start <= n.start
    case None => forall n | IsMatch(text, n) :: n.start < p
  }

  lemma MatchesAt(text: string, p: nat)
    requires p <= |text|
    ensures forall n | IsMatch(text, n) && n.start == p :: MatchAt(text, p) == Some(n)
  {
    forall n | IsMatch(text, n) && n.start == p ensures MatchAt(text, p) == Some(n) { MatchAtIsComplete(text, n); }
  }

  lemma StartIsInside(text: string, m: Match)
    requires IsMatch(text, m)
    ensures m.start < |text|
  {
  }

  lemma LeastStep(text: string, p: nat, here: Option<Match>, later: Option<Match>)
    requires here.Some? ==> IsMatch(text, here.value) && here.value.start == p
    requires forall n | IsMatch(text, n) && n.start == p :: here == Some(n)
    requires Least(text, p + 1, later)
    ensures Least(text, p, if here.Some? then here else later)
  {
  }

  lemma {:induction false} SearchIsExact(text: string, p: nat)
    requires p <= |text|
    ensures Least(text, p, Search(text, p))
    decreases |text| - p
  {
    MatchesAt(text, p);
    if MatchAt(text, p).Some? { MatchAtIsSound(text, p); }
    if p < |text| {
      SearchIsExact(text, p + 1);
      LeastStep(text, p, MatchAt(text, p), Search(text, p + 1));
    } else {
      forall n | IsMatch(text, n) ensures n.start < p { StartIsInside(text, n); }
    }
  }

  /** A match at which all matches start later or are the same is what the search returns. */
  lemma LeastMatchIsFound(text: string, m: Match)
    requires IsMatch(text, m) && forall n | IsMatch(text, n) :: m.start <= n.start
    ensures Search(text, 0) == Some(m)
  {
    SearchIsExact(text, 0);
    var found := Search(text, 0).value;
    assert found.start == m.start;
    OnlyOneMatchAt(text, m, found);
  }
}
