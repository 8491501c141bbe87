/** The three regular expressions of the BibTeX reader in `scripts/bib2yml.py`,
    written as explicit scanners:

    - the entry marker `@\w+\s*{`, whose zero-width lookahead matches split
      the text into chunks (`re.split(r'(?=@\w+\s*{)', text)`);
    - the anchored header `@(\w+)\s*{\s*([^,]+)\s*,` (`re.match`);
    - the field `\b(\w+)\s*=\s*(\{(?:[^{}]|\{[^{}]*\})*\}|"[^"]*")\s*,?`,
      searched left to right without overlap (`re.finditer`).

    Each scanner comes with a literal reading of its regular expression as a
    predicate over index positions (the `...Shape` predicates) and lemmas
    relating the two. All three regular expressions are deterministic after
    backtracking: every greedy run is followed by a character the run cannot
    contain, except the header key, which gives back one whitespace character
    when the comma follows the spaces after the brace directly. */
module BibScan {
  import opened Text

  predicate IsBrace(c: char) { c == '{' || c == '}' }
  predicate NotComma(c: char) { c != ',' }
  predicate NotQuote(c: char) { c != '"' }

  // ---------------------------------------------------------------------
  // The entry marker and the lookahead split

  /** The scanner for `@\w+\s*{` at position `i`. */
  predicate MarkerAt(s: string, i: nat) {
    i < |s| && s[i] == '@' &&
    var j := Span(s, IsWord, i + 1);
    var k := Span(s, IsSpace, j);
    j > i + 1 && k < |s| && s[k] == '{'
  }

  /** `@\w+\s*{` read literally: `@` at `i`, word characters up to `j`,
      whitespace up to `k`, an opening brace at `k`. */
  predicate MarkerShape(s: string, i: nat, j: nat, k: nat) {
    i + 1 < j <= k < |s| && s[i] == '@' && AllChars(s[i + 1..j], IsWord)
    && AllChars(s[j..k], IsSpace) && s[k] == '{'
  }

  /** The marker scanner accepts exactly where the regular expression matches. */
  lemma MarkerAtIsRegex(s: string, i: nat)
    ensures MarkerAt(s, i) <==> exists j: nat, k: nat :: MarkerShape(s, i, j, k)
  {
    if MarkerAt(s, i) {
      MarkerFoundShape(s, i, Span(s, IsWord, i + 1), Span(s, IsSpace, Span(s, IsWord, i + 1)));
    }
    if exists j: nat, k: nat :: MarkerShape(s, i, j, k) {
      var j: nat, k: nat :| MarkerShape(s, i, j, k);
      MarkerShapeFound(s, i, j, k);
    }
  }

  /** The parts the marker scanner finds make up a match. */
  lemma MarkerFoundShape(s: string, i: nat, j: nat, k: nat)
    requires MarkerAt(s, i) && j == Span(s, IsWord, i + 1) && k == Span(s, IsSpace, j)
    ensures MarkerShape(s, i, j, k)
  {
    SliceAll(s, IsWord, i + 1, j);
    SliceAll(s, IsSpace, j, k);
  }

  /** Every match is found by the marker scanner. */
  lemma MarkerShapeFound(s: string, i: nat, j: nat, k: nat)
    requires MarkerShape(s, i, j, k)
    ensures MarkerAt(s, i)
  {
    SliceAll(s, IsWord, i + 1, j);
    SliceAll(s, IsSpace, j, k);
    SpanExact(s, IsWord, i + 1, j);
    SpanExact(s, IsSpace, j, k);
  }

  /** Whether a marker starts at each position of the text. */
  function MarkerFlags(s: string): (b: seq<bool>)
    ensures |b| == |s| && forall i :: 0 <= i < |s| ==> b[i] == MarkerAt(s, i)
  {
    seq(|s|, i requires 0 <= i < |s| => MarkerAt(s, i))
  }

  /** The positions at or after `i` where `b` holds, in increasing order. */
  function Positions(b: seq<bool>, i: nat): (ps: seq<nat>)
    requires i <= |b|
    ensures forall k :: 0 <= k < |ps| ==> i <= ps[k] < |b| && b[ps[k]]
    ensures forall k, l :: 0 <= k < l < |ps| ==> ps[k] < ps[l]
    decreases |b| - i
  {
    if i == |b| then []
    else if b[i] then [i] + Positions(b, i + 1)
    else Positions(b, i + 1)
  }

  /** No position where `b` holds is missed. */
  lemma {:induction false} PositionsComplete(b: seq<bool>, i: nat, p: nat)
    requires i <= p < |b| && b[p]
    ensures p in Positions(b, i)
    decreases p - i
  {
    if i < p {
      PositionsComplete(b, i + 1, p);
    }
  }

  /** The marker positions at or after `i`, in increasing order: the places
      where the lookahead `(?=@\w+\s*{)` matches. */
  function MarkersFrom(s: string, i: nat): (ps: seq<nat>)
    requires i <= |s|
    ensures forall k :: 0 <= k < |ps| ==> i <= ps[k] < |s| && MarkerAt(s, ps[k])
    ensures forall k, l :: 0 <= k < l < |ps| ==> ps[k] < ps[l]
  {
    Positions(MarkerFlags(s), i)
  }

  /** No marker is missed. */
  lemma MarkersFromComplete(s: string, i: nat, p: nat)
    requires i <= p < |s| && MarkerAt(s, p)
    ensures p in MarkersFrom(s, i)
  {
    PositionsComplete(MarkerFlags(s), i, p);
  }

  /** Cut positions for a split: increasing, and inside the text. */
  predicate CutsOk(s: string, ps: seq<nat>) {
    (forall k :: 0 <= k < |ps| ==> ps[k] < |s|)
    && (forall k, l :: 0 <= k < l < |ps| ==> ps[k] < ps[l])
  }

  /** The `k`-th cut of the split: the start of the text, each marker, the end. */
  function Cut(s: string, ps: seq<nat>, k: nat): (c: nat)
    requires k <= |ps| + 1 && CutsOk(s, ps)
    ensures c <= |s|
  {
    if k == 0 then 0 else if k <= |ps| then ps[k - 1] else |s|
  }

  lemma CutStep(s: string, ps: seq<nat>, k: nat)
    requires k <= |ps| && CutsOk(s, ps)
    ensures Cut(s, ps, k) <= Cut(s, ps, k + 1)
    ensures k > 0 ==> Cut(s, ps, k) < Cut(s, ps, k + 1)
  {
  }

  /** The text cut at the positions `ps`. */
  function ChunksAt(s: string, ps: seq<nat>): (parts: seq<string>)
    requires CutsOk(s, ps)
    ensures |parts| == |ps| + 1
    ensures forall k :: 0 <= k <= |ps| ==> parts[k] == s[Cut(s, ps, k)..Cut(s, ps, k + 1)]
  {
    seq(|ps| + 1, k requires 0 <= k <= |ps| => CutStep(s, ps, k); s[Cut(s, ps, k)..Cut(s, ps, k + 1)])
  }

  /** `re.split(r'(?=@\w+\s*{)', text)`: the text cut before every marker.
      When the text starts with a marker the first chunk is empty. */
  function SplitChunks(s: string): (parts: seq<string>)
    ensures |parts| == |MarkersFrom(s, 0)| + 1
  {
    ChunksAt(s, MarkersFrom(s, 0))
  }

  /** Cutting a text and putting the pieces back together gives the text. */
  lemma ChunksCover(s: string, ps: seq<nat>)
    requires CutsOk(s, ps)
    ensures Join(ChunksAt(s, ps), "") == s
  {
    var parts := ChunksAt(s, ps);
    for n := 0 to |parts|
      invariant Join(parts[..n], "") == s[..Cut(s, ps, n)]
    {
      CutStep(s, ps, n);
      assert parts[..n + 1] == parts[..n] + [parts[n]];
      JoinSnoc(parts[..n], parts[n]);
      assert s[..Cut(s, ps, n + 1)] == s[..Cut(s, ps, n)] + s[Cut(s, ps, n)..Cut(s, ps, n + 1)];
    }
    assert parts[..|parts|] == parts;
  }

  /** The chunks of the split put back together are the text. */
  lemma SplitCovers(s: string)
    ensures Join(SplitChunks(s), "") == s
  {
    ChunksCover(s, MarkersFrom(s, 0));
  }

  /** No cut lies strictly between two neighbouring cuts. */
  lemma CutsBetween(s: string, ps: seq<nat>, k: nat, m: nat)
    requires CutsOk(s, ps) && k <= |ps| && Cut(s, ps, k) < m < Cut(s, ps, k + 1)
    ensures m !in ps
  {
  }

  /** Every chunk after the first starts at a marker, which stays with it. */
  lemma SplitChunkStarts(s: string)
    ensures forall k :: 1 <= k < |SplitChunks(s)| ==>
      MarkerAt(s, Cut(s, MarkersFrom(s, 0), k)) && SplitChunks(s)[k][0] == '@'
  {
    var ps := MarkersFrom(s, 0);
    forall k | 1 <= k < |SplitChunks(s)|
      ensures MarkerAt(s, Cut(s, ps, k)) && SplitChunks(s)[k][0] == '@'
    {
      CutStep(s, ps, k);
    }
  }

  /** No marker lies inside a chunk: the split cuts at every one. */
  lemma SplitNoInnerMarker(s: string)
    ensures forall k, m ::
      (0 <= k < |SplitChunks(s)| && Cut(s, MarkersFrom(s, 0), k) < m < Cut(s, MarkersFrom(s, 0), k + 1))
      ==> !MarkerAt(s, m)
  {
    var ps := MarkersFrom(s, 0);
    forall k, m | 0 <= k < |SplitChunks(s)| && Cut(s, ps, k) < m < Cut(s, ps, k + 1)
      ensures !MarkerAt(s, m)
    {
      CutsBetween(s, ps, k, m);
      if MarkerAt(s, m) {
        MarkersFromComplete(s, 0, m);
      }
    }
  }

  /** The first chunk is the text before the first marker: it is empty when
      the text starts with one. */
  lemma SplitFirstChunk(s: string)
    ensures |SplitChunks(s)[0]| > 0 ==> !MarkerAt(s, 0)
  {
    var ps := MarkersFrom(s, 0);
    if MarkerAt(s, 0) {
      MarkersFromComplete(s, 0, 0);
      assert ps[0] == 0;
      assert SplitChunks(s)[0] == s[0..0];
    }
  }

  // ---------------------------------------------------------------------
  // The entry header

  /** The captured groups of the header: the entry type, the raw key, and the
      index just after the comma that ends the match. */
  datatype Header = Header(tag: string, rawKey: string, end: nat)

  /** `@(\w+)\s*{\s*([^,]+)\s*,` read literally, anchored at 0: `@`, word
      characters up to `j`, whitespace up to `k`, `{` at `k`, whitespace up to
      `w`, the key (no comma, at least one character) up to `c`, whitespace up
      to `e`, and `,` at `e`. */
  predicate HeaderShape(p: string, j: nat, k: nat, w: nat, c: nat, e: nat) {
    1 < j <= k && k < w < c <= e < |p|
    && p[0] == '@' && AllChars(p[1..j], IsWord) && AllChars(p[j..k], IsSpace)
    && p[k] == '{' && AllChars(p[k + 1..w], IsSpace)
    && AllChars(p[w..c], NotComma) && AllChars(p[c..e], IsSpace) && p[e] == ','
  }

  /** The scanner for the header regular expression, anchored at the start.
      Its soundness and completeness with respect to `HeaderShape` are
      `MatchHeaderSound` and `MatchHeaderComplete`. */
  function MatchHeader(p: string): (m: Option<Header>)
    ensures m.Some? ==> m.value.end <= |p|
  {
    if |p| == 0 || p[0] != '@' then None
    else
      var j := Span(p, IsWord, 1);
      var k := Span(p, IsSpace, j);
      if j == 1 || k == |p| || p[k] != '{' then None
      else
        var w := Span(p, IsSpace, k + 1);
        var c := Span(p, NotComma, k + 1);
        if c == |p| || c == k + 1 then None
        else
          var w' := if w < c then w else c - 1;
          Some(Header(p[1..j], p[w'..c], c + 1))
  }

  /** Every header the scanner reports is a match of the regular expression,
      with the key running from the end of the whitespace after `{` to the
      first comma; when the comma directly follows that whitespace, the
      engine gives the last whitespace character back to the key. */
  lemma MatchHeaderSound(p: string)
    requires MatchHeader(p).Some?
    ensures exists j: nat, k: nat, w: nat, c: nat ::
      HeaderShape(p, j, k, w, c, c) && MatchHeader(p).value.tag == p[1..j]
      && MatchHeader(p).value.rawKey == p[w..c] && MatchHeader(p).value.end == c + 1
  {
    var j := Span(p, IsWord, 1);
    var k := Span(p, IsSpace, j);
    var w := Span(p, IsSpace, k + 1);
    var c := Span(p, NotComma, k + 1);
    var w' := if w < c then w else c - 1;
    assert MatchHeader(p).value == Header(p[1..j], p[w'..c], c + 1);
    HeaderSpans(p, j, k, w, c);
  }

  /** The spans the header scanner computes, when it succeeds, cut a match
      of the regular expression. */
  lemma HeaderSpans(p: string, j: nat, k: nat, w: nat, c: nat)
    requires |p| > 0 && p[0] == '@' && j == Span(p, IsWord, 1) && j > 1
    requires k == Span(p, IsSpace, j) && k < |p| && p[k] == '{'
    requires w == Span(p, IsSpace, k + 1) && c == Span(p, NotComma, k + 1)
    requires k + 1 < c < |p|
    ensures HeaderShape(p, j, k, if w < c then w else c - 1, c, c)
  {
    var w' := if w < c then w else c - 1;
    assert forall q :: k + 1 <= q < w' ==> IsSpace(p[q]);
    assert forall q :: w' <= q < c ==> NotComma(p[q]);
    HeaderFoundShape(p, j, k, w', c);
  }

  /** The parts the header scanner finds make up a match of the regular expression. */
  lemma HeaderFoundShape(p: string, j: nat, k: nat, w: nat, c: nat)
    requires 1 < j <= k < w < c < |p| && p[0] == '@' && p[k] == '{' && p[c] == ','
    requires forall q :: 1 <= q < j ==> IsWord(p[q])
    requires forall q :: j <= q < k ==> IsSpace(p[q])
    requires forall q :: k + 1 <= q < w ==> IsSpace(p[q])
    requires forall q :: w <= q < c ==> NotComma(p[q])
    ensures HeaderShape(p, j, k, w, c, c)
  {
    SliceAll(p, IsWord, 1, j);
    SliceAll(p, IsSpace, j, k);
    SliceAll(p, IsSpace, k + 1, w);
    SliceAll(p, NotComma, w, c);
  }

  /** Whenever the header regular expression matches, the scanner matches too,
      with the same entry type and the same end. */
  lemma MatchHeaderComplete(p: string, j: nat, k: nat, w: nat, c: nat, e: nat)
    requires HeaderShape(p, j, k, w, c, e)
    ensures MatchHeader(p).Some?
    ensures MatchHeader(p).value.tag == p[1..j] && MatchHeader(p).value.end == e + 1
  {
    SliceAll(p, IsWord, 1, j);
    SliceAll(p, IsSpace, j, k);
    SliceAll(p, IsSpace, k + 1, w);
    SliceAll(p, NotComma, w, c);
    SliceAll(p, IsSpace, c, e);
    SpanExact(p, IsWord, 1, j);
    SpanExact(p, IsSpace, j, k);
    SpanExact(p, NotComma, k + 1, e);
  }

  // ---------------------------------------------------------------------
  // Field values: one level of brace nesting, or a quoted string

  /** The number of braces in `t`. */
  function Braces(t: string): nat
    decreases |t|
  {
    if t == [] then 0 else Braces(t[..|t| - 1]) + (if IsBrace(t[|t| - 1]) then 1 else 0)
  }

  /** The braces of `t`, read from the left, alternate `{`, `}`, `{`, ...:
      a brace with an even number of braces before it is an opening one. */
  predicate Alternating(t: string) {
    forall m :: 0 <= m < |t| && IsBrace(t[m]) ==> (t[m] == '{' <==> Braces(t[..m]) % 2 == 0)
  }

  /** What `(?:[^{}]|\{[^{}]*\})*` matches: characters other than braces, and
      inner groups `{...}` that contain no brace. */
  predicate OneLevel(t: string) {
    Alternating(t) && Braces(t) % 2 == 0
  }

  /** A value that `\{(?:[^{}]|\{[^{}]*\})*\}` matches as a whole. */
  predicate BracedValue(v: string) {
    |v| >= 2 && v[0] == '{' && v[|v| - 1] == '}' && OneLevel(v[1..|v| - 1])
  }

  /** A value that `"[^"]*"` matches as a whole. */
  predicate QuotedValue(v: string) {
    |v| >= 2 && v[0] == '"' && v[|v| - 1] == '"' && AllChars(v[1..|v| - 1], NotQuote)
  }

  /** The scanner for a braced value from just after its opening brace: it
      tracks whether an inner group is open, fails on a second level of
      nesting or at the end of the text, and stops at the first closing brace
      outside any inner group. */
  function BraceClose(s: string, k: nat, inner: bool): (r: Option<nat>)
    requires k <= |s|
    ensures r.Some? ==> k <= r.value < |s|
    decreases |s| - k
  {
    if k == |s| then None
    else if s[k] == '}' then (if inner then BraceClose(s, k + 1, false) else Some(k))
    else if s[k] == '{' then (if inner then None else BraceClose(s, k + 1, true))
    else BraceClose(s, k + 1, inner)
  }

  lemma BracesSnoc(t: string, c: char)
    ensures Braces(t + [c]) == Braces(t) + (if IsBrace(c) then 1 else 0)
  {
    assert (t + [c])[..|t|] == t;
  }

  lemma AlternatingSnoc(t: string, c: char)
    ensures Alternating(t + [c]) <==> Alternating(t) && (IsBrace(c) ==> (c == '{' <==> Braces(t) % 2 == 0))
  {
    var u := t + [c];
    assert u[..|t|] == t;
    assert forall m :: 0 <= m < |t| ==> u[..m] == t[..m] && u[m] == t[m];
  }

  lemma AlternatingPrefix(t: string, n: nat)
    requires n <= |t| && Alternating(t)
    ensures Alternating(t[..n])
  {
    assert forall m :: 0 <= m < n ==> t[..n][..m] == t[..m] && t[..n][m] == t[m];
  }

  /** From position `k`, with the braces of `s[a..k]` alternating and an
      inner group open exactly when their number is odd, a closing brace `e`
      the brace scanner returns ends a one-level content `s[a..e]`. */
  lemma {:induction false} BraceCloseSound(s: string, a: nat, k: nat, inner: bool)
    requires a <= k <= |s|
    requires Alternating(s[a..k]) && inner == (Braces(s[a..k]) % 2 == 1)
    ensures BraceClose(s, k, inner).Some? ==>
      var e := BraceClose(s, k, inner).value; k <= e < |s| && s[e] == '}' && OneLevel(s[a..e])
    decreases |s| - k
  {
    if k < |s| {
      var t := s[a..k];
      if s[k] == '}' && !inner {
        assert OneLevel(t);
      } else if IsBrace(s[k]) ==> (s[k] == '{' <==> Braces(t) % 2 == 0) {
        BraceStep(s, a, k);
        var inner' := inner != IsBrace(s[k]);
        BraceCloseSound(s, a, k + 1, inner');
        assert BraceClose(s, k, inner) == BraceClose(s, k + 1, inner');
      }
    }
  }

  /** One more character that keeps the alternation. */
  lemma BraceStep(s: string, a: nat, k: nat)
    requires a <= k < |s| && Alternating(s[a..k])
    requires IsBrace(s[k]) ==> (s[k] == '{' <==> Braces(s[a..k]) % 2 == 0)
    ensures Alternating(s[a..k + 1])
    ensures Braces(s[a..k + 1]) == Braces(s[a..k]) + (if IsBrace(s[k]) then 1 else 0)
  {
    var t := s[a..k];
    assert s[a..k + 1] == t + [s[k]];
    AlternatingSnoc(t, s[k]);
    BracesSnoc(t, s[k]);
  }

  /** Under the same conditions, the brace scanner finds the closing brace
      `e` that ends a one-level content `s[a..e]`. */
  lemma {:induction false} BraceCloseComplete(s: string, a: nat, k: nat, inner: bool, e: nat)
    requires a <= k <= e < |s| && s[e] == '}' && OneLevel(s[a..e])
    requires Alternating(s[a..k]) && inner == (Braces(s[a..k]) % 2 == 1)
    ensures BraceClose(s, k, inner) == Some(e)
    decreases e - k
  {
    if k < e {
      BraceStepBefore(s, a, k, e);
      var inner' := inner != IsBrace(s[k]);
      BraceCloseComplete(s, a, k + 1, inner', e);
      assert BraceClose(s, k, inner) == BraceClose(s, k + 1, inner');
    } else {
      assert !inner;
    }
  }

  /** A brace before the end of a one-level content keeps the alternation. */
  lemma BraceStepBefore(s: string, a: nat, k: nat, e: nat)
    requires a <= k < e <= |s| && OneLevel(s[a..e]) && Alternating(s[a..k])
    ensures IsBrace(s[k]) ==> (s[k] == '{' <==> Braces(s[a..k]) % 2 == 0)
    ensures Alternating(s[a..k + 1])
    ensures Braces(s[a..k + 1]) == Braces(s[a..k]) + (if IsBrace(s[k]) then 1 else 0)
  {
    var t := s[a..k];
    assert s[a..k + 1] == t + [s[k]];
    assert s[a..e][..k + 1 - a] == s[a..k + 1];
    AlternatingPrefix(s[a..e], k + 1 - a);
    AlternatingSnoc(t, s[k]);
    BracesSnoc(t, s[k]);
  }

  // ---------------------------------------------------------------------
  // Fields

  /** One match of the field regular expression: where it starts, the field
      name (group 1), the raw value with its delimiters (group 2), and where it
      ends, after the optional whitespace and comma. */
  datatype FieldMatch = FieldMatch(start: nat, name: string, raw: string, end: nat)

  /** The field regular expression read literally, for match `m`: a word
      boundary at `m.start`, the name up to `j`, whitespace up to `k`, `=` at
      `k`, whitespace up to `l`, the value from `l` to `e`, then whitespace up
      to `m.end`, or whitespace and a comma. */
  predicate FieldShape(s: string, m: FieldMatch, j: nat, k: nat, l: nat, e: nat) {
    m.start < j <= k < l < e <= m.end <= |s|
    && (m.start == 0 || !IsWord(s[m.start - 1]))
    && m.name == s[m.start..j] && AllChars(m.name, IsWord)
    && AllChars(s[j..k], IsSpace) && s[k] == '=' && AllChars(s[k + 1..l], IsSpace)
    && m.raw == s[l..e] && (BracedValue(m.raw) || QuotedValue(m.raw))
    && (AllChars(s[e..m.end], IsSpace)
        || (e < m.end && AllChars(s[e..m.end - 1], IsSpace) && s[m.end - 1] == ','))
  }

  /** The end of `\s*,?` from `p`: greedy whitespace, then a comma if there is one. */
  function TrailEnd(s: string, p: nat): (q: nat)
    requires p <= |s|
    ensures p <= q <= |s|
    ensures AllChars(s[p..q], IsSpace) || (p < q && AllChars(s[p..q - 1], IsSpace) && s[q - 1] == ',')
  {
    var q := Span(s, IsSpace, p);
    SliceAll(s, IsSpace, p, q);
    if q < |s| && s[q] == ',' then
      assert s[p..q + 1 - 1] == s[p..q];
      q + 1
    else q
  }

  /** The scanner for group 2 at `l`: the end of the braced or quoted value
      that starts there, if any. */
  function ValueEnd(s: string, l: nat): (r: Option<nat>)
    requires l < |s|
    ensures r.Some? ==> l < r.value <= |s|
  {
    if s[l] == '{' then
      match BraceClose(s, l + 1, false)
      case None => None
      case Some(c) => Some(c + 1)
    else if s[l] == '"' then
      var c := Span(s, NotQuote, l + 1);
      if c == |s| then None else Some(c + 1)
    else None
  }

  /** What the value scanner finds is a value of one of the two forms. */
  lemma ValueEndSound(s: string, l: nat)
    requires l < |s| && ValueEnd(s, l).Some?
    ensures BracedValue(s[l..ValueEnd(s, l).value]) || QuotedValue(s[l..ValueEnd(s, l).value])
  {
    var e := ValueEnd(s, l).value;
    var v := s[l..e];
    assert v[0] == s[l] && v[|v| - 1] == s[e - 1];
    SliceOfSlice(s, l, e, 1, |v| - 1);
    if s[l] == '{' {
      assert s[l + 1..l + 1] == [];
      BraceCloseSound(s, l + 1, l + 1, false);
    } else {
      SliceAll(s, NotQuote, l + 1, e - 1);
    }
  }

  /** The value scanner finds every value the two alternatives of group 2
      match, and ends it where the regular expression does. */
  lemma ValueScanComplete(s: string, l: nat, e: nat)
    requires l < e <= |s| && (BracedValue(s[l..e]) || QuotedValue(s[l..e]))
    ensures ValueEnd(s, l) == Some(e)
  {
    var v := s[l..e];
    assert v[0] == s[l] && v[|v| - 1] == s[e - 1];
    SliceOfSlice(s, l, e, 1, |v| - 1);
    if s[l] == '{' {
      assert s[l + 1..l + 1] == [];
      BraceCloseComplete(s, l + 1, l + 1, false, e - 1);
    } else {
      SliceAll(s, NotQuote, l + 1, e - 1);
      SpanExact(s, NotQuote, l + 1, e - 1);
    }
  }

  /** The field scanner: the match of the field regular expression that
      starts at `i`, if any. Its soundness and completeness with respect to
      `FieldShape` are `FieldAtSound` and `FieldAtComplete`. */
  function FieldAt(s: string, i: nat): (r: Option<FieldMatch>)
    requires i <= |s|
    ensures r.Some? ==> r.value.start == i < r.value.end <= |s|
  {
    if i == |s| || !IsWord(s[i]) || (i > 0 && IsWord(s[i - 1])) then None
    else FieldAfterName(s, i, Span(s, IsWord, i))
  }

  /** The field scanner once the name runs from `i` to `j`: whitespace, then `=`. */
  function FieldAfterName(s: string, i: nat, j: nat): (r: Option<FieldMatch>)
    requires i <= j <= |s|
    ensures r.Some? ==> r.value.start == i < r.value.end <= |s|
  {
    var k := Span(s, IsSpace, j);
    if k == |s| || s[k] != '=' then None else FieldAfterEquals(s, i, j, k)
  }

  /** The field scanner once `=` is at `k`: whitespace, then the value. */
  function FieldAfterEquals(s: string, i: nat, j: nat, k: nat): (r: Option<FieldMatch>)
    requires i <= j <= k < |s|
    ensures r.Some? ==> r.value.start == i < r.value.end <= |s|
  {
    var l := Span(s, IsSpace, k + 1);
    if l == |s| then None else FieldFrom(s, i, j, l)
  }

  /** The rest of the field scanner, once the name ends at `j` and the value
      starts at `l`. */
  function FieldFrom(s: string, i: nat, j: nat, l: nat): (r: Option<FieldMatch>)
    requires i <= j <= l < |s|
    ensures r.Some? ==> r.value.start == i < r.value.end <= |s|
  {
    match ValueEnd(s, l)
    case None => None
    case Some(e) => Some(FieldMatch(i, s[i..j], s[l..e], TrailEnd(s, e)))
  }

  /** Every match the scanner reports is a match of the regular expression. */
  lemma FieldAtSound(s: string, i: nat)
    requires i <= |s| && FieldAt(s, i).Some?
    ensures exists j, k, l, e :: FieldShape(s, FieldAt(s, i).value, j, k, l, e)
  {
    var j := Span(s, IsWord, i);
    var k := Span(s, IsSpace, j);
    var l := Span(s, IsSpace, k + 1);
    var e := ValueEnd(s, l).value;
    assert FieldAt(s, i).value == FieldMatch(i, s[i..j], s[l..e], TrailEnd(s, e));
    FieldSpans(s, i, j, k, l, e);
  }

  /** The spans the field scanner computes, when it succeeds, cut a match
      of the regular expression. */
  lemma FieldSpans(s: string, i: nat, j: nat, k: nat, l: nat, e: nat)
    requires i < |s| && IsWord(s[i]) && (i == 0 || !IsWord(s[i - 1]))
    requires j == Span(s, IsWord, i) && k == Span(s, IsSpace, j) && k < |s| && s[k] == '='
    requires l == Span(s, IsSpace, k + 1) && l < |s| && ValueEnd(s, l) == Some(e)
    ensures FieldShape(s, FieldMatch(i, s[i..j], s[l..e], TrailEnd(s, e)), j, k, l, e)
  {
    ValueEndSound(s, l);
    FieldFoundShape(s, FieldMatch(i, s[i..j], s[l..e], TrailEnd(s, e)), j, k, l, e);
  }

  /** The parts the scanner finds make up a match of the regular expression. */
  lemma FieldFoundShape(s: string, m: FieldMatch, j: nat, k: nat, l: nat, e: nat)
    requires m.start < j <= k < l < e <= |s|
    requires m.start == 0 || !IsWord(s[m.start - 1])
    requires forall q :: m.start <= q < j ==> IsWord(s[q])
    requires forall q :: j <= q < k ==> IsSpace(s[q])
    requires s[k] == '=' && forall q :: k + 1 <= q < l ==> IsSpace(s[q])
    requires BracedValue(s[l..e]) || QuotedValue(s[l..e])
    requires m == FieldMatch(m.start, s[m.start..j], s[l..e], TrailEnd(s, e))
    ensures FieldShape(s, m, j, k, l, e)
  {
    SliceAll(s, IsWord, m.start, j);
    SliceAll(s, IsSpace, j, k);
    SliceAll(s, IsSpace, k + 1, l);
  }

  /** The greedy `\s*,?` ends no earlier than any other way of matching it. */
  lemma TrailEndGreedy(s: string, e: nat, end: nat)
    requires e <= end <= |s|
    requires AllChars(s[e..end], IsSpace) || (e < end && AllChars(s[e..end - 1], IsSpace) && s[end - 1] == ',')
    ensures end <= TrailEnd(s, e)
  {
    if AllChars(s[e..end], IsSpace) {
      SliceAll(s, IsSpace, e, end);
      SpanAtLeast(s, IsSpace, e, end);
    } else {
      SliceAll(s, IsSpace, e, end - 1);
      SpanExact(s, IsSpace, e, end - 1);
    }
  }

  /** Wherever the field regular expression matches, the scanner matches, with
      the same name and value, and ends no earlier: it takes the greedy
      whitespace and the optional comma, as the regular expression engine
      does. */
  lemma FieldAtComplete(s: string, m: FieldMatch, j: nat, k: nat, l: nat, e: nat)
    requires FieldShape(s, m, j, k, l, e)
    ensures FieldAt(s, m.start).Some?
    ensures FieldAt(s, m.start).value.name == m.name && FieldAt(s, m.start).value.raw == m.raw
    ensures m.end <= FieldAt(s, m.start).value.end
  {
    SliceAll(s, IsWord, m.start, j);
    SliceAll(s, IsSpace, j, k);
    SliceAll(s, IsSpace, k + 1, l);
    assert s[l..e][0] == s[l];
    ValueScanComplete(s, l, e);
    TrailEndGreedy(s, e, m.end);
    PrefixScan(s, m.start, j, k, l);
  }

  /** Once name, `=` and whitespace are where the regular expression puts them,
      the scanner goes on to the value at `l`. */
  lemma PrefixScan(s: string, i: nat, j: nat, k: nat, l: nat)
    requires i < j <= k < l < |s|
    requires i == 0 || !IsWord(s[i - 1])
    requires forall m :: i <= m < j ==> IsWord(s[m])
    requires forall m :: j <= m < k ==> IsSpace(s[m])
    requires s[k] == '=' && forall m :: k + 1 <= m < l ==> IsSpace(s[m])
    requires s[l] == '{' || s[l] == '"'
    ensures FieldAt(s, i) == FieldFrom(s, i, j, l)
  {
    assert !IsWord(s[j]);
    NameScan(s, i, j);
    EqualsScan(s, i, j, k);
    ValueStartScan(s, i, j, k, l);
  }

  lemma NameScan(s: string, i: nat, j: nat)
    requires i < j < |s| && (i == 0 || !IsWord(s[i - 1])) && !IsWord(s[j])
    requires forall m :: i <= m < j ==> IsWord(s[m])
    ensures FieldAt(s, i) == FieldAfterName(s, i, j)
  {
    SpanExact(s, IsWord, i, j);
  }

  lemma EqualsScan(s: string, i: nat, j: nat, k: nat)
    requires i <= j <= k < |s| && s[k] == '='
    requires forall m :: j <= m < k ==> IsSpace(s[m])
    ensures FieldAfterName(s, i, j) == FieldAfterEquals(s, i, j, k)
  {
    SpanExact(s, IsSpace, j, k);
  }

  lemma ValueStartScan(s: string, i: nat, j: nat, k: nat, l: nat)
    requires i <= j <= k < l < |s| && !IsSpace(s[l])
    requires forall m :: k + 1 <= m < l ==> IsSpace(s[m])
    ensures FieldAfterEquals(s, i, j, k) == FieldFrom(s, i, j, l)
  {
    SpanExact(s, IsSpace, k + 1, l);
  }

  /** A table of scanner results, one per position: a match found at `i`
      starts at `i` and ends after it, inside the text. */
  predicate TableOk(t: seq<Option<FieldMatch>>) {
    forall i :: 0 <= i < |t| && t[i].Some? ==> t[i].value.start == i < t[i].value.end <= |t|
  }

  /** The field scanner's result at every position of the text. */
  function FieldTable(s: string): (t: seq<Option<FieldMatch>>)
    ensures |t| == |s| && TableOk(t)
    ensures forall i :: 0 <= i < |s| ==> t[i] == FieldAt(s, i)
  {
    seq(|s|, i requires 0 <= i < |s| => FieldAt(s, i))
  }

  /** The left-to-right scan over a table from `pos`: take the match at each
      position in turn; after a match, go on from its end. */
  function Scan(t: seq<Option<FieldMatch>>, pos: nat): (ms: seq<FieldMatch>)
    requires TableOk(t) && pos <= |t|
    ensures forall q :: 0 <= q < |ms| ==> pos <= ms[q].start < ms[q].end <= |t|
    decreases |t| - pos
  {
    if pos == |t| then []
    else
      match t[pos]
      case Some(m) => [m] + Scan(t, m.end)
      case None => Scan(t, pos + 1)
  }

  /** `re.finditer` of the field regular expression from `pos`: try each
      position in turn; after a match, go on from its end. */
  function FindFields(s: string, pos: nat): (ms: seq<FieldMatch>)
    requires pos <= |s|
    ensures forall q :: 0 <= q < |ms| ==> pos <= ms[q].start < ms[q].end <= |s|
  {
    Scan(FieldTable(s), pos)
  }

  lemma {:induction false} ScanScanned(t: seq<Option<FieldMatch>>, pos: nat, q: nat)
    requires TableOk(t) && pos <= |t| && q < |Scan(t, pos)|
    ensures t[Scan(t, pos)[q].start] == Some(Scan(t, pos)[q])
    decreases |t| - pos
  {
    var ms := Scan(t, pos);
    match t[pos]
    case Some(m) =>
      var rest := Scan(t, m.end);
      assert ms == [m] + rest;
      if q > 0 {
        ScanScanned(t, m.end, q - 1);
        assert ms[q] == rest[q - 1];
      }
    case None =>
      assert ms == Scan(t, pos + 1);
      ScanScanned(t, pos + 1, q);
  }

  /** Every match reported is the scanner's match at its start. */
  lemma FindFieldsScanned(s: string, pos: nat, q: nat)
    requires pos <= |s| && q < |FindFields(s, pos)|
    ensures FieldAt(s, FindFields(s, pos)[q].start) == Some(FindFields(s, pos)[q])
  {
    ScanScanned(FieldTable(s), pos, q);
  }

  lemma {:induction false} ScanFirst(t: seq<Option<FieldMatch>>, pos: nat, p: nat)
    requires TableOk(t) && pos <= p < |t|
    requires |Scan(t, pos)| == 0 || p < Scan(t, pos)[0].start
    ensures t[p].None?
    decreases |t| - pos
  {
    if t[pos].None? && pos < p {
      ScanFirst(t, pos + 1, p);
    }
  }

  /** No match starts before the first one `FindFields` reports. */
  lemma FindFieldsFirst(s: string, pos: nat, p: nat)
    requires pos <= p < |s|
    requires |FindFields(s, pos)| == 0 || p < FindFields(s, pos)[0].start
    ensures FieldAt(s, p).None?
  {
    ScanFirst(FieldTable(s), pos, p);
  }

  lemma {:induction false} ScanNext(t: seq<Option<FieldMatch>>, pos: nat, q: nat)
    requires TableOk(t) && pos <= |t| && q < |Scan(t, pos)|
    ensures Scan(t, Scan(t, pos)[q].end) == Scan(t, pos)[q + 1..]
    decreases |t| - pos
  {
    var ms := Scan(t, pos);
    match t[pos]
    case Some(m) =>
      var rest := Scan(t, m.end);
      assert ms == [m] + rest;
      if q == 0 {
        assert ms[1..] == rest;
      } else {
        ScanNext(t, m.end, q - 1);
        assert ms[q] == rest[q - 1];
        assert ms[q + 1..] == rest[q..];
      }
    case None =>
      assert ms == Scan(t, pos + 1);
      ScanNext(t, pos + 1, q);
  }

  /** After match `q`, the scan goes on from its end. */
  lemma FindFieldsNext(s: string, pos: nat, q: nat)
    requires pos <= |s| && q < |FindFields(s, pos)|
    ensures FindFields(s, FindFields(s, pos)[q].end) == FindFields(s, pos)[q + 1..]
  {
    ScanNext(FieldTable(s), pos, q);
  }

  /** The matches do not overlap and come in order, and no match starts in a
      gap between two of them or after the last: every position skipped is
      one where the scanner finds nothing, which by `FieldAtComplete` is one
      where the regular expression matches nothing either. */
  lemma FindFieldsInOrder(s: string, pos: nat, q: nat)
    requires pos <= |s| && q < |FindFields(s, pos)|
    ensures q + 1 < |FindFields(s, pos)| ==> FindFields(s, pos)[q].end <= FindFields(s, pos)[q + 1].start
    ensures forall p ::
      (FindFields(s, pos)[q].end <= p < |s| &&
       (q + 1 == |FindFields(s, pos)| || p < FindFields(s, pos)[q + 1].start))
      ==> FieldAt(s, p).None?
  {
    var ms := FindFields(s, pos);
    FindFieldsNext(s, pos, q);
    var rest := FindFields(s, ms[q].end);
    if q + 1 < |ms| {
      assert ms[q + 1] == rest[0];
    }
    forall p | ms[q].end <= p < |s| && (q + 1 == |ms| || p < ms[q + 1].start)
      ensures FieldAt(s, p).None?
    {
      if q + 1 < |ms| {
        assert ms[q + 1] == rest[0];
      }
      FindFieldsFirst(s, ms[q].end, p);
    }
  }
}
