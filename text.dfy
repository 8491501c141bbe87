/** Character classes and the small string operations of Python's `str` that
    the converter uses: `strip`, `lower`, `startswith`, `endswith`, `split`,
    `join`, `replace`, and the whitespace collapsing of `re.sub(r'\s+', ' ', v)`.

    Character classes are restricted to ASCII. This is a simplification of
    Python's Unicode classes: `\w`, `\s`, `\d`, `str.isspace` and `str.lower`
    also act on non-ASCII characters, which this model treats as ordinary
    (non-word, non-space, non-digit, caseless) characters. */
module Text {

  datatype Option<T> = None | Some(value: T)

  /** Whitespace as `str.isspace` and the regex class `\s` see it, restricted to
      ASCII: space, TAB, LF, VT, FF, CR and the four separators 0x1C..0x1F. */
  predicate IsSpace(c: char) {
    c == ' ' || (9 <= c as int <= 13) || (28 <= c as int <= 31)
  }

  /** The regex class `\w`, restricted to ASCII. */
  predicate IsWord(c: char) {
    ('a' <= c <= 'z') || ('A' <= c <= 'Z') || ('0' <= c <= '9') || c == '_'
  }

  /** The regex class `\d`, restricted to ASCII. */
  predicate IsDigit(c: char) {
    '0' <= c <= '9'
  }

  predicate IsUpper(c: char) {
    'A' <= c <= 'Z'
  }

  /** `str.lower` on one character, restricted to ASCII. */
  function LowerChar(c: char): (r: char)
    ensures !IsUpper(r)
    ensures IsWord(r) <==> IsWord(c)
    ensures !IsUpper(c) ==> r == c
  {
    if IsUpper(c) then (c as int + 32) as char else c
  }

  function Lower(s: string): (r: string)
  {
    seq(|s|, k requires 0 <= k < |s| => LowerChar(s[k]))
  }

  /** Every character of `t` satisfies `p`. */
  predicate AllChars(t: string, p: char -> bool) {
    forall k :: 0 <= k < |t| ==> p(t[k])
  }

  /** A run of `s` satisfies `p` exactly when the slice holding it does. */
  lemma SliceAll(s: string, p: char -> bool, i: nat, j: nat)
    requires i <= j <= |s|
    ensures AllChars(s[i..j], p) <==> forall k :: i <= k < j ==> p(s[k])
  {
    if forall k :: i <= k < j ==> p(s[k]) {
      forall k | 0 <= k < j - i ensures p(s[i..j][k]) { assert s[i..j][k] == s[i + k]; }
    }
    if AllChars(s[i..j], p) {
      forall k | i <= k < j ensures p(s[k]) { assert s[i..j][k - i] == s[k]; }
    }
  }

  lemma SliceOfSlice(s: string, a: nat, b: nat, c: nat, d: nat)
    requires a <= b <= |s| && c <= d <= b - a
    ensures s[a..b][c..d] == s[a + c..a + d]
  {
    var v := s[a..b];
    forall q | 0 <= q < d - c ensures v[c..d][q] == s[a + c..a + d][q] {
      assert v[c..d][q] == v[c + q];
    }
  }

  /** A lower-case word: what `\w+` followed by `.lower()` produces. */
  predicate IsLowerWord(s: string) {
    |s| > 0 && forall k :: 0 <= k < |s| ==> IsWord(s[k]) && !IsUpper(s[k])
  }

  lemma LowerOfWord(s: string)
    requires |s| > 0 && forall k :: 0 <= k < |s| ==> IsWord(s[k])
    ensures IsLowerWord(Lower(s))
  {
  }

  predicate StartsWith(s: string, prefix: string) {
    |prefix| <= |s| && s[..|prefix|] == prefix
  }

  predicate EndsWith(s: string, suffix: string) {
    |suffix| <= |s| && s[|s| - |suffix|..] == suffix
  }

  /** The end of the run of characters satisfying `p` that starts at `i`:
      the scanning step behind a greedy `\w+` or `\s*`. */
  function Span(s: string, p: char -> bool, i: nat): (j: nat)
    requires i <= |s|
    ensures i <= j <= |s|
    ensures forall k :: i <= k < j ==> p(s[k])
    ensures j < |s| ==> !p(s[j])
    decreases |s| - i
  {
    if i < |s| && p(s[i]) then Span(s, p, i + 1) else i
  }

  /** A run that is known to stop at `j` is the one `Span` finds. */
  lemma {:induction false} SpanExact(s: string, p: char -> bool, i: nat, j: nat)
    requires i <= j <= |s|
    requires forall k :: i <= k < j ==> p(s[k])
    requires j < |s| ==> !p(s[j])
    ensures Span(s, p, i) == j
    decreases j - i
  {
    if i < j {
      SpanExact(s, p, i + 1, j);
    }
  }

  /** A run of length at least `j - i` makes `Span` reach at least `j`. */
  lemma {:induction false} SpanAtLeast(s: string, p: char -> bool, i: nat, j: nat)
    requires i <= j <= |s|
    requires forall k :: i <= k < j ==> p(s[k])
    ensures Span(s, p, i) >= j
    decreases j - i
  {
    if i < j {
      SpanAtLeast(s, p, i + 1, j);
    }
  }

  /** The start of the run of characters satisfying `p` that ends at `j`. */
  function SpanBack(s: string, p: char -> bool, j: nat): (i: nat)
    requires j <= |s|
    ensures i <= j
    ensures forall k :: i <= k < j ==> p(s[k])
    ensures i > 0 ==> !p(s[i - 1])
    decreases j
  {
    if j > 0 && p(s[j - 1]) then SpanBack(s, p, j - 1) else j
  }

  /** `str.strip(chars)` with the characters to drop given by `p`: the longest
      infix of `s` that neither starts nor ends with such a character. */
  function StripBy(s: string, p: char -> bool): (r: string)
    ensures Span(s, p, 0) + |r| <= |s|
    ensures r == s[Span(s, p, 0)..Span(s, p, 0) + |r|]
    ensures forall k :: Span(s, p, 0) + |r| <= k < |s| ==> p(s[k])
    ensures r == [] || (!p(r[0]) && !p(r[|r| - 1]))
    ensures (s == [] || (!p(s[0]) && !p(s[|s| - 1]))) ==> r == s
  {
    var a := Span(s, p, 0);
    if a == |s| then [] else s[a..SpanBack(s, p, |s|)]
  }

  /** `str.strip()`: drop leading and trailing whitespace. */
  function Strip(s: string): (r: string)
    ensures r == [] || (!IsSpace(r[0]) && !IsSpace(r[|r| - 1]))
    ensures |r| <= |s|
  {
    StripBy(s, IsSpace)
  }

  /** A value as the converter stores it: no leading or trailing whitespace,
      no whitespace character other than the space, and no two spaces in a row. */
  predicate Normalized(s: string) {
    (s == [] || (!IsSpace(s[0]) && !IsSpace(s[|s| - 1])))
    && (forall k :: 0 <= k < |s| && IsSpace(s[k]) ==> s[k] == ' ')
    && (forall k :: 0 <= k < |s| - 1 ==> !(s[k] == ' ' && s[k + 1] == ' '))
  }

  /** `re.sub(r'\s+', ' ', s)`: every maximal run of whitespace becomes one space. */
  function CollapseSpaces(s: string): (r: string)
    ensures forall k :: 0 <= k < |r| && IsSpace(r[k]) ==> r[k] == ' '
    ensures forall k, m :: 0 <= k && m == k + 1 && m < |r| ==> !(r[k] == ' ' && r[m] == ' ')
    ensures |r| <= |s|
    ensures s == [] <==> r == []
    ensures s != [] ==> (IsSpace(r[0]) <==> IsSpace(s[0]))
    ensures s != [] ==> (IsSpace(r[|r| - 1]) <==> IsSpace(s[|s| - 1]))
    decreases |s|
  {
    if s == [] then []
    else if IsSpace(s[0]) then [' '] + CollapseSpaces(s[Span(s, IsSpace, 0)..])
    else [s[0]] + CollapseSpaces(s[1..])
  }

  /** Stripping keeps a string free of tabs, newlines and double spaces. */
  lemma StripKeepsSingleSpaces(s: string)
    requires forall k :: 0 <= k < |s| && IsSpace(s[k]) ==> s[k] == ' '
    requires forall k :: 0 <= k < |s| - 1 ==> !(s[k] == ' ' && s[k + 1] == ' ')
    ensures Normalized(Strip(s))
  {
    var r := Strip(s);
    var a := Span(s, IsSpace, 0);
    assert r == s[a..a + |r|];
    forall k | 0 <= k < |r| && IsSpace(r[k]) ensures r[k] == ' ' {
      assert r[k] == s[a + k];
    }
    forall k | 0 <= k < |r| - 1 ensures !(r[k] == ' ' && r[k + 1] == ' ') {
      assert r[k] == s[a + k] && r[k + 1] == s[a + k + 1];
    }
  }

  /** A string that is already normalized comes through collapsing unchanged. */
  lemma {:induction false} CollapseNormalized(s: string)
    requires forall k :: 0 <= k < |s| && IsSpace(s[k]) ==> s[k] == ' '
    requires forall k :: 0 <= k < |s| - 1 ==> !(s[k] == ' ' && s[k + 1] == ' ')
    ensures CollapseSpaces(s) == s
    decreases |s|
  {
    if s != [] {
      var t := s[1..];
      assert forall k :: 0 <= k < |t| ==> t[k] == s[k + 1];
      if IsSpace(s[0]) {
        assert Span(s, IsSpace, 0) == 1 by {
          if |s| > 1 { assert s[1] != ' '; }
        }
      }
      CollapseNormalized(t);
    }
  }

  /** A string with no leading or trailing whitespace comes through `Strip` unchanged. */
  lemma StripTrimmed(s: string)
    requires s == [] || (!IsSpace(s[0]) && !IsSpace(s[|s| - 1]))
    ensures Strip(s) == s
  {
  }

  predicate NotSpace(c: char) { !IsSpace(c) }

  /** `s.split()`: the maximal runs of non-whitespace characters, in order. */
  function Words(s: string): seq<string>
    decreases |s|
  {
    if s == [] then []
    else if IsSpace(s[0]) then Words(s[1..])
    else [s[..Span(s, NotSpace, 0)]] + Words(s[Span(s, NotSpace, 0)..])
  }

  /** Every word is a non-empty run of non-whitespace characters. */
  lemma {:induction false} WordsShape(s: string)
    ensures forall i :: 0 <= i < |Words(s)| ==> Words(s)[i] != [] && AllChars(Words(s)[i], NotSpace)
    decreases |s|
  {
    if s != [] {
      if IsSpace(s[0]) {
        WordsShape(s[1..]);
      } else {
        var b := Span(s, NotSpace, 0);
        WordsShape(s[b..]);
        SliceAll(s, NotSpace, 0, b);
      }
    }
  }

  /** Leading whitespace does not change the words. */
  lemma {:induction false} WordsSkip(s: string, i: nat, a: nat)
    requires i <= a <= |s| && forall k :: i <= k < a ==> IsSpace(s[k])
    ensures Words(s[i..]) == Words(s[a..])
    decreases a - i
  {
    if i < a {
      assert s[i..][1..] == s[i + 1..];
      WordsSkip(s, i + 1, a);
    }
  }

  /** Collapsing keeps a leading non-whitespace character. */
  lemma CollapseHead(u: string)
    requires u != [] && !IsSpace(u[0])
    ensures CollapseSpaces(u) == [u[0]] + CollapseSpaces(u[1..])
  {
  }

  /** Collapsing keeps a leading run of non-whitespace characters as it is. */
  lemma {:induction false} CollapseKeeps(w: string, v: string)
    requires forall k :: 0 <= k < |w| ==> !IsSpace(w[k])
    ensures CollapseSpaces(w + v) == w + CollapseSpaces(v)
    decreases |w|
  {
    if w == [] {
      assert w + v == v;
    } else {
      var w' := w[1..];
      assert (w + v)[1..] == w' + v;
      CollapseHead(w + v);
      CollapseKeeps(w', v);
      PrependStep(w, CollapseSpaces(w + v), CollapseSpaces(w' + v), CollapseSpaces(v));
    }
  }

  lemma PrependStep(w: string, x: string, y: string, z: string)
    requires w != [] && x == [w[0]] + y && y == w[1..] + z
    ensures x == w + z
  {
    assert w == [w[0]] + w[1..];
  }

  /** The words joined by one space are non-empty and have no whitespace at
      either end, when there is at least one word. */
  lemma JoinWordsEnds(s: string)
    requires Words(s) != []
    ensures var j := Join(Words(s), " "); j != [] && !IsSpace(j[0]) && !IsSpace(j[|j| - 1])
  {
    var ws := Words(s);
    WordsShape(s);
    assert ws[0][0] == ws[0][0] && NotSpace(ws[0][0]);
    assert NotSpace(ws[|ws| - 1][|ws[|ws| - 1]| - 1]);
    JoinEnds(ws, " ");
  }

  /** `c` is the words `ws` joined by one space, with one space in front
      when `u` starts with whitespace and one behind when it ends with
      whitespace; without words, a non-empty `u` becomes one space. */
  predicate PaddedWords(u: string, ws: seq<string>, c: string) {
    if ws == [] then c == (if u == [] then [] else [' '])
    else u != [] && c == (if IsSpace(u[0]) then [' '] else []) + Join(ws, " ") + (if IsSpace(u[|u| - 1]) then [' '] else [])
  }

  /** `re.sub(r'\s+', ' ', u)` is the words of `u` joined by one space,
      padded as `PaddedWords` says. */
  lemma {:induction false} CollapseWords(u: string)
    ensures PaddedWords(u, Words(u), CollapseSpaces(u))
    decreases |u|
  {
    if u != [] {
      if IsSpace(u[0]) {
        var a := SpaceStep(u);
        CollapseWords(u[a..]);
        WordsSpace(u, u[..a], u[a..], Words(u[a..]), CollapseSpaces(u[a..]));
      } else {
        var b := WordStep(u);
        CollapseWords(u[b..]);
        WordsWord(u, u[..b], u[b..], Words(u[b..]), CollapseSpaces(u[b..]));
      }
    }
  }

  /** A leading whitespace run collapses to one space and holds no word. */
  lemma SpaceStep(u: string) returns (a: nat)
    requires u != [] && IsSpace(u[0])
    ensures 0 < a <= |u| && u == u[..a] + u[a..] && (a == |u| || !IsSpace(u[a]))
    ensures CollapseSpaces(u) == [' '] + CollapseSpaces(u[a..])
    ensures Words(u) == Words(u[a..])
    ensures u[a..] == [] <==> Words(u[a..]) == []
  {
    a := Span(u, IsSpace, 0);
    WordsSkip(u, 0, a);
    assert u[0..] == u;
  }

  /** A leading word is kept by collapsing and is the first word. */
  lemma WordStep(u: string) returns (b: nat)
    requires u != [] && !IsSpace(u[0])
    ensures 0 < b <= |u| && u == u[..b] + u[b..] && (b == |u| || IsSpace(u[b]))
    ensures !IsSpace(u[b - 1])
    ensures CollapseSpaces(u) == u[..b] + CollapseSpaces(u[b..])
    ensures Words(u) == [u[..b]] + Words(u[b..])
    ensures u[b..] == [] ==> Words(u[b..]) == []
    ensures Words(u[b..]) == [] && u[b..] != [] ==> IsSpace(u[|u| - 1])
  {
    b := Span(u, NotSpace, 0);
    assert forall k :: 0 <= k < b ==> u[..b][k] == u[k];
    CollapseKeeps(u[..b], u[b..]);
    if Words(u[b..]) == [] && u[b..] != [] {
      NoWordsAllSpace(u[b..]);
      assert u[|u| - 1] == u[b..][|u[b..]| - 1];
    }
  }

  /** The step of `CollapseWords` over leading whitespace. */
  lemma WordsSpace(u: string, sp: string, v: string, ws: seq<string>, c: string)
    requires u == sp + v && sp != [] && IsSpace(sp[0]) && (v == [] || !IsSpace(v[0]))
    requires v == [] <==> ws == []
    requires PaddedWords(v, ws, c)
    ensures PaddedWords(u, ws, [' '] + c)
  {
    if v != [] {
      assert u[|u| - 1] == v[|v| - 1];
    }
  }

  /** The step of `CollapseWords` over a leading word. */
  lemma WordsWord(u: string, w: string, v: string, ws: seq<string>, c: string)
    requires u == w + v && w != [] && !IsSpace(w[0]) && !IsSpace(w[|w| - 1]) && (v == [] || IsSpace(v[0]))
    requires v == [] ==> ws == []
    requires ws == [] && v != [] ==> IsSpace(v[|v| - 1])
    requires PaddedWords(v, ws, c)
    ensures PaddedWords(u, [w] + ws, w + c)
  {
    var post: string := if IsSpace(u[|u| - 1]) then [' '] else [];
    assert u[0] == w[0];
    assert Join([w], " ") == w;
    if v == [] {
      assert c == [] && u == w;
    } else {
      assert v[|v| - 1] == u[|u| - 1];
      if ws != [] {
        JoinCons(w, ws, " ");
        assert c == [' '] + Join(ws, " ") + post;
      }
    }
  }

  /** A text without words is all whitespace. */
  lemma {:induction false} NoWordsAllSpace(s: string)
    requires Words(s) == []
    ensures forall k :: 0 <= k < |s| ==> IsSpace(s[k])
    decreases |s|
  {
    if s != [] {
      assert IsSpace(s[0]);
      NoWordsAllSpace(s[1..]);
      assert forall k :: 1 <= k < |s| ==> s[k] == s[1..][k - 1];
    }
  }

  /** Stripping one optional space on either side of a trimmed text gives the text. */
  lemma StripPadded(pre: string, j: string, post: string)
    requires pre == [] || pre == [' ']
    requires post == [] || post == [' ']
    requires j != [] && !IsSpace(j[0]) && !IsSpace(j[|j| - 1])
    ensures Strip(pre + j + post) == j
  {
    var s := pre + j + post;
    var a := |pre|;
    assert s[a] == j[0];
    SpanExact(s, IsSpace, 0, a);
    var r := Strip(s);
    assert r == s[a..a + |r|];
    assert s[a + |j| - 1] == j[|j| - 1];
    assert |r| == |j|;
    assert s[a..a + |j|] == j;
  }

  /** Collapsing whitespace runs and stripping gives the words joined by one
      space. */
  lemma CollapseStripWords(u: string)
    ensures Strip(CollapseSpaces(u)) == Join(Words(u), " ")
  {
    CollapseWords(u);
    assert PaddedWords(u, Words(u), CollapseSpaces(u));
    if Words(u) == [] {
      assert Strip([' ']) == [];
    } else {
      JoinWordsEnds(u);
      StripPadded(if IsSpace(u[0]) then [' '] else [], Join(Words(u), " "), if IsSpace(u[|u| - 1]) then [' '] else []);
    }
  }

  /** Whether `sep` occurs in `s` starting at index `k`. */
  predicate OccursAt(s: string, sep: string, k: int) {
    0 <= k && k + |sep| <= |s| && s[k..k + |sep|] == sep
  }

  /** The leftmost occurrence of `sep` in `s` at or after `i`. */
  function IndexOf(s: string, sep: string, i: nat): (r: Option<nat>)
    requires |sep| > 0 && i <= |s|
    ensures r.Some? ==> i <= r.value && OccursAt(s, sep, r.value)
    ensures r.Some? ==> forall k :: i <= k < r.value ==> !OccursAt(s, sep, k)
    ensures r.None? ==> forall k :: i <= k ==> !OccursAt(s, sep, k)
    decreases |s| - i
  {
    if i + |sep| > |s| then None
    else if OccursAt(s, sep, i) then Some(i)
    else IndexOf(s, sep, i + 1)
  }

  /** Whether `sep` occurs anywhere in `s`. */
  predicate Contains(s: string, sep: string) {
    exists k :: 0 <= k <= |s| && OccursAt(s, sep, k)
  }

  /** `s.split(sep)`: the pieces between the non-overlapping occurrences of
      `sep`, found from left to right. */
  function SplitOn(s: string, sep: string): (parts: seq<string>)
    requires |sep| > 0
    ensures |parts| >= 1
    decreases |s|
  {
    var found := IndexOf(s, sep, 0);
    if found.None? then [s]
    else [s[..found.value]] + SplitOn(s[found.value + |sep|..], sep)
  }

  /** No piece of a split contains the separator. */
  lemma {:induction false} SplitPiecesFree(s: string, sep: string)
    requires |sep| > 0
    ensures forall k :: 0 <= k < |SplitOn(s, sep)| ==> !Contains(SplitOn(s, sep)[k], sep)
    decreases |s|
  {
    var found := IndexOf(s, sep, 0);
    if found.Some? {
      var i := found.value;
      var rest := s[i + |sep|..];
      SplitPiecesFree(rest, sep);
      assert !Contains(s[..i], sep) by {
        forall k | 0 <= k <= i && OccursAt(s[..i], sep, k) ensures false {
          assert s[..i][k..k + |sep|] == s[k..k + |sep|];
          assert OccursAt(s, sep, k);
        }
      }
      assert SplitOn(s, sep) == [s[..i]] + SplitOn(rest, sep);
    } else {
      assert SplitOn(s, sep) == [s];
    }
  }

  /** `sep.join(parts)`. */
  function Join(parts: seq<string>, sep: string): string
    decreases |parts|
  {
    if |parts| == 0 then ""
    else if |parts| == 1 then parts[0]
    else parts[0] + sep + Join(parts[1..], sep)
  }

  lemma JoinSingle(s: string, sep: string)
    ensures Join([s], sep) == s
  {
  }

  lemma JoinCons(head: string, tail: seq<string>, sep: string)
    requires |tail| > 0
    ensures Join([head] + tail, sep) == head + sep + Join(tail, sep)
  {
    assert ([head] + tail)[1..] == tail;
  }

  /** Joining two non-empty lists is joining each and putting a separator between. */
  lemma {:induction false} JoinAppend(a: seq<string>, b: seq<string>, sep: string)
    requires |a| > 0 && |b| > 0
    ensures Join(a + b, sep) == Join(a, sep) + sep + Join(b, sep)
    decreases |a|
  {
    JoinCons(a[0], a[1..] + b, sep);
    assert a + b == [a[0]] + (a[1..] + b);
    if |a| > 1 {
      JoinAppend(a[1..], b, sep);
      JoinCons(a[0], a[1..], sep);
      assert a == [a[0]] + a[1..];
    }
  }

  /** Joining with no separator appends the next part. */
  lemma JoinSnoc(parts: seq<string>, last: string)
    ensures Join(parts + [last], "") == Join(parts, "") + last
  {
    if parts == [] {
      assert parts + [last] == [last];
    } else {
      JoinAppend(parts, [last], "");
    }
  }

  /** A join starts as its first part does and ends as its last part does. */
  lemma JoinEnds(parts: seq<string>, sep: string)
    requires |parts| > 0 && |parts[0]| > 0 && |parts[|parts| - 1]| > 0
    ensures |Join(parts, sep)| > 0
    ensures Join(parts, sep)[0] == parts[0][0]
    ensures Join(parts, sep)[|Join(parts, sep)| - 1] == parts[|parts| - 1][|parts[|parts| - 1]| - 1]
  {
    if |parts| > 1 {
      var init := parts[..|parts| - 1];
      var last := parts[|parts| - 1];
      assert parts == init + [last];
      JoinAppend(init, [last], sep);
      JoinSingle(last, sep);
      JoinCons(parts[0], parts[1..], sep);
    }
  }

  /** Dropping one trailing newline: `(x + "\n").strip()` is `x` when `x`
      neither starts nor ends with whitespace. */
  lemma StripNewline(x: string)
    requires x != [] && !IsSpace(x[0]) && !IsSpace(x[|x| - 1])
    ensures Strip(x + "\n") == x
  {
    var s := x + "\n";
    var r := Strip(s);
    assert Span(s, IsSpace, 0) == 0;
    assert r == s[..|r|];
    assert s[..|x|] == x;
  }

  /** The value of a run of decimal digits, as `int()` reads it. */
  function DecimalValue(s: string): nat
    requires forall k :: 0 <= k < |s| ==> IsDigit(s[k])
    decreases |s|
  {
    if s == [] then 0
    else assert IsDigit(s[|s| - 1]); 10 * DecimalValue(s[..|s| - 1]) + (s[|s| - 1] as int - '0' as int)
  }

  function DigitChar(d: nat): (c: char)
    requires d < 10
    ensures IsDigit(c) && c as int - '0' as int == d
  {
    ('0' as int + d) as char
  }

  /** `str(n)` for a natural number: decimal digits without leading zeros. */
  function NatToDecimal(n: nat): (r: string)
    ensures |r| > 0
    ensures forall k :: 0 <= k < |r| ==> IsDigit(r[k])
    ensures r[0] == '0' ==> n == 0 && r == "0"
    decreases n
  {
    if n < 10 then [DigitChar(n)] else NatToDecimal(n / 10) + [DigitChar(n % 10)]
  }

  /** Reading back the decimal text of `n` gives `n`. */
  lemma {:induction false} NatToDecimalRoundTrip(n: nat)
    ensures DecimalValue(NatToDecimal(n)) == n
    decreases n
  {
    var r := NatToDecimal(n);
    if n >= 10 {
      NatToDecimalRoundTrip(n / 10);
      assert r[..|r| - 1] == NatToDecimal(n / 10);
    } else {
      assert r[..|r| - 1] == [];
    }
  }
}
