/** The YAML quoting of `scripts/bib2yml.py` (`yml_escape`): a value is
    written in double quotes, with every double quote inside preceded by a
    backslash. Backslashes themselves are left as they are. */
module Yaml {

  /** `s.replace('"', '\\"')`. */
  function EscapeQuotes(s: string): string
    decreases |s|
  {
    if s == [] then []
    else (if s[0] == '"' then ['\\', '"'] else [s[0]]) + EscapeQuotes(s[1..])
  }

  /** `yml_escape(s)`. */
  function YmlEscape(s: string): string {
    "\"" + EscapeQuotes(s) + "\""
  }

  /** The number of double quotes in `s`. */
  function Quotes(s: string): nat
    decreases |s|
  {
    if s == [] then 0 else (if s[0] == '"' then 1 else 0) + Quotes(s[1..])
  }

  /** Escaping adds one character per quote, and every quote of the result
      comes right after a backslash. */
  lemma {:induction false} EscapeQuotesShape(s: string)
    ensures |EscapeQuotes(s)| == |s| + Quotes(s)
    ensures forall i :: 0 <= i < |EscapeQuotes(s)| && EscapeQuotes(s)[i] == '"' ==>
      i > 0 && EscapeQuotes(s)[i - 1] == '\\'
    decreases |s|
  {
    if s != [] {
      EscapeQuotesShape(s[1..]);
      var h: string := if s[0] == '"' then ['\\', '"'] else [s[0]];
      var t := EscapeQuotes(s[1..]);
      assert EscapeQuotes(s) == h + t;
      forall i | 0 <= i < |h + t| && (h + t)[i] == '"' ensures i > 0 && (h + t)[i - 1] == '\\' {
        if i >= |h| {
          assert (h + t)[i] == t[i - |h|];
          if i - |h| > 0 {
            assert (h + t)[i - 1] == t[i - |h| - 1];
          }
        }
      }
    }
  }

  /** The quoted form: in quotes, and no quote inside is unescaped, so the
      value cannot end the scalar early. */
  lemma YmlEscapeShape(s: string)
    ensures |YmlEscape(s)| == |s| + Quotes(s) + 2
    ensures YmlEscape(s)[0] == '"' && YmlEscape(s)[|YmlEscape(s)| - 1] == '"'
    ensures forall i :: 1 <= i < |YmlEscape(s)| - 1 && YmlEscape(s)[i] == '"' ==> YmlEscape(s)[i - 1] == '\\'
  {
    var t := EscapeQuotes(s);
    EscapeQuotesShape(s);
    var r := YmlEscape(s);
    forall i | 1 <= i < |r| - 1 && r[i] == '"' ensures r[i - 1] == '\\' {
      assert r[i] == t[i - 1];
      if i > 1 {
        assert r[i - 1] == t[i - 2];
      }
    }
  }

  /** Reading back: a backslash before a quote is dropped. */
  function UnescapeQuotes(t: string): string
    decreases |t|
  {
    if t == [] then []
    else if |t| >= 2 && t[0] == '\\' && t[1] == '"' then ['"'] + UnescapeQuotes(t[2..])
    else [t[0]] + UnescapeQuotes(t[1..])
  }

  /** Escaping loses nothing: the escaped text reads back as the original,
      backslashes included. */
  lemma {:induction false} EscapeRoundTrip(s: string)
    ensures UnescapeQuotes(EscapeQuotes(s)) == s
    decreases |s|
  {
    if s != [] {
      var t := EscapeQuotes(s[1..]);
      EscapeRoundTrip(s[1..]);
      if s[0] == '"' {
        assert EscapeQuotes(s) == ['\\', '"'] + t;
        assert (['\\', '"'] + t)[2..] == t;
      } else {
        assert EscapeQuotes(s) == [s[0]] + t;
        assert ([s[0]] + t)[1..] == t;
        if s[0] == '\\' && t != [] {
          assert t[0] != '"' by {
            if s[1..][0] == '"' {
              assert t[0] == '\\';
            }
          }
        }
      }
    }
  }
}
