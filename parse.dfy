/** The BibTeX reader of `scripts/bib2yml.py` (`parse_bibtex_entries`): the
    text is cut before every entry marker, each piece that begins with a
    well-formed header becomes an entry, and the `name = {value}` and
    `name = "value"` pairs of its body become its fields. */
module BibParse {
  import opened Text
  import opened BibScan

  /** One parsed entry: its type in lower case, its key, and its fields by
      lower-case name. */
  datatype Entry = Entry(etype: string, key: string, fields: map<string, string>)

  /** `v[1:-1]`, which is empty for a string of fewer than two characters. */
  function Inner(v: string): string {
    if |v| >= 2 then v[1..|v| - 1] else []
  }

  /** Drop one pair of enclosing braces, then one pair of enclosing quotes. */
  function Unwrap(v: string): string {
    var b := if StartsWith(v, "{") && EndsWith(v, "}") then Inner(v) else v;
    if StartsWith(b, "\"") && EndsWith(b, "\"") then Inner(b) else b
  }

  /** The value stored for a raw field value: stripped, unwrapped, every
      whitespace run collapsed to one space, and stripped again. */
  function NormalizeValue(raw: string): (v: string)
    ensures Normalized(v)
  {
    var c := CollapseSpaces(Unwrap(Strip(raw)));
    StripKeepsSingleSpaces(c);
    Strip(c)
  }

  /** The stored value is the words of the unwrapped value joined by one
      space: `" ".join(v.split())`. */
  lemma NormalizeWords(raw: string)
    ensures NormalizeValue(raw) == Join(Words(Unwrap(Strip(raw))), " ")
  {
    CollapseStripWords(Unwrap(Strip(raw)));
  }

  predicate NotClose(c: char) { c != '}' }

  /** `t.rsplit("}", 1)[0]`: everything before the last `}`, or all of `t`
      when it has none. */
  function BodyOf(t: string): (b: string)
    ensures |b| <= |t| && b == t[..|b|]
    ensures |b| < |t| ==> t[|b|] == '}' && forall k :: |b| < k < |t| ==> t[k] != '}'
    ensures |b| == |t| ==> forall k :: 0 <= k < |t| ==> t[k] != '}'
  {
    var i := SpanBack(t, NotClose, |t|);
    if i == 0 then t else t[..i - 1]
  }

  /** The name a field is stored under. */
  function FieldName(m: FieldMatch): string {
    Lower(m.name)
  }

  /** The value a match is stored with. */
  function StoredValue(m: FieldMatch): string {
    NormalizeValue(m.raw)
  }

  /** The dictionary built from the matches in order, storing `val(m)` under
      the name of `m`: a later match of the same name overwrites an earlier one. */
  function AssignFields(ms: seq<FieldMatch>, val: FieldMatch -> string): map<string, string>
    decreases |ms|
  {
    if ms == [] then map[]
    else AssignFields(ms[..|ms| - 1], val)[FieldName(ms[|ms| - 1]) := val(ms[|ms| - 1])]
  }

  /** The fields dictionary of an entry. */
  function CollectFields(ms: seq<FieldMatch>): map<string, string> {
    AssignFields(ms, StoredValue)
  }

  /** The entry a piece of the split text yields, if it is one. */
  function ChunkEntry(part: string): Option<Entry> {
    var p := Strip(part);
    if !StartsWith(p, "@") then None
    else
      match MatchHeader(p)
      case None => None
      case Some(h) =>
        var body := BodyOf(p[h.end..]);
        Some(Entry(Lower(h.tag), Strip(h.rawKey), CollectFields(FindFields(body, 0))))
  }

  /** What `read` gives for each of the pieces, in order, skipping the
      pieces it rejects. */
  function EntriesBy(parts: seq<string>, read: string -> Option<Entry>): seq<Entry>
    decreases |parts|
  {
    if parts == [] then []
    else
      EntriesBy(parts[..|parts| - 1], read)
      + match read(parts[|parts| - 1]) case None => [] case Some(e) => [e]
  }

  /** The entries of the pieces, in order. */
  function EntriesOf(parts: seq<string>): seq<Entry> {
    EntriesBy(parts, ChunkEntry)
  }

  /** `parse_bibtex_entries(text)`. */
  function ParseEntries(text: string): seq<Entry> {
    EntriesOf(SplitChunks(text))
  }

  /** The parser: a loop over the pieces that skips the ones without an
      entry. */
  method ParseBibtexEntries(text: string) returns (entries: seq<Entry>)
    ensures entries == ParseEntries(text)
  {
    entries := [];
    var parts := SplitChunks(text);
    for n := 0 to |parts|
      invariant entries == EntriesOf(parts[..n])
    {
      EntriesOfStep(parts, n);
      var p := Strip(parts[n]);
      if !StartsWith(p, "@") {
        continue;
      }
      var m := MatchHeader(p);
      if m.None? {
        continue;
      }
      var entryType := Lower(m.value.tag);
      var key := Strip(m.value.rawKey);
      var body := BodyOf(p[m.value.end..]);
      var fields := ReadFields(body);
      entries := entries + [Entry(entryType, key, fields)];
    }
    assert parts[..|parts|] == parts;
  }

  lemma EntriesOfStep(parts: seq<string>, n: nat)
    requires n < |parts|
    ensures EntriesOf(parts[..n + 1]) ==
      EntriesOf(parts[..n]) + match ChunkEntry(parts[n]) case None => [] case Some(e) => [e]
  {
    assert parts[..n + 1][..n] == parts[..n];
  }

  /** The inner loop of the parser: it fills the fields dictionary match by
      match. */
  method ReadFields(body: string) returns (fields: map<string, string>)
    ensures fields == CollectFields(FindFields(body, 0))
  {
    fields := map[];
    var ms := FindFields(body, 0);
    for q := 0 to |ms|
      invariant fields == CollectFields(ms[..q])
    {
      CollectFieldsStep(ms, q);
      var k := Lower(ms[q].name);
      var v := CleanValue(ms[q].raw);
      fields := fields[k := v];
    }
    assert ms[..|ms|] == ms;
  }

  lemma CollectFieldsStep(ms: seq<FieldMatch>, q: nat)
    requires q < |ms|
    ensures CollectFields(ms[..q + 1]) == CollectFields(ms[..q])[FieldName(ms[q]) := NormalizeValue(ms[q].raw)]
  {
    assert ms[..q + 1][..q] == ms[..q];
  }

  /** The value steps of the inner loop, one statement per step. */
  method CleanValue(raw: string) returns (v: string)
    ensures v == NormalizeValue(raw)
  {
    v := Strip(raw);
    ghost var a := v;
    if StartsWith(v, "{") && EndsWith(v, "}") {
      v := Inner(v);
    }
    if StartsWith(v, "\"") && EndsWith(v, "\"") {
      v := Inner(v);
    }
    assert v == Unwrap(a);
    v := Strip(CollapseSpaces(v));
  }

  // ---------------------------------------------------------------------
  // Properties

  /** A value in braces comes back as it was, once it is in the stored form
      and is not itself in quotes (those would be dropped too). */
  lemma NormalizeBraced(v: string)
    requires Normalized(v) && !(StartsWith(v, "\"") && EndsWith(v, "\""))
    ensures NormalizeValue("{" + v + "}") == v
  {
    var w := "{" + v + "}";
    StripTrimmed(w);
    assert StartsWith(w, "{") && EndsWith(w, "}");
    assert Inner(w) == v;
    NormalizeUnwrapped(w, v);
  }

  /** A value in quotes comes back as it was, once it is in the stored form. */
  lemma NormalizeQuoted(v: string)
    requires Normalized(v)
    ensures NormalizeValue("\"" + v + "\"") == v
  {
    var w := "\"" + v + "\"";
    StripTrimmed(w);
    assert !StartsWith(w, "{");
    assert StartsWith(w, "\"") && EndsWith(w, "\"");
    assert Inner(w) == v;
    NormalizeUnwrapped(w, v);
  }

  /** Quotes inside braces are dropped as well: the two unwrapping steps run
      one after the other. */
  lemma NormalizeBracedQuoted(v: string)
    requires Normalized(v)
    ensures NormalizeValue("{\"" + v + "\"}") == v
  {
    var w := "{\"" + v + "\"}";
    StripTrimmed(w);
    UnwrapBracedQuoted(v);
    NormalizeUnwrapped(w, v);
  }

  lemma UnwrapBracedQuoted(v: string)
    ensures Unwrap("{\"" + v + "\"}") == v
  {
    var u := "\"" + v + "\"";
    var w := "{" + u + "}";
    assert w == "{\"" + v + "\"}";
    assert StartsWith(w, "{") && EndsWith(w, "}");
    assert Inner(w) == u;
    assert StartsWith(u, "\"") && EndsWith(u, "\"");
    assert Inner(u) == v;
  }

  /** A stripped value whose unwrapping is already in the stored form is
      stored as that unwrapping. */
  lemma NormalizeUnwrapped(w: string, v: string)
    requires Strip(w) == w && Unwrap(w) == v && Normalized(v)
    ensures NormalizeValue(w) == v
  {
    CollapseNormalized(v);
    StripTrimmed(v);
  }

  /** A name is in the dictionary exactly when some match has it. */
  lemma CollectFieldsKeys(ms: seq<FieldMatch>)
    ensures forall k :: k in CollectFields(ms) <==> exists q :: 0 <= q < |ms| && FieldName(ms[q]) == k
  {
    forall k | k in CollectFields(ms) ensures exists q :: 0 <= q < |ms| && FieldName(ms[q]) == k {
      AssignOnlyNamed(ms, StoredValue, k);
    }
    forall q | 0 <= q < |ms| ensures FieldName(ms[q]) in CollectFields(ms) {
      AssignNamed(ms, StoredValue, q);
    }
  }

  /** Every key of the dictionary is the name of some match. */
  lemma {:induction false} AssignOnlyNamed(ms: seq<FieldMatch>, val: FieldMatch -> string, k: string)
    requires k in AssignFields(ms, val)
    ensures exists q :: 0 <= q < |ms| && FieldName(ms[q]) == k
    decreases |ms|
  {
    var n := |ms| - 1;
    var init := ms[..n];
    if k != FieldName(ms[n]) {
      AssignOnlyNamed(init, val, k);
      var q :| 0 <= q < |init| && FieldName(init[q]) == k;
      assert init[q] == ms[q];
    }
  }

  /** The name of every match is a key of the dictionary. */
  lemma {:induction false} AssignNamed(ms: seq<FieldMatch>, val: FieldMatch -> string, q: nat)
    requires q < |ms|
    ensures FieldName(ms[q]) in AssignFields(ms, val)
    decreases |ms|
  {
    var n := |ms| - 1;
    if q < n {
      var init := ms[..n];
      assert init[q] == ms[q];
      AssignNamed(init, val, q);
    }
  }

  /** Last write wins: the value stored under a name is the one of the last
      match with that name. */
  lemma CollectFieldsLastWins(ms: seq<FieldMatch>, q: nat)
    requires q < |ms|
    requires forall r :: q < r < |ms| ==> FieldName(ms[r]) != FieldName(ms[q])
    ensures FieldName(ms[q]) in CollectFields(ms)
    ensures CollectFields(ms)[FieldName(ms[q])] == NormalizeValue(ms[q].raw)
  {
    AssignLastWins(ms, StoredValue, q);
  }

  lemma {:induction false} AssignLastWins(ms: seq<FieldMatch>, val: FieldMatch -> string, q: nat)
    requires q < |ms|
    requires forall r :: q < r < |ms| ==> FieldName(ms[r]) != FieldName(ms[q])
    ensures FieldName(ms[q]) in AssignFields(ms, val)
    ensures AssignFields(ms, val)[FieldName(ms[q])] == val(ms[q])
    decreases |ms|
  {
    if q < |ms| - 1 {
      var init := ms[..|ms| - 1];
      assert init[q] == ms[q];
      AssignLastWins(init, val, q);
    }
  }

  /** What a parsed entry always looks like: a lower-case word for its type,
      a key with no surrounding whitespace and no comma, lower-case word
      names, and values in the stored form. */
  predicate WellFormed(e: Entry) {
    IsLowerWord(e.etype)
    && (e.key == [] || (!IsSpace(e.key[0]) && !IsSpace(e.key[|e.key| - 1])))
    && (forall i :: 0 <= i < |e.key| ==> e.key[i] != ',')
    && (forall k :: k in e.fields ==> IsLowerWord(k) && Normalized(e.fields[k]))
  }

  /** Every name the field scanner reports is a non-empty run of word characters. */
  lemma FindFieldsNames(s: string)
    ensures forall q :: 0 <= q < |FindFields(s, 0)| ==>
      |FindFields(s, 0)[q].name| > 0 && AllChars(FindFields(s, 0)[q].name, IsWord)
  {
    var ms := FindFields(s, 0);
    forall q | 0 <= q < |ms| ensures |ms[q].name| > 0 && AllChars(ms[q].name, IsWord) {
      FindFieldsScanned(s, 0, q);
      FieldAtSound(s, ms[q].start);
    }
  }

  lemma {:induction false} CollectFieldsWellFormed(ms: seq<FieldMatch>)
    requires forall q :: 0 <= q < |ms| ==> |ms[q].name| > 0 && AllChars(ms[q].name, IsWord)
    ensures forall k :: k in AssignFields(ms, StoredValue) ==>
      IsLowerWord(k) && Normalized(AssignFields(ms, StoredValue)[k])
    decreases |ms|
  {
    if ms != [] {
      var init := ms[..|ms| - 1];
      assert forall q :: 0 <= q < |init| ==> init[q] == ms[q];
      CollectFieldsWellFormed(init);
      LowerOfWord(ms[|ms| - 1].name);
    }
  }

  lemma StripNoComma(s: string)
    requires AllChars(s, NotComma)
    ensures forall i :: 0 <= i < |Strip(s)| ==> Strip(s)[i] != ','
  {
    var r := Strip(s);
    var a := Span(s, IsSpace, 0);
    forall i | 0 <= i < |r| ensures r[i] != ',' {
      assert r[i] == s[a + i];
    }
  }

  lemma ChunkEntryWellFormed(part: string)
    requires ChunkEntry(part).Some?
    ensures WellFormed(ChunkEntry(part).value)
  {
    var p := Strip(part);
    var h := MatchHeader(p).value;
    MatchHeaderSound(p);
    var j: nat, k: nat, w: nat, c: nat :| HeaderShape(p, j, k, w, c, c) && h.tag == p[1..j] && h.rawKey == p[w..c];
    LowerOfWord(h.tag);
    StripNoComma(h.rawKey);
    var body := BodyOf(p[h.end..]);
    FindFieldsNames(body);
    CollectFieldsWellFormed(FindFields(body, 0));
  }

  /** A piece yields an entry exactly when, stripped, it starts with `@` and
      the header regular expression matches at its start. */
  lemma ChunkEntryIff(part: string)
    ensures ChunkEntry(part).Some? <==>
      StartsWith(Strip(part), "@") && exists j: nat, k: nat, w: nat, c: nat, e: nat :: HeaderShape(Strip(part), j, k, w, c, e)
  {
    var p := Strip(part);
    if ChunkEntry(part).Some? {
      MatchHeaderSound(p);
      var j: nat, k: nat, w: nat, c: nat :| HeaderShape(p, j, k, w, c, c);
    }
    if StartsWith(p, "@") && exists j: nat, k: nat, w: nat, c: nat, e: nat :: HeaderShape(p, j, k, w, c, e) {
      var j: nat, k: nat, w: nat, c: nat, e: nat :| HeaderShape(p, j, k, w, c, e);
      MatchHeaderComplete(p, j, k, w, c, e);
    }
  }

  /** For a piece whose header matches, the entry has the lower-cased word
      after `@` as its type and the fields read from the body after the
      comma that ends the header. */
  lemma ChunkEntryOfShape(part: string, j: nat, k: nat, w: nat, c: nat, e: nat)
    requires HeaderShape(Strip(part), j, k, w, c, e)
    ensures ChunkEntry(part).Some?
    ensures ChunkEntry(part).value.etype == Lower(Strip(part)[1..j])
    ensures ChunkEntry(part).value.fields == CollectFields(FindFields(BodyOf(Strip(part)[e + 1..]), 0))
  {
    var p := Strip(part);
    MatchHeaderComplete(p, j, k, w, c, e);
    assert StartsWith(p, "@") by { assert p[..1] == "@"; }
    var h := MatchHeader(p).value;
    assert p[h.end..] == p[e + 1..];
    var body := BodyOf(p[e + 1..]);
    assert ChunkEntry(part) == Some(Entry(Lower(h.tag), Strip(h.rawKey), CollectFields(FindFields(body, 0))));
  }

  /** Every entry comes from one of the pieces. */
  lemma {:induction false} EntriesByOrigin(parts: seq<string>, read: string -> Option<Entry>, i: nat)
    requires i < |EntriesBy(parts, read)|
    ensures exists j :: 0 <= j < |parts| && read(parts[j]) == Some(EntriesBy(parts, read)[i])
    decreases |parts|
  {
    var init := parts[..|parts| - 1];
    if i < |EntriesBy(init, read)| {
      EntriesByOrigin(init, read, i);
      var j :| 0 <= j < |init| && read(init[j]) == Some(EntriesBy(init, read)[i]);
      assert parts[j] == init[j];
    } else {
      assert read(parts[|parts| - 1]) == Some(EntriesBy(parts, read)[i]);
    }
  }

  /** Every piece that yields an entry has its entry in the result. */
  lemma {:induction false} EntriesByComplete(parts: seq<string>, read: string -> Option<Entry>, j: nat)
    requires j < |parts| && read(parts[j]).Some?
    ensures read(parts[j]).value in EntriesBy(parts, read)
    decreases |parts|
  {
    var init := parts[..|parts| - 1];
    if j < |init| {
      assert init[j] == parts[j];
      EntriesByComplete(init, read, j);
    }
  }

  /** Every parsed entry is the entry of one of the pieces the text splits
      into, and every piece that yields an entry has its entry parsed. */
  lemma ParseEntriesOrigin(text: string)
    ensures forall i :: 0 <= i < |ParseEntries(text)| ==>
      exists j :: 0 <= j < |SplitChunks(text)| && ChunkEntry(SplitChunks(text)[j]) == Some(ParseEntries(text)[i])
    ensures forall j :: 0 <= j < |SplitChunks(text)| && ChunkEntry(SplitChunks(text)[j]).Some? ==>
      ChunkEntry(SplitChunks(text)[j]).value in ParseEntries(text)
  {
    var parts := SplitChunks(text);
    assert ParseEntries(text) == EntriesBy(parts, ChunkEntry);
    forall i | 0 <= i < |ParseEntries(text)|
      ensures exists j :: 0 <= j < |parts| && ChunkEntry(parts[j]) == Some(ParseEntries(text)[i])
    {
      EntriesByOrigin(parts, ChunkEntry, i);
    }
    forall j | 0 <= j < |parts| && ChunkEntry(parts[j]).Some?
      ensures ChunkEntry(parts[j]).value in ParseEntries(text)
    {
      EntriesByComplete(parts, ChunkEntry, j);
    }
  }

  /** Every entry the parser returns is well formed. */
  lemma EntriesWellFormed(parts: seq<string>)
    ensures forall i :: 0 <= i < |EntriesOf(parts)| ==> WellFormed(EntriesOf(parts)[i])
  {
    forall x | ChunkEntry(x).Some? ensures WellFormed(ChunkEntry(x).value) {
      ChunkEntryWellFormed(x);
    }
    EntriesByWellFormed(parts, ChunkEntry);
  }

  lemma {:induction false} EntriesByWellFormed(parts: seq<string>, read: string -> Option<Entry>)
    requires forall x :: read(x).Some? ==> WellFormed(read(x).value)
    ensures forall i :: 0 <= i < |EntriesBy(parts, read)| ==> WellFormed(EntriesBy(parts, read)[i])
    decreases |parts|
  {
    if parts != [] {
      EntriesByWellFormed(parts[..|parts| - 1], read);
    }
  }

  lemma ParseWellFormed(text: string)
    ensures forall i :: 0 <= i < |ParseEntries(text)| ==> WellFormed(ParseEntries(text)[i])
  {
    EntriesWellFormed(SplitChunks(text));
  }

  /** Pieces are read independently and their entries kept in source order. */
  lemma EntriesOfAppend(a: seq<string>, b: seq<string>)
    ensures EntriesOf(a + b) == EntriesOf(a) + EntriesOf(b)
  {
    EntriesByAppend(a, b, ChunkEntry);
  }

  lemma {:induction false} EntriesByAppend(a: seq<string>, b: seq<string>, read: string -> Option<Entry>)
    ensures EntriesBy(a + b, read) == EntriesBy(a, read) + EntriesBy(b, read)
    decreases |b|
  {
    if b == [] {
      assert a + b == a;
    } else {
      var b' := b[..|b| - 1];
      assert (a + b)[..|a + b| - 1] == a + b';
      EntriesByAppend(a, b', read);
    }
  }
}
