/** The conversion in `main` of `scripts/bib2yml.py`, without its file
    handling: each parsed entry with a title becomes a publication record,
    the records are sorted newest first, and each is written as a block of
    YAML lines. */
module Convert {
  import opened Text
  import opened BibParse
  import opened Authors
  import opened LinkGuess
  import opened Yaml

  /** One publication as the output lists it. */
  datatype Record = Record(
    title: string, authors: string, venue: string, year: nat,
    ptype: string, pdf: string, doi: string, code: string)

  /** `f.get(name, "")`. */
  function Get(f: map<string, string>, name: string): string {
    if name in f then f[name] else ""
  }

  predicate TitleTrim(c: char) { c == '{' || c == '}' || c == ' ' }

  /** `title.strip("{} ").strip()`. The braces and spaces go first, then the
      remaining whitespace. */
  function CleanTitle(t: string): (r: string)
    ensures r == [] || (!IsSpace(r[0]) && !IsSpace(r[|r| - 1]))
  {
    Strip(StripBy(t, TitleTrim))
  }

  /** Four decimal digits start at `i`: a match of `\d{4}`. */
  predicate FourDigitsAt(s: string, i: nat) {
    i + 4 <= |s| && IsDigit(s[i]) && IsDigit(s[i + 1]) && IsDigit(s[i + 2]) && IsDigit(s[i + 3])
  }

  /** The first match of `\d{4}` at or after `i`, as `re.findall` finds it. */
  function FirstFourDigits(s: string, i: nat): (r: Option<nat>)
    requires i <= |s|
    ensures r.Some? ==> i <= r.value && FourDigitsAt(s, r.value)
    ensures r.Some? ==> forall k :: i <= k < r.value ==> !FourDigitsAt(s, k)
    ensures r.None? ==> forall k :: i <= k ==> !FourDigitsAt(s, k)
    decreases |s| - i
  {
    if i + 4 > |s| then None
    else if FourDigitsAt(s, i) then Some(i)
    else FirstFourDigits(s, i + 1)
  }

  /** `int(re.findall(r'\d{4}', year)[0])`, or 0 when there is no match. */
  function YearNumber(s: string): (y: nat)
    ensures y <= 9999
    ensures (forall k :: 0 <= k ==> !FourDigitsAt(s, k)) ==> y == 0
  {
    match FirstFourDigits(s, 0)
    case None => 0
    case Some(i) => FourDigitsValue(s[i..i + 4]); DecimalValue(s[i..i + 4])
  }

  lemma FourDigitsValue(d: string)
    requires |d| == 4 && forall k :: 0 <= k < 4 ==> IsDigit(d[k])
    ensures DecimalValue(d) <= 9999
  {
    var d3 := d[..3];
    var d2 := d3[..2];
    var d1 := d2[..1];
    assert d1[..0] == [];
    assert DecimalValue(d1) <= 9;
    assert DecimalValue(d2) <= 99;
    assert DecimalValue(d3) <= 999;
  }

  /** The venue: the first non-empty of `journal`, `booktitle`, `publisher`. */
  function Venue(f: map<string, string>): (v: string)
    ensures v == "" <==> Get(f, "journal") == "" && Get(f, "booktitle") == "" && Get(f, "publisher") == ""
    ensures Get(f, "journal") != "" ==> v == Get(f, "journal")
    ensures Get(f, "journal") == "" && Get(f, "booktitle") != "" ==> v == Get(f, "booktitle")
    ensures Get(f, "journal") == "" && Get(f, "booktitle") == "" ==> v == Get(f, "publisher")
  {
    if Get(f, "journal") != "" then Get(f, "journal")
    else if Get(f, "booktitle") != "" then Get(f, "booktitle")
    else Get(f, "publisher")
  }

  /** The record built from an entry, or none when its title is empty. */
  function ToRecord(e: Entry): Option<Record> {
    var f := e.fields;
    var title := CleanTitle(Get(f, "title"));
    if title == [] then None
    else
      var links := GuessLinks(f);
      Some(Record(title, AuthorsToText(Get(f, "author")), Venue(f), YearNumber(Get(f, "year")),
                  e.etype, links.pdf, links.doi, links.code))
  }

  /** What `conv` gives for each of the entries, in order, skipping the
      entries it drops. */
  function RecordsBy(entries: seq<Entry>, conv: Entry -> Option<Record>): seq<Record>
    decreases |entries|
  {
    if entries == [] then []
    else
      RecordsBy(entries[..|entries| - 1], conv)
      + match conv(entries[|entries| - 1]) case None => [] case Some(r) => [r]
  }

  /** The records of the entries, in entry order. */
  function KeptRecords(entries: seq<Entry>): seq<Record> {
    RecordsBy(entries, ToRecord)
  }

  // ---------------------------------------------------------------------
  // Sorting newest first

  /** Put `r` after every record at least as recent, and before the first
      older one. */
  function InsertByYear(r: Record, xs: seq<Record>): seq<Record>
    decreases |xs|
  {
    if xs == [] then [r]
    else if xs[0].year >= r.year then [xs[0]] + InsertByYear(r, xs[1..])
    else [r] + xs
  }

  /** `items.sort(key=year, reverse=True)`: a stable sort, by decreasing year. */
  function SortByYear(items: seq<Record>): seq<Record>
    decreases |items|
  {
    if items == [] then []
    else InsertByYear(items[|items| - 1], SortByYear(items[..|items| - 1]))
  }

  predicate NewestFirst(xs: seq<Record>) {
    forall i, j :: 0 <= i < j < |xs| ==> xs[i].year >= xs[j].year
  }

  /** The records of year `y`, in order. */
  function OfYear(xs: seq<Record>, y: nat): seq<Record>
    decreases |xs|
  {
    if xs == [] then []
    else (if xs[0].year == y then [xs[0]] else []) + OfYear(xs[1..], y)
  }

  lemma {:induction false} InsertByYearPerm(r: Record, xs: seq<Record>)
    ensures multiset(InsertByYear(r, xs)) == multiset(xs) + multiset{r}
    decreases |xs|
  {
    if xs != [] && xs[0].year >= r.year {
      InsertByYearPerm(r, xs[1..]);
      assert xs == [xs[0]] + xs[1..];
    }
  }

  /** Every record of `xs` is from year `b` or earlier. */
  predicate NoLaterThan(xs: seq<Record>, b: nat) {
    forall i :: 0 <= i < |xs| ==> xs[i].year <= b
  }

  lemma NewestFirstCons(a: Record, s: seq<Record>)
    requires NewestFirst(s) && NoLaterThan(s, a.year)
    ensures NewestFirst([a] + s)
  {
    var t := [a] + s;
    forall i, j | 0 <= i < j < |t| ensures t[i].year >= t[j].year {
      assert t[j] == s[j - 1];
      if i > 0 {
        assert t[i] == s[i - 1];
      }
    }
  }

  lemma {:induction false} InsertByYearNoLater(r: Record, xs: seq<Record>, b: nat)
    requires NoLaterThan(xs, b) && r.year <= b
    ensures NoLaterThan(InsertByYear(r, xs), b)
    decreases |xs|
  {
    if xs != [] {
      var t := InsertByYear(r, xs);
      if xs[0].year >= r.year {
        InsertByYearNoLater(r, xs[1..], b);
        var rest := InsertByYear(r, xs[1..]);
        forall i | 0 <= i < |t| ensures t[i].year <= b {
          if i > 0 {
            assert t[i] == rest[i - 1];
          }
        }
      } else {
        forall i | 0 <= i < |t| ensures t[i].year <= b {
          if i > 0 {
            assert t[i] == xs[i - 1];
          }
        }
      }
    }
  }

  /** Inserting keeps a list newest first. */
  lemma {:induction false} InsertByYearSorted(r: Record, xs: seq<Record>)
    requires NewestFirst(xs)
    ensures NewestFirst(InsertByYear(r, xs))
    decreases |xs|
  {
    if xs != [] {
      if xs[0].year >= r.year {
        var tail := xs[1..];
        assert NewestFirst(tail) && NoLaterThan(tail, xs[0].year) by {
          forall i | 0 <= i < |tail| ensures tail[i] == xs[i + 1] {}
        }
        InsertByYearSorted(r, tail);
        InsertByYearNoLater(r, tail, xs[0].year);
        NewestFirstCons(xs[0], InsertByYear(r, tail));
      } else {
        NewestFirstCons(r, xs);
      }
    }
  }

  /** Inserting puts `r` after the records of its own year. */
  lemma {:induction false} InsertByYearOfYear(r: Record, xs: seq<Record>, y: nat)
    requires NewestFirst(xs)
    ensures OfYear(InsertByYear(r, xs), y) == OfYear(xs, y) + (if r.year == y then [r] else [])
    decreases |xs|
  {
    if xs == [] {
      OfYearCons(r, [], y);
    } else if xs[0].year >= r.year {
      InsertByYearOfYear(r, xs[1..], y);
      OfYearCons(xs[0], InsertByYear(r, xs[1..]), y);
    } else {
      OfYearCons(r, xs, y);
      if r.year == y {
        NoneOfYear(xs, y);
      }
    }
  }

  lemma OfYearCons(a: Record, s: seq<Record>, y: nat)
    ensures OfYear([a] + s, y) == (if a.year == y then [a] else []) + OfYear(s, y)
  {
    assert ([a] + s)[1..] == s;
  }

  /** A list newest first whose first record is older than `y` has none of year `y`. */
  lemma {:induction false} NoneOfYear(xs: seq<Record>, y: nat)
    requires NewestFirst(xs) && xs != [] && xs[0].year < y
    ensures OfYear(xs, y) == []
    decreases |xs|
  {
    if |xs| > 1 {
      assert xs[1].year <= xs[0].year;
      NoneOfYear(xs[1..], y);
    }
  }

  lemma {:induction false} OfYearAppend(xs: seq<Record>, r: Record, y: nat)
    ensures OfYear(xs + [r], y) == OfYear(xs, y) + (if r.year == y then [r] else [])
    decreases |xs|
  {
    var last := if r.year == y then [r] else [];
    if xs == [] {
      assert [r][1..] == [];
    } else {
      var head := if xs[0].year == y then [xs[0]] else [];
      assert (xs + [r])[0] == xs[0];
      assert (xs + [r])[1..] == xs[1..] + [r];
      OfYearAppend(xs[1..], r, y);
      assert OfYear(xs + [r], y) == head + (OfYear(xs[1..], y) + last);
      assert head + (OfYear(xs[1..], y) + last) == (head + OfYear(xs[1..], y)) + last;
    }
  }

  /** The sort gives the records newest first, loses and adds none, and keeps
      the records of each year in their original order. */
  lemma SortByYearCorrect(items: seq<Record>)
    ensures NewestFirst(SortByYear(items))
    ensures multiset(SortByYear(items)) == multiset(items)
    ensures forall y :: OfYear(SortByYear(items), y) == OfYear(items, y)
  {
    SortByYearSorted(items);
    SortByYearPerm(items);
    forall y ensures OfYear(SortByYear(items), y) == OfYear(items, y) {
      SortByYearStable(items, y);
    }
  }

  lemma {:induction false} SortByYearSorted(items: seq<Record>)
    ensures NewestFirst(SortByYear(items))
    decreases |items|
  {
    if items != [] {
      var init := items[..|items| - 1];
      SortByYearSorted(init);
      InsertByYearSorted(items[|items| - 1], SortByYear(init));
    }
  }

  lemma {:induction false} SortByYearPerm(items: seq<Record>)
    ensures multiset(SortByYear(items)) == multiset(items)
    decreases |items|
  {
    if items != [] {
      var init := items[..|items| - 1];
      var r := items[|items| - 1];
      SortByYearPerm(init);
      InsertByYearPerm(r, SortByYear(init));
      assert items == init + [r];
    }
  }

  lemma {:induction false} SortByYearStable(items: seq<Record>, y: nat)
    ensures OfYear(SortByYear(items), y) == OfYear(items, y)
    decreases |items|
  {
    if items != [] {
      var init := items[..|items| - 1];
      var r := items[|items| - 1];
      SortByYearStable(init, y);
      SortByYearSorted(init);
      InsertByYearOfYear(r, SortByYear(init), y);
      assert items == init + [r];
      OfYearAppend(init, r, y);
    }
  }

  // ---------------------------------------------------------------------
  // Output

  /** The eight lines of one record. */
  function RecordLines(r: Record): seq<string> {
    [ "- title: " + YmlEscape(r.title),
      "  authors: " + YmlEscape(r.authors),
      "  venue: " + YmlEscape(r.venue),
      "  year: " + NatToDecimal(r.year),
      "  type: " + YmlEscape(r.ptype),
      "  pdf: " + YmlEscape(r.pdf),
      "  doi: " + YmlEscape(r.doi),
      "  code: " + YmlEscape(r.code) ]
  }

  /** The output lines: each record's lines followed by an empty line. */
  function LinesOf(items: seq<Record>): seq<string>
    decreases |items|
  {
    if items == [] then []
    else LinesOf(items[..|items| - 1]) + RecordLines(items[|items| - 1]) + [""]
  }

  /** `"\n".join(lines).strip() + "\n"`. */
  function Render(items: seq<Record>): string {
    Strip(Join(LinesOf(items), "\n")) + "\n"
  }

  /** The converter as a whole, from the text of the `.bib` file to the text
      of the `.yml` file. */
  function ConvertText(text: string): string {
    Render(SortByYear(KeptRecords(ParseEntries(text))))
  }

  /** One record's block of lines. */
  function Block(r: Record): string {
    Join(RecordLines(r), "\n")
  }

  function Blocks(items: seq<Record>): seq<string>
    decreases |items|
  {
    if items == [] then [] else Blocks(items[..|items| - 1]) + [Block(items[|items| - 1])]
  }

  /** A block starts with the `- title:` line and ends with the closing quote
      of the `code:` value. */
  lemma BlockEnds(r: Record)
    ensures |Block(r)| > 0 && Block(r)[0] == '-' && Block(r)[|Block(r)| - 1] == '"'
  {
    var ls := RecordLines(r);
    var last := "  code: " + YmlEscape(r.code);
    assert ls[7] == last && last[|last| - 1] == '"';
    JoinEnds(ls, "\n");
  }

  /** The lines joined are the blocks separated by blank lines, with a final
      newline. */
  lemma {:induction false} JoinLines(items: seq<Record>)
    requires items != []
    ensures Join(LinesOf(items), "\n") == Join(Blocks(items), "\n\n") + "\n"
    decreases |items|
  {
    var init := items[..|items| - 1];
    var r := items[|items| - 1];
    var ls := RecordLines(r);
    assert Blocks(items) == Blocks(init) + [Block(r)];
    assert LinesOf(items) == LinesOf(init) + ls + [""];
    if init == [] {
      JoinTrailingEmpty([], ls, "", Block(r));
      JoinSingle(Block(r), "\n\n");
    } else {
      JoinLines(init);
      var x := Join(Blocks(init), "\n\n");
      JoinTrailingEmpty(LinesOf(init), ls, x, Block(r));
      JoinAppend(Blocks(init), [Block(r)], "\n\n");
      JoinSingle(Block(r), "\n\n");
    }
  }

  /** One more block of lines followed by an empty line. */
  lemma JoinTrailingEmpty(a: seq<string>, ls: seq<string>, x: string, b: string)
    requires |ls| > 0 && Join(ls, "\n") == b
    requires a == [] || Join(a, "\n") == x + "\n"
    ensures a == [] ==> Join(a + ls + [""], "\n") == b + "\n"
    ensures a != [] ==> Join(a + ls + [""], "\n") == x + "\n\n" + b + "\n"
  {
    JoinAppend(ls, [""], "\n");
    JoinSingle("", "\n");
    if a == [] {
      assert a + ls + [""] == ls + [""];
    } else {
      assert a + ls + [""] == a + (ls + [""]);
      JoinAppend(a, ls + [""], "\n");
    }
  }

  lemma {:induction false} BlocksShape(items: seq<Record>)
    ensures |Blocks(items)| == |items|
    ensures forall i :: 0 <= i < |items| ==> Blocks(items)[i] == Block(items[i])
    decreases |items|
  {
    if items != [] {
      BlocksShape(items[..|items| - 1]);
    }
  }

  /** The layout of the output file: one block of eight lines per record,
      a blank line between blocks, and exactly one newline at the end; with
      no record the file is a single newline. */
  lemma RenderLayout(items: seq<Record>)
    ensures items == [] ==> Render(items) == "\n"
    ensures items != [] ==> Render(items) == Join(Blocks(items), "\n\n") + "\n"
  {
    if items == [] {
      assert Strip("") == "";
    } else {
      JoinLines(items);
      BlocksShape(items);
      BlockEnds(items[0]);
      BlockEnds(items[|items| - 1]);
      JoinEnds(Blocks(items), "\n\n");
      StripNewline(Join(Blocks(items), "\n\n"));
    }
  }

  /** The output lists the kept records newest first, none lost or added,
      records of one year in entry order, laid out as `RenderLayout` says. */
  lemma ConvertTextCorrect(text: string)
    ensures var kept := KeptRecords(ParseEntries(text));
      var sorted := SortByYear(kept);
      NewestFirst(sorted) && multiset(sorted) == multiset(kept)
      && (forall y :: OfYear(sorted, y) == OfYear(kept, y))
      && ConvertText(text) == (if sorted == [] then "\n" else Join(Blocks(sorted), "\n\n") + "\n")
  {
    var kept := KeptRecords(ParseEntries(text));
    SortByYearCorrect(kept);
    RenderLayout(SortByYear(kept));
  }

  // ---------------------------------------------------------------------
  // Records and years

  /** A record as the output lists it: a title with no whitespace at either
      end, and a year of at most four digits. */
  predicate Titled(r: Record) {
    r.title != [] && !IsSpace(r.title[0]) && !IsSpace(r.title[|r.title| - 1]) && r.year <= 9999
  }

  /** Every record has a title; there are no more records than entries. */
  lemma KeptRecordsTitled(entries: seq<Entry>)
    ensures |KeptRecords(entries)| <= |entries|
    ensures forall i :: 0 <= i < |KeptRecords(entries)| ==> Titled(KeptRecords(entries)[i])
  {
    forall e | ToRecord(e).Some? ensures Titled(ToRecord(e).value) {
      ToRecordTitled(e);
    }
    RecordsByTitled(entries, ToRecord);
  }

  lemma {:induction false} RecordsByTitled(entries: seq<Entry>, conv: Entry -> Option<Record>)
    requires forall e :: conv(e).Some? ==> Titled(conv(e).value)
    ensures |RecordsBy(entries, conv)| <= |entries|
    ensures forall i :: 0 <= i < |RecordsBy(entries, conv)| ==> Titled(RecordsBy(entries, conv)[i])
    decreases |entries|
  {
    if entries != [] {
      RecordsByTitled(entries[..|entries| - 1], conv);
    }
  }

  lemma ToRecordTitled(e: Entry)
    requires ToRecord(e).Some?
    ensures Titled(ToRecord(e).value)
  {
    RecordTitle(e);
  }

  /** The title and the year of the record built from an entry. */
  lemma RecordTitle(e: Entry)
    requires ToRecord(e).Some?
    ensures ToRecord(e).value.title == CleanTitle(Get(e.fields, "title"))
    ensures ToRecord(e).value.year == YearNumber(Get(e.fields, "year"))
  {
  }

  /** Neither end of `t` is a brace or a space. */
  predicate BraceFreeEnds(t: string) {
    t == [] || (!TitleTrim(t[0]) && !TitleTrim(t[|t| - 1]))
  }

  /** On a value in the stored form, whose only whitespace is the space,
      the title cleaning leaves no brace at either end. */
  lemma CleanTitleOfStored(t: string)
    requires Normalized(t)
    ensures BraceFreeEnds(CleanTitle(t))
  {
    var u := StripBy(t, TitleTrim);
    var a := Span(t, TitleTrim, 0);
    if u != [] {
      assert u[0] == t[a] && u[|u| - 1] == t[a + |u| - 1];
      assert !IsSpace(u[0]) && !IsSpace(u[|u| - 1]);
    }
    StripTrimmed(u);
  }

  /** Every record comes from one of the entries. */
  lemma {:induction false} RecordsByOrigin(entries: seq<Entry>, conv: Entry -> Option<Record>, i: nat)
    requires i < |RecordsBy(entries, conv)|
    ensures exists j :: 0 <= j < |entries| && conv(entries[j]) == Some(RecordsBy(entries, conv)[i])
    decreases |entries|
  {
    var init := entries[..|entries| - 1];
    var last := entries[|entries| - 1];
    if i < |RecordsBy(init, conv)| {
      RecordsByOrigin(init, conv, i);
      var j :| 0 <= j < |init| && conv(init[j]) == Some(RecordsBy(init, conv)[i]);
      assert entries[j] == init[j];
    } else {
      assert conv(entries[|entries| - 1]) == Some(RecordsBy(entries, conv)[i]);
    }
  }

  /** Every entry that `conv` keeps has its record in the result. */
  lemma {:induction false} RecordsByComplete(entries: seq<Entry>, conv: Entry -> Option<Record>, j: nat)
    requires j < |entries| && conv(entries[j]).Some?
    ensures conv(entries[j]).value in RecordsBy(entries, conv)
    decreases |entries|
  {
    var init := entries[..|entries| - 1];
    if j < |init| {
      assert init[j] == entries[j];
      RecordsByComplete(init, conv, j);
    }
  }

  /** Every entry whose cleaned title is not empty has its record among the
      kept records: the title filter drops no other entry. */
  lemma KeptRecordsComplete(entries: seq<Entry>, j: nat)
    requires j < |entries| && CleanTitle(Get(entries[j].fields, "title")) != []
    ensures ToRecord(entries[j]).Some? && ToRecord(entries[j]).value in KeptRecords(entries)
  {
    RecordsByComplete(entries, ToRecord, j);
  }

  /** Entries are converted independently: the records of two runs of
      entries are the records of the first followed by those of the second,
      so each kept entry gives exactly one record, in entry order. */
  lemma {:induction false} RecordsByAppend(a: seq<Entry>, b: seq<Entry>, conv: Entry -> Option<Record>)
    ensures RecordsBy(a + b, conv) == RecordsBy(a, conv) + RecordsBy(b, conv)
    decreases |b|
  {
    if b == [] {
      assert a + b == a;
    } else {
      var b' := b[..|b| - 1];
      assert (a + b)[..|a + b| - 1] == a + b';
      RecordsByAppend(a, b', conv);
    }
  }

  lemma KeptRecordsAppend(a: seq<Entry>, b: seq<Entry>)
    ensures KeptRecords(a + b) == KeptRecords(a) + KeptRecords(b)
  {
    RecordsByAppend(a, b, ToRecord);
  }

  /** A property `keep` of every record follows from a property `good` of
      every entry, when `conv` turns good entries only into kept records. */
  lemma RecordsByKeeps(entries: seq<Entry>, conv: Entry -> Option<Record>,
                       good: Entry -> bool, keep: Record -> bool)
    requires forall j :: 0 <= j < |entries| ==> good(entries[j])
    requires forall e :: good(e) && conv(e).Some? ==> keep(conv(e).value)
    ensures forall i :: 0 <= i < |RecordsBy(entries, conv)| ==> keep(RecordsBy(entries, conv)[i])
  {
    forall i | 0 <= i < |RecordsBy(entries, conv)| ensures keep(RecordsBy(entries, conv)[i]) {
      RecordsByOrigin(entries, conv, i);
      var j :| 0 <= j < |entries| && conv(entries[j]) == Some(RecordsBy(entries, conv)[i]);
      assert good(entries[j]);
    }
  }

  /** The record of a parsed entry has a title with no brace or space at
      either end. */
  lemma StoredTitle(e: Entry)
    requires WellFormed(e) && ToRecord(e).Some?
    ensures BraceFreeEnds(ToRecord(e).value.title)
  {
    RecordTitle(e);
    assert Normalized(Get(e.fields, "title"));
    CleanTitleOfStored(Get(e.fields, "title"));
  }

  /** For the records of a parsed text, the title has no brace, space or
      other whitespace at either end. */
  lemma ParsedTitles(text: string)
    ensures forall i :: 0 <= i < |KeptRecords(ParseEntries(text))| ==>
      BraceFreeEnds(KeptRecords(ParseEntries(text))[i].title)
  {
    ParseWellFormed(text);
    forall e | WellFormed(e) && ToRecord(e).Some? ensures BraceFreeEnds(ToRecord(e).value.title) {
      StoredTitle(e);
    }
    RecordsByKeeps(ParseEntries(text), ToRecord, WellFormed, (r: Record) => BraceFreeEnds(r.title));
  }


  /** The year is the value of the leftmost run of four digits. */
  lemma YearNumberLeftmost(s: string, i: nat)
    requires FourDigitsAt(s, i) && forall k :: 0 <= k < i ==> !FourDigitsAt(s, k)
    ensures YearNumber(s) == DecimalValue(s[i..i + 4])
  {
  }

  /** A four-digit year written in decimal reads back as itself. */
  lemma YearRoundTrip(n: nat)
    requires 1000 <= n <= 9999
    ensures YearNumber(NatToDecimal(n)) == n
  {
    var d := NatToDecimal(n);
    assert n / 10 / 10 == n / 100 && n / 100 / 10 == n / 1000;
    assert |NatToDecimal(n / 1000)| == 1;
    assert |NatToDecimal(n / 100)| == 2;
    assert |NatToDecimal(n / 10)| == 3;
    assert |d| == 4;
    assert FourDigitsAt(d, 0);
    assert d[0..4] == d;
    NatToDecimalRoundTrip(n);
  }

  // ---------------------------------------------------------------------
  // The loops of `main`

  lemma KeptRecordsStep(entries: seq<Entry>, n: nat)
    requires n < |entries|
    ensures KeptRecords(entries[..n + 1]) ==
      KeptRecords(entries[..n]) + match ToRecord(entries[n]) case None => [] case Some(r) => [r]
  {
    assert entries[..n + 1][..n] == entries[..n];
  }

  /** The loop building the records: entries without a title are skipped. */
  method BuildItems(entries: seq<Entry>) returns (items: seq<Record>)
    ensures items == KeptRecords(entries)
  {
    items := [];
    for n := 0 to |entries|
      invariant items == KeptRecords(entries[..n])
    {
      KeptRecordsStep(entries, n);
      var f := entries[n].fields;
      var title := CleanTitle(Get(f, "title"));
      if title == [] {
        continue;
      }
      var yearNum := YearNumber(Get(f, "year"));
      var authors := AuthorsToText(Get(f, "author"));
      var venue := Venue(f);
      var ptype := entries[n].etype;
      var links := GuessLinks(f);
      items := items + [Record(title, authors, venue, yearNum, ptype, links.pdf, links.doi, links.code)];
    }
    assert entries[..|entries|] == entries;
  }

  lemma LinesOfStep(items: seq<Record>, n: nat)
    requires n < |items|
    ensures LinesOf(items[..n + 1]) == LinesOf(items[..n]) + RecordLines(items[n]) + [""]
  {
    assert items[..n + 1][..n] == items[..n];
  }

  /** The loop writing the lines, nine per record. */
  method EmitLines(items: seq<Record>) returns (lines: seq<string>)
    ensures lines == LinesOf(items)
  {
    lines := [];
    for n := 0 to |items|
      invariant lines == LinesOf(items[..n])
    {
      LinesOfStep(items, n);
      lines := EmitRecord(lines, items[n]);
    }
    assert items[..|items|] == items;
  }

  /** The body of that loop: the eight lines of one record, then an empty line. */
  method EmitRecord(before: seq<string>, it: Record) returns (lines: seq<string>)
    ensures lines == before + RecordLines(it) + [""]
  {
    lines := before;
    lines := lines + ["- title: " + YmlEscape(it.title)];
    lines := lines + ["  authors: " + YmlEscape(it.authors)];
    lines := lines + ["  venue: " + YmlEscape(it.venue)];
    lines := lines + ["  year: " + NatToDecimal(it.year)];
    lines := lines + ["  type: " + YmlEscape(it.ptype)];
    lines := lines + ["  pdf: " + YmlEscape(it.pdf)];
    lines := lines + ["  doi: " + YmlEscape(it.doi)];
    lines := lines + ["  code: " + YmlEscape(it.code)];
    lines := lines + [""];
  }

  /** `main` between reading the input and writing the output. */
  method Bib2Yml(text: string) returns (out: string)
    ensures out == ConvertText(text)
  {
    var entries := ParseBibtexEntries(text);
    var items := BuildItems(entries);
    items := SortByYear(items);
    var lines := EmitLines(items);
    out := Strip(Join(lines, "\n")) + "\n";
  }
}
