# bib2yml in Dafny

A model of `scripts/bib2yml.py`, which converts a BibTeX bibliography into
the YAML list of publications a static site reads. The model covers the
whole path from the text of the `.bib` file to the text of the `.yml` file:

- **Split** (`BibScan`). The text is cut before every `@word{` marker, as the
  lookahead split does. `MarkerFlags`, `Positions` and `ChunksAt` are an
  explicit scanner for it.
- **Entry reading** (`BibParse`, with the scanners in `BibScan`):
  - a piece that does not start with `@` after stripping is dropped;
  - so is a piece whose header `@type{key,` does not match;
  - the body of an entry is everything before its last `}`;
  - the fields come from a left-to-right, non-overlapping scan for
    `name = {value}` (at most one level of inner braces) and `name = "value"`;
  - each value is stripped, loses one pair of braces and then one pair of
    quotes, and has its whitespace collapsed;
  - the fields dictionary keeps the last value written under a name.
- **Author lists** (`Authors`). The pieces between ` and ` are trimmed, and
  the non-empty ones are joined with `, `.
- **Link guessing** (`LinkGuess`). This yields the `pdf`, `doi` and `code`
  links, with the source's override order.
- **Quoting** (`Yaml`). `yml_escape` puts a backslash before each `"` and
  wraps the result in quotes.
- **Conversion** (`Convert`):
  - an entry becomes a record only when its cleaned title is non-empty;
  - the year is the first run of four digits, or 0;
  - the venue is the first non-empty of `journal`, `booktitle` and
    `publisher`;
  - the records are sorted stably, newest first;
  - each record is written as an eight-line block followed by an empty line;
  - the joined lines are stripped and end in one newline.

The parts of the script that change state step by step are:

- the loop over the pieces (`ParseBibtexEntries`);
- the dictionary filled match by match (`ReadFields`);
- the value reassigned statement by statement (`CleanValue`);
- the list of records (`BuildItems`);
- the list of output lines (`EmitLines`, `EmitRecord`);
- `main` itself (`Bib2Yml`).

Each of these is a method, with loop invariants where it loops, proved
equal to a specification function. The properties are proved as lemmas
about those functions.

The character classes `\w`, `\s` and `\d`, and `str.lower()`, are restricted
to ASCII (`Text.IsWord`, `Text.IsSpace`, `Text.IsDigit`, `Text.LowerChar`).
This simplifies Python's Unicode classes.

The modules are `Text` (characters, strip, split, join, decimal numerals),
`BibScan`, `BibParse`, `Authors`, `LinkGuess`, `Yaml` and `Convert`, one
file each.

## Model

| member | source | states |
|---|---|---|
| BibScan.MarkerAtIsRegex | scripts/bib2yml.py:9 | a split point is exactly a position where `@`, one or more word characters, optional whitespace and `{` begin |
| BibScan.MarkersFromComplete | scripts/bib2yml.py:9 | every marker position at or after the start is among the split points, so no marker is missed |
| BibScan.SplitCovers | scripts/bib2yml.py:9 | the pieces of the split, joined in order with no separator, give back the whole text |
| BibScan.SplitChunkStarts | scripts/bib2yml.py:9 | every piece after the first starts at a marker, and so with `@` |
| BibScan.SplitNoInnerMarker | scripts/bib2yml.py:9 | no marker lies strictly inside a piece: each split point starts a new piece |
| BibScan.SplitFirstChunk | scripts/bib2yml.py:9 | the first piece is non-empty only when the text does not begin with a marker (the split gives an empty first piece otherwise) |
| BibScan.MatchHeaderSound | scripts/bib2yml.py:14-18 | a matched header is `@`, the type's word characters, whitespace, `{`, whitespace, then a key of non-commas up to the first comma; the match ends just after that comma |
| BibScan.MatchHeaderComplete | scripts/bib2yml.py:14-18 | every text of that shape is matched, with the type it spells and the end just after the first comma |
| BibScan.BraceCloseSound | scripts/bib2yml.py:24 | the brace scanner stops only at a `}` that closes the outer brace, and everything before it has at most one level of inner braces |
| BibScan.BraceCloseComplete | scripts/bib2yml.py:24 | given such a closing `}`, the brace scanner finds exactly that one |
| BibScan.ValueEndSound | scripts/bib2yml.py:24 | a found value is either a braced value with at most one level of inner braces, or a quoted value with no quote inside |
| BibScan.ValueScanComplete | scripts/bib2yml.py:24 | every braced or quoted value of that form is found, with its exact end |
| BibScan.FieldAtSound | scripts/bib2yml.py:24 | a field match at a position is a word boundary, a name of word characters, whitespace, `=`, whitespace, a value of that form, then trailing whitespace and an optional comma |
| BibScan.FieldAtComplete | scripts/bib2yml.py:24 | every `name = value` of that shape at a word boundary is matched with the same name and value, and the match reaches at least as far |
| BibScan.TrailEndGreedy | scripts/bib2yml.py:24 | the trailing `\s*,?` consumes at least every stretch of whitespace with an optional comma after the value |
| BibScan.FindFieldsScanned | scripts/bib2yml.py:24 | every match the scan reports is the field match at its own start |
| BibScan.FindFieldsFirst | scripts/bib2yml.py:24 | there is no field match anywhere before the first reported one, so the scan finds the leftmost match |
| BibScan.FindFieldsNext | scripts/bib2yml.py:24 | the scan resumes at the end of each match: what follows a match is the scan of the rest |
| BibScan.FindFieldsInOrder | scripts/bib2yml.py:24 | reported matches do not overlap, come left to right, and no match starts between two consecutive ones |
| BibParse.BodyOf | scripts/bib2yml.py:20 | the body is the prefix before the last `}`, which has no `}` after it; with no `}` it is the whole text |
| BibParse.NormalizeValue | scripts/bib2yml.py:26-31 | a stored value has no leading or trailing whitespace, and its only whitespace is single spaces |
| BibParse.NormalizeWords | scripts/bib2yml.py:26-31 | the stored value is the words of the stripped and unwrapped value (its maximal runs of non-whitespace, in order) joined by single spaces |
| Text.CollapseWords | scripts/bib2yml.py:31 | replacing each whitespace run by one space keeps every word in order with one space between words, one space before the first word when the text starts with whitespace and one after the last when it ends with whitespace; a text without words becomes one space, or stays empty |
| Text.CollapseStripWords | scripts/bib2yml.py:31 | collapsing whitespace runs and then stripping gives the words joined by one space |
| BibParse.CleanValue | scripts/bib2yml.py:26-31 | the statement by statement value cleaning yields the stored value of the match |
| BibParse.NormalizeBraced | scripts/bib2yml.py:27-31 | a value already in stored form, not itself in quotes, comes back unchanged from `{value}` |
| BibParse.NormalizeQuoted | scripts/bib2yml.py:29-31 | a value already in stored form comes back unchanged from `"value"` |
| BibParse.NormalizeBracedQuoted | scripts/bib2yml.py:27-31 | both unwrappings run in sequence: `{"value"}` comes back as the value |
| BibParse.ReadFields | scripts/bib2yml.py:21-32 | the loop over the field matches builds the fields dictionary of the body |
| BibParse.CollectFieldsKeys | scripts/bib2yml.py:25-32 | a name is a key of the fields exactly when some match has that name, in lower case |
| BibParse.CollectFieldsLastWins | scripts/bib2yml.py:32 | when a name occurs more than once, the value stored is the one from its last match |
| BibParse.ParseBibtexEntries | scripts/bib2yml.py:5-35 | the loop over the pieces yields the entries of the text |
| BibParse.ChunkEntryIff | scripts/bib2yml.py:11-16 | a piece yields an entry exactly when, stripped, it starts with `@` and the header regular expression matches at its start |
| BibParse.ChunkEntryOfShape | scripts/bib2yml.py:14-34 | for a piece whose header matches, the entry type is the lower-cased word after `@` and the fields are those read from the body after the comma that ends the header |
| BibParse.ParseEntriesOrigin | scripts/bib2yml.py:9-35 | every parsed entry is the entry of one of the pieces of the split, and every piece that yields an entry has its entry in the result |
| BibParse.EntriesOfAppend | scripts/bib2yml.py:10-34 | entries come out in the order of the pieces: the entries of two runs of pieces are those of each, one after the other |
| BibParse.ChunkEntryWellFormed | scripts/bib2yml.py:11-34 | an entry has a lower-case word type, a key with no surrounding whitespace and no comma, lower-case word field names and stored-form values |
| BibParse.ParseWellFormed | scripts/bib2yml.py:5-35 | every parsed entry is of that form |
| Authors.AuthorNamesClean | scripts/bib2yml.py:39 | every listed author is non-empty, trimmed, and free of ` and ` |
| Authors.AuthorsRoundTrip | scripts/bib2yml.py:37-39 | clean names joined with ` and ` list exactly those names, and the author text is their `, `-join; the empty field gives the empty text |
| LinkGuess.GuessLinks | scripts/bib2yml.py:41-59 | the doi link is empty exactly when the `doi` field is absent or empty, always starts with `http` otherwise, and is the field itself when that starts with `http`; a non-empty `pdf` field is the pdf link; without one, a `url` ending in `.pdf` in any case is the pdf link, and no other pdf link is possible; the code link is the `code` field or empty |
| LinkGuess.BareDoi | scripts/bib2yml.py:44-46 | a DOI without `http` gets the `https://doi.org/` prefix |
| LinkGuess.DoiLinkStable | scripts/bib2yml.py:44-46 | a guessed DOI link fed back in is kept as it is, so the prefix is never doubled |
| LinkGuess.OnlyLinkFields | scripts/bib2yml.py:41-59 | the links depend on the `doi`, `url`, `pdf` and `code` fields only |
| LinkGuess.FileIgnored | scripts/bib2yml.py:54-56 | the `file` field never changes the links |
| Yaml.EscapeQuotesShape | scripts/bib2yml.py:62 | escaping adds one character per quote, and every quote of the result follows a backslash |
| Yaml.YmlEscapeShape | scripts/bib2yml.py:61-63 | the quoted form is `|s| + 2 +` the number of quotes long, opens and closes with `"`, and every quote inside follows a backslash |
| Yaml.EscapeRoundTrip | scripts/bib2yml.py:62 | dropping the backslash before each quote gives back the original, backslashes included |
| Convert.CleanTitle | scripts/bib2yml.py:80 | the cleaned title is empty or has no whitespace at either end |
| Convert.FirstFourDigits | scripts/bib2yml.py:85 | the scan returns the leftmost position where four digits start, or none when there is no such position |
| Convert.YearNumber | scripts/bib2yml.py:84-85 | the year number is at most 9999, and 0 when no four digits occur |
| Convert.YearNumberLeftmost | scripts/bib2yml.py:84-85 | the year number is the value of the leftmost four-digit run |
| Convert.YearRoundTrip | scripts/bib2yml.py:85 | a four-digit year written in decimal reads back as itself |
| Convert.Venue | scripts/bib2yml.py:88 | the venue is the journal when that is non-empty, else the booktitle when that is non-empty, else the publisher (empty when that is missing); so it is empty exactly when all three are |
| Convert.ToRecordTitled | scripts/bib2yml.py:80-85 | a record built from an entry has a non-empty title with no whitespace at either end, and a year of at most four digits |
| Convert.KeptRecordsTitled | scripts/bib2yml.py:77-102 | there are no more records than entries, and every record is titled like that |
| Convert.RecordsByOrigin | scripts/bib2yml.py:78-102 | every record is the one built from some entry |
| Convert.KeptRecordsComplete | scripts/bib2yml.py:78-102 | every entry whose cleaned title is non-empty gives a record, and that record is among the kept ones: the title test is the only filter |
| Convert.KeptRecordsAppend | scripts/bib2yml.py:77-102 | entries are converted one at a time: the records of two runs of entries are those of the first followed by those of the second, so each kept entry gives one record, in entry order |
| Convert.CleanTitleOfStored | scripts/bib2yml.py:80 | on a stored field value, whose only whitespace is single spaces, the cleaned title has no brace or space at either end |
| Convert.ParsedTitles | scripts/bib2yml.py:78-82 | every record of a parsed text has a title with no brace or space at either end |
| Convert.BuildItems | scripts/bib2yml.py:77-102 | the loop over the entries builds the records, skipping the untitled entries |
| Convert.SortByYearCorrect | scripts/bib2yml.py:105 | the sorted records have non-increasing years, are a permutation of the input, and keep the input order among the records of each year |
| Convert.EmitRecord | scripts/bib2yml.py:109-117 | one record appends its eight lines, in the order title, authors, venue, year, type, pdf, doi, code, then an empty line |
| Convert.EmitLines | scripts/bib2yml.py:107-117 | the loop over the records produces the lines of all the records, in order |
| Convert.BlockEnds | scripts/bib2yml.py:109-116 | a record's block starts with the `- title:` dash and ends with the closing quote of the code value |
| Convert.RenderLayout | scripts/bib2yml.py:120 | with no records the output is exactly one newline; otherwise it is the blocks separated by one blank line, ending in exactly one newline |
| Convert.ConvertTextCorrect | scripts/bib2yml.py:74-120 | the output is the sorted records' blocks as above, sorted newest first and stably, and a permutation of the records of the titled entries |
| Convert.Bib2Yml | scripts/bib2yml.py:74-120 | the text-to-text body of `main` yields the converter's output |
| Text.NatToDecimalRoundTrip | scripts/bib2yml.py:112 | the decimal text of a year reads back as the same number |

## Left out

- `scripts/fetch_scholar_citations.py` is not part of this model. It wraps a third-party network API, uses the wall clock and calls a YAML library that is not visible here.
- The argument check and usage message at `main`'s start (`scripts/bib2yml.py:66-68`) are left out. So is reading the input file with replacement of undecodable bytes (`:70-73`). So are creating the output directory and writing the file (`:119-120`). `Bib2Yml` takes the text read and returns the text written.
- `\w`, `\s`, `\d`, `str.lower()`, `int()` and the whitespace that `str.strip()` removes are ASCII only. Python's Unicode classes and non-ASCII digits are not modelled. For example, Python's `strip()` also removes U+00A0, which the model keeps.
- The split at a zero-width lookahead follows Python 3.7 and later. Python 3.5 and 3.6 refuse a pattern that can match only the empty string, and that behaviour is not modelled.
- Real BibTeX is not modelled: string macros, `@comment` and braces nested more than one level. The script does not implement these either. Its regular expressions are modelled as they are written, including the depth-one limit.
- Real YAML is not modelled. `yml_escape` is modelled as written: backslashes are not escaped, and the YAML 1.2 double-quoted scalar rules are not applied.
- The order in which Python dictionaries keep their keys is not modelled: the fields are a Dafny `map`. Nothing in the output depends on that order.
- The in-place `items.sort` is modelled on values, by `Convert.SortByYear`, a stable insertion sort. Only the properties Python promises for `list.sort` are proved: sorted, a permutation, and stable.
- The `re.M` flag of the split and the `re.S` flags are not modelled. The patterns have no `^`, `$` or `.` on which these flags act.
- Convert.CleanTitle: states only that the result has no surrounding whitespace. For an arbitrary string, a brace after a tab survives, so the result can start with a brace. `Convert.CleanTitleOfStored` and `Convert.ParsedTitles` prove that this cannot happen for the titles of a parsed text.
