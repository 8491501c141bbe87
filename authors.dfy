/** The author list of `scripts/bib2yml.py` (`bib_author_to_text`): the BibTeX
    `author` field separates names with ` and `; the converter lists them
    separated by `, `, dropping empty names. */
module Authors {
  import opened Text

  const Sep: string := " and "

  /** The cleaned names: each piece stripped, the empty ones dropped. */
  function CleanNames(pieces: seq<string>): seq<string>
    decreases |pieces|
  {
    if pieces == [] then []
    else (if Strip(pieces[0]) != [] then [Strip(pieces[0])] else []) + CleanNames(pieces[1..])
  }

  /** The names of an author field, in order. */
  function AuthorNames(authors: string): seq<string> {
    CleanNames(SplitOn(authors, Sep))
  }

  /** `bib_author_to_text(authors)`. */
  function AuthorsToText(authors: string): string {
    Join(AuthorNames(authors), ", ")
  }

  /** A name as the converter lists it: non-empty, with no surrounding
      whitespace and no ` and ` inside. */
  predicate CleanName(n: string) {
    n != [] && !IsSpace(n[0]) && !IsSpace(n[|n| - 1]) && !Contains(n, Sep)
  }

  /** A substring of a string free of `sep` is free of it too. */
  lemma ContainsInfix(s: string, a: nat, b: nat, sep: string)
    requires a <= b <= |s| && !Contains(s, sep)
    ensures !Contains(s[a..b], sep)
  {
    if Contains(s[a..b], sep) {
      var k :| 0 <= k <= b - a && OccursAt(s[a..b], sep, k);
      SliceOfSlice(s, a, b, k, k + |sep|);
      assert OccursAt(s, sep, a + k);
    }
  }

  lemma {:induction false} CleanNamesClean(pieces: seq<string>)
    requires forall i :: 0 <= i < |pieces| ==> !Contains(pieces[i], Sep)
    ensures forall i :: 0 <= i < |CleanNames(pieces)| ==> CleanName(CleanNames(pieces)[i])
    decreases |pieces|
  {
    if pieces != [] {
      CleanNamesClean(pieces[1..]);
      var r := Strip(pieces[0]);
      var a := Span(pieces[0], IsSpace, 0);
      ContainsInfix(pieces[0], a, a + |r|, Sep);
    }
  }

  /** Every listed name is clean. */
  lemma AuthorNamesClean(authors: string)
    ensures forall i :: 0 <= i < |AuthorNames(authors)| ==> CleanName(AuthorNames(authors)[i])
  {
    SplitPiecesFree(authors, Sep);
    CleanNamesClean(SplitOn(authors, Sep));
  }

  /** Names fit for a round trip: clean, and none ends in ` and`, which would
      run into the separator after it. */
  predicate Joinable(names: seq<string>) {
    forall i :: 0 <= i < |names| ==> CleanName(names[i]) && !EndsWith(names[i], " and")
  }

  /** In `n + " and " + rest`, the first separator is the one after `n`. */
  lemma FirstSeparator(n: string, rest: string)
    requires CleanName(n) && !EndsWith(n, " and")
    ensures IndexOf(n + Sep + rest, Sep, 0) == Some(|n|)
  {
    var s := n + Sep + rest;
    assert |Sep| == 5 && s[|n|..|n| + 5] == Sep;
    assert OccursAt(s, Sep, |n|);
    forall k | 0 <= k < |n| ensures !OccursAt(s, Sep, k) {
      if k + 5 <= |n| {
        assert s[k..k + 5] == n[k..k + 5];
        assert !OccursAt(n, Sep, k);
      } else if k + 4 > |n| {
        assert s[k..k + 5][|n| - k] == s[|n|] == ' ' != Sep[|n| - k];
      } else {
        assert s[k..k + 5][..4] == n[k..];
        assert n[k..] != " and";
        assert Sep[..4] == " and";
      }
    }
  }

  /** Joining clean names with ` and ` and splitting again gives the names. */
  lemma {:induction false} SplitJoined(names: seq<string>)
    requires |names| > 0 && Joinable(names)
    ensures SplitOn(Join(names, Sep), Sep) == names
    decreases |names|
  {
    var n := names[0];
    if |names| > 1 {
      var rest := names[1..];
      var s := n + Sep + Join(rest, Sep);
      JoinCons(n, rest, Sep);
      assert names == [n] + rest;
      FirstSeparator(n, Join(rest, Sep));
      assert s[..|n|] == n;
      assert s[|n| + |Sep|..] == Join(rest, Sep);
      SplitJoined(rest);
    }
  }

  lemma {:induction false} CleanNamesOfClean(names: seq<string>)
    requires Joinable(names)
    ensures CleanNames(names) == names
    decreases |names|
  {
    if names != [] {
      StripTrimmed(names[0]);
      CleanNamesOfClean(names[1..]);
    }
  }

  /** An author field written from clean names lists exactly those names:
      `A and B and C` becomes `A, B, C`. */
  lemma AuthorsRoundTrip(names: seq<string>)
    requires Joinable(names)
    ensures AuthorNames(Join(names, Sep)) == names
    ensures AuthorsToText(Join(names, Sep)) == Join(names, ", ")
  {
    if names == [] {
      assert SplitOn("", Sep) == [""];
      assert Strip("") == [];
      assert CleanNames([""]) == [];
    } else {
      SplitJoined(names);
      CleanNamesOfClean(names);
    }
  }
}
