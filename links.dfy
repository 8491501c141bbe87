/** The link guesser of `scripts/bib2yml.py` (`guess_links`): a PDF link, a
    DOI link and a code link read from an entry's fields, each empty when
    the entry does not give one. */
module LinkGuess {
  import opened Text

  datatype Links = Links(pdf: string, doi: string, code: string)

  /** `name in fields and fields[name]`: the field is present and non-empty. */
  predicate Has(fields: map<string, string>, name: string) {
    name in fields && fields[name] != ""
  }

  const DoiPrefix: string := "https://doi.org/"

  /** `guess_links(fields)`: the checks run in the order of the source, so a
      `pdf` field overrides a PDF found through `url`; the `file` check has
      no effect. */
  function GuessLinks(fields: map<string, string>): (r: Links)
    ensures r.doi == "" <==> !Has(fields, "doi")
    ensures r.doi != "" ==> StartsWith(r.doi, "http")
    ensures Has(fields, "doi") && StartsWith(fields["doi"], "http") ==> r.doi == fields["doi"]
    ensures Has(fields, "pdf") ==> r.pdf == fields["pdf"]
    ensures !Has(fields, "pdf") && r.pdf != "" ==>
      Has(fields, "url") && r.pdf == fields["url"] && EndsWith(Lower(r.pdf), ".pdf")
    ensures !Has(fields, "pdf") && Has(fields, "url") && EndsWith(Lower(fields["url"]), ".pdf") ==>
      r.pdf == fields["url"]
    ensures r.code == (if Has(fields, "code") then fields["code"] else "")
  {
    var doi :=
      if Has(fields, "doi") then
        var d := fields["doi"];
        if StartsWith(d, "http") then d
        else
          assert (DoiPrefix + d)[..4] == "http";
          DoiPrefix + d
      else "";
    var fromUrl := if Has(fields, "url") && EndsWith(Lower(fields["url"]), ".pdf") then fields["url"] else "";
    var pdf := if Has(fields, "pdf") then fields["pdf"] else fromUrl;
    var code := if Has(fields, "code") then fields["code"] else "";
    Links(pdf, doi, code)
  }

  /** A bare DOI becomes a link under `https://doi.org/`. */
  lemma BareDoi(fields: map<string, string>)
    requires Has(fields, "doi") && !StartsWith(fields["doi"], "http")
    ensures GuessLinks(fields).doi == DoiPrefix + fields["doi"]
  {
  }

  /** Only the `doi`, `url`, `pdf` and `code` fields matter: in particular the
      Zotero `file` field never yields a link. */
  lemma OnlyLinkFields(f: map<string, string>, g: map<string, string>)
    requires forall name :: name in {"doi", "url", "pdf", "code"} ==>
      ((name in f) == (name in g)) && (name in f ==> f[name] == g[name])
    ensures GuessLinks(f) == GuessLinks(g)
  {
    assert Has(f, "doi") == Has(g, "doi");
    assert Has(f, "url") == Has(g, "url");
    assert Has(f, "pdf") == Has(g, "pdf");
    assert Has(f, "code") == Has(g, "code");
  }

  lemma FileIgnored(fields: map<string, string>, v: string)
    ensures GuessLinks(fields["file" := v]) == GuessLinks(fields)
  {
    OnlyLinkFields(fields["file" := v], fields);
  }

  /** Feeding a guessed DOI link back in keeps it: the prefix is not added twice. */
  lemma DoiLinkStable(fields: map<string, string>)
    ensures GuessLinks(fields["doi" := GuessLinks(fields).doi]).doi == GuessLinks(fields).doi
  {
  }
}
