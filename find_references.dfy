/** find_references.py: the formatting of a CrossRef reference record, the
    arXiv results loop, and the file name the main paper's PDF is saved
    under. */
module FindReferences {
  import opened Wrappers
  import opened Strings
  import opened Paths
  import opened PyJson
  import opened Layout
  import opened Arxiv

  // ---------- format_reference ----------

  const TitleKeys: seq<string> := ["article-title", "series-title", "volume-title"]

  /** `ref.get("article-title") or ref.get("series-title") or
      ref.get("volume-title") or "N/A"`: the first of the three title fields
      that is present and truthy, otherwise "N/A". */
  function ReferenceTitle(ref: Object): (r: Value)
    ensures TruthyOpt(Get(ref, "article-title")) ==> r == Get(ref, "article-title").value
    ensures (!TruthyOpt(Get(ref, "article-title")) && TruthyOpt(Get(ref, "series-title")))
              ==> r == Get(ref, "series-title").value
    ensures (!TruthyOpt(Get(ref, "article-title")) && !TruthyOpt(Get(ref, "series-title"))
             && TruthyOpt(Get(ref, "volume-title")))
              ==> r == Get(ref, "volume-title").value
    ensures (!TruthyOpt(Get(ref, "article-title")) && !TruthyOpt(Get(ref, "series-title"))
             && !TruthyOpt(Get(ref, "volume-title")))
              ==> r == Str(NotAvailable)
  {
    var vs := [Get(ref, TitleKeys[0]), Get(ref, TitleKeys[1]), Get(ref, TitleKeys[2])];
    var r := FirstTruthy(vs, Str(NotAvailable));
    assert TruthyOpt(vs[0]) ==> r == vs[0].value;
    assert !TruthyOpt(vs[0]) && TruthyOpt(vs[1]) ==> r == vs[1].value;
    assert !TruthyOpt(vs[0]) && !TruthyOpt(vs[1]) && TruthyOpt(vs[2]) ==> r == vs[2].value;
    r
  }

  /** The four lines of a formatted reference, in output order. */
  function ReferenceLines(ref: Object): seq<Line> {
    [ Line("Title", PyStr(ReferenceTitle(ref))),
      Line("Author", Shown(ref, "author", NotAvailable)),
      Line("Year", Shown(ref, "year", NotAvailable)),
      Line("DOI", Shown(ref, "DOI", NotAvailable)) ]
  }

  /** `format_reference(ref)`: the f-string of four newline-terminated
      lines Title, Author, Year, DOI. A record that is not a dict has no
      `.get` and raises AttributeError at the title lookup. */
  function FormatReference(ref: Value): (r: Result<string, PyError>)
    ensures r.Err? <==> !ref.Obj?
    ensures r.Err? ==> r.error == AttributeError
    ensures ref.Obj? ==> r == Ok(RenderLines(ReferenceLines(ref.fields)))
  {
    var fields :- Fields(ref);
    var title := ReferenceTitle(fields);
    var doi := GetOr(fields, "DOI", Str(NotAvailable));
    var author := GetOr(fields, "author", Str(NotAvailable));
    var year := GetOr(fields, "year", Str(NotAvailable));
    var s := "Title: " + PyStr(title) + "\nAuthor: " + PyStr(author) + "\nYear: " + PyStr(year)
             + "\nDOI: " + PyStr(doi) + "\n";
    RenderFourLines(PyStr(title), PyStr(author), PyStr(year), PyStr(doi));
    Ok(s)
  }

  /** The f-string's literal pieces are the four labelled lines. */
  lemma RenderFourLines(title: string, author: string, year: string, doi: string)
    ensures RenderLines([Line("Title", title), Line("Author", author), Line("Year", year), Line("DOI", doi)]) ==
      "Title: " + title + "\nAuthor: " + author + "\nYear: " + year + "\nDOI: " + doi + "\n"
  {
    var ls := [Line("Title", title), Line("Author", author), Line("Year", year), Line("DOI", doi)];
    // The f-string's prefixes up to each newline.
    var a := "Title: " + title;
    var b := a + "\nAuthor: " + author;
    var c := b + "\nYear: " + year;
    var d := c + "\nDOI: " + doi;
    assert a + "\n" == RenderLines(ls[..1]) by {
      assert ls[..0] == [];
      AppendLineStep("", ls, 0, "", "Title: ");
    }
    assert b + "\n" == RenderLines(ls[..2]) by {
      assert b + "\n" == a + "\n" + "Author: " + author + "\n";
      AppendLineStep("", ls, 1, a + "\n", "Author: ");
    }
    assert c + "\n" == RenderLines(ls[..3]) by {
      assert c + "\n" == b + "\n" + "Year: " + year + "\n";
      AppendLineStep("", ls, 2, b + "\n", "Year: ");
    }
    assert d + "\n" == RenderLines(ls) by {
      assert d + "\n" == c + "\n" + "DOI: " + doi + "\n";
      AppendLineStep("", ls, 3, c + "\n", "DOI: ");
      assert ls[..4] == ls;
    }
  }

  /** A field other than the title shows verbatim when it holds a string,
      as "N/A" when it is missing, and as "None" when it holds JSON null. */
  lemma ReferenceFieldValues(ref: Object)
    ensures var ls := ReferenceLines(ref);
      (Get(ref, "author").None? ==> ls[1].value == NotAvailable)
      && (Get(ref, "year").None? ==> ls[2].value == NotAvailable)
      && (Get(ref, "DOI").None? ==> ls[3].value == NotAvailable)
      && (forall s :: Get(ref, "author") == Some(Str(s)) ==> ls[1].value == s)
      && (forall s :: Get(ref, "year") == Some(Str(s)) ==> ls[2].value == s)
      && (forall s :: Get(ref, "DOI") == Some(Str(s)) ==> ls[3].value == s)
      && (forall n :: Get(ref, "year") == Some(Int(n)) ==> ls[2].value == IntToString(n))
      && (Get(ref, "author") == Some(Null) ==> ls[1].value == "None")
  {
    ShownCases(ref, "author", NotAvailable);
    ShownCases(ref, "year", NotAvailable);
    ShownCases(ref, "DOI", NotAvailable);
  }

  /** The title line holds the first truthy title field verbatim when that
      field is a string; an empty string counts as absent and falls through
      to the next field. */
  lemma ReferenceTitleFallsThrough(ref: Object, t: string)
    requires Get(ref, "article-title") == Some(Str(""))
    requires Get(ref, "series-title") == Some(Str(t)) && t != ""
    ensures ReferenceLines(ref)[0].value == t
  {
  }

  /** With no newline inside a field, the formatted reference is exactly four
      lines, in the order Title, Author, Year, DOI, each ended by a newline. */
  lemma ReferenceFourLines(ref: Object)
    requires SingleLineFields(ReferenceLines(ref))
    ensures FormatReference(Obj(ref)).Ok?
    ensures var parts := Split(FormatReference(Obj(ref)).value, "\n");
      |parts| == 5 && parts[4] == ""
      && forall k :: 0 <= k < 4 ==> parts[k] == LineText(ReferenceLines(ref)[k])
  {
    var ls := ReferenceLines(ref);
    assert FormatReference(Obj(ref)) == Ok(RenderLines(ls));
    RenderedParts(ls);
  }

  /** The lines come in the order Title, Author, Year, DOI. */
  lemma ReferenceNames(ref: Object)
    ensures Names(ReferenceLines(ref)) == ["Title", "Author", "Year", "DOI"]
  {
    var ls := ReferenceLines(ref);
    FourNames(ls[0].value, ls[1].value, ls[2].value, ls[3].value);
  }

  lemma FourNames(title: string, author: string, year: string, doi: string)
    ensures Names([Line("Title", title), Line("Author", author), Line("Year", year), Line("DOI", doi)])
            == ["Title", "Author", "Year", "DOI"]
  {
    var ls := [Line("Title", title), Line("Author", author), Line("Year", year), Line("DOI", doi)];
    assert Names(ls) == [ls[0].name, ls[1].name, ls[2].name, ls[3].name];
  }

  // ---------- format_arxiv_results_and_download ----------

  /** `format_arxiv_results_and_download(xml_data, download_pdfs, output_dir)`
      on the entries the feed parser returns: the text of one block per
      entry in feed order, and, when downloads are on, one PDF request per
      entry, saved under the ID with `/` made `_` when answered with status
      200. */
  method FormatArxivResultsAndDownload(entries: seq<Entry>, downloadPdfs: bool, statuses: seq<int>,
                                       outputDir: string)
    returns (output: string, downloads: seq<Download>)
    requires downloadPdfs ==> |statuses| == |entries|
    ensures output == FeedText(entries)
    ensures downloads == (if downloadPdfs then DownloadPlan(entries, statuses, outputDir) else [])
  {
    output, downloads := AppendEntries("", entries, downloadPdfs, statuses, outputDir);
    assert "" + FeedText(entries) == FeedText(entries);
  }

  // ---------- download_main_pdf ----------

  const TitleStemLimit: nat := 50

  /** `title[:50].replace('/', '_')`: at most 50 characters of the title,
      with every `/` made `_`. */
  function MainPdfStem(title: string): (r: string)
    ensures |r| == (if |title| < TitleStemLimit then |title| else TitleStemLimit)
    ensures '/' !in r
    ensures forall k :: 0 <= k < |r| ==> r[k] == (if title[k] == '/' then '_' else title[k])
  {
    ReplaceChar(Truncate(title, TitleStemLimit), '/', '_')
  }

  /** `os.path.join(output_dir, f"{title[:50].replace('/', '_')}.pdf")`: the
      stem is never absolute, so the file sits directly in the directory. */
  function MainPdfPath(outputDir: string, title: string): (r: string)
    ensures EndsWith(r, MainPdfStem(title) + ".pdf")
    ensures outputDir != "" ==>
              (|r| >= |outputDir| + |MainPdfStem(title)| + 4 && r[..|outputDir|] == outputDir
               && r[|r| - |MainPdfStem(title)| - 5] == '/')
    ensures outputDir == "" ==> r == MainPdfStem(title) + ".pdf"
    ensures outputDir != "" && outputDir[|outputDir| - 1] == '/' ==> r == outputDir + MainPdfStem(title) + ".pdf"
    ensures outputDir != "" && outputDir[|outputDir| - 1] != '/' ==> r == outputDir + "/" + MainPdfStem(title) + ".pdf"
  {
    var name := MainPdfStem(title) + ".pdf";
    assert |name| > 0 && name[0] != '/' by {
      if |MainPdfStem(title)| > 0 {
        assert name[0] == MainPdfStem(title)[0];
      }
    }
    PathJoin(outputDir, name)
  }
}
