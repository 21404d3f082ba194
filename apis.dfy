/** apis.py: the CrossRef work formatter and the arXiv results loop with its
    feed-title header. */
module Apis {
  import opened Wrappers
  import opened Strings
  import opened PyJson
  import opened Layout
  import opened Arxiv

  // ---------- format_arxiv_results_and_download ----------

  /** `f"ArXiv Search Results: {feed.feed.get('title', '')}\n"`. */
  function Header(feedTitle: Option<string>): string {
    "ArXiv Search Results: " + feedTitle.GetOr("") + "\n"
  }

  /** `format_arxiv_results_and_download(xml_data, download_pdfs, output_dir)`
      on the feed title and the entries the feed parser returns: the header,
      then one block per entry in feed order, and, when downloads are on,
      one PDF request per entry, saved when answered with status 200. */
  method FormatArxivResultsAndDownload(feedTitle: Option<string>, entries: seq<Entry>,
                                       downloadPdfs: bool, statuses: seq<int>, outputDir: string)
    returns (output: string, downloads: seq<Download>)
    requires downloadPdfs ==> |statuses| == |entries|
    ensures output == Header(feedTitle) + FeedText(entries)
    ensures downloads == (if downloadPdfs then DownloadPlan(entries, statuses, outputDir) else [])
  {
    output, downloads := AppendEntries(Header(feedTitle), entries, downloadPdfs, statuses, outputDir);
  }

  /** For a feed title without a newline, the output's first line is the
      header text: `ArXiv Search Results: ` and the title, or nothing. */
  lemma ArxivOutputShape(feedTitle: Option<string>, entries: seq<Entry>)
    requires feedTitle.Some? ==> '\n' !in feedTitle.value
    ensures Split(Header(feedTitle) + FeedText(entries), "\n")[0] ==
              "ArXiv Search Results: " + (if feedTitle.Some? then feedTitle.value else "")
  {
    var title := if feedTitle.Some? then feedTitle.value else "";
    var first := "ArXiv Search Results: " + title;
    var f := FeedText(entries);
    assert '\n' !in first by {
      HeaderLineFree(title);
    }
    assert Header(feedTitle) + f == first + ['\n'] + f;
    SplitAtFirst(first, f, '\n');
  }

  /** Whatever the feed title, an empty feed gives the header alone, and
      with at least one entry the output ends with the dash rule. */
  lemma ArxivOutputEnds(feedTitle: Option<string>, entries: seq<Entry>)
    ensures |entries| == 0 ==> Header(feedTitle) + FeedText(entries) == Header(feedTitle)
    ensures |entries| > 0 ==> EndsWith(Header(feedTitle) + FeedText(entries), Rule())
  {
    if |entries| > 0 {
      FeedTextEndsWithRule(entries);
      EndsWithPrepend(Header(feedTitle), FeedText(entries), Rule());
    } else {
      assert Header(feedTitle) + FeedText(entries) == Header(feedTitle) + "";
    }
  }

  lemma HeaderLineFree(title: string)
    requires '\n' !in title
    ensures '\n' !in "ArXiv Search Results: " + title
  {
    var first := "ArXiv Search Results: " + title;
    forall k | 0 <= k < |first|
      ensures first[k] != '\n'
    {
      if k >= 22 {
        assert first[k] == title[k - 22];
      }
    }
  }

  // ---------- format_crossref_results ----------

  /** `data.get("message", {})`: only a dict has `.get`. */
  function Message(data: Value): Result<Value, PyError> {
    if data.Obj? then Ok(GetOr(data.fields, "message", Obj([]))) else Err(AttributeError)
  }

  /** `msg.get(key, ['N/A'])[0]`, interpolated. */
  function FirstItem(msg: Object, key: string): Result<string, PyError> {
    var first :- Subscript0(GetOr(msg, key, Arr([Str(NotAvailable)])));
    Ok(PyStr(first))
  }

  /** The generator `str(x) for x in parts`, walked in order. */
  function PyStrs(xs: seq<Value>): (r: seq<string>)
    ensures |r| == |xs| && forall k :: 0 <= k < |xs| ==> r[k] == PyStr(xs[k])
    decreases |xs|
  {
    if |xs| == 0 then []
    else
      var rest := PyStrs(xs[1..]);
      assert forall k :: 1 <= k < |xs| ==> rest[k - 1] == PyStr(xs[k]);
      [PyStr(xs[0])] + rest
  }

  /** `'-'.join(str(x) for x in msg.get("issued", {}).get("date-parts", [["N/A"]])[0])`. */
  function Published(msg: Object): Result<string, PyError> {
    var issued :- Fields(GetOr(msg, "issued", Obj([])));
    var first :- Subscript0(GetOr(issued, "date-parts", Arr([Arr([Str(NotAvailable)])])));
    var parts :- Iterate(first);
    Ok(Join(PyStrs(parts), "-"))
  }

  /** `f"{a.get('given','')} {a.get('family','')}"`. */
  function AuthorName(a: Object): string {
    PyStr(GetOr(a, "given", Str(""))) + " " + PyStr(GetOr(a, "family", Str("")))
  }

  /** The generator inside `", ".join(...)`, walked in order: each author's
      name, with AttributeError raised at the first author that is not a
      dict. */
  function AuthorNames(items: seq<Value>): (r: Result<seq<string>, PyError>)
    ensures r.Ok? <==> forall k :: 0 <= k < |items| ==> items[k].Obj?
    ensures r.Ok? ==> |r.value| == |items|
                      && forall k :: 0 <= k < |items| ==> r.value[k] == AuthorName(items[k].fields)
    ensures r.Err? ==> r.error == AttributeError
    decreases |items|
  {
    if |items| == 0 then Ok([])
    else if !items[0].Obj? then Err(AttributeError)
    else
      var rest := AuthorNames(items[1..]);
      assert rest.Ok? <==> forall k :: 1 <= k < |items| ==> items[k].Obj? by {
        assert forall k :: 1 <= k < |items| ==> items[k] == items[1..][k - 1];
      }
      match rest
      case Err(e) => Err(e)
      case Ok(names) =>
        assert forall k :: 1 <= k < |items| ==> names[k - 1] == AuthorName(items[k].fields);
        Ok([AuthorName(items[0].fields)] + names)
  }

  /** The Authors line: the names joined by `, ` when `msg.get('author', [])`
      is truthy, otherwise "N/A". */
  function Authors(msg: Object): Result<string, PyError> {
    var authors := GetOr(msg, "author", Arr([]));
    if Truthy(authors) then
      var items :- Iterate(authors);
      var names :- AuthorNames(items);
      Ok(Join(names, ", "))
    else Ok(NotAvailable)
  }

  /** The eight lines of a formatted work, in output order. */
  function WorkLines(title: string, journal: string, published: string, doi: string,
                     publisher: string, count: string, url: string, authors: string): seq<Line> {
    [ Line("Title", title), Line("Journal", journal), Line("Published", published),
      Line("DOI", doi), Line("Publisher", publisher), Line("Citation Count", count),
      Line("URL", url), Line("Authors", authors) ]
  }

  /** Each of the eight lines holds the value it was given. */
  lemma WorkLinesValues(title: string, journal: string, published: string, doi: string,
                        publisher: string, count: string, url: string, authors: string)
    ensures var ls := WorkLines(title, journal, published, doi, publisher, count, url, authors);
      |ls| == 8 && ls[0].value == title && ls[1].value == journal && ls[2].value == published
      && ls[3].value == doi && ls[4].value == publisher && ls[5].value == count
      && ls[6].value == url && ls[7].value == authors
  {
  }

  /** The four lookups that can raise, in the order the formatter runs them:
      Title, Journal, Published, Authors. The other four lines read a key of
      a dict with a default and cannot raise. */
  function Lookups(msg: Object): Result<(string, string, string, string), PyError> {
    var title :- FirstItem(msg, "title");
    var journal :- FirstItem(msg, "container-title");
    var published :- Published(msg);
    var authors :- Authors(msg);
    Ok((title, journal, published, authors))
  }

  /** The eight lines for the `message` record `msg`, or the exception
      raised first. */
  function MessageLines(msg: Object): Result<seq<Line>, PyError> {
    var d :- Lookups(msg);
    Ok(WorkLines(d.0, d.1, d.2, Shown(msg, "DOI", ""), Shown(msg, "publisher", NotAvailable),
                 Shown(msg, "is-referenced-by-count", NotAvailable), Shown(msg, "URL", ""), d.3))
  }

  /** What `format_crossref_results(data)` prints, line by line, or the
      exception it raises first. */
  function CrossrefLines(data: Value): Result<seq<Line>, PyError> {
    var message :- Message(data);
    var msg :- Fields(message);
    MessageLines(msg)
  }

  /** The lines succeed exactly when every step does, and then each line
      holds its step's value; otherwise the first step that fails, in the
      order Title, Journal, Published, Authors, decides the exception. */
  lemma MessageLinesSteps(msg: Object)
    ensures MessageLines(msg).Ok? <==>
              FirstItem(msg, "title").Ok? && FirstItem(msg, "container-title").Ok?
              && Published(msg).Ok? && Authors(msg).Ok?
    ensures MessageLines(msg).Ok? ==>
              MessageLines(msg).value ==
                WorkLines(FirstItem(msg, "title").value, FirstItem(msg, "container-title").value,
                          Published(msg).value, Shown(msg, "DOI", ""), Shown(msg, "publisher", NotAvailable),
                          Shown(msg, "is-referenced-by-count", NotAvailable), Shown(msg, "URL", ""),
                          Authors(msg).value)
    ensures MessageLines(msg).Err? ==>
              MessageLines(msg).error ==
                (if FirstItem(msg, "title").Err? then FirstItem(msg, "title").error
                 else if FirstItem(msg, "container-title").Err? then FirstItem(msg, "container-title").error
                 else if Published(msg).Err? then Published(msg).error
                 else Authors(msg).error)
  {
    var title, journal := FirstItem(msg, "title"), FirstItem(msg, "container-title");
    var published, authors := Published(msg), Authors(msg);
    if title.Ok? && journal.Ok? && published.Ok? && authors.Ok? {
      assert Lookups(msg) == Ok((title.value, journal.value, published.value, authors.value));
    } else {
      assert Lookups(msg).Err?;
    }
  }

  /** Rendering the eight lines gives the text the successive appends build. */
  lemma WorkLinesRendered(title: string, journal: string, published: string, doi: string,
                          publisher: string, count: string, url: string, authors: string)
    ensures RenderLines(WorkLines(title, journal, published, doi, publisher, count, url, authors)) ==
      "Title: " + title + "\n" + "Journal: " + journal + "\n" + "Published: " + published + "\n"
      + "DOI: " + doi + "\n" + "Publisher: " + publisher + "\n" + "Citation Count: " + count + "\n"
      + "URL: " + url + "\n" + "Authors: " + authors + "\n"
  {
    var ls := WorkLines(title, journal, published, doi, publisher, count, url, authors);
    assert ls[..0] == [];
    var o0 := "";
    AppendLineStep("", ls, 0, o0, "Title: ");
    var o1 := o0 + "Title: " + title + "\n";
    AppendLineStep("", ls, 1, o1, "Journal: ");
    var o2 := o1 + "Journal: " + journal + "\n";
    AppendLineStep("", ls, 2, o2, "Published: ");
    var o3 := o2 + "Published: " + published + "\n";
    AppendLineStep("", ls, 3, o3, "DOI: ");
    var o4 := o3 + "DOI: " + doi + "\n";
    AppendLineStep("", ls, 4, o4, "Publisher: ");
    var o5 := o4 + "Publisher: " + publisher + "\n";
    AppendLineStep("", ls, 5, o5, "Citation Count: ");
    var o6 := o5 + "Citation Count: " + count + "\n";
    AppendLineStep("", ls, 6, o6, "URL: ");
    var o7 := o6 + "URL: " + url + "\n";
    AppendLineStep("", ls, 7, o7, "Authors: ");
    assert ls[..8] == ls;
    assert "Title: " + title == o0 + "Title: " + title;
  }

  /** The text `format_crossref_results(data)` returns: the eight lines
      rendered, or the exception raised first. */
  function CrossrefText(data: Value): Result<string, PyError> {
    match CrossrefLines(data)
    case Ok(ls) => Ok(RenderLines(ls))
    case Err(e) => Err(e)
  }

  /** `format_crossref_results(data)`: `data.get("message", {})`, then the
      eight lines of that record, or the exception raised on the way. */
  method FormatCrossrefResults(data: Value) returns (r: Result<string, PyError>)
    ensures r == CrossrefText(data)
  {
    var message :- Message(data);
    var msg :- Fields(message);
    assert CrossrefLines(data) == MessageLines(msg);
    r := FormatMessage(msg);
  }

  /** The body of `format_crossref_results` once `message` is a dict: the
      eight lines appended one by one, or the exception the first failing
      step raises. */
  method FormatMessage(msg: Object) returns (r: Result<string, PyError>)
    ensures r.Ok? <==> MessageLines(msg).Ok?
    ensures r.Ok? ==> r.value == RenderLines(MessageLines(msg).value)
    ensures r.Err? ==> r.error == MessageLines(msg).error
  {
    MessageLinesSteps(msg);
    var title :- FirstItem(msg, "title");
    var output := "Title: " + title + "\n";
    var journal :- FirstItem(msg, "container-title");
    output := output + "Journal: " + journal + "\n";
    var issued :- Published(msg);
    output := output + "Published: " + issued + "\n";
    output := output + "DOI: " + Shown(msg, "DOI", "") + "\n";
    output := output + "Publisher: " + Shown(msg, "publisher", NotAvailable) + "\n";
    output := output + "Citation Count: " + Shown(msg, "is-referenced-by-count", NotAvailable) + "\n";
    output := output + "URL: " + Shown(msg, "URL", "") + "\n";
    ghost var before := output;
    var authors := GetOr(msg, "author", Arr([]));
    if Truthy(authors) {
      var items :- Iterate(authors);
      var names :- AuthorNames(items);
      output := output + "Authors: " + Join(names, ", ") + "\n";
    } else {
      output := output + "Authors: N/A\n";
      assert output == before + "Authors: " + NotAvailable + "\n";
    }
    WorkLinesRendered(title, journal, issued, Shown(msg, "DOI", ""), Shown(msg, "publisher", NotAvailable),
                      Shown(msg, "is-referenced-by-count", NotAvailable), Shown(msg, "URL", ""),
                      Authors(msg).value);
    r := Ok(output);
  }

  // ---------- properties of the CrossRef formatter ----------

  /** Only a dict has `.get`: a decoded response that is not an object, or a
      `message` that is not one, raises AttributeError before any line. */
  lemma CrossrefNotObject(data: Value)
    ensures !data.Obj? ==> CrossrefText(data) == Err(AttributeError)
    ensures (data.Obj? && Get(data.fields, "message").Some? && !Get(data.fields, "message").value.Obj?)
              ==> CrossrefText(data) == Err(AttributeError)
  {
  }

  /** The lines of a response are those of its `message`, and a missing
      `message` is read as the empty record. */
  lemma CrossrefOfMessage(data: Value, msg: Object)
    requires data.Obj?
    requires Get(data.fields, "message") == Some(Obj(msg)) || (Get(data.fields, "message").None? && msg == [])
    ensures CrossrefLines(data) == MessageLines(msg)
  {
  }

  /** In the empty record every line takes its default: "N/A", except DOI
      and URL, which are empty. */
  lemma EmptyMessageDefaults()
    ensures MessageLines([]) ==
              Ok(WorkLines(NotAvailable, NotAvailable, NotAvailable, "", NotAvailable, NotAvailable, "",
                           NotAvailable))
  {
    FirstItemCases([], "title");
    FirstItemCases([], "container-title");
    PublishedCases([]);
    AuthorsCases([]);
    ShownCases([], "DOI", "");
    ShownCases([], "publisher", NotAvailable);
    ShownCases([], "is-referenced-by-count", NotAvailable);
    ShownCases([], "URL", "");
    MessageLinesSteps([]);
  }

  /** `msg.get(key, ['N/A'])[0]`: "N/A" when the key is missing; the first
      element of a non-empty list; the first character of a non-empty
      string; IndexError on an empty list or string, KeyError on a dict and
      TypeError on anything else. */
  lemma FirstItemCases(msg: Object, key: string)
    ensures Get(msg, key).None? ==> FirstItem(msg, key) == Ok(NotAvailable)
    ensures Get(msg, key).Some? ==>
      var v := Get(msg, key).value;
      (v.Arr? && |v.items| > 0 ==> FirstItem(msg, key) == Ok(PyStr(v.items[0])))
      && (v.Str? && |v.s| > 0 ==> FirstItem(msg, key) == Ok([v.s[0]]))
      && ((v.Arr? || v.Str?) && !Truthy(v) ==> FirstItem(msg, key) == Err(IndexError))
      && (v.Obj? ==> FirstItem(msg, key) == Err(KeyError))
      && ((v.Null? || v.Bool? || v.Int?) ==> FirstItem(msg, key) == Err(TypeError))
  {
  }

  /** The first failing step decides the exception: a Title lookup that
      raises (an empty `title` list, say) is what the formatter raises, and
      a Journal lookup that raises is raised when the Title line succeeds.
      On success the two lines hold the two lookups. */
  lemma TitleJournalErrors(msg: Object)
    ensures FirstItem(msg, "title").Err? ==> MessageLines(msg) == Err(FirstItem(msg, "title").error)
    ensures (FirstItem(msg, "title").Ok? && FirstItem(msg, "container-title").Err?)
              ==> MessageLines(msg) == Err(FirstItem(msg, "container-title").error)
  {
    MessageLinesSteps(msg);
  }

  /** On success the Title and Journal lines hold the first items of the
      two lists. */
  lemma TitleJournalLines(msg: Object, ls: seq<Line>)
    requires MessageLines(msg) == Ok(ls)
    ensures |ls| == 8 && FirstItem(msg, "title").Ok? && FirstItem(msg, "container-title").Ok?
    ensures ls[0].value == FirstItem(msg, "title").value
    ensures ls[1].value == FirstItem(msg, "container-title").value
  {
    var d := Lookups(msg).value;
    var doi, url := Shown(msg, "DOI", ""), Shown(msg, "URL", "");
    var publisher, count := Shown(msg, "publisher", NotAvailable), Shown(msg, "is-referenced-by-count", NotAvailable);
    assert ls == WorkLines(d.0, d.1, d.2, doi, publisher, count, url, d.3);
    WorkLinesValues(d.0, d.1, d.2, doi, publisher, count, url, d.3);
  }

  /** The Published line: "N/A" when `issued` or its `date-parts` is
      missing; the first date-parts list rendered with `str` and joined by
      `-`; AttributeError when `issued` is not a dict, IndexError when
      `date-parts` is an empty list. */
  lemma PublishedCases(msg: Object)
    ensures Get(msg, "issued").None? ==> Published(msg) == Ok(NotAvailable)
    ensures Get(msg, "issued").Some? && !Get(msg, "issued").value.Obj? ==> Published(msg) == Err(AttributeError)
    ensures Get(msg, "issued").Some? && Get(msg, "issued").value.Obj? ==>
      var issued := Get(msg, "issued").value.fields;
      (Get(issued, "date-parts").None? ==> Published(msg) == Ok(NotAvailable))
      && (Get(issued, "date-parts") == Some(Arr([])) ==> Published(msg) == Err(IndexError))
      && (forall parts: seq<Value>, rest: seq<Value> ::
            Get(issued, "date-parts") == Some(Arr([Arr(parts)] + rest))
            ==> Published(msg) == Ok(Join(PyStrs(parts), "-")))
  {
    if Get(msg, "issued").Some? && Get(msg, "issued").value.Obj? {
      var issued := Get(msg, "issued").value.fields;
      forall parts: seq<Value>, rest: seq<Value> | Get(issued, "date-parts") == Some(Arr([Arr(parts)] + rest))
        ensures Published(msg) == Ok(Join(PyStrs(parts), "-"))
      {
        assert ([Arr(parts)] + rest)[0] == Arr(parts);
      }
    }
  }

  /** A date of non-negative integer parts, such as `[[2019, 10, 23]]`, gives
      a Published value that splits on `-` back into the decimal numerals of
      its parts, in order. */
  lemma PublishedDateRoundTrip(msg: Object, issued: Object, parts: seq<Value>, rest: seq<Value>)
    requires Get(msg, "issued") == Some(Obj(issued))
    requires Get(issued, "date-parts") == Some(Arr([Arr(parts)] + rest))
    requires |parts| > 0 && forall k :: 0 <= k < |parts| ==> parts[k].Int? && parts[k].i >= 0
    ensures Published(msg).Ok?
    ensures var pieces := Split(Published(msg).value, "-");
      |pieces| == |parts|
      && forall k :: 0 <= k < |parts| ==>
           (forall c :: 0 <= c < |pieces[k]| ==> IsDigit(pieces[k][c]))
           && ParseDigits(pieces[k]) == parts[k].i
  {
    PublishedCases(msg);
    var strs := PyStrs(parts);
    forall k | 0 <= k < |strs|
      ensures '-' !in strs[k]
      ensures forall c :: 0 <= c < |strs[k]| ==> IsDigit(strs[k][c])
      ensures ParseDigits(strs[k]) == parts[k].i
    {
      assert strs[k] == NatToString(parts[k].i);
      IntStrRoundTrip(parts[k].i);
    }
    JoinSplit(strs, '-');
  }

  /** The date `[[2019, 10, 23]]` is printed as `2019-10-23`. */
  lemma PublishedExample(msg: Object)
    requires Get(msg, "issued") == Some(Obj([("date-parts", Arr([Arr([Int(2019), Int(10), Int(23)])]))]))
    ensures Published(msg) == Ok("2019-10-23")
  {
    var parts := [Int(2019), Int(10), Int(23)];
    var issued := [("date-parts", Arr([Arr(parts)]))];
    assert Get(issued, "date-parts") == Some(Arr([Arr(parts)] + [])) by {
      assert [Arr(parts)] + [] == [Arr(parts)];
    }
    PublishedCases(msg);
    assert Published(msg) == Ok(Join(PyStrs(parts), "-"));
    ExampleDateText();
  }

  lemma ExampleDateText()
    ensures Join(PyStrs([Int(2019), Int(10), Int(23)]), "-") == "2019-10-23"
  {
    var strs := PyStrs([Int(2019), Int(10), Int(23)]);
    assert strs == ["2019", "10", "23"] by {
      assert NatToString(2019) == "2019";
      assert NatToString(10) == "10";
      assert NatToString(23) == "23";
    }
    assert strs[1..] == ["10", "23"];
    assert strs[1..][1..] == ["23"];
  }

  /** DOI and URL default to the empty text; a string value is shown
      verbatim. */
  lemma LinkLines(msg: Object, ls: seq<Line>)
    requires MessageLines(msg) == Ok(ls)
    ensures |ls| == 8
    ensures Get(msg, "DOI").None? ==> ls[3].value == ""
    ensures Get(msg, "URL").None? ==> ls[6].value == ""
    ensures forall s :: Get(msg, "DOI") == Some(Str(s)) ==> ls[3].value == s
    ensures forall s :: Get(msg, "URL") == Some(Str(s)) ==> ls[6].value == s
  {
    var doi, url := Shown(msg, "DOI", ""), Shown(msg, "URL", "");
    assert |ls| == 8 && ls[3].value == doi && ls[6].value == url by {
      var d := Lookups(msg).value;
      var publisher, count := Shown(msg, "publisher", NotAvailable), Shown(msg, "is-referenced-by-count", NotAvailable);
      assert ls == WorkLines(d.0, d.1, d.2, doi, publisher, count, url, d.3);
      WorkLinesValues(d.0, d.1, d.2, doi, publisher, count, url, d.3);
    }
    ShownCases(msg, "DOI", "");
    ShownCases(msg, "URL", "");
  }

  /** Publisher and Citation Count default to "N/A"; a string value is
      shown verbatim and an integer count in decimal. */
  lemma PublisherLines(msg: Object, ls: seq<Line>)
    requires MessageLines(msg) == Ok(ls)
    ensures |ls| == 8
    ensures Get(msg, "publisher").None? ==> ls[4].value == NotAvailable
    ensures Get(msg, "is-referenced-by-count").None? ==> ls[5].value == NotAvailable
    ensures forall s :: Get(msg, "publisher") == Some(Str(s)) ==> ls[4].value == s
    ensures forall n :: Get(msg, "is-referenced-by-count") == Some(Int(n)) ==> ls[5].value == IntToString(n)
  {
    var publisher := Shown(msg, "publisher", NotAvailable);
    var count := Shown(msg, "is-referenced-by-count", NotAvailable);
    assert |ls| == 8 && ls[4].value == publisher && ls[5].value == count by {
      var d := Lookups(msg).value;
      var doi, url := Shown(msg, "DOI", ""), Shown(msg, "URL", "");
      assert ls == WorkLines(d.0, d.1, d.2, doi, publisher, count, url, d.3);
      WorkLinesValues(d.0, d.1, d.2, doi, publisher, count, url, d.3);
    }
    ShownCases(msg, "publisher", NotAvailable);
    ShownCases(msg, "is-referenced-by-count", NotAvailable);
  }

  /** The Authors line: "N/A" when `author` is missing or falsy; for a
      non-empty list of dicts, each author's `given family` joined by `, `
      in list order; AttributeError when an author is not a dict, and
      TypeError when `author` is a truthy value that cannot be iterated. */
  lemma AuthorsCases(msg: Object)
    ensures !Truthy(GetOr(msg, "author", Arr([]))) ==> Authors(msg) == Ok(NotAvailable)
    ensures forall items: seq<Value> :: (Get(msg, "author") == Some(Arr(items)) && |items| > 0) ==>
              (Authors(msg).Ok? <==> forall k :: 0 <= k < |items| ==> items[k].Obj?)
              && (Authors(msg).Err? ==> Authors(msg).error == AttributeError)
              && (Authors(msg).Ok? ==> Authors(msg).value == Join(AuthorNames(items).value, ", "))
    ensures var a := GetOr(msg, "author", Arr([]));
              (Truthy(a) && (a.Int? || a.Bool?)) ==> Authors(msg) == Err(TypeError)
  {
  }

  /** One author is `given family` with a space between; a missing part is
      the empty text. */
  lemma AuthorNameParts(a: Object, given: string, family: string)
    ensures (Get(a, "given") == Some(Str(given)) && Get(a, "family") == Some(Str(family)))
              ==> AuthorName(a) == given + " " + family
    ensures Get(a, "given").None? && Get(a, "family") == Some(Str(family)) ==> AuthorName(a) == " " + family
    ensures Get(a, "given") == Some(Str(given)) && Get(a, "family").None? ==> AuthorName(a) == given + " "
    ensures Get(a, "given").None? && Get(a, "family").None? ==> AuthorName(a) == " "
  {
  }

  /** When the formatter succeeds and no value holds a newline, its text is
      exactly its eight lines, each ended by a newline (their order is
      `WorkLinesNames`). */
  lemma CrossrefEightLines(data: Value)
    requires CrossrefLines(data).Ok? && SingleLineFields(CrossrefLines(data).value)
    ensures CrossrefText(data).Ok? && |CrossrefLines(data).value| == 8
    ensures var ls := CrossrefLines(data).value;
      var parts := Split(CrossrefText(data).value, "\n");
      |parts| == |ls| + 1 && parts[|ls|] == ""
      && (forall k :: 0 <= k < |ls| ==> parts[k] == LineText(ls[k]))
  {
    var ls := CrossrefLines(data).value;
    assert |ls| == 8 by {
      var msg := Fields(Message(data).value).value;
      assert CrossrefLines(data) == MessageLines(msg);
      MessageLinesSteps(msg);
    }
    assert CrossrefText(data) == Ok(RenderLines(ls));
    RenderedParts(ls);
  }

  /** The eight lines come in the order Title, Journal, Published, DOI,
      Publisher, Citation Count, URL, Authors. */
  lemma WorkLinesNames(title: string, journal: string, published: string, doi: string,
                       publisher: string, count: string, url: string, authors: string)
    ensures Names(WorkLines(title, journal, published, doi, publisher, count, url, authors)) ==
              ["Title", "Journal", "Published", "DOI", "Publisher", "Citation Count", "URL", "Authors"]
  {
    var ls := WorkLines(title, journal, published, doi, publisher, count, url, authors);
    assert Names(ls) == [ls[0].name, ls[1].name, ls[2].name, ls[3].name, ls[4].name, ls[5].name,
                         ls[6].name, ls[7].name];
  }
}
