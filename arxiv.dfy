/** What `format_arxiv_results_and_download` does with one feed entry, in
    both copies of that function (find_references.py and apis.py): the arXiv
    ID taken from the entry's id, the PDF URL, the text block with the
    summary cut to 300 characters and an 80-dash rule, and the file a PDF
    download is saved to. */
module Arxiv {
  import opened Strings
  import opened Layout
  import opened Paths
  import opened Wrappers

  /** One feed entry as the feed parser hands it over. */
  datatype Entry = Entry(
    id: string,
    title: string,
    authors: seq<string>,
    published: string,
    link: string,
    summary: string)

  /** A PDF request the loop issues when downloading is on: the URL fetched
      and, when the response status is 200, the path the body is written
      to. */
  datatype Download = Download(url: string, saved: Option<string>)

  const StatusOk: int := 200

  const AbsMarker: string := "/abs/"
  const PdfPrefix: string := "https://arxiv.org/pdf/"
  const SummaryLimit: nat := 300
  const RuleWidth: nat := 80

  /** `entry.id.split('/abs/')[-1]`. */
  function ArxivId(entryId: string): string {
    Last(Split(entryId, AbsMarker))
  }

  /** The arXiv ID is a suffix of the entry id holding no `/abs/`: the whole
      id when `/abs/` does not occur in it, otherwise the text that follows
      an occurrence of `/abs/` at the end of the id. */
  lemma ArxivIdSpec(entryId: string)
    ensures EndsWith(entryId, ArxivId(entryId))
    ensures forall j: nat :: !OccursAt(ArxivId(entryId), AbsMarker, j)
    ensures (forall j: nat :: !OccursAt(entryId, AbsMarker, j)) ==> ArxivId(entryId) == entryId
    ensures (exists j: nat :: OccursAt(entryId, AbsMarker, j)) ==> EndsWith(entryId, AbsMarker + ArxivId(entryId))
  {
    var pieces := Split(entryId, AbsMarker);
    var id := Last(pieces);
    SplitLastSuffix(entryId, AbsMarker);
    SplitPiecesFree(entryId, AbsMarker);
    if FindFirst(entryId, AbsMarker).Some? {
      var t := AbsMarker + id;
      assert entryId[|entryId| - |t|..] == t;
      assert entryId[|entryId| - |id|..] == t[|AbsMarker|..];
    }
  }

  /** For an id `prefix + "/abs/" + tail` whose prefix holds no `b` (as
      `http://arxiv.org` does not) and whose tail holds no `/abs/`, the ID
      is the tail. */
  lemma ArxivIdAfterAbs(prefix: string, tail: string)
    requires 'b' !in prefix
    requires forall j: nat :: !OccursAt(tail, AbsMarker, j)
    ensures ArxivId(prefix + AbsMarker + tail) == tail
  {
    var s := prefix + AbsMarker + tail;
    assert OccursAt(s, AbsMarker, |prefix|);
    forall j: nat | j < |prefix|
      ensures !OccursAt(s, AbsMarker, j)
    {
      if j + 2 < |prefix| {
        assert s[j + 2] == prefix[j + 2];
      } else {
        assert s[j + 2] == AbsMarker[j + 2 - |prefix|];
      }
      assert s[j + 2] != 'b';
    }
    assert FindFirst(s, AbsMarker) == Some(|prefix|);
    assert s[..|prefix|] == prefix && s[|prefix| + 5..] == tail;
    assert FindFirst(tail, AbsMarker) == None;
    assert Split(s, AbsMarker) == [prefix] + Split(tail, AbsMarker);
    assert Split(tail, AbsMarker) == [tail];
  }

  /** A feed id as arXiv writes it. */
  lemma ArxivIdOfAbsUrl()
    ensures ArxivId("http://arxiv.org/abs/2101.00001v1") == "2101.00001v1"
  {
    var prefix, tail := "http://arxiv.org", "2101.00001v1";
    assert '/' !in tail && 'b' !in prefix;
    NoSlashNoMarker(tail);
    ArxivIdAfterAbs(prefix, tail);
    assert prefix + AbsMarker + tail == "http://arxiv.org/abs/2101.00001v1";
  }

  /** Text without a `/` holds no `/abs/`. */
  lemma NoSlashNoMarker(t: string)
    requires '/' !in t
    ensures forall j: nat :: !OccursAt(t, AbsMarker, j)
  {
    forall j: nat
      ensures !OccursAt(t, AbsMarker, j)
    {
      if j + 5 <= |t| {
        assert t[j..j + 5][0] == t[j];
        assert t[j] in t;
      }
    }
  }

  /** Python's split does not let occurrences overlap: in `/abs/abs/` it
      cuts only at the first `/abs/`, so the ID is `abs/`, not the empty
      text after the last occurrence. */
  lemma ArxivIdOverlap()
    ensures ArxivId("/abs/abs/") == "abs/"
  {
    var s := "/abs/abs/";
    assert OccursAt(s, AbsMarker, 0);
    var rest := s[5..];
    assert rest == "abs/";
    assert forall j: nat :: !OccursAt(rest, AbsMarker, j);
    assert Split(s, AbsMarker) == [""] + Split(rest, AbsMarker);
  }

  /** `f"https://arxiv.org/pdf/{arxiv_id}.pdf"`; the ID can be read back
      from between the fixed prefix and `.pdf`. */
  function PdfUrl(arxivId: string): (r: string)
    ensures |r| == |PdfPrefix| + |arxivId| + 4
    ensures r[..|PdfPrefix|] == PdfPrefix && r[|r| - 4..] == ".pdf"
    ensures r[|PdfPrefix|..|r| - 4] == arxivId
  {
    PdfPrefix + arxivId + ".pdf"
  }

  /** `f"{entry.summary[:300]}..."`. */
  function SummaryText(summary: string): (r: string)
    ensures |r| <= SummaryLimit + 3
    ensures EndsWith(r, "...")
    ensures |r| - 3 <= |summary| && r[..|r| - 3] == summary[..|r| - 3]
    ensures |summary| <= SummaryLimit ==> r == summary + "..."
    ensures |summary| > SummaryLimit ==> |r| == SummaryLimit + 3
  {
    Truncate(summary, SummaryLimit) + "..."
  }

  /** `"-" * 80 + "\n"`. */
  function Rule(): (r: string)
    ensures |r| == RuleWidth + 1 && r[RuleWidth] == '\n'
    ensures forall k :: 0 <= k < RuleWidth ==> r[k] == '-'
  {
    Repeat('-', RuleWidth) + "\n"
  }

  /** `arxiv_id.replace('/', '_')`. */
  function SafeName(arxivId: string): string {
    ReplaceChar(arxivId, '/', '_')
  }

  /** The six labelled lines of an entry's block, in output order. */
  function BlockLines(e: Entry): seq<Line> {
    var arxivId := ArxivId(e.id);
    [ Line("Title", e.title),
      Line("Authors", Join(e.authors, ", ")),
      Line("Published", e.published),
      Line("arXiv Link", e.link),
      Line("PDF", PdfUrl(arxivId)),
      Line("Summary", SummaryText(e.summary)) ]
  }

  /** One entry's block: an empty line, the six labelled lines, the rule. */
  function Block(e: Entry): string {
    "\n" + RenderLines(BlockLines(e)) + Rule()
  }

  /** The blocks of all entries, in feed order. */
  function FeedText(entries: seq<Entry>): string
    decreases |entries|
  {
    if |entries| == 0 then "" else Block(entries[0]) + FeedText(entries[1..])
  }

  /** The file a PDF is saved to: in `dir`, under the ID with `/` made `_`. */
  function PdfFile(arxivId: string, dir: string): string {
    PathJoin(dir, SafeName(arxivId) + ".pdf")
  }

  /** The download an entry causes when the server answers `status`: its PDF
      URL is requested, and the body saved only on status 200. */
  function EntryDownload(e: Entry, dir: string, status: int): Download {
    var arxivId := ArxivId(e.id);
    Download(PdfUrl(arxivId), if status == StatusOk then Some(PdfFile(arxivId, dir)) else None)
  }

  /** The downloads of all entries, in feed order, `statuses[k]` being the
      status the k-th request is answered with. */
  function DownloadPlan(entries: seq<Entry>, statuses: seq<int>, dir: string): (r: seq<Download>)
    requires |statuses| == |entries|
    ensures |r| == |entries|
    ensures forall k :: 0 <= k < |entries| ==> r[k] == EntryDownload(entries[k], dir, statuses[k])
    decreases |entries|
  {
    if |entries| == 0 then []
    else
      var n := |entries| - 1;
      var init := DownloadPlan(entries[..n], statuses[..n], dir);
      assert forall k :: 0 <= k < n ==> init[k] == EntryDownload(entries[k], dir, statuses[k]);
      init + [EntryDownload(entries[n], dir, statuses[n])]
  }

  /** The text for one more entry of the feed. */
  lemma FeedTextSnoc(entries: seq<Entry>, i: nat)
    requires i < |entries|
    ensures FeedText(entries[..i + 1]) == FeedText(entries[..i]) + Block(entries[i])
  {
    assert entries[..i + 1] == entries[..i] + [entries[i]];
    FeedTextAppend(entries[..i], entries[i]);
  }

  /** One more block extends text that already holds the first `i` blocks
      after some prefix `acc`. */
  lemma FeedStep(acc: string, entries: seq<Entry>, i: nat, before: string, after: string)
    requires i < |entries|
    requires before == acc + FeedText(entries[..i]) && after == before + Block(entries[i])
    ensures after == acc + FeedText(entries[..i + 1])
  {
    FeedTextSnoc(entries, i);
    ConcatAssoc(acc, FeedText(entries[..i]), Block(entries[i]));
  }

  /** The plan for one more entry of the feed. */
  lemma DownloadPlanSnoc(entries: seq<Entry>, statuses: seq<int>, i: nat, dir: string)
    requires |statuses| == |entries| && i < |entries|
    ensures DownloadPlan(entries[..i + 1], statuses[..i + 1], dir) ==
              DownloadPlan(entries[..i], statuses[..i], dir) + [EntryDownload(entries[i], dir, statuses[i])]
  {
    assert entries[..i + 1][..i] == entries[..i];
    assert statuses[..i + 1][..i] == statuses[..i];
  }

  /** The first three appends of the loop body. */
  lemma AppendsTitleToPublished(acc: string, e: Entry)
    ensures acc + "\nTitle: " + e.title + "\n"
            + "Authors: " + Join(e.authors, ", ") + "\n"
            + "Published: " + e.published + "\n"
            == acc + "\n" + RenderLines(BlockLines(e)[..3])
  {
    var ls := BlockLines(e);
    var o := acc + "\n";
    assert ls[..0] == [];
    assert acc + "\nTitle: " == o + RenderLines(ls[..0]) + "Title: ";
    AppendLineStep(o, ls, 0, o + RenderLines(ls[..0]), "Title: ");
    var o1 := acc + "\nTitle: " + e.title + "\n";
    AppendLineStep(o, ls, 1, o1, "Authors: ");
    var o2 := o1 + "Authors: " + Join(e.authors, ", ") + "\n";
    AppendLineStep(o, ls, 2, o2, "Published: ");
  }

  /** The seven appends of the loop body, applied to `acc`, add exactly the
      entry's block. */
  lemma BlockAppends(acc: string, e: Entry)
    ensures acc + "\nTitle: " + e.title + "\n"
            + "Authors: " + Join(e.authors, ", ") + "\n"
            + "Published: " + e.published + "\n"
            + "arXiv Link: " + e.link + "\n"
            + "PDF: " + PdfUrl(ArxivId(e.id)) + "\n"
            + "Summary: " + Truncate(e.summary, SummaryLimit) + "...\n"
            + Repeat('-', RuleWidth) + "\n"
            == acc + Block(e)
  {
    var ls := BlockLines(e);
    var cut := Truncate(e.summary, SummaryLimit);
    var o := acc + "\n";
    var o3 := acc + "\nTitle: " + e.title + "\n"
              + "Authors: " + Join(e.authors, ", ") + "\n"
              + "Published: " + e.published + "\n";
    var o4 := o3 + "arXiv Link: " + e.link + "\n";
    var o5 := o4 + "PDF: " + PdfUrl(ArxivId(e.id)) + "\n";
    var o6 := o5 + "Summary: " + SummaryText(e.summary) + "\n";
    assert o5 + "Summary: " + cut + "...\n" == o6 by {
      assert "...\n" == "..." + "\n";
    }
    ConcatAssoc(acc, "\n" + RenderLines(ls), Rule());
    ConcatAssoc(acc, "\n", RenderLines(ls));
    AppendsTitleToPublished(acc, e);
    AppendLineStep(o, ls, 3, o3, "arXiv Link: ");
    AppendLineStep(o, ls, 4, o4, "PDF: ");
    AppendLineStep(o, ls, 5, o5, "Summary: ");
    assert ls[..6] == ls;
  }

  /** Every block opens with an empty line and ends with the 80-dash rule. */
  lemma BlockBounds(e: Entry)
    ensures Block(e)[0] == '\n'
    ensures EndsWith(Block(e), Rule())
  {
    var b := Block(e);
    assert b[|b| - |Rule()|..] == Rule();
  }

  /** Splitting an empty line, rendered lines and a final line `last`. */
  lemma FramedLinesSplit(ls: seq<Line>, last: string)
    requires SingleLineFields(ls) && '\n' !in last
    ensures Split("\n" + RenderLines(ls) + last + "\n", "\n")
            == [""] + LineTexts(ls) + [last, ""]
  {
    var r := RenderLines(ls);
    var texts := LineTexts(ls);
    var parts := texts + [last, ""];
    assert r + last + "\n" == Join(parts, "\n") by {
      RenderLinesJoin(ls);
      JoinAppendLast(texts, last);
    }
    assert Split(r + last + "\n", "\n") == parts by {
      LineTextsFree(ls);
      JoinSplit(parts, '\n');
    }
    FramedSplit(r, last, parts);
    assert [""] + parts == [""] + texts + [last, ""];
  }

  /** A leading newline adds an empty first part. */
  lemma FramedSplit(r: string, last: string, parts: seq<string>)
    requires Split(r + last + "\n", "\n") == parts
    ensures Split("\n" + r + last + "\n", "\n") == [""] + parts
  {
    ConcatAssoc("\n", r, last);
    ConcatAssoc("\n", r + last, "\n");
    LeadingNewlineSplit(r + last + "\n");
  }

  lemma LeadingNewlineSplit(body: string)
    ensures Split("\n" + body, "\n") == [""] + Split(body, "\n")
  {
    assert "\n" + body == "" + ['\n'] + body;
    SplitAtFirst("", body, '\n');
  }

  /** When no field holds a newline, an entry's block consists of exactly
      these lines: the empty one, Title, Authors, Published, arXiv Link, PDF,
      Summary and the rule. */
  lemma BlockSplit(e: Entry)
    requires SingleLineFields(BlockLines(e))
    ensures Split(Block(e), "\n") ==
      [ "",
        "Title: " + e.title,
        "Authors: " + Join(e.authors, ", "),
        "Published: " + e.published,
        "arXiv Link: " + e.link,
        "PDF: " + PdfUrl(ArxivId(e.id)),
        "Summary: " + SummaryText(e.summary),
        Repeat('-', RuleWidth),
        "" ]
  {
    var ls := BlockLines(e);
    var dashes := Repeat('-', RuleWidth);
    assert '\n' !in dashes;
    assert Block(e) == "\n" + RenderLines(ls) + dashes + "\n";
    FramedLinesSplit(ls, dashes);
    BlockTexts(e);
  }

  /** The six labelled lines of a block, as text. */
  lemma BlockTexts(e: Entry)
    ensures LineTexts(BlockLines(e)) ==
      [ "Title: " + e.title,
        "Authors: " + Join(e.authors, ", "),
        "Published: " + e.published,
        "arXiv Link: " + e.link,
        "PDF: " + PdfUrl(ArxivId(e.id)),
        "Summary: " + SummaryText(e.summary) ]
  {
    var texts := LineTexts(BlockLines(e));
    assert texts[0] == "Title: " + e.title;
    assert texts[1] == "Authors: " + Join(e.authors, ", ");
    assert texts[2] == "Published: " + e.published;
    assert texts[3] == "arXiv Link: " + e.link;
    assert texts[4] == "PDF: " + PdfUrl(ArxivId(e.id));
    assert texts[5] == "Summary: " + SummaryText(e.summary);
  }

  /** Replacing the final empty part of a newline join by `last` and an
      empty part appends `last` and a newline. */
  lemma {:induction false} JoinAppendLast(texts: seq<string>, last: string)
    ensures Join(texts + [""], "\n") + last + "\n" == Join(texts + [last, ""], "\n")
    decreases |texts|
  {
    if |texts| == 0 {
      assert texts + [last, ""] == [last] + [""];
      JoinCons(last, [""], "\n");
    } else {
      JoinAppendLast(texts[1..], last);
      assert texts + [""] == [texts[0]] + (texts[1..] + [""]);
      assert texts + [last, ""] == [texts[0]] + (texts[1..] + [last, ""]);
      JoinCons(texts[0], texts[1..] + [""], "\n");
      JoinCons(texts[0], texts[1..] + [last, ""], "\n");
    }
  }

  /** Adding an entry at the end adds its block at the end. */
  lemma {:induction false} FeedTextAppend(entries: seq<Entry>, e: Entry)
    ensures FeedText(entries + [e]) == FeedText(entries) + Block(e)
    decreases |entries|
  {
    var all := entries + [e];
    if |entries| == 0 {
      assert all == [e] && all[1..] == [];
      assert FeedText(all) == Block(e) + "";
    } else {
      var b, rest := Block(entries[0]), FeedText(entries[1..]);
      assert all[0] == entries[0] && all[1..] == entries[1..] + [e];
      assert FeedText(all) == b + FeedText(entries[1..] + [e]);
      FeedTextAppend(entries[1..], e);
      assert FeedText(entries) == b + rest;
      ConcatAssoc(b, rest, Block(e));
    }
  }

  /** A non-empty feed's text ends with the rule of its last block. */
  lemma {:induction false} FeedTextEndsWithRule(entries: seq<Entry>)
    requires |entries| > 0
    ensures EndsWith(FeedText(entries), Rule())
  {
    var init, e := entries[..|entries| - 1], entries[|entries| - 1];
    assert entries == init + [e];
    FeedTextAppend(init, e);
    BlockBounds(e);
    var t := FeedText(entries);
    assert t[|t| - |Rule()|..] == Block(e)[|Block(e)| - |Rule()|..];
  }

  /** A download requests the entry's PDF URL and saves the body exactly
      when the status is 200; the file name it is saved under has no `/`,
      keeps the ID's length with every `/` made `_`, and sits directly in
      the output directory: it is the name itself for an empty directory,
      and otherwise follows the directory after exactly one `/`. */
  lemma DownloadTarget(e: Entry, dir: string, status: int)
    ensures var id, d := ArxivId(e.id), EntryDownload(e, dir, status);
      d.url == PdfUrl(id) && (d.saved.Some? <==> status == StatusOk)
      && (d.saved.Some? ==> d.saved.value == PdfFile(id, dir))
    ensures var id, path := ArxivId(e.id), PdfFile(ArxivId(e.id), dir);
      var name := SafeName(id);
      '/' !in name && |name| == |id|
      && (forall k :: 0 <= k < |id| ==> name[k] == (if id[k] == '/' then '_' else id[k]))
      && EndsWith(path, name + ".pdf")
      && (dir != "" ==> path[..|dir|] == dir && path[|path| - |name| - 5] == '/')
    ensures var name := SafeName(ArxivId(e.id)) + ".pdf";
      var path := PdfFile(ArxivId(e.id), dir);
      (dir == "" ==> path == name)
      && (dir != "" && dir[|dir| - 1] == '/' ==> path == dir + name)
      && (dir != "" && dir[|dir| - 1] != '/' ==> path == dir + "/" + name)
  {
    PdfFileTarget(ArxivId(e.id), dir);
  }

  /** The file an ID's PDF is saved to, for any ID. */
  lemma PdfFileTarget(id: string, dir: string)
    ensures var path, name := PdfFile(id, dir), SafeName(id);
      '/' !in name && |name| == |id|
      && (forall k :: 0 <= k < |id| ==> name[k] == (if id[k] == '/' then '_' else id[k]))
      && EndsWith(path, name + ".pdf")
      && (dir != "" ==> path[..|dir|] == dir && path[|path| - |name| - 5] == '/')
      && (dir == "" ==> path == name + ".pdf")
      && (dir != "" && dir[|dir| - 1] == '/' ==> path == dir + name + ".pdf")
      && (dir != "" && dir[|dir| - 1] != '/' ==> path == dir + "/" + (name + ".pdf"))
  {
    var name := SafeName(id);
    if |name| > 0 {
      assert (name + ".pdf")[0] == name[0];
    }
  }

  /** The seven appends of the loop body for the `i`-th entry take the text
      of the first `i` blocks to the text of the first `i + 1`. */
  lemma EntryTextStep(acc: string, entries: seq<Entry>, i: nat, before: string)
    requires i < |entries| && before == acc + FeedText(entries[..i])
    ensures var e := entries[i];
      before + "\nTitle: " + e.title + "\n"
      + "Authors: " + Join(e.authors, ", ") + "\n"
      + "Published: " + e.published + "\n"
      + "arXiv Link: " + e.link + "\n"
      + "PDF: " + PdfUrl(ArxivId(e.id)) + "\n"
      + "Summary: " + Truncate(e.summary, SummaryLimit) + "...\n"
      + Repeat('-', RuleWidth) + "\n"
      == acc + FeedText(entries[..i + 1])
  {
    BlockAppends(before, entries[i]);
    FeedStep(acc, entries, i, before, before + Block(entries[i]));
  }

  /** The download the loop body records for the `i`-th entry extends the
      plan of the first `i` entries to the plan of the first `i + 1`. */
  lemma EntryDownloadStep(entries: seq<Entry>, statuses: seq<int>, i: nat, dir: string,
                          previous: seq<Download>)
    requires |statuses| == |entries| && i < |entries|
    requires previous == DownloadPlan(entries[..i], statuses[..i], dir)
    ensures var id := ArxivId(entries[i].id);
      previous + [Download(PdfUrl(id), if statuses[i] == StatusOk
                                       then Some(PathJoin(dir, SafeName(id) + ".pdf")) else None)]
      == DownloadPlan(entries[..i + 1], statuses[..i + 1], dir)
  {
    DownloadPlanSnoc(entries, statuses, i, dir);
  }

  /** The `for entry in feed.entries` loop both copies of
      `format_arxiv_results_and_download` run: each entry's block is appended
      to `acc` with seven `+=` steps and, when downloads are on, the entry's
      PDF is requested and, on status 200, saved under its safe file name.
      `statuses` are the statuses the PDF requests are answered with, in
      order. */
  method AppendEntries(acc: string, entries: seq<Entry>, downloadPdfs: bool, statuses: seq<int>,
                       outputDir: string)
    returns (output: string, downloads: seq<Download>)
    requires downloadPdfs ==> |statuses| == |entries|
    ensures output == acc + FeedText(entries)
    ensures downloads == (if downloadPdfs then DownloadPlan(entries, statuses, outputDir) else [])
  {
    output := acc;
    downloads := [];
    var i := 0;
    assert entries[..0] == [];
    while i < |entries|
      invariant 0 <= i <= |entries|
      invariant output == acc + FeedText(entries[..i])
      invariant downloadPdfs ==> downloads == DownloadPlan(entries[..i], statuses[..i], outputDir)
      invariant !downloadPdfs ==> downloads == []
    {
      var entry := entries[i];
      var arxivId := ArxivId(entry.id);
      var pdfUrl := PdfUrl(arxivId);
      ghost var before := output;
      output := output + "\nTitle: " + entry.title + "\n";
      output := output + "Authors: " + Join(entry.authors, ", ") + "\n";
      output := output + "Published: " + entry.published + "\n";
      output := output + "arXiv Link: " + entry.link + "\n";
      output := output + "PDF: " + pdfUrl + "\n";
      output := output + "Summary: " + Truncate(entry.summary, SummaryLimit) + "...\n";
      output := output + Repeat('-', RuleWidth) + "\n";
      EntryTextStep(acc, entries, i, before);
      if downloadPdfs {
        var status := statuses[i];
        ghost var previous := downloads;
        if status == StatusOk {
          var filename := PathJoin(outputDir, SafeName(arxivId) + ".pdf");
          downloads := downloads + [Download(pdfUrl, Some(filename))];
        } else {
          downloads := downloads + [Download(pdfUrl, None)];
        }
        EntryDownloadStep(entries, statuses, i, outputDir, previous);
      }
      i := i + 1;
    }
    assert entries[..i] == entries;
    assert downloadPdfs ==> statuses[..i] == statuses;
  }
}
