# Bibliographic text formatters of a paper-lookup toolkit

The toolkit looks papers up on arXiv and CrossRef and prints what it finds as
fixed-layout text. This project models, in Dafny, the parts of it that turn
records into text and names into file paths:

- `format_reference` (find_references.py) turns one CrossRef reference
  record into four lines: Title, Author, Year, DOI. The title comes from a
  fallback chain over three keys, and every other field defaults to `N/A`.
- `format_crossref_results` (apis.py) turns a CrossRef works response into
  eight lines: Title, Journal, Published, DOI, Publisher, Citation Count, URL,
  Authors. Each line has its own default, and the formatter raises the
  Python exception the source would raise on malformed input.
- `format_arxiv_results_and_download` exists in both files. It loops over
  the feed entries, appending one text block per entry, and, when downloads
  are on, requests each entry's PDF and saves it under a name derived from
  the arXiv ID. The apis.py copy starts the text with a header that holds the
  feed title.
- The file name `download_main_pdf` saves the main paper under: the first 50
  characters of the title, with `/` made `_`.

Modules:

- `Wrappers`: `Option` and `Result`.
- `Strings`: Python's `str.split`, `str.join`, slicing, `replace` and `*`.
- `Paths`: POSIX `os.path.join`.
- `PyJson`: decoded JSON values, `dict.get`, truthiness, `x[0]`, iteration,
  and `str()`/`repr()` of values.
- `Layout`: labelled lines `Label: value`, each ended by a newline.
- `Arxiv`: the per-entry work shared by both arXiv loops, and the loop
  itself as the method `AppendEntries`.
- `FindReferences` and `Apis`: one module per source file.

Python exceptions become `Err` values of a `Result`. The loops are methods
whose postconditions tie the accumulated text and the download list to
functions of the inputs. Properties of those functions are proved as lemmas.

The arXiv ID is `entry.id.split('/abs/')[-1]`: the last piece of Python's
`split`, which cuts at non-overlapping occurrences of `/abs/` from the left.
That is not always the text after the last occurrence of `/abs/`: the two
differ when occurrences overlap. For `/abs/abs/` the split gives `abs/`, while
the text after the last occurrence is empty. The model follows `split`; see
`Arxiv.ArxivIdOverlap`.

## Model

| member | source | states |
|---|---|---|
| FindReferences.ReferenceTitle | find_references.py:99 | The title is the `article-title` value when that is present and truthy, else `series-title` under the same condition, else `volume-title`, else "N/A". |
| FindReferences.ReferenceTitleFallsThrough | find_references.py:99 | An empty `article-title` counts as absent, so a non-empty `series-title` becomes the title line. |
| FindReferences.FormatReference | find_references.py:97-103 | A record that is not a dict has no `.get`, so the formatter raises AttributeError exactly then. For a dict, the f-string equals the rendering of the four lines Title, Author, Year, DOI, in that order. |
| FindReferences.ReferenceLines | find_references.py:99-103 | Computes the four lines of a dict record: Title from the fallback chain, then Author, Year and DOI, each `str` of its field or "N/A". |
| FindReferences.RenderFourLines | find_references.py:103 | The f-string's literal pieces with four values are exactly those four labelled lines, each ended by a newline. |
| FindReferences.ReferenceFieldValues | find_references.py:100-102 | A missing author, year or DOI shows as "N/A". A string value shows verbatim. An integer year shows in decimal, and a JSON null author as "None". |
| FindReferences.ReferenceFourLines | find_references.py:103 | With no newline inside a field, splitting the output on newlines gives the four line texts in order, then an empty last piece. |
| FindReferences.ReferenceNames | find_references.py:103 | The four lines are labelled Title, Author, Year, DOI, in that order. |
| FindReferences.FormatArxivResultsAndDownload | find_references.py:16-43 | The output is the concatenation of the entries' blocks in feed order. With downloads on, the download list is one request per entry in order; otherwise it is empty. |
| FindReferences.MainPdfStem | find_references.py:80 | The stem has min(len(title), 50) characters and no `/`; each character is the title's, with `/` made `_`. |
| FindReferences.MainPdfPath | find_references.py:80 | The path ends with the stem plus `.pdf`, and the file sits directly in the directory. With an empty directory the path is the file name itself. A directory ending in `/` is followed directly by the name; any other is followed by one `/` and then the name. |
| Arxiv.ArxivId | find_references.py:24 | Computes the last piece of the entry id split at `/abs/`. |
| Arxiv.ArxivIdSpec | find_references.py:24 | The ID is a suffix of the entry id and holds no `/abs/`. It is the whole id when `/abs/` does not occur; otherwise the id ends with `/abs/` plus the ID. |
| Arxiv.ArxivIdAfterAbs | find_references.py:24 | For `prefix + "/abs/" + tail`, where the prefix holds no `b` and the tail no `/abs/`, the ID is the tail. |
| Arxiv.ArxivIdOfAbsUrl | find_references.py:24 | The ID of `http://arxiv.org/abs/2101.00001v1` is `2101.00001v1`. |
| Arxiv.ArxivIdOverlap | find_references.py:24 | Python's split does not overlap occurrences, so the ID of `/abs/abs/` is `abs/`. |
| Arxiv.PdfUrl | find_references.py:25 | The URL is `https://arxiv.org/pdf/` plus the ID plus `.pdf`, and the ID can be read back from between the two fixed parts. |
| Arxiv.SummaryText | find_references.py:31 | At most 300 summary characters, a prefix of the summary, followed by `...`. A summary of at most 300 characters is kept whole. |
| Arxiv.Rule | find_references.py:32 | 80 dashes and then a newline. |
| Arxiv.BlockLines | find_references.py:26-31 | Computes the six labelled lines of an entry: Title, Authors (names joined by `, `), Published, arXiv Link, PDF URL and the cut summary. |
| Arxiv.Block | find_references.py:26-32 | Computes one entry's block: a newline, the six lines rendered, then the rule. |
| Arxiv.FeedText | find_references.py:23-32 | Computes the blocks of all entries concatenated in feed order. |
| Arxiv.SafeName | find_references.py:37 | Computes the ID with every `/` made `_`. |
| Arxiv.PdfFile | find_references.py:37 | Computes `os.path.join` of the output directory and the safe name plus `.pdf`. |
| Arxiv.EntryDownload | find_references.py:34-42 | Computes an entry's download: its PDF URL, and the PDF file path only when the status is 200. |
| Arxiv.BlockAppends | find_references.py:26-32 | The seven `+=` steps of the loop body add exactly the entry's block. |
| Arxiv.BlockBounds | find_references.py:26-32 | Every block starts with a newline and ends with the rule. |
| Arxiv.BlockSplit | find_references.py:26-32 | With no newline inside a field, a block splits into: an empty line, Title, Authors (names joined by `, `), Published, arXiv Link, PDF, Summary, the dashes, and an empty last piece. |
| Arxiv.FeedTextAppend | find_references.py:23-32 | Text for one more entry at the end is the previous text followed by that entry's block. |
| Arxiv.FeedTextEndsWithRule | find_references.py:23-43 | The text for a non-empty feed ends with the rule. |
| Arxiv.DownloadTarget | find_references.py:34-42 | A download requests the entry's PDF URL and saves the body exactly when the status is 200, to the entry's PDF file. The file name has no `/` and the ID's length, with `/` made `_`, plus `.pdf`. The path is that name for an empty directory, the directory then the name when the directory ends in `/`, and otherwise the directory, one `/` and the name. |
| Arxiv.PdfFileTarget | find_references.py:37 | The same file-name and exact-path facts for any ID and directory. |
| Arxiv.DownloadPlan | find_references.py:34-42 | There is one download per entry, and the k-th download belongs to the k-th entry and the k-th response. |
| Arxiv.AppendEntries | find_references.py:23-42 | The loop appends the blocks of all entries to the text it starts from, in order. With downloads on, it returns one download per entry; otherwise none. |
| Arxiv.EntryTextStep | find_references.py:26-32 | The seven appends for the `i`-th entry take the text of the first `i` blocks to the text of the first `i + 1`. |
| Arxiv.EntryDownloadStep | find_references.py:34-42 | The download recorded for the `i`-th entry extends the plan of the first `i` entries to the plan of the first `i + 1`. |
| Apis.FormatArxivResultsAndDownload | apis.py:30-54 | The output is the header followed by the blocks of all entries. Downloads are as in the find_references.py copy. |
| Apis.Header | apis.py:32 | Computes `ArXiv Search Results: ` plus the feed title, or nothing when there is none, then a newline. |
| Apis.ArxivOutputShape | apis.py:32-44 | For a feed title without a newline, the first line is `ArXiv Search Results: ` plus the feed title, or nothing when there is none. |
| Apis.ArxivOutputEnds | apis.py:32-44 | For any feed title, an empty feed gives the header alone, and a non-empty one ends with the rule. |
| Apis.Message | apis.py:66 | Computes `data.get("message", {})`: AttributeError for a response that is not a dict, the empty dict for a missing `message`, and the value otherwise. The properties are stated by `Apis.CrossrefNotObject`, `Apis.CrossrefOfMessage` and `Apis.EmptyMessageDefaults`. |
| PyJson.Fields | apis.py:66-69 | Computes the fields a `.get` call reads: those of a dict, and AttributeError for any other value. |
| Apis.CrossrefNotObject | apis.py:66 | A response that is not a dict, or a `message` that is not one, makes the formatter raise AttributeError. |
| Apis.CrossrefOfMessage | apis.py:66 | The lines of a response are the lines of its `message`, and a missing `message` gives the lines of the empty record. |
| Apis.FirstItem | apis.py:67-68 | Computes `str` of `x[0]` for the field, with `['N/A']` standing for a missing one, or the exception `x[0]` raises. |
| Apis.Published | apis.py:69-70 | Computes the `-` join of `str` of each item of the first `date-parts` entry, or the exception the `.get`, `[0]` or iteration raises. |
| Apis.AuthorName | apis.py:77 | Computes `str` of `given`, a space, and `str` of `family`, each empty when missing. |
| Apis.Authors | apis.py:75-79 | Computes the names of a truthy `author` value joined by `, `, "N/A" for a falsy one, or the exception iteration or `.get` raises. |
| Apis.WorkLines | apis.py:67-79 | Computes the eight labelled lines from their eight values, in output order. |
| Apis.Lookups | apis.py:67-79 | Computes the Title, Journal, Published and Authors values in that order, stopping at the first exception. |
| Apis.MessageLines | apis.py:67-79 | Computes the eight lines of a `message` dict, or the first exception. |
| Apis.CrossrefLines | apis.py:65-79 | Computes the lines of a response: its `message` read as a dict, then that record's lines, or the first exception. |
| Apis.CrossrefText | apis.py:65-80 | Computes the rendered lines of a response, or the first exception. |
| Apis.EmptyMessageDefaults | apis.py:66-79 | In the empty record every line takes its default: "N/A" everywhere except DOI and URL, which are empty. |
| Apis.FirstItemCases | apis.py:67-68 | A missing key gives "N/A". A non-empty list gives `str` of its first element, and a non-empty string its first character. An empty list or string raises IndexError, a dict KeyError, anything else TypeError. |
| Apis.TitleJournalErrors | apis.py:67-68 | A Title lookup that raises decides the exception. A Journal lookup that raises decides it when Title succeeds. |
| Apis.TitleJournalLines | apis.py:67-68 | On success the Title and Journal lines hold the two first items. |
| Apis.PublishedCases | apis.py:69-70 | Published is "N/A" when `issued` or its `date-parts` is missing. Otherwise it is the first date-parts list rendered with `str` and joined by `-`. An `issued` that is not a dict raises AttributeError, and an empty `date-parts` raises IndexError. |
| Apis.PublishedDateRoundTrip | apis.py:69-70 | For non-negative integer parts, splitting Published on `-` gives back one decimal numeral per part, in order, and each parses back to its part. |
| Apis.PublishedExample | apis.py:69-70 | `[[2019, 10, 23]]` is printed as `2019-10-23`. |
| Apis.LinkLines | apis.py:71-74 | DOI and URL default to the empty text, and a string value shows verbatim. |
| Apis.PublisherLines | apis.py:72-73 | Publisher and Citation Count default to "N/A". A string value shows verbatim, and an integer count in decimal. |
| Apis.AuthorsCases | apis.py:75-79 | A missing or falsy `author` gives "N/A". A non-empty list succeeds exactly when every author is a dict, and then gives the `given family` names joined by `, `; otherwise it raises AttributeError. A truthy integer or boolean raises TypeError. |
| Apis.AuthorNames | apis.py:77 | Walks the authors in order, as the generator inside `", ".join(...)` does, and raises AttributeError at the first author that is not a dict. Proved: it succeeds exactly when every author is a dict, and then gives one name per author with the k-th name that of the k-th author. Any failure is AttributeError. |
| Apis.AuthorNameParts | apis.py:77 | One author is `given family` with a space between, and a missing part is the empty text. |
| Apis.MessageLinesSteps | apis.py:67-79 | The lines exist exactly when the Title, Journal, Published and Authors steps all succeed, and each line then holds its step's value. Otherwise the first failing step, in that order, decides the exception. |
| Apis.WorkLinesValues | apis.py:67-79 | The eight lines hold their eight values in output order. |
| Apis.WorkLinesNames | apis.py:67-79 | The lines come in the order Title, Journal, Published, DOI, Publisher, Citation Count, URL, Authors. |
| Apis.WorkLinesRendered | apis.py:67-79 | Rendering the eight lines gives the text that the successive appends build. |
| Apis.FormatCrossrefResults | apis.py:65-80 | The method's result is the text of the response: AttributeError when the response or its `message` is not a dict, otherwise the rendering of the message's eight lines or the exception the first failing step raises. |
| Apis.FormatMessage | apis.py:67-80 | On a message record, the method succeeds exactly when its eight lines do, and then returns their rendering; otherwise it returns the exception the first failing step raises. |
| Apis.CrossrefEightLines | apis.py:67-80 | On success, with no newline in any value, the text splits into exactly the eight line texts and an empty last piece. |
| Strings.SplitJoin | find_references.py:24 | Joining the pieces of a split with the separator gives back the text. |
| Strings.SplitPiecesFree | find_references.py:24 | No piece of a split contains the separator. |
| Strings.SplitLastSuffix | find_references.py:24 | The last piece of a split is the whole text when the separator does not occur. Otherwise the text ends with the separator followed by the last piece. |
| Strings.FindFirst | find_references.py:24 | The index of the leftmost occurrence of the separator, with no occurrence before it, or none when it does not occur. |
| Strings.Split | find_references.py:24 | Computes `s.split(sep)`: cut at the leftmost occurrence, then split the rest. The result has at least one piece. |
| Strings.Join | find_references.py:27 | Computes `sep.join(parts)`: the parts with the separator between consecutive ones. |
| Strings.JoinSplit | apis.py:70 | For a non-empty list of parts, none of which contains the separator, splitting their join on a one-character separator gives back the parts. |
| Strings.Truncate | find_references.py:31 | `s[:n]` is the first min(len(s), n) characters of `s`. |
| Strings.ReplaceChar | find_references.py:37 | `replace` of one character keeps the length, changes exactly the matching characters, and leaves none of the old character when the new character differs from the old one. |
| Strings.Repeat | find_references.py:32 | `c * n` is `n` copies of `c`. |
| Paths.PathJoin | find_references.py:37 | An absolute name replaces the directory. With an empty directory the result is the name. A directory ending in `/` is followed directly by the name, and any other directory by exactly one `/` and then the name. |
| PyJson.Get | apis.py:66 | `d.get(key)` is missing exactly when no field has the key; otherwise it is the value of the first field with that key. |
| PyJson.GetOr | find_references.py:100-102 | Computes `d.get(key, default)`: the value found, or the default. |
| PyJson.DistinctKeys | apis.py:63 | Holds when no key repeats, as in the dicts `json` decodes. |
| PyJson.GetUnique | apis.py:63 | On an object without repeated keys, the field `Get` finds is the only one with its key, so the first match is also the last, which `json.loads` keeps. |
| PyJson.Truthy | find_references.py:99 | Computes Python truthiness: None, False, 0 and empty strings, lists and dicts are false. |
| PyJson.FirstTruthy | find_references.py:99 | `a or b or c or default` is the first truthy operand, or the default when none is. |
| PyJson.Subscript0 | apis.py:67 | `x[0]` succeeds exactly on a non-empty list or string, giving its first element. Otherwise it raises IndexError for an empty list or string, KeyError for a dict and TypeError for anything else. |
| PyJson.Iterate | apis.py:70 | Iteration fails with TypeError exactly on None, booleans and integers. A list gives its items, a string its one-character strings, and a dict its keys, each in order. The sequence is empty exactly when the value is falsy. |
| PyJson.IntToString | apis.py:73 | Computes `str(i)`: the decimal numeral, with a leading `-` for a negative number. |
| PyJson.Repr | apis.py:67 | Computes `repr(v)`: None, True, False, decimal integers, quoted and escaped strings, and lists and dicts as Python literals. |
| PyJson.PyStr | apis.py:67 | Computes `str(v)`: a string as it is, anything else as its `repr`. |
| Apis.PyStrs | apis.py:70 | Walks the generator `str(x) for x in issued` in order. Proved: one string per item, the k-th being `str` of the k-th item. |
| PyJson.IntStrRoundTrip | apis.py:70 | `str` of an integer is its decimal numeral, with a `-` for negatives, and reading it back gives the integer. |
| PyJson.NestedStrRoundTrip | apis.py:67 | The `repr` form a string takes inside a shown list or dict reads back to the string. |
| PyJson.Shown | apis.py:71-74 | Computes `f"{d.get(key, default)}"` for a string default. |
| PyJson.ShownCases | apis.py:71-74 | `f"{d.get(key, default)}"` is the default when the key is missing, a string verbatim, an integer in decimal, and JSON null as "None". |
| Layout.LineText | find_references.py:103 | Computes one output line: the label, `: ` and the value. |
| Layout.RenderLines | find_references.py:103 | Computes the lines, each followed by a newline, joined in order. |
| Layout.RenderLinesSplit | find_references.py:103 | With no newline inside a field, splitting rendered lines on newlines gives the line texts and then an empty piece. |
| Layout.RenderedParts | apis.py:67-79 | The same, part by part: one part per line holding that line's text, and an empty last part. |

## Left out

- HTTP requests (`search_arxiv`, `search_crossref`, `search_crossref_title`, `get_references_from_doi`, `search_semantic_scholar` and the PDF fetches): network I/O. For the PDF fetches, the status code of each response is an input of the loop methods.
- `os.makedirs`, `os.path.exists` and writing PDF bytes: filesystem I/O. A download is recorded as the URL requested plus the path written to, which is present only on status 200.
- Default arguments: `download_pdfs=False` and `output_dir="arxiv_pdfs"` (find_references.py:16, apis.py:30) and `output_dir="main_paper"` (find_references.py:70). The model takes every argument explicitly, so a call that relies on a default passes that value.
- `print` calls, including the download success and failure messages: console output.
- `feedparser.parse`: a foreign XML library. Its result is given as the feed title, if any, and a sequence of entries with string fields. The AttributeError that a missing entry attribute would raise is not modelled.
- `json`: responses are given as already-decoded values. Floats are not modelled. A `Value` object may repeat a key, which `json.loads` never produces: it keeps one entry per key, with the last value. `Get` takes the first match, which agrees on the objects `PyJson.DistinctKeys` describes (`PyJson.GetUnique`). Iteration and `repr` of an object with a repeated key would list that key twice.
- `repr` of characters above U+00FF: the model writes every such character verbatim, although Python escapes the non-printable ones.
- `download_main_pdf` beyond its file-name rule: the DOI request, the Content-Type check and the fall-back to arXiv are I/O orchestration.
- The `__main__` drivers of both files (`input`, `exit`, and the per-reference lookup loop): interactive orchestration around I/O.
- llama.py: model loading and sampled text generation through a foreign library, with floating-point and tensor numerics.
