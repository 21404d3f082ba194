/** The text layout every formatter emits: labelled lines `Label: value`,
    each ended by a newline. */
module Layout {
  import opened Strings

  datatype Line = Line(name: string, value: string)

  /** The placeholder the formatters print for a value they cannot find. */
  const NotAvailable: string := "N/A"

  /** One line without its newline. */
  function LineText(l: Line): string {
    l.name + ": " + l.value
  }

  /** The lines without their newlines. */
  function LineTexts(ls: seq<Line>): (r: seq<string>)
    ensures |r| == |ls| && forall k :: 0 <= k < |ls| ==> r[k] == LineText(ls[k])
    decreases |ls|
  {
    if |ls| == 0 then []
    else
      var rest := LineTexts(ls[1..]);
      assert forall k :: 1 <= k < |ls| ==> rest[k - 1] == LineText(ls[k]);
      [LineText(ls[0])] + rest
  }

  /** The lines, each followed by a newline, in the given order. */
  function RenderLines(ls: seq<Line>): string
    decreases |ls|
  {
    if |ls| == 0 then "" else LineText(ls[0]) + "\n" + RenderLines(ls[1..])
  }

  function Names(ls: seq<Line>): seq<string> {
    seq(|ls|, k requires 0 <= k < |ls| => ls[k].name)
  }

  /** No name and no value holds a newline. */
  predicate SingleLineFields(ls: seq<Line>) {
    forall k :: 0 <= k < |ls| ==> '\n' !in ls[k].name && '\n' !in ls[k].value
  }

  /** Rendered text is the concatenation of the lines with `\n` between them
      and after the last one. */
  lemma {:induction false} RenderLinesJoin(ls: seq<Line>)
    ensures RenderLines(ls) == Join(LineTexts(ls) + [""], "\n")
    decreases |ls|
  {
    var texts := LineTexts(ls);
    if |ls| > 0 {
      RenderLinesJoin(ls[1..]);
      var tail := LineTexts(ls[1..]);
      assert texts + [""] == [LineText(ls[0])] + (tail + [""]);
      JoinCons(LineText(ls[0]), tail + [""], "\n");
    }
  }

  /** When no field holds a newline, no line text holds one. */
  lemma LineTextsFree(ls: seq<Line>)
    requires SingleLineFields(ls)
    ensures forall k :: 0 <= k < |ls| ==> '\n' !in LineTexts(ls)[k]
  {
    forall k | 0 <= k < |ls|
      ensures '\n' !in LineTexts(ls)[k]
    {
      assert LineTexts(ls)[k] == ls[k].name + ": " + ls[k].value;
    }
  }

  /** When no field holds a newline, splitting the rendered text on `\n`
      gives back exactly the lines, in order, then the empty text after the
      final newline. */
  lemma RenderLinesSplit(ls: seq<Line>)
    requires SingleLineFields(ls)
    ensures Split(RenderLines(ls), "\n") == LineTexts(ls) + [""]
  {
    var parts := LineTexts(ls) + [""];
    RenderLinesJoin(ls);
    LineTextsFree(ls);
    JoinSplit(parts, '\n');
  }

  /** The same, line by line: one part per line holding the line's text, and
      an empty last part. */
  lemma RenderedParts(ls: seq<Line>)
    requires SingleLineFields(ls)
    ensures var parts := Split(RenderLines(ls), "\n");
      |parts| == |ls| + 1 && parts[|ls|] == ""
      && forall k :: 0 <= k < |ls| ==> parts[k] == LineText(ls[k])
  {
    RenderLinesSplit(ls);
  }

  /** Rendering two groups of lines one after the other. */
  lemma {:induction false} RenderLinesAppend(a: seq<Line>, b: seq<Line>)
    ensures RenderLines(a + b) == RenderLines(a) + RenderLines(b)
    decreases |a|
  {
    if |a| == 0 {
      assert a + b == b;
    } else {
      RenderLinesAppend(a[1..], b);
      assert (a + b)[1..] == a[1..] + b;
    }
  }

  /** Adding one more line to the rendered first `k` lines. */
  lemma RenderLinesSnoc(ls: seq<Line>, k: nat)
    requires k < |ls|
    ensures RenderLines(ls[..k + 1]) == RenderLines(ls[..k]) + LineText(ls[k]) + "\n"
  {
    assert ls[..k + 1] == ls[..k] + [ls[k]];
    RenderLinesAppend(ls[..k], [ls[k]]);
  }

  /** Appending one labelled line, written as `head + value + "\n"` with
      `head` the line's name and `: `, extends the rendered prefix. */
  lemma AppendLineStep(o: string, ls: seq<Line>, k: nat, x: string, head: string)
    requires k < |ls| && x == o + RenderLines(ls[..k]) && head == ls[k].name + ": "
    ensures x + head + ls[k].value + "\n" == o + RenderLines(ls[..k + 1])
  {
    RenderLinesSnoc(ls, k);
  }
}
