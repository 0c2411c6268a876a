/**
  The rows the diff inspection tool prints for a file diff: each pane line
  with its change marker, its number and its text cut to a fixed width,
  and each range with its kind and the sizes of its two spans.
*/
module InspectDiff {
  import opened Text
  import DT = DiffTypes
  import GitDiffView

  /** The width the tool cuts line text to. */
  const TextWidth: nat := 60

  const Ellipsis: string := "..."

  /**
    `truncate`: text that fits is kept; longer text is cut so that, with
    "..." appended, it is exactly `maxLen` long. The cut position
    `maxLen - 3` is an unsigned subtraction, so longer text needs
    `maxLen >= 3`. Lengths count bytes, one character per byte here.
  */
  function Truncate(s: string, maxLen: nat): (r: string)
    requires |s| > maxLen ==> maxLen >= |Ellipsis|
    ensures |r| <= maxLen
    ensures |s| <= maxLen ==> r == s
    ensures |s| > maxLen ==> |r| == maxLen && StartsWith(s, r[..maxLen - 3]) && EndsWith(r, Ellipsis)
  {
    if |s| <= maxLen then s
    else s[..maxLen - 3] + Ellipsis
  }

  /** Cutting is idempotent, and it changes text exactly when the text is too long. */
  lemma TruncateIdempotent(s: string, maxLen: nat)
    requires |s| > maxLen ==> maxLen >= |Ellipsis|
    ensures Truncate(Truncate(s, maxLen), maxLen) == Truncate(s, maxLen)
    ensures Truncate(s, maxLen) == s <==> |s| <= maxLen
  {
  }

  /** The marker of a pane line: "-" for a removed line, "+" for an added one, a space for anything else. */
  function Marker(lineType: string): (m: string)
    ensures |m| == 1
    ensures m == "-" <==> lineType == "removed"
    ensures m == "+" <==> lineType == "added"
    ensures m == " " <==> lineType != "removed" && lineType != "added"
  {
    match lineType
    case "removed" => "-"
    case "added" => "+"
    case _ => " "
  }

  /** One printed pane row: the row index, the marker, the line number and the cut text. */
  datatype PaneRow = PaneRow(index: nat, marker: string, lineno: nat, text: string)

  /** The rows printed for one pane, one per line, in order. */
  function PaneRows(lines: seq<GitDiffView.DiffLine>): (rows: seq<PaneRow>)
    ensures |rows| == |lines|
    ensures forall i :: 0 <= i < |rows| ==>
              rows[i].index == i && rows[i].lineno == lines[i].lineno
              && |rows[i].text| <= TextWidth
              && (|lines[i].content| <= TextWidth ==> rows[i].text == lines[i].content)
              && (rows[i].marker == "-" <==> lines[i].lineType == "removed")
              && (rows[i].marker == "+" <==> lines[i].lineType == "added")
              && (rows[i].marker == " " <==> lines[i].lineType != "removed" && lines[i].lineType != "added")
              && (|lines[i].content| > TextWidth ==>
                    |rows[i].text| == TextWidth
                    && rows[i].text == lines[i].content[..TextWidth - 3] + Ellipsis)
  {
    seq(|lines|, i requires 0 <= i < |lines| =>
      PaneRow(i, Marker(lines[i].lineType), lines[i].lineno, Truncate(lines[i].content, TextWidth)))
  }

  /** One printed range row: the kind and each span with its number of rows. */
  datatype RangeRow = RangeRow(index: nat, kind: string, before: DT.Span, beforeRows: nat,
                               after: DT.Span, afterRows: nat)

  /** A span that does not run backwards (the row count is an unsigned subtraction). */
  predicate Forward(s: DT.Span)
  {
    s.start <= s.end
  }

  /** The rows printed for the ranges: "CHANGE" or "context", and the size of each span. */
  function RangeRows(ranges: seq<GitDiffView.Range>): (rows: seq<RangeRow>)
    requires forall i :: 0 <= i < |ranges| ==> Forward(ranges[i].before) && Forward(ranges[i].after)
    ensures |rows| == |ranges|
    ensures forall i :: 0 <= i < |rows| ==>
              rows[i].index == i
              && (rows[i].kind == "CHANGE" <==> ranges[i].changed)
              && rows[i].before == ranges[i].before && rows[i].after == ranges[i].after
              && rows[i].before.start + rows[i].beforeRows == rows[i].before.end
              && rows[i].after.start + rows[i].afterRows == rows[i].after.end
  {
    seq(|ranges|, i requires 0 <= i < |ranges| && Forward(ranges[i].before) && Forward(ranges[i].after) =>
      var r := ranges[i];
      RangeRow(i, if r.changed then "CHANGE" else "context",
               r.before, r.before.end - r.before.start,
               r.after, r.after.end - r.after.start))
  }
}
