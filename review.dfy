/**
  Review records and the way a comment's selection is stored in the four
  selection columns of the comments table and read back.
*/
module ReviewModel {
  import opened DiffTypes

  /** Where a comment applies: the whole file, one 0-indexed line, or a span of lines. */
  datatype Selection = Global | Line(line: nat) | Range(span: Span)

  datatype Comment = Comment(id: string, path: string, selection: Selection, content: string)

  /** An edit made during review, kept as a unified diff. */
  datatype Edit = Edit(id: string, path: string, diff: string)

  datatype Review = Review(id: DiffId, reviewed: seq<string>, comments: seq<Comment>, edits: seq<Edit>)

  /** `Review::new`: the given id, nothing reviewed, no comments, no edits. */
  function NewReview(id: DiffId): (r: Review)
    ensures r.id == id
    ensures r.reviewed == [] && r.comments == [] && r.edits == []
  {
    Review(id, [], [], [])
  }

  /** The selection columns of a comment row; an absent column is SQL NULL. */
  datatype SelectionColumns = SelectionColumns(selectionType: string, line: Option<nat>, start: Option<nat>, end: Option<nat>)

  /** How `add_comment` fills the selection columns. */
  function EncodeSelection(s: Selection): (c: SelectionColumns)
    ensures s.Global? <==> c.selectionType == "global"
    ensures s.Line? <==> c.selectionType == "line"
    ensures s.Range? <==> c.selectionType == "range"
    ensures c.line.Some? <==> s.Line?
    ensures c.start.Some? <==> s.Range?
    ensures c.end.Some? <==> s.Range?
  {
    match s
    case Global => SelectionColumns("global", None, None, None)
    case Line(line) => SelectionColumns("line", Some(line), None, None)
    case Range(span) => SelectionColumns("range", None, Some(span.start), Some(span.end))
  }

  function UnwrapOrZero(o: Option<nat>): nat
  {
    match o
    case Some(v) => v
    case None => 0
  }

  /** How `get` rebuilds a selection from the columns: NULL numbers read as 0, an unknown type as `Global`. */
  function DecodeSelection(c: SelectionColumns): (s: Selection)
    ensures c.selectionType == "line" ==> s == Line(UnwrapOrZero(c.line))
    ensures c.selectionType == "range" ==> s == Range(Span(UnwrapOrZero(c.start), UnwrapOrZero(c.end)))
    ensures c.selectionType != "line" && c.selectionType != "range" ==> s == Global
  {
    match c.selectionType
    case "global" => Global
    case "line" => Line(UnwrapOrZero(c.line))
    case "range" => Range(Span(UnwrapOrZero(c.start), UnwrapOrZero(c.end)))
    case _ => Global
  }

  /** Storing a selection and reading it back gives the same selection. */
  lemma SelectionRoundTrip(s: Selection)
    ensures DecodeSelection(EncodeSelection(s)) == s
  {
  }

  /**
    Reading is total and forgiving: any row decodes, the columns that the
    decoded selection's own encoding leaves empty are ignored, and an
    unrecognised type or a missing number is the only way to lose data.
  */
  lemma DecodeIgnoresUnusedColumns(c: SelectionColumns)
    ensures c.selectionType == "line" && c.line.Some?
            ==> EncodeSelection(DecodeSelection(c)) == SelectionColumns("line", c.line, None, None)
    ensures c.selectionType == "range" && c.start.Some? && c.end.Some?
            ==> EncodeSelection(DecodeSelection(c)) == SelectionColumns("range", None, c.start, c.end)
    ensures c.selectionType != "line" && c.selectionType != "range"
            ==> EncodeSelection(DecodeSelection(c)) == SelectionColumns("global", None, None, None)
  {
  }

  /** A comment row: the comment's own columns with its selection spread over the four selection columns. */
  datatype CommentRow = CommentRow(id: string, path: string, selection: SelectionColumns, content: string)

  function CommentToRow(c: Comment): CommentRow
  {
    CommentRow(c.id, c.path, EncodeSelection(c.selection), c.content)
  }

  function RowToComment(r: CommentRow): Comment
  {
    Comment(r.id, r.path, DecodeSelection(r.selection), r.content)
  }

  /** A stored comment reads back unchanged. */
  lemma CommentRoundTrip(c: Comment)
    ensures RowToComment(CommentToRow(c)) == c
  {
    SelectionRoundTrip(c.selection);
  }

  lemma SelectionExamples()
    ensures DecodeSelection(SelectionColumns("line", None, None, None)) == Line(0)
    ensures DecodeSelection(SelectionColumns("range", None, Some(3), None)) == Range(Span(3, 0))
    ensures DecodeSelection(SelectionColumns("file", Some(4), None, None)) == Global
  {
  }
}
