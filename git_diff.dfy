/**
  The side-by-side diff payload built for the review view: the binary check
  on raw bytes, the diff shown for an untracked file, and the checks that
  run before a ref-to-ref diff is computed.
*/
module GitDiffView {
  import opened Text
  import DT = DiffTypes
  import HA = HunkAlignment

  /** One line in a diff pane: "context", "added" or "removed", its 1-indexed number, its text. */
  datatype DiffLine = DiffLine(lineType: string, lineno: nat, content: string)

  /** 1-indexed inclusive line numbers of a changed region in the original files. */
  datatype SourceLines = SourceLines(oldStart: DT.Option<nat>, oldEnd: DT.Option<nat>,
                                     newStart: DT.Option<nat>, newEnd: DT.Option<nat>)

  /** Corresponding row intervals of the two panes. */
  datatype Range = Range(before: DT.Span, after: DT.Span, changed: bool, sourceLines: DT.Option<SourceLines>)

  datatype DiffSide = DiffSide(path: DT.Option<string>, lines: seq<DiffLine>)

  /** A line of a hunk with its number on each side, when it has one. */
  datatype HunkLine = HunkLine(lineType: string, oldLineno: DT.Option<nat>, newLineno: DT.Option<nat>, content: string)

  datatype DiffHunk = DiffHunk(oldStart: nat, oldLines: nat, newStart: nat, newLines: nat,
                               header: string, lines: seq<HunkLine>)

  datatype FileDiff = FileDiff(status: string, isBinary: bool, hunks: seq<DiffHunk>,
                               before: DiffSide, after: DiffSide, ranges: seq<Range>)

  datatype GitError = GitError(message: string)

  datatype Result<T> = Ok(value: T) | Err(error: GitError)

  // ---------------------------------------------------------------------------
  // Binary detection
  // ---------------------------------------------------------------------------

  /** `is_binary_content`: a NUL byte anywhere in the content. */
  function IsBinaryContent(bytes: seq<DT.byte>): (r: bool)
    ensures r <==> exists i :: 0 <= i < |bytes| && bytes[i] == 0
  {
    0 in bytes
  }

  /**
    The whole-content check is at least as eager as the 8 KiB probe used for
    loaded file contents, and strictly more: a NUL right after the first
    8192 bytes is seen here and not there.
  */
  lemma BinaryChecksCompared(bytes: seq<DT.byte>)
    ensures DT.IsBinaryData(bytes) ==> IsBinaryContent(bytes)
    ensures |bytes| <= DT.BinaryProbeLen ==> (DT.IsBinaryData(bytes) <==> IsBinaryContent(bytes))
  {
  }

  lemma LateNulSeenOnlyByWholeCheck()
    ensures var late := seq(DT.BinaryProbeLen + 1, i => if i < DT.BinaryProbeLen then 1 else 0);
            IsBinaryContent(late) && !DT.IsBinaryData(late)
  {
    var late: seq<DT.byte> := seq(DT.BinaryProbeLen + 1, i => if i < DT.BinaryProbeLen then 1 else 0);
    assert late[DT.BinaryProbeLen] == 0;
    assert forall i :: 0 <= i < DT.BinaryProbeLen ==> late[i] == 1;
  }

  /**
    Text content is checked through its UTF-8 bytes; UTF-8 encodes every
    character other than U+0000 without a zero byte, so the check is a NUL
    character anywhere in the text.
  */
  predicate IsBinaryText(s: string)
  {
    '\0' in s
  }

  // ---------------------------------------------------------------------------
  // Untracked files
  // ---------------------------------------------------------------------------

  /** Decimal digits of `n`, most significant first, no leading zero. */
  function NatToString(n: nat): (s: string)
    ensures |s| > 0 && (forall k :: 0 <= k < |s| ==> '0' <= s[k] <= '9')
    ensures |s| > 1 ==> s[0] != '0'
    ensures DecimalValue(s) == n
    decreases n
  {
    if n < 10 then [Digit(n)]
    else NatToString(n / 10) + [Digit(n % 10)]
  }

  function Digit(d: nat): (c: char)
    requires d < 10
    ensures '0' <= c <= '9' && DigitValue(c) == d
  {
    ['0', '1', '2', '3', '4', '5', '6', '7', '8', '9'][d]
  }

  function DigitValue(c: char): nat
    requires '0' <= c <= '9'
  {
    c as int - '0' as int
  }

  /** The number a string of decimal digits denotes. */
  function DecimalValue(s: string): nat
    requires forall k :: 0 <= k < |s| ==> '0' <= s[k] <= '9'
  {
    if s == [] then 0 else 10 * DecimalValue(s[..|s| - 1]) + DigitValue(s[|s| - 1])
  }

  /** The after pane of an untracked file: every line "added", numbered from 1. */
  function AddedLines(ls: seq<string>): (r: seq<DiffLine>)
    ensures |r| == |ls|
    ensures forall i :: 0 <= i < |ls| ==> r[i] == DiffLine("added", i + 1, ls[i])
  {
    seq(|ls|, i requires 0 <= i < |ls| => DiffLine("added", i + 1, ls[i]))
  }

  /** The same lines as hunk lines: no old line number, the pane number as new line number. */
  function AsHunkLines(lines: seq<DiffLine>): (r: seq<HunkLine>)
    ensures |r| == |lines|
    ensures forall i :: 0 <= i < |lines| ==>
              r[i] == HunkLine(lines[i].lineType, DT.None, DT.Some(lines[i].lineno), lines[i].content)
  {
    seq(|lines|, i requires 0 <= i < |lines| =>
      HunkLine(lines[i].lineType, DT.None, DT.Some(lines[i].lineno), lines[i].content))
  }

  /** The result for an untracked file whose content is shown as binary. */
  function BinaryUntracked(filePath: string): FileDiff
  {
    FileDiff("untracked", true, [], DiffSide(DT.None, []), DiffSide(DT.Some(filePath), []), [])
  }

  /** The result for an untracked text file with lines `ls`: one range and one hunk covering the whole file. */
  function TextUntracked(filePath: string, ls: seq<string>): FileDiff
  {
    var afterLines := AddedLines(ls);
    var n := |afterLines|;
    var range := Range(DT.Span(0, 0), DT.Span(0, n), true,
                       DT.Some(SourceLines(DT.None, DT.None, DT.Some(1), DT.Some(n))));
    var hunk := DiffHunk(0, 0, 1, n, "@@ -0,0 +1," + NatToString(n) + " @@", AsHunkLines(afterLines));
    FileDiff("untracked", false, [hunk], DiffSide(DT.None, []), DiffSide(DT.Some(filePath), afterLines), [range])
  }

  /**
    `get_untracked_file_diff` once the file is read: `bytes` is its raw
    content and `decoded` the result of UTF-8 decoding it (`None` when the
    bytes are not valid UTF-8).
  */
  function UntrackedFileDiff(filePath: string, bytes: seq<DT.byte>, decoded: DT.Option<string>): (d: FileDiff)
    ensures d.status == "untracked" && d.before == DiffSide(DT.None, [])
    ensures d.after.path == DT.Some(filePath)
    ensures d.isBinary <==> IsBinaryContent(bytes) || decoded.None?
    ensures d.isBinary ==> d.hunks == [] && d.after.lines == [] && d.ranges == []
  {
    if IsBinaryContent(bytes) then BinaryUntracked(filePath)
    else match decoded
      case None => BinaryUntracked(filePath)
      case Some(content) => TextUntracked(filePath, Lines(content))
  }

  /**
    What the untracked view of a text file with `n` lines contains: the
    after pane lists the lines as "added" with numbers 1..n, a single range
    pairs nothing before with rows [0, n) after and names source lines 1..n,
    and a single hunk `-0,0 +1,n` repeats the pane lines.
  */
  lemma UntrackedTextShape(filePath: string, bytes: seq<DT.byte>, content: string)
    requires !IsBinaryContent(bytes)
    ensures var d := UntrackedFileDiff(filePath, bytes, DT.Some(content));
            var ls := Lines(content);
            var n := |ls|;
            && !d.isBinary
            && |d.after.lines| == n
            && (forall i :: 0 <= i < n ==> d.after.lines[i].lineType == "added"
                                           && d.after.lines[i].lineno == i + 1
                                           && d.after.lines[i].content == ls[i])
            && d.ranges == [Range(DT.Span(0, 0), DT.Span(0, n), true,
                                  DT.Some(SourceLines(DT.None, DT.None, DT.Some(1), DT.Some(n))))]
            && |d.hunks| == 1
            && d.hunks[0].oldStart == 0 && d.hunks[0].oldLines == 0
            && d.hunks[0].newStart == 1 && d.hunks[0].newLines == n
            && d.hunks[0].header == "@@ -0,0 +1," + NatToString(n) + " @@"
            && |d.hunks[0].lines| == n
            && (forall i :: 0 <= i < n ==> d.hunks[0].lines[i].content == d.after.lines[i].content
                                           && d.hunks[0].lines[i].newLineno == DT.Some(i + 1)
                                           && d.hunks[0].lines[i].oldLineno == DT.None)
  {
  }

  /**
    The untracked view agrees with the hunk-to-alignment assembler: its one
    range is what the assembler gives for an added file with the same lines,
    both without a hunk and from the hunk's own header.
  */
  lemma UntrackedAgreesWithAssembler(filePath: string, bytes: seq<DT.byte>, content: string)
    requires !IsBinaryContent(bytes) && content != []
    ensures var d := UntrackedFileDiff(filePath, bytes, DT.Some(content));
            var n := |Lines(content)|;
            var h := d.hunks[0];
            var a := [DT.Alignment(d.ranges[0].before, d.ranges[0].after, d.ranges[0].changed)];
            && a == HA.Assemble([], 0, n)
            && a == HA.Assemble([HA.NormalizeHunkUnified(HA.RawHunk(h.oldStart, h.oldLines, h.newStart, h.newLines))], 0, n)
  {
    var d := UntrackedFileDiff(filePath, bytes, DT.Some(content));
    var n := |Lines(content)|;
    assert d == TextUntracked(filePath, Lines(content));
    assert n > 0;
    assert d.hunks[0].oldStart == 0 && d.hunks[0].oldLines == 0 && d.hunks[0].newStart == 1 && d.hunks[0].newLines == n;
    var h := HA.NormalizeHunkUnified(HA.RawHunk(0, 0, 1, n));
    assert h == HA.Hunk(0, 0, 0, n);
    assert HA.Fill([h][1..], 0, n, 0, n) == [];
  }

  /** Non-UTF-8 content is shown as binary even without a NUL byte. */
  lemma InvalidUtf8IsBinary(filePath: string, bytes: seq<DT.byte>)
    ensures UntrackedFileDiff(filePath, bytes, DT.None) == BinaryUntracked(filePath)
  {
  }

  lemma NatToStringExamples()
    ensures NatToString(0) == "0" && NatToString(7) == "7" && NatToString(42) == "42"
  {
    assert NatToString(4) == "4";
  }

  // ---------------------------------------------------------------------------
  // Ref-to-ref diffs: the checks made before diffing
  // ---------------------------------------------------------------------------

  /** The status string for a file present on at least one side. */
  function PresenceStatus(before: DT.Option<string>, after: DT.Option<string>): (s: string)
    requires before.Some? || after.Some?
    ensures s == "added" <==> before.None?
    ensures s == "deleted" <==> after.None?
    ensures s == "modified" <==> before.Some? && after.Some?
  {
    match (before, after)
    case (None, Some(_)) => "added"
    case (Some(_), None) => "deleted"
    case (Some(_), Some(_)) => "modified"
  }

  /** How `get_ref_diff` goes on once both contents are loaded. */
  datatype RefDiffStep =
    | BinaryDiff(diff: FileDiff)
      /** The diff is computed by git with this status and these pane paths. */
    | TextDiff(status: string, beforePath: DT.Option<string>, afterPath: DT.Option<string>)

  function BinaryRefDiff(status: string, filePath: string): FileDiff
  {
    FileDiff(status, true, [], DiffSide(DT.Some(filePath), []), DiffSide(DT.Some(filePath), []), [])
  }

  function PathIfPresent(content: DT.Option<string>, filePath: string): DT.Option<string>
  {
    if content.Some? then DT.Some(filePath) else DT.None
  }

  /**
    `get_ref_diff` from the loaded contents to the point where git is asked
    for hunks: absent on both sides is an error naming the file and both
    refs; a NUL in either present side gives the binary diff; otherwise the
    status and pane paths the text diff carries.
  */
  function RefDiffGate(filePath: string, base: string, head: string,
                       before: DT.Option<string>, after: DT.Option<string>): (r: Result<RefDiffStep>)
    ensures r.Err? <==> before.None? && after.None?
    ensures r.Err? ==> r.error.message == "File '" + filePath + "' not found in either " + base + " or " + head
    ensures r.Ok? ==> (r.value.BinaryDiff? <==> ((before.Some? && IsBinaryText(before.value))
                                                || (after.Some? && IsBinaryText(after.value))))
    ensures r.Ok? && r.value.BinaryDiff? ==>
              var d := r.value.diff;
              d.status == PresenceStatus(before, after) && d.isBinary && d.hunks == [] && d.ranges == []
              && d.before == DiffSide(DT.Some(filePath), []) && d.after == DiffSide(DT.Some(filePath), [])
    ensures r.Ok? && r.value.TextDiff? ==>
              r.value.status == PresenceStatus(before, after)
              && (r.value.beforePath.Some? <==> before.Some?)
              && (r.value.afterPath.Some? <==> after.Some?)
  {
    if before.None? && after.None? then
      Err(GitError("File '" + filePath + "' not found in either " + base + " or " + head))
    else
      var status := PresenceStatus(before, after);
      if before.Some? && IsBinaryText(before.value) then Ok(BinaryDiff(BinaryRefDiff(status, filePath)))
      else if after.Some? && IsBinaryText(after.value) then Ok(BinaryDiff(BinaryRefDiff(status, filePath)))
      else Ok(TextDiff(status, PathIfPresent(before, filePath), PathIfPresent(after, filePath)))
  }

  /** The status of a ref diff names the same change kind as the diff model's classifier. */
  lemma StatusMatchesChangeKind(before: DT.Option<string>, after: DT.Option<string>, filePath: string)
    requires before.Some? || after.Some?
    ensures var f := DT.FileDiff(if before.Some? then DT.Some(DT.File(filePath, DT.Text([]))) else DT.None,
                                 if after.Some? then DT.Some(DT.File(filePath, DT.Text([]))) else DT.None, []);
            && (PresenceStatus(before, after) == "added" <==> DT.KindOf(f) == DT.Added)
            && (PresenceStatus(before, after) == "deleted" <==> DT.KindOf(f) == DT.Deleted)
            && (PresenceStatus(before, after) == "modified" <==> DT.KindOf(f) == DT.Modified)
  {
  }
}
