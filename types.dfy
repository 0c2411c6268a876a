/**
  The diff viewer's value types: spans, alignments, file contents and the
  per-file diff with its classifiers.
*/
module DiffTypes {
  import opened Text

  /** A byte of raw file content. */
  type byte = b: int | 0 <= b < 256

  datatype Option<T> = None | Some(value: T)

  /** Two repository states: `before` is a ref or SHA, `after` a ref, SHA or "@" for the working tree. */
  datatype DiffId = DiffId(before: string, after: string)

  /** Ref name that stands for the working tree. */
  const WorkingTreeRef: string := "@"

  function IsWorkingTree(id: DiffId): (r: bool)
    ensures r <==> id.after == WorkingTreeRef
  {
    id.after == WorkingTreeRef
  }

  /** Half-open range `[start, end)` of 0-indexed lines; nothing forces `start <= end`. */
  datatype Span = Span(start: nat, end: nat)

  /** `Span::len`: `end - start`, saturating at 0. */
  function Len(s: Span): (n: nat)
    ensures s.start <= s.end ==> s.start + n == s.end
    ensures s.end <= s.start ==> n == 0
  {
    if s.end >= s.start then s.end - s.start else 0
  }

  function IsEmpty(s: Span): bool
  {
    Len(s) == 0
  }

  /** An empty span is exactly one whose end does not pass its start. */
  lemma IsEmptyIff(s: Span)
    ensures IsEmpty(s) <==> s.end <= s.start
  {
  }

  /** One region of correspondence between the two files. */
  datatype Alignment = Alignment(before: Span, after: Span, changed: bool)

  datatype FileContent = Text(lines: seq<string>) | Binary

  datatype File = File(path: string, content: FileContent)

  datatype ChangeKind = Added | Modified | Deleted

  datatype FileDiff = FileDiff(before: Option<File>, after: Option<File>, alignments: seq<Alignment>)

  /** Number of bytes the binary heuristic looks at. */
  const BinaryProbeLen: nat := 8192

  /** `FileContent::is_binary_data`: a NUL byte among the first 8192 bytes. */
  function IsBinaryData(bytes: seq<byte>): (r: bool)
    ensures r <==> exists i :: 0 <= i < |bytes| && i < BinaryProbeLen && bytes[i] == 0
  {
    var n := if |bytes| < BinaryProbeLen then |bytes| else BinaryProbeLen;
    assert forall i :: 0 <= i < n ==> bytes[..n][i] == bytes[i];
    0 in bytes[..n]
  }

  /** `FileContent::lines`: the stored lines of text content, none for binary content. */
  function ContentLines(c: FileContent): (ls: seq<string>)
    ensures c.Binary? ==> ls == []
    ensures c.Text? ==> ls == c.lines
  {
    match c
    case Text(lines) => lines
    case Binary => []
  }

  /** `FileContent::from_text`: text content split with `str::lines`. */
  function FromText(content: string): (c: FileContent)
    ensures c.Text? && c.lines == Lines(content)
  {
    Text(Lines(content))
  }

  /** Text written as lines joined by '\n' with a final '\n' loads back as the same lines. */
  lemma FromTextOfJoined(ls: seq<string>)
    requires ls != []
    requires forall k :: 0 <= k < |ls| ==> IsLine(ls[k])
    ensures ContentLines(FromText(Join(ls, "\n") + "\n")) == ls
  {
    LinesOfJoinWithNewline(ls);
  }

  /** Line count of an optional file; an absent file has no lines. */
  function LineCount(f: Option<File>): nat
  {
    match f
    case Some(file) => |ContentLines(file.content)|
    case None => 0
  }

  /** `FileDiff::path`: the after path, else the before path, else "". */
  function PathOf(d: FileDiff): (p: string)
    ensures d.after.Some? ==> p == d.after.value.path
    ensures d.after.None? && d.before.Some? ==> p == d.before.value.path
    ensures d.after.None? && d.before.None? ==> p == ""
  {
    match d.after
    case Some(a) => a.path
    case None =>
      match d.before
      case Some(b) => b.path
      case None => ""
  }

  /** `FileDiff::change_kind`: presence on each side. */
  function KindOf(d: FileDiff): (k: ChangeKind)
    ensures k == Added <==> d.before.None? && d.after.Some?
    ensures k == Deleted <==> d.before.Some? && d.after.None?
    ensures k == Modified <==> d.before.Some? == d.after.Some?
  {
    match (d.before, d.after)
    case (None, Some(_)) => Added
    case (Some(_), None) => Deleted
    case (Some(_), Some(_)) => Modified
    case (None, None) => Modified
  }

  /** `FileDiff::is_rename`: both sides present with different paths. */
  function IsRename(d: FileDiff): (r: bool)
    ensures r <==> d.before.Some? && d.after.Some? && d.before.value.path != d.after.value.path
  {
    match (d.before, d.after)
    case (Some(b), Some(a)) => b.path != a.path
    case _ => false
  }

  /** `FileDiff::is_binary`: some present side has binary content. */
  function IsBinary(d: FileDiff): (r: bool)
    ensures r <==> ((d.before.Some? && d.before.value.content.Binary?)
                    || (d.after.Some? && d.after.value.content.Binary?))
  {
    (d.before.Some? && d.before.value.content == Binary)
    || (d.after.Some? && d.after.value.content == Binary)
  }

  /** The display path follows the change kind: an added file shows its after path, a deleted one its before path. */
  lemma PathFollowsKind(d: FileDiff)
    ensures KindOf(d) == Added ==> PathOf(d) == d.after.value.path
    ensures KindOf(d) == Deleted ==> PathOf(d) == d.before.value.path
    ensures IsRename(d) ==> KindOf(d) == Modified && PathOf(d) == d.after.value.path
  {
  }

  /** A binary side contributes no lines to the alignment. */
  lemma BinarySideHasNoLines(f: File)
    requires f.content.Binary?
    ensures LineCount(Some(f)) == 0
  {
  }

  /** The unit-test vectors of `types.rs`. */
  lemma TypesExamples()
    ensures IsWorkingTree(DiffId("HEAD", "@")) && !IsWorkingTree(DiffId("main", "feature"))
    ensures KindOf(FileDiff(None, Some(File("new.txt", Text([]))), [])) == Added
    ensures KindOf(FileDiff(Some(File("old.txt", Text([]))), None, [])) == Deleted
    ensures KindOf(FileDiff(Some(File("changed.txt", Text([]))), Some(File("changed.txt", Text([]))), [])) == Modified
    ensures IsBinaryData([0x00, 0x01, 0x02])
    ensures !IsBinaryData([104, 101, 108, 108, 111, 32, 119, 111, 114, 108, 100])
    ensures IsRename(FileDiff(Some(File("old_name.txt", Text([]))), Some(File("new_name.txt", Text([]))), []))
    ensures !IsRename(FileDiff(Some(File("same.txt", Text([]))), Some(File("same.txt", Text([]))), []))
  {
    var nul: seq<byte> := [0x00, 0x01, 0x02];
    assert nul[0] == 0;
    var hello: seq<byte> := [104, 101, 108, 108, 111, 32, 119, 111, 114, 108, 100];
    assert forall i :: 0 <= i < |hello| ==> hello[i] != 0;
    var oldName: string := "old_name.txt";
    var newName: string := "new_name.txt";
    assert oldName[0] != newName[0];
  }
}
