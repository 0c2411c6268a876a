/**
  Parsing `git status --porcelain` output: two status letters (index, then
  working tree), a space, and the path; a rename shows "old -> new".
*/
module Porcelain {
  import opened Text
  import opened DiffTypes
  import opened GitStatusModel

  /** `porcelain_char_to_status`. */
  function CharToStatus(c: char): (s: string)
    ensures c == 'M' ==> s == "modified"
    ensures c == 'A' ==> s == "added"
    ensures c == 'D' ==> s == "deleted"
    ensures c == 'R' ==> s == "renamed"
    ensures c == 'C' ==> s == "copied"
    ensures c == 'T' ==> s == "typechange"
    ensures c == 'U' ==> s == "unmerged"
    ensures s == "unknown" <==> c !in "MADRCTU"
  {
    match c
    case 'M' => "modified"
    case 'A' => "added"
    case 'D' => "deleted"
    case 'R' => "renamed"
    case 'C' => "copied"
    case 'T' => "typechange"
    case 'U' => "unmerged"
    case _ => "unknown"
  }

  const RenameArrow: string := " -> "

  /** An occurrence past the first character is an occurrence in the tail, one position earlier. */
  lemma OccursShift(s: string, t: string, j: int)
    requires s != [] && j > 0
    ensures OccursAt(s, t, j) <==> OccursAt(s[1..], t, j - 1)
  {
    if 0 < j <= |s| - |t| {
      assert s[j..j + |t|] == s[1..][j - 1..j - 1 + |t|];
    }
  }

  /** Index of the first occurrence of `t` in `s`, if any. */
  function FindFirst(s: string, t: string): (r: Option<nat>)
    ensures r.Some? ==> OccursAt(s, t, r.value) && forall j :: 0 <= j < r.value ==> !OccursAt(s, t, j)
    ensures r.None? ==> forall j :: !OccursAt(s, t, j)
    decreases |s|
  {
    if StartsWith(s, t) then
      assert OccursAt(s, t, 0);
      Some(0)
    else if s == [] then None
    else
      match FindFirst(s[1..], t)
      case None =>
        assert forall j :: !OccursAt(s, t, j) by {
          forall j ensures !OccursAt(s, t, j) {
            if j > 0 { OccursShift(s, t, j); }
          }
        }
        None
      case Some(i) =>
        OccursShift(s, t, i + 1);
        assert forall j :: 0 <= j < i + 1 ==> !OccursAt(s, t, j) by {
          forall j | 0 <= j < i + 1 ensures !OccursAt(s, t, j) {
            if j > 0 { OccursShift(s, t, j); }
          }
        }
        Some(i + 1)
  }

  /**
    The last piece of `s.split(sep)`: the pieces are cut at the occurrences
    found scanning left to right, each search starting after the previous one.
  */
  function LastPiece(s: string, sep: string): (r: string)
    requires sep != []
    ensures EndsWith(s, r)
    ensures forall j :: !OccursAt(r, sep, j)
    ensures (forall j :: !OccursAt(s, sep, j)) ==> r == s
    ensures (exists j :: OccursAt(s, sep, j)) ==> exists i :: OccursAt(s, sep, i) && r == s[i + |sep|..]
    decreases |s|
  {
    match FindFirst(s, sep)
    case None => s
    case Some(i) =>
      var rest := s[i + |sep|..];
      var r := LastPiece(rest, sep);
      SuffixOfSuffix(s, i + |sep|, r);
      AfterOccurrenceInRest(s, sep, i, rest, r);
      r
  }

  /**
    If `r` follows the occurrence at `i`, or some occurrence in the text after
    it, then `r` follows an occurrence in `s`.
  */
  lemma AfterOccurrenceInRest(s: string, sep: string, i: nat, rest: string, r: string)
    requires OccursAt(s, sep, i) && rest == s[i + |sep|..]
    requires (forall j :: !OccursAt(rest, sep, j)) ==> r == rest
    requires (exists j :: OccursAt(rest, sep, j)) ==> exists k :: OccursAt(rest, sep, k) && r == rest[k + |sep|..]
    ensures exists j :: OccursAt(s, sep, j) && r == s[j + |sep|..]
  {
    if exists k :: OccursAt(rest, sep, k) {
      var k :| OccursAt(rest, sep, k) && r == rest[k + |sep|..];
      OccursInSuffix(s, sep, i + |sep|, k);
    }
  }

  /** An occurrence in a suffix of `s` is an occurrence in `s`, followed by the same text. */
  lemma OccursInSuffix(s: string, t: string, n: nat, k: int)
    requires n <= |s| && OccursAt(s[n..], t, k)
    ensures OccursAt(s, t, n + k) && s[n..][k + |t|..] == s[n + k + |t|..]
  {
    assert s[n + k..n + k + |t|] == s[n..][k..k + |t|];
  }

  /** A suffix of a suffix of `s` is a suffix of `s`. */
  lemma SuffixOfSuffix(s: string, n: nat, r: string)
    requires n <= |s| && EndsWith(s[n..], r)
    ensures EndsWith(s, r)
  {
    assert s[|s| - |r|..] == s[n..][|s[n..]| - |r|..];
  }

  /** The path of a porcelain line after the three-character status prefix, the target of a rename. */
  function EntryPath(path: string): (p: string)
    ensures EndsWith(path, p)
    ensures !Contains(p, RenameArrow)
    ensures !Contains(path, RenameArrow) ==> p == path
    ensures Contains(path, RenameArrow) ==>
      exists i :: OccursAt(path, RenameArrow, i) && p == path[i + |RenameArrow|..]
  {
    ContainsAt(path, RenameArrow);
    if Contains(path, RenameArrow) then
      var p := LastPiece(path, RenameArrow);
      ContainsAt(p, RenameArrow);
      p
    else path
  }

  /** What one output line adds to the staged list. */
  function StagedOf(line: string): (r: Option<FileStatus>)
    ensures r.Some? <==> |line| >= 3 && line[0] != ' ' && line[0] != '?'
    ensures r.Some? ==> r.value == FileStatus(EntryPath(line[3..]), CharToStatus(line[0]))
  {
    if |line| < 3 then None
    else if line[0] == '?' then None
    else if line[0] != ' ' then Some(FileStatus(EntryPath(line[3..]), CharToStatus(line[0])))
    else None
  }

  /** What one output line adds to the unstaged list; an untracked line adds nothing. */
  function UnstagedOf(line: string): (r: Option<FileStatus>)
    ensures r.Some? <==> |line| >= 3 && line[0] != '?' && line[1] != ' ' && line[1] != '?'
    ensures r.Some? ==> r.value == FileStatus(EntryPath(line[3..]), CharToStatus(line[1]))
  {
    if |line| < 3 then None
    else if line[0] == '?' then None
    else if line[1] != ' ' && line[1] != '?' then Some(FileStatus(EntryPath(line[3..]), CharToStatus(line[1])))
    else None
  }

  /** What one output line adds to the untracked list. */
  function UntrackedOf(line: string): (r: Option<FileStatus>)
    ensures r.Some? <==> |line| >= 3 && line[0] == '?'
    ensures r.Some? ==> r.value == FileStatus(EntryPath(line[3..]), "untracked")
  {
    if |line| >= 3 && line[0] == '?' then Some(FileStatus(EntryPath(line[3..]), "untracked")) else None
  }

  /** `parse_porcelain_status`: one pass over the output lines, pushing onto the three lists. */
  method ParsePorcelainStatus(output: string) returns (staged: seq<FileStatus>, unstaged: seq<FileStatus>, untracked: seq<FileStatus>)
    ensures staged == Gather(Lines(output), StagedOf)
    ensures unstaged == Gather(Lines(output), UnstagedOf)
    ensures untracked == Gather(Lines(output), UntrackedOf)
  {
    var lines := Lines(output);
    staged := [];
    unstaged := [];
    untracked := [];
    var i := 0;
    while i < |lines|
      invariant 0 <= i <= |lines|
      invariant staged == Gather(lines[..i], StagedOf)
      invariant unstaged == Gather(lines[..i], UnstagedOf)
      invariant untracked == Gather(lines[..i], UntrackedOf)
    {
      var line := lines[i];
      GatherStep(lines, i, StagedOf);
      GatherStep(lines, i, UnstagedOf);
      GatherStep(lines, i, UntrackedOf);
      if |line| >= 3 {
        var indexStatus := line[0];
        var worktreeStatus := line[1];
        var path := EntryPath(line[3..]);

        if indexStatus == '?' {
          // Untracked files
          untracked := untracked + [FileStatus(path, "untracked")];
        } else {
          // Staged changes (index status)
          if indexStatus != ' ' && indexStatus != '?' {
            staged := staged + [FileStatus(path, CharToStatus(indexStatus))];
          }
          // Unstaged changes (worktree status)
          if worktreeStatus != ' ' && worktreeStatus != '?' {
            unstaged := unstaged + [FileStatus(path, CharToStatus(worktreeStatus))];
          }
        }
      }
      i := i + 1;
    }
    assert lines[..i] == lines;
  }

  /**
    Which lines land in which list: a line of at least three characters
    starting with '?' only in `untracked`; otherwise in `staged` when its
    index letter is not a space and in `unstaged` when its worktree letter
    is neither a space nor '?', so one line may land in both.
  */
  lemma ParseMembership(ls: seq<string>, v: FileStatus)
    ensures v in Gather(ls, StagedOf)
            <==> exists k :: 0 <= k < |ls| && |ls[k]| >= 3 && ls[k][0] != ' ' && ls[k][0] != '?'
                             && v == FileStatus(EntryPath(ls[k][3..]), CharToStatus(ls[k][0]))
    ensures v in Gather(ls, UnstagedOf)
            <==> exists k :: 0 <= k < |ls| && |ls[k]| >= 3 && ls[k][0] != '?' && ls[k][1] != ' ' && ls[k][1] != '?'
                             && v == FileStatus(EntryPath(ls[k][3..]), CharToStatus(ls[k][1]))
    ensures v in Gather(ls, UntrackedOf)
            <==> exists k :: 0 <= k < |ls| && |ls[k]| >= 3 && ls[k][0] == '?'
                             && v == FileStatus(EntryPath(ls[k][3..]), "untracked")
  {
    GatherMembership(ls, StagedOf, v);
    GatherMembership(ls, UnstagedOf, v);
    GatherMembership(ls, UntrackedOf, v);
  }

  /** An input that yields nothing leaves the gathered list as it was, wherever it appears. */
  lemma GatherSkips<T>(before: seq<T>, x: T, after: seq<T>, f: T -> Option<FileStatus>)
    requires f(x).None?
    ensures Gather(before + [x] + after, f) == Gather(before + after, f)
  {
    assert Gather([x], f) == [] by {
      assert [x][..0] == [];
    }
    GatherConcat(before + [x], after, f);
    GatherConcat(before, [x], f);
    GatherConcat(before, after, f);
  }

  /** A line shorter than three characters is skipped: it adds nothing to any list, wherever it appears. */
  lemma ShortLinesSkipped(before: seq<string>, line: string, after: seq<string>)
    requires |line| < 3
    ensures Gather(before + [line] + after, StagedOf) == Gather(before + after, StagedOf)
    ensures Gather(before + [line] + after, UnstagedOf) == Gather(before + after, UnstagedOf)
    ensures Gather(before + [line] + after, UntrackedOf) == Gather(before + after, UntrackedOf)
  {
    GatherSkips(before, line, after, StagedOf);
    GatherSkips(before, line, after, UnstagedOf);
    GatherSkips(before, line, after, UntrackedOf);
  }

  /**
    A rename line "from -> to" names the target `to`, provided the source
    path has no space (so no arrow can start inside it) and the target holds
    no arrow of its own.
  */
  lemma RenameArrowTarget(from: string, to: string)
    requires ' ' !in from
    requires !Contains(to, RenameArrow)
    ensures EntryPath(from + RenameArrow + to) == to
  {
    var path := from + RenameArrow + to;
    assert OccursAt(path, RenameArrow, |from|) by {
      assert path[|from|..|from| + 4] == RenameArrow;
    }
    ContainsAt(path, RenameArrow);
    assert forall j :: 0 <= j < |from| ==> !OccursAt(path, RenameArrow, j) by {
      forall j | 0 <= j < |from| ensures !OccursAt(path, RenameArrow, j) {
        assert path[j] == from[j];
        if j + 4 <= |path| {
          assert path[j..j + 4][0] == path[j];
        }
      }
    }
    assert FindFirst(path, RenameArrow) == Some(|from|);
    assert path[|from| + 4..] == to;
    ContainsAt(to, RenameArrow);
    assert FindFirst(to, RenameArrow) == None;
  }

  /**
    Arrows that share their space, as in "from -> -> to", are cut the way
    `split` cuts them: scanning from the left, the first arrow is taken and
    the second, overlapping one is not, so the path keeps "-> to" although
    an arrow also ends right before `to`.
  */
  lemma OverlappingArrowsSplitFromLeft(from: string, to: string)
    requires ' ' !in from
    requires !Contains("-> " + to, RenameArrow)
    ensures OccursAt(from + RenameArrow + "-> " + to, RenameArrow, |from| + 3)
    ensures EntryPath(from + RenameArrow + "-> " + to) == "-> " + to
  {
    var path := from + RenameArrow + "-> " + to;
    assert path == from + RenameArrow + ("-> " + to);
    assert path[|from| + 3..|from| + 7] == RenameArrow;
    RenameArrowTarget(from, "-> " + to);
  }

  /** One more input adds one gathered value exactly when it yields one. */
  lemma GatherLengthStep<T>(xs: seq<T>, x: T, f: T -> Option<FileStatus>)
    ensures |Gather(xs + [x], f)| == |Gather(xs, f)| + (if f(x).Some? then 1 else 0)
  {
    assert (xs + [x])[..|xs + [x]| - 1] == xs;
  }

  function Indicator(o: Option<FileStatus>): nat
  {
    if o.Some? then 1 else 0
  }

  /** The number of values gathered from six inputs is the number of inputs that yield one. */
  lemma GatherLengthOfSix<T>(x0: T, x1: T, x2: T, x3: T, x4: T, x5: T, f: T -> Option<FileStatus>)
    ensures |Gather([x0, x1, x2, x3, x4, x5], f)|
            == Indicator(f(x0)) + Indicator(f(x1)) + Indicator(f(x2))
               + Indicator(f(x3)) + Indicator(f(x4)) + Indicator(f(x5))
  {
    assert [x0] == [] + [x0] && [x0, x1] == [x0] + [x1] && [x0, x1, x2] == [x0, x1] + [x2];
    assert [x0, x1, x2, x3] == [x0, x1, x2] + [x3] && [x0, x1, x2, x3, x4] == [x0, x1, x2, x3] + [x4];
    assert [x0, x1, x2, x3, x4, x5] == [x0, x1, x2, x3, x4] + [x5];
    GatherLengthStep([], x0, f);
    GatherLengthStep([x0], x1, f);
    GatherLengthStep([x0, x1], x2, f);
    GatherLengthStep([x0, x1, x2], x3, f);
    GatherLengthStep([x0, x1, x2, x3], x4, f);
    GatherLengthStep([x0, x1, x2, x3, x4], x5, f);
  }

  /**
    The sample output of the unit test, whatever the six paths: three
    staged, three unstaged and one untracked file.
  */
  lemma SampleOutput(p0: string, p1: string, p2: string, p3: string, p4: string, p5: string)
    ensures var ls := ["M  " + p0, " M " + p1, "MM " + p2, "A  " + p3, " D " + p4, "?? " + p5];
            |Gather(ls, StagedOf)| == 3 && |Gather(ls, UnstagedOf)| == 3 && |Gather(ls, UntrackedOf)| == 1
  {
    var l0, l1, l2 := "M  " + p0, " M " + p1, "MM " + p2;
    var l3, l4, l5 := "A  " + p3, " D " + p4, "?? " + p5;
    assert l0[..3] == "M  " && l1[..3] == " M " && l2[..3] == "MM ";
    assert l3[..3] == "A  " && l4[..3] == " D " && l5[..3] == "?? ";
    GatherLengthOfSix(l0, l1, l2, l3, l4, l5, StagedOf);
    GatherLengthOfSix(l0, l1, l2, l3, l4, l5, UnstagedOf);
    GatherLengthOfSix(l0, l1, l2, l3, l4, l5, UntrackedOf);
  }

  /**
    Where the unit test's paths land: the staged modification and the added
    file are staged, the worktree modification is unstaged and the `??`
    file is untracked, each under its own path when it has no rename arrow.
  */
  lemma SampleOutputPaths(p0: string, p1: string, p2: string, p3: string, p4: string, p5: string)
    requires !Contains(p0, RenameArrow) && !Contains(p1, RenameArrow)
    requires !Contains(p3, RenameArrow) && !Contains(p5, RenameArrow)
    ensures var ls := ["M  " + p0, " M " + p1, "MM " + p2, "A  " + p3, " D " + p4, "?? " + p5];
            && FileStatus(p0, "modified") in Gather(ls, StagedOf)
            && FileStatus(p3, "added") in Gather(ls, StagedOf)
            && FileStatus(p1, "modified") in Gather(ls, UnstagedOf)
            && FileStatus(p5, "untracked") in Gather(ls, UntrackedOf)
  {
    var l0, l1, l2 := "M  " + p0, " M " + p1, "MM " + p2;
    var l3, l4, l5 := "A  " + p3, " D " + p4, "?? " + p5;
    var ls := [l0, l1, l2, l3, l4, l5];
    assert l0[..3] == "M  " && l0[3..] == p0;
    assert StagedOf(l0) == Some(FileStatus(p0, "modified"));
    EntryIsGathered(ls, 0, StagedOf, FileStatus(p0, "modified"));
    assert l3[..3] == "A  " && l3[3..] == p3;
    assert StagedOf(l3) == Some(FileStatus(p3, "added"));
    EntryIsGathered(ls, 3, StagedOf, FileStatus(p3, "added"));
    assert l1[..3] == " M " && l1[3..] == p1;
    assert UnstagedOf(l1) == Some(FileStatus(p1, "modified"));
    EntryIsGathered(ls, 1, UnstagedOf, FileStatus(p1, "modified"));
    assert l5[..3] == "?? " && l5[3..] == p5;
    assert UntrackedOf(l5) == Some(FileStatus(p5, "untracked"));
    EntryIsGathered(ls, 5, UntrackedOf, FileStatus(p5, "untracked"));
  }

  /** The entry one line yields is in the gathered list. */
  lemma EntryIsGathered(ls: seq<string>, k: nat, f: string -> Option<FileStatus>, v: FileStatus)
    requires k < |ls| && f(ls[k]) == Some(v)
    ensures v in Gather(ls, f)
  {
    GatherMembership(ls, f, v);
  }
}
