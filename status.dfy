/**
  Working-tree status from libgit2's per-file status flags: the label shown
  for a file and the sorting of files into staged, unstaged and untracked.
*/
module GitStatusModel {
  import opened DiffTypes

  /** The libgit2 status flags a file can carry. */
  datatype Flag =
    | IndexNew | IndexModified | IndexDeleted | IndexRenamed | IndexTypechange
    | WtNew | WtModified | WtDeleted | WtTypechange | WtRenamed | WtUnreadable
    | Ignored | Conflicted

  /** A file's status is the set of flags it carries (the empty set is "current"). */
  type Status = set<Flag>

  const IndexFlags: set<Flag> := {IndexNew, IndexModified, IndexDeleted, IndexRenamed, IndexTypechange}

  /** The working-tree flags that make a file unstaged; `WtNew` is not among them. */
  const WorktreeChangeFlags: set<Flag> := {WtModified, WtDeleted, WtRenamed, WtTypechange}

  datatype FileStatus = FileStatus(path: string, status: string)

  /** One entry of the status list; libgit2 may report no path. */
  datatype StatusEntry = StatusEntry(path: Option<string>, status: Status)

  /**
    `status_to_string`: the first flag present, in the order new, modified,
    deleted, renamed, typechange, of the index flags when `staged` holds and
    of the working-tree flags otherwise ("untracked" for a new file).
  */
  function StatusToString(status: Status, staged: bool): (text: string)
    ensures staged ==> (text == "added" <==> IndexNew in status)
    ensures staged ==> (text == "modified" <==> IndexNew !in status && IndexModified in status)
    ensures staged ==> (text == "deleted"
                        <==> IndexNew !in status && IndexModified !in status && IndexDeleted in status)
    ensures staged ==> (text == "renamed"
                        <==> IndexNew !in status && IndexModified !in status && IndexDeleted !in status
                             && IndexRenamed in status)
    ensures staged ==> (text == "typechange"
                        <==> IndexNew !in status && IndexModified !in status && IndexDeleted !in status
                             && IndexRenamed !in status && IndexTypechange in status)
    ensures !staged ==> (text == "untracked" <==> WtNew in status)
    ensures !staged ==> (text == "modified" <==> WtNew !in status && WtModified in status)
    ensures !staged ==> (text == "deleted"
                         <==> WtNew !in status && WtModified !in status && WtDeleted in status)
    ensures !staged ==> (text == "renamed"
                         <==> WtNew !in status && WtModified !in status && WtDeleted !in status
                              && WtRenamed in status)
    ensures !staged ==> (text == "typechange"
                         <==> WtNew !in status && WtModified !in status && WtDeleted !in status
                              && WtRenamed !in status && WtTypechange in status)
  {
    if staged then
      if IndexNew in status then "added"
      else if IndexModified in status then "modified"
      else if IndexDeleted in status then "deleted"
      else if IndexRenamed in status then "renamed"
      else if IndexTypechange in status then "typechange"
      else "unknown"
    else if WtNew in status then "untracked"
    else if WtModified in status then "modified"
    else if WtDeleted in status then "deleted"
    else if WtRenamed in status then "renamed"
    else if WtTypechange in status then "typechange"
    else "unknown"
  }

  /** The staged label is "unknown" exactly when no index flag is set; the unstaged one when no new or change flag is. */
  lemma UnknownLabel(status: Status)
    ensures StatusToString(status, true) == "unknown" <==> status * IndexFlags == {}
    ensures StatusToString(status, false) == "unknown" <==> status * (WorktreeChangeFlags + {WtNew}) == {}
  {
    if status * IndexFlags != {} {
      var f :| f in status * IndexFlags;
      assert f == IndexNew || f == IndexModified || f == IndexDeleted || f == IndexRenamed || f == IndexTypechange;
    } else {
      forall f | f in IndexFlags ensures f !in status {
        assert f in status ==> f in status * IndexFlags;
      }
    }
    if status * (WorktreeChangeFlags + {WtNew}) != {} {
      var f :| f in status * (WorktreeChangeFlags + {WtNew});
      assert f == WtNew || f == WtModified || f == WtDeleted || f == WtRenamed || f == WtTypechange;
    } else {
      forall f | f in WorktreeChangeFlags + {WtNew} ensures f !in status {
        assert f in status ==> f in status * (WorktreeChangeFlags + {WtNew});
      }
    }
  }

  function PathOrEmpty(path: Option<string>): string
  {
    match path
    case Some(p) => p
    case None => ""
  }

  /** What one entry adds to the staged list. */
  function StagedEntry(e: StatusEntry): (r: Option<FileStatus>)
    ensures r.Some? <==> e.status * IndexFlags != {}
    ensures r.Some? ==> r.value == FileStatus(PathOrEmpty(e.path), StatusToString(e.status, true))
  {
    if e.status * IndexFlags != {} then Some(FileStatus(PathOrEmpty(e.path), StatusToString(e.status, true)))
    else None
  }

  /** What one entry adds to the unstaged list. */
  function UnstagedEntry(e: StatusEntry): (r: Option<FileStatus>)
    ensures r.Some? <==> e.status * WorktreeChangeFlags != {}
    ensures r.Some? ==> r.value == FileStatus(PathOrEmpty(e.path), StatusToString(e.status, false))
  {
    if e.status * WorktreeChangeFlags != {} then Some(FileStatus(PathOrEmpty(e.path), StatusToString(e.status, false)))
    else None
  }

  /** What one entry adds to the untracked list. */
  function UntrackedEntry(e: StatusEntry): (r: Option<FileStatus>)
    ensures r.Some? <==> WtNew in e.status
    ensures r.Some? ==> r.value == FileStatus(PathOrEmpty(e.path), "untracked")
  {
    if WtNew in e.status then Some(FileStatus(PathOrEmpty(e.path), "untracked")) else None
  }

  /** The values `f` yields over `xs`, in order (what a loop pushing `f`'s results builds). */
  function Gather<T>(xs: seq<T>, f: T -> Option<FileStatus>): seq<FileStatus>
  {
    if xs == [] then []
    else Gather(xs[..|xs| - 1], f)
         + (match f(xs[|xs| - 1]) case Some(v) => [v] case None => [])
  }

  /** One more input appends what `f` yields for it. */
  lemma GatherStep<T>(xs: seq<T>, i: nat, f: T -> Option<FileStatus>)
    requires i < |xs|
    ensures Gather(xs[..i + 1], f) == Gather(xs[..i], f) + (match f(xs[i]) case Some(v) => [v] case None => [])
  {
    assert xs[..i + 1][..i] == xs[..i];
  }

  /** Gathering over two stretches of input is gathering over each in turn: the output keeps input order. */
  lemma {:induction false} GatherConcat<T>(a: seq<T>, b: seq<T>, f: T -> Option<FileStatus>)
    ensures Gather(a + b, f) == Gather(a, f) + Gather(b, f)
    decreases |b|
  {
    if b == [] {
      assert a + b == a;
    } else {
      var c := a + b;
      assert c[..|c| - 1] == a + b[..|b| - 1];
      assert c[|c| - 1] == b[|b| - 1];
      GatherConcat(a, b[..|b| - 1], f);
    }
  }

  /** A value is gathered exactly when some input yields it. */
  lemma {:induction false} GatherMembership<T>(xs: seq<T>, f: T -> Option<FileStatus>, v: FileStatus)
    ensures v in Gather(xs, f) <==> exists k :: 0 <= k < |xs| && f(xs[k]) == Some(v)
    decreases |xs|
  {
    if xs != [] {
      var n := |xs| - 1;
      var init := xs[..n];
      GatherMembership(init, f, v);
      var last := match f(xs[n]) case Some(w) => [w] case None => [];
      assert Gather(xs, f) == Gather(init, f) + last;
      assert v in last <==> f(xs[n]) == Some(v);
      if v in Gather(init, f) {
        var k :| 0 <= k < |init| && f(init[k]) == Some(v);
        assert xs[k] == init[k];
      }
      if k :| 0 <= k < |xs| && f(xs[k]) == Some(v) {
        if k < n {
          assert init[k] == xs[k];
        }
      }
    }
  }

  /** The three lists the status loop builds. */
  datatype Buckets = Buckets(staged: seq<FileStatus>, unstaged: seq<FileStatus>, untracked: seq<FileStatus>)

  /**
    The bucketing loop of `get_status`: each entry is pushed onto `staged`
    if it has an index flag, onto `unstaged` if it has a working-tree change
    flag, and onto `untracked` if it is new in the working tree.
  */
  method BucketStatuses(entries: seq<StatusEntry>) returns (b: Buckets)
    ensures b.staged == Gather(entries, StagedEntry)
    ensures b.unstaged == Gather(entries, UnstagedEntry)
    ensures b.untracked == Gather(entries, UntrackedEntry)
  {
    var staged: seq<FileStatus> := [];
    var unstaged: seq<FileStatus> := [];
    var untracked: seq<FileStatus> := [];
    var i := 0;
    while i < |entries|
      invariant 0 <= i <= |entries|
      invariant staged == Gather(entries[..i], StagedEntry)
      invariant unstaged == Gather(entries[..i], UnstagedEntry)
      invariant untracked == Gather(entries[..i], UntrackedEntry)
    {
      var entry := entries[i];
      GatherStep(entries, i, StagedEntry);
      GatherStep(entries, i, UnstagedEntry);
      GatherStep(entries, i, UntrackedEntry);
      var path := PathOrEmpty(entry.path);
      var status := entry.status;

      // Staged changes (index)
      if status * IndexFlags != {} {
        staged := staged + [FileStatus(path, StatusToString(status, true))];
      }

      // Unstaged changes (working tree)
      if status * WorktreeChangeFlags != {} {
        unstaged := unstaged + [FileStatus(path, StatusToString(status, false))];
      }

      // Untracked files
      if WtNew in status {
        untracked := untracked + [FileStatus(path, "untracked")];
      }
      i := i + 1;
    }
    assert entries[..i] == entries;
    b := Buckets(staged, unstaged, untracked);
  }

  /**
    Membership in each list: a file is staged iff some entry for it has an
    index flag, unstaged iff some entry has a working-tree change flag, and
    untracked iff some entry is new in the working tree; the labels are the
    ones `StatusToString` gives, and a staged or unstaged label is never "unknown".
  */
  lemma BucketMembership(entries: seq<StatusEntry>, v: FileStatus)
    ensures v in Gather(entries, StagedEntry)
            <==> exists k :: 0 <= k < |entries| && entries[k].status * IndexFlags != {}
                             && v == FileStatus(PathOrEmpty(entries[k].path), StatusToString(entries[k].status, true))
    ensures v in Gather(entries, UnstagedEntry)
            <==> exists k :: 0 <= k < |entries| && entries[k].status * WorktreeChangeFlags != {}
                             && v == FileStatus(PathOrEmpty(entries[k].path), StatusToString(entries[k].status, false))
    ensures v in Gather(entries, UntrackedEntry)
            <==> exists k :: 0 <= k < |entries| && WtNew in entries[k].status
                             && v == FileStatus(PathOrEmpty(entries[k].path), "untracked")
    ensures v in Gather(entries, StagedEntry) || v in Gather(entries, UnstagedEntry) ==> v.status != "unknown"
  {
    GatherMembership(entries, StagedEntry, v);
    GatherMembership(entries, UnstagedEntry, v);
    GatherMembership(entries, UntrackedEntry, v);
    if v in Gather(entries, StagedEntry) {
      var k :| 0 <= k < |entries| && StagedEntry(entries[k]) == Some(v);
      UnknownLabel(entries[k].status);
    }
    if v in Gather(entries, UnstagedEntry) {
      var k :| 0 <= k < |entries| && UnstagedEntry(entries[k]) == Some(v);
      UnknownLabel(entries[k].status);
    }
  }

  /** A file both modified in the index and in the working tree is listed twice; a new file with no change flag only as untracked. */
  lemma BucketExamples()
    ensures var e := StatusEntry(Some("src/both.rs"), {IndexModified, WtModified});
            Gather([e], StagedEntry) == [FileStatus("src/both.rs", "modified")]
            && Gather([e], UnstagedEntry) == [FileStatus("src/both.rs", "modified")]
            && Gather([e], UntrackedEntry) == []
    ensures var e := StatusEntry(None, {WtNew});
            Gather([e], StagedEntry) == [] && Gather([e], UnstagedEntry) == []
            && Gather([e], UntrackedEntry) == [FileStatus("", "untracked")]
  {
    var e := StatusEntry(Some("src/both.rs"), {IndexModified, WtModified});
    assert IndexModified in e.status * IndexFlags;
    assert WtModified in e.status * WorktreeChangeFlags;
    var n := StatusEntry(None, {WtNew});
    assert n.status * IndexFlags == {};
    assert n.status * WorktreeChangeFlags == {};
  }
}
