/**
  The path filter of the status watcher: which changed paths make the
  working-tree status refresh. It differs from the diff view's filter in
  one respect only, proved below.
*/
module StatusWatcherFilter {
  import opened Text
  import opened WatchPaths
  import DW = DiffWatcherFilter

  /** `.git` internals that change often without changing the status. */
  const GitInternalPrefixes: seq<string> := [".git/objects/", ".git/logs/", ".git/hooks/", ".git/info/"]

  /** Temporary and generated files. */
  const TempSuffixes: seq<string> :=
    [".pyc", ".pyo", ".class", ".o", ".a", ".so", ".dylib", "~", ".swp", ".swo"]

  /** The second group of tests: noisy `.git` internals, the fsmonitor files anywhere, and lock files. */
  predicate IsGitNoise(s: string)
  {
    AnyStartsWith(s, GitInternalPrefixes) || Contains(s, ".git/fsmonitor") || EndsWith(s, ".lock")
  }

  /**
    `should_trigger_refresh`: a path outside the repository never triggers;
    the index, HEAD and refs always do, before any exclusion; noisy `.git`
    internals, `.git/fsmonitor` anywhere and `.lock` files are ignored, as is
    every other `.git/` path, the build directories, the temporary suffixes
    and `.DS_Store`; anything else triggers.
  */
  function ShouldTriggerRefresh(path: Path, root: Path): (r: bool)
    ensures !(root <= path) ==> !r
    ensures root <= path ==> (IsKeyGitFile(RelativeTo(path, root)) ==> r)
    ensures root <= path ==>
              (!IsKeyGitFile(RelativeTo(path, root))
               && (IsGitNoise(RelativeTo(path, root)) || StartsWith(RelativeTo(path, root), ".git/"))
               ==> !r)
    ensures root <= path ==> (AnyStartsWith(RelativeTo(path, root), BuildDirPrefixes) ==> !r)
    ensures root <= path ==>
              (!IsKeyGitFile(RelativeTo(path, root))
               && (AnyEndsWith(RelativeTo(path, root), TempSuffixes) || Contains(RelativeTo(path, root), ".DS_Store"))
               ==> !r)
    ensures root <= path ==>
              (!IsGitNoise(RelativeTo(path, root))
               && !StartsWith(RelativeTo(path, root), ".git/")
               && !AnyStartsWith(RelativeTo(path, root), BuildDirPrefixes)
               && !AnyEndsWith(RelativeTo(path, root), TempSuffixes)
               && !Contains(RelativeTo(path, root), ".DS_Store")
               ==> r)
  {
    match StripPrefix(path, root)
    case None => false
    case Some(rel) =>
      var s := RelativeText(rel);
      DW.BuildDirsAreNotGit(s);
      if IsKeyGitFile(s) then true
      else if IsGitNoise(s) then false
      else if StartsWith(s, ".git/") then false
      else if AnyStartsWith(s, BuildDirPrefixes) then false
      else if AnyEndsWith(s, TempSuffixes) || Contains(s, ".DS_Store") then false
      else true
  }

  /** Every noisy-internals prefix lies inside `.git/`. */
  lemma GitInternalsAreGit(s: string)
    ensures AnyStartsWith(s, GitInternalPrefixes) ==> StartsWith(s, ".git/")
  {
    if AnyStartsWith(s, GitInternalPrefixes) {
      var k :| 0 <= k < |GitInternalPrefixes| && StartsWith(s, GitInternalPrefixes[k]);
      assert GitInternalPrefixes[k][..5] == ".git/";
      assert s[..5] == s[..|GitInternalPrefixes[k]|][..5];
    }
  }

  /** The diff filter's suffix list is this filter's list followed by ".lock". */
  lemma SuffixListsDifferByLock(s: string)
    ensures AnyEndsWith(s, DW.IgnoredSuffixes) <==> AnyEndsWith(s, TempSuffixes) || EndsWith(s, ".lock")
  {
    assert DW.IgnoredSuffixes == TempSuffixes + [".lock"];
    if AnyEndsWith(s, DW.IgnoredSuffixes) {
      var k :| 0 <= k < |DW.IgnoredSuffixes| && EndsWith(s, DW.IgnoredSuffixes[k]);
      if k < |TempSuffixes| {
        assert DW.IgnoredSuffixes[k] == TempSuffixes[k];
      }
    }
    if AnyEndsWith(s, TempSuffixes) {
      var k :| 0 <= k < |TempSuffixes| && EndsWith(s, TempSuffixes[k]);
      assert DW.IgnoredSuffixes[k] == TempSuffixes[k];
    }
    assert DW.IgnoredSuffixes[10] == ".lock";
  }

  /**
    The two watchers decide alike on every path except one inside the
    repository that is not a key `.git` file and contains ".git/fsmonitor"
    somewhere: the status watcher ignores it, the diff watcher does not
    (unless another of its exclusions applies).
  */
  lemma FiltersAgreeExceptFsmonitor(path: Path, root: Path)
    ensures ShouldTriggerRefresh(path, root)
            == (DW.ShouldTriggerRefresh(path, root)
                && !(root <= path && !IsKeyGitFile(RelativeTo(path, root))
                     && Contains(RelativeTo(path, root), ".git/fsmonitor")))
  {
    if root <= path {
      var s := RelativeTo(path, root);
      GitInternalsAreGit(s);
      SuffixListsDifferByLock(s);
      DW.BuildDirsAreNotGit(s);
    }
  }

  /** "sub/.git/fsmonitor-daemon" is no key file and holds ".git/fsmonitor". */
  lemma NestedFsmonitorIsNoise(s: string)
    requires s == "sub" + "/" + ".git" + "/" + "fsmonitor-daemon"
    ensures !IsKeyGitFile(s) && Contains(s, ".git/fsmonitor")
  {
    PrefixMismatch(s, ".git/refs/", 0);
    assert OccursAt(s, ".git/fsmonitor", 4);
    ContainsAt(s, ".git/fsmonitor");
  }

  /** "sub/.git/fsmonitor-daemon" meets none of the diff watcher's exclusions. */
  lemma NestedFsmonitorPassesDiffFilter(s: string)
    requires s == "sub" + "/" + ".git" + "/" + "fsmonitor-daemon"
    ensures !StartsWith(s, ".git/") && !AnyStartsWith(s, BuildDirPrefixes)
            && !AnyEndsWith(s, DW.IgnoredSuffixes) && !Contains(s, ".DS_Store")
  {
    PrefixMismatch(s, ".git/", 0);
    forall k | 0 <= k < |BuildDirPrefixes| ensures !StartsWith(s, BuildDirPrefixes[k]) {
      PrefixMismatch(s, BuildDirPrefixes[k], 0);
    }
    forall k | 0 <= k < |DW.IgnoredSuffixes| ensures !EndsWith(s, DW.IgnoredSuffixes[k]) {
      SuffixMismatch(s, DW.IgnoredSuffixes[k], 0);
    }
    MissingChar(s, ".DS_Store", 'S');
  }

  /** An fsmonitor file below a nested `.git` directory: the status watcher ignores it, the diff watcher does not. */
  lemma FsmonitorDisagreement(path: Path)
    requires path == DW.Repo + ["sub", ".git", "fsmonitor-daemon"]
    ensures !ShouldTriggerRefresh(path, DW.Repo)
    ensures DW.ShouldTriggerRefresh(path, DW.Repo)
  {
    DW.InRepo(["sub", ".git", "fsmonitor-daemon"]);
    RelativeTextTriple("sub", ".git", "fsmonitor-daemon");
    NestedFsmonitorIsNoise(RelativeTo(path, DW.Repo));
    NestedFsmonitorPassesDiffFilter(RelativeTo(path, DW.Repo));
    FiltersAgreeExceptFsmonitor(path, DW.Repo);
  }

  /** A text that meets none of the noise tests is no noise. */
  lemma NotNoise(s: string)
    requires !AnyStartsWith(s, GitInternalPrefixes) && !Contains(s, ".git/fsmonitor") && !EndsWith(s, ".lock")
    ensures !IsGitNoise(s)
  {
  }

  /** "src/main.rs" starts with none of the excluded prefixes. */
  lemma SourceFileNoPrefix(s: string)
    requires s == "src" + "/" + "main.rs"
    ensures !AnyStartsWith(s, GitInternalPrefixes) && !StartsWith(s, ".git/") && !AnyStartsWith(s, BuildDirPrefixes)
  {
    PrefixMismatch(s, ".git/", 0);
    forall k | 0 <= k < |GitInternalPrefixes| ensures !StartsWith(s, GitInternalPrefixes[k]) {
      PrefixMismatch(s, GitInternalPrefixes[k], 0);
    }
    forall k | 0 <= k < |BuildDirPrefixes| ensures !StartsWith(s, BuildDirPrefixes[k]) {
      PrefixMismatch(s, BuildDirPrefixes[k], 0);
    }
  }

  /** "src/main.rs" ends with none of the excluded suffixes and holds neither marker. */
  lemma SourceFileNoSuffix(s: string)
    requires s == "src" + "/" + "main.rs"
    ensures !AnyEndsWith(s, TempSuffixes) && !EndsWith(s, ".lock")
    ensures !Contains(s, ".git/fsmonitor") && !Contains(s, ".DS_Store")
  {
    forall k | 0 <= k < |TempSuffixes| ensures !EndsWith(s, TempSuffixes[k]) {
      if k == 2 {
        SuffixMismatch(s, TempSuffixes[k], 1);
      } else {
        SuffixMismatch(s, TempSuffixes[k], 0);
      }
    }
    SuffixMismatch(s, ".lock", 0);
    MissingChar(s, ".git/fsmonitor", 'g');
    MissingChar(s, ".DS_Store", 'S');
  }

  lemma SourceFileTriggers(path: Path)
    requires path == DW.Repo + ["src", "main.rs"]
    ensures ShouldTriggerRefresh(path, DW.Repo)
  {
    DW.InRepo(["src", "main.rs"]);
    RelativeTextPair("src", "main.rs");
    var s := RelativeTo(path, DW.Repo);
    SourceFileNoPrefix(s);
    SourceFileNoSuffix(s);
    NotNoise(s);
  }

  /** "README.md" starts with none of the excluded prefixes. */
  lemma ReadmeNoPrefix(s: string)
    requires s == "README.md"
    ensures !AnyStartsWith(s, GitInternalPrefixes) && !StartsWith(s, ".git/") && !AnyStartsWith(s, BuildDirPrefixes)
  {
    PrefixMismatch(s, ".git/", 0);
    forall k | 0 <= k < |GitInternalPrefixes| ensures !StartsWith(s, GitInternalPrefixes[k]) {
      PrefixMismatch(s, GitInternalPrefixes[k], 0);
    }
    forall k | 0 <= k < |BuildDirPrefixes| ensures !StartsWith(s, BuildDirPrefixes[k]) {
      PrefixMismatch(s, BuildDirPrefixes[k], 0);
    }
  }

  /** "README.md" ends with none of the excluded suffixes and holds neither marker. */
  lemma ReadmeNoSuffix(s: string)
    requires s == "README.md"
    ensures !AnyEndsWith(s, TempSuffixes) && !EndsWith(s, ".lock")
    ensures !Contains(s, ".git/fsmonitor") && !Contains(s, ".DS_Store")
  {
    forall k | 0 <= k < |TempSuffixes| ensures !EndsWith(s, TempSuffixes[k]) {
      SuffixMismatch(s, TempSuffixes[k], 0);
    }
    SuffixMismatch(s, ".lock", 0);
    MissingChar(s, ".git/fsmonitor", 'g');
    MissingChar(s, ".DS_Store", 'S');
  }

  lemma ReadmeTriggers(path: Path)
    requires path == DW.Repo + ["README.md"]
    ensures ShouldTriggerRefresh(path, DW.Repo)
  {
    DW.InRepo(["README.md"]);
    assert RelativeText(["README.md"]) == "README.md";
    var s := RelativeTo(path, DW.Repo);
    ReadmeNoPrefix(s);
    ReadmeNoSuffix(s);
    NotNoise(s);
  }

  /** The index and HEAD always trigger. */
  lemma KeyFileTriggers(path: Path, name: string)
    requires name == "index" || name == "HEAD"
    requires path == DW.Repo + [".git", name]
    ensures ShouldTriggerRefresh(path, DW.Repo)
  {
    DW.InRepo([".git", name]);
    RelativeTextPair(".git", name);
    DW.KeyFileText(RelativeTo(path, DW.Repo), name);
  }

  lemma RefTriggers(path: Path)
    requires path == DW.Repo + [".git", "refs", "heads", "main"]
    ensures ShouldTriggerRefresh(path, DW.Repo)
  {
    DW.InRepo([".git", "refs", "heads", "main"]);
    RelativeTextQuad(".git", "refs", "heads", "main");
    DW.RefText(RelativeTo(path, DW.Repo));
  }

  lemma ObjectsIgnored(path: Path)
    requires path == DW.Repo + [".git", "objects", "ab", "cdef123"]
    ensures !ShouldTriggerRefresh(path, DW.Repo)
  {
    DW.InRepo([".git", "objects", "ab", "cdef123"]);
    RelativeTextQuad(".git", "objects", "ab", "cdef123");
    DW.OtherGitText(RelativeTo(path, DW.Repo), "objects" + "/" + "ab" + "/" + "cdef123");
  }

  lemma LogsIgnored(path: Path)
    requires path == DW.Repo + [".git", "logs", "HEAD"]
    ensures !ShouldTriggerRefresh(path, DW.Repo)
  {
    DW.InRepo([".git", "logs", "HEAD"]);
    RelativeTextTriple(".git", "logs", "HEAD");
    DW.OtherGitText(RelativeTo(path, DW.Repo), "logs" + "/" + "HEAD");
  }

  lemma NodeModulesIgnored(path: Path)
    requires path == DW.Repo + ["node_modules", "foo", "bar.js"]
    ensures !ShouldTriggerRefresh(path, DW.Repo)
  {
    DW.InRepo(["node_modules", "foo", "bar.js"]);
    RelativeTextTriple("node_modules", "foo", "bar.js");
    assert "node_modules" + "/" + "foo" + "/" + "bar.js" == BuildDirPrefixes[0] + ("foo" + "/" + "bar.js");
    DW.BuildDirText(RelativeTo(path, DW.Repo), 0, "foo" + "/" + "bar.js");
  }

  lemma TargetIgnored(path: Path)
    requires path == DW.Repo + ["target", "debug", "build"]
    ensures !ShouldTriggerRefresh(path, DW.Repo)
  {
    DW.InRepo(["target", "debug", "build"]);
    RelativeTextTriple("target", "debug", "build");
    assert "target" + "/" + "debug" + "/" + "build" == BuildDirPrefixes[1] + ("debug" + "/" + "build");
    DW.BuildDirText(RelativeTo(path, DW.Repo), 1, "debug" + "/" + "build");
  }

  lemma IndexLockIgnored(path: Path)
    requires path == DW.Repo + [".git", "index.lock"]
    ensures !ShouldTriggerRefresh(path, DW.Repo)
  {
    DW.InRepo([".git", "index.lock"]);
    RelativeTextPair(".git", "index.lock");
    DW.OtherGitText(RelativeTo(path, DW.Repo), "index.lock");
  }

  lemma PycIgnored(path: Path)
    requires path == DW.Repo + ["foo.pyc"]
    ensures !ShouldTriggerRefresh(path, DW.Repo)
  {
    DW.InRepo(["foo.pyc"]);
    assert RelativeText(["foo.pyc"]) == "foo.pyc";
    DW.PycText(RelativeTo(path, DW.Repo));
    assert DW.IgnoredSuffixes[0] == TempSuffixes[0];
  }

  /** The cases of the unit test, with the repository at "/repo". */
  lemma TestVectors()
    ensures ShouldTriggerRefresh(DW.Repo + ["src", "main.rs"], DW.Repo)
    ensures ShouldTriggerRefresh(DW.Repo + [".git", "index"], DW.Repo)
    ensures ShouldTriggerRefresh(DW.Repo + [".git", "HEAD"], DW.Repo)
    ensures ShouldTriggerRefresh(DW.Repo + [".git", "refs", "heads", "main"], DW.Repo)
    ensures ShouldTriggerRefresh(DW.Repo + ["README.md"], DW.Repo)
    ensures !ShouldTriggerRefresh(DW.Repo + [".git", "objects", "ab", "cdef123"], DW.Repo)
    ensures !ShouldTriggerRefresh(DW.Repo + [".git", "logs", "HEAD"], DW.Repo)
    ensures !ShouldTriggerRefresh(DW.Repo + ["node_modules", "foo", "bar.js"], DW.Repo)
    ensures !ShouldTriggerRefresh(DW.Repo + ["target", "debug", "build"], DW.Repo)
    ensures !ShouldTriggerRefresh(DW.Repo + [".git", "index.lock"], DW.Repo)
    ensures !ShouldTriggerRefresh(DW.Repo + ["foo.pyc"], DW.Repo)
  {
    SourceFileTriggers(DW.Repo + ["src", "main.rs"]);
    KeyFileTriggers(DW.Repo + [".git", "index"], "index");
    KeyFileTriggers(DW.Repo + [".git", "HEAD"], "HEAD");
    RefTriggers(DW.Repo + [".git", "refs", "heads", "main"]);
    ReadmeTriggers(DW.Repo + ["README.md"]);
    ObjectsIgnored(DW.Repo + [".git", "objects", "ab", "cdef123"]);
    LogsIgnored(DW.Repo + [".git", "logs", "HEAD"]);
    NodeModulesIgnored(DW.Repo + ["node_modules", "foo", "bar.js"]);
    TargetIgnored(DW.Repo + ["target", "debug", "build"]);
    IndexLockIgnored(DW.Repo + [".git", "index.lock"]);
    PycIgnored(DW.Repo + ["foo.pyc"]);
  }
}
