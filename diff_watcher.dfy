/**
  The path filter of the diff view's repository watcher: which changed
  paths make the open diff refresh.
*/
module DiffWatcherFilter {
  import opened Text
  import opened WatchPaths

  /** Temporary and generated files, in the order they are tried. */
  const IgnoredSuffixes: seq<string> :=
    [".pyc", ".pyo", ".class", ".o", ".a", ".so", ".dylib", "~", ".swp", ".swo", ".lock"]

  /**
    `should_trigger_refresh`: a path outside the repository never triggers;
    the index, HEAD and refs always do, before any exclusion; every other
    `.git/` path, the build directories, the temporary suffixes and
    `.DS_Store` are ignored; anything else triggers.
  */
  function ShouldTriggerRefresh(path: Path, root: Path): (r: bool)
    ensures !(root <= path) ==> !r
    ensures root <= path ==> (IsKeyGitFile(RelativeTo(path, root)) ==> r)
    ensures root <= path ==>
              (!IsKeyGitFile(RelativeTo(path, root)) && StartsWith(RelativeTo(path, root), ".git/") ==> !r)
    ensures root <= path ==> (AnyStartsWith(RelativeTo(path, root), BuildDirPrefixes) ==> !r)
    ensures root <= path ==>
              (!IsKeyGitFile(RelativeTo(path, root))
               && (AnyEndsWith(RelativeTo(path, root), IgnoredSuffixes) || Contains(RelativeTo(path, root), ".DS_Store"))
               ==> !r)
    ensures root <= path ==>
              (!StartsWith(RelativeTo(path, root), ".git/")
               && !AnyStartsWith(RelativeTo(path, root), BuildDirPrefixes)
               && !AnyEndsWith(RelativeTo(path, root), IgnoredSuffixes)
               && !Contains(RelativeTo(path, root), ".DS_Store")
               ==> r)
  {
    match StripPrefix(path, root)
    case None => false
    case Some(rel) =>
      var s := RelativeText(rel);
      BuildDirsAreNotGit(s);
      if IsKeyGitFile(s) then true
      else if StartsWith(s, ".git/") then false
      else if AnyStartsWith(s, BuildDirPrefixes) then false
      else if AnyEndsWith(s, IgnoredSuffixes) then false
      else if Contains(s, ".DS_Store") then false
      else true
  }

  /** No path is both inside `.git/` and inside one of the build directories (so a key file is never a build file). */
  lemma BuildDirsAreNotGit(s: string)
    ensures StartsWith(s, ".git/") ==> !AnyStartsWith(s, BuildDirPrefixes)
  {
    if StartsWith(s, ".git/") {
      assert s[0] == s[..5][0] && s[1] == s[..5][1];
      forall k | 0 <= k < |BuildDirPrefixes| ensures !StartsWith(s, BuildDirPrefixes[k]) {
        if BuildDirPrefixes[k][0] == '.' {
          PrefixMismatch(s, BuildDirPrefixes[k], 1);
        } else {
          PrefixMismatch(s, BuildDirPrefixes[k], 0);
        }
      }
    }
  }

  /** The repository of the unit tests, at "/repo". */
  const Repo: Path := ["/", "repo"]

  /** A path of the unit tests, given relative to "/repo", and its relative text. */
  lemma InRepo(rel: Path)
    ensures Repo <= Repo + rel && RelativeTo(Repo + rel, Repo) == RelativeText(rel)
  {
    assert (Repo + rel)[|Repo|..] == rel;
  }

  /** "src/main.rs" meets none of the exclusions. */
  lemma SourceFileText(s: string)
    requires s == "src" + "/" + "main.rs"
    ensures !StartsWith(s, ".git/") && !AnyStartsWith(s, BuildDirPrefixes)
            && !AnyEndsWith(s, IgnoredSuffixes) && !Contains(s, ".DS_Store")
  {
    PrefixMismatch(s, ".git/", 0);
    forall k | 0 <= k < |BuildDirPrefixes| ensures !StartsWith(s, BuildDirPrefixes[k]) {
      PrefixMismatch(s, BuildDirPrefixes[k], 0);
    }
    forall k | 0 <= k < |IgnoredSuffixes| ensures !EndsWith(s, IgnoredSuffixes[k]) {
      if k == 2 {
        SuffixMismatch(s, IgnoredSuffixes[k], 1);
      } else {
        SuffixMismatch(s, IgnoredSuffixes[k], 0);
      }
    }
    MissingChar(s, ".DS_Store", 'D');
  }

  lemma SourceFileTriggers(path: Path)
    requires path == Repo + ["src", "main.rs"]
    ensures ShouldTriggerRefresh(path, Repo)
  {
    InRepo(["src", "main.rs"]);
    RelativeTextPair("src", "main.rs");
    SourceFileText(RelativeTo(path, Repo));
  }

  /** The index and HEAD are key files. */
  lemma KeyFileText(s: string, name: string)
    requires s == ".git" + "/" + name && (name == "index" || name == "HEAD")
    ensures IsKeyGitFile(s)
  {
    assert s == ".git/index" || s == ".git/HEAD";
  }

  /** The index and HEAD always trigger. */
  lemma KeyFileTriggers(path: Path, name: string)
    requires name == "index" || name == "HEAD"
    requires path == Repo + [".git", name]
    ensures ShouldTriggerRefresh(path, Repo)
  {
    InRepo([".git", name]);
    RelativeTextPair(".git", name);
    KeyFileText(RelativeTo(path, Repo), name);
  }

  /** A path below ".git/refs/" is a key file. */
  lemma RefText(s: string)
    requires s == ".git" + "/" + "refs" + "/" + "heads" + "/" + "main"
    ensures IsKeyGitFile(s)
  {
    assert s[..10] == ".git/refs/";
  }

  lemma RefTriggers(path: Path)
    requires path == Repo + [".git", "refs", "heads", "main"]
    ensures ShouldTriggerRefresh(path, Repo)
  {
    InRepo([".git", "refs", "heads", "main"]);
    RelativeTextQuad(".git", "refs", "heads", "main");
    RefText(RelativeTo(path, Repo));
  }

  /** A path below ".git/" whose first component there is not "refs", and that is not the index or HEAD. */
  lemma OtherGitText(s: string, rest: string)
    requires s == ".git" + "/" + rest && |rest| > 5 && rest[0] != 'r'
    ensures StartsWith(s, ".git/") && !IsKeyGitFile(s)
  {
    assert s[..5] == ".git/";
    PrefixMismatch(s, ".git/refs/", 5);
  }

  lemma ObjectsIgnored(path: Path)
    requires path == Repo + [".git", "objects", "ab", "cdef"]
    ensures !ShouldTriggerRefresh(path, Repo)
  {
    InRepo([".git", "objects", "ab", "cdef"]);
    RelativeTextQuad(".git", "objects", "ab", "cdef");
    OtherGitText(RelativeTo(path, Repo), "objects" + "/" + "ab" + "/" + "cdef");
  }

  lemma IndexLockIgnored(path: Path)
    requires path == Repo + [".git", "index.lock"]
    ensures !ShouldTriggerRefresh(path, Repo)
  {
    InRepo([".git", "index.lock"]);
    RelativeTextPair(".git", "index.lock");
    OtherGitText(RelativeTo(path, Repo), "index.lock");
  }

  /** A path whose first component is a build directory. */
  lemma BuildDirText(s: string, k: nat, rest: string)
    requires k < |BuildDirPrefixes| && s == BuildDirPrefixes[k] + rest
    ensures AnyStartsWith(s, BuildDirPrefixes)
  {
    assert s[..|BuildDirPrefixes[k]|] == BuildDirPrefixes[k];
  }

  lemma NodeModulesIgnored(path: Path)
    requires path == Repo + ["node_modules", "foo.js"]
    ensures !ShouldTriggerRefresh(path, Repo)
  {
    InRepo(["node_modules", "foo.js"]);
    RelativeTextPair("node_modules", "foo.js");
    assert "node_modules" + "/" + "foo.js" == BuildDirPrefixes[0] + "foo.js";
    BuildDirText(RelativeTo(path, Repo), 0, "foo.js");
  }

  lemma TargetIgnored(path: Path)
    requires path == Repo + ["target", "debug", "foo"]
    ensures !ShouldTriggerRefresh(path, Repo)
  {
    InRepo(["target", "debug", "foo"]);
    RelativeTextTriple("target", "debug", "foo");
    assert "target" + "/" + "debug" + "/" + "foo" == BuildDirPrefixes[1] + ("debug" + "/" + "foo");
    BuildDirText(RelativeTo(path, Repo), 1, "debug" + "/" + "foo");
  }

  /** "foo.pyc" is no key file and ends with the first ignored suffix. */
  lemma PycText(s: string)
    requires s == "foo.pyc"
    ensures !IsKeyGitFile(s) && EndsWith(s, IgnoredSuffixes[0])
  {
    PrefixMismatch(s, ".git/refs/", 0);
    assert s[|s| - 4..] == IgnoredSuffixes[0];
  }

  lemma PycIgnored(path: Path)
    requires path == Repo + ["foo.pyc"]
    ensures !ShouldTriggerRefresh(path, Repo)
  {
    InRepo(["foo.pyc"]);
    assert RelativeText(["foo.pyc"]) == "foo.pyc";
    PycText(RelativeTo(path, Repo));
  }

  /** The cases of the unit test, with the repository at "/repo". */
  lemma TestVectors()
    ensures ShouldTriggerRefresh(Repo + ["src", "main.rs"], Repo)
    ensures ShouldTriggerRefresh(Repo + [".git", "index"], Repo)
    ensures ShouldTriggerRefresh(Repo + [".git", "HEAD"], Repo)
    ensures ShouldTriggerRefresh(Repo + [".git", "refs", "heads", "main"], Repo)
    ensures !ShouldTriggerRefresh(Repo + [".git", "objects", "ab", "cdef"], Repo)
    ensures !ShouldTriggerRefresh(Repo + ["node_modules", "foo.js"], Repo)
    ensures !ShouldTriggerRefresh(Repo + ["target", "debug", "foo"], Repo)
    ensures !ShouldTriggerRefresh(Repo + ["foo.pyc"], Repo)
    ensures !ShouldTriggerRefresh(Repo + [".git", "index.lock"], Repo)
  {
    SourceFileTriggers(Repo + ["src", "main.rs"]);
    KeyFileTriggers(Repo + [".git", "index"], "index");
    KeyFileTriggers(Repo + [".git", "HEAD"], "HEAD");
    RefTriggers(Repo + [".git", "refs", "heads", "main"]);
    ObjectsIgnored(Repo + [".git", "objects", "ab", "cdef"]);
    NodeModulesIgnored(Repo + ["node_modules", "foo.js"]);
    TargetIgnored(Repo + ["target", "debug", "foo"]);
    PycIgnored(Repo + ["foo.pyc"]);
    IndexLockIgnored(Repo + [".git", "index.lock"]);
  }
}
