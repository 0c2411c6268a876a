/**
  Paths as the file watchers see them: a sequence of components, the
  component-wise prefix test of `Path::strip_prefix`, and the text of a
  relative path with its components joined by '/'.
*/
module WatchPaths {
  import opened Text
  import opened DiffTypes

  /** A path as its components; an absolute path starts with the root component "/". */
  type Path = seq<string>

  /** `Path::strip_prefix`: the components after `base` when `base` is a component-wise prefix of `path`. */
  function StripPrefix(path: Path, base: Path): (r: Option<Path>)
    ensures r.Some? <==> base <= path
    ensures r.Some? ==> base + r.value == path
  {
    if base <= path then
      assert base + path[|base|..] == path;
      Some(path[|base|..])
    else None
  }

  /** The relative path as text, components separated by '/'. */
  function RelativeText(rel: Path): string
  {
    Join(rel, "/")
  }

  /** A two-component relative path is its components around one '/'. */
  lemma RelativeTextPair(a: string, b: string)
    ensures RelativeText([a, b]) == a + "/" + b
  {
    assert [a, b][1..] == [b];
    assert Join([b], "/") == b;
    assert Join([a, b], "/") == a + "/" + Join([b], "/");
  }

  /** Three components around two '/'. */
  lemma RelativeTextTriple(a: string, b: string, c: string)
    ensures RelativeText([a, b, c]) == a + "/" + b + "/" + c
  {
    assert [a, b, c][1..] == [b, c];
    RelativeTextPair(b, c);
  }

  /** Four components around three '/'. */
  lemma RelativeTextQuad(a: string, b: string, c: string, d: string)
    ensures RelativeText([a, b, c, d]) == a + "/" + b + "/" + c + "/" + d
  {
    assert [a, b, c, d][1..] == [b, c, d];
    RelativeTextTriple(b, c, d);
  }

  /** The text of `path` relative to `root`, for a path inside `root`. */
  function RelativeTo(path: Path, root: Path): string
    requires root <= path
  {
    RelativeText(path[|root|..])
  }

  /** Whether `s` starts with one of `prefixes` (a loop that returns at the first match). */
  function AnyStartsWith(s: string, prefixes: seq<string>): (b: bool)
    ensures b <==> exists k :: 0 <= k < |prefixes| && StartsWith(s, prefixes[k])
  {
    if prefixes == [] then false
    else if StartsWith(s, prefixes[0]) then true
    else
      var b := AnyStartsWith(s, prefixes[1..]);
      assert forall k :: 1 <= k < |prefixes| ==> prefixes[k] == prefixes[1..][k - 1];
      assert b ==> exists k :: 0 <= k < |prefixes| && StartsWith(s, prefixes[k]) by {
        if b {
          var k :| 0 <= k < |prefixes[1..]| && StartsWith(s, prefixes[1..][k]);
          assert prefixes[k + 1] == prefixes[1..][k];
        }
      }
      b
  }

  /** Whether `s` ends with one of `suffixes` (a loop that returns at the first match). */
  function AnyEndsWith(s: string, suffixes: seq<string>): (b: bool)
    ensures b <==> exists k :: 0 <= k < |suffixes| && EndsWith(s, suffixes[k])
  {
    if suffixes == [] then false
    else if EndsWith(s, suffixes[0]) then true
    else
      var b := AnyEndsWith(s, suffixes[1..]);
      assert forall k :: 1 <= k < |suffixes| ==> suffixes[k] == suffixes[1..][k - 1];
      assert b ==> exists k :: 0 <= k < |suffixes| && EndsWith(s, suffixes[k]) by {
        if b {
          var k :| 0 <= k < |suffixes[1..]| && EndsWith(s, suffixes[1..][k]);
          assert suffixes[k + 1] == suffixes[1..][k];
        }
      }
      b
  }

  /** The `.git` files whose change always means the repository state changed. */
  predicate IsKeyGitFile(s: string)
  {
    s == ".git/index" || s == ".git/HEAD" || StartsWith(s, ".git/refs/")
  }

  /** Build and dependency directories both watchers ignore. */
  const BuildDirPrefixes: seq<string> :=
    ["node_modules/", "target/", ".build/", "build/", "dist/", ".next/",
     "__pycache__/", ".pytest_cache/", "venv/", ".venv/"]
}
