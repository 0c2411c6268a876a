/**
  String helpers shared by the model: Rust's `str::lines`, `join`, `trim`,
  `starts_with`, `ends_with` and `contains`, over strings as sequences of
  characters.
*/
module Text {

  /** Index of the first '\n' in `s`, or `|s|` when there is none. */
  function NewlineIndex(s: string): (i: nat)
    ensures i <= |s|
    ensures i < |s| ==> s[i] == '\n'
    ensures forall k :: 0 <= k < i ==> s[k] != '\n'
  {
    if s == [] then 0
    else if s[0] == '\n' then 0
    else 1 + NewlineIndex(s[1..])
  }

  /** Drops one trailing carriage return (the "\r" of a "\r\n" line ending). */
  function StripCr(line: string): string
  {
    if |line| > 0 && line[|line| - 1] == '\r' then line[..|line| - 1] else line
  }

  /**
    Rust's `str::lines`: the text is cut after every '\n'; a piece that ended
    in '\n' loses it and then one '\r' before it; a final piece without '\n'
    is kept as it is, and there is no empty piece after a final '\n'.
  */
  function Lines(s: string): (ls: seq<string>)
    ensures forall k :: 0 <= k < |ls| ==> '\n' !in ls[k]
    ensures s == [] <==> ls == []
    decreases |s|
  {
    if s == [] then []
    else
      var i := NewlineIndex(s);
      if i == |s| then [s]
      else [StripCr(s[..i])] + Lines(s[i + 1..])
  }

  /** `ls.join(sep)`. */
  function Join(ls: seq<string>, sep: string): string
  {
    if ls == [] then ""
    else if |ls| == 1 then ls[0]
    else ls[0] + sep + Join(ls[1..], sep)
  }

  /** A line as `lines` produces it from text with '\n' endings: no '\n', no trailing '\r'. */
  predicate IsLine(l: string)
  {
    '\n' !in l && (l == [] || l[|l| - 1] != '\r')
  }

  lemma NewlineIndexAt(a: string, b: string)
    requires '\n' !in a
    ensures NewlineIndex(a + "\n" + b) == |a|
  {
    var s := a + "\n" + b;
    assert s[|a|] == '\n';
    assert forall k :: 0 <= k < |a| ==> s[k] == a[k];
  }

  /** A join of two or more lines: the first, the separator, then the join of the rest. */
  lemma JoinCons(ls: seq<string>, sep: string)
    requires |ls| >= 2
    ensures Join(ls, sep) + "\n" == ls[0] + sep + (Join(ls[1..], sep) + "\n")
    ensures Join(ls, sep) == ls[0] + sep + Join(ls[1..], sep)
  {
  }

  /** Reading a line and its '\n' off the front of a text. */
  lemma LinesCons(l: string, rest: string)
    requires IsLine(l)
    ensures Lines(l + "\n" + rest) == [l] + Lines(rest)
  {
    var s := l + "\n" + rest;
    NewlineIndexAt(l, rest);
    assert s[..|l|] == l;
    assert s[|l| + 1..] == rest;
  }

  /** The lines after the first still satisfy `IsLine`. */
  lemma TailAreLines(ls: seq<string>)
    requires ls != [] && forall k :: 0 <= k < |ls| ==> IsLine(ls[k])
    ensures forall k :: 0 <= k < |ls[1..]| ==> IsLine(ls[1..][k])
  {
    forall k | 0 <= k < |ls[1..]| ensures IsLine(ls[1..][k]) {
      assert ls[1..][k] == ls[k + 1];
    }
  }

  /** Writing lines joined by '\n' with a final '\n' and reading them back gives the same lines. */
  lemma {:induction false} LinesOfJoinWithNewline(ls: seq<string>)
    requires ls != []
    requires forall k :: 0 <= k < |ls| ==> IsLine(ls[k])
    ensures Lines(Join(ls, "\n") + "\n") == ls
  {
    assert IsLine(ls[0]);
    if |ls| == 1 {
      assert Join(ls, "\n") + "\n" == ls[0] + "\n" + "";
      LinesCons(ls[0], "");
    } else {
      var tail := ls[1..];
      JoinCons(ls, "\n");
      LinesCons(ls[0], Join(tail, "\n") + "\n");
      TailAreLines(ls);
      LinesOfJoinWithNewline(tail);
      assert ls == [ls[0]] + tail;
    }
  }

  /** A non-empty text without '\n' is one line. */
  lemma LinesOfLine(l: string)
    requires l != [] && '\n' !in l
    ensures Lines(l) == [l]
  {
    assert NewlineIndex(l) == |l|;
  }

  /** Without a final '\n' the round trip holds as long as the last line is not empty. */
  lemma {:induction false} LinesOfJoin(ls: seq<string>)
    requires ls != [] && ls[|ls| - 1] != []
    requires forall k :: 0 <= k < |ls| ==> IsLine(ls[k])
    ensures Lines(Join(ls, "\n")) == ls
  {
    assert IsLine(ls[0]);
    if |ls| == 1 {
      LinesOfLine(ls[0]);
    } else {
      var tail := ls[1..];
      JoinCons(ls, "\n");
      LinesCons(ls[0], Join(tail, "\n"));
      TailAreLines(ls);
      assert tail[|tail| - 1] == ls[|ls| - 1];
      LinesOfJoin(tail);
      assert ls == [ls[0]] + tail;
    }
  }

  predicate StartsWith(s: string, prefix: string)
  {
    |prefix| <= |s| && s[..|prefix|] == prefix
  }

  predicate EndsWith(s: string, suffix: string)
  {
    |suffix| <= |s| && s[|s| - |suffix|..] == suffix
  }

  /** `s.contains(t)`: `t` occurs somewhere in `s`. */
  predicate Contains(s: string, t: string)
    decreases |s|
  {
    StartsWith(s, t) || (s != [] && Contains(s[1..], t))
  }

  /** `t` occurs in `s` starting at index `i`. */
  predicate OccursAt(s: string, t: string, i: int)
  {
    0 <= i <= |s| - |t| && s[i..i + |t|] == t
  }

  /** `Contains` holds exactly when `t` occurs at some index of `s`. */
  lemma {:induction false} ContainsAt(s: string, t: string)
    ensures Contains(s, t) <==> exists i :: OccursAt(s, t, i)
  {
    if StartsWith(s, t) {
      assert OccursAt(s, t, 0);
    } else if s != [] {
      ContainsAt(s[1..], t);
      if Contains(s[1..], t) {
        var i :| OccursAt(s[1..], t, i);
        assert s[i + 1..i + 1 + |t|] == s[1..][i..i + |t|];
        assert OccursAt(s, t, i + 1);
      }
      if i :| OccursAt(s, t, i) {
        assert i != 0;
        assert s[1..][i - 1..i - 1 + |t|] == s[i..i + |t|];
        assert OccursAt(s[1..], t, i - 1);
      }
    }
  }

  /** A prefix that differs from `s` at some position (or runs past its end there) is not a prefix of `s`. */
  lemma PrefixMismatch(s: string, p: string, i: nat)
    requires i < |p| && (i < |s| ==> s[i] != p[i])
    ensures !StartsWith(s, p)
  {
    assert |p| <= |s| ==> s[..|p|][i] == s[i];
  }

  /** A suffix that differs from `s` at the `i`-th position from the end is not a suffix of `s`. */
  lemma SuffixMismatch(s: string, t: string, i: nat)
    requires i < |t| && (i < |s| ==> s[|s| - 1 - i] != t[|t| - 1 - i])
    ensures !EndsWith(s, t)
  {
    assert |t| <= |s| ==> s[|s| - |t|..][|t| - 1 - i] == s[|s| - 1 - i];
  }

  /** A text holding a character that `s` lacks does not occur in `s`. */
  lemma MissingChar(s: string, t: string, c: char)
    requires c in t && c !in s
    ensures !Contains(s, t)
  {
    ContainsAt(s, t);
    var j :| 0 <= j < |t| && t[j] == c;
    forall i ensures !OccursAt(s, t, i) {
      assert 0 <= i <= |s| - |t| ==> s[i..i + |t|][j] == s[i + j];
    }
  }

  /** The whitespace `trim` removes (the ASCII subset of Rust's `char::is_whitespace`). */
  predicate IsSpace(c: char)
  {
    c == ' ' || c == '\t' || c == '\n' || c == '\r' || c == '\U{000B}' || c == '\U{000C}'
  }

  /** `str::trim_start`: `s` without its leading whitespace. */
  function TrimStart(s: string): (r: string)
    ensures |r| <= |s|
  {
    if s != [] && IsSpace(s[0]) then TrimStart(s[1..]) else s
  }

  /** `str::trim_end`: `s` without its trailing whitespace. */
  function TrimEnd(s: string): (r: string)
    ensures |r| <= |s|
  {
    if s != [] && IsSpace(s[|s| - 1]) then TrimEnd(s[..|s| - 1]) else s
  }

  /** Trimming the front removes whitespace only, all of it, and keeps the rest. */
  lemma {:induction false} TrimStartFacts(s: string)
    ensures TrimStart(s) == s[|s| - |TrimStart(s)|..]
    ensures forall k :: 0 <= k < |s| - |TrimStart(s)| ==> IsSpace(s[k])
    ensures TrimStart(s) == [] || !IsSpace(TrimStart(s)[0])
  {
    if s != [] && IsSpace(s[0]) {
      TrimStartFacts(s[1..]);
      assert s[1..][|s| - 1 - |TrimStart(s)|..] == s[|s| - |TrimStart(s)|..];
      forall k | 1 <= k < |s| - |TrimStart(s)| ensures IsSpace(s[k]) {
        assert s[k] == s[1..][k - 1];
      }
    }
  }

  /** Trimming the end removes whitespace only, all of it, and keeps the rest. */
  lemma {:induction false} TrimEndFacts(s: string)
    ensures TrimEnd(s) == s[..|TrimEnd(s)|]
    ensures forall k :: |TrimEnd(s)| <= k < |s| ==> IsSpace(s[k])
    ensures TrimEnd(s) == [] || !IsSpace(TrimEnd(s)[|TrimEnd(s)| - 1])
  {
    if s != [] && IsSpace(s[|s| - 1]) {
      TrimEndFacts(s[..|s| - 1]);
      assert s[..|s| - 1][..|TrimEnd(s)|] == s[..|TrimEnd(s)|];
      forall k | |TrimEnd(s)| <= k < |s| - 1 ensures IsSpace(s[k]) {
        assert s[k] == s[..|s| - 1][k];
      }
    }
  }

  /** How many whitespace characters `str::trim` removes from the front of `s`. */
  function LeadingSpaces(s: string): (n: nat)
    ensures n <= |s|
  {
    |s| - |TrimStart(s)|
  }

  /** `str::trim`: `s` without whitespace at either end. */
  function Trim(s: string): (r: string)
    ensures r == [] || (!IsSpace(r[0]) && !IsSpace(r[|r| - 1]))
  {
    TrimStartFacts(s);
    TrimEndFacts(TrimStart(s));
    TrimEnd(TrimStart(s))
  }

  /** A prefix `r` of the suffix `t` of `s` from `i` occurs in `s` at `i`; what follows `r` in `t` follows it in `s`. */
  lemma PrefixOfSuffix(s: string, t: string, r: string, i: nat)
    requires i <= |s| && t == s[i..] && |r| <= |t| && r == t[..|r|]
    requires forall k :: |r| <= k < |t| ==> IsSpace(t[k])
    ensures OccursAt(s, r, i)
    ensures forall k :: i + |r| <= k < |s| ==> IsSpace(s[k])
  {
    assert s[i..i + |r|] == r;
    forall k | i + |r| <= k < |s| ensures IsSpace(s[k]) {
      assert s[k] == t[k - i];
    }
  }

  /**
    The trimmed text is the slice of `s` that starts after the leading
    whitespace, and only whitespace follows it.
  */
  lemma TrimIsSlice(s: string)
    ensures OccursAt(s, Trim(s), LeadingSpaces(s))
    ensures forall k :: 0 <= k < LeadingSpaces(s) ==> IsSpace(s[k])
    ensures forall k :: LeadingSpaces(s) + |Trim(s)| <= k < |s| ==> IsSpace(s[k])
  {
    var t := TrimStart(s);
    var r := TrimEnd(t);
    TrimStartFacts(s);
    TrimEndFacts(t);
    PrefixOfSuffix(s, t, r, |s| - |t|);
  }
}
