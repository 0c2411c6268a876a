/**
  The line splice behind "discard this region": the lines of the current
  file around a connection are kept, and the connection's lines from the
  base version replace the changed ones.
*/
module DiscardRegion {
  import opened Text
  import opened DiffTypes

  /** Lines that may be read from `ls[s..e]` without a slicing panic. */
  predicate SliceOk(s: nat, e: nat, len: nat)
  {
    s <= e <= len
  }

  /**
    The reconstructed line list: current lines before the connection, then
    the base lines of the connection (only when its end lies inside the base
    file), then the current lines after the connection (only when its end
    lies before the end of the current file).
  */
  function Splice(current: seq<string>, base: seq<string>, connection: Alignment): seq<string>
    requires connection.after.start <= |current|
    requires connection.before.end <= |base| ==> connection.before.start <= connection.before.end
  {
    current[..connection.after.start]
    + (if connection.before.end <= |base| then base[connection.before.start..connection.before.end] else [])
    + (if connection.after.end < |current| then current[connection.after.end..] else [])
  }

  /** "\n" when the original content ended with a newline, nothing otherwise. */
  function TrailingNewline(content: string): string
  {
    if EndsWith(content, "\n") then "\n" else ""
  }

  /**
    The new file content `discard_region` writes, from the current content,
    the base content and the connection to revert. The requirements are the
    ones the two unguarded slices impose.
  */
  method DiscardRegionContent(currentContent: string, baseContent: string, connection: Alignment)
    returns (result: seq<string>, newContent: string)
    requires connection.after.start <= |Lines(currentContent)|
    requires connection.before.end <= |Lines(baseContent)| ==> connection.before.start <= connection.before.end
    ensures result == Splice(Lines(currentContent), Lines(baseContent), connection)
    ensures newContent == Join(result, "\n") + TrailingNewline(currentContent)
  {
    var currentLines := Lines(currentContent);
    var baseLines := Lines(baseContent);

    result := [];

    // Lines before the changed region in current
    var afterStart := connection.after.start;
    var afterEnd := connection.after.end;
    result := result + currentLines[..afterStart];
    assert result == currentLines[..afterStart];

    // The region from base
    var beforeStart := connection.before.start;
    var beforeEnd := connection.before.end;
    ghost var middle: seq<string> := [];
    if beforeEnd <= |baseLines| {
      result := result + baseLines[beforeStart..beforeEnd];
      middle := baseLines[beforeStart..beforeEnd];
    }
    assert result == currentLines[..afterStart] + middle;

    // Lines after the changed region in current
    if afterEnd < |currentLines| {
      result := result + currentLines[afterEnd..];
    }

    newContent := Join(result, "\n");
    if EndsWith(currentContent, "\n") {
      newContent := newContent + "\n";
    }
  }

  /** When both spans lie inside their files, the line count changes by the difference of the span lengths. */
  lemma SpliceLength(current: seq<string>, base: seq<string>, connection: Alignment)
    requires SliceOk(connection.after.start, connection.after.end, |current|)
    requires SliceOk(connection.before.start, connection.before.end, |base|)
    ensures |Splice(current, base, connection)|
            == |current| - Len(connection.after) + Len(connection.before)
  {
  }

  /**
    Reverting a region restores the base: if the current file is the base
    with the lines `removed` between `prefix` and `suffix` replaced by `added`,
    discarding the connection that pairs `removed` with `added` gives the base back.
  */
  lemma DiscardRestoresBase(prefix: seq<string>, removed: seq<string>, added: seq<string>, suffix: seq<string>)
    ensures var current := prefix + added + suffix;
            var base := prefix + removed + suffix;
            var connection := Alignment(Span(|prefix|, |prefix| + |removed|), Span(|prefix|, |prefix| + |added|), true);
            Splice(current, base, connection) == base
  {
    var current := prefix + added + suffix;
    var base := prefix + removed + suffix;
    assert current[..|prefix|] == prefix;
    assert base[|prefix|..|prefix| + |removed|] == removed;
    if |prefix| + |added| < |current| {
      assert current[|prefix| + |added|..] == suffix;
    } else {
      assert suffix == [];
    }
  }

  /**
    Content written with a trailing newline reads back as the same lines,
    provided each line is one `lines` could have produced.
  */
  lemma DiscardedContentReadsBack(result: seq<string>, currentContent: string)
    requires result != [] && EndsWith(currentContent, "\n")
    requires forall k :: 0 <= k < |result| ==> IsLine(result[k])
    ensures Lines(Join(result, "\n") + TrailingNewline(currentContent)) == result
  {
    LinesOfJoinWithNewline(result);
  }

  /**
    Content written without a trailing newline also reads back as the same
    lines, provided the last line is not empty (an empty last line has no
    text of its own after the final '\n', and `lines` drops it).
  */
  lemma DiscardedContentReadsBackWithoutNewline(result: seq<string>, currentContent: string)
    requires result != [] && result[|result| - 1] != [] && !EndsWith(currentContent, "\n")
    requires forall k :: 0 <= k < |result| ==> IsLine(result[k])
    ensures Lines(Join(result, "\n") + TrailingNewline(currentContent)) == result
  {
    assert Join(result, "\n") + TrailingNewline(currentContent) == Join(result, "\n");
    LinesOfJoin(result);
  }

  /**
    A splice that leaves no lines in a file that ended with '\n' writes the
    single character "\n", which reads back as one empty line rather than
    none: here the one line `line` is discarded against an empty base.
  */
  lemma EmptySpliceWritesBlankLine(line: string)
    requires line != [] && IsLine(line)
    ensures var currentContent := line + "\n";
            var connection := Alignment(Span(0, 0), Span(0, 1), true);
            && Lines(currentContent) == [line]
            && Splice(Lines(currentContent), [], connection) == []
            && Join([], "\n") + TrailingNewline(currentContent) == "\n"
            && Lines("\n") == [""]
  {
    var currentContent := line + "\n";
    LinesOfJoinWithNewline([line]);
    assert Join([line], "\n") + "\n" == currentContent;
    assert EndsWith(currentContent, "\n") by {
      assert currentContent[|currentContent| - 1..] == "\n";
    }
    assert NewlineIndex("\n") == 0;
    assert StripCr("") == "";
  }

  /** A connection whose base end lies past the base file inserts nothing and only cuts out the current region. */
  lemma OutOfRangeBaseDropsRegion(current: seq<string>, base: seq<string>, connection: Alignment)
    requires connection.after.start <= |current|
    requires connection.before.end > |base|
    ensures Splice(current, base, connection)
            == current[..connection.after.start]
               + (if connection.after.end < |current| then current[connection.after.end..] else [])
  {
  }
}
