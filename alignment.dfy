/**
  Turning the changed regions reported by git into alignments that cover
  both files: each hunk becomes one changed alignment, the stretches between
  hunks (and after the last one) become unchanged fillers.
*/
module HunkAlignment {
  import opened DiffTypes

  /** A changed region in 0-indexed lines: `oldLines` lines at `oldStart` before, `newLines` at `newStart` after. */
  datatype Hunk = Hunk(oldStart: nat, oldLines: nat, newStart: nat, newLines: nat)

  /** A hunk header as the diff engine reports it, with 1-indexed starts. */
  datatype RawHunk = RawHunk(oldStart: nat, oldLines: nat, newStart: nat, newLines: nat)

  function OldEnd(h: Hunk): nat { h.oldStart + h.oldLines }
  function NewEnd(h: Hunk): nat { h.newStart + h.newLines }

  /** The changed alignment a hunk stands for. */
  function ChangedAlignment(h: Hunk): Alignment
  {
    Alignment(Span(h.oldStart, OldEnd(h)), Span(h.newStart, NewEnd(h)), true)
  }

  /** The changed alignments of a hunk list, one per hunk, in hunk order. */
  function HunkRegions(hs: seq<Hunk>): (r: seq<Alignment>)
    ensures |r| == |hs|
    ensures forall k :: 0 <= k < |hs| ==> r[k] == ChangedAlignment(hs[k])
  {
    seq(|hs|, k requires 0 <= k < |hs| => ChangedAlignment(hs[k]))
  }

  // ---------------------------------------------------------------------------
  // Hunk normalisation (the hunk callback of `collect_file_changes`)
  // ---------------------------------------------------------------------------

  /** 1-indexed start to 0-indexed, where a start of 0 stays 0. */
  function ZeroIndexed(start: nat): (z: nat)
    ensures start == 0 ==> z == 0
    ensures start > 0 ==> z + 1 == start
  {
    if start == 0 then 0 else start - 1
  }

  /** The conversion as the hunk callback writes it: both starts through `ZeroIndexed`, counts copied. */
  function NormalizeHunk(raw: RawHunk): (h: Hunk)
    ensures h.oldStart == ZeroIndexed(raw.oldStart) && h.newStart == ZeroIndexed(raw.newStart)
    ensures h.oldLines == raw.oldLines && h.newLines == raw.newLines
  {
    Hunk(ZeroIndexed(raw.oldStart), raw.oldLines, ZeroIndexed(raw.newStart), raw.newLines)
  }

  /**
    How a unified diff header writes a 0-indexed hunk: the start of a
    non-empty range is its first line counted from 1; the start of an empty
    range is the line just before the empty range (0 at the top of the file).
  */
  function GitHeader(h: Hunk): RawHunk
  {
    RawHunk(if h.oldLines == 0 then h.oldStart else h.oldStart + 1, h.oldLines,
            if h.newLines == 0 then h.newStart else h.newStart + 1, h.newLines)
  }

  /** Headers of hunks whose ranges are all non-empty are read back exactly by `NormalizeHunk`. */
  lemma NormalizeHunkOfNonEmpty(h: Hunk)
    requires h.oldLines > 0 && h.newLines > 0
    ensures NormalizeHunk(GitHeader(h)) == h
  {
  }

  /**
    An insertion after the second line: the header reads "-2,0 +3,1", and
    `NormalizeHunk` places the empty before-range at line 1 instead of line 2.
    The assembled fillers then pair one before line with two after lines and
    two before lines with one after line, although the text around the
    insertion is unchanged.
  */
  lemma NormalizeHunkMisplacesInsertion()
    ensures GitHeader(Hunk(2, 0, 2, 1)) == RawHunk(2, 0, 3, 1)
    ensures NormalizeHunk(GitHeader(Hunk(2, 0, 2, 1))) == Hunk(1, 0, 2, 1)
    ensures Assemble([NormalizeHunk(GitHeader(Hunk(2, 0, 2, 1)))], 3, 4)
         == [Alignment(Span(0, 1), Span(0, 2), false),
             Alignment(Span(1, 1), Span(2, 3), true),
             Alignment(Span(1, 3), Span(3, 4), false)]
    ensures Assemble([Hunk(2, 0, 2, 1)], 3, 4)
         == [Alignment(Span(0, 2), Span(0, 2), false),
             Alignment(Span(2, 2), Span(2, 3), true),
             Alignment(Span(2, 3), Span(3, 4), false)]
  {
  }

  /** 1-indexed start to 0-indexed under the unified diff convention for empty ranges. */
  function UnifiedStart(start: nat, lines: nat): nat
  {
    if lines == 0 || start == 0 then start else start - 1
  }

  /** The corrected conversion: the start of an empty range already is the 0-indexed position. */
  function NormalizeHunkUnified(raw: RawHunk): Hunk
  {
    Hunk(UnifiedStart(raw.oldStart, raw.oldLines), raw.oldLines,
         UnifiedStart(raw.newStart, raw.newLines), raw.newLines)
  }

  /** A header git can print: a non-empty range never starts at 0. */
  predicate WellFormedHeader(raw: RawHunk)
  {
    (raw.oldLines > 0 ==> raw.oldStart > 0) && (raw.newLines > 0 ==> raw.newStart > 0)
  }

  /** `NormalizeHunkUnified` and `GitHeader` are inverse to each other, for every hunk and every well-formed header. */
  lemma NormalizeHunkUnifiedRoundTrip(h: Hunk, raw: RawHunk)
    ensures WellFormedHeader(GitHeader(h)) && NormalizeHunkUnified(GitHeader(h)) == h
    ensures WellFormedHeader(raw) ==> GitHeader(NormalizeHunkUnified(raw)) == raw
  {
  }

  /** The per-hunk conversion applied to all hunks of one file, in order. */
  function CollectHunks(raws: seq<RawHunk>): (hs: seq<Hunk>)
    ensures |hs| == |raws|
    ensures forall k :: 0 <= k < |raws| ==> hs[k] == NormalizeHunkUnified(raws[k])
  {
    seq(|raws|, k requires 0 <= k < |raws| => NormalizeHunkUnified(raws[k]))
  }

  function GitHeaders(hs: seq<Hunk>): (raws: seq<RawHunk>)
    ensures |raws| == |hs|
    ensures forall k :: 0 <= k < |hs| ==> raws[k] == GitHeader(hs[k])
  {
    seq(|hs|, k requires 0 <= k < |hs| => GitHeader(hs[k]))
  }

  /**
    With the corrected conversion, the hunks git reports for an edit whose
    untouched stretches have the same length on both sides assemble into
    unchanged alignments of equal length on both sides.
  */
  lemma CollectHunksKeepsUnchangedEqual(hs: seq<Hunk>, bl: nat, al: nat)
    requires GapsEqualFrom(hs, 0, 0, bl, al)
    ensures CollectHunks(GitHeaders(hs)) == hs
    ensures UnchangedEqual(Assemble(CollectHunks(GitHeaders(hs)), bl, al))
  {
    var back := CollectHunks(GitHeaders(hs));
    forall k | 0 <= k < |hs| ensures back[k] == hs[k] {
      NormalizeHunkUnifiedRoundTrip(hs[k], GitHeader(hs[k]));
    }
    AssembleEqualGaps(hs, bl, al);
  }

  // ---------------------------------------------------------------------------
  // Conditions on the hunk list
  // ---------------------------------------------------------------------------

  /**
    With cursors at `bp`/`ap`, the gap subtraction for hunk `h` does not go
    below zero: if either gap is taken, neither start lies behind its cursor.
  */
  predicate GapSafe(bp: nat, ap: nat, h: Hunk)
  {
    (bp < h.oldStart || ap < h.newStart) ==> (bp <= h.oldStart && ap <= h.newStart)
  }

  /** Where the before cursor stands when hunk `k` is reached: the end of the previous hunk, 0 for the first. */
  function BeforeCursor(hs: seq<Hunk>, k: nat): nat
    requires k <= |hs|
  {
    if k == 0 then 0 else OldEnd(hs[k - 1])
  }

  function AfterCursor(hs: seq<Hunk>, k: nat): nat
    requires k <= |hs|
  {
    if k == 0 then 0 else NewEnd(hs[k - 1])
  }

  /** Every hunk is gap-safe for the cursors the previous hunk leaves behind. */
  predicate Safe(hs: seq<Hunk>)
  {
    forall k :: 0 <= k < |hs| ==> GapSafe(BeforeCursor(hs, k), AfterCursor(hs, k), hs[k])
  }

  /** Each hunk starts, on both sides, at or after the end of the previous one (or the cursors). */
  predicate OrderedFrom(hs: seq<Hunk>, bp: nat, ap: nat)
    decreases |hs|
  {
    hs == [] || (bp <= hs[0].oldStart && ap <= hs[0].newStart
                 && OrderedFrom(hs[1..], OldEnd(hs[0]), NewEnd(hs[0])))
  }

  predicate Ordered(hs: seq<Hunk>)
  {
    OrderedFrom(hs, 0, 0)
  }

  /** Every hunk ends inside both files. */
  predicate WithinFiles(hs: seq<Hunk>, bl: nat, al: nat)
  {
    forall k :: 0 <= k < |hs| ==> OldEnd(hs[k]) <= bl && NewEnd(hs[k]) <= al
  }

  /** The hunks from `n` on are ordered from the cursors hunk `n` sees. */
  lemma {:induction false} OrderedSuffix(hs: seq<Hunk>, n: nat)
    requires Ordered(hs) && n <= |hs|
    ensures OrderedFrom(hs[n..], BeforeCursor(hs, n), AfterCursor(hs, n))
  {
    if n == 0 {
      assert hs[0..] == hs;
    } else {
      OrderedSuffix(hs, n - 1);
      assert hs[n - 1..][0] == hs[n - 1] && hs[n - 1..][1..] == hs[n..];
    }
  }

  /** Ordered hunks never make the gap subtraction underflow. */
  lemma OrderedIsSafe(hs: seq<Hunk>)
    requires Ordered(hs)
    ensures Safe(hs)
  {
    forall k | 0 <= k < |hs|
      ensures GapSafe(BeforeCursor(hs, k), AfterCursor(hs, k), hs[k])
    {
      OrderedSuffix(hs, k);
      assert hs[k..][0] == hs[k];
    }
  }

  /** The untouched stretches before each hunk and after the last have equal length on both sides. */
  predicate GapsEqualFrom(hs: seq<Hunk>, bp: nat, ap: nat, bl: nat, al: nat)
    decreases |hs|
  {
    if hs == [] then bl - bp == al - ap
    else hs[0].oldStart - bp == hs[0].newStart - ap
         && GapsEqualFrom(hs[1..], OldEnd(hs[0]), NewEnd(hs[0]), bl, al)
  }

  // ---------------------------------------------------------------------------
  // The alignment list the source builds
  // ---------------------------------------------------------------------------

  /** Unchanged filler for the gap between the cursors and hunk `h`, when either gap is non-empty. */
  function Gap(bp: nat, ap: nat, h: Hunk): seq<Alignment>
  {
    if bp < h.oldStart || ap < h.newStart
    then [Alignment(Span(bp, h.oldStart), Span(ap, h.newStart), false)]
    else []
  }

  /** Unchanged filler after the last hunk, when either file has lines left. */
  function Tail(bp: nat, ap: nat, bl: nat, al: nat): seq<Alignment>
  {
    if bp < bl || ap < al then [Alignment(Span(bp, bl), Span(ap, al), false)] else []
  }

  /** Alignments for hunks `hs` with the cursors at `bp`/`ap`. */
  function Fill(hs: seq<Hunk>, bp: nat, ap: nat, bl: nat, al: nat): seq<Alignment>
    decreases |hs|
  {
    if hs == [] then Tail(bp, ap, bl, al)
    else Gap(bp, ap, hs[0]) + [ChangedAlignment(hs[0])]
         + Fill(hs[1..], OldEnd(hs[0]), NewEnd(hs[0]), bl, al)
  }

  /** What the loop has emitted after the first `n` hunks: each one's gap filler (if any) and its changed alignment. */
  function Emitted(hs: seq<Hunk>, n: nat): seq<Alignment>
    requires n <= |hs|
  {
    if n == 0 then []
    else Emitted(hs, n - 1) + Gap(BeforeCursor(hs, n - 1), AfterCursor(hs, n - 1), hs[n - 1])
         + [ChangedAlignment(hs[n - 1])]
  }

  /** One more hunk: its gap filler and changed alignment are appended, and the cursors move to its ends. */
  lemma EmittedStep(hs: seq<Hunk>, n: nat)
    requires n < |hs|
    ensures Emitted(hs, n + 1) == Emitted(hs, n) + Gap(BeforeCursor(hs, n), AfterCursor(hs, n), hs[n]) + [ChangedAlignment(hs[n])]
    ensures BeforeCursor(hs, n + 1) == OldEnd(hs[n]) && AfterCursor(hs, n + 1) == NewEnd(hs[n])
  {
  }

  /** `Fill` on a non-empty list: the first hunk's gap filler and changed alignment, then the rest. */
  lemma FillStep(t: seq<Hunk>, bp: nat, ap: nat, bl: nat, al: nat)
    requires t != []
    ensures Fill(t, bp, ap, bl, al)
         == Gap(bp, ap, t[0]) + [ChangedAlignment(t[0])] + Fill(t[1..], OldEnd(t[0]), NewEnd(t[0]), bl, al)
  {
  }

  lemma AppendThree<T>(e: seq<T>, g: seq<T>, c: seq<T>, r: seq<T>)
    ensures e + (g + c + r) == e + g + c + r
  {
  }

  /** The alignments emitted for the first `n` hunks, followed by `Fill` on the rest, are the whole of `Fill`. */
  lemma {:induction false} EmittedThenFill(hs: seq<Hunk>, n: nat, bl: nat, al: nat)
    requires n <= |hs|
    ensures Emitted(hs, n) + Fill(hs[n..], BeforeCursor(hs, n), AfterCursor(hs, n), bl, al)
         == Fill(hs, 0, 0, bl, al)
  {
    if n == 0 {
      assert hs[0..] == hs;
    } else {
      var t := hs[n - 1..];
      var h := hs[n - 1];
      assert t[0] == h && t[1..] == hs[n..];
      var g := Gap(BeforeCursor(hs, n - 1), AfterCursor(hs, n - 1), h);
      var rest := Fill(hs[n..], BeforeCursor(hs, n), AfterCursor(hs, n), bl, al);
      calc {
        Emitted(hs, n) + rest;
      == { EmittedStep(hs, n - 1); }
        Emitted(hs, n - 1) + g + [ChangedAlignment(h)] + rest;
      == { AppendThree(Emitted(hs, n - 1), g, [ChangedAlignment(h)], rest); }
        Emitted(hs, n - 1) + (g + [ChangedAlignment(h)] + rest);
      == { FillStep(t, BeforeCursor(hs, n - 1), AfterCursor(hs, n - 1), bl, al); }
        Emitted(hs, n - 1) + Fill(t, BeforeCursor(hs, n - 1), AfterCursor(hs, n - 1), bl, al);
      == { EmittedThenFill(hs, n - 1, bl, al); }
        Fill(hs, 0, 0, bl, al);
      }
    }
  }

  /** The whole result, degenerate cases first. */
  function Assemble(hs: seq<Hunk>, bl: nat, al: nat): seq<Alignment>
  {
    if bl == 0 && al == 0 then []
    else if hs == [] then
      if bl == 0 then [Alignment(Span(0, 0), Span(0, al), true)]
      else if al == 0 then [Alignment(Span(0, bl), Span(0, 0), true)]
      else [Alignment(Span(0, bl), Span(0, al), false)]
    else Fill(hs, 0, 0, bl, al)
  }

  // ---------------------------------------------------------------------------
  // Coverage
  // ---------------------------------------------------------------------------

  datatype Side = BeforeSide | AfterSide

  function SpanOn(a: Alignment, side: Side): Span
  {
    if side == BeforeSide then a.before else a.after
  }

  /**
    The spans on `side` run from `s` to `n` back to back: the first starts
    at `s`, each starts where the previous ends, the last ends at `n`, and
    none runs backwards.
  */
  predicate TilesFrom(r: seq<Alignment>, side: Side, s: nat, n: nat)
  {
    if r == [] then s == n
    else SpanOn(r[0], side).start == s && SpanOn(r[|r| - 1], side).end == n
         && (forall k :: 0 <= k < |r| ==> SpanOn(r[k], side).start <= SpanOn(r[k], side).end)
         && (forall k :: 0 < k < |r| ==> SpanOn(r[k - 1], side).end == SpanOn(r[k], side).start)
  }

  /** The spans on `side` cover `[0, n)` with no gap and no overlap. */
  predicate Tiles(r: seq<Alignment>, side: Side, n: nat)
  {
    TilesFrom(r, side, 0, n)
  }

  lemma TilesConcat(a: seq<Alignment>, b: seq<Alignment>, side: Side, s: nat, m: nat, n: nat)
    requires TilesFrom(a, side, s, m) && TilesFrom(b, side, m, n)
    ensures TilesFrom(a + b, side, s, n)
  {
    if a == [] {
      assert a + b == b;
    } else if b == [] {
      assert a + b == a;
    } else {
      var c := a + b;
      forall k | 0 < k < |c|
        ensures SpanOn(c[k - 1], side).end == SpanOn(c[k], side).start
      {
        if k < |a| {
          assert c[k - 1] == a[k - 1] && c[k] == a[k];
        } else if k == |a| {
          assert c[k - 1] == a[|a| - 1] && c[k] == b[0];
        } else {
          assert c[k - 1] == b[k - 1 - |a|] && c[k] == b[k - |a|];
        }
      }
    }
  }

  lemma TilesOne(a: Alignment, side: Side)
    requires SpanOn(a, side).start <= SpanOn(a, side).end
    ensures TilesFrom([a], side, SpanOn(a, side).start, SpanOn(a, side).end)
  {
  }

  /** For ordered hunks inside the files, `Fill` covers both files from the cursors to the end. */
  lemma {:induction false} FillCovers(hs: seq<Hunk>, bp: nat, ap: nat, bl: nat, al: nat, side: Side)
    requires OrderedFrom(hs, bp, ap) && WithinFiles(hs, bl, al)
    requires bp <= bl && ap <= al
    ensures TilesFrom(Fill(hs, bp, ap, bl, al), side, if side == BeforeSide then bp else ap,
                      if side == BeforeSide then bl else al)
    decreases |hs|
  {
    var s := if side == BeforeSide then bp else ap;
    var n := if side == BeforeSide then bl else al;
    if hs == [] {
      if bp < bl || ap < al {
        TilesOne(Tail(bp, ap, bl, al)[0], side);
      }
    } else {
      var h := hs[0];
      var c := ChangedAlignment(h);
      var m := SpanOn(c, side).start;
      var e := SpanOn(c, side).end;
      assert OldEnd(hs[0]) <= bl && NewEnd(hs[0]) <= al;
      var g := Gap(bp, ap, h);
      if g != [] {
        TilesOne(g[0], side);
      }
      assert TilesFrom(g, side, s, m);
      TilesOne(c, side);
      TilesConcat(g, [c], side, s, m, e);
      assert WithinFiles(hs[1..], bl, al) by {
        forall k | 0 <= k < |hs[1..]| ensures OldEnd(hs[1..][k]) <= bl && NewEnd(hs[1..][k]) <= al {
          assert hs[1..][k] == hs[k + 1];
        }
      }
      FillCovers(hs[1..], OldEnd(h), NewEnd(h), bl, al, side);
      TilesConcat(g + [c], Fill(hs[1..], OldEnd(h), NewEnd(h), bl, al), side, s, e, n);
    }
  }

  /** Ordered hunks inside both files give alignments covering both files exactly. */
  lemma AssembleCovers(hs: seq<Hunk>, bl: nat, al: nat)
    requires Ordered(hs) && WithinFiles(hs, bl, al)
    ensures Tiles(Assemble(hs, bl, al), BeforeSide, bl)
    ensures Tiles(Assemble(hs, bl, al), AfterSide, al)
  {
    if !(bl == 0 && al == 0) && hs != [] {
      FillCovers(hs, 0, 0, bl, al, BeforeSide);
      FillCovers(hs, 0, 0, bl, al, AfterSide);
    }
  }

  /** In a tiling, every span ends no later than any later span starts. */
  lemma {:induction false} TilesOrdered(r: seq<Alignment>, side: Side, s: nat, n: nat, j: nat, k: nat)
    requires TilesFrom(r, side, s, n)
    requires j < k < |r|
    ensures SpanOn(r[j], side).end <= SpanOn(r[k], side).start
    decreases k - j
  {
    if j + 1 < k {
      TilesOrdered(r, side, s, n, j + 1, k);
      assert SpanOn(r[j], side).end == SpanOn(r[j + 1], side).start;
    }
  }

  /** `line` lies in the span of `r[k]` on `side`. */
  predicate Holds(r: seq<Alignment>, side: Side, k: nat, line: nat)
    requires k < |r|
  {
    SpanOn(r[k], side).start <= line < SpanOn(r[k], side).end
  }

  /** In a tiling of `[s, n)`, some alignment holds `line`. */
  lemma {:induction false} TilesReach(r: seq<Alignment>, side: Side, s: nat, n: nat, line: nat)
    requires TilesFrom(r, side, s, n)
    requires s <= line < n
    ensures exists k :: 0 <= k < |r| && Holds(r, side, k, line)
    decreases |r|
  {
    var e := SpanOn(r[0], side).end;
    if line < e {
      assert Holds(r, side, 0, line);
    } else {
      var rest := r[1..];
      if |r| == 1 {
        assert false;
      }
      assert TilesFrom(rest, side, e, n) by {
        forall k | 0 < k < |rest|
          ensures SpanOn(rest[k - 1], side).end == SpanOn(rest[k], side).start
        {
          assert rest[k - 1] == r[k] && rest[k] == r[k + 1];
        }
      }
      TilesReach(rest, side, e, n, line);
      var k :| 0 <= k < |rest| && Holds(rest, side, k, line);
      assert Holds(r, side, k + 1, line);
    }
  }

  /** Every line of a tiled file belongs to exactly one alignment. */
  lemma TilesPartition(r: seq<Alignment>, side: Side, n: nat, line: nat)
    requires Tiles(r, side, n)
    requires line < n
    ensures exists k :: 0 <= k < |r| && Holds(r, side, k, line)
    ensures forall j, k :: 0 <= j < |r| && 0 <= k < |r| && Holds(r, side, j, line) && Holds(r, side, k, line) ==> j == k
  {
    TilesReach(r, side, 0, n, line);
    forall j, k | 0 <= j < |r| && 0 <= k < |r| && Holds(r, side, j, line) && Holds(r, side, k, line)
      ensures j == k
    {
      if j < k {
        TilesOrdered(r, side, 0, n, j, k);
      } else if k < j {
        TilesOrdered(r, side, 0, n, k, j);
      }
    }
  }

  // ---------------------------------------------------------------------------
  // Changed and unchanged alignments
  // ---------------------------------------------------------------------------

  /** The changed alignments of `r`, in order. */
  function ChangedOnes(r: seq<Alignment>): seq<Alignment>
  {
    if r == [] then []
    else (if r[0].changed then [r[0]] else []) + ChangedOnes(r[1..])
  }

  lemma {:induction false} ChangedOnesConcat(a: seq<Alignment>, b: seq<Alignment>)
    ensures ChangedOnes(a + b) == ChangedOnes(a) + ChangedOnes(b)
    decreases |a|
  {
    if a == [] {
      assert a + b == b;
    } else {
      assert (a + b)[0] == a[0];
      assert (a + b)[1..] == a[1..] + b;
      ChangedOnesConcat(a[1..], b);
    }
  }

  /** Gap filler is never a changed alignment. */
  lemma GapHasNoChanged(bp: nat, ap: nat, h: Hunk)
    ensures ChangedOnes(Gap(bp, ap, h)) == []
  {
    var g := Gap(bp, ap, h);
    if g != [] {
      assert g[1..] == [];
    }
  }

  /** Tail filler is never a changed alignment. */
  lemma TailHasNoChanged(bp: nat, ap: nat, bl: nat, al: nat)
    ensures ChangedOnes(Tail(bp, ap, bl, al)) == []
  {
    var t := Tail(bp, ap, bl, al);
    if t != [] {
      assert t[1..] == [];
    }
  }

  lemma ChangedOnesOfChanged(h: Hunk)
    ensures ChangedOnes([ChangedAlignment(h)]) == [ChangedAlignment(h)]
  {
    assert [ChangedAlignment(h)][1..] == [];
  }

  lemma HunkRegionsCons(hs: seq<Hunk>)
    requires hs != []
    ensures HunkRegions(hs) == [ChangedAlignment(hs[0])] + HunkRegions(hs[1..])
  {
  }

  /** Each hunk gives exactly one changed alignment with the hunk's own spans, in hunk order; fillers are unchanged. */
  lemma {:induction false} FillChanged(hs: seq<Hunk>, bp: nat, ap: nat, bl: nat, al: nat)
    ensures ChangedOnes(Fill(hs, bp, ap, bl, al)) == HunkRegions(hs)
    decreases |hs|
  {
    if hs == [] {
      TailHasNoChanged(bp, ap, bl, al);
    } else {
      var h := hs[0];
      var g := Gap(bp, ap, h);
      var rest := Fill(hs[1..], OldEnd(h), NewEnd(h), bl, al);
      FillStep(hs, bp, ap, bl, al);
      ChangedOnesConcat(g + [ChangedAlignment(h)], rest);
      ChangedOnesConcat(g, [ChangedAlignment(h)]);
      GapHasNoChanged(bp, ap, h);
      ChangedOnesOfChanged(h);
      FillChanged(hs[1..], OldEnd(h), NewEnd(h), bl, al);
      HunkRegionsCons(hs);
    }
  }

  /** When some file is non-empty and there are hunks, the changed alignments are exactly the hunks. */
  lemma AssembleChanged(hs: seq<Hunk>, bl: nat, al: nat)
    requires bl > 0 || al > 0
    requires hs != []
    ensures ChangedOnes(Assemble(hs, bl, al)) == HunkRegions(hs)
  {
    FillChanged(hs, 0, 0, bl, al);
  }

  /** Every unchanged alignment spans at least one line on some side. */
  predicate FillersNonEmpty(r: seq<Alignment>)
  {
    forall k :: 0 <= k < |r| && !r[k].changed ==> Len(r[k].before) > 0 || Len(r[k].after) > 0
  }

  /** No two unchanged alignments are next to each other. */
  predicate NoAdjacentUnchanged(r: seq<Alignment>)
  {
    forall k :: 0 < k < |r| ==> r[k - 1].changed || r[k].changed
  }

  /** Every unchanged alignment has the same length on both sides. */
  predicate UnchangedEqual(r: seq<Alignment>)
  {
    forall k :: 0 <= k < |r| && !r[k].changed ==> Len(r[k].before) == Len(r[k].after)
  }

  /** Fillers are emitted only for non-empty gaps, and always right before a hunk or at the very end. */
  lemma {:induction false} FillShape(hs: seq<Hunk>, bp: nat, ap: nat, bl: nat, al: nat)
    ensures FillersNonEmpty(Fill(hs, bp, ap, bl, al))
    ensures NoAdjacentUnchanged(Fill(hs, bp, ap, bl, al))
    ensures hs != [] ==> Fill(hs, bp, ap, bl, al) != []
    ensures |Fill(hs, bp, ap, bl, al)| <= 2 * |hs| + 1
    decreases |hs|
  {
    if hs != [] {
      var h := hs[0];
      var g := Gap(bp, ap, h);
      var c := ChangedAlignment(h);
      var rest := Fill(hs[1..], OldEnd(h), NewEnd(h), bl, al);
      FillShape(hs[1..], OldEnd(h), NewEnd(h), bl, al);
      var r := g + [c] + rest;
      forall k | 0 <= k < |r| && !r[k].changed
        ensures Len(r[k].before) > 0 || Len(r[k].after) > 0
      {
        if k < |g| {
          assert r[k] == g[0];
        } else {
          assert k > |g|;
          assert r[k] == rest[k - |g| - 1];
        }
      }
      forall k | 0 < k < |r|
        ensures r[k - 1].changed || r[k].changed
      {
        if k <= |g| {
          assert r[|g|] == c;
        } else if k == |g| + 1 {
          assert r[k - 1] == c;
        } else {
          assert r[k - 1] == rest[k - 1 - |g| - 1] && r[k] == rest[k - |g| - 1];
        }
      }
    }
  }

  lemma AssembleShape(hs: seq<Hunk>, bl: nat, al: nat)
    ensures FillersNonEmpty(Assemble(hs, bl, al))
    ensures NoAdjacentUnchanged(Assemble(hs, bl, al))
  {
    FillShape(hs, 0, 0, bl, al);
  }

  /** When every untouched stretch has the same length on both sides, so does every unchanged alignment. */
  lemma {:induction false} FillEqualGaps(hs: seq<Hunk>, bp: nat, ap: nat, bl: nat, al: nat)
    requires GapsEqualFrom(hs, bp, ap, bl, al)
    ensures UnchangedEqual(Fill(hs, bp, ap, bl, al))
    decreases |hs|
  {
    if hs != [] {
      var h := hs[0];
      var g := Gap(bp, ap, h);
      var c := ChangedAlignment(h);
      var rest := Fill(hs[1..], OldEnd(h), NewEnd(h), bl, al);
      FillEqualGaps(hs[1..], OldEnd(h), NewEnd(h), bl, al);
      var r := g + [c] + rest;
      forall k | 0 <= k < |r| && !r[k].changed
        ensures Len(r[k].before) == Len(r[k].after)
      {
        if k < |g| {
          assert r[k] == g[0];
        } else {
          assert k > |g|;
          assert r[k] == rest[k - |g| - 1];
        }
      }
    }
  }

  lemma AssembleEqualGaps(hs: seq<Hunk>, bl: nat, al: nat)
    requires GapsEqualFrom(hs, 0, 0, bl, al)
    ensures UnchangedEqual(Assemble(hs, bl, al))
  {
    if !(bl == 0 && al == 0) && hs != [] {
      FillEqualGaps(hs, 0, 0, bl, al);
    }
  }

  // ---------------------------------------------------------------------------
  // compute_alignments_from_hunks
  // ---------------------------------------------------------------------------

  /**
    Alignments for one file pair from its hunks. The requirement is the one
    the unsigned gap subtraction imposes; it is void when both files are
    empty, since then no hunk is looked at.
  */
  method ComputeAlignmentsFromHunks(hunks: seq<Hunk>, before: Option<File>, after: Option<File>)
    returns (alignments: seq<Alignment>)
    requires LineCount(before) > 0 || LineCount(after) > 0 ==> Safe(hunks)
    ensures alignments == Assemble(hunks, LineCount(before), LineCount(after))
    ensures LineCount(before) == 0 && LineCount(after) == 0 ==> alignments == []
    ensures hunks == [] && LineCount(before) == 0 && LineCount(after) > 0
            ==> alignments == [Alignment(Span(0, 0), Span(0, LineCount(after)), true)]
    ensures hunks == [] && LineCount(before) > 0 && LineCount(after) == 0
            ==> alignments == [Alignment(Span(0, LineCount(before)), Span(0, 0), true)]
    ensures hunks == [] && LineCount(before) > 0 && LineCount(after) > 0
            ==> alignments == [Alignment(Span(0, LineCount(before)), Span(0, LineCount(after)), false)]
  {
    var beforeLen := LineCount(before);
    var afterLen := LineCount(after);

    if beforeLen == 0 && afterLen == 0 {
      alignments := [];
    } else if |hunks| == 0 {
      if beforeLen == 0 {
        alignments := [Alignment(Span(0, 0), Span(0, afterLen), true)];
      } else if afterLen == 0 {
        alignments := [Alignment(Span(0, beforeLen), Span(0, 0), true)];
      } else {
        alignments := [Alignment(Span(0, beforeLen), Span(0, afterLen), false)];
      }
    } else {
      alignments := [];
      var beforePos: nat := 0;
      var afterPos: nat := 0;
      var i := 0;
      while i < |hunks|
        invariant 0 <= i <= |hunks|
        invariant beforePos == BeforeCursor(hunks, i) && afterPos == AfterCursor(hunks, i)
        invariant alignments == Emitted(hunks, i)
      {
        var hunk := hunks[i];
        EmittedStep(hunks, i);
        ghost var previous := alignments;

        // Unchanged region before this hunk
        if beforePos < hunk.oldStart || afterPos < hunk.newStart {
          var beforeGap: nat := hunk.oldStart - beforePos;
          var afterGap: nat := hunk.newStart - afterPos;
          if beforeGap > 0 || afterGap > 0 {
            alignments := alignments + [Alignment(Span(beforePos, hunk.oldStart), Span(afterPos, hunk.newStart), false)];
          }
        }
        assert alignments == previous + Gap(beforePos, afterPos, hunk);

        // The hunk itself
        var hunkBeforeEnd := hunk.oldStart + hunk.oldLines;
        var hunkAfterEnd := hunk.newStart + hunk.newLines;
        alignments := alignments + [Alignment(Span(hunk.oldStart, hunkBeforeEnd), Span(hunk.newStart, hunkAfterEnd), true)];

        beforePos := hunkBeforeEnd;
        afterPos := hunkAfterEnd;
        i := i + 1;
      }
      EmittedThenFill(hunks, i, beforeLen, afterLen);
      assert hunks[i..] == [];
      assert Emitted(hunks, i) + Tail(beforePos, afterPos, beforeLen, afterLen) == Assemble(hunks, beforeLen, afterLen);

      // Unchanged region after the last hunk
      if beforePos < beforeLen || afterPos < afterLen {
        alignments := alignments + [Alignment(Span(beforePos, beforeLen), Span(afterPos, afterLen), false)];
      }
    }
  }

  // ---------------------------------------------------------------------------
  // The unit-test scenarios of `git.rs`
  // ---------------------------------------------------------------------------

  /** Lines 0-1 unchanged, line 2 replaced, lines 3-4 unchanged. */
  lemma SingleSubstitution()
    ensures Assemble([Hunk(2, 1, 2, 1)], 5, 5)
         == [Alignment(Span(0, 2), Span(0, 2), false),
             Alignment(Span(2, 3), Span(2, 3), true),
             Alignment(Span(3, 5), Span(3, 5), false)]
  {
  }

  /** Two lines replaced by three at the top. */
  lemma SizeChangingHunk()
    ensures Assemble([Hunk(0, 2, 0, 3)], 3, 4)
         == [Alignment(Span(0, 2), Span(0, 3), true),
             Alignment(Span(2, 3), Span(3, 4), false)]
  {
    var h := Hunk(0, 2, 0, 3);
    assert Gap(0, 0, h) == [];
    assert [h][1..] == [];
    assert Fill([], 2, 3, 3, 4) == [Alignment(Span(2, 3), Span(3, 4), false)];
    FillStep([h], 0, 0, 3, 4);
  }

  /** Two hunks of different sizes, covering 9 before lines and 11 after lines. */
  lemma ExhaustiveCoverageScenario()
    ensures Assemble([Hunk(2, 2, 2, 3), Hunk(6, 1, 7, 2)], 9, 11)
         == [Alignment(Span(0, 2), Span(0, 2), false),
             Alignment(Span(2, 4), Span(2, 5), true),
             Alignment(Span(4, 6), Span(5, 7), false),
             Alignment(Span(6, 7), Span(7, 9), true),
             Alignment(Span(7, 9), Span(9, 11), false)]
  {
  }

  /** A new file and a deleted file reported without hunks. */
  lemma AddedAndDeletedFiles()
    ensures Assemble([], 0, 2) == [Alignment(Span(0, 0), Span(0, 2), true)]
    ensures Assemble([], 2, 0) == [Alignment(Span(0, 2), Span(0, 0), true)]
  {
  }
}
