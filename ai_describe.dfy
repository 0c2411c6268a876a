/**
  The text handling around an AI description of a hunk: how each side's
  lines are put into the prompt, and how the "BEFORE:" and "AFTER:" lines
  are read back from the tool's answer.
*/
module AiDescribe {
  import opened Text
  import opened DiffTypes

  datatype HunkDescription = HunkDescription(before: string, after: string)

  const NewContentPlaceholder: string := "(empty - new content)"
  const DeletedContentPlaceholder: string := "(empty - deleted content)"
  const BeforeFallback: string := "Could not parse before description"
  const AfterFallback: string := "Could not parse after description"

  /**
    One side of the hunk as it goes into the prompt: a placeholder for an
    empty side, the lines joined by '\n' otherwise. The joined text reads
    back as the same lines.
  */
  function PromptContent(lines: seq<string>, placeholder: string): (c: string)
    ensures lines == [] ==> c == placeholder
    ensures lines != [] ==> c == Join(lines, "\n")
    ensures lines != [] && lines[|lines| - 1] != [] && (forall k :: 0 <= k < |lines| ==> IsLine(lines[k]))
            ==> Lines(c) == lines
  {
    if lines == [] then placeholder
    else if lines[|lines| - 1] != [] && (forall k :: 0 <= k < |lines| ==> IsLine(lines[k])) then
      LinesOfJoin(lines);
      Join(lines, "\n")
    else Join(lines, "\n")
  }

  /** What one line of the answer gives for `field`: the trimmed rest of the trimmed line, when it starts with `field`. */
  function FieldOf(line: string, field: string): Option<string>
  {
    var trimmed := Trim(line);
    if StartsWith(trimmed, field) then Some(Trim(trimmed[|field|..])) else None
  }

  /** The value of `field` in the first line that has it. */
  function FirstField(lines: seq<string>, field: string): Option<string>
  {
    if lines == [] then None
    else if FieldOf(lines[0], field).Some? then FieldOf(lines[0], field)
    else FirstField(lines[1..], field)
  }

  /**
    The first matching line wins: there is a value exactly when some line
    starts with `field` once trimmed, and then it is the value of the
    earliest such line.
  */
  lemma {:induction false} FirstFieldIsEarliest(lines: seq<string>, field: string)
    ensures FirstField(lines, field).None? <==> forall k :: 0 <= k < |lines| ==> FieldOf(lines[k], field).None?
    ensures FirstField(lines, field).Some?
            ==> exists k :: 0 <= k < |lines| && FieldOf(lines[k], field) == FirstField(lines, field)
                            && forall j :: 0 <= j < k ==> FieldOf(lines[j], field).None?
  {
    if lines != [] && FieldOf(lines[0], field).None? {
      var tail := lines[1..];
      FirstFieldIsEarliest(tail, field);
      assert forall k :: 1 <= k < |lines| ==> lines[k] == tail[k - 1];
      if FirstField(tail, field).Some? {
        var k :| 0 <= k < |tail| && FieldOf(tail[k], field) == FirstField(tail, field)
                 && forall j :: 0 <= j < k ==> FieldOf(tail[j], field).None?;
        assert FieldOf(lines[k + 1], field) == FirstField(lines, field);
        assert forall j :: 0 <= j < k + 1 ==> FieldOf(lines[j], field).None? by {
          forall j | 0 <= j < k + 1 ensures FieldOf(lines[j], field).None? {
            if j > 0 {
              assert lines[j] == tail[j - 1];
            }
          }
        }
      }
    } else if lines != [] {
      assert FieldOf(lines[0], field) == FirstField(lines, field);
    }
  }

  /** `extract_field`: scan the lines of the answer and return at the first one carrying `field`. */
  method ExtractField(response: string, field: string) returns (value: Option<string>)
    ensures value == FirstField(Lines(response), field)
  {
    var lines := Lines(response);
    var i := 0;
    while i < |lines|
      invariant 0 <= i <= |lines|
      invariant FirstField(lines[i..], field) == FirstField(lines, field)
    {
      assert lines[i..][1..] == lines[i + 1..];
      var trimmed := Trim(lines[i]);
      if StartsWith(trimmed, field) {
        return Some(Trim(trimmed[|field|..]));
      }
      i := i + 1;
    }
    return None;
  }

  function OrElse(o: Option<string>, fallback: string): string
  {
    match o
    case Some(v) => v
    case None => fallback
  }

  /** How `describe_hunk` reads the answer: trimmed, then each field extracted, with a fallback text when it is missing. */
  method ParseDescription(response: string) returns (d: HunkDescription)
    ensures d.before == OrElse(FirstField(Lines(Trim(response)), "BEFORE:"), BeforeFallback)
    ensures d.after == OrElse(FirstField(Lines(Trim(response)), "AFTER:"), AfterFallback)
  {
    var trimmed := Trim(response);
    var before := ExtractField(trimmed, "BEFORE:");
    var after := ExtractField(trimmed, "AFTER:");
    d := HunkDescription(OrElse(before, BeforeFallback), OrElse(after, AfterFallback));
  }

  /** Text without whitespace at either end is its own trim. */
  lemma TrimmedIsFixed(s: string)
    requires s == [] || (!IsSpace(s[0]) && !IsSpace(s[|s| - 1]))
    ensures Trim(s) == s
  {
  }

  /** One space before trimmed text is trimmed away. */
  lemma TrimLeadingSpace(s: string)
    requires s != [] && !IsSpace(s[0]) && !IsSpace(s[|s| - 1])
    ensures Trim(" " + s) == s
  {
    assert (" " + s)[1..] == s;
    assert TrimStart(" " + s) == TrimStart(s) == s;
    assert TrimEnd(s) == s;
  }

  /** Two lines joined by '\n', the first without '\r' at its end, are cut back into those two lines. */
  lemma TwoLines(first: string, second: string)
    requires '\n' !in first && '\n' !in second
    requires first != [] && first[|first| - 1] != '\r'
    ensures Lines(first + "\n" + second) == [first] + (if second == [] then [] else [second])
  {
    var response := first + "\n" + second;
    NewlineIndexAt(first, second);
    assert response[..|first|] == first;
    assert response[|first| + 1..] == second;
    if second != [] {
      assert NewlineIndex(second) == |second|;
    }
  }

  /** A trimmed line "field value", the value trimmed and non-empty, gives `value` for `field`. */
  lemma FieldOfLine(field: string, value: string)
    requires field != [] && !IsSpace(field[0])
    requires value != [] && !IsSpace(value[0]) && !IsSpace(value[|value| - 1])
    ensures FieldOf(field + " " + value, field) == Some(value)
  {
    var line := field + " " + value;
    TrimmedIsFixed(line);
    assert line[..|field|] == field;
    assert line[|field|..] == " " + value;
    TrimLeadingSpace(value);
  }

  /** A trimmed line for one field gives nothing for a field starting with another letter. */
  lemma FieldOfOtherLine(field: string, other: string, value: string)
    requires field != [] && other != [] && field[0] != other[0] && !IsSpace(field[0])
    requires value != [] && !IsSpace(value[|value| - 1])
    ensures FieldOf(field + " " + value, other).None?
  {
    var line := field + " " + value;
    TrimmedIsFixed(line);
    PrefixMismatch(line, other, 0);
  }

  /** The first of two lines wins when it carries the field; otherwise the second decides. */
  lemma FirstFieldOfTwo(first: string, second: string, field: string)
    ensures FieldOf(first, field).Some? ==> FirstField([first, second], field) == FieldOf(first, field)
    ensures FieldOf(first, field).None? ==> FirstField([first, second], field) == FieldOf(second, field)
  {
    assert [first, second][1..] == [second];
    assert [second][1..] == [];
    assert FirstField([second], field) == FieldOf(second, field);
  }

  /** Requirements on a field name of the requested format: one line, starting with a non-space. */
  predicate IsFieldName(field: string)
  {
    field != [] && '\n' !in field && !IsSpace(field[0])
  }

  /** Requirements on a one-line description: no newline, no whitespace at its ends. */
  predicate IsDescription(d: string)
  {
    d != [] && '\n' !in d && !IsSpace(d[0]) && !IsSpace(d[|d| - 1])
  }

  /** A two-line answer "f1 v1\nf2 v2" is its own trim and cuts into its two lines. */
  lemma AnswerLines(f1: string, v1: string, f2: string, v2: string)
    requires IsFieldName(f1) && IsDescription(v1) && IsFieldName(f2) && IsDescription(v2)
    ensures Lines(Trim(f1 + " " + v1 + "\n" + (f2 + " " + v2))) == [f1 + " " + v1, f2 + " " + v2]
  {
    var first := f1 + " " + v1;
    var second := f2 + " " + v2;
    var response := first + "\n" + second;
    assert response[0] == f1[0] && response[|response| - 1] == v2[|v2| - 1];
    TrimmedIsFixed(response);
    assert first[|first| - 1] == v1[|v1| - 1];
    assert '\n' !in first && '\n' !in second;
    TwoLines(first, second);
  }

  /**
    An answer in the two-line format, with field names that start with
    different letters, gives each field's description.
  */
  lemma TwoFieldAnswer(f1: string, v1: string, f2: string, v2: string)
    requires IsFieldName(f1) && IsDescription(v1) && IsFieldName(f2) && IsDescription(v2)
    requires f1[0] != f2[0]
    ensures FirstField(Lines(Trim(f1 + " " + v1 + "\n" + (f2 + " " + v2))), f1) == Some(v1)
    ensures FirstField(Lines(Trim(f1 + " " + v1 + "\n" + (f2 + " " + v2))), f2) == Some(v2)
  {
    AnswerLines(f1, v1, f2, v2);
    FieldOfLine(f1, v1);
    FieldOfOtherLine(f1, f2, v1);
    FieldOfLine(f2, v2);
    FirstFieldOfTwo(f1 + " " + v1, f2 + " " + v2, f1);
    FirstFieldOfTwo(f1 + " " + v1, f2 + " " + v2, f2);
  }

  /**
    An answer in the requested two-line format gives both descriptions: for
    any one-line descriptions `b` and `a` without whitespace at their ends,
    "BEFORE: b\nAFTER: a" reads back as `b` and `a`.
  */
  lemma RequestedFormatReadsBack(b: string, a: string)
    requires IsDescription(b) && IsDescription(a)
    ensures FirstField(Lines(Trim("BEFORE:" + " " + b + "\n" + ("AFTER:" + " " + a))), "BEFORE:") == Some(b)
    ensures FirstField(Lines(Trim("BEFORE:" + " " + b + "\n" + ("AFTER:" + " " + a))), "AFTER:") == Some(a)
  {
    TwoFieldAnswer("BEFORE:", b, "AFTER:", a);
  }

  /**
    The unit test's answer, read by `extract_field` on the raw text: the
    answer has no whitespace at its ends, so it is its own trim.
  */
  lemma ExtractFieldExample(response: string)
    requires response == "BEFORE:" + " " + "old behavior" + "\n" + ("AFTER:" + " " + "new behavior")
    ensures FirstField(Lines(response), "BEFORE:") == Some("old behavior")
    ensures FirstField(Lines(response), "AFTER:") == Some("new behavior")
  {
    assert IsDescription("old behavior") && IsDescription("new behavior");
    assert response[0] == 'B' && response[|response| - 1] == 'r';
    TrimmedIsFixed(response);
    RequestedFormatReadsBack("old behavior", "new behavior");
  }

  /**
    A side whose last line is blank is still joined with '\n', so its text
    ends in '\n' and `lines` would not give the blank line back.
  */
  lemma PromptContentBlankLastLine(line: string, placeholder: string)
    requires line != [] && IsLine(line)
    ensures PromptContent([line, ""], placeholder) == line + "\n"
    ensures Lines(PromptContent([line, ""], placeholder)) == [line]
  {
    assert Join([line, ""], "\n") == line + "\n" + Join([""], "\n");
    LinesOfJoinWithNewline([line]);
  }

  /**
    The fallback text is used exactly when no line of the answer carries
    the field; otherwise the value of the earliest line that does is used.
  */
  lemma {:induction false} FallbackExactlyWhenMissing(lines: seq<string>, field: string, fallback: string)
    ensures (forall k :: 0 <= k < |lines| ==> FieldOf(lines[k], field).None?)
            ==> OrElse(FirstField(lines, field), fallback) == fallback
    ensures (exists k :: 0 <= k < |lines| && FieldOf(lines[k], field).Some?)
            ==> exists k :: 0 <= k < |lines| && FieldOf(lines[k], field) == Some(OrElse(FirstField(lines, field), fallback))
  {
    FirstFieldIsEarliest(lines, field);
    if FirstField(lines, field).Some? {
      var k :| 0 <= k < |lines| && FieldOf(lines[k], field) == FirstField(lines, field)
               && forall j :: 0 <= j < k ==> FieldOf(lines[j], field).None?;
      assert FieldOf(lines[k], field) == Some(OrElse(FirstField(lines, field), fallback));
    }
  }
}
