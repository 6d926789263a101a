/**
 * The RawTherapee sidecar (`.pp3`) rewriter: `apply_additional_rotation_to_pp3`.
 *
 * The file's lines are scanned once. The first line containing "[Rotation]"
 * opens the section, and from the line after it on, the first line starting with
 * "Degree=" has its number replaced by that number minus the additional
 * rotation; the scan stops there. The lines, joined with "\n", are written
 * next to the input under the extension "pp3.rot".
 *
 * Rust's `f32` text conversions are parameters: `parse` stands for
 * `str::parse::<f32>` and `format` for `f32`'s `Display`.
 */
module Sidecar {
  import opened Wrappers
  import opened Text
  import opened Paths

  const SectionMarker := "[Rotation]"
  const DegreeKey := "Degree="
  /** What `set_extension` gives the output file. */
  const OutputExtension := "pp3.rot"

  /** The error the rewriter reports: the text after "Degree=" is not a number ("Rotation invalid"). */
  datatype Pp3Error = RotationInvalid

  /** The file the rewriter writes: where, and what. */
  datatype Written = Written(path: FilePath, content: string)

  /** The two kinds of line the scan looks for. */
  datatype LineKind = SectionLine | DegreeLine

  /** A section line contains the marker anywhere; a degree line starts with the key. */
  predicate IsKind(kind: LineKind, line: string)
  {
    match kind
    case SectionLine => Contains(line, SectionMarker)
    case DegreeLine => StartsWith(line, DegreeKey)
  }

  /** The first line of `kind` at or after position `from`. */
  function FirstOf(kind: LineKind, lines: seq<string>, from: nat): (r: Option<nat>)
    requires from <= |lines|
    ensures r.Some? ==> from <= r.value < |lines| && IsKind(kind, lines[r.value])
    ensures r.Some? ==> forall k :: from <= k < r.value ==> !IsKind(kind, lines[k])
    ensures r.None? ==> forall k :: from <= k < |lines| ==> !IsKind(kind, lines[k])
    decreases |lines| - from
  {
    if from == |lines| then None
    else if IsKind(kind, lines[from]) then Some(from)
    else FirstOf(kind, lines, from + 1)
  }

  /** The line the rewriter edits: the first degree line after the first section line. */
  function Target(lines: seq<string>): Option<nat>
  {
    match FirstOf(SectionLine, lines, 0)
    case None => None
    case Some(a) => FirstOf(DegreeLine, lines, a + 1)
  }

  /** `a` is the position of the first line that contains the section marker. */
  ghost predicate IsFirstSectionLine(lines: seq<string>, a: int)
  {
    0 <= a < |lines| && IsKind(SectionLine, lines[a])
    && forall k :: 0 <= k < a ==> !IsKind(SectionLine, lines[k])
  }

  /**
   * `j` holds the first line starting with "Degree=" after the first line that
   * contains "[Rotation]"; no other section header closes the section.
   */
  ghost predicate IsEditedLine(lines: seq<string>, j: int)
  {
    exists a :: IsFirstSectionLine(lines, a) && a < j < |lines| && IsKind(DegreeLine, lines[j])
      && forall k :: a < k < j ==> !IsKind(DegreeLine, lines[k])
  }

  /** The number text of a degree line: what follows "Degree=". */
  function DegreeValue(line: string): string
    requires StartsWith(line, DegreeKey)
  {
    line[|DegreeKey|..]
  }

  /** The lines after the edit, or the error when the degree value does not parse. */
  function RewriteLines(lines: seq<string>, additionalRotation: real,
                        parse: string -> Option<real>, format: real -> string): Result<seq<string>, Pp3Error>
  {
    match Target(lines)
    case None => Success(lines)
    case Some(j) =>
      match parse(DegreeValue(lines[j]))
      case None => Failure(RotationInvalid)
      case Some(degree) => Success(lines[j := DegreeKey + format(degree - additionalRotation)])
  }

  /** The output path: the input path with its last extension replaced by "pp3.rot". */
  function OutputPath(path: FilePath): FilePath
  {
    SetExtension(path, OutputExtension)
  }

  /** What `apply_additional_rotation_to_pp3` writes, given the text it reads. */
  function RewrittenPp3(path: FilePath, text: string, additionalRotation: real,
                        parse: string -> Option<real>, format: real -> string): Result<Written, Pp3Error>
  {
    match RewriteLines(Lines(text), additionalRotation, parse, format)
    case Failure(e) => Failure(e)
    case Success(lines) => Success(Written(OutputPath(path), Join(lines, "\n")))
  }

  /**
   * The rewriter, given the text read from `path`: one pass over the lines with
   * an `in_section` flag that is never cleared, an in-place edit of the matching
   * line, and a stop right after it.
   */
  method ApplyAdditionalRotationToPp3(path: FilePath, text: string, additionalRotation: real,
                                      parse: string -> Option<real>, format: real -> string)
    returns (r: Result<Written, Pp3Error>)
    ensures r == RewrittenPp3(path, text, additionalRotation, parse, format)
  {
    var pp3 := Lines(text);
    ghost var lines := pp3;
    var inSection := false;
    var i := 0;
    while i < |pp3|
      invariant 0 <= i <= |pp3| && pp3 == lines
      invariant inSection <==> FirstOf(SectionLine, lines, 0).Some? && FirstOf(SectionLine, lines, 0).value < i
      invariant inSection ==>
        var found := FirstOf(DegreeLine, lines, FirstOf(SectionLine, lines, 0).value + 1);
        found.None? || i <= found.value
    {
      if !inSection && Contains(pp3[i], SectionMarker) {
        inSection := true;
      } else if inSection && StartsWith(pp3[i], DegreeKey) {
        var degree := parse(pp3[i][|DegreeKey|..]);
        if degree.None? {
          r := Failure(RotationInvalid);
          return;
        }
        pp3 := pp3[i := DegreeKey + format(degree.value - additionalRotation)];
        break;
      }
      i := i + 1;
    }
    r := Success(Written(OutputPath(path), Join(pp3, "\n")));
  }

  /** `Target` finds exactly the line `IsEditedLine` describes. */
  lemma TargetIsFirstDegreeLineAfterFirstSectionLine(lines: seq<string>, j: int)
    ensures Target(lines) == Some(j) <==> IsEditedLine(lines, j)
  {
    var first := FirstOf(SectionLine, lines, 0);
    if Target(lines) == Some(j) {
      assert IsFirstSectionLine(lines, first.value);
    }
    if IsEditedLine(lines, j) {
      var a :| IsFirstSectionLine(lines, a) && a < j < |lines| && IsKind(DegreeLine, lines[j])
        && forall k :: a < k < j ==> !IsKind(DegreeLine, lines[k]);
      assert first == Some(a);
      assert FirstOf(DegreeLine, lines, a + 1) == Some(j);
    }
  }

  /**
   * Nothing is edited exactly when no line contains "[Rotation]" or no line after
   * the first such line starts with "Degree="; the lines then come back unchanged.
   */
  lemma NoTargetMeansPassthrough(lines: seq<string>, additionalRotation: real,
                                 parse: string -> Option<real>, format: real -> string)
    ensures Target(lines).None? <==>
      (forall k :: 0 <= k < |lines| ==> !IsKind(SectionLine, lines[k]))
      || exists a :: IsFirstSectionLine(lines, a) && forall k :: a < k < |lines| ==> !IsKind(DegreeLine, lines[k])
    ensures Target(lines).None? ==> RewriteLines(lines, additionalRotation, parse, format) == Success(lines)
  {
    var first := FirstOf(SectionLine, lines, 0);
    if first.Some? {
      assert IsFirstSectionLine(lines, first.value);
      forall a | IsFirstSectionLine(lines, a) ensures a == first.value { }
    }
  }

  /**
   * A successful rewrite keeps the number and order of the lines and every line
   * but the target; the target line becomes "Degree=" followed by the old value
   * minus the additional rotation.
   */
  lemma RewriteChangesOnlyTheTargetLine(lines: seq<string>, additionalRotation: real,
                                        parse: string -> Option<real>, format: real -> string)
    requires RewriteLines(lines, additionalRotation, parse, format).Success?
    ensures var out := RewriteLines(lines, additionalRotation, parse, format).value;
      |out| == |lines|
      && (forall k :: 0 <= k < |lines| && Target(lines) != Some(k) ==> out[k] == lines[k])
      && (Target(lines).Some? ==>
            var j := Target(lines).value;
            parse(DegreeValue(lines[j])).Some?
            && out[j] == DegreeKey + format(parse(DegreeValue(lines[j])).value - additionalRotation))
  {
  }

  /** The rewrite fails exactly when there is a target line whose value does not parse. */
  lemma RewriteFailsOnlyOnUnparsableValue(lines: seq<string>, additionalRotation: real,
                                          parse: string -> Option<real>, format: real -> string)
    ensures RewriteLines(lines, additionalRotation, parse, format).Failure? <==>
      Target(lines).Some? && parse(DegreeValue(lines[Target(lines).value])).None?
  {
  }

  /**
   * Rust's `split_once('=')` on a degree line always succeeds and yields the key
   * without its "=" and the number text, so the rewriter's "Line invalid" error
   * cannot occur.
   */
  lemma DegreeLineSplitsAtKey(line: string)
    requires StartsWith(line, DegreeKey)
    ensures SplitOnce(line, '=') == Some(("Degree", DegreeValue(line)))
  {
    assert line[..|DegreeKey|] == DegreeKey == "Degree" + ['='];
    assert line == "Degree" + ['='] + DegreeValue(line);
    assert '=' !in "Degree";
    IndexOfAfter("Degree", '=', DegreeValue(line));
    assert line[..6] == "Degree";
  }

  /**
   * Rewriting twice adds up: when the number text reads back as the number it was
   * formatted from, a second rewrite edits the same line and leaves the old value
   * minus both rotations.
   */
  lemma {:induction false} RewriteTwiceSubtractsBoth(lines: seq<string>, first: real, second: real,
                                                     parse: string -> Option<real>, format: real -> string)
    requires Target(lines).Some?
    requires parse(DegreeValue(lines[Target(lines).value])).Some?
    requires var old_ := parse(DegreeValue(lines[Target(lines).value])).value;
      parse(format(old_ - first)) == Some(old_ - first)
    ensures var j := Target(lines).value;
      var old_ := parse(DegreeValue(lines[j])).value;
      var once := RewriteLines(lines, first, parse, format);
      once.Success? && Target(once.value) == Some(j)
      && parse(DegreeValue(once.value[j])) == Some(old_ - first)
      && RewriteLines(once.value, second, parse, format)
         == Success(lines[j := DegreeKey + format(old_ - first - second)])
  {
    var j := Target(lines).value;
    var old_ := parse(DegreeValue(lines[j])).value;
    var edited := DegreeKey + format(old_ - first);
    var once := lines[j := edited];
    assert RewriteLines(lines, first, parse, format) == Success(once);
    TargetIsFirstDegreeLineAfterFirstSectionLine(lines, j);
    var a :| IsFirstSectionLine(lines, a) && a < j < |lines| && IsKind(DegreeLine, lines[j])
      && forall k :: a < k < j ==> !IsKind(DegreeLine, lines[k]);
    assert IsFirstSectionLine(once, a);
    assert StartsWith(edited, DegreeKey);
    assert IsEditedLine(once, j);
    TargetIsFirstDegreeLineAfterFirstSectionLine(once, j);
    assert DegreeValue(once[j]) == format(old_ - first);
    assert once[j := DegreeKey + format(old_ - first - second)] == lines[j := DegreeKey + format(old_ - first - second)];
  }

  /**
   * When nothing is edited the file is copied: the output is the input text,
   * less one final line feed if it has one.
   */
  lemma PassthroughCopiesText(path: FilePath, text: string, additionalRotation: real,
                              parse: string -> Option<real>, format: real -> string)
    requires Target(Lines(text)).None?
    requires '\r' !in text
    ensures RewrittenPp3(path, text, additionalRotation, parse, format)
         == Success(Written(OutputPath(path), WithoutFinalLineFeed(text)))
  {
    JoinOfLines(text);
  }

  /** The output never replaces the input: a path with a file name gets a different one. */
  lemma {:induction false} OutputPathDiffersFromInput(path: FilePath)
    requires path.name != ""
    ensures OutputPath(path) != path
    ensures OutputPath(path).dir == path.dir
  {
    var stem := Stem(path.name);
    var out := stem + ".pp3.rot";
    assert "." + OutputExtension == ".pp3.rot";
    assert OutputPath(path).name == out;
    assert out == (stem + ".pp3") + "." + "rot";
    StemOfAppendedExtension(stem + ".pp3", "rot");
    assert |Stem(out)| != |stem|;
  }

  /** The sidecar "X.pp3" is written to "X.pp3.rot" in the same directory. */
  lemma {:induction false} OutputPathOfPp3(dir: string, base: string)
    requires base != ""
    ensures OutputPath(FilePath(dir, base + ".pp3")) == FilePath(dir, base + ".pp3.rot")
  {
    StemOfAppendedExtension(base, "pp3");
    assert base + ".pp3" == base + "." + "pp3";
    assert "." + OutputExtension == ".pp3.rot";
  }

  /**
   * Both unusual matches of the scan: "[Rotation]" is found inside another line,
   * and a "Degree=" line is found after a later section header.
   */
  lemma SectionIsNeitherTrimmedNorClosed()
    ensures Target(["Note=[Rotation]", "Degree=1"]) == Some(1)
    ensures Target(["[Rotation]", "Angle=1", "[Distortion]", "Degree=2"]) == Some(3)
  {
    assert Contains("Note=[Rotation]", SectionMarker) by {
      assert "Note=[Rotation]"[5..] == SectionMarker;
    }
    assert !StartsWith("Angle=1", DegreeKey) by {
      assert "Angle=1"[0] != DegreeKey[0];
    }
    assert !StartsWith("[Distortion]", DegreeKey) by {
      assert "[Distortion]"[0] != DegreeKey[0];
    }
  }

  /**
   * A worked rewrite: "Degree=12.5" inside the rotation section, rotated by a
   * further 2.5 degrees, becomes "Degree=10", and no other line changes.
   */
  lemma RewriteExample(parse: string -> Option<real>, format: real -> string)
    requires parse("12.5") == Some(12.5)
    requires format(10.0) == "10"
    ensures RewriteLines(["[Other]", "X=1", "[Rotation]", "Degree=12.5", "Y=2"], 2.5, parse, format)
         == Success(["[Other]", "X=1", "[Rotation]", "Degree=10", "Y=2"])
  {
    var lines := ["[Other]", "X=1", "[Rotation]", "Degree=12.5", "Y=2"];
    assert !Contains("[Other]", SectionMarker);
    assert !Contains("X=1", SectionMarker);
    assert Contains("[Rotation]", SectionMarker);
    assert FirstOf(SectionLine, lines, 0) == Some(2);
    assert StartsWith("Degree=12.5", DegreeKey);
    assert DegreeValue("Degree=12.5") == "12.5";
    assert Target(lines) == Some(3);
    assert DegreeKey + format(12.5 - 2.5) == "Degree=10";
    assert lines[3 := "Degree=10"] == ["[Other]", "X=1", "[Rotation]", "Degree=10", "Y=2"];
  }
}
