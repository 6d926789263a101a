/**
 * The few operations on Rust `str` values that the model needs:
 * `contains`, `starts_with`, `split_once`, `lines` and `join`.
 */
module Text {
  import opened Wrappers

  /** `s.starts_with(prefix)`. */
  predicate StartsWith(s: string, prefix: string)
  {
    prefix <= s
  }

  /** `s.contains(pat)`: `pat` occurs somewhere in `s`. */
  predicate Contains(s: string, pat: string)
  {
    pat <= s || (|s| > 0 && Contains(s[1..], pat))
  }

  /** The first position of `c` in `s`, if there is one. */
  function IndexOf(s: string, c: char): (r: Option<nat>)
    ensures r.Some? ==> r.value < |s| && s[r.value] == c && c !in s[..r.value]
    ensures r.None? ==> c !in s
  {
    if |s| == 0 then None
    else if s[0] == c then Some(0)
    else
      match IndexOf(s[1..], c)
      case None => None
      case Some(i) => Some(i + 1)
  }

  /** `s.split_once(c)`: the text before and after the first `c`. */
  function SplitOnce(s: string, c: char): (r: Option<(string, string)>)
    ensures r.None? <==> c !in s
    ensures r.Some? ==> s == r.value.0 + [c] + r.value.1 && c !in r.value.0
  {
    match IndexOf(s, c)
    case None => None
    case Some(i) =>
      assert s == s[..i] + [c] + s[i + 1..];
      Some((s[..i], s[i + 1..]))
  }

  /** The position of `c` in `a + [c] + b` when `a` does not contain it. */
  lemma IndexOfAfter(a: string, c: char, b: string)
    requires c !in a
    ensures IndexOf(a + [c] + b, c) == Some(|a|)
  {
    if a != [] {
      assert (a + [c] + b)[1..] == a[1..] + [c] + b;
      IndexOfAfter(a[1..], c, b);
    }
  }

  /** `line` with one trailing carriage return removed. */
  function StripCr(line: string): string
  {
    if |line| > 0 && line[|line| - 1] == '\r' then line[..|line| - 1] else line
  }

  /**
   * `text.lines()`: the text split at each `\n`, a line ending in `\r\n` losing both
   * characters; a final line ending is optional, so "a\n" and "a" give the same lines.
   */
  function Lines(text: string): seq<string>
    decreases |text|
  {
    if text == [] then []
    else
      match IndexOf(text, '\n')
      case None => [text]
      case Some(i) => [StripCr(text[..i])] + Lines(text[i + 1..])
  }

  /** `lines.join(sep)`. */
  function Join(lines: seq<string>, sep: string): string
  {
    if |lines| == 0 then ""
    else if |lines| == 1 then lines[0]
    else lines[0] + sep + Join(lines[1..], sep)
  }

  /** A line `Lines` can give back: no line feed, no trailing carriage return. */
  predicate IsPlainLine(line: string)
  {
    '\n' !in line && (|line| == 0 || line[|line| - 1] != '\r')
  }

  /**
   * Joining lines with "\n" and splitting them again gives the lines back, provided
   * each is a plain line and the last one is not empty (an empty last line would
   * become a final line ending, which `Lines` drops).
   */
  lemma {:induction false} LinesOfJoin(lines: seq<string>)
    requires forall i :: 0 <= i < |lines| ==> IsPlainLine(lines[i])
    requires lines == [] || lines[|lines| - 1] != ""
    ensures Lines(Join(lines, "\n")) == lines
  {
    if |lines| == 1 {
      assert IndexOf(lines[0], '\n') == None;
    } else if |lines| > 1 {
      var rest := Join(lines[1..], "\n");
      var text := lines[0] + "\n" + rest;
      IndexOfAfter(lines[0], '\n', rest);
      assert text[..|lines[0]|] == lines[0];
      assert text[|lines[0]| + 1..] == rest;
      LinesOfJoin(lines[1..]);
      assert [lines[0]] + lines[1..] == lines;
    }
  }

  /** The text without one final line feed, if it ends with one. */
  function WithoutFinalLineFeed(text: string): (r: string)
    ensures |r| <= |text| && r == text[..|r|]
    ensures '\n' !in text ==> r == text
  {
    if text != [] && text[|text| - 1] == '\n' then text[..|text| - 1] else text
  }

  /** Dropping a final line feed only touches the last line of a text. */
  lemma WithoutFinalLineFeedOfLater(head: string, rest: string)
    requires rest != []
    ensures WithoutFinalLineFeed(head + "\n" + rest) == head + "\n" + WithoutFinalLineFeed(rest)
  {
    var text := head + "\n" + rest;
    if rest[|rest| - 1] == '\n' {
      assert text[..|text| - 1] == head + "\n" + rest[..|rest| - 1];
    }
  }

  /**
   * Splitting a text into lines and joining them with "\n" gives the text back,
   * except that one final line feed is lost, provided it has no carriage return.
   */
  lemma {:induction false} JoinOfLines(text: string)
    requires '\r' !in text
    ensures Join(Lines(text), "\n") == WithoutFinalLineFeed(text)
    decreases |text|
  {
    if text != [] {
      match IndexOf(text, '\n')
      case None =>
      case Some(i) =>
        var head, rest := text[..i], text[i + 1..];
        assert text == head + "\n" + rest;
        assert '\r' !in head;
        assert StripCr(head) == head;
        var tail := Lines(rest);
        assert Lines(text) == [head] + tail;
        if rest != [] {
          JoinOfLines(rest);
          assert ([head] + tail)[1..] == tail;
          WithoutFinalLineFeedOfLater(head, rest);
        }
    }
  }

  /**
   * One more line feed after a last line that is not empty and does not end in
   * '\r' does not change the lines read.
   */
  lemma {:induction false} FinalLineEndingIsOptional(text: string)
    requires text != []
    requires text[|text| - 1] != '\n' && text[|text| - 1] != '\r'
    ensures Lines(text + "\n") == Lines(text)
    decreases |text|
  {
    var full := text + "\n";
    match IndexOf(text, '\n')
    case None =>
      IndexOfAfter(text, '\n', "");
      assert full == text + ['\n'] + "";
      assert full[..|text|] == text;
      assert full[|text| + 1..] == [];
    case Some(i) =>
      assert full[..i + 1] == text[..i + 1];
      assert IndexOf(full, '\n') == Some(i) by {
        IndexOfAfter(text[..i], '\n', text[i + 1..] + "\n");
        assert full == text[..i] + ['\n'] + (text[i + 1..] + "\n");
      }
      assert full[..i] == text[..i];
      var rest := text[i + 1..];
      assert full[i + 1..] == rest + "\n";
      assert rest != [] && rest[|rest| - 1] == text[|text| - 1];
      FinalLineEndingIsOptional(rest);
  }
}
