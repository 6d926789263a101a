/**
 * The conversion command: `generate_conversion_command`. For every file of the
 * raw directory whose extension is "rot" it lists the file's stem without its
 * last four characters (".pp3"), each followed by a space, between a fixed
 * `parallel rawtherapee-cli` invocation and a fixed shell comment.
 */
module Command {
  import opened Wrappers
  import opened Text
  import opened Paths

  const CommandPrefix := "parallel --delay 2 -j3 rawtherapee-cli -o converted -q -p {}.pp3.rot -j90 -js2 -Y -c {} ::: "
  const CommandSuffix := "\n\n# Optionally replace the original pp3 files with the modified ones:\n# for f in *.pp3.rot; do mv -- \"$f\" \"${f%.rot}\"; done"

  /** The listing keeps only files whose extension is exactly "rot". */
  predicate IsRotFile(name: string)
  {
    Extension(name) == Some("rot")
  }

  /**
   * Every listed file has a stem of at least four characters; for a shorter one
   * the source's `len() - 4` would panic.
   */
  predicate Listable(names: seq<string>)
  {
    forall i :: 0 <= i < |names| ==> HasBaseName(names[i])
  }

  /** A file the listing skips, or one whose stem is long enough to shorten by four. */
  predicate HasBaseName(name: string)
  {
    IsRotFile(name) ==> |Stem(name)| >= 4
  }

  /** The name a ".rot" file contributes: its stem without the last four characters. */
  function BaseName(name: string): string
    requires |Stem(name)| >= 4
  {
    Stem(name)[..|Stem(name)| - 4]
  }

  /** The names the command lists, one per ".rot" file, in listing order. */
  function ListedNames(names: seq<string>): seq<string>
    requires Listable(names)
  {
    if names == [] then []
    else
      assert HasBaseName(names[0]);
      (if IsRotFile(names[0]) then [BaseName(names[0])] else []) + ListedNames(names[1..])
  }

  /** Each name followed by one space. */
  function SpaceTerminated(names: seq<string>): string
  {
    if names == [] then "" else names[0] + " " + SpaceTerminated(names[1..])
  }

  /** The full command text for a listing of the raw directory. */
  function ConversionCommand(names: seq<string>): string
    requires Listable(names)
  {
    CommandPrefix + SpaceTerminated(ListedNames(names)) + CommandSuffix
  }

  /** The text between consecutive spaces, and what follows the last one if anything does. */
  function SplitAtSpaces(s: string): seq<string>
    decreases |s|
  {
    if s == "" then []
    else
      match IndexOf(s, ' ')
      case None => [s]
      case Some(i) => [s[..i]] + SplitAtSpaces(s[i + 1..])
  }

  /** The command text after the first `i` files of the listing, before the suffix. */
  function CommandSoFar(names: seq<string>, i: nat): string
    requires Listable(names) && i <= |names|
  {
    ListablePrefix(names, i);
    CommandPrefix + SpaceTerminated(ListedNames(names[..i]))
  }

  /**
   * The command's string building: start from the prefix, append each listed
   * name and a space, then the suffix.
   */
  method BuildConversionCommand(names: seq<string>) returns (command: string)
    requires Listable(names)
    ensures command == ConversionCommand(names)
  {
    command := CommandPrefix;
    var i := 0;
    assert names[..0] == [];
    while i < |names|
      invariant 0 <= i <= |names|
      invariant command == CommandSoFar(names, i)
    {
      ListedPrefixStep(names, i);
      if IsRotFile(names[i]) {
        var fileBaseName := Stem(names[i]);
        command := command + fileBaseName[..|fileBaseName| - 4];
        command := command + " ";
      }
      i := i + 1;
    }
    assert names[..i] == names;
    command := command + CommandSuffix;
  }

  /** Every prefix of a listable listing is listable. */
  lemma ListablePrefix(names: seq<string>, i: nat)
    requires Listable(names) && i <= |names|
    ensures Listable(names[..i])
  {
    assert forall k :: 0 <= k < i ==> names[..i][k] == names[k];
  }

  /** What one more file of the listing adds to the listed text. */
  lemma ListedPrefixStep(names: seq<string>, i: nat)
    requires i < |names| && Listable(names)
    ensures HasBaseName(names[i])
    ensures CommandSoFar(names, i + 1)
         == CommandSoFar(names, i) + (if IsRotFile(names[i]) then BaseName(names[i]) + " " else "")
  {
    ListablePrefix(names, i + 1);
    assert names[..i + 1] == names[..i] + [names[i]];
    assert HasBaseName(names[i]);
    ListedNamesAppend(names[..i], [names[i]]);
    assert [names[i]][1..] == [];
    var last := ListedNames([names[i]]);
    assert last == if IsRotFile(names[i]) then [BaseName(names[i])] else [];
    SpaceTerminatedAppend(ListedNames(names[..i]), last);
    if IsRotFile(names[i]) {
      assert SpaceTerminated(last) == BaseName(names[i]) + " " + SpaceTerminated([]);
    }
  }

  /** Listing two parts of a directory one after the other lists their names one after the other. */
  lemma {:induction false} ListedNamesAppend(a: seq<string>, b: seq<string>)
    requires Listable(a + b)
    ensures Listable(a) && Listable(b)
    ensures ListedNames(a + b) == ListedNames(a) + ListedNames(b)
  {
    if a != [] {
      assert (a + b)[1..] == a[1..] + b;
      ListedNamesAppend(a[1..], b);
    } else {
      assert a + b == b;
    }
  }

  /** Space-terminating two lists one after the other gives the two texts one after the other. */
  lemma {:induction false} SpaceTerminatedAppend(a: seq<string>, b: seq<string>)
    ensures SpaceTerminated(a + b) == SpaceTerminated(a) + SpaceTerminated(b)
  {
    if a != [] {
      assert (a + b)[1..] == a[1..] + b;
      SpaceTerminatedAppend(a[1..], b);
    } else {
      assert a + b == b;
    }
  }

  /**
   * Splitting the listed part of the command at its spaces gives the listed
   * names back, as long as no name contains a space itself.
   */
  lemma {:induction false} SplitRecoversNames(names: seq<string>)
    requires forall i :: 0 <= i < |names| ==> ' ' !in names[i]
    ensures SplitAtSpaces(SpaceTerminated(names)) == names
  {
    if names != [] {
      var rest := SpaceTerminated(names[1..]);
      IndexOfAfter(names[0], ' ', rest);
      var s := names[0] + [' '] + rest;
      assert SpaceTerminated(names) == s;
      assert s[..|names[0]|] == names[0];
      assert s[|names[0]| + 1..] == rest;
      SplitRecoversNames(names[1..]);
      assert [names[0]] + names[1..] == names;
    }
  }

  /** The names the sidecar rewriter gives the rewritten sidecars of the raw files `raws`. */
  function RewrittenSidecarNames(raws: seq<string>): seq<string>
  {
    if raws == [] then [] else [raws[0] + ".pp3.rot"] + RewrittenSidecarNames(raws[1..])
  }

  /**
   * Files named "<raw file>.pp3.rot", as the sidecar rewriter writes them, make
   * the command list exactly the raw file names, so `-c {}` names each raw file
   * and `-p {}.pp3.rot` its rewritten sidecar.
   */
  lemma {:induction false} CommandListsRawFiles(raws: seq<string>)
    requires forall i :: 0 <= i < |raws| ==> raws[i] != ""
    ensures Listable(RewrittenSidecarNames(raws)) && ListedNames(RewrittenSidecarNames(raws)) == raws
  {
    if raws != [] {
      var name := raws[0] + ".pp3.rot";
      assert name == (raws[0] + ".pp3") + "." + "rot";
      StemOfAppendedExtension(raws[0] + ".pp3", "rot");
      assert IsRotFile(name) && BaseName(name) == raws[0];
      CommandListsRawFiles(raws[1..]);
      var names := RewrittenSidecarNames(raws);
      assert names == [name] + RewrittenSidecarNames(raws[1..]);
      assert names[1..] == RewrittenSidecarNames(raws[1..]);
      assert Listable(names) by {
        forall i | 0 <= i < |names| ensures HasBaseName(names[i]) {
          if i > 0 {
            assert names[i] == names[1..][i - 1];
          }
        }
      }
      assert [raws[0]] + raws[1..] == raws;
    }
  }

  /** Files with any other extension are not listed. */
  lemma {:induction false} OtherFilesAreNotListed(names: seq<string>)
    requires forall i :: 0 <= i < |names| ==> !IsRotFile(names[i])
    ensures Listable(names) && ListedNames(names) == []
    ensures ConversionCommand(names) == CommandPrefix + CommandSuffix
  {
    if names != [] {
      OtherFilesAreNotListed(names[1..]);
    }
  }
  /**
   * The number of bytes UTF-8 takes for one character, the unit in which Rust's
   * `str::len` counts and `str` slices cut.
   */
  function Utf8Width(c: char): (w: nat)
    ensures 1 <= w <= 4
    ensures w == 1 <==> (c as int) < 0x80
  {
    if (c as int) < 0x80 then 1
    else if (c as int) < 0x800 then 2
    else if (c as int) < 0x1_0000 then 3
    else 4
  }

  /** The UTF-8 length of a text in bytes. */
  function Utf8Length(s: string): (n: nat)
    ensures n >= |s|
  {
    if s == [] then 0 else Utf8Width(s[0]) + Utf8Length(s[1..])
  }

  /** An ASCII text takes one byte per character. */
  predicate IsAscii(s: string)
  {
    forall i :: 0 <= i < |s| ==> (s[i] as int) < 0x80
  }

  lemma {:induction false} Utf8LengthAppend(a: string, b: string)
    ensures Utf8Length(a + b) == Utf8Length(a) + Utf8Length(b)
  {
    if a == [] {
      assert a + b == b;
    } else {
      assert (a + b)[0] == a[0] && (a + b)[1..] == a[1..] + b;
      Utf8LengthAppend(a[1..], b);
    }
  }

  /** A text is as long in bytes as in characters exactly when it is ASCII. */
  lemma {:induction false} Utf8LengthOfAscii(s: string)
    ensures Utf8Length(s) == |s| <==> IsAscii(s)
  {
    if s != [] {
      Utf8LengthOfAscii(s[1..]);
      if IsAscii(s) {
        assert IsAscii(s[1..]) by {
          forall i | 0 <= i < |s[1..]| ensures (s[1..][i] as int) < 0x80 {
            assert s[1..][i] == s[i + 1];
          }
        }
      } else if Utf8Width(s[0]) == 1 {
        assert !IsAscii(s[1..]) by {
          var j :| 0 <= j < |s| && (s[j] as int) >= 0x80;
          assert s[1..][j - 1] == s[j];
        }
      }
    }
  }

  /**
   * Dropping the last four characters of a stem, as the model does, cuts it at
   * the same place as dropping its last four bytes, as `len() - 4` does in the
   * source, whenever those four characters are ASCII: the byte count is at
   * least four and the character-wise prefix is exactly four bytes shorter.
   */
  lemma ByteCutIsCharacterCut(stem: string)
    requires |stem| >= 4 && IsAscii(stem[|stem| - 4..])
    ensures Utf8Length(stem) >= 4
    ensures Utf8Length(stem[..|stem| - 4]) == Utf8Length(stem) - 4
  {
    var head, last := stem[..|stem| - 4], stem[|stem| - 4..];
    assert stem == head + last;
    Utf8LengthAppend(head, last);
    Utf8LengthOfAscii(last);
  }

  /**
   * For a rewritten sidecar "<raw file>.pp3.rot" the four characters dropped are
   * ".pp3", so the listed name is the raw file name whatever characters it holds,
   * and it is also what the source's byte-wise cut yields.
   */
  lemma RawSidecarCutIsByteCut(raw: string)
    requires raw != []
    ensures var stem := Stem(raw + ".pp3.rot");
      |stem| >= 4 && BaseName(raw + ".pp3.rot") == raw
      && Utf8Length(raw) == Utf8Length(stem) - 4
  {
    assert raw + ".pp3.rot" == (raw + ".pp3") + "." + "rot";
    StemOfAppendedExtension(raw + ".pp3", "rot");
    var stem := raw + ".pp3";
    assert stem[..|stem| - 4] == raw;
    assert stem[|stem| - 4..] == ".pp3";
    assert IsAscii(".pp3") by {
      assert ".pp3"[0] == '.' && ".pp3"[1] == 'p' && ".pp3"[2] == 'p' && ".pp3"[3] == '3';
    }
    ByteCutIsCharacterCut(stem);
  }
}
