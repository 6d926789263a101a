/**
 * File paths as the rewriter and the command builder use them: a directory and a
 * final file name, with Rust's `Path::file_stem`, `Path::extension` and
 * `PathBuf::set_extension` on the file name.
 */
module Paths {
  import opened Wrappers

  /**
   * A path split into the directory it lies in and its final component, as
   * `Path::file_name` gives it; `name` is empty when the path has no file name.
   */
  datatype FilePath = FilePath(dir: string, name: string)

  /** The position of the last dot in `s`. */
  function LastDot(s: string): (r: Option<nat>)
    ensures r.Some? ==> r.value < |s| && s[r.value] == '.' && '.' !in s[r.value + 1..]
    ensures r.None? ==> '.' !in s
  {
    if |s| == 0 then None
    else if s[|s| - 1] == '.' then Some(|s| - 1)
    else
      var r := LastDot(s[..|s| - 1]);
      assert r.Some? ==> s[r.value + 1..] == s[..|s| - 1][r.value + 1..] + [s[|s| - 1]];
      assert r.None? ==> s == s[..|s| - 1] + [s[|s| - 1]];
      r
  }

  /**
   * `file_stem`: the file name up to its last dot; the whole name when it has no
   * dot, when its only dot is its first character, or when it is "..".
   */
  function Stem(name: string): string
  {
    if name == ".." then name
    else
      match LastDot(name)
      case None => name
      case Some(i) => if i == 0 then name else name[..i]
  }

  /** `extension`: what follows the last dot of the file name, when `Stem` stops before that dot. */
  function Extension(name: string): Option<string>
  {
    if name == ".." then None
    else
      match LastDot(name)
      case None => None
      case Some(i) => if i == 0 then None else Some(name[i + 1..])
  }

  /**
   * The stem, a dot and the extension make up the file name again, and the
   * extension has no dot; a name without an extension is its own stem.
   */
  lemma StemAndExtensionRebuildName(name: string)
    ensures Extension(name).Some? ==>
      name == Stem(name) + "." + Extension(name).value && '.' !in Extension(name).value && Stem(name) != ""
    ensures Extension(name).None? ==> Stem(name) == name
  {
    match LastDot(name)
    case None =>
    case Some(i) =>
      if i != 0 && name != ".." {
        assert name == name[..i] + "." + name[i + 1..];
      }
  }

  /**
   * `set_extension(ext)`: keep the path up to the end of the stem and append
   * "." and `ext` (nothing when `ext` is empty); a path without a file name is
   * left as it is.
   */
  function SetExtension(p: FilePath, ext: string): FilePath
  {
    if p.name == "" then p
    else FilePath(p.dir, Stem(p.name) + (if ext == "" then "" else "." + ext))
  }

  /** Appending text without a dot does not move the last dot. */
  lemma {:induction false} LastDotAppend(s: string, tail: string)
    requires '.' !in tail
    ensures LastDot(s + tail) == LastDot(s)
    decreases |tail|
  {
    if tail != [] {
      var t := tail[..|tail| - 1];
      assert (s + tail)[..|s + tail| - 1] == s + t;
      assert (s + tail)[|s + tail| - 1] == tail[|tail| - 1] != '.';
      LastDotAppend(s, t);
    } else {
      assert s + tail == s;
    }
  }

  /** A name built as `s + "." + ext`, with a dot-free `ext`, has stem `s` and extension `ext`. */
  lemma {:induction false} StemOfAppendedExtension(s: string, ext: string)
    requires s != "" && ext != "" && '.' !in ext
    ensures Stem(s + "." + ext) == s
    ensures Extension(s + "." + ext) == Some(ext)
  {
    assert LastDot(s + ".") == Some(|s|);
    LastDotAppend(s + ".", ext);
    assert (s + "." + ext)[..|s|] == s;
  }
}
