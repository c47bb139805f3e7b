/** The two things the parsers ask of `pathlib.Path`: the final component of
    a path (`name`) and its extension (`suffix`). Paths use `/` only. */
module Paths {
  import opened Wrappers

  /** The path without its trailing slashes, which `Path` ignores. */
  function TrimSlashes(p: string): (r: string)
    ensures |r| <= |p| && r == p[..|r|]
    ensures r == "" || r[|r| - 1] != '/'
    ensures forall k :: |r| <= k < |p| ==> p[k] == '/'
  {
    if p != "" && p[|p| - 1] == '/' then TrimSlashes(p[..|p| - 1]) else p
  }

  /** The part of `s` after its last `c`, or all of `s` without one. */
  function AfterLast(s: string, c: char): (r: string)
    ensures |r| <= |s| && c !in r
  {
    if s == "" then ""
    else if s[|s| - 1] == c then ""
    else AfterLast(s[..|s| - 1], c) + [s[|s| - 1]]
  }

  /** `Path(p).name` */
  function Name(p: string): (r: string)
    ensures '/' !in r
  {
    AfterLast(TrimSlashes(p), '/')
  }

  /** The position of the last `c` in `s`, if any. */
  function LastIndex(s: string, c: char): (r: Option<nat>)
    ensures r.Some? ==> r.value < |s| && s[r.value] == c && c !in s[r.value + 1..]
    ensures r.None? ==> c !in s
  {
    if s == "" then None
    else if s[|s| - 1] == c then Some(|s| - 1)
    else LastIndex(s[..|s| - 1], c)
  }

  /** `Path(p).suffix`: empty, or a dot followed by at least one
      character, none of them a dot or a slash. */
  function Suffix(p: string): (r: string)
    ensures r == "" || (|r| >= 2 && r[0] == '.' && '.' !in r[1..] && '/' !in r)
  {
    SuffixOfName(Name(p))
  }

  /** The suffix of a file name: from its last dot, when that dot is
      neither the first nor the last character of the name; else empty.
      This is `pathlib` up to Python 3.13; from 3.14 a name ending in a
      dot has the suffix `"."`. */
  function SuffixOfName(name: string): string {
    match LastIndex(name, '.')
    case Some(i) => if 0 < i < |name| - 1 then name[i..] else ""
    case None => ""
  }

  /** A file name with a non-empty stem and an extension of one dot and no
      further dots has exactly that extension, whatever directory it is in
      and however many slashes follow it. */
  lemma SuffixOf(dir: string, stem: string, ext: string, trail: string)
    requires dir == "" || dir[|dir| - 1] == '/'
    requires stem != "" && '/' !in stem
    requires |ext| >= 2 && ext[0] == '.' && '.' !in ext[1..] && '/' !in ext
    requires forall k :: 0 <= k < |trail| ==> trail[k] == '/'
    ensures Suffix(dir + stem + ext + trail) == ext
  {
    assert dir + stem + ext + trail == dir + (stem + ext) + trail;
    NameOfPath(dir, stem + ext, trail);
    ExtensionOf(stem, ext);
  }

  /** The name of a path is its last component. */
  lemma NameOfPath(dir: string, name: string, trail: string)
    requires dir == "" || dir[|dir| - 1] == '/'
    requires name != "" && '/' !in name
    requires forall k :: 0 <= k < |trail| ==> trail[k] == '/'
    ensures Name(dir + name + trail) == name
  {
    var file := dir + name;
    assert file[|file| - 1] == name[|name| - 1];
    TrimmedOf(file, trail);
    NameOf(dir, name);
  }

  lemma ExtensionOf(stem: string, ext: string)
    requires stem != ""
    requires |ext| >= 2 && ext[0] == '.' && '.' !in ext[1..]
    ensures SuffixOfName(stem + ext) == ext
  {
    LastIndexOf(stem, ext);
    assert (stem + ext)[|stem|..] == ext;
  }

  lemma {:induction false} TrimmedOf(file: string, trail: string)
    requires file != "" && file[|file| - 1] != '/'
    requires forall k :: 0 <= k < |trail| ==> trail[k] == '/'
    ensures TrimSlashes(file + trail) == file
    decreases |trail|
  {
    var p := file + trail;
    if trail != "" {
      assert p[..|p| - 1] == file + trail[..|trail| - 1];
      TrimmedOf(file, trail[..|trail| - 1]);
    } else {
      assert p == file;
    }
  }

  lemma {:induction false} NameOf(dir: string, name: string)
    requires dir == "" || dir[|dir| - 1] == '/'
    requires name != "" && '/' !in name
    ensures AfterLast(dir + name, '/') == name
    decreases |name|
  {
    var s := dir + name;
    var n := |name| - 1;
    var init := name[..n];
    assert s[|s| - 1] == name[n];
    assert s[..|s| - 1] == dir + init;
    if n > 0 {
      NameOf(dir, init);
    } else {
      assert dir + init == dir;
    }
    assert name == init + [name[n]];
  }

  lemma {:induction false} LastIndexOf(stem: string, ext: string)
    requires stem != ""
    requires |ext| >= 1 && ext[0] == '.' && '.' !in ext[1..]
    ensures LastIndex(stem + ext, '.') == Some(|stem|)
    decreases |ext|
  {
    var s := stem + ext;
    if |ext| == 1 {
      assert s[|s| - 1] == '.';
    } else {
      var e := ext[..|ext| - 1];
      assert s[|s| - 1] == ext[|ext| - 1] && ext[|ext| - 1] in ext[1..];
      assert s[..|s| - 1] == stem + e;
      assert e[1..] == ext[1..|ext| - 1];
      LastIndexOf(stem, e);
    }
  }
}
