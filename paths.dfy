/**
 * The slice of `pathlib` path arithmetic the command line relies on
 * (src/cli.py:56-61, 84-87): a path's name, parent, stem and suffix, and
 * joining one more component. A path is an anchor ("/" or "" for a
 * relative path) and a sequence of components.
 */
module Paths {

  /** One path component: non-empty, not ".", and free of separators. */
  predicate ValidPart(s: string)
  {
    s != "" && s != "." && '/' !in s
  }

  datatype RawPath = RawPath(anchor: string, parts: seq<string>)

  predicate ValidPath(p: RawPath)
  {
    forall i :: 0 <= i < |p.parts| ==> ValidPart(p.parts[i])
  }

  /** A path as `pathlib` normalises it: "." and empty components never appear. */
  type Path = p: RawPath | ValidPath(p) witness RawPath("", [])

  /** `p.name`: the last component, or "" for a bare anchor. */
  function Name(p: Path): (n: string)
    ensures '/' !in n
  {
    if p.parts == [] then "" else p.parts[|p.parts| - 1]
  }

  /** `p.parent`: a bare anchor is its own parent. */
  function Parent(p: Path): (q: Path)
    ensures q.anchor == p.anchor
  {
    if p.parts == [] then p else RawPath(p.anchor, p.parts[..|p.parts| - 1])
  }

  /** `p / s` for a string without separators: "" and "." leave p as it is. */
  function Join(p: Path, s: string): (q: Path)
    requires '/' !in s
  {
    if s == "" || s == "." then p else RawPath(p.anchor, p.parts + [s])
  }

  /** Joining a proper component names it, under p. */
  lemma JoinPart(p: Path, s: string)
    requires ValidPart(s)
    ensures Name(Join(p, s)) == s && Parent(Join(p, s)) == p
  {
    assert (p.parts + [s])[..|p.parts|] == p.parts;
  }

  /** `str.rfind(c)`: the last position of c, or -1. */
  function LastIndexOf(s: string, c: char): (i: int)
    ensures -1 <= i < |s|
    ensures i >= 0 ==> s[i] == c
    ensures forall j :: i < j < |s| ==> s[j] != c
  {
    if s == [] then -1
    else if s[|s| - 1] == c then |s| - 1
    else LastIndexOf(s[..|s| - 1], c)
  }

  lemma LastIndexOfAppend(a: string, c: char, b: string)
    requires c !in b
    ensures LastIndexOf(a + [c] + b, c) == |a|
  {
    var s := a + [c] + b;
    assert s[|a|] == c;
  }

  /** `PurePath.suffix`: from the last dot, unless that dot leads or ends the name. */
  function Suffix(name: string): string
  {
    var i := LastIndexOf(name, '.');
    if 0 < i < |name| - 1 then name[i..] else ""
  }

  /** `PurePath.stem`: the name without its suffix. */
  function Stem(name: string): (s: string)
    ensures '/' !in name ==> '/' !in s
  {
    var i := LastIndexOf(name, '.');
    if 0 < i < |name| - 1 then name[..i] else name
  }

  /** A name is its stem followed by its suffix. */
  lemma StemSuffix(name: string)
    ensures Stem(name) + Suffix(name) == name
  {
    var i := LastIndexOf(name, '.');
    if 0 < i < |name| - 1 {
      assert name[..i] + name[i..] == name;
    }
  }

  /** A non-empty stem followed by an extension without dots is taken apart again. */
  lemma StemOfExtension(stem: string, ext: string)
    requires stem != [] && ext != [] && '.' !in ext
    ensures Stem(stem + "." + ext) == stem && Suffix(stem + "." + ext) == "." + ext
  {
    var name := stem + "." + ext;
    assert name == stem + ['.'] + ext;
    LastIndexOfAppend(stem, '.', ext);
    assert name[..|stem|] == stem;
    assert name[|stem|..] == "." + ext;
  }
}
