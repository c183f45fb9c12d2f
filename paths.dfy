/** The parts of Python's pathlib that the extractors use on a resolved path: `name`,
    `suffix`, `stem` and `str.lower()` of the suffix. */
module Paths {

  /** A resolved, normalised path. */
  type Path = string

  /** Python's str.rfind for one character: the index of the last occurrence of c in s,
      or -1. */
  function RFind(s: string, c: char): (i: int)
    ensures -1 <= i < |s|
  {
    if s == [] then -1
    else if s[|s| - 1] == c then |s| - 1
    else RFind(s[..|s| - 1], c)
  }

  /** RFind finds an occurrence, and no occurrence lies after it. */
  lemma {:induction false} RFindLast(s: string, c: char)
    ensures RFind(s, c) >= 0 ==> s[RFind(s, c)] == c
    ensures forall j :: RFind(s, c) < j < |s| ==> s[j] != c
    ensures RFind(s, c) == -1 <==> c !in s
    decreases |s|
  {
    if s != [] && s[|s| - 1] != c {
      var init := s[..|s| - 1];
      RFindLast(init, c);
      assert forall j :: 0 <= j < |init| ==> init[j] == s[j];
      assert s == init + [s[|s| - 1]];
    }
  }

  /** PurePath.name: everything after the last '/'. */
  function Name(p: Path): string {
    p[RFind(p, '/') + 1..]
  }

  /** The name is the final component: a suffix of the path without '/', preceded by '/'
      unless it is the whole path. */
  lemma NameIsLastComponent(p: Path)
    ensures '/' !in Name(p)
    ensures |Name(p)| <= |p| && Name(p) == p[|p| - |Name(p)|..]
    ensures |Name(p)| < |p| ==> p[|p| - |Name(p)| - 1] == '/'
  {
    RFindLast(p, '/');
  }

  /** PurePath.suffix: from the last '.' on, provided that dot is neither the first
      nor the last character of the name; otherwise empty. */
  function Suffix(name: string): string {
    var i := RFind(name, '.');
    if 0 < i < |name| - 1 then name[i..] else ""
  }

  /** PurePath.stem: the name without its suffix. */
  function Stem(name: string): string {
    var i := RFind(name, '.');
    if 0 < i < |name| - 1 then name[..i] else name
  }

  /** The stem and the suffix split the name. */
  lemma StemSuffixSplit(name: string)
    ensures Stem(name) + Suffix(name) == name
    ensures Suffix(name) != "" ==> Suffix(name)[0] == '.' && '.' !in Suffix(name)[1..] && |Suffix(name)| >= 2
    ensures Suffix(name) != "" ==> Stem(name) != ""
  {
    var i := RFind(name, '.');
    RFindLast(name, '.');
    if 0 < i < |name| - 1 {
      assert name[..i] + name[i..] == name;
      assert forall j :: 0 <= j < |name[i..][1..]| ==> name[i..][1..][j] == name[i + 1 + j];
    }
  }

  function LowerChar(c: char): char {
    if 'A' <= c <= 'Z' then (c as int + 32) as char else c
  }

  /** str.lower() on ASCII letters. */
  function LowerAscii(s: string): (r: string)
    ensures |r| == |s|
  {
    seq(|s|, i requires 0 <= i < |s| => LowerChar(s[i]))
  }

  /** path.suffix.lower() */
  function LowerSuffix(p: Path): string {
    LowerAscii(Suffix(Name(p)))
  }

  /** Lowering keeps the suffix empty or not, and a ".glb" suffix is already lower case. */
  lemma LowerSuffixOf(p: Path)
    ensures LowerSuffix(p) == "" <==> Suffix(Name(p)) == ""
    ensures Suffix(Name(p)) == ".glb" ==> LowerSuffix(p) == ".glb"
  {
    var s := Suffix(Name(p));
    if s == ".glb" {
      assert LowerAscii(s)[0] == '.' && LowerAscii(s)[1] == 'g' && LowerAscii(s)[2] == 'l' && LowerAscii(s)[3] == 'b';
    }
  }

  predicate IsB3dm(p: Path) {
    LowerSuffix(p) == ".b3dm"
  }

  predicate IsGlbOrGltf(p: Path) {
    LowerSuffix(p) == ".glb" || LowerSuffix(p) == ".gltf"
  }

  /** The name an extracted GLB gets: the container's stem plus ".glb". */
  function GlbName(p: Path): string {
    Stem(Name(p)) + ".glb"
  }

  /** Appending ".glb" to a non-empty stem gives a name whose suffix is ".glb" and whose
      stem is that stem. */
  lemma {:induction false} GlbRename(stem: string)
    requires stem != ""
    ensures Suffix(stem + ".glb") == ".glb" && Stem(stem + ".glb") == stem
  {
    var g := stem + ".glb";
    assert g[|stem|] == '.';
    assert g[|stem| + 1] != '.' && g[|stem| + 2] != '.' && g[|stem| + 3] != '.';
    var i := RFind(g, '.');
    RFindLast(g, '.');
    assert i == |stem|;
    assert g[i..] == ".glb";
  }

  /** A file that has a suffix keeps its stem when renamed to stem + ".glb"; the new name
      differs from the old one unless the old suffix already was ".glb". */
  lemma GlbNameParts(p: Path)
    requires Suffix(Name(p)) != ""
    ensures Suffix(GlbName(p)) == ".glb" && Stem(GlbName(p)) == Stem(Name(p))
    ensures GlbName(p) == Name(p) <==> Suffix(Name(p)) == ".glb"
  {
    StemSuffixSplit(Name(p));
    GlbRename(Stem(Name(p)));
  }
}
