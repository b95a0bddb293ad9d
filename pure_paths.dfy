/**
 The pieces of Python's `pathlib.PurePath` and `str` that the copy plan relies on:
 the final component of a path, joining one component onto a path, the last
 occurrence of a character, a file name's suffix and stripping a leading run of
 one character. A path is the sequence of its name components.
 */
module PurePaths {

  /** A path, as the sequence of its name components (no separators inside a component). */
  type Path = seq<string>

  /** `PurePath.name`: the final component of the path, or "" for the empty path. */
  function Name(p: Path): string
  {
    if p == [] then "" else p[|p| - 1]
  }

  /** `p / c` for one component `c`: pathlib drops an empty component. */
  function Join(p: Path, c: string): (r: Path)
    ensures c != "" ==> |r| == |p| + 1 && r[..|p|] == p && Name(r) == c
    ensures c == "" ==> r == p
  {
    if c == "" then p else p + [c]
  }

  /** `s.rfind(ch)`: the index of the last occurrence of `ch` in `s`, or -1 when there is none. */
  function RFind(s: string, ch: char): (r: int)
    ensures -1 <= r < |s|
    ensures 0 <= r ==> s[r] == ch
    ensures forall j :: r < j < |s| ==> s[j] != ch
    ensures r == -1 <==> ch !in s
  {
    if s == [] then -1
    else if s[|s| - 1] == ch then |s| - 1
    else RFind(s[..|s| - 1], ch)
  }

  /** The dot at index `i` starts the extension of `name`: it is the last dot, and neither the first nor the last character. */
  ghost predicate ExtensionDotAt(name: string, i: int)
  {
    0 < i < |name| - 1 && name[i] == '.' && forall j :: i < j < |name| ==> name[j] != '.'
  }

  /**
   `PurePath.suffix` of a file name: the name from its last dot on, provided that
   dot is neither the first nor the last character; otherwise "".
   */
  function Suffix(name: string): (r: string)
    ensures forall i :: ExtensionDotAt(name, i) ==> r == name[i..]
    ensures (forall i :: !ExtensionDotAt(name, i)) ==> r == ""
    ensures r != "" ==> 2 <= |r| < |name| && r == name[|name| - |r|..]
    ensures r != "" ==> r[0] == '.' && '.' !in r[1..]
  {
    var i := RFind(name, '.');
    if 0 < i < |name| - 1 then
      assert ExtensionDotAt(name, i);
      assert forall j :: ExtensionDotAt(name, j) ==> j == i;
      name[i..]
    else
      assert forall j :: !ExtensionDotAt(name, j);
      ""
  }

  /** `s.lstrip(ch)`: `s` without its leading run of `ch`. */
  function LStrip(s: string, ch: char): (r: string)
    ensures |r| <= |s| && r == s[|s| - |r|..]
    ensures r != "" ==> r[0] != ch
    ensures forall j :: 0 <= j < |s| - |r| ==> s[j] == ch
  {
    if s != [] && s[0] == ch then LStrip(s[1..], ch) else s
  }
}
