/** `pathlib` on resolved POSIX paths, written as strings: an absolute path
    without `//`, `.` or `..` segments and without a trailing slash (except root). */
module Paths {
  import opened Text

  type Path = string

  const Root: Path := "/"

  predicate WellFormed(p: Path) {
    p == Root ||
    (|p| >= 2 && p[0] == '/' && p[|p| - 1] != '/' &&
     forall i :: 0 <= i < |p| - 1 ==> !(p[i] == '/' && p[i + 1] == '/'))
  }

  /** Index of the last occurrence of `c` in `s`, or -1 (`str.rfind`). */
  function RFind(s: string, c: char): (i: int)
    ensures -1 <= i < |s|
    ensures i >= 0 ==> s[i] == c
    ensures forall j :: i < j < |s| ==> s[j] != c
  {
    if s == [] then -1
    else if s[|s| - 1] == c then |s| - 1
    else RFind(s[..|s| - 1], c)
  }

  /** `Path(p).name`: the last component ("" for the root). */
  function Name(p: Path): (n: string)
    ensures forall i :: 0 <= i < |n| ==> n[i] != '/'
  {
    var i := RFind(p, '/');
    p[i + 1..]
  }

  /** `Path(p).parent`; the root is its own parent. */
  function Parent(p: Path): (q: Path)
    ensures q == p || |q| < |p|
  {
    var i := RFind(p, '/');
    if i < 0 then p
    else if i == 0 then Root
    else p[..i]
  }

  /** `Path(dir) / name` */
  function Child(dir: Path, name: string): Path {
    if dir == Root then Root + name else dir + "/" + name
  }

  /** `Path(p).suffix`: the name's final `.ext`, lower-case not applied; empty
      when the name has no dot, starts with its only dot, or ends in a dot. */
  function Suffix(p: Path): (s: string)
    ensures s == [] || s[0] == '.'
  {
    var n := Name(p);
    var i := RFind(n, '.');
    if 0 < i < |n| - 1 then n[i..] else ""
  }

  /** `Path(p).suffix.lower()` */
  function LowerSuffix(p: Path): string {
    LowerStr(Suffix(p))
  }

  /** The components below the root, outermost first: `Path(p).parts[1:]`. */
  function Components(p: Path): seq<string>
    decreases |p|
  {
    if Parent(p) == p then [] else Components(Parent(p)) + [Name(p)]
  }

  /** `c in Path(p).parts` for a component name that is not the root. */
  predicate HasComponent(p: Path, c: string) {
    c in Components(p)
  }

  /** `a` is `p` or one of its ancestors. */
  predicate AncestorOrSelf(a: Path, p: Path)
    decreases |p|
  {
    p == a || (Parent(p) != p && AncestorOrSelf(a, Parent(p)))
  }

  /** `p` lies strictly below `dir` (what `Path(dir).rglob("*")` walks). */
  predicate StrictlyBelow(p: Path, dir: Path) {
    Parent(p) != p && AncestorOrSelf(dir, Parent(p))
  }

  lemma {:induction false} ParentOfChild(dir: Path, name: string)
    requires WellFormed(dir) && name != [] && forall i :: 0 <= i < |name| ==> name[i] != '/'
    ensures WellFormed(Child(dir, name))
    ensures Parent(Child(dir, name)) == dir && Name(Child(dir, name)) == name
  {
    var c := Child(dir, name);
    var k := if dir == Root then 0 else |dir|;
    assert c[k] == '/' && c[k + 1..] == name;
    assert forall j :: k < j < |c| ==> c[j] != '/';
    RFindIs(c, '/', k);
    if dir != Root { assert c[..k] == dir; }
  }

  lemma RFindIs(s: string, c: char, k: int)
    requires 0 <= k < |s| && s[k] == c && forall j :: k < j < |s| ==> s[j] != c
    ensures RFind(s, c) == k
  {
  }
}
