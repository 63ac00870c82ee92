/** The three functions of Node's `path` module that the extension calls, for POSIX paths
    and without the normalisation of `.`, `..` and repeated separators that Node applies. */
module NodePath {
  import opened JsString

  /** `path.isAbsolute(p)`: the path starts at the root. */
  predicate IsAbsolute(p: string)
  {
    |p| > 0 && p[0] == '/'
  }

  /** Position of the last `c` in `s`, or -1 when there is none. */
  function LastIndexOfChar(s: string, c: char): (k: int)
    ensures -1 <= k < |s|
  {
    if s == [] then -1
    else if s[|s| - 1] == c then |s| - 1
    else LastIndexOfChar(s[..|s| - 1], c)
  }

  /** `LastIndexOfChar` finds a `c` and no `c` lies after it. */
  lemma {:induction false} LastIndexOfCharIsLast(s: string, c: char)
    ensures var k := LastIndexOfChar(s, c);
      (k >= 0 ==> s[k] == c) && forall i :: k < i < |s| ==> s[i] != c
    decreases |s|
  {
    if s != [] && s[|s| - 1] != c {
      LastIndexOfCharIsLast(s[..|s| - 1], c);
    }
  }

  /** `path.dirname(p)` for a path without a trailing separator: everything before the
      last `/`, the root when that is the only one, and `.` when there is none. */
  function Dirname(p: string): (d: string)
    ensures d != []
  {
    var k := LastIndexOfChar(p, '/');
    if k < 0 then "."
    else if k == 0 then "/"
    else p[..k]
  }

  /** `Dirname` is `.` for a bare name, the root for an entry of the root, and otherwise the
      part of `p` before its last separator. */
  lemma DirnameIsParent(p: string)
    ensures var d := Dirname(p);
      && ('/' !in p ==> d == ".")
      && ('/' in p ==>
           (d == "/" && p[0] == '/' && forall i :: 0 < i < |p| ==> p[i] != '/')
           || (0 < |d| < |p| && d == p[..|d|] && p[|d|] == '/' && forall i :: |d| < i < |p| ==> p[i] != '/'))
  {
    LastIndexOfCharIsLast(p, '/');
    var k := LastIndexOfChar(p, '/');
    if '/' in p {
      var j :| 0 <= j < |p| && p[j] == '/';
      assert k >= j;
    }
  }

  /** `path.join(a, b)`: `a` and `b` with exactly one separator added between them unless
      `a` already ends in one; an empty side contributes nothing. */
  function Join(a: string, b: string): string
  {
    if b == [] then a
    else if a == [] then b
    else if a[|a| - 1] == '/' then a + b
    else a + "/" + b
  }

  /** `Join` keeps `a` in front and `b` at the back, with a separator between them when both are
      present. */
  lemma JoinKeepsBothSides(a: string, b: string)
    ensures var r := Join(a, b);
      && (b == [] ==> r == a)
      && (a == [] ==> r == b)
      && |a| <= |r| && r[..|a|] == a && EndsWith(r, b)
      && (a != [] && b != [] ==> |a| + |b| <= |r| <= |a| + |b| + 1 && r[|r| - |b| - 1] == '/')
  {
  }
}
