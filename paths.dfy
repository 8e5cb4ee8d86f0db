/**
 * The string searches the checker's path and URL handling is built from:
 * str.rfind, str.rsplit(sep, 1)[-1] and posixpath.basename.
 */
module Paths {
  import opened Wrappers

  /** str.rfind(c), with None for -1: the position of the last c in s. */
  function LastIndexOf(s: string, c: char): (r: Option<nat>)
    ensures r.None? <==> c !in s
    ensures r.Some? ==> r.value < |s| && s[r.value] == c && c !in s[r.value + 1..]
  {
    if |s| == 0 then None
    else if s[|s| - 1] == c then Some(|s| - 1)
    else
      var r := LastIndexOf(s[..|s| - 1], c);
      assert s == s[..|s| - 1] + [s[|s| - 1]];
      if r.Some? then
        assert s[r.value + 1..] == s[..|s| - 1][r.value + 1..] + [s[|s| - 1]];
        r
      else r
  }

  /** The last c of p + [c] + q is the one between them, when q has none. */
  lemma {:induction false} LastIndexOfJoin(p: string, c: char, q: string)
    requires c !in q
    ensures LastIndexOf(p + [c] + q, c) == Some(|p|)
  {
    var s := p + [c] + q;
    assert s[|p|] == c;
  }

  /**
   * What follows the last c in s, or all of s when there is none:
   * s.rsplit(c, 1)[-1], and os.path.basename(s) for c = '/'.
   */
  function AfterLast(s: string, c: char): (r: string)
    ensures c !in r
    ensures |r| <= |s| && r == s[|s| - |r|..]
    ensures |r| < |s| ==> s[|s| - |r| - 1] == c
  {
    match LastIndexOf(s, c)
    case None => s
    case Some(i) => s[i + 1..]
  }

  /** posixpath.basename: the longest suffix of the path without '/', the whole path when it has none. */
  function BaseName(path: string): (name: string)
    ensures '/' !in name && |name| <= |path| && name == path[|path| - |name|..]
    ensures |name| < |path| ==> path[|path| - |name| - 1] == '/'
    ensures '/' !in path ==> name == path
  {
    AfterLast(path, '/')
  }

  /** The base name of a directory part followed by a name without '/' is that name. */
  lemma {:induction false} BaseNameOfJoin(dir: string, name: string)
    requires dir == [] || dir[|dir| - 1] == '/'
    requires '/' !in name
    ensures BaseName(dir + name) == name
  {
    if dir == [] {
      assert dir + name == name;
    } else {
      assert dir + name == dir[..|dir| - 1] + ['/'] + name;
      AfterLastOfJoin(dir[..|dir| - 1], '/', name);
    }
  }

  /** Whatever precedes the last separator, the part after it is what comes back. */
  lemma {:induction false} AfterLastOfJoin(p: string, c: char, q: string)
    requires c !in q
    ensures AfterLast(p + [c] + q, c) == q
  {
    LastIndexOfJoin(p, c, q);
    assert (p + [c] + q)[|p| + 1..] == q;
  }
}
