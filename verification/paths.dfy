/** `os.path.join` of two components on a POSIX system, and `os.path.split`, which undoes it. */
module Paths {

  /** `posixpath.join(a, b)`: an absolute `b` replaces `a`; otherwise one `/` separates them,
      unless `a` is empty or already ends in `/`. */
  function JoinPath(a: string, b: string): (r: string)
    ensures b != [] && b[0] == '/' ==> r == b
    ensures (b == [] || b[0] != '/') && a != [] && a[|a| - 1] != '/' ==> r == a + "/" + b
    ensures (b == [] || b[0] != '/') && (a == [] || a[|a| - 1] == '/') ==> r == a + b
  {
    if |b| > 0 && b[0] == '/' then b
    else if a == [] || a[|a| - 1] == '/' then a + b
    else a + "/" + b
  }

  predicate AllSlashes(s: string) {
    forall k :: 0 <= k < |s| ==> s[k] == '/'
  }

  /** `p.rfind('/') + 1`: the position just after the last `/`, or 0 when there is none. */
  function LastSlashEnd(p: string): (i: nat)
    ensures i <= |p|
    ensures '/' !in p[i..]
    ensures i > 0 ==> p[i - 1] == '/'
  {
    if p == [] then 0
    else if p[|p| - 1] == '/' then |p|
    else
      var i := LastSlashEnd(p[..|p| - 1]);
      assert p[i..] == p[..|p| - 1][i..] + [p[|p| - 1]];
      i
  }

  /** `s.rstrip('/')`. */
  function StripTrailingSlashes(s: string): (r: string)
    ensures |r| <= |s| && r == s[..|r|]
    ensures r == [] || r[|r| - 1] != '/'
    ensures AllSlashes(s[|r|..])
  {
    if s != [] && s[|s| - 1] == '/' then
      var r := StripTrailingSlashes(s[..|s| - 1]);
      assert s[|r|..] == s[..|s| - 1][|r|..] + "/";
      r
    else s
  }

  /** `posixpath.split(p)`: the part after the last `/` is the tail; the part up to it is the
      head, with its trailing slashes removed unless it consists of slashes only. */
  function SplitPath(p: string): (r: (string, string))
    ensures '/' !in r.1 && |r.1| <= |p| && p[|p| - |r.1|..] == r.1
    ensures |r.1| < |p| ==> p[|p| - |r.1| - 1] == '/'
    ensures |r.0| <= |p| - |r.1| && p[..|r.0|] == r.0
  {
    var i := LastSlashEnd(p);
    var head, tail := p[..i], p[i..];
    if head != [] && !AllSlashes(head) then (StripTrailingSlashes(head), tail) else (head, tail)
  }

  lemma {:induction false} LastSlashEndAfter(front: string, back: string)
    requires front != [] && front[|front| - 1] == '/'
    requires '/' !in back
    ensures LastSlashEnd(front + back) == |front|
    decreases |back|
  {
    var p := front + back;
    if back == [] {
      assert p == front;
    } else {
      assert p[|p| - 1] == back[|back| - 1];
      assert p[..|p| - 1] == front + back[..|back| - 1];
      LastSlashEndAfter(front, back[..|back| - 1]);
    }
  }

  /** Joining a directory that does not end in `/` with a name free of `/` puts exactly one
      `/` between them: splitting the result gives both back. */
  lemma SplitJoinPath(a: string, b: string)
    requires a != [] && a[|a| - 1] != '/'
    requires '/' !in b
    ensures SplitPath(JoinPath(a, b)) == (a, b)
  {
    var p := JoinPath(a, b);
    assert b != [] ==> b[0] != '/';
    assert p == (a + "/") + b;
    LastSlashEndAfter(a + "/", b);
    var head := p[..|a| + 1];
    assert head == a + "/" && p[|a| + 1..] == b;
    assert head[|a| - 1] != '/';
    assert StripTrailingSlashes(head) == StripTrailingSlashes(a);
  }
}
