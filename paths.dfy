/** The parts of Python's `posixpath` the program uses: `join`, `basename`
    and `splitext`, on paths written as strings. */
module Paths {
  import opened Common

  /** `os.path.join(a, b)`: an absolute `b` replaces `a`; otherwise a `/` is
      inserted unless `a` is empty or already ends with one. */
  function Join(a: string, b: string): string {
    if |b| > 0 && b[0] == '/' then b
    else if a == [] || a[|a| - 1] == '/' then a + b
    else a + "/" + b
  }

  /** What `Join(a, _)` puts in front of a relative second part. */
  function DirPrefix(a: string): string {
    if a == [] || a[|a| - 1] == '/' then a else a + "/"
  }

  /** Joining a relative part is appending it to the directory prefix. */
  lemma JoinRelative(a: string, b: string)
    requires b == [] || b[0] != '/'
    ensures Join(a, b) == DirPrefix(a) + b
  {
  }

  /** `s.rfind(c)`: the index of the last `c` in `s`, if any. */
  function LastIndexOf(s: string, c: char): (r: Option<nat>)
    ensures r.Some? ==> r.value < |s| && s[r.value] == c
    ensures r.Some? ==> forall j :: r.value < j < |s| ==> s[j] != c
    ensures r.None? ==> c !in s
  {
    if s == [] then None
    else if s[|s| - 1] == c then Some(|s| - 1)
    else LastIndexOf(s[..|s| - 1], c)
  }

  /** Where the base name of `p` starts: just after its last `/`. */
  function BaseStart(p: string): (i: nat)
    ensures i <= |p|
    ensures forall j :: i <= j < |p| ==> p[j] != '/'
    ensures 0 < i ==> p[i - 1] == '/'
  {
    match LastIndexOf(p, '/')
    case None => 0
    case Some(k) => k + 1
  }

  /** `os.path.basename(p)`: the longest suffix of `p` without a `/`. */
  function BaseName(p: string): (b: string)
    ensures '/' !in b
  {
    var i := BaseStart(p);
    assert forall j :: 0 <= j < |p[i..]| ==> p[i..][j] == p[i + j];
    p[i..]
  }

  /** Whether some character of `b` before index `d` is not a `.`. */
  predicate HasNonDotBefore(b: string, d: nat)
    requires d <= |b|
  {
    exists i :: 0 <= i < d && b[i] != '.'
  }

  /** `os.path.splitext(p)`: the extension starts at the last `.` of the
      base name, unless every character of the base name before that `.`
      is a `.` too (so `.profile` and `..x` have no extension). */
  function SplitExt(p: string): (r: (string, string))
    ensures r.0 + r.1 == p
    ensures r.1 == [] || (r.1[0] == '.' && '.' !in r.1[1..] && '/' !in r.1)
  {
    var i := BaseStart(p);
    var b := p[i..];
    match LastIndexOf(b, '.')
    case None => (p, [])
    case Some(d) =>
      if HasNonDotBefore(b, d) then
        ExtensionParts(p, i, d);
        (p[..i + d], p[i + d..])
      else (p, [])
  }

  lemma ExtensionParts(p: string, i: nat, d: nat)
    requires i + d < |p|
    requires forall j :: i <= j < |p| ==> p[j] != '/'
    requires p[i..][d] == '.' && forall j :: d < j < |p[i..]| ==> p[i..][j] != '.'
    ensures p[..i + d] + p[i + d..] == p
    ensures p[i + d..][0] == '.' && '.' !in p[i + d..][1..] && '/' !in p[i + d..]
  {
    assert p == p[..i + d] + p[i + d..];
    var e := p[i + d..];
    assert forall j :: 0 <= j < |e| ==> e[j] == p[i + d + j] == p[i..][d + j];
    assert forall j :: 0 <= j < |e[1..]| ==> e[1..][j] == e[j + 1];
  }

  /** A directory entry name: what `os.listdir` can return. */
  predicate IsEntryName(n: string) {
    n != [] && '/' !in n
  }

  /** The base name of `Join(dir, n)` is `n` again for an entry name `n`. */
  lemma BaseNameOfJoin(dir: string, n: string)
    requires IsEntryName(n)
    ensures BaseName(Join(dir, n)) == n
  {
    JoinRelative(dir, n);
    var pre := DirPrefix(dir);
    var p := pre + n;
    if pre != [] {
      assert p[|pre| - 1] == pre[|pre| - 1] == '/';
      forall j | |pre| - 1 < j < |p| ensures p[j] != '/' {
        assert p[j] == n[j - |pre|];
      }
      LastIndexIs(p, '/', |pre| - 1);
    } else {
      assert p == n;
    }
    assert BaseStart(p) == |pre|;
    assert p[|pre|..] == n;
  }

  /** An entry that `glob.glob(os.path.join(dir, '*.deb'))` returns: `*`
      matches any text, and glob skips hidden entries (a leading `.`) since
      the pattern itself does not start with one. */
  predicate MatchesDebGlob(n: string) {
    EndsWith(n, ".deb") && n[0] != '.'
  }

  /** The name that `splitext(basename(deb))[0]` gives for a globbed
      `*.deb` entry is the entry with its `.deb` removed. */
  lemma DebFileRoot(dir: string, n: string)
    requires IsEntryName(n) && MatchesDebGlob(n)
    ensures SplitExt(BaseName(Join(dir, n))).0 == n[..|n| - 4]
  {
    BaseNameOfJoin(dir, n);
    DebRoot(n);
  }

  lemma DebRoot(n: string)
    requires IsEntryName(n) && MatchesDebGlob(n)
    ensures SplitExt(n).0 == n[..|n| - 4]
  {
    var d := |n| - 4;
    assert BaseStart(n) == 0;
    assert n[0..] == n;
    DebExtensionDot(n);
  }

  lemma DebExtensionDot(n: string)
    requires MatchesDebGlob(n)
    ensures LastIndexOf(n, '.') == Some(|n| - 4) && HasNonDotBefore(n, |n| - 4)
  {
    var d := |n| - 4;
    var ext := n[d..];
    assert ext == ".deb";
    assert n[d] == ext[0] == '.';
    assert n[d + 1] == ext[1] == 'd' && n[d + 2] == ext[2] == 'e' && n[d + 3] == ext[3] == 'b';
    LastIndexIs(n, '.', d);
    assert HasNonDotBefore(n, d) by {
      assert 0 < d && n[0] != '.';
    }
  }

  lemma {:induction false} LastIndexIs(s: string, c: char, k: nat)
    requires k < |s| && s[k] == c
    requires forall j :: k < j < |s| ==> s[j] != c
    ensures LastIndexOf(s, c) == Some(k)
    decreases |s|
  {
    if k < |s| - 1 {
      LastIndexIs(s[..|s| - 1], c, k);
    }
  }
}
