/** `githubaptrepos/repo.py`: which distribution and architecture a `*.deb`
    file belongs to, judged from its file name and its control fields, and
    the grouping of the files into one directory per combination. */
module Repo {
  import opened Common
  import opened Paths
  import opened Files

  /** The control fields of a package that the file name template uses. */
  datatype Control = Control(package: string, version: string, architecture: string)

  /** The separators the template allows between package name and
      distribution: `[-_\.]`. */
  predicate IsSeparator(c: char) {
    c == '-' || c == '_' || c == '.'
  }

  /** What follows the optional distribution in the template:
      `_{version}_{arch}`. */
  function Suffix(c: Control): string {
    "_" + c.version + "_" + c.architecture
  }

  /** The first alternative of the template matches the start of `root`
      with `d` as the distribution group: the package name, one separator,
      `d` (what `.+` can match: non-empty, no line break) and the suffix,
      followed by anything at all, since the match is anchored at the start
      only. */
  ghost predicate DistAlternative(root: string, c: Control, d: string) {
    && d != [] && '\n' !in d
    && exists sep :: IsSeparator(sep) && StartsWith(root, c.package + [sep] + d + Suffix(c))
  }

  /** The second, empty alternative of the template matches the start of
      `root`. */
  predicate PlainAlternative(root: string, c: Control) {
    StartsWith(root, c.package + Suffix(c))
  }

  /** The outcome of `re.match` on a base name: no match, or a match whose
      group 2 is the distribution (`None` when the empty alternative
      matched). */
  datatype BaseNameMatch = NoMatch | Matched(dist: Option<string>)

  /** The first alternative matches with a distribution of length `l`. */
  predicate SplitsAt(root: string, c: Control, l: nat) {
    var k := |c.package| + 1;
    && 0 < l && k + l <= |root|
    && StartsWith(root, c.package) && IsSeparator(root[k - 1])
    && '\n' !in root[k..k + l] && StartsWith(root[k + l..], Suffix(c))
  }

  /** The greedy `.+`: the longest distribution length up to `l` with which
      the first alternative matches. */
  function LongestSplit(root: string, c: Control, l: nat): (r: Option<nat>)
    ensures r.Some? ==> 0 < r.value <= l && SplitsAt(root, c, r.value)
    ensures r.Some? ==> forall l': nat :: r.value < l' <= l ==> !SplitsAt(root, c, l')
    ensures r.None? ==> forall l': nat :: l' <= l ==> !SplitsAt(root, c, l')
    decreases l
  {
    if l == 0 then None
    else if SplitsAt(root, c, l) then Some(l)
    else LongestSplit(root, c, l - 1)
  }

  /** `re.match(DEB_BASENAME_RE.format(...), root)` with the control fields
      taken literally: the first alternative with the longest distribution
      wins, then the empty alternative. */
  function Match(root: string, c: Control): BaseNameMatch {
    var k := |c.package| + 1;
    match LongestSplit(root, c, |root|)
    case Some(l) => Matched(Some(root[k..k + l]))
    case None => if PlainAlternative(root, c) then Matched(None) else NoMatch
  }

  /** The pieces of a name the first alternative matches. */
  lemma AlternativeParts(root: string, c: Control, d: string) returns (sep: char, rest: string)
    requires DistAlternative(root, c, d)
    ensures IsSeparator(sep) && root == c.package + [sep] + d + Suffix(c) + rest
  {
    sep :| IsSeparator(sep) && StartsWith(root, c.package + [sep] + d + Suffix(c));
    var p := c.package + [sep] + d + Suffix(c);
    rest := root[|p|..];
    assert root == root[..|p|] + rest;
  }

  lemma PartsAlternative(root: string, c: Control, sep: char, d: string, rest: string)
    requires IsSeparator(sep) && d != [] && '\n' !in d
    requires root == c.package + [sep] + d + Suffix(c) + rest
    ensures DistAlternative(root, c, d)
  {
    var p := c.package + [sep] + d + Suffix(c);
    assert root[..|p|] == p;
  }

  /** A split of length `l` is exactly the first alternative with the
      distribution that the split cuts out. */
  lemma SplitsAtIsAlternative(root: string, c: Control, d: string)
    ensures DistAlternative(root, c, d) <==>
      SplitsAt(root, c, |d|) && root[|c.package| + 1..|c.package| + 1 + |d|] == d
  {
    if DistAlternative(root, c, d) {
      AlternativeSplits(root, c, d);
    }
    if SplitsAt(root, c, |d|) && root[|c.package| + 1..|c.package| + 1 + |d|] == d {
      SplitIsAlternative(root, c, d);
    }
  }

  lemma AlternativeSplits(root: string, c: Control, d: string)
    requires DistAlternative(root, c, d)
    ensures SplitsAt(root, c, |d|) && root[|c.package| + 1..|c.package| + 1 + |d|] == d
  {
    var k := |c.package| + 1;
    var s := Suffix(c);
    var sep, rest := AlternativeParts(root, c, d);
    assert root[..|c.package|] == c.package;
    assert root[k - 1] == sep;
    assert root[k..k + |d|] == d;
    assert root[k + |d|..] == s + rest;
    assert root[k + |d|..][..|s|] == s;
  }

  lemma SplitIsAlternative(root: string, c: Control, d: string)
    requires SplitsAt(root, c, |d|) && root[|c.package| + 1..|c.package| + 1 + |d|] == d
    ensures DistAlternative(root, c, d)
  {
    var k := |c.package| + 1;
    var s := Suffix(c);
    var sep := root[k - 1];
    var p := c.package + [sep] + d + s;
    forall i | 0 <= i < |p| ensures root[i] == p[i] {
      if i < |c.package| {
        assert root[..|c.package|][i] == root[i];
      } else if k <= i < k + |d| {
        assert root[k..k + |d|][i - k] == root[i];
      } else if k + |d| <= i {
        assert root[k + |d|..][i - k - |d|] == root[i];
      }
    }
    assert root[..|p|] == p;
  }

  /** Any distribution the first alternative can capture is no longer than
      the base name. */
  lemma AlternativeLength(root: string, c: Control, d: string)
    requires DistAlternative(root, c, d)
    ensures |d| <= |root|
  {
    var sep, rest := AlternativeParts(root, c, d);
  }

  /** The distribution group captures `d` exactly when the first
      alternative matches with `d` and with nothing longer. */
  lemma MatchDist(root: string, c: Control, d: string)
    ensures Match(root, c) == Matched(Some(d)) <==>
      DistAlternative(root, c, d) && forall d' {:trigger DistAlternative(root, c, d')} :: DistAlternative(root, c, d') ==> |d'| <= |d|
  {
    if Match(root, c) == Matched(Some(d)) {
      MatchedIsLongest(root, c, d);
    }
    if DistAlternative(root, c, d) && forall d' {:trigger DistAlternative(root, c, d')} :: DistAlternative(root, c, d') ==> |d'| <= |d| {
      LongestIsMatched(root, c, d);
    }
  }

  lemma MatchedIsLongest(root: string, c: Control, d: string)
    requires Match(root, c) == Matched(Some(d))
    ensures DistAlternative(root, c, d)
    ensures forall d' {:trigger DistAlternative(root, c, d')} :: DistAlternative(root, c, d') ==> |d'| <= |d|
  {
    var k := |c.package| + 1;
    var l := LongestSplit(root, c, |root|).value;
    assert root[k..k + l] == d && |d| == l;
    SplitIsAlternative(root, c, d);
    forall d' | DistAlternative(root, c, d') ensures |d'| <= l {
      AlternativeSplits(root, c, d');
      AlternativeLength(root, c, d');
    }
  }

  lemma LongestIsMatched(root: string, c: Control, d: string)
    requires DistAlternative(root, c, d)
    requires forall d' {:trigger DistAlternative(root, c, d')} :: DistAlternative(root, c, d') ==> |d'| <= |d|
    ensures Match(root, c) == Matched(Some(d))
  {
    var k := |c.package| + 1;
    AlternativeSplits(root, c, d);
    AlternativeLength(root, c, d);
    var l := LongestAtLeast(root, c, |d|);
    var d' := root[k..k + l];
    SplitIsAlternative(root, c, d');
    assert |d'| <= |d|;
    assert d' == d;
    MatchOfSplit(root, c, l);
  }

  /** The greedy search finds a split at least as long as any given one. */
  lemma LongestAtLeast(root: string, c: Control, l0: nat) returns (l: nat)
    requires SplitsAt(root, c, l0)
    ensures LongestSplit(root, c, |root|) == Some(l) && l0 <= l && SplitsAt(root, c, l)
  {
    l := LongestSplit(root, c, |root|).value;
  }

  /** What the match captures once the greedy search has found its split. */
  lemma MatchOfSplit(root: string, c: Control, l: nat)
    requires LongestSplit(root, c, |root|) == Some(l)
    ensures l <= |root| - |c.package| - 1
    ensures Match(root, c) == Matched(Some(root[|c.package| + 1..|c.package| + 1 + l]))
  {
  }

  /** The first alternative cannot match at all exactly when the greedy
      search finds no split. */
  lemma NoSplitNoAlternative(root: string, c: Control)
    ensures LongestSplit(root, c, |root|).None? <==> forall d :: !DistAlternative(root, c, d)
  {
    var k := |c.package| + 1;
    if LongestSplit(root, c, |root|).None? {
      forall d | DistAlternative(root, c, d) ensures false {
        SplitsAtIsAlternative(root, c, d);
        AlternativeLength(root, c, d);
      }
    } else {
      var l := LongestSplit(root, c, |root|).value;
      SplitsAtIsAlternative(root, c, root[k..k + l]);
    }
  }

  /** Group 2 is `None` exactly when only the empty alternative matches. */
  lemma MatchPlain(root: string, c: Control)
    ensures Match(root, c) == Matched(None) <==>
      (forall d :: !DistAlternative(root, c, d)) && PlainAlternative(root, c)
  {
    NoSplitNoAlternative(root, c);
  }

  /** The template fails to match exactly when neither alternative does. */
  lemma MatchFails(root: string, c: Control)
    ensures Match(root, c) == NoMatch <==>
      (forall d :: !DistAlternative(root, c, d)) && !PlainAlternative(root, c)
  {
    NoSplitNoAlternative(root, c);
  }

  /** The file name without directory and extension, which the template is
      matched against. */
  function Root(deb: string): (root: string)
    ensures '/' !in root
  {
    var b := BaseName(deb);
    var root := SplitExt(b).0;
    assert b == root + SplitExt(b).1;
    assert forall i :: 0 <= i < |root| ==> root[i] == b[i];
    root
  }

  /** `get_deb_dist_arch(deb)` for a package with control fields `c`: the
      distribution group of the match (`None` also when nothing matched)
      and the `Architecture` field. */
  function DistArch(deb: string, c: Control): (r: (Option<string>, string))
    ensures r.1 == c.architecture
    ensures r.0.Some? ==> IsEntryName(r.0.value) && '\n' !in r.0.value
  {
    var root := Root(deb);
    match Match(root, c)
    case NoMatch => (None, c.architecture)
    case Matched(dist) =>
      if dist.Some? then
        MatchDist(root, c, dist.value);
        DistAlternativeIsEntryName(root, c, dist.value);
        (dist, c.architecture)
      else (dist, c.architecture)
  }

  lemma DistAlternativeIsEntryName(root: string, c: Control, d: string)
    requires '/' !in root && DistAlternative(root, c, d)
    ensures IsEntryName(d)
  {
    var sep, rest := AlternativeParts(root, c, d);
    assert forall i :: 0 <= i < |d| ==> d[i] == root[|c.package| + 1 + i];
  }

  /** What `DistArch` reports as the distribution: the longest capture of
      the first alternative, and `None` when it cannot match, whether or not
      the empty alternative does. */
  lemma DistArchDist(deb: string, c: Control, d: string)
    ensures DistArch(deb, c).0 == Some(d) <==>
      DistAlternative(Root(deb), c, d) && forall d' {:trigger DistAlternative(Root(deb), c, d')} :: DistAlternative(Root(deb), c, d') ==> |d'| <= |d|
  {
    MatchDist(Root(deb), c, d);
  }

  lemma DistArchNone(deb: string, c: Control)
    ensures DistArch(deb, c).0 == None <==> forall d :: !DistAlternative(Root(deb), c, d)
  {
    NoSplitNoAlternative(Root(deb), c);
    var root := Root(deb);
    if DistArch(deb, c).0.Some? {
      MatchDist(root, c, DistArch(deb, c).0.value);
    }
  }

  /** An ordinary name `package_version_arch`, with nothing between the
      package and the suffix, has no distribution. */
  lemma OrdinaryName(c: Control)
    ensures Match(c.package + Suffix(c), c) == Matched(None)
  {
    var root := c.package + Suffix(c);
    assert forall d :: !DistAlternative(root, c, d);
    MatchPlain(root, c);
  }

  /** A name `package + sep + d + _version_arch` yields `d`, whatever
      separators `d` holds itself. */
  lemma TaggedName(c: Control, sep: char, d: string)
    requires IsSeparator(sep) && d != [] && '\n' !in d
    ensures Match(c.package + [sep] + d + Suffix(c), c) == Matched(Some(d))
  {
    var root := c.package + [sep] + d + Suffix(c);
    assert root == c.package + [sep] + d + Suffix(c) + [];
    PartsAlternative(root, c, sep, d, []);
    forall d' | DistAlternative(root, c, d') ensures |d'| <= |d| {
      var sep', rest := AlternativeParts(root, c, d');
      assert |root| == |c.package| + 1 + |d'| + |Suffix(c)| + |rest|;
    }
    MatchDist(root, c, d);
  }

  /** A name `package-._version_arch` yields the distribution `.`, whose
      group directory is `apt_dir/./arch`. */
  lemma DotDistribution(c: Control)
    ensures Match(c.package + "-." + Suffix(c), c) == Matched(Some("."))
  {
    assert c.package + "-." + Suffix(c) == c.package + ['-'] + "." + Suffix(c);
    TaggedName(c, '-', ".");
  }

  /** Being anchored at the start only, the template still matches when
      more characters follow the name. */
  lemma TrailingTolerated(root: string, c: Control, more: string)
    requires Match(root, c) != NoMatch
    ensures Match(root + more, c) != NoMatch
  {
    MatchFails(root, c);
    if PlainAlternative(root, c) {
      assert (root + more)[..|c.package + Suffix(c)|] == root[..|c.package + Suffix(c)|];
      assert PlainAlternative(root + more, c);
    } else {
      var d :| DistAlternative(root, c, d);
      var sep, rest := AlternativeParts(root, c, d);
      assert root + more == c.package + [sep] + d + Suffix(c) + (rest + more);
      PartsAlternative(root + more, c, sep, d, rest + more);
    }
    MatchFails(root + more, c);
  }

  /** The group directory: `apt_dir/arch` without a distribution,
      `apt_dir/dist/arch` with one. */
  function GroupDir(aptDir: string, dist: Option<string>, arch: string): string {
    match dist
    case None => Join(aptDir, arch)
    case Some(d) => Join(Join(aptDir, d), arch)
  }

  /** The group directory relative to `aptDir`. */
  function GroupPath(dist: Option<string>, arch: string): string {
    match dist
    case None => arch
    case Some(d) => d + "/" + arch
  }

  /** For plain names the group directory is the relative group path under
      `aptDir`. */
  lemma GroupDirUnder(aptDir: string, dist: Option<string>, arch: string)
    requires IsEntryName(arch) && (dist.Some? ==> IsEntryName(dist.value))
    ensures GroupDir(aptDir, dist, arch) == DirPrefix(aptDir) + GroupPath(dist, arch)
  {
    JoinRelative(aptDir, arch);
    if dist.Some? {
      var d := dist.value;
      JoinRelative(aptDir, d);
      JoinRelative(Join(aptDir, d), arch);
      assert DirPrefix(DirPrefix(aptDir) + d) == DirPrefix(aptDir) + d + "/";
    }
  }

  /** Different (distribution, architecture) pairs get different
      directories, so each group directory holds one combination only. */
  lemma GroupDirInjective(aptDir: string, dist1: Option<string>, arch1: string,
                          dist2: Option<string>, arch2: string)
    requires IsEntryName(arch1) && (dist1.Some? ==> IsEntryName(dist1.value))
    requires IsEntryName(arch2) && (dist2.Some? ==> IsEntryName(dist2.value))
    ensures GroupDir(aptDir, dist1, arch1) == GroupDir(aptDir, dist2, arch2) <==>
      dist1 == dist2 && arch1 == arch2
  {
    GroupDirUnder(aptDir, dist1, arch1);
    GroupDirUnder(aptDir, dist2, arch2);
    var pre := DirPrefix(aptDir);
    var p1, p2 := GroupPath(dist1, arch1), GroupPath(dist2, arch2);
    if GroupDir(aptDir, dist1, arch1) == GroupDir(aptDir, dist2, arch2) {
      assert p1 == (pre + p1)[|pre|..] == (pre + p2)[|pre|..] == p2;
      GroupPathInjective(dist1, arch1, dist2, arch2);
    }
  }

  lemma GroupPathInjective(dist1: Option<string>, arch1: string, dist2: Option<string>, arch2: string)
    requires IsEntryName(arch1) && (dist1.Some? ==> IsEntryName(dist1.value))
    requires IsEntryName(arch2) && (dist2.Some? ==> IsEntryName(dist2.value))
    requires GroupPath(dist1, arch1) == GroupPath(dist2, arch2)
    ensures dist1 == dist2 && arch1 == arch2
  {
    if dist1.Some? && dist2.Some? {
      var p := GroupPath(dist1, arch1);
      SplitOnceJoined(dist1.value, '/', arch1);
      SplitOnceJoined(dist2.value, '/', arch2);
    }
  }

  /** The inputs of one `group_debs` run: the directory holding the
      `*.deb` files, the directory to group them under, and the control
      fields of each file, keyed by its entry name. */
  datatype Layout = Layout(debDir: string, aptDir: string, controls: map<string, Control>)

  /** The group directory of the entry `n` of `L.debDir` (lines 70-74). */
  function Placement(L: Layout, n: string): string
    requires n in L.controls
  {
    var (dist, arch) := DistArch(Join(L.debDir, n), L.controls[n]);
    GroupDir(L.aptDir, dist, arch)
  }

  /** The group directory of each of the files `names`. */
  function Placements(L: Layout, names: set<string>): (place: map<string, string>)
    requires forall n :: n in names ==> n in L.controls
    ensures place.Keys == names
    ensures forall n :: n in names ==> place[n] == Placement(L, n)
  {
    map n | n in names :: Placement(L, n)
  }

  /** The names in `done` are entries of `debDir` with a known group
      directory. */
  predicate Covers(t: Tree, debDir: string, place: map<string, string>, done: set<string>) {
    forall n :: n in done ==> n in place && n in Entries(t, debDir)
  }

  /** The group directories of the names in `done`. */
  function Targets(place: map<string, string>, done: set<string>): set<string>
    requires forall n :: n in done ==> n in place
  {
    set n | n in done :: place[n]
  }

  /** The links that processing `done` asks for in directory `d`. */
  function Added(t: Tree, debDir: string, place: map<string, string>, done: set<string>, d: string): map<string, Inode>
    requires Covers(t, debDir, place, done)
  {
    map n | n in done && place[n] == d :: Entries(t, debDir)[n]
  }

  /** The tree after the files `done` of `debDir` have been processed, in
      any order: each of their group directories exists and holds a link to
      each of its files, unless an entry of that name was there already,
      which is kept. */
  function Linked(t: Tree, debDir: string, place: map<string, string>, done: set<string>): Tree
    requires Covers(t, debDir, place, done)
  {
    map d | d in t.Keys + Targets(place, done) :: Added(t, debDir, place, done, d) + Entries(t, d)
  }

  /** One iteration of the loop in the tree: `makedirs(dir)` with an
      existing directory accepted, then `link` unless `name` exists. */
  function LinkInto(t: Tree, dir: string, name: string, ino: Inode): Tree {
    var t1 := if dir in t then t else t[dir := map[]];
    if name in t1[dir] then t1 else AddEntry(t1, dir, name, ino)
  }

  lemma LinkedNone(t: Tree, debDir: string, place: map<string, string>)
    ensures Linked(t, debDir, place, {}) == t
  {
    var t' := Linked(t, debDir, place, {});
    assert t'.Keys == t.Keys;
    forall d | d in t ensures t'[d] == t[d] {
      assert Added(t, debDir, place, {}, d) == map[];
    }
  }

  /** Processing one more file is one more loop iteration, whatever was
      processed before. */
  lemma LinkStep(t: Tree, debDir: string, place: map<string, string>, done: set<string>, n: string)
    requires Covers(t, debDir, place, done + {n}) && n !in done
    ensures Linked(t, debDir, place, done + {n}) ==
      LinkInto(Linked(t, debDir, place, done), place[n], n, Entries(t, debDir)[n])
  {
    var before := Linked(t, debDir, place, done);
    var after := Linked(t, debDir, place, done + {n});
    var want := LinkInto(before, place[n], n, Entries(t, debDir)[n]);
    LinkStepKeys(t, debDir, place, done, n);
    forall d | d in after.Keys ensures after[d] == want[d] {
      LinkStepAt(t, debDir, place, done, n, d);
    }
  }

  lemma LinkStepKeys(t: Tree, debDir: string, place: map<string, string>, done: set<string>, n: string)
    requires Covers(t, debDir, place, done + {n}) && n !in done
    ensures Linked(t, debDir, place, done + {n}).Keys == Linked(t, debDir, place, done).Keys + {place[n]}
    ensures LinkInto(Linked(t, debDir, place, done), place[n], n, Entries(t, debDir)[n]).Keys ==
      Linked(t, debDir, place, done).Keys + {place[n]}
  {
    assert Targets(place, done + {n}) == Targets(place, done) + {place[n]};
  }

  lemma LinkStepAt(t: Tree, debDir: string, place: map<string, string>, done: set<string>, n: string, d: string)
    requires Covers(t, debDir, place, done + {n}) && n !in done
    requires d in Linked(t, debDir, place, done + {n})
    requires d in LinkInto(Linked(t, debDir, place, done), place[n], n, Entries(t, debDir)[n])
    ensures Linked(t, debDir, place, done + {n})[d] ==
      LinkInto(Linked(t, debDir, place, done), place[n], n, Entries(t, debDir)[n])[d]
  {
    if d == place[n] {
      LinkStepHere(t, debDir, place, done, n);
    } else {
      AddedStepElsewhere(t, debDir, place, done, n, d);
    }
  }

  /** The group directory of the new file gains its link, unless an entry
      of that name was there before the run. */
  lemma LinkStepHere(t: Tree, debDir: string, place: map<string, string>, done: set<string>, n: string)
    requires Covers(t, debDir, place, done + {n}) && n !in done
    ensures place[n] in Linked(t, debDir, place, done + {n})
    ensures Linked(t, debDir, place, done + {n})[place[n]] ==
      LinkInto(Linked(t, debDir, place, done), place[n], n, Entries(t, debDir)[n])[place[n]]
  {
    var d, e := place[n], Entries(t, debDir)[n];
    var before := Linked(t, debDir, place, done);
    var added := Added(t, debDir, place, done, d);
    var old_ := Entries(t, d);
    AddedStepHere(t, debDir, place, done, n);
    assert d in Targets(place, done + {n});
    assert n !in added;
    if d !in before {
      assert d !in Targets(place, done) && d !in t;
      assert added == map[];
      assert Linked(t, debDir, place, done + {n})[d] == map[][n := e];
    } else if n in old_ {
      MapUpdateHidden(added, old_, n, e);
    } else {
      assert before[d] == added + old_;
      MapUpdateShown(added, old_, n, e);
    }
  }

  /** Updating the left operand of `+` at a key the right one has changes
      nothing. */
  lemma MapUpdateHidden<K, V>(m: map<K, V>, r: map<K, V>, k: K, v: V)
    requires k in r
    ensures m[k := v] + r == m + r
  {
    assert (m[k := v] + r).Keys == (m + r).Keys;
  }

  /** Updating the left operand of `+` at a key the right one lacks updates
      the union. */
  lemma MapUpdateShown<K, V>(m: map<K, V>, r: map<K, V>, k: K, v: V)
    requires k !in r
    ensures m[k := v] + r == (m + r)[k := v]
  {
    assert (m[k := v] + r).Keys == (m + r)[k := v].Keys;
  }

  lemma AddedStepHere(t: Tree, debDir: string, place: map<string, string>, done: set<string>, n: string)
    requires Covers(t, debDir, place, done + {n})
    ensures Added(t, debDir, place, done + {n}, place[n]) ==
      Added(t, debDir, place, done, place[n])[n := Entries(t, debDir)[n]]
  {
  }

  lemma AddedStepElsewhere(t: Tree, debDir: string, place: map<string, string>, done: set<string>, n: string, d: string)
    requires Covers(t, debDir, place, done + {n}) && d != place[n]
    ensures Added(t, debDir, place, done + {n}, d) == Added(t, debDir, place, done, d)
  {
  }

  /** The directory holding the packages does not change. */
  lemma LinkedDebDir(t: Tree, debDir: string, place: map<string, string>, done: set<string>)
    requires Covers(t, debDir, place, done)
    ensures Entries(Linked(t, debDir, place, done), debDir) == Entries(t, debDir)
  {
    var t' := Linked(t, debDir, place, done);
    if debDir in t' {
      assert Added(t, debDir, place, done, debDir).Keys <= Entries(t, debDir).Keys;
      assert Entries(t', debDir) == Added(t, debDir, place, done, debDir) + Entries(t, debDir);
    }
  }

  /** Control fields are known for every `*.deb` file of the deb directory. */
  predicate ControlsKnown(t: Tree, L: Layout) {
    forall n :: n in DebFiles(t, L.debDir) ==> n in L.controls
  }

  /** Where `group_debs` links each `*.deb` file of `t`. */
  function GroupPlacements(t: Tree, L: Layout): map<string, string>
    requires ControlsKnown(t, L)
  {
    Placements(L, DebFiles(t, L.debDir))
  }

  /** The tree after `group_debs` (lines 68-85). */
  function Grouped(t: Tree, L: Layout): Tree
    requires ControlsKnown(t, L)
  {
    Linked(t, L.debDir, GroupPlacements(t, L), DebFiles(t, L.debDir))
  }

  /** What `group_debs` returns: `ValueError` when the glob found nothing
      (lines 86-88), the set of group directories otherwise. */
  function GroupResult(t: Tree, L: Layout): Result<set<string>, Error>
    requires ControlsKnown(t, L)
  {
    var debs := DebFiles(t, L.debDir);
    if debs == {} then Err(NoDebFiles(L.debDir)) else Ok(Targets(GroupPlacements(t, L), debs))
  }

  /** Every `*.deb` file has an entry of its name in its group directory
      afterwards: the old entry if there was one, otherwise a link to the
      file. */
  lemma GroupedLinksEvery(t: Tree, L: Layout, n: string)
    requires ControlsKnown(t, L) && n in DebFiles(t, L.debDir)
    ensures Placement(L, n) in Grouped(t, L) && n in Grouped(t, L)[Placement(L, n)]
    ensures Grouped(t, L)[Placement(L, n)][n] ==
      if n in Entries(t, Placement(L, n)) then t[Placement(L, n)][n] else t[L.debDir][n]
  {
    var place := GroupPlacements(t, L);
    assert place[n] in Targets(place, DebFiles(t, L.debDir));
  }

  /** No existing entry is removed or changed. */
  lemma GroupedKeeps(t: Tree, L: Layout, d: string, m: string)
    requires ControlsKnown(t, L) && d in t && m in t[d]
    ensures d in Grouped(t, L) && m in Grouped(t, L)[d] && Grouped(t, L)[d][m] == t[d][m]
  {
  }

  /** Every entry afterwards is an old one or the link of a `*.deb` file
      into its own group directory. */
  lemma GroupedOnlyAdds(t: Tree, L: Layout, d: string, m: string)
    requires ControlsKnown(t, L) && d in Grouped(t, L) && m in Grouped(t, L)[d]
    ensures || (d in t && m in t[d] && Grouped(t, L)[d][m] == t[d][m])
            || (m in DebFiles(t, L.debDir) && d == Placement(L, m) && Grouped(t, L)[d][m] == t[L.debDir][m])
  {
  }

  /** Without `*.deb` files the run fails and changes nothing. */
  lemma NoDebsNoGroups(t: Tree, L: Layout)
    requires ControlsKnown(t, L) && DebFiles(t, L.debDir) == {}
    ensures GroupResult(t, L) == Err(NoDebFiles(L.debDir)) && Grouped(t, L) == t
  {
    LinkedNone(t, L.debDir, GroupPlacements(t, L));
  }

  /** A successful run returns exactly the group directories of the files
      found, each of which exists afterwards. */
  lemma GroupResultDirs(t: Tree, L: Layout)
    requires ControlsKnown(t, L)
    ensures GroupResult(t, L).Ok? <==> DebFiles(t, L.debDir) != {}
    ensures GroupResult(t, L).Ok? ==> forall dir :: dir in GroupResult(t, L).value <==>
      exists n :: n in DebFiles(t, L.debDir) && dir == Placement(L, n)
    ensures GroupResult(t, L).Ok? ==> GroupResult(t, L).value <= Grouped(t, L).Keys
  {
    var debs := DebFiles(t, L.debDir);
    var place := GroupPlacements(t, L);
    if debs != {} {
      var n :| n in debs;
      assert place[n] in Targets(place, debs);
    }
  }

  /** Running `group_debs` a second time over its own result changes
      nothing and returns the same set. */
  lemma GroupedIdempotent(t: Tree, L: Layout)
    requires ControlsKnown(t, L)
    ensures ControlsKnown(Grouped(t, L), L)
    ensures Grouped(Grouped(t, L), L) == Grouped(t, L)
    ensures GroupResult(Grouped(t, L), L) == GroupResult(t, L)
  {
    var debs := DebFiles(t, L.debDir);
    var place := GroupPlacements(t, L);
    LinkedDebDir(t, L.debDir, place, debs);
    assert DebFiles(Grouped(t, L), L.debDir) == debs;
    assert GroupPlacements(Grouped(t, L), L) == place;
    LinkedAgain(t, L.debDir, place, debs);
  }

  /** Linking the same files again into the linked tree adds nothing. */
  lemma LinkedAgain(t: Tree, debDir: string, place: map<string, string>, done: set<string>)
    requires Covers(t, debDir, place, done)
    ensures Covers(Linked(t, debDir, place, done), debDir, place, done)
    ensures Linked(Linked(t, debDir, place, done), debDir, place, done) == Linked(t, debDir, place, done)
  {
    var g := Linked(t, debDir, place, done);
    LinkedDebDir(t, debDir, place, done);
    var g2 := Linked(g, debDir, place, done);
    assert g2.Keys == g.Keys;
    forall d | d in g ensures g2[d] == g[d] {
      assert Added(g, debDir, place, done, d) == Added(t, debDir, place, done, d);
      MapAbsorb(Added(t, debDir, place, done, d), Entries(t, d));
    }
  }

  /** Adding the same entries a second time changes nothing. */
  lemma MapAbsorb<K, V>(m: map<K, V>, e: map<K, V>)
    ensures m + (m + e) == m + e
  {
    assert (m + (m + e)).Keys == (m + e).Keys;
  }

  /** Two files land in the same directory exactly when they have the same
      distribution and architecture. */
  lemma SameGroupSameDistArch(L: Layout, n: string, m: string)
    requires n in L.controls && m in L.controls
    requires IsEntryName(L.controls[n].architecture) && IsEntryName(L.controls[m].architecture)
    ensures Placement(L, n) == Placement(L, m) <==>
      DistArch(Join(L.debDir, n), L.controls[n]) == DistArch(Join(L.debDir, m), L.controls[m])
  {
    var (d1, a1) := DistArch(Join(L.debDir, n), L.controls[n]);
    var (d2, a2) := DistArch(Join(L.debDir, m), L.controls[m]);
    GroupDirInjective(L.aptDir, d1, a1, d2, a2);
  }

  /** Lines 75-85 for one file `n` of `debDir`: create `dir` unless it
      exists, then hard-link the file into it unless an entry of its base
      name exists there. */
  method LinkIntoGroup(fs: FileSystem, debDir: string, n: string, dir: string)
    requires fs.Valid() && n in Entries(fs.dirs, debDir)
    modifies fs
    ensures fs.Valid() && fs.nextInode == old(fs.nextInode)
    ensures fs.dirs == LinkInto(old(fs.dirs), dir, n, old(fs.dirs)[debDir][n])
  {
    ghost var t := fs.dirs;
    WellFormedEntry(fs.dirs, fs.nextInode, debDir, n);
    var deb := Join(debDir, n);
    fs.MakeDirs(dir);
    var debLink := BaseName(deb);
    BaseNameOfJoin(debDir, n);
    var present := fs.Exists(dir, debLink);
    if !present {
      assert Entries(fs.dirs, debDir) == Entries(t, debDir);
      fs.Link(debDir, n, dir, debLink);
    }
  }

  /** `group_debs(deb_dir, apt_dir)`. */
  method GroupDebs(fs: FileSystem, L: Layout) returns (r: Result<set<string>, Error>)
    requires fs.Valid() && ControlsKnown(fs.dirs, L)
    modifies fs
    ensures fs.Valid() && fs.nextInode == old(fs.nextInode)
    ensures fs.dirs == Grouped(old(fs.dirs), L)
    ensures r == GroupResult(old(fs.dirs), L)
  {
    ghost var t := fs.dirs;
    ghost var place := GroupPlacements(t, L);
    var distArchDirs: set<string> := {};
    var debs := fs.Glob(L.debDir);
    LinkedNone(t, L.debDir, place);
    for i := 0 to |debs|
      invariant fs.Valid() && fs.nextInode == old(fs.nextInode)
      invariant fs.dirs == Linked(t, L.debDir, place, Done(debs, i))
      invariant distArchDirs == Targets(place, Done(debs, i))
    {
      var n := debs[i];
      var (dist, arch) := DistArch(Join(L.debDir, n), L.controls[n]);
      var distArchDir := GroupDir(L.aptDir, dist, arch);
      GroupStep(t, L.debDir, place, debs, i, distArchDir);
      LinkIntoGroup(fs, L.debDir, n, distArchDir);
      distArchDirs := distArchDirs + {distArchDir};
    }
    GroupEnd(t, L, debs);
    if distArchDirs == {} {
      r := Err(NoDebFiles(L.debDir));
    } else {
      r := Ok(distArchDirs);
    }
  }

  lemma GroupEnd(t: Tree, L: Layout, debs: seq<string>)
    requires ControlsKnown(t, L)
    requires forall n :: n in debs <==> n in DebFiles(t, L.debDir)
    ensures Done(debs, |debs|) == DebFiles(t, L.debDir)
    ensures Grouped(t, L) == Linked(t, L.debDir, GroupPlacements(t, L), Done(debs, |debs|))
    ensures Targets(GroupPlacements(t, L), Done(debs, |debs|)) == {} <==> DebFiles(t, L.debDir) == {}
  {
    assert debs[..|debs|] == debs;
    var place := GroupPlacements(t, L);
    if n :| n in DebFiles(t, L.debDir) {
      assert place[n] in Targets(place, Done(debs, |debs|));
    }
  }

  /** The facts one iteration of the grouping loop needs. */
  lemma GroupStep(t: Tree, debDir: string, place: map<string, string>, debs: seq<string>, i: nat, dir: string)
    requires i < |debs| && Distinct(debs)
    requires forall n :: n in debs ==> n in place && n in Entries(t, debDir)
    requires dir == place[debs[i]]
    ensures Covers(t, debDir, place, Done(debs, i))
    ensures Covers(t, debDir, place, Done(debs, i + 1))
    ensures debs[i] in Entries(Linked(t, debDir, place, Done(debs, i)), debDir)
    ensures Entries(Linked(t, debDir, place, Done(debs, i)), debDir)[debs[i]] == Entries(t, debDir)[debs[i]]
    ensures Linked(t, debDir, place, Done(debs, i + 1)) ==
      LinkInto(Linked(t, debDir, place, Done(debs, i)), dir, debs[i], Entries(t, debDir)[debs[i]])
    ensures Targets(place, Done(debs, i + 1)) == Targets(place, Done(debs, i)) + {dir}
  {
    var n := debs[i];
    DoneStep(debs, i);
    LinkedDebDir(t, debDir, place, Done(debs, i));
    LinkStep(t, debDir, place, Done(debs, i), n);
  }

  /** The entries among the first `i` of a listing. */
  function Done(debs: seq<string>, i: nat): set<string>
    requires i <= |debs|
  {
    set n | n in debs[..i]
  }

  lemma DoneStep(debs: seq<string>, i: nat)
    requires i < |debs| && Distinct(debs)
    ensures Done(debs, i + 1) == Done(debs, i) + {debs[i]}
    ensures debs[i] !in Done(debs, i)
  {
    assert debs[..i + 1] == debs[..i] + [debs[i]];
  }
}
