/** `githubaptrepos/__init__.py`: the first version of the program, which
    keeps the `*.deb` files and their groups in one directory, stops at a
    file name that does not fit the template, finds the repository by its
    full name and derives a default GPG user id from it. */
module Legacy {
  import opened Common
  import opened Paths
  import opened Files
  import Repo
  import GitHub

  // ---------------------------------------------------------------------
  // `get_deb_dist_arch` (lines 92-108) and `group_debs` (lines 111-138)

  /** `get_deb_dist_arch(deb)`: group 2 of the match of the same template
      as `repo.py`, or the `AttributeError` of calling `.group` on `None`
      when the base name does not match. */
  function DistArch(deb: string, c: Repo.Control): (r: Result<(Option<string>, string), Error>)
    ensures r.Err? <==> Repo.Match(Repo.Root(deb), c) == Repo.NoMatch
    ensures r.Err? ==> r.error == UnmatchedBaseName(deb)
    ensures r.Ok? ==> r.value == Repo.DistArch(deb, c)
  {
    match Repo.Match(Repo.Root(deb), c)
    case NoMatch => Err(UnmatchedBaseName(deb))
    case Matched(dist) => Ok((dist, c.architecture))
  }

  /** The grouping of `__init__.py` globs and groups in the same directory. */
  function Layout(aptDir: string, controls: map<string, Repo.Control>): Repo.Layout {
    Repo.Layout(aptDir, aptDir, controls)
  }

  /** The base name of the entry `n` of `aptDir` fits the template. */
  predicate Fitting(aptDir: string, controls: map<string, Repo.Control>, n: string)
    requires n in controls
  {
    Repo.Match(Repo.Root(Join(aptDir, n)), controls[n]) != Repo.NoMatch
  }

  /** Every `*.deb` file of `aptDir` fits the template. */
  predicate AllFitting(t: Tree, aptDir: string, controls: map<string, Repo.Control>)
    requires Repo.ControlsKnown(t, Layout(aptDir, controls))
  {
    forall n :: n in DebFiles(t, aptDir) ==> Fitting(aptDir, controls, n)
  }

  /** How a run that stopped at `bad` leaves the tree `t`: the files `done`
      before it in the listing all fit the template and are grouped, `bad`
      does not fit, and nothing else changed. */
  ghost predicate StoppedAt(t: Tree, aptDir: string, controls: map<string, Repo.Control>,
                            done: set<string>, bad: string, after: Tree)
    requires Repo.ControlsKnown(t, Layout(aptDir, controls))
  {
    && done <= DebFiles(t, aptDir)
    && bad in DebFiles(t, aptDir) && bad !in done
    && !Fitting(aptDir, controls, bad)
    && (forall n :: n in done ==> Fitting(aptDir, controls, n))
    && after == Repo.Linked(t, aptDir, Repo.GroupPlacements(t, Layout(aptDir, controls)), done)
  }

  /** `group_debs(apt_dir)`. It succeeds exactly when every file fits the
      template, and then ends as the newer grouping does, except that
      finding no file at all is no error; otherwise it stops with the error
      of a file that does not fit, having grouped the files listed before
      it. */
  method GroupDebs(fs: FileSystem, aptDir: string, controls: map<string, Repo.Control>)
    returns (r: Result<set<string>, Error>, ghost done: set<string>, ghost bad: string)
    requires fs.Valid() && Repo.ControlsKnown(fs.dirs, Layout(aptDir, controls))
    modifies fs
    ensures fs.Valid() && fs.nextInode == old(fs.nextInode)
    ensures r.Ok? <==> AllFitting(old(fs.dirs), aptDir, controls)
    ensures r.Ok? ==>
      && fs.dirs == Repo.Grouped(old(fs.dirs), Layout(aptDir, controls))
      && r.value == Repo.Targets(Repo.GroupPlacements(old(fs.dirs), Layout(aptDir, controls)), DebFiles(old(fs.dirs), aptDir))
    ensures r.Err? ==>
      && r == Err(UnmatchedBaseName(Join(aptDir, bad)))
      && StoppedAt(old(fs.dirs), aptDir, controls, done, bad, fs.dirs)
  {
    ghost var t := fs.dirs;
    ghost var L := Layout(aptDir, controls);
    ghost var place := Repo.GroupPlacements(t, L);
    done, bad := {}, [];
    var distArchDirs: set<string> := {};
    var debs := fs.Glob(aptDir);
    Repo.LinkedNone(t, aptDir, place);
    for i := 0 to |debs|
      invariant fs.Valid() && fs.nextInode == old(fs.nextInode)
      invariant fs.dirs == Repo.Linked(t, aptDir, place, Repo.Done(debs, i))
      invariant distArchDirs == Repo.Targets(place, Repo.Done(debs, i))
      invariant forall n :: n in Repo.Done(debs, i) ==> Fitting(aptDir, controls, n)
    {
      var n := debs[i];
      var deb := Join(aptDir, n);
      var distArch := DistArch(deb, controls[n]);
      if distArch.Err? {
        StopsAt(t, aptDir, controls, debs, i);
        done, bad := Repo.Done(debs, i), n;
        r := Err(distArch.error);
        return;
      }
      Repo.DoneStep(debs, i);
      var (dist, arch) := distArch.value;
      var distArchDir := Repo.GroupDir(aptDir, dist, arch);
      Repo.GroupStep(t, aptDir, place, debs, i, distArchDir);
      Repo.LinkIntoGroup(fs, aptDir, n, distArchDir);
      distArchDirs := distArchDirs + {distArchDir};
    }
    Repo.GroupEnd(t, L, debs);
    assert AllFitting(t, aptDir, controls);
    r := Ok(distArchDirs);
  }

  /** The loop stops at the `i`-th file of the listing when it does not fit
      the template, all files before it having fitted. */
  lemma StopsAt(t: Tree, aptDir: string, controls: map<string, Repo.Control>, debs: seq<string>, i: nat)
    requires Repo.ControlsKnown(t, Layout(aptDir, controls))
    requires Distinct(debs) && forall n :: n in debs <==> n in DebFiles(t, aptDir)
    requires i < |debs| && !Fitting(aptDir, controls, debs[i])
    requires forall n :: n in Repo.Done(debs, i) ==> Fitting(aptDir, controls, n)
    ensures StoppedAt(t, aptDir, controls, Repo.Done(debs, i), debs[i],
      Repo.Linked(t, aptDir, Repo.GroupPlacements(t, Layout(aptDir, controls)), Repo.Done(debs, i)))
    ensures !AllFitting(t, aptDir, controls)
  {
    Repo.DoneStep(debs, i);
    assert Repo.Done(debs, i) <= DebFiles(t, aptDir);
  }

  // ---------------------------------------------------------------------
  // The origin remote: `GH_ORIGIN_URL_RE` (lines 30-31) and
  // `get_github_repo` (lines 183-194)

  /** What `(?P<full_name>.+?)(.git|)` captures when it has to consume all
      of `y`. */
  function RestName(y: string, escaped: bool): (r: Option<string>)
    ensures r.Some? ==> r.value != [] && '\n' !in r.value
  {
    if y == [] || '\n' in y then None
    else
      var f := GitHub.LazyLength(y, escaped);
      assert forall i :: 0 <= i < f ==> y[..f][i] == y[i];
      Some(y[..f])
  }

  /** `GH_ORIGIN_URL_RE.match(url).group('full_name')`, or the `ValueError`
      of lines 190-193: everything after the prefix, up to a final `.git`
      left to the lazy `.+?`. */
  function OriginFullName(url: string, escaped: bool): (r: Result<string, Error>)
    ensures GitHub.PrefixEnd(url, escaped).None? ==> r == Err(UnrecognizedOrigin(url))
    ensures r.Err? ==> r == Err(UnrecognizedOrigin(url))
    ensures r.Ok? ==> r.value != [] && '\n' !in r.value
  {
    match GitHub.PrefixEnd(url, escaped)
    case None => Err(UnrecognizedOrigin(url))
    case Some(p) =>
      match RestName(GitHub.BeforeEnd(url[p..]), escaped)
      case None => Err(UnrecognizedOrigin(url))
      case Some(name) => Ok(name)
  }

  /** `get_github_repo` given what `git remote get-url origin` prints: the
      full name it asks the API for, with the pattern as written (`escaped`
      false) or with its dots escaped. */
  function GitHubFullName(output: string, escaped: bool): (r: Result<string, Error>)
    ensures r.Err? ==> r == Err(UnrecognizedOrigin(GitHub.Strip(output)))
    ensures r.Ok? ==> r.value != [] && '\n' !in r.value
  {
    OriginFullName(GitHub.Strip(output), escaped)
  }

  /** After the prefix, `name + g` captures `name`. */
  lemma RestNameOf(name: string, g: string, escaped: bool)
    requires name != [] && '\n' !in name
    requires (g == [] && !GitHub.GitTail(name, escaped)) || (|g| == 4 && GitHub.Fits(g, ".git", escaped))
    ensures RestName(name + g, escaped) == Some(name)
  {
    var y := name + g;
    forall i | 0 <= i < |y| ensures y[i] != '\n' {
      if i < |name| {
        assert y[i] == name[i];
      } else {
        assert y[i] == g[i - |name|];
      }
    }
    GitHub.RepoStops(name, g, escaped);
    assert y[..|name|] == name;
  }

  /** The origin URL of a GitHub repository, with `.git` or something the
      pattern's `.git` matches, or without it, yields the full name. */
  lemma FullNameOf(prefix: string, name: string, g: string, escaped: bool)
    requires prefix == GitHub.HttpsPrefix || prefix == GitHub.SshPrefix
    requires name != [] && '\n' !in name
    requires (g == [] && !GitHub.GitTail(name, escaped)) || (|g| == 4 && GitHub.Fits(g, ".git", escaped))
    ensures OriginFullName(prefix + name + g, escaped) == Ok(name)
  {
    var y := name + g;
    assert prefix + name + g == prefix + y;
    GitHub.PrefixFits(prefix, y, escaped);
    assert y[|y| - 1] != '\n' by {
      if g == [] {
        assert y[|y| - 1] == name[|name| - 1];
      } else {
        assert y[|y| - 1] == g[3] == 't';
      }
    }
    assert GitHub.BeforeEnd(y) == y;
    RestNameOf(name, g, escaped);
  }

  /** `prefix + "user/repo.git"` yields the full name `user/repo`, as the
      newer `gh_repo_path` group does. */
  lemma FullNameOfGitUrl(prefix: string, user: string, repo: string, escaped: bool)
    requires prefix == GitHub.HttpsPrefix || prefix == GitHub.SshPrefix
    requires user != [] && repo != [] && '\n' !in user && '\n' !in repo && '/' !in repo
    ensures OriginFullName(prefix + user + "/" + repo + ".git", escaped) == Ok(user + "/" + repo)
    ensures GitHub.OriginRepoPath(prefix + user + "/" + repo + ".git", escaped) == Ok(user + "/" + repo)
  {
    var name := user + "/" + repo;
    assert prefix + name + ".git" == prefix + user + "/" + repo + ".git";
    GitHub.NoLineBreak(user, repo, [], escaped);
    assert name + [] == name;
    assert GitHub.Fits(".git", ".git", escaped);
    FullNameOf(prefix, name, ".git", escaped);
    GitHub.RepoPathOfGitUrl(prefix, user, repo, escaped);
  }

  /** `https://github.com/octocat/legit`: the pattern as written yields the
      full name `octocat/l`; with escaped dots it yields `octocat/legit`. */
  lemma LegitFullName()
    ensures OriginFullName(GitHub.HttpsPrefix + ("octocat" + "/" + "l") + ("e" + "git"), false) == Ok("octocat" + "/" + "l")
    ensures OriginFullName(GitHub.HttpsPrefix + ("octocat" + "/" + "l" + "e" + "git") + [], true) == Ok("octocat" + "/" + "l" + "e" + "git")
  {
    var g := "e" + "git";
    assert g[0] == 'e' && g[1] == 'g' && g[2] == 'i' && g[3] == 't';
    assert GitHub.Fits(g, ".git", false);
    FullNameOf(GitHub.HttpsPrefix, "octocat" + "/" + "l", g, false);
    var name := "octocat" + "/" + "l" + "e" + "git";
    var tl := name[|name| - 4..];
    assert tl[0] == 'e' && ".git"[0] == '.';
    assert !GitHub.GitTail(name, true);
    FullNameOf(GitHub.HttpsPrefix, name, [], true);
  }

  // ---------------------------------------------------------------------
  // The default GPG user id (lines 211, 216-221)

  /** `user_name, repo_name = full_name.split('/', 1)` and the user id
      formatted from them, or the `ValueError` of unpacking a single part. */
  function DefaultGpgUserId(fullName: string): (r: Result<string, Error>)
    ensures r.Err? <==> '/' !in fullName
    ensures r.Err? ==> r.error == NotEnoughValues(fullName)
  {
    match SplitOnce(fullName, '/')
    case None => Err(NotEnoughValues(fullName))
    case Some((user, repo)) => Ok(repo + " " + user + " <" + user + "+" + repo + "@github.com>")
  }

  /** The user id names the repository, then its owner, then the address
      `owner+repository@github.com`; only the first `/` separates the
      owner. */
  lemma DefaultGpgUserIdOf(user: string, repo: string)
    requires '/' !in user
    ensures DefaultGpgUserId(user + "/" + repo) == Ok(repo + " " + user + " <" + user + "+" + repo + "@github.com>")
  {
    SplitOnceJoined(user, '/', repo);
    assert user + "/" + repo == user + ['/'] + repo;
  }

  /** For a checkout whose origin is `prefix + "user/repo.git"`, and a
      repository whose full name is the one asked for, the default key is
      `repo user <user+repo@github.com>`. */
  lemma CheckoutGpgUserId(prefix: string, user: string, repo: string)
    requires prefix == GitHub.HttpsPrefix || prefix == GitHub.SshPrefix
    requires user != [] && repo != [] && '\n' !in user && '\n' !in repo
    requires '/' !in user && '/' !in repo
    ensures OriginFullName(prefix + user + "/" + repo + ".git", false).Ok?
    ensures DefaultGpgUserId(OriginFullName(prefix + user + "/" + repo + ".git", false).value) ==
      Ok(repo + " " + user + " <" + user + "+" + repo + "@github.com>")
  {
    FullNameOfGitUrl(prefix, user, repo, false);
    DefaultGpgUserIdOf(user, repo);
  }
}
