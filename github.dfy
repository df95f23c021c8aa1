/** `githubaptrepos/github.py`: the decisions and string rules around the
    GitHub API calls: recognising the `origin` remote, choosing how to log
    in, the `*.deb` release downloads, release tags, content types and the
    replacement of release assets. */
module GitHub {
  import opened Common
  import opened Paths
  import opened Files
  import Repo

  // ---------------------------------------------------------------------
  // The origin remote URL: `GH_ORIGIN_URL_RE` and `get_github_repo_path`

  /** Whether the text `s` matches the regular expression text `lit`
      character by character. An unescaped `.` matches any character except
      a line break; with `escaped` every character of `lit` stands for
      itself. */
  predicate Fits(s: string, lit: string, escaped: bool)
    requires |s| == |lit|
  {
    forall i :: 0 <= i < |s| ==>
      if lit[i] == '.' && !escaped then s[i] != '\n' else s[i] == lit[i]
  }

  const HttpsPrefix: string := "https://github.com/"
  const SshPrefix: string := "git@github.com:"

  /** Where the text after the `^(https://github.com/|git@github.com:)`
      group starts. The two alternatives differ in their first character,
      which both match literally, so at most one of them fits. */
  function PrefixEnd(url: string, escaped: bool): (r: Option<nat>)
    ensures r.Some? ==> r.value <= |url|
    ensures r.Some? ==> r.value == |HttpsPrefix| || r.value == |SshPrefix|
  {
    if |HttpsPrefix| <= |url| && Fits(url[..|HttpsPrefix|], HttpsPrefix, escaped) then Some(|HttpsPrefix|)
    else if |SshPrefix| <= |url| && Fits(url[..|SshPrefix|], SshPrefix, escaped) then Some(|SshPrefix|)
    else None
  }

  /** What the pattern must consume before `$`, which matches at the end
      of the text or just before a final line break. */
  function BeforeEnd(s: string): (r: string)
    ensures s == r || s == r + "\n"
  {
    if s != [] && s[|s| - 1] == '\n' then s[..|s| - 1] else s
  }

  /** The lazy `.+?` followed by `(.git|)$` can stop after `r` characters
      of `z`: the rest is empty or is four characters matching `.git`. */
  predicate GitEnds(z: string, r: nat, escaped: bool)
    requires r <= |z|
  {
    r == |z| || (r + 4 == |z| && Fits(z[r..], ".git", escaped))
  }

  /** `z` ends in four characters matching `.git` with at least one
      character before them. */
  predicate GitTail(z: string, escaped: bool) {
    |z| >= 5 && Fits(z[|z| - 4..], ".git", escaped)
  }

  /** How much of `z` the lazy `.+?` takes: the fewest characters, at least
      one, after which `(.git|)$` matches. */
  function LazyLength(z: string, escaped: bool): (r: nat)
    requires z != []
    ensures 0 < r <= |z| && GitEnds(z, r, escaped)
    ensures forall r': nat :: 0 < r' < r ==> !GitEnds(z, r', escaped)
  {
    if GitTail(z, escaped) then |z| - 4 else |z|
  }

  /** The `/` can sit at index `u` of the text `y`: the greedy user part
      `y[..u]` and the repository part after it are both non-empty. */
  predicate SlashAt(y: string, u: nat) {
    0 < u && u + 1 < |y| && y[u] == '/'
  }

  /** The greedy `(?P<gh_user>.+)/`: the last `/` with text on both sides. */
  function UserEnd(y: string): (r: Option<nat>)
    ensures r.Some? ==> SlashAt(y, r.value)
    ensures r.Some? ==> forall u: nat :: r.value < u ==> !SlashAt(y, u)
    ensures r.None? ==> forall u: nat :: !SlashAt(y, u)
  {
    if y == [] then None
    else match LastIndexOf(y[..|y| - 1], '/')
      case None => None
      case Some(u) =>
        assert forall v :: 0 <= v < |y| - 1 ==> y[..|y| - 1][v] == y[v];
        if u == 0 then None else Some(u)
  }

  /** What `(?P<gh_repo_path>(?P<gh_user>.+)/(?P<gh_repo>.+?))(.git|)`
      captures when it has to consume all of `y`. */
  function RestPath(y: string, escaped: bool): (r: Option<string>)
    ensures r.Some? ==> '/' in r.value && '\n' !in r.value
  {
    if '\n' in y then None
    else match UserEnd(y)
      case None => None
      case Some(u) =>
        var r := LazyLength(y[u + 1..], escaped);
        assert y[..u + 1 + r][u] == '/';
        assert forall i :: 0 <= i < u + 1 + r ==> y[..u + 1 + r][i] == y[i];
        Some(y[..u + 1 + r])
  }

  /** `GH_ORIGIN_URL_RE.match(url).group('gh_repo_path')`, or the
      `ValueError` of lines 126-129 when there is no match; `escaped` tells
      whether the dots of the pattern are escaped. */
  function OriginRepoPath(url: string, escaped: bool): (r: Result<string, Error>)
    ensures PrefixEnd(url, escaped).None? ==> r == Err(UnrecognizedOrigin(url))
    ensures r.Err? ==> r == Err(UnrecognizedOrigin(url))
    ensures r.Ok? ==> '/' in r.value && '\n' !in r.value
  {
    match PrefixEnd(url, escaped)
    case None => Err(UnrecognizedOrigin(url))
    case Some(p) =>
      match RestPath(BeforeEnd(url[p..]), escaped)
      case None => Err(UnrecognizedOrigin(url))
      case Some(path) => Ok(path)
  }

  /** The whitespace that `str.strip()` removes from the output of
      `git remote get-url origin`. */
  predicate IsSpace(c: char) {
    c == ' ' || c == '\t' || c == '\n' || c == '\r' || c as int == 11 || c as int == 12
  }

  function TrimStart(s: string): (r: string)
    ensures r == [] || !IsSpace(r[0])
    ensures |r| <= |s| && r == s[|s| - |r|..]
  {
    if s != [] && IsSpace(s[0]) then TrimStart(s[1..]) else s
  }

  function TrimEnd(s: string): (r: string)
    ensures r == [] || !IsSpace(r[|r| - 1])
    ensures |r| <= |s| && r == s[..|r|]
  {
    if s != [] && IsSpace(s[|s| - 1]) then TrimEnd(s[..|s| - 1]) else s
  }

  /** `s.strip()`: `s` without whitespace at either end. */
  function Strip(s: string): (r: string)
    ensures r == [] || (!IsSpace(r[0]) && !IsSpace(r[|r| - 1]))
  {
    TrimEnd(TrimStart(s))
  }

  /** Stripping removes exactly the line break that `git` prints after the
      URL. */
  lemma StripLine(url: string)
    requires url != [] && !IsSpace(url[0]) && !IsSpace(url[|url| - 1])
    ensures Strip(url + "\n") == url
  {
    var s := url + "\n";
    assert TrimStart(s) == s;
    assert s[..|s| - 1] == url;
    assert TrimEnd(s) == TrimEnd(url) == url;
  }

  /** `get_github_repo_path()` given what `git remote get-url origin`
      prints (lines 123-130): `escaped` is false for the pattern as written,
      true for the pattern with its dots escaped. */
  function GitHubRepoPath(output: string, escaped: bool): (r: Result<string, Error>)
    ensures r.Err? ==> r == Err(UnrecognizedOrigin(Strip(output)))
    ensures r.Ok? ==> '/' in r.value
  {
    OriginRepoPath(Strip(output), escaped)
  }

  /** The prefix of a GitHub remote fits the pattern, escaped or not. */
  lemma PrefixFits(prefix: string, rest: string, escaped: bool)
    requires prefix == HttpsPrefix || prefix == SshPrefix
    ensures PrefixEnd(prefix + rest, escaped) == Some(|prefix|)
    ensures (prefix + rest)[|prefix|..] == rest
  {
    var url := prefix + rest;
    assert url[..|prefix|] == prefix;
    if prefix == SshPrefix {
      assert url[0] == 'g' && HttpsPrefix[0] == 'h';
    }
  }

  /** The text after the prefix of `prefix + user + "/" + repo + g`, where
      `g` is empty or matches `.git`, splits at the `/` before `repo`. */
  lemma UserSplit(user: string, repo: string, g: string)
    requires user != [] && repo != [] && '/' !in repo && '/' !in g
    ensures UserEnd(user + "/" + repo + g) == Some(|user|)
  {
    var y := user + "/" + repo + g;
    assert SlashAt(y, |user|);
    forall u: nat | |user| < u < |y| ensures y[u] != '/' {
      if u <= |user| + |repo| {
        assert y[u] == repo[u - |user| - 1];
      } else {
        assert y[u] == g[u - |user| - 1 - |repo|];
      }
    }
  }

  /** The lazy repository group stops right before the `.git` ending `g`,
      or at the end when there is none and `repo` has no `.git`-like tail. */
  lemma RepoStops(repo: string, g: string, escaped: bool)
    requires repo != []
    requires (g == [] && !GitTail(repo, escaped)) || (|g| == 4 && Fits(g, ".git", escaped))
    ensures LazyLength(repo + g, escaped) == |repo|
  {
    var z := repo + g;
    assert z[..|repo|] == repo && z[|repo|..] == g;
    assert GitEnds(z, |repo|, escaped);
    if g == [] {
      assert z == repo;
    }
  }

  /** The text `user + "/" + repo + g` has no line break. */
  lemma NoLineBreak(user: string, repo: string, g: string, escaped: bool)
    requires user != [] && repo != [] && '\n' !in user && '\n' !in repo
    requires g == [] || (|g| == 4 && Fits(g, ".git", escaped))
    ensures '\n' !in user + "/" + repo + g
  {
    var y := user + "/" + repo + g;
    forall i | 0 <= i < |y| ensures y[i] != '\n' {
      if i < |user| {
        assert y[i] == user[i];
      } else if i == |user| {
      } else if i <= |user| + |repo| {
        assert y[i] == repo[i - |user| - 1];
      } else {
        assert y[i] == g[i - |user| - 1 - |repo|];
      }
    }
  }

  /** After the prefix, `user + "/" + repo + g` captures `user/repo`. */
  lemma RestPathOf(user: string, repo: string, g: string, escaped: bool)
    requires user != [] && repo != [] && '\n' !in user && '\n' !in repo && '/' !in repo
    requires (g == [] && !GitTail(repo, escaped)) || (|g| == 4 && Fits(g, ".git", escaped) && '/' !in g)
    ensures RestPath(user + "/" + repo + g, escaped) == Some(user + "/" + repo)
  {
    var y := user + "/" + repo + g;
    NoLineBreak(user, repo, g, escaped);
    UserSplit(user, repo, g);
    assert y[|user| + 1..] == repo + g;
    RepoStops(repo, g, escaped);
    assert y[..|user| + 1 + |repo|] == user + "/" + repo;
  }

  /** The origin URL of a GitHub repository, with or without `.git`,
      yields its `user/repo` path; `g` is `.git`, or any four characters
      the pattern's `.git` matches. */
  lemma RepoPathOf(prefix: string, user: string, repo: string, g: string, escaped: bool)
    requires prefix == HttpsPrefix || prefix == SshPrefix
    requires user != [] && repo != [] && '\n' !in user && '\n' !in repo && '/' !in repo
    requires (g == [] && !GitTail(repo, escaped)) || (|g| == 4 && Fits(g, ".git", escaped) && '/' !in g)
    ensures OriginRepoPath(prefix + user + "/" + repo + g, escaped) == Ok(user + "/" + repo)
  {
    var y := user + "/" + repo + g;
    assert prefix + user + "/" + repo + g == prefix + y;
    PrefixFits(prefix, y, escaped);
    assert y[|y| - 1] != '\n' by {
      if g == [] {
        assert y[|y| - 1] == repo[|repo| - 1];
      } else {
        assert y[|y| - 1] == g[3] == 't';
      }
    }
    assert BeforeEnd(y) == y;
    RestPathOf(user, repo, g, escaped);
  }

  /** `prefix + "user/repo.git"` yields `user/repo` whether or not the
      pattern's dots are escaped. */
  lemma RepoPathOfGitUrl(prefix: string, user: string, repo: string, escaped: bool)
    requires prefix == HttpsPrefix || prefix == SshPrefix
    requires user != [] && repo != [] && '\n' !in user && '\n' !in repo && '/' !in repo
    ensures OriginRepoPath(prefix + user + "/" + repo + ".git", escaped) == Ok(user + "/" + repo)
  {
    RepoPathOf(prefix, user, repo, ".git", escaped);
  }

  /** A repository name ending in any character followed by `git` loses
      those four characters to the unescaped `.git`. */
  lemma RepoPathDropsGitLike(prefix: string, user: string, repo: string, c: char)
    requires prefix == HttpsPrefix || prefix == SshPrefix
    requires user != [] && repo != [] && '\n' !in user && '\n' !in repo && '/' !in repo
    requires c != '\n' && c != '/'
    ensures OriginRepoPath(prefix + user + "/" + repo + ([c] + "git"), false) == Ok(user + "/" + repo)
  {
    var g := [c] + "git";
    assert g[0] == c && g[1] == 'g' && g[2] == 'i' && g[3] == 't';
    assert Fits(g, ".git", false);
    RepoPathOf(prefix, user, repo, g, false);
  }

  /** With the dots escaped, only a real `.git` is removed. */
  lemma EscapedKeepsGitLike(prefix: string, user: string, repo: string, c: char)
    requires prefix == HttpsPrefix || prefix == SshPrefix
    requires user != [] && repo != [] && '\n' !in user && '\n' !in repo && '/' !in repo
    requires c != '\n' && c != '/' && c != '.'
    ensures OriginRepoPath(prefix + user + "/" + (repo + [c] + "git"), true) == Ok(user + "/" + (repo + [c] + "git"))
  {
    var name := repo + [c] + "git";
    var tl := name[|name| - 4..];
    assert tl[0] == c && ".git"[0] == '.';
    assert !Fits(tl, ".git", true);
    forall i | 0 <= i < |name| ensures name[i] != '/' && name[i] != '\n' {
      if i < |repo| {
        assert name[i] == repo[i];
      } else if i > |repo| {
        assert name[i] == "git"[i - |repo| - 1];
      }
    }
    RepoPathOf(prefix, user, name, [], true);
    assert prefix + user + "/" + name + [] == prefix + user + "/" + name;
  }

  /** `https://github.com/octocat/legit`: the pattern as written yields
      `octocat/l`; with escaped dots it yields `octocat/legit`. */
  lemma LegitRemote()
    ensures OriginRepoPath(HttpsPrefix + "octocat" + "/" + "l" + ("e" + "git"), false) == Ok("octocat" + "/" + "l")
    ensures OriginRepoPath(HttpsPrefix + "octocat" + "/" + ("l" + "e" + "git"), true) == Ok("octocat" + "/" + ("l" + "e" + "git"))
  {
    RepoPathDropsGitLike(HttpsPrefix, "octocat", "l", 'e');
    EscapedKeepsGitLike(HttpsPrefix, "octocat", "l", 'e');
  }

  /** What `git remote get-url origin` prints for a GitHub checkout yields
      the repository's `user/repo` path. */
  lemma GitHubRepoPathOf(prefix: string, user: string, repo: string, g: string, escaped: bool)
    requires prefix == HttpsPrefix || prefix == SshPrefix
    requires user != [] && repo != [] && '\n' !in user && '\n' !in repo && '/' !in repo
    requires (g == [] && !GitTail(repo, escaped) && !IsSpace(repo[|repo| - 1])) || g == ".git"
    ensures GitHubRepoPath(prefix + user + "/" + repo + g + "\n", escaped) == Ok(user + "/" + repo)
  {
    var url := prefix + user + "/" + repo + g;
    assert Strip(url + "\n") == url by {
      UrlEdges(prefix, user, repo, g);
      StripLine(url);
    }
    if g == ".git" {
      DotGitFits(escaped);
    }
    RepoPathOf(prefix, user, repo, g, escaped);
  }

  lemma DotGitFits(escaped: bool)
    ensures Fits(".git", ".git", escaped) && '/' !in ".git"
  {
  }

  /** Such a URL neither starts nor ends with whitespace. */
  lemma UrlEdges(prefix: string, user: string, repo: string, g: string)
    requires prefix == HttpsPrefix || prefix == SshPrefix
    requires repo != [] && ((g == [] && !IsSpace(repo[|repo| - 1])) || g == ".git")
    ensures var url := prefix + user + "/" + repo + g;
      url != [] && !IsSpace(url[0]) && !IsSpace(url[|url| - 1])
  {
    var url := prefix + user + "/" + repo + g;
    assert url[0] == prefix[0];
    assert url[|url| - 1] == if g == [] then repo[|repo| - 1] else 't';
  }

  // ---------------------------------------------------------------------
  // Logging in: `login` (lines 60-74) and `parse_repo_path` (lines 77-84)

  /** An authenticated API session. */
  datatype Session = TokenSession(token: string) | PasswordSession(user: string, password: string)

  /** The options `login` looks at; `password` is what the prompt of
      line 68 reads, asked for only when the user option decides. */
  datatype LoginOptions = LoginOptions(
    accessToken: Option<string>, user: Option<string>,
    repo: Option<string>, aptRepo: Option<string>)

  /** `github3.login`: a session when the token is non-empty, or when
      both the user name and the password are; no session otherwise. */
  function LibraryLogin(user: string, password: string, token: string): (r: Option<Session>)
    ensures r.Some? <==> token != [] || (user != [] && password != [])
    ensures token != [] ==> r == Some(TokenSession(token))
    ensures token == [] && r.Some? ==> r == Some(PasswordSession(user, password))
  {
    if token != [] then Some(TokenSession(token))
    else if user != [] && password != [] then Some(PasswordSession(user, password))
    else None
  }

  /** The credential `login` hands to the library is empty: the token
      option given as `""`, or the user option with an empty user name or
      password. */
  predicate EmptyCredential(args: LoginOptions, password: string) {
    match args.accessToken
    case Some(t) => t == []
    case None => args.user.Some? && (args.user.value == [] || password == [])
  }

  /** `login(args)`: a session, no session, or the usage error of lines
      71-73. */
  function Login(args: LoginOptions, password: string): (r: Result<Option<Session>, Error>)
    ensures args.accessToken.Some? ==> r == Ok(LibraryLogin("", "", args.accessToken.value))
    ensures args.accessToken.None? && args.user.Some? ==> r == Ok(LibraryLogin(args.user.value, password, ""))
    ensures r.Err? <==> args.accessToken.None? && args.user.None? && (args.repo.Some? || args.aptRepo.Some?)
    ensures r.Err? ==> r.error == MissingCredentials
    ensures r == Ok(None) <==>
      || EmptyCredential(args, password)
      || (args.accessToken.None? && args.user.None? && args.repo.None? && args.aptRepo.None?)
  {
    if args.accessToken.Some? then Ok(LibraryLogin("", "", args.accessToken.value))
    else if args.user.Some? then Ok(LibraryLogin(args.user.value, password, ""))
    else if args.repo.Some? || args.aptRepo.Some? then Err(MissingCredentials)
    else Ok(None)
  }

  /** Whenever a repository option is given, `login` stops with the usage
      error when no credential option is given, and otherwise yields a
      session unless the credential is empty, in which case it quietly
      yields none. */
  lemma RepoNeedsSession(args: LoginOptions, password: string)
    requires args.repo.Some? || args.aptRepo.Some?
    ensures Login(args, password).Err? <==> args.accessToken.None? && args.user.None?
    ensures Login(args, password).Err? ==> Login(args, password).error == MissingCredentials
    ensures Login(args, password) == Ok(None) <==> EmptyCredential(args, password)
    ensures Login(args, password).Ok? && !EmptyCredential(args, password) ==> Login(args, password).value.Some?
  {
  }

  /** A repository handle: `api.repository(owner, name)`. */
  datatype RepoRef = RepoRef(session: Session, owner: string, name: string)

  /** `parse_repo_path(api, repo_path)` */
  function ParseRepoPath(api: Option<Session>, path: Option<string>): (r: Result<Option<RepoRef>, Error>)
    ensures api.None? || path.None? ==> r == Ok(None)
    ensures api.Some? && path.Some? ==> (r.Err? <==> '/' !in path.value)
    ensures r.Err? ==> r == Err(NotEnoughValues(path.value))
    ensures r.Ok? && r.value.Some? ==>
      && api == Some(r.value.value.session)
      && path == Some(r.value.value.owner + "/" + r.value.value.name)
      && '/' !in r.value.value.owner
  {
    if api.None? || path.None? then Ok(None)
    else match SplitOnce(path.value, '/')
      case None => Err(NotEnoughValues(path.value))
      case Some((owner, name)) => Ok(Some(RepoRef(api.value, owner, name)))
  }

  /** Only the first `/` separates the owner: `owner/name` is parsed back
      into its parts even when `name` has further slashes. */
  lemma ParseRepoPathOf(api: Session, owner: string, name: string)
    requires '/' !in owner
    ensures ParseRepoPath(Some(api), Some(owner + "/" + name)) == Ok(Some(RepoRef(api, owner, name)))
  {
    SplitOnceJoined(owner, '/', name);
    assert owner + "/" + name == owner + ['/'] + name;
  }

  // ---------------------------------------------------------------------
  // `download_release_debs` (lines 87-116)

  /** A release asset: its file name and where to download it from. */
  datatype Asset = Asset(name: string, downloadUrl: string)

  function Lower(c: char): char {
    if 'A' <= c <= 'Z' then (c as int + 32) as char else c
  }

  /** `s.lower()` on ASCII letters. */
  function LowerAscii(s: string): (r: string)
    ensures |r| == |s| && forall i :: 0 <= i < |s| ==> r[i] == Lower(s[i])
  {
    seq(|s|, i requires 0 <= i < |s| => Lower(s[i]))
  }

  /** Line 101: the extension, lower-cased, is `.deb`. */
  predicate IsDebAsset(name: string) {
    LowerAscii(SplitExt(name).1) == ".deb"
  }

  /** The assets the loop keeps, in their order. */
  function DebAssets(assets: seq<Asset>): (kept: seq<Asset>)
    ensures |kept| <= |assets|
  {
    if assets == [] then []
    else
      var a := assets[|assets| - 1];
      var rest := DebAssets(assets[..|assets| - 1]);
      assert assets == assets[..|assets| - 1] + [a];
      if IsDebAsset(a.name) then rest + [a] else rest
  }

  /** The loop keeps exactly the `*.deb` assets. */
  lemma {:induction false} DebAssetsMembers(assets: seq<Asset>)
    ensures forall a :: a in DebAssets(assets) <==> a in assets && IsDebAsset(a.name)
    decreases |assets|
  {
    if assets != [] {
      var front := assets[..|assets| - 1];
      DebAssetsMembers(front);
      assert assets == front + [assets[|assets| - 1]];
    }
  }

  /** Keeping the `*.deb` assets of a listing in two parts is keeping them
      in each part: the filter keeps the order of the release's listing. */
  lemma {:induction false} DebAssetsAppend(a: seq<Asset>, b: seq<Asset>)
    ensures DebAssets(a + b) == DebAssets(a) + DebAssets(b)
    decreases |b|
  {
    if b == [] {
      assert a + b == a;
    } else {
      var b', x := b[..|b| - 1], b[|b| - 1];
      AppendSplitLast(a, b);
      DebAssetsLast(a + b', x);
      DebAssetsLast(b', x);
      DebAssetsAppend(a, b');
      var tail := if IsDebAsset(x.name) then [x] else [];
      assert DebAssets(a + b) == DebAssets(a + b') + tail;
      assert DebAssets(b) == DebAssets(b') + tail;
      AppendAssoc(DebAssets(a), DebAssets(b'), tail);
    }
  }

  /** Splitting off the last element of the second part. */
  lemma AppendSplitLast(a: seq<Asset>, b: seq<Asset>)
    requires b != []
    ensures a + b == (a + b[..|b| - 1]) + [b[|b| - 1]]
    ensures b == b[..|b| - 1] + [b[|b| - 1]]
  {
  }

  /** Which names count as `*.deb` assets: for a name without `/`, the
      last four characters are `.deb` in any letter case and some earlier
      character is not a dot (`.deb` alone and `..deb` have no extension). */
  lemma DebAssetName(name: string)
    requires '/' !in name
    ensures IsDebAsset(name) <==>
      |name| > 4 && LowerAscii(name[|name| - 4..]) == ".deb" && HasNonDotBefore(name, |name| - 4)
  {
    if IsDebAsset(name) {
      DebAssetTail(name);
    }
    if |name| > 4 && LowerAscii(name[|name| - 4..]) == ".deb" && HasNonDotBefore(name, |name| - 4) {
      TailDebAsset(name);
    }
  }

  lemma DebAssetTail(name: string)
    requires '/' !in name && IsDebAsset(name)
    ensures |name| > 4 && LowerAscii(name[|name| - 4..]) == ".deb" && HasNonDotBefore(name, |name| - 4)
  {
    assert BaseStart(name) == 0;
    assert name[0..] == name;
    var ext := SplitExt(name).1;
    assert |ext| == 4 && ext == name[|name| - 4..];
    var d :| LastIndexOf(name, '.') == Some(d);
    assert d == |name| - 4;
  }

  lemma TailDebAsset(name: string)
    requires '/' !in name
    requires |name| > 4 && LowerAscii(name[|name| - 4..]) == ".deb" && HasNonDotBefore(name, |name| - 4)
    ensures IsDebAsset(name)
  {
    assert BaseStart(name) == 0;
    assert name[0..] == name;
    var k := |name| - 4;
    var ext := name[k..];
    assert LowerAscii(ext)[0] == Lower(ext[0]) == '.';
    assert LowerAscii(ext)[1] == Lower(ext[1]) == 'd';
    assert LowerAscii(ext)[2] == Lower(ext[2]) == 'e';
    assert LowerAscii(ext)[3] == Lower(ext[3]) == 'b';
    forall j | k < j < |name| ensures name[j] != '.' {
      assert name[j] == ext[j - k];
    }
    LastIndexIs(name, '.', k);
    assert SplitExt(name).1 == ext;
  }

  /** A `*.DEB` asset is downloaded but `*.deb` does not list it, so the
      grouping never sees it. */
  lemma UpperCaseDebNotGlobbed(root: string)
    requires root != [] && '/' !in root && root[0] != '.'
    ensures IsDebAsset(root + ".DEB") && !MatchesDebGlob(root + ".DEB")
  {
    var n := root + ".DEB";
    var k := |n| - 4;
    assert n[k..] == ".DEB";
    assert n[k + 1] == 'D';
    var low := LowerAscii(n[k..]);
    assert low[0] == '.' && low[1] == 'd' && low[2] == 'e' && low[3] == 'b';
    assert low == ".deb";
    assert n[0] == root[0];
    TailDebAsset(n);
  }

  /** Neither does the grouping see a hidden `.x.deb` that was downloaded. */
  lemma HiddenDebNotGlobbed(root: string)
    requires root != [] && '/' !in root && root[0] != '.'
    ensures IsDebAsset("." + root + ".deb") && !MatchesDebGlob("." + root + ".deb")
  {
    var n := "." + root + ".deb";
    var k := |n| - 4;
    assert n[k..] == ".deb";
    var low := LowerAscii(n[k..]);
    assert low[0] == '.' && low[1] == 'd' && low[2] == 'e' && low[3] == 'b';
    assert low == ".deb";
    assert n[1] == root[0];
    TailDebAsset(n);
  }

  /** One iteration of the loop in the tree: the asset `a` is downloaded
      into `dir` as a new file when it is a `*.deb` file and no entry of
      its name exists there. */
  function FetchOne(t: Tree, next: Inode, dir: string, a: Asset): (r: (Tree, Inode))
    requires dir in t
    ensures r.0.Keys == t.Keys && next <= r.1
    ensures forall d :: d in t && d != dir ==> r.0[d] == t[d]
    ensures forall m :: m in t[dir] ==> m in r.0[dir] && r.0[dir][m] == t[dir][m]
  {
    if IsDebAsset(a.name) && a.name !in t[dir] then
      AddEntryKeeps(t, dir, a.name, next);
      (AddEntry(t, dir, a.name, next), next + 1)
    else (t, next)
  }

  /** The tree after the loop has downloaded, in order, each `*.deb` asset
      whose name is not an entry of `dir` yet. */
  function Fetched(t: Tree, next: Inode, dir: string, assets: seq<Asset>): (r: (Tree, Inode))
    requires dir in t
    ensures r.0.Keys == t.Keys && next <= r.1
    ensures forall d :: d in t && d != dir ==> r.0[d] == t[d]
    decreases |assets|
  {
    if assets == [] then (t, next)
    else
      var before := Fetched(t, next, dir, assets[..|assets| - 1]);
      FetchOne(before.0, before.1, dir, assets[|assets| - 1])
  }

  lemma FetchedLast(t: Tree, next: Inode, dir: string, front: seq<Asset>, a: Asset)
    requires dir in t
    ensures var before := Fetched(t, next, dir, front);
      Fetched(t, next, dir, front + [a]) == FetchOne(before.0, before.1, dir, a)
  {
    assert (front + [a])[..|front + [a]| - 1] == front;
  }

  /** Afterwards every `*.deb` asset has an entry in `dir`. */
  lemma {:induction false} FetchedHasAll(t: Tree, next: Inode, dir: string, assets: seq<Asset>, i: nat)
    requires dir in t && i < |assets| && IsDebAsset(assets[i].name)
    ensures assets[i].name in Fetched(t, next, dir, assets).0[dir]
    decreases |assets|
  {
    var front := assets[..|assets| - 1];
    if i < |assets| - 1 {
      FetchedHasAll(t, next, dir, front, i);
      assert front[i] == assets[i];
    }
  }

  /** Entries that were there before are kept as they are: content is
      trusted once a file of the name exists. */
  lemma {:induction false} FetchedKeeps(t: Tree, next: Inode, dir: string, assets: seq<Asset>, m: string)
    requires dir in t && m in t[dir]
    ensures m in Fetched(t, next, dir, assets).0[dir]
    ensures Fetched(t, next, dir, assets).0[dir][m] == t[dir][m]
    decreases |assets|
  {
    if assets != [] {
      FetchedKeeps(t, next, dir, assets[..|assets| - 1], m);
    }
  }

  /** A new entry is a `*.deb` asset's name and a new file. */
  lemma {:induction false} FetchedOnlyDebs(t: Tree, next: Inode, dir: string, assets: seq<Asset>, m: string)
    requires dir in t
    requires m in Fetched(t, next, dir, assets).0[dir] && m !in t[dir]
    ensures exists i :: 0 <= i < |assets| && assets[i].name == m && IsDebAsset(m)
    ensures next <= Fetched(t, next, dir, assets).0[dir][m]
    decreases |assets|
  {
    var front := assets[..|assets| - 1];
    var a := assets[|assets| - 1];
    var before := Fetched(t, next, dir, front);
    var after := FetchOne(before.0, before.1, dir, a);
    assert Fetched(t, next, dir, assets) == after;
    if m in before.0[dir] {
      FetchedOnlyDebs(t, next, dir, front, m);
      var i :| 0 <= i < |front| && front[i].name == m && IsDebAsset(m);
      FrontAt(assets, i);
      assert after.0[dir][m] == before.0[dir][m];
    } else {
      assert a.name == m && IsDebAsset(m) && after.0[dir][m] == before.1;
      assert assets[|assets| - 1].name == m;
    }
  }

  /** When every `*.deb` asset is present, nothing is downloaded. */
  lemma {:induction false} FetchedNothingNew(t: Tree, next: Inode, dir: string, assets: seq<Asset>)
    requires dir in t
    requires forall i :: 0 <= i < |assets| && IsDebAsset(assets[i].name) ==> assets[i].name in t[dir]
    ensures Fetched(t, next, dir, assets) == (t, next)
    decreases |assets|
  {
    if assets != [] {
      var front := assets[..|assets| - 1];
      forall i | 0 <= i < |front| && IsDebAsset(front[i].name) ensures front[i].name in t[dir] {
        assert front[i] == assets[i];
      }
      FetchedNothingNew(t, next, dir, front);
    }
  }

  /** A second run over the same release downloads nothing. */
  lemma FetchedIdempotent(t: Tree, next: Inode, dir: string, assets: seq<Asset>)
    requires dir in t
    ensures var (t', next') := Fetched(t, next, dir, assets);
      Fetched(t', next', dir, assets) == (t', next')
  {
    var (t', next') := Fetched(t, next, dir, assets);
    forall i | 0 <= i < |assets| && IsDebAsset(assets[i].name) ensures assets[i].name in t'[dir] {
      FetchedHasAll(t, next, dir, assets, i);
    }
    FetchedNothingNew(t', next', dir, assets);
  }

  /** What `download_release_debs` returns: the kept assets, or the
      `IOError` of the first download into a missing directory. */
  function DownloadResult(t: Tree, dir: string, assets: seq<Asset>): Result<seq<Asset>, Error> {
    if dir !in t && DebAssets(assets) != [] then Err(NoSuchDirectory(dir)) else Ok(DebAssets(assets))
  }

  lemma DebAssetsLast(front: seq<Asset>, a: Asset)
    ensures DebAssets(front + [a]) == if IsDebAsset(a.name) then DebAssets(front) + [a] else DebAssets(front)
  {
    assert (front + [a])[..|front + [a]| - 1] == front;
  }

  /** Lines 100-112 for one asset: skip it unless it is a `*.deb` file,
      reuse an existing file of its name, download it otherwise; `false`
      when the download fails for want of the directory. */
  method FetchAsset(fs: FileSystem, debDir: string, asset: Asset) returns (ok: bool)
    requires fs.Valid() && IsEntryName(asset.name)
    modifies fs
    ensures fs.Valid()
    ensures ok <==> debDir in old(fs.dirs) || !IsDebAsset(asset.name)
    ensures ok && debDir in old(fs.dirs) ==>
      (fs.dirs, fs.nextInode) == FetchOne(old(fs.dirs), old(fs.nextInode), debDir, asset)
    ensures !(ok && debDir in old(fs.dirs)) ==> fs.dirs == old(fs.dirs) && fs.nextInode == old(fs.nextInode)
  {
    var (root, ext) := SplitExt(asset.name);
    if LowerAscii(ext) != ".deb" {
      return true;
    }
    var present := fs.Exists(debDir, asset.name);
    ok := true;
    if !present {
      ok := fs.Retrieve(debDir, asset.name);
    }
  }

  /** What one iteration of the download loop has to achieve. */
  lemma DownloadStep(t: Tree, next: Inode, dir: string, assets: seq<Asset>, i: nat)
    requires i < |assets|
    ensures DebAssets(assets[..i + 1]) ==
      if IsDebAsset(assets[i].name) then DebAssets(assets[..i]) + [assets[i]] else DebAssets(assets[..i])
    ensures dir in t ==> var before := Fetched(t, next, dir, assets[..i]);
      Fetched(t, next, dir, assets[..i + 1]) == FetchOne(before.0, before.1, dir, assets[i])
  {
    assert assets[..i + 1] == assets[..i] + [assets[i]];
    DebAssetsLast(assets[..i], assets[i]);
    if dir in t {
      FetchedLast(t, next, dir, assets[..i], assets[i]);
    }
  }

  /** A `*.deb` asset is kept, so there is something to download. */
  lemma DebAssetKept(assets: seq<Asset>, i: nat)
    requires i < |assets| && IsDebAsset(assets[i].name)
    ensures DebAssets(assets) != []
  {
    DebAssetsMembers(assets);
    assert assets[i] in assets;
  }

  /** Lines 98-116, for the assets of the chosen release. */
  method DownloadReleaseDebs(fs: FileSystem, assets: seq<Asset>, debDir: string) returns (r: Result<seq<Asset>, Error>)
    requires fs.Valid() && forall i :: 0 <= i < |assets| ==> IsEntryName(assets[i].name)
    modifies fs
    ensures fs.Valid()
    ensures r == DownloadResult(old(fs.dirs), debDir, assets)
    ensures debDir in old(fs.dirs) ==>
      (fs.dirs, fs.nextInode) == Fetched(old(fs.dirs), old(fs.nextInode), debDir, assets)
    ensures debDir !in old(fs.dirs) ==> fs.dirs == old(fs.dirs) && fs.nextInode == old(fs.nextInode)
  {
    ghost var t, next := fs.dirs, fs.nextInode;
    var kept: seq<Asset> := [];
    for i := 0 to |assets|
      invariant fs.Valid()
      invariant kept == DebAssets(assets[..i])
      invariant debDir in t ==> (fs.dirs, fs.nextInode) == Fetched(t, next, debDir, assets[..i])
      invariant debDir !in t ==> fs.dirs == t && fs.nextInode == next && kept == []
    {
      var asset := assets[i];
      DownloadStep(t, next, debDir, assets, i);
      var ok := FetchAsset(fs, debDir, asset);
      if !ok {
        DebAssetKept(assets, i);
        r := Err(NoSuchDirectory(debDir));
        return;
      }
      if IsDebAsset(asset.name) {
        kept := kept + [asset];
      }
    }
    assert assets[..|assets|] == assets;
    r := Ok(kept);
  }

  // ---------------------------------------------------------------------
  // Release tags (lines 138-140)

  /** `s.replace('/', '-')` */
  function Dashed(s: string): (r: string)
    ensures |r| == |s| && '/' !in r
    ensures forall i :: 0 <= i < |s| ==> r[i] == if s[i] == '/' then '-' else s[i]
  {
    seq(|s|, i requires 0 <= i < |s| => if s[i] == '/' then '-' else s[i])
  }

  /** `os.path.relpath(path, start)` for a `path` below `start`: what
      follows the directory prefix, without a leading `.` component, which
      the normalisation in `relpath` removes. */
  function RelPathBelow(path: string, start: string): string
    requires StartsWith(path, DirPrefix(start))
  {
    var rel := path[|DirPrefix(start)|..];
    if StartsWith(rel, "./") then rel[2..] else rel
  }

  /** The path of a group directory relative to `apt_dir` as `relpath`
      gives it: the distribution `.` names `apt_dir` itself. */
  function RelGroupPath(dist: Option<string>, arch: string): string {
    if dist == Some(".") then arch else Repo.GroupPath(dist, arch)
  }

  /** The tag of the release a group directory's repository goes to:
      `apt-` and the directory's path relative to `apt_dir` with each `/`
      made a `-`. */
  function ReleaseTag(distArch: string): (tag: string)
    ensures '/' !in tag && StartsWith(tag, "apt-") && |tag| == |distArch| + 4
  {
    var tag := "apt-" + Dashed(distArch);
    assert tag[..4] == "apt-";
    tag
  }

  /** The tag of the group directory of `(dist, arch)`. */
  function GroupTag(dist: Option<string>, arch: string): string {
    ReleaseTag(RelGroupPath(dist, arch))
  }

  lemma DashedPlain(s: string)
    requires '/' !in s
    ensures Dashed(s) == s
  {
  }

  lemma DashedJoined(d: string, arch: string)
    requires '/' !in d && '/' !in arch
    ensures Dashed(d + "/" + arch) == d + "-" + arch
  {
    var s := d + "/" + arch;
    forall i | 0 <= i < |s| ensures Dashed(s)[i] == (d + "-" + arch)[i] {
      if i < |d| {
        assert s[i] == d[i];
      } else if i > |d| {
        assert s[i] == arch[i - |d| - 1];
      }
    }
  }

  /** A group directory below `apt_dir` gets the tag `apt-arch` or
      `apt-dist-arch`; the distribution `.` gets `apt-arch`. */
  lemma GroupDirTag(aptDir: string, dist: Option<string>, arch: string)
    requires IsEntryName(arch) && (dist.Some? ==> IsEntryName(dist.value))
    ensures StartsWith(Repo.GroupDir(aptDir, dist, arch), DirPrefix(aptDir))
    ensures ReleaseTag(RelPathBelow(Repo.GroupDir(aptDir, dist, arch), aptDir)) ==
      match dist
      case None => "apt-" + arch
      case Some(d) => if d == "." then "apt-" + arch else "apt-" + d + "-" + arch
  {
    GroupDirBelow(aptDir, dist, arch);
    match dist
    case None => PlainTag(arch);
    case Some(d) =>
      if d == "." {
        DotDistTag(arch);
      } else {
        DistTag(d, arch);
      }
  }

  /** The path of a group directory relative to `apt_dir` is its group
      path, without the component `.` of the distribution `.`. */
  lemma GroupDirBelow(aptDir: string, dist: Option<string>, arch: string)
    requires IsEntryName(arch) && (dist.Some? ==> IsEntryName(dist.value))
    ensures StartsWith(Repo.GroupDir(aptDir, dist, arch), DirPrefix(aptDir))
    ensures RelPathBelow(Repo.GroupDir(aptDir, dist, arch), aptDir) == RelGroupPath(dist, arch)
  {
    Repo.GroupDirUnder(aptDir, dist, arch);
    var pre, rel := DirPrefix(aptDir), Repo.GroupPath(dist, arch);
    assert (pre + rel)[..|pre|] == pre && (pre + rel)[|pre|..] == rel;
    GroupPathDot(dist, arch);
  }

  /** A group path starts with the component `.` only for the
      distribution `.`. */
  lemma GroupPathDot(dist: Option<string>, arch: string)
    requires IsEntryName(arch) && (dist.Some? ==> IsEntryName(dist.value))
    ensures StartsWith(Repo.GroupPath(dist, arch), "./") <==> dist == Some(".")
    ensures dist == Some(".") ==> Repo.GroupPath(dist, arch)[2..] == arch
  {
    var rel := Repo.GroupPath(dist, arch);
    match dist
    case None =>
      if |rel| >= 2 {
        assert rel[1] != '/';
      }
    case Some(d) =>
      assert rel[..|d|] == d && rel[|d|] == '/';
      if d == "." {
        assert rel[..2] == "./" && rel[2..] == arch;
      } else if |d| >= 2 {
        assert rel[1] == d[1] != '/';
      } else {
        assert rel[0] == d[0] != '.';
      }
  }

  lemma PlainTag(arch: string)
    requires IsEntryName(arch)
    ensures GroupTag(None, arch) == "apt-" + arch
  {
    DashedPlain(arch);
  }

  /** The distribution `.` shares the tag of the group without a
      distribution, although its directory path differs. */
  lemma DotDistTag(arch: string)
    requires IsEntryName(arch)
    ensures Repo.GroupPath(Some("."), arch) != Repo.GroupPath(None, arch)
    ensures GroupTag(Some("."), arch) == GroupTag(None, arch) == "apt-" + arch
  {
    assert |Repo.GroupPath(Some("."), arch)| == |arch| + 2;
    DashedPlain(arch);
  }

  lemma DistTag(d: string, arch: string)
    requires IsEntryName(d) && d != "." && IsEntryName(arch)
    ensures GroupTag(Some(d), arch) == "apt-" + d + "-" + arch
  {
    DashedJoined(d, arch);
    assert "apt-" + (d + "-" + arch) == "apt-" + d + "-" + arch;
  }

  /** Different groups can share a tag: distribution `d-a` with
      architecture `b` and distribution `d` with architecture `a-b` both
      get `apt-d-a-b`, so their repositories go to the same release. */
  lemma TagsCollide(d: string, a: string, b: string)
    requires IsEntryName(d) && d != "." && IsEntryName(a) && IsEntryName(b)
    ensures Repo.GroupPath(Some(d + "-" + a), b) != Repo.GroupPath(Some(d), a + "-" + b)
    ensures GroupTag(Some(d + "-" + a), b) == GroupTag(Some(d), a + "-" + b)
  {
    assert (d + "-" + a + "/" + b)[|d|] == '-';
    assert (d + "/" + (a + "-" + b))[|d|] == '/';
    assert '/' !in d + "-" + a by {
      forall i | 0 <= i < |d + "-" + a| ensures (d + "-" + a)[i] != '/' {
        if i < |d| { assert (d + "-" + a)[i] == d[i]; }
        else if i > |d| { assert (d + "-" + a)[i] == a[i - |d| - 1]; }
      }
    }
    assert '/' !in a + "-" + b by {
      forall i | 0 <= i < |a + "-" + b| ensures (a + "-" + b)[i] != '/' {
        if i < |a| { assert (a + "-" + b)[i] == a[i]; }
        else if i > |a| { assert (a + "-" + b)[i] == b[i - |a| - 1]; }
      }
    }
    DashedJoined(d + "-" + a, b);
    DashedJoined(d, a + "-" + b);
    assert d + "-" + a + "-" + b == d + "-" + (a + "-" + b);
  }

  /** The text of a tag after `apt-`. */
  function TagBody(dist: Option<string>, arch: string): string {
    match dist
    case None => arch
    case Some(d) => if d == "." then arch else d + "-" + arch
  }

  lemma GroupTagBody(dist: Option<string>, arch: string)
    requires IsEntryName(arch) && (dist.Some? ==> IsEntryName(dist.value))
    ensures GroupTag(dist, arch) == "apt-" + TagBody(dist, arch)
  {
    match dist
    case None => DashedPlain(arch);
    case Some(d) =>
      if d == "." {
        DashedPlain(arch);
      } else {
        DashedJoined(d, arch);
      }
  }

  /** When no architecture has a `-`, the tag identifies the group: the
      last `-` of the tag body separates distribution and architecture. */
  lemma GroupTagInjective(dist1: Option<string>, arch1: string, dist2: Option<string>, arch2: string)
    requires IsEntryName(arch1) && (dist1.Some? ==> IsEntryName(dist1.value)) && '-' !in arch1
    requires IsEntryName(arch2) && (dist2.Some? ==> IsEntryName(dist2.value)) && '-' !in arch2
    requires dist1 != Some(".") && dist2 != Some(".")
    ensures GroupTag(dist1, arch1) == GroupTag(dist2, arch2) <==> dist1 == dist2 && arch1 == arch2
  {
    GroupTagBody(dist1, arch1);
    GroupTagBody(dist2, arch2);
    if GroupTag(dist1, arch1) == GroupTag(dist2, arch2) {
      var b1, b2 := TagBody(dist1, arch1), TagBody(dist2, arch2);
      assert b1 == GroupTag(dist1, arch1)[4..] == b2;
      TagBodySplit(dist1, arch1);
      TagBodySplit(dist2, arch2);
    }
  }

  /** Where the last `-` of a tag body is, and what is on either side. */
  lemma TagBodySplit(dist: Option<string>, arch: string)
    requires dist.Some? ==> IsEntryName(dist.value) && dist.value != "."
    requires '-' !in arch
    ensures var b := TagBody(dist, arch);
      match dist
      case None => LastIndexOf(b, '-') == None && b == arch
      case Some(d) => LastIndexOf(b, '-') == Some(|d|) && b[..|d|] == d && b[|d| + 1..] == arch
  {
    var b := TagBody(dist, arch);
    match dist
    case None =>
    case Some(d) =>
      assert b[|d|] == '-';
      forall j | |d| < j < |b| ensures b[j] != '-' {
        assert b[j] == arch[j - |d| - 1];
      }
      LastIndexIs(b, '-', |d|);
      assert b[..|d|] == d && b[|d| + 1..] == arch;
  }

  // ---------------------------------------------------------------------
  // Content types for uploads (lines 25-31, 197-202)

  /** `APT_EXTENSIONS`: the extension whose content type stands in for a
      repository file without one. */
  const AptExtensions: map<string, string> :=
    map["Packages" := ".txt", "Release" := ".txt", "InRelease" := ".sig", "apt-add-repo" := ".sh"]

  /** The name guessed from when the name itself gives no content type. */
  function FallbackName(name: string): (r: string)
    ensures name in AptExtensions ==> r == name + AptExtensions[name]
    ensures name !in AptExtensions ==> r == name + ".txt"
  {
    name + if name in AptExtensions then AptExtensions[name] else ".txt"
  }

  /** The content type an asset is uploaded with, given the
      `mimetypes.guess_type` of the installation as `guess`. */
  function ContentType(name: string, guess: string -> Option<string>): (r: Option<string>)
    ensures guess(name).Some? ==> r == guess(name)
    ensures guess(name).None? ==> r == guess(FallbackName(name))
  {
    if guess(name).Some? then guess(name) else guess(FallbackName(name))
  }

  /** A guesser that knows the extensions `.txt`, `.sig` and `.sh`. */
  ghost predicate KnowsFallbacks(guess: string -> Option<string>) {
    forall n :: EndsWith(n, ".txt") || EndsWith(n, ".sig") || EndsWith(n, ".sh") ==> guess(n).Some?
  }

  /** With such a guesser every asset gets a content type. */
  lemma AlwaysTyped(name: string, guess: string -> Option<string>)
    requires KnowsFallbacks(guess)
    ensures ContentType(name, guess).Some?
  {
    var f := FallbackName(name);
    var ext := f[|name|..];
    assert f == name + ext;
    assert ext == ".txt" || ext == ".sig" || ext == ".sh";
    assert f[|f| - |ext|..] == ext;
  }

  // ---------------------------------------------------------------------
  // Replacing the assets of a release (lines 186-209)

  /** A change the loop makes to a release. */
  datatype ReleaseOp = Delete(name: string) | Upload(name: string, contentType: Option<string>)

  /** A GitHub release: its assets by name, each with the number of the
      upload that created it, and the changes made so far. */
  class Release {
    var assets: map<string, nat>
    var nextUpload: nat
    var log: seq<ReleaseOp>

    ghost predicate Valid()
      reads this
    {
      forall n :: n in assets ==> assets[n] < nextUpload
    }

    constructor (assets0: map<string, nat>, next: nat)
      requires forall n :: n in assets0 ==> assets0[n] < next
      ensures Valid() && assets == assets0 && nextUpload == next && log == []
    {
      assets, nextUpload, log := assets0, next, [];
    }

    /** `asset.delete()` */
    method DeleteAsset(name: string)
      requires Valid() && name in assets
      modifies this
      ensures Valid()
      ensures assets == old(assets) - {name} && nextUpload == old(nextUpload)
      ensures log == old(log) + [Delete(name)]
    {
      assets := assets - {name};
      log := log + [Delete(name)];
    }

    /** `release.upload_asset(content_type=..., name=name, ...)`: GitHub
        refuses a second asset of the same name. */
    method UploadAsset(name: string, contentType: Option<string>)
      requires Valid() && name !in assets
      modifies this
      ensures Valid()
      ensures assets == old(assets)[name := old(nextUpload)] && nextUpload == old(nextUpload) + 1
      ensures log == old(log) + [Upload(name, contentType)]
    {
      assets := assets[name := nextUpload];
      nextUpload := nextUpload + 1;
      log := log + [Upload(name, contentType)];
    }
  }

  /** The changes for one listed file: delete the old asset of that name
      if the release had one, then upload the file. */
  function ReplaceOps(snapshot: set<string>, name: string, guess: string -> Option<string>): seq<ReleaseOp> {
    (if name in snapshot then [Delete(name)] else []) + [Upload(name, ContentType(name, guess))]
  }

  /** The changes for the files of `listing`, in order. */
  function Replacements(snapshot: set<string>, listing: seq<string>, guess: string -> Option<string>): seq<ReleaseOp>
    decreases |listing|
  {
    if listing == [] then []
    else Replacements(snapshot, listing[..|listing| - 1], guess) + ReplaceOps(snapshot, listing[|listing| - 1], guess)
  }

  /** The assets afterwards: each listed file is a new upload, numbered in
      listing order; every other asset is kept as it was. */
  function Replaced(before: map<string, nat>, next: nat, listing: seq<string>): map<string, nat>
    decreases |listing|
  {
    if listing == [] then before
    else Replaced(before, next, listing[..|listing| - 1])[listing[|listing| - 1] := next + |listing| - 1]
  }

  /** The names of the uploads among `ops`, in order. */
  function Uploads(ops: seq<ReleaseOp>): seq<string>
    decreases |ops|
  {
    if ops == [] then []
    else Uploads(ops[..|ops| - 1]) + if ops[|ops| - 1].Upload? then [ops[|ops| - 1].name] else []
  }

  lemma {:induction false} UploadsAppend(a: seq<ReleaseOp>, b: seq<ReleaseOp>)
    ensures Uploads(a + b) == Uploads(a) + Uploads(b)
    decreases |b|
  {
    if b == [] {
      assert a + b == a;
    } else {
      var b' := b[..|b| - 1];
      assert (a + b)[..|a + b| - 1] == a + b';
      UploadsAppend(a, b');
    }
  }

  /** Every listed file is uploaded exactly once, in listing order, and
      nothing else is uploaded. */
  lemma {:induction false} UploadsAreListing(snapshot: set<string>, listing: seq<string>, guess: string -> Option<string>)
    ensures Uploads(Replacements(snapshot, listing, guess)) == listing
    decreases |listing|
  {
    if listing != [] {
      var front := listing[..|listing| - 1];
      var n := listing[|listing| - 1];
      var r, ops := Replacements(snapshot, front, guess), ReplaceOps(snapshot, n, guess);
      assert Replacements(snapshot, listing, guess) == r + ops;
      assert Uploads(r + ops) == listing by {
        UploadsAreListing(snapshot, front, guess);
        UploadsAppend(r, ops);
        UploadsOfOps(snapshot, n, guess);
        FrontLast(listing);
      }
    }
  }

  /** The changes for one file upload that file and nothing else. */
  lemma UploadsOfOps(snapshot: set<string>, n: string, guess: string -> Option<string>)
    ensures Uploads(ReplaceOps(snapshot, n, guess)) == [n]
  {
    var ops := ReplaceOps(snapshot, n, guess);
    var up := Upload(n, ContentType(n, guess));
    assert Uploads([up]) == [n] by {
      assert [up][..0] == [];
    }
    if n in snapshot {
      assert ops == [Delete(n), up] && ops[..1] == [Delete(n)];
      assert Uploads([Delete(n)]) == [] by {
        assert [Delete(n)][..0] == [];
      }
    } else {
      assert ops == [up];
    }
  }

  /** An asset is deleted exactly when a listed file has its name and the
      release had it. */
  lemma {:induction false} DeletesAreCollisions(snapshot: set<string>, listing: seq<string>, guess: string -> Option<string>, n: string)
    ensures Delete(n) in Replacements(snapshot, listing, guess) <==> n in listing && n in snapshot
    decreases |listing|
  {
    if listing != [] {
      var front := listing[..|listing| - 1];
      var m := listing[|listing| - 1];
      DeletesAreCollisions(snapshot, front, guess, n);
      assert listing == front + [m];
      var ops := ReplaceOps(snapshot, m, guess);
      assert Delete(n) in ops <==> n == m && m in snapshot;
    }
  }

  /** Each delete is immediately followed by the upload of the file of the
      same name. */
  lemma {:induction false} DeleteThenUpload(snapshot: set<string>, listing: seq<string>, guess: string -> Option<string>, i: nat)
    requires i < |Replacements(snapshot, listing, guess)|
    requires Replacements(snapshot, listing, guess)[i].Delete?
    ensures var ops := Replacements(snapshot, listing, guess);
      i + 1 < |ops| && ops[i + 1] == Upload(ops[i].name, ContentType(ops[i].name, guess))
    decreases |listing|
  {
    var front := listing[..|listing| - 1];
    var m := listing[|listing| - 1];
    var ops := Replacements(snapshot, listing, guess);
    var head := Replacements(snapshot, front, guess);
    var tail := ReplaceOps(snapshot, m, guess);
    assert ops == head + tail;
    if i < |head| {
      DeleteThenUpload(snapshot, front, guess, i);
      assert ops[i] == head[i] && ops[i + 1] == head[i + 1];
    } else {
      assert ops[i] == tail[i - |head|];
      assert m in snapshot && i - |head| == 0;
    }
  }

  /** The asset replacement ends with each listed file as a new upload and
      every other asset as it was. */
  lemma {:induction false} ReplacedAssets(before: map<string, nat>, next: nat, listing: seq<string>, n: string)
    requires Distinct(listing)
    ensures n in Replaced(before, next, listing) <==> n in before || n in listing
    ensures n !in listing && n in before ==> Replaced(before, next, listing)[n] == before[n]
    ensures forall i :: 0 <= i < |listing| && listing[i] == n ==> Replaced(before, next, listing)[n] == next + i
    decreases |listing|
  {
    if listing != [] {
      var front := listing[..|listing| - 1];
      var m := listing[|listing| - 1];
      assert Distinct(front);
      ReplacedAssets(before, next, front, n);
      assert listing == front + [m];
      forall i | 0 <= i < |listing| && listing[i] == n ensures Replaced(before, next, listing)[n] == next + i {
        if i < |front| {
          assert front[i] == n && n != m;
        }
      }
    }
  }

  /** Lines 187-209 for the files `listing` of the group directory. */
  method ReplaceAssets(release: Release, listing: seq<string>, guess: string -> Option<string>)
    requires release.Valid() && Distinct(listing)
    modifies release
    ensures release.Valid()
    ensures release.assets == Replaced(old(release.assets), old(release.nextUpload), listing)
    ensures release.nextUpload == old(release.nextUpload) + |listing|
    ensures release.log == old(release.log) + Replacements(old(release.assets).Keys, listing, guess)
  {
    ghost var before, next, log0 := release.assets, release.nextUpload, release.log;
    var snapshot := release.assets.Keys;
    for i := 0 to |listing|
      invariant release.Valid()
      invariant release.assets == Replaced(before, next, listing[..i])
      invariant release.nextUpload == next + i
      invariant release.log == log0 + Replacements(snapshot, listing[..i], guess)
    {
      var name := listing[i];
      ReplaceStep(before, next, listing, i, guess);
      ghost var m, l := release.assets, release.log;
      assert log0 + Replacements(snapshot, listing[..i + 1], guess) == l + ReplaceOps(snapshot, name, guess) by {
        AppendAssoc(log0, Replacements(snapshot, listing[..i], guess), ReplaceOps(snapshot, name, guess));
      }
      if name in snapshot {
        release.DeleteAsset(name);
        assert release.assets == m - {name} && release.log == l + [Delete(name)];
      }
      var contentType := ContentType(name, guess);
      release.UploadAsset(name, contentType);
      assert release.assets == (if name in before then m - {name} else m)[name := next + i];
      assert release.log == l + ReplaceOps(snapshot, name, guess);
    }
    assert listing[..|listing|] == listing;
  }

  /** What one iteration of the replacement loop has to achieve. */
  lemma ReplaceStep(before: map<string, nat>, next: nat, listing: seq<string>, i: nat, guess: string -> Option<string>)
    requires Distinct(listing) && i < |listing|
    ensures var m, n := Replaced(before, next, listing[..i]), listing[i];
      && (n in m <==> n in before)
      && Replaced(before, next, listing[..i + 1]) == (if n in before then m - {n} else m)[n := next + i]
    ensures Replacements(before.Keys, listing[..i + 1], guess) ==
      Replacements(before.Keys, listing[..i], guess) + ReplaceOps(before.Keys, listing[i], guess)
  {
    var front, n := listing[..i], listing[i];
    assert listing[..i + 1] == front + [n];
    assert listing[..i + 1][..i] == front;
    assert Distinct(front) && n !in front;
    ReplacedAssets(before, next, front, n);
    var m := Replaced(before, next, front);
    if n in before {
      assert (m - {n})[n := next + i] == m[n := next + i];
    }
  }
}
