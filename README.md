# github-apt-repos, modelled in Dafny

`github-apt-repos` turns the `*.deb` files attached to a GitHub release into
Debian/Ubuntu APT repositories, one per distribution and architecture, and
uploads each repository as the assets of a GitHub release of its own. This
project models the decisions the program makes around the tools and
services it calls. It proves what those decisions guarantee.

- **Distribution and architecture of a package** (`repo.py`). The file base
  name is matched against the template
  `{package}([-_\.](?P<dist>.+)|)_{version}_{arch}`, filled with the
  package's control fields. Module `Repo` models this match. It is
  anchored at the start only, and the greedy `.+` takes the longest
  distribution that fits; both behaviours are modelled.
- **Grouping** (`repo.py`). Every `*.deb` file is hard-linked into
  `apt_dir/[dist/]arch`. Existing entries are reused, and finding no file
  is an error.
- **Downloads** (`github.py`). Every asset whose extension is `.deb` in any
  case is downloaded, unless a file of its name exists already.
- **Origin remote** (`github.py`). The remote URL gives the `user/repo`
  path (`GH_ORIGIN_URL_RE`).
- **Logging in and repository paths** (`github.py`). `login` chooses how to
  sign in, and `parse_repo_path` splits the `user/repo` path. The library's
  `github3.login` gives a session only for a non-empty token, or for a
  non-empty user name with a non-empty password (`GitHub.LibraryLogin`).
- **Release tags** (`github.py`). A group directory becomes the release tag
  `apt-dist-arch`. Distinct groups can share a tag (`GitHub.TagsCollide`),
  and a distribution `.` shares the tag of the group without one
  (`GitHub.DotDistTag`).
- **Content types** (`github.py`). An upload's type falls back to a guess
  from `APT_EXTENSIONS`.
- **Replacing assets** (`github.py`). Each file of a group directory
  replaces the release asset of the same name.
- **`quote_dotted`** (`utils.py`, module `Utils`). A string becomes URL-safe
  by turning unsafe characters into dots and collapsing runs of dots.
- **The first version of the program** (`__init__.py`, module `Legacy`).
  It groups the files in the directory it downloaded them to, and stops
  with an `AttributeError` at a name that does not fit the template. It
  also finds the repository by its full name, and derives a default GPG
  user id `repo user <user+repo@github.com>` from that name.

The filesystem is the class `Files.FileSystem`. It maps each directory to
its entries and each entry to an inode, so a hard link is visibly the same
file as its source. The methods that model the loops (`Repo.GroupDebs`,
`Legacy.GroupDebs`, `GitHub.DownloadReleaseDebs`, `GitHub.ReplaceAssets`,
`Utils.QuoteDotted`) update that state step by step. Each is proved
against a function of the old state (`Repo.Grouped`, `GitHub.Fetched`,
`GitHub.Replaced`, `Utils.Quoted`), and lemmas state the program's promises
about those functions. A GitHub release is the class `GitHub.Release`: its
assets, the number of the upload that made each one, and a log of the
deletes and uploads.

What the model takes as inputs:
- the control fields of each `*.deb` file, which `apt.debfile` reads;
- the output of `git remote get-url origin`;
- the password typed at the prompt;
- the release's asset list;
- the directory listing;
- the installation's `mimetypes.guess_type`, as a function `guess`.

Files are `.dfy` modules: `common.dfy` (Option, Result, the exceptions,
string helpers), `paths.dfy` (`posixpath` join, basename, splitext and the
`*.deb` glob pattern), `files.dfy`, `repo.dfy`, `utils.dfy`, `github.dfy`,
`legacy.dfy`.

## Model

| member | source | states |
|---|---|---|
| Repo.MatchDist | githubaptrepos/repo.py:20 | the template matches with distribution `d` exactly when the separator alternative fits with `d` and no longer distribution fits (greedy `.+`) |
| Repo.MatchPlain | githubaptrepos/repo.py:20 | the match has no distribution group exactly when no distribution fits and the empty alternative `_{version}_{arch}` does |
| Repo.MatchFails | githubaptrepos/repo.py:20 | there is no match exactly when neither alternative fits |
| Repo.TaggedName | githubaptrepos/repo.py:18-20 | `package` + separator + `dist` + `_version_arch` yields `dist` |
| Repo.DotDistribution | githubaptrepos/repo.py:18-20 | `package-._version_arch` yields the distribution `.` |
| Repo.OrdinaryName | githubaptrepos/repo.py:18-20 | `package_version_arch` matches with no distribution |
| Repo.TrailingTolerated | githubaptrepos/repo.py:46-49 | the match is anchored at the start only: text appended to a matching base name keeps it matching |
| Repo.DistArch | githubaptrepos/repo.py:33-54 | the architecture is the control field; a distribution is a non-empty entry name without a line break |
| Repo.DistArchDist | githubaptrepos/repo.py:46-53 | `get_deb_dist_arch` returns distribution `d` exactly when `d` is the longest distribution that fits the file's base name without `.deb` |
| Repo.DistArchNone | githubaptrepos/repo.py:50-53 | the distribution is `None` exactly when no distribution fits, whether the name matches without one or does not match at all |
| Repo.GroupDirUnder | githubaptrepos/repo.py:71-74 | the group directory is `apt_dir/arch` or `apt_dir/dist/arch` |
| Repo.GroupDirInjective | githubaptrepos/repo.py:71-74 | two group directory paths are equal as strings exactly when distribution and architecture are |
| Repo.SameGroupSameDistArch | githubaptrepos/repo.py:70-74 | two files get the same group directory path exactly when they have the same distribution and architecture |
| Repo.LinkIntoGroup | githubaptrepos/repo.py:75-85 | one iteration: create the directory unless it exists, then link the file unless an entry of its name exists |
| Repo.GroupDebs | githubaptrepos/repo.py:57-89 | the loop ends in the tree `Grouped` of the old tree and returns `GroupResult`, in whatever order the glob lists the files |
| Repo.GroupedLinksEvery | githubaptrepos/repo.py:82-85 | afterwards every `*.deb` file has an entry in its group directory: the entry that was there, or a hard link to the file's own inode |
| Repo.GroupedKeeps | githubaptrepos/repo.py:83-85 | no existing entry is replaced or removed |
| Repo.GroupedOnlyAdds | githubaptrepos/repo.py:68-85 | every entry afterwards was there before or is a `*.deb` file linked into its own group directory |
| Repo.LinkedDebDir | githubaptrepos/repo.py:69-85 | the entries of the deb directory are unchanged |
| Repo.NoDebsNoGroups | githubaptrepos/repo.py:86-88 | with no `*.deb` file the result is the `ValueError` and the tree is unchanged |
| Repo.GroupResultDirs | githubaptrepos/repo.py:81-89 | success exactly when there is a file; the result is exactly the group directories of the files, each of which exists |
| Repo.GroupedIdempotent | githubaptrepos/repo.py:65-66 | grouping again changes nothing and returns the same result (re-using earlier links) |
| Files.FileSystem.Glob | githubaptrepos/repo.py:69 | the listing has no duplicates and holds exactly the non-hidden entries ending in `.deb` |
| Files.FileSystem.Exists | githubaptrepos/repo.py:83 | true exactly when the directory holds an entry of that name |
| Files.FileSystem.MakeDirs | githubaptrepos/repo.py:75-80 | creates the directory if missing; an existing one is accepted (errno 17) |
| Files.FileSystem.Link | githubaptrepos/repo.py:85 | adds one entry naming the source's inode and changes nothing else |
| Files.FileSystem.Retrieve | githubaptrepos/github.py:109 | a new file in an existing directory, or the failure when the directory is missing |
| Paths.BaseNameOfJoin | githubaptrepos/repo.py:82 | the base name of `join(dir, n)` is `n` |
| Paths.DebFileRoot | githubaptrepos/repo.py:49 | the text matched is the entry name without its final `.deb` |
| Utils.Dotted | githubaptrepos/utils.py:18-19 | same length; each character kept when safe, a dot otherwise |
| Utils.StripDots | githubaptrepos/utils.py:21 | a slice of the input with only dots before and after it, and no dot at either end of its own; unchanged when there was none to strip |
| Utils.ReplaceFixpoint | githubaptrepos/utils.py:22-25 | one `replace('..', '.')` pass leaves the text unchanged exactly when it has no `..`, which is when the loop stops |
| Utils.CollapseReplace | githubaptrepos/utils.py:21-25 | a pass never changes what the loop finally yields |
| Utils.ReplaceShrinks | githubaptrepos/utils.py:22-25 | each pass that changes the text shortens it, so the loop ends |
| Utils.QuoteDotted | githubaptrepos/utils.py:12-25 | the loop returns `Quoted(orig, safe)` |
| Utils.QuotedSafe | githubaptrepos/utils.py:18-19 | every character of the result is a dot or a safe character |
| Utils.QuotedShape | githubaptrepos/utils.py:21-25 | the result neither starts nor ends with a dot and has no two dots in a row |
| Utils.QuotedKeepsText | githubaptrepos/utils.py:18-25 | the non-dot characters of the result are the safe non-dot characters of the input, in order |
| Utils.QuotedLength | githubaptrepos/utils.py:12-25 | the result is never longer than the input |
| Utils.QuotedFixpoint | githubaptrepos/utils.py:12-25 | a string comes back unchanged exactly when it is made of safe characters and dots, with no edge dot and no `..` |
| Utils.QuotedIdempotent | githubaptrepos/utils.py:12-25 | quoting a quoted string changes nothing |
| Utils.QuotedPython3Empty | githubaptrepos/utils.py:5-6 | with the Python 3 `_ALWAYS_SAFE`, a set of integers, every string quotes to `""`, `"user@host"` included |
| Utils.QuotedPython2Tilde | githubaptrepos/utils.py:7-9 | with the Python 2 fallback, which lacks `~`, a `~` between two words becomes a dot, where the intended safe set keeps it |
| Utils.QuotedTextWords | githubaptrepos/utils.py:18-25 | with the intended safe set, two dot-free unreserved words around a run of unsafe characters quote to the words joined by one dot |
| Utils.QuotedTextExample | githubaptrepos/utils.py:18-25 | with the intended safe set, `user@host` quotes to `user.host` |
| GitHub.OriginRepoPath | githubaptrepos/github.py:33-35 | the only failure is the unrecognised-origin error; a path always holds a `/` and no line break |
| GitHub.RepoPathOf | githubaptrepos/github.py:33-35 | an `https://github.com/` or `git@github.com:` URL of `user/repo`, with or without `.git`, yields `user/repo` |
| GitHub.RepoPathOfGitUrl | githubaptrepos/github.py:35 | a URL ending in `.git` yields the path without it, under either pattern |
| GitHub.RepoPathDropsGitLike | githubaptrepos/github.py:35 | as written, any character followed by `git` at the end is dropped from the path |
| GitHub.EscapedKeepsGitLike | githubaptrepos/github.py:35 | with the dot escaped, a repository name ending in `<c>git` (not `.git`) is kept whole |
| GitHub.LegitRemote | githubaptrepos/github.py:33-35 | `https://github.com/octocat/legit` yields `octocat/l` as written and `octocat/legit` once escaped |
| GitHub.StripLine | githubaptrepos/github.py:123-124 | `.strip()` removes exactly the line break `git` prints after the URL |
| GitHub.GitHubRepoPath | githubaptrepos/github.py:119-130 | the only failure is the `ValueError` naming the stripped output; a path holds a `/` |
| GitHub.GitHubRepoPathOf | githubaptrepos/github.py:123-130 | the output for a GitHub `origin` yields its `user/repo` path |
| GitHub.LibraryLogin | githubaptrepos/github.py:66-69 | `github3.login` gives a session exactly when the token is non-empty or both user name and password are, preferring the token |
| GitHub.Login | githubaptrepos/github.py:60-74 | a token option wins over a user option, and the library decides on the session; neither with a repository option is the usage error; no session exactly when the credential given is empty or no option is given |
| GitHub.RepoNeedsSession | githubaptrepos/github.py:65-73 | with a repository option, the usage error exactly when no credential option is given, and no session exactly when the credential given is empty |
| GitHub.ParseRepoPath | githubaptrepos/github.py:77-84 | nothing without a session or a path; the unpacking error exactly when the path has no `/`; otherwise owner and name split at the first `/` |
| GitHub.ParseRepoPathOf | githubaptrepos/github.py:83-84 | `owner/name` with a `/`-free owner splits into that owner and name |
| GitHub.DebAssetsMembers | githubaptrepos/github.py:99-103 | an asset is kept exactly when it is listed and its extension lowercases to `.deb` |
| GitHub.DebAssetsAppend | githubaptrepos/github.py:99-103 | the assets kept from two listings joined are those kept from the first followed by those kept from the second: the release order is kept |
| GitHub.DebAssetName | githubaptrepos/github.py:100-101 | an asset is kept exactly when its last four characters lowercase to `.deb` and a non-dot comes before them |
| GitHub.UpperCaseDebNotGlobbed | githubaptrepos/github.py:101 | a `NAME.DEB` asset is downloaded although the grouping glob `*.deb` does not list it |
| GitHub.HiddenDebNotGlobbed | githubaptrepos/github.py:100-101 | a `.name.deb` asset is downloaded although the glob skips hidden files |
| GitHub.FetchOne | githubaptrepos/github.py:105-112 | one iteration changes only the download directory, and keeps every entry it had |
| GitHub.FetchedHasAll | githubaptrepos/github.py:105-109 | afterwards every `*.deb` asset has an entry in the download directory |
| GitHub.FetchedKeeps | githubaptrepos/github.py:106-112 | a file already there is re-used, never replaced |
| GitHub.FetchedOnlyDebs | githubaptrepos/github.py:99-109 | every new entry is a listed `*.deb` asset, and a newly created file |
| GitHub.FetchedNothingNew | githubaptrepos/github.py:106-112 | when every `*.deb` asset exists already, nothing is downloaded |
| GitHub.FetchedIdempotent | githubaptrepos/github.py:105-112 | downloading the same release again changes nothing |
| GitHub.FetchAsset | githubaptrepos/github.py:100-114 | one iteration is `FetchOne`, or the `IOError` of downloading into a missing directory |
| GitHub.DownloadReleaseDebs | githubaptrepos/github.py:98-116 | the loop ends in `Fetched` of the old tree and returns the `*.deb` assets in release order, or the `IOError` when the directory is missing and there is one |
| GitHub.ReleaseTag | githubaptrepos/github.py:139-140 | the tag starts with `apt-`, has no `/`, and is four characters longer than the relative path |
| GitHub.GroupDirTag | githubaptrepos/github.py:139-140 | the group directory `apt_dir/dist/arch` gets the tag `apt-dist-arch`, and `apt_dir/arch` gets `apt-arch`; for the distribution `.`, whose component `relpath` drops, the tag is `apt-arch` |
| GitHub.DotDistTag | githubaptrepos/github.py:139-140 | the distribution `.` and no distribution have different group paths but the same tag `apt-arch` |
| GitHub.TagsCollide | githubaptrepos/github.py:140 | the distinct groups `d-a/b` and `d/a-b` share one release tag |
| GitHub.GroupTagInjective | githubaptrepos/github.py:140 | when no architecture contains `-` and no distribution is `.`, equal tags mean equal distribution and architecture |
| GitHub.FallbackName | githubaptrepos/github.py:26-31 | the `APT_EXTENSIONS` suffix for the four repository files, `.txt` for any other name |
| GitHub.ContentType | githubaptrepos/github.py:199-202 | the guess for the name, and the guess for the fallback name only when the first is `None` |
| GitHub.AlwaysTyped | githubaptrepos/github.py:197-202 | a guesser that knows `.txt`, `.sig` and `.sh` gives every upload a content type |
| GitHub.Release.DeleteAsset | githubaptrepos/github.py:195 | the asset is gone and the delete is logged |
| GitHub.Release.UploadAsset | githubaptrepos/github.py:207-209 | a new asset of that name, numbered by its upload, and the upload is logged |
| GitHub.ReplaceAssets | githubaptrepos/github.py:186-209 | the loop ends with the assets `Replaced` and the log extended by `Replacements` of the names the release had at the start |
| GitHub.ReplacedAssets | githubaptrepos/github.py:186-209 | afterwards the assets are the old ones plus the listed files; each listed file is a new upload numbered in listing order; other assets are untouched |
| GitHub.UploadsAreListing | githubaptrepos/github.py:188-209 | the uploads are exactly the listed files, once each, in listing order |
| GitHub.DeletesAreCollisions | githubaptrepos/github.py:189-195 | an asset is deleted exactly when a listed file has its name and the release had it |
| GitHub.DeleteThenUpload | githubaptrepos/github.py:195-209 | each delete is followed at once by the upload of the file of the same name |
| Legacy.DistArch | githubaptrepos/__init__.py:92-108 | the `AttributeError` exactly when the base name does not match; otherwise the same distribution and architecture as `repo.py` |
| Legacy.GroupDebs | githubaptrepos/__init__.py:111-138 | success exactly when every file fits, ending as the newer grouping (no files: empty set); otherwise the error of a file that does not fit, the files listed before it grouped, nothing else changed |
| Legacy.OriginFullName | githubaptrepos/__init__.py:30-31 | the only failure is the unrecognised-origin error; a full name is non-empty and has no line break |
| Legacy.FullNameOf | githubaptrepos/__init__.py:30-31 | everything after the prefix is the full name, up to a final `.git` |
| Legacy.FullNameOfGitUrl | githubaptrepos/__init__.py:30-31 | for a `user/repo.git` URL the full name equals the newer `gh_repo_path` |
| Legacy.LegitFullName | githubaptrepos/__init__.py:31 | `https://github.com/octocat/legit` gives the full name `octocat/l` as written, `octocat/legit` once escaped |
| Legacy.GitHubFullName | githubaptrepos/__init__.py:183-194 | the only failure is the `ValueError` naming the stripped output |
| Legacy.DefaultGpgUserId | githubaptrepos/__init__.py:211-221 | the unpacking `ValueError` exactly when the full name has no `/` |
| Legacy.DefaultGpgUserIdOf | githubaptrepos/__init__.py:216-221 | `user/repo` gives `repo user <user+repo@github.com>` |
| Legacy.CheckoutGpgUserId | githubaptrepos/__init__.py:210-221 | a checkout whose origin is `user/repo.git`, and whose repository GitHub reports under that full name, gets the user id `repo user <user+repo@github.com>` |

## Left out

- Regular-expression metacharacters in control fields: the package, version and architecture are matched literally. In the program they are pasted into the pattern unescaped, so a `+` or `.` in them is a pattern metacharacter.
- The `basename_re` parameter of `get_deb_dist_arch` and `group_debs` is ignored by the program, which always uses `DEB_BASENAME_RE`; the model has no such parameter.
- Reading the control fields with `apt.debfile.DebPackage`: they are an input map, keyed by entry name.
- `os.path.relpath` in general: release tags are modelled for directories below `apt_dir`, the only ones `group_debs` returns. Of its normalisation only the removal of a leading `.` component (the distribution `.`) is modelled.
- GitHub.GroupDirTag: an architecture `.` or `..` after a distribution other than `.` (`apt_dir/d/.`, `apt_dir/d/..`), which `relpath` shortens further, gets the tag of the unnormalised path; the architecture is a control field, so this is not modelled.
- Repo.GroupDirInjective, Repo.SameGroupSameDistArch: group directories are compared as path strings. For the operating system `apt_dir/./arch` and `apt_dir/arch` are one directory, so files of the distribution `.` and files without one end up in the same directory; `..` components likewise name directories elsewhere. Path normalisation (`.`, `..`, repeated `/`) and the difference between files and directories of the same name are not modelled.
- Files.FileSystem.MakeDirs: only the group directory itself is recorded, not the parent directories `os.makedirs` creates on the way; errors other than an existing directory (permissions, a file in the way) are not modelled.
- Files.FileSystem.Link: `os.link` failures are not modelled: a link across filesystems (`EXDEV`), a denied permission, or a dangling symbolic link of the same name, which `os.path.exists` does not see and which makes the link fail with `EEXIST`.
- Glob order: the loops take the listing as given and the results are proved order-independent, so no order is modelled.
- The network and the GitHub API: signing in (beyond `github3.login`'s test of the credentials), looking up repositories and releases (`latest_release`, `release_from_tag`, `create_release`), URLs and the asset objects are names only.
- The password prompt: the password is a parameter.
- `mimetypes.guess_type`: it is a function parameter `guess`; only the `APT_EXTENSIONS` fallback is modelled.
- `release_apt_repo` outside the tag and the asset loop: the `sources.list`, `apt-add-repo` and release-body templates, `chmod`, and the download URL.
- `make_apt_repo`, `dpkg-scanpackages`, `apt-ftparchive`, all of `gpg.py` and the GPG key handling in `main` other than the default user id: they are external tools.
- The first version's login in `main` (token truthiness, `github.Github`), its temporary directory and its clean-up.
- The first version's `download_release_debs` (`__init__.py`:61-89) is the same loop as the newer one; `GitHub.DownloadReleaseDebs` models both.
- GitHub.GitHubRepoPath: on Python 3 `check_output` returns bytes, and matching them with a `str` pattern raises `TypeError`; the model follows the Python 2 behaviour, where the output is text.
- Legacy.GitHubFullName: the same Python 3 bytes `TypeError` at `__init__.py`:187-189; the model follows the Python 2 behaviour, where the output is text.
- Legacy.CheckoutGpgUserId: line 211 splits the `full_name` GitHub reports for the repository, which the lemma takes to be the full name the origin URL gives. GitHub may report it in another letter case or, after a rename, under a different name; that is not modelled.
- GitHub.LowerAscii: `str.lower()` is modelled for ASCII letters only.
- Asset names are taken to be plain entry names (no `/`), as GitHub asset names are.
- Logging.

## Findings

| source | as written | input that shows it | evidently intended | confidence | as-written member | corrected member |
|---|---|---|---|---|---|---|
| githubaptrepos/utils.py:5-6 | on Python 3 `_ALWAYS_SAFE` is a frozenset of integer codes, so `char in _ALWAYS_SAFE` is false for every character and `quote_dotted` returns `""` | `quote_dotted("user@host")` | the set of unreserved characters as one-character strings, giving `user.host` | not executed | Utils.QuotedPython3Empty | Utils.QuotedTextExample |
| githubaptrepos/github.py:35 | the `.` before `git` in the final group is unescaped, so any character followed by `git` is cut from the end of the repository name | `https://github.com/octocat/legit` gives `octocat/l` | `\.git`, giving `octocat/legit` | not executed | GitHub.RepoPathDropsGitLike | GitHub.EscapedKeepsGitLike |
| githubaptrepos/__init__.py:31 | the same unescaped `.` in the first version's pattern | `https://github.com/octocat/legit` gives the full name `octocat/l` | `\.git`, giving `octocat/legit` | not executed | Legacy.LegitFullName | Legacy.FullNameOf |

In the last two rows the dot's escaping is the `escaped` parameter of
`GitHub.OriginRepoPath`, `GitHub.GitHubRepoPath`, `Legacy.OriginFullName`
and `Legacy.GitHubFullName`. `false` is the program as written and `true`
the corrected pattern. The lemmas about ordinary URLs hold for both
values.
