/** Values shared by every module: optional values, results carrying the
    exceptions the program raises, and the few string operations the
    program's Python code relies on (`startswith`, `endswith`,
    `split(sep, 1)`). */
module Common {

  datatype Option<+T> = None | Some(value: T)

  datatype Result<+T, +E> = Ok(value: T) | Err(error: E)

  /** The exceptions the program lets escape, one constructor per raise site. */
  datatype Error =
    | NoDebFiles(debDir: string)             // ValueError: "No `*.deb` package files found in ..."
    | UnmatchedBaseName(deb: string)         // AttributeError: `.group` on a failed match
    | UnrecognizedOrigin(url: string)        // ValueError: "Did not recognize origin remote URL ..."
    | MissingCredentials                     // argparse `parser.error(...)`: usage error and exit
    | NotEnoughValues(unpacked: string)      // ValueError: unpacking `split('/', 1)` without a '/'
    | NoSuchDirectory(path: string)          // IOError: `urlretrieve` into a missing directory

  predicate StartsWith(s: string, prefix: string) {
    |prefix| <= |s| && s[..|prefix|] == prefix
  }

  predicate EndsWith(s: string, suffix: string) {
    |suffix| <= |s| && s[|s| - |suffix|..] == suffix
  }

  /** No element occurs twice, as in a directory listing. */
  predicate Distinct<T(==)>(s: seq<T>) {
    forall i, j :: 0 <= i < j < |s| ==> s[i] != s[j]
  }

  /** `s.split(sep, 1)` when it yields two parts: the text before the first
      `sep` and the text after it; `None` when `sep` does not occur. */
  function SplitOnce(s: string, sep: char): (r: Option<(string, string)>)
    ensures r.None? <==> sep !in s
    ensures r.Some? ==> s == r.value.0 + [sep] + r.value.1 && sep !in r.value.0
  {
    if s == [] then None
    else if s[0] == sep then Some(([], s[1..]))
    else match SplitOnce(s[1..], sep)
      case None => None
      case Some(parts) => Some(([s[0]] + parts.0, parts.1))
  }

  /** Concatenation is associative; stated for the steps where the solver
      needs it named. */
  lemma AppendAssoc<T>(a: seq<T>, b: seq<T>, c: seq<T>)
    ensures a + b + c == a + (b + c)
  {
  }

  /** A non-empty sequence is its front followed by its last element. */
  lemma FrontLast<T>(s: seq<T>)
    requires s != []
    ensures s[..|s| - 1] + [s[|s| - 1]] == s
  {
  }

  /** The front of a sequence holds its elements at the same indices. */
  lemma FrontAt<T>(s: seq<T>, i: int)
    requires 0 <= i < |s| - 1
    ensures s[..|s| - 1][i] == s[i]
  {
  }

  /** Splitting on the first separator undoes joining two parts of which the
      first has no separator. */
  lemma {:induction false} SplitOnceJoined(a: string, sep: char, b: string)
    requires sep !in a
    ensures SplitOnce(a + [sep] + b, sep) == Some((a, b))
  {
    var s := a + [sep] + b;
    if a == [] {
      assert s[1..] == b;
    } else {
      assert s[0] == a[0] != sep;
      assert s[1..] == a[1..] + [sep] + b;
      SplitOnceJoined(a[1..], sep, b);
      assert [a[0]] + a[1..] == a;
    }
  }
}
