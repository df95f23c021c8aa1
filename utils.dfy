/** `githubaptrepos/utils.py`: `quote_dotted`, which makes a string URL-safe
    and readable by turning every unsafe character into a `.` and then
    collapsing runs of dots. */
module Utils {

  /** A Python value as far as a membership test in `_ALWAYS_SAFE` can tell:
      a `str` or an `int`. */
  datatype PyValue = PyStr(s: string) | PyInt(i: int)

  /** The unreserved characters of section 2.3 of RFC 3986. */
  predicate IsUnreserved(c: char) {
    'A' <= c <= 'Z' || 'a' <= c <= 'z' || '0' <= c <= '9' || c == '_' || c == '.' || c == '-' || c == '~'
  }

  /** `_ALWAYS_SAFE` as the Python 2 import fallback builds it from
      `urllib.always_safe`: a frozenset of one-character strings, without
      the `~`. */
  const AlwaysSafePython2: set<PyValue> :=
    set c: char | 'A' <= c <= 'Z' || 'a' <= c <= 'z' || '0' <= c <= '9' || c == '_' || c == '.' || c == '-'
      :: PyStr([c])

  /** `urllib.parse._ALWAYS_SAFE` of Python 3: a frozenset built from a
      bytes literal, whose members are therefore the integer codes. */
  const AlwaysSafePython3: set<PyValue> :=
    set c: char | 'A' <= c <= 'Z' || 'a' <= c <= 'z' || '0' <= c <= '9' || c == '_' || c == '.' || c == '-' || c == '~'
      :: PyInt(c as int)

  /** The set of one-character strings the test `char in _ALWAYS_SAFE`
      evidently means: the unreserved characters themselves. */
  const AlwaysSafeText: set<PyValue> :=
    set c: char | 'A' <= c <= 'Z' || 'a' <= c <= 'z' || '0' <= c <= '9' || c == '_' || c == '.' || c == '-' || c == '~'
      :: PyStr([c])

  /** `char if char in _ALWAYS_SAFE else '.'`. */
  function DotChar(c: char, safe: set<PyValue>): char {
    if PyStr([c]) in safe then c else '.'
  }

  /** The comprehension of lines 18-19: every character that is not in the
      safe set becomes a dot. */
  function Dotted(s: string, safe: set<PyValue>): (r: string)
    ensures |r| == |s|
    ensures forall i :: 0 <= i < |s| ==> r[i] == DotChar(s[i], safe)
  {
    if s == [] then [] else [DotChar(s[0], safe)] + Dotted(s[1..], safe)
  }

  /** Neither the first nor the last character is a dot. */
  predicate NoEdgeDots(s: string) {
    s == [] || (s[0] != '.' && s[|s| - 1] != '.')
  }

  /** The dot at `i` is directly followed by another. */
  predicate DoubleDotAt(s: string, i: int) {
    0 <= i < |s| - 1 && s[i] == '.' && s[i + 1] == '.'
  }

  /** Some dot is directly followed by another. */
  predicate HasDoubleDot(s: string) {
    exists i :: 0 <= i < |s| && DoubleDotAt(s, i)
  }

  /** The characters of `s` other than dots, in order. */
  function NonDots(s: string): string {
    if s == [] then []
    else if s[0] == '.' then NonDots(s[1..])
    else [s[0]] + NonDots(s[1..])
  }

  lemma {:induction false} NonDotsAppend(a: string, b: string)
    ensures NonDots(a + b) == NonDots(a) + NonDots(b)
    decreases |a|
  {
    if a != [] {
      assert (a + b)[1..] == a[1..] + b;
      NonDotsAppend(a[1..], b);
    } else {
      assert a + b == b;
    }
  }

  /** Every character of `s` is a dot. */
  predicate AllDots(s: string) {
    forall k :: 0 <= k < |s| ==> s[k] == '.'
  }

  /** `r` is the text of `s` from `i` on, with only dots on either side. */
  predicate StrippedAt(s: string, i: int, r: string) {
    0 <= i <= |s| - |r| && r == s[i..i + |r|] && AllDots(s[..i]) && AllDots(s[i + |r|..])
  }

  function StripLeading(s: string): (r: string)
    ensures |r| <= |s| && r == s[|s| - |r|..]
    ensures r == [] || r[0] != '.'
    ensures NonDots(r) == NonDots(s)
  {
    if s != [] && s[0] == '.' then StripLeading(s[1..]) else s
  }

  function StripTrailing(s: string): (r: string)
    ensures |r| <= |s| && r == s[..|r|]
    ensures r == [] || r[|r| - 1] != '.'
    ensures NonDots(r) == NonDots(s)
  {
    if s != [] && s[|s| - 1] == '.' then
      var r := StripTrailing(s[..|s| - 1]);
      assert s == s[..|s| - 1] + ".";
      NonDotsAppend(s[..|s| - 1], ".");
      r
    else s
  }

  /** What `StripLeading` removes is dots only. */
  lemma {:induction false} StripLeadingDots(s: string)
    ensures AllDots(s[..|s| - |StripLeading(s)|])
    decreases |s|
  {
    if s != [] && s[0] == '.' {
      StripLeadingDots(s[1..]);
      var n := |s| - |StripLeading(s)|;
      assert s[1..][..n - 1] == s[1..n];
    }
  }

  /** What `StripTrailing` removes is dots only. */
  lemma {:induction false} StripTrailingDots(s: string)
    ensures AllDots(s[|StripTrailing(s)|..])
    decreases |s|
  {
    if s != [] && s[|s| - 1] == '.' {
      var t := s[..|s| - 1];
      StripTrailingDots(t);
      var n := |StripTrailing(s)|;
      assert StripTrailing(s) == StripTrailing(t);
      assert forall k :: n <= k < |t| ==> s[k] == t[k] == t[n..][k - n];
    }
  }

  /** `s.strip('.')`: removes every leading and every trailing dot, keeping
      the text in between as it is. */
  function StripDots(s: string): (r: string)
    ensures exists i :: StrippedAt(s, i, r)
    ensures NoEdgeDots(r)
    ensures NonDots(r) == NonDots(s)
    ensures |r| <= |s|
    ensures |r| == |s| ==> r == s
    ensures NoEdgeDots(s) ==> r == s
    ensures forall c :: c in r ==> c in s
  {
    StripDotsAt(s);
    StripTrailing(StripLeading(s))
  }

  /** Where the stripped text sits in `s`. */
  lemma StripDotsAt(s: string)
    ensures StrippedAt(s, |s| - |StripLeading(s)|, StripTrailing(StripLeading(s)))
  {
    StripLeadingDots(s);
    StripTrailingDots(StripLeading(s));
    StrippedAtOf(s, StripLeading(s), StripTrailing(StripLeading(s)));
  }

  /** A suffix `a` of `s` and a prefix `r` of `a`, cut off by dots. */
  lemma StrippedAtOf(s: string, a: string, r: string)
    requires |a| <= |s| && a == s[|s| - |a|..] && |r| <= |a| && r == a[..|r|]
    requires AllDots(s[..|s| - |a|]) && AllDots(a[|r|..])
    ensures StrippedAt(s, |s| - |a|, r)
  {
    var i := |s| - |a|;
    assert s[i..][..|r|] == s[i..i + |r|];
    assert s[i + |r|..] == a[|r|..];
  }

  /** `s.replace('..', '.')`: occurrences of `..` are found from left to
      right without overlapping, so `...` becomes `..`. */
  function ReplaceDots(s: string): (r: string)
    ensures |r| <= |s|
    ensures r == [] <==> s == []
    ensures r != [] ==> (r[0] == '.' <==> s[0] == '.')
    ensures r != [] ==> (r[|r| - 1] == '.' <==> s[|s| - 1] == '.')
  {
    if |s| >= 2 && s[0] == '.' && s[1] == '.' then
      assert s[1..][1..] == s[2..];
      "." + ReplaceDots(s[2..])
    else if s == [] then []
    else [s[0]] + ReplaceDots(s[1..])
  }

  /** The reference meaning of collapsing dots: a dot directly followed by
      another dot is dropped, so each run of dots becomes a single dot. */
  function Collapse(s: string): (r: string)
    ensures |r| <= |s|
    ensures r == [] <==> s == []
    ensures r != [] ==> (r[0] == '.' <==> s[0] == '.')
    ensures r != [] ==> (r[|r| - 1] == '.' <==> s[|s| - 1] == '.')
  {
    if |s| >= 2 && s[0] == '.' && s[1] == '.' then Collapse(s[1..])
    else if s == [] then []
    else [s[0]] + Collapse(s[1..])
  }

  /** Replacing `..` and collapsing only drop dots: the other characters
      stay, in order, and no character is made up. */
  lemma {:induction false} ReplaceDotsKeeps(s: string)
    ensures NonDots(ReplaceDots(s)) == NonDots(s)
    ensures forall c :: c in ReplaceDots(s) ==> c in s
    decreases |s|
  {
    if |s| >= 2 && s[0] == '.' && s[1] == '.' {
      ReplaceDotsKeeps(s[2..]);
      assert s[1..][1..] == s[2..];
      assert ("." + ReplaceDots(s[2..]))[1..] == ReplaceDots(s[2..]);
    } else if s != [] {
      ReplaceDotsKeeps(s[1..]);
      assert ReplaceDots(s)[1..] == ReplaceDots(s[1..]);
    }
  }

  lemma {:induction false} CollapseKeeps(s: string)
    ensures NonDots(Collapse(s)) == NonDots(s)
    ensures forall c :: c in Collapse(s) ==> c in s
    decreases |s|
  {
    if |s| >= 2 && s[0] == '.' && s[1] == '.' {
      CollapseKeeps(s[1..]);
    } else if s != [] {
      CollapseKeeps(s[1..]);
      assert Collapse(s)[1..] == Collapse(s[1..]);
    }
  }

  /** What `quote_dotted(orig)` returns when the module's `_ALWAYS_SAFE` is
      `safe`. */
  function Quoted(orig: string, safe: set<PyValue>): string {
    Collapse(StripDots(Dotted(orig, safe)))
  }

  /** `quote_dotted(orig)` (lines 18-25), with `safe` the `_ALWAYS_SAFE` the
      import at lines 5-9 obtained. */
  method QuoteDotted(orig: string, safe: set<PyValue>) returns (result: string)
    ensures result == Quoted(orig, safe)
  {
    var dotted := Dotted(orig, safe);
    result := ReplaceDots(StripDots(dotted));
    CollapseReplace(StripDots(dotted));
    ReplaceKeepsEdges(StripDots(dotted));
    while result != dotted
      invariant result == ReplaceDots(StripDots(dotted))
      invariant NoEdgeDots(result)
      invariant Collapse(result) == Quoted(orig, safe)
      decreases |dotted|
    {
      ReplaceShrinks(StripDots(dotted));
      dotted := result;
      result := ReplaceDots(dotted);
      CollapseReplace(dotted);
      ReplaceKeepsEdges(dotted);
    }
    ReplaceFixpoint(result);
    CollapseWithoutDoubleDot(result);
  }

  lemma ReplaceKeepsEdges(s: string)
    requires NoEdgeDots(s)
    ensures NoEdgeDots(ReplaceDots(s))
  {
  }

  /** Replacing `..` by `.` only shortens runs of dots, which collapsing
      shortens anyway. */
  lemma {:induction false} CollapseReplace(y: string)
    ensures Collapse(ReplaceDots(y)) == Collapse(y)
    decreases |y|
  {
    if y == [] {
    } else if |y| >= 2 && y[0] == '.' && y[1] == '.' {
      CollapseReplace(y[2..]);
      CollapseReplaceDotDot(y);
    } else if y[0] == '.' {
      var z := y[1..];
      CollapseReplace(z);
      assert y == "." + z;
      CollapseReplaceDot(z);
    } else {
      CollapseReplace(y[1..]);
      CollapseReplaceOther(y);
    }
  }

  /** The step of `CollapseReplace` for text starting with `..`. */
  lemma CollapseReplaceDotDot(y: string)
    requires |y| >= 2 && y[0] == '.' && y[1] == '.'
    requires Collapse(ReplaceDots(y[2..])) == Collapse(y[2..])
    ensures Collapse(ReplaceDots(y)) == Collapse(y)
  {
    var z := y[2..];
    assert y[1..][1..] == z;
    CollapseDot(ReplaceDots(z));
    CollapseDot(z);
    assert y[1..] == "." + z;
  }

  /** The step of `CollapseReplace` for text starting with a single dot. */
  lemma CollapseReplaceDot(z: string)
    requires z == [] || z[0] != '.'
    requires Collapse(ReplaceDots(z)) == Collapse(z)
    ensures Collapse(ReplaceDots("." + z)) == Collapse("." + z)
  {
    var y := "." + z;
    assert y[1..] == z;
    assert ReplaceDots(y) == "." + ReplaceDots(z);
    CollapseDot(ReplaceDots(z));
    CollapseDot(z);
  }

  /** The step of `CollapseReplace` for text starting with another
      character. */
  lemma CollapseReplaceOther(y: string)
    requires y != [] && y[0] != '.'
    requires Collapse(ReplaceDots(y[1..])) == Collapse(y[1..])
    ensures Collapse(ReplaceDots(y)) == Collapse(y)
  {
    var z := y[1..];
    assert ReplaceDots(y) == [y[0]] + ReplaceDots(z);
    CollapseCons(y[0], ReplaceDots(z));
    CollapseCons(y[0], z);
    assert [y[0]] + z == y;
  }

  /** A dot in front of `x` survives collapsing unless `x` starts with one. */
  lemma CollapseDot(x: string)
    ensures Collapse("." + x) == if x != [] && x[0] == '.' then Collapse(x) else "." + Collapse(x)
  {
    assert ("." + x)[1..] == x;
  }

  /** A character that does not start a `..` survives collapsing. */
  lemma CollapseCons(c: char, w: string)
    requires !(c == '.' && w != [] && w[0] == '.')
    ensures Collapse([c] + w) == [c] + Collapse(w)
  {
    assert ([c] + w)[1..] == w;
  }

  /** `replace('..', '.')` changes nothing exactly when there is no `..`. */
  lemma {:induction false} ReplaceFixpoint(s: string)
    ensures ReplaceDots(s) == s <==> !HasDoubleDot(s)
    decreases |s|
  {
    if |s| >= 2 && s[0] == '.' && s[1] == '.' {
      assert |ReplaceDots(s)| < |s|;
      assert DoubleDotAt(s, 0);
    } else if s != [] {
      ReplaceFixpoint(s[1..]);
      HasDoubleDotTail(s);
      assert ReplaceDots(s) == [s[0]] + ReplaceDots(s[1..]);
      if ReplaceDots(s[1..]) == s[1..] {
        assert ReplaceDots(s) == s;
      } else {
        assert ReplaceDots(s)[1..] == ReplaceDots(s[1..]);
      }
    }
  }

  lemma HasDoubleDotTail(s: string)
    requires s != [] && !(|s| >= 2 && s[0] == '.' && s[1] == '.')
    ensures HasDoubleDot(s) <==> HasDoubleDot(s[1..])
  {
    if HasDoubleDot(s) {
      var i :| 0 <= i < |s| && DoubleDotAt(s, i);
      assert i != 0;
      assert s[1..][i - 1] == s[i] && s[1..][i] == s[i + 1];
      assert DoubleDotAt(s[1..], i - 1);
    }
    if HasDoubleDot(s[1..]) {
      var i :| 0 <= i < |s[1..]| && DoubleDotAt(s[1..], i);
      assert s[i + 1] == s[1..][i] && s[i + 2] == s[1..][i + 1];
      assert DoubleDotAt(s, i + 1);
    }
  }

  /** Stripping and replacing either change nothing or shorten the text,
      so the loop of lines 22-24 ends. */
  lemma ReplaceShrinks(s: string)
    ensures ReplaceDots(StripDots(s)) == s || |ReplaceDots(StripDots(s))| < |s|
  {
    var a := StripDots(s);
    if |ReplaceDots(a)| == |s| {
      assert |a| == |s| && a == s;
      ReplaceSameLength(a);
    }
  }

  lemma {:induction false} ReplaceSameLength(s: string)
    requires |ReplaceDots(s)| == |s|
    ensures ReplaceDots(s) == s
    decreases |s|
  {
    if s != [] && !(|s| >= 2 && s[0] == '.' && s[1] == '.') {
      ReplaceSameLength(s[1..]);
    }
  }

  /** Collapsing leaves no `..` behind. */
  lemma {:induction false} CollapseNoDoubleDot(s: string)
    ensures !HasDoubleDot(Collapse(s))
    decreases |s|
  {
    if |s| >= 2 && s[0] == '.' && s[1] == '.' {
      CollapseNoDoubleDot(s[1..]);
    } else if s != [] {
      CollapseNoDoubleDot(s[1..]);
      CollapseCons(s[0], s[1..]);
      assert [s[0]] + s[1..] == s;
      NoDoubleDotCons(s[0], Collapse(s[1..]));
    }
  }

  /** Putting a character that does not start a `..` in front of text
      without `..` makes none. */
  lemma NoDoubleDotCons(c: char, t: string)
    requires !HasDoubleDot(t) && !(c == '.' && t != [] && t[0] == '.')
    ensures !HasDoubleDot([c] + t)
  {
    var r := [c] + t;
    forall i | DoubleDotAt(r, i) ensures false {
      if i > 0 {
        assert DoubleDotAt(t, i - 1);
      }
    }
  }

  /** Text without `..` is its own collapse. */
  lemma {:induction false} CollapseWithoutDoubleDot(s: string)
    requires !HasDoubleDot(s)
    ensures Collapse(s) == s
    decreases |s|
  {
    if s != [] {
      assert !DoubleDotAt(s, 0);
      HasDoubleDotTail(s);
      CollapseWithoutDoubleDot(s[1..]);
    }
  }

  /** Every character of the result is safe or a dot: unsafe characters are
      replaced, never passed through. */
  lemma QuotedSafe(orig: string, safe: set<PyValue>)
    ensures forall c :: c in Quoted(orig, safe) ==> c == '.' || PyStr([c]) in safe
  {
    var d := Dotted(orig, safe);
    assert forall c :: c in d ==> c == '.' || PyStr([c]) in safe;
    CollapseKeeps(StripDots(d));
  }

  /** The result neither starts nor ends with a dot and holds no `..`. */
  lemma QuotedShape(orig: string, safe: set<PyValue>)
    ensures NoEdgeDots(Quoted(orig, safe))
    ensures !HasDoubleDot(Quoted(orig, safe))
  {
    CollapseNoDoubleDot(StripDots(Dotted(orig, safe)));
  }

  /** The safe characters of `s` other than dots, in order. */
  function SafeNonDots(s: string, safe: set<PyValue>): string {
    if s == [] then []
    else if s[0] != '.' && PyStr([s[0]]) in safe then [s[0]] + SafeNonDots(s[1..], safe)
    else SafeNonDots(s[1..], safe)
  }

  /** Deleting the dots from the result leaves the safe non-dot characters
      of the input, in their original order. */
  lemma QuotedKeepsText(orig: string, safe: set<PyValue>)
    ensures NonDots(Quoted(orig, safe)) == SafeNonDots(orig, safe)
  {
    DottedNonDots(orig, safe);
    CollapseKeeps(StripDots(Dotted(orig, safe)));
  }

  lemma {:induction false} DottedNonDots(s: string, safe: set<PyValue>)
    ensures NonDots(Dotted(s, safe)) == SafeNonDots(s, safe)
    decreases |s|
  {
    if s != [] {
      DottedNonDots(s[1..], safe);
      assert Dotted(s, safe) == [DotChar(s[0], safe)] + Dotted(s[1..], safe);
      assert Dotted(s, safe)[1..] == Dotted(s[1..], safe);
    }
  }

  /** The result is never longer than the input. */
  lemma QuotedLength(orig: string, safe: set<PyValue>)
    ensures |Quoted(orig, safe)| <= |orig|
  {
  }

  /** Text made of safe characters and dots, without edge dots or `..`, is
      returned unchanged, and nothing else is. */
  lemma QuotedFixpoint(s: string, safe: set<PyValue>)
    ensures Quoted(s, safe) == s <==>
      (forall c :: c in s ==> c == '.' || PyStr([c]) in safe) && NoEdgeDots(s) && !HasDoubleDot(s)
  {
    QuotedSafe(s, safe);
    QuotedShape(s, safe);
    if (forall c :: c in s ==> c == '.' || PyStr([c]) in safe) && NoEdgeDots(s) && !HasDoubleDot(s) {
      QuotedUnchanged(s, safe);
    }
  }

  lemma QuotedUnchanged(s: string, safe: set<PyValue>)
    requires forall c :: c in s ==> c == '.' || PyStr([c]) in safe
    requires NoEdgeDots(s) && !HasDoubleDot(s)
    ensures Quoted(s, safe) == s
  {
    DottedSafe(s, safe);
    CollapseWithoutDoubleDot(s);
  }

  lemma DottedSafe(s: string, safe: set<PyValue>)
    requires forall c :: c in s ==> c == '.' || PyStr([c]) in safe
    ensures Dotted(s, safe) == s
  {
    var d := Dotted(s, safe);
    forall i | 0 <= i < |s| ensures d[i] == s[i] {
      assert s[i] in s;
    }
  }

  /** Quoting twice is quoting once. */
  lemma QuotedIdempotent(s: string, safe: set<PyValue>)
    ensures Quoted(Quoted(s, safe), safe) == Quoted(s, safe)
  {
    var q := Quoted(s, safe);
    QuotedSafe(s, safe);
    QuotedShape(s, safe);
    QuotedFixpoint(q, safe);
  }

  /** As written, on Python 3 `_ALWAYS_SAFE` holds integers, a one-character
      string is never among them, and every input quotes to the empty
      string. */
  lemma QuotedPython3Empty(s: string)
    ensures Quoted(s, AlwaysSafePython3) == []
    ensures Quoted("user@host", AlwaysSafePython3) == []
  {
    var d := Dotted(s, AlwaysSafePython3);
    assert forall i :: 0 <= i < |d| ==> d[i] == '.';
    AllDotsStrip(d);
    AllDotsStrip(Dotted("user@host", AlwaysSafePython3));
  }

  lemma {:induction false} AllDotsStrip(s: string)
    requires forall i :: 0 <= i < |s| ==> s[i] == '.'
    ensures StripLeading(s) == []
    ensures StripDots(s) == []
    decreases |s|
  {
    if s != [] {
      AllDotsStrip(s[1..]);
    }
  }

  /** A one-character string is in the evidently meant safe set exactly
      when its character is unreserved. */
  lemma AlwaysSafeTextMembers(c: char)
    ensures PyStr([c]) in AlwaysSafeText <==> IsUnreserved(c)
  {
    if IsUnreserved(c) {
      assert PyStr([c]) in AlwaysSafeText;
    }
  }

  /** The Python 2 fallback holds the unreserved characters but the `~`. */
  lemma AlwaysSafePython2Members(c: char)
    ensures PyStr([c]) in AlwaysSafePython2 <==> IsUnreserved(c) && c != '~'
  {
    if IsUnreserved(c) && c != '~' {
      assert PyStr([c]) in AlwaysSafePython2;
    }
  }

  /** On Python 2 a `~` between two words becomes a dot, while the evidently
      meant safe set keeps it. */
  lemma QuotedPython2Tilde(u: string, v: string)
    requires u != [] && v != []
    requires forall i :: 0 <= i < |u| ==> IsUnreserved(u[i]) && u[i] != '.' && u[i] != '~'
    requires forall i :: 0 <= i < |v| ==> IsUnreserved(v[i]) && v[i] != '.' && v[i] != '~'
    ensures Quoted(u + "~" + v, AlwaysSafePython2) == u + "." + v
    ensures Quoted(u + "~" + v, AlwaysSafeText) == u + "~" + v
  {
    Python2Words(u);
    Python2Words(v);
    AlwaysSafePython2Members('~');
    QuotedUnsafeRun(u, "~", v, AlwaysSafePython2);
    TextWordsUnchanged(u, v);
  }

  lemma Python2Words(w: string)
    requires forall i :: 0 <= i < |w| ==> IsUnreserved(w[i]) && w[i] != '.' && w[i] != '~'
    ensures forall i :: 0 <= i < |w| ==> DotChar(w[i], AlwaysSafePython2) == w[i]
    ensures NoEdgeDots(w) && !HasDoubleDot(w)
  {
    forall i | 0 <= i < |w| ensures DotChar(w[i], AlwaysSafePython2) == w[i] {
      AlwaysSafePython2Members(w[i]);
    }
  }

  lemma TextWordsUnchanged(u: string, v: string)
    requires u != [] && v != []
    requires forall i :: 0 <= i < |u| ==> IsUnreserved(u[i]) && u[i] != '.'
    requires forall i :: 0 <= i < |v| ==> IsUnreserved(v[i]) && v[i] != '.'
    ensures Quoted(u + "~" + v, AlwaysSafeText) == u + "~" + v
  {
    var s := u + "~" + v;
    forall i | 0 <= i < |s| ensures IsUnreserved(s[i]) && s[i] != '.' {
      if i < |u| {
        assert s[i] == u[i];
      } else if i > |u| {
        assert s[i] == v[i - |u| - 1];
      }
    }
    forall c | c in s ensures c == '.' || PyStr([c]) in AlwaysSafeText {
      AlwaysSafeTextMembers(c);
    }
    assert s[0] != '.' && s[|s| - 1] != '.';
    assert !HasDoubleDot(s);
    QuotedUnchanged(s, AlwaysSafeText);
  }

  /** `n` dots. */
  function Dots(n: nat): (r: string)
    ensures |r| == n && forall i :: 0 <= i < n ==> r[i] == '.'
  {
    if n == 0 then [] else Dots(n - 1) + "."
  }

  /** Collapsing keeps a prefix without `..` that does not end in a dot. */
  lemma {:induction false} CollapseKeepsPrefix(a: string, b: string)
    requires !HasDoubleDot(a) && (a == [] || a[|a| - 1] != '.')
    ensures Collapse(a + b) == a + Collapse(b)
    decreases |a|
  {
    if a != [] {
      var w := a[1..] + b;
      assert !DoubleDotAt(a, 0);
      HasDoubleDotTail(a);
      CollapseKeepsPrefix(a[1..], b);
      assert Collapse(w) == a[1..] + Collapse(b);
      assert a + b == [a[0]] + w;
      assert !(a[0] == '.' && w != [] && w[0] == '.') by {
        if |a| >= 2 {
          assert w[0] == a[1];
        }
      }
      CollapseCons(a[0], w);
      assert [a[0]] + a[1..] == a;
      ConsAppend(a[0], a[1..], Collapse(b));
    } else {
      assert a + b == b;
    }
  }

  lemma ConsAppend(x: char, u: string, v: string)
    ensures [x] + (u + v) == [x] + u + v
  {
  }

  /** A run of dots before text that does not start with one collapses to
      one dot. */
  lemma {:induction false} CollapseDots(n: nat, v: string)
    requires 0 < n && (v == [] || v[0] != '.')
    ensures Collapse(Dots(n) + v) == "." + Collapse(v)
    decreases n
  {
    var s := Dots(n) + v;
    if n == 1 {
      assert s[0] == '.' && s[1..] == v;
    } else {
      assert s[0] == '.' && s[1] == '.';
      assert s[1..] == Dots(n - 1) + v;
      CollapseDots(n - 1, v);
    }
  }

  /** A run of unsafe characters between two quoted words becomes a single
      dot: unsafe characters are replaced, never dropped. */
  lemma QuotedUnsafeRun(u: string, x: string, v: string, safe: set<PyValue>)
    requires u != [] && v != [] && x != []
    requires forall i :: 0 <= i < |u| ==> DotChar(u[i], safe) == u[i]
    requires forall i :: 0 <= i < |v| ==> DotChar(v[i], safe) == v[i]
    requires NoEdgeDots(u) && NoEdgeDots(v) && !HasDoubleDot(u) && !HasDoubleDot(v)
    requires forall i :: 0 <= i < |x| ==> PyStr([x[i]]) !in safe
    ensures Quoted(u + x + v, safe) == u + "." + v
  {
    var d := u + (Dots(|x|) + v);
    DottedRun(u, x, v, safe);
    assert StripDots(d) == d;
    CollapseRun(u, |x|, v);
  }

  lemma CollapseRun(u: string, n: nat, v: string)
    requires u != [] && v != [] && n > 0
    requires NoEdgeDots(u) && NoEdgeDots(v) && !HasDoubleDot(u) && !HasDoubleDot(v)
    ensures Collapse(u + (Dots(n) + v)) == u + "." + v
  {
    CollapseKeepsPrefix(u, Dots(n) + v);
    CollapseDots(n, v);
    CollapseWithoutDoubleDot(v);
    assert u + ("." + v) == u + "." + v;
  }

  lemma DottedRun(u: string, x: string, v: string, safe: set<PyValue>)
    requires forall i :: 0 <= i < |u| ==> DotChar(u[i], safe) == u[i]
    requires forall i :: 0 <= i < |v| ==> DotChar(v[i], safe) == v[i]
    requires forall i :: 0 <= i < |x| ==> PyStr([x[i]]) !in safe
    ensures Dotted(u + x + v, safe) == u + (Dots(|x|) + v)
    ensures NoEdgeDots(u) && NoEdgeDots(v) && u != [] && v != [] ==> NoEdgeDots(u + (Dots(|x|) + v))
  {
    var s := u + x + v;
    var d := Dotted(s, safe);
    var want := u + (Dots(|x|) + v);
    forall i | 0 <= i < |s| ensures d[i] == want[i] {
      if i < |u| {
        assert s[i] == u[i];
      } else if i < |u| + |x| {
        assert s[i] == x[i - |u|];
      } else {
        assert s[i] == v[i - |u| - |x|];
      }
    }
  }

  lemma UnreservedUnchanged(w: string)
    requires forall i :: 0 <= i < |w| ==> IsUnreserved(w[i])
    ensures forall i :: 0 <= i < |w| ==> DotChar(w[i], AlwaysSafeText) == w[i]
  {
    forall i | 0 <= i < |w| ensures DotChar(w[i], AlwaysSafeText) == w[i] {
      AlwaysSafeTextMembers(w[i]);
    }
  }

  /** With the evidently meant safe set, unreserved words around a run of
      other characters keep their text and the run becomes one dot. */
  lemma QuotedTextWords(u: string, x: string, v: string)
    requires u != [] && v != [] && x != []
    requires forall i :: 0 <= i < |u| ==> IsUnreserved(u[i]) && u[i] != '.'
    requires forall i :: 0 <= i < |v| ==> IsUnreserved(v[i]) && v[i] != '.'
    requires forall i :: 0 <= i < |x| ==> !IsUnreserved(x[i])
    ensures Quoted(u + x + v, AlwaysSafeText) == u + "." + v
  {
    UnreservedUnchanged(u);
    UnreservedUnchanged(v);
    forall i | 0 <= i < |x| ensures PyStr([x[i]]) !in AlwaysSafeText {
      AlwaysSafeTextMembers(x[i]);
    }
    QuotedUnsafeRun(u, x, v, AlwaysSafeText);
  }

  /** `user@host` quotes to `user.host`. */
  lemma QuotedTextExample()
    ensures Quoted("user" + "@" + "host", AlwaysSafeText) == "user" + "." + "host"
  {
    QuotedTextWords("user", "@", "host");
  }
}
