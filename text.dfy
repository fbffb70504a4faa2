/** The few Python string and POSIX path operations the editor relies on:
    str.rfind/find for one character, str.lower (ASCII only), str.split,
    str.replace, the `in` test on strings, int formatting, and
    os.path.basename / os.path.splitext / os.path.join with the '/' separator. */
module Text {

  /** Index of the last occurrence of `c` in `s`, or -1 (`s.rfind(c)`). */
  function LastIndexOf(s: string, c: char): (r: int)
    ensures -1 <= r < |s|
    ensures r >= 0 ==> s[r] == c
    ensures forall j :: r < j < |s| ==> s[j] != c
    decreases |s|
  {
    if |s| == 0 then -1
    else if s[|s| - 1] == c then |s| - 1
    else LastIndexOf(s[..|s| - 1], c)
  }

  /** Index of the first occurrence of `c` in `s`, or -1 (`s.find(c)`). */
  function IndexOf(s: string, c: char): (r: int)
    ensures -1 <= r < |s|
    ensures r >= 0 ==> s[r] == c
    ensures forall j :: 0 <= j < |s| && (r < 0 || j < r) ==> s[j] != c
    decreases |s|
  {
    if |s| == 0 then -1
    else if s[0] == c then 0
    else
      var r := IndexOf(s[1..], c);
      if r < 0 then -1 else r + 1
  }

  lemma {:induction false} IndexOfAfterPrefix(a: string, c: char, b: string)
    requires c !in a
    ensures IndexOf(a + [c] + b, c) == |a|
    decreases |a|
  {
    if |a| > 0 {
      assert (a + [c] + b)[1..] == a[1..] + [c] + b;
      IndexOfAfterPrefix(a[1..], c, b);
    }
  }

  // ---------------------------------------------------------------------
  // Case folding (ASCII only)

  function LowerChar(c: char): char {
    if 'A' <= c <= 'Z' then (c as int + 32) as char else c
  }

  function Lower(s: string): string {
    if s == [] then [] else [LowerChar(s[0])] + Lower(s[1..])
  }

  /** Lower-casing works character by character and keeps the length. */
  lemma {:induction false} LowerAt(s: string)
    ensures |Lower(s)| == |s|
    ensures forall i :: 0 <= i < |s| ==> Lower(s)[i] == LowerChar(s[i])
  {
    if s != [] {
      LowerAt(s[1..]);
    }
  }

  // ---------------------------------------------------------------------
  // Substrings, str.replace and str.split

  /** `t in s` for Python strings: `t` occurs somewhere in `s`. */
  predicate Contains(s: string, t: string)
    decreases |s|
  {
    t <= s || (|s| > 0 && Contains(s[1..], t))
  }

  lemma {:induction false} ContainsLength(s: string, t: string)
    requires Contains(s, t)
    ensures |t| <= |s|
    decreases |s|
  {
    if !(t <= s) {
      ContainsLength(s[1..], t);
    }
  }

  /** An occurrence of `t` is also an occurrence of each prefix of `t`. */
  lemma {:induction false} ContainsPrefixOf(s: string, t: string, u: string)
    requires Contains(s, t) && u <= t
    ensures Contains(s, u)
    decreases |s|
  {
    if !(t <= s) {
      ContainsPrefixOf(s[1..], t, u);
    }
  }

  /** Text put in front of a string keeps what the string contains. */
  lemma {:induction false} ContainsAfterPrefix(a: string, s: string, t: string)
    requires Contains(s, t)
    ensures Contains(a + s, t)
    decreases |a|
  {
    if |a| == 0 {
      assert a + s == s;
    } else {
      assert (a + s)[1..] == a[1..] + s;
      ContainsAfterPrefix(a[1..], s, t);
    }
  }

  /** `s.replace(pat, rep)`: every non-overlapping occurrence of `pat`,
      scanning from the left, is replaced by `rep`. */
  function Replace(s: string, pat: string, rep: string): string
    requires |pat| > 0
    decreases |s|
  {
    if |s| < |pat| then s
    else if s[..|pat|] == pat then rep + Replace(s[|pat|..], pat, rep)
    else [s[0]] + Replace(s[1..], pat, rep)
  }

  /** Without an occurrence of `pat` nothing is replaced. */
  lemma {:induction false} ReplaceAbsent(s: string, pat: string, rep: string)
    requires |pat| > 0 && !Contains(s, pat)
    ensures Replace(s, pat, rep) == s
    decreases |s|
  {
    if |s| >= |pat| {
      assert s[..|pat|] != pat;
      ReplaceAbsent(s[1..], pat, rep);
    }
  }

  /** A replacement at least as long as the pattern never shortens the string,
      and a strictly longer one strictly lengthens a string that contains it. */
  lemma {:induction false} ReplaceLength(s: string, pat: string, rep: string)
    requires 0 < |pat| <= |rep|
    ensures |Replace(s, pat, rep)| >= |s|
    ensures |pat| < |rep| && Contains(s, pat) ==> |Replace(s, pat, rep)| > |s|
    decreases |s|
  {
    if |s| < |pat| {
      if Contains(s, pat) {
        ContainsLength(s, pat);
      }
    } else if s[..|pat|] == pat {
      ReplaceLength(s[|pat|..], pat, rep);
    } else {
      ReplaceLength(s[1..], pat, rep);
    }
  }

  /** Replacing an occurring pattern puts the replacement into the result. */
  lemma {:induction false} ReplaceIntroduces(s: string, pat: string, rep: string)
    requires |pat| > 0 && Contains(s, pat)
    ensures Contains(Replace(s, pat, rep), rep)
    decreases |s|
  {
    ContainsLength(s, pat);
    if s[..|pat|] == pat {
      var r := Replace(s, pat, rep);
      assert r == rep + Replace(s[|pat|..], pat, rep);
      assert rep <= r;
    } else {
      assert !(pat <= s);
      ReplaceIntroduces(s[1..], pat, rep);
      ContainsAfterPrefix([s[0]], Replace(s[1..], pat, rep), rep);
    }
  }

  /** Two different replacements of the same length give different results
      on a string that contains the pattern. */
  lemma {:induction false} ReplaceDistinct(s: string, pat: string, r0: string, r1: string)
    requires |pat| > 0 && Contains(s, pat) && |r0| == |r1| && r0 != r1
    ensures Replace(s, pat, r0) != Replace(s, pat, r1)
    decreases |s|
  {
    ContainsLength(s, pat);
    if s[..|pat|] == pat {
      var x, y := Replace(s, pat, r0), Replace(s, pat, r1);
      assert x[..|r0|] == r0 && y[..|r1|] == r1;
    } else {
      assert !(pat <= s);
      ReplaceDistinct(s[1..], pat, r0, r1);
      var x, y := Replace(s, pat, r0), Replace(s, pat, r1);
      assert x[1..] == Replace(s[1..], pat, r0) && y[1..] == Replace(s[1..], pat, r1);
    }
  }

  /** `s.split(c)`: the pieces between the occurrences of `c`. */
  function Split(s: string, c: char): (parts: seq<string>)
    ensures |parts| >= 1
    ensures forall k :: 0 <= k < |parts| ==> c !in parts[k]
    decreases |s|
  {
    var i := IndexOf(s, c);
    if i < 0 then
      assert forall j :: 0 <= j < |s| ==> s[j] != c;
      [s]
    else
      var head := s[..i];
      assert forall j :: 0 <= j < |head| ==> head[j] == s[j] != c;
      [head] + Split(s[i + 1..], c)
  }

  /** Text before the first separator is the first piece. */
  lemma SplitAfterFirst(a: string, c: char, rest: string)
    requires c !in a
    ensures Split(a + [c] + rest, c) == [a] + Split(rest, c)
  {
    var s := a + [c] + rest;
    IndexOfAfterPrefix(a, c, rest);
    assert s[..|a|] == a && s[|a| + 1..] == rest;
  }

  /** A piece followed by the end or by a separator comes first. */
  lemma SplitFirstPiece(t: string, c: char, b: string)
    requires c !in t && (b == "" || b[0] == c)
    ensures Split(t + b, c)[0] == t
  {
    if b == "" {
      assert t + b == t;
      assert IndexOf(t, c) < 0;
    } else {
      assert t + b == t + [c] + b[1..];
      SplitAfterFirst(t, c, b[1..]);
    }
  }

  /** The last `k` elements of a suffix are the last `k` of the whole. */
  lemma SuffixOfSuffix<T>(s: seq<T>, x: int, k: int)
    requires 0 <= x <= |s| && 0 <= k <= |s| - x
    ensures s[x..][|s| - x - k..] == s[|s| - k..]
  {
  }

  /** A split has a second piece exactly when the separator occurs. */
  lemma {:induction false} SplitHasSecond(s: string, c: char)
    ensures |Split(s, c)| >= 2 <==> c in s
  {
    var i := IndexOf(s, c);
    if c in s {
      var j :| 0 <= j < |s| && s[j] == c;
      assert i >= 0;
    }
  }

  // ---------------------------------------------------------------------
  // Decimal formatting of counters (`f"{n}"` for n >= 0)

  function DigitChar(d: nat): char
    requires d < 10
  {
    ('0' as int + d) as char
  }

  predicate IsDigits(s: string) {
    forall i :: 0 <= i < |s| ==> '0' <= s[i] <= '9'
  }

  /** The decimal numeral of `n`, without leading zeros. */
  function Dec(n: nat): (r: string)
    ensures |r| >= 1 && IsDigits(r)
    ensures r[0] == '0' ==> n == 0
  {
    if n < 10 then [DigitChar(n)] else Dec(n / 10) + [DigitChar(n % 10)]
  }

  /** `f"{n}"` for any integer: a minus sign before the numeral of |n|. */
  function IntToString(n: int): (r: string)
    ensures |r| >= 1 && (r[0] == '-' <==> n < 0)
  {
    if n < 0 then "-" + Dec(-n) else Dec(n)
  }

  // ---------------------------------------------------------------------
  // POSIX paths

  /** `os.path.basename(p)`: what follows the last '/'. */
  function Basename(p: string): string {
    p[LastIndexOf(p, '/') + 1..]
  }

  /** The base name is the path's suffix after its last separator: it holds no
      separator, and one comes right before it unless it is the whole path. */
  lemma BasenameSuffix(p: string)
    ensures |Basename(p)| <= |p| && p[|p| - |Basename(p)|..] == Basename(p)
    ensures '/' !in Basename(p)
    ensures |Basename(p)| < |p| ==> p[|p| - |Basename(p)| - 1] == '/'
  {
  }

  /** The extension `os.path.splitext(p)` splits off: from the last '.' of the
      last path component on, provided that component has something other
      than dots before it; otherwise "". */
  function Extension(p: string): (ext: string)
    ensures ext == "" || (|ext| <= |p| && p[|p| - |ext|..] == ext && ext[0] == '.')
    ensures '/' !in ext && forall i :: 0 < i < |ext| ==> ext[i] != '.'
  {
    var sep := LastIndexOf(p, '/');
    var dot := LastIndexOf(p, '.');
    if sep < dot && exists j :: sep < j < dot && p[j] != '.' then p[dot..] else ""
  }

  /** The last occurrence is the one with no occurrence after it. */
  lemma LastIndexOfIs(s: string, c: char, r: int)
    requires 0 <= r < |s| && s[r] == c
    requires forall j :: r < j < |s| ==> s[j] != c
    ensures LastIndexOf(s, c) == r
  {
  }

  /** The extension starts at the last dot when a non-dot character lies
      between it and the last separator. */
  lemma ExtensionAt(p: string, dot: int, j: int)
    requires LastIndexOf(p, '.') == dot
    requires LastIndexOf(p, '/') < j < dot && p[j] != '.'
    ensures Extension(p) == p[dot..]
  {
  }

  /** A non-empty extension starts at the last dot, and a non-dot character
      lies between that dot and the last separator. */
  lemma ExtensionWitness(p: string) returns (j: int)
    requires Extension(p) != ""
    ensures LastIndexOf(p, '/') < j < LastIndexOf(p, '.') && p[j] != '.'
    ensures Extension(p) == p[LastIndexOf(p, '.')..]
  {
    j :| LastIndexOf(p, '/') < j < LastIndexOf(p, '.') && p[j] != '.';
  }

  /** `os.path.join(a, b)` for one further component. */
  function JoinPath(a: string, b: string): string {
    if |b| > 0 && b[0] == '/' then b
    else if a == [] || a[|a| - 1] == '/' then a + b
    else a + "/" + b
  }

  /** The joined path ends with the component, and starts with the directory
      unless the component is absolute. */
  lemma JoinPathSpec(a: string, b: string)
    ensures var p := JoinPath(a, b);
      && |b| <= |p| && p[|p| - |b|..] == b
      && ((|b| == 0 || b[0] != '/') ==> a <= p)
  {
  }

  /** Joining one directory with two relative names gives two paths
      that are equal only when the names are. */
  lemma JoinPathInjective(dir: string, a: string, b: string)
    requires |a| == 0 || a[0] != '/'
    requires |b| == 0 || b[0] != '/'
    requires JoinPath(dir, a) == JoinPath(dir, b)
    ensures a == b
  {
    var p := JoinPath(dir, a);
    if dir == [] || dir[|dir| - 1] == '/' {
      assert a == p[|dir|..] == b;
    } else {
      assert a == p[|dir| + 1..] == b;
    }
  }
}
