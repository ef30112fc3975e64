/**
 * Character classes and string helpers shared by the date parser, the
 * code-fence stripper and the commit-message formatter: Python's notion of
 * whitespace (`str.isspace`, the regular-expression class `\s`), `str.strip`,
 * `re.sub(r"\s+", " ", s)`, comparison of `str` values, `str(n)` for a count
 * and `", ".join(...)`.
 */
module Text {

  /**
   * Python's whitespace: the characters for which `str.isspace()` holds, which
   * are also the characters `\s` matches in a `str` pattern and the ones
   * `str.strip()` removes.
   */
  const SpaceChars: set<char> := {
    '\t', '\n', '\U{0B}', '\U{0C}', '\r', '\U{1C}', '\U{1D}', '\U{1E}', '\U{1F}', ' ',
    '\U{85}', '\U{A0}', '\U{1680}', '\U{2000}', '\U{2001}', '\U{2002}', '\U{2003}', '\U{2004}',
    '\U{2005}', '\U{2006}', '\U{2007}', '\U{2008}', '\U{2009}', '\U{200A}', '\U{2028}',
    '\U{2029}', '\U{202F}', '\U{205F}', '\U{3000}'
  }

  predicate IsSpace(c: char)
  {
    c in SpaceChars
  }

  /** Letters, digits and the underscore are never whitespace. */
  lemma WordCharNotSpace(c: char)
    requires IsWordChar(c) || c == ',' || c == '-' || c == '`'
    ensures !IsSpace(c)
  {
  }

  predicate IsDigit(c: char)
  {
    '0' <= c <= '9'
  }

  predicate IsLetter(c: char)
  {
    'a' <= c <= 'z' || 'A' <= c <= 'Z'
  }

  /** The class `\w`, restricted to ASCII: letters, digits and the underscore. */
  predicate IsWordChar(c: char)
  {
    IsLetter(c) || IsDigit(c) || c == '_'
  }

  predicate AllSpace(s: string)
  {
    forall i :: 0 <= i < |s| ==> IsSpace(s[i])
  }

  predicate NoSpace(s: string)
  {
    forall i :: 0 <= i < |s| ==> !IsSpace(s[i])
  }

  predicate AllDigits(s: string)
  {
    forall i :: 0 <= i < |s| ==> IsDigit(s[i])
  }

  /** Drops the leading whitespace: the greedy `\s*` at the front of a string. */
  function SkipSpace(s: string): (r: string)
    ensures |r| <= |s| && r == s[|s| - |r|..]
    ensures AllSpace(s[..|s| - |r|])
    ensures r == [] || !IsSpace(r[0])
  {
    if s != [] && IsSpace(s[0]) then
      var r := SkipSpace(s[1..]);
      assert s[..|s| - |r|] == [s[0]] + s[1..][..|s| - 1 - |r|];
      r
    else
      s
  }

  /** Drops the trailing whitespace. */
  function TrimEnd(s: string): (r: string)
    ensures |r| <= |s| && r == s[..|r|]
    ensures AllSpace(s[|r|..])
    ensures r == [] || !IsSpace(r[|r| - 1])
  {
    if s != [] && IsSpace(s[|s| - 1]) then
      var r := TrimEnd(s[..|s| - 1]);
      assert s[|r|..] == s[..|s| - 1][|r|..] + [s[|s| - 1]];
      r
    else
      s
  }

  /** The number of whitespace characters `str.strip()` removes from the front. */
  function LeadingSpace(s: string): nat
  {
    |s| - |SkipSpace(s)|
  }

  /** The whitespace `SkipSpace` passes over. */
  function SkippedSpace(s: string): (w: string)
    ensures AllSpace(w) && s == w + SkipSpace(s)
  {
    s[..LeadingSpace(s)]
  }

  /** Slicing a suffix of a text is slicing the text further on. */
  lemma SuffixSlices(s: string, a: nat, n: nat)
    requires a + n <= |s|
    ensures s[a..][..n] == s[a..a + n] && s[a..][n..] == s[a + n..]
  {
  }

  /** A concatenation splits back into its parts. */
  lemma ConcatParts(a: string, b: string)
    ensures (a + b)[..|a|] == a && (a + b)[|a|..] == b
  {
  }

  /** A text is its first `n` characters followed by the rest. */
  lemma SplitAt(t: string, n: nat)
    requires n <= |t|
    ensures t == t[..n] + t[n..]
  {
  }

  /** Adjacent slices of a text join into one slice. */
  lemma JoinThree(t: string, a: nat, b: nat, c: nat, d: nat)
    requires a <= b <= c <= d <= |t|
    ensures t[a..b] + t[b..c] + t[c..d] == t[a..d]
  {
  }

  /** A text is its leading whitespace, then `n` characters, then the rest. */
  lemma SplitAfterSpace(t: string, n: nat)
    requires n <= |SkipSpace(t)|
    ensures t == SkippedSpace(t) + (SkipSpace(t)[..n] + SkipSpace(t)[n..])
    ensures |SkippedSpace(t)| == |t| - |SkipSpace(t)|
  {
    SplitAt(SkipSpace(t), n);
  }

  /** Where a regular expression's `$` can match: the end of the text, or just before a final line feed. */
  function MatchEnd(text: string): (e: nat)
    ensures e <= |text|
    ensures e == |text| || (e == |text| - 1 && text[e] == '\n')
  {
    if text != [] && text[|text| - 1] == '\n' then |text| - 1 else |text|
  }

  /** Python's `str.strip()` with no argument. */
  function Strip(s: string): (r: string)
    ensures LeadingSpace(s) + |r| <= |s|
    ensures r == s[LeadingSpace(s)..LeadingSpace(s) + |r|]
    ensures AllSpace(s[..LeadingSpace(s)]) && AllSpace(s[LeadingSpace(s) + |r|..])
    ensures r == [] || (!IsSpace(r[0]) && !IsSpace(r[|r| - 1]))
  {
    var t := SkipSpace(s);
    var r := TrimEnd(t);
    var a := |s| - |t|;
    SuffixSlices(s, a, |r|);
    r
  }

  lemma {:induction false} SkipSpaceOver(w: string, x: string)
    requires AllSpace(w)
    requires x == [] || !IsSpace(x[0])
    ensures SkipSpace(w + x) == x
  {
    if w != [] {
      assert (w + x)[1..] == w[1..] + x;
      SkipSpaceOver(w[1..], x);
    } else {
      assert w + x == x;
    }
  }

  lemma {:induction false} TrimEndOver(x: string, w: string)
    requires AllSpace(w)
    requires x == [] || !IsSpace(x[|x| - 1])
    ensures TrimEnd(x + w) == x
  {
    if w != [] {
      assert (x + w)[..|x + w| - 1] == x + w[..|w| - 1];
      TrimEndOver(x, w[..|w| - 1]);
    } else {
      assert x + w == x;
    }
  }

  /** `strip()` returns the one slice that has only whitespace around it and none at its ends. */
  lemma StripUnique(x: string, m: string, y: string)
    requires AllSpace(x) && AllSpace(y)
    requires m == [] || (!IsSpace(m[0]) && !IsSpace(m[|m| - 1]))
    ensures Strip(x + m + y) == m
  {
    if m == [] {
      assert x + m + y == x + y;
      SkipSpaceOver(x + y, []);
      assert x + y + [] == x + y;
    } else {
      assert x + m + y == x + (m + y);
      SkipSpaceOver(x, m + y);
      TrimEndOver(m, y);
    }
  }

  lemma AllSpaceConcat(a: string, b: string)
    requires AllSpace(a) && AllSpace(b)
    ensures AllSpace(a + b)
  {
    forall i | 0 <= i < |a + b| ensures IsSpace((a + b)[i]) {
      if i < |a| { assert (a + b)[i] == a[i]; } else { assert (a + b)[i] == b[i - |a|]; }
    }
  }

  lemma Regroup(x: string, g: string, y: string, a: nat, k: nat)
    requires a + k <= |g|
    ensures x + g + y == (x + g[..a]) + g[a..a + k] + (g[a + k..] + y)
  {
    assert g == g[..a] + g[a..a + k] + g[a + k..];
  }

  /** Stripping ignores whitespace added at either end. */
  lemma StripPadded(x: string, g: string, y: string)
    requires AllSpace(x) && AllSpace(y)
    ensures Strip(x + g + y) == Strip(g)
  {
    var m := Strip(g);
    var a := LeadingSpace(g);
    var g1, g2 := g[..a], g[a + |m|..];
    Regroup(x, g, y, a, |m|);
    AllSpaceConcat(x, g1);
    AllSpaceConcat(g2, y);
    StripUnique(x + g1, m, g2 + y);
  }

  /**
   * `re.sub(r"\s+", " ", s)`: every maximal run of whitespace becomes a single
   * space and every other character is kept, in order.
   */
  function Collapse(s: string): (r: string)
    ensures |r| <= |s|
    ensures r == [] <==> s == []
    ensures s != [] && !IsSpace(s[0]) ==> r[0] == s[0]
    ensures s != [] && IsSpace(s[0]) ==> r[0] == ' '
    decreases |s|
  {
    if s == [] then []
    else if IsSpace(s[0]) then " " + Collapse(SkipSpace(s))
    else [s[0]] + Collapse(s[1..])
  }

  /** No whitespace but the plain space, and never two whitespace characters in a row. */
  predicate SingleSpaced(r: string)
  {
    (forall i :: 0 <= i < |r| && IsSpace(r[i]) ==> r[i] == ' ')
    && (forall i :: 0 <= i < |r| - 1 && r[i] == ' ' ==> r[i + 1] != ' ')
  }

  /** What `Collapse` leaves behind is single-spaced. */
  lemma {:induction false} CollapseSingleSpaced(s: string)
    ensures SingleSpaced(Collapse(s))
    decreases |s|
  {
    if s == [] {
    } else if IsSpace(s[0]) {
      var c := Collapse(SkipSpace(s));
      CollapseSingleSpaced(SkipSpace(s));
      assert Collapse(s) == " " + c;
    } else {
      var c := Collapse(s[1..]);
      CollapseSingleSpaced(s[1..]);
      assert Collapse(s) == [s[0]] + c;
    }
  }

  /** The characters of `s` that are not whitespace. */
  function Visible(s: string): string
  {
    if s == [] then [] else (if IsSpace(s[0]) then [] else [s[0]]) + Visible(s[1..])
  }

  lemma {:induction false} VisibleSkip(s: string)
    ensures Visible(SkipSpace(s)) == Visible(s)
  {
    if s != [] && IsSpace(s[0]) {
      VisibleSkip(s[1..]);
    }
  }

  /** Collapsing whitespace keeps every other character, in order. */
  lemma {:induction false} CollapseKeepsVisible(s: string)
    ensures Visible(Collapse(s)) == Visible(s)
    decreases |s|
  {
    if s == [] {
    } else if IsSpace(s[0]) {
      var t := SkipSpace(s);
      CollapseKeepsVisible(t);
      VisibleSkip(s);
      assert (" " + Collapse(t))[1..] == Collapse(t);
    } else {
      CollapseKeepsVisible(s[1..]);
      assert ([s[0]] + Collapse(s[1..]))[1..] == Collapse(s[1..]);
    }
  }

  /** Collapsing twice is collapsing once. */
  lemma {:induction false} CollapseIdempotent(s: string)
    ensures Collapse(Collapse(s)) == Collapse(s)
    decreases |s|
  {
    if s == [] {
    } else if IsSpace(s[0]) {
      var t := SkipSpace(s);
      var c := Collapse(t);
      CollapseIdempotent(t);
      assert !(c != [] && IsSpace(c[0]));
      SkipSpaceOver(" ", c);
      assert (" " + c)[0] == ' ';
    } else {
      var c := Collapse(s[1..]);
      CollapseIdempotent(s[1..]);
      assert ([s[0]] + c)[1..] == c;
    }
  }

  lemma ConcatTail(x: string, y: string)
    requires x != []
    ensures (x + y)[0] == x[0] && (x + y)[1..] == x[1..] + y
    ensures x == [x[0]] + x[1..]
  {
  }

  /** One visible character at the front is kept as it is. */
  lemma CollapseVisibleStep(s: string)
    requires s != [] && !IsSpace(s[0])
    ensures Collapse(s) == [s[0]] + Collapse(s[1..])
  {
  }

  lemma NoSpaceTail(x: string)
    requires x != [] && NoSpace(x)
    ensures !IsSpace(x[0]) && NoSpace(x[1..])
  {
    var tail := x[1..];
    forall i | 0 <= i < |tail|
      ensures !IsSpace(tail[i])
    {
      assert tail[i] == x[i + 1];
    }
  }

  lemma Regroup3(c: string, t: string, z: string)
    ensures c + (t + z) == (c + t) + z
  {
  }

  /** A prefix without whitespace passes through `Collapse` unchanged. */
  lemma {:induction false} CollapseVisiblePrefix(x: string, y: string)
    requires NoSpace(x)
    ensures Collapse(x + y) == x + Collapse(y)
  {
    if x == [] {
      assert x + y == y;
    } else {
      var tail := x[1..];
      NoSpaceTail(x);
      CollapseVisiblePrefix(tail, y);
      ConcatTail(x, y);
      CollapseVisibleStep(x + y);
      Regroup3([x[0]], tail, Collapse(y));
    }
  }

  /** A leading whitespace run becomes one space. */
  lemma CollapseSpacePrefix(w: string, y: string)
    requires w != [] && AllSpace(w)
    requires y == [] || !IsSpace(y[0])
    ensures Collapse(w + y) == " " + Collapse(y)
  {
    SkipSpaceOver(w, y);
  }

  /**
   * Python's `<` on `str`: code points compared from the left, the first
   * difference decides, and a proper prefix is the smaller string.
   */
  predicate StrLess(a: string, b: string)
  {
    if a == [] then b != []
    else if b == [] then false
    else if a[0] != b[0] then a[0] < b[0]
    else StrLess(a[1..], b[1..])
  }

  lemma {:induction false} StrLessIrreflexive(a: string)
    ensures !StrLess(a, a)
  {
    if a != [] {
      StrLessIrreflexive(a[1..]);
    }
  }

  lemma {:induction false} StrLessAsymmetric(a: string, b: string)
    ensures !(StrLess(a, b) && StrLess(b, a))
  {
    if a != [] && b != [] && a[0] == b[0] {
      StrLessAsymmetric(a[1..], b[1..]);
    }
  }

  lemma {:induction false} StrLessTransitive(a: string, b: string, c: string)
    requires StrLess(a, b) && StrLess(b, c)
    ensures StrLess(a, c)
  {
    if a != [] && a[0] == b[0] && b[0] == c[0] {
      StrLessTransitive(a[1..], b[1..], c[1..]);
    }
  }

  lemma {:induction false} StrLessTotal(a: string, b: string)
    ensures a == b || StrLess(a, b) || StrLess(b, a)
  {
    if a != [] && b != [] && a[0] == b[0] {
      StrLessTotal(a[1..], b[1..]);
      if a[1..] == b[1..] {
        assert a == [a[0]] + a[1..] && b == [b[0]] + b[1..];
      }
    }
  }

  /** "Not less than" is transitive, which is what a sort on `<` keys relies on. */
  lemma NotLessTransitive(a: string, b: string, c: string)
    requires !StrLess(a, b) && !StrLess(b, c)
    ensures !StrLess(a, c)
  {
    StrLessTotal(a, b);
    StrLessTotal(b, c);
    if StrLess(a, c) {
      if a == b {
      } else if b == c {
      } else {
        StrLessTransitive(c, b, a);
        StrLessAsymmetric(a, c);
      }
    }
  }

  /** Comparing two concatenations whose first parts have the same length. */
  lemma {:induction false} StrLessConcat(a1: string, b1: string, a2: string, b2: string)
    requires |a1| == |a2|
    ensures StrLess(a1 + b1, a2 + b2) <==> StrLess(a1, a2) || (a1 == a2 && StrLess(b1, b2))
  {
    if a1 == [] {
      assert a1 + b1 == b1 && a2 + b2 == b2;
    } else {
      assert (a1 + b1)[0] == a1[0] && (a2 + b2)[0] == a2[0];
      assert (a1 + b1)[1..] == a1[1..] + b1 && (a2 + b2)[1..] == a2[1..] + b2;
      StrLessConcat(a1[1..], b1, a2[1..], b2);
      if a1[0] == a2[0] {
        assert a1 == [a1[0]] + a1[1..] && a2 == [a2[0]] + a2[1..];
      }
    }
  }

  function DigitChar(k: int): (c: char)
    requires 0 <= k < 10
    ensures IsDigit(c)
  {
    ('0' as int + k) as char
  }

  function DigitValue(c: char): int
  {
    c as int - '0' as int
  }

  /** Python's `str(n)` for a non-negative integer: decimal digits, no leading zero. */
  function NatToString(n: nat): (s: string)
    ensures |s| >= 1 && AllDigits(s)
    ensures |s| > 1 ==> s[0] != '0'
  {
    if n < 10 then [DigitChar(n)] else NatToString(n / 10) + [DigitChar(n % 10)]
  }

  /** Reads a string of decimal digits back as a number. */
  function DecimalValue(s: string): nat
    requires AllDigits(s)
  {
    if s == [] then 0 else 10 * DecimalValue(s[..|s| - 1]) + DigitValue(s[|s| - 1])
  }

  /** `str(n)` is read back as `n`. */
  lemma {:induction false} DecimalRoundTrip(n: nat)
    ensures DecimalValue(NatToString(n)) == n
  {
    if n >= 10 {
      DecimalRoundTrip(n / 10);
      var s := NatToString(n);
      assert s[..|s| - 1] == NatToString(n / 10);
    }
  }

  /** Python's `sep.join(xs)`. */
  function Join(sep: string, xs: seq<string>): (r: string)
    ensures xs != [] ==> |r| >= |xs[0]| && r[..|xs[0]|] == xs[0]
    ensures |xs| > 1 ==> |r| >= |xs[0]| + |sep| && r[|xs[0]|..|xs[0]| + |sep|] == sep
    ensures xs == [] ==> r == []
  {
    if xs == [] then []
    else if |xs| == 1 then xs[0]
    else xs[0] + sep + Join(sep, xs[1..])
  }
}
