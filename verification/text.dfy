/** The string primitives the converter relies on: Python's `str.strip()`,
    `str.lower()`, `str(int)` and `posixpath.join`, stated over `seq<char>`. */
module Text {

  /** Python's `str.isspace()`: the code points with bidirectional class
      WS, B or S, or general category Zs. */
  predicate IsSpace(c: char) {
    Occurs(c, Whitespace)
  }

  const Whitespace: string :=
    "\t\n\U{0B}\U{0C}\r\U{1C}\U{1D}\U{1E}\U{1F} \U{85}\U{A0}\U{1680}"
    + "\U{2000}\U{2001}\U{2002}\U{2003}\U{2004}\U{2005}\U{2006}\U{2007}\U{2008}\U{2009}\U{200A}"
    + "\U{2028}\U{2029}\U{202F}\U{205F}\U{3000}"

  /** Whether `c` is one of the characters of `chars`. */
  predicate Occurs(c: char, chars: string) {
    |chars| > 0 && (chars[0] == c || Occurs(c, chars[1..]))
  }

  lemma {:induction false} OccursIn(c: char, chars: string)
    ensures Occurs(c, chars) <==> c in chars
  {
    if |chars| > 0 {
      OccursIn(c, chars[1..]);
      assert c in chars <==> c == chars[0] || c in chars[1..];
    }
  }

  /** Printable ASCII other than the space is not whitespace. */
  lemma PrintableNotSpace(c: char)
    requires 0x20 < c as int < 0x7F
    ensures !IsSpace(c)
  {
    OccursIn(c, Whitespace);
  }

  predicate AllSpace(s: string) {
    forall k :: 0 <= k < |s| ==> IsSpace(s[k])
  }

  /** `r` sits at offset `i` of `s` and everything around it is whitespace. */
  predicate Framed(s: string, r: string, i: nat) {
    && i + |r| <= |s|
    && s[i..i + |r|] == r
    && AllSpace(s[..i])
    && AllSpace(s[i + |r|..])
  }

  /** The characters of a framed string are those of `s` from offset `i`. */
  lemma FramedChars(s: string, r: string, i: nat)
    requires Framed(s, r, i)
    ensures forall k :: 0 <= k < |r| ==> r[k] == s[i + k]
  {
    forall k | 0 <= k < |r| ensures r[k] == s[i + k] {
      assert r[k] == s[i..i + |r|][k];
    }
  }

  function TrimLeft(s: string): (r: string)
    ensures |r| <= |s| && r == s[|s| - |r|..]
    ensures AllSpace(s[..|s| - |r|])
    ensures r != [] ==> !IsSpace(r[0])
  {
    if |s| > 0 && IsSpace(s[0]) then
      var r := TrimLeft(s[1..]);
      SpaceBefore(s, r);
      r
    else s
  }

  /** A whitespace character in front of a trimmed suffix joins the
      removed prefix. */
  lemma SpaceBefore(s: string, r: string)
    requires |s| > 0 && IsSpace(s[0])
    requires |r| <= |s| - 1 && r == s[1..][|s| - 1 - |r|..] && AllSpace(s[1..][..|s| - 1 - |r|])
    ensures r == s[|s| - |r|..] && AllSpace(s[..|s| - |r|])
  {
    var n := |s| - |r|;
    assert s[n..] == s[1..][n - 1..];
    forall k | 0 <= k < n ensures IsSpace(s[..n][k]) {
      if k > 0 {
        assert s[..n][k] == s[1..][..n - 1][k - 1];
      }
    }
  }

  function TrimRight(s: string): (r: string)
    ensures |r| <= |s| && r == s[..|r|]
    ensures AllSpace(s[|r|..])
    ensures r != [] ==> !IsSpace(r[|r| - 1])
  {
    if |s| > 0 && IsSpace(s[|s| - 1]) then
      var r := TrimRight(s[..|s| - 1]);
      SpaceAfter(s, r);
      r
    else s
  }

  /** A whitespace character after a trimmed prefix joins the removed
      suffix. */
  lemma SpaceAfter(s: string, r: string)
    requires |s| > 0 && IsSpace(s[|s| - 1])
    requires |r| <= |s| - 1 && r == s[..|s| - 1][..|r|] && AllSpace(s[..|s| - 1][|r|..])
    ensures r == s[..|r|] && AllSpace(s[|r|..])
  {
    var m := |s| - 1;
    assert s[..|r|] == s[..m][..|r|];
    forall k | 0 <= k < |s| - |r| ensures IsSpace(s[|r|..][k]) {
      if k < m - |r| {
        assert s[|r|..][k] == s[..m][|r|..][k];
      }
    }
  }

  /** How many whitespace characters `strip()` removes from the front. */
  function LeadingSpaces(s: string): (n: nat)
    ensures n <= |s|
  {
    |s| - |TrimLeft(s)|
  }

  /** Python's `s.strip()`: drop the longest whitespace prefix and suffix. */
  function Trim(s: string): (r: string)
    ensures Framed(s, r, LeadingSpaces(s))
    ensures r == [] <==> AllSpace(s)
    ensures r != [] ==> !IsSpace(r[0]) && !IsSpace(r[|r| - 1])
  {
    TrimFacts(s);
    TrimRight(TrimLeft(s))
  }

  lemma TrimFacts(s: string)
    ensures Framed(s, TrimRight(TrimLeft(s)), LeadingSpaces(s))
    ensures TrimRight(TrimLeft(s)) == [] <==> AllSpace(s)
    ensures TrimRight(TrimLeft(s)) != [] ==> !IsSpace(TrimRight(TrimLeft(s))[0])
  {
    TrimFramed(s);
    TrimEmpty(s);
    TrimFirst(s);
  }

  lemma TrimFramed(s: string)
    ensures Framed(s, TrimRight(TrimLeft(s)), LeadingSpaces(s))
  {
    var t := TrimLeft(s);
    assert LeadingSpaces(s) == |s| - |t|;
    FramedBetween(s, t, TrimRight(t));
  }

  /** A suffix of `s` after whitespace, cut before whitespace, is framed. */
  lemma FramedBetween(s: string, t: string, r: string)
    requires |t| <= |s| && t == s[|s| - |t|..] && AllSpace(s[..|s| - |t|])
    requires |r| <= |t| && r == t[..|r|] && AllSpace(t[|r|..])
    ensures Framed(s, r, |s| - |t|)
  {
    var i := |s| - |t|;
    assert s[i..i + |r|] == r;
    assert s[i + |r|..] == t[|r|..];
  }

  lemma TrimEmpty(s: string)
    ensures TrimRight(TrimLeft(s)) == [] ==> AllSpace(s)
  {
    var t := TrimLeft(s);
    var r := TrimRight(t);
    if r == [] {
      assert AllSpace(t) by {
        assert t == t[|r|..];
      }
      assert t == [];
      assert s == s[..LeadingSpaces(s)];
    }
  }

  lemma TrimFirst(s: string)
    ensures TrimRight(TrimLeft(s)) != [] ==> !AllSpace(s) && !IsSpace(TrimRight(TrimLeft(s))[0])
  {
    var t := TrimLeft(s);
    var r := TrimRight(t);
    var i := LeadingSpaces(s);
    if r != [] {
      assert t == s[i..];
      assert r[0] == t[0] == s[i];
    }
  }

  /** Python's `str.lower()` restricted to ASCII: `A`-`Z` become `a`-`z`. */
  function LowerChar(c: char): char {
    if 'A' <= c <= 'Z' then (c as int + 32) as char else c
  }

  function Lower(s: string): (r: string)
    ensures |r| == |s|
    ensures forall k :: 0 <= k < |s| ==> r[k] == LowerChar(s[k])
  {
    seq(|s|, k requires 0 <= k < |s| => LowerChar(s[k]))
  }

  /** A string with no upper-case letter is its own lower-case form. */
  predicate NoUpper(s: string) {
    forall k :: 0 <= k < |s| ==> !('A' <= s[k] <= 'Z')
  }

  lemma LowerAppend(a: string, b: string)
    ensures Lower(a + b) == Lower(a) + Lower(b)
  {
  }

  lemma LowerNoUpper(s: string)
    requires NoUpper(s)
    ensures Lower(s) == s
  {
  }

  predicate IsDigit(c: char) {
    '0' <= c <= '9'
  }

  predicate AllDigits(s: string) {
    forall k :: 0 <= k < |s| ==> IsDigit(s[k])
  }

  function DigitChar(d: nat): (c: char)
    requires d < 10
    ensures IsDigit(c) && c as int - '0' as int == d
  {
    ('0' as int + d) as char
  }

  /** Python's `str(n)` for a non-negative integer: decimal digits, most
      significant first, without leading zeros. */
  function NatToString(n: nat): (r: string)
    ensures |r| >= 1 && AllDigits(r)
    ensures |r| > 1 ==> r[0] != '0'
    ensures n >= 10 ==> |r| >= 2
  {
    if n < 10 then [DigitChar(n)] else NatToString(n / 10) + [DigitChar(n % 10)]
  }

  /** The value of a string of decimal digits. */
  function DigitsValue(s: string): nat
    requires AllDigits(s)
  {
    if |s| == 0 then 0
    else 10 * DigitsValue(s[..|s| - 1]) + (s[|s| - 1] as int - '0' as int)
  }

  lemma {:induction false} NatToStringRoundTrip(n: nat)
    ensures DigitsValue(NatToString(n)) == n
  {
    if n >= 10 {
      var s := NatToString(n);
      assert s[..|s| - 1] == NatToString(n / 10);
      NatToStringRoundTrip(n / 10);
    }
  }

  lemma NatToStringInjective(a: nat, b: nat)
    requires NatToString(a) == NatToString(b)
    ensures a == b
  {
    NatToStringRoundTrip(a);
    NatToStringRoundTrip(b);
  }

  /** Python's `str(i)` for any integer: a minus sign before the digits of
      a negative value. */
  function IntToString(i: int): (r: string)
    ensures |r| >= 1
    ensures forall k :: 0 <= k < |r| ==> IsDigit(r[k]) || r[k] == '-'
  {
    if i < 0 then "-" + NatToString(-i) else NatToString(i)
  }

  /** `str(i)` can be read back: the sign and the digits give `i`. */
  lemma IntToStringRoundTrip(i: int)
    ensures IntToString(i)[0] == '-' <==> i < 0
    ensures i < 0 ==> AllDigits(IntToString(i)[1..]) && DigitsValue(IntToString(i)[1..]) == -i
    ensures i >= 0 ==> AllDigits(IntToString(i)) && DigitsValue(IntToString(i)) == i
  {
    if i < 0 {
      var d := NatToString(-i);
      assert IntToString(i) == "-" + d;
      assert ("-" + d)[1..] == d;
      NatToStringRoundTrip(-i);
    } else {
      var d := NatToString(i);
      assert IntToString(i) == d;
      assert IsDigit(d[0]);
      NatToStringRoundTrip(i);
    }
  }

  function EndsWith(s: string, suffix: string): bool {
    |suffix| <= |s| && s[|s| - |suffix|..] == suffix
  }

  /** The file name ends in `.md`, spelled out character by character. */
  predicate IsMarkdown(path: string) {
    |path| >= 3 && path[|path| - 3] == '.' && path[|path| - 2] == 'm' && path[|path| - 1] == 'd'
  }

  lemma MarkdownAppend(a: string, b: string)
    requires IsMarkdown(b)
    ensures IsMarkdown(a + b)
  {
    var c := a + b;
    assert c[|c| - 1] == b[|b| - 1] && c[|c| - 2] == b[|b| - 2] && c[|c| - 3] == b[|b| - 3];
  }

  lemma MarkdownEnding(c: string, b: string)
    requires IsMarkdown(b) && EndsWith(c, b)
    ensures IsMarkdown(c)
  {
    var n := |c| - |b|;
    assert c[n..] == b;
    assert c[|c| - 1] == c[n..][|b| - 1];
    assert c[|c| - 2] == c[n..][|b| - 2];
    assert c[|c| - 3] == c[n..][|b| - 3];
  }

  lemma MarkdownEndsWith(path: string)
    ensures IsMarkdown(path) <==> EndsWith(path, ".md")
  {
    if IsMarkdown(path) {
      assert path[|path| - 3..] == ".md";
    }
  }

  /** `posixpath.join(a, b)`: an absolute `b` replaces `a`; otherwise the two
      are joined by exactly one separator. */
  function Join(a: string, b: string): (r: string)
    ensures |b| > 0 && b[0] == '/' ==> r == b
    ensures EndsWith(r, b)
    ensures !(|b| > 0 && b[0] == '/') ==> |a| <= |r| && r[..|a|] == a
  {
    if |b| > 0 && b[0] == '/' then b
    else if a == "" || a[|a| - 1] == '/' then a + b
    else a + "/" + b
  }

  /** A relative name under a directory not ending in `/` gets a
      separator. */
  lemma JoinBelow(a: string, b: string)
    requires |a| > 0 && a[|a| - 1] != '/' && (|b| == 0 || b[0] != '/')
    ensures Join(a, b) == a + "/" + b
  {
  }

  /** Joining distributes over a tail that cannot itself be read as an
      absolute path. */
  lemma JoinAppend(a: string, x: string, y: string)
    requires |x| > 0 || |y| == 0 || y[0] != '/'
    ensures Join(a, x + y) == Join(a, x) + y
  {
    if |x| > 0 {
      assert (x + y)[0] == x[0];
    }
  }
}
