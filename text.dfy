/** The pieces of Python's string handling that the scope parser relies on:
    str.strip(), str.startswith(), str.split(sep), and decimal digit strings
    (int(s) on digit strings, str(n) on naturals). */
module Text {

  /** The characters for which Python's str.isspace() holds: the ASCII
      controls TAB..CR and FS..US, space, and the Unicode separators. */
  const SpaceChars: set<char> := {
    '\t', '\n', '\U{000B}', '\U{000C}', '\r',
    '\U{001C}', '\U{001D}', '\U{001E}', '\U{001F}', ' ',
    '\U{0085}', '\U{00A0}', '\U{1680}',
    '\U{2000}', '\U{2001}', '\U{2002}', '\U{2003}', '\U{2004}', '\U{2005}',
    '\U{2006}', '\U{2007}', '\U{2008}', '\U{2009}', '\U{200A}',
    '\U{2028}', '\U{2029}', '\U{202F}', '\U{205F}', '\U{3000}'
  }

  /** str.isspace() for a single character. */
  predicate IsSpace(c: char) {
    c in SpaceChars
  }

  /** Neither end of s is whitespace. */
  predicate Trimmed(s: string) {
    s == [] || (!IsSpace(s[0]) && !IsSpace(s[|s| - 1]))
  }

  /** The number of whitespace characters at the start of s. */
  function LeadingSpace(s: string): (n: nat)
    ensures n <= |s|
    ensures forall i :: 0 <= i < n ==> IsSpace(s[i])
    ensures n < |s| ==> !IsSpace(s[n])
  {
    if s != [] && IsSpace(s[0]) then 1 + LeadingSpace(s[1..]) else 0
  }

  /** The number of whitespace characters at the end of s. */
  function TrailingSpace(s: string): (n: nat)
    ensures n <= |s|
    ensures forall i :: |s| - n <= i < |s| ==> IsSpace(s[i])
    ensures n < |s| ==> !IsSpace(s[|s| - 1 - n])
  {
    if s != [] && IsSpace(s[|s| - 1]) then 1 + TrailingSpace(s[..|s| - 1]) else 0
  }

  /** s.lstrip(): s without its leading whitespace. */
  function TrimLeft(s: string): (r: string)
    ensures |r| <= |s| && r == s[|s| - |r|..]
    ensures forall i :: 0 <= i < |s| - |r| ==> IsSpace(s[i])
    ensures r == [] || !IsSpace(r[0])
  {
    s[LeadingSpace(s)..]
  }

  /** s.rstrip(): s without its trailing whitespace. */
  function TrimRight(s: string): (r: string)
    ensures |r| <= |s| && r == s[..|r|]
    ensures forall i :: |r| <= i < |s| ==> IsSpace(s[i])
    ensures r == [] || !IsSpace(r[|r| - 1])
  {
    s[..|s| - TrailingSpace(s)]
  }

  /** s.strip(): s without its leading and trailing whitespace. */
  function Strip(s: string): (r: string)
    ensures Trimmed(r)
    ensures Trimmed(s) ==> r == s
  {
    var l := TrimLeft(s);
    assert l != [] ==> TrimRight(l)[0] == l[0];
    TrimRight(l)
  }

  /** What strip() removes: only whitespace, and only at the two ends. */
  lemma StripRemovesOuterSpace(s: string)
    ensures var i, j := LeadingSpace(s), LeadingSpace(s) + |Strip(s)|;
      && j <= |s|
      && Strip(s) == s[i..j]
      && (forall k :: 0 <= k < i ==> IsSpace(s[k]))
      && (forall k :: j <= k < |s| ==> IsSpace(s[k]))
  {
    var l := TrimLeft(s);
    var m := |l| - TrailingSpace(l);
    assert Strip(s) == l[..m];
    InnerSlice(s, LeadingSpace(s), l, m, Strip(s));
  }

  /** A prefix r of the suffix l of s, followed in l only by whitespace, is
      a slice of s followed in s only by whitespace. */
  lemma InnerSlice(s: string, i: nat, l: string, m: nat, r: string)
    requires i <= |s| && l == s[i..] && m <= |l| && r == l[..m]
    requires forall k :: m <= k < |l| ==> IsSpace(l[k])
    ensures i + |r| <= |s| && r == s[i..i + |r|]
    ensures forall k :: i + |r| <= k < |s| ==> IsSpace(s[k])
  {
    forall k | i + |r| <= k < |s| ensures IsSpace(s[k]) {
      assert s[k] == l[k - i];
    }
  }

  /** A trimmed non-empty text followed by one whitespace character (such as
      the newline that ends a line) strips back to itself. */
  lemma StripTrailingSpace(t: string, c: char)
    requires t != [] && Trimmed(t) && IsSpace(c)
    ensures Strip(t + [c]) == t
  {
    var s := t + [c];
    assert LeadingSpace(s) == 0;
    assert s[..|s| - 1] == t;
    assert TrailingSpace(s) == 1 + TrailingSpace(t);
  }

  predicate StartsWith(s: string, prefix: string) {
    |prefix| <= |s| && s[..|prefix|] == prefix
  }

  /** The inverse of Split: the parts with one separator between neighbours. */
  function Join(parts: seq<string>, sep: char): string
    requires |parts| >= 1
  {
    if |parts| == 1 then parts[0] else parts[0] + [sep] + Join(parts[1..], sep)
  }

  /** s.split(sep) for a one-character separator: the maximal separator-free
      pieces of s, in order, including empty ones. */
  function Split(s: string, sep: char): (r: seq<string>)
    ensures |r| >= 1
    ensures forall i :: 0 <= i < |r| ==> sep !in r[i]
  {
    if s == [] then [[]]
    else
      var rest := Split(s[1..], sep);
      if s[0] == sep then [[]] + rest
      else [[s[0]] + rest[0]] + rest[1..]
  }

  /** Splitting loses nothing: the pieces, rejoined, are the string. */
  lemma {:induction false} JoinSplit(s: string, sep: char)
    ensures Join(Split(s, sep), sep) == s
    decreases |s|
  {
    if s != [] {
      JoinSplit(s[1..], sep);
      var rest := Split(s[1..], sep);
      assert s == [s[0]] + s[1..];
      if s[0] == sep {
        assert ([[]] + rest)[1..] == rest;
      } else {
        JoinConsFirst(s[0], rest, sep);
      }
    }
  }

  lemma JoinConsFirst(c: char, parts: seq<string>, sep: char)
    requires |parts| >= 1
    ensures Join([[c] + parts[0]] + parts[1..], sep) == [c] + Join(parts, sep)
  {
    var ps := [[c] + parts[0]] + parts[1..];
    assert ps[1..] == parts[1..];
  }

  /** Splitting undoes joining: separator-free pieces are recovered exactly. */
  lemma {:induction false} SplitJoin(parts: seq<string>, sep: char)
    requires |parts| >= 1
    requires forall i :: 0 <= i < |parts| ==> sep !in parts[i]
    ensures Split(Join(parts, sep), sep) == parts
    decreases |Join(parts, sep)|
  {
    if parts[0] == [] {
      if |parts| > 1 {
        var tail := Join(parts[1..], sep);
        assert Join(parts, sep) == [sep] + tail;
        assert ([sep] + tail)[1..] == tail;
        SplitJoin(parts[1..], sep);
      }
    } else {
      var c := parts[0][0];
      var ps := [parts[0][1..]] + parts[1..];
      assert sep !in ps[0];
      assert forall i :: 0 < i < |ps| ==> ps[i] == parts[i];
      assert [c] + ps[0] == parts[0];
      assert [[c] + ps[0]] + ps[1..] == parts;
      JoinConsFirst(c, ps, sep);
      var j := Join(ps, sep);
      assert Join(parts, sep) == [c] + j;
      assert ([c] + j)[1..] == j;
      SplitJoin(ps, sep);
    }
  }

  /** A string without the separator splits into itself alone. */
  lemma SplitWithoutSeparator(s: string, sep: char)
    requires sep !in s
    ensures Split(s, sep) == [s]
  {
    SplitJoin([s], sep);
  }

  /** A string with one separator occurrence at k splits into the two sides. */
  lemma SplitAtOnlySeparator(s: string, sep: char, k: nat)
    requires k < |s| && s[k] == sep && sep !in s[..k] && sep !in s[k + 1..]
    ensures Split(s, sep) == [s[..k], s[k + 1..]]
  {
    assert s == s[..k] + [sep] + s[k + 1..];
    SplitJoin([s[..k], s[k + 1..]], sep);
  }

  predicate IsDigit(c: char) {
    '0' <= c <= '9'
  }

  predicate AllDigits(s: string) {
    forall i :: 0 <= i < |s| ==> IsDigit(s[i])
  }

  function DigitChar(d: nat): (c: char)
    requires d < 10
    ensures IsDigit(c)
  {
    (d + '0' as int) as char
  }

  /** int(s) for a string of decimal digits. */
  function DecimalValue(s: string): nat
    requires AllDigits(s)
  {
    if s == [] then 0 else 10 * DecimalValue(s[..|s| - 1]) + (s[|s| - 1] as int - '0' as int)
  }

  /** str(n): the shortest decimal numeral of n (no leading zeros). */
  function DecimalString(n: nat): (r: string)
    ensures CanonicalDecimal(r) && DecimalValue(r) == n
    ensures n < 10 ==> |r| == 1
    ensures n < 100 ==> |r| <= 2
    ensures n < 1000 ==> |r| <= 3
  {
    if n < 10 then [DigitChar(n)]
    else
      var p := DecimalString(n / 10);
      assert n / 10 >= 1 && n == 10 * (n / 10) + n % 10;
      assert n < 100 ==> n / 10 < 10;
      assert n < 1000 ==> n / 10 < 100;
      AppendDigit(p, n % 10);
      p + [DigitChar(n % 10)]
  }

  /** Writing one more digit after a numeral without leading zero. */
  lemma AppendDigit(p: string, d: nat)
    requires CanonicalDecimal(p) && DecimalValue(p) >= 1 && d < 10
    ensures CanonicalDecimal(p + [DigitChar(d)])
    ensures DecimalValue(p + [DigitChar(d)]) == 10 * DecimalValue(p) + d
  {
    var r := p + [DigitChar(d)];
    assert r[..|r| - 1] == p;
    if |p| == 1 {
      assert DecimalValue(p) == p[0] as int - '0' as int by {
        assert p[..0] == [];
      }
    }
  }

  /** The form str(n) produces: digits only, no leading zero. */
  predicate CanonicalDecimal(s: string) {
    s != [] && AllDigits(s) && (|s| > 1 ==> s[0] != '0')
  }

  lemma {:induction false} DecimalValuePositive(s: string)
    requires s != [] && AllDigits(s) && s[0] != '0'
    ensures DecimalValue(s) >= 1
    decreases |s|
  {
    if |s| > 1 {
      DecimalValuePositive(s[..|s| - 1]);
    }
  }

  /** s is some '0' characters followed by the numeral d. */
  predicate ZerosThen(s: string, d: string) {
    && |d| <= |s| && s[|s| - |d|..] == d
    && forall i :: 0 <= i < |s| - |d| ==> s[i] == '0'
  }

  /** A leading zero does not change a decimal's value. */
  lemma {:induction false} DecimalValueLeadingZero(t: string)
    requires AllDigits(t)
    ensures DecimalValue(['0'] + t) == DecimalValue(t)
    decreases |t|
  {
    var u := ['0'] + t;
    if t == [] {
      assert u[..0] == [];
    } else {
      assert u[..|u| - 1] == ['0'] + t[..|t| - 1];
      DecimalValueLeadingZero(t[..|t| - 1]);
    }
  }

  /** int(s) on digits allows leading zeros: any digit string is zeros
      followed by str() of its value. */
  lemma {:induction false} ZerosThenNumeral(s: string)
    requires s != [] && AllDigits(s)
    ensures ZerosThen(s, DecimalString(DecimalValue(s)))
    decreases |s|
  {
    if |s| > 1 && s[0] == '0' {
      var t := s[1..];
      assert s == ['0'] + t;
      DecimalValueLeadingZero(t);
      ZerosThenNumeral(t);
      var d := DecimalString(DecimalValue(s));
      assert s[|s| - |d|..] == t[|t| - |d|..];
      forall i | 0 <= i < |s| - |d| ensures s[i] == '0' {
        if i > 0 {
          assert s[i] == t[i - 1];
        }
      }
    } else {
      DecimalStringOfValue(s);
    }
  }

  /** Every canonical numeral is the one str() gives for its value. */
  lemma {:induction false} DecimalStringOfValue(s: string)
    requires CanonicalDecimal(s)
    ensures DecimalString(DecimalValue(s)) == s
    decreases |s|
  {
    if |s| > 1 {
      var init := s[..|s| - 1];
      DecimalValuePositive(init);
      DecimalStringOfValue(init);
      var v := DecimalValue(s);
      assert v / 10 == DecimalValue(init);
      assert s == init + [s[|s| - 1]];
    }
  }
}
