/**
  String helpers with the semantics of the Go standard library functions
  that the sharing engine and the middlewares use on identifiers, paths and
  host names: strings.HasPrefix, strings.SplitN with a one-character
  separator and a limit of 2, strings.Count with a one-character separator,
  Go's ordering of strings, strconv.Atoi, the %d verb of fmt, and the parts
  of package path that apply to clean absolute paths.
*/
module Strings {

  import opened Wrappers

  /** strings.HasPrefix */
  predicate HasPrefix(s: string, prefix: string) {
    |prefix| <= |s| && s[..|prefix|] == prefix
  }

  /** Index of the first occurrence of `c` in `s`, or |s| when there is none. */
  function FirstIndex(s: string, c: char): (r: nat)
    ensures r <= |s|
    ensures r < |s| ==> s[r] == c
    ensures forall j :: 0 <= j < r ==> s[j] != c
  {
    if |s| == 0 then 0
    else if s[0] == c then 0
    else 1 + FirstIndex(s[1..], c)
  }

  /**
    strings.SplitN(s, [c], 2): one part when `c` does not occur in `s`,
    otherwise the part before the first `c` and everything after it.
  */
  function SplitFirst(s: string, c: char): (parts: seq<string>)
    ensures |parts| == 1 || |parts| == 2
    ensures |parts| == 2 <==> c in s
    ensures |parts| == 1 ==> parts[0] == s
    ensures |parts| == 2 ==> c !in parts[0] && parts[0] + [c] + parts[1] == s
  {
    var i := FirstIndex(s, c);
    if i == |s| then [s]
    else
      assert s[..i] + [c] + s[i + 1..] == s;
      [s[..i], s[i + 1..]]
  }

  /** strings.Count(s, [c]): the number of occurrences of the character `c`. */
  function CountChar(s: string, c: char): (n: nat)
    ensures n <= |s|
    ensures n == 0 <==> c !in s
  {
    if |s| == 0 then 0
    else (if s[0] == c then 1 else 0) + CountChar(s[1..], c)
  }

  /**
    Go's `a < b` on strings: byte-wise lexicographic order of the UTF-8
    encodings, which is the same as the code-point order of the characters.
    (Dafny's own `<` on sequences means "proper prefix".)
  */
  predicate LexLess(a: string, b: string)
    decreases |a|
  {
    if |a| == 0 then |b| > 0
    else if |b| == 0 then false
    else if a[0] != b[0] then a[0] < b[0]
    else LexLess(a[1..], b[1..])
  }

  /** Go's order is strict and total: exactly one of a < b, a == b, b < a. */
  lemma {:induction false} LexLessTrichotomy(a: string, b: string)
    ensures !LexLess(a, a)
    ensures a != b ==> (LexLess(a, b) <==> !LexLess(b, a))
    decreases |a|
  {
    if |a| > 0 {
      LexLessTrichotomy(a[1..], a[1..]);
      if |b| > 0 && a[0] == b[0] {
        LexLessTrichotomy(a[1..], b[1..]);
        if a != b {
          assert a == [a[0]] + a[1..] && b == [b[0]] + b[1..];
        }
      }
    }
  }

  /** Go's order is transitive. */
  lemma {:induction false} LexLessTransitive(a: string, b: string, c: string)
    requires LexLess(a, b) && LexLess(b, c)
    ensures LexLess(a, c)
    decreases |a|
  {
    if |a| > 0 && |b| > 0 && |c| > 0 && a[0] == b[0] && b[0] == c[0] {
      LexLessTransitive(a[1..], b[1..], c[1..]);
    }
  }

  predicate IsDigit(c: char) {
    '0' <= c <= '9'
  }

  predicate AllDigits(s: string) {
    forall i :: 0 <= i < |s| ==> IsDigit(s[i])
  }

  function DigitChar(d: nat): (c: char)
    requires d < 10
    ensures IsDigit(c)
  {
    ('0' as int + d) as char
  }

  /** The value of a string of decimal digits. */
  function DigitsValue(s: string): (v: nat)
    requires AllDigits(s)
  {
    if |s| == 0 then 0
    else DigitsValue(s[..|s| - 1]) * 10 + (s[|s| - 1] as int - '0' as int)
  }

  /** The decimal digits of a natural number, without leading zeros. */
  function NatString(n: nat): (s: string)
    ensures |s| > 0 && AllDigits(s)
  {
    if n < 10 then [DigitChar(n)] else NatString(n / 10) + [DigitChar(n % 10)]
  }

  /** fmt's %d verb on an integer. */
  function DecimalString(n: int): (s: string)
    ensures |s| > 0 && '/' !in s
    ensures n >= 0 ==> AllDigits(s)
  {
    if n < 0 then "-" + NatString(-n) else NatString(n)
  }

  const MinInt64: int := -0x8000_0000_0000_0000
  const MaxInt64: int := 0x7fff_ffff_ffff_ffff

  /**
    strconv.Atoi on a 64-bit platform: an optional sign followed by at least
    one decimal digit, whose value fits in an int64; anything else is an
    error, modelled as None.
  */
  function Atoi(s: string): (r: Option<int>)
    ensures r.Some? ==> MinInt64 <= r.value <= MaxInt64
  {
    var negative := |s| > 0 && s[0] == '-';
    var body := if |s| > 0 && (s[0] == '-' || s[0] == '+') then s[1..] else s;
    if |body| == 0 || !AllDigits(body) then None
    else
      var magnitude: int := DigitsValue(body);
      var v := if negative then -magnitude else magnitude;
      if MinInt64 <= v <= MaxInt64 then Some(v) else None
  }

  lemma {:induction false} DigitsValueOfNatString(n: nat)
    ensures DigitsValue(NatString(n)) == n
  {
    if n >= 10 {
      var s := NatString(n);
      assert s[..|s| - 1] == NatString(n / 10);
      DigitsValueOfNatString(n / 10);
    }
  }

  /** Formatting with %d and parsing with strconv.Atoi are inverse on int64. */
  lemma AtoiOfDecimalString(n: int)
    requires MinInt64 <= n <= MaxInt64
    ensures Atoi(DecimalString(n)) == Some(n)
  {
    var s := DecimalString(n);
    if n < 0 {
      var digits := NatString(-n);
      assert s == "-" + digits;
      assert s[1..] == digits;
      DigitsValueOfNatString(-n);
    } else {
      assert s[0] != '-' && s[0] != '+';
      DigitsValueOfNatString(n);
    }
  }

  /** Index of the last '/' of `p`, or -1 when there is none. */
  function LastSlash(p: string): (i: int)
    ensures -1 <= i < |p|
    ensures i >= 0 ==> p[i] == '/'
    ensures forall j :: i < j < |p| ==> p[j] != '/'
  {
    if |p| == 0 then -1
    else if p[|p| - 1] == '/' then |p| - 1
    else LastSlash(p[..|p| - 1])
  }

  /** path.Base of a clean absolute path: its last element. */
  function BaseName(p: string): (b: string)
    ensures forall j :: 0 <= j < |b| ==> b[j] != '/'
  {
    p[LastSlash(p) + 1..]
  }

  /**
    path.Join(dir, name) for a clean directory path and a name, as the VFS
    supplies them: the name appended to the directory with one separator;
    an empty directory contributes nothing, so the name comes back alone.
  */
  function JoinPath(dir: string, name: string): (r: string)
    ensures name != [] ==> HasPrefix(r, dir)
    ensures dir == [] ==> r == name
  {
    if name == [] then dir
    else if dir == [] then name
    else if dir == "/" then dir + name
    else dir + "/" + name
  }

  /** Joining a name without a slash to a directory gives a path whose last element is the name. */
  lemma JoinPathBase(dir: string, name: string)
    requires |name| > 0 && '/' !in name
    ensures BaseName(JoinPath(dir, name)) == name
  {
    var p := JoinPath(dir, name);
    if dir == [] {
      assert LastSlash(p) == -1;
      return;
    }
    var k := |p| - |name|;
    assert p[k..] == name;
    assert p[k - 1] == '/';
    assert forall j :: k <= j < |p| ==> p[j] != '/' by {
      forall j | k <= j < |p| ensures p[j] != '/' {
        assert p[j] == name[j - k];
      }
    }
    LastSlashIs(p, k - 1);
  }

  lemma {:induction false} LastSlashIs(p: string, i: nat)
    requires i < |p| && p[i] == '/'
    requires forall j :: i < j < |p| ==> p[j] != '/'
    ensures LastSlash(p) == i
    decreases |p|
  {
    if i < |p| - 1 {
      var q := p[..|p| - 1];
      assert forall j :: i < j < |q| ==> q[j] == p[j];
      LastSlashIs(q, i);
    }
  }
}
