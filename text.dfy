/**
 * The few pieces of Python's string library the scripts rely on, written out
 * for `string == seq<char>`: `str.strip` with and without a character set,
 * `str.lstrip`, ASCII lower-casing, decimal rendering of integers, `str.join`,
 * and the `name` and `stem` of a POSIX path.
 */
module Text {
  import opened Wrappers

  /** The characters for which Python's `str.isspace()` holds; `\s` in a str pattern matches the same set. */
  const Whitespace: set<char> := {
    ' ', '\t', '\n', '\r', '\U{000B}', '\U{000C}',
    '\U{001C}', '\U{001D}', '\U{001E}', '\U{001F}', '\U{0085}', '\U{00A0}', '\U{1680}',
    '\U{2000}', '\U{2001}', '\U{2002}', '\U{2003}', '\U{2004}', '\U{2005}', '\U{2006}',
    '\U{2007}', '\U{2008}', '\U{2009}', '\U{200A}', '\U{2028}', '\U{2029}', '\U{202F}',
    '\U{205F}', '\U{3000}'
  }

  predicate IsSpace(c: char)
  {
    c == ' ' || '\t' <= c <= '\r' || '\U{001C}' <= c <= '\U{001F}' || c == '\U{0085}' || c == '\U{00A0}'
    || c == '\U{1680}' || '\U{2000}' <= c <= '\U{200A}' || c == '\U{2028}' || c == '\U{2029}'
    || c == '\U{202F}' || c == '\U{205F}' || c == '\U{3000}'
  }

  lemma SpaceIsWhitespace(c: char)
    ensures IsSpace(c) <==> c in Whitespace
  {
  }

  predicate IsDigit(c: char) { '0' <= c <= '9' }

  /** `s.lstrip(cs)`: drops every leading character that belongs to `cs`. */
  function TrimLeft(s: string, cs: set<char>): (r: string)
    ensures |r| <= |s|
    ensures r == [] || r[0] !in cs
    ensures forall i :: 0 <= i < |s| - |r| ==> s[i] in cs
  {
    if s != [] && s[0] in cs then TrimLeft(s[1..], cs) else s
  }

  /** `s.rstrip(cs)`: drops every trailing character that belongs to `cs`. */
  function TrimRight(s: string, cs: set<char>): (r: string)
    ensures |r| <= |s|
    ensures r != [] ==> r[0] == s[0]
    ensures r == [] || r[|r| - 1] !in cs
    ensures forall i :: |r| <= i < |s| ==> s[i] in cs
  {
    if s != [] && s[|s| - 1] in cs then TrimRight(s[..|s| - 1], cs) else s
  }

  /** What `lstrip` leaves is a suffix of its argument. */
  lemma {:induction false} TrimLeftIsSuffix(s: string, cs: set<char>)
    ensures TrimLeft(s, cs) == s[|s| - |TrimLeft(s, cs)|..]
  {
    if s != [] && s[0] in cs {
      TrimLeftIsSuffix(s[1..], cs);
      assert s[1..][|s| - 1 - |TrimLeft(s, cs)|..] == s[|s| - |TrimLeft(s, cs)|..];
    }
  }

  /** What `rstrip` leaves is a prefix of its argument. */
  lemma {:induction false} TrimRightIsPrefix(s: string, cs: set<char>)
    ensures TrimRight(s, cs) == s[..|TrimRight(s, cs)|]
  {
    if s != [] && s[|s| - 1] in cs {
      TrimRightIsPrefix(s[..|s| - 1], cs);
      assert s[..|s| - 1][..|TrimRight(s, cs)|] == s[..|TrimRight(s, cs)|];
    }
  }

  /** `s.strip(cs)`. */
  function Strip(s: string, cs: set<char>): string
  {
    TrimRight(TrimLeft(s, cs), cs)
  }

  /** `s.strip(cs)` is a slice of `s`, and only characters of `cs` are cut off on either side. */
  lemma StripIsSlice(s: string, cs: set<char>) returns (a: nat, b: nat)
    ensures a <= b <= |s| && Strip(s, cs) == s[a..b]
    ensures forall i :: 0 <= i < a || b <= i < |s| ==> s[i] in cs
  {
    var l := TrimLeft(s, cs);
    TrimLeftIsSuffix(s, cs);
    a := |s| - |l|;
    var r := TrimRight(l, cs);
    TrimRightIsPrefix(l, cs);
    b := a + |r|;
    assert r == l[..|r|] == s[a..b];
    forall i | b <= i < |s|
      ensures s[i] in cs
    {
      assert s[i] == l[i - a];
    }
  }

  /** Stripping a slice of `v` whose cut-off characters lie in `cs1` leaves a slice of `v` cut at characters of `cs1 + cs2`. */
  lemma StripOfSlice(v: string, a1: nat, b1: nat, cs1: set<char>, cs2: set<char>) returns (a: nat, b: nat)
    requires a1 <= b1 <= |v| && forall i :: 0 <= i < a1 || b1 <= i < |v| ==> v[i] in cs1
    ensures a <= b <= |v| && Strip(v[a1..b1], cs2) == v[a..b]
    ensures forall i :: 0 <= i < a || b <= i < |v| ==> v[i] in cs1 + cs2
  {
    var a2, b2 := StripIsSlice(v[a1..b1], cs2);
    a, b := a1 + a2, a1 + b2;
    var w := v[a1..b1];
    forall k | 0 <= k < b - a
      ensures w[a2..b2][k] == v[a..b][k]
    {
      assert w[a2..b2][k] == w[a2 + k] == v[a1 + a2 + k];
    }
    assert w[a2..b2] == v[a..b];
    forall i | 0 <= i < a || b <= i < |v|
      ensures v[i] in cs1 + cs2
    {
      if a1 <= i < b1 {
        assert v[i] == v[a1..b1][i - a1];
      }
    }
  }

  /** `s.strip(cs)` is empty exactly when every character of `s` belongs to `cs`. */
  lemma StripEmptyIff(s: string, cs: set<char>)
    ensures Strip(s, cs) == [] <==> forall i :: 0 <= i < |s| ==> s[i] in cs
  {
    var l := TrimLeft(s, cs);
    TrimLeftIsSuffix(s, cs);
    if l != [] {
      assert s[|s| - |l|] == l[0];
    }
  }

  /** `s.strip()` with no argument. */
  function StripSpace(s: string): string
  {
    Strip(s, Whitespace)
  }

  /** `s.lstrip()` with no argument. */
  function LStripSpace(s: string): string
  {
    TrimLeft(s, Whitespace)
  }

  function LowerChar(c: char): char
  {
    if 'A' <= c <= 'Z' then (c as int - 'A' as int + 'a' as int) as char else c
  }

  /** Lower-casing of the ASCII letters; every other character is kept. */
  function LowerAscii(s: string): (r: string)
    ensures |r| == |s|
    ensures forall i :: 0 <= i < |s| ==> r[i] == LowerChar(s[i])
  {
    if s == [] then [] else [LowerChar(s[0])] + LowerAscii(s[1..])
  }

  /** `s.replace(c, "")` for every `c` in `cs`. */
  function RemoveChars(s: string, cs: set<char>): (r: string)
    ensures forall i :: 0 <= i < |r| ==> r[i] !in cs
    ensures forall c :: c in r <==> c in s && c !in cs
    ensures |r| <= |s|
    ensures |s| == 1 ==> (r == [] <==> s[0] in cs) && (r != [] ==> r == s)
  {
    if s == [] then []
    else if s[0] in cs then RemoveChars(s[1..], cs)
    else [s[0]] + RemoveChars(s[1..], cs)
  }

  /** Removal works piece by piece, so the kept characters stay in order and keep their count. */
  lemma {:induction false} RemoveCharsConcat(a: string, b: string, cs: set<char>)
    ensures RemoveChars(a + b, cs) == RemoveChars(a, cs) + RemoveChars(b, cs)
  {
    if a == [] {
      assert a + b == b;
    } else {
      assert (a + b)[0] == a[0] && (a + b)[1..] == a[1..] + b;
      RemoveCharsConcat(a[1..], b, cs);
    }
  }

  /** The index of the first occurrence of `c` in `s`. */
  function IndexOf(s: string, c: char): (r: Option<nat>)
    ensures r.Some? ==> r.value < |s| && s[r.value] == c && c !in s[..r.value]
    ensures r.None? ==> c !in s
  {
    if s == [] then None
    else if s[0] == c then Some(0)
    else match IndexOf(s[1..], c)
      case None => None
      case Some(i) => Some(i + 1)
  }

  /** The index of the last occurrence of `c` in `s` (Python's `str.rfind`, with -1 as `None`). */
  function LastIndexOf(s: string, c: char): (r: Option<nat>)
    ensures r.Some? ==> r.value < |s| && s[r.value] == c && c !in s[r.value + 1..]
    ensures r.None? ==> c !in s
  {
    if s == [] then None
    else if s[|s| - 1] == c then Some(|s| - 1)
    else LastIndexOf(s[..|s| - 1], c)
  }

  function DigitChar(d: nat): (c: char)
    requires d < 10
    ensures IsDigit(c)
  {
    ('0' as int + d) as char
  }

  function DigitValue(c: char): nat
    requires IsDigit(c)
  {
    c as int - '0' as int
  }

  /** The value of a string of decimal digits. */
  function DigitsValue(s: string): nat
    requires forall i :: 0 <= i < |s| ==> IsDigit(s[i])
  {
    if s == [] then 0 else DigitsValue(s[..|s| - 1]) * 10 + DigitValue(s[|s| - 1])
  }

  /** `str(n)` for a natural number: its decimal digits, without leading zeros. */
  function NatToString(n: nat): (r: string)
    ensures |r| > 0 && forall i :: 0 <= i < |r| ==> IsDigit(r[i])
    ensures r[0] == '0' ==> r == "0"
  {
    if n < 10 then [DigitChar(n)] else NatToString(n / 10) + [DigitChar(n % 10)]
  }

  /** `str(x)` for any integer. */
  function IntToString(x: int): (r: string)
    ensures |r| > 0 && forall i :: 0 <= i < |r| ==> IsDigit(r[i]) || r[i] == '-'
    ensures r[0] == '-' <==> x < 0
  {
    if x < 0 then "-" + NatToString(-x) else NatToString(x)
  }

  /** Different natural numbers are rendered differently. */
  lemma NatToStringInjective(a: nat, b: nat)
    requires NatToString(a) == NatToString(b)
    ensures a == b
  {
    NatToStringRoundTrip(a);
    NatToStringRoundTrip(b);
  }

  /** Different integers are rendered differently. */
  lemma IntToStringInjective(x: int, y: int)
    requires IntToString(x) == IntToString(y)
    ensures x == y
  {
    if x < 0 {
      assert y < 0;
      assert IntToString(x)[1..] == NatToString(-x);
      assert IntToString(y)[1..] == NatToString(-y);
      NatToStringInjective(-x, -y);
    } else {
      NatToStringInjective(x, y);
    }
  }

  /** A character of the first part of a concatenation. */
  lemma ConcatAt(a: string, b: string, i: nat)
    requires i < |a|
    ensures (a + b)[i] == a[i]
  {
  }

  /**
   * Two strings that each read as a part free of `c` followed by a part that
   * starts with `c` are split at the same place.
   */
  lemma SplitAtFirst(a: string, b: string, a2: string, b2: string, c: char)
    requires c !in a && c !in a2 && b != [] && b2 != [] && b[0] == c && b2[0] == c
    requires a + b == a2 + b2
    ensures a == a2 && b == b2
    decreases if |a2| < |a| then 1 else 0
  {
    if |a| < |a2| {
      ConcatAt(a2, b2, |a|);
    } else if |a2| < |a| {
      SplitAtFirst(a2, b2, a, b, c);
    } else {
      assert a == (a + b)[..|a|] && a2 == (a2 + b2)[..|a|];
      assert b == (a + b)[|a|..] && b2 == (a2 + b2)[|a|..];
    }
  }

  /** Reading the digits back gives the number: `int(str(n)) == n`. */
  lemma {:induction false} NatToStringRoundTrip(n: nat)
    ensures DigitsValue(NatToString(n)) == n
  {
    var r := NatToString(n);
    if n >= 10 {
      NatToStringRoundTrip(n / 10);
      assert r[..|r| - 1] == NatToString(n / 10);
    }
  }

  /** `sep.join(xs)`. */
  function Join(xs: seq<string>, sep: string): string
  {
    if xs == [] then ""
    else if |xs| == 1 then xs[0]
    else xs[0] + sep + Join(xs[1..], sep)
  }

  /**
   * `Path(p).name` for a POSIX path: the text after the last `/` once
   * trailing slashes are dropped.
   */
  function BaseName(path: string): (r: string)
    ensures '/' !in r
    ensures var p := TrimRight(path, {'/'});
      |r| <= |p| && r == p[|p| - |r|..] && (|r| < |p| ==> p[|p| - |r| - 1] == '/')
  {
    var p := TrimRight(path, {'/'});
    match LastIndexOf(p, '/')
    case None => p
    case Some(i) => p[i + 1..]
  }

  /** `Path(name).stem`: the name without its last suffix, where a suffix needs a `.` that is neither first nor last. */
  function Stem(name: string): (r: string)
    ensures r <= name
    ensures |r| < |name| ==> 0 < |r| < |name| - 1 && name[|r|] == '.' && '.' !in name[|r| + 1..]
    ensures (exists i :: 0 < i < |name| - 1 && name[i] == '.' && '.' !in name[i + 1..]) ==> |r| < |name|
  {
    match LastIndexOf(name, '.')
    case Some(i) =>
      assert forall j :: i < j < |name| ==> name[j] != '.' by {
        forall j | i < j < |name| ensures name[j] != '.' {
          assert name[j] == name[i + 1..][j - i - 1];
        }
      }
      if 0 < i < |name| - 1 then name[..i] else name
    case None => name
  }
}
