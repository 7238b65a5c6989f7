/**
 * The handful of Python string operations the engine relies on, written out:
 * `str.strip`, `str.split(sep)`, `sep.join`, `str.replace`, `sub in s`, `str(n)`.
 */
module Strings {

  /** Six of the ten ASCII characters `\s` and `str.strip` treat as whitespace; `\x1c`-`\x1f` are not modelled. */
  predicate IsSpace(c: char) {
    c == ' ' || c == '\t' || c == '\n' || c == '\r' || c == '\U{000B}' || c == '\U{000C}'
  }

  predicate AllSpace(t: string) {
    forall i :: 0 <= i < |t| ==> IsSpace(t[i])
  }

  predicate IsDigit(c: char) {
    '0' <= c <= '9'
  }

  predicate AllDigits(s: string) {
    forall i :: 0 <= i < |s| ==> IsDigit(s[i])
  }

  predicate StartsWith(s: string, prefix: string) {
    |prefix| <= |s| && s[..|prefix|] == prefix
  }

  predicate EndsWith(s: string, suffix: string) {
    |suffix| <= |s| && s[|s| - |suffix|..] == suffix
  }

  /** Python's `sub in s`: `sub` occurs somewhere in `s`. */
  predicate Contains(s: string, sub: string)
    decreases |s|
  {
    StartsWith(s, sub) || (|s| > 0 && Contains(s[1..], sub))
  }

  lemma ThreeSlices<T>(s: seq<T>, a: nat, b: nat, c: nat)
    requires a <= b <= c <= |s|
    ensures s[a..] == s[a..b] + s[b..c] + s[c..]
  {
  }

  lemma SliceCons<T>(s: seq<T>, i: nat, j: nat)
    requires i < j <= |s|
    ensures s[i..j] == [s[i]] + s[i + 1..j]
  {
  }

  lemma SliceOfSlice<T>(s: seq<T>, a: nat, b: nat, i: nat, j: nat)
    requires a <= b <= |s| && i <= j <= b - a
    ensures s[a..b][i..j] == s[a + i..a + j]
  {
    var x := s[a..b][i..j];
    var y := s[a + i..a + j];
    assert |x| == |y|;
    forall k | 0 <= k < |x| ensures x[k] == y[k] {
      assert x[k] == s[a..b][i + k] == s[a + i + k];
    }
  }

  lemma {:induction false} ContainsAt(s: string, sub: string, i: nat)
    requires i + |sub| <= |s| && s[i..i + |sub|] == sub
    ensures Contains(s, sub)
    decreases i
  {
    if i > 0 {
      assert s[1..][i - 1..i - 1 + |sub|] == s[i..i + |sub|];
      ContainsAt(s[1..], sub, i - 1);
    }
  }

  /** `s.lstrip()`: the leading whitespace is removed and nothing else. */
  function TrimStart(s: string): (r: string)
    ensures |r| <= |s| && r == s[|s| - |r|..]
    ensures forall i :: 0 <= i < |s| - |r| ==> IsSpace(s[i])
    ensures r == [] || !IsSpace(r[0])
    decreases |s|
  {
    if |s| > 0 && IsSpace(s[0]) then TrimStart(s[1..]) else s
  }

  /** `s.rstrip()`: the trailing whitespace is removed and nothing else. */
  function TrimEnd(s: string): (r: string)
    ensures |r| <= |s| && r == s[..|r|]
    ensures forall i :: |r| <= i < |s| ==> IsSpace(s[i])
    ensures r == [] || !IsSpace(r[|r| - 1])
    decreases |s|
  {
    if |s| > 0 && IsSpace(s[|s| - 1]) then TrimEnd(s[..|s| - 1]) else s
  }

  /** `s.strip()`. */
  function Strip(s: string): string {
    TrimEnd(TrimStart(s))
  }

  /** `sep.join(xs)`. */
  function JoinWith(xs: seq<string>, sep: string): string
    decreases |xs|
  {
    if |xs| == 0 then "" else if |xs| == 1 then xs[0] else xs[0] + sep + JoinWith(xs[1..], sep)
  }

  /** `s.split(sep)`: cut at each leftmost non-overlapping occurrence of `sep`. */
  function SplitOn(s: string, sep: string): (r: seq<string>)
    requires |sep| > 0
    ensures |r| >= 1
    decreases |s|
  {
    if |s| < |sep| then [s]
    else if s[..|sep|] == sep then [""] + SplitOn(s[|sep|..], sep)
    else
      var rest := SplitOn(s[1..], sep);
      [[s[0]] + rest[0]] + rest[1..]
  }

  /** `s.replace(pat, rep)`: every leftmost non-overlapping occurrence of `pat` becomes `rep`. */
  function ReplaceAll(s: string, pat: string, rep: string): string
    requires |pat| > 0
    decreases |s|
  {
    if |s| < |pat| then s
    else if s[..|pat|] == pat then rep + ReplaceAll(s[|pat|..], pat, rep)
    else [s[0]] + ReplaceAll(s[1..], pat, rep)
  }

  lemma JoinCons(c: char, xs: seq<string>, sep: string)
    requires |xs| >= 1
    ensures JoinWith([[c] + xs[0]] + xs[1..], sep) == [c] + JoinWith(xs, sep)
  {
    var ys := [[c] + xs[0]] + xs[1..];
    assert ys[1..] == xs[1..];
  }

  lemma JoinEmptyCons(xs: seq<string>, sep: string)
    requires |xs| >= 1
    ensures JoinWith([""] + xs, sep) == sep + JoinWith(xs, sep)
  {
    assert ([""] + xs)[1..] == xs;
  }

  /** Joining the pieces of a split with the same separator gives back the text. */
  lemma {:induction false} SplitJoin(s: string, sep: string)
    requires |sep| > 0
    ensures JoinWith(SplitOn(s, sep), sep) == s
    decreases |s|
  {
    if |s| < |sep| {
    } else if s[..|sep|] == sep {
      SplitJoin(s[|sep|..], sep);
      JoinEmptyCons(SplitOn(s[|sep|..], sep), sep);
      assert s == s[..|sep|] + s[|sep|..];
    } else {
      SplitJoin(s[1..], sep);
      JoinCons(s[0], SplitOn(s[1..], sep), sep);
      assert s == [s[0]] + s[1..];
    }
  }

  /** `s.replace(pat, rep) == rep.join(s.split(pat))`. */
  lemma {:induction false} ReplaceIsJoinOfSplit(s: string, pat: string, rep: string)
    requires |pat| > 0
    ensures ReplaceAll(s, pat, rep) == JoinWith(SplitOn(s, pat), rep)
    decreases |s|
  {
    if |s| < |pat| {
    } else if s[..|pat|] == pat {
      ReplaceIsJoinOfSplit(s[|pat|..], pat, rep);
      JoinEmptyCons(SplitOn(s[|pat|..], pat), rep);
    } else {
      ReplaceIsJoinOfSplit(s[1..], pat, rep);
      JoinCons(s[0], SplitOn(s[1..], pat), rep);
    }
  }

  /** Replacing a text by itself changes nothing. */
  lemma ReplaceBySelf(s: string, pat: string)
    requires |pat| > 0
    ensures ReplaceAll(s, pat, pat) == s
  {
    ReplaceIsJoinOfSplit(s, pat, pat);
    SplitJoin(s, pat);
  }

  /** A text in which `pat` does not occur is left unchanged. */
  lemma {:induction false} ReplaceAbsent(s: string, pat: string, rep: string)
    requires |pat| > 0 && !Contains(s, pat)
    ensures ReplaceAll(s, pat, rep) == s
    decreases |s|
  {
    if |s| >= |pat| {
      assert s[..|pat|] != pat;
      ReplaceAbsent(s[1..], pat, rep);
      assert s == [s[0]] + s[1..];
    }
  }

  /** A prefix that cannot start an occurrence of `pat` passes through unchanged. */
  lemma {:induction false} ReplaceSkipsPrefix(a: string, b: string, pat: string, rep: string)
    requires |pat| > 0 && pat[0] !in a
    ensures ReplaceAll(a + b, pat, rep) == a + ReplaceAll(b, pat, rep)
    decreases |a|
  {
    if |a| > 0 {
      var s := a + b;
      assert s[1..] == a[1..] + b;
      ReplaceSkipsPrefix(a[1..], b, pat, rep);
      if |s| >= |pat| {
        assert s[..|pat|][0] == a[0];
        calc {
          ReplaceAll(s, pat, rep);
          [a[0]] + ReplaceAll(s[1..], pat, rep);
          [a[0]] + (a[1..] + ReplaceAll(b, pat, rep));
          { assert a == [a[0]] + a[1..]; }
          a + ReplaceAll(b, pat, rep);
        }
      } else {
        assert ReplaceAll(b, pat, rep) == b;
      }
    } else {
      assert a + b == b;
    }
  }

  /** Splitting on a single character leaves that character in no piece. */
  lemma {:induction false} SplitOnCharPieces(s: string, c: char)
    ensures forall i :: 0 <= i < |SplitOn(s, [c])| ==> c !in SplitOn(s, [c])[i]
    decreases |s|
  {
    if |s| >= 1 {
      SplitOnCharPieces(s[1..], c);
      if s[..1] != [c] {
        assert s[0] != c;
      }
    }
  }

  lemma {:induction false} JoinSnoc(xs: seq<string>, sep: string)
    requires |xs| >= 2
    ensures JoinWith(xs, sep) == JoinWith(xs[..|xs| - 1], sep) + sep + xs[|xs| - 1]
    decreases |xs|
  {
    if |xs| > 2 {
      JoinSnoc(xs[1..], sep);
      assert xs[1..][..|xs| - 2] == xs[..|xs| - 1][1..];
    }
  }

  /** `s.split(c)[0]` is the longest prefix of `s` free of `c`. */
  lemma FirstPiece(s: string, c: char)
    ensures var p := SplitOn(s, [c])[0];
      |p| <= |s| && s[..|p|] == p && c !in p && (|p| < |s| ==> s[|p|] == c)
  {
    var ps := SplitOn(s, [c]);
    SplitJoin(s, [c]);
    SplitOnCharPieces(s, c);
    if |ps| > 1 {
      assert s == ps[0] + [c] + JoinWith(ps[1..], [c]);
      assert s[|ps[0]|] == c;
    }
  }

  /** `s.split(c)[-1]` is the longest suffix of `s` free of `c`. */
  lemma LastPiece(s: string, c: char)
    ensures var ps := SplitOn(s, [c]); var p := ps[|ps| - 1];
      |p| <= |s| && s[|s| - |p|..] == p && c !in p && (|p| < |s| ==> s[|s| - |p| - 1] == c)
  {
    var ps := SplitOn(s, [c]);
    SplitJoin(s, [c]);
    SplitOnCharPieces(s, c);
    if |ps| > 1 {
      JoinSnoc(ps, [c]);
      var front := JoinWith(ps[..|ps| - 1], [c]);
      assert s == front + [c] + ps[|ps| - 1];
      assert s[|s| - |ps[|ps| - 1]| - 1] == c;
      assert s[|s| - |ps[|ps| - 1]|..] == ps[|ps| - 1];
    }
  }

  function DigitChar(d: nat): (c: char)
    requires d < 10
    ensures IsDigit(c) && (c as int) - ('0' as int) == d
  {
    (('0' as int) + d) as char
  }

  /** Python's `str(n)` for a natural number: its decimal digits. */
  function NatToString(n: nat): (r: string)
    ensures |r| >= 1 && AllDigits(r)
    ensures |r| > 1 ==> r[0] != '0'
    decreases n
  {
    if n < 10 then [DigitChar(n)] else NatToString(n / 10) + [DigitChar(n % 10)]
  }

  /** Reads a string of decimal digits back as a number (`int(s)`). */
  function ParseNat(s: string): nat
    requires AllDigits(s)
    decreases |s|
  {
    if s == "" then 0
    else ParseNat(s[..|s| - 1]) * 10 + ((s[|s| - 1] as int) - ('0' as int))
  }

  /** `int(str(n)) == n`: the numeral names the number it was made from. */
  lemma {:induction false} ParseNatToString(n: nat)
    ensures ParseNat(NatToString(n)) == n
    decreases n
  {
    if n >= 10 {
      ParseNatToString(n / 10);
      var r := NatToString(n);
      assert r[..|r| - 1] == NatToString(n / 10);
    }
  }

  /** Distinct numbers get distinct numerals. */
  lemma NatToStringInjective(m: nat, n: nat)
    requires NatToString(m) == NatToString(n)
    ensures m == n
  {
    ParseNatToString(m);
    ParseNatToString(n);
  }
}
