/**
 * Brace balance of TeX text.  The protection wrapper `\ldiffentity{...}` is only
 * harmless if every `{` it opens is closed; these definitions let the renderer
 * state that it never unbalances the text it builds.
 */
module Braces {
  import opened Strings

  function Delta(c: char): int {
    if c == '{' then 1 else if c == '}' then -1 else 0
  }

  /** Opening minus closing braces. */
  function Net(s: string): int
    decreases |s|
  {
    if s == "" then 0 else Delta(s[0]) + Net(s[1..])
  }

  function Min(a: int, b: int): int {
    if a <= b then a else b
  }

  /** The lowest nesting depth reached over all prefixes of `s` (the empty one included). */
  function MinDepth(s: string): (d: int)
    ensures d <= 0
    decreases |s|
  {
    if s == "" then 0 else Min(0, Delta(s[0]) + MinDepth(s[1..]))
  }

  /** Every `}` closes an earlier `{`, and every `{` is closed. */
  predicate Balanced(s: string) {
    Net(s) == 0 && MinDepth(s) == 0
  }

  predicate BraceFree(s: string) {
    '{' !in s && '}' !in s
  }

  lemma {:induction false} BraceFreeBalanced(s: string)
    requires BraceFree(s)
    ensures Balanced(s)
    decreases |s|
  {
    if s != "" {
      assert s[0] in s;
      assert forall c :: c in s[1..] ==> c in s;
      BraceFreeBalanced(s[1..]);
    }
  }

  lemma {:induction false} NetConcat(a: string, b: string)
    ensures Net(a + b) == Net(a) + Net(b)
    decreases |a|
  {
    if a == "" {
      assert a + b == b;
    } else {
      assert (a + b)[1..] == a[1..] + b;
      NetConcat(a[1..], b);
    }
  }

  lemma {:induction false} MinDepthConcat(a: string, b: string)
    ensures MinDepth(a + b) == Min(MinDepth(a), Net(a) + MinDepth(b))
    decreases |a|
  {
    if a == "" {
      assert a + b == b;
    } else {
      assert (a + b)[1..] == a[1..] + b;
      MinDepthConcat(a[1..], b);
    }
  }

  lemma BalancedConcat(a: string, b: string)
    requires Balanced(a) && Balanced(b)
    ensures Balanced(a + b)
  {
    NetConcat(a, b);
    MinDepthConcat(a, b);
  }

  lemma BalancedConcat3(a: string, b: string, c: string)
    requires Balanced(a) && Balanced(b) && Balanced(c)
    ensures Balanced(a + b + c)
  {
    BalancedConcat(a, b);
    BalancedConcat(a + b, c);
  }

  /** `open + x + close` is balanced when `x` is and the pair itself is. */
  lemma WrapBalanced(open: string, x: string, close: string)
    requires Balanced(open + close) && Net(open) == 1 && MinDepth(open) == 0 && Balanced(x)
    ensures Balanced(open + x + close)
  {
    NetConcat(open, close);
    MinDepthConcat(open, close);
    NetConcat(open, x);
    MinDepthConcat(open, x);
    NetConcat(open + x, close);
    MinDepthConcat(open + x, close);
  }

  /** A LaTeX command with one braced argument, `\name{x}`, is balanced when `x` is. */
  lemma CommandBalanced(name: string, x: string)
    requires BraceFree(name) && Balanced(x)
    ensures Balanced(name + "{" + x + "}")
  {
    var open := "{";
    var close := "}";
    assert open[1..] == "" && close[1..] == "";
    assert Net(open) == 1 && MinDepth(open) == 0;
    assert Net(close) == -1 && MinDepth(close) == -1;
    BraceFreeBalanced(name);
    NetConcat(name, open);
    MinDepthConcat(name, open);
    NetConcat(name + open, close);
    MinDepthConcat(name + open, close);
    WrapBalanced(name + open, x, close);
  }

  /** Replacing a brace-free pattern by balanced text keeps the net and never lowers the depth. */
  lemma {:induction false} ReplaceDepth(s: string, pat: string, rep: string)
    requires |pat| > 0 && BraceFree(pat) && Balanced(rep)
    ensures Net(ReplaceAll(s, pat, rep)) == Net(s)
    ensures MinDepth(ReplaceAll(s, pat, rep)) >= MinDepth(s)
    decreases |s|
  {
    if |s| < |pat| {
    } else if s[..|pat|] == pat {
      var rest := s[|pat|..];
      ReplaceDepth(rest, pat, rep);
      BraceFreeBalanced(pat);
      assert s == pat + rest;
      NetConcat(pat, rest);
      MinDepthConcat(pat, rest);
      NetConcat(rep, ReplaceAll(rest, pat, rep));
      MinDepthConcat(rep, ReplaceAll(rest, pat, rep));
    } else {
      ReplaceDepth(s[1..], pat, rep);
      var r := [s[0]] + ReplaceAll(s[1..], pat, rep);
      assert r[1..] == ReplaceAll(s[1..], pat, rep);
    }
  }

  lemma ReplaceBalanced(s: string, pat: string, rep: string)
    requires |pat| > 0 && BraceFree(pat) && Balanced(rep) && Balanced(s)
    ensures Balanced(ReplaceAll(s, pat, rep))
  {
    ReplaceDepth(s, pat, rep);
  }
}
