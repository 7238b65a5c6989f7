/**
 * Capture-group templating: `%CG<n>%` in a template stands for the n-th group
 * of the key's bbl match, and bbl-based (author, year) tokens are the two bbl
 * templates with their groups filled in.
 */
module CaptureGroups {
  import opened Wrappers
  import opened Strings
  import opened Braces
  import opened Entities
  import opened Configuration

  /** The placeholder of the n-th group, `%CG<n>%`. */
  function Placeholder(n: nat): (p: string)
    ensures |p| >= 5 && p[0] == '%' && p[|p| - 1] == '%'
    ensures BraceFree(p)
  {
    var p := "%CG" + NatToString(n) + "%";
    assert forall i :: 3 <= i < |p| - 1 ==> p[i] == NatToString(n)[i - 3];
    p
  }

  /** `replacement or ''`: a group that took no part counts as empty text. */
  function GroupText(g: Option<string>): string {
    if g.Some? then g.value else ""
  }

  /** The template after replacing `%CG1%`, then `%CG2%`, and so on, one group at a time. */
  function ApplyGroups(s: string, groups: Groups): string
    decreases |groups|
  {
    if groups == [] then s
    else
      var n := |groups|;
      ReplaceAll(ApplyGroups(s, groups[..n - 1]), Placeholder(n), GroupText(groups[n - 1]))
  }

  /** `replace_capture_groups`: the loop over the groups, rebinding the string at each step. */
  method ReplaceCaptureGroups(s: string, groups: Groups) returns (r: string)
    ensures r == ApplyGroups(s, groups)
  {
    r := s;
    for i := 0 to |groups|
      invariant r == ApplyGroups(s, groups[..i])
    {
      assert groups[..i + 1][..i] == groups[..i];
      r := ReplaceAll(r, Placeholder(i + 1), GroupText(groups[i]));
    }
    assert groups[..|groups|] == groups;
  }

  /** A pattern with a character the text lacks is not found, so nothing is replaced. */
  lemma {:induction false} ReplaceMissingChar(s: string, pat: string, rep: string, j: nat)
    requires j < |pat| && pat[j] !in s
    ensures ReplaceAll(s, pat, rep) == s
    decreases |s|
  {
    if |s| >= |pat| {
      assert s[j] in s;
      assert s[..|pat|][j] == s[j];
      assert forall c :: c in s[1..] ==> c in s;
      ReplaceMissingChar(s[1..], pat, rep, j);
      assert s == [s[0]] + s[1..];
    }
  }

  /** A template holding no `%` has no placeholder and comes back unchanged. */
  lemma {:induction false} ApplyGroupsNoPercent(s: string, groups: Groups)
    requires '%' !in s
    ensures ApplyGroups(s, groups) == s
    decreases |groups|
  {
    if groups != [] {
      var n := |groups|;
      ApplyGroupsNoPercent(s, groups[..n - 1]);
      ReplaceMissingChar(s, Placeholder(n), GroupText(groups[n - 1]), 0);
    }
  }

  /** Filling balanced groups into a balanced template keeps it balanced. */
  lemma {:induction false} ApplyGroupsBalanced(s: string, groups: Groups)
    requires Balanced(s)
    requires forall i :: 0 <= i < |groups| ==> Balanced(GroupText(groups[i]))
    ensures Balanced(ApplyGroups(s, groups))
    decreases |groups|
  {
    if groups != [] {
      var n := |groups|;
      ApplyGroupsBalanced(s, groups[..n - 1]);
      ReplaceBalanced(ApplyGroups(s, groups[..n - 1]), Placeholder(n), GroupText(groups[n - 1]));
    }
  }

  /** Different groups have different placeholders. */
  lemma PlaceholderInjective(m: nat, n: nat)
    requires m != n
    ensures Placeholder(m) != Placeholder(n)
  {
    var p, q := Placeholder(m), Placeholder(n);
    if p == q {
      assert p[3..|p| - 1] == NatToString(m);
      assert q[3..|q| - 1] == NatToString(n);
      NatToStringInjective(m, n);
    }
  }

  lemma PlaceholderDigits()
    ensures Placeholder(1) == "%CG1%" && Placeholder(2) == "%CG2%"
    ensures Placeholder(3) == "%CG3%" && Placeholder(4) == "%CG4%"
  {
  }

  /** Four groups: the four replacements in order. */
  lemma ApplyFourGroups(s: string, a: Option<string>, b: Option<string>, c: Option<string>, d: Option<string>)
    ensures ApplyGroups(s, [a, b, c, d]) ==
      ReplaceAll(ReplaceAll(ReplaceAll(ReplaceAll(s, "%CG1%", GroupText(a)), "%CG2%", GroupText(b)),
        "%CG3%", GroupText(c)), "%CG4%", GroupText(d))
  {
    PlaceholderDigits();
    var g := [a, b, c, d];
    assert g[..3] == [a, b, c] && g[..3][..2] == [a, b] && g[..3][..2][..1] == [a];
    assert [a][..0] == [];
    assert ApplyGroups(s, [a]) == ReplaceAll(s, "%CG1%", GroupText(a));
    assert ApplyGroups(s, [a, b]) == ReplaceAll(ApplyGroups(s, [a]), "%CG2%", GroupText(b));
    assert ApplyGroups(s, [a, b, c]) == ReplaceAll(ApplyGroups(s, [a, b]), "%CG3%", GroupText(c));
  }

  lemma DefaultAuthorTemplate(ta: string, tb: string, tc: string, td: string)
    requires '%' !in ta
    ensures ReplaceAll(ReplaceAll(ReplaceAll(ReplaceAll("%CG1%", "%CG1%", ta), "%CG2%", tb),
      "%CG3%", tc), "%CG4%", td) == ta
  {
    var author := "%CG1%";
    assert author[..5] == author && author[5..] == "";
    assert ReplaceAll(author, "%CG1%", ta) == ta;
    ReplaceMissingChar(ta, "%CG2%", tb, 0);
    ReplaceMissingChar(ta, "%CG3%", tc, 0);
    ReplaceMissingChar(ta, "%CG4%", td, 0);
  }

  lemma DefaultYearFirstSteps(ta: string, tb: string)
    ensures ReplaceAll(ReplaceAll("%CG2%%CG3%", "%CG1%", ta), "%CG2%", tb) == tb + "%CG3%"
  {
    YearSkipsFirst(ta);
    YearTakesSecond(tb);
  }

  lemma YearSkipsFirst(ta: string)
    ensures ReplaceAll("%CG2%%CG3%", "%CG1%", ta) == "%CG2%%CG3%"
  {
    var year := "%CG2%%CG3%";
    var pat := "%CG1%";
    assert pat[3] == '1' && pat[3] !in year;
    ReplaceMissingChar(year, pat, ta, 3);
  }

  lemma YearTakesSecond(tb: string)
    ensures ReplaceAll("%CG2%%CG3%", "%CG2%", tb) == tb + "%CG3%"
  {
    var year := "%CG2%%CG3%";
    var pat := "%CG2%";
    var rest := "%CG3%";
    assert year[..|pat|] == pat && year[|pat|..] == rest;
    assert pat[3] == '2' && pat[3] !in rest;
    ReplaceMissingChar(rest, pat, tb, 3);
  }

  lemma DefaultYearLastSteps(tb: string, tc: string, td: string)
    requires '%' !in tb && '%' !in tc
    ensures ReplaceAll(ReplaceAll(tb + "%CG3%", "%CG3%", tc), "%CG4%", td) == tb + tc
  {
    ReplaceSkipsPrefix(tb, "%CG3%", "%CG3%", tc);
    var p := "%CG3%";
    assert p[..5] == p && p[5..] == "";
    assert ReplaceAll(p, "%CG3%", tc) == tc;
    assert '%' !in tb + tc;
    ReplaceMissingChar(tb + tc, "%CG4%", td, 0);
  }

  /**
   * With the built-in bbl templates and the four groups of the built-in bbl regex
   * (none holding `%`), the author is the first group and the year is the
   * second group followed by the third (the `\natexlab` letter, if any).
   */
  lemma DefaultBblTokens(a: Option<string>, b: Option<string>, c: Option<string>, d: Option<string>)
    requires '%' !in GroupText(a) && '%' !in GroupText(b) && '%' !in GroupText(c) && '%' !in GroupText(d)
    ensures ApplyGroups(Defaults().bbl.author, [a, b, c, d]) == GroupText(a)
    ensures ApplyGroups(Defaults().bbl.year, [a, b, c, d]) == GroupText(b) + GroupText(c)
  {
    ApplyFourGroups(Defaults().bbl.author, a, b, c, d);
    ApplyFourGroups(Defaults().bbl.year, a, b, c, d);
    DefaultAuthorTemplate(GroupText(a), GroupText(b), GroupText(c), GroupText(d));
    DefaultYearFirstSteps(GroupText(a), GroupText(b));
    DefaultYearLastSteps(GroupText(b), GroupText(c), GroupText(d));
  }

  /** The groups of one key, or why the bbl file has none for it. */
  function BblGroups(bbl: BblSource, key: string): (r: Result<Groups>)
    ensures r.Failure? <==> !Contains(bbl.contents, key) || key !in bbl.matches
    ensures r.Failure? && !Contains(bbl.contents, key) ==> r.error == KeyNotInBbl(key)
    ensures r.Failure? && Contains(bbl.contents, key) ==> r.error == NoBblMatch(key)
    ensures r.Success? ==> r.value == bbl.matches[key]
  {
    if !Contains(bbl.contents, key) then Failure(KeyNotInBbl(key))
    else if key !in bbl.matches then Failure(NoBblMatch(key))
    else Success(bbl.matches[key])
  }

  function BblLookup(bbl: BblSource): string -> Result<Groups> {
    k => BblGroups(bbl, k)
  }

  /** Every key mapped to the empty group tuple. */
  function NoGroups(refkeys: seq<string>): (m: map<string, Groups>)
    ensures m.Keys == set k | k in refkeys
    ensures forall k :: k in m ==> m[k] == []
  {
    map k | k in refkeys :: []
  }

  /**
   * `get_capture_groups_from_bbl`: with no bbl text every key gets the empty
   * tuple; otherwise each key in order is looked up, and the first key the bbl
   * file lacks is a fatal error.
   */
  method CaptureGroupsFromBbl(refkeys: seq<string>, bbl: BblSource) returns (r: Result<map<string, Groups>>)
    ensures bbl.contents == "" ==> r == Success(NoGroups(refkeys))
    ensures bbl.contents != "" ==> r == MapKeys(refkeys, BblLookup(bbl))
  {
    if bbl.contents == "" {
      return Success(NoGroups(refkeys));
    }
    var groups: map<string, Groups> := map[];
    for i := 0 to |refkeys|
      invariant MapKeys(refkeys[..i], BblLookup(bbl)) == Success(groups)
    {
      assert refkeys[..i + 1][..i] == refkeys[..i];
      var found := BblGroups(bbl, refkeys[i]);
      if found.Failure? {
        MapKeysFailurePropagates(refkeys, BblLookup(bbl), i + 1);
        return Failure(found.error);
      }
      groups := groups[refkeys[i] := found.value];
    }
    assert refkeys[..|refkeys|] == refkeys;
    return Success(groups);
  }

  /** The bbl (author, year) pair of one key: the two bbl templates with its groups filled in. */
  function BblTokens(opts: BblOptions, groups: Groups): AuthYear {
    AuthYear(ApplyGroups(opts.author, groups), ApplyGroups(opts.year, groups))
  }

  /** `make_author_year_tokens_from_bbl`: one (author, year) pair per key. */
  method AuthorYearFromBbl(refkeys: seq<string>, groups: map<string, Groups>, opts: BblOptions)
    returns (authyear: map<string, AuthYear>)
    requires forall k :: k in refkeys ==> k in groups
    ensures authyear.Keys == set k | k in refkeys
    ensures forall k :: k in refkeys ==> authyear[k] == BblTokens(opts, groups[k])
  {
    authyear := map[];
    for i := 0 to |refkeys|
      invariant authyear.Keys == set k | k in refkeys[..i]
      invariant forall k :: k in refkeys[..i] ==> authyear[k] == BblTokens(opts, groups[k])
    {
      assert refkeys[..i + 1] == refkeys[..i] + [refkeys[i]];
      var ref := refkeys[i];
      var name := ReplaceCaptureGroups(opts.author, groups[ref]);
      var year := ReplaceCaptureGroups(opts.year, groups[ref]);
      authyear := authyear[ref := AuthYear(name, year)];
    }
    assert refkeys[..|refkeys|] == refkeys;
  }
}
