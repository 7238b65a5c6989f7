/**
 * One revision from start to end (`process_revision`): its keys are collected,
 * the capture groups and (author, year) pairs are taken from the bbl text when
 * there is one and from the bib files otherwise, and the LaTeX text is rewritten.
 * The per-revision class attributes of the source become the two records below.
 */
module Revision {
  import opened Wrappers
  import opened Strings
  import opened Entities
  import opened Configuration
  import opened RefKeys
  import opened CaptureGroups
  import opened Duplicates
  import opened BibTokens
  import opened Render
  import opened Document

  /**
   * What one revision brings: its LaTeX text, its bbl and bib files, the
   * arguments of the citation commands the key scan finds and the commands the
   * replacement scan finds. The source runs both scans on the comment-free
   * text; here they are given, and nothing ties them to `RemoveComments(tex)`.
   */
  datatype Sources = Sources(tex: string, bbl: BblSource, bibs: seq<BibSource>,
                             citeArgs: seq<string>, cites: seq<CiteMatch>)

  /** What is left of a revision once processed: its reference tables and its rewritten text. */
  datatype Processed = Processed(refs: References, tex: string)

  /** The bbl stage: the groups of each key, then the two bbl templates filled in from them. */
  function BblTables(cfg: Config, refkeys: seq<string>, bbl: BblSource): Result<References> {
    match MapKeys(refkeys, BblLookup(bbl))
    case Failure(e) => Failure(e)
    case Success(groups) =>
      assert forall k :: k in refkeys ==> k in groups;
      Success(References(refkeys, groups, map k | k in refkeys :: BblTokens(cfg.bbl, groups[k])))
  }

  /** The bib stage: no capture groups, the pairs read from the bib files. */
  function BibTables(cfg: Config, refkeys: seq<string>, bibs: seq<BibSource>): Result<References> {
    match BibAuthYear(cfg, refkeys, bibs)
    case Failure(e) => Failure(e)
    case Success(authyear) => Success(References(refkeys, NoGroups(refkeys), authyear))
  }

  /** The reference tables of a revision: its distinct keys, then the bbl stage or the bib stage. */
  function Tables(cfg: Config, src: Sources): Result<References> {
    var refkeys := UniqueKeys(src.citeArgs);
    if src.bbl.contents != "" then BblTables(cfg, refkeys, src.bbl) else BibTables(cfg, refkeys, src.bibs)
  }

  /** `process_revision`: the tables, then the rewritten text. */
  function ProcessSpec(cfg: Config, src: Sources): Result<Processed>
    requires Matched(src.cites)
  {
    match Tables(cfg, src)
    case Failure(e) => Failure(e)
    case Success(t) =>
      match RewriteTex(cfg, t, src.tex, src.cites)
      case Failure(e) => Failure(e)
      case Success(tex) => Success(Processed(t, tex))
  }

  /** The tables of a revision, built as the source builds them. */
  method BuildTables(cfg: Config, src: Sources) returns (r: Result<References>)
    ensures r == Tables(cfg, src)
  {
    var refkeys := CollectUniqueRefKeys(src.citeArgs);
    var groups := CaptureGroupsFromBbl(refkeys, src.bbl);
    if src.bbl.contents != "" {
      if groups.Failure? {
        return Failure(groups.error);
      }
      var authyear := AuthorYearFromBbl(refkeys, groups.value, cfg.bbl);
      assert authyear == map k | k in refkeys :: BblTokens(cfg.bbl, groups.value[k]);
      return Success(References(refkeys, groups.value, authyear));
    }
    var authyear := AuthorYearFromBib(cfg, refkeys, src.bibs);
    if authyear.Failure? {
      return Failure(authyear.error);
    }
    return Success(References(refkeys, groups.value, authyear.value));
  }

  /** `process_revision`, stage by stage. */
  method ProcessRevision(cfg: Config, src: Sources) returns (r: Result<Processed>)
    requires Matched(src.cites)
    ensures r == ProcessSpec(cfg, src)
  {
    var t := BuildTables(cfg, src);
    if t.Failure? {
      return Failure(t.error);
    }
    var tex := ReplaceRefsInTex(cfg, t.value, src.tex, src.cites);
    if tex.Failure? {
      return Failure(tex.error);
    }
    return Success(Processed(t.value, tex.value));
  }

  /** Both revisions, the old one first, each on its own sources. */
  method ProcessBoth(cfg: Config, older: Sources, newer: Sources) returns (r: Result<(Processed, Processed)>)
    requires Matched(older.cites) && Matched(newer.cites)
    ensures r.Success? <==> ProcessSpec(cfg, older).Success? && ProcessSpec(cfg, newer).Success?
    ensures r.Success? ==> r.value == (ProcessSpec(cfg, older).value, ProcessSpec(cfg, newer).value)
    ensures ProcessSpec(cfg, older).Failure? ==> r == Failure(ProcessSpec(cfg, older).error)
    ensures ProcessSpec(cfg, older).Success? && ProcessSpec(cfg, newer).Failure? ==>
      r == Failure(ProcessSpec(cfg, newer).error)
  {
    var a := ProcessRevision(cfg, older);
    if a.Failure? {
      return Failure(a.error);
    }
    var b := ProcessRevision(cfg, newer);
    if b.Failure? {
      return Failure(b.error);
    }
    return Success((a.value, b.value));
  }

  // ---------------------------------------------------------------------------
  // What the stages guarantee each other
  // ---------------------------------------------------------------------------

  /** Built tables know every collected key: a place in the key list, capture groups and a pair. */
  lemma TablesKnowEveryKey(cfg: Config, src: Sources)
    requires Tables(cfg, src).Success?
    ensures var t := Tables(cfg, src).value;
      t.refkeys == UniqueKeys(src.citeArgs) && forall k :: k in t.refkeys ==> Known(t, k)
  {
    var refkeys := UniqueKeys(src.citeArgs);
    if src.bbl.contents == "" && UsesAuthorYear(cfg) {
      var m := MapKeys(refkeys, BibLookup(cfg.bib, src.bibs));
      DisambiguatedKeepsAuthors(refkeys, m.value);
    }
  }

  /** Every key of a scanned argument is among the cited keys. */
  lemma {:induction false} ArgsCited(argLists: seq<string>, i: nat)
    requires i < |argLists|
    ensures forall k :: k in SplitKeys(argLists[i]) ==> k in CitedKeys(argLists)
    decreases |argLists|
  {
    var n := |argLists| - 1;
    if i < n {
      ArgsCited(argLists[..n], i);
    }
  }

  /**
   * When the replacement scan finds the commands the key scan found, and each
   * of them is formatted by the configuration, a revision whose tables are
   * built is rewritten without error: no cited key is ever unknown.
   */
  lemma CollectedKeysRender(cfg: Config, src: Sources)
    requires Matched(src.cites) && Tables(cfg, src).Success?
    requires forall i :: 0 <= i < |src.cites| ==> src.cites[i].args in src.citeArgs
    requires forall i :: 0 <= i < |src.cites| ==> src.cites[i].command in cfg.cmdFormat
    ensures ProcessSpec(cfg, src).Success?
  {
    var t := Tables(cfg, src).value;
    TablesKnowEveryKey(cfg, src);
    UniqueKeysFacts(src.citeArgs);
    forall i | 0 <= i < |src.cites| ensures FormatMatch(cfg, t, src.cites[i]).Success? {
      var m := src.cites[i];
      var j :| 0 <= j < |src.citeArgs| && src.citeArgs[j] == m.args;
      ArgsCited(src.citeArgs, j);
      var refs := SplitKeys(m.args);
      assert forall x :: 0 <= x < |refs| ==> refs[x] in refs;
      assert AllKnown(t, refs);
    }
    RewriteTexErrors(cfg, t, src.tex, src.cites);
  }

  /** Without a bbl text, the capture groups are empty, so no `%CG<n>%` is filled in. */
  lemma BibModeHasNoGroups(cfg: Config, src: Sources, k: string)
    requires src.bbl.contents == "" && Tables(cfg, src).Success? && k in UniqueKeys(src.citeArgs)
    ensures Tables(cfg, src).value.captureGroups[k] == []
  {
  }

  /** With a bbl text, each pair is the two bbl templates with the key's groups filled in. */
  lemma BblModePairs(cfg: Config, src: Sources, k: string)
    requires src.bbl.contents != "" && Tables(cfg, src).Success? && k in UniqueKeys(src.citeArgs)
    ensures var t := Tables(cfg, src).value;
      k in t.captureGroups && t.authyear[k] ==
        AuthYear(ApplyGroups(cfg.bbl.author, t.captureGroups[k]), ApplyGroups(cfg.bbl.year, t.captureGroups[k]))
  {
  }

  // ---------------------------------------------------------------------------
  // The repeated key
  // ---------------------------------------------------------------------------

  lemma RepeatedGroup(m: map<string, AuthYear>)
    requires "a" in m
    ensures GroupOf(["a", "a"], m, m["a"]) == ["a", "a"]
    ensures GroupOf(["a"], m, m["a"]) == ["a"]
  {
    assert ["a", "a"][..1] == ["a"] && ["a"][..0] == [];
  }

  lemma RepeatedSuffix()
    ensures SuffixFor(["a", "a"], "a") == "ab"
  {
    assert ["a", "a"][..1] == ["a"] && ["a"][..0] == [];
    assert Letters[0] == 'a' && Letters[1] == 'b';
  }

  /**
   * As written, `\cite{a, a}` lists `a` twice, so disambiguation sees a group of
   * two and gives the lone paper of 2011 the year `2011ab`.
   */
  lemma RepeatedKeyDoubleLetter()
    ensures KeysAsWritten(["a, a"]) == ["a", "a"]
    ensures Disambiguated(KeysAsWritten(["a, a"]), map["a" := AuthYear("Foo", "2011")]) ==
      Success(map["a" := AuthYear("Foo", "2011ab")])
  {
    RepeatedKeyKeptTwice();
    DisambiguatedTwice();
  }

  lemma DisambiguatedTwice()
    ensures Disambiguated(["a", "a"], map["a" := AuthYear("Foo", "2011")]) ==
      Success(map["a" := AuthYear("Foo", "2011ab")])
  {
    var refkeys := ["a", "a"];
    var m := map["a" := AuthYear("Foo", "2011")];
    RenamedTwice(m);
    OneKeyFits(refkeys, m);
    var r := map k | k in m :: Renamed(refkeys, m, k);
    assert r.Keys == {"a"};
    assert r == map["a" := AuthYear("Foo", "2011ab")];
  }

  lemma RenamedTwice(m: map<string, AuthYear>)
    requires m == map["a" := AuthYear("Foo", "2011")]
    ensures Renamed(["a", "a"], m, "a") == AuthYear("Foo", "2011ab")
  {
    RepeatedGroup(m);
    RepeatedSuffix();
  }

  /** Keys that are all `a` share one pair, and one group of at most two fits the alphabet. */
  lemma OneKeyFits(refkeys: seq<string>, m: map<string, AuthYear>)
    requires "a" in m && (refkeys == ["a"] || refkeys == ["a", "a"])
    ensures AllResolved(refkeys, m) && !TooManyShareAPair(refkeys, m)
  {
    forall k | k in refkeys ensures |GroupOf(refkeys, m, m[k])| <= |Letters| {
      assert k == "a";
    }
  }

  /** With the distinct keys, the same citation leaves the year alone. */
  lemma RepeatedKeySingleYear()
    ensures UniqueKeys(["a, a"]) == ["a"]
    ensures Disambiguated(UniqueKeys(["a, a"]), map["a" := AuthYear("Foo", "2011")]) ==
      Success(map["a" := AuthYear("Foo", "2011")])
  {
    RepeatedKeyKeptOnce();
    var refkeys := ["a"];
    var m := map["a" := AuthYear("Foo", "2011")];
    RepeatedGroup(m);
    assert Renamed(refkeys, m, "a") == m["a"];
    OneKeyFits(refkeys, m);
    assert (map k | k in m :: Renamed(refkeys, m, k)) == m;
  }
}
