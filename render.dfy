/**
 * Rendering one citation command (`format_refs`): the start text, the prenote,
 * the references in maximal runs of equal non-empty authors (one author token
 * per run, the run's years joined), the separators between runs, the postnote
 * and the end text, each reference optionally protected by `\ldiffentity{...}`.
 */
module Render {
  import opened Wrappers
  import opened Strings
  import opened Braces
  import opened Entities
  import opened Configuration
  import opened CaptureGroups

  // ---------------------------------------------------------------------------
  // Notes
  // ---------------------------------------------------------------------------

  /** The bracket groups of a command: one group is the postnote, two are prenote and postnote. */
  function NoteArgs(notes: Notes): (r: (Option<string>, Option<string>)) {
    match notes
    case NoNotes => (None, None)
    case OneNote(n) => (None, Some(n))
    case TwoNotes(a, b) => (Some(a), Some(b))
  }

  /** Python truthiness of an optional note: present and non-empty. */
  predicate Present(note: Option<string>) {
    note.Some? && note.value != ""
  }

  /** `\citet` shows no notes; for the other commands the notes stay as given. */
  function EffectiveNotes(cmd: string, notes: Notes): (Option<string>, Option<string>) {
    if cmd == "citet" then (None, None) else NoteArgs(notes)
  }

  /** Notes were given to a `\citet`, which drops them (the source logs a warning). */
  predicate NotesDropped(cmd: string, notes: Notes) {
    var (pre, post) := NoteArgs(notes);
    (Present(pre) || Present(post)) && cmd == "citet"
  }

  // ---------------------------------------------------------------------------
  // Keys and runs
  // ---------------------------------------------------------------------------

  /** The key has a place in the key list, capture groups and an (author, year) pair. */
  predicate Known(t: References, k: string) {
    k in t.refkeys && k in t.captureGroups && k in t.authyear
  }

  predicate AllKnown(t: References, refs: seq<string>) {
    forall i :: 0 <= i < |refs| ==> Known(t, refs[i])
  }

  /** The first cited key that the tables lack. */
  function FirstUnknown(t: References, refs: seq<string>): (r: Option<string>)
    ensures r.None? <==> AllKnown(t, refs)
    ensures r.Some? ==> exists i :: (0 <= i < |refs| && refs[i] == r.value && !Known(t, refs[i]) &&
      AllKnown(t, refs[..i]))
    decreases |refs|
  {
    if refs == [] then None
    else if !Known(t, refs[0]) then
      assert AllKnown(t, refs[..0]);
      Some(refs[0])
    else
      var r := FirstUnknown(t, refs[1..]);
      assert forall i :: 0 < i < |refs| ==> refs[i] == refs[1..][i - 1];
      if r.Some? then
        var j :| 0 <= j < |refs[1..]| && refs[1..][j] == r.value && !Known(t, refs[1..][j]) && AllKnown(t, refs[1..][..j]);
        assert refs[..j + 1] == [refs[0]] + refs[1..][..j];
        r
      else r
  }

  /** `list.index`: the position of the first occurrence. */
  function IndexOf(s: seq<string>, x: string): (i: nat)
    requires x in s
    ensures i < |s| && s[i] == x
    ensures forall j :: 0 <= j < i ==> s[j] != x
    decreases |s|
  {
    if s[0] == x then 0 else 1 + IndexOf(s[1..], x)
  }

  /** The next reference joins the current one's run: equal author strings, not empty. */
  predicate Merges(t: References, a: string, b: string)
    requires a in t.authyear && b in t.authyear
  {
    t.authyear[b].author == t.authyear[a].author && t.authyear[a].author != ""
  }

  /** The length of the maximal run at the front of `refs`. */
  function RunLen(t: References, refs: seq<string>): (n: nat)
    requires |refs| >= 1 && AllKnown(t, refs)
    ensures 1 <= n <= |refs|
    decreases |refs|
  {
    if |refs| >= 2 && Merges(t, refs[0], refs[1]) then 1 + RunLen(t, refs[1..]) else 1
  }

  /** Neighbours inside the first `k` references all merge. */
  predicate MergesWithin(t: References, refs: seq<string>, k: nat)
    requires k <= |refs| && AllKnown(t, refs)
  {
    forall j :: 0 <= j < k - 1 ==> Merges(t, refs[j], refs[j + 1])
  }

  /**
   * The run at the front is exactly the first `k` references when all of them
   * merge and the next one (if any) does not.
   */
  lemma {:induction false} RunLenExact(t: References, refs: seq<string>, k: nat)
    requires 1 <= k <= |refs| && AllKnown(t, refs)
    requires MergesWithin(t, refs, k)
    requires k == |refs| || !Merges(t, refs[k - 1], refs[k])
    ensures RunLen(t, refs) == k
    decreases k
  {
    if k > 1 {
      var tail := refs[1..];
      assert AllKnown(t, tail) by {
        forall i | 0 <= i < |tail| ensures Known(t, tail[i]) {
          assert tail[i] == refs[i + 1];
        }
      }
      assert MergesWithin(t, tail, k - 1) by {
        forall j | 0 <= j < k - 2 ensures Merges(t, tail[j], tail[j + 1]) {
          assert tail[j] == refs[j + 1] && tail[j + 1] == refs[j + 2];
        }
      }
      RunLenExact(t, tail, k - 1);
      assert Merges(t, refs[0], refs[1]);
    }
  }

  /** The run at the front is maximal: its neighbours merge and the next reference does not. */
  lemma {:induction false} RunLenMaximal(t: References, refs: seq<string>)
    requires |refs| >= 1 && AllKnown(t, refs)
    ensures MergesWithin(t, refs, RunLen(t, refs))
    ensures RunLen(t, refs) < |refs| ==> !Merges(t, refs[RunLen(t, refs) - 1], refs[RunLen(t, refs)])
    decreases |refs|
  {
    if |refs| >= 2 && Merges(t, refs[0], refs[1]) {
      var tail := refs[1..];
      assert AllKnown(t, tail) by {
        forall i | 0 <= i < |tail| ensures Known(t, tail[i]) {
          assert tail[i] == refs[i + 1];
        }
      }
      RunLenMaximal(t, tail);
      var n := RunLen(t, tail);
      forall j | 0 <= j < n ensures Merges(t, refs[j], refs[j + 1]) {
        if j > 0 {
          assert refs[j] == tail[j - 1] && refs[j + 1] == tail[j];
        }
      }
      if n + 1 < |refs| {
        assert refs[n] == tail[n - 1] && refs[n + 1] == tail[n];
      }
    }
  }

  // ---------------------------------------------------------------------------
  // The rendered text
  // ---------------------------------------------------------------------------

  const EntityOpen: string := "\\ldiffentity{"

  /** A protected piece of text: `\ldiffentity{x}` when protection is on, `x` itself otherwise. */
  function Wrap(protect: bool, x: string): string {
    if protect then EntityOpen + x + "}" else x
  }

  /** Python's `y[0:4]` and `y[4:]`. */
  function Take4(y: string): string {
    if |y| <= 4 then y else y[..4]
  }

  function Drop4(y: string): string {
    if |y| <= 4 then "" else y[4..]
  }

  /** A run's later year: only the part after the first four characters when these equal the previous year's. */
  function YearPart(prev: string, cur: string): string {
    if Take4(cur) == Take4(prev) then Drop4(cur) else cur
  }

  /** The years of a run, each protected, joined by the same-author separator. */
  function YearToken(t: References, protect: bool, sepSame: string, run: seq<string>): string
    requires |run| >= 1 && AllKnown(t, run)
    decreases |run|
  {
    var n := |run|;
    if n == 1 then Wrap(protect, t.authyear[run[0]].year)
    else
      YearToken(t, protect, sepSame, run[..n - 1]) + sepSame +
        Wrap(protect, YearPart(t.authyear[run[n - 2]].year, t.authyear[run[n - 1]].year))
  }

  /** The author template of a key: its capture groups, then `%AUTHOR%`, then `%NUMERIC%`. */
  function AuthorText(fmt: CmdFormat, t: References, k: string): string
    requires Known(t, k)
  {
    var a := ApplyGroups(fmt.author, t.captureGroups[k]);
    var a := ReplaceAll(a, "%AUTHOR%", t.authyear[k].author);
    ReplaceAll(a, "%NUMERIC%", NatToString(IndexOf(t.refkeys, k) + 1))
  }

  /**
   * One run: the first key's author text, the author-year separator and the
   * first key's year template with the run's year token in place of `%YEAR%`;
   * protected as a whole only when the run holds a single reference.
   */
  function RenderRun(fmt: CmdFormat, protect: bool, t: References, run: seq<string>): string
    requires |run| >= 1 && AllKnown(t, run)
  {
    var year := ApplyGroups(fmt.year, t.captureGroups[run[0]]);
    var body := AuthorText(fmt, t, run[0]) + fmt.sepAuthorYear +
      ReplaceAll(year, "%YEAR%", YearToken(t, protect, fmt.sepSameAuthorYear, run));
    if |run| == 1 then Wrap(protect, body) else body
  }

  /** The references cut into maximal runs, in order. */
  function Runs(t: References, refs: seq<string>): (runs: seq<seq<string>>)
    requires AllKnown(t, refs)
    ensures forall i :: 0 <= i < |runs| ==> |runs[i]| >= 1 && AllKnown(t, runs[i])
    decreases |refs|
  {
    if refs == [] then []
    else
      var n := RunLen(t, refs);
      var rest := Runs(t, refs[n..]);
      assert AllKnown(t, refs[..n]) by {
        forall i | 0 <= i < n ensures Known(t, refs[..n][i]) {
          assert refs[..n][i] == refs[i];
        }
      }
      [refs[..n]] + rest
  }

  /** All rendered runs, separated by the reference separator. */
  function RenderRefs(fmt: CmdFormat, protect: bool, t: References, refs: seq<string>): string
    requires AllKnown(t, refs)
    decreases |refs|
  {
    if refs == [] then ""
    else
      var n := RunLen(t, refs);
      assert AllKnown(t, refs[..n]) by {
        forall i | 0 <= i < n ensures Known(t, refs[..n][i]) {
          assert refs[..n][i] == refs[i];
        }
      }
      RenderRun(fmt, protect, t, refs[..n]) + (if n < |refs| then fmt.sepRef + RenderRefs(fmt, protect, t, refs[n..]) else "")
  }

  /** The whole formatted citation of one command. */
  function FormatRefsSpec(cfg: Config, t: References, cmd: string, notes: Notes, refs: seq<string>): string
    requires cmd in cfg.cmdFormat && AllKnown(t, refs)
  {
    var fmt := cfg.cmdFormat[cmd];
    var (pre, post) := EffectiveNotes(cmd, notes);
    fmt.citeStart + (if Present(pre) then pre.value + fmt.sepPrenote else "") +
      RenderRefs(fmt, cfg.refSingleWord, t, refs) +
      (if Present(post) then fmt.sepPostnote + post.value else "") + fmt.citeEnd
  }

  /** `format_refs` with its failures: an unformatted command, then the first unknown key. */
  function FormatRefsResult(cfg: Config, t: References, cmd: string, notes: Notes, refs: seq<string>): Result<string> {
    if cmd !in cfg.cmdFormat then Failure(UnknownCommand(cmd))
    else match FirstUnknown(t, refs)
      case Some(k) => Failure(UnknownKey(k))
      case None => Success(FormatRefsSpec(cfg, t, cmd, notes, refs))
  }

  // ---------------------------------------------------------------------------
  // The loop
  // ---------------------------------------------------------------------------

  lemma AllKnownTail(t: References, refs: seq<string>, k: nat)
    requires k <= |refs| && AllKnown(t, refs)
    ensures AllKnown(t, refs[k..]) && AllKnown(t, refs[..k])
  {
    forall i | 0 <= i < |refs| - k ensures Known(t, refs[k..][i]) {
      assert refs[k..][i] == refs[k + i];
    }
    forall i | 0 <= i < k ensures Known(t, refs[..k][i]) {
      assert refs[..k][i] == refs[i];
    }
  }

  /** One more reference of the run: the year token grows by one separator and one year. */
  lemma YearTokenStep(t: References, protect: bool, sepSame: string, run: seq<string>, k: nat)
    requires 1 <= k < |run| && AllKnown(t, run)
    ensures AllKnown(t, run[..k]) && AllKnown(t, run[..k + 1])
    ensures YearToken(t, protect, sepSame, run[..k + 1]) ==
      YearToken(t, protect, sepSame, run[..k]) + sepSame +
        Wrap(protect, YearPart(t.authyear[run[k - 1]].year, t.authyear[run[k]].year))
  {
    AllKnownTail(t, run, k);
    AllKnownTail(t, run, k + 1);
    var p := run[..k + 1];
    PrefixStep(run, k);
    assert p[k - 1] == run[k - 1] && p[k] == run[k];
    YearTokenLast(t, protect, sepSame, p, k);
  }

  lemma YearTokenLast(t: References, protect: bool, sepSame: string, p: seq<string>, k: nat)
    requires k >= 1 && |p| == k + 1 && AllKnown(t, p)
    ensures AllKnown(t, p[..k])
    ensures YearToken(t, protect, sepSame, p) ==
      YearToken(t, protect, sepSame, p[..k]) + sepSame +
        Wrap(protect, YearPart(t.authyear[p[k - 1]].year, t.authyear[p[k]].year))
  {
    AllKnownTail(t, p, k);
    YearTokenSnoc(t, protect, sepSame, p);
    assert |p| - 1 == k && |p| - 2 == k - 1;
  }

  lemma YearTokenSnoc(t: References, protect: bool, sepSame: string, p: seq<string>)
    requires |p| >= 2 && AllKnown(t, p)
    ensures AllKnown(t, p[..|p| - 1])
    ensures YearToken(t, protect, sepSame, p) ==
      YearToken(t, protect, sepSame, p[..|p| - 1]) + sepSame +
        Wrap(protect, YearPart(t.authyear[p[|p| - 2]].year, t.authyear[p[|p| - 1]].year))
  {
    AllKnownTail(t, p, |p| - 1);
  }

  /** The rendered references after the first run is cut off. */
  lemma RenderRefsStep(fmt: CmdFormat, protect: bool, t: References, refs: seq<string>, k: nat)
    requires 1 <= k <= |refs| && AllKnown(t, refs) && RunLen(t, refs) == k
    ensures AllKnown(t, refs[..k]) && AllKnown(t, refs[k..])
    ensures RenderRefs(fmt, protect, t, refs) ==
      RenderRun(fmt, protect, t, refs[..k]) + (if k < |refs| then fmt.sepRef + RenderRefs(fmt, protect, t, refs[k..]) else "")
  {
    AllKnownTail(t, refs, k);
  }

  /** The pieces of one run in the order the loop appends them. */
  lemma RenderRunPieces(fmt: CmdFormat, protect: bool, t: References, run: seq<string>,
                        openText: string, author: string, year: string, token: string)
    requires |run| >= 1 && AllKnown(t, run)
    requires openText == (if protect && |run| == 1 then EntityOpen else "")
    requires author == AuthorText(fmt, t, run[0]) && year == ApplyGroups(fmt.year, t.captureGroups[run[0]])
    requires token == YearToken(t, protect, fmt.sepSameAuthorYear, run)
    ensures var pre := openText + author + fmt.sepAuthorYear + ReplaceAll(year, "%YEAR%", token);
      RenderRun(fmt, protect, t, run) == if |run| == 1 && protect then pre + "}" else pre
  {
    var rest := ReplaceAll(year, "%YEAR%", token);
    var body := author + fmt.sepAuthorYear + rest;
    assert RenderRun(fmt, protect, t, run) == (if |run| == 1 then Wrap(protect, body) else body);
    Regroup(openText, author, fmt.sepAuthorYear, rest, "}");
    if !(protect && |run| == 1) {
      assert openText + author == author;
    }
  }

  /** The first run holds one reference exactly when the first two references do not merge. */
  lemma FirstRunStart(t: References, refs: seq<string>)
    requires |refs| >= 1 && AllKnown(t, refs)
    ensures var k := RunLen(t, refs);
      && AllKnown(t, refs[..k]) && |refs[..k]| == k && refs[..k][0] == refs[0]
      && ((|refs| == 1 || !Merges(t, refs[0], refs[1])) <==> k == 1)
  {
    AllKnownTail(t, refs, RunLen(t, refs));
  }

  lemma Regroup(a: string, b: string, c: string, d: string, e: string)
    ensures a + b + c + d + e == a + (b + c + d) + e
  {
  }

  /** One more year appended to the token, protected as the loop protects it. */
  lemma TokenStep(token: string, sep: string, protect: bool, open: string, close: string, x: string)
    requires open == (if protect then EntityOpen else "") && close == (if protect then "}" else "")
    ensures token + sep + open + x + close == token + sep + Wrap(protect, x)
  {
    if protect {
      Regroup(token, sep, open, x, close);
      assert open + x + close == Wrap(protect, x);
    } else {
      assert open == "" && close == "";
      EmptyAround(token + sep, x);
    }
  }

  lemma EmptyAround(a: string, x: string)
    ensures a + "" + x + "" == a + x
  {
  }

  /** The formatted citation from its parts, with the notes as the loop holds them. */
  lemma FormatRefsAssembled(cfg: Config, t: References, cmd: string, notes: Notes, refs: seq<string>,
                            prenote: Option<string>, postnote: Option<string>)
    requires cmd in cfg.cmdFormat && AllKnown(t, refs)
    requires var (pre, post) := NoteArgs(notes);
      if (Present(pre) || Present(post)) && cmd == "citet" then prenote == None && postnote == None
      else prenote == pre && postnote == post
    ensures var fmt := cfg.cmdFormat[cmd];
      FormatRefsSpec(cfg, t, cmd, notes, refs) ==
        fmt.citeStart + (if Present(prenote) then prenote.value + fmt.sepPrenote else "") +
        RenderRefs(fmt, cfg.refSingleWord, t, refs) +
        (if Present(postnote) then fmt.sepPostnote + postnote.value else "") + fmt.citeEnd
  {
  }

  /**
   * The inner loop of `format_refs`: the year token of the run at the front of
   * `run`, started with the first reference's year and extended while the next
   * reference has the same non-empty author; returns what is left after the run.
   */
  method CollectYears(t: References, protect: bool, sepSame: string, run: seq<string>)
    returns (yearToken: string, rest: seq<string>)
    requires |run| >= 1 && AllKnown(t, run)
    ensures rest == run[RunLen(t, run)..]
    ensures AllKnown(t, run[..RunLen(t, run)])
    ensures yearToken == YearToken(t, protect, sepSame, run[..RunLen(t, run)])
  {
    var open := if protect then EntityOpen else "";
    var close := if protect then "}" else "";
    var ref := run[0];
    rest := run[1..];
    yearToken := open + t.authyear[ref].year + close;
    ghost var k := 1;
    assert run[..1] == [run[0]];
    while |rest| > 0 && Merges(t, ref, rest[0])
      invariant 1 <= k <= |run| && rest == run[k..] && ref == run[k - 1]
      invariant AllKnown(t, run[..k]) && MergesWithin(t, run, k)
      invariant yearToken == YearToken(t, protect, sepSame, run[..k])
      decreases |rest|
    {
      var ref2 := rest[0];
      rest := rest[1..];
      YearTokenStep(t, protect, sepSame, run, k);
      ghost var part := YearPart(t.authyear[ref].year, t.authyear[ref2].year);
      TokenStep(yearToken, sepSame, protect, open, close, part);
      yearToken := yearToken + sepSame;
      if Take4(t.authyear[ref2].year) == Take4(t.authyear[ref].year) {
        yearToken := yearToken + open + Drop4(t.authyear[ref2].year) + close;
      } else {
        yearToken := yearToken + open + t.authyear[ref2].year + close;
      }
      ref := ref2;
      k := k + 1;
    }
    RunLenExact(t, run, k);
  }

  /**
   * One pass of the outer loop of `format_refs`: the first reference of `refs`
   * opens a run; its author text, the author-year separator and its year template
   * holding the run's year token, protected as a whole when the run is a single
   * reference.  Returns the text and the references after the run.
   */
  method RenderFirstRun(fmt: CmdFormat, protect: bool, t: References, refs: seq<string>)
    returns (piece: string, rest: seq<string>)
    requires |refs| >= 1 && AllKnown(t, refs)
    ensures rest == refs[RunLen(t, refs)..]
    ensures AllKnown(t, refs[..RunLen(t, refs)])
    ensures piece == RenderRun(fmt, protect, t, refs[..RunLen(t, refs)])
  {
    var open := if protect then EntityOpen else "";
    var close := if protect then "}" else "";
    var ref := refs[0];
    var ldiffAuthor := |refs| == 1 || !Merges(t, ref, refs[1]);
    FirstRunStart(t, refs);
    ghost var run := refs[..RunLen(t, refs)];
    piece := if ldiffAuthor then open else "";
    ghost var openText := piece;
    var author := ReplaceCaptureGroups(fmt.author, t.captureGroups[ref]);
    author := ReplaceAll(author, "%AUTHOR%", t.authyear[ref].author);
    author := ReplaceAll(author, "%NUMERIC%", NatToString(IndexOf(t.refkeys, ref) + 1));
    piece := piece + author;
    piece := piece + fmt.sepAuthorYear;
    var year := ReplaceCaptureGroups(fmt.year, t.captureGroups[ref]);
    var yearToken;
    yearToken, rest := CollectYears(t, protect, fmt.sepSameAuthorYear, refs);
    piece := piece + ReplaceAll(year, "%YEAR%", yearToken);
    RenderRunPieces(fmt, protect, t, run, openText, author, year, yearToken);
    if ldiffAuthor {
      piece := piece + close;
    }
  }

  /**
   * The outer loop of `format_refs`: the runs appended to `out` one after the
   * other, with the reference separator after each run that is not the last.
   */
  method AppendRefs(out0: string, fmt: CmdFormat, protect: bool, t: References, refs: seq<string>)
    returns (out: string)
    requires AllKnown(t, refs)
    ensures out == out0 + RenderRefs(fmt, protect, t, refs)
  {
    out := out0;
    var rest := refs;
    while |rest| > 0
      invariant AllKnown(t, rest)
      invariant out + RenderRefs(fmt, protect, t, rest) == out0 + RenderRefs(fmt, protect, t, refs)
      decreases |rest|
    {
      ghost var run0 := rest;
      ghost var before := out;
      ghost var k := RunLen(t, run0);
      var piece;
      piece, rest := RenderFirstRun(fmt, protect, t, rest);
      RenderRefsStep(fmt, protect, t, run0, k);
      out := out + piece;
      if |rest| > 0 {
        out := out + fmt.sepRef;
      }
      StepJoin(before, piece, fmt.sepRef, RenderRefs(fmt, protect, t, rest), |rest| > 0);
    }
  }

  lemma StepJoin(before: string, run: string, sep: string, restText: string, more: bool)
    requires !more ==> restText == ""
    ensures (before + run + (if more then sep else "")) + restText ==
      before + (run + (if more then sep + restText else ""))
  {
    if !more {
      assert before + run + "" == before + run;
      assert run + "" == run;
    }
  }

  /**
   * `format_refs`: the start text and prenote, the references, the postnote and
   * the end text.  Also reports whether notes given to `\citet` were dropped.
   */
  method FormatRefs(cfg: Config, t: References, cmd: string, notes: Notes, refs: seq<string>)
    returns (r: Result<string>, dropped: bool)
    ensures r == FormatRefsResult(cfg, t, cmd, notes, refs)
    ensures dropped == NotesDropped(cmd, notes)
  {
    var args := NoteArgs(notes);
    var prenote, postnote := args.0, args.1;
    dropped := (Present(prenote) || Present(postnote)) && cmd == "citet";
    if dropped {
      prenote, postnote := None, None;
    }
    if cmd !in cfg.cmdFormat {
      return Failure(UnknownCommand(cmd)), dropped;
    }
    var fmt := cfg.cmdFormat[cmd];
    var unknown := FirstUnknown(t, refs);
    if unknown.Some? {
      return Failure(UnknownKey(unknown.value)), dropped;
    }
    ghost var preText := if Present(prenote) then prenote.value + fmt.sepPrenote else "";
    ghost var postText := if Present(postnote) then fmt.sepPostnote + postnote.value else "";
    var out := fmt.citeStart;
    if Present(prenote) {
      out := out + (prenote.value + fmt.sepPrenote);
    }
    assert out == fmt.citeStart + preText;
    ghost var body := RenderRefs(fmt, cfg.refSingleWord, t, refs);
    out := AppendRefs(out, fmt, cfg.refSingleWord, t, refs);
    ghost var mid := out;
    assert mid == fmt.citeStart + preText + body;
    if Present(postnote) {
      out := out + (fmt.sepPostnote + postnote.value);
    } else {
      assert out == mid + postText;
    }
    assert out == mid + postText;
    out := out + fmt.citeEnd;
    FormatRefsAssembled(cfg, t, cmd, notes, refs, prenote, postnote);
    return Success(out), dropped;
  }
}
