/**
 * What a formatted citation looks like: the references fall into maximal runs
 * of equal non-empty authors, the runs are joined by the reference separator,
 * the text is framed by the start and end texts with the notes inside them, and
 * every brace the renderer opens (`\ldiffentity{` included) is closed.
 */
module RenderFacts {
  import opened Wrappers
  import opened Strings
  import opened Braces
  import opened Entities
  import opened Configuration
  import opened CaptureGroups
  import opened Render

  // ---------------------------------------------------------------------------
  // Runs
  // ---------------------------------------------------------------------------

  /** The runs put back together. */
  function Concat(runs: seq<seq<string>>): seq<string>
    decreases |runs|
  {
    if runs == [] then [] else runs[0] + Concat(runs[1..])
  }

  /** Each run rendered, in order. */
  function RenderAll(fmt: CmdFormat, protect: bool, t: References, runs: seq<seq<string>>): (r: seq<string>)
    requires forall i :: 0 <= i < |runs| ==> |runs[i]| >= 1 && AllKnown(t, runs[i])
    ensures |r| == |runs|
    decreases |runs|
  {
    if runs == [] then [] else [RenderRun(fmt, protect, t, runs[0])] + RenderAll(fmt, protect, t, runs[1..])
  }

  /** The runs cover the references exactly, in order. */
  lemma {:induction false} RunsConcat(t: References, refs: seq<string>)
    requires AllKnown(t, refs)
    ensures Concat(Runs(t, refs)) == refs
    decreases |refs|
  {
    if refs != [] {
      var n := RunLen(t, refs);
      AllKnownTail(t, refs, n);
      RunsConcat(t, refs[n..]);
      var runs := Runs(t, refs);
      assert runs[1..] == Runs(t, refs[n..]);
      assert refs == refs[..n] + refs[n..];
    }
  }

  /** Every run holds at least one reference, all of them known. */
  predicate WellFormedRuns(t: References, runs: seq<seq<string>>) {
    forall k :: 0 <= k < |runs| ==> |runs[k]| >= 1 && AllKnown(t, runs[k])
  }

  /**
   * Run `i` is maximal: inside it every reference merges with the next, and its
   * last reference does not merge with the first of the next run.
   */
  predicate MaximalAt(t: References, runs: seq<seq<string>>, i: nat)
    requires i < |runs| && WellFormedRuns(t, runs)
  {
    var run := runs[i];
    MergesWithin(t, run, |run|) &&
    (i + 1 < |runs| ==> Known(t, runs[i + 1][0]) && !Merges(t, run[|run| - 1], runs[i + 1][0]))
  }

  /** The runs are maximal. */
  lemma {:induction false} RunsMaximal(t: References, refs: seq<string>, i: nat)
    requires AllKnown(t, refs) && i < |Runs(t, refs)|
    ensures WellFormedRuns(t, Runs(t, refs)) && MaximalAt(t, Runs(t, refs), i)
    decreases |refs|
  {
    var n := RunLen(t, refs);
    var runs := Runs(t, refs);
    RunsCons(t, refs);
    var rest := Runs(t, refs[n..]);
    if i == 0 {
      FirstRunMaximal(t, refs);
    } else {
      RunsMaximal(t, refs[n..], i - 1);
      ShiftMaximal(t, runs, refs[..n], rest, i);
    }
  }

  lemma FirstRunMaximal(t: References, refs: seq<string>)
    requires refs != [] && AllKnown(t, refs)
    ensures WellFormedRuns(t, Runs(t, refs)) && MaximalAt(t, Runs(t, refs), 0)
  {
    var n := RunLen(t, refs);
    RunsCons(t, refs);
    var rest := Runs(t, refs[n..]);
    ConsParts(refs[..n], rest);
    FirstRunMerges(t, refs);
    if rest != [] {
      RunsCons(t, refs[n..]);
      var m := RunLen(t, refs[n..]);
      FirstOfDrop(refs, n, m);
    }
  }

  /** Past the first run, the runs are those of the rest, so they stay maximal. */
  lemma ShiftMaximal(t: References, runs: seq<seq<string>>, x: seq<string>, rest: seq<seq<string>>, i: nat)
    requires runs == [x] + rest
    requires 0 < i <= |rest| && |x| >= 1 && AllKnown(t, x)
    requires WellFormedRuns(t, rest) && MaximalAt(t, rest, i - 1)
    ensures WellFormedRuns(t, runs) && MaximalAt(t, runs, i)
  {
    assert runs[i] == rest[i - 1];
    if i < |rest| {
      assert runs[i + 1] == rest[i];
    }
  }

  lemma ConsParts<T>(x: T, rest: seq<T>)
    ensures ([x] + rest)[0] == x && ([x] + rest)[1..] == rest
  {
  }

  /** The first element of `refs[n..]` cut to `m` is `refs[n]`. */
  lemma FirstOfDrop(refs: seq<string>, n: nat, m: nat)
    requires n < |refs| && 1 <= m <= |refs| - n
    ensures refs[n..][..m][0] == refs[n]
  {
  }

  /** All neighbours in the first run merge. */
  lemma FirstRunMerges(t: References, refs: seq<string>)
    requires refs != [] && AllKnown(t, refs)
    ensures var n := RunLen(t, refs); AllKnown(t, refs[..n]) && MergesWithin(t, refs[..n], n)
    ensures var n := RunLen(t, refs); n < |refs| ==> !Merges(t, refs[..n][n - 1], refs[n])
  {
    var n := RunLen(t, refs);
    AllKnownTail(t, refs, n);
    RunLenMaximal(t, refs);
    var run := refs[..n];
    forall j | 0 <= j < n - 1 ensures Merges(t, run[j], run[j + 1]) {
      assert run[j] == refs[j] && run[j + 1] == refs[j + 1];
    }
    assert n >= 1 && run[n - 1] == refs[n - 1];
  }

  /** A run of several references shares one author string, and it is not empty. */
  lemma MergedRunAuthors(t: References, run: seq<string>, j: nat)
    requires |run| >= 1 && AllKnown(t, run) && MergesWithin(t, run, |run|)
    requires j < |run|
    ensures t.authyear[run[j]].author == t.authyear[run[0]].author
    ensures |run| >= 2 ==> t.authyear[run[0]].author != ""
    decreases j
  {
    if j > 0 {
      MergedRunAuthors(t, run, j - 1);
    }
    if |run| >= 2 {
      assert Merges(t, run[0], run[1]);
    }
  }

  /** A reference with an empty author string never merges: its run is itself alone. */
  lemma EmptyAuthorAlone(t: References, refs: seq<string>)
    requires |refs| >= 1 && AllKnown(t, refs) && t.authyear[refs[0]].author == ""
    ensures RunLen(t, refs) == 1
  {
  }

  /** The rendered references are the rendered runs with the reference separator between neighbours. */
  lemma {:induction false} RenderRefsJoin(fmt: CmdFormat, protect: bool, t: References, refs: seq<string>)
    requires AllKnown(t, refs)
    ensures RenderRefs(fmt, protect, t, refs) == JoinWith(RenderAll(fmt, protect, t, Runs(t, refs)), fmt.sepRef)
    decreases |refs|
  {
    if refs != [] {
      var n := RunLen(t, refs);
      AllKnownTail(t, refs, n);
      RenderRefsJoin(fmt, protect, t, refs[n..]);
      RenderRefsStep(fmt, protect, t, refs, n);
      RunsCons(t, refs);
      var tailRuns := Runs(t, refs[n..]);
      RenderAllCons(fmt, protect, t, refs[..n], tailRuns);
      var head := RenderRun(fmt, protect, t, refs[..n]);
      var tailAll := RenderAll(fmt, protect, t, tailRuns);
      if n == |refs| {
        assert refs[n..] == [];
      }
      JoinSep(head, tailAll, fmt.sepRef);
    }
  }

  lemma RunsCons(t: References, refs: seq<string>)
    requires refs != [] && AllKnown(t, refs)
    ensures AllKnown(t, refs[RunLen(t, refs)..])
    ensures Runs(t, refs) == [refs[..RunLen(t, refs)]] + Runs(t, refs[RunLen(t, refs)..])
  {
    AllKnownTail(t, refs, RunLen(t, refs));
  }

  lemma RenderAllCons(fmt: CmdFormat, protect: bool, t: References, run: seq<string>, rest: seq<seq<string>>)
    requires |run| >= 1 && AllKnown(t, run)
    requires forall i :: 0 <= i < |rest| ==> |rest[i]| >= 1 && AllKnown(t, rest[i])
    ensures RenderAll(fmt, protect, t, [run] + rest) == [RenderRun(fmt, protect, t, run)] + RenderAll(fmt, protect, t, rest)
  {
    assert ([run] + rest)[1..] == rest;
  }

  lemma JoinSep(x: string, xs: seq<string>, sep: string)
    ensures JoinWith([x] + xs, sep) == x + (if |xs| > 0 then sep + JoinWith(xs, sep) else "")
  {
    assert ([x] + xs)[1..] == xs;
    if xs == [] {
      assert x + "" == x;
    }
  }

  /** With no author strings (numeric mode), every reference is a run of its own. */
  lemma {:induction false} NoAuthorsNoMerging(t: References, refs: seq<string>)
    requires AllKnown(t, refs)
    requires forall i :: 0 <= i < |refs| ==> t.authyear[refs[i]].author == ""
    ensures Runs(t, refs) == seq(|refs|, i requires 0 <= i < |refs| => [refs[i]])
    decreases |refs|
  {
    if refs != [] {
      AllKnownTail(t, refs, 1);
      var tail := refs[1..];
      forall i | 0 <= i < |tail| ensures t.authyear[tail[i]].author == "" {
        assert tail[i] == refs[i + 1];
      }
      NoAuthorsNoMerging(t, tail);
      assert refs[..1] == [refs[0]];
    }
  }

  // ---------------------------------------------------------------------------
  // Framing and notes
  // ---------------------------------------------------------------------------

  /** The citation opens with the start text and closes with the end text. */
  lemma Framed(cfg: Config, t: References, cmd: string, notes: Notes, refs: seq<string>)
    requires cmd in cfg.cmdFormat && AllKnown(t, refs)
    ensures StartsWith(FormatRefsSpec(cfg, t, cmd, notes, refs), cfg.cmdFormat[cmd].citeStart)
    ensures EndsWith(FormatRefsSpec(cfg, t, cmd, notes, refs), cfg.cmdFormat[cmd].citeEnd)
  {
    var fmt := cfg.cmdFormat[cmd];
    var notes2 := EffectiveNotes(cmd, notes);
    var p := if Present(notes2.0) then notes2.0.value + fmt.sepPrenote else "";
    var q := if Present(notes2.1) then fmt.sepPostnote + notes2.1.value else "";
    var body := RenderRefs(fmt, cfg.refSingleWord, t, refs);
    assert FormatRefsSpec(cfg, t, cmd, notes, refs) == fmt.citeStart + p + body + q + fmt.citeEnd;
    FramedText(fmt.citeStart, p, body, q, fmt.citeEnd);
  }

  lemma FramedText(a: string, b: string, c: string, d: string, e: string)
    ensures StartsWith(a + b + c + d + e, a) && EndsWith(a + b + c + d + e, e)
  {
    var s := a + b + c + d + e;
    assert s == a + (b + c + d + e);
    assert s[..|a|] == a;
    assert s == (a + b + c + d) + e;
    assert s[|s| - |e|..] == e;
  }

  /** The text of the prenote slot and of the postnote slot. */
  function PreText(fmt: CmdFormat, pre: Option<string>): string {
    if Present(pre) then pre.value + fmt.sepPrenote else ""
  }

  function PostText(fmt: CmdFormat, post: Option<string>): string {
    if Present(post) then fmt.sepPostnote + post.value else ""
  }

  /** The citation in five parts: start text, prenote slot, references, postnote slot, end text. */
  lemma SpecParts(cfg: Config, t: References, cmd: string, notes: Notes, refs: seq<string>)
    requires cmd in cfg.cmdFormat && AllKnown(t, refs)
    ensures var fmt := cfg.cmdFormat[cmd]; var notes2 := EffectiveNotes(cmd, notes);
      FormatRefsSpec(cfg, t, cmd, notes, refs) ==
        fmt.citeStart + PreText(fmt, notes2.0) + RenderRefs(fmt, cfg.refSingleWord, t, refs) +
        PostText(fmt, notes2.1) + fmt.citeEnd
  {
  }

  lemma DropEmpty(a: string, b: string, c: string, d: string, e: string)
    ensures b == "" ==> a + b + c + d + e == a + c + d + e
    ensures d == "" ==> a + b + c + d + e == a + b + c + e
  {
  }

  /**
   * Where the notes go: a single bracket group is a postnote, written after the
   * postnote separator just before the end text; empty notes leave no trace.
   */
  lemma PostnotePlacement(cfg: Config, t: References, cmd: string, post: string, refs: seq<string>)
    requires cmd in cfg.cmdFormat && cmd != "citet" && AllKnown(t, refs)
    ensures var fmt := cfg.cmdFormat[cmd];
      FormatRefsSpec(cfg, t, cmd, OneNote(post), refs) ==
        fmt.citeStart + RenderRefs(fmt, cfg.refSingleWord, t, refs) +
        (if post != "" then fmt.sepPostnote + post else "") + fmt.citeEnd
  {
    var fmt := cfg.cmdFormat[cmd];
    SpecParts(cfg, t, cmd, OneNote(post), refs);
    DropEmpty(fmt.citeStart, PreText(fmt, None), RenderRefs(fmt, cfg.refSingleWord, t, refs),
      PostText(fmt, Some(post)), fmt.citeEnd);
  }

  /** Two bracket groups: the first, followed by the prenote separator, right after the start text. */
  lemma NotesPlacement(cfg: Config, t: References, cmd: string, pre: string, post: string, refs: seq<string>)
    requires cmd in cfg.cmdFormat && cmd != "citet" && AllKnown(t, refs)
    ensures var fmt := cfg.cmdFormat[cmd];
      FormatRefsSpec(cfg, t, cmd, TwoNotes(pre, post), refs) ==
        fmt.citeStart + (if pre != "" then pre + fmt.sepPrenote else "") +
        RenderRefs(fmt, cfg.refSingleWord, t, refs) +
        (if post != "" then fmt.sepPostnote + post else "") + fmt.citeEnd
  {
    SpecParts(cfg, t, cmd, TwoNotes(pre, post), refs);
  }

  /** No bracket groups: the references sit right between the start and end texts. */
  lemma NoNotesPlacement(cfg: Config, t: References, cmd: string, refs: seq<string>)
    requires cmd in cfg.cmdFormat && AllKnown(t, refs)
    ensures var fmt := cfg.cmdFormat[cmd];
      FormatRefsSpec(cfg, t, cmd, NoNotes, refs) == fmt.citeStart + RenderRefs(fmt, cfg.refSingleWord, t, refs) + fmt.citeEnd
  {
    var fmt := cfg.cmdFormat[cmd];
    var body := RenderRefs(fmt, cfg.refSingleWord, t, refs);
    SpecParts(cfg, t, cmd, NoNotes, refs);
    DropEmpty(fmt.citeStart, "", body, "", fmt.citeEnd);
    DropEmpty(fmt.citeStart, "", body, PostText(fmt, None), fmt.citeEnd);
  }

  /** `\citet` shows no notes: its text is the same whatever notes it was given. */
  lemma CitetDropsNotes(cfg: Config, t: References, notes: Notes, refs: seq<string>)
    requires "citet" in cfg.cmdFormat && AllKnown(t, refs)
    ensures FormatRefsSpec(cfg, t, "citet", notes, refs) == FormatRefsSpec(cfg, t, "citet", NoNotes, refs)
  {
  }

  /** The errors of `format_refs`: an unformatted command first, then the first unknown key. */
  lemma FormatRefsErrors(cfg: Config, t: References, cmd: string, notes: Notes, refs: seq<string>, i: nat)
    requires i < |refs| && !Known(t, refs[i]) && AllKnown(t, refs[..i])
    ensures cmd !in cfg.cmdFormat ==> FormatRefsResult(cfg, t, cmd, notes, refs) == Failure(UnknownCommand(cmd))
    ensures cmd in cfg.cmdFormat ==> FormatRefsResult(cfg, t, cmd, notes, refs) == Failure(UnknownKey(refs[i]))
  {
    var u := FirstUnknown(t, refs);
    if u.Some? {
      var j :| 0 <= j < |refs| && refs[j] == u.value && !Known(t, refs[j]) && AllKnown(t, refs[..j]);
      assert j == i;
    }
  }

  // ---------------------------------------------------------------------------
  // Balance
  // ---------------------------------------------------------------------------

  lemma WrapIsBalanced(protect: bool, x: string)
    requires Balanced(x)
    ensures Balanced(Wrap(protect, x))
  {
    if protect {
      var name := "\\ldiffentity";
      assert BraceFree(name);
      CommandBalanced(name, x);
      assert name + "{" == EntityOpen;
    }
  }

  lemma {:induction false} SliceBraceFree(y: string, i: nat)
    requires BraceFree(y) && i <= |y|
    ensures BraceFree(y[i..])
  {
    assert forall c :: c in y[i..] ==> c in y;
  }

  /** The year token of a run is balanced when the years hold no braces. */
  lemma {:induction false} YearTokenBalanced(t: References, protect: bool, sepSame: string, run: seq<string>)
    requires |run| >= 1 && AllKnown(t, run) && Balanced(sepSame)
    requires forall i :: 0 <= i < |run| ==> BraceFree(t.authyear[run[i]].year)
    ensures Balanced(YearToken(t, protect, sepSame, run))
    decreases |run|
  {
    var n := |run|;
    if n == 1 {
      BraceFreeBalanced(t.authyear[run[0]].year);
      WrapIsBalanced(protect, t.authyear[run[0]].year);
    } else {
      var k := n - 1;
      var p := run[..k];
      AllKnownTail(t, run, k);
      assert forall i :: 0 <= i < |p| ==> BraceFree(t.authyear[p[i]].year) by {
        forall i | 0 <= i < |p| ensures BraceFree(t.authyear[p[i]].year) {
          assert p[i] == run[i];
        }
      }
      YearTokenBalanced(t, protect, sepSame, p);
      var prev := t.authyear[run[k - 1]].year;
      var cur := t.authyear[run[k]].year;
      YearPartBalanced(protect, prev, cur);
      YearTokenLast(t, protect, sepSame, run, k);
      BalancedConcat3(YearToken(t, protect, sepSame, p), sepSame, Wrap(protect, YearPart(prev, cur)));
    }
  }

  lemma YearPartBalanced(protect: bool, prev: string, cur: string)
    requires BraceFree(cur)
    ensures Balanced(Wrap(protect, YearPart(prev, cur)))
  {
    if |cur| > 4 {
      SliceBraceFree(cur, 4);
    }
    BraceFreeBalanced(YearPart(prev, cur));
    WrapIsBalanced(protect, YearPart(prev, cur));
  }

  /** The templates and values the renderer fills in hold balanced text and brace-free years. */
  predicate BalancedInputs(fmt: CmdFormat, t: References, refs: seq<string>)
    requires AllKnown(t, refs)
  {
    Balanced(fmt.author) && Balanced(fmt.year) && Balanced(fmt.sepAuthorYear) &&
    Balanced(fmt.sepSameAuthorYear) && Balanced(fmt.sepRef) &&
    forall i :: 0 <= i < |refs| ==>
      Balanced(t.authyear[refs[i]].author) && BraceFree(t.authyear[refs[i]].year) &&
      forall g :: 0 <= g < |t.captureGroups[refs[i]]| ==> Balanced(GroupText(t.captureGroups[refs[i]][g]))
  }

  lemma DigitsBraceFree(s: string)
    requires AllDigits(s)
    ensures BraceFree(s)
  {
    forall i | 0 <= i < |s| ensures s[i] != '{' && s[i] != '}' {
      assert IsDigit(s[i]);
    }
  }

  lemma AuthorTextBalanced(fmt: CmdFormat, t: References, k: string)
    requires Known(t, k) && Balanced(fmt.author) && Balanced(t.authyear[k].author)
    requires forall g :: 0 <= g < |t.captureGroups[k]| ==> Balanced(GroupText(t.captureGroups[k][g]))
    ensures Balanced(AuthorText(fmt, t, k))
  {
    var groups := t.captureGroups[k];
    var author := t.authyear[k].author;
    ApplyGroupsBalanced(fmt.author, groups);
    var a := ApplyGroups(fmt.author, groups);
    PlaceholdersBraceFree();
    ReplaceBalanced(a, "%AUTHOR%", author);
    var b := ReplaceAll(a, "%AUTHOR%", author);
    var number := NatToString(IndexOf(t.refkeys, k) + 1);
    DigitsBraceFree(number);
    BraceFreeBalanced(number);
    ReplaceBalanced(b, "%NUMERIC%", number);
    assert AuthorText(fmt, t, k) == ReplaceAll(b, "%NUMERIC%", number);
  }

  /** The facts `BalancedInputs` holds about one reference. */
  lemma InputsAt(fmt: CmdFormat, t: References, refs: seq<string>, i: nat)
    requires AllKnown(t, refs) && BalancedInputs(fmt, t, refs) && i < |refs|
    ensures Known(t, refs[i]) && Balanced(t.authyear[refs[i]].author)
    ensures forall g :: 0 <= g < |t.captureGroups[refs[i]]| ==> Balanced(GroupText(t.captureGroups[refs[i]][g]))
  {
  }

  /** The year template of a key with the run's year token in place of `%YEAR%`. */
  lemma YearTextBalanced(fmt: CmdFormat, t: References, protect: bool, run: seq<string>)
    requires |run| >= 1 && AllKnown(t, run) && BalancedInputs(fmt, t, run)
    ensures Balanced(ReplaceAll(ApplyGroups(fmt.year, t.captureGroups[run[0]]), "%YEAR%",
      YearToken(t, protect, fmt.sepSameAuthorYear, run)))
  {
    InputsAt(fmt, t, run, 0);
    var groups := t.captureGroups[run[0]];
    var token := YearToken(t, protect, fmt.sepSameAuthorYear, run);
    YearTokenBalanced(t, protect, fmt.sepSameAuthorYear, run);
    ApplyGroupsBalanced(fmt.year, groups);
    var year := ApplyGroups(fmt.year, groups);
    PlaceholdersBraceFree();
    ReplaceBalanced(year, "%YEAR%", token);
  }

  lemma PlaceholdersBraceFree()
    ensures BraceFree("%YEAR%") && BraceFree("%AUTHOR%") && BraceFree("%NUMERIC%")
  {
  }

  lemma RenderRunBalanced(fmt: CmdFormat, protect: bool, t: References, run: seq<string>)
    requires |run| >= 1 && AllKnown(t, run) && BalancedInputs(fmt, t, run)
    ensures Balanced(RenderRun(fmt, protect, t, run))
  {
    var k := run[0];
    InputsAt(fmt, t, run, 0);
    AuthorTextBalanced(fmt, t, k);
    YearTextBalanced(fmt, t, protect, run);
    var yearText := ReplaceAll(ApplyGroups(fmt.year, t.captureGroups[k]), "%YEAR%",
      YearToken(t, protect, fmt.sepSameAuthorYear, run));
    BalancedConcat3(AuthorText(fmt, t, k), fmt.sepAuthorYear, yearText);
    WrapIsBalanced(protect, AuthorText(fmt, t, k) + fmt.sepAuthorYear + yearText);
  }

  lemma BalancedInputsPrefix(fmt: CmdFormat, t: References, refs: seq<string>, n: nat)
    requires n <= |refs| && AllKnown(t, refs) && BalancedInputs(fmt, t, refs)
    ensures AllKnown(t, refs[..n]) && AllKnown(t, refs[n..])
    ensures BalancedInputs(fmt, t, refs[..n]) && BalancedInputs(fmt, t, refs[n..])
  {
    AllKnownTail(t, refs, n);
    assert forall i :: 0 <= i < n ==> refs[..n][i] == refs[i];
    assert forall i :: 0 <= i < |refs| - n ==> refs[n..][i] == refs[n + i];
  }

  /**
   * Every brace the renderer writes is matched: with balanced templates, balanced
   * authors and capture groups and brace-free years, the rendered references are
   * balanced, so each `\ldiffentity{` is closed.
   */
  lemma {:induction false} RenderRefsBalanced(fmt: CmdFormat, protect: bool, t: References, refs: seq<string>)
    requires AllKnown(t, refs) && BalancedInputs(fmt, t, refs)
    ensures Balanced(RenderRefs(fmt, protect, t, refs))
    decreases |refs|
  {
    if refs == [] {
      BraceFreeBalanced("");
    } else {
      var n := RunLen(t, refs);
      BalancedInputsPrefix(fmt, t, refs, n);
      RenderRefsStep(fmt, protect, t, refs, n);
      RenderRunBalanced(fmt, protect, t, refs[..n]);
      var head := RenderRun(fmt, protect, t, refs[..n]);
      if n < |refs| {
        RenderRefsBalanced(fmt, protect, t, refs[n..]);
        var tail := RenderRefs(fmt, protect, t, refs[n..]);
        BalancedConcat(fmt.sepRef, tail);
        BalancedConcat(head, fmt.sepRef + tail);
      } else {
        assert head + "" == head;
      }
    }
  }

  /** The whole citation is balanced when its frame and notes are too. */
  lemma FormatRefsBalanced(cfg: Config, t: References, cmd: string, notes: Notes, refs: seq<string>)
    requires cmd in cfg.cmdFormat && AllKnown(t, refs) && BalancedInputs(cfg.cmdFormat[cmd], t, refs)
    requires var fmt := cfg.cmdFormat[cmd];
      Balanced(fmt.citeStart) && Balanced(fmt.citeEnd) && Balanced(fmt.sepPrenote) && Balanced(fmt.sepPostnote)
    requires var (pre, post) := NoteArgs(notes);
      (pre.Some? ==> Balanced(pre.value)) && (post.Some? ==> Balanced(post.value))
    ensures Balanced(FormatRefsSpec(cfg, t, cmd, notes, refs))
  {
    var fmt := cfg.cmdFormat[cmd];
    var (pre, post) := EffectiveNotes(cmd, notes);
    BraceFreeBalanced("");
    var p := if Present(pre) then pre.value + fmt.sepPrenote else "";
    var q := if Present(post) then fmt.sepPostnote + post.value else "";
    if Present(pre) {
      BalancedConcat(pre.value, fmt.sepPrenote);
    }
    if Present(post) {
      BalancedConcat(fmt.sepPostnote, post.value);
    }
    RenderRefsBalanced(fmt, cfg.refSingleWord, t, refs);
    BalancedConcat3(fmt.citeStart, p, RenderRefs(fmt, cfg.refSingleWord, t, refs));
    BalancedConcat3(fmt.citeStart + p + RenderRefs(fmt, cfg.refSingleWord, t, refs), q, fmt.citeEnd);
  }

  /** The nine template slots of a format are balanced. */
  predicate FormatBalanced(fmt: CmdFormat) {
    Balanced(fmt.author) && Balanced(fmt.year) && Balanced(fmt.sepAuthorYear) &&
    Balanced(fmt.sepSameAuthorYear) && Balanced(fmt.sepRef) && Balanced(fmt.citeStart) &&
    Balanced(fmt.citeEnd) && Balanced(fmt.sepPrenote) && Balanced(fmt.sepPostnote)
  }

  lemma TextitBraceFree()
    ensures BraceFree("\\textit")
  {
  }

  lemma AuthorTokenBalanced()
    ensures Balanced("%AUTHOR%")
  {
    BraceFreeBalanced("%AUTHOR%");
  }

  /** The author template of the built-in formats is balanced. */
  lemma DefaultAuthorBalanced()
    ensures Balanced("\\textit{%AUTHOR%}")
  {
    TextitBraceFree();
    AuthorTokenBalanced();
    CommandBalanced("\\textit", "%AUTHOR%");
    assert "\\textit" + "{" + "%AUTHOR%" + "}" == "\\textit{%AUTHOR%}";
  }

  /** The other texts the built-in formats are made of hold no braces. */
  lemma DefaultPiecesBalanced()
    ensures Balanced("%YEAR%") && Balanced("[%YEAR%]")
    ensures Balanced(", ") && Balanced(" ") && Balanced("; ") && Balanced("[") && Balanced("]") && Balanced("")
  {
    BraceFreeBalanced("%YEAR%");
    BraceFreeBalanced("[%YEAR%]");
    BraceFreeBalanced(", ");
    BraceFreeBalanced(" ");
    BraceFreeBalanced("; ");
    BraceFreeBalanced("[");
    BraceFreeBalanced("]");
    BraceFreeBalanced("");
  }

  /** The built-in formats are balanced texts. */
  lemma DefaultFormatsBalanced()
    ensures FormatBalanced(CitepFormat) && FormatBalanced(CitetFormat) && FormatBalanced(CiteFormat)
  {
    DefaultAuthorBalanced();
    DefaultPiecesBalanced();
  }

  // ---------------------------------------------------------------------------
  // Examples
  // ---------------------------------------------------------------------------

  /** Three papers of one author: the later years drop the four characters they share with the one before. */
  lemma YearTokenExample()
    ensures var t := References(["a", "b", "c"], map["a" := [], "b" := [], "c" := []],
      map["a" := AuthYear("Foo", "2011a"), "b" := AuthYear("Foo", "2011b"), "c" := AuthYear("Foo", "2012")]);
      YearToken(t, false, ", ", ["a", "b", "c"]) == "2011a, b, 2012"
  {
    var t := References(["a", "b", "c"], map["a" := [], "b" := [], "c" := []],
      map["a" := AuthYear("Foo", "2011a"), "b" := AuthYear("Foo", "2011b"), "c" := AuthYear("Foo", "2012")]);
    var run := ["a", "b", "c"];
    assert run[..2] == ["a", "b"] && ["a", "b"][..1] == ["a"];
    assert "2011a"[..4] == "2011" && "2011b"[..4] == "2011" && "2011b"[4..] == "b";
    assert "2012"[3] != "2011"[3];
  }
}
