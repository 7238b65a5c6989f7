/**
 * Rewriting one revision's LaTeX text (`replace_refs_in_tex`): every citation
 * command found in the comment-free text is replaced, everywhere in the text, by
 * its formatted references; then a `\nocite` listing all keys is put on its own
 * line before each `\end{document}` line, and, when references are protected,
 * the declaration of `\ldiffentity` before each `\begin{document}` line.
 */
module Document {
  import opened Wrappers
  import opened Strings
  import opened Entities
  import opened Configuration
  import opened RefKeys
  import opened Render

  // ---------------------------------------------------------------------------
  // Replacing the citation commands
  // ---------------------------------------------------------------------------

  /** The text of every match is a whole command, so it is never empty. */
  predicate Matched(matches: seq<CiteMatch>) {
    forall i :: 0 <= i < |matches| ==> |matches[i].text| > 0
  }

  /** The formatted references of one command: its argument split into keys, its notes as captured. */
  function FormatMatch(cfg: Config, t: References, m: CiteMatch): Result<string> {
    FormatRefsResult(cfg, t, m.command, m.notes, SplitKeys(m.args))
  }

  /**
   * The commands replaced one after the other, each in the text the previous
   * replacements left; the first command that cannot be formatted stops it.
   */
  function ReplaceCites(cfg: Config, t: References, s: string, matches: seq<CiteMatch>): Result<string>
    requires Matched(matches)
    decreases |matches|
  {
    if matches == [] then Success(s)
    else match FormatMatch(cfg, t, matches[0])
      case Failure(e) => Failure(e)
      case Success(f) => ReplaceCites(cfg, t, ReplaceAll(s, matches[0].text, f), matches[1..])
  }

  /** All commands format: the replacement succeeds. */
  lemma {:induction false} ReplaceCitesSucceeds(cfg: Config, t: References, s: string, matches: seq<CiteMatch>)
    requires Matched(matches)
    requires forall i :: 0 <= i < |matches| ==> FormatMatch(cfg, t, matches[i]).Success?
    ensures ReplaceCites(cfg, t, s, matches).Success?
    decreases |matches|
  {
    if matches != [] {
      var tail := matches[1..];
      assert forall i :: 0 <= i < |tail| ==> tail[i] == matches[i + 1];
      assert FormatMatch(cfg, t, matches[0]).Success?;
      ReplaceCitesSucceeds(cfg, t, ReplaceAll(s, matches[0].text, FormatMatch(cfg, t, matches[0]).value), tail);
    }
  }

  /** A command that cannot be formatted, after commands that can: its error is the result. */
  lemma {:induction false} ReplaceCitesFails(cfg: Config, t: References, s: string, matches: seq<CiteMatch>, i: nat)
    requires Matched(matches) && i < |matches|
    requires forall j :: 0 <= j < i ==> FormatMatch(cfg, t, matches[j]).Success?
    requires FormatMatch(cfg, t, matches[i]).Failure?
    ensures ReplaceCites(cfg, t, s, matches) == Failure(FormatMatch(cfg, t, matches[i]).error)
    decreases i
  {
    if i > 0 {
      var tail := matches[1..];
      assert forall j :: 0 <= j < |tail| ==> tail[j] == matches[j + 1];
      assert FormatMatch(cfg, t, matches[0]).Success?;
      ReplaceCitesFails(cfg, t, ReplaceAll(s, matches[0].text, FormatMatch(cfg, t, matches[0]).value), tail, i - 1);
    }
  }

  /** One command: its text is cut out wherever it occurs and its formatted references are put in between. */
  lemma OneCommand(cfg: Config, t: References, s: string, m: CiteMatch)
    requires |m.text| > 0 && FormatMatch(cfg, t, m).Success?
    ensures ReplaceCites(cfg, t, s, [m]) == Success(JoinWith(SplitOn(s, m.text), FormatMatch(cfg, t, m).value))
  {
    ReplaceIsJoinOfSplit(s, m.text, FormatMatch(cfg, t, m).value);
    assert [m][1..] == [];
  }

  // ---------------------------------------------------------------------------
  // Lines inserted before `\end{document}` and `\begin{document}`
  // ---------------------------------------------------------------------------

  /** `\end` or `\begin` (the `cmd`), optional whitespace and `{document}` start at position `p`. */
  predicate CommandAt(line: string, p: nat, cmd: string)
    requires p <= |line|
  {
    StartsWith(line[p..], cmd) && StartsWith(TrimStart(line[p + |cmd|..]), "{document}")
  }

  /** The command at some position from `p` on, with no `%` between `p` and it. */
  predicate FindFrom(line: string, cmd: string, p: nat)
    requires p <= |line|
    decreases |line| - p
  {
    if CommandAt(line, p, cmd) then true
    else if p == |line| || line[p] == '%' then false
    else FindFrom(line, cmd, p + 1)
  }

  /** The line holds the command before any comment: the multi-line regex matches at its start. */
  predicate Opens(line: string, cmd: string) {
    FindFrom(line, cmd, 0)
  }

  /** A position the search stops at: the command is there and no `%` comes before it. */
  lemma {:induction false} FindFromWitness(line: string, cmd: string, p: nat) returns (q: nat)
    requires p <= |line| && FindFrom(line, cmd, p)
    ensures p <= q <= |line| && '%' !in line[p..q] && CommandAt(line, q, cmd)
    decreases |line| - p
  {
    if CommandAt(line, p, cmd) {
      q := p;
      assert line[p..q] == [];
    } else {
      assert p < |line| && line[p] != '%';
      q := FindFromWitness(line, cmd, p + 1);
      PercentFreeCons(line, p, q);
    }
  }

  lemma PercentFreeCons(line: string, p: nat, q: nat)
    requires p < q <= |line| && line[p] != '%' && '%' !in line[p + 1..q]
    ensures '%' !in line[p..q]
  {
    assert line[p..q] == [line[p]] + line[p + 1..q];
  }

  /** The search from `p` reaches any such position. */
  lemma {:induction false} FindFromReaches(line: string, cmd: string, p: nat, q: nat)
    requires p <= q <= |line| && '%' !in line[p..q] && CommandAt(line, q, cmd)
    ensures FindFrom(line, cmd, p)
    decreases q - p
  {
    if p < q && !CommandAt(line, p, cmd) {
      assert line[p] in line[p..q];
      assert forall c :: c in line[p + 1..q] ==> c in line[p..q];
      FindFromReaches(line, cmd, p + 1, q);
    }
  }

  /** `Opens` says what the regex says: the command occurs at a position no `%` precedes. */
  lemma OpensIff(line: string, cmd: string)
    ensures Opens(line, cmd) <==> exists q :: 0 <= q <= |line| && '%' !in line[..q] && CommandAt(line, q, cmd)
  {
    if Opens(line, cmd) {
      var q := FindFromWitness(line, cmd, 0);
      assert line[0..q] == line[..q];
    }
    if exists q :: 0 <= q <= |line| && '%' !in line[..q] && CommandAt(line, q, cmd) {
      var q :| 0 <= q <= |line| && '%' !in line[..q] && CommandAt(line, q, cmd);
      assert line[0..q] == line[..q];
      FindFromReaches(line, cmd, 0, q);
    }
  }

  /** Each line that opens with the command gets `text` as a line of its own before it. */
  function MarkLines(lines: seq<string>, cmd: string, text: string): seq<string>
    decreases |lines|
  {
    if lines == [] then []
    else (if Opens(lines[0], cmd) then [text, lines[0]] else [lines[0]]) + MarkLines(lines[1..], cmd, text)
  }

  /** `re.sub(r'(^[^%\n]*?CMD\s*{document})', text + '\n\1', s, flags=re.M)`, line by line. */
  function InsertBefore(s: string, cmd: string, text: string): string {
    JoinWith(MarkLines(SplitOn(s, "\n"), cmd, text), "\n")
  }

  /** The inverse: a line equal to `text` followed by a line that opens with the command is dropped. */
  function UnmarkLines(lines: seq<string>, cmd: string, text: string): seq<string>
    decreases |lines|
  {
    if lines == [] then []
    else if |lines| >= 2 && lines[0] == text && Opens(lines[1], cmd) then [lines[1]] + UnmarkLines(lines[2..], cmd, text)
    else [lines[0]] + UnmarkLines(lines[1..], cmd, text)
  }

  function RemoveInserted(s: string, cmd: string, text: string): string {
    JoinWith(UnmarkLines(SplitOn(s, "\n"), cmd, text), "\n")
  }

  lemma {:induction false} UnmarkMark(lines: seq<string>, cmd: string, text: string)
    requires !Opens(text, cmd)
    ensures UnmarkLines(MarkLines(lines, cmd, text), cmd, text) == lines
    decreases |lines|
  {
    if lines != [] {
      var tail := lines[1..];
      var rest := MarkLines(tail, cmd, text);
      UnmarkMark(tail, cmd, text);
      MarkLinesCons(lines, cmd, text);
      if Opens(lines[0], cmd) {
        UnmarkInserted(text, lines[0], rest, cmd);
      } else {
        if tail != [] {
          MarkLinesHead(tail, cmd, text);
        }
        UnmarkKept(lines[0], rest, cmd, text);
      }
      assert [lines[0]] + tail == lines;
    }
  }

  lemma MarkLinesCons(lines: seq<string>, cmd: string, text: string)
    requires lines != []
    ensures MarkLines(lines, cmd, text) ==
      (if Opens(lines[0], cmd) then [text, lines[0]] else [lines[0]]) + MarkLines(lines[1..], cmd, text)
  {
  }

  /** The first marked line: the inserted text when the first line opens with the command, else that line. */
  lemma MarkLinesHead(lines: seq<string>, cmd: string, text: string)
    requires lines != []
    ensures MarkLines(lines, cmd, text) != []
    ensures MarkLines(lines, cmd, text)[0] == (if Opens(lines[0], cmd) then text else lines[0])
  {
  }

  lemma UnmarkInserted(text: string, line: string, rest: seq<string>, cmd: string)
    requires Opens(line, cmd)
    ensures UnmarkLines([text, line] + rest, cmd, text) == [line] + UnmarkLines(rest, cmd, text)
  {
    var ms := [text, line] + rest;
    assert ms[0] == text && ms[1] == line && ms[2..] == rest;
  }

  lemma UnmarkKept(line: string, rest: seq<string>, cmd: string, text: string)
    requires !(line == text && rest != [] && Opens(rest[0], cmd))
    ensures UnmarkLines([line] + rest, cmd, text) == [line] + UnmarkLines(rest, cmd, text)
  {
    var ms := [line] + rest;
    assert ms[0] == line && ms[1..] == rest;
  }

  lemma MarkLinesNewlineFree(lines: seq<string>, cmd: string, text: string)
    requires '\n' !in text && forall i :: 0 <= i < |lines| ==> '\n' !in lines[i]
    ensures forall i :: 0 <= i < |MarkLines(lines, cmd, text)| ==> '\n' !in MarkLines(lines, cmd, text)[i]
    decreases |lines|
  {
    if lines != [] {
      MarkLinesNewlineFree(lines[1..], cmd, text);
    }
  }

  lemma {:induction false} SplitJoinChar(xs: seq<string>, c: char)
    requires |xs| >= 1 && forall i :: 0 <= i < |xs| ==> c !in xs[i]
    ensures SplitOn(JoinWith(xs, [c]), [c]) == xs
    decreases |xs|
  {
    if |xs| == 1 {
      SplitOnCharNone(xs[0], c);
    } else {
      var tail := xs[1..];
      assert forall i :: 0 <= i < |tail| ==> tail[i] == xs[i + 1];
      SplitJoinChar(tail, c);
      SplitOnCharFree(xs[0], c, JoinWith(tail, [c]));
    }
  }

  lemma MarkLinesNonEmpty(lines: seq<string>, cmd: string, text: string)
    requires |lines| >= 1
    ensures |MarkLines(lines, cmd, text)| >= 1
  {
  }

  /**
   * The insertion can be undone: dropping each inserted line gives the text back,
   * when the inserted text is one line that does not itself hold the command.
   */
  lemma InsertBeforeRoundTrip(s: string, cmd: string, text: string)
    requires '\n' !in text && !Opens(text, cmd)
    ensures RemoveInserted(InsertBefore(s, cmd, text), cmd, text) == s
  {
    var lines := SplitOn(s, "\n");
    SplitOnCharPieces(s, '\n');
    MarkLinesNewlineFree(lines, cmd, text);
    MarkLinesNonEmpty(lines, cmd, text);
    SplitJoinChar(MarkLines(lines, cmd, text), '\n');
    UnmarkMark(lines, cmd, text);
    SplitJoin(s, "\n");
  }

  lemma {:induction false} MarkLinesNone(lines: seq<string>, cmd: string, text: string)
    requires forall i :: 0 <= i < |lines| ==> !Opens(lines[i], cmd)
    ensures MarkLines(lines, cmd, text) == lines
    decreases |lines|
  {
    if lines != [] {
      var tail := lines[1..];
      assert forall i :: 0 <= i < |tail| ==> tail[i] == lines[i + 1];
      MarkLinesNone(tail, cmd, text);
      assert !Opens(lines[0], cmd);
    }
  }

  /** No line opens with the command: nothing is inserted. */
  lemma InsertBeforeNothing(s: string, cmd: string, text: string)
    requires forall i :: 0 <= i < |SplitOn(s, "\n")| ==> !Opens(SplitOn(s, "\n")[i], cmd)
    ensures InsertBefore(s, cmd, text) == s
  {
    MarkLinesNone(SplitOn(s, "\n"), cmd, text);
    SplitJoin(s, "\n");
  }

  /** The number of lines that open with the command. */
  function CountOpening(lines: seq<string>, cmd: string): nat
    decreases |lines|
  {
    if lines == [] then 0 else (if Opens(lines[0], cmd) then 1 else 0) + CountOpening(lines[1..], cmd)
  }

  /** One line is inserted per line that opens with the command, and no more. */
  lemma {:induction false} MarkLinesCount(lines: seq<string>, cmd: string, text: string)
    ensures |MarkLines(lines, cmd, text)| == |lines| + CountOpening(lines, cmd)
    decreases |lines|
  {
    if lines != [] {
      MarkLinesCount(lines[1..], cmd, text);
    }
  }

  // ---------------------------------------------------------------------------
  // The whole rewrite
  // ---------------------------------------------------------------------------

  const EndCommand: string := "\\end"
  const BeginCommand: string := "\\begin"

  /** `\nocite{k1,k2,...}` with every key of the revision, so that the reference list keeps them all. */
  function NociteText(refkeys: seq<string>): (r: string)
    ensures StartsWith(r, "\\nocite{") && EndsWith(r, "}")
  {
    var r := "\\nocite{" + JoinWith(refkeys, ",") + "}";
    assert r[..|"\\nocite{"|] == "\\nocite{";
    assert r[|r| - 1..] == "}";
    r
  }

  /** Between its frame, the `\nocite` line lists the keys: split on commas, it gives them back. */
  lemma NociteKeys(refkeys: seq<string>)
    requires forall i :: 0 <= i < |refkeys| ==> ',' !in refkeys[i]
    ensures var r := NociteText(refkeys); 9 <= |r| && r[..8] == "\\nocite{" && r[|r| - 1] == '}'
    ensures refkeys == [] ==> NociteText(refkeys) == "\\nocite{}"
    ensures var r := NociteText(refkeys); refkeys != [] ==> SplitOn(r[8..|r| - 1], ",") == refkeys
  {
    var inner := JoinWith(refkeys, ",");
    var r := NociteText(refkeys);
    assert r == "\\nocite{" + inner + "}";
    assert r[8..|r| - 1] == inner;
    if refkeys != [] {
      assert "," == [','];
      SplitJoinChar(refkeys, ',');
    }
  }

  /** The declaration that makes `\ldiffentity{x}` print `x`. */
  const NewCommandText: string := "\\newcommand{\\ldiffentity}[1]{#1}"

  /** `replace_refs_in_tex`: the commands replaced, then the `\nocite` line, then the declaration. */
  function RewriteTex(cfg: Config, t: References, s: string, matches: seq<CiteMatch>): Result<string>
    requires Matched(matches)
  {
    match ReplaceCites(cfg, t, s, matches)
    case Failure(e) => Failure(e)
    case Success(u) =>
      var u := InsertBefore(u, EndCommand, NociteText(t.refkeys));
      Success(if cfg.refSingleWord then InsertBefore(u, BeginCommand, NewCommandText) else u)
  }

  /** The rewrite fails exactly when some command cannot be formatted, with the first such command's error. */
  lemma RewriteTexErrors(cfg: Config, t: References, s: string, matches: seq<CiteMatch>)
    requires Matched(matches)
    ensures RewriteTex(cfg, t, s, matches).Success? <==>
      forall i :: 0 <= i < |matches| ==> FormatMatch(cfg, t, matches[i]).Success?
    ensures forall i :: (0 <= i < |matches| && FormatMatch(cfg, t, matches[i]).Failure? &&
      (forall j :: 0 <= j < i ==> FormatMatch(cfg, t, matches[j]).Success?)) ==>
      RewriteTex(cfg, t, s, matches) == Failure(FormatMatch(cfg, t, matches[i]).error)
  {
    if forall i :: 0 <= i < |matches| ==> FormatMatch(cfg, t, matches[i]).Success? {
      ReplaceCitesSucceeds(cfg, t, s, matches);
    } else {
      var i :| 0 <= i < |matches| && FormatMatch(cfg, t, matches[i]).Failure?;
      var k := FirstFailure(cfg, t, matches, i);
      ReplaceCitesFails(cfg, t, s, matches, k);
    }
    forall i | 0 <= i < |matches| && FormatMatch(cfg, t, matches[i]).Failure? &&
      (forall j :: 0 <= j < i ==> FormatMatch(cfg, t, matches[j]).Success?)
      ensures RewriteTex(cfg, t, s, matches) == Failure(FormatMatch(cfg, t, matches[i]).error)
    {
      ReplaceCitesFails(cfg, t, s, matches, i);
    }
  }

  /** Some command at or before `i` fails and all before it format. */
  lemma {:induction false} FirstFailure(cfg: Config, t: References, matches: seq<CiteMatch>, i: nat) returns (k: nat)
    requires i < |matches| && FormatMatch(cfg, t, matches[i]).Failure?
    ensures k <= i && FormatMatch(cfg, t, matches[k]).Failure?
    ensures forall j :: 0 <= j < k ==> FormatMatch(cfg, t, matches[j]).Success?
    decreases i
  {
    if exists j :: 0 <= j < i && FormatMatch(cfg, t, matches[j]).Failure? {
      var j :| 0 <= j < i && FormatMatch(cfg, t, matches[j]).Failure?;
      k := FirstFailure(cfg, t, matches, j);
    } else {
      k := i;
    }
  }

  /** The inserted lines can be taken out again, leaving the text with its commands replaced. */
  lemma RewriteTexRoundTrip(cfg: Config, t: References, s: string, matches: seq<CiteMatch>)
    requires Matched(matches) && ReplaceCites(cfg, t, s, matches).Success?
    requires '\n' !in NociteText(t.refkeys) && !Opens(NociteText(t.refkeys), EndCommand)
    requires !Opens(NewCommandText, BeginCommand)
    ensures var u := RewriteTex(cfg, t, s, matches).value;
      var v := if cfg.refSingleWord then RemoveInserted(u, BeginCommand, NewCommandText) else u;
      RemoveInserted(v, EndCommand, NociteText(t.refkeys)) == ReplaceCites(cfg, t, s, matches).value
  {
    var u0 := ReplaceCites(cfg, t, s, matches).value;
    var nocite := NociteText(t.refkeys);
    var u1 := InsertBefore(u0, EndCommand, nocite);
    assert RewriteTex(cfg, t, s, matches).value ==
      (if cfg.refSingleWord then InsertBefore(u1, BeginCommand, NewCommandText) else u1);
    InsertBeforeRoundTrip(u0, EndCommand, nocite);
    if cfg.refSingleWord {
      NewCommandOneLine();
      InsertBeforeRoundTrip(u1, BeginCommand, NewCommandText);
    }
  }

  lemma NewCommandOneLine()
    ensures '\n' !in NewCommandText
  {
  }

  // ---------------------------------------------------------------------------
  // The loop
  // ---------------------------------------------------------------------------

  /**
   * `replace_refs_in_tex`: each command formatted and replaced in turn, then the
   * lines inserted.  Returns the first failure of `format_refs` as it occurs.
   */
  method ReplaceRefsInTex(cfg: Config, t: References, tex: string, matches: seq<CiteMatch>)
    returns (r: Result<string>)
    requires Matched(matches)
    ensures r == RewriteTex(cfg, t, tex, matches)
  {
    var s := tex;
    var i := 0;
    while i < |matches|
      invariant 0 <= i <= |matches| && Matched(matches[i..])
      invariant ReplaceCites(cfg, t, tex, matches) == ReplaceCites(cfg, t, s, matches[i..])
      decreases |matches| - i
    {
      var m := matches[i];
      assert matches[i..][0] == m && matches[i..][1..] == matches[i + 1..];
      var formatted, dropped := FormatRefs(cfg, t, m.command, m.notes, SplitKeys(m.args));
      if formatted.Failure? {
        return Failure(formatted.error);
      }
      s := ReplaceAll(s, m.text, formatted.value);
      i := i + 1;
    }
    s := InsertBefore(s, EndCommand, NociteText(t.refkeys));
    if cfg.refSingleWord {
      s := InsertBefore(s, BeginCommand, NewCommandText);
    }
    return Success(s);
  }
}
