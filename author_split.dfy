/**
 * `re.split(r'\s+and\s+', field)`: the author field of a bib entry cut into one
 * string per author.  A separator starts at a whitespace character, swallows the
 * whole whitespace run, the word `and` and the whole whitespace run after it.
 */
module AuthorSplit {
  import opened Wrappers
  import opened Strings

  /** The end of the whitespace run starting at `i`. */
  function WsEnd(s: string, i: nat): (j: nat)
    requires i <= |s|
    ensures i <= j <= |s|
    ensures forall x :: i <= x < j ==> IsSpace(s[x])
    ensures j == |s| || !IsSpace(s[j])
    decreases |s| - i
  {
    if i < |s| && IsSpace(s[i]) then WsEnd(s, i + 1) else i
  }

  /** Where a separator starting at `p` ends, if one starts there. */
  function AndSepEnd(s: string, p: nat): (r: Option<nat>)
    requires p <= |s|
    ensures r.Some? ==> p < r.value <= |s|
  {
    if p < |s| && IsSpace(s[p]) then
      var q := WsEnd(s, p);
      if q + 4 <= |s| && s[q..q + 3] == "and" && IsSpace(s[q + 3]) then Some(WsEnd(s, q + 3)) else None
    else None
  }

  /**
   * The pieces and the separators of `s[start..]`, scanning for the leftmost
   * separator from `p` on.
   */
  function SplitAndFrom(s: string, start: nat, p: nat): (r: (seq<string>, seq<string>))
    requires start <= p <= |s|
    ensures |r.0| == |r.1| + 1
    ensures start + |r.0[0]| <= |s| && r.0[0] == s[start..start + |r.0[0]|]
    decreases |s| - p
  {
    if p == |s| then ([s[start..]], [])
    else
      match AndSepEnd(s, p)
      case Some(e) =>
        var rest := SplitAndFrom(s, e, e);
        ([s[start..p]] + rest.0, [s[p..e]] + rest.1)
      case None => SplitAndFrom(s, start, p + 1)
  }

  /** The author strings of an author field. */
  function SplitAuthors(s: string): (authors: seq<string>)
    ensures |authors| >= 1
  {
    SplitAndFrom(s, 0, 0).0
  }

  /** The separators `SplitAuthors` cut out, in order. */
  function AndSeparators(s: string): seq<string> {
    SplitAndFrom(s, 0, 0).1
  }

  /** `t` is a whole separator: whitespace, `and`, whitespace. */
  predicate IsAndSeparator(t: string) {
    exists k :: 1 <= k && k + 4 <= |t| && AllSpace(t[..k]) && t[k..k + 3] == "and" && AllSpace(t[k + 3..])
  }

  /** Somewhere in `t` a whitespace character, `and` and a whitespace character follow each other. */
  predicate HasAndSeparator(t: string) {
    exists i :: 0 <= i && i + 5 <= |t| && IsSpace(t[i]) && t[i + 1..i + 4] == "and" && IsSpace(t[i + 4])
  }

  /** The pieces with the separators put back between them. */
  function Interleave(pieces: seq<string>, seps: seq<string>): string
    requires |pieces| == |seps| + 1
    decreases |seps|
  {
    if seps == [] then pieces[0] else pieces[0] + seps[0] + Interleave(pieces[1..], seps[1..])
  }

  lemma InterleaveCons(a: string, b: string, ps: seq<string>, ss: seq<string>)
    requires |ps| == |ss| + 1
    ensures Interleave([a] + ps, [b] + ss) == a + b + Interleave(ps, ss)
  {
    assert ([a] + ps)[1..] == ps && ([b] + ss)[1..] == ss;
  }

  /** Past a position where no separator starts, the scan goes on unchanged. */
  lemma SkipPosition(s: string, start: nat, p: nat)
    requires start <= p < |s| && AndSepEnd(s, p).None?
    ensures SplitAndFrom(s, start, p) == SplitAndFrom(s, start, p + 1)
  {
  }

  /** At a separator the current piece ends and a new scan starts behind it. */
  lemma CutAt(s: string, start: nat, p: nat)
    requires start <= p < |s| && AndSepEnd(s, p).Some?
    ensures var e := AndSepEnd(s, p).value; var rest := SplitAndFrom(s, e, e);
      SplitAndFrom(s, start, p) == ([s[start..p]] + rest.0, [s[p..e]] + rest.1)
  {
  }

  lemma {:induction false} SplitAndFromRebuilds(s: string, start: nat, p: nat)
    requires start <= p <= |s|
    ensures var r := SplitAndFrom(s, start, p); Interleave(r.0, r.1) == s[start..]
    decreases |s| - p
  {
    if p < |s| {
      if AndSepEnd(s, p).Some? {
        var e := AndSepEnd(s, p).value;
        SplitAndFromRebuilds(s, e, e);
        var rest := SplitAndFrom(s, e, e);
        CutAt(s, start, p);
        InterleaveCons(s[start..p], s[p..e], rest.0, rest.1);
        ThreeSlices(s, start, p, e);
      } else {
        SkipPosition(s, start, p);
        SplitAndFromRebuilds(s, start, p + 1);
      }
    }
  }

  lemma SeparatorShape(s: string, p: nat)
    requires p <= |s| && AndSepEnd(s, p).Some?
    ensures IsAndSeparator(s[p..AndSepEnd(s, p).value])
  {
    var e := AndSepEnd(s, p).value;
    var q := WsEnd(s, p);
    var t := s[p..e];
    var k := q - p;
    SliceOfSlice(s, p, e, 0, k);
    SliceOfSlice(s, p, e, k, k + 3);
    SliceOfSlice(s, p, e, k + 3, |t|);
    assert AllSpace(s[p..q]) && AllSpace(s[q + 3..e]);
    assert 1 <= k && k + 4 <= |t| && AllSpace(t[..k]) && t[k..k + 3] == "and" && AllSpace(t[k + 3..]);
  }

  lemma {:induction false} SplitAndFromSeparators(s: string, start: nat, p: nat)
    requires start <= p <= |s|
    ensures var r := SplitAndFrom(s, start, p); forall i :: 0 <= i < |r.1| ==> IsAndSeparator(r.1[i])
    decreases |s| - p
  {
    if p < |s| {
      if AndSepEnd(s, p).Some? {
        var e := AndSepEnd(s, p).value;
        SplitAndFromSeparators(s, e, e);
        SeparatorShape(s, p);
        CutAt(s, start, p);
      } else {
        SkipPosition(s, start, p);
        SplitAndFromSeparators(s, start, p + 1);
      }
    }
  }

  /** A whitespace character, `and` and a whitespace character start a separator. */
  lemma SeparatorAt(s: string, x: nat)
    requires x + 5 <= |s| && IsSpace(s[x]) && s[x + 1..x + 4] == "and" && IsSpace(s[x + 4])
    ensures AndSepEnd(s, x).Some?
  {
    assert s[x + 1] == 'a';
    assert WsEnd(s, x + 1) == x + 1;
    assert WsEnd(s, x) == x + 1;
  }

  /** A separator starting at `x` shows a whitespace character, `and` and a whitespace character. */
  lemma SeparatorHasCore(s: string, x: nat)
    requires x <= |s| && AndSepEnd(s, x).Some?
    ensures var i := WsEnd(s, x) - 1;
      x <= i && i + 5 <= |s| && IsSpace(s[i]) && s[i + 1..i + 4] == "and" && IsSpace(s[i + 4])
  {
  }

  /** Where the scan found no separator, the text holds none. */
  lemma NoSeparatorBefore(s: string, start: nat, m: nat)
    requires start <= m <= |s|
    requires forall x :: start <= x < m ==> AndSepEnd(s, x).None?
    ensures !HasAndSeparator(s[start..m])
  {
    var t := s[start..m];
    forall i | 0 <= i && i + 5 <= |t|
      ensures !(IsSpace(t[i]) && t[i + 1..i + 4] == "and" && IsSpace(t[i + 4]))
    {
      NoSeparatorAt(s, start, m, i);
    }
  }

  /** A separator core inside `s[start..m]` is one in `s`, where a separator starts. */
  lemma SeparatorInSlice(s: string, start: nat, m: nat, i: nat)
    requires start <= m <= |s|
    requires var t := s[start..m]; i + 5 <= |t| && IsSpace(t[i]) && t[i + 1..i + 4] == "and" && IsSpace(t[i + 4])
    ensures start + i < m && AndSepEnd(s, start + i).Some?
  {
    var t := s[start..m];
    var x := start + i;
    SliceOfSlice(s, start, m, i + 1, i + 4);
    assert x + 1 == start + (i + 1) && x + 4 == start + (i + 4);
    assert s[x] == t[i] && s[x + 4] == t[i + 4];
    SeparatorAt(s, x);
  }

  lemma CleanCons(x: string, rest: seq<string>)
    requires !HasAndSeparator(x) && forall i :: 0 <= i < |rest| ==> !HasAndSeparator(rest[i])
    ensures forall i :: 0 <= i < |[x] + rest| ==> !HasAndSeparator(([x] + rest)[i])
  {
    var a := [x] + rest;
    forall i | 0 < i < |a| ensures !HasAndSeparator(a[i]) {
      assert a[i] == rest[i - 1];
    }
  }

  lemma {:induction false} SplitAndFromPiecesClean(s: string, start: nat, p: nat)
    requires start <= p <= |s|
    requires forall x :: start <= x < p ==> AndSepEnd(s, x).None?
    ensures var r := SplitAndFrom(s, start, p); forall i :: 0 <= i < |r.0| ==> !HasAndSeparator(r.0[i])
    decreases |s| - p
  {
    if p == |s| {
      NoSeparatorBefore(s, start, p);
    } else if AndSepEnd(s, p).Some? {
      var e := AndSepEnd(s, p).value;
      NoSeparatorBefore(s, start, p);
      SplitAndFromPiecesClean(s, e, e);
      CutAt(s, start, p);
      CleanCons(s[start..p], SplitAndFrom(s, e, e).0);
    } else {
      SkipPosition(s, start, p);
      SplitAndFromPiecesClean(s, start, p + 1);
    }
  }

  /** Up to and including the first character of the leftmost separator, the text holds no separator core. */
  lemma NoSeparatorBeforeCut(s: string, start: nat, p: nat, e: nat)
    requires start <= p < e <= |s|
    requires forall x :: start <= x < p ==> AndSepEnd(s, x).None?
    ensures |s[p..e]| >= 1 && !HasAndSeparator(s[start..p] + s[p..e][..1])
  {
    CutFirstChar(s, start, p, e);
    NoSeparatorThrough(s, start, p);
  }

  lemma CutFirstChar(s: string, start: nat, p: nat, e: nat)
    requires start <= p < e <= |s|
    ensures |s[p..e]| >= 1 && s[start..p] + s[p..e][..1] == s[start..p + 1]
  {
    assert s[p..e][..1] == [s[p]];
  }

  /** A separator core needs five characters, so one inside `s[start..p + 1]` starts before `p`. */
  lemma NoSeparatorThrough(s: string, start: nat, p: nat)
    requires start <= p < |s|
    requires forall x :: start <= x < p ==> AndSepEnd(s, x).None?
    ensures !HasAndSeparator(s[start..p + 1])
  {
    var t := s[start..p + 1];
    forall i | 0 <= i && i + 5 <= |t|
      ensures !(IsSpace(t[i]) && t[i + 1..i + 4] == "and" && IsSpace(t[i + 4]))
    {
      NoSeparatorAt(s, start, p + 1, i);
    }
  }

  /** No separator starts at `start + i` of `s`, so none starts at `i` of `s[start..m]`. */
  lemma NoSeparatorAt(s: string, start: nat, m: nat, i: nat)
    requires start <= m <= |s| && i + 5 <= m - start
    requires AndSepEnd(s, start + i).None?
    ensures var t := s[start..m]; !(IsSpace(t[i]) && t[i + 1..i + 4] == "and" && IsSpace(t[i + 4]))
  {
    var t := s[start..m];
    if IsSpace(t[i]) && t[i + 1..i + 4] == "and" && IsSpace(t[i + 4]) {
      SeparatorInSlice(s, start, m, i);
      assert false;
    }
  }

  lemma LeftmostCons(x: string, y: string, ps: seq<string>, ss: seq<string>)
    requires |ps| == |ss| + 1 && |y| >= 1
    requires !HasAndSeparator(x + y[..1])
    requires forall i :: 0 <= i < |ss| ==> |ss[i]| >= 1 && !HasAndSeparator(ps[i] + ss[i][..1])
    ensures var a, b := [x] + ps, [y] + ss;
      forall i :: 0 <= i < |b| ==> |b[i]| >= 1 && !HasAndSeparator(a[i] + b[i][..1])
  {
    var a, b := [x] + ps, [y] + ss;
    forall i | 0 < i < |b| ensures |b[i]| >= 1 && !HasAndSeparator(a[i] + b[i][..1]) {
      assert a[i] == ps[i - 1] && b[i] == ss[i - 1];
    }
  }

  /**
   * Each separator is the leftmost one: the piece before it, followed by the
   * separator's first character, holds no separator core.
   */
  lemma {:induction false} SplitAndFromLeftmost(s: string, start: nat, p: nat)
    requires start <= p <= |s|
    requires forall x :: start <= x < p ==> AndSepEnd(s, x).None?
    ensures var r := SplitAndFrom(s, start, p);
      forall i :: 0 <= i < |r.1| ==> |r.1[i]| >= 1 && !HasAndSeparator(r.0[i] + r.1[i][..1])
    decreases |s| - p
  {
    if p < |s| {
      if AndSepEnd(s, p).Some? {
        var e := AndSepEnd(s, p).value;
        NoSeparatorBeforeCut(s, start, p, e);
        SplitAndFromLeftmost(s, e, e);
        CutAt(s, start, p);
        var rest := SplitAndFrom(s, e, e);
        LeftmostCons(s[start..p], s[p..e], rest.0, rest.1);
      } else {
        SkipPosition(s, start, p);
        SplitAndFromLeftmost(s, start, p + 1);
      }
    }
  }

  /** No piece between two separators is empty. */
  predicate InnerNonEmpty(a: seq<string>) {
    forall i :: 0 < i < |a| - 1 ==> a[i] != ""
  }

  /** A separator ends where its trailing whitespace run does. */
  lemma SeparatorEnd(s: string, p: nat)
    requires p <= |s| && AndSepEnd(s, p).Some?
    ensures var e := AndSepEnd(s, p).value; e == |s| || !IsSpace(s[e])
  {
  }

  lemma InnerNonEmptyCons(x: string, rest: seq<string>)
    requires InnerNonEmpty(rest)
    requires |rest| > 1 ==> rest[0] != ""
    ensures InnerNonEmpty([x] + rest)
  {
    var a := [x] + rest;
    forall i | 0 < i < |a| - 1 ensures a[i] != "" {
      assert a[i] == rest[i - 1];
    }
  }

  /**
   * The trailing whitespace run is greedy: the next separator starts at
   * whitespace, so it cannot start where the previous one ended, and no inner
   * piece is empty.  The first piece is not empty either when the scan starts
   * past its start or at a character that is not whitespace.
   */
  lemma {:induction false} SplitAndFromInner(s: string, start: nat, p: nat)
    requires start <= p <= |s|
    ensures InnerNonEmpty(SplitAndFrom(s, start, p).0)
    ensures var r := SplitAndFrom(s, start, p);
      |r.0| > 1 && (start < p || start == |s| || !IsSpace(s[start])) ==> r.0[0] != ""
    decreases |s| - p
  {
    if p < |s| {
      if AndSepEnd(s, p).Some? {
        var e := AndSepEnd(s, p).value;
        SeparatorEnd(s, p);
        SplitAndFromInner(s, e, e);
        CutAt(s, start, p);
        var rest := SplitAndFrom(s, e, e);
        InnerNonEmptyCons(s[start..p], rest.0);
      } else {
        SkipPosition(s, start, p);
        SplitAndFromInner(s, start, p + 1);
      }
    }
  }

  /** No inner piece edge next to a separator is whitespace. */
  predicate EdgesTrimmed(a: seq<string>) {
    (forall i :: 0 < i < |a| && a[i] != "" ==> !IsSpace(a[i][0])) &&
    (forall i :: 0 <= i < |a| - 1 && a[i] != "" ==> !IsSpace(a[i][|a[i]| - 1]))
  }

  lemma EdgesTrimmedSingle(x: string)
    ensures EdgesTrimmed([x])
  {
  }

  lemma EdgesTrimmedCons(x: string, rest: seq<string>)
    requires |rest| >= 1 && EdgesTrimmed(rest)
    requires rest[0] != "" ==> !IsSpace(rest[0][0])
    requires x != "" ==> !IsSpace(x[|x| - 1])
    ensures EdgesTrimmed([x] + rest)
  {
    var a := [x] + rest;
    forall i | 0 < i < |a| && a[i] != "" ensures !IsSpace(a[i][0]) {
      assert a[i] == rest[i - 1];
    }
    forall i | 0 <= i < |a| - 1 && a[i] != "" ensures !IsSpace(a[i][|a[i]| - 1]) {
      if i > 0 {
        assert a[i] == rest[i - 1];
      }
    }
  }

  /** The character before the leftmost separator is not whitespace, or the separator would start there. */
  lemma BeforeSeparator(s: string, p: nat)
    requires 0 < p < |s| && AndSepEnd(s, p).Some? && AndSepEnd(s, p - 1).None?
    ensures !IsSpace(s[p - 1])
  {
  }

  /** The piece after a separator does not start with whitespace. */
  lemma PieceAfterSeparator(s: string, p: nat)
    requires p <= |s| && AndSepEnd(s, p).Some?
    ensures var e := AndSepEnd(s, p).value; var r := SplitAndFrom(s, e, e).0[0];
      r != "" ==> !IsSpace(r[0])
  {
    var e := AndSepEnd(s, p).value;
    var r := SplitAndFrom(s, e, e).0[0];
    if r != "" {
      assert r[0] == s[e];
    }
  }

  /** The piece before the leftmost separator does not end with whitespace. */
  lemma PieceBeforeSeparator(s: string, start: nat, p: nat)
    requires start <= p < |s| && AndSepEnd(s, p).Some?
    requires forall x :: start <= x < p ==> AndSepEnd(s, x).None?
    ensures var x := s[start..p]; x != "" ==> !IsSpace(x[|x| - 1])
  {
    if p > start {
      BeforeSeparator(s, p);
      assert s[start..p][p - start - 1] == s[p - 1];
    }
  }

  /** A separator swallows the whitespace around it: no piece borders on a separator with whitespace. */
  lemma {:induction false} SplitAndFromPiecesTrimmed(s: string, start: nat, p: nat)
    requires start <= p <= |s|
    requires forall x :: start <= x < p ==> AndSepEnd(s, x).None?
    ensures EdgesTrimmed(SplitAndFrom(s, start, p).0)
    decreases |s| - p, 1
  {
    if p == |s| {
      assert SplitAndFrom(s, start, p).0 == [s[start..]];
      EdgesTrimmedSingle(s[start..]);
    } else {
      if AndSepEnd(s, p).Some? {
        PiecesTrimmedAtSeparator(s, start, p);
      } else {
        SkipPosition(s, start, p);
        assert forall x :: start <= x < p + 1 ==> AndSepEnd(s, x).None?;
        SplitAndFromPiecesTrimmed(s, start, p + 1);
      }
    }
  }

  lemma {:induction false} PiecesTrimmedAtSeparator(s: string, start: nat, p: nat)
    requires start <= p < |s| && AndSepEnd(s, p).Some?
    requires forall x :: start <= x < p ==> AndSepEnd(s, x).None?
    ensures EdgesTrimmed(SplitAndFrom(s, start, p).0)
    decreases |s| - p, 0
  {
    var e := AndSepEnd(s, p).value;
    SplitAndFromPiecesTrimmed(s, e, e);
    var rest := SplitAndFrom(s, e, e);
    CutAt(s, start, p);
    var x := s[start..p];
    PieceAfterSeparator(s, p);
    PieceBeforeSeparator(s, start, p);
    EdgesTrimmedCons(x, rest.0);
  }

  /**
   * The author split, characterised: the pieces and separators rebuild the
   * field, every separator is whitespace-`and`-whitespace, no piece contains
   * one, no inner piece edge next to a separator is whitespace, every
   * separator is the leftmost one: none could have started earlier, and no
   * piece between two separators is empty: a separator takes the whole
   * whitespace run after it.
   */
  lemma SplitAuthorsFacts(s: string)
    ensures |AndSeparators(s)| == |SplitAuthors(s)| - 1
    ensures Interleave(SplitAuthors(s), AndSeparators(s)) == s
    ensures forall i :: 0 <= i < |AndSeparators(s)| ==> IsAndSeparator(AndSeparators(s)[i])
    ensures forall i :: 0 <= i < |SplitAuthors(s)| ==> !HasAndSeparator(SplitAuthors(s)[i])
    ensures EdgesTrimmed(SplitAuthors(s))
    ensures forall i :: 0 <= i < |AndSeparators(s)| ==>
      |AndSeparators(s)[i]| >= 1 && !HasAndSeparator(SplitAuthors(s)[i] + AndSeparators(s)[i][..1])
    ensures forall i :: 0 < i < |SplitAuthors(s)| - 1 ==> SplitAuthors(s)[i] != ""
  {
    SplitAndFromInner(s, 0, 0);
    SplitAndFromLeftmost(s, 0, 0);
    SplitAndFromRebuilds(s, 0, 0);
    SplitAndFromSeparators(s, 0, 0);
    SplitAndFromPiecesClean(s, 0, 0);
    SplitAndFromPiecesTrimmed(s, 0, 0);
  }

  lemma {:induction false} NoSeparatorNoSplit(s: string, start: nat, p: nat)
    requires start <= p <= |s|
    requires forall x :: p <= x < |s| ==> AndSepEnd(s, x).None?
    ensures SplitAndFrom(s, start, p) == ([s[start..]], [])
    decreases |s| - p
  {
    if p < |s| {
      SkipPosition(s, start, p);
      NoSeparatorNoSplit(s, start, p + 1);
    }
  }

  /** A field without a separator is a single author. */
  lemma SingleAuthor(s: string)
    requires !HasAndSeparator(s)
    ensures SplitAuthors(s) == [s]
  {
    forall x | 0 <= x < |s| ensures AndSepEnd(s, x).None? {
      if AndSepEnd(s, x).Some? {
        SeparatorHasCore(s, x);
        assert false;
      }
    }
    NoSeparatorNoSplit(s, 0, 0);
  }
}
