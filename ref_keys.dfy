/**
 * Reference-key collection: comments are cut from the text, each citation
 * command's argument is split on commas, and the keys are gathered in scan order.
 */
module RefKeys {
  import opened Wrappers
  import opened Strings

  /** The rest of `t` from its first newline on (the newline kept), or "" when it has none. */
  function DropLine(t: string): (r: string)
    ensures |r| <= |t| && r == t[|t| - |r|..]
    ensures r == "" || r[0] == '\n'
    ensures '\n' !in t[..|t| - |r|]
    decreases |t|
  {
    if t == "" then "" else if t[0] == '\n' then t else DropLine(t[1..])
  }

  /** `re.sub(r'%.*', '', s)`: every `%` and the rest of its line go; an escaped `\%` is not special. */
  function RemoveComments(s: string): string
    decreases |s|
  {
    if s == "" then ""
    else if s[0] == '%' then RemoveComments(DropLine(s[1..]))
    else [s[0]] + RemoveComments(s[1..])
  }

  /** The part of one line before its first `%`. */
  function StripComment(line: string): string {
    SplitOn(line, "%")[0]
  }

  function StripComments(lines: seq<string>): (r: seq<string>)
    ensures |r| == |lines|
    decreases |lines|
  {
    if lines == [] then [] else [StripComment(lines[0])] + StripComments(lines[1..])
  }

  lemma {:induction false} SplitOnCharFree(x: string, c: char, u: string)
    requires c !in x
    ensures SplitOn(x + [c] + u, [c]) == [x] + SplitOn(u, [c])
    decreases |x|
  {
    var s := x + [c] + u;
    if x == [] {
      assert s[1..] == u;
    } else {
      assert s[0] == x[0] && x[0] in x;
      assert s[..1] != [c];
      assert s[1..] == x[1..] + [c] + u;
      SplitOnCharFree(x[1..], c, u);
      assert [s[0]] + x[1..] == x;
    }
  }

  lemma {:induction false} SplitOnCharNone(x: string, c: char)
    requires c !in x
    ensures SplitOn(x, [c]) == [x]
    decreases |x|
  {
    if x != [] {
      assert x[0] in x;
      assert x[..1] != [c];
      SplitOnCharNone(x[1..], c);
      assert [x[0]] + x[1..] == x;
    }
  }

  lemma StripCommentCons(c: char, x: string)
    requires c != '%'
    ensures StripComment([c] + x) == [c] + StripComment(x)
  {
    var s := [c] + x;
    assert s[1..] == x;
    assert s[..1] != "%";
  }

  lemma StripCommentsPrepend(a: string, lines: seq<string>)
    ensures StripComments([a] + lines) == [StripComment(a)] + StripComments(lines)
  {
    assert ([a] + lines)[1..] == lines;
  }

  lemma CommentOnlyLine(line: string)
    requires line != "" && line[0] == '%'
    ensures StripComment(line) == ""
  {
    assert line[..1] == "%";
  }

  /** The text rebuilt from its lines, each cut at its first `%`. */
  function CommentFreeLines(s: string): string {
    JoinWith(StripComments(SplitOn(s, "\n")), "\n")
  }

  lemma CommentLastLine(line: string)
    requires line != "" && line[0] == '%' && '\n' !in line
    ensures CommentFreeLines(line) == ""
  {
    CommentOnlyLine(line);
    SplitOnCharNone(line, '\n');
    StripCommentsPrepend(line, []);
  }

  lemma CommentLineSplit(line: string, u: string)
    requires line != "" && line[0] == '%' && '\n' !in line
    ensures CommentFreeLines(line + "\n" + u) == CommentFreeLines("\n" + u)
  {
    CommentOnlyLine(line);
    var rest := SplitOn(u, "\n");
    SplitOnCharFree(line, '\n', u);
    assert "\n" + u == "" + "\n" + u;
    SplitOnCharFree("", '\n', u);
    StripCommentsPrepend(line, rest);
    StripCommentsPrepend("", rest);
    assert StripComment("") == "";
  }

  lemma CommentLineRest(s: string, line: string, r: string)
    requires line != "" && line[0] == '%' && '\n' !in line && (r == "" || r[0] == '\n') && s == line + r
    ensures CommentFreeLines(s) == CommentFreeLines(r)
  {
    if r != "" {
      var u := r[1..];
      assert s == line + "\n" + u;
      assert r == "\n" + u;
      CommentLineSplit(line, u);
    } else {
      assert s == line;
      CommentLastLine(line);
    }
  }

  /** Lines of a text starting with a comment: the first line contributes nothing. */
  lemma CommentLineStep(s: string)
    requires s != "" && s[0] == '%'
    ensures CommentFreeLines(s) == CommentFreeLines(DropLine(s[1..]))
  {
    var line := CommentLineOf(s);
    CommentLineRest(s, line, DropLine(s[1..]));
  }

  /** The comment line at the start of `s`, up to its newline. */
  lemma {:induction false} CommentLineOf(s: string) returns (line: string)
    requires s != "" && s[0] == '%'
    ensures line != "" && line[0] == '%' && '\n' !in line
    ensures s == line + DropLine(s[1..])
  {
    var t := s[1..];
    var r := DropLine(t);
    var x := t[..|t| - |r|];
    line := [s[0]] + x;
    ConsSplit(s, |t| - |r|);
  }

  /** `s` is its head, the next `k` characters and the rest. */
  lemma ConsSplit(s: string, k: nat)
    requires 0 < |s| && k <= |s| - 1
    ensures s == [s[0]] + s[1..][..k] + s[1..][k..]
  {
  }

  lemma NewlineStep(s: string)
    requires s != "" && s[0] == '\n'
    ensures CommentFreeLines(s) == "\n" + CommentFreeLines(s[1..])
  {
    assert s[..1] == "\n";
    var rest := SplitOn(s[1..], "\n");
    StripCommentsPrepend("", rest);
    assert StripComment("") == "";
    JoinEmptyCons(StripComments(rest), "\n");
  }

  lemma OrdinaryStep(s: string)
    requires s != "" && s[0] != '\n' && s[0] != '%'
    ensures CommentFreeLines(s) == [s[0]] + CommentFreeLines(s[1..])
  {
    assert s[..1] != "\n";
    var rest := SplitOn(s[1..], "\n");
    assert SplitOn(s, "\n") == [[s[0]] + rest[0]] + rest[1..];
    StripCommentsPrepend([s[0]] + rest[0], rest[1..]);
    StripCommentCons(s[0], rest[0]);
    StripCommentsPrepend(rest[0], rest[1..]);
    assert rest == [rest[0]] + rest[1..];
    JoinCons(s[0], StripComments(rest), "\n");
  }

  /**
   * Comment removal works line by line: the text's lines, each cut at its first `%`,
   * joined again by newlines.
   */
  lemma {:induction false} RemoveCommentsByLines(s: string)
    ensures RemoveComments(s) == CommentFreeLines(s)
    decreases |s|
  {
    if s == "" {
    } else if s[0] == '%' {
      RemoveCommentsByLines(DropLine(s[1..]));
      CommentLineStep(s);
    } else if s[0] == '\n' {
      RemoveCommentsByLines(s[1..]);
      NewlineStep(s);
    } else {
      RemoveCommentsByLines(s[1..]);
      OrdinaryStep(s);
    }
  }

  /** The comment-free text contains no `%`. */
  lemma {:induction false} RemoveCommentsNoPercent(s: string)
    ensures '%' !in RemoveComments(s)
    decreases |s|
  {
    if s == "" {
    } else if s[0] == '%' {
      RemoveCommentsNoPercent(DropLine(s[1..]));
    } else {
      RemoveCommentsNoPercent(s[1..]);
    }
  }

  /** One piece of `re.split(r'\s*,\s*', s)`: whitespace next to a comma is dropped. */
  function TrimPiece(p: string, afterComma: bool, beforeComma: bool): string {
    var q := if beforeComma then TrimEnd(p) else p;
    if afterComma then TrimStart(q) else q
  }

  lemma TrimPieceShape(p: string, afterComma: bool, beforeComma: bool)
    ensures var r := TrimPiece(p, afterComma, beforeComma);
      (forall c :: c in r ==> c in p) &&
      (afterComma && r != [] ==> !IsSpace(r[0])) &&
      (beforeComma && r != [] ==> !IsSpace(r[|r| - 1]))
  {
    var q := if beforeComma then TrimEnd(p) else p;
    if beforeComma {
      TrimEndChars(p);
    }
    if afterComma {
      TrimStartChars(q);
    }
  }

  lemma TrimEndChars(p: string)
    ensures forall c :: c in TrimEnd(p) ==> c in p
  {
    var q := TrimEnd(p);
    SliceChars(p, 0, |q|);
    assert q == p[0..|q|];
  }

  /** Trimming the start keeps the characters and, when something is left, the last one. */
  lemma TrimStartChars(q: string)
    ensures forall c :: c in TrimStart(q) ==> c in q
    ensures TrimStart(q) != [] ==> TrimStart(q)[|TrimStart(q)| - 1] == q[|q| - 1]
  {
    var r := TrimStart(q);
    var k := |q| - |r|;
    assert r == q[k..];
    SuffixFacts(q, k);
  }

  lemma SuffixFacts(q: string, k: nat)
    requires k <= |q|
    ensures forall c :: c in q[k..] ==> c in q
    ensures k < |q| ==> q[k..][|q| - k - 1] == q[|q| - 1]
  {
    SliceChars(q, k, |q|);
    assert q[k..] == q[k..|q|];
  }

  lemma SliceChars(s: string, i: nat, j: nat)
    requires i <= j <= |s|
    ensures forall c :: c in s[i..j] ==> c in s
  {
    forall c | c in s[i..j] ensures c in s {
      var k :| i <= k < j && s[k] == c;
    }
  }

  /** `re.split(r'\s*,\s*', s)`: the keys of one citation argument. */
  function SplitKeys(s: string): (keys: seq<string>)
    ensures |keys| == |SplitOn(s, ",")|
  {
    var ps := SplitOn(s, ",");
    seq(|ps|, i requires 0 <= i < |ps| => TrimPiece(ps[i], i > 0, i < |ps| - 1))
  }

  /** A trimmed piece is a slice of the piece with only whitespace cut away, on the trimmed sides only. */
  lemma TrimPieceSlice(p: string, afterComma: bool, beforeComma: bool) returns (lo: nat, hi: nat)
    ensures lo <= hi <= |p| && TrimPiece(p, afterComma, beforeComma) == p[lo..hi]
    ensures AllSpace(p[..lo]) && AllSpace(p[hi..])
    ensures !afterComma ==> lo == 0
    ensures !beforeComma ==> hi == |p|
  {
    var q := if beforeComma then TrimEnd(p) else p;
    var r := TrimPiece(p, afterComma, beforeComma);
    hi := |q|;
    lo := if afterComma then |q| - |r| else 0;
    assert q == p[..hi];
    assert r == q[lo..];
    assert p[..lo] == q[..lo];
  }

  /**
   * `key` is `piece` with whitespace cut away at both ends, except at the start
   * of the first piece and at the end of the last.
   */
  ghost predicate TrimmedFrom(key: string, piece: string, first: bool, last: bool) {
    exists lo, hi :: 0 <= lo <= hi <= |piece| && key == piece[lo..hi] &&
      AllSpace(piece[..lo]) && AllSpace(piece[hi..]) && (first ==> lo == 0) && (last ==> hi == |piece|)
  }

  /**
   * The pieces between commas rebuild the argument, and key `i` is piece `i`
   * with whitespace cut from the sides that border a comma, and from no other
   * side: no key holds a comma, and a key next to a comma neither starts nor
   * ends with whitespace on that side.
   */
  lemma SplitKeysShape(s: string)
    ensures var ps := SplitOn(s, ","); var keys := SplitKeys(s);
      JoinWith(ps, ",") == s && |keys| == |ps| &&
      (forall i :: 0 <= i < |keys| ==> ',' !in keys[i]) &&
      (forall i :: 0 < i < |keys| && keys[i] != [] ==> !IsSpace(keys[i][0])) &&
      (forall i :: 0 <= i < |keys| - 1 && keys[i] != [] ==> !IsSpace(keys[i][|keys[i]| - 1])) &&
      (forall i :: 0 <= i < |keys| ==> TrimmedFrom(keys[i], ps[i], i == 0, i == |keys| - 1))
  {
    var ps := SplitOn(s, ",");
    var keys := SplitKeys(s);
    SplitJoin(s, ",");
    forall i | 0 <= i < |keys|
      ensures ',' !in keys[i]
      ensures 0 < i && keys[i] != [] ==> !IsSpace(keys[i][0])
      ensures i < |keys| - 1 && keys[i] != [] ==> !IsSpace(keys[i][|keys[i]| - 1])
      ensures TrimmedFrom(keys[i], ps[i], i == 0, i == |keys| - 1)
    {
      KeyAt(s, i);
    }
  }

  /** Key `i` of the argument against piece `i`. */
  lemma KeyAt(s: string, i: nat)
    requires i < |SplitKeys(s)|
    ensures var ps := SplitOn(s, ","); var keys := SplitKeys(s);
      && ',' !in keys[i]
      && (0 < i && keys[i] != [] ==> !IsSpace(keys[i][0]))
      && (i < |keys| - 1 && keys[i] != [] ==> !IsSpace(keys[i][|keys[i]| - 1]))
      && TrimmedFrom(keys[i], ps[i], i == 0, i == |keys| - 1)
  {
    var ps := SplitOn(s, ",");
    var keys := SplitKeys(s);
    SplitOnCharPieces(s, ',');
    assert ',' !in ps[i];
    var first, last := i == 0, i == |keys| - 1;
    assert keys[i] == TrimPiece(ps[i], !first, !last);
    KeyOfPiece(ps[i], keys[i], first, last);
  }

  /** One key against its piece: whitespace cut only on the sides that border a comma. */
  lemma KeyOfPiece(p: string, key: string, first: bool, last: bool)
    requires ',' !in p && key == TrimPiece(p, !first, !last)
    ensures ',' !in key
    ensures !first && key != [] ==> !IsSpace(key[0])
    ensures !last && key != [] ==> !IsSpace(key[|key| - 1])
    ensures TrimmedFrom(key, p, first, last)
  {
    TrimPieceShape(p, !first, !last);
    var lo, hi := TrimPieceSlice(p, !first, !last);
    assert key == p[lo..hi];
  }

  lemma {:induction false} SplitOnPiecesWithin(s: string, c: char)
    ensures forall i :: 0 <= i < |SplitOn(s, [c])| ==> forall ch :: ch in SplitOn(s, [c])[i] ==> ch in s
    decreases |s|
  {
    if |s| >= 1 {
      SplitOnPiecesWithin(s[1..], c);
      assert forall ch :: ch in s[1..] ==> ch in s;
    }
  }

  lemma NoSpaceUntrimmed(p: string, afterComma: bool, beforeComma: bool)
    requires forall ch :: ch in p ==> !IsSpace(ch)
    ensures TrimPiece(p, afterComma, beforeComma) == p
  {
    if p != [] {
      assert p[0] in p && p[|p| - 1] in p;
    }
  }

  /** Joining the untrimmed pieces with commas gives the argument back. */
  lemma SplitKeysOfSpaceless(s: string)
    requires forall ch :: ch in s ==> !IsSpace(ch)
    ensures JoinWith(SplitKeys(s), ",") == s
  {
    var ps := SplitOn(s, ",");
    SplitJoin(s, ",");
    SplitOnPiecesWithin(s, ',');
    forall i | 0 <= i < |ps| ensures SplitKeys(s)[i] == ps[i] {
      NoSpaceUntrimmed(ps[i], i > 0, i < |ps| - 1);
    }
    assert SplitKeys(s) == ps;
  }

  /** `[r for r in refs if r not in seen]`. */
  function NewKeys(refs: seq<string>, seen: seq<string>): (r: seq<string>)
    ensures forall k :: k in r <==> k in refs && k !in seen
    decreases |refs|
  {
    if refs == [] then [] else (if refs[0] in seen then [] else [refs[0]]) + NewKeys(refs[1..], seen)
  }

  /** The comprehension is a filter: it works piece by piece, and keeps an unseen key, drops a seen one. */
  lemma {:induction false} NewKeysFilter(a: seq<string>, b: seq<string>, seen: seq<string>, x: string)
    ensures NewKeys(a + b, seen) == NewKeys(a, seen) + NewKeys(b, seen)
    ensures NewKeys([x], seen) == if x in seen then [] else [x]
    decreases |a|
  {
    if a != [] {
      var a1 := a[1..];
      var h := if a[0] in seen then [] else [a[0]];
      var s := a + b;
      assert s[0] == a[0] && s[1..] == a1 + b;
      NewKeysFilter(a1, b, seen, x);
      assert NewKeys(s, seen) == h + NewKeys(a1 + b, seen);
      ConcatAssoc(h, NewKeys(a1, seen), NewKeys(b, seen));
    } else {
      assert a + b == b;
    }
    NewKeysSingle(seen, x);
  }

  lemma NewKeysSingle(seen: seq<string>, x: string)
    ensures NewKeys([x], seen) == if x in seen then [] else [x]
  {
    assert [x][1..] == [];
  }

  /** Every occurrence of an unseen key is kept, and none of a seen one. */
  lemma {:induction false} NewKeysCount(refs: seq<string>, seen: seq<string>, k: string)
    ensures multiset(NewKeys(refs, seen))[k] == if k in seen then 0 else multiset(refs)[k]
    decreases |refs|
  {
    if refs != [] {
      NewKeysCount(refs[1..], seen, k);
      assert refs == [refs[0]] + refs[1..];
    }
  }

  /** The kept keys stay in the order of the argument. */
  lemma {:induction false} NewKeysInOrder(refs: seq<string>, seen: seq<string>)
    ensures IsSubsequence(NewKeys(refs, seen), refs)
    decreases |refs|
  {
    if refs != [] {
      NewKeysInOrder(refs[1..], seen);
      var r := NewKeys(refs, seen);
      var rest := NewKeys(refs[1..], seen);
      if refs[0] !in seen {
        assert r == [refs[0]] + rest;
        assert r[0] == refs[0] && r[1..] == rest;
      } else {
        assert r == [] + rest;
        assert r == rest;
      }
    }
  }

  /** The key list after the given argument strings were processed, as the source builds it. */
  function KeysAsWritten(argLists: seq<string>): seq<string>
    decreases |argLists|
  {
    if argLists == [] then []
    else
      var prev := KeysAsWritten(argLists[..|argLists| - 1]);
      prev + NewKeys(SplitKeys(argLists[|argLists| - 1]), prev)
  }

  /** `get_all_ref_keys` as written: append, per command, the keys not seen in earlier commands. */
  method CollectRefKeys(argLists: seq<string>) returns (refkeys: seq<string>)
    ensures refkeys == KeysAsWritten(argLists)
  {
    refkeys := [];
    for i := 0 to |argLists|
      invariant refkeys == KeysAsWritten(argLists[..i])
    {
      assert argLists[..i + 1][..i] == argLists[..i];
      var refList := SplitKeys(argLists[i]);
      refkeys := refkeys + NewKeys(refList, refkeys);
    }
    assert argLists[..|argLists|] == argLists;
  }

  /** The key list only grows: what an earlier command left is a prefix of the final list. */
  lemma {:induction false} KeysAppendOnly(argLists: seq<string>, i: nat)
    requires i <= |argLists|
    ensures KeysAsWritten(argLists[..i]) <= KeysAsWritten(argLists)
    decreases |argLists| - i
  {
    if i < |argLists| {
      KeysAppendOnly(argLists[..|argLists| - 1], i);
      assert argLists[..|argLists| - 1][..i] == argLists[..i];
    } else {
      assert argLists[..i] == argLists;
    }
  }

  /**
   * Command `i` appends the keys of its argument in argument order, each as often
   * as the argument holds it, except the keys earlier commands cited, which it
   * never adds again.
   */
  lemma KeysAppendedIffAbsent(argLists: seq<string>, i: nat, k: string)
    requires i < |argLists|
    ensures var before := KeysAsWritten(argLists[..i]);
      var after := KeysAsWritten(argLists[..i + 1]);
      var refs := SplitKeys(argLists[i]);
      before <= after &&
      multiset(after[|before|..])[k] == (if k in before then 0 else multiset(refs)[k]) &&
      IsSubsequence(after[|before|..], refs)
  {
    assert argLists[..i + 1][..i] == argLists[..i];
    var before := KeysAsWritten(argLists[..i]);
    var added := NewKeys(SplitKeys(argLists[i]), before);
    assert (before + added)[|before|..] == added;
    NewKeysCount(SplitKeys(argLists[i]), before, k);
    NewKeysInOrder(SplitKeys(argLists[i]), before);
  }

  /** Every key of every argument, repetitions included, in scan order. */
  function CitedKeys(argLists: seq<string>): seq<string>
    decreases |argLists|
  {
    if argLists == [] then []
    else CitedKeys(argLists[..|argLists| - 1]) + SplitKeys(argLists[|argLists| - 1])
  }

  /** A key is collected if and only if some command cites it. */
  lemma {:induction false} KeysCollected(argLists: seq<string>)
    ensures forall k :: k in KeysAsWritten(argLists) <==> k in CitedKeys(argLists)
    decreases |argLists|
  {
    if argLists != [] {
      KeysCollected(argLists[..|argLists| - 1]);
    }
  }

  /** `"a, a"` splits into two equal keys. */
  lemma SplitRepeated()
    ensures SplitKeys("a, a") == ["a", "a"]
  {
    assert "a, a" == "a" + "," + " a";
    SplitAtComma("a", " a");
    TrimRepeated();
  }

  /** Text with one comma splits into the parts before and after it. */
  lemma SplitAtComma(x: string, y: string)
    requires ',' !in x && ',' !in y
    ensures SplitOn(x + "," + y, ",") == [x, y]
  {
    SplitOnCharFree(x, ',', y);
    SplitOnCharNone(y, ',');
  }

  lemma TrimRepeated()
    ensures TrimEnd("a") == "a" && TrimStart(" a") == "a"
  {
    var a := "a";
    assert !IsSpace(a[0]);
    var b := " a";
    var tail := b[1..];
    assert tail == "a" && IsSpace(b[0]);
  }

  /** The as-written collection keeps a key that one argument repeats, twice. */
  lemma RepeatedKeyKeptTwice()
    ensures KeysAsWritten(["a, a"]) == ["a", "a"]
    ensures !Distinct(KeysAsWritten(["a, a"]))
  {
    SplitRepeated();
    assert ["a, a"][..0] == [];
    assert ["a", "a"][1..] == ["a"];
  }

  lemma TrimFooBar()
    ensures TrimEnd("foo") == "foo" && TrimStart(" bar") == "bar"
  {
    var foo := "foo";
    assert !IsSpace(foo[|foo| - 1]);
    var bar := " bar";
    var tail := bar[1..];
    assert tail == "bar" && IsSpace(bar[0]) && !IsSpace(tail[0]);
  }

  lemma SplitFooBar()
    ensures SplitKeys("foo, bar") == ["foo", "bar"]
  {
    assert "foo, bar" == "foo" + "," + " bar";
    SplitAtComma("foo", " bar");
    TrimFooBar();
  }

  /** `\custom_cite{foo, bar}` yields `['foo', 'bar']`. */
  lemma CollectExample()
    ensures KeysAsWritten(["foo, bar"]) == ["foo", "bar"]
  {
    SplitFooBar();
    assert ["foo, bar"][..0] == [];
    assert ["foo", "bar"][1..] == ["bar"];
  }

  /** Add each key in turn unless it is already there (the key list the source means to build). */
  function AddUnique(acc: seq<string>, refs: seq<string>): seq<string>
    decreases |refs|
  {
    if refs == [] then acc
    else AddUnique(if refs[0] in acc then acc else acc + [refs[0]], refs[1..])
  }

  function UniqueKeys(argLists: seq<string>): seq<string>
    decreases |argLists|
  {
    if argLists == [] then []
    else AddUnique(UniqueKeys(argLists[..|argLists| - 1]), SplitKeys(argLists[|argLists| - 1]))
  }

  lemma {:induction false} AddUniqueFacts(acc: seq<string>, refs: seq<string>)
    requires Distinct(acc)
    ensures acc <= AddUnique(acc, refs)
    ensures Distinct(AddUnique(acc, refs))
    ensures forall k :: k in AddUnique(acc, refs) <==> k in acc || k in refs
    decreases |refs|
  {
    if refs != [] {
      var next := if refs[0] in acc then acc else acc + [refs[0]];
      AddUniqueFacts(next, refs[1..]);
    }
  }

  /** The corrected list holds each cited key exactly once. */
  lemma {:induction false} UniqueKeysFacts(argLists: seq<string>)
    ensures Distinct(UniqueKeys(argLists))
    ensures forall k :: k in UniqueKeys(argLists) <==> k in CitedKeys(argLists)
    decreases |argLists|
  {
    if argLists != [] {
      var n := |argLists| - 1;
      UniqueKeysFacts(argLists[..n]);
      AddUniqueFacts(UniqueKeys(argLists[..n]), SplitKeys(argLists[n]));
    }
  }

  /** The corrected collection: the distinct keys, in order of first citation. */
  method CollectUniqueRefKeys(argLists: seq<string>) returns (refkeys: seq<string>)
    ensures refkeys == UniqueKeys(argLists)
    ensures Distinct(refkeys)
    ensures forall k :: k in refkeys <==> k in CitedKeys(argLists)
  {
    refkeys := [];
    for i := 0 to |argLists|
      invariant refkeys == UniqueKeys(argLists[..i])
    {
      assert argLists[..i + 1][..i] == argLists[..i];
      var refList := SplitKeys(argLists[i]);
      ghost var before := refkeys;
      for j := 0 to |refList|
        invariant AddUnique(refkeys, refList[j..]) == AddUnique(before, refList)
      {
        assert refList[j..][1..] == refList[j + 1..];
        if refList[j] !in refkeys {
          refkeys := refkeys + [refList[j]];
        }
      }
    }
    assert argLists[..|argLists|] == argLists;
    UniqueKeysFacts(argLists);
  }

  lemma {:induction false} NewKeysIgnoresAbsent(refs: seq<string>, seen: seq<string>, x: string)
    requires x !in refs
    ensures NewKeys(refs, seen + [x]) == NewKeys(refs, seen)
    decreases |refs|
  {
    if refs != [] {
      NewKeysIgnoresAbsent(refs[1..], seen, x);
    }
  }

  lemma {:induction false} AddUniqueOfDistinct(seen: seq<string>, refs: seq<string>)
    requires Distinct(refs)
    ensures AddUnique(seen, refs) == seen + NewKeys(refs, seen)
    decreases |refs|
  {
    if refs != [] {
      assert Distinct(refs[1..]);
      if refs[0] in seen {
        AddUniqueOfDistinct(seen, refs[1..]);
      } else {
        AddUniqueOfDistinct(seen + [refs[0]], refs[1..]);
        assert refs[0] !in refs[1..] by {
          forall j | 0 <= j < |refs[1..]| ensures refs[1..][j] != refs[0] {
            assert refs[1..][j] == refs[j + 1];
          }
        }
        NewKeysIgnoresAbsent(refs[1..], seen, refs[0]);
      }
    }
  }

  /** When no single argument repeats a key, the as-written and the corrected lists agree. */
  lemma {:induction false} AsWrittenAgreesWithoutRepeats(argLists: seq<string>)
    requires forall i :: 0 <= i < |argLists| ==> Distinct(SplitKeys(argLists[i]))
    ensures KeysAsWritten(argLists) == UniqueKeys(argLists)
    decreases |argLists|
  {
    if argLists != [] {
      var n := |argLists| - 1;
      AsWrittenAgreesWithoutRepeats(argLists[..n]);
      AddUniqueOfDistinct(UniqueKeys(argLists[..n]), SplitKeys(argLists[n]));
    }
  }

  /** The corrected list keeps the repeated key once. */
  lemma RepeatedKeyKeptOnce()
    ensures UniqueKeys(["a, a"]) == ["a"]
  {
    SplitRepeated();
    assert ["a, a"][..0] == [];
    assert ["a", "a"][1..] == ["a"];
    assert ["a"][1..] == [];
  }
}
