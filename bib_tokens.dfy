/**
 * (author, year) tokens from bib entries: the author field is cut into authors,
 * each author reduced to a surname, the surnames written out as one author list
 * (or the first surname and "et al."), and the year taken as it stands.  The key
 * is looked up in the bib files in order; the first file whose text contains it
 * must hold its entry.
 */
module BibTokens {
  import opened Wrappers
  import opened Strings
  import opened Braces
  import opened Entities
  import opened Configuration
  import opened AuthorSplit
  import opened Duplicates
  import opened RefKeys
  import opened StrFormat

  // ---------------------------------------------------------------------------
  // Surnames
  // ---------------------------------------------------------------------------

  /** Some author is written "Surname, Given": then every author is read that way. */
  predicate AnyComma(authors: seq<string>) {
    exists i :: 0 <= i < |authors| && ',' in authors[i]
  }

  /**
   * The surname part of one author: the text before the first comma in comma
   * mode, otherwise the text after the last space.
   */
  function RawSurname(a: string, commaMode: bool): (r: string)
    ensures |r| <= |a|
    ensures commaMode ==> a[..|r|] == r && ',' !in r && (|r| < |a| ==> a[|r|] == ',')
    ensures !commaMode ==> a[|a| - |r|..] == r && ' ' !in r && (|r| < |a| ==> a[|a| - |r| - 1] == ' ')
  {
    FirstPiece(a, ',');
    LastPiece(a, ' ');
    if commaMode then SplitOn(a, ",")[0]
    else
      var ps := SplitOn(a, " ");
      ps[|ps| - 1]
  }

  /** `re.sub('[{}]', '', s)`: the text with every brace deleted. */
  function RemoveBraces(s: string): (r: string)
    ensures BraceFree(r)
    ensures forall c :: c in r <==> c in s && c != '{' && c != '}'
    ensures |r| <= |s|
    decreases |s|
  {
    if s == "" then ""
    else
      var rest := RemoveBraces(s[1..]);
      assert forall c :: c in s <==> c == s[0] || c in s[1..];
      if s[0] == '{' || s[0] == '}' then rest else [s[0]] + rest
  }

  /**
   * Brace deletion is a filter: it works piece by piece, and keeps exactly the
   * characters that are not braces, in their order.
   */
  lemma {:induction false} RemoveBracesFilter(a: string, b: string, c: char)
    ensures RemoveBraces(a + b) == RemoveBraces(a) + RemoveBraces(b)
    ensures RemoveBraces([c]) == if c == '{' || c == '}' then "" else [c]
    decreases |a|
  {
    if a != "" {
      assert (a + b)[1..] == a[1..] + b;
      RemoveBracesFilter(a[1..], b, c);
    } else {
      assert a + b == b;
    }
    assert [c][1..] == "";
  }

  /** Text without braces passes through unchanged. */
  lemma {:induction false} RemoveBracesOfBraceFree(s: string)
    requires BraceFree(s)
    ensures RemoveBraces(s) == s
    decreases |s|
  {
    if s != "" {
      assert s[0] in s;
      assert forall c :: c in s[1..] ==> c in s;
      RemoveBracesOfBraceFree(s[1..]);
      assert s == [s[0]] + s[1..];
    }
  }

  /** Deleting braces twice deletes nothing more. */
  lemma RemoveBracesIdempotent(s: string)
    ensures RemoveBraces(RemoveBraces(s)) == RemoveBraces(s)
  {
    RemoveBracesOfBraceFree(RemoveBraces(s));
  }

  /** A surname as written into the author list: stripped, then freed of braces. */
  function CleanSurname(x: string): (r: string)
    ensures BraceFree(r) && |r| <= |x|
  {
    RemoveBraces(Strip(x))
  }

  /** The surnames of an author list, one per author and in order. */
  function Surnames(authors: seq<string>): (r: seq<string>)
    ensures |r| == |authors|
  {
    var commaMode := AnyComma(authors);
    seq(|authors|, i requires 0 <= i < |authors| => CleanSurname(RawSurname(authors[i], commaMode)))
  }

  /** Each surname comes from its own author, read in the mode the whole list decides. */
  lemma SurnamesShape(authors: seq<string>, i: nat)
    requires i < |authors|
    ensures Surnames(authors)[i] == CleanSurname(RawSurname(authors[i], AnyComma(authors)))
    ensures !AnyComma(authors) ==> ',' !in authors[i]
  {
  }

  /**
   * In a list where some author is written with a comma, an author written
   * without one keeps the whole name as surname.
   */
  lemma CommaModeWholeName(authors: seq<string>, i: nat)
    requires i < |authors| && AnyComma(authors) && ',' !in authors[i]
    ensures Surnames(authors)[i] == CleanSurname(authors[i])
  {
    SurnamesShape(authors, i);
    var a := authors[i];
    var r := RawSurname(a, true);
    assert a[..|a|] == a;
    assert r == a;
  }

  // ---------------------------------------------------------------------------
  // The author list
  // ---------------------------------------------------------------------------

  /** Each name followed by the first-kind separator. */
  function Firsts(xs: seq<string>, sep: string): string
    decreases |xs|
  {
    if xs == [] then "" else Firsts(xs[..|xs| - 1], sep) + xs[|xs| - 1] + sep
  }

  /**
   * `format_authorlist`: the first n-2 surnames each followed by the first-kind
   * separator, then the penultimate surname, the serial comma when there are at
   * least three names and it is switched on, the last-kind separator, and the
   * last surname.
   */
  function FormatAuthorList(opts: BibOptions, xs: seq<string>): string
    requires |xs| >= 1
  {
    var n := |xs|;
    if n == 1 then xs[0]
    else
      var serial := if n > 2 && opts.authorSerialComma then "," else "";
      Firsts(xs[..n - 2], opts.sepAuthorsFirst) + xs[n - 2] + serial + opts.sepAuthorsLast + xs[n - 1]
  }

  lemma {:induction false} FirstsJoin(ys: seq<string>, y: string, sep: string)
    ensures Firsts(ys, sep) + y == JoinWith(ys + [y], sep)
    decreases |ys|
  {
    if ys != [] {
      var n := |ys| - 1;
      FirstsJoin(ys[..n], ys[n], sep);
      assert ys[..n] + [ys[n]] == ys;
      JoinSnoc(ys + [y], sep);
      assert (ys + [y])[..|ys|] == ys;
    }
  }

  /**
   * The author list against `str.join`: one name alone; otherwise all but the
   * last name joined by the first-kind separator, the serial comma (n >= 3 only),
   * the last-kind separator and the last name.
   */
  lemma FormatAuthorListJoin(opts: BibOptions, xs: seq<string>)
    requires |xs| >= 1
    ensures |xs| == 1 ==> FormatAuthorList(opts, xs) == xs[0]
    ensures |xs| == 2 ==> FormatAuthorList(opts, xs) == xs[0] + opts.sepAuthorsLast + xs[1]
    ensures |xs| >= 2 ==>
      var n := |xs|;
      FormatAuthorList(opts, xs) ==
        JoinWith(xs[..n - 1], opts.sepAuthorsFirst) + (if n >= 3 && opts.authorSerialComma then "," else "") +
        opts.sepAuthorsLast + xs[n - 1]
  {
    var n := |xs|;
    if n >= 2 {
      FirstsJoin(xs[..n - 2], xs[n - 2], opts.sepAuthorsFirst);
      assert xs[..n - 2] + [xs[n - 2]] == xs[..n - 1];
    }
  }

  /** With one separator and no serial comma the list is a plain join. */
  lemma UniformAuthorList(opts: BibOptions, xs: seq<string>)
    requires |xs| >= 1 && opts.sepAuthorsFirst == opts.sepAuthorsLast && !opts.authorSerialComma
    ensures FormatAuthorList(opts, xs) == JoinWith(xs, opts.sepAuthorsLast)
  {
    FormatAuthorListJoin(opts, xs);
    var n, sep := |xs|, opts.sepAuthorsLast;
    if n >= 2 {
      JoinSnoc(xs, sep);
      var init := JoinWith(xs[..n - 1], sep);
      assert init + "" == init;
      assert FormatAuthorList(opts, xs) == init + sep + xs[n - 1];
    }
  }

  /** `s * k` for a string and an int: `k` copies of `s`, none when `k` is not positive. */
  function Repeat(s: string, k: int): string
    decreases k
  {
    if k <= 0 then "" else s + Repeat(s, k - 1)
  }

  /** The separator between the last two names: the serial comma, then the last-kind separator. */
  function LastSeparator(opts: BibOptions, n: nat): string {
    (if n > 2 && opts.authorSerialComma then "," else "") + opts.sepAuthorsLast
  }

  /** The format template `format_authorlist` builds for `n` names, separators spliced in. */
  function AuthorTemplate(opts: BibOptions, n: nat): string {
    Repeat("{}" + opts.sepAuthorsFirst, n - 2) + (if n > 1 then "{}" + LastSeparator(opts, n) else "") + "{}"
  }

  /** `format_authorlist` as written: the template, then `.format(*surnames)`. */
  function FormatAuthorListAsWritten(opts: BibOptions, xs: seq<string>): Result<string> {
    Format(AuthorTemplate(opts, |xs|), xs)
  }

  lemma {:induction false} FirstsCons(y: string, ys: seq<string>, sep: string)
    ensures Firsts([y] + ys, sep) == y + sep + Firsts(ys, sep)
    decreases |ys|
  {
    if ys == [] {
      assert ([y] + ys)[..0] == [];
    } else {
      var n := |ys| - 1;
      assert ([y] + ys)[..n + 1] == [y] + ys[..n];
      FirstsCons(y, ys[..n], sep);
    }
  }

  /** The repeated `{}` + separator part of the template writes each argument followed by the separator. */
  lemma {:induction false} FormatRepeated(sep: string, u: string, args: seq<string>, next: nat, end: nat, mode: Numbering)
    requires BraceFree(sep) && mode != Manual && next <= end <= |args|
    ensures FormatFrom(Repeat("{}" + sep, end - next) + u, args, next, mode) ==
      Prepend(Firsts(args[next..end], sep), FormatFrom(u, args, end, if end > next then Auto else mode))
    decreases end - next
  {
    if end == next {
      assert Repeat("{}" + sep, end - next) + u == u;
      assert args[next..end] == [];
      PrependNothing(FormatFrom(u, args, next, mode));
    } else {
      var rest := Repeat("{}" + sep, end - (next + 1)) + u;
      RepeatStep(sep, end - next, u);
      FormatAutoField(sep + rest, args, next, mode);
      FormatLiteral(sep, rest, args, next + 1, Auto);
      FormatRepeated(sep, u, args, next + 1, end, Auto);
      var tail := FormatFrom(u, args, end, Auto);
      var fs := Firsts(args[next + 1..end], sep);
      PrependTwice(sep, fs, tail);
      PrependTwice(args[next], sep + fs, tail);
      SliceCons(args, next, end);
      FirstsCons(args[next], args[next + 1..end], sep);
      ConcatAssoc(args[next], sep, fs);
    }
  }

  lemma RepeatStep(sep: string, k: nat, u: string)
    requires k > 0
    ensures Repeat("{}" + sep, k) + u == "{}" + (sep + (Repeat("{}" + sep, k - 1) + u))
  {
    var r := Repeat("{}" + sep, k - 1);
    assert ("{}" + sep + r) + u == "{}" + (sep + (r + u));
  }

  /** The closing `{}` of the template takes the last argument. */
  lemma FormatLastOne(args: seq<string>, i: nat, mode: Numbering)
    requires mode != Manual && i + 1 == |args|
    ensures FormatFrom("{}", args, i, mode) == Success(args[i])
  {
    FormatAutoField("", args, i, mode);
    assert "{}" + "" == "{}" && args[i] + "" == args[i];
  }

  /** The last two fields of the template, around the last-kind separator. */
  lemma FormatLastTwo(lastSep: string, args: seq<string>, i: nat, mode: Numbering)
    requires BraceFree(lastSep) && mode != Manual && i + 2 == |args|
    ensures FormatFrom("{}" + (lastSep + "{}"), args, i, mode) == Success(args[i] + lastSep + args[i + 1])
  {
    FormatLastOne(args, i + 1, Auto);
    FormatLiteral(lastSep, "{}", args, i + 1, Auto);
    FormatAutoField(lastSep + "{}", args, i, mode);
    assert args[i] + (lastSep + args[i + 1]) == args[i] + lastSep + args[i + 1];
  }

  lemma {:induction false} FormatManyNames(opts: BibOptions, xs: seq<string>)
    requires |xs| >= 2 && BraceFree(opts.sepAuthorsFirst) && BraceFree(opts.sepAuthorsLast)
    ensures var n := |xs|;
      FormatAuthorListAsWritten(opts, xs) ==
        Success(Firsts(xs[..n - 2], opts.sepAuthorsFirst) + (xs[n - 2] + LastSeparator(opts, n) + xs[n - 1]))
  {
    var n := |xs|;
    var lastSep := LastSeparator(opts, n);
    assert BraceFree(lastSep);
    var u := "{}" + (lastSep + "{}");
    assert AuthorTemplate(opts, n) == Repeat("{}" + opts.sepAuthorsFirst, n - 2) + u;
    var mode := if n - 2 > 0 then Auto else Unset;
    FormatRepeated(opts.sepAuthorsFirst, u, xs, 0, n - 2, Unset);
    assert n - 2 - 0 == n - 2;
    assert xs[0..n - 2] == xs[..n - 2];
    FormatLastTwo(lastSep, xs, n - 2, mode);
  }

  /**
   * With separators free of braces, the template formats to the author list
   * with the separators written as they stand.
   */
  lemma AsWrittenAgreesBraceFree(opts: BibOptions, xs: seq<string>)
    requires |xs| >= 1 && BraceFree(opts.sepAuthorsFirst) && BraceFree(opts.sepAuthorsLast)
    ensures FormatAuthorListAsWritten(opts, xs) == Success(FormatAuthorList(opts, xs))
  {
    var n := |xs|;
    if n == 1 {
      assert AuthorTemplate(opts, n) == "{}" + "";
      FormatLastOne(xs, 0, Unset);
    } else {
      FormatManyNames(opts, xs);
      var f, p, r := Firsts(xs[..n - 2], opts.sepAuthorsFirst), xs[n - 2], xs[n - 1];
      var serial := if n > 2 && opts.authorSerialComma then "," else "";
      assert f + (p + (serial + opts.sepAuthorsLast) + r) == f + p + serial + opts.sepAuthorsLast + r;
    }
  }

  /**
   * As written, a last-kind separator holding a field `{name}` is format syntax:
   * two surnames raise `KeyError(name)`, where the literal list writes the
   * separator as it stands.
   */
  lemma BracedSeparatorFails(opts: BibOptions, x: string, y: string, a: string, name: string, b: string)
    requires BraceFree(a) && opts.sepAuthorsLast == a + "{" + name + "}" + b
    requires name != "" && '}' !in name && !AllDigits(name) && forall c :: c in name ==> !FieldSyntax(c)
    ensures FormatAuthorListAsWritten(opts, [x, y]) == Failure(FormatKeyError(name))
    ensures FormatAuthorList(opts, [x, y]) == x + opts.sepAuthorsLast + y
  {
    var xs := [x, y];
    var f := "{" + name + "}";
    var field := f + (b + "{}");
    assert opts.sepAuthorsLast == a + f + b;
    TwoNameTemplate(opts, a, f, b);
    FormatNamedField(name, b + "{}", xs, 1, Auto);
    FormatLiteral(a, field, xs, 1, Auto);
    FormatAutoField(a + field, xs, 0, Unset);
    FormatAuthorListJoin(opts, xs);
  }

  lemma TwoNameTemplate(opts: BibOptions, a: string, f: string, b: string)
    requires opts.sepAuthorsLast == a + f + b
    ensures AuthorTemplate(opts, 2) == "{}" + (a + (f + (b + "{}")))
  {
    assert Repeat("{}" + opts.sepAuthorsFirst, 0) == "";
    assert LastSeparator(opts, 2) == opts.sepAuthorsLast;
    var open := "{}";
    assert AuthorTemplate(opts, 2) == "" + (open + (a + f + b)) + open;
    assert "" + (open + (a + f + b)) == open + (a + f + b);
    ConcatAssoc(open, a + f + b, open);
    ConcatAssoc(a + f, b, open);
    ConcatAssoc(a, f, b + open);
  }

  /** `" {and} "` as the last-kind separator, with the surnames Foo and Bar. */
  lemma BracedAndFails()
    ensures var o := BibOptions(2, ", ", false, " {and} ", " et al.");
      FormatAuthorListAsWritten(o, ["Foo", "Bar"]) == Failure(FormatKeyError("and")) &&
      FormatAuthorList(o, ["Foo", "Bar"]) == "Foo {and} Bar"
  {
    var o := BibOptions(2, ", ", false, " {and} ", " et al.");
    var name := "and";
    assert !IsDigit(name[0]);
    assert forall c :: c in name ==> c == 'a' || c == 'n' || c == 'd';
    assert o.sepAuthorsLast == " " + "{" + name + "}" + " ";
    BracedSeparatorFails(o, "Foo", "Bar", " ", name, " ");
  }

  /** The two configurations of the author-list tests. */
  lemma AuthorListExamples()
    ensures var o := BibOptions(0, ", ", true, " and ", "NOTUSED");
      FormatAuthorList(o, ["Foo"]) == "Foo" &&
      FormatAuthorList(o, ["Foo", "Bar"]) == "Foo and Bar" &&
      FormatAuthorList(o, ["Foo", "Bar", "Baz"]) == "Foo, Bar, and Baz"
    ensures var o := BibOptions(0, ", ", false, " & ", "NOTUSED");
      FormatAuthorList(o, ["Foo"]) == "Foo" &&
      FormatAuthorList(o, ["Foo", "Bar"]) == "Foo & Bar" &&
      FormatAuthorList(o, ["Foo", "Bar", "Baz"]) == "Foo, Bar & Baz"
  {
    var xs := ["Foo", "Bar", "Baz"];
    assert xs[..1] == ["Foo"];
    assert Firsts(["Foo"], ", ") == "Foo, " by {
      assert ["Foo"][..0] == [];
    }
  }

  /** The written-out author: the first surname and "et al." when the list is too long. */
  function AuthorName(opts: BibOptions, surnames: seq<string>): string
    requires |surnames| >= 1
  {
    if |surnames| > opts.maxAuthors then surnames[0] + opts.etAl else FormatAuthorList(opts, surnames)
  }

  /** With the built-in settings: one or two authors written out, three or more truncated. */
  lemma DefaultAuthorNames(a: string, b: string, c: string, more: seq<string>)
    ensures AuthorName(Defaults().bib, [a]) == a
    ensures AuthorName(Defaults().bib, [a, b]) == a + " and " + b
    ensures AuthorName(Defaults().bib, [a, b, c] + more) == a + " et~al."
  {
  }

  /** A list with more names than allowed always truncates, whatever the other names are. */
  lemma EtAlKeepsFirst(opts: BibOptions, xs: seq<string>, ys: seq<string>)
    requires |xs| >= 1 && |ys| == |xs| && xs[0] == ys[0] && |xs| > opts.maxAuthors
    ensures AuthorName(opts, xs) == AuthorName(opts, ys) == xs[0] + opts.etAl
  {
  }

  // ---------------------------------------------------------------------------
  // Entries and their resolution
  // ---------------------------------------------------------------------------

  /**
   * The tokens of one matched entry: the author field split into authors and
   * written out, and the year field.  A missing author field fails first, then
   * a missing year field.
   */
  function EntryTokens(opts: BibOptions, key: string, e: Entry): (r: Result<AuthYear>)
    ensures r.Failure? <==> e.author.None? || e.year.None?
    ensures r.Failure? ==> r.error == (if e.author.None? then AuthorFieldMissing(key) else YearFieldMissing(key))
    ensures r.Success? ==> r.value.year == e.year.value
    ensures r.Success? ==> r.value.author == AuthorName(opts, Surnames(SplitAuthors(e.author.value)))
  {
    if e.author.None? then Failure(AuthorFieldMissing(key))
    else if e.year.None? then Failure(YearFieldMissing(key))
    else Success(AuthYear(AuthorName(opts, Surnames(SplitAuthors(e.author.value))), e.year.value))
  }

  /** The tokens from the bib file that was chosen for the key. */
  function BibEntryTokens(opts: BibOptions, bib: BibSource, key: string): Result<AuthYear> {
    if key !in bib.entries then Failure(EntryNotMatched(key)) else EntryTokens(opts, key, bib.entries[key])
  }

  /** The first bib file whose text holds `key`, in order. */
  function ResolveInBibs(opts: BibOptions, bibs: seq<BibSource>, key: string): (r: Result<AuthYear>)
    ensures r == Failure(KeyNotInBib(key)) <==> forall i :: 0 <= i < |bibs| ==> !Contains(bibs[i].contents, key)
    ensures forall i :: (0 <= i < |bibs| && Contains(bibs[i].contents, key) &&
      (forall j :: 0 <= j < i ==> !Contains(bibs[j].contents, key))) ==> r == BibEntryTokens(opts, bibs[i], key)
    decreases |bibs|
  {
    if bibs == [] then Failure(KeyNotInBib(key))
    else if !Contains(bibs[0].contents, key) then
      var r := ResolveInBibs(opts, bibs[1..], key);
      assert forall i :: 1 <= i < |bibs| ==> bibs[i] == bibs[1..][i - 1];
      r
    else BibEntryTokens(opts, bibs[0], key)
  }

  function BibLookup(opts: BibOptions, bibs: seq<BibSource>): string -> Result<AuthYear> {
    k => ResolveInBibs(opts, bibs, k)
  }

  /**
   * What the bib stage leaves for a revision: every key `("", "")` when no
   * command writes an author or a year, otherwise the resolved pairs of all keys,
   * disambiguated.
   */
  function BibAuthYear(cfg: Config, refkeys: seq<string>, bibs: seq<BibSource>): Result<map<string, AuthYear>> {
    if !UsesAuthorYear(cfg) then Success(map k | k in refkeys :: AuthYear("", ""))
    else
      match MapKeys(refkeys, BibLookup(cfg.bib, bibs))
      case Failure(e) => Failure(e)
      case Success(m) => Disambiguated(refkeys, m)
  }

  /** The search for one key over the bib files, stopping at the first file that contains it. */
  method ResolveKey(opts: BibOptions, bibs: seq<BibSource>, ref: string) returns (r: Result<AuthYear>)
    ensures r == ResolveInBibs(opts, bibs, ref)
  {
    var j := 0;
    while j < |bibs|
      invariant 0 <= j <= |bibs|
      invariant ResolveInBibs(opts, bibs, ref) == ResolveInBibs(opts, bibs[j..], ref)
    {
      var bib := bibs[j];
      if Contains(bib.contents, ref) {
        return BibEntryTokens(opts, bib, ref);
      }
      assert bibs[j..][1..] == bibs[j + 1..];
      j := j + 1;
    }
    return Failure(KeyNotInBib(ref));
  }

  /**
   * `make_author_year_tokens_from_bib`: the per-key loop filling the table,
   * failing at the first key that cannot be resolved, then the duplicate pass.
   */
  method AuthorYearFromBib(cfg: Config, refkeys: seq<string>, bibs: seq<BibSource>)
    returns (r: Result<map<string, AuthYear>>)
    ensures r == BibAuthYear(cfg, refkeys, bibs)
  {
    if !UsesAuthorYear(cfg) {
      return Success(map k | k in refkeys :: AuthYear("", ""));
    }
    var authyear: map<string, AuthYear> := map[];
    for i := 0 to |refkeys|
      invariant MapKeys(refkeys[..i], BibLookup(cfg.bib, bibs)) == Success(authyear)
    {
      assert refkeys[..i + 1][..i] == refkeys[..i];
      var found := ResolveKey(cfg.bib, bibs, refkeys[i]);
      if found.Failure? {
        MapKeysFailurePropagates(refkeys, BibLookup(cfg.bib, bibs), i + 1);
        return Failure(found.error);
      }
      authyear := authyear[refkeys[i] := found.value];
    }
    assert refkeys[..|refkeys|] == refkeys;
    r := CorrectDuplicateAuthors(refkeys, authyear);
  }

  /** In numeric mode every key maps to the empty pair and no bib file is consulted. */
  lemma NumericModeIgnoresBibs(cfg: Config, refkeys: seq<string>, bibs: seq<BibSource>, k: string)
    requires !UsesAuthorYear(cfg) && k in refkeys
    ensures BibAuthYear(cfg, refkeys, bibs).Success?
    ensures BibAuthYear(cfg, refkeys, bibs).value[k] == AuthYear("", "")
    ensures BibAuthYear(cfg, refkeys, bibs) == BibAuthYear(cfg, refkeys, [])
  {
  }

  /**
   * A key that no bib file mentions makes the whole stage fail; when every
   * earlier key resolves, the error names that key.
   */
  lemma MissingKeyFails(cfg: Config, refkeys: seq<string>, bibs: seq<BibSource>, i: nat)
    requires UsesAuthorYear(cfg) && i < |refkeys|
    requires forall b :: 0 <= b < |bibs| ==> !Contains(bibs[b].contents, refkeys[i])
    ensures BibAuthYear(cfg, refkeys, bibs).Failure?
    ensures (forall j :: 0 <= j < i ==> ResolveInBibs(cfg.bib, bibs, refkeys[j]).Success?) ==>
      BibAuthYear(cfg, refkeys, bibs) == Failure(KeyNotInBib(refkeys[i]))
  {
    var f := BibLookup(cfg.bib, bibs);
    assert f(refkeys[i]) == Failure(KeyNotInBib(refkeys[i]));
    var r := MapKeys(refkeys, f);
    if forall j :: 0 <= j < i ==> ResolveInBibs(cfg.bib, bibs, refkeys[j]).Success? {
      var k :| 0 <= k < |refkeys| && f(refkeys[k]) == Failure(r.error) &&
        forall j :: 0 <= j < k ==> f(refkeys[j]).Success?;
      assert k == i;
    }
  }

  /** On success, every key's author is the one its entry gave; its year may only gain letters. */
  lemma BibAuthorsKept(cfg: Config, refkeys: seq<string>, bibs: seq<BibSource>, k: string)
    requires UsesAuthorYear(cfg) && k in refkeys
    requires BibAuthYear(cfg, refkeys, bibs).Success?
    ensures ResolveInBibs(cfg.bib, bibs, k).Success?
    ensures var t := ResolveInBibs(cfg.bib, bibs, k).value;
      var u := BibAuthYear(cfg, refkeys, bibs).value[k];
      u.author == t.author && StartsWith(u.year, t.year)
  {
    var m := MapKeys(refkeys, BibLookup(cfg.bib, bibs)).value;
    assert m[k] == ResolveInBibs(cfg.bib, bibs, k).value;
    DisambiguatedExtendsYear(refkeys, m, k);
  }

  // ---------------------------------------------------------------------------
  // Bib file names
  // ---------------------------------------------------------------------------

  /** A `\bibliography` name: `.bib` is appended unless it is already there. */
  function BibFileName(name: string): (r: string)
    ensures EndsWith(r, ".bib")
    ensures EndsWith(name, ".bib") ==> r == name
    ensures !EndsWith(name, ".bib") ==> |r| == |name| + 4 && r[..|name|] == name
  {
    if EndsWith(name, ".bib") then name
    else
      var r := name + ".bib";
      assert r[|r| - 4..] == ".bib";
      r
  }

  /** Naming a file twice changes nothing. */
  lemma BibFileNameIdempotent(name: string)
    ensures BibFileName(BibFileName(name)) == BibFileName(name)
  {
  }

  /** The file names of a `\bibliography` argument, split on commas like the reference keys. */
  function BibFileNames(arg: string): (r: seq<string>)
    ensures |r| == |SplitKeys(arg)|
    ensures forall i :: 0 <= i < |r| ==> EndsWith(r[i], ".bib")
    ensures forall i :: 0 <= i < |r| ==>
      r[i] == if EndsWith(SplitKeys(arg)[i], ".bib") then SplitKeys(arg)[i] else SplitKeys(arg)[i] + ".bib"
  {
    var names := SplitKeys(arg);
    seq(|names|, i requires 0 <= i < |names| => BibFileName(names[i]))
  }
}
