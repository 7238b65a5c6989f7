/**
 * Python's `str.format` with positional arguments only, the way
 * `format_authorlist` calls it: `{}` takes the next argument, `{n}` the n-th,
 * `{{` and `}}` stand for single braces, and a field holding a name is looked up
 * among the keyword arguments, of which there are none.
 */
module StrFormat {
  import opened Wrappers
  import opened Strings
  import opened Braces

  /** How the fields met so far were numbered: `{}` is automatic, `{0}` is manual. */
  datatype Numbering = Unset | Auto | Manual

  /** A character that starts a conversion, a format spec, an attribute, an index or a nested field. */
  predicate FieldSyntax(c: char) {
    c == '!' || c == ':' || c == '.' || c == '[' || c == '{'
  }

  /** The position of the first `}` in `s`, if there is one. */
  function CloseAt(s: string): (r: Option<nat>)
    ensures r.Some? ==> r.value < |s| && s[r.value] == '}' && '}' !in s[..r.value]
    ensures r.None? ==> '}' !in s
    decreases |s|
  {
    if s == "" then None
    else if s[0] == '}' then Some(0)
    else
      match CloseAt(s[1..])
      case None => None
      case Some(j) =>
        assert s[..j + 1] == [s[0]] + s[1..][..j];
        Some(j + 1)
  }

  /** `x` written in front of a formatted text; a failure stays a failure. */
  function Prepend(x: string, r: Result<string>): (q: Result<string>)
    ensures q.Success? <==> r.Success?
    ensures q.Failure? ==> q == r
    ensures q.Success? ==> q.value == x + r.value
  {
    if r.Success? then Success(x + r.value) else r
  }

  /**
   * The rest `t` of a template, formatted with `args`, when `next` is the index
   * the next `{}` takes and `mode` says how earlier fields were numbered.
   */
  function FormatFrom(t: string, args: seq<string>, next: nat, mode: Numbering): Result<string>
    decreases |t|
  {
    if t == "" then Success("")
    else if t[0] == '{' && |t| > 1 && t[1] == '{' then Prepend("{", FormatFrom(t[2..], args, next, mode))
    else if t[0] == '}' && |t| > 1 && t[1] == '}' then Prepend("}", FormatFrom(t[2..], args, next, mode))
    else if t[0] == '}' then Failure(FormatValueError)
    else if t[0] == '{' then
      match CloseAt(t[1..])
      case None => Failure(FormatValueError)
      case Some(j) =>
        var field := t[1..1 + j];
        var rest := t[2 + j..];
        if field == "" then
          if mode == Manual then Failure(FormatValueError)
          else if next >= |args| then Failure(FormatIndexError(next))
          else Prepend(args[next], FormatFrom(rest, args, next + 1, Auto))
        else if exists c :: c in field && FieldSyntax(c) then Failure(UnmodelledField(field))
        else if AllDigits(field) then
          var n := ParseNat(field);
          if mode == Auto then Failure(FormatValueError)
          else if n >= |args| then Failure(FormatIndexError(n))
          else Prepend(args[n], FormatFrom(rest, args, next, Manual))
        else Failure(FormatKeyError(field))
    else Prepend([t[0]], FormatFrom(t[1..], args, next, mode))
  }

  /** `template.format(*args)`. */
  function Format(template: string, args: seq<string>): Result<string> {
    FormatFrom(template, args, 0, Unset)
  }

  lemma PrependTwice(x: string, y: string, r: Result<string>)
    ensures Prepend(x, Prepend(y, r)) == Prepend(x + y, r)
  {
    if r.Success? {
      assert x + (y + r.value) == (x + y) + r.value;
    }
  }

  lemma PrependNothing(r: Result<string>)
    ensures Prepend("", r) == r
  {
    if r.Success? {
      assert "" + r.value == r.value;
    }
  }

  /** Text without braces is copied as it stands. */
  lemma {:induction false} FormatLiteral(x: string, t: string, args: seq<string>, next: nat, mode: Numbering)
    requires BraceFree(x)
    ensures FormatFrom(x + t, args, next, mode) == Prepend(x, FormatFrom(t, args, next, mode))
    decreases |x|
  {
    if x == [] {
      assert x + t == t;
      PrependNothing(FormatFrom(t, args, next, mode));
    } else {
      var s := x + t;
      assert s[0] == x[0] && x[0] in x;
      assert s[1..] == x[1..] + t;
      assert BraceFree(x[1..]) by {
        assert forall c :: c in x[1..] ==> c in x;
      }
      FormatLiteral(x[1..], t, args, next, mode);
      PrependTwice([x[0]], x[1..], FormatFrom(t, args, next, mode));
      assert [x[0]] + x[1..] == x;
    }
  }

  /** An automatically numbered field takes the next argument. */
  lemma FormatAutoField(t: string, args: seq<string>, next: nat, mode: Numbering)
    requires mode != Manual && next < |args|
    ensures FormatFrom("{}" + t, args, next, mode) == Prepend(args[next], FormatFrom(t, args, next + 1, Auto))
  {
    var s := "{}" + t;
    assert s[0] == '{' && s[1] == '}';
    assert CloseAt(s[1..]) == Some(0);
    assert s[1..1] == "" && s[2..] == t;
  }

  /** A field that holds a plain name, not a number, fails with that name. */
  lemma FormatNamedField(name: string, t: string, args: seq<string>, next: nat, mode: Numbering)
    requires name != "" && '}' !in name && !AllDigits(name)
    requires forall c :: c in name ==> !FieldSyntax(c)
    ensures FormatFrom("{" + name + "}" + t, args, next, mode) == Failure(FormatKeyError(name))
  {
    var s := "{" + name + "}" + t;
    var j := |name|;
    assert s[0] == '{' && s[1] == name[0] && name[0] in name;
    assert s[1..][..j] == name && s[1..][j] == '}';
    assert CloseAt(s[1..]) == Some(j);
    assert s[1..1 + j] == name;
  }
}
