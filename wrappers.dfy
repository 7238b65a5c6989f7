/** Option and Result, and the fatal errors the citation engine can raise. */
module Wrappers {

  datatype Option<+T> = None | Some(value: T)

  datatype Result<+R> = Success(value: R) | Failure(error: Error)

  /**
   * Every way a revision can fail.  The first three are the ValueErrors the source
   * raises on purpose; the others are crashes of the source (an IndexError,
   * AttributeError or KeyError) that the model reports as values instead.  The
   * last four are the failures of `str.format` on an author-list template.
   */
  datatype Error =
    | KeyNotInBbl(key: string)        // the key's text is absent from the bbl file
    | NoBblMatch(key: string)         // the bbl regex found no entry for the key
    | KeyNotInBib(key: string)        // no bib file contains the key's text
    | EntryNotMatched(key: string)    // the bib entry regex found nothing (IndexError)
    | AuthorFieldMissing(key: string) // the entry has no author field (AttributeError)
    | YearFieldMissing(key: string)   // the entry has no year field (AttributeError)
    | TooManyDuplicates               // a 27th equal author/year pair (IndexError)
    | UnknownCommand(command: string) // a citation command without a format (KeyError)
    | UnknownKey(key: string)         // a cited key the reference tables lack (KeyError)
    | FormatKeyError(name: string)    // a named field, for which no keyword is given (KeyError)
    | FormatIndexError(index: nat)    // a field past the last argument (IndexError)
    | FormatValueError                // a lone brace or mixed field numbering (ValueError)
    | UnmodelledField(field: string)  // a field with a conversion, spec, attribute or index

  /** No element occurs twice. */
  predicate Distinct<T(==)>(s: seq<T>) {
    forall i, j :: 0 <= i < j < |s| ==> s[i] != s[j]
  }

  /** `a` is `b` with some elements left out, the rest kept in order. */
  predicate IsSubsequence<T(==)>(a: seq<T>, b: seq<T>)
    decreases |b|
  {
    if b == [] then a == []
    else (a != [] && a[0] == b[0] && IsSubsequence(a[1..], b[1..])) || IsSubsequence(a, b[1..])
  }

  /**
   * A per-key loop that fills a dictionary and stops at the first key that fails:
   * the keys in order, each mapped to `f(key)`.
   */
  function MapKeys<V>(keys: seq<string>, f: string -> Result<V>): (r: Result<map<string, V>>)
    ensures r.Success? <==> forall i :: 0 <= i < |keys| ==> f(keys[i]).Success?
    ensures r.Success? ==> r.value.Keys == set k | k in keys
    ensures r.Success? ==> forall k :: k in keys ==> r.value[k] == f(k).value
    ensures r.Failure? ==>
      exists i :: 0 <= i < |keys| && f(keys[i]) == Failure(r.error) &&
        forall j :: 0 <= j < i ==> f(keys[j]).Success?
    decreases |keys|
  {
    if keys == [] then Success(map[])
    else
      var n := |keys| - 1;
      match MapKeys(keys[..n], f)
      case Failure(e) => Failure(e)
      case Success(m) =>
        match f(keys[n])
        case Failure(e) => Failure(e)
        case Success(v) => Success(m[keys[n] := v])
  }

  lemma MapKeysLastFailure<V>(ks: seq<string>, f: string -> Result<V>)
    requires ks != [] && MapKeys(ks[..|ks| - 1], f).Failure?
    ensures MapKeys(ks, f) == MapKeys(ks[..|ks| - 1], f)
  {
  }

  /** Once a prefix of the keys fails, the whole loop fails with that error. */
  lemma {:induction false} MapKeysFailurePropagates<V>(keys: seq<string>, f: string -> Result<V>, i: nat)
    requires i <= |keys| && MapKeys(keys[..i], f).Failure?
    ensures MapKeys(keys, f) == MapKeys(keys[..i], f)
    decreases |keys| - i
  {
    if i < |keys| {
      var ks := keys[..i + 1];
      PrefixStep(keys, i);
      MapKeysLastFailure(ks, f);
      MapKeysFailurePropagates(keys, f, i + 1);
    } else {
      PrefixAll(keys);
    }
  }

  lemma ConcatAssoc<T>(x: seq<T>, y: seq<T>, z: seq<T>)
    ensures (x + y) + z == x + (y + z)
  {
  }

  lemma PrefixAll<T>(s: seq<T>)
    ensures s[..|s|] == s
  {
  }

  lemma PrefixStep<T>(s: seq<T>, i: nat)
    requires i < |s|
    ensures s[..i + 1][..i] == s[..i]
  {
  }
}
