/**
 * Duplicate disambiguation: keys whose (author, year) pairs are equal get the
 * letters `a`, `b`, `c`, ... appended to their years, in key order.
 */
module Duplicates {
  import opened Wrappers
  import opened Strings
  import opened Entities

  const Letters: string := "abcdefghijklmnopqrstuvwxyz"

  predicate AllResolved(refkeys: seq<string>, authyear: map<string, AuthYear>) {
    forall k :: k in refkeys ==> k in authyear
  }

  /** The keys, in order and with repetitions, whose pair is `t`. */
  function GroupOf(refkeys: seq<string>, authyear: map<string, AuthYear>, t: AuthYear): (g: seq<string>)
    requires AllResolved(refkeys, authyear)
    ensures forall k {:trigger k in g} :: k in g <==> k in refkeys && authyear[k] == t
    ensures |g| <= |refkeys|
    decreases |refkeys|
  {
    if refkeys == [] then []
    else
      var n := |refkeys| - 1;
      GroupOf(refkeys[..n], authyear, t) + (if authyear[refkeys[n]] == t then [refkeys[n]] else [])
  }

  /** The letters of the positions at which `k` occurs among the members. */
  function SuffixFor(members: seq<string>, k: string): string
    requires |members| <= |Letters|
    decreases |members|
  {
    if members == [] then ""
    else
      var n := |members| - 1;
      SuffixFor(members[..n], k) + (if members[n] == k then [Letters[n]] else "")
  }

  /** The pair of one key after disambiguation. */
  function Renamed(refkeys: seq<string>, authyear: map<string, AuthYear>, k: string): AuthYear
    requires AllResolved(refkeys, authyear) && k in authyear
  {
    var g := GroupOf(refkeys, authyear, authyear[k]);
    if 2 <= |g| <= |Letters| then AuthYear(authyear[k].author, authyear[k].year + SuffixFor(g, k))
    else authyear[k]
  }

  /** Some pair is shared by more keys than there are letters. */
  predicate TooManyShareAPair(refkeys: seq<string>, authyear: map<string, AuthYear>)
    requires AllResolved(refkeys, authyear)
  {
    exists k :: k in refkeys && |GroupOf(refkeys, authyear, authyear[k])| > |Letters|
  }

  /** What `correct_duplicate_authors` leaves in the table, or its failure. */
  function Disambiguated(refkeys: seq<string>, authyear: map<string, AuthYear>): Result<map<string, AuthYear>>
    requires AllResolved(refkeys, authyear)
  {
    if TooManyShareAPair(refkeys, authyear) then Failure(TooManyDuplicates)
    else Success(map k | k in authyear :: Renamed(refkeys, authyear, k))
  }

  lemma {:induction false} SuffixForAbsent(members: seq<string>, k: string)
    requires |members| <= |Letters| && k !in members
    ensures SuffixFor(members, k) == ""
    decreases |members|
  {
    if members != [] {
      var n := |members| - 1;
      assert members[n] in members;
      assert forall x :: x in members[..n] ==> x in members;
      SuffixForAbsent(members[..n], k);
    }
  }

  lemma GroupOfSnoc(refkeys: seq<string>, authyear: map<string, AuthYear>, i: nat, t: AuthYear)
    requires AllResolved(refkeys, authyear) && i < |refkeys|
    ensures AllResolved(refkeys[..i], authyear) && AllResolved(refkeys[..i + 1], authyear)
    ensures GroupOf(refkeys[..i + 1], authyear, t) ==
      GroupOf(refkeys[..i], authyear, t) + (if authyear[refkeys[i]] == t then [refkeys[i]] else [])
  {
    var p := refkeys[..i + 1];
    assert p[..i] == refkeys[..i];
  }

  lemma AllResolvedParts(a: seq<string>, b: seq<string>, authyear: map<string, AuthYear>)
    requires AllResolved(a + b, authyear)
    ensures AllResolved(a, authyear) && AllResolved(b, authyear)
  {
    assert forall k :: k in a ==> k in a + b;
    assert forall k :: k in b ==> k in a + b;
  }

  /**
   * A group is a filter of the key list: it works piece by piece, and keeps a
   * key with the pair, drops any other, so its members follow the key order.
   */
  lemma {:induction false} GroupOfFilter(a: seq<string>, b: seq<string>, authyear: map<string, AuthYear>,
                                         t: AuthYear, k: string)
    requires AllResolved(a + b, authyear) && k in authyear
    ensures AllResolved(a, authyear) && AllResolved(b, authyear)
    ensures GroupOf(a + b, authyear, t) == GroupOf(a, authyear, t) + GroupOf(b, authyear, t)
    ensures GroupOf([k], authyear, t) == if authyear[k] == t then [k] else []
  {
    AllResolvedParts(a, b, authyear);
    GroupOfAppend(a, b, authyear, t);
    GroupOfSingle(authyear, t, k);
  }

  /** The group over `a + b` is the group over `a` followed by the one over `b`. */
  lemma {:induction false} GroupOfAppend(a: seq<string>, b: seq<string>, authyear: map<string, AuthYear>,
                                         t: AuthYear)
    requires AllResolved(a + b, authyear) && AllResolved(a, authyear) && AllResolved(b, authyear)
    ensures GroupOf(a + b, authyear, t) == GroupOf(a, authyear, t) + GroupOf(b, authyear, t)
    decreases |b|
  {
    var s := a + b;
    if b == [] {
      assert s == a;
      assert GroupOf(a, authyear, t) + [] == GroupOf(a, authyear, t);
    } else {
      var n := |b| - 1;
      var b1 := b[..n];
      var x := b[n];
      var s1 := s[..|s| - 1];
      assert s1 == a + b1;
      assert s[|s| - 1] == x;
      GroupOfSnoc(b, authyear, n, t);
      GroupOfSnoc(s, authyear, |s| - 1, t);
      assert s[..|s|] == s && b[..n + 1] == b;
      GroupOfAppend(a, b1, authyear, t);
      var e := if authyear[x] == t then [x] else [];
      var ga, gb := GroupOf(a, authyear, t), GroupOf(b1, authyear, t);
      assert GroupOf(s1, authyear, t) == ga + gb;
      ConcatAssoc(ga, gb, e);
    }
  }

  lemma GroupOfSingle(authyear: map<string, AuthYear>, t: AuthYear, k: string)
    requires k in authyear
    ensures AllResolved([k], authyear)
    ensures GroupOf([k], authyear, t) == if authyear[k] == t then [k] else []
  {
    assert [k][..0] == [];
  }

  /** The pairs of the first `i` keys, each once, in the order in which they first appear. */
  function PairsUpTo(keys: seq<string>, authyear: map<string, AuthYear>, i: nat): seq<AuthYear>
    requires AllResolved(keys, authyear) && i <= |keys|
  {
    if i == 0 then []
    else
      var r0 := PairsUpTo(keys, authyear, i - 1);
      var t := authyear[keys[i - 1]];
      if t in r0 then r0 else r0 + [t]
  }

  /** The pairs of all the keys, each once, in the order in which they first appear. */
  function PairsInOrder(keys: seq<string>, authyear: map<string, AuthYear>): seq<AuthYear>
    requires AllResolved(keys, authyear)
  {
    PairsUpTo(keys, authyear, |keys|)
  }

  /** The order of pairs grows by the pair of key `i` when that pair has no group yet. */
  lemma OrderStep(refkeys: seq<string>, authyear: map<string, AuthYear>, i: nat,
                  order: seq<AuthYear>, occ: map<AuthYear, seq<string>>)
    requires AllResolved(refkeys, authyear) && i < |refkeys|
    requires AllResolved(refkeys[..i], authyear) && Grouped(refkeys[..i], authyear, order, occ)
    requires order == PairsUpTo(refkeys, authyear, i)
    ensures var t := authyear[refkeys[i]];
      PairsUpTo(refkeys, authyear, i + 1) == if t in occ then order else order + [t]
  {
    var t := authyear[refkeys[i]];
    assert t in occ <==> t in order;
  }

  /** Cutting the keys after the first `j` leaves the pairs of the first `i <= j` as they were. */
  lemma {:induction false} PairsUpToSlice(keys: seq<string>, authyear: map<string, AuthYear>, j: nat, i: nat)
    requires AllResolved(keys, authyear) && i <= j <= |keys|
    ensures AllResolved(keys[..j], authyear)
    ensures PairsUpTo(keys[..j], authyear, i) == PairsUpTo(keys, authyear, i)
    decreases i
  {
    assert forall k :: k in keys[..j] ==> k in keys;
    if i > 0 {
      PairsUpToSlice(keys, authyear, j, i - 1);
      assert keys[..j][i - 1] == keys[i - 1];
    }
  }

  /** Looking at more keys only adds pairs at the end. */
  lemma {:induction false} PairsUpToGrows(keys: seq<string>, authyear: map<string, AuthYear>, j: nat, i: nat)
    requires AllResolved(keys, authyear) && j <= i <= |keys|
    ensures PairsUpTo(keys, authyear, j) <= PairsUpTo(keys, authyear, i)
    decreases i
  {
    if j < i {
      PairsUpToGrows(keys, authyear, j, i - 1);
    }
  }

  /**
   * Pairs go in order of first appearance: the pairs met among the first `j`
   * keys come first.
   */
  lemma PairsInOrderPrefix(keys: seq<string>, authyear: map<string, AuthYear>, j: nat)
    requires AllResolved(keys, authyear) && j <= |keys|
    ensures AllResolved(keys[..j], authyear)
    ensures PairsInOrder(keys[..j], authyear) <= PairsInOrder(keys, authyear)
  {
    PairsUpToSlice(keys, authyear, j, j);
    PairsUpToGrows(keys, authyear, j, |keys|);
  }

  /** What the first loop knows once it has seen `keys`. */
  ghost predicate Grouped(keys: seq<string>, authyear: map<string, AuthYear>,
                    order: seq<AuthYear>, occ: map<AuthYear, seq<string>>)
    requires AllResolved(keys, authyear)
  {
    && (forall t :: t in occ <==> t in order)
    && Distinct(order)
    && (forall t :: t in occ ==> occ[t] == GroupOf(keys, authyear, t))
    && (forall t :: t !in occ ==> GroupOf(keys, authyear, t) == [])
  }

  /** A key whose pair is new starts a group of its own at the end of the order. */
  lemma GroupedNew(refkeys: seq<string>, authyear: map<string, AuthYear>, i: nat,
                   order: seq<AuthYear>, occ: map<AuthYear, seq<string>>)
    requires AllResolved(refkeys, authyear) && i < |refkeys|
    requires AllResolved(refkeys[..i], authyear) && Grouped(refkeys[..i], authyear, order, occ)
    requires authyear[refkeys[i]] !in occ
    ensures AllResolved(refkeys[..i + 1], authyear)
    ensures var t := authyear[refkeys[i]];
      Grouped(refkeys[..i + 1], authyear, order + [t], occ[t := [refkeys[i]]])
  {
    var t := authyear[refkeys[i]];
    forall u ensures GroupOf(refkeys[..i + 1], authyear, u) ==
      GroupOf(refkeys[..i], authyear, u) + (if t == u then [refkeys[i]] else [])
    {
      GroupOfSnoc(refkeys, authyear, i, u);
    }
    assert GroupOf(refkeys[..i], authyear, t) == [];
  }

  /** A key whose pair has been seen joins the end of that group. */
  lemma GroupedOld(refkeys: seq<string>, authyear: map<string, AuthYear>, i: nat,
                   order: seq<AuthYear>, occ: map<AuthYear, seq<string>>)
    requires AllResolved(refkeys, authyear) && i < |refkeys|
    requires AllResolved(refkeys[..i], authyear) && Grouped(refkeys[..i], authyear, order, occ)
    requires authyear[refkeys[i]] in occ
    ensures AllResolved(refkeys[..i + 1], authyear)
    ensures var t := authyear[refkeys[i]];
      Grouped(refkeys[..i + 1], authyear, order, occ[t := occ[t] + [refkeys[i]]])
  {
    var t := authyear[refkeys[i]];
    forall u ensures GroupOf(refkeys[..i + 1], authyear, u) ==
      GroupOf(refkeys[..i], authyear, u) + (if t == u then [refkeys[i]] else [])
    {
      GroupOfSnoc(refkeys, authyear, i, u);
    }
  }

  /** The first loop: the groups of all keys, and their pairs in order of first appearance. */
  method GroupByPair(refkeys: seq<string>, authyear: map<string, AuthYear>)
    returns (order: seq<AuthYear>, occ: map<AuthYear, seq<string>>)
    requires AllResolved(refkeys, authyear)
    ensures order == PairsInOrder(refkeys, authyear)
    ensures Grouped(refkeys, authyear, order, occ)
  {
    order := [];
    occ := map[];
    assert refkeys[..0] == [];
    for i := 0 to |refkeys|
      invariant AllResolved(refkeys[..i], authyear)
      invariant Grouped(refkeys[..i], authyear, order, occ)
      invariant order == PairsUpTo(refkeys, authyear, i)
    {
      var t := authyear[refkeys[i]];
      OrderStep(refkeys, authyear, i, order, occ);
      if t !in occ {
        GroupedNew(refkeys, authyear, i, order, occ);
        occ := occ[t := [refkeys[i]]];
        order := order + [t];
      } else {
        GroupedOld(refkeys, authyear, i, order, occ);
        occ := occ[t := occ[t] + [refkeys[i]]];
      }
    }
    assert refkeys[..|refkeys|] == refkeys;
  }

  /**
   * The inner loop for one group: the i-th member's year, as it stands, gets the
   * i-th letter; more members than letters is a failure.
   */
  method AppendLetters(m: map<string, AuthYear>, members: seq<string>) returns (r: Result<map<string, AuthYear>>)
    requires forall k :: k in members ==> k in m
    ensures r.Failure? <==> |members| > |Letters|
    ensures r.Failure? ==> r.error == TooManyDuplicates
    ensures r.Success? ==> r.value.Keys == m.Keys
    ensures r.Success? ==> forall k :: k in m ==> r.value[k] == AuthYear(m[k].author, m[k].year + SuffixFor(members, k))
  {
    var cur := m;
    for j := 0 to |members|
      invariant j <= |Letters|
      invariant cur.Keys == m.Keys
      invariant forall k :: k in m ==> cur[k] == AuthYear(m[k].author, m[k].year + SuffixFor(members[..j], k))
    {
      if j >= |Letters| {
        return Failure(TooManyDuplicates);
      }
      var refkey := members[j];
      assert members[..j + 1][..j] == members[..j];
      var tup := cur[refkey];
      cur := cur[refkey := AuthYear(tup.author, tup.year + [Letters[j]])];
    }
    assert members[..|members|] == members;
    return Success(cur);
  }

  /** One group's letters, read against the definition of the disambiguated pair. */
  lemma GroupStep(refkeys: seq<string>, authyear: map<string, AuthYear>, t: AuthYear, g: seq<string>,
                  before: map<string, AuthYear>, after: map<string, AuthYear>, done: set<AuthYear>)
    requires AllResolved(refkeys, authyear) && t !in done
    requires g == GroupOf(refkeys, authyear, t) && |g| <= |Letters|
    requires before.Keys == authyear.Keys && after.Keys == authyear.Keys
    requires forall k :: k in authyear ==>
      before[k] == if authyear[k] in done then Renamed(refkeys, authyear, k) else authyear[k]
    requires |g| > 1 ==>
      forall k :: k in authyear ==> after[k] == AuthYear(before[k].author, before[k].year + SuffixFor(g, k))
    requires |g| <= 1 ==> after == before
    ensures forall k :: k in authyear ==>
      after[k] == if authyear[k] in done + {t} then Renamed(refkeys, authyear, k) else authyear[k]
  {
    forall k | k in authyear
      ensures after[k] == if authyear[k] in done + {t} then Renamed(refkeys, authyear, k) else authyear[k]
    {
      if authyear[k] != t && |g| > 1 {
        SuffixForAbsent(g, k);
      }
    }
  }

  /**
   * `correct_duplicate_authors`: group the keys by their pair, then, group by
   * group, give every group of two or more its letters.
   */
  method CorrectDuplicateAuthors(refkeys: seq<string>, authyear: map<string, AuthYear>)
    returns (r: Result<map<string, AuthYear>>)
    requires AllResolved(refkeys, authyear)
    ensures r == Disambiguated(refkeys, authyear)
  {
    var order, occ := GroupByPair(refkeys, authyear);
    r := LetterGroups(refkeys, authyear, order, occ);
  }

  /** The second loop: the groups' letters, one group at a time in the given order. */
  method LetterGroups(refkeys: seq<string>, authyear: map<string, AuthYear>,
                      order: seq<AuthYear>, occ: map<AuthYear, seq<string>>)
    returns (r: Result<map<string, AuthYear>>)
    requires AllResolved(refkeys, authyear)
    requires forall t :: t in occ <==> t in order
    requires Distinct(order)
    requires forall t :: t in occ ==> occ[t] == GroupOf(refkeys, authyear, t)
    requires forall t :: t !in occ ==> GroupOf(refkeys, authyear, t) == []
    ensures r == Disambiguated(refkeys, authyear)
  {
    var m := authyear;
    ghost var done: set<AuthYear> := {};
    for o := 0 to |order|
      invariant m.Keys == authyear.Keys
      invariant forall t :: t in done <==> t in order[..o]
      invariant forall k :: k in authyear ==>
        m[k] == if authyear[k] in done then Renamed(refkeys, authyear, k) else authyear[k]
      invariant forall t :: t in done ==> |occ[t]| <= |Letters|
    {
      var t := order[o];
      var members := occ[t];
      assert order[..o + 1] == order[..o] + [t];
      assert t !in done;
      var next := m;
      if |members| > 1 {
        var step := AppendLetters(m, members);
        if step.Failure? {
          assert members[0] in members;
          assert TooManyShareAPair(refkeys, authyear);
          return Failure(TooManyDuplicates);
        }
        next := step.value;
      }
      GroupStep(refkeys, authyear, t, members, m, next, done);
      m := next;
      done := done + {t};
    }
    assert order[..|order|] == order;
    assert !TooManyShareAPair(refkeys, authyear) by {
      forall k | k in refkeys ensures |GroupOf(refkeys, authyear, authyear[k])| <= |Letters| {
        assert k in GroupOf(refkeys, authyear, authyear[k]);
        assert authyear[k] in occ;
      }
    }
    assert forall t :: t in occ ==> t in done;
    AllGroupsDone(refkeys, authyear, occ, done, m);
    return Success(m);
  }

  /** Once every group has had its letters, the table is the disambiguated one. */
  lemma AllGroupsDone(refkeys: seq<string>, authyear: map<string, AuthYear>, occ: map<AuthYear, seq<string>>,
                      done: set<AuthYear>, m: map<string, AuthYear>)
    requires AllResolved(refkeys, authyear)
    requires forall t :: t !in occ ==> GroupOf(refkeys, authyear, t) == []
    requires forall t :: t in occ ==> t in done
    requires m.Keys == authyear.Keys
    requires forall k :: k in authyear ==>
      m[k] == if authyear[k] in done then Renamed(refkeys, authyear, k) else authyear[k]
    ensures m == map k | k in authyear :: Renamed(refkeys, authyear, k)
  {
    forall k | k in authyear ensures m[k] == Renamed(refkeys, authyear, k) {
      if authyear[k] !in occ {
        assert GroupOf(refkeys, authyear, authyear[k]) == [];
      }
    }
  }

  /** A disambiguated year is the old year with letters appended; the author is untouched. */
  lemma DisambiguatedExtendsYear(refkeys: seq<string>, authyear: map<string, AuthYear>, k: string)
    requires AllResolved(refkeys, authyear) && k in authyear && Disambiguated(refkeys, authyear).Success?
    ensures k in Disambiguated(refkeys, authyear).value
    ensures var u := Disambiguated(refkeys, authyear).value[k];
      u.author == authyear[k].author && StartsWith(u.year, authyear[k].year)
  {
    var u := Renamed(refkeys, authyear, k);
    assert Disambiguated(refkeys, authyear).value[k] == u;
    assert u.year[..|authyear[k].year|] == authyear[k].year;
  }

  /** Disambiguation never touches an author string, and keeps the table's keys. */
  lemma DisambiguatedKeepsAuthors(refkeys: seq<string>, authyear: map<string, AuthYear>)
    requires AllResolved(refkeys, authyear)
    ensures var r := Disambiguated(refkeys, authyear);
      r.Success? ==> (r.value.Keys == authyear.Keys &&
        forall k :: k in authyear ==> r.value[k].author == authyear[k].author)
  {
  }

  /** A key whose pair no other cited key shares keeps its year. */
  lemma SingletonUntouched(refkeys: seq<string>, authyear: map<string, AuthYear>, k: string)
    requires AllResolved(refkeys, authyear) && k in authyear
    requires |GroupOf(refkeys, authyear, authyear[k])| <= 1
    requires Disambiguated(refkeys, authyear).Success?
    ensures Disambiguated(refkeys, authyear).value[k] == authyear[k]
  {
  }

  lemma {:induction false} GroupOfDistinct(refkeys: seq<string>, authyear: map<string, AuthYear>, t: AuthYear)
    requires AllResolved(refkeys, authyear) && Distinct(refkeys)
    ensures Distinct(GroupOf(refkeys, authyear, t))
    decreases |refkeys|
  {
    if refkeys != [] {
      var n := |refkeys| - 1;
      assert Distinct(refkeys[..n]);
      GroupOfDistinct(refkeys[..n], authyear, t);
      assert refkeys[n] !in refkeys[..n];
      assert refkeys[n] !in GroupOf(refkeys[..n], authyear, t);
    }
  }

  /** In a group without repetitions, the i-th member's suffix is the i-th letter. */
  lemma {:induction false} SuffixOfPosition(g: seq<string>, i: nat)
    requires Distinct(g) && i < |g| <= |Letters|
    ensures SuffixFor(g, g[i]) == [Letters[i]]
    decreases |g|
  {
    var n := |g| - 1;
    assert Distinct(g[..n]);
    if i == n {
      assert g[n] !in g[..n];
      SuffixForAbsent(g[..n], g[n]);
    } else {
      assert g[..n][i] == g[i];
      SuffixOfPosition(g[..n], i);
    }
  }

  /**
   * With each key cited once, the i-th member of a group of two or more gets the
   * i-th letter of the alphabet appended to its year.
   */
  lemma LetterOfMember(refkeys: seq<string>, authyear: map<string, AuthYear>, t: AuthYear, i: nat)
    requires AllResolved(refkeys, authyear) && Distinct(refkeys)
    requires var g := GroupOf(refkeys, authyear, t); 2 <= |g| && i < |g|
    requires Disambiguated(refkeys, authyear).Success?
    ensures var g := GroupOf(refkeys, authyear, t);
      g[i] in refkeys && |g| <= |Letters| &&
      Disambiguated(refkeys, authyear).value[g[i]] == AuthYear(t.author, t.year + [Letters[i]])
  {
    var g := GroupOf(refkeys, authyear, t);
    assert g[i] in g;
    assert |GroupOf(refkeys, authyear, authyear[g[i]])| <= |Letters|;
    GroupOfDistinct(refkeys, authyear, t);
    SuffixOfPosition(g, i);
  }

  /**
   * With each key cited once, letters go in order of citation: the key at
   * position `j` of a group of two or more gets the letter whose index is the
   * number of earlier keys with the same pair.
   */
  lemma LetterOfPosition(refkeys: seq<string>, authyear: map<string, AuthYear>, j: nat)
    requires AllResolved(refkeys, authyear) && Distinct(refkeys) && j < |refkeys|
    requires |GroupOf(refkeys, authyear, authyear[refkeys[j]])| >= 2
    requires Disambiguated(refkeys, authyear).Success?
    ensures AllResolved(refkeys[..j], authyear)
    ensures var t := authyear[refkeys[j]]; var i := |GroupOf(refkeys[..j], authyear, t)|;
      i < |Letters| && Disambiguated(refkeys, authyear).value[refkeys[j]] == AuthYear(t.author, t.year + [Letters[i]])
  {
    var t := authyear[refkeys[j]];
    PositionInGroup(refkeys, authyear, j);
    LetterOfMember(refkeys, authyear, t, |GroupOf(refkeys[..j], authyear, t)|);
  }

  /** The key at position `j` sits in its group after the earlier keys with its pair. */
  lemma PositionInGroup(refkeys: seq<string>, authyear: map<string, AuthYear>, j: nat)
    requires AllResolved(refkeys, authyear) && j < |refkeys|
    ensures AllResolved(refkeys[..j], authyear)
    ensures var t := authyear[refkeys[j]]; var i := |GroupOf(refkeys[..j], authyear, t)|;
      i < |GroupOf(refkeys, authyear, t)| && GroupOf(refkeys, authyear, t)[i] == refkeys[j]
  {
    var k := refkeys[j];
    var t := authyear[k];
    var before, from, after := refkeys[..j], refkeys[j..], refkeys[j + 1..];
    assert before + from == refkeys && [k] + after == from;
    GroupOfFilter(before, from, authyear, t, k);
    GroupOfFilter([k], after, authyear, t, k);
    var g1, g2 := GroupOf(before, authyear, t), GroupOf(after, authyear, t);
    assert GroupOf(refkeys, authyear, t) == g1 + ([k] + g2);
    assert (g1 + ([k] + g2))[|g1|] == k;
  }

  /** A group of more keys than letters makes disambiguation fail, whatever the other groups. */
  lemma TooLargeGroupFails(refkeys: seq<string>, authyear: map<string, AuthYear>, t: AuthYear)
    requires AllResolved(refkeys, authyear)
    requires |GroupOf(refkeys, authyear, t)| > |Letters|
    ensures Disambiguated(refkeys, authyear) == Failure(TooManyDuplicates)
  {
    var g := GroupOf(refkeys, authyear, t);
    assert g[0] in g;
  }

  lemma LettersDistinct(i: nat, j: nat)
    requires i < |Letters| && j < |Letters| && i != j
    ensures Letters[i] != Letters[j]
  {
    assert forall n :: 0 <= n < |Letters| ==> Letters[n] as int == 'a' as int + n;
  }

  /** Years with a letter appended differ unless the pairs and the letters agree. */
  lemma LetteredPairsDiffer(t1: AuthYear, t2: AuthYear, c1: char, c2: char)
    requires t1 != t2 || c1 != c2
    ensures AuthYear(t1.author, t1.year + [c1]) != AuthYear(t2.author, t2.year + [c2])
  {
    var y1, y2 := t1.year + [c1], t2.year + [c2];
    if y1 == y2 {
      assert y1[..|y1| - 1] == t1.year && y2[..|y2| - 1] == t2.year;
      assert y1[|y1| - 1] == c1 && y2[|y2| - 1] == c2;
    }
  }

  /** A year of digits never equals a year ending in a letter. */
  lemma DigitsNotLettered(t1: AuthYear, t2: AuthYear, i: nat)
    requires i < |Letters| && AllDigits(t2.year)
    ensures AuthYear(t1.author, t1.year + [Letters[i]]) != t2
  {
    var y1 := t1.year + [Letters[i]];
    assert forall n :: 0 <= n < |Letters| ==> !IsDigit(Letters[n]);
    assert !IsDigit(y1[|y1| - 1]);
  }

  /**
   * With each key cited once and every year a string of digits, disambiguation
   * leaves no two cited keys with the same (author, year) pair.
   */
  lemma DisambiguatedPairsUnique(refkeys: seq<string>, authyear: map<string, AuthYear>, k1: string, k2: string)
    requires AllResolved(refkeys, authyear) && Distinct(refkeys)
    requires forall k :: k in authyear ==> AllDigits(authyear[k].year)
    requires k1 in refkeys && k2 in refkeys && k1 != k2
    requires Disambiguated(refkeys, authyear).Success?
    ensures Disambiguated(refkeys, authyear).value[k1] != Disambiguated(refkeys, authyear).value[k2]
  {
    var r := Disambiguated(refkeys, authyear).value;
    var t1, t2 := authyear[k1], authyear[k2];
    var g1, g2 := GroupOf(refkeys, authyear, t1), GroupOf(refkeys, authyear, t2);
    assert k1 in g1 && k2 in g2;
    var i1 :| 0 <= i1 < |g1| && g1[i1] == k1;
    var i2 :| 0 <= i2 < |g2| && g2[i2] == k2;
    if |g1| >= 2 && |g2| >= 2 {
      LetterOfMember(refkeys, authyear, t1, i1);
      LetterOfMember(refkeys, authyear, t2, i2);
      if t1 == t2 {
        assert i1 != i2;
        LettersDistinct(i1, i2);
      }
      LetteredPairsDiffer(t1, t2, Letters[i1], Letters[i2]);
    } else if |g1| >= 2 {
      LetterOfMember(refkeys, authyear, t1, i1);
      DigitsNotLettered(t1, t2, i1);
    } else if |g2| >= 2 {
      LetterOfMember(refkeys, authyear, t2, i2);
      DigitsNotLettered(t2, t1, i2);
    }
  }
}
