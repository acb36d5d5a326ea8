/** The JavaScript array operations the application is built from, as
    functions over sequences: `filter`, `reduce` to a sum, `find`,
    `findIndex`, the store's upsert-by-id, and the `forEach` that turns a list
    of records into a key-to-value dictionary. */
module Collections {
  import opened Wrappers

  /* ---------------------------------------------------------------- filter */

  /** `xs.filter(p)`: the elements that satisfy `p`, in their original order. */
  function Filter<T>(xs: seq<T>, p: T -> bool): (r: seq<T>)
    ensures |r| <= |xs|
    ensures forall i :: 0 <= i < |r| ==> r[i] in xs && p(r[i])
    ensures forall x :: x in xs && p(x) ==> x in r
  {
    if xs == [] then []
    else if p(xs[0]) then [xs[0]] + Filter(xs[1..], p)
    else Filter(xs[1..], p)
  }

  /** A filtered list repeats no element more often than the list itself:
      nothing is added or duplicated. */
  lemma {:induction false} FilterSubMultiset<T>(xs: seq<T>, p: T -> bool)
    ensures multiset(Filter(xs, p)) <= multiset(xs)
  {
    if xs != [] {
      FilterSubMultiset(xs[1..], p);
      assert xs == [xs[0]] + xs[1..];
    }
  }

  function Not<T>(p: T -> bool): T -> bool {
    x => !p(x)
  }

  /** Filtering distributes over concatenation, so it keeps relative order. */
  lemma {:induction false} FilterConcat<T>(a: seq<T>, b: seq<T>, p: T -> bool)
    ensures Filter(a + b, p) == Filter(a, p) + Filter(b, p)
  {
    if a == [] {
      assert a + b == b;
    } else {
      assert (a + b)[0] == a[0];
      assert (a + b)[1..] == a[1..] + b;
      FilterConcat(a[1..], b, p);
    }
  }

  /** Every element is kept by exactly one of `p` and its negation. */
  lemma {:induction false} FilterComplementCount<T>(xs: seq<T>, p: T -> bool)
    ensures |Filter(xs, p)| + |Filter(xs, Not(p))| == |xs|
  {
    if xs != [] {
      FilterComplementCount(xs[1..], p);
    }
  }

  /** Two predicates that never hold together keep at most `|xs|` elements between them. */
  lemma {:induction false} FilterDisjointCount<T>(xs: seq<T>, p: T -> bool, q: T -> bool)
    requires forall x :: x in xs ==> !(p(x) && q(x))
    ensures |Filter(xs, p)| + |Filter(xs, q)| <= |xs|
  {
    if xs != [] {
      assert forall x :: x in xs[1..] ==> x in xs;
      FilterDisjointCount(xs[1..], p, q);
    }
  }

  /** A filter that every element passes changes nothing. */
  lemma {:induction false} FilterKeepsAll<T>(xs: seq<T>, p: T -> bool)
    requires forall x :: x in xs ==> p(x)
    ensures Filter(xs, p) == xs
  {
    if xs != [] {
      assert forall x :: x in xs[1..] ==> x in xs;
      FilterKeepsAll(xs[1..], p);
      assert [xs[0]] + xs[1..] == xs;
    }
  }

  /** Filters that agree on every element give the same result. */
  lemma {:induction false} FilterAgree<T>(xs: seq<T>, p: T -> bool, q: T -> bool)
    requires forall x :: x in xs ==> p(x) == q(x)
    ensures Filter(xs, p) == Filter(xs, q)
  {
    if xs != [] {
      assert forall x :: x in xs[1..] ==> x in xs;
      FilterAgree(xs[1..], p, q);
    }
  }

  /* ------------------------------------------------------------ reduce/sum */

  /** `xs.reduce((acc, x) => acc + f(x), 0)`. */
  function SumOf<T>(xs: seq<T>, f: T -> int): int {
    if xs == [] then 0 else f(xs[0]) + SumOf(xs[1..], f)
  }

  lemma {:induction false} SumOfConcat<T>(a: seq<T>, b: seq<T>, f: T -> int)
    ensures SumOf(a + b, f) == SumOf(a, f) + SumOf(b, f)
  {
    if a == [] {
      assert a + b == b;
    } else {
      assert (a + b)[0] == a[0];
      assert (a + b)[1..] == a[1..] + b;
      SumOfConcat(a[1..], b, f);
    }
  }

  /** Replacing one element changes the sum by the difference of the terms. */
  lemma {:induction false} SumOfUpdate<T>(xs: seq<T>, i: nat, x: T, f: T -> int)
    requires i < |xs|
    ensures SumOf(xs[i := x], f) == SumOf(xs, f) - f(xs[i]) + f(x)
  {
    assert xs == xs[..i] + [xs[i]] + xs[i + 1..];
    assert xs[i := x] == xs[..i] + [x] + xs[i + 1..];
    SumOfConcat(xs[..i] + [xs[i]], xs[i + 1..], f);
    SumOfConcat(xs[..i], [xs[i]], f);
    SumOfConcat(xs[..i] + [x], xs[i + 1..], f);
    SumOfConcat(xs[..i], [x], f);
  }

  /** Removing the head of `a` from a permutation `b` of it leaves a
      permutation of the tail. */
  lemma {:induction false} RemoveFromPermutation<T>(a: seq<T>, b: seq<T>) returns (i: nat)
    requires a != [] && multiset(a) == multiset(b)
    ensures i < |b| && b[i] == a[0]
    ensures b == b[..i] + [a[0]] + b[i + 1..]
    ensures multiset(a[1..]) == multiset(b[..i] + b[i + 1..])
  {
    var x := a[0];
    assert x in multiset(b);
    i :| 0 <= i < |b| && b[i] == x;
    assert b == b[..i] + [x] + b[i + 1..];
    assert a == [x] + a[1..];
    assert multiset(b) == multiset(b[..i]) + multiset{x} + multiset(b[i + 1..]);
    assert multiset(a) == multiset{x} + multiset(a[1..]);
    assert multiset(b[..i] + b[i + 1..]) == multiset(b[..i]) + multiset(b[i + 1..]);
    assert multiset(a[1..]) == multiset(a) - multiset{x};
    assert multiset(b[..i] + b[i + 1..]) == multiset(b) - multiset{x};
  }

  /** A sum does not depend on the order of its terms. */
  lemma {:induction false} SumOfPermutation<T>(a: seq<T>, b: seq<T>, f: T -> int)
    requires multiset(a) == multiset(b)
    ensures SumOf(a, f) == SumOf(b, f)
    decreases |a|
  {
    if a == [] {
      assert |b| == |multiset(b)| == 0;
    } else {
      var i := RemoveFromPermutation(a, b);
      var left, right := b[..i], b[i + 1..];
      SumOfPermutation(a[1..], left + right, f);
      SumOfConcat(left + [a[0]], right, f);
      SumOfConcat(left, [a[0]], f);
      SumOfConcat(left, right, f);
    }
  }

  /** Summing the elements a filter keeps and the ones it drops gives the whole sum. */
  lemma {:induction false} SumOfSplit<T>(xs: seq<T>, p: T -> bool, f: T -> int)
    ensures SumOf(xs, f) == SumOf(Filter(xs, p), f) + SumOf(Filter(xs, Not(p)), f)
  {
    if xs != [] {
      SumOfSplit(xs[1..], p, f);
    }
  }

  /** Filtering a permutation gives a permutation of the filtered list. */
  lemma {:induction false} FilterPermutation<T>(a: seq<T>, b: seq<T>, p: T -> bool)
    requires multiset(a) == multiset(b)
    ensures multiset(Filter(a, p)) == multiset(Filter(b, p))
    decreases |a|
  {
    if a == [] {
      assert |b| == |multiset(b)| == 0;
    } else {
      var i := RemoveFromPermutation(a, b);
      var left, right := b[..i], b[i + 1..];
      FilterPermutation(a[1..], left + right, p);
      FilterConcat(left + [a[0]], right, p);
      FilterConcat(left, [a[0]], p);
      FilterConcat(left, right, p);
    }
  }

  /* ------------------------------------------------------ find / findIndex */

  /** `xs.findIndex(p)`: the index of the first element satisfying `p`, or -1. */
  function FirstWhere<T>(xs: seq<T>, p: T -> bool): (i: int)
    ensures -1 <= i < |xs|
    ensures i == -1 <==> forall j :: 0 <= j < |xs| ==> !p(xs[j])
    ensures 0 <= i ==> p(xs[i]) && forall j :: 0 <= j < i ==> !p(xs[j])
  {
    if xs == [] then -1
    else if p(xs[0]) then 0
    else
      var k := FirstWhere(xs[1..], p);
      if k == -1 then -1 else k + 1
  }

  /** `xs.find(p)`: the first element satisfying `p`, if any. */
  function Find<T>(xs: seq<T>, p: T -> bool): (r: Option<T>)
    ensures r.None? <==> forall j :: 0 <= j < |xs| ==> !p(xs[j])
    ensures r.Some? ==> p(r.value) && r.value in xs
    ensures r.Some? ==> r.value == xs[FirstWhere(xs, p)]
  {
    var i := FirstWhere(xs, p);
    if i < 0 then None else Some(xs[i])
  }

  /** The loop behind `findIndex`. */
  method FindIndex<T>(xs: seq<T>, p: T -> bool) returns (i: int)
    ensures i == FirstWhere(xs, p)
  {
    i := 0;
    while i < |xs|
      invariant 0 <= i <= |xs|
      invariant forall j :: 0 <= j < i ==> !p(xs[j])
    {
      if p(xs[i]) {
        return;
      }
      i := i + 1;
    }
    i := -1;
  }

  /* ---------------------------------------------------------- upsert by id */

  /** The lookup `x => key(x) === id` that every save and delete uses. */
  function KeyIs<T>(key: T -> string, id: string): T -> bool {
    x => key(x) == id
  }

  function KeyIsNot<T>(key: T -> string, id: string): T -> bool {
    x => key(x) != id
  }

  ghost predicate HasKey<T>(xs: seq<T>, key: T -> string, id: string) {
    exists j :: 0 <= j < |xs| && key(xs[j]) == id
  }

  /** No two elements share a key. */
  ghost predicate UniqueKeys<T>(xs: seq<T>, key: T -> string) {
    forall i, j :: 0 <= i < j < |xs| ==> key(xs[i]) != key(xs[j])
  }

  /** A stricter filter keeps no more elements. */
  lemma {:induction false} FilterNested<T>(xs: seq<T>, p: T -> bool, q: T -> bool)
    requires forall x :: x in xs && q(x) ==> p(x)
    ensures |Filter(xs, q)| <= |Filter(xs, p)|
  {
    if xs != [] {
      FilterNested(xs[1..], p, q);
    }
  }

  /** Filtering keeps keys unique when the kept elements had unique keys. */
  lemma {:induction false} FilterKeepsUnique<T>(xs: seq<T>, p: T -> bool, key: T -> string)
    requires forall i, j :: 0 <= i < j < |xs| && p(xs[i]) && p(xs[j]) ==> key(xs[i]) != key(xs[j])
    ensures UniqueKeys(Filter(xs, p), key)
  {
    if xs != [] {
      FilterKeepsUnique(xs[1..], p, key);
      var rest := Filter(xs[1..], p);
      if p(xs[0]) {
        forall j | 0 <= j < |rest|
          ensures key(xs[0]) != key(rest[j])
        {
          var k :| 0 <= k < |xs[1..]| && xs[1..][k] == rest[j];
          assert xs[k + 1] == rest[j];
        }
        assert Filter(xs, p) == [xs[0]] + rest;
      }
    }
  }

  /** A save: replace the first element with the same key in place,
      otherwise append. */
  function Upsert<T>(xs: seq<T>, x: T, key: T -> string): (r: seq<T>)
    ensures x in r
    ensures |r| == if HasKey(xs, key, key(x)) then |xs| else |xs| + 1
    ensures forall j :: 0 <= j < |xs| && key(xs[j]) != key(x) ==> r[j] == xs[j]
    ensures forall j :: 0 <= j < |xs| && r[j] != xs[j] ==> j == FirstWhere(xs, KeyIs(key, key(x)))
    ensures HasKey(xs, key, key(x)) ==> r[FirstWhere(xs, KeyIs(key, key(x)))] == x
    ensures !HasKey(xs, key, key(x)) ==> r == xs + [x]
  {
    var i := FirstWhere(xs, KeyIs(key, key(x)));
    if i >= 0 then assert xs[i := x][i] == x; xs[i := x] else xs + [x]
  }

  /** Saving twice under the same key leaves what saving only the second
      would have left: re-entry overwrites, it never duplicates. */
  lemma {:induction false} UpsertOverwrites<T>(xs: seq<T>, x: T, y: T, key: T -> string)
    requires key(x) == key(y)
    ensures Upsert(Upsert(xs, x, key), y, key) == Upsert(xs, y, key)
  {
    var p := KeyIs(key, key(x));
    var i := FirstWhere(xs, p);
    var ys := Upsert(xs, x, key);
    if i >= 0 {
      assert ys == xs[i := x];
      assert p(ys[i]);
      assert forall j :: 0 <= j < i ==> ys[j] == xs[j] && !p(ys[j]);
      assert FirstWhere(ys, p) == i;
    } else {
      assert ys == xs + [x];
      assert p(ys[|xs|]);
      assert forall j :: 0 <= j < |xs| ==> ys[j] == xs[j] && !p(ys[j]);
      assert FirstWhere(ys, p) == |xs|;
    }
  }

  /** A save keeps keys unique, and afterwards the saved element is the only
      one with its key. */
  lemma {:induction false} UpsertKeepsUnique<T>(xs: seq<T>, x: T, key: T -> string)
    requires UniqueKeys(xs, key)
    ensures UniqueKeys(Upsert(xs, x, key), key)
    ensures forall j :: 0 <= j < |Upsert(xs, x, key)| && key(Upsert(xs, x, key)[j]) == key(x) ==> Upsert(xs, x, key)[j] == x
  {
    var i := FirstWhere(xs, KeyIs(key, key(x)));
    var r := Upsert(xs, x, key);
    if i >= 0 {
      assert r == xs[i := x];
      forall j | 0 <= j < |r| && key(r[j]) == key(x)
        ensures r[j] == x
      {
        assert j == i;
      }
    } else {
      assert r == xs + [x];
    }
  }

  /** An element survives a save unless the save replaces it by another
      element with its key. */
  lemma {:induction false} UpsertRetains<T>(xs: seq<T>, x: T, key: T -> string, y: T)
    requires y in xs
    requires key(y) != key(x) || y == x
    ensures y in Upsert(xs, x, key)
  {
    var j :| 0 <= j < |xs| && xs[j] == y;
    if key(y) != key(x) {
      assert Upsert(xs, x, key)[j] == y;
    }
  }

  /** A sequence of saves, in order. */
  function UpsertAll<T>(xs: seq<T>, rs: seq<T>, key: T -> string): seq<T>
    decreases |rs|
  {
    if rs == [] then xs else UpsertAll(Upsert(xs, rs[0], key), rs[1..], key)
  }

  /** Saving one more element after a sequence of saves. */
  lemma {:induction false} UpsertAllSnoc<T>(xs: seq<T>, rs: seq<T>, r: T, key: T -> string)
    ensures UpsertAll(xs, rs + [r], key) == Upsert(UpsertAll(xs, rs, key), r, key)
    decreases |rs|
  {
    if rs == [] {
      assert [r][1..] == [];
    } else {
      assert (rs + [r])[0] == rs[0];
      assert (rs + [r])[1..] == rs[1..] + [r];
      UpsertAllSnoc(Upsert(xs, rs[0], key), rs[1..], r, key);
    }
  }

  /** A save brings in no element other than the saved one. */
  lemma {:induction false} UpsertFrom<T>(xs: seq<T>, x: T, key: T -> string)
    ensures forall z :: z in Upsert(xs, x, key) ==> z in xs || z == x
  {
    var i := FirstWhere(xs, KeyIs(key, key(x)));
    if i >= 0 {
      forall z | z in xs[i := x]
        ensures z in xs || z == x
      {
        var j :| 0 <= j < |xs| && xs[i := x][j] == z;
        if j != i {
          assert xs[j] == z;
        }
      }
    }
  }

  /** After a sequence of saves every element was either there before or saved. */
  lemma {:induction false} UpsertAllFrom<T>(xs: seq<T>, rs: seq<T>, key: T -> string)
    ensures forall z :: z in UpsertAll(xs, rs, key) ==> z in xs || z in rs
    decreases |rs|
  {
    if rs != [] {
      UpsertFrom(xs, rs[0], key);
      UpsertAllFrom(Upsert(xs, rs[0], key), rs[1..], key);
      assert forall z :: z in rs[1..] ==> z in rs;
    }
  }

  /** Elements sharing a key are equal. */
  ghost predicate KeyDetermines<T>(rs: seq<T>, key: T -> string) {
    forall i, j :: 0 <= i < |rs| && 0 <= j < |rs| && key(rs[i]) == key(rs[j]) ==> rs[i] == rs[j]
  }

  /** An element that no later save can replace by a different element survives them all. */
  lemma {:induction false} UpsertAllRetains<T>(xs: seq<T>, rs: seq<T>, key: T -> string, y: T)
    requires y in xs
    requires forall z :: z in rs && key(z) == key(y) ==> z == y
    ensures y in UpsertAll(xs, rs, key)
    decreases |rs|
  {
    if rs != [] {
      UpsertRetains(xs, rs[0], key, y);
      assert forall z :: z in rs[1..] ==> z in rs;
      UpsertAllRetains(Upsert(xs, rs[0], key), rs[1..], key, y);
    }
  }

  /** When saved elements that share a key are equal, every saved element is
      present afterwards. */
  lemma {:induction false} UpsertAllContains<T>(xs: seq<T>, rs: seq<T>, key: T -> string)
    requires KeyDetermines(rs, key)
    ensures forall z :: z in rs ==> z in UpsertAll(xs, rs, key)
    decreases |rs|
  {
    if rs != [] {
      var ys := Upsert(xs, rs[0], key);
      assert KeyDetermines(rs[1..], key) by {
        forall i, j | 0 <= i < |rs[1..]| && 0 <= j < |rs[1..]| && key(rs[1..][i]) == key(rs[1..][j])
          ensures rs[1..][i] == rs[1..][j]
        {
          assert rs[1..][i] == rs[i + 1] && rs[1..][j] == rs[j + 1];
        }
      }
      UpsertAllContains(ys, rs[1..], key);
      assert forall z :: z in rs[1..] && key(z) == key(rs[0]) ==> z == rs[0];
      UpsertAllRetains(ys, rs[1..], key, rs[0]);
    }
  }

  lemma {:induction false} UpsertAllKeepsUnique<T>(xs: seq<T>, rs: seq<T>, key: T -> string)
    requires UniqueKeys(xs, key)
    ensures UniqueKeys(UpsertAll(xs, rs, key), key)
    decreases |rs|
  {
    if rs != [] {
      UpsertKeepsUnique(xs, rs[0], key);
      UpsertAllKeepsUnique(Upsert(xs, rs[0], key), rs[1..], key);
    }
  }

  /* --------------------------------------------- forEach into a dictionary */

  /** No element after position `i` belongs to the same person. */
  predicate LastOfPerson<T>(xs: seq<T>, person: T -> string, i: int)
    requires 0 <= i < |xs|
  {
    forall j :: i < j < |xs| ==> person(xs[j]) != person(xs[i])
  }

  /** `xs.forEach(x => m[person(x)] = value(x))` from an empty dictionary:
      every person present gets the value of their LAST element. */
  function LastByKey<T, V>(xs: seq<T>, person: T -> string, value: T -> V): (m: map<string, V>)
    ensures forall k :: k in m <==> exists i :: 0 <= i < |xs| && person(xs[i]) == k
    ensures forall i :: 0 <= i < |xs| && LastOfPerson(xs, person, i) ==>
      person(xs[i]) in m && m[person(xs[i])] == value(xs[i])
  {
    if xs == [] then map[]
    else
      var init := xs[..|xs| - 1];
      assert forall i :: 0 <= i < |init| ==> init[i] == xs[i];
      var m0 := LastByKey(init, person, value);
      LastByKeyStep(xs, person, value, m0);
      m0[person(xs[|xs| - 1]) := value(xs[|xs| - 1])]
  }

  /** One step of the `forEach`: the dictionary of all but the last element,
      updated with the last one, is the dictionary of the whole list. */
  lemma {:induction false} LastByKeyStep<T, V>(xs: seq<T>, person: T -> string, value: T -> V, m0: map<string, V>)
    requires xs != []
    requires forall k :: k in m0 <==> exists i :: 0 <= i < |xs| - 1 && person(xs[i]) == k
    requires forall i :: 0 <= i < |xs| - 1 && LastOfPerson(xs[..|xs| - 1], person, i) ==>
      person(xs[i]) in m0 && m0[person(xs[i])] == value(xs[i])
    ensures var m := m0[person(xs[|xs| - 1]) := value(xs[|xs| - 1])];
      && (forall k :: k in m <==> exists i :: 0 <= i < |xs| && person(xs[i]) == k)
      && (forall i :: 0 <= i < |xs| && LastOfPerson(xs, person, i) ==>
            person(xs[i]) in m && m[person(xs[i])] == value(xs[i]))
  {
    var n := |xs| - 1;
    var m := m0[person(xs[n]) := value(xs[n])];
    forall k
      ensures k in m <==> exists i :: 0 <= i < |xs| && person(xs[i]) == k
    {
      if k == person(xs[n]) {
        assert 0 <= n < |xs| && person(xs[n]) == k;
      } else if k in m0 {
        var i :| 0 <= i < n && person(xs[i]) == k;
        assert 0 <= i < |xs| && person(xs[i]) == k;
      }
    }
    forall i | 0 <= i < |xs| && LastOfPerson(xs, person, i)
      ensures person(xs[i]) in m && m[person(xs[i])] == value(xs[i])
    {
      if i < n {
        assert person(xs[n]) != person(xs[i]);
        assert LastOfPerson(xs[..n], person, i);
      }
    }
  }

  /** The `forEach` loop that builds the dictionary. */
  method IndexLast<T, V>(xs: seq<T>, person: T -> string, value: T -> V) returns (m: map<string, V>)
    ensures m == LastByKey(xs, person, value)
  {
    m := map[];
    var i := 0;
    while i < |xs|
      invariant 0 <= i <= |xs|
      invariant m == LastByKey(xs[..i], person, value)
    {
      assert xs[..i + 1][..i] == xs[..i];
      m := m[person(xs[i]) := value(xs[i])];
      i := i + 1;
    }
    assert xs[..|xs|] == xs;
  }

  /** Every person in the dictionary of the elements satisfying `p` is the
      person of such an element. */
  lemma {:induction false} LastByKeyFilterKeys<T, V>(xs: seq<T>, p: T -> bool, person: T -> string, value: T -> V)
    ensures forall k :: k in LastByKey(Filter(xs, p), person, value) ==>
      exists i :: 0 <= i < |xs| && p(xs[i]) && person(xs[i]) == k
  {
    var ys := Filter(xs, p);
    forall k | k in LastByKey(ys, person, value)
      ensures exists i :: 0 <= i < |xs| && p(xs[i]) && person(xs[i]) == k
    {
      var a :| 0 <= a < |ys| && person(ys[a]) == k;
      assert ys[a] in xs && p(ys[a]);
      var i :| 0 <= i < |xs| && xs[i] == ys[a];
    }
  }

  /** Where an element that satisfies `p` ends up in the filtered list. */
  lemma {:induction false} FilterPosition<T>(xs: seq<T>, p: T -> bool, i: nat) returns (a: nat)
    requires i < |xs| && p(xs[i])
    ensures a < |Filter(xs, p)| && Filter(xs, p)[a] == xs[i]
  {
    if i == 0 {
      a := 0;
    } else if p(xs[0]) {
      var b := FilterPosition(xs[1..], p, i - 1);
      a := b + 1;
    } else {
      a := FilterPosition(xs[1..], p, i - 1);
    }
  }

  /** With one element per person, every element's value is in the
      dictionary under its person. */
  lemma {:induction false} LastByKeyUnique<T, V>(ys: seq<T>, person: T -> string, value: T -> V, a: nat)
    requires UniqueKeys(ys, person) && a < |ys|
    ensures person(ys[a]) in LastByKey(ys, person, value)
    ensures LastByKey(ys, person, value)[person(ys[a])] == value(ys[a])
  {
    assert LastOfPerson(ys, person, a);
  }

  /** When the elements satisfying `p` have one element per person, each of
      them has its value in their dictionary. */
  lemma {:induction false} LastByKeyFilterValues<T, V>(xs: seq<T>, p: T -> bool, person: T -> string, value: T -> V)
    requires UniqueKeys(Filter(xs, p), person)
    ensures forall i :: 0 <= i < |xs| && p(xs[i]) ==>
      person(xs[i]) in LastByKey(Filter(xs, p), person, value)
      && LastByKey(Filter(xs, p), person, value)[person(xs[i])] == value(xs[i])
  {
    forall i | 0 <= i < |xs| && p(xs[i])
      ensures person(xs[i]) in LastByKey(Filter(xs, p), person, value)
      ensures LastByKey(Filter(xs, p), person, value)[person(xs[i])] == value(xs[i])
    {
      var a := FilterPosition(xs, p, i);
      LastByKeyUnique(Filter(xs, p), person, value, a);
    }
  }

  /** The dictionary of the elements satisfying `p`, when those have one
      element per person: exactly their persons, each with its value. */
  lemma {:induction false} LastByKeyFilter<T, V>(xs: seq<T>, p: T -> bool, person: T -> string, value: T -> V)
    requires UniqueKeys(Filter(xs, p), person)
    ensures var m := LastByKey(Filter(xs, p), person, value);
      && (forall k :: k in m <==> exists i :: 0 <= i < |xs| && p(xs[i]) && person(xs[i]) == k)
      && (forall i :: 0 <= i < |xs| && p(xs[i]) ==> person(xs[i]) in m && m[person(xs[i])] == value(xs[i]))
  {
    LastByKeyFilterKeys(xs, p, person, value);
    LastByKeyFilterValues(xs, p, person, value);
  }

  /** With one element per person, the dictionary has one entry per element. */
  lemma {:induction false} LastByKeyCount<T, V>(xs: seq<T>, person: T -> string, value: T -> V)
    requires UniqueKeys(xs, person)
    ensures |LastByKey(xs, person, value)| == |xs|
  {
    if xs != [] {
      var init := xs[..|xs| - 1];
      var last := xs[|xs| - 1];
      assert forall i :: 0 <= i < |init| ==> init[i] == xs[i];
      LastByKeyCount(init, person, value);
      assert person(last) !in LastByKey(init, person, value);
    }
  }
}
