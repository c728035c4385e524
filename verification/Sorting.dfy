/** Sorting by a total order, as the studies use it: to put keys, rankings and names into a canonical order. */
module Sorting {

  /** `le` is a total order on the values in `els`. */
  ghost predicate TotalOrderOn<T>(els: set<T>, le: (T, T) -> bool) {
    && (forall x, y :: x in els && y in els ==> le(x, y) || le(y, x))
    && (forall x, y :: x in els && y in els && le(x, y) && le(y, x) ==> x == y)
    && (forall x, y, z :: x in els && y in els && z in els && le(x, y) && le(y, z) ==> le(x, z))
  }

  ghost predicate Sorted<T>(s: seq<T>, le: (T, T) -> bool) {
    forall i, j :: 0 <= i < j < |s| ==> le(s[i], s[j])
  }

  ghost function Elements<T>(s: seq<T>): set<T> { set x | x in s }

  function Insert<T>(x: T, s: seq<T>, le: (T, T) -> bool): seq<T> {
    if s == [] then [x]
    else if le(x, s[0]) then [x] + s
    else [s[0]] + Insert(x, s[1..], le)
  }

  function Sort<T>(s: seq<T>, le: (T, T) -> bool): seq<T> {
    if s == [] then [] else Insert(s[0], Sort(s[1..], le), le)
  }

  lemma {:induction false} InsertPermutes<T>(x: T, s: seq<T>, le: (T, T) -> bool)
    ensures multiset(Insert(x, s, le)) == multiset{x} + multiset(s)
  {
    if s != [] && !le(x, s[0]) {
      InsertPermutes(x, s[1..], le);
      assert s == [s[0]] + s[1..];
    }
  }

  lemma {:induction false} SortPermutes<T>(s: seq<T>, le: (T, T) -> bool)
    ensures multiset(Sort(s, le)) == multiset(s)
  {
    if s != [] {
      SortPermutes(s[1..], le);
      InsertPermutes(s[0], Sort(s[1..], le), le);
      assert s == [s[0]] + s[1..];
    }
  }

  lemma {:induction false} PermutationSameElements<T>(a: seq<T>, b: seq<T>)
    requires multiset(a) == multiset(b)
    ensures |a| == |b|
    ensures Elements(a) == Elements(b)
    ensures forall x :: x in a <==> x in b
  {
    assert |a| == |multiset(a)| && |b| == |multiset(b)|;
    forall x
      ensures x in a <==> x in b
    {
      assert x in a <==> x in multiset(a);
      assert x in b <==> x in multiset(b);
    }
  }

  lemma {:induction false} InsertSorts<T>(x: T, s: seq<T>, le: (T, T) -> bool)
    requires Sorted(s, le) && TotalOrderOn(Elements([x] + s), le)
    ensures Sorted(Insert(x, s, le), le)
  {
    assert forall y :: y in s ==> y in Elements([x] + s);
    assert x in Elements([x] + s);
    if s != [] && !le(x, s[0]) {
      assert s[0] in s;
      assert Elements([x] + s[1..]) <= Elements([x] + s);
      InsertSorts(x, s[1..], le);
      InsertPermutes(x, s[1..], le);
      PermutationSameElements(Insert(x, s[1..], le), [x] + s[1..]);
      HeadFirst(s[0], Insert(x, s[1..], le), le);
    } else if s != [] {
      HeadFirst(x, s, le);
    }
  }

  lemma {:induction false} HeadFirst<T>(x: T, s: seq<T>, le: (T, T) -> bool)
    requires Sorted(s, le)
    requires (forall y :: y in s ==> le(x, y))
          || (s != [] && le(x, s[0]) && TotalOrderOn(Elements([x] + s), le))
    ensures Sorted([x] + s, le)
  {
    if s != [] && le(x, s[0]) && TotalOrderOn(Elements([x] + s), le) {
      assert x in Elements([x] + s);
      forall k | 0 <= k < |s|
        ensures le(x, s[k])
      {
        assert s[0] in Elements([x] + s) && s[k] in Elements([x] + s);
      }
    }
    var t := [x] + s;
    forall i, j | 0 <= i < j < |t|
      ensures le(t[i], t[j])
    {
      assert t[j] == s[j - 1];
      if i > 0 {
        assert t[i] == s[i - 1];
      }
    }
  }

  lemma {:induction false} SortSorts<T>(s: seq<T>, le: (T, T) -> bool)
    requires TotalOrderOn(Elements(s), le)
    ensures Sorted(Sort(s, le), le)
  {
    if s != [] {
      assert Elements(s[1..]) <= Elements(s);
      SortSorts(s[1..], le);
      SortPermutes(s[1..], le);
      PermutationSameElements(Sort(s[1..], le), s[1..]);
      assert Elements([s[0]] + Sort(s[1..], le)) <= Elements(s);
      InsertSorts(s[0], Sort(s[1..], le), le);
    }
  }

  /** Two sorted arrangements of the same values are the same sequence. */
  lemma {:induction false} SortedUnique<T>(a: seq<T>, b: seq<T>, le: (T, T) -> bool)
    requires multiset(a) == multiset(b) && Sorted(a, le) && Sorted(b, le)
    requires TotalOrderOn(Elements(a), le)
    ensures a == b
  {
    PermutationSameElements(a, b);
    if a != [] {
      SameFirst(a, b, le);
      TailMultiset(a);
      TailMultiset(b);
      OrderOnSubset(Elements(a[1..]), Elements(a), le);
      SortedUnique(a[1..], b[1..], le);
      assert a == [a[0]] + a[1..] && b == [b[0]] + b[1..];
    }
  }

  lemma {:induction false} OrderOnSubset<T>(small: set<T>, big: set<T>, le: (T, T) -> bool)
    requires small <= big && TotalOrderOn(big, le)
    ensures TotalOrderOn(small, le)
  {
  }

  lemma {:induction false} TailMultiset<T>(s: seq<T>)
    requires s != []
    ensures multiset(s[1..]) == multiset(s) - multiset{s[0]}
  {
    assert s == [s[0]] + s[1..];
  }

  lemma {:induction false} SameFirst<T>(a: seq<T>, b: seq<T>, le: (T, T) -> bool)
    requires a != [] && b != [] && a[0] in b && b[0] in a
    requires Sorted(a, le) && Sorted(b, le) && TotalOrderOn(Elements(a), le)
    ensures a[0] == b[0]
  {
    var i :| 0 <= i < |a| && a[i] == b[0];
    var j :| 0 <= j < |b| && b[j] == a[0];
    assert a[0] in Elements(a) && b[0] in Elements(a);
    assert i == 0 || le(a[0], b[0]);
    assert j == 0 || le(b[0], a[0]);
  }

  /** Sorting does not depend on the order in which the values arrive. */
  lemma {:induction false} SortIgnoresOrder<T>(a: seq<T>, b: seq<T>, le: (T, T) -> bool)
    requires multiset(a) == multiset(b) && TotalOrderOn(Elements(a), le)
    ensures Sort(a, le) == Sort(b, le)
  {
    PermutationSameElements(a, b);
    SortPermutes(a, le);
    SortPermutes(b, le);
    SortSorts(a, le);
    SortSorts(b, le);
    PermutationSameElements(a, Sort(a, le));
    SortedUnique(Sort(a, le), Sort(b, le), le);
  }

  // ----- Values without repetition -----

  ghost predicate Distinct<T(!new)>(s: seq<T>) { forall i, j :: 0 <= i < j < |s| ==> s[i] != s[j] }

  lemma {:induction false} DistinctCounts<T(!new)>(s: seq<T>)
    ensures Distinct(s) <==> forall x :: multiset(s)[x] <= 1
  {
    if s != [] {
      var k := |s| - 1;
      var front := s[..k];
      DistinctCounts(front);
      assert s == front + [s[k]];
      assert multiset(s) == multiset(front) + multiset{s[k]};
      assert s[k] in front <==> multiset(front)[s[k]] >= 1;
      if Distinct(front) && s[k] in front {
        var i :| 0 <= i < k && front[i] == s[k];
        assert s[i] == s[k];
        assert multiset(s)[s[k]] > 1;
      }
      if !Distinct(front) {
        var i, j :| 0 <= i < j < k && front[i] == front[j];
        assert s[i] == s[j];
        var x :| multiset(front)[x] > 1;
        assert multiset(s)[x] > 1;
      }
    }
  }

  lemma {:induction false} DistinctPermutation<T(!new)>(a: seq<T>, b: seq<T>)
    requires Distinct(a) && multiset(a) == multiset(b)
    ensures Distinct(b)
  {
    DistinctCounts(a);
    DistinctCounts(b);
  }

  /** Two sorted arrangements without repetition of the same set are the same sequence. */
  lemma {:induction false} SortedSetUnique<T(!new)>(a: seq<T>, b: seq<T>, le: (T, T) -> bool)
    requires Distinct(a) && Distinct(b) && (forall x :: x in a <==> x in b)
    requires Sorted(a, le) && Sorted(b, le) && TotalOrderOn(Elements(a), le)
    ensures a == b
  {
    DistinctCounts(a);
    DistinctCounts(b);
    forall x
      ensures multiset(a)[x] == multiset(b)[x]
    {
      assert multiset(a)[x] >= 1 <==> x in a;
      assert multiset(b)[x] >= 1 <==> x in b;
    }
    assert multiset(a) == multiset(b);
    SortedUnique(a, b, le);
  }

  /** The sorted values of a sequence without repetition. */
  lemma {:induction false} SortDistinct<T(!new)>(s: seq<T>, le: (T, T) -> bool)
    requires Distinct(s) && TotalOrderOn(Elements(s), le)
    ensures Distinct(Sort(s, le)) && Sorted(Sort(s, le), le) && |Sort(s, le)| == |s|
    ensures forall x :: x in Sort(s, le) <==> x in s
  {
    SortPermutes(s, le);
    SortSorts(s, le);
    PermutationSameElements(s, Sort(s, le));
    DistinctPermutation(s, Sort(s, le));
  }

  // ----- Text order -----

  /** Text by code points, a prefix first. */
  predicate TextLe(a: string, b: string) {
    a == "" || (b != "" && (a[0] < b[0] || (a[0] == b[0] && TextLe(a[1..], b[1..]))))
  }

  lemma {:induction false} TextLeTotal(a: string, b: string)
    ensures TextLe(a, b) || TextLe(b, a)
    ensures TextLe(a, b) && TextLe(b, a) ==> a == b
  {
    if a != "" && b != "" && a[0] == b[0] {
      TextLeTotal(a[1..], b[1..]);
      assert a == [a[0]] + a[1..] && b == [b[0]] + b[1..];
    }
  }

  lemma {:induction false} TextLeTransitive(a: string, b: string, c: string)
    requires TextLe(a, b) && TextLe(b, c)
    ensures TextLe(a, c)
  {
    if a != "" && a[0] == b[0] == c[0] {
      TextLeTransitive(a[1..], b[1..], c[1..]);
    }
  }

  lemma {:induction false} TextOrder(els: set<string>)
    ensures TotalOrderOn(els, TextLe)
  {
    forall a, b | a in els && b in els
      ensures TextLe(a, b) || TextLe(b, a)
      ensures TextLe(a, b) && TextLe(b, a) ==> a == b
    {
      TextLeTotal(a, b);
    }
    forall a, b, c | a in els && b in els && c in els && TextLe(a, b) && TextLe(b, c)
      ensures TextLe(a, c)
    {
      TextLeTransitive(a, b, c);
    }
  }

  /** The texts agree up to `i`, where `a` ends or has the smaller character. */
  ghost predicate ComesFirstAt(a: string, b: string, i: nat) {
    && i <= |a| && i <= |b| && a[..i] == b[..i]
    && (i == |a| || (i < |b| && a[i] as int < b[i] as int))
  }

  /** The order of texts: a prefix comes first, otherwise the first difference decides. */
  lemma {:induction false} TextLeMeaning(a: string, b: string)
    ensures TextLe(a, b) <==> exists i: nat :: ComesFirstAt(a, b, i)
  {
    if a != "" && b != "" && a[0] == b[0] {
      TextLeMeaning(a[1..], b[1..]);
      if i: nat :| ComesFirstAt(a[1..], b[1..], i) {
        assert a[..i + 1] == [a[0]] + a[1..][..i] && b[..i + 1] == [b[0]] + b[1..][..i];
        assert ComesFirstAt(a, b, i + 1);
      }
      if i: nat :| ComesFirstAt(a, b, i) {
        assert i > 0;
        assert a[1..][..i - 1] == a[..i][1..] && b[1..][..i - 1] == b[..i][1..];
        assert ComesFirstAt(a[1..], b[1..], i - 1);
      }
    } else {
      if TextLe(a, b) {
        assert ComesFirstAt(a, b, 0);
      }
      if i: nat :| ComesFirstAt(a, b, i) {
        assert i > 0 ==> a[..i][0] == b[..i][0];
      }
    }
  }
}
