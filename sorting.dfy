/**
 * The model of `Array.prototype.sort(compare)`: a stable sort driven by a
 * JavaScript-style three-way comparator (negative, zero or positive).
 * Stable insertion sort is used as the definition; for a comparator that is
 * a total preorder on the elements, the stable sorted permutation is unique,
 * so any conforming engine produces the same result.
 */
module Sorting {

  /** Inserts `x` before the first element it does not compare greater than. */
  function Insert<T>(x: T, s: seq<T>, cmp: (T, T) -> int): (r: seq<T>)
    ensures |r| == |s| + 1
    ensures multiset(r) == multiset(s) + multiset{x}
    ensures r[0] == x || (s != [] && r[0] == s[0])
  {
    if s == [] || cmp(x, s[0]) <= 0 then [x] + s
    else
      assert s == [s[0]] + s[1..];
      [s[0]] + Insert(x, s[1..], cmp)
  }

  /** The sorted copy of `s`; elements that compare equal keep their input order. */
  function SortBy<T>(s: seq<T>, cmp: (T, T) -> int): (r: seq<T>)
    ensures |r| == |s|
    ensures multiset(r) == multiset(s)
  {
    if s == [] then []
    else
      assert s == [s[0]] + s[1..];
      Insert(s[0], SortBy(s[1..], cmp), cmp)
  }

  /** Each element compares at most zero against its successor. */
  ghost predicate Ordered<T>(s: seq<T>, cmp: (T, T) -> int) {
    forall i :: 0 <= i < |s| - 1 ==> cmp(s[i], s[i + 1]) <= 0
  }

  /** Each element compares at most zero against every later element. */
  ghost predicate SortedBy<T>(s: seq<T>, cmp: (T, T) -> int) {
    forall i, j :: 0 <= i < j < |s| ==> cmp(s[i], s[j]) <= 0
  }

  /** Swapping the operands of `cmp` flips the sign of its answer, on the elements of `d`. */
  ghost predicate AntisymmetricOn<T>(cmp: (T, T) -> int, d: seq<T>) {
    forall x, y | x in d && y in d :: cmp(x, y) < 0 <==> cmp(y, x) > 0
  }

  /** "Compares at most zero" is transitive on the elements of `d`. */
  ghost predicate TransitiveOn<T>(cmp: (T, T) -> int, d: seq<T>) {
    forall x, y, z | x in d && y in d && z in d :: cmp(x, y) <= 0 && cmp(y, z) <= 0 ==> cmp(x, z) <= 0
  }

  /** `cmp` is a consistent comparator (a total preorder) on the elements of `d`. */
  ghost predicate PreorderOn<T>(cmp: (T, T) -> int, d: seq<T>) {
    AntisymmetricOn(cmp, d) && TransitiveOn(cmp, d)
  }

  /** On the elements of `d`, `cmp` answers zero only for identical elements. */
  ghost predicate SeparatesOn<T>(cmp: (T, T) -> int, d: seq<T>) {
    forall x, y | x in d && y in d :: cmp(x, y) == 0 ==> x == y
  }

  /** The elements of `s` that compare equal to `e`, in their order in `s`. */
  function Ties<T>(s: seq<T>, cmp: (T, T) -> int, e: T): (r: seq<T>)
    ensures |r| <= |s|
    ensures forall y | y in r :: y in s && cmp(y, e) == 0
  {
    if s == [] then []
    else (if cmp(s[0], e) == 0 then [s[0]] else []) + Ties(s[1..], cmp, e)
  }

  lemma {:induction false} InsertOrdered<T>(x: T, t: seq<T>, cmp: (T, T) -> int, d: seq<T>)
    requires AntisymmetricOn(cmp, d)
    requires x in d && forall y | y in t :: y in d
    requires Ordered(t, cmp)
    ensures Ordered(Insert(x, t, cmp), cmp)
  {
    if t != [] && cmp(x, t[0]) > 0 {
      var rest := t[1..];
      forall y | y in rest ensures y in d { assert y in t; }
      InsertOrdered(x, rest, cmp, d);
      var ins := Insert(x, rest, cmp);
      assert t[0] in d;
      assert cmp(t[0], ins[0]) <= 0 by {
        if ins[0] == x { assert cmp(x, t[0]) > 0; } else { assert ins[0] == t[1]; }
      }
      assert Insert(x, t, cmp) == [t[0]] + ins;
    }
  }

  lemma {:induction false} SortByInDomainOrdered<T>(s: seq<T>, cmp: (T, T) -> int, d: seq<T>)
    requires AntisymmetricOn(cmp, d)
    requires forall y | y in s :: y in d
    ensures Ordered(SortBy(s, cmp), cmp)
  {
    if s != [] {
      forall y | y in s[1..] ensures y in d { assert y in s; }
      SortByInDomainOrdered(s[1..], cmp, d);
      var t := SortBy(s[1..], cmp);
      forall y | y in t ensures y in d {
        assert y in multiset(t);
        assert y in multiset(s[1..]);
      }
      InsertOrdered(s[0], t, cmp, d);
    }
  }

  /** A consistent comparator stays consistent when its answers are multiplied by 1 or -1. */
  lemma ScaledPreorder<T>(cmp: (T, T) -> int, direction: int, d: seq<T>)
    requires direction == 1 || direction == -1
    requires PreorderOn(cmp, d)
    ensures PreorderOn((a: T, b: T) => direction * cmp(a, b), d)
  {
  }

  /** Under a transitive comparator, order between neighbours is order between all pairs. */
  lemma {:induction false} OrderedIsSorted<T>(s: seq<T>, cmp: (T, T) -> int, d: seq<T>)
    requires TransitiveOn(cmp, d)
    requires forall y | y in s :: y in d
    requires Ordered(s, cmp)
    ensures SortedBy(s, cmp)
  {
    forall i, j | 0 <= i < j < |s| ensures cmp(s[i], s[j]) <= 0 {
      var k := i + 1;
      while k < j
        invariant i < k <= j
        invariant cmp(s[i], s[k]) <= 0
      {
        assert s[i] in d && s[k] in d && s[k + 1] in d;
        k := k + 1;
      }
    }
  }

  /** With a consistent comparator the result is sorted. */
  lemma SortBySorted<T>(s: seq<T>, cmp: (T, T) -> int)
    requires PreorderOn(cmp, s)
    ensures SortedBy(SortBy(s, cmp), cmp)
  {
    SortByInDomainOrdered(s, cmp, s);
    var r := SortBy(s, cmp);
    forall y | y in r ensures y in s { assert y in multiset(r); }
    OrderedIsSorted(r, cmp, s);
  }

  /** A sequence already in order (pair by adjacent pair) is left exactly as it is. */
  lemma {:induction false} SortByKeepsOrdered<T>(s: seq<T>, cmp: (T, T) -> int)
    requires Ordered(s, cmp)
    ensures SortBy(s, cmp) == s
  {
    if s != [] {
      SortByKeepsOrdered(s[1..], cmp);
      assert s[1..] == [] || cmp(s[0], s[1..][0]) <= 0;
      assert [s[0]] + s[1..] == s;
    }
  }

  /** Sorting an already sorted sequence again changes nothing. */
  lemma SortByIdempotent<T>(s: seq<T>, cmp: (T, T) -> int)
    requires AntisymmetricOn(cmp, s)
    ensures SortBy(SortBy(s, cmp), cmp) == SortBy(s, cmp)
  {
    SortByInDomainOrdered(s, cmp, s);
    SortByKeepsOrdered(SortBy(s, cmp), cmp);
  }

  lemma SortedTail<T>(t: seq<T>, cmp: (T, T) -> int)
    requires t != [] && SortedBy(t, cmp)
    ensures SortedBy(t[1..], cmp)
  {
    var u := t[1..];
    forall i, j | 0 <= i < j < |u| ensures cmp(u[i], u[j]) <= 0 {
      assert u[i] == t[i + 1] && u[j] == t[j + 1];
    }
  }

  /** The first element of a sorted sequence compares at most zero against any of its elements. */
  lemma HeadBelow<T>(t: seq<T>, y: T, cmp: (T, T) -> int, d: seq<T>)
    requires AntisymmetricOn(cmp, d)
    requires y in t && forall z | z in t :: z in d
    requires SortedBy(t, cmp)
    ensures cmp(t[0], y) <= 0
  {
    var k :| 0 <= k < |t| && t[k] == y;
    if k == 0 {
      assert t[0] in d;
      assert !(cmp(y, y) < 0);
    }
  }

  /** Two sorted permutations of the same elements start with the same element. */
  lemma SameHead<T>(t1: seq<T>, t2: seq<T>, cmp: (T, T) -> int, d: seq<T>)
    requires AntisymmetricOn(cmp, d) && SeparatesOn(cmp, d)
    requires t1 != [] && forall y | y in t1 :: y in d
    requires multiset(t1) == multiset(t2)
    requires SortedBy(t1, cmp) && SortedBy(t2, cmp)
    ensures t2 != [] && t1[0] == t2[0]
  {
    var a := t1[0];
    assert a in multiset(t2);
    var b := t2[0];
    assert b in multiset(t1);
    forall z | z in t2 ensures z in d { assert z in multiset(t1); }
    HeadBelow(t2, a, cmp, d);
    HeadBelow(t1, b, cmp, d);
    assert a in d && b in d;
  }

  /** Removing the first element removes one occurrence of it. */
  lemma TailMultiset<T>(t: seq<T>)
    requires t != []
    ensures multiset(t[1..]) == multiset(t) - multiset{t[0]}
  {
    assert t == [t[0]] + t[1..];
  }

  /** Dropping an equal first element from two sorted permutations leaves two sorted permutations. */
  lemma SameTails<T>(t1: seq<T>, t2: seq<T>, cmp: (T, T) -> int, d: seq<T>)
    requires t1 != [] && t2 != [] && t1[0] == t2[0]
    requires forall y | y in t1 :: y in d
    requires multiset(t1) == multiset(t2)
    requires SortedBy(t1, cmp) && SortedBy(t2, cmp)
    ensures forall y | y in t1[1..] :: y in d
    ensures multiset(t1[1..]) == multiset(t2[1..])
    ensures SortedBy(t1[1..], cmp) && SortedBy(t2[1..], cmp)
  {
    TailMultiset(t1);
    TailMultiset(t2);
    SortedTail(t1, cmp);
    SortedTail(t2, cmp);
    forall y | y in t1[1..] ensures y in d { assert y in t1; }
  }

  /** Sequences with the same first element and the same rest are equal. */
  lemma ConsEqual<T>(t1: seq<T>, t2: seq<T>)
    requires t1 != [] && t2 != [] && t1[0] == t2[0] && t1[1..] == t2[1..]
    ensures t1 == t2
  {
    assert t1 == [t1[0]] + t1[1..] && t2 == [t2[0]] + t2[1..];
  }

  /**
   * Two sorted permutations of the same elements coincide when the comparator
   * is antisymmetric and answers zero only for identical elements.
   */
  lemma {:induction false} SortedPermutationUnique<T>(t1: seq<T>, t2: seq<T>, cmp: (T, T) -> int, d: seq<T>)
    requires AntisymmetricOn(cmp, d) && SeparatesOn(cmp, d)
    requires forall y | y in t1 :: y in d
    requires multiset(t1) == multiset(t2)
    requires SortedBy(t1, cmp) && SortedBy(t2, cmp)
    ensures t1 == t2
  {
    if t1 == [] {
      assert |multiset(t2)| == 0;
    } else {
      SameHead(t1, t2, cmp, d);
      SameTails(t1, t2, cmp, d);
      SortedPermutationUnique(t1[1..], t2[1..], cmp, d);
      ConsEqual(t1, t2);
    }
  }

  // ---------------------------------------------------------------------------
  // Stability

  /** Two elements that compare equal to the same element compare equal to each other. */
  lemma TiesTie<T>(x: T, y: T, e: T, cmp: (T, T) -> int, d: seq<T>)
    requires PreorderOn(cmp, d)
    requires x in d && y in d && e in d
    ensures cmp(x, e) == 0 && cmp(y, e) == 0 ==> cmp(x, y) == 0
  {
    if cmp(x, e) == 0 && cmp(y, e) == 0 {
      assert cmp(e, y) <= 0 && cmp(y, x) <= 0 by {
        assert cmp(e, x) <= 0;
      }
    }
  }

  /** The ties of a sequence with a given first element. */
  lemma TiesCons<T>(x: T, t: seq<T>, cmp: (T, T) -> int, e: T)
    ensures Ties([x] + t, cmp, e) == (if cmp(x, e) == 0 then [x] else []) + Ties(t, cmp, e)
  {
    assert ([x] + t)[0] == x && ([x] + t)[1..] == t;
  }

  /** Of two prefixes at most one non-empty, the order they come in does not matter. */
  lemma SwapAroundEmpty<T>(a: seq<T>, b: seq<T>, c: seq<T>)
    requires a == [] || b == []
    ensures a + (b + c) == b + (a + c)
  {
    if a == [] {
      assert a + (b + c) == b + c && a + c == c;
    } else {
      assert b + c == c && b + (a + c) == a + c;
    }
  }

  /**
   * Inserting `x` puts it before every element of `t` it ties with, given
   * that `x` compares at most zero against each of those elements.
   */
  lemma {:induction false} InsertTies<T>(x: T, t: seq<T>, e: T, cmp: (T, T) -> int)
    requires cmp(x, e) == 0 ==> forall y | y in t && cmp(y, e) == 0 :: cmp(x, y) <= 0
    ensures Ties(Insert(x, t, cmp), cmp, e) == Ties([x] + t, cmp, e)
  {
    if t != [] && cmp(x, t[0]) > 0 {
      var rest := t[1..];
      assert cmp(x, e) == 0 ==> forall y | y in rest && cmp(y, e) == 0 :: cmp(x, y) <= 0 by {
        forall y | y in rest ensures y in t { }
      }
      InsertTies(x, rest, e, cmp);
      var hx: seq<T> := if cmp(x, e) == 0 then [x] else [];
      var h0: seq<T> := if cmp(t[0], e) == 0 then [t[0]] else [];
      assert hx == [] || h0 == [] by {
        assert t[0] in t;
      }
      assert Insert(x, t, cmp) == [t[0]] + Insert(x, rest, cmp);
      TiesCons(t[0], Insert(x, rest, cmp), cmp, e);
      TiesCons(x, rest, cmp, e);
      assert t == [t[0]] + rest;
      TiesCons(t[0], rest, cmp, e);
      TiesCons(x, t, cmp, e);
      SwapAroundEmpty(h0, hx, Ties(rest, cmp, e));
    }
  }

  /**
   * `SortBy` is stable: the elements that compare equal to any one element
   * of the input come out in their input order.
   */
  lemma {:induction false} SortByStable<T>(s: seq<T>, cmp: (T, T) -> int, e: T, d: seq<T>)
    requires PreorderOn(cmp, d)
    requires e in d && forall y | y in s :: y in d
    ensures Ties(SortBy(s, cmp), cmp, e) == Ties(s, cmp, e)
  {
    if s != [] {
      forall y | y in s[1..] ensures y in d { assert y in s; }
      SortByStable(s[1..], cmp, e, d);
      var t := SortBy(s[1..], cmp);
      forall y | y in t ensures y in d {
        assert y in multiset(t);
        assert y in multiset(s[1..]);
      }
      forall y | y in t && cmp(s[0], e) == 0 && cmp(y, e) == 0 ensures cmp(s[0], y) <= 0 {
        TiesTie(s[0], y, e, cmp, d);
      }
      InsertTies(s[0], t, e, cmp);
      assert ([s[0]] + t)[1..] == t;
    }
  }

  /** Ties with a common first element, one `e` at a time. */
  lemma TiesOfTail<T>(t1: seq<T>, t2: seq<T>, cmp: (T, T) -> int, e: T)
    requires t1 != [] && t2 != [] && t1[0] == t2[0]
    requires Ties(t1, cmp, e) == Ties(t2, cmp, e)
    ensures Ties(t1[1..], cmp, e) == Ties(t2[1..], cmp, e)
  {
    var h: seq<T> := if cmp(t1[0], e) == 0 then [t1[0]] else [];
    assert Ties(t1, cmp, e) == h + Ties(t1[1..], cmp, e);
    assert Ties(t2, cmp, e) == h + Ties(t2[1..], cmp, e);
    assert (h + Ties(t1[1..], cmp, e))[|h|..] == Ties(t1[1..], cmp, e);
    assert (h + Ties(t2[1..], cmp, e))[|h|..] == Ties(t2[1..], cmp, e);
  }

  /** Dropping the common first element keeps the ties of two sequences equal. */
  lemma TiesOfTails<T>(t1: seq<T>, t2: seq<T>, cmp: (T, T) -> int, d: seq<T>)
    requires t1 != [] && t2 != [] && t1[0] == t2[0]
    requires forall e | e in d :: Ties(t1, cmp, e) == Ties(t2, cmp, e)
    ensures forall e | e in d :: Ties(t1[1..], cmp, e) == Ties(t2[1..], cmp, e)
  {
    forall e | e in d ensures Ties(t1[1..], cmp, e) == Ties(t2[1..], cmp, e) {
      TiesOfTail(t1, t2, cmp, e);
    }
  }

  /** Two sorted permutations with the same ties start with the same element. */
  lemma StableSameHead<T>(t1: seq<T>, t2: seq<T>, cmp: (T, T) -> int, d: seq<T>)
    requires AntisymmetricOn(cmp, d)
    requires t1 != [] && forall y | y in t1 :: y in d
    requires multiset(t1) == multiset(t2)
    requires SortedBy(t1, cmp) && SortedBy(t2, cmp)
    requires forall e | e in d :: Ties(t1, cmp, e) == Ties(t2, cmp, e)
    ensures t2 != [] && t1[0] == t2[0]
  {
    var a := t1[0];
    assert a in multiset(t2);
    var b := t2[0];
    assert b in multiset(t1);
    forall z | z in t2 ensures z in d { assert z in multiset(t1); }
    HeadBelow(t2, a, cmp, d);
    HeadBelow(t1, b, cmp, d);
    assert a in d && b in d;
    assert cmp(a, b) == 0 && cmp(a, a) == 0;
    assert Ties(t1, cmp, a)[0] == a;
    assert Ties(t2, cmp, a)[0] == b;
  }

  /**
   * A sorted permutation that keeps the input order of tied elements is
   * unique: any two coincide when the comparator is antisymmetric.
   */
  lemma {:induction false} StablePermutationUnique<T>(t1: seq<T>, t2: seq<T>, cmp: (T, T) -> int, d: seq<T>)
    requires AntisymmetricOn(cmp, d)
    requires forall y | y in t1 :: y in d
    requires multiset(t1) == multiset(t2)
    requires SortedBy(t1, cmp) && SortedBy(t2, cmp)
    requires forall e | e in d :: Ties(t1, cmp, e) == Ties(t2, cmp, e)
    ensures t1 == t2
  {
    if t1 == [] {
      assert |multiset(t2)| == 0;
    } else {
      StableSameHead(t1, t2, cmp, d);
      SameTails(t1, t2, cmp, d);
      TiesOfTails(t1, t2, cmp, d);
      StablePermutationUnique(t1[1..], t2[1..], cmp, d);
      ConsEqual(t1, t2);
    }
  }

  /**
   * Every stable sort agrees with `SortBy`: a permutation of `s` that is
   * sorted by a consistent comparator and keeps tied elements in their input
   * order is `SortBy(s, cmp)`.
   */
  lemma SortByIsTheStableSort<T>(s: seq<T>, t: seq<T>, cmp: (T, T) -> int)
    requires PreorderOn(cmp, s)
    requires multiset(t) == multiset(s) && SortedBy(t, cmp)
    requires forall e | e in s :: Ties(t, cmp, e) == Ties(s, cmp, e)
    ensures t == SortBy(s, cmp)
  {
    var r := SortBy(s, cmp);
    SortBySorted(s, cmp);
    forall e | e in s ensures Ties(r, cmp, e) == Ties(s, cmp, e) {
      SortByStable(s, cmp, e, s);
    }
    forall y | y in t ensures y in s { assert y in multiset(s); }
    StablePermutationUnique(t, r, cmp, s);
  }
}
