/**
 * `sortStrings(arr, param)`: returns a sorted copy of an array of strings.
 * The primary key is a base-sensitivity locale comparison, reversed when
 * `param` is "desc"; strings the locale considers equal are ordered by
 * code units, ascending, whatever the direction.
 */
module SortStrings {
  import opened Sorting
  import opened Collation

  /** The locale comparison in the requested direction ("desc" swaps the operands). */
  function Primary(param: string, loc: LocaleCompare, a: string, b: string): (r: int)
    ensures IsCollation(loc) ==> (r == 0 <==> loc(a, b) == 0)
    ensures IsCollation(loc) ==> (r < 0 <==> if param == "desc" then loc(a, b) > 0 else loc(a, b) < 0)
  {
    if param == "desc" then loc(b, a) else loc(a, b)
  }

  /**
   * The comparator `sortByLocaleAndCase`: the locale comparison decides, and
   * only strings it equates are ordered by `<`, so 0 means identical.
   */
  function CompareByLocaleAndCase(param: string, loc: LocaleCompare, a: string, b: string): (r: int)
    ensures Primary(param, loc, a, b) != 0 ==> r == Primary(param, loc, a, b)
    ensures Primary(param, loc, a, b) == 0 ==> (r == 0 <==> a == b) && (r < 0 <==> CodeUnitLess(a, b))
  {
    CodeUnitLessTrichotomy(a, b);
    CodeUnitLessIrreflexive(a);
    var result := Primary(param, loc, a, b);
    if result != 0 then result
    else if CodeUnitLess(a, b) then -1
    else if CodeUnitLess(b, a) then 1
    else 0
  }

  function ByLocaleAndCase(param: string, loc: LocaleCompare): (string, string) -> int {
    (a: string, b: string) => CompareByLocaleAndCase(param, loc, a, b)
  }

  /**
   * `[...arr].sort(sortByLocaleAndCase)`. A caller that omits `param` gets
   * "asc"; every value other than "desc" sorts ascending.
   */
  function SortStrings(arr: seq<string>, param: string, loc: LocaleCompare): (r: seq<string>)
    ensures multiset(r) == multiset(arr)
  {
    SortBy(arr, ByLocaleAndCase(param, loc))
  }

  lemma PrimaryAntisymmetric(param: string, loc: LocaleCompare, a: string, b: string)
    requires IsCollation(loc)
    ensures Primary(param, loc, a, b) < 0 <==> Primary(param, loc, b, a) > 0
    ensures Primary(param, loc, a, b) == 0 <==> Primary(param, loc, b, a) == 0
  {
    assert loc(a, b) < 0 <==> loc(b, a) > 0;
    assert loc(b, a) < 0 <==> loc(a, b) > 0;
  }

  lemma PrimaryTransitive(param: string, loc: LocaleCompare, a: string, b: string, c: string)
    requires IsCollation(loc)
    requires Primary(param, loc, a, b) <= 0 && Primary(param, loc, b, c) <= 0
    ensures Primary(param, loc, a, c) <= 0
    ensures Primary(param, loc, a, b) < 0 || Primary(param, loc, b, c) < 0 ==> Primary(param, loc, a, c) < 0
  {
    if param == "desc" {
      assert loc(c, b) <= 0 && loc(b, a) <= 0;
      assert loc(c, a) <= 0;
      if loc(c, a) == 0 {
        assert loc(a, c) == 0 by { PrimaryAntisymmetric("", loc, c, a); }
        assert loc(a, c) <= 0 && loc(c, b) <= 0;
        assert loc(a, b) <= 0 && loc(b, a) <= 0;
        assert loc(b, a) == 0 by { PrimaryAntisymmetric("", loc, b, a); }
        assert loc(b, c) <= 0 && loc(c, a) <= 0;
        assert loc(b, a) <= 0;
        assert loc(c, b) == 0 by {
          assert loc(c, a) <= 0 && loc(a, b) <= 0;
          assert loc(c, b) <= 0;
          assert loc(b, a) <= 0 && loc(a, c) <= 0;
          assert loc(b, c) <= 0;
          PrimaryAntisymmetric("", loc, b, c);
        }
      }
    } else {
      assert loc(a, c) <= 0;
      if loc(a, c) == 0 {
        assert loc(c, a) == 0 by { PrimaryAntisymmetric("", loc, a, c); }
        assert loc(c, a) <= 0 && loc(a, b) <= 0;
        assert loc(c, b) <= 0;
        assert loc(b, c) == 0 by { PrimaryAntisymmetric("", loc, b, c); }
        assert loc(b, c) <= 0 && loc(c, a) <= 0;
        assert loc(b, a) <= 0;
        assert loc(a, b) == 0 by { PrimaryAntisymmetric("", loc, a, b); }
      }
    }
  }

  /** The comparator answers zero exactly for identical strings. */
  lemma CompareZeroIffEqual(param: string, loc: LocaleCompare, a: string, b: string)
    requires IsCollation(loc)
    ensures CompareByLocaleAndCase(param, loc, a, b) == 0 <==> a == b
  {
  }

  lemma {:induction false} CompareAntisymmetric(param: string, loc: LocaleCompare, a: string, b: string)
    requires IsCollation(loc)
    ensures CompareByLocaleAndCase(param, loc, a, b) < 0 <==> CompareByLocaleAndCase(param, loc, b, a) > 0
  {
    PrimaryAntisymmetric(param, loc, a, b);
    CodeUnitLessTrichotomy(a, b);
  }

  lemma {:induction false} CompareTransitive(param: string, loc: LocaleCompare, a: string, b: string, c: string)
    requires IsCollation(loc)
    requires CompareByLocaleAndCase(param, loc, a, b) <= 0 && CompareByLocaleAndCase(param, loc, b, c) <= 0
    ensures CompareByLocaleAndCase(param, loc, a, c) <= 0
  {
    var pab, pbc := Primary(param, loc, a, b), Primary(param, loc, b, c);
    CodeUnitLessTrichotomy(a, b);
    CodeUnitLessTrichotomy(b, c);
    assert pab <= 0 && pbc <= 0;
    PrimaryTransitive(param, loc, a, b, c);
    if pab == 0 && pbc == 0 {
      CodeUnitLessTrichotomy(a, c);
      if CodeUnitLess(a, b) && CodeUnitLess(b, c) {
        CodeUnitLessTransitive(a, b, c);
      }
      if Primary(param, loc, a, c) == 0 && a != c {
        assert CodeUnitLess(a, c);
      }
    }
  }

  /** On any strings, `sortByLocaleAndCase` is a consistent comparator that separates distinct strings. */
  lemma ComparatorConsistent(param: string, loc: LocaleCompare, d: seq<string>)
    requires IsCollation(loc)
    ensures PreorderOn(ByLocaleAndCase(param, loc), d)
    ensures SeparatesOn(ByLocaleAndCase(param, loc), d)
  {
    var cmp := ByLocaleAndCase(param, loc);
    forall x, y | x in d && y in d ensures cmp(x, y) < 0 <==> cmp(y, x) > 0 {
      CompareAntisymmetric(param, loc, x, y);
    }
    forall x, y, z | x in d && y in d && z in d && cmp(x, y) <= 0 && cmp(y, z) <= 0
      ensures cmp(x, z) <= 0
    {
      CompareTransitive(param, loc, x, y, z);
    }
    forall x, y | x in d && y in d && cmp(x, y) == 0 ensures x == y {
      CompareZeroIffEqual(param, loc, x, y);
    }
  }

  /**
   * The result is ordered by the locale comparison (reversed for "desc");
   * strings the locale considers equal are in ascending code-unit order.
   */
  lemma SortStringsOrdered(arr: seq<string>, param: string, loc: LocaleCompare)
    requires IsCollation(loc)
    ensures var r := SortStrings(arr, param, loc);
      forall i, j | 0 <= i < j < |r| ::
        && (if param == "desc" then loc(r[j], r[i]) <= 0 else loc(r[i], r[j]) <= 0)
        && (loc(r[i], r[j]) == 0 ==> r[i] == r[j] || CodeUnitLess(r[i], r[j]))
  {
    var cmp := ByLocaleAndCase(param, loc);
    ComparatorConsistent(param, loc, arr);
    SortBySorted(arr, cmp);
    var r := SortStrings(arr, param, loc);
    forall i, j | 0 <= i < j < |r|
      ensures && (if param == "desc" then loc(r[j], r[i]) <= 0 else loc(r[i], r[j]) <= 0)
              && (loc(r[i], r[j]) == 0 ==> r[i] == r[j] || CodeUnitLess(r[i], r[j]))
    {
      assert cmp(r[i], r[j]) <= 0;
      PrimaryAntisymmetric(param, loc, r[i], r[j]);
      PrimaryAntisymmetric("", loc, r[i], r[j]);
      CodeUnitLessTrichotomy(r[i], r[j]);
    }
  }

  /**
   * The output order is uniquely determined: every permutation of `arr` that
   * is sorted by `sortByLocaleAndCase` is the model's result.
   */
  lemma SortStringsUnique(arr: seq<string>, param: string, loc: LocaleCompare, t: seq<string>)
    requires IsCollation(loc)
    requires multiset(t) == multiset(arr)
    requires SortedBy(t, ByLocaleAndCase(param, loc))
    ensures t == SortStrings(arr, param, loc)
  {
    var cmp := ByLocaleAndCase(param, loc);
    ComparatorConsistent(param, loc, arr);
    SortBySorted(arr, cmp);
    forall y | y in t ensures y in arr { assert y in multiset(arr); }
    SortedPermutationUnique(t, SortStrings(arr, param, loc), cmp, arr);
  }

  /**
   * Two distinct strings that the locale considers equal come out in the same
   * order whichever direction is requested, so "desc" is not the reverse of "asc".
   */
  lemma TiesIgnoreDirection(a: string, b: string, loc: LocaleCompare)
    requires IsCollation(loc)
    requires loc(a, b) == 0 && a != b
    ensures SortStrings([a, b], "desc", loc) == SortStrings([a, b], "asc", loc)
    ensures SortStrings([a, b], "desc", loc) != [SortStrings([a, b], "asc", loc)[1], SortStrings([a, b], "asc", loc)[0]]
  {
    PrimaryAntisymmetric("", loc, a, b);
    CodeUnitLessTrichotomy(a, b);
    assert SortBy([b], ByLocaleAndCase("asc", loc)) == [b];
    assert SortBy([b], ByLocaleAndCase("desc", loc)) == [b];
    assert [a, b][1..] == [b];
  }
}
