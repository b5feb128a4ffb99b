/**
 * The two string orders the sorting code relies on: a locale-aware
 * collation (`String.prototype.localeCompare`), which is left abstract, and
 * the relational operator `<` on strings, which compares code units.
 */
module Collation {

  /** A locale comparison: negative, zero or positive, as `a.localeCompare(b, ...)` answers. */
  type LocaleCompare = (string, string) -> int

  /**
   * What the model assumes of a locale comparison: it is a total preorder.
   * Swapping the operands flips the sign, and "at most zero" is transitive.
   * Distinct strings may compare equal (for example under base sensitivity).
   */
  ghost predicate IsCollation(loc: LocaleCompare) {
    && (forall a: string, b: string :: loc(a, b) < 0 <==> loc(b, a) > 0)
    && (forall a: string, b: string, c: string :: loc(a, b) <= 0 && loc(b, c) <= 0 ==> loc(a, c) <= 0)
  }

  /** JavaScript's `a < b` on strings: lexicographic order of the characters; a proper prefix comes first. */
  predicate CodeUnitLess(a: string, b: string)
    ensures |a| < |b| && a == b[..|a|] ==> CodeUnitLess(a, b)
    decreases |a|
  {
    if a == [] then b != []
    else if b == [] then false
    else if a[0] != b[0] then a[0] < b[0]
    else CodeUnitLess(a[1..], b[1..])
  }

  lemma {:induction false} CodeUnitLessIrreflexive(a: string)
    ensures !CodeUnitLess(a, a)
  {
    if a != [] {
      CodeUnitLessIrreflexive(a[1..]);
    }
  }

  /** Exactly one of `a < b`, `a == b`, `b < a` holds. */
  lemma {:induction false} CodeUnitLessTrichotomy(a: string, b: string)
    ensures a == b || CodeUnitLess(a, b) || CodeUnitLess(b, a)
    ensures !(CodeUnitLess(a, b) && CodeUnitLess(b, a))
    decreases |a|
  {
    if a != [] && b != [] && a[0] == b[0] {
      CodeUnitLessTrichotomy(a[1..], b[1..]);
      if a[1..] == b[1..] {
        assert a == [a[0]] + a[1..] && b == [b[0]] + b[1..];
      }
    }
  }

  lemma {:induction false} CodeUnitLessTransitive(a: string, b: string, c: string)
    requires CodeUnitLess(a, b) && CodeUnitLess(b, c)
    ensures CodeUnitLess(a, c)
    decreases |a|
  {
    if a != [] && a[0] == b[0] && b[0] == c[0] {
      CodeUnitLessTransitive(a[1..], b[1..], c[1..]);
    }
  }

  /** A collation with its operands swapped is again a collation. */
  lemma ReversedIsCollation(loc: LocaleCompare)
    requires IsCollation(loc)
    ensures IsCollation((a: string, b: string) => loc(b, a))
  {
  }
}
