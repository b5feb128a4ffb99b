/**
 * Table rows and the comparators the three `SortableTable` revisions sort
 * them with. A row maps field names to values; the only values that matter
 * for sorting are numbers and strings.
 */
module Rows {
  import opened Wrappers
  import opened Sorting
  import opened Collation

  /** A field value: a number (integers stand for JavaScript numbers) or a string. */
  datatype Value = Num(n: int) | Str(s: string)

  type Row = map<string, Value>

  /** Why a table operation throws. */
  datatype Error =
    | UnknownOrder(order: string)       // `new Error("Unknown order: ...")`
    | UnknownSortType(sortType: string) // the `default:` branch of a comparator switch
    | TypeError                         // a property read or call on `undefined`

  /** The sort direction of an order name: 1 for "asc", -1 for "desc", none otherwise. */
  function Direction(order: string): (d: Option<int>)
    ensures d.Some? <==> order == "asc" || order == "desc"
    ensures d.Some? ==> (d.value == 1 <==> order == "asc") && (d.value == -1 <==> order == "desc")
  {
    if order == "asc" then Some(1) else if order == "desc" then Some(-1) else None
  }

  /** The ids of a header configuration, in order; `id` reads the id of one entry. */
  function Ids<C>(columns: seq<C>, id: C -> string): (ids: seq<string>)
    ensures |ids| == |columns|
    ensures forall k :: 0 <= k < |columns| ==> ids[k] == id(columns[k])
  {
    seq(|columns|, k requires 0 <= k < |columns| => id(columns[k]))
  }

  /** The number in `field`, or 0 where the row holds none. */
  function NumOf(row: Row, field: string): int {
    if field in row && row[field].Num? then row[field].n else 0
  }

  /** The string in `field`, or "" where the row holds none. */
  function TextOf(row: Row, field: string): string {
    if field in row && row[field].Str? then row[field].s else ""
  }

  /** Every row holds a number in `field`. */
  predicate NumberColumn(data: seq<Row>, field: string) {
    forall row: Row | row in data :: field in row && row[field].Num?
  }

  /** Every row holds a string in `field`. */
  predicate StringColumn(data: seq<Row>, field: string) {
    forall row: Row | row in data :: field in row && row[field].Str?
  }

  /** `direction * (a[field] - b[field])`. */
  function NumberCompare(field: string, direction: int): (Row, Row) -> int {
    (a: Row, b: Row) => direction * (NumOf(a, field) - NumOf(b, field))
  }

  /** `direction * a[field].localeCompare(b[field])`. */
  function TextCompare(field: string, direction: int, loc: LocaleCompare): (Row, Row) -> int {
    (a: Row, b: Row) => direction * loc(TextOf(a, field), TextOf(b, field))
  }

  /** Rows ordered by the number in `field`: ascending for direction 1, descending for -1. */
  ghost predicate NumbersInOrder(rows: seq<Row>, field: string, direction: int) {
    forall i, j :: 0 <= i < j < |rows| ==>
      if direction == 1 then NumOf(rows[i], field) <= NumOf(rows[j], field)
      else NumOf(rows[i], field) >= NumOf(rows[j], field)
  }

  /** Rows ordered by the collation of the string in `field`, reversed for direction -1. */
  ghost predicate TextsInOrder(rows: seq<Row>, field: string, direction: int, loc: LocaleCompare) {
    forall i, j :: 0 <= i < j < |rows| ==>
      if direction == 1 then loc(TextOf(rows[i], field), TextOf(rows[j], field)) <= 0
      else loc(TextOf(rows[j], field), TextOf(rows[i], field)) <= 0
  }

  /** Subtracting numbers gives a consistent comparator in either direction. */
  lemma NumberComparePreorder(field: string, direction: int, data: seq<Row>)
    requires direction == 1 || direction == -1
    ensures PreorderOn(NumberCompare(field, direction), data)
  {
  }

  /** A collation scaled by a direction is a consistent comparator. */
  lemma TextComparePreorder(field: string, direction: int, loc: LocaleCompare, data: seq<Row>)
    requires direction == 1 || direction == -1
    requires IsCollation(loc)
    ensures PreorderOn(TextCompare(field, direction, loc), data)
  {
    var cmp := TextCompare(field, direction, loc);
    forall x, y | x in data && y in data ensures cmp(x, y) < 0 <==> cmp(y, x) > 0 {
      var tx, ty := TextOf(x, field), TextOf(y, field);
      assert loc(tx, ty) < 0 <==> loc(ty, tx) > 0;
      assert loc(ty, tx) < 0 <==> loc(tx, ty) > 0;
    }
    forall x, y, z | x in data && y in data && z in data && cmp(x, y) <= 0 && cmp(y, z) <= 0
      ensures cmp(x, z) <= 0
    {
      var tx, ty, tz := TextOf(x, field), TextOf(y, field), TextOf(z, field);
      if direction == -1 {
        assert loc(ty, tx) <= 0 && loc(tz, ty) <= 0;
      }
    }
  }

  /** Sorted by the number comparator means ordered by the numbers, in the direction asked. */
  lemma NumberSortedMeans(rows: seq<Row>, field: string, direction: int)
    requires direction == 1 || direction == -1
    ensures SortedBy(rows, NumberCompare(field, direction)) <==> NumbersInOrder(rows, field, direction)
  {
  }

  /** Sorted by the collation comparator means ordered by the collation, in the direction asked. */
  lemma TextSortedMeans(rows: seq<Row>, field: string, direction: int, loc: LocaleCompare)
    requires direction == 1 || direction == -1
    requires IsCollation(loc)
    ensures SortedBy(rows, TextCompare(field, direction, loc)) <==> TextsInOrder(rows, field, direction, loc)
  {
  }

  /** Descending is ascending with the comparator's sign flipped, for both kinds of column. */
  lemma DescendingFlipsSign(field: string, loc: LocaleCompare, a: Row, b: Row)
    ensures NumberCompare(field, -1)(a, b) == -NumberCompare(field, 1)(a, b)
    ensures NumberCompare(field, -1)(a, b) == NumberCompare(field, 1)(b, a)
    ensures TextCompare(field, -1, loc)(a, b) == -TextCompare(field, 1, loc)(a, b)
  {
  }

  /** A comparator that answers the same non-positive number for every pair leaves the rows as they are. */
  lemma {:induction false} ConstantComparatorKeepsOrder(rows: seq<Row>, c: int)
    requires c <= 0
    ensures SortBy(rows, (a: Row, b: Row) => c) == rows
  {
    var cmp := (a: Row, b: Row) => c;
    forall i | 0 <= i < |rows| - 1 ensures cmp(rows[i], rows[i + 1]) <= 0 {
    }
    SortByKeepsOrdered(rows, cmp);
  }

  /** The index of the first id equal to `id`. */
  function FirstIndex(ids: seq<string>, id: string): (k: Option<nat>)
    ensures k.Some? <==> id in ids
    ensures k.Some? ==> k.value < |ids| && ids[k.value] == id && id !in ids[..k.value]
  {
    if ids == [] then None
    else if ids[0] == id then Some(0)
    else
      match FirstIndex(ids[1..], id)
      case None => None
      case Some(k) =>
        assert ids[..k + 1] == [ids[0]] + ids[1..][..k];
        Some(k + 1)
  }
}
