/**
 * `SortableTable`, first revision: a table over rows with one header cell
 * per configured column. `sort(field, order)` sorts the rows in place and
 * marks the header cell of `field` with the order.
 */
module SortableTableV1 {
  import opened Wrappers
  import opened Sorting
  import opened Collation
  import opened Rows

  /**
   * The comparator of `sort`: `direction * (a - b)` when both values are
   * numbers, `direction * a.localeCompare(b)` otherwise.
   */
  function ValueCompare(field: string, direction: int, loc: LocaleCompare): (Row, Row) -> int {
    (a: Row, b: Row) =>
      if field in a && a[field].Num? && field in b && b[field].Num?
      then direction * (a[field].n - b[field].n)
      else direction * loc(TextOf(a, field), TextOf(b, field))
  }

  /**
   * The rows `sort` can order by `field` without throwing: with fewer than two
   * rows nothing is compared; otherwise the column holds only numbers or only
   * strings.
   */
  predicate Comparable(data: seq<Row>, field: string) {
    |data| < 2 || NumberColumn(data, field) || StringColumn(data, field)
  }

  /** On a column of one kind the comparator is the numeric or the collation comparator. */
  lemma ValueCompareOnColumn(data: seq<Row>, field: string, direction: int, loc: LocaleCompare, a: Row, b: Row)
    requires a in data && b in data
    ensures NumberColumn(data, field) ==> ValueCompare(field, direction, loc)(a, b) == NumberCompare(field, direction)(a, b)
    ensures StringColumn(data, field) ==> ValueCompare(field, direction, loc)(a, b) == TextCompare(field, direction, loc)(a, b)
  {
  }

  /** On rows `sort` accepts, its comparator is consistent. */
  lemma ValueComparePreorder(data: seq<Row>, field: string, direction: int, loc: LocaleCompare)
    requires direction == 1 || direction == -1
    requires IsCollation(loc)
    requires Comparable(data, field)
    ensures PreorderOn(ValueCompare(field, direction, loc), data)
  {
    var cmp := ValueCompare(field, direction, loc);
    if NumberColumn(data, field) {
      NumberComparePreorder(field, direction, data);
      forall a, b | a in data && b in data ensures cmp(a, b) == NumberCompare(field, direction)(a, b) {
        ValueCompareOnColumn(data, field, direction, loc, a, b);
      }
    } else if StringColumn(data, field) {
      TextComparePreorder(field, direction, loc, data);
      forall a, b | a in data && b in data ensures cmp(a, b) == TextCompare(field, direction, loc)(a, b) {
        ValueCompareOnColumn(data, field, direction, loc, a, b);
      }
    } else {
      forall a, b | a in data && b in data ensures cmp(a, b) == 0 {
        assert a == b by {
          assert |data| < 2;
        }
        var t := TextOf(a, field);
        assert loc(t, t) < 0 <==> loc(t, t) > 0;
      }
    }
  }

  /** Rows in the comparator's order are in numeric or collation order of `field`, as its kind says. */
  lemma ValueSortedMeans(rows: seq<Row>, field: string, direction: int, loc: LocaleCompare)
    requires direction == 1 || direction == -1
    requires IsCollation(loc)
    requires SortedBy(rows, ValueCompare(field, direction, loc))
    ensures NumberColumn(rows, field) ==> NumbersInOrder(rows, field, direction)
    ensures StringColumn(rows, field) ==> TextsInOrder(rows, field, direction, loc)
  {
    if NumberColumn(rows, field) {
      forall i, j | 0 <= i < j < |rows| ensures NumberCompare(field, direction)(rows[i], rows[j]) <= 0 {
        ValueCompareOnColumn(rows, field, direction, loc, rows[i], rows[j]);
      }
      NumberSortedMeans(rows, field, direction);
    }
    if StringColumn(rows, field) {
      forall i, j | 0 <= i < j < |rows| ensures TextCompare(field, direction, loc)(rows[i], rows[j]) <= 0 {
        ValueCompareOnColumn(rows, field, direction, loc, rows[i], rows[j]);
      }
      TextSortedMeans(rows, field, direction, loc);
    }
  }

  /** Descending differs from ascending only in the sign of the comparison. */
  lemma DescendingNegatesAscending(field: string, loc: LocaleCompare, a: Row, b: Row)
    ensures ValueCompare(field, -1, loc)(a, b) == -ValueCompare(field, 1, loc)(a, b)
  {
  }

  class Table {
    /** The ids of the header cells, in column order. */
    const headerIds: seq<string>
    /** The `data-order` attribute of each header cell. */
    const headerOrders: array<string>
    /** Whether the body element was rendered: only a table built with rows has one. */
    const hasBody: bool
    var data: seq<Row>

    ghost predicate Valid()
      reads this
    {
      headerOrders.Length == |headerIds|
    }

    /** Stores the rows as given, unsorted; every header cell starts with an empty order. */
    constructor (headerIds: seq<string>, data: seq<Row>)
      ensures Valid() && fresh(headerOrders)
      ensures this.headerIds == headerIds && this.data == data
      ensures hasBody <==> |data| > 0
      ensures forall k :: 0 <= k < headerOrders.Length ==> headerOrders[k] == ""
    {
      this.headerIds := headerIds;
      this.data := data;
      hasBody := |data| > 0;
      headerOrders := new string[|headerIds|](_ => "");
    }

    /** Replaces the rows, then re-renders the body, which throws when there is no body. */
    method Update(newData: seq<Row>) returns (res: Outcome<Error>)
      requires Valid()
      modifies this
      ensures Valid()
      ensures data == newData
      ensures res == if hasBody then Pass else Fail(TypeError)
    {
      data := newData;
      if !hasBody {
        return Fail(TypeError);
      }
      return Pass;
    }

    /**
     * Sorts the rows in place by `field`, then marks the first header cell
     * with id `field`; the other cells keep whatever order they had.
     */
    method Sort(field: string, order: string, loc: LocaleCompare) returns (res: Outcome<Error>)
      requires Valid()
      requires Direction(order).Some? ==> Comparable(data, field)
      modifies this, headerOrders
      ensures Valid()
      ensures Direction(order).None? ==>
        res == Fail(UnknownOrder(order)) && data == old(data) && headerOrders[..] == old(headerOrders[..])
      ensures Direction(order).Some? ==>
        && data == SortBy(old(data), ValueCompare(field, Direction(order).value, loc))
        && multiset(data) == multiset(old(data))
        && (IsCollation(loc) ==> SortedBy(data, ValueCompare(field, Direction(order).value, loc)))
        && res == (if !hasBody || field !in headerIds then Fail(TypeError) else Pass)
        && headerOrders[..] == (if res.Pass? then old(headerOrders[..])[FirstIndex(headerIds, field).value := order]
                                else old(headerOrders[..]))
    {
      var direction := Direction(order);
      if direction.None? {
        return Fail(UnknownOrder(order));
      }
      var cmp := ValueCompare(field, direction.value, loc);
      if IsCollation(loc) {
        ValueComparePreorder(data, field, direction.value, loc);
        SortBySorted(data, cmp);
      }
      var newData := SortBy(data, cmp);
      res := Update(newData);
      if res.Fail? {
        return;
      }
      var k := FirstIndex(headerIds, field);
      if k.None? {
        return Fail(TypeError);
      }
      headerOrders[k.value] := order;
    }
  }
}
