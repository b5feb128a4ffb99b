/**
 * `SortableTable`, second revision: each column says how it sorts
 * (`sortType`), a click on a sortable header re-sorts, and after a sort
 * exactly one header cell shows an order. Construction sorts at once.
 */
module SortableTableV2 {
  import opened Wrappers
  import opened Sorting
  import opened Collation
  import opened Rows

  /** A column's `sortType`: a name ("number", "string", anything else) or a user function. */
  datatype SortType =
    | Named(name: string)
    | Function(result: int) // called with no arguments; `result` is what it returns

  datatype Column = Column(id: string, sortType: SortType)

  /** The `id` of a header configuration entry. */
  function ColumnId(column: Column): string {
    column.id
  }

  /**
   * The comparator for a `sortType`: "number" subtracts, a function is
   * called with no arguments, anything else compares with the collation.
   */
  function SortTypeCompare(sortType: SortType, field: string, direction: int, loc: LocaleCompare): (Row, Row) -> int {
    match sortType
    case Named(name) => if name == "number" then NumberCompare(field, direction) else TextCompare(field, direction, loc)
    case Function(result) => (a: Row, b: Row) => direction * result
  }

  /**
   * The rows a `sortType` can order without throwing or comparing non-numbers:
   * with fewer than two rows nothing is compared; "number" needs numbers, a
   * collation needs strings, a function needs nothing.
   */
  predicate Sortable(data: seq<Row>, field: string, sortType: SortType) {
    |data| < 2 ||
    match sortType
    case Named(name) => if name == "number" then NumberColumn(data, field) else StringColumn(data, field)
    case Function(_) => true
  }

  /** Whether the comparator of a `sortType` is consistent for every pair of rows. */
  predicate Consistent(sortType: SortType) {
    sortType.Function? ==> sortType.result == 0
  }

  lemma SortTypeComparePreorder(sortType: SortType, field: string, direction: int, loc: LocaleCompare, data: seq<Row>)
    requires direction == 1 || direction == -1
    requires IsCollation(loc) && Consistent(sortType)
    ensures PreorderOn(SortTypeCompare(sortType, field, direction, loc), data)
  {
    match sortType
    case Named(name) =>
      if name == "number" {
        NumberComparePreorder(field, direction, data);
      } else {
        TextComparePreorder(field, direction, loc, data);
      }
    case Function(_) =>
  }

  /** A function answering the same number for every pair, in a direction that makes it non-positive, keeps the rows as they are. */
  lemma FunctionSortKeepsOrder(data: seq<Row>, field: string, direction: int, result: int, loc: LocaleCompare)
    requires direction * result <= 0
    ensures SortBy(data, SortTypeCompare(Function(result), field, direction, loc)) == data
  {
    assert SortTypeCompare(Function(result), field, direction, loc) == (a: Row, b: Row) => direction * result;
    ConstantComparatorKeepsOrder(data, direction * result);
  }

  /**
   * The click state machine: the sorted field clicked again flips
   * "desc" to "asc" and anything else to "desc"; another field becomes the
   * sorted field with "desc".
   */
  function NextSorted(id: string, order: string, field: string): (next: (string, string))
    ensures next.0 == field
    ensures next.1 == "asc" || next.1 == "desc"
    ensures next.1 == "asc" <==> field == id && order == "desc"
  {
    if field == id then (id, if order == "desc" then "asc" else "desc")
    else (field, "desc")
  }

  /** Clicking the same header twice comes back to where it started, once the order is "asc" or "desc". */
  lemma ClickTwice(id: string, order: string)
    requires order == "asc" || order == "desc"
    ensures var (id1, order1) := NextSorted(id, order, id); NextSorted(id1, order1, id) == (id, order)
  {
  }

  /** The header orders after a sort: `order` on cell `k`, "" on every other cell. */
  function Marked(n: nat, k: nat, order: string): (orders: seq<string>)
    requires k < n
    ensures |orders| == n
    ensures order != "" ==> forall j :: 0 <= j < n ==> (orders[j] != "" <==> j == k)
    ensures orders[k] == order
  {
    seq(n, j => if j == k then order else "")
  }

  class Table {
    const columns: seq<Column>
    /** The `data-order` attribute of each header cell, one per column. */
    const headerOrders: array<string>
    /** Whether the body element was rendered: only a table built with rows has one. */
    const hasBody: bool
    var data: seq<Row>
    /** `this.sorted`: the field and order of the last requested sort. */
    var sortedId: string
    var sortedOrder: string

    ghost predicate Valid()
      reads this
    {
      headerOrders.Length == |columns|
    }

    /**
     * What `sort(field, order)` leaves behind, from the rows `oldData` and the
     * header orders `oldOrders` it started with.
     */
    ghost predicate SortedFrom(oldData: seq<Row>, oldOrders: seq<string>, field: string, order: string,
                               loc: LocaleCompare, res: Outcome<Error>)
      reads this, headerOrders
      requires Valid()
    {
      match Direction(order)
      case None => res == Fail(UnknownOrder(order)) && data == oldData && headerOrders[..] == oldOrders
      case Some(direction) =>
        match FirstIndex(Ids(columns, ColumnId), field)
        case None => res == Fail(TypeError) && data == oldData && headerOrders[..] == oldOrders
        case Some(k) =>
          && data == SortBy(oldData, SortTypeCompare(columns[k].sortType, field, direction, loc))
          && res == (if hasBody then Pass else Fail(TypeError))
          && headerOrders[..] == (if hasBody then Marked(|columns|, k, order) else oldOrders)
    }

    /** The sort precondition: the rows can be compared the way the column of `field` asks. */
    predicate CanSort(field: string, order: string)
      reads this
    {
      Direction(order).Some? && field in Ids(columns, ColumnId) ==>
        Sortable(data, field, columns[FirstIndex(Ids(columns, ColumnId), field).value].sortType)
    }

    /** Stores the configuration, rows and sort state; every header cell starts with an empty order. */
    constructor Init(columns: seq<Column>, data: seq<Row>, sortedId: string, sortedOrder: string)
      ensures Valid() && fresh(headerOrders)
      ensures this.columns == columns && this.data == data
      ensures this.sortedId == sortedId && this.sortedOrder == sortedOrder
      ensures hasBody <==> |data| > 0
      ensures headerOrders[..] == seq(|columns|, _ => "")
    {
      this.columns := columns;
      this.data := data;
      this.sortedId := sortedId;
      this.sortedOrder := sortedOrder;
      hasBody := |data| > 0;
      headerOrders := new string[|columns|](_ => "");
    }

    /** Replaces the rows, then re-renders the body, which throws when there is no body. */
    method Update(newData: seq<Row>) returns (res: Outcome<Error>)
      requires Valid()
      modifies this
      ensures Valid()
      ensures data == newData
      ensures sortedId == old(sortedId) && sortedOrder == old(sortedOrder)
      ensures res == if hasBody then Pass else Fail(TypeError)
    {
      data := newData;
      if !hasBody {
        return Fail(TypeError);
      }
      return Pass;
    }

    /**
     * Checks the order, looks up the column of `field`, sorts the rows in
     * place with that column's comparator, clears every header cell and marks
     * the cell of `field`.
     */
    method Sort(field: string, order: string, loc: LocaleCompare) returns (res: Outcome<Error>)
      requires Valid() && CanSort(field, order)
      modifies this, headerOrders
      ensures Valid()
      ensures sortedId == old(sortedId) && sortedOrder == old(sortedOrder)
      ensures SortedFrom(old(data), old(headerOrders[..]), field, order, loc, res)
      ensures multiset(data) == multiset(old(data))
      ensures Direction(order).Some? && field in Ids(columns, ColumnId) && IsCollation(loc)
              && Consistent(columns[FirstIndex(Ids(columns, ColumnId), field).value].sortType) ==>
                SortedBy(data, SortTypeCompare(columns[FirstIndex(Ids(columns, ColumnId), field).value].sortType,
                                               field, Direction(order).value, loc))
    {
      var direction := Direction(order);
      if direction.None? {
        return Fail(UnknownOrder(order));
      }
      var k := FirstIndex(Ids(columns, ColumnId), field);
      if k.None? {
        return Fail(TypeError);
      }
      var cmp := SortTypeCompare(columns[k.value].sortType, field, direction.value, loc);
      if IsCollation(loc) && Consistent(columns[k.value].sortType) {
        SortTypeComparePreorder(columns[k.value].sortType, field, direction.value, loc, data);
        SortBySorted(data, cmp);
      }
      var newData := SortBy(data, cmp);
      res := Update(newData);
      if res.Fail? {
        return;
      }
      MarkHeader(k.value, order);
    }

    /** Clears the order of every header cell, then sets `order` on cell `k`. */
    method MarkHeader(k: nat, order: string)
      requires Valid() && k < |columns|
      modifies headerOrders
      ensures headerOrders[..] == Marked(|columns|, k, order)
    {
      var j := 0;
      while j < headerOrders.Length
        invariant 0 <= j <= headerOrders.Length
        invariant forall m :: 0 <= m < j ==> headerOrders[m] == ""
      {
        headerOrders[j] := "";
        j := j + 1;
      }
      headerOrders[k] := order;
      assert headerOrders[..] == Marked(|columns|, k, order);
    }

    /** A click on the header cell of `field`: step the sort state, then sort by it. */
    method OnPointerDown(field: string, loc: LocaleCompare) returns (res: Outcome<Error>)
      requires Valid()
      requires var (_, order) := NextSorted(sortedId, sortedOrder, field); CanSort(field, order)
      modifies this, headerOrders
      ensures Valid()
      ensures (sortedId, sortedOrder) == NextSorted(old(sortedId), old(sortedOrder), field)
      ensures SortedFrom(old(data), old(headerOrders[..]), sortedId, sortedOrder, loc, res)
      ensures res != Fail(UnknownOrder(sortedOrder))
    {
      if field == sortedId {
        sortedOrder := if sortedOrder == "desc" then "asc" else "desc";
      } else {
        sortedId := field;
        sortedOrder := "desc";
      }
      res := Sort(sortedId, sortedOrder, loc);
    }
  }

  /**
   * `new SortableTable(columns, {data, sorted})`: renders, then sorts by
   * `sorted`. The sort throws out of the constructor for an unknown order, a
   * field without a column, or a table built without rows.
   */
  method Create(columns: seq<Column>, data: seq<Row>, sortedId: string, sortedOrder: string, loc: LocaleCompare)
    returns (r: Result<Table, Error>)
    requires Direction(sortedOrder).Some? && sortedId in Ids(columns, ColumnId) ==>
      Sortable(data, sortedId, columns[FirstIndex(Ids(columns, ColumnId), sortedId).value].sortType)
    ensures r.Failure? <==> Direction(sortedOrder).None? || sortedId !in Ids(columns, ColumnId) || |data| == 0
    ensures Direction(sortedOrder).None? ==> r == Failure(UnknownOrder(sortedOrder))
    ensures r.Success? ==>
      && fresh(r.value) && r.value.Valid()
      && r.value.columns == columns && r.value.hasBody
      && r.value.sortedId == sortedId && r.value.sortedOrder == sortedOrder
      && var k := FirstIndex(Ids(columns, ColumnId), sortedId).value;
         && r.value.data == SortBy(data, SortTypeCompare(columns[k].sortType, sortedId, Direction(sortedOrder).value, loc))
         && r.value.headerOrders[..] == Marked(|columns|, k, sortedOrder)
  {
    var t := new Table.Init(columns, data, sortedId, sortedOrder);
    var res := t.Sort(sortedId, sortedOrder, loc);
    if res.Fail? {
      return Failure(res.error);
    }
    return Success(t);
  }
}
