/**
 * `SortableTable`, third revision: rows come from a server a page at a time.
 * Each header cell stores its own order, which a click toggles; the sort
 * is either asked of the server or done on the client. Scrolling to the
 * bottom of the table fetches the next page.
 *
 * A fetch is split into the step that issues it (recorded in `requests`)
 * and a later step that receives its result.
 */
module SortableTableV3 {
  import opened Wrappers
  import opened Sorting
  import opened Collation
  import opened Rows

  /**
   * A column of the header configuration. `customSorting` is the comparator
   * used when `sortType` is "custom".
   */
  datatype Column = Column(id: string, sortable: bool, sortType: string, customSorting: (Row, Row) -> int)

  /** The `id` of a header configuration entry. */
  function ColumnId(column: Column): string {
    column.id
  }

  // ---------------------------------------------------------------------------
  // Orders

  /** "asc" and "desc" swap; any other order has no toggle (`undefined`). */
  function ToggleOrder(order: string): (r: Option<string>)
    ensures r.Some? <==> order == "asc" || order == "desc"
    ensures r == Some("desc") <==> order == "asc"
    ensures r == Some("asc") <==> order == "desc"
  {
    if order == "asc" then Some("desc") else if order == "desc" then Some("asc") else None
  }

  /** Toggling twice gives the order back. */
  lemma ToggleInvolution(order: string)
    requires order == "asc" || order == "desc"
    ensures ToggleOrder(ToggleOrder(order).value) == Some(order)
  {
  }

  /**
   * An order as a string attribute or query parameter holds it: `undefined`
   * is written as "undefined", which toggles, compares and is sent exactly
   * as `undefined` is.
   */
  function OrderText(order: Option<string>): (s: string)
    ensures ToggleOrder(s).Some? <==> order == Some("asc") || order == Some("desc")
  {
    match order
    case None => "undefined"
    case Some(o) => o
  }

  /** The order a header cell is rendered with: the sorted order on the sorted column, "asc" elsewhere. */
  function HeaderOrder(sortedId: string, sortedOrder: string, id: string): string {
    if id == sortedId then sortedOrder else "asc"
  }

  /** The index of the first sortable column. */
  function FirstSortable(columns: seq<Column>): (k: Option<nat>)
    ensures k.None? <==> forall j :: 0 <= j < |columns| ==> !columns[j].sortable
    ensures k.Some? ==> k.value < |columns| && columns[k.value].sortable
    ensures k.Some? ==> forall j :: 0 <= j < k.value ==> !columns[j].sortable
  {
    if columns == [] then None
    else if columns[0].sortable then Some(0)
    else
      match FirstSortable(columns[1..])
      case None => None
      case Some(k) => Some(k + 1)
  }

  /**
   * The default of `sorted`: the first sortable column, ascending. Without a
   * sortable column, reading its id throws.
   */
  function DefaultSorted(columns: seq<Column>): (r: Result<(string, string), Error>)
    ensures r.Failure? <==> forall j :: 0 <= j < |columns| ==> !columns[j].sortable
    ensures r.Failure? ==> r.error == TypeError
    ensures r.Success? ==>
      && r.value.1 == "asc"
      && exists k :: 0 <= k < |columns| && columns[k].sortable && columns[k].id == r.value.0 &&
                     forall j :: 0 <= j < k ==> !columns[j].sortable
  {
    match FirstSortable(columns)
    case None => Failure(TypeError)
    case Some(k) => Success((columns[k].id, "asc"))
  }

  /** Under the default sort every header cell starts with "asc". */
  lemma DefaultSortedHeadersAsc(columns: seq<Column>)
    requires DefaultSorted(columns).Success?
    ensures var (id, order) := DefaultSorted(columns).value;
      forall k :: 0 <= k < |columns| ==> HeaderOrder(id, order, columns[k].id) == "asc"
  {
  }

  // ---------------------------------------------------------------------------
  // Fetching

  /** The query parameters of `loadData(id, order, start, count)`. */
  datatype Query = Query(sort: string, order: string, start: int, end: int)

  /** `_start` is `start` and `_end` is `start + count`. */
  function LoadQuery(id: string, order: string, start: int, count: int): (q: Query)
    ensures q.end - q.start == count
  {
    Query(id, order, start, start + count)
  }

  /** What a fetch gives back: rows, or a failure, which `loadData` swallows. */
  datatype FetchResult = Fetched(rows: seq<Row>) | FetchFailed

  /** The rows `loadData` resolves to: a failed fetch gives none. */
  function LoadResult(result: FetchResult): (rows: seq<Row>)
    ensures result.FetchFailed? ==> rows == []
  {
    match result
    case Fetched(rows) => rows
    case FetchFailed => []
  }

  /**
   * The callers pass `start + count` as the count of `loadData`, so the
   * window asked for at offset `start` is `[start, 2 * start + count)`.
   */
  lemma CallerWindow(id: string, order: string, start: int, count: int)
    ensures LoadQuery(id, order, start, start + count) == Query(id, order, start, 2 * start + count)
  {
  }

  /**
   * From the second scroll on, a page's window begins inside the window of
   * the page before it, so consecutive pages overlap.
   */
  lemma ScrollWindowsOverlap(id: string, order: string, start: int, count: int)
    requires 0 < count < start
    ensures var previous := LoadQuery(id, order, start - count, start - count + count);
            var next := LoadQuery(id, order, start, start + count);
            previous.start < next.start < previous.end
  {
  }

  // ---------------------------------------------------------------------------
  // Sorting on the client

  /** `order === "asc" ? 1 : -1`. */
  function ClientDirection(order: string): (d: int)
    ensures d == 1 || d == -1
    ensures d == 1 <==> order == "asc"
  {
    if order == "asc" then 1 else -1
  }

  predicate KnownSortType(sortType: string) {
    sortType == "number" || sortType == "string" || sortType == "custom"
  }

  /** The comparator of `sortOnClient` for a column of known sort type. */
  function ClientCompare(column: Column, direction: int, loc: LocaleCompare): (Row, Row) -> int {
    if column.sortType == "number" then NumberCompare(column.id, direction)
    else if column.sortType == "string" then TextCompare(column.id, direction, loc)
    else (a: Row, b: Row) => direction * column.customSorting(a, b)
  }

  /**
   * The rows `sortOnClient` can compare by a column: with fewer than two rows
   * nothing is compared; "number" needs numbers and "string" needs strings.
   */
  predicate ClientSortable(data: seq<Row>, column: Column) {
    |data| < 2 ||
    ((column.sortType == "number" ==> NumberColumn(data, column.id)) &&
     (column.sortType == "string" ==> StringColumn(data, column.id)))
  }

  /** The precondition of `SortOnClient`: the column of `id`, if any, can compare the rows. */
  predicate CanSortOnClient(data: seq<Row>, columns: seq<Column>, id: string) {
    id in Ids(columns, ColumnId) ==> ClientSortable(data, columns[FirstIndex(Ids(columns, ColumnId), id).value])
  }

  /**
   * `sortOnClient(id, order)`: a sorted copy of the rows. A missing column
   * throws; an unknown sort type throws from the comparator, which is called
   * only when there are at least two rows.
   */
  function SortOnClient(data: seq<Row>, columns: seq<Column>, id: string, order: string, loc: LocaleCompare)
    : (r: Result<seq<Row>, Error>)
    requires CanSortOnClient(data, columns, id)
    ensures r.Failure? <==>
      id !in Ids(columns, ColumnId) ||
      (|data| >= 2 && !KnownSortType(columns[FirstIndex(Ids(columns, ColumnId), id).value].sortType))
    ensures r.Success? ==> multiset(r.value) == multiset(data)
  {
    match FirstIndex(Ids(columns, ColumnId), id)
    case None => Failure(TypeError)
    case Some(k) =>
      if |data| >= 2 && !KnownSortType(columns[k].sortType) then Failure(UnknownSortType(columns[k].sortType))
      else Success(SortBy(data, ClientCompare(columns[k], ClientDirection(order), loc)))
  }

  /** The comparator of a known sort type is consistent, given a consistent `customSorting` for "custom". */
  lemma ClientComparePreorder(column: Column, direction: int, loc: LocaleCompare, data: seq<Row>)
    requires direction == 1 || direction == -1
    requires KnownSortType(column.sortType) && IsCollation(loc)
    requires column.sortType == "custom" ==> PreorderOn(column.customSorting, data)
    ensures PreorderOn(ClientCompare(column, direction, loc), data)
  {
    if column.sortType == "number" {
      NumberComparePreorder(column.id, direction, data);
    } else if column.sortType == "string" {
      TextComparePreorder(column.id, direction, loc, data);
    } else {
      ScaledPreorder(column.customSorting, direction, data);
      assert ClientCompare(column, direction, loc) == (a: Row, b: Row) => direction * column.customSorting(a, b);
    }
  }

  /**
   * The copy is in the column's order, in the direction asked, whenever the
   * comparator is consistent: always for "number" and "string", and for
   * "custom" when `customSorting` is.
   */
  lemma SortOnClientSorted(data: seq<Row>, columns: seq<Column>, id: string, order: string, loc: LocaleCompare)
    requires CanSortOnClient(data, columns, id)
    requires IsCollation(loc)
    requires SortOnClient(data, columns, id, order, loc).Success?
    requires var column := columns[FirstIndex(Ids(columns, ColumnId), id).value];
      column.sortType == "custom" ==> PreorderOn(column.customSorting, data)
    ensures var column := columns[FirstIndex(Ids(columns, ColumnId), id).value];
      SortedBy(SortOnClient(data, columns, id, order, loc).value, ClientCompare(column, ClientDirection(order), loc))
  {
    var column := columns[FirstIndex(Ids(columns, ColumnId), id).value];
    var cmp := ClientCompare(column, ClientDirection(order), loc);
    assert SortOnClient(data, columns, id, order, loc).value == SortBy(data, cmp);
    if |data| >= 2 {
      ClientComparePreorder(column, ClientDirection(order), loc, data);
      SortBySorted(data, cmp);
    }
  }

  // ---------------------------------------------------------------------------
  // The table

  class Table {
    const columns: seq<Column>
    const isSortLocally: bool
    /** The page size. */
    const count: nat
    /** The `data-order` attribute of each header cell, one per column. */
    const headerOrders: array<string>
    /** `this.sorted`. */
    var sortedId: string
    var sortedOrder: string
    /** The offset of the last page asked for. */
    var start: nat
    /** The rows of the last full load; scrolled-in pages are not added. */
    var data: seq<Row>
    /** The rows rendered in the body element. */
    var body: seq<Row>
    /** Whether the table carries the "empty" class. */
    var isEmpty: bool
    var isLoading: bool
    /** Set once a scroll fetch comes back empty; nothing resets it. */
    var hasLoaded: bool
    /** Every query sent, in order. */
    var requests: seq<Query>

    ghost predicate Valid()
      reads this
    {
      && headerOrders.Length == |columns|
      && count == 10
      && start % count == 0
      && (isLoading ==> !isSortLocally)
    }

    /**
     * Renders the header, each cell with its `HeaderOrder`, and an empty body,
     * then asks for the first page sorted by `sorted`.
     */
    constructor Init(columns: seq<Column>, sortedId: string, sortedOrder: string, isSortLocally: bool)
      ensures Valid() && fresh(headerOrders)
      ensures this.columns == columns && this.isSortLocally == isSortLocally
      ensures this.sortedId == sortedId && this.sortedOrder == sortedOrder
      ensures forall k :: 0 <= k < |columns| ==> headerOrders[k] == HeaderOrder(sortedId, sortedOrder, columns[k].id)
      ensures start == 0 && data == [] && body == [] && !isEmpty && !isLoading && !hasLoaded
      ensures requests == [LoadQuery(sortedId, sortedOrder, 0, 0 + count)]
    {
      this.columns := columns;
      this.isSortLocally := isSortLocally;
      this.sortedId := sortedId;
      this.sortedOrder := sortedOrder;
      count := 10;
      start := 0;
      data := [];
      body := [];
      isEmpty := false;
      isLoading := false;
      hasLoaded := false;
      headerOrders := new string[|columns|](k requires 0 <= k < |columns| => HeaderOrder(sortedId, sortedOrder, columns[k].id));
      requests := [LoadQuery(sortedId, sortedOrder, 0, 0 + 10)];
    }

    /** Renders the rows, or marks the table empty and leaves the old body in place. */
    method Update()
      requires Valid()
      modifies this
      ensures Valid()
      ensures |data| > 0 ==> body == data && !isEmpty
      ensures |data| == 0 ==> body == old(body) && isEmpty
      ensures data == old(data) && sortedId == old(sortedId) && sortedOrder == old(sortedOrder)
      ensures start == old(start) && isLoading == old(isLoading) && hasLoaded == old(hasLoaded)
      ensures requests == old(requests)
    {
      if |data| > 0 {
        body := data;
        isEmpty := false;
      } else {
        isEmpty := true;
      }
    }

    /** The rest of a full load (the first render, or a sort on the server): the rows replace `data`. */
    method CompleteLoad(result: FetchResult)
      requires Valid()
      modifies this
      ensures Valid()
      ensures data == LoadResult(result)
      ensures |data| > 0 ==> body == data && !isEmpty
      ensures |data| == 0 ==> body == old(body) && isEmpty
      ensures sortedId == old(sortedId) && sortedOrder == old(sortedOrder)
      ensures start == old(start) && isLoading == old(isLoading) && hasLoaded == old(hasLoaded)
      ensures requests == old(requests)
    {
      data := LoadResult(result);
      Update();
    }

    /**
     * A click on the header. `target` is the column the click landed in, if
     * any; a column that is not sortable is not found by `closest` and the
     * click does nothing. Otherwise the column's stored order is toggled and
     * becomes the sorted order, `start` returns to 0, and the sort runs: on
     * the client, whose result is dropped, or on the server, whose answer
     * comes later through `CompleteLoad`. The header cell keeps the new order
     * unless the client sort throws.
     */
    method OnSortClick(target: Option<nat>, loc: LocaleCompare) returns (res: Outcome<Error>)
      requires Valid()
      requires target.Some? ==> target.value < |columns|
      requires target.Some? && columns[target.value].sortable && isSortLocally ==>
        CanSortOnClient(data, columns, columns[target.value].id)
      modifies this, headerOrders
      ensures Valid()
      ensures data == old(data) && body == old(body) && isEmpty == old(isEmpty)
      ensures isLoading == old(isLoading) && hasLoaded == old(hasLoaded)
      ensures target.None? || !columns[target.value].sortable ==>
        && res == Pass && sortedId == old(sortedId) && sortedOrder == old(sortedOrder) && start == old(start)
        && requests == old(requests) && headerOrders[..] == old(headerOrders[..])
      ensures target.Some? && columns[target.value].sortable ==>
        var k := target.value;
        var newOrder := OrderText(ToggleOrder(old(headerOrders[k])));
        && sortedId == columns[k].id && sortedOrder == newOrder && start == 0
        && (isSortLocally ==>
              && requests == old(requests)
              && res == (match SortOnClient(old(data), columns, sortedId, newOrder, loc)
                         case Failure(e) => Fail(e)
                         case Success(_) => Pass))
        && (!isSortLocally ==> requests == old(requests) + [LoadQuery(sortedId, newOrder, 0, 0 + count)] && res == Pass)
        && headerOrders[..] == (if res.Pass? then old(headerOrders[..])[k := newOrder] else old(headerOrders[..]))
    {
      if target.None? || !columns[target.value].sortable {
        return Pass;
      }
      var k := target.value;
      var newOrder := OrderText(ToggleOrder(headerOrders[k]));
      sortedId := columns[k].id;
      sortedOrder := newOrder;
      start := 0;
      if isSortLocally {
        var sorted := SortOnClient(data, columns, sortedId, sortedOrder, loc);
        if sorted.Failure? {
          return Fail(sorted.error);
        }
      } else {
        requests := requests + [LoadQuery(sortedId, sortedOrder, start, start + count)];
      }
      headerOrders[k] := newOrder;
      return Pass;
    }

    /**
     * The part of the scroll handler before its `await`. Nothing happens once
     * everything is loaded, while a page is loading, or when the table's bottom
     * is not above the bottom of the viewport. Otherwise `start` moves on by a
     * page first, and the page is asked for from the new `start`.
     */
    method BeginScroll(nearBottom: bool)
      requires Valid() && !isSortLocally
      modifies this
      ensures Valid()
      ensures data == old(data) && body == old(body) && isEmpty == old(isEmpty) && hasLoaded == old(hasLoaded)
      ensures sortedId == old(sortedId) && sortedOrder == old(sortedOrder)
      ensures old(hasLoaded) || !nearBottom || old(isLoading) ==>
        start == old(start) && isLoading == old(isLoading) && requests == old(requests)
      ensures !old(hasLoaded) && nearBottom && !old(isLoading) ==>
        && isLoading && start == old(start) + count
        && requests == old(requests) + [LoadQuery(sortedId, sortedOrder, start, start + count)]
    {
      if hasLoaded {
        return;
      }
      if nearBottom && !isLoading {
        isLoading := true;
        start := start + count;
        requests := requests + [LoadQuery(sortedId, sortedOrder, start, start + count)];
      }
    }

    /**
     * The part of the scroll handler after its `await`: a non-empty page is
     * appended to the body only; an empty one (a failed fetch included) marks
     * everything as loaded.
     */
    method CompleteScroll(result: FetchResult)
      requires Valid() && isLoading
      modifies this
      ensures Valid()
      ensures !isLoading
      ensures |LoadResult(result)| > 0 ==> body == old(body) + LoadResult(result) && hasLoaded == old(hasLoaded)
      ensures |LoadResult(result)| == 0 ==> body == old(body) && hasLoaded
      ensures data == old(data) && isEmpty == old(isEmpty) && start == old(start)
      ensures sortedId == old(sortedId) && sortedOrder == old(sortedOrder) && requests == old(requests)
    {
      isLoading := false;
      var rows := LoadResult(result);
      if |rows| > 0 {
        body := body + rows;
      } else {
        hasLoaded := true;
      }
    }
  }

  /**
   * `new SortableTable(columns, {sorted, isSortLocally})`. Without `sorted`
   * the default is computed, which throws when no column is sortable.
   */
  method Create(columns: seq<Column>, sorted: Option<(string, string)>, isSortLocally: bool)
    returns (r: Result<Table, Error>)
    ensures sorted.Some? ==> r.Success?
    ensures sorted.None? ==> (r.Failure? <==> DefaultSorted(columns).Failure?)
    ensures r.Success? ==>
      var (id, order) := if sorted.Some? then sorted.value else DefaultSorted(columns).value;
      && fresh(r.value) && r.value.Valid()
      && r.value.sortedId == id && r.value.sortedOrder == order
      && r.value.columns == columns && r.value.isSortLocally == isSortLocally
      && (forall k :: 0 <= k < |columns| ==> r.value.headerOrders[k] == HeaderOrder(id, order, columns[k].id))
      && r.value.start == 0 && r.value.data == [] && r.value.body == []
      && !r.value.isEmpty && !r.value.isLoading && !r.value.hasLoaded
      && r.value.requests == [Query(id, order, 0, 10)]
  {
    var chosen: (string, string);
    if sorted.Some? {
      chosen := sorted.value;
    } else {
      var d := DefaultSorted(columns);
      if d.Failure? {
        return Failure(d.error);
      }
      chosen := d.value;
    }
    var (id, order) := chosen;
    var t := new Table.Init(columns, id, order, isSortLocally);
    return Success(t);
  }
}
