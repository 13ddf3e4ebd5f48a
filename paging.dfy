/** Sorting and paging of the vault query: the order clauses put on the
    criteria query, the result window, and the rows a window selects. */
module Paging {
  import opened Outcomes
  import opened Vault

  /** Reduces an integer to a JVM `Int`, wrapping around as 32-bit arithmetic does. */
  function WrapInt32(x: int): (r: Int32)
    ensures (r - x) % 0x1_0000_0000 == 0
    ensures -0x8000_0000 <= x < 0x8000_0000 ==> r == x
  {
    (x + 0x8000_0000) % 0x1_0000_0000 - 0x8000_0000
  }

  datatype PageSpecification = PageSpecification(pageNumber: Int32, pageSize: Int32)

  datatype Direction = ASC | DESC

  datatype SortColumn = SortColumn(columnName: string, direction: Direction)

  datatype Sort = Sort(columns: seq<SortColumn>)

  /** An order clause: `criteriaBuilder.asc(...)` or `criteriaBuilder.desc(...)` on one attribute. */
  datatype Order = Order(attribute: string, ascending: bool)

  function OrderFor(column: SortColumn): Order
  {
    Order(column.columnName, column.direction == ASC)
  }

  /** The criteria query under construction; only its ordering is modelled. */
  class CriteriaQuery {
    var orderList: seq<Order>

    constructor ()
      ensures orderList == []
    {
      orderList := [];
    }

    /** `orderBy(o)` replaces whatever ordering the query had. */
    method OrderBy(o: Order)
      modifies this
      ensures orderList == [o]
    {
      orderList := [o];
    }
  }

  /** The ordering after issuing one `orderBy` per sort column, in turn. */
  function Replay(ordering: seq<Order>, columns: seq<SortColumn>): seq<Order>
    decreases |columns|
  {
    if columns == [] then ordering else Replay([OrderFor(columns[0])], columns[1..])
  }

  /** `queryRootVaultStates.get(columnName)` throws for a name that is not an
      attribute of the vault states entity. */
  datatype SortError = UnknownSortColumn(columnName: string)

  /** Every sort column names an attribute of the entity. */
  predicate AllKnown(columns: seq<SortColumn>, attributes: set<string>)
  {
    forall i :: 0 <= i < |columns| ==> columns[i].columnName in attributes
  }

  /** Column k is the first sort column that is not an attribute. */
  predicate FirstUnknown(columns: seq<SortColumn>, attributes: set<string>, k: nat)
  {
    k < |columns| && columns[k].columnName !in attributes && AllKnown(columns[..k], attributes)
  }

  /** The sorting loop of `_queryBy`: one `orderBy` per column, in turn; the
      first column that is not an attribute of the entity throws, after the
      columns before it have been applied. */
  method ApplySorting(query: CriteriaQuery, sorting: Sort, attributes: set<string>) returns (err: Option<SortError>)
    modifies query
    ensures err.None? <==> AllKnown(sorting.columns, attributes)
    ensures err.None? ==> query.orderList == Replay(old(query.orderList), sorting.columns)
    ensures err.Some? ==>
      exists k: nat :: FirstUnknown(sorting.columns, attributes, k)
        && err.value == UnknownSortColumn(sorting.columns[k].columnName)
        && query.orderList == Replay(old(query.orderList), sorting.columns[..k])
  {
    for k := 0 to |sorting.columns|
      invariant AllKnown(sorting.columns[..k], attributes)
      invariant query.orderList == Replay(old(query.orderList), sorting.columns[..k])
    {
      var it := sorting.columns[k];
      if it.columnName !in attributes {
        assert FirstUnknown(sorting.columns, attributes, k);
        return Some(UnknownSortColumn(it.columnName));
      }
      match it.direction {
        case ASC => query.OrderBy(Order(it.columnName, true));
        case DESC => query.OrderBy(Order(it.columnName, false));
      }
      assert sorting.columns[..k + 1] == sorting.columns[..k] + [it];
      LastColumnWins(old(query.orderList), sorting.columns[..k + 1]);
    }
    assert sorting.columns[..|sorting.columns|] == sorting.columns;
    return None;
  }

  /** Only the last sort column takes effect; an empty sort leaves the ordering as it was. */
  lemma {:induction false} LastColumnWins(ordering: seq<Order>, columns: seq<SortColumn>)
    ensures columns == [] ==> Replay(ordering, columns) == ordering
    ensures columns != [] ==> Replay(ordering, columns) == [OrderFor(columns[|columns| - 1])]
    decreases |columns|
  {
    if columns != [] {
      LastColumnWins([OrderFor(columns[0])], columns[1..]);
    }
  }

  /** With two or more columns the primary (first) sort key is lost unless
      the last column orders the same way, so ties on the primary key are not
      broken by the later ones. */
  lemma PrimaryKeyDropped(ordering: seq<Order>, columns: seq<SortColumn>)
    requires |columns| >= 2 && OrderFor(columns[0]) != OrderFor(columns[|columns| - 1])
    ensures OrderFor(columns[0]) !in Replay(ordering, columns)
    ensures |Replay(ordering, columns)| == 1
  {
    LastColumnWins(ordering, columns);
  }

  /** Where a page starts and how many rows it holds: `query.firstResult` and `query.maxResults`. */
  datatype Window = Window(firstResult: Int32, maxResults: Int32)

  function PageWindow(paging: PageSpecification): (w: Window)
    ensures w.maxResults == paging.pageSize
    ensures (w.firstResult - paging.pageNumber * paging.pageSize) % 0x1_0000_0000 == 0
  {
    Window(WrapInt32(paging.pageNumber * paging.pageSize), paging.pageSize)
  }

  /** When the product fits in an `Int`, the page starts at pageNumber * pageSize. */
  lemma PageOffset(paging: PageSpecification)
    requires -0x8000_0000 <= paging.pageNumber * paging.pageSize < 0x8000_0000
    ensures PageWindow(paging).firstResult == paging.pageNumber * paging.pageSize
  {
  }

  /** The product overflows for large pages: page 65536 of size 65536 starts at row 0. */
  lemma PageOffsetWraps()
    ensures PageWindow(PageSpecification(0x1_0000, 0x1_0000)).firstResult == 0
  {
  }

  /** The window cannot be set: a negative first result or maximum. */
  datatype PagingError = NegativeFirstResult(firstResult: Int32) | NegativeMaxResults(maxResults: Int32)

  /** The rows the storage engine returns for a window over the ordered rows,
      per the JPA query contract (negative arguments are refused). */
  function Slice<R>(rows: seq<R>, w: Window): (r: Result<seq<R>, PagingError>)
    ensures r.Success? <==> w.firstResult >= 0 && w.maxResults >= 0
    ensures r.Success? ==>
      && |r.value| == (if w.firstResult >= |rows| then 0
                       else if w.firstResult + w.maxResults <= |rows| then w.maxResults
                       else |rows| - w.firstResult)
      && forall k :: 0 <= k < |r.value| ==> r.value[k] == rows[w.firstResult + k]
  {
    if w.firstResult < 0 then Failure(NegativeFirstResult(w.firstResult))
    else if w.maxResults < 0 then Failure(NegativeMaxResults(w.maxResults))
    else
      var start := if w.firstResult <= |rows| then w.firstResult else |rows|;
      var end := if start + w.maxResults <= |rows| then start + w.maxResults else |rows|;
      Success(rows[start..end])
  }

  /** Two windows of one size, the second starting where the first ends,
      select adjacent rows. */
  lemma {:induction false} AdjacentWindows<R>(rows: seq<R>, start: Int32, size: Int32)
    requires 0 <= start && 0 <= size && start + size < 0x8000_0000
    ensures
      var first := Slice(rows, Window(start, size));
      var second := Slice(rows, Window(start + size, size));
      var from := if start <= |rows| then start else |rows|;
      var to := if start + 2 * size <= |rows| then start + 2 * size else |rows|;
      first.Success? && second.Success? && first.value + second.value == rows[from..to]
  {
  }

  /** Page 1 of size 10 is rows 10 to 19 of the ordered rows. */
  lemma SecondPageOfTen<R>(rows: seq<R>)
    requires |rows| >= 20
    ensures Slice(rows, PageWindow(PageSpecification(1, 10))) == Success(rows[10..20])
  {
  }

  lemma MulSucc(n: int, size: int)
    requires 0 <= n && 0 <= size
    ensures (n + 1) * size == n * size + size
    ensures 0 <= n * size
  {
  }

  /** Consecutive pages of the same size start one page size apart, so their
      windows are adjacent (see AdjacentWindows). */
  lemma ConsecutivePagesAdjacent(paging: PageSpecification)
    requires 0 <= paging.pageNumber < 0x7fff_ffff && paging.pageSize >= 0
    requires (paging.pageNumber + 1) * paging.pageSize < 0x8000_0000
    ensures 0 <= PageWindow(paging).firstResult
    ensures PageWindow(PageSpecification(paging.pageNumber + 1, paging.pageSize)).firstResult ==
            PageWindow(paging).firstResult + paging.pageSize
  {
    MulSucc(paging.pageNumber, paging.pageSize);
    PageOffset(paging);
    PageOffset(PageSpecification(paging.pageNumber + 1, paging.pageSize));
  }

  /** Once the next page's offset no longer fits in an `Int`, it wraps: page 2
      of size 2^31 - 1 starts at -2, not one page after page 1. */
  lemma ConsecutivePagesWrap()
    ensures PageWindow(PageSpecification(1, 0x7fff_ffff)).firstResult == 0x7fff_ffff
    ensures PageWindow(PageSpecification(2, 0x7fff_ffff)).firstResult == -2
  {
  }
}
