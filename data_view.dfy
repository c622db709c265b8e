/** The page's module-level state and the handlers that update it: the search box,
    the sortable headers, the pagination bar, and the redraw that follows each of them. */
module DataView {
  import opened Clients
  import Filter
  import Sorting
  import Pagination

  class ClientTable {
    /** `allClients`: the working collection, narrowed and reordered in place. */
    var clients: seq<Client>
    var currentPage: int
    var sortColumn: string
    var sortOrder: Sorting.Order
    /** The collection as last loaded. */
    ghost var loaded: seq<Client>

    /** The working collection is always drawn from the loaded one. */
    ghost predicate Valid()
      reads this
    {
      multiset(clients) <= multiset(loaded)
    }

    function SortState(): Sorting.SortState
      reads this
    {
      Sorting.SortState(sortColumn, sortOrder)
    }

    /** The state when the script starts: no records, page 1, no sort column, ascending. */
    constructor ()
      ensures Valid()
      ensures clients == [] && loaded == [] && currentPage == 1
      ensures SortState() == Sorting.INITIAL_SORT
    {
      clients := [];
      loaded := [];
      currentPage := 1;
      sortColumn := "";
      sortOrder := Sorting.Asc;
    }

    /** A successful load replaces the collection; page and sort state are kept. */
    method Load(data: seq<Client>)
      modifies this
      ensures Valid()
      ensures clients == data && loaded == data
      ensures currentPage == old(currentPage) && SortState() == old(SortState())
    {
      clients := data;
      loaded := data;
    }

    /** `filterData`: narrows the current collection, not the loaded one, and keeps the page. */
    method FilterData(query: string)
      requires Valid()
      modifies this
      ensures Valid()
      ensures clients == Filter.FilterClients(old(clients), query)
      ensures currentPage == old(currentPage) && SortState() == old(SortState())
      ensures loaded == old(loaded)
    {
      Filter.FilterSubMultiset(clients, query);
      clients := Filter.FilterClients(clients, query);
    }

    /** `sort`: toggles the sort state, then reorders the collection by the column with
        the new order; the page is kept. */
    method Sort(column: string)
      requires Valid()
      modifies this
      ensures Valid()
      ensures SortState() == Sorting.Toggle(old(SortState()), column)
      ensures clients == Sorting.SortBy(old(clients), FieldNamed(column), sortOrder)
      ensures currentPage == old(currentPage) && loaded == old(loaded)
    {
      if sortColumn == column {
        sortOrder := Sorting.Flip(sortOrder);
      } else {
        sortColumn := column;
        sortOrder := Sorting.Asc;
      }
      clients := Sorting.SortBy(clients, FieldNamed(column), sortOrder);
    }

    /** `handlePagination`: moves the current page and nothing else. */
    method HandlePagination(click: Pagination.Click)
      modifies this`currentPage
      ensures currentPage == Pagination.NextPage(click, old(currentPage))
    {
      if click.onAnchor {
        if Pagination.Truthy(click.dataPage) {
          currentPage := click.dataPage.value;
        } else if click.parentId == "prev-btn" && currentPage > 1 {
          currentPage := currentPage - 1;
        } else if click.parentId == "next-btn" {
          currentPage := currentPage + 1;
        }
      }
    }

    /** `updateTable`: the rows of the current page and the pagination bar. */
    method UpdateTable() returns (rows: seq<Client>, controls: seq<Pagination.Control>)
      ensures rows == Pagination.PageItems(clients, currentPage)
      ensures controls == Pagination.Controls(|clients|, currentPage)
    {
      var start := (currentPage - 1) * Pagination.ITEMS_PER_PAGE;
      rows := Pagination.JsSlice(clients, start, start + Pagination.ITEMS_PER_PAGE);
      controls := Pagination.RenderPagination(|clients|, currentPage);
    }
  }
}
