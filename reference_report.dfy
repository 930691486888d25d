/** The ReferenceTable widget: its four pieces of state (selected tab, loaded
    rows, search text, current page), the values derived from them, and the
    transitions made by loading, typing in the search box and paging. */
module ReferenceReport {
  import opened Text
  import opened Filter
  import Pagination

  datatype Option<T> = None | Some(value: T)

  /** TABS: the tabs, declared in the order the tab bar shows them. */
  datatype Tab = AZURE | AWS | GCP

  /** FILE_MAP: the data file behind a tab; only AZURE has one. */
  function FileFor(tab: Tab): (file: Option<string>)
    ensures file.Some? <==> tab == AZURE
    ensures tab == AZURE ==> file.value == "azure-reference.json"
  {
    match tab
    case AZURE => Some("azure-reference.json")
    case _ => None
  }

  /** A load succeeds when the tab has a file and the import of that file
      resolves; importing the path built for a tab without a file rejects. */
  predicate LoadSucceeds(tab: Tab, fetched: Option<seq<Row>>)
    ensures LoadSucceeds(tab, fetched) <==> tab == AZURE && fetched.Some?
  {
    FileFor(tab).Some? && fetched.Some?
  }

  /** The Previous handler: one page back, but never below page 1. */
  function PreviousPage(page: int): (r: int)
    ensures r >= 1
    ensures page > 1 ==> r == page - 1
    ensures page <= 1 ==> r == 1
  {
    if page - 1 > 1 then page - 1 else 1
  }

  /** The Next handler: one page on, but never beyond the page count. */
  function NextPage(page: int, totalPages: int): (r: int)
    ensures r <= totalPages
    ensures page < totalPages ==> r == page + 1
    ensures page >= totalPages ==> r == totalPages
  {
    if page + 1 < totalPages then page + 1 else totalPages
  }

  /** From any page of at least 1, the Next handler gives a page of at least 1
      exactly when there is at least one page. With no pages (an empty
      listing, which a failed load can leave on any page) it gives a page
      below 1, so the disabled guard is what keeps the page at or above 1. */
  lemma NextNeedsGuard(page: int, totalPages: int)
    requires page >= 1
    ensures NextPage(page, totalPages) >= 1 <==> totalPages >= 1
  {
  }

  class ReferenceTable {
    var selectedTab: Tab
    var data: seq<Row>
    var searchQuery: string
    var currentPage: int

    /** What every transition keeps: the page is at least 1, and it is within
        the page count (or 1 when there are no pages) unless a failed load
        emptied the dataset and left the page where it was. */
    ghost predicate Valid()
      reads this
    {
      && 1 <= currentPage
      && (data == [] || currentPage <= MaxPage())
    }

    /** The largest page the pager reaches by Next: totalPages, or 1 with no pages. */
    function MaxPage(): (m: int)
      reads this
      ensures m >= 1
      ensures m == 1 || m == TotalPages()
    {
      if TotalPages() > 1 then TotalPages() else 1
    }

    /** filteredData, recomputed from the dataset and the search text. */
    function FilteredData(): (r: seq<Row>)
      reads this
      ensures |r| <= |data|
      ensures searchQuery == [] ==> r == data
    {
      Filter.FilteredData(data, searchQuery)
    }

    /** totalPages of the filtered rows. */
    function TotalPages(): (t: nat)
      reads this
      ensures t == 0 <==> FilteredData() == []
      ensures t * Pagination.RowsPerPage >= |FilteredData()|
    {
      Pagination.TotalPages(|FilteredData()|)
    }

    /** currentRows: the slice of the filtered rows on the current page. */
    function CurrentRows(): (r: seq<Row>)
      reads this
      ensures 1 <= currentPage ==> |r| <= Pagination.RowsPerPage
      ensures 1 <= currentPage ==> (r != [] <==> currentPage <= TotalPages())
    {
      Pagination.PageRows(FilteredData(), currentPage)
    }

    /** The disabled attribute of the Previous button: on any page of at
        least 1, it is set exactly when the handler would not move the page. */
    predicate PreviousDisabled()
      reads this
      ensures 1 <= currentPage ==> (PreviousDisabled() <==> PreviousPage(currentPage) == currentPage)
    {
      currentPage == 1
    }

    /** The disabled attribute of the Next button: it is set exactly when the
        handler would not move the page forward. */
    predicate NextDisabled()
      reads this
      ensures NextDisabled() <==> NextPage(currentPage, TotalPages()) <= currentPage
      ensures !NextDisabled() ==> NextPage(currentPage, TotalPages()) == currentPage + 1
    {
      currentPage >= TotalPages()
    }

    /** The initial state: the AZURE tab, no rows, no search text, page 1. */
    constructor ()
      ensures selectedTab == AZURE && data == [] && searchQuery == "" && currentPage == 1
      ensures Valid()
    {
      selectedTab := AZURE;
      data := [];
      searchQuery := "";
      currentPage := 1;
    }

    /** loadData for the selected tab, which runs once after mounting and
        again after every change of tab, given what the import of its file
        yields (None when it rejects). Success replaces the rows, clears the
        search text and goes to page 1; failure empties the rows and leaves
        the search text and the page as they were. */
    method Load(fetched: Option<seq<Row>>)
      requires Valid()
      modifies this
      ensures Valid()
      ensures selectedTab == old(selectedTab)
      ensures LoadSucceeds(selectedTab, fetched) ==>
                data == fetched.value && searchQuery == "" && currentPage == 1
      ensures !LoadSucceeds(selectedTab, fetched) ==>
                data == [] && searchQuery == old(searchQuery) && currentPage == old(currentPage)
    {
      var file := FileFor(selectedTab);
      if file.Some? && fetched.Some? {
        data := fetched.value;
        searchQuery := "";
        currentPage := 1;
      } else {
        data := [];
      }
    }

    /** A click on a tab. Choosing a different tab selects it and reloads;
        choosing the tab already selected changes nothing, since the load
        runs only when the selected tab changes. */
    method SelectTab(tab: Tab, fetched: Option<seq<Row>>)
      requires Valid()
      modifies this
      ensures Valid()
      ensures selectedTab == tab
      ensures tab == old(selectedTab) ==>
                data == old(data) && searchQuery == old(searchQuery) && currentPage == old(currentPage)
      ensures tab != old(selectedTab) && LoadSucceeds(tab, fetched) ==>
                data == fetched.value && searchQuery == "" && currentPage == 1
      ensures tab != old(selectedTab) && !LoadSucceeds(tab, fetched) ==>
                data == [] && searchQuery == old(searchQuery) && currentPage == old(currentPage)
    {
      if tab != selectedTab {
        selectedTab := tab;
        Load(fetched);
      }
    }

    /** A change in the search box: the new text becomes the query and the
        pager returns to page 1; the tab and the rows stay. */
    method EditSearch(text: string)
      requires Valid()
      modifies this
      ensures Valid()
      ensures searchQuery == text && currentPage == 1
      ensures selectedTab == old(selectedTab) && data == old(data)
    {
      searchQuery := text;
      currentPage := 1;
    }

    /** A click on Previous. Its disabled guard (page 1) never matters: the
        handler already keeps page 1 where it is. */
    method ClickPrevious()
      requires Valid()
      modifies this
      ensures Valid()
      ensures currentPage == PreviousPage(old(currentPage))
      ensures old(currentPage) > 1 ==> currentPage == old(currentPage) - 1
      ensures selectedTab == old(selectedTab) && data == old(data) && searchQuery == old(searchQuery)
    {
      if !PreviousDisabled() {
        currentPage := PreviousPage(currentPage);
      }
    }

    /** A click on Next: nothing when the button is disabled (the page is at
        or past totalPages), otherwise one page on. */
    method ClickNext()
      requires Valid()
      modifies this
      ensures Valid()
      ensures old(NextDisabled()) ==> currentPage == old(currentPage)
      ensures !old(NextDisabled()) ==> currentPage == old(currentPage) + 1 && currentPage <= TotalPages()
      ensures selectedTab == old(selectedTab) && data == old(data) && searchQuery == old(searchQuery)
    {
      if !NextDisabled() {
        currentPage := NextPage(currentPage, TotalPages());
      }
    }
  }

  /** Forty-five rows, no search text: three pages; two clicks on Next reach
      page 3, which shows rows 40 to 44, and Next is then disabled. */
  method PagingScenario(rows: seq<Row>)
    requires |rows| == 45
  {
    var t := new ReferenceTable();
    t.Load(Some(rows));
    assert t.TotalPages() == 3;
    assert t.CurrentRows() == rows[0..20];
    t.ClickNext();
    t.ClickNext();
    assert t.currentPage == 3;
    assert t.CurrentRows() == rows[40..45];
    assert t.NextDisabled();
    t.ClickNext();
    assert t.currentPage == 3;
  }

  /** A query no row matches: no current rows, and the pager reads
      "Page 1 of 0", since totalPages is the plain ceiling. */
  method NoMatchScenario() {
    var t := new ReferenceTable();
    t.Load(Some([["vm"], ["db"]]));
    t.EditSearch("Q");
    assert Lower("Q") == "q";
    assert !FieldMatches("vm", "q") && !FieldMatches("db", "q");
    assert !RowMatches(["vm"], "q") && !RowMatches(["db"], "q");
    assert FilterRows([["vm"], ["db"]], "q") == [];
    assert t.FilteredData() == [];
    assert t.CurrentRows() == [] && t.currentPage == 1 && t.TotalPages() == 0;
  }

  /** Switching from page 3 of the AZURE rows to a tab without a file
      empties the table but keeps the page: "Page 3 of 0", outside the page
      range, with Previous enabled and Next disabled. */
  method UnmappedTabScenario(rows: seq<Row>)
    requires |rows| == 45
  {
    var t := new ReferenceTable();
    t.Load(Some(rows));
    t.ClickNext();
    t.ClickNext();
    t.SelectTab(GCP, Some(rows));
    assert t.data == [] && t.currentPage == 3;
    assert t.CurrentRows() == [] && t.TotalPages() == 0;
    assert !t.PreviousDisabled() && t.NextDisabled();
    t.ClickPrevious();
    assert t.currentPage == 2;
  }
}
