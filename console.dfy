/** The product console: the module-level state of the page and the handlers that
    change it (search, sort, paging, edit and create), plus what the table, the
    pagination bar and the CSV export are built from. */
module Console {
  import opened Common
  import opened Catalog
  import opened Html
  import opened Csv
  import opened Paging
  import opened Ordering
  import opened Search
  import opened Forms
  import opened Store

  /** `sortDirection === 'asc' ? 'desc' : 'asc'`. */
  function Flip(dir: Direction): (r: Direction)
    ensures r != dir
  {
    if dir == Asc then Desc else Asc
  }

  /** One numbered button of the pagination bar. */
  datatype PageButton = PageButton(page: int, active: bool)

  /** The pagination bar: nothing at all, or Prev, the numbered buttons and Next. */
  datatype PaginationView =
    | NoControls
    | Controls(prevDisabled: bool, buttons: seq<PageButton>, nextDisabled: bool)

  /** The table rows of a page. */
  function TableRows(items: seq<Product>, fmt: NumberFormat): (rows: seq<Row>)
    ensures |rows| == |items|
    ensures forall k :: 0 <= k < |items| ==> rows[k] == TableRow(items[k], fmt)
  {
    if items == [] then [] else [TableRow(items[0], fmt)] + TableRows(items[1..], fmt)
  }

  /** A CSV record carries the same product as a table row: the id, the title the row's markup
      reads back to, the price without its `$`, the category label and the description the
      tooltip reads back to. */
  predicate RecordMatchesRow(record: seq<string>, row: Row)
  {
    && |record| == 6
    && record[0] == row.idText
    && record[1] == UnescapeHtml(row.titleHtml)
    && "$" + record[2] == row.priceText
    && record[3] == row.categoryText
    && |row.tooltipHtml| >= |TooltipLead|
    && record[4] == UnescapeHtml(row.tooltipHtml[|TooltipLead|..])
  }

  lemma ValuesMatchRow(p: Product, fmt: NumberFormat)
    ensures RecordMatchesRow(ExportedValues(p, fmt), TableRow(p, fmt))
  {
  }

  /** What the table shows and what the export writes agree product by product: the header, then
      one CSV record per table row, each carrying that row's product. */
  lemma ExportMatchesTable(items: seq<Product>, fmt: NumberFormat)
    requires forall k :: 0 <= k < |items| ==> Exportable(items[k], fmt)
    ensures ReadCsv(CsvText(items, fmt)).Some?
    ensures var records := ReadCsv(CsvText(items, fmt)).value;
      var rows := TableRows(items, fmt);
      && |records| == |rows| + 1
      && records[0] == Headers
      && forall k :: 0 <= k < |rows| ==> RecordMatchesRow(records[k + 1], rows[k])
  {
    CsvTextReadsBack(items, fmt);
    RowsMatchRecords(items, fmt);
    AfterHeader(ExportedRows(items, fmt), TableRows(items, fmt));
  }

  lemma AfterHeader(records: seq<seq<string>>, rows: seq<Row>)
    requires |records| == |rows|
    requires forall k :: 0 <= k < |rows| ==> RecordMatchesRow(records[k], rows[k])
    ensures forall k :: 0 <= k < |rows| ==> RecordMatchesRow(([Headers] + records)[k + 1], rows[k])
  {
    assert forall k :: 0 <= k < |rows| ==> ([Headers] + records)[k + 1] == records[k];
  }

  lemma RowsMatchRecords(items: seq<Product>, fmt: NumberFormat)
    ensures forall k :: 0 <= k < |items| ==> RecordMatchesRow(ExportedRows(items, fmt)[k], TableRows(items, fmt)[k])
  {
    forall k | 0 <= k < |items| ensures RecordMatchesRow(ExportedRows(items, fmt)[k], TableRows(items, fmt)[k]) {
      ValuesMatchRow(items[k], fmt);
    }
  }

  class ProductConsole {
    var allProducts: seq<Product>
    var filteredProducts: seq<Product>
    var currentPage: int
    var itemsPerPage: int
    var sortColumn: Option<Column>
    var sortDirection: Direction
    var currentProductId: Option<int>

    /** `Math.ceil(filteredProducts.length / itemsPerPage)`. */
    function PageCount(): (n: nat)
      reads this
      requires itemsPerPage >= 1
      ensures n * itemsPerPage >= |filteredProducts|
      ensures n >= 1 ==> (n - 1) * itemsPerPage < |filteredProducts|
      ensures n == 0 <==> |filteredProducts| == 0
    {
      TotalPages(|filteredProducts|, itemsPerPage)
    }

    /** The state every handler keeps: a positive page size, the current page within the pages
        of the shown list (page 1 when it is empty), and the shown list drawn from the cache. */
    predicate Valid()
      reads this
      ensures Valid() ==>
        currentPage >= 1 && itemsPerPage >= 1 && PageStart(currentPage, itemsPerPage) <= |filteredProducts|
    {
      PageStartsWithin(currentPage, |filteredProducts|, itemsPerPage);
      && itemsPerPage >= 1
      && 1 <= currentPage <= Max(1, PageCount())
      && |filteredProducts| <= |allProducts|
      && multiset(filteredProducts) <= multiset(allProducts)
    }

    /** The state after `loadProducts`: the fetched list, shown whole, on page 1 of 10 items. */
    constructor(load: Reply<seq<Product>>)
      ensures Valid()
      ensures allProducts == (if load.Delivered? then load.body else [])
      ensures filteredProducts == allProducts
      ensures currentPage == 1 && itemsPerPage == 10
      ensures sortColumn == None && sortDirection == Asc && currentProductId == None
    {
      var loaded := if load.Delivered? then load.body else [];
      allProducts := loaded;
      filteredProducts := loaded;
      currentPage := 1;
      itemsPerPage := 10;
      sortColumn := None;
      sortDirection := Asc;
      currentProductId := None;
    }

    /** `filteredProducts.slice(startIndex, endIndex)`: the products of the current page. */
    function CurrentProducts(): (page: seq<Product>)
      reads this
      requires Valid()
      ensures |page| == Min(itemsPerPage, |filteredProducts| - PageStart(currentPage, itemsPerPage))
      ensures forall k :: 0 <= k < |page| ==> page[k] == filteredProducts[PageStart(currentPage, itemsPerPage) + k]
      ensures |filteredProducts| > 0 ==> |page| > 0
    {
      if |filteredProducts| > 0 then
        PageStartsInside(currentPage, |filteredProducts|, itemsPerPage);
        PageSlice(filteredProducts, currentPage, itemsPerPage)
      else
        PageSlice(filteredProducts, currentPage, itemsPerPage)
    }

    /** The file `exportToCSV` offers: the current page, exactly as the table shows it. */
    function ExportDocument(fmt: NumberFormat): (doc: string)
      reads this
      requires Valid()
      ensures doc == CsvDocument(CurrentProducts(), fmt)
    {
      CsvDocument(PageSlice(filteredProducts, currentPage, itemsPerPage), fmt)
    }

    /** `handleSearch`: the shown list becomes the search result over the whole cache; page 1. */
    method HandleSearch(raw: string)
      requires Valid()
      modifies this
      ensures Valid()
      ensures filteredProducts == SearchResult(old(allProducts), raw)
      ensures currentPage == 1
      ensures allProducts == old(allProducts) && itemsPerPage == old(itemsPerPage)
      ensures sortColumn == old(sortColumn) && sortDirection == old(sortDirection)
      ensures currentProductId == old(currentProductId)
    {
      var found := SearchResult(allProducts, raw);
      SearchResultDrawn(allProducts, raw);
      Show(found);
    }

    /** `handleSort`: the same column flips the direction, another column sorts ascending; the
        shown list is sorted in place and stays on its page. */
    method HandleSort(col: Column)
      requires Valid()
      modifies this
      ensures Valid()
      ensures sortColumn == Some(col)
      ensures sortDirection == if old(sortColumn) == Some(col) then Flip(old(sortDirection)) else Asc
      ensures Sorted(filteredProducts, col, sortDirection)
      ensures multiset(filteredProducts) == multiset(old(filteredProducts))
      ensures KeepsTieOrder(old(filteredProducts), filteredProducts, col)
      ensures old(sortColumn) == Some(col) && old(sortDirection) == Asc &&
              Sorted(old(filteredProducts), col, Asc) && NoTies(old(filteredProducts), col) ==>
                filteredProducts == Reverse(old(filteredProducts))
      ensures allProducts == old(allProducts) && currentPage == old(currentPage)
      ensures itemsPerPage == old(itemsPerPage) && currentProductId == old(currentProductId)
    {
      if sortColumn == Some(col) {
        sortDirection := Flip(sortDirection);
      } else {
        sortColumn := Some(col);
        sortDirection := Asc;
      }
      var shown := filteredProducts;
      var a := new Product[|shown|](k requires 0 <= k < |shown| => shown[k]);
      assert a[..] == shown;
      SortInPlace(a, col, sortDirection);
      filteredProducts := a[..];
      assert |filteredProducts| == |multiset(filteredProducts)| == |multiset(shown)| == |shown|;
      if sortDirection == Desc && Sorted(shown, col, Asc) && NoTies(shown, col) {
        DescendingIsReverse(shown, filteredProducts, col);
      }
    }

    /** The page-size selector: the new size, back to page 1. */
    method SetItemsPerPage(n: int)
      requires Valid() && n >= 1
      modifies this
      ensures Valid()
      ensures itemsPerPage == n && currentPage == 1
      ensures allProducts == old(allProducts) && filteredProducts == old(filteredProducts)
      ensures sortColumn == old(sortColumn) && sortDirection == old(sortDirection)
      ensures currentProductId == old(currentProductId)
    {
      itemsPerPage := n;
      currentPage := 1;
    }

    /** The Prev button: one page back, unless on the first page. */
    method PrevPage()
      requires Valid()
      modifies this
      ensures Valid()
      ensures currentPage == if old(currentPage) > 1 then old(currentPage) - 1 else old(currentPage)
      ensures allProducts == old(allProducts) && filteredProducts == old(filteredProducts)
      ensures itemsPerPage == old(itemsPerPage)
      ensures sortColumn == old(sortColumn) && sortDirection == old(sortDirection)
      ensures currentProductId == old(currentProductId)
    {
      if currentPage > 1 {
        currentPage := currentPage - 1;
      }
    }

    /** The Next button: one page on, unless on the last page. */
    method NextPage()
      requires Valid()
      modifies this
      ensures Valid()
      ensures currentPage == if old(currentPage) < old(PageCount()) then old(currentPage) + 1 else old(currentPage)
      ensures allProducts == old(allProducts) && filteredProducts == old(filteredProducts)
      ensures itemsPerPage == old(itemsPerPage)
      ensures sortColumn == old(sortColumn) && sortDirection == old(sortDirection)
      ensures currentProductId == old(currentProductId)
    {
      if currentPage < PageCount() {
        currentPage := currentPage + 1;
      }
    }

    /** A numbered button: the page it shows, which is one of the buttons of the bar. */
    method GoToPage(page: int)
      requires Valid() && PageCount() > 1
      requires Window(currentPage, PageCount()).0 <= page <= Window(currentPage, PageCount()).1
      modifies this
      ensures Valid()
      ensures currentPage == page
      ensures allProducts == old(allProducts) && filteredProducts == old(filteredProducts)
      ensures itemsPerPage == old(itemsPerPage)
      ensures sortColumn == old(sortColumn) && sortDirection == old(sortDirection)
      ensures currentProductId == old(currentProductId)
    {
      currentPage := page;
    }

    /** `renderPagination`: no bar for a single page; otherwise Prev (disabled on page 1), a run of
        consecutive buttons around the current page with exactly that one active, and Next
        (disabled on the last page). */
    method Pagination() returns (view: PaginationView)
      requires Valid()
      ensures PageCount() <= 1 <==> view == NoControls
      ensures view.Controls? ==>
        && view.prevDisabled == (currentPage == 1)
        && view.nextDisabled == (currentPage == PageCount())
        && |view.buttons| == Min(MaxPagesToShow, PageCount())
        && view.buttons[0].page == Window(currentPage, PageCount()).0
        && 1 <= view.buttons[0].page <= currentPage < view.buttons[0].page + |view.buttons|
        && view.buttons[0].page + |view.buttons| - 1 <= PageCount()
        && (forall k :: 0 <= k < |view.buttons| ==> view.buttons[k].page == view.buttons[0].page + k)
        && (forall k :: 0 <= k < |view.buttons| ==> (view.buttons[k].active <==> view.buttons[k].page == currentPage))
    {
      var total := PageCount();
      if total <= 1 {
        return NoControls;
      }
      var (start, end) := Window(currentPage, total);
      var buttons: seq<PageButton> := [];
      for i := start to end + 1
        invariant |buttons| == i - start
        invariant forall k :: 0 <= k < |buttons| ==> buttons[k] == PageButton(start + k, start + k == currentPage)
      {
        buttons := buttons + [PageButton(i, i == currentPage)];
      }
      view := Controls(currentPage == 1, buttons, currentPage == total);
    }

    /** The detail dialog remembers which product it shows. */
    method ShowDetail(p: Product)
      modifies this
      ensures currentProductId == Some(p.id)
      ensures allProducts == old(allProducts) && filteredProducts == old(filteredProducts)
      ensures currentPage == old(currentPage) && itemsPerPage == old(itemsPerPage)
      ensures sortColumn == old(sortColumn) && sortDirection == old(sortDirection)
    {
      currentProductId := Some(p.id);
    }

    /** The edit button: the form filled from the cached product the detail dialog shows, if any. */
    function EditForm(): (form: Option<FormInput>)
      reads this
      ensures form.Some? <==> currentProductId.Some? && FindById(allProducts, currentProductId.value).Some?
      ensures form.Some? ==> form.value == PrefillForm(FindById(allProducts, currentProductId.value).value)
    {
      if currentProductId.None? then None
      else
        match FindById(allProducts, currentProductId.value)
        case None => None
        case Some(p) => Some(PrefillForm(p))
    }

    /** Shows `list`, drawn from the cache, from its first page. */
    method Show(list: seq<Product>)
      requires Valid()
      requires |list| <= |allProducts| && multiset(list) <= multiset(allProducts)
      modifies this
      ensures Valid()
      ensures filteredProducts == list && currentPage == 1
      ensures allProducts == old(allProducts) && itemsPerPage == old(itemsPerPage)
      ensures sortColumn == old(sortColumn) && sortDirection == old(sortDirection)
      ensures currentProductId == old(currentProductId)
    {
      filteredProducts := list;
      currentPage := 1;
    }

    /** `allProducts[index] = updatedProduct; filteredProducts = [...allProducts]`, on the same page. */
    method ReplaceCached(index: int, updated: Product)
      requires Valid() && 0 <= index < |allProducts|
      modifies this
      ensures Valid()
      ensures allProducts == old(allProducts)[index := updated] && filteredProducts == allProducts
      ensures currentPage == old(currentPage) && itemsPerPage == old(itemsPerPage)
      ensures sortColumn == old(sortColumn) && sortDirection == old(sortDirection)
      ensures currentProductId == old(currentProductId)
    {
      TotalPagesMonotone(|filteredProducts|, |allProducts|, itemsPerPage);
      allProducts := allProducts[index := updated];
      filteredProducts := allProducts;
    }

    /** `allProducts.unshift(created); filteredProducts = [...allProducts]`, back to page 1. */
    method PrependCached(created: Product)
      requires Valid()
      modifies this
      ensures Valid()
      ensures allProducts == [created] + old(allProducts) && filteredProducts == allProducts
      ensures currentPage == 1 && itemsPerPage == old(itemsPerPage)
      ensures sortColumn == old(sortColumn) && sortDirection == old(sortDirection)
      ensures currentProductId == old(currentProductId)
    {
      allProducts := [created] + allProducts;
      filteredProducts := allProducts;
      currentPage := 1;
    }

    /** `saveEdit`: an invalid form sends nothing; a delivered reply replaces the first cached
        product with the edited id and shows the whole cache again; otherwise nothing changes.
        Returns the request the form produced. */
    method SaveEdit(productId: int, form: FormInput, reply: Reply<Product>) returns (request: Result<Payload, FormError>)
      requires Valid()
      modifies this
      ensures Valid()
      ensures request == ValidateEdit(form)
      ensures var i := FindIndexById(old(allProducts), productId);
        if request.Ok? && reply.Delivered? && i != -1 then
          allProducts == old(allProducts)[i := reply.body] && filteredProducts == allProducts
        else
          allProducts == old(allProducts) && filteredProducts == old(filteredProducts)
      ensures currentPage == old(currentPage) && itemsPerPage == old(itemsPerPage)
      ensures sortColumn == old(sortColumn) && sortDirection == old(sortDirection)
      ensures currentProductId == old(currentProductId)
    {
      request := ValidateEdit(form);
      if request.Err? {
        return;
      }
      match reply
      case Failed =>
      case Delivered(updated) =>
        var index := FindIndexById(allProducts, productId);
        if index != -1 {
          ReplaceCached(index, updated);
        }
    }

    /** `createProduct`: an invalid form sends nothing; a delivered reply puts the created product
        first in the cache, shows the whole cache and goes to page 1; otherwise nothing changes.
        Returns the request the form produced. */
    method CreateProduct(form: FormInput, reply: Reply<Product>) returns (request: Result<Payload, FormError>)
      requires Valid()
      modifies this
      ensures Valid()
      ensures request == ValidateCreate(form)
      ensures if request.Ok? && reply.Delivered? then
          && allProducts == [reply.body] + old(allProducts)
          && filteredProducts == allProducts
          && currentPage == 1
        else
          && allProducts == old(allProducts) && filteredProducts == old(filteredProducts)
          && currentPage == old(currentPage)
      ensures itemsPerPage == old(itemsPerPage)
      ensures sortColumn == old(sortColumn) && sortDirection == old(sortDirection)
      ensures currentProductId == old(currentProductId)
    {
      request := ValidateCreate(form);
      if request.Err? {
        return;
      }
      match reply
      case Failed =>
      case Delivered(created) =>
        PrependCached(created);
    }
  }
}
