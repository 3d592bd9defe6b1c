/**
 * The `EBookStore` object: the loaded catalog, the filtered view, the
 * pending debounced search, and the parts of the page the catalog logic
 * writes (the books grids, the drill-down heading, the detail page, the
 * category counts and the error banner). Which elements a page has is fixed
 * when the store is created and given by a `Dom` value.
 */
module Store {
  import opened Wrappers
  import opened Text
  import opened Catalog
  import opened Seqs
  import Naming

  /**
   * The elements of the current page the catalog logic looks up:
   * `books-grid`, `category-books`, `category-books-grid`, `search-input`,
   * `related-books`, and the categories of the cards holding a
   * `.category-count` element, in document order.
   */
  datatype Dom = Dom(booksGrid: bool, categoryBooks: bool, categoryBooksGrid: bool,
                     searchInput: bool, relatedBooks: bool, countCategories: seq<string>)

  const LoadFailure: string := "Failed to load books. Please try again later."

  class EBookStore {
    const dom: Dom
    /** The page name from the URL path, fixed at construction. */
    const currentPage: string

    /** The full catalog, as loaded. */
    var books: seq<Book>
    /** The books the last search or filter selected. */
    var filteredBooks: seq<Book>
    /** The debounced search waiting for its timer (`searchTimeout`), with its query. */
    var pending: Option<string>

    /** What `books-grid` and `no-results` show. */
    var listing: Display
    /** What `category-books-grid` and `no-books-message` show. */
    var categoryListing: Display
    /** The categories page is in drill-down mode: category cards hidden, one category's books shown. */
    var drillDown: bool
    var categoryTitle: string
    var categoryDescription: string
    /** The value of the search box, when the store set it. */
    var searchBox: Option<string>
    /** What the detail page shows, once handled. */
    var detail: Option<DetailView>
    /** The numbers the `.category-count` elements show, once updated. */
    var shownCounts: Option<seq<nat>>
    /** The message of the error banner, once shown. */
    var error: Option<string>

    /** How many times the filtered view was recomputed by a text search. */
    ghost var searches: nat

    constructor (dom: Dom, path: string)
      ensures this.dom == dom && currentPage == Naming.CurrentPage(path)
      ensures books == [] && filteredBooks == [] && pending == None
      ensures listing == Untouched && categoryListing == Untouched && !drillDown
      ensures searchBox == None && detail == None && shownCounts == None && error == None
      ensures searches == 0
    {
      this.dom := dom;
      currentPage := Naming.CurrentPage(path);
      books, filteredBooks, pending := [], [], None;
      listing, categoryListing, drillDown := Untouched, Untouched, false;
      categoryTitle, categoryDescription := "", "";
      searchBox, detail, shownCounts, error := None, None, None, None;
      searches := 0;
    }

    /** renderBooks: the empty state for an empty view, otherwise a grid of its books. */
    method RenderBooks()
      modifies this`listing
      ensures listing == if dom.booksGrid then Listing(filteredBooks) else old(listing)
    {
      if dom.booksGrid {
        if |filteredBooks| == 0 {
          listing := NoResults;
        } else {
          listing := Grid(filteredBooks);
        }
      }
    }

    /** renderCategoryBooks: the same decision for the drill-down grid. */
    method RenderCategoryBooks()
      modifies this`categoryListing
      ensures categoryListing == if dom.categoryBooksGrid then Listing(filteredBooks) else old(categoryListing)
    {
      if dom.categoryBooksGrid {
        if |filteredBooks| == 0 {
          categoryListing := NoResults;
        } else {
          categoryListing := Grid(filteredBooks);
        }
      }
    }

    /** performSearch: recompute the view from the catalog, then render it. */
    method PerformSearch(query: string)
      modifies this`filteredBooks, this`listing, this`searches
      ensures filteredBooks == Search(books, query)
      ensures Trim(query) == [] ==> filteredBooks == books
      ensures listing == if dom.booksGrid then Listing(filteredBooks) else old(listing)
      ensures searches == old(searches) + 1
    {
      if Trim(query) == [] {
        filteredBooks := books;
      } else {
        filteredBooks := Filter(MatchesTerm(Lower(query)), books);
      }
      assert filteredBooks == Search(books, query);
      searches := searches + 1;
      RenderBooks();
    }

    /** handleSearch: a keystroke cancels the pending search and schedules one for its own query. */
    method HandleSearch(query: string)
      modifies this`pending
      ensures pending == Some(query)
    {
      pending := Some(query);
    }

    /** The quiet period of the debounce ends: the pending search runs, once. */
    method SearchTimerFires()
      modifies this`pending, this`filteredBooks, this`listing, this`searches
      ensures pending == None
      ensures old(pending) == None ==>
        filteredBooks == old(filteredBooks) && listing == old(listing) && searches == old(searches)
      ensures old(pending) != None ==>
        && filteredBooks == Search(books, old(pending).value)
        && listing == (if dom.booksGrid then Listing(filteredBooks) else old(listing))
        && searches == old(searches) + 1
    {
      match pending
      case None =>
      case Some(query) =>
        pending := None;
        PerformSearch(query);
    }

    /** filterByCategory: the sentinel restores the catalog; any other category filters by equality. */
    method FilterByCategory(category: string)
      modifies this`filteredBooks, this`listing
      ensures filteredBooks == CategoryFilter(books, category)
      ensures category == AllCategories ==> filteredBooks == books
      ensures listing == if dom.booksGrid then Listing(filteredBooks) else old(listing)
    {
      if category == AllCategories {
        filteredBooks := books;
      } else {
        filteredBooks := ByCategory(books, category);
      }
      RenderBooks();
    }

    /** showCategoryBooks: enter drill-down mode for one category (no sentinel here). */
    method ShowCategoryBooks(category: string)
      modifies this`filteredBooks, this`categoryListing, this`drillDown, this`categoryTitle, this`categoryDescription
      ensures !dom.categoryBooks ==> unchanged(this)
      ensures dom.categoryBooks ==>
        && drillDown
        && categoryTitle == category
        && categoryDescription == CategoryDescription(category)
        && filteredBooks == ByCategory(books, category)
        && categoryListing == (if dom.categoryBooksGrid then Listing(filteredBooks) else old(categoryListing))
    {
      if !dom.categoryBooks {
        return;
      }
      drillDown := true;
      categoryTitle := category;
      categoryDescription := CategoryDescription(category);
      filteredBooks := ByCategory(books, category);
      RenderCategoryBooks();
    }

    /** showAllCategories: leave drill-down mode; the filtered view is left as it is. */
    method ShowAllCategories()
      modifies this`drillDown
      ensures !drillDown
    {
      drillDown := false;
    }

    /** `if (searchQuery)` and the search box exists: the `search` parameter is applied after loading. */
    predicate AppliesSearch(searchParam: Option<string>) {
      searchParam.Some? && searchParam.value != "" && dom.searchInput
    }

    /**
     * The successful branch of loadBooks: the catalog and the view become the
     * fetched list, and a non-empty `search` parameter is copied into the
     * search box and searched for when the page has one.
     */
    method Populate(list: seq<Book>, searchParam: Option<string>)
      modifies this`books, this`filteredBooks, this`searchBox, this`listing, this`searches
      ensures books == list
      ensures AppliesSearch(searchParam) ==>
        && filteredBooks == Search(books, searchParam.value)
        && searchBox == searchParam
        && listing == (if dom.booksGrid then Listing(filteredBooks) else old(listing))
        && searches == old(searches) + 1
      ensures !AppliesSearch(searchParam) ==>
        && filteredBooks == books
        && searchBox == old(searchBox) && listing == old(listing) && searches == old(searches)
    {
      books := list;
      filteredBooks := books;
      if AppliesSearch(searchParam) {
        searchBox := searchParam;
        PerformSearch(searchParam.value);
      }
    }

    /**
     * loadBooks: does nothing once the catalog holds books. Otherwise
     * `fetched` is the outcome of the fetch (None when the response is not
     * ok or not JSON): on failure the error banner is shown; on success the
     * store is populated from the list.
     */
    method Load(fetched: Option<seq<Book>>, searchParam: Option<string>)
      modifies this`books, this`filteredBooks, this`searchBox, this`listing, this`searches, this`error
      ensures old(books) != [] ==> unchanged(this)
      ensures old(books) == [] && fetched == None ==>
        && books == old(books) && filteredBooks == old(filteredBooks) && searchBox == old(searchBox)
        && listing == old(listing) && searches == old(searches)
        && error == Some(LoadFailure)
      ensures old(books) == [] && fetched != None ==> books == fetched.value && error == old(error)
      ensures old(books) == [] && fetched != None && AppliesSearch(searchParam) ==>
        && filteredBooks == Search(books, searchParam.value)
        && searchBox == searchParam
        && listing == (if dom.booksGrid then Listing(filteredBooks) else old(listing))
        && searches == old(searches) + 1
      ensures old(books) == [] && fetched != None && !AppliesSearch(searchParam) ==>
        && filteredBooks == books
        && searchBox == old(searchBox) && listing == old(listing) && searches == old(searches)
    {
      if |books| > 0 {
        return;
      }
      match fetched
      case None =>
        error := Some(LoadFailure);
      case Some(list) =>
        Populate(list, searchParam);
    }

    /** handleBookDetails with the parsed `id` parameter (None for NaN). */
    method HandleBookDetails(parsedId: Option<int>)
      modifies this`detail
      ensures detail == Some(Details(books, parsedId, dom.relatedBooks))
    {
      var found := LookUpBook(books, parsedId);
      match found
      case None =>
        detail := Some(NotFound);
      case Some(book) =>
        var related := Untouched;
        if dom.relatedBooks {
          related := Listing(RelatedBooks(books, book));
        }
        detail := Some(Found(book, related));
    }

    /** updateCategoryCounts: nothing for an empty catalog; otherwise every count element shows its category's count. */
    method UpdateCategoryCounts()
      modifies this`shownCounts
      ensures shownCounts == if books == [] then old(shownCounts) else Some(CategoryCounts(books, dom.countCategories))
    {
      if |books| == 0 {
        return;
      }
      var counts, keys := CountByCategory(books);
      var categories := dom.countCategories;
      var shown: seq<nat> := [];
      for i := 0 to |categories|
        invariant |shown| == i
        invariant forall j :: 0 <= j < i ==> shown[j] == Count(books, categories[j])
      {
        ShownCountIsCount(books, counts, categories[i]);
        shown := shown + [ShownCount(counts, categories[i])];
      }
      assert shown == CategoryCounts(books, categories);
      shownCounts := Some(shown);
    }

    /** handlePageSpecificLogic: what each page does once the catalog is loaded. */
    method HandlePageSpecificLogic(parsedId: Option<int>)
      modifies this`listing, this`shownCounts, this`detail
      ensures currentPage == "index" ==>
        && listing == (if dom.booksGrid then Listing(filteredBooks) else old(listing))
        && shownCounts == (if books == [] then old(shownCounts) else Some(CategoryCounts(books, dom.countCategories)))
        && detail == old(detail)
      ensures currentPage == "ebook-details" ==>
        listing == old(listing) && shownCounts == old(shownCounts) && detail == Some(Details(books, parsedId, dom.relatedBooks))
      ensures currentPage == "categories" ==>
        && listing == old(listing) && detail == old(detail)
        && shownCounts == (if books == [] then old(shownCounts) else Some(CategoryCounts(books, dom.countCategories)))
      ensures currentPage !in {"index", "ebook-details", "categories"} ==> unchanged(this)
    {
      if currentPage == "index" {
        RenderBooks();
        UpdateCategoryCounts();
      } else if currentPage == "ebook-details" {
        HandleBookDetails(parsedId);
      } else if currentPage == "categories" {
        UpdateCategoryCounts();
      }
    }
  }

  /**
   * A burst of keystrokes followed by the quiet period: only the last
   * query reaches the view, and the view is recomputed exactly once.
   */
  method TypeThenPause(store: EBookStore, keystrokes: seq<string>)
    requires keystrokes != []
    modifies store`pending, store`filteredBooks, store`listing, store`searches
    ensures store.filteredBooks == Search(store.books, keystrokes[|keystrokes| - 1])
    ensures store.listing == if store.dom.booksGrid then Listing(store.filteredBooks) else old(store.listing)
    ensures store.searches == old(store.searches) + 1
    ensures store.books == old(store.books) && store.pending == None
  {
    for i := 0 to |keystrokes|
      invariant i > 0 ==> store.pending == Some(keystrokes[i - 1])
      invariant store.searches == old(store.searches) && store.books == old(store.books)
      invariant store.listing == old(store.listing)
    {
      store.HandleSearch(keystrokes[i]);
    }
    store.SearchTimerFires();
  }
}
