# eBookStore catalog logic in Dafny

This project models the catalog core of the `EBookStore` class of the eBookStore front end. The DOM is reduced to the state the catalog logic writes. The model covers:

- the loaded catalog `books` and the filtered view `filteredBooks`;
- text search and its debounce;
- the home page's category filter and the categories page's drill-down with its description lookup;
- loading the catalog once, then applying a `search` URL parameter;
- the detail page's lookup by `id` and its related-books panel;
- the per-category counts;
- the grid-or-empty-state decision of the two books grids;
- the star row of a rating;
- the download file name;
- the current-page name taken from the URL path;
- the FAQ accordion.

Modules, one per file:

- `Wrappers` (wrappers.dfy): `Option`.
- `Text` (text.dfy): the JavaScript string operations the core relies on. A string is a sequence of `char`; within the Basic Multilingual Plane each `char` is one UTF-16 code unit:
  - `toLowerCase`, restricted to ASCII letters;
  - `trim`, with the ECMAScript white-space and line-terminator set;
  - `indexOf`, `includes` and `lastIndexOf`.
- `Seqs` (seqs.dfy): `Array.prototype.filter` as a function on sequences. It is proved to pick out the longest subsequence whose elements satisfy the predicate.
- `Catalog` (catalog.dfy): the `Book` record and the selection rules as functions, with their lemmas. It also holds the counting loop of `updateCategoryCounts` as a method.
- `Stars` (stars.dfy): `generateStars`, with `rating` as an exact `real`.
- `Naming` (naming.dfy): the download file name and `getCurrentPage`.
- `Faq` (faq.dfy): the accordion, as a class over an array of "hidden" flags.
- `Store` (store.dfy): the class `EBookStore`.
  - Its fields are the catalog, the view, the pending debounced search, and what the page shows: grids, drill-down heading, detail view, counts and error banner.
  - Which elements the current page has is a constant `Dom` record.
  - Outside inputs are parameters: the result of the fetch (`None` for a failed or non-JSON response), the `search` URL parameter, and the `id` parameter after `parseInt` (`None` for NaN).

## Model

| member | source | states |
|---|---|---|
| Text.Lower | js/main.js:221-226 | the lower-cased string has the same length, and each character is mapped on its own (A-Z to a-z, everything else unchanged) |
| Text.LowerIdempotent | js/main.js:221-226 | lower-casing twice is lower-casing once |
| Text.TrimStart | js/main.js:218 | the result is a suffix of the input, what was removed is white space, and the result starts with a non-white-space character or is empty |
| Text.TrimEnd | js/main.js:218 | the result is a prefix of the input, what was removed is white space, and the result ends with a non-white-space character or is empty |
| Text.Trim | js/main.js:218 | `query.trim()` is no longer than the query, and when it is not empty it neither starts nor ends with white space |
| Text.TrimIsSlice | js/main.js:218 | `query.trim()` is a contiguous slice of the query with only white space before it and only white space after it |
| Text.TrimEmptyIffBlank | js/main.js:218 | `query.trim()` is empty exactly when the query is all white space |
| Text.LowerKeepsBlank | js/main.js:218-221 | lower-casing neither creates nor removes white space, so blankness is the same before and after |
| Text.IndexOf | js/main.js:223-226 | the result is -1 when the pattern occurs nowhere; otherwise it is an occurrence with no earlier occurrence |
| Text.Contains | js/main.js:223-226 | `includes` holds exactly when the pattern occurs at some position, and always for the empty pattern |
| Text.LastIndexOf | js/main.js:34 | the result is -1 or a position holding the character, and no later position holds it |
| Seqs.Filter | js/main.js:222-227 | the result is no longer than the input and holds exactly the input's elements that satisfy the predicate |
| Seqs.SubsequenceOfCons | js/main.js:222-227 | prepending to the larger sequence keeps a subsequence a subsequence |
| Seqs.FilterIsSubsequence | js/main.js:222-227 | `filter` keeps the input's order: its result is a subsequence of the input |
| Seqs.FilterIsGreatest | js/main.js:222-227 | every subsequence of the input whose elements all satisfy the predicate is a subsequence of the filter's result |
| Seqs.FilterSelectsExactly | js/main.js:222-227 | the filter's result is the order-preserving selection of exactly the satisfying elements |
| Seqs.FilterAppend | js/main.js:858 | filtering a concatenation is concatenating the filtered parts |
| Seqs.FilterKeepsAll | js/main.js:288 | when every element satisfies the predicate, the filter returns the input unchanged |
| Seqs.FilterIdempotent | js/main.js:288 | filtering twice by the same predicate is filtering once |
| Catalog.Listing | js/main.js:567-571 | a grid shows its empty state exactly when it has no books to show, and otherwise shows those books |
| Catalog.Matches | js/main.js:223-226 | a book matches exactly when one of its title, author, category and description, lower-cased, contains the term |
| Catalog.Search | js/main.js:217-227 | a query that is blank after trimming gives the whole catalog, unchanged and in order |
| Catalog.SearchMembership | js/main.js:219-227 | for a non-blank query, a book is in the result exactly when it is in the catalog and its lower-cased title, author, category or description contains the lower-cased, untrimmed query |
| Catalog.SearchSelects | js/main.js:222-227 | for a non-blank query, the result is the matching books in catalog order, and no matching book is dropped |
| Catalog.BlankSearchRestores | js/main.js:218-219 | a query of white space only restores the full catalog |
| Catalog.SearchIgnoresCase | js/main.js:221 | two queries that differ only in the case of letters give the same view |
| Catalog.SearchIdempotent | js/main.js:217-227 | searching the search's own result for the same query gives the same result |
| Catalog.ByCategory | js/main.js:288 | a book is selected exactly when it is in the catalog and its category equals the given one |
| Catalog.ByCategorySelects | js/main.js:288 | the category filter keeps exactly the books of that category, in catalog order |
| Catalog.CategoryFilter | js/main.js:284-289 | `'all'` gives the catalog exactly; any other value gives the books of that category |
| Catalog.CategoryFilterIdempotent | js/main.js:284-289 | applying the category filter to its own result changes nothing |
| Catalog.CategoryFilterExample | js/main.js:284-291 | a `Self-Help` book is selected by its own category; `Finance` selects nothing and shows the empty state |
| Catalog.DescriptionsCoverCategories | js/main.js:308-316 | the description table has entries for exactly Technology, Business, Arts, Health, Finance, Self-Help and Lifestyle, each a non-empty text other than the generic one |
| Catalog.CategoryDescription | js/main.js:307-318 | the description is never empty; it is the generic text exactly when the category has no entry, otherwise the category's own text |
| Catalog.FindById | js/main.js:703 | `None` exactly when no book has the id; otherwise the book at the first index holding that id |
| Catalog.LookUpBook | js/main.js:694-707 | a missing, NaN or zero id is not found; a found book is in the catalog, carries the requested id, and is the first such book |
| Catalog.RelatedBooks | js/main.js:767-769 | at most three books; each shares the current book's category and has a different id; they are a prefix of all such books and number min(3, all) |
| Catalog.RelatedMissesNothing | js/main.js:767-769 | when fewer than three related books are shown, every book of the same category with another id is among them |
| Catalog.RelatedInCatalogOrder | js/main.js:767-769 | the related books appear in catalog order |
| Catalog.PrefixIsSubsequence | js/main.js:769 | a prefix of a subsequence is a subsequence |
| Catalog.Details | js/main.js:694-711 | the detail page shows "not found" exactly when the lookup fails; otherwise it shows the looked-up book, with the related panel when the page has one |
| Catalog.CountPositive | js/main.js:857-859 | a category's count is positive exactly when some book has that category |
| Catalog.CountSnoc | js/main.js:857-859 | counting one more book adds one to its own category and leaves every other category alone |
| Catalog.SumOfUpdate | js/main.js:858 | changing one entry of the table changes the sum over distinct keys by the difference |
| Catalog.SumOfCoincide | js/main.js:858 | tables that agree on the listed keys have the same sum over them |
| Catalog.CategoryCounts | js/main.js:862-868 | one shown number per count element |
| Catalog.ShownCount | js/main.js:866 | the value a count element shows: the table's entry for a category in the table, and 0 for one that is not |
| Catalog.ShownCountIsCount | js/main.js:866 | a count element shows the number of books in its category, and 0 for a category with no books |
| Catalog.TallyStep | js/main.js:857-859 | one iteration of the counting `forEach` keeps the table exact for the books seen so far |
| Catalog.CountByCategory | js/main.js:856-859 | the table maps exactly the categories present to their numbers of books, and its entries sum to the catalog's length |
| Stars.TowardZero | js/main.js:670 | the integer part of a real, truncated toward zero |
| Stars.RemainderOfOne | js/main.js:670 | `rating % 1` is the fractional part, in [0, 1) for a non-negative rating and in (-1, 0] for a negative one |
| Stars.Repeat | js/main.js:676-688 | `n` copies of a star, or none when `n` is not positive |
| Stars.FullStars | js/main.js:669 | `Math.floor(rating)`: the largest integer not above the rating |
| Stars.HasHalfStar | js/main.js:670 | for a non-negative rating, a half star exactly when the fractional part is at least 0.5; never for a negative rating |
| Stars.EmptyStars | js/main.js:671 | between 0 and 5 for a rating in [0, 5], and negative from 6 up, where the empty-star loop does not run |
| Stars.StarCountsInRange | js/main.js:669-671 | for a rating in [0, 5]: full and empty lie in [0, 5], full + half + empty is exactly 5, and the half star shows exactly when the fractional part is at least 0.5 |
| Stars.StarRowHasFive | js/main.js:669-688 | for a rating in [0, 5] the row has five stars, and star i is full exactly when i is below the floor of the rating |
| Stars.StarRowShape | js/main.js:676-688 | the row shows a half star exactly when the rating has one; full stars come before all others, and empty stars come after all others |
| Stars.GenerateStars | js/main.js:668-691 | the two loops build the star row of the rating: five stars for a rating in [0, 5], with a half star exactly when the rating has one |
| Naming.SanitizeTitle | js/main.js:816 | same length as the title; ASCII letters and digits stay at their positions, and every other character becomes `_` |
| Naming.SanitizedIsSafe | js/main.js:816 | a sanitised title holds only ASCII letters, digits and `_` |
| Naming.SanitizeIdempotent | js/main.js:816 | sanitising twice is sanitising once |
| Naming.DownloadFileName | js/main.js:816 | the file name is the sanitised title followed by `.pdf`, four characters longer than the title |
| Naming.AfterLastSlash | js/main.js:34 | the text after the last `/`: a suffix of the path without `/`, preceded by `/` whenever it is shorter than the path |
| Naming.PageFile | js/main.js:34 | the file name holds no `/` |
| Naming.PageFileFallback | js/main.js:34 | the file name is the text after the last `/`, and `index.html` when that text is empty |
| Naming.RemoveFirst | js/main.js:35 | `replace` with a string pattern removes the first occurrence only, and leaves a string without one as it is |
| Naming.CurrentPage | js/main.js:32-36 | the page name holds no `/`; it is the file name itself when that has no `.html`, and five characters shorter otherwise |
| Naming.CurrentPageCutsFirstHtml | js/main.js:35 | when the file name contains `.html`, the page name is the file name with its first `.html` cut out |
| Naming.RemovalKeepsOut | js/main.js:35 | cutting characters out of a string brings in no character it did not hold |
| Naming.AfterLastSlashIs | js/main.js:34 | a slash-free suffix that follows a `/` is what the last-slash split returns |
| Naming.CurrentPageOfHtmlFile | js/main.js:32-36 | `dir/name.html` gives `name` for a name without `/` or `.` |
| Naming.CurrentPageOfDirectory | js/main.js:34-35 | a path ending in `/` falls back to `index.html` and gives `index` |
| Faq.Toggled | js/main.js:409-427 | a click keeps the number of entries |
| Faq.AtMostOneOpenIffCount | js/main.js:409-427 | "at most one entry open" holds exactly when the number of open entries is at most one |
| Faq.NoneOpenIffZero | js/main.js:409-427 | no entry is open exactly when the open count is zero |
| Faq.OpeningShowsOnlyIt | js/main.js:409-422 | clicking a closed entry opens it and closes every other entry, leaving exactly one open |
| Faq.ClosingHidesOnlyIt | js/main.js:423-427 | clicking an open entry closes it and leaves every other entry as it was |
| Faq.ClickKeepsAtMostOneOpen | js/main.js:409-427 | every click keeps "at most one entry open" |
| Faq.Accordion.constructor | js/main.js:402 | the accordion starts from the page's hidden flags |
| Faq.Accordion.Click | js/main.js:405-428 | the loop over all toggles leaves the flags as the toggle rule says |
| Store.EBookStore.constructor | js/main.js:5-14 | empty catalog and view, no pending search, nothing rendered, and the page name taken from the path |
| Store.EBookStore.RenderBooks | js/main.js:561-571 | `books-grid` shows the empty state or the view's books; nothing happens without the grid |
| Store.EBookStore.RenderCategoryBooks | js/main.js:588-598 | the same decision for `category-books-grid` |
| Store.EBookStore.PerformSearch | js/main.js:217-231 | the view becomes the search of the catalog for the query, the whole catalog for a blank query; the catalog is not changed; the grid is rendered |
| Store.EBookStore.HandleSearch | js/main.js:209-215 | the keystroke's query replaces any pending search |
| Store.EBookStore.SearchTimerFires | js/main.js:212-214 | the pending search runs once, with its query, and is then cleared; with none pending nothing happens |
| Store.EBookStore.FilterByCategory | js/main.js:284-291 | the view becomes the category filter of the catalog (`'all'` restores it exactly), and the grid is rendered |
| Store.EBookStore.ShowCategoryBooks | js/main.js:293-323 | without the section nothing changes; otherwise drill-down mode, the title, the description and the view become that category's, and the grid is rendered |
| Store.EBookStore.ShowAllCategories | js/main.js:325-331 | drill-down mode ends |
| Store.EBookStore.AppliesSearch | js/main.js:527-530 | the definition of when the `search` parameter applies: it is present and non-empty and the page has a search box; `Populate` and `Load` state both outcomes in terms of it |
| Store.EBookStore.Populate | js/main.js:522-535 | the catalog becomes the fetched list; the view becomes the search for the parameter when it applies, and the whole list otherwise |
| Store.EBookStore.Load | js/main.js:513-542 | a loaded catalog is kept as it is; a failed fetch shows the error banner; a successful one sets catalog and view to the list and, when there is a `search` parameter and a search box, fills the box and searches |
| Store.EBookStore.HandleBookDetails | js/main.js:694-711 | the detail page shows the lookup's outcome for the parsed id, with its related panel |
| Store.EBookStore.UpdateCategoryCounts | js/main.js:853-869 | nothing for an empty catalog; otherwise each count element shows its category's number of books |
| Store.EBookStore.HandlePageSpecificLogic | js/main.js:545-558 | `index` renders the grid and updates counts, `ebook-details` shows the detail page, `categories` updates counts, and any other page does nothing |
| Store.TypeThenPause | js/main.js:209-215 | after a burst of keystrokes and one quiet period, the view is the search for the last query only, recomputed exactly once and rendered; only the pending search, the view, the grid and the search count change |

## Left out

- Card markup (`createBookCard`, the star SVGs, `innerHTML` and `classList` edits): the model records which books a grid shows and whether it shows its empty state. `GenerateStars` returns the sequence of star kinds, not the HTML.
- The fetch, `response.json()`, `URLSearchParams` and `parseInt`: I/O and parsing. They enter as parameters: the fetched list or `None`, the `search` parameter, and the parsed id or `None` for NaN.
- Timers: `setTimeout` and `clearTimeout` of the debounce become the discrete `pending` field and `SearchTimerFires`. The 300 ms delay and wall-clock time are not modelled. The error banner's removal after five seconds is not modelled either: `Load` sets `error` once and for good.
- Animation and page chrome are not modelled: mobile menu, back-to-top button, smooth scrolling, `IntersectionObserver`, the loading indicator (`showLoadingState`/`hideLoadingState`) and the FAQ icons' rotation. `showLoadingState` also hides `books-grid`, which stays hidden until the next `renderBooks`; the model ignores this, so after `Load` the `listing` field keeps its old value while the page's grid is hidden.
- Other code outside the catalog is not modelled:
  - the contact and newsletter forms, which use promises, timers and `Math.random`;
  - the download button's transient states and the hidden anchor it clicks; only the file name is modelled;
  - the disabled theme functions, preloading, the service worker, performance monitoring and the global error handlers.
- `handleCategorySearch` and the error page's redirect with `encodeURIComponent` belong to other pages' search boxes, not the catalog's view.
- `init`'s sequencing and its catch-all error banner: the store's methods are modelled one by one. The constructor's read of the stored theme is not modelled.
- Text.Lower: ASCII letters only; the full Unicode case mapping of `toLowerCase` is not modelled.
- Strings with characters outside the Basic Multilingual Plane are outside the model. JavaScript counts such a character as two code units, for example in `SanitizeTitle`'s replacement with `_`, while a Dafny `char` is one Unicode scalar value.
- Stars.GenerateStars: ratings are exact reals; floating-point rounding and NaN ratings are not modelled, and the five-star count is proved for ratings in [0, 5] only.
- Catalog.CategoryDescription: JavaScript objects also answer inherited keys such as `constructor`; the model's table has only the seven categories. The same holds for the counts object of `updateCategoryCounts`.
- Store.EBookStore.ShowCategoryBooks: the title and description elements are treated as present whenever the `category-books` section is; the category cards grid being hidden is folded into `drillDown`.
- Store.EBookStore.UpdateCategoryCounts: `dom.countCategories` lists, for each `.category-count` element inside a `.category-card`, that card's category. Elements outside a card are never written and are not listed.

Places where the code's behaviour is modelled as written:

- The zero id is not found: `!bookId` rejects 0 as well as NaN.
- Only a non-empty catalog counts as loaded. A fetch that returned an empty list leaves the store open to fetching again.
- `showCategoryBooks` has no `'all'` value; it always filters by equality.
- `showAllCategories` leaves `filteredBooks` as the drill-down set it.
- The `search` parameter is searched for only when the page has a search box.
