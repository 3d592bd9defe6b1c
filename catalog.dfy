/**
 * The catalog's selection rules, free of the DOM: text search, the
 * category filter, the detail-page lookup, related books, the category
 * descriptions, the per-category counts and the empty-state decision.
 */
module Catalog {
  import opened Wrappers
  import opened Text
  import opened Seqs

  /** One record of the catalog as loaded; only the fields the logic reads. */
  datatype Book = Book(id: int, title: string, author: string, category: string,
                       description: string, rating: real)

  /** What a book grid shows: the page's own markup, the empty-state banner, or cards for these books. */
  datatype Display = Untouched | NoResults | Grid(cards: seq<Book>)

  /** What the detail page shows: the not-found state, or one book and its related-books panel. */
  datatype DetailView = NotFound | Found(book: Book, related: Display)

  /** The category value that stands for every category. */
  const AllCategories: string := "all"

  /** The description shown for a category without an entry of its own. */
  const FallbackDescription: string := "Discover amazing books in this category"

  /** A grid with nothing to show hides itself and shows its empty-state banner instead. */
  function Listing(shown: seq<Book>): (d: Display)
    ensures d != Untouched
    ensures d == NoResults <==> shown == []
    ensures d.Grid? ==> d.cards == shown
  {
    if |shown| == 0 then NoResults else Grid(shown)
  }

  // ---------------------------------------------------------------- text search

  /** The search matches one book: `term` (already lower-cased) occurs in a lower-cased field. */
  function Matches(term: string, b: Book): (m: bool)
    ensures m <==> exists f :: f in [b.title, b.author, b.category, b.description] && Contains(Lower(f), term)
  {
    assert b.title in [b.title, b.author, b.category, b.description];
    assert b.author in [b.title, b.author, b.category, b.description];
    assert b.category in [b.title, b.author, b.category, b.description];
    assert b.description in [b.title, b.author, b.category, b.description];
    Contains(Lower(b.title), term) || Contains(Lower(b.author), term) ||
    Contains(Lower(b.category), term) || Contains(Lower(b.description), term)
  }

  function MatchesTerm(term: string): Book -> bool {
    b => Matches(term, b)
  }

  /**
   * The filtered view after searching for `query`: the whole catalog for a
   * blank query, otherwise the books matching the lower-cased, untrimmed query.
   */
  function Search(books: seq<Book>, query: string): (r: seq<Book>)
    ensures Trim(query) == [] ==> r == books
  {
    if Trim(query) == [] then books else Filter(MatchesTerm(Lower(query)), books)
  }

  /** A non-blank query keeps exactly the catalog's books that match it. */
  lemma SearchMembership(books: seq<Book>, query: string)
    requires Trim(query) != []
    ensures forall b :: b in Search(books, query) <==> b in books && Matches(Lower(query), b)
  {
  }

  /** A non-blank query selects exactly the matching books, in catalog order. */
  lemma SearchSelects(books: seq<Book>, query: string)
    requires Trim(query) != []
    ensures SelectsExactly(Search(books, query), books, MatchesTerm(Lower(query)))
  {
    FilterSelectsExactly(MatchesTerm(Lower(query)), books);
  }

  /** A query made of white space only restores the catalog. */
  lemma BlankSearchRestores(books: seq<Book>, query: string)
    requires IsBlank(query)
    ensures Search(books, query) == books
  {
    TrimEmptyIffBlank(query);
  }

  /** Queries that differ only in the case of their letters give the same view. */
  lemma SearchIgnoresCase(books: seq<Book>, q1: string, q2: string)
    requires Lower(q1) == Lower(q2)
    ensures Search(books, q1) == Search(books, q2)
  {
    TrimEmptyIffBlank(q1);
    TrimEmptyIffBlank(q2);
    LowerKeepsBlank(q1);
    LowerKeepsBlank(q2);
  }

  /** Searching the result of a search for the same query changes nothing. */
  lemma SearchIdempotent(books: seq<Book>, query: string)
    ensures Search(Search(books, query), query) == Search(books, query)
  {
    if Trim(query) != [] {
      FilterIdempotent(MatchesTerm(Lower(query)), books);
    }
  }

  // ---------------------------------------------------------------- category filter

  function InCategory(category: string): Book -> bool {
    (b: Book) => b.category == category
  }

  /** The books of one category, in catalog order. */
  function ByCategory(books: seq<Book>, category: string): (r: seq<Book>)
    ensures forall b :: b in r <==> b in books && b.category == category
  {
    Filter(InCategory(category), books)
  }

  lemma ByCategorySelects(books: seq<Book>, category: string)
    ensures SelectsExactly(ByCategory(books, category), books, InCategory(category))
  {
    FilterSelectsExactly(InCategory(category), books);
  }

  /** The home page's filter: the sentinel restores the catalog, any other value filters by equality. */
  function CategoryFilter(books: seq<Book>, category: string): (r: seq<Book>)
    ensures category == AllCategories ==> r == books
    ensures category != AllCategories ==> r == ByCategory(books, category)
  {
    if category == AllCategories then books else ByCategory(books, category)
  }

  /** Filtering by a category twice is filtering once. */
  lemma CategoryFilterIdempotent(books: seq<Book>, category: string)
    ensures CategoryFilter(CategoryFilter(books, category), category) == CategoryFilter(books, category)
  {
    if category != AllCategories {
      FilterIdempotent(InCategory(category), books);
    }
  }

  /** A one-book catalog: its category selects it, another category selects nothing and shows the empty state. */
  lemma CategoryFilterExample(b: Book)
    requires b.category == "Self-Help"
    ensures CategoryFilter([b], "Self-Help") == [b]
    ensures CategoryFilter([b], "Finance") == [] && Listing(CategoryFilter([b], "Finance")) == NoResults
  {
    assert [b][1..] == [];
  }

  /** The descriptions of the categories page, keyed by category name. */
  const Descriptions: map<string, string> := map[
    "Technology" := "Explore cutting-edge programming, AI, and web development resources",
    "Business" := "Master entrepreneurship, marketing, and business strategy",
    "Arts" := "Unleash your creativity with design, photography, and writing guides",
    "Health" := "Improve your wellbeing with fitness, nutrition, and lifestyle advice",
    "Finance" := "Build wealth with personal finance and investment strategies",
    "Self-Help" := "Transform your life with personal development resources",
    "Lifestyle" := "Live sustainably and create better life balance"
  ]

  /** The table describes exactly the seven categories of the store, none with the generic text. */
  lemma DescriptionsCoverCategories()
    ensures Descriptions.Keys == {"Technology", "Business", "Arts", "Health", "Finance", "Self-Help", "Lifestyle"}
    ensures forall c :: c in Descriptions ==> Descriptions[c] != [] && Descriptions[c] != FallbackDescription
  {
  }

  /** The description of the drill-down view; unmapped categories get the generic one. */
  function CategoryDescription(category: string): (d: string)
    ensures d != []
    ensures d == FallbackDescription <==> category !in Descriptions
    ensures category in Descriptions ==> d == Descriptions[category]
  {
    if category in Descriptions then Descriptions[category] else FallbackDescription
  }

  // ---------------------------------------------------------------- detail page

  /** The first book with this id, as `books.find(b => b.id === id)` returns it. */
  function FindById(books: seq<Book>, id: int): (r: Option<Book>)
    ensures r.None? <==> forall b :: b in books ==> b.id != id
    ensures r.Some? ==> exists i :: 0 <= i < |books| && books[i] == r.value &&
                          r.value.id == id && forall j :: 0 <= j < i ==> books[j].id != id
  {
    if books == [] then None
    else if books[0].id == id then Some(books[0])
    else
      var r := FindById(books[1..], id);
      assert forall b :: b in books ==> b == books[0] || b in books[1..];
      FindByIdShift(books, id, r);
      r
  }

  lemma FindByIdShift(books: seq<Book>, id: int, r: Option<Book>)
    requires books != [] && books[0].id != id
    requires r.Some? ==> exists i :: 0 <= i < |books[1..]| && books[1..][i] == r.value &&
                          r.value.id == id && forall j :: 0 <= j < i ==> books[1..][j].id != id
    ensures r.Some? ==> exists i :: 0 <= i < |books| && books[i] == r.value &&
                          r.value.id == id && forall j :: 0 <= j < i ==> books[j].id != id
  {
    if r.Some? {
      var i :| 0 <= i < |books[1..]| && books[1..][i] == r.value &&
               r.value.id == id && forall j :: 0 <= j < i ==> books[1..][j].id != id;
      assert books[i + 1] == r.value;
      assert forall j :: 1 <= j < i + 1 ==> books[j] == books[1..][j - 1];
    }
  }

  /**
   * The detail page's lookup of the parsed `id` parameter: no number (absent
   * or not numeric, where `parseInt` gives NaN) and the id 0 both mean "not
   * found", as does an id no book carries.
   */
  function LookUpBook(books: seq<Book>, parsedId: Option<int>): (r: Option<Book>)
    ensures parsedId == None || parsedId == Some(0) ==> r == None
    ensures r.Some? ==> r.value in books && parsedId == Some(r.value.id)
    ensures parsedId.Some? && parsedId.value != 0 ==> r == FindById(books, parsedId.value)
  {
    match parsedId
    case None => None
    case Some(id) => if id == 0 then None else FindById(books, id)
  }

  /** Books of the same category as `current`, other than it (by id), in catalog order. */
  function IsRelatedTo(current: Book): Book -> bool {
    (b: Book) => b.category == current.category && b.id != current.id
  }

  /** The related-books panel: the first three related books. */
  function RelatedBooks(books: seq<Book>, current: Book): (r: seq<Book>)
    ensures |r| <= 3
    ensures forall b :: b in r ==> b in books && b.category == current.category && b.id != current.id
    ensures r <= Filter(IsRelatedTo(current), books)
    ensures |r| == if |Filter(IsRelatedTo(current), books)| < 3 then |Filter(IsRelatedTo(current), books)| else 3
  {
    var all := Filter(IsRelatedTo(current), books);
    var r := if |all| <= 3 then all else all[..3];
    assert forall b :: b in r ==> b in all;
    r
  }

  /** When fewer than three books are shown as related, no related book was left out. */
  lemma RelatedMissesNothing(books: seq<Book>, current: Book, b: Book)
    requires |RelatedBooks(books, current)| < 3
    requires b in books && b.category == current.category && b.id != current.id
    ensures b in RelatedBooks(books, current)
  {
    assert IsRelatedTo(current)(b);
  }

  /** The related books keep the catalog's order. */
  lemma RelatedInCatalogOrder(books: seq<Book>, current: Book)
    ensures IsSubsequence(RelatedBooks(books, current), books)
  {
    var all := Filter(IsRelatedTo(current), books);
    FilterIsSubsequence(IsRelatedTo(current), books);
    PrefixIsSubsequence(RelatedBooks(books, current), all, books);
  }

  lemma {:induction false} PrefixIsSubsequence(r: seq<Book>, q: seq<Book>, s: seq<Book>)
    requires r <= q && IsSubsequence(q, s)
    ensures IsSubsequence(r, s)
    decreases |s|
  {
    if r != [] {
      assert q != [] && r[0] == q[0] && r[1..] <= q[1..];
      if q[0] == s[0] && IsSubsequence(q[1..], s[1..]) {
        PrefixIsSubsequence(r[1..], q[1..], s[1..]);
      } else {
        PrefixIsSubsequence(r, q, s[1..]);
      }
    }
  }

  /** What the detail page shows for the `id` parameter; `panel` tells whether the page has a related-books container. */
  function Details(books: seq<Book>, parsedId: Option<int>, panel: bool): (v: DetailView)
    ensures v == NotFound <==> LookUpBook(books, parsedId) == None
    ensures v.Found? ==> Some(v.book) == LookUpBook(books, parsedId)
    ensures v.Found? && panel ==> v.related == Listing(RelatedBooks(books, v.book))
    ensures v.Found? && !panel ==> v.related == Untouched
  {
    match LookUpBook(books, parsedId)
    case None => NotFound
    case Some(b) => Found(b, if panel then Listing(RelatedBooks(books, b)) else Untouched)
  }

  // ---------------------------------------------------------------- category counts

  /** The number of books in a category: the size of that category's filter. */
  function Count(books: seq<Book>, category: string): nat {
    |ByCategory(books, category)|
  }

  lemma CountPositive(books: seq<Book>, category: string)
    ensures Count(books, category) > 0 <==> exists b :: b in books && b.category == category
  {
    var r := ByCategory(books, category);
    if r != [] { assert r[0] in r; }
  }

  /** Appending one book adds one to its own category's count and leaves the others alone. */
  lemma CountSnoc(books: seq<Book>, b: Book)
    ensures forall c :: Count(books + [b], c) == Count(books, c) + (if b.category == c then 1 else 0)
  {
    forall c ensures Count(books + [b], c) == Count(books, c) + (if b.category == c then 1 else 0) {
      FilterAppend(InCategory(c), books, [b]);
    }
  }

  predicate Distinct(keys: seq<string>) {
    forall i, j :: 0 <= i < j < |keys| ==> keys[i] != keys[j]
  }

  /** The sum of the table's entries for the listed keys. */
  function SumOf(counts: map<string, nat>, keys: seq<string>): int
    requires forall k :: k in keys ==> k in counts
  {
    if keys == [] then 0 else SumOf(counts, keys[..|keys| - 1]) + counts[keys[|keys| - 1]]
  }

  /** Changing one entry of the table changes the sum over distinct keys by the difference. */
  lemma {:induction false} SumOfUpdate(counts: map<string, nat>, keys: seq<string>, c: string, v: nat)
    requires forall k :: k in keys ==> k in counts
    requires Distinct(keys)
    requires c in counts
    ensures SumOf(counts[c := v], keys) == SumOf(counts, keys) + (if c in keys then v - counts[c] else 0)
  {
    if keys != [] {
      var init := keys[..|keys| - 1];
      assert forall k :: k in init ==> k in keys;
      SumOfUpdate(counts, init, c, v);
      assert c in keys <==> c in init || c == keys[|keys| - 1];
      assert c == keys[|keys| - 1] ==> c !in init;
    }
  }

  /** `counts[c] || 0`: the value a category's count element shows. */
  function ShownCount(counts: map<string, nat>, category: string): (n: nat)
    ensures category in counts ==> n == counts[category]
    ensures category !in counts ==> n == 0
  {
    if category in counts then counts[category] else 0
  }

  /** The table built by updateCategoryCounts: each present category mapped to its count. */
  ghost predicate IsCountTable(books: seq<Book>, counts: map<string, nat>) {
    && (forall c :: c in counts <==> exists b :: b in books && b.category == c)
    && (forall c :: c in counts ==> counts[c] == Count(books, c))
  }

  /** The numbers the category cards show, one per card, given the card's category. */
  function CategoryCounts(books: seq<Book>, categories: seq<string>): (r: seq<nat>)
    ensures |r| == |categories|
  {
    seq(|categories|, i requires 0 <= i < |categories| => Count(books, categories[i]))
  }

  /** A category's element shows its number of books, and 0 for a category without books. */
  lemma ShownCountIsCount(books: seq<Book>, counts: map<string, nat>, category: string)
    requires IsCountTable(books, counts)
    ensures ShownCount(counts, category) == Count(books, category)
  {
    CountPositive(books, category);
  }

  /** The loop invariant of CountByCategory, after the books of `seen`. */
  ghost predicate TallySoFar(seen: seq<Book>, counts: map<string, nat>, keys: seq<string>) {
    && Distinct(keys)
    && (forall c :: c in counts <==> c in keys)
    && (forall c :: c in counts <==> Count(seen, c) > 0)
    && (forall c :: c in counts ==> counts[c] == Count(seen, c))
    && SumOf(counts, keys) == |seen|
  }

  /** One step of the loop: counting one more book keeps the invariant. */
  lemma TallyStep(seen: seq<Book>, b: Book, counts: map<string, nat>, keys: seq<string>)
    requires TallySoFar(seen, counts, keys)
    ensures b.category in counts ==>
      TallySoFar(seen + [b], counts[b.category := counts[b.category] + 1], keys)
    ensures b.category !in counts ==>
      TallySoFar(seen + [b], counts[b.category := 1], keys + [b.category])
  {
    var c := b.category;
    CountSnoc(seen, b);
    if c in counts {
      SumOfUpdate(counts, keys, c, counts[c] + 1);
    } else {
      var m := counts[c := 1];
      assert (keys + [c])[..|keys|] == keys;
      SumOfCoincide(counts, m, keys);
      assert SumOf(m, keys + [c]) == SumOf(m, keys) + 1;
    }
  }

  /**
   * The `forEach` of updateCategoryCounts: one pass over the catalog adding
   * one to the entry of each book's category. `keys` lists the table's
   * categories, each once.
   */
  method CountByCategory(books: seq<Book>) returns (counts: map<string, nat>, keys: seq<string>)
    ensures IsCountTable(books, counts)
    ensures Distinct(keys) && forall c :: c in counts <==> c in keys
    ensures SumOf(counts, keys) == |books|
  {
    counts, keys := map[], [];
    for i := 0 to |books|
      invariant TallySoFar(books[..i], counts, keys)
    {
      var c := books[i].category;
      TallyStep(books[..i], books[i], counts, keys);
      assert books[..i + 1] == books[..i] + [books[i]];
      if c in counts {
        counts := counts[c := counts[c] + 1];
      } else {
        counts, keys := counts[c := 1], keys + [c];
      }
    }
    assert books[..|books|] == books;
    forall c ensures c in counts <==> exists b :: b in books && b.category == c {
      CountPositive(books, c);
    }
  }

  /** Two tables that agree on the listed keys have the same sum over them. */
  lemma {:induction false} SumOfCoincide(m1: map<string, nat>, m2: map<string, nat>, keys: seq<string>)
    requires forall k :: k in keys ==> k in m1 && k in m2 && m1[k] == m2[k]
    ensures SumOf(m1, keys) == SumOf(m2, keys)
  {
    if keys != [] {
      assert forall k :: k in keys[..|keys| - 1] ==> k in keys;
      SumOfCoincide(m1, m2, keys[..|keys| - 1]);
    }
  }
}
