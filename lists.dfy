/**
 * The store the command handlers change: the six lists ListManager holds (books, quotes,
 * categories, ratings, to-dos, bookmarks), and the lookups and updates the list classes offer.
 */
module Lists {
  import opened Wrappers
  import opened Text
  import opened Entities

  // ---------------------------------------------------------------- referential integrity

  predicate IdsBelow(ids: seq<nat>, n: nat) {
    forall k :: 0 <= k < |ids| ==> ids[k] < n
  }

  predicate BookTagsBelow(objs: seq<Book>, n: nat) {
    forall k :: 0 <= k < |objs| && objs[k].category.Some? ==> objs[k].category.value < n
  }

  predicate QuoteTagsBelow(objs: seq<Quote>, n: nat) {
    forall k :: 0 <= k < |objs| && objs[k].category.Some? ==> objs[k].category.value < n
  }

  predicate MembersBelow(cats: seq<Category>, bookCount: nat, quoteCount: nat) {
    forall k :: 0 <= k < |cats| ==> IdsBelow(cats[k].books, bookCount) && IdsBelow(cats[k].quotes, quoteCount)
  }

  predicate MarksBelow(marks: seq<Bookmark>, bookCount: nat) {
    forall k :: 0 <= k < |marks| ==> marks[k].book < bookCount
  }

  // ---------------------------------------------------------------- RatingList

  predicate HasRating(ratings: seq<Rating>, title: string) {
    exists k :: 0 <= k < |ratings| && ratings[k].title == title
  }

  /** "At most one rating per title." */
  predicate UniqueRatingTitles(ratings: seq<Rating>) {
    forall i, j :: 0 <= i < j < |ratings| ==> ratings[i].title != ratings[j].title
  }

  /** The position of the first rating of `title`: where a search loop with `break` stops. */
  function FirstRating(ratings: seq<Rating>, title: string): (r: Option<nat>)
    decreases |ratings|
    ensures r.Some? ==> r.value < |ratings| && ratings[r.value].title == title
    ensures r.Some? ==> forall j :: 0 <= j < r.value ==> ratings[j].title != title
    ensures r.None? <==> !HasRating(ratings, title)
  {
    if ratings == [] then None
    else if ratings[0].title == title then Some(0)
    else match FirstRating(ratings[1..], title)
      case None => None
      case Some(k) => Some(k + 1)
  }

  /** The position of the last rating of `title`: where a search loop without `break` ends. */
  function LastRating(ratings: seq<Rating>, title: string): (r: Option<nat>)
    decreases |ratings|
    ensures r.Some? ==> r.value < |ratings| && ratings[r.value].title == title
    ensures r.Some? ==> forall j :: r.value < j < |ratings| ==> ratings[j].title != title
    ensures r.None? <==> !HasRating(ratings, title)
  {
    if ratings == [] then None
    else if ratings[|ratings| - 1].title == title then Some(|ratings| - 1)
    else LastRating(ratings[..|ratings| - 1], title)
  }

  lemma UniqueFirstIsLast(ratings: seq<Rating>, title: string)
    requires UniqueRatingTitles(ratings)
    ensures FirstRating(ratings, title) == LastRating(ratings, title)
  {
  }

  /** `list.remove(k)`: the element at `k` is dropped and the ones after it move down by one. */
  function RemoveAt<T>(s: seq<T>, k: nat): (r: seq<T>)
    requires k < |s|
    ensures |r| == |s| - 1
    ensures forall j :: 0 <= j < k ==> r[j] == s[j]
    ensures forall j :: k <= j < |r| ==> r[j] == s[j + 1]
  {
    s[..k] + s[k + 1..]
  }

  /** The rating list after the first rating of `title` (if any) is deleted. */
  function WithoutFirstRating(ratings: seq<Rating>, title: string): (r: seq<Rating>)
    ensures |r| == if HasRating(ratings, title) then |ratings| - 1 else |ratings|
    ensures forall k :: 0 <= k < |r| ==> r[k] in ratings
    ensures UniqueRatingTitles(ratings) ==> UniqueRatingTitles(r) && !HasRating(r, title)
  {
    match FirstRating(ratings, title)
    case None => ratings
    case Some(k) =>
      var r := RemoveAt(ratings, k);
      assert forall j :: 0 <= j < |r| ==> r[j] == ratings[if j < k then j else j + 1];
      r
  }

  /** The search loop of `deleteRating`, `deleteBook` and `editBook`: it stops at the first rating of `title`. */
  method FindFirstRating(ratings: seq<Rating>, title: string) returns (found: Option<nat>)
    ensures found == FirstRating(ratings, title)
  {
    var i := 0;
    while i < |ratings|
      invariant 0 <= i <= |ratings|
      invariant forall j :: 0 <= j < i ==> ratings[j].title != title
    {
      if ratings[i].title == title {
        found := Some(i);
        assert FirstRating(ratings, title).Some?;
        return;
      }
      i := i + 1;
    }
    found := None;
  }

  /** The search loop of `editRating`, which has no `break`: it ends at the last rating of `title`. */
  method FindLastRating(ratings: seq<Rating>, title: string) returns (found: Option<nat>)
    ensures found == LastRating(ratings, title)
  {
    found := None;
    var i := 0;
    while i < |ratings|
      invariant 0 <= i <= |ratings|
      invariant found == LastRating(ratings[..i], title)
    {
      assert ratings[..i + 1][..i] == ratings[..i];
      if ratings[i].title == title {
        found := Some(i);
      }
      i := i + 1;
    }
    assert ratings[..i] == ratings;
  }

  lemma AppendNewTitleKeepsUnique(ratings: seq<Rating>, added: Rating)
    requires UniqueRatingTitles(ratings) && !HasRating(ratings, added.title)
    ensures UniqueRatingTitles(ratings + [added])
  {
    var r := ratings + [added];
    forall i, j | 0 <= i < j < |r|
      ensures r[i].title != r[j].title
    {
      if j == |ratings| {
        assert r[i] == ratings[i];
      }
    }
  }

  // ---------------------------------------------------------------- BookList

  /** `findByTitle`: the position of the first listed book whose title equals `title` exactly. */
  function FirstTitled(objs: seq<Book>, ids: seq<BookId>, title: string): (r: Option<nat>)
    requires IdsBelow(ids, |objs|)
    decreases |ids|
    ensures r.Some? ==> r.value < |ids| && objs[ids[r.value]].title == title
    ensures r.Some? ==> forall j :: 0 <= j < r.value ==> objs[ids[j]].title != title
    ensures r.None? ==> forall j :: 0 <= j < |ids| ==> objs[ids[j]].title != title
  {
    if ids == [] then None
    else if objs[ids[0]].title == title then Some(0)
    else match FirstTitled(objs, ids[1..], title)
      case None => None
      case Some(k) => Some(k + 1)
  }

  /** Some listed book has exactly this title. */
  predicate HasBookTitled(objs: seq<Book>, ids: seq<BookId>, title: string)
    requires IdsBelow(ids, |objs|)
  {
    exists k :: 0 <= k < |ids| && objs[ids[k]].title == title
  }

  predicate IsBy(b: Book, title: string, author: string) {
    b.title == title && b.author == author
  }

  /** `find(title, author)`: the listed books with that exact title and author, in list order. */
  function FindBooks(objs: seq<Book>, ids: seq<BookId>, title: string, author: string): (r: seq<BookId>)
    requires IdsBelow(ids, |objs|)
    decreases |ids|
    ensures forall k :: 0 <= k < |r| ==> r[k] in ids && IsBy(objs[r[k]], title, author)
    ensures r == [] <==> forall j :: 0 <= j < |ids| ==> !IsBy(objs[ids[j]], title, author)
    ensures forall j :: 0 <= j < |ids| && IsBy(objs[ids[j]], title, author) ==> ids[j] in r
    ensures |r| <= |ids|
  {
    if ids == [] then []
    else (if IsBy(objs[ids[0]], title, author) then [ids[0]] else []) + FindBooks(objs, ids[1..], title, author)
  }

  /** `list.indexOf(x)` for an element that is present. */
  function PositionOf(ids: seq<nat>, id: nat): (k: nat)
    requires id in ids
    ensures k < |ids| && ids[k] == id
    ensures forall j :: 0 <= j < k ==> ids[j] != id
  {
    if ids[0] == id then 0 else PositionOf(ids[1..], id) + 1
  }

  /** `deleteByBook(find(title, author).get(0))` removes the first listed book with that title and author. */
  lemma {:induction false} FirstFoundIsFirstMatch(objs: seq<Book>, ids: seq<BookId>, title: string, author: string)
    requires IdsBelow(ids, |objs|) && FindBooks(objs, ids, title, author) != []
    ensures var k := PositionOf(ids, FindBooks(objs, ids, title, author)[0]);
      IsBy(objs[ids[k]], title, author) && forall j :: 0 <= j < k ==> !IsBy(objs[ids[j]], title, author)
    decreases |ids|
  {
    var found := FindBooks(objs, ids, title, author);
    if !IsBy(objs[ids[0]], title, author) {
      assert found == FindBooks(objs, ids[1..], title, author);
      FirstFoundIsFirstMatch(objs, ids[1..], title, author);
      var id := found[0];
      assert ids[0] != id by {
        assert IsBy(objs[id], title, author);
      }
      var k' := PositionOf(ids[1..], id);
      assert PositionOf(ids, id) == k' + 1;
      forall j | 0 <= j < k' + 1
        ensures !IsBy(objs[ids[j]], title, author)
      {
        if j > 0 {
          assert ids[j] == ids[1..][j - 1];
        }
      }
    }
  }

  /**
   * `deleteByBook(find(title, author).get(0))`: the position in the book list of the first book
   * by that title and author, if there is one.
   */
  function FirstBookBy(objs: seq<Book>, ids: seq<BookId>, title: string, author: string): (r: Option<nat>)
    requires IdsBelow(ids, |objs|)
    ensures r.None? <==> forall j :: 0 <= j < |ids| ==> !IsBy(objs[ids[j]], title, author)
    ensures r.Some? ==> r.value < |ids| && IsBy(objs[ids[r.value]], title, author)
    ensures r.Some? ==> forall j :: 0 <= j < r.value ==> !IsBy(objs[ids[j]], title, author)
  {
    var found := FindBooks(objs, ids, title, author);
    if found == [] then None
    else
      FirstFoundIsFirstMatch(objs, ids, title, author);
      Some(PositionOf(ids, found[0]))
  }

  // ---------------------------------------------------------------- CategoryList

  predicate HasCategory(cats: seq<Category>, name: string) {
    exists k :: 0 <= k < |cats| && cats[k].name == name
  }

  /** "Category names stay unique." */
  predicate UniqueCategoryNames(cats: seq<Category>) {
    forall i, j :: 0 <= i < j < |cats| ==> cats[i].name != cats[j].name
  }

  /** `getCategoryByName`: the first category with exactly that name. */
  function CategoryIndex(cats: seq<Category>, name: string): (r: Option<nat>)
    decreases |cats|
    ensures r.Some? ==> r.value < |cats| && cats[r.value].name == name
    ensures r.Some? ==> forall j :: 0 <= j < r.value ==> cats[j].name != name
    ensures r.None? <==> !HasCategory(cats, name)
  {
    if cats == [] then None
    else if cats[0].name == name then Some(0)
    else match CategoryIndex(cats[1..], name)
      case None => None
      case Some(k) => Some(k + 1)
  }

  predicate SameNames(a: seq<Category>, b: seq<Category>) {
    |a| == |b| && forall k :: 0 <= k < |a| ==> a[k].name == b[k].name
  }

  lemma AppendNewNameKeepsUnique(cats: seq<Category>, added: Category)
    requires UniqueCategoryNames(cats) && !HasCategory(cats, added.name)
    ensures UniqueCategoryNames(cats + [added])
  {
    var r := cats + [added];
    forall i, j | 0 <= i < j < |r|
      ensures r[i].name != r[j].name
    {
      if j == |cats| {
        assert r[i] == cats[i];
      }
    }
  }

  lemma SameNamesKeepUnique(a: seq<Category>, b: seq<Category>)
    requires SameNames(a, b) && UniqueCategoryNames(b)
    ensures UniqueCategoryNames(a)
  {
  }

  // ---------------------------------------------------------------- BookmarkList and ToDoList

  /** BookmarkList.find(book): the position of the first bookmark of that book object. */
  function FirstBookmark(marks: seq<Bookmark>, book: BookId): (r: Option<nat>)
    decreases |marks|
    ensures r.Some? ==> r.value < |marks| && marks[r.value].book == book
    ensures r.Some? ==> forall j :: 0 <= j < r.value ==> marks[j].book != book
    ensures r.None? ==> forall j :: 0 <= j < |marks| ==> marks[j].book != book
  {
    if marks == [] then None
    else if marks[0].book == book then Some(0)
    else match FirstBookmark(marks[1..], book)
      case None => None
      case Some(k) => Some(k + 1)
  }

  /** ToDoList.find(index) is taken to address the to-dos by 1-based number. */
  function ToDoPosition(toDos: seq<ToDo>, index: int): (r: Option<nat>)
    ensures r.Some? <==> 1 <= index <= |toDos|
    ensures r.Some? ==> r.value < |toDos| && r.value + 1 == index
  {
    if 1 <= index <= |toDos| then Some(index - 1) else None
  }

  // ---------------------------------------------------------------- 1-based numbers

  /** What a 1-based number typed by the user addresses in a list. */
  datatype Lookup = NotANumber | OutOfRange | At(index: nat)

  /**
   * `list.get(Integer.parseInt(s) - 1)`: the subtraction is done in 32-bit arithmetic, and an
   * index outside the list is an IndexOutOfBoundsException.
   */
  function NumberedPosition(s: string, size: nat): (r: Lookup)
    ensures r == NotANumber <==> ParseInt(s).None?
    ensures r.At? ==> r.index < size
    ensures size <= MaxInt32 && ParseInt(s).Some? ==>
      && (r.At? <==> 1 <= ParseInt(s).value <= size)
      && (r.At? ==> r.index + 1 == ParseInt(s).value)
  {
    match ParseInt(s)
    case None => NotANumber
    case Some(n) =>
      OneBasedIndex(n, if size <= MaxInt32 then size else 0);
      var k := Wrap32(n - 1);
      if 0 <= k < size then At(k) else OutOfRange
  }

  /** The number `Integer.toString` writes for position `k + 1` addresses position `k`. */
  lemma NumberedRendered(k: nat, size: nat)
    requires k < size <= MaxInt32
    ensures NumberedPosition(IntToString(k + 1), size) == At(k)
  {
    ParseIntToString(k + 1);
  }

  // ---------------------------------------------------------------- object updates

  /** `book.setCategory(c)` on the book object `id`. */
  function SetBookCategory(objs: seq<Book>, id: BookId, c: Option<CategoryId>): (r: seq<Book>)
    requires id < |objs|
    ensures |r| == |objs| && r[id].category == c
    ensures r[id].title == objs[id].title && r[id].author == objs[id].author
    ensures forall k :: 0 <= k < |objs| && k != id ==> r[k] == objs[k]
  {
    objs[id := objs[id].(category := c)]
  }

  /** `quote.setCategory(c)` on the quote object `id`. */
  function SetQuoteCategory(objs: seq<Quote>, id: QuoteId, c: Option<CategoryId>): (r: seq<Quote>)
    requires id < |objs|
    ensures |r| == |objs| && r[id].category == c
    ensures r[id].text == objs[id].text && r[id].extra == objs[id].extra
    ensures forall k :: 0 <= k < |objs| && k != id ==> r[k] == objs[k]
  {
    objs[id := objs[id].(category := c)]
  }

  /**
   * Of the book objects, only some with tag `c` changed, and each of those only lost its tag
   * (`c` is `None` when the tag they lost may be any).
   */
  predicate BooksOnlyUntagged(before: seq<Book>, after: seq<Book>, c: Option<CategoryId>) {
    && |after| == |before|
    && forall k :: 0 <= k < |before| && after[k] != before[k] ==>
         && before[k].category.Some? && (c.Some? ==> before[k].category == c)
         && after[k] == before[k].(category := None)
  }

  /** The same for the quote objects. */
  predicate QuotesOnlyUntagged(before: seq<Quote>, after: seq<Quote>, c: Option<CategoryId>) {
    && |after| == |before|
    && forall k :: 0 <= k < |before| && after[k] != before[k] ==>
         && before[k].category.Some? && (c.Some? ==> before[k].category == c)
         && after[k] == before[k].(category := None)
  }

  /** `category.getBooks().add(book)` on category `c`. */
  function AddBookRef(cats: seq<Category>, c: CategoryId, id: BookId): (r: seq<Category>)
    requires c < |cats|
    ensures SameNames(r, cats)
  {
    cats[c := cats[c].(books := cats[c].books + [id])]
  }

  /** `category.getQuotes().add(quote)` on category `c`. */
  function AddQuoteRef(cats: seq<Category>, c: CategoryId, id: QuoteId): (r: seq<Category>)
    requires c < |cats|
    ensures SameNames(r, cats)
  {
    cats[c := cats[c].(quotes := cats[c].quotes + [id])]
  }

  /** The quote objects of a quote list, in list order (what `getList()` hands out). */
  function QuoteList(objs: seq<Quote>, ids: seq<QuoteId>): (r: seq<Quote>)
    requires IdsBelow(ids, |objs|)
    decreases |ids|
    ensures |r| == |ids| && forall k :: 0 <= k < |ids| ==> r[k] == objs[ids[k]]
  {
    if ids == [] then [] else [objs[ids[0]]] + QuoteList(objs, ids[1..])
  }

  // ---------------------------------------------------------------- the store

  /**
   * ListManager's six lists, passed to every handler. `bookObjects` and `quoteObjects` hold every
   * Book and Quote object created so far (an id is a position there); `books` and `quotes` are
   * the BookList and QuoteList, in order. A category's own lists and a bookmark refer to the same
   * objects, so a change made through one is seen through the others.
   */
  class ListManager {
    var bookObjects: seq<Book>
    var books: seq<BookId>
    var quoteObjects: seq<Quote>
    var quotes: seq<QuoteId>
    var categories: seq<Category>
    var ratings: seq<Rating>
    var toDos: seq<ToDo>
    var bookmarks: seq<Bookmark>

    /** Every id names an existing object and every tag an existing category. */
    ghost predicate Valid()
      reads this
    {
      && IdsBelow(books, |bookObjects|)
      && IdsBelow(quotes, |quoteObjects|)
      && BookTagsBelow(bookObjects, |categories|)
      && QuoteTagsBelow(quoteObjects, |categories|)
      && MembersBelow(categories, |bookObjects|, |quoteObjects|)
      && MarksBelow(bookmarks, |bookObjects|)
    }

    /** ListManager.initialiseAllLists: every list starts empty. */
    constructor ()
      ensures Valid()
      ensures bookObjects == [] && books == [] && quoteObjects == [] && quotes == []
      ensures categories == [] && ratings == [] && toDos == [] && bookmarks == []
    {
      bookObjects, books, quoteObjects, quotes := [], [], [], [];
      categories, ratings, toDos, bookmarks := [], [], [], [];
    }

    /** BookList.add: a new, untagged book object goes to the end of the book list. */
    method AppendBook(b: Book)
      requires Valid() && b.category == None
      modifies this`bookObjects, this`books
      ensures Valid()
      ensures bookObjects == old(bookObjects) + [b] && books == old(books) + [|old(bookObjects)|]
    {
      books := books + [|bookObjects|];
      bookObjects := bookObjects + [b];
    }

    /** CategoryList.add of a new, empty category. */
    method AppendCategory(name: string)
      requires Valid()
      modifies this`categories
      ensures Valid()
      ensures categories == old(categories) + [Category(name, [], [])]
    {
      categories := categories + [Category(name, [], [])];
    }

    /** `book.setCategory(category)` followed by `category.getBooks().add(book)`. */
    method LinkBook(id: BookId, c: CategoryId)
      requires Valid() && id < |bookObjects| && c < |categories|
      modifies this`bookObjects, this`categories
      ensures Valid()
      ensures bookObjects == SetBookCategory(old(bookObjects), id, Some(c))
      ensures categories == AddBookRef(old(categories), c, id)
    {
      bookObjects := SetBookCategory(bookObjects, id, Some(c));
      categories := AddBookRef(categories, c, id);
    }

    /** `quote.setCategory(category)` followed by `category.getQuotes().add(quote)`. */
    method LinkQuote(id: QuoteId, c: CategoryId)
      requires Valid() && id < |quoteObjects| && c < |categories|
      modifies this`quoteObjects, this`categories
      ensures Valid()
      ensures quoteObjects == SetQuoteCategory(old(quoteObjects), id, Some(c))
      ensures categories == AddQuoteRef(old(categories), c, id)
    {
      quoteObjects := SetQuoteCategory(quoteObjects, id, Some(c));
      categories := AddQuoteRef(categories, c, id);
    }

    /** `book.setCategory(null)`. */
    method UntagBook(id: BookId)
      requires Valid() && id < |bookObjects|
      modifies this`bookObjects
      ensures Valid()
      ensures bookObjects == SetBookCategory(old(bookObjects), id, None)
    {
      bookObjects := SetBookCategory(bookObjects, id, None);
    }

    /** `quote.setCategory(null)`. */
    method UntagQuote(id: QuoteId)
      requires Valid() && id < |quoteObjects|
      modifies this`quoteObjects
      ensures Valid()
      ensures quoteObjects == SetQuoteCategory(old(quoteObjects), id, None)
    {
      quoteObjects := SetQuoteCategory(quoteObjects, id, None);
    }

    /** BookList.delete / deleteByBook: the book at position `k` leaves the book list (its object remains). */
    method RemoveBookAt(k: nat)
      requires Valid() && k < |books|
      modifies this`books
      ensures Valid()
      ensures books == RemoveAt(old(books), k)
    {
      books := RemoveAt(books, k);
    }

    /** QuoteList.delete: the quote at position `k` leaves the quote list (its object remains). */
    method RemoveQuoteAt(k: nat)
      requires Valid() && k < |quotes|
      modifies this`quotes
      ensures Valid()
      ensures quotes == RemoveAt(old(quotes), k)
    {
      quotes := RemoveAt(quotes, k);
    }

    /** BookmarkList.delete of the bookmark at position `k`. */
    method RemoveBookmarkAt(k: nat)
      requires Valid() && k < |bookmarks|
      modifies this`bookmarks
      ensures Valid()
      ensures bookmarks == RemoveAt(old(bookmarks), k)
    {
      bookmarks := RemoveAt(bookmarks, k);
    }

    /** QuoteList.editQuote: a new, untagged quote object takes the place of the quote at position `k`. */
    method ReplaceQuote(k: nat, q: Quote)
      requires Valid() && k < |quotes| && q.category == None
      modifies this`quoteObjects, this`quotes
      ensures Valid()
      ensures quoteObjects == old(quoteObjects) + [q] && quotes == old(quotes)[k := |old(quoteObjects)|]
    {
      quotes := quotes[k := |quoteObjects|];
      quoteObjects := quoteObjects + [q];
    }

    /** `book.setTitle(title)` on the book object `id`. */
    method RetitleBook(id: BookId, title: string)
      requires Valid() && id < |bookObjects|
      modifies this`bookObjects
      ensures Valid()
      ensures bookObjects == old(bookObjects)[id := old(bookObjects)[id].(title := title)]
    {
      bookObjects := bookObjects[id := bookObjects[id].(title := title)];
    }

    /** `category.setCategoryName(name)` on category `c`. */
    method RenameCategory(c: CategoryId, name: string)
      requires Valid() && c < |categories|
      modifies this`categories
      ensures Valid()
      ensures categories == old(categories)[c := old(categories)[c].(name := name)]
    {
      categories := categories[c := categories[c].(name := name)];
    }

    /** QuoteList.add: a new, untagged quote object goes to the end of the quote list. */
    method AppendQuote(q: Quote)
      requires Valid() && q.category == None
      modifies this`quoteObjects, this`quotes
      ensures Valid()
      ensures quoteObjects == old(quoteObjects) + [q] && quotes == old(quotes) + [|old(quoteObjects)|]
    {
      quotes := quotes + [|quoteObjects|];
      quoteObjects := quoteObjects + [q];
    }
  }
}
