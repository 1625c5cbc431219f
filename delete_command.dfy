/**
 * The `delete` command: a quote by number, a rating by title, a book by title and author, a
 * category tag of a book and/or a quote, a to-do by number, or the bookmark of a book.
 */
module DeleteCommand {
  import opened Wrappers
  import opened Text
  import opened Entities
  import opened Lists

  // ---------------------------------------------------------------- deleteQuote

  /**
   * The outcome of `deleteQuote`: a trimmed payload that is the 1-based number of a listed quote
   * removes that quote from the list; anything else is reported and changes nothing.
   */
  twostate predicate QuoteDeleted(lm: ListManager, information: string, report: Report)
    reads lm
  {
    match NumberedPosition(Trim(information), |old(lm.quotes)|)
    case At(k) => report == Done && lm.quotes == RemoveAt(old(lm.quotes), k)
    case _ => report == Rejected(InvalidQuoteNumber) && lm.quotes == old(lm.quotes)
  }

  /** `deleteQuote`: the trimmed payload is a 1-based quote number. */
  method DeleteQuote(lm: ListManager, information: string) returns (report: Report)
    requires lm.Valid()
    modifies lm`quotes
    ensures lm.Valid()
    ensures QuoteDeleted(lm, information, report)
  {
    match NumberedPosition(Trim(information), |lm.quotes|)
    case At(k) =>
      lm.RemoveQuoteAt(k);
      report := Done;
    case _ =>
      report := Rejected(InvalidQuoteNumber);
  }

  /** The number of the last quote, as the quote list shows it, deletes exactly the quote just added. */
  lemma DeleteLastAdded(quotes: seq<QuoteId>, id: QuoteId)
    requires |quotes| < MaxInt32
    ensures NumberedPosition(Trim(IntToString(|quotes| + 1)), |quotes + [id]|) == At(|quotes|)
    ensures RemoveAt(quotes + [id], |quotes|) == quotes
  {
    var digits := IntToString(|quotes| + 1);
    assert digits == Decimal(|quotes| + 1);
    assert IsDigit(digits[0]) && IsDigit(digits[|digits| - 1]);
    assert Trim(digits) == digits;
    NumberedRendered(|quotes|, |quotes + [id]|);
  }

  // ---------------------------------------------------------------- deleteRating

  /** The outcome of `deleteRating`: the first rating of the title is removed, if there is one. */
  twostate predicate RatingDeleted(lm: ListManager, bookTitle: string, report: Report)
    reads lm
  {
    && lm.ratings == WithoutFirstRating(old(lm.ratings), bookTitle)
    && report == if HasRating(old(lm.ratings), bookTitle) then Done else Rejected(RatingNotFound)
  }

  /** `deleteRating`: the first rating whose title equals the trimmed payload is removed. */
  method DeleteRating(lm: ListManager, bookTitle: string) returns (report: Report)
    requires lm.Valid()
    modifies lm`ratings
    ensures lm.Valid()
    ensures RatingDeleted(lm, bookTitle, report)
  {
    var found := FindFirstRating(lm.ratings, bookTitle);
    if found.None? {
      return Rejected(RatingNotFound);
    }
    lm.ratings := RemoveAt(lm.ratings, found.value);
    report := Done;
  }

  /** Deleting the rating of a title that was just rated for the first time undoes the rating. */
  lemma {:induction false} DeleteUndoesRate(ratings: seq<Rating>, added: Rating)
    requires !HasRating(ratings, added.title)
    ensures WithoutFirstRating(ratings + [added], added.title) == ratings
  {
    var r := ratings + [added];
    assert r[|ratings|].title == added.title;
    assert forall j :: 0 <= j < |ratings| ==> r[j].title != added.title by {
      forall j | 0 <= j < |ratings|
        ensures r[j].title != added.title
      {
        assert r[j] == ratings[j];
      }
    }
    match FirstRating(r, added.title)
    case Some(k) =>
      assert k == |ratings|;
      assert RemoveAt(r, k) == ratings;
  }

  // ---------------------------------------------------------------- deleteBook

  /**
   * The title and author `deleteBook` reads: the payload's pieces around each `/by`, the first
   * trimmed as the title and the second trimmed as the author (missing when there is no second
   * piece). A payload whose every piece is empty gives no first piece, and reading it throws.
   */
  function BookToDelete(information: string): (r: Result<(string, Option<string>), Fault>)
    ensures r.Failure? ==> r.error == ArrayIndexOutOfBounds && Contains(information, FlagAuthor)
    ensures !Contains(information, FlagAuthor) ==> r == Success((Trim(information), None))
    ensures r.Success? ==> IsTrimmed(r.value.0) && (r.value.1.Some? ==> IsTrimmed(r.value.1.value))
  {
    var titleAndAuthor := SplitAll(information, FlagAuthor);
    if titleAndAuthor == [] then Failure(ArrayIndexOutOfBounds)
    else Success((Trim(titleAndAuthor[0]), if |titleAndAuthor| < 2 then None else Some(Trim(titleAndAuthor[1]))))
  }

  /** The payload `title /by author` that adds a book names that book for deletion too. */
  lemma DeleteTargetRendered(title: string, author: string)
    requires IsTrimmed(title) && IsTrimmed(author) && author != []
    requires '/' !in title && '/' !in author
    ensures BookToDelete(title + " " + FlagAuthor + " " + author) == Success((title, Some(author)))
  {
    var info := title + " " + FlagAuthor + " " + author;
    assert info == (title + " ") + FlagAuthor + (" " + author);
    SplitAllRendered(title + " ", FlagAuthor, " " + author);
    TrimSpaced(title);
    TrimSpaced(author);
  }

  /** A payload that ends at the flag has no author part: the book is not found. */
  lemma MissingAuthorRead(title: string)
    requires IsTrimmed(title) && '/' !in title
    ensures BookToDelete(title + " " + FlagAuthor) == Success((title, None))
  {
    var info := title + " " + FlagAuthor;
    assert info == (title + " ") + FlagAuthor + "";
    MarkerAfter(title + " ", FlagAuthor, "");
    assert info[..|title| + 1] == title + " ";
    assert info[|title| + 1 + |FlagAuthor|..] == "";
    assert Pieces("", FlagAuthor) == [""];
    assert Pieces(info, FlagAuthor) == [title + " ", ""];
    assert DropTrailingEmpty([title + " ", ""]) == DropTrailingEmpty([title + " "]);
    TrimSpaced(title);
    assert Trim(title + " ") == title;
  }

  /** The flag alone splits into nothing, and reading the title throws. */
  lemma FlagAloneThrows()
    ensures BookToDelete(FlagAuthor) == Failure(ArrayIndexOutOfBounds)
  {
    MarkerAfter("", FlagAuthor, "");
    assert FlagAuthor[..0] == "" && FlagAuthor[|FlagAuthor|..] == "";
    assert Pieces("", FlagAuthor) == [""];
    assert Pieces(FlagAuthor, FlagAuthor) == ["", ""];
  }

  /**
   * The outcome of `deleteBook`: the first rating of the title is removed first, whether or not
   * the book exists; then the first listed book with that title and author leaves the book list.
   */
  twostate predicate BookDeleted(lm: ListManager, information: string, report: Report)
    reads lm
  {
    && IdsBelow(old(lm.books), |lm.bookObjects|)
    && if BookToDelete(information).Failure? then
      report == Crashed(ArrayIndexOutOfBounds) && lm.ratings == old(lm.ratings) && lm.books == old(lm.books)
    else
      var (title, author) := BookToDelete(information).value;
      && lm.ratings == WithoutFirstRating(old(lm.ratings), title)
      && var found := if author.None? then None else FirstBookBy(lm.bookObjects, old(lm.books), title, author.value);
         if found.None? then report == Rejected(NoBookFound) && lm.books == old(lm.books)
         else report == Done && lm.books == RemoveAt(old(lm.books), found.value)
  }

  /** `deleteBook`: the rating search loop, then `find` and `deleteByBook`. */
  method DeleteBook(lm: ListManager, information: string) returns (report: Report)
    requires lm.Valid()
    modifies lm`ratings, lm`books
    ensures lm.Valid()
    ensures BookDeleted(lm, information, report)
  {
    var target := BookToDelete(information);
    if target.Failure? {
      return Crashed(target.error);
    }
    var title, author := target.value.0, target.value.1;
    var rated := FindFirstRating(lm.ratings, title);
    if rated.Some? {
      lm.ratings := RemoveAt(lm.ratings, rated.value);
    }
    if author.None? {
      return Rejected(NoBookFound);
    }
    var found := FirstBookBy(lm.bookObjects, lm.books, title, author.value);
    if found.None? {
      return Rejected(NoBookFound);
    }
    lm.RemoveBookAt(found.value);
    report := Done;
  }

  // ---------------------------------------------------------------- category tags

  /**
   * What `deleteCategoryFromBook` reports for the category `c` with its own books `own`: an empty
   * title does nothing, and a missing or untagged book is reported.
   */
  function BookSide(objs: seq<Book>, own: seq<BookId>, title: string): (side: Side)
    requires IdsBelow(own, |objs|)
    ensures side == Skipped <==> title == []
    ensures side.Missed? ==> side.kind == NoBookTagged
    ensures side == Applied <==>
      title != [] && HasBookTitled(objs, own, title) && objs[own[FirstTitled(objs, own, title).value]].category.Some?
  {
    if title == [] then Skipped
    else match FirstTitled(objs, own, title)
      case None => Missed(NoBookTagged)
      case Some(k) => if objs[own[k]].category.None? then Missed(NoBookTagged) else Applied
  }

  /**
   * The book objects after `deleteCategoryFromBook`: the first of the category's own books with
   * exactly that title loses its tag when the tag is still this category. At most one object
   * changes, and it has that title.
   */
  function BookUntagged(objs: seq<Book>, own: seq<BookId>, c: CategoryId, title: string): (r: seq<Book>)
    requires IdsBelow(own, |objs|)
    ensures BooksOnlyUntagged(objs, r, Some(c))
    ensures forall i, j :: 0 <= i < j < |objs| ==> r[i] == objs[i] || r[j] == objs[j]
    ensures forall k :: 0 <= k < |objs| && r[k] != objs[k] ==> k in own && objs[k].title == title
    ensures BookSide(objs, own, title) != Applied ==> r == objs
  {
    if title == [] then objs
    else match FirstTitled(objs, own, title)
      case None => objs
      case Some(k) => if objs[own[k]].category == Some(c) then SetBookCategory(objs, own[k], None) else objs
  }

  /** `deleteCategoryFromBook`: its report and the book objects it leaves. */
  method DeleteCategoryFromBook(lm: ListManager, c: CategoryId, bookTitle: string) returns (side: Side)
    requires lm.Valid() && c < |lm.categories|
    modifies lm`bookObjects
    ensures lm.Valid()
    ensures side == BookSide(old(lm.bookObjects), lm.categories[c].books, bookTitle)
    ensures lm.bookObjects == BookUntagged(old(lm.bookObjects), lm.categories[c].books, c, bookTitle)
  {
    if bookTitle == [] {
      return Skipped;
    }
    var own := lm.categories[c].books;
    assert IdsBelow(own, |lm.bookObjects|);
    var found := FirstTitled(lm.bookObjects, own, bookTitle);
    if found.None? {
      return Missed(NoBookTagged);
    }
    var id := own[found.value];
    var tag := lm.bookObjects[id].category;
    if tag.None? {
      return Missed(NoBookTagged);
    }
    if tag.value == c {
      lm.UntagBook(id);
    }
    side := Applied;
  }

  /**
   * What `deleteCategoryFromQuote` reports for the category `c` with its own quotes `own`: an
   * empty number does nothing; a number that is not one, or addresses no quote there, is
   * reported; an untagged quote there throws, and the exception is not caught.
   */
  function QuoteSide(objs: seq<Quote>, own: seq<QuoteId>, index: string): (r: Result<Side, Fault>)
    requires IdsBelow(own, |objs|)
    ensures r == Success(Skipped) <==> index == []
    ensures r.Failure? ==>
      && r.error == NullPointer && index != []
      && NumberedPosition(index, |own|).At? && objs[own[NumberedPosition(index, |own|).index]].category.None?
    ensures r == Success(Applied) <==>
      (index != [] && NumberedPosition(index, |own|).At? && objs[own[NumberedPosition(index, |own|).index]].category.Some?)
    ensures index != [] && NumberedPosition(index, |own|) == NotANumber ==> r == Success(Missed(InvalidQuoteNumber))
    ensures index != [] && NumberedPosition(index, |own|) == OutOfRange ==> r == Success(Missed(NoQuoteTagged))
  {
    if index == [] then Success(Skipped)
    else match NumberedPosition(index, |own|)
      case NotANumber => Success(Missed(InvalidQuoteNumber))
      case OutOfRange => Success(Missed(NoQuoteTagged))
      case At(k) => if objs[own[k]].category.None? then Failure(NullPointer) else Success(Applied)
  }

  /**
   * The quote objects after `deleteCategoryFromQuote`: the quote at the 1-based number in the
   * category's own list loses its tag when the tag is still this category. At most one object
   * changes, and it is one of the category's own quotes.
   */
  function QuoteUntagged(objs: seq<Quote>, own: seq<QuoteId>, c: CategoryId, index: string): (r: seq<Quote>)
    requires IdsBelow(own, |objs|)
    ensures QuotesOnlyUntagged(objs, r, Some(c))
    ensures forall i, j :: 0 <= i < j < |objs| ==> r[i] == objs[i] || r[j] == objs[j]
    ensures forall k :: 0 <= k < |objs| && r[k] != objs[k] ==> k in own
    ensures QuoteSide(objs, own, index) != Success(Applied) ==> r == objs
  {
    if index == [] then objs
    else match NumberedPosition(index, |own|)
      case At(k) => if objs[own[k]].category == Some(c) then SetQuoteCategory(objs, own[k], None) else objs
      case _ => objs
  }

  /** `deleteCategoryFromQuote`: its report, or the exception it throws, and the quote objects it leaves. */
  method DeleteCategoryFromQuote(lm: ListManager, c: CategoryId, index: string) returns (side: Result<Side, Fault>)
    requires lm.Valid() && c < |lm.categories|
    modifies lm`quoteObjects
    ensures lm.Valid()
    ensures side == QuoteSide(old(lm.quoteObjects), lm.categories[c].quotes, index)
    ensures lm.quoteObjects == QuoteUntagged(old(lm.quoteObjects), lm.categories[c].quotes, c, index)
  {
    if index == [] {
      return Success(Skipped);
    }
    var own := lm.categories[c].quotes;
    assert IdsBelow(own, |lm.quoteObjects|);
    match NumberedPosition(index, |own|)
    case NotANumber =>
      side := Success(Missed(InvalidQuoteNumber));
    case OutOfRange =>
      side := Success(Missed(NoQuoteTagged));
    case At(k) =>
      var tag := lm.quoteObjects[own[k]].category;
      if tag.None? {
        return Failure(NullPointer);
      }
      if tag.value == c {
        lm.UntagQuote(own[k]);
      }
      side := Success(Applied);
  }

  /**
   * The outcome of `executeParameters`: the category must exist; then the book side, then the
   * quote side. A missing parameter is a `null`, and calling `isEmpty` on it throws.
   */
  twostate predicate CategoryDeleted(lm: ListManager, parameters: CategoryParameters, report: Report)
    reads lm
  {
    && MembersBelow(lm.categories, |old(lm.bookObjects)|, |old(lm.quoteObjects)|)
    && if !HasCategory(lm.categories, parameters.name) then
      report == Rejected(CategoryNotFound) && lm.bookObjects == old(lm.bookObjects) && lm.quoteObjects == old(lm.quoteObjects)
    else if parameters.bookTitle.None? then
      report == Crashed(NullPointer) && lm.bookObjects == old(lm.bookObjects) && lm.quoteObjects == old(lm.quoteObjects)
    else
      var c := CategoryIndex(lm.categories, parameters.name).value;
      var own := lm.categories[c];
      var title := parameters.bookTitle.value;
      && lm.bookObjects == BookUntagged(old(lm.bookObjects), own.books, c, title)
      && match parameters.quoteNumber
        case None => report == Crashed(NullPointer) && lm.quoteObjects == old(lm.quoteObjects)
        case Some(index) =>
          && lm.quoteObjects == QuoteUntagged(old(lm.quoteObjects), own.quotes, c, index)
          && match QuoteSide(old(lm.quoteObjects), own.quotes, index)
            case Failure(f) => report == Crashed(f)
            case Success(quoteSide) => report == Linked(BookSide(old(lm.bookObjects), own.books, title), quoteSide)
  }

  /** `executeParameters`: only tags of the named category are ever cleared. */
  method ExecuteParameters(lm: ListManager, parameters: CategoryParameters) returns (report: Report)
    requires lm.Valid()
    modifies lm`bookObjects, lm`quoteObjects
    ensures lm.Valid()
    ensures BooksOnlyUntagged(old(lm.bookObjects), lm.bookObjects, None)
    ensures QuotesOnlyUntagged(old(lm.quoteObjects), lm.quoteObjects, None)
    ensures CategoryDeleted(lm, parameters, report)
  {
    var found := CategoryIndex(lm.categories, parameters.name);
    if found.None? {
      return Rejected(CategoryNotFound);
    }
    var c := found.value;
    if parameters.bookTitle.None? {
      return Crashed(NullPointer);
    }
    var bookSide := DeleteCategoryFromBook(lm, c, parameters.bookTitle.value);
    if parameters.quoteNumber.None? {
      return Crashed(NullPointer);
    }
    var quoteSide := DeleteCategoryFromQuote(lm, c, parameters.quoteNumber.value);
    if quoteSide.Failure? {
      return Crashed(quoteSide.error);
    }
    report := Linked(bookSide, quoteSide.value);
  }

  /** `deleteCategoryFromBookOrQuote`: the category parser reads the payload's words and vets them. */
  method DeleteCategoryFromBookOrQuote(lm: ListManager, information: string, parsers: Parsers) returns (report: Report)
    requires lm.Valid()
    modifies lm`bookObjects, lm`quoteObjects
    ensures lm.Valid()
    ensures BooksOnlyUntagged(old(lm.bookObjects), lm.bookObjects, None)
    ensures QuotesOnlyUntagged(old(lm.quoteObjects), lm.quoteObjects, None)
    ensures var parameters := parsers.requiredParameters(SplitAll(information, " "));
      if parsers.isValidParameters(parameters) then CategoryDeleted(lm, parameters, report)
      else report == Silent && unchanged(lm`bookObjects, lm`quoteObjects)
  {
    var parameters := parsers.requiredParameters(SplitAll(information, " "));
    if !parsers.isValidParameters(parameters) {
      return Silent;
    }
    report := ExecuteParameters(lm, parameters);
  }

  // ---------------------------------------------------------------- deleteToDo

  /** `computeToDoIndex`: the number typed, or 0 when it is not a number. */
  function ComputeToDoIndex(information: string): (index: int)
    ensures MinInt32 <= index <= MaxInt32
    ensures index == 0 || ParseInt(information) == Some(index)
    ensures ParseInt(information).None? ==> index == 0
  {
    match ParseInt(information)
    case None => 0
    case Some(n) => n
  }

  /** Every number `Integer.toString` writes is read back as that number. */
  lemma ToDoIndexRendered(n: int)
    requires MinInt32 <= n <= MaxInt32
    ensures ComputeToDoIndex(IntToString(n)) == n
  {
    ParseIntToString(n);
  }

  /** The outcome of `deleteToDo`: the to-do `find(index)` returns, if any, is removed. */
  twostate predicate ToDoDeleted(lm: ListManager, index: int, report: Report)
    reads lm
  {
    match ToDoPosition(old(lm.toDos), index)
    case Some(k) => report == Done && lm.toDos == RemoveAt(old(lm.toDos), k)
    case None => report == Rejected(ToDoNotFound) && lm.toDos == old(lm.toDos)
  }

  /** `deleteToDo`: `find`, then `delete` when something was found. */
  method DeleteToDo(lm: ListManager, index: int) returns (report: Report)
    requires lm.Valid()
    modifies lm`toDos
    ensures lm.Valid()
    ensures ToDoDeleted(lm, index, report)
  {
    match ToDoPosition(lm.toDos, index)
    case Some(k) =>
      lm.toDos := RemoveAt(lm.toDos, k);
      report := Done;
    case None =>
      report := Rejected(ToDoNotFound);
  }

  // ---------------------------------------------------------------- deleteBookmark

  /**
   * The outcome of `deleteBookmark` and `removeBookmarkFromBook`: nothing happens unless a listed
   * book has the title; then the first bookmark of that book object, if any, is removed.
   */
  twostate predicate BookmarkDeleted(lm: ListManager, titleName: string, report: Report)
    reads lm
  {
    && IdsBelow(lm.books, |lm.bookObjects|)
    && match FirstTitled(lm.bookObjects, lm.books, titleName)
      case None => report == Silent && lm.bookmarks == old(lm.bookmarks)
      case Some(b) =>
        match FirstBookmark(old(lm.bookmarks), lm.books[b])
        case None => report == Rejected(BookmarkNotFound) && lm.bookmarks == old(lm.bookmarks)
        case Some(k) => report == Done && lm.bookmarks == RemoveAt(old(lm.bookmarks), k)
  }

  /** `deleteBookmark`: `findByTitle`, then `removeBookmarkFromBook`; at most one bookmark goes. */
  method DeleteBookmark(lm: ListManager, titleName: string) returns (report: Report)
    requires lm.Valid()
    modifies lm`bookmarks
    ensures lm.Valid()
    ensures |old(lm.bookmarks)| - 1 <= |lm.bookmarks| <= |old(lm.bookmarks)|
    ensures BookmarkDeleted(lm, titleName, report)
  {
    var target := FirstTitled(lm.bookObjects, lm.books, titleName);
    if target.None? {
      return Silent;
    }
    var mark := FirstBookmark(lm.bookmarks, lm.books[target.value]);
    if mark.None? {
      return Rejected(BookmarkNotFound);
    }
    lm.RemoveBookmarkAt(mark.value);
    report := Done;
  }

  // ---------------------------------------------------------------- execute

  /**
   * The outcome of `execute` on the command the constructor built: the type tag selects the
   * handler, with that handler's outcome, and the lists outside the handler's reach stay as they
   * were. An unknown tag does nothing.
   */
  twostate predicate Deleted(lm: ListManager, command: Command, parsers: Parsers, report: Report)
    reads lm
  {
    var tag, information := command.tag, command.information;
    var others := lm.categories == old(lm.categories);
    if tag == TagCategory then
      var parameters := parsers.requiredParameters(SplitAll(information, " "));
      && (if parsers.isValidParameters(parameters) then CategoryDeleted(lm, parameters, report)
          else report == Silent && lm.bookObjects == old(lm.bookObjects) && lm.quoteObjects == old(lm.quoteObjects))
      && others && lm.books == old(lm.books) && lm.quotes == old(lm.quotes) && lm.ratings == old(lm.ratings)
      && lm.toDos == old(lm.toDos) && lm.bookmarks == old(lm.bookmarks)
    else if tag == TagBook then
      && BookDeleted(lm, information, report)
      && others && lm.bookObjects == old(lm.bookObjects) && lm.quoteObjects == old(lm.quoteObjects)
      && lm.quotes == old(lm.quotes) && lm.toDos == old(lm.toDos) && lm.bookmarks == old(lm.bookmarks)
    else if tag == TagRating then
      && RatingDeleted(lm, Trim(information), report)
      && others && lm.bookObjects == old(lm.bookObjects) && lm.books == old(lm.books)
      && lm.quoteObjects == old(lm.quoteObjects) && lm.quotes == old(lm.quotes)
      && lm.toDos == old(lm.toDos) && lm.bookmarks == old(lm.bookmarks)
    else if tag == TagToDo then
      && ToDoDeleted(lm, ComputeToDoIndex(Trim(information)), report)
      && others && lm.bookObjects == old(lm.bookObjects) && lm.books == old(lm.books)
      && lm.quoteObjects == old(lm.quoteObjects) && lm.quotes == old(lm.quotes)
      && lm.ratings == old(lm.ratings) && lm.bookmarks == old(lm.bookmarks)
    else if tag == TagBookmark then
      && BookmarkDeleted(lm, Trim(information), report)
      && others && lm.bookObjects == old(lm.bookObjects) && lm.books == old(lm.books)
      && lm.quoteObjects == old(lm.quoteObjects) && lm.quotes == old(lm.quotes)
      && lm.ratings == old(lm.ratings) && lm.toDos == old(lm.toDos)
    else if tag == TagQuote then
      && QuoteDeleted(lm, information, report)
      && others && lm.bookObjects == old(lm.bookObjects) && lm.books == old(lm.books)
      && lm.quoteObjects == old(lm.quoteObjects) && lm.ratings == old(lm.ratings)
      && lm.toDos == old(lm.toDos) && lm.bookmarks == old(lm.bookmarks)
    else
      && report == Silent && others && lm.bookObjects == old(lm.bookObjects) && lm.books == old(lm.books)
      && lm.quoteObjects == old(lm.quoteObjects) && lm.quotes == old(lm.quotes)
      && lm.ratings == old(lm.ratings) && lm.toDos == old(lm.toDos) && lm.bookmarks == old(lm.bookmarks)
  }

  /** `execute`: no handler adds a second rating for a title. */
  method Execute(lm: ListManager, command: Command, parsers: Parsers) returns (report: Report)
    requires lm.Valid()
    modifies lm`bookObjects, lm`books, lm`quoteObjects, lm`quotes, lm`ratings, lm`toDos, lm`bookmarks
    ensures lm.Valid()
    ensures UniqueRatingTitles(old(lm.ratings)) ==> UniqueRatingTitles(lm.ratings)
    ensures Deleted(lm, command, parsers, report)
  {
    var tag, information := command.tag, command.information;
    if tag == TagCategory {
      report := DeleteCategoryFromBookOrQuote(lm, information, parsers);
    } else if tag == TagBook {
      report := DeleteBook(lm, information);
    } else if tag == TagRating {
      report := DeleteRating(lm, Trim(information));
    } else if tag == TagToDo {
      report := DeleteToDo(lm, ComputeToDoIndex(Trim(information)));
    } else if tag == TagBookmark {
      report := DeleteBookmark(lm, Trim(information));
    } else if tag == TagQuote {
      report := DeleteQuote(lm, information);
    } else {
      report := Silent;
    }
  }
}
