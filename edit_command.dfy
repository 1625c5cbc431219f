/**
 * The `edit` command: a quote by number, a book's title by number, a rating's score, or a
 * category's name.
 */
module EditCommand {
  import opened Wrappers
  import opened Text
  import opened Entities
  import opened Lists

  // ---------------------------------------------------------------- editQuote

  /**
   * The outcome of `editQuote`: without the edit flag nothing is looked at. The quote parser
   * picks the number and builds the edited quote; a number outside the list throws at
   * `getQuote`, which is not caught. The new quote object takes the old one's place in the list.
   */
  twostate predicate QuoteEdited(lm: ListManager, information: string, parsers: Parsers, report: Report)
    reads lm
  {
    var same := lm.quoteObjects == old(lm.quoteObjects) && lm.quotes == old(lm.quotes);
    && IdsBelow(old(lm.quotes), |old(lm.quoteObjects)|)
    && if !Contains(information, FlagEdit) then report == Rejected(MissingEditFlag) && same
    else
      match parsers.quoteNumberToEdit(information, QuoteList(old(lm.quoteObjects), old(lm.quotes)))
      case None => report == Rejected(QuoteEditRejected) && same
      case Some(n) =>
        if !(0 <= n < |old(lm.quotes)|) then report == Crashed(IndexOutOfBounds) && same
        else
          match parsers.editedQuote(information)
          case None => report == Rejected(QuoteEditRejected) && same
          case Some((text, extra)) =>
            && report == Done
            && lm.quoteObjects == old(lm.quoteObjects) + [Quote(text, extra, None)]
            && lm.quotes == old(lm.quotes)[n := |old(lm.quoteObjects)|]
  }

  /** `editQuote`: the parser's checks in their order, then `editQuote` on the list. */
  method EditQuote(lm: ListManager, information: string, parsers: Parsers) returns (report: Report)
    requires lm.Valid()
    modifies lm`quoteObjects, lm`quotes
    ensures lm.Valid()
    ensures QuoteEdited(lm, information, parsers, report)
  {
    if !Contains(information, FlagEdit) {
      return Rejected(MissingEditFlag);
    }
    var number := parsers.quoteNumberToEdit(information, QuoteList(lm.quoteObjects, lm.quotes));
    if number.None? {
      return Rejected(QuoteEditRejected);
    }
    var n := number.value;
    if !(0 <= n < |lm.quotes|) {
      return Crashed(IndexOutOfBounds);
    }
    var edited := parsers.editedQuote(information);
    if edited.None? {
      return Rejected(QuoteEditRejected);
    }
    lm.ReplaceQuote(n, Quote(edited.value.0, edited.value.1, None));
    report := Done;
  }

  /** After an edit the quote list shows the edited quote at that number and every other quote as before. */
  lemma {:induction false} EditedQuoteList(objs: seq<Quote>, ids: seq<QuoteId>, n: nat, q: Quote)
    requires IdsBelow(ids, |objs|) && n < |ids|
    ensures IdsBelow(ids[n := |objs|], |objs + [q]|)
    ensures QuoteList(objs + [q], ids[n := |objs|]) == QuoteList(objs, ids)[n := q]
  {
    var after := ids[n := |objs|];
    assert IdsBelow(after, |objs + [q]|) by {
      forall k | 0 <= k < |after|
        ensures after[k] < |objs + [q]|
      {
        if k != n {
          assert after[k] == ids[k];
        }
      }
    }
    var shown := QuoteList(objs + [q], after);
    var before := QuoteList(objs, ids);
    forall k | 0 <= k < |ids|
      ensures shown[k] == before[n := q][k]
    {
      if k != n {
        assert after[k] == ids[k] && ids[k] < |objs|;
        assert (objs + [q])[ids[k]] == objs[ids[k]];
      }
    }
  }

  // ---------------------------------------------------------------- editBook

  /** The book number and the new title `editBook` reads around the first edit flag, each trimmed. */
  function BookEditParts(information: string): (r: (string, string))
    ensures IsTrimmed(r.0) && IsTrimmed(r.1)
    ensures !Contains(information, FlagEdit) ==> r == (Trim(information), "")
  {
    var bookDetails := SplitOnce(information, FlagEdit);
    if |bookDetails| == 1 then (Trim(bookDetails[0]), "") else (Trim(bookDetails[0]), Trim(bookDetails[1]))
  }

  /** The payload `n /edit title` is read back as that number and that title. */
  lemma BookEditRendered(n: int, title: string)
    requires MinInt32 <= n <= MaxInt32 && IsTrimmed(title)
    ensures BookEditParts(IntToString(n) + " " + FlagEdit + " " + title) == (IntToString(n), title)
    ensures ParseInt(BookEditParts(IntToString(n) + " " + FlagEdit + " " + title).0) == Some(n)
  {
    var digits := IntToString(n);
    assert '/' !in digits + " " by {
      assert forall k :: 0 <= k < |digits| ==> digits[k] != '/';
    }
    var info := digits + " " + FlagEdit + " " + title;
    assert info == (digits + " ") + FlagEdit + (" " + title);
    SplitOnceRendered(digits + " ", FlagEdit, " " + title);
    assert IsTrimSpace(' ');
    assert IsTrimmed(digits) by {
      if n < 0 {
        assert digits[|digits| - 1] == Decimal(-n)[|Decimal(-n)| - 1];
      }
    }
    TrimSpaced(digits);
    TrimSpaced(title);
    ParseIntToString(n);
  }

  /**
   * The rating list after `editBook` renames a book: the first rating of the old title is
   * removed, and, when its score is not zero, a rating with that score and the new title goes to
   * the end.
   */
  function Retitled(ratings: seq<Rating>, oldTitle: string, newTitle: string): (r: seq<Rating>)
    ensures !HasRating(ratings, oldTitle) ==> r == ratings
    ensures HasRating(ratings, oldTitle) && ratings[FirstRating(ratings, oldTitle).value].score != 0 ==>
      && |r| == |ratings|
      && r[|r| - 1] == Rating(ratings[FirstRating(ratings, oldTitle).value].score, newTitle)
      && r[..|r| - 1] == WithoutFirstRating(ratings, oldTitle)
  {
    match FirstRating(ratings, oldTitle)
    case None => ratings
    case Some(j) =>
      var rest := WithoutFirstRating(ratings, oldTitle);
      if ratings[j].score != 0 then rest + [Rating(ratings[j].score, newTitle)] else rest
  }

  /** Renaming a book to a title no other rating has keeps at most one rating per title. */
  lemma RetitleKeepsUnique(ratings: seq<Rating>, oldTitle: string, newTitle: string)
    requires UniqueRatingTitles(ratings)
    requires newTitle == oldTitle || !HasRating(ratings, newTitle)
    ensures UniqueRatingTitles(Retitled(ratings, oldTitle, newTitle))
  {
    if HasRating(ratings, oldTitle) {
      var j := FirstRating(ratings, oldTitle).value;
      var rest := WithoutFirstRating(ratings, oldTitle);
      if ratings[j].score != 0 {
        if newTitle != oldTitle {
          forall k | 0 <= k < |rest|
            ensures rest[k].title != newTitle
          {
            assert rest[k] in ratings;
          }
        }
        AppendNewTitleKeepsUnique(rest, Rating(ratings[j].score, newTitle));
      }
    }
  }

  /** Renaming a book to a title that has its own rating leaves two ratings for that title. */
  lemma RetitleCanDuplicate()
    ensures var ratings := [Rating(3, "A"), Rating(4, "B")];
      && UniqueRatingTitles(ratings)
      && Retitled(ratings, "A", "B") == [Rating(4, "B"), Rating(3, "B")]
      && !UniqueRatingTitles(Retitled(ratings, "A", "B"))
  {
    var ratings := [Rating(3, "A"), Rating(4, "B")];
    assert FirstRating(ratings, "A") == Some(0);
    assert RemoveAt(ratings, 0) == [Rating(4, "B")];
    var r := Retitled(ratings, "A", "B");
    assert r[0].title == r[1].title;
  }

  /**
   * The outcome of `editBook`: the number is parsed first (before the new title is checked), then
   * the new title must be non-empty, then the number must address a listed book. The book's
   * rating moves to the new title and the book object takes the new title.
   */
  twostate predicate BookEdited(lm: ListManager, information: string, report: Report)
    reads lm
  {
    var (number, newTitle) := BookEditParts(information);
    var position := NumberedPosition(number, |lm.books|);
    var same := lm.bookObjects == old(lm.bookObjects) && lm.ratings == old(lm.ratings);
    && IdsBelow(lm.books, |old(lm.bookObjects)|)
    && if position == NotANumber then report == Rejected(InvalidBookNumber) && same
    else if newTitle == [] then report == Rejected(BookTitleMissing) && same
    else if position == OutOfRange then report == Rejected(InvalidBookNumber) && same
    else
      var id := lm.books[position.index];
      && report == Done
      && lm.bookObjects == old(lm.bookObjects)[id := old(lm.bookObjects)[id].(title := newTitle)]
      && lm.ratings == Retitled(old(lm.ratings), old(lm.bookObjects)[id].title, newTitle)
  }

  /** `editBook`: the rating search loop, then `setTitle` on the book object. */
  method EditBook(lm: ListManager, information: string) returns (report: Report)
    requires lm.Valid()
    modifies lm`bookObjects, lm`ratings
    ensures lm.Valid()
    ensures BookEdited(lm, information, report)
  {
    var parts := BookEditParts(information);
    var number, newTitle := parts.0, parts.1;
    var position := NumberedPosition(number, |lm.books|);
    if position == NotANumber {
      return Rejected(InvalidBookNumber);
    }
    if newTitle == [] {
      return Rejected(BookTitleMissing);
    }
    if position == OutOfRange {
      return Rejected(InvalidBookNumber);
    }
    var id := lm.books[position.index];
    var oldTitle := lm.bookObjects[id].title;
    var rated := FindFirstRating(lm.ratings, oldTitle);
    if rated.Some? {
      var currentRatingOfBook := lm.ratings[rated.value].score;
      lm.ratings := RemoveAt(lm.ratings, rated.value);
      if currentRatingOfBook != 0 {
        lm.ratings := lm.ratings + [Rating(currentRatingOfBook, newTitle)];
      }
    }
    lm.RetitleBook(id, newTitle);
    report := Done;
  }

  // ---------------------------------------------------------------- editRating

  /** The score text before the first space and the trimmed title after it; no space, no title. */
  function ScoreAndTitle(information: string): (r: Option<(string, string)>)
    ensures r.None? <==> !Contains(information, " ")
    ensures r.Some? ==> !Contains(r.value.0, " ") && IsTrimmed(r.value.1)
  {
    var ratingDetails := SplitOnce(information, " ");
    if |ratingDetails| == 1 then None else Some((ratingDetails[0], Trim(ratingDetails[1])))
  }

  /** The payload `score title` is read back as that score text and that title. */
  lemma ScoreAndTitleRendered(score: string, title: string)
    requires ' ' !in score && IsTrimmed(title)
    ensures ScoreAndTitle(score + " " + title) == Some((score, title))
  {
    SplitOnceRendered(score, " ", title);
    assert Trim(title) == title;
  }

  /** `isRated`: whether some rating has exactly this title. */
  method IsRated(ratings: seq<Rating>, titleToUpdate: string) returns (rated: bool)
    ensures rated <==> HasRating(ratings, titleToUpdate)
  {
    rated := false;
    var i := 0;
    while i < |ratings|
      invariant 0 <= i <= |ratings|
      invariant forall j :: 0 <= j < i ==> ratings[j].title != titleToUpdate
    {
      if ratings[i].title == titleToUpdate {
        rated := true;
        break;
      }
      i := i + 1;
    }
  }

  /**
   * The outcome of `editRating`: the rating parser turns the score text into a score, 0 meaning
   * invalid; the title must be rated; then the last rating of the title takes the new score.
   */
  twostate predicate RatingEdited(lm: ListManager, information: string, parsers: Parsers, report: Report)
    reads lm
  {
    match ScoreAndTitle(information)
    case None => report == Rejected(MissingTitleOrScore) && lm.ratings == old(lm.ratings)
    case Some((scoreText, title)) =>
      var score := parsers.ratingScore(scoreText);
      if score == 0 then
        report == Rejected(ScoreRejected) && lm.ratings == old(lm.ratings)
      else if !HasRating(old(lm.ratings), title) then
        report == Rejected(RatingNotFound) && lm.ratings == old(lm.ratings)
      else
        && report == Done
        && lm.ratings == old(lm.ratings)[LastRating(old(lm.ratings), title).value := Rating(score, title)]
  }

  /** `editRating`: the two search loops, then the score of the last rating of the title is set. */
  method EditRating(lm: ListManager, information: string, parsers: Parsers) returns (report: Report)
    requires lm.Valid()
    modifies lm`ratings
    ensures lm.Valid()
    ensures |lm.ratings| == |old(lm.ratings)|
    ensures forall k :: 0 <= k < |lm.ratings| ==> lm.ratings[k].title == old(lm.ratings)[k].title
    ensures UniqueRatingTitles(old(lm.ratings)) ==> UniqueRatingTitles(lm.ratings)
    ensures RatingEdited(lm, information, parsers, report)
  {
    var details := ScoreAndTitle(information);
    if details.None? {
      return Rejected(MissingTitleOrScore);
    }
    var scoreText, titleToUpdate := details.value.0, details.value.1;
    var ratingScore := parsers.ratingScore(scoreText);
    if ratingScore == 0 {
      return Rejected(ScoreRejected);
    }
    var rated := IsRated(lm.ratings, titleToUpdate);
    if !rated {
      return Rejected(RatingNotFound);
    }
    var last := FindLastRating(lm.ratings, titleToUpdate);
    lm.ratings := lm.ratings[last.value := lm.ratings[last.value].(score := ratingScore)];
    report := Done;
  }

  // ---------------------------------------------------------------- editCategory

  /** The category list after category `c` is renamed. */
  function Renamed(cats: seq<Category>, c: CategoryId, name: string): (r: seq<Category>)
    requires c < |cats|
    ensures |r| == |cats| && r[c].books == cats[c].books && r[c].quotes == cats[c].quotes
    ensures forall k :: 0 <= k < |cats| && k != c ==> r[k] == cats[k]
  {
    cats[c := cats[c].(name := name)]
  }

  /**
   * Renaming a category to a name no category has keeps the names unique: the category is then
   * found under its new name, and no longer under its old one.
   */
  lemma RenameKeepsUnique(cats: seq<Category>, c: CategoryId, name: string)
    requires c < |cats| && UniqueCategoryNames(cats) && !HasCategory(cats, name)
    ensures UniqueCategoryNames(Renamed(cats, c, name))
    ensures CategoryIndex(Renamed(cats, c, name), name) == Some(c)
    ensures !HasCategory(Renamed(cats, c, name), cats[c].name)
  {
    var r := Renamed(cats, c, name);
    forall i, j | 0 <= i < j < |r|
      ensures r[i].name != r[j].name
    {
      if i == c {
        assert r[j] == cats[j];
      } else if j == c {
        assert r[i] == cats[i];
      } else {
        assert r[i] == cats[i] && r[j] == cats[j];
      }
    }
    assert r[c].name == name;
    forall k | 0 <= k < |r|
      ensures r[k].name != cats[c].name
    {
      if k != c {
        assert r[k] == cats[k];
      }
    }
  }

  /**
   * The outcome of `editCategory`: the category parser reads the old and the new name; the old
   * one must exist and the new one must not; then the category is renamed in place.
   */
  twostate predicate CategoryEdited(lm: ListManager, information: string, parsers: Parsers, report: Report)
    reads lm
  {
    match parsers.editParameters(information)
    case None => report == Rejected(CategoryEditRejected) && lm.categories == old(lm.categories)
    case Some((oldName, newName)) =>
      if !HasCategory(old(lm.categories), oldName) then
        report == Rejected(CategoryNotFound) && lm.categories == old(lm.categories)
      else if HasCategory(old(lm.categories), newName) then
        report == Rejected(CategoryExists) && lm.categories == old(lm.categories)
      else
        && report == Done
        && lm.categories == Renamed(old(lm.categories), CategoryIndex(old(lm.categories), oldName).value, newName)
  }

  /** `editCategory`: `getCategory`, `isExistingCategory`, then `setCategoryName`. */
  method EditCategory(lm: ListManager, information: string, parsers: Parsers) returns (report: Report)
    requires lm.Valid()
    modifies lm`categories
    ensures lm.Valid()
    ensures |lm.categories| == |old(lm.categories)|
    ensures UniqueCategoryNames(old(lm.categories)) ==> UniqueCategoryNames(lm.categories)
    ensures CategoryEdited(lm, information, parsers, report)
  {
    var names := parsers.editParameters(information);
    if names.None? {
      return Rejected(CategoryEditRejected);
    }
    var oldCategory, newCategory := names.value.0, names.value.1;
    var found := CategoryIndex(lm.categories, oldCategory);
    if found.None? {
      return Rejected(CategoryNotFound);
    }
    if HasCategory(lm.categories, newCategory) {
      return Rejected(CategoryExists);
    }
    if UniqueCategoryNames(lm.categories) {
      RenameKeepsUnique(lm.categories, found.value, newCategory);
    }
    lm.RenameCategory(found.value, newCategory);
    report := Done;
  }

  // ---------------------------------------------------------------- execute

  /**
   * The outcome of `execute` on the command the constructor built: the type tag selects the
   * handler, with that handler's outcome, and the lists outside the handler's reach stay as they
   * were. An unknown tag prints the list of edit commands and changes nothing.
   */
  twostate predicate Edited(lm: ListManager, command: Command, parsers: Parsers, report: Report)
    reads lm
  {
    var tag, information := command.tag, command.information;
    var others := lm.books == old(lm.books) && lm.toDos == old(lm.toDos) && lm.bookmarks == old(lm.bookmarks);
    if tag == TagRating then
      && RatingEdited(lm, information, parsers, report)
      && others && lm.bookObjects == old(lm.bookObjects) && lm.quoteObjects == old(lm.quoteObjects)
      && lm.quotes == old(lm.quotes) && lm.categories == old(lm.categories)
    else if tag == TagBook then
      && BookEdited(lm, information, report)
      && others && lm.quoteObjects == old(lm.quoteObjects) && lm.quotes == old(lm.quotes)
      && lm.categories == old(lm.categories)
    else if tag == TagCategory then
      && CategoryEdited(lm, information, parsers, report)
      && others && lm.bookObjects == old(lm.bookObjects) && lm.quoteObjects == old(lm.quoteObjects)
      && lm.quotes == old(lm.quotes) && lm.ratings == old(lm.ratings)
    else if tag == TagQuote then
      && QuoteEdited(lm, information, parsers, report)
      && others && lm.bookObjects == old(lm.bookObjects) && lm.categories == old(lm.categories)
      && lm.ratings == old(lm.ratings)
    else
      && report == Usage && others && lm.bookObjects == old(lm.bookObjects)
      && lm.quoteObjects == old(lm.quoteObjects) && lm.quotes == old(lm.quotes)
      && lm.categories == old(lm.categories) && lm.ratings == old(lm.ratings)
  }

  /** `execute`: category names stay unique whichever handler runs. */
  method Execute(lm: ListManager, command: Command, parsers: Parsers) returns (report: Report)
    requires lm.Valid()
    modifies lm`bookObjects, lm`quoteObjects, lm`quotes, lm`categories, lm`ratings
    ensures lm.Valid()
    ensures UniqueCategoryNames(old(lm.categories)) ==> UniqueCategoryNames(lm.categories)
    ensures Edited(lm, command, parsers, report)
  {
    var tag, information := command.tag, command.information;
    if tag == TagRating {
      report := EditRating(lm, information, parsers);
    } else if tag == TagBook {
      report := EditBook(lm, information);
    } else if tag == TagCategory {
      report := EditCategory(lm, information, parsers);
    } else if tag == TagQuote {
      report := EditQuote(lm, information, parsers);
    } else {
      report := Usage;
    }
  }
}
