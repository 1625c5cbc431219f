/**
 * The `add` command: a book, a quote, a category link for a book and/or a quote, or a rating.
 */
module AddCommand {
  import opened Wrappers
  import opened Text
  import opened Entities
  import opened Lists

  /**
   * The constructor: the type tag before the first space and the payload after it. Without a space
   * there is no second part, and reading it throws.
   */
  function Parse(arguments: string): (r: Result<Command, Fault>)
    ensures r.Failure? <==> !Contains(arguments, " ")
    ensures r.Failure? ==> r.error == ArrayIndexOutOfBounds
    ensures r.Success? ==> r.value.tag + " " + r.value.information == arguments && !Contains(r.value.tag, " ")
  {
    var details := SplitOnce(arguments, " ");
    if |details| < 2 then Failure(ArrayIndexOutOfBounds) else Success(Command(details[0], details[1]))
  }

  // ---------------------------------------------------------------- addBook

  /** The book `addBook` builds: title and author around the first `/by`, each trimmed. */
  function BookFromInformation(info: string): (r: Result<Book, Fault>)
    ensures r.Failure? <==> !Contains(info, FlagAuthor)
    ensures r.Failure? ==> r.error == ArrayIndexOutOfBounds
    ensures r.Success? ==> IsTrimmed(r.value.title) && IsTrimmed(r.value.author) && r.value.category == None
  {
    var titleAndAuthor := SplitOnce(info, FlagAuthor);
    if |titleAndAuthor| < 2 then Failure(ArrayIndexOutOfBounds)
    else Success(Book(Trim(titleAndAuthor[0]), Trim(titleAndAuthor[1]), None))
  }

  /** The title is the trimmed text before the first `/by` and the author the trimmed text after it. */
  lemma BookFromInformationParts(info: string)
    requires Contains(info, FlagAuthor)
    ensures BookFromInformation(info) == Success(Book(Trim(Before(info, FlagAuthor)), Trim(After(info, FlagAuthor)), None))
  {
    SplitOnceParts(info, FlagAuthor);
  }

  /** Rendering a book as `title /by author` and adding it gives back that title and author. */
  lemma BookFromRendered(title: string, author: string)
    requires IsTrimmed(title) && IsTrimmed(author) && '/' !in title
    ensures BookFromInformation(title + " " + FlagAuthor + " " + author) == Success(Book(title, author, None))
  {
    var info := title + " " + FlagAuthor + " " + author;
    assert info == (title + " ") + FlagAuthor + (" " + author);
    SplitOnceRendered(title + " ", FlagAuthor, " " + author);
    TrimSpaced(title);
    TrimSpaced(author);
  }

  /**
   * The outcome of `addBook`: an unreadable payload throws and changes nothing; otherwise the book
   * read from it is a new object at the end of the book list.
   */
  twostate predicate BookAdded(lm: ListManager, info: string, report: Report)
    reads lm
  {
    if BookFromInformation(info).Failure? then
      report == Crashed(ArrayIndexOutOfBounds) && lm.bookObjects == old(lm.bookObjects) && lm.books == old(lm.books)
    else
      && report == Done
      && lm.bookObjects == old(lm.bookObjects) + [BookFromInformation(info).value]
      && lm.books == old(lm.books) + [|old(lm.bookObjects)|]
  }

  /** `addBook`: the book read from the payload goes to the end of the book list. */
  method AddBook(lm: ListManager, info: string) returns (report: Report)
    requires lm.Valid()
    modifies lm`bookObjects, lm`books
    ensures lm.Valid()
    ensures BookAdded(lm, info, report)
  {
    match BookFromInformation(info)
    case Failure(f) =>
      report := Crashed(f);
    case Success(book) =>
      lm.AppendBook(book);
      report := Done;
  }

  // ---------------------------------------------------------------- addQuote

  /** Both markers are present and the text after the first `/from` has no `/by`. */
  predicate AuthorOnlyBeforeReference(info: string) {
    Contains(info, FlagReference) && Contains(info, FlagAuthor) && !Contains(After(info, FlagReference), FlagAuthor)
  }

  /**
   * The quote `addQuote` builds. With both markers, the text is cut at the first `/from` and the
   * rest at the first `/by`; with one marker, at that marker; with none, the whole trimmed text.
   */
  function QuoteFromInformation(info: string): (r: Result<Quote, Fault>)
    ensures r.Failure? <==> AuthorOnlyBeforeReference(info)
    ensures r.Failure? ==> r.error == ArrayIndexOutOfBounds
    ensures r.Success? ==> r.value.category == None && IsTrimmed(r.value.text)
    ensures r.Success? ==>
      (r.value.extra.ReferenceAndAuthor? <==> Contains(info, FlagReference) && Contains(info, FlagAuthor))
    ensures r.Success? ==> (r.value.extra.NoExtra? <==> !Contains(info, FlagReference) && !Contains(info, FlagAuthor))
    ensures !Contains(info, FlagReference) && !Contains(info, FlagAuthor) ==> r == Success(Quote(Trim(info), NoExtra, None))
  {
    if Contains(info, FlagReference) && Contains(info, FlagAuthor) then
      var quoteAndInformation := SplitOnce(info, FlagReference);
      var referenceAndAuthor := SplitOnce(quoteAndInformation[1], FlagAuthor);
      if |referenceAndAuthor| < 2 then Failure(ArrayIndexOutOfBounds)
      else
        var extra := ReferenceAndAuthor(Trim(referenceAndAuthor[0]), Trim(referenceAndAuthor[1]));
        Success(Quote(Trim(quoteAndInformation[0]), extra, None))
    else if Contains(info, FlagReference) then
      var quoteAndReference := SplitOnce(info, FlagReference);
      Success(Quote(Trim(quoteAndReference[0]), SecondArgument(Trim(quoteAndReference[1])), None))
    else if Contains(info, FlagAuthor) then
      var quoteAndAuthor := SplitOnce(info, FlagAuthor);
      Success(Quote(Trim(quoteAndAuthor[0]), SecondArgument(Trim(quoteAndAuthor[1])), None))
    else
      Success(Quote(Trim(info), NoExtra, None))
  }

  /**
   * Where the parts of the quote come from: the text is cut at the first `/from` when there is one,
   * else at the first `/by`; the reference and the author are cut at the first `/by` after `/from`.
   */
  lemma QuoteFromInformationParts(info: string)
    ensures Contains(info, FlagReference) && QuoteFromInformation(info).Success? ==>
      QuoteFromInformation(info).value.text == Trim(Before(info, FlagReference))
    ensures Contains(info, FlagReference) && !Contains(info, FlagAuthor) ==>
      QuoteFromInformation(info) == Success(Quote(Trim(Before(info, FlagReference)), SecondArgument(Trim(After(info, FlagReference))), None))
    ensures Contains(info, FlagReference) && QuoteFromInformation(info).Success? && Contains(info, FlagAuthor) ==>
      var rest := After(info, FlagReference);
      Contains(rest, FlagAuthor) && QuoteFromInformation(info).value.extra
        == ReferenceAndAuthor(Trim(Before(rest, FlagAuthor)), Trim(After(rest, FlagAuthor)))
    ensures !Contains(info, FlagReference) && Contains(info, FlagAuthor) ==>
      QuoteFromInformation(info) == Success(Quote(Trim(Before(info, FlagAuthor)), SecondArgument(Trim(After(info, FlagAuthor))), None))
  {
    if Contains(info, FlagReference) {
      SplitOnceParts(info, FlagReference);
      var rest := After(info, FlagReference);
      if Contains(rest, FlagAuthor) {
        SplitOnceParts(rest, FlagAuthor);
      }
    } else if Contains(info, FlagAuthor) {
      SplitOnceParts(info, FlagAuthor);
    }
  }

  /** In `a + marker + b`, where only the marker holds a `/`, the marker's first character is the only `/`. */
  lemma OnlySlash(a: string, marker: string, b: string)
    requires '/' !in a && '/' !in b && marker != [] && '/' !in marker[1..]
    ensures forall j :: 0 <= j < |a + marker + b| && j != |a| ==> (a + marker + b)[j] != '/'
  {
    var s := a + marker + b;
    forall j | 0 <= j < |s| && j != |a|
      ensures s[j] != '/'
    {
      if j < |a| {
        assert s[j] == a[j] && a[j] in a;
      } else if j < |a| + |marker| {
        assert s[j] == marker[1..][j - |a| - 1];
      } else {
        assert s[j] == b[j - |a| - |marker|];
      }
    }
  }

  /** In `a + marker + b`, where the marker holds the only `/`, a marker with another second letter is absent. */
  lemma OtherMarkerAbsent(a: string, marker: string, b: string, other: string)
    requires '/' !in a && '/' !in b
    requires |marker| >= 2 && marker[0] == '/' && '/' !in marker[1..]
    requires |other| >= 2 && other[0] == '/' && other[1] != marker[1]
    ensures !Contains(a + marker + b, other)
  {
    var s := a + marker + b;
    OnlySlash(a, marker, b);
    assert s[|a| + 1] == marker[1];
    NotFollowed(s, other);
  }

  /** With both markers present, the quote is built from the two cuts. */
  lemma QuoteFromCuts(info: string, quote: string, rest: string, reference: string, author: string)
    requires SplitOnce(info, FlagReference) == [quote, rest] && Contains(info, FlagAuthor)
    requires SplitOnce(rest, FlagAuthor) == [reference, author]
    ensures QuoteFromInformation(info) == Success(Quote(Trim(quote), ReferenceAndAuthor(Trim(reference), Trim(author)), None))
  {
  }

  /** Where `text /from reference /by author` is cut. */
  lemma FullCuts(text: string, reference: string, author: string)
    requires '/' !in text && '/' !in reference
    ensures var rest := " " + reference + " " + FlagAuthor + " " + author;
      var info := text + " " + FlagReference + rest;
      && SplitOnce(info, FlagReference) == [text + " ", rest]
      && Contains(info, FlagAuthor)
      && SplitOnce(rest, FlagAuthor) == [" " + reference + " ", " " + author]
  {
    var rest := " " + reference + " " + FlagAuthor + " " + author;
    var info := text + " " + FlagReference + rest;
    assert info == (text + " ") + FlagReference + rest;
    SplitOnceRendered(text + " ", FlagReference, rest);
    assert info == (text + " " + FlagReference + " " + reference + " ") + FlagAuthor + (" " + author);
    ContainsMiddle(text + " " + FlagReference + " " + reference + " ", FlagAuthor, " " + author);
    assert rest == (" " + reference + " ") + FlagAuthor + (" " + author);
    SplitOnceRendered(" " + reference + " ", FlagAuthor, " " + author);
  }

  /** `text /from reference /by author` gives back all three parts. */
  lemma QuoteFromRenderedFull(text: string, reference: string, author: string)
    requires IsTrimmed(text) && IsTrimmed(reference) && IsTrimmed(author)
    requires '/' !in text && '/' !in reference
    ensures QuoteFromInformation(text + " " + FlagReference + " " + reference + " " + FlagAuthor + " " + author)
      == Success(Quote(text, ReferenceAndAuthor(reference, author), None))
  {
    var rest := " " + reference + " " + FlagAuthor + " " + author;
    var info := text + " " + FlagReference + rest;
    assert info == text + " " + FlagReference + " " + reference + " " + FlagAuthor + " " + author;
    FullCuts(text, reference, author);
    QuoteFromCuts(info, text + " ", rest, " " + reference + " ", " " + author);
    TrimSpaced(text);
    TrimSpaced(reference);
    TrimSpaced(author);
  }

  /** `text /from reference` keeps the reference as the second argument. */
  lemma QuoteFromRenderedReference(text: string, reference: string)
    requires IsTrimmed(text) && IsTrimmed(reference) && '/' !in text && '/' !in reference
    ensures QuoteFromInformation(text + " " + FlagReference + " " + reference)
      == Success(Quote(text, SecondArgument(reference), None))
  {
    var info := text + " " + FlagReference + " " + reference;
    assert info == (text + " ") + FlagReference + (" " + reference);
    SplitOnceRendered(text + " ", FlagReference, " " + reference);
    OtherMarkerAbsent(text + " ", FlagReference, " " + reference, FlagAuthor);
    TrimSpaced(text);
    TrimSpaced(reference);
  }

  /** With only the `/by` marker, the quote is built from the one cut. */
  lemma QuoteFromAuthorCut(info: string, quote: string, author: string)
    requires !Contains(info, FlagReference) && SplitOnce(info, FlagAuthor) == [quote, author]
    ensures QuoteFromInformation(info) == Success(Quote(Trim(quote), SecondArgument(Trim(author)), None))
  {
  }

  /** `text /by author` keeps the author as the second argument. */
  lemma QuoteFromRenderedAuthor(text: string, author: string)
    requires IsTrimmed(text) && IsTrimmed(author) && '/' !in text && '/' !in author
    ensures QuoteFromInformation(text + " " + FlagAuthor + " " + author)
      == Success(Quote(text, SecondArgument(author), None))
  {
    var info := text + " " + FlagAuthor + " " + author;
    assert info == (text + " ") + FlagAuthor + (" " + author);
    SplitOnceRendered(text + " ", FlagAuthor, " " + author);
    OtherMarkerAbsent(text + " ", FlagAuthor, " " + author, FlagReference);
    QuoteFromAuthorCut(info, text + " ", " " + author);
    TrimSpaced(text);
    TrimSpaced(author);
  }

  /**
   * `text /by x` stores `x` exactly where `text /from x` stores it: the author is kept as if it
   * were a reference, and the two payloads build the same quote.
   */
  lemma AuthorStoredAsReference(text: string, x: string)
    requires IsTrimmed(text) && IsTrimmed(x) && '/' !in text && '/' !in x
    ensures QuoteFromInformation(text + " " + FlagAuthor + " " + x)
      == QuoteFromInformation(text + " " + FlagReference + " " + x)
  {
    QuoteFromRenderedAuthor(text, x);
    QuoteFromRenderedReference(text, x);
  }

  /** `text /by author /from reference` throws: the text after `/from` holds no `/by`. */
  lemma AuthorBeforeReferenceThrows(text: string, author: string, reference: string)
    requires '/' !in text && '/' !in author && '/' !in reference
    ensures QuoteFromInformation(text + " " + FlagAuthor + " " + author + " " + FlagReference + " " + reference)
      == Failure(ArrayIndexOutOfBounds)
  {
    var front := text + " " + FlagAuthor + " " + author + " ";
    var info := front + FlagReference + (" " + reference);
    assert info == text + " " + FlagAuthor + " " + author + " " + FlagReference + " " + reference;
    ReferenceAfterAuthor(text, author, reference);
    assert After(info, FlagReference) == " " + reference;
    MarkerAbsent(" " + reference, FlagAuthor);
  }

  /** In `text /by author /from reference`, both markers occur and the first `/from` follows `/by`. */
  lemma ReferenceAfterAuthor(text: string, author: string, reference: string)
    requires '/' !in text && '/' !in author && '/' !in reference
    ensures var front := text + " " + FlagAuthor + " " + author + " ";
      var info := front + FlagReference + (" " + reference);
      Contains(info, FlagAuthor) && IndexOf(info, FlagReference) == Some(|front|)
  {
    var front := text + " " + FlagAuthor + " " + author + " ";
    var info := front + FlagReference + (" " + reference);
    assert front == (text + " ") + FlagAuthor + (" " + author + " ");
    ContainsMiddle(text + " ", FlagAuthor, " " + author + " " + FlagReference + " " + reference);
    assert (text + " ") + FlagAuthor + (" " + author + " " + FlagReference + " " + reference) == info;
    OnlySlash(text + " ", FlagAuthor, " " + author + " ");
    assert front[|text| + 2] == 'b';
    FirstReferenceAt(front, " " + reference);
  }

  /** `/from` is first found right after a prefix whose every `/` is followed by something else. */
  lemma FirstReferenceAt(front: string, rest: string)
    requires forall j :: 0 <= j < |front| && front[j] == '/' ==> j + 1 < |front| && front[j + 1] != 'f'
    ensures IndexOf(front + FlagReference + rest, FlagReference) == Some(|front|)
  {
    var info := front + FlagReference + rest;
    assert info[|front|..|front| + |FlagReference|] == FlagReference;
    assert forall j :: 0 <= j < |front| ==> info[j] == front[j];
    FirstFollowed(info, FlagReference, |front|);
  }

  /**
   * The outcome of `addQuote`: an unreadable payload throws and changes nothing; otherwise the
   * quote read from it is a new object at the end of the quote list.
   */
  twostate predicate QuoteAdded(lm: ListManager, info: string, report: Report)
    reads lm
  {
    if QuoteFromInformation(info).Failure? then
      report == Crashed(ArrayIndexOutOfBounds) && lm.quoteObjects == old(lm.quoteObjects) && lm.quotes == old(lm.quotes)
    else
      && report == Done
      && lm.quoteObjects == old(lm.quoteObjects) + [QuoteFromInformation(info).value]
      && lm.quotes == old(lm.quotes) + [|old(lm.quoteObjects)|]
  }

  /** `addQuote`: the quote read from the payload goes to the end of the quote list. */
  method AddQuote(lm: ListManager, info: string) returns (report: Report)
    requires lm.Valid()
    modifies lm`quoteObjects, lm`quotes
    ensures lm.Valid()
    ensures QuoteAdded(lm, info, report)
  {
    match QuoteFromInformation(info)
    case Failure(f) =>
      report := Crashed(f);
    case Success(quote) =>
      lm.AppendQuote(quote);
      report := Done;
  }

  // ---------------------------------------------------------------- category links

  /** The category list after `addCategoryToList`: a new, empty category only when the name is new. */
  function WithCategory(cats: seq<Category>, name: string): (r: seq<Category>)
    ensures HasCategory(r, name)
    ensures |r| == if HasCategory(cats, name) then |cats| else |cats| + 1
    ensures r[..|cats|] == cats
    ensures |r| > |cats| ==> r[|cats|] == Category(name, [], [])
    ensures UniqueCategoryNames(cats) ==> UniqueCategoryNames(r)
  {
    if HasCategory(cats, name) then cats
    else
      var r := cats + [Category(name, [], [])];
      assert r[|cats|].name == name;
      if UniqueCategoryNames(cats) then AppendNewNameKeepsUnique(cats, Category(name, [], [])); r else r
  }

  /** `addCategoryToList`: get-or-create the category of that name. */
  method AddCategoryToList(lm: ListManager, name: string)
    requires lm.Valid()
    modifies lm`categories
    ensures lm.Valid()
    ensures lm.categories == WithCategory(old(lm.categories), name)
  {
    if CategoryIndex(lm.categories, name).None? {
      lm.AppendCategory(name);
    }
  }

  /** The book `addCategoryToBook` links: the first listed book with exactly that title, if a title is given. */
  function BookToLink(objs: seq<Book>, ids: seq<BookId>, title: Option<string>): (r: Option<BookId>)
    requires IdsBelow(ids, |objs|)
    ensures r.Some? <==> title.Some? && HasBookTitled(objs, ids, title.value)
    ensures r.Some? ==> r.value < |objs| && objs[r.value].title == title.value
    ensures r.Some? ==> exists k :: (0 <= k < |ids| && ids[k] == r.value
      && forall j :: 0 <= j < k ==> objs[ids[j]].title != title.value)
  {
    if title.None? then None
    else match FirstTitled(objs, ids, title.value)
      case None => None
      case Some(k) => Some(ids[k])
  }

  /**
   * `addCategoryToBook`: the search loop over the book list tags the first book with exactly that
   * title and adds it to the category's own books; a missing title links nothing.
   */
  method AddCategoryToBook(lm: ListManager, c: CategoryId, bookTitle: Option<string>) returns (linked: bool)
    requires lm.Valid() && c < |lm.categories|
    modifies lm`bookObjects, lm`categories
    ensures lm.Valid()
    ensures linked <==> BookToLink(old(lm.bookObjects), lm.books, bookTitle).Some?
    ensures !linked ==> lm.bookObjects == old(lm.bookObjects) && lm.categories == old(lm.categories)
    ensures BookToLink(old(lm.bookObjects), lm.books, bookTitle).Some? ==>
      var id := BookToLink(old(lm.bookObjects), lm.books, bookTitle).value;
      lm.bookObjects == SetBookCategory(old(lm.bookObjects), id, Some(c))
      && lm.categories == AddBookRef(old(lm.categories), c, id)
  {
    linked := false;
    if bookTitle.None? {
      return;
    }
    var title := bookTitle.value;
    var books := lm.books;
    var i := 0;
    while i < |books|
      invariant 0 <= i <= |books|
      invariant forall j :: 0 <= j < i ==> lm.bookObjects[books[j]].title != title
      invariant lm.bookObjects == old(lm.bookObjects) && lm.categories == old(lm.categories)
    {
      var id := books[i];
      if lm.bookObjects[id].title == title {
        assert FirstTitled(lm.bookObjects, books, title) == Some(i);
        lm.LinkBook(id, c);
        linked := true;
        return;
      }
      i := i + 1;
    }
  }

  /**
   * `addCategoryToQuote`: the number is a 0-based index into the quote list, and -1 means no
   * quote; an index outside the list is reported and links nothing.
   */
  method AddCategoryToQuote(lm: ListManager, c: CategoryId, quoteNum: int) returns (side: Side)
    requires lm.Valid() && c < |lm.categories|
    modifies lm`quoteObjects, lm`categories
    ensures lm.Valid()
    ensures side == if quoteNum == -1 then Skipped
      else if 0 <= quoteNum < |lm.quotes| then Applied
      else Missed(InvalidQuoteNumber)
    ensures !(0 <= quoteNum < |lm.quotes|) ==>
      lm.quoteObjects == old(lm.quoteObjects) && lm.categories == old(lm.categories)
    ensures 0 <= quoteNum < |lm.quotes| ==>
      lm.quoteObjects == SetQuoteCategory(old(lm.quoteObjects), lm.quotes[quoteNum], Some(c))
      && lm.categories == AddQuoteRef(old(lm.categories), c, lm.quotes[quoteNum])
  {
    if quoteNum == -1 {
      return Skipped;
    }
    if !(0 <= quoteNum < |lm.quotes|) {
      return Missed(InvalidQuoteNumber);
    }
    lm.LinkQuote(lm.quotes[quoteNum], c);
    side := Applied;
  }

  /** `Integer.parseInt(parameters[2])`: a missing token throws like malformed text. */
  function QuoteNumber(token: Option<string>): (r: Option<int>)
    ensures token.None? ==> r.None?
    ensures r.Some? ==> MinInt32 <= r.value <= MaxInt32
    ensures token.Some? ==> (r.Some? <==> ParseInt(token.value).Some?)
    ensures token == Some("-1") ==> r == Some(-1)
  {
    if token.None? then None else ParseMinusOne(); ParseInt(token.value)
  }

  /**
   * The outcome of `executeParameters`: an unreadable quote number is reported before anything
   * changes; otherwise the category is fetched or created, the first book with the title is
   * tagged and added to it, and the quote at the 0-based number is tagged and added to it.
   */
  twostate predicate CategoryAdded(lm: ListManager, parameters: CategoryParameters, report: Report)
    reads lm
  {
    && IdsBelow(lm.books, |old(lm.bookObjects)|)
    && if QuoteNumber(parameters.quoteNumber).None? then
      && report == Rejected(InvalidQuoteNumber)
      && lm.bookObjects == old(lm.bookObjects) && lm.quoteObjects == old(lm.quoteObjects)
      && lm.categories == old(lm.categories)
    else
      var n := QuoteNumber(parameters.quoteNumber).value;
      var created := WithCategory(old(lm.categories), parameters.name);
      var c := CategoryIndex(created, parameters.name).value;
      var book := BookToLink(old(lm.bookObjects), lm.books, parameters.bookTitle);
      var withBook := if book.Some? then AddBookRef(created, c, book.value) else created;
      var linksQuote := 0 <= n < |lm.quotes|;
      && (linksQuote ==> lm.quotes[n] < |old(lm.quoteObjects)|)
      && report == Linked(if book.Some? then Applied else Skipped,
                          if n == -1 then Skipped else if linksQuote then Applied else Missed(InvalidQuoteNumber))
      && lm.bookObjects == (if book.Some? then SetBookCategory(old(lm.bookObjects), book.value, Some(c)) else old(lm.bookObjects))
      && lm.quoteObjects == (if linksQuote then SetQuoteCategory(old(lm.quoteObjects), lm.quotes[n], Some(c)) else old(lm.quoteObjects))
      && lm.categories == (if linksQuote then AddQuoteRef(withBook, c, lm.quotes[n]) else withBook)
  }

  /**
   * `executeParameters`: the quote number is parsed first; then the category is fetched or
   * created, the book side is linked, and then the quote side.
   */
  method ExecuteParameters(lm: ListManager, parameters: CategoryParameters) returns (report: Report)
    requires lm.Valid()
    modifies lm`bookObjects, lm`quoteObjects, lm`categories
    ensures lm.Valid()
    ensures UniqueCategoryNames(old(lm.categories)) ==> UniqueCategoryNames(lm.categories)
    ensures CategoryAdded(lm, parameters, report)
  {
    var quoteNum := QuoteNumber(parameters.quoteNumber);
    if quoteNum.None? {
      return Rejected(InvalidQuoteNumber);
    }
    AddCategoryToList(lm, parameters.name);
    ghost var created := lm.categories;
    var c := CategoryIndex(lm.categories, parameters.name).value;
    var linked := AddCategoryToBook(lm, c, parameters.bookTitle);
    ghost var withBook := lm.categories;
    var side := AddCategoryToQuote(lm, c, quoteNum.value);
    report := Linked(if linked then Applied else Skipped, side);
    if UniqueCategoryNames(old(lm.categories)) {
      SameNamesKeepUnique(withBook, created);
      SameNamesKeepUnique(lm.categories, withBook);
    }
  }

  /** `addCategoryToBookOrQuote`: the payload's words go to the category parser, whose parameters are then executed. */
  method AddCategoryToBookOrQuote(lm: ListManager, info: string, parsers: Parsers) returns (report: Report)
    requires lm.Valid()
    modifies lm`bookObjects, lm`quoteObjects, lm`categories
    ensures lm.Valid()
    ensures UniqueCategoryNames(old(lm.categories)) ==> UniqueCategoryNames(lm.categories)
    ensures CategoryAdded(lm, parsers.requiredParameters(SplitAll(info, " ")), report)
  {
    var parameters := parsers.requiredParameters(SplitAll(info, " "));
    report := ExecuteParameters(lm, parameters);
  }

  // ---------------------------------------------------------------- addRating

  /** What `addRating` reads from its payload. */
  datatype RatingRequest = ScoreUnreadable | TitleMissing | RatingOf(score: int, title: string)

  /** The score is the text before the first space and the title the trimmed rest. */
  function ReadRating(info: string): (r: RatingRequest)
    ensures r.RatingOf? ==> MinInt32 <= r.score <= MaxInt32 && IsTrimmed(r.title)
  {
    var details := SplitOnce(info, " ");
    var score := ParseInt(details[0]);
    if score.None? then ScoreUnreadable
    else if |details| == 1 then TitleMissing
    else RatingOf(score.value, Trim(details[1]))
  }

  /** Which part of the payload `ReadRating` takes for what. */
  lemma ReadRatingParts(info: string)
    ensures ReadRating(info) == ScoreUnreadable <==> ParseInt(SplitOnce(info, " ")[0]).None?
    ensures ReadRating(info) == TitleMissing ==> !Contains(info, " ")
    ensures ReadRating(info).RatingOf? ==>
      Contains(info, " ") && ParseInt(Before(info, " ")) == Some(ReadRating(info).score)
      && ReadRating(info).title == Trim(After(info, " "))
  {
  }

  /** A payload `score title` is read back as that score and title. */
  lemma ReadRenderedRating(score: int, title: string)
    requires MinInt32 <= score <= MaxInt32 && IsTrimmed(title)
    ensures ReadRating(IntToString(score) + " " + title) == RatingOf(score, title)
  {
    var digits := IntToString(score);
    assert ' ' !in digits by {
      assert forall k :: 0 <= k < |digits| ==> digits[k] != ' ';
    }
    SplitOnceRendered(digits, " ", title);
    ParseIntToString(score);
  }

  /**
   * The outcome of `addRating`. It is rejected, in this order, when the score is not a number,
   * the title is missing (which throws), the score is outside 1..5, the title is already rated,
   * or no listed book has that title; otherwise the rating goes to the end of the rating list.
   */
  twostate predicate RatingAdded(lm: ListManager, info: string, report: Report)
    reads lm
  {
    && IdsBelow(lm.books, |lm.bookObjects|)
    && match ReadRating(info)
      case ScoreUnreadable => report == Rejected(ScoreNotUnderstood) && lm.ratings == old(lm.ratings)
      case TitleMissing => report == Crashed(ArrayIndexOutOfBounds) && lm.ratings == old(lm.ratings)
      case RatingOf(score, title) =>
        if !(RatingOne <= score <= RatingFive) then
          report == Rejected(ScoreOutOfRange) && lm.ratings == old(lm.ratings)
        else if HasRating(old(lm.ratings), title) then
          report == Rejected(AlreadyRated) && lm.ratings == old(lm.ratings)
        else if !HasBookTitled(lm.bookObjects, lm.books, title) then
          report == Rejected(BookToRateNotFound) && lm.ratings == old(lm.ratings)
        else
          report == Done && lm.ratings == old(lm.ratings) + [Rating(score, title)]
  }

  /** `addRating`: the two search loops decide whether the rating is new and its book listed. */
  method AddRating(lm: ListManager, info: string) returns (report: Report)
    requires lm.Valid()
    modifies lm`ratings
    ensures lm.Valid()
    ensures UniqueRatingTitles(old(lm.ratings)) ==> UniqueRatingTitles(lm.ratings)
    ensures RatingAdded(lm, info, report)
  {
    var request := ReadRating(info);
    if request == ScoreUnreadable {
      return Rejected(ScoreNotUnderstood);
    }
    if request == TitleMissing {
      return Crashed(ArrayIndexOutOfBounds);
    }
    var score, title := request.score, request.title;
    if !(RatingOne <= score <= RatingFive) {
      return Rejected(ScoreOutOfRange);
    }

    var ratings := lm.ratings;
    var isRated := false;
    var i := 0;
    while i < |ratings|
      invariant 0 <= i <= |ratings|
      invariant forall j :: 0 <= j < i ==> ratings[j].title != title
    {
      if ratings[i].title == title {
        isRated := true;
        break;
      }
      i := i + 1;
    }
    if isRated {
      return Rejected(AlreadyRated);
    }

    var books := lm.books;
    var doesExist := false;
    i := 0;
    while i < |books|
      invariant 0 <= i <= |books|
      invariant forall j :: 0 <= j < i ==> lm.bookObjects[books[j]].title != title
    {
      if lm.bookObjects[books[i]].title == title {
        doesExist := true;
        break;
      }
      i := i + 1;
    }
    if !doesExist {
      return Rejected(BookToRateNotFound);
    }
    if UniqueRatingTitles(ratings) {
      AppendNewTitleKeepsUnique(ratings, Rating(score, title));
    }
    lm.ratings := ratings + [Rating(score, title)];
    report := Done;
  }

  // ---------------------------------------------------------------- execute

  /**
   * `execute`: each type tag runs its handler, with that handler's outcome, and touches only the
   * handler's lists; an unknown tag does nothing.
   */
  method Dispatch(lm: ListManager, command: Command, parsers: Parsers) returns (report: Report)
    requires lm.Valid()
    modifies lm`bookObjects, lm`books, lm`quoteObjects, lm`quotes, lm`categories, lm`ratings
    ensures lm.Valid()
    ensures UniqueRatingTitles(old(lm.ratings)) ==> UniqueRatingTitles(lm.ratings)
    ensures UniqueCategoryNames(old(lm.categories)) ==> UniqueCategoryNames(lm.categories)
    ensures command.tag !in {TagBook, TagQuote, TagCategory, TagRating} ==> report == Silent && unchanged(lm)
    ensures command.tag == TagBook ==>
      BookAdded(lm, command.information, report) && unchanged(lm`quoteObjects, lm`quotes, lm`categories, lm`ratings)
    ensures command.tag == TagQuote ==>
      QuoteAdded(lm, command.information, report) && unchanged(lm`bookObjects, lm`books, lm`categories, lm`ratings)
    ensures command.tag == TagCategory ==>
      && CategoryAdded(lm, parsers.requiredParameters(SplitAll(command.information, " ")), report)
      && unchanged(lm`books, lm`quotes, lm`ratings)
    ensures command.tag == TagRating ==>
      RatingAdded(lm, command.information, report) && unchanged(lm`bookObjects, lm`books, lm`quoteObjects, lm`quotes, lm`categories)
  {
    var tag, info := command.tag, command.information;
    if tag == TagBook {
      report := AddBook(lm, info);
    } else if tag == TagQuote {
      report := AddQuote(lm, info);
    } else if tag == TagCategory {
      report := AddCategoryToBookOrQuote(lm, info, parsers);
    } else if tag == TagRating {
      report := AddRating(lm, info);
    } else {
      report := Silent;
    }
  }

  /** The constructor followed by `execute`; a payload-less command throws in the constructor. */
  method Execute(lm: ListManager, arguments: string, parsers: Parsers) returns (report: Report)
    requires lm.Valid()
    modifies lm`bookObjects, lm`books, lm`quoteObjects, lm`quotes, lm`categories, lm`ratings
    ensures lm.Valid()
    ensures UniqueRatingTitles(old(lm.ratings)) ==> UniqueRatingTitles(lm.ratings)
    ensures UniqueCategoryNames(old(lm.categories)) ==> UniqueCategoryNames(lm.categories)
    ensures Parse(arguments).Failure? ==> report == Crashed(ArrayIndexOutOfBounds) && unchanged(lm)
    ensures Parse(arguments).Success? ==>
      var tag := Parse(arguments).value.tag;
      var info := Parse(arguments).value.information;
      && (tag !in {TagBook, TagQuote, TagCategory, TagRating} ==> report == Silent && unchanged(lm))
      && (tag == TagBook ==>
           BookAdded(lm, info, report) && unchanged(lm`quoteObjects, lm`quotes, lm`categories, lm`ratings))
      && (tag == TagQuote ==>
           QuoteAdded(lm, info, report) && unchanged(lm`bookObjects, lm`books, lm`categories, lm`ratings))
      && (tag == TagCategory ==>
           CategoryAdded(lm, parsers.requiredParameters(SplitAll(info, " ")), report) && unchanged(lm`books, lm`quotes, lm`ratings))
      && (tag == TagRating ==>
           RatingAdded(lm, info, report) && unchanged(lm`bookObjects, lm`books, lm`quoteObjects, lm`quotes, lm`categories))
  {
    var command := Parse(arguments);
    if command.Failure? {
      return Crashed(command.error);
    }
    report := Dispatch(lm, command.value, parsers);
  }
}
