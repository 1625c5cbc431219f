/**
 * The entity records of the book/quote tracker, the outcome a command reports, and the parsers
 * the command handlers call but whose grammar lives outside the modelled files.
 *
 * Java objects that other objects point to (a Book inside a Category's list, a Book that a
 * Bookmark marks) are identified by an id: the position of the object in the store's arena of
 * every object created so far. A Category is identified by its position in the category list.
 */
module Entities {
  import opened Wrappers
  import opened Text

  type BookId = nat
  type QuoteId = nat
  type CategoryId = nat

  /** A Book: title, author name, and the Category it is tagged with (`null` is `None`). */
  datatype Book = Book(title: string, author: string, category: Option<CategoryId>)

  /**
   * What a Quote was built with besides its text: nothing (`new Quote(text)`), the one extra
   * argument of the two-string constructor (`new Quote(text, s)`, used both for a reference and
   * for an author), or a reference and an author (`new Quote(text, reference, author)`).
   */
  datatype QuoteExtra = NoExtra | SecondArgument(value: string) | ReferenceAndAuthor(reference: string, author: string)

  datatype Quote = Quote(text: string, extra: QuoteExtra, category: Option<CategoryId>)

  /** A Category: its name and its own lists of the books and quotes added to it. */
  datatype Category = Category(name: string, books: seq<BookId>, quotes: seq<QuoteId>)

  /** A Rating: the score and the title of the rated book. */
  datatype Rating = Rating(score: int, title: string)

  datatype ToDo = ToDo(description: string)

  datatype Bookmark = Bookmark(book: BookId, page: int)

  // ---------------------------------------------------------------- constants of Command

  const TagBook: string := "book"
  const TagQuote: string := "quote"
  const TagCategory: string := "category"
  const TagRating: string := "rating"
  const TagToDo: string := "todo"
  const TagBookmark: string := "bookmark"

  const FlagAuthor: string := "/by"
  const FlagReference: string := "/from"
  const FlagEdit: string := "/edit"

  const RatingOne: int := 1
  const RatingFive: int := 5

  // ---------------------------------------------------------------- outcomes

  /** The exceptions a handler lets escape; the interpreter loop does not catch them either. */
  datatype Fault = ArrayIndexOutOfBounds | IndexOutOfBounds | NullPointer

  /** The error messages a handler prints, one kind per message constant or literal. */
  datatype ErrorKind =
    | InvalidQuoteNumber     // ERROR_INVALID_QUOTE_NUM
    | ScoreNotUnderstood     // "Sorry I don't understand you"
    | ScoreOutOfRange        // "That score is out of our range my friend"
    | AlreadyRated           // "This book has already been rated"
    | BookToRateNotFound     // "I can't find this book to rate!"
    | RatingNotFound         // ERROR_RATING_NOT_FOUND
    | NoBookFound            // ERROR_NO_BOOK_FOUND
    | CategoryNotFound       // the exception of getCategoryByName
    | NoBookTagged           // ERROR_NO_BOOK_FOUND ... tagged as [c]
    | NoQuoteTagged          // ERROR_NO_QUOTE_FOUND ... tagged as [c]
    | ToDoNotFound           // ERROR_TODO_NOT_FOUND
    | BookmarkNotFound       // ERROR_BOOKMARK_NOT_FOUND
    | MissingEditFlag        // ERROR_MISSING_EDIT_FLAG
    | QuoteEditRejected      // an exception of QuoteParser
    | BookTitleMissing       // ERROR_BOOK_TITLE_MISSING
    | InvalidBookNumber      // ERROR_INVALID_BOOK_NUM
    | MissingTitleOrScore    // ERROR_RATING_MISSING_BOOK_TITLE_OR_RATING_SCORE
    | ScoreRejected          // RatingParser found no valid score (it returns 0)
    | CategoryEditRejected   // an exception of CategoryParser.getEditParameters
    | CategoryExists         // "Category [..] already exists!"

  /** What one side (book or quote) of a category command did. */
  datatype Side =
    | Skipped                // nothing asked or nothing found, and nothing printed
    | Applied                // the success message for this side was printed
    | Missed(kind: ErrorKind)

  datatype Report =
    | Done                   // the command's success message
    | Rejected(kind: ErrorKind)
    | Crashed(fault: Fault)
    | Linked(book: Side, quote: Side)
    | Silent                 // no message of the handler's own, e.g. an unknown type tag
    | Usage                  // the list of commands of this kind was printed

  // ---------------------------------------------------------------- commands and parsers

  /** A command's type tag and payload, as its constructor splits the arguments. */
  datatype Command = Command(tag: string, information: string)

  /**
   * The constructors of DeleteCommand and EditCommand: the tag is the text before the first space
   * and the payload the rest, or the empty string when there is no space.
   */
  function CommandOf(arguments: string): (c: Command)
    ensures Contains(arguments, " ") ==> c.tag + " " + c.information == arguments && !Contains(c.tag, " ")
    ensures !Contains(arguments, " ") ==> c.tag == arguments && c.information == ""
  {
    var details := SplitOnce(arguments, " ");
    if |details| == 1 then Command(details[0], "") else Command(details[0], details[1])
  }

  /** The three parameters CategoryParser.getRequiredParameters returns; a Java `null` is `None`. */
  datatype CategoryParameters = CategoryParameters(name: string, bookTitle: Option<string>, quoteNumber: Option<string>)

  /**
   * The parser helpers the handlers call whose code is not part of this model. An exception they
   * throw is `None`.
   */
  datatype Parsers = Parsers(
    requiredParameters: seq<string> -> CategoryParameters,          // CategoryParser.getRequiredParameters
    isValidParameters: CategoryParameters -> bool,                    // CategoryParser.isValidParameters
    editParameters: string -> Option<(string, string)>,               // CategoryParser.getEditParameters
    quoteNumberToEdit: (string, seq<Quote>) -> Option<int>,           // QuoteParser.getQuoteNumberToEdit
    editedQuote: string -> Option<(string, QuoteExtra)>,              // QuoteParser.getEditedQuote
    ratingScore: string -> int                                        // RatingParser.checkValidityOfRatingScore
  )
}
