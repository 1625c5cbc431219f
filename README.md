# Quotesify command store: add, delete and edit

Quotesify is a command interpreter that tracks books, quotes, categories, ratings, to-dos and
bookmarks. This project models the part that changes those collections:

- the store `ListManager` and its six lists;
- the `add`, `delete` and `edit` commands, from the constructor's split of the arguments into a
  type tag and a payload, through each handler's parsing of the payload, to the updates and the
  message (or uncaught exception) each handler ends with.

Every handler is a method on `Lists.ListManager`, a class whose fields are the lists. Each method
names in `modifies` exactly the lists it may change. Its `ensures` give the report and the new
contents of those lists as functions of the old state and the payload. Those functions carry their
own contracts and lemmas.

Java objects are shared. The same `Book` object sits in the book list, in a category's own book
list and behind a bookmark, so an update through one is seen through the others. The model keeps
that sharing with an arena:

- `bookObjects` and `quoteObjects` hold every object created so far, and an id is a position there;
- `books` and `quotes` are the lists the user sees, as sequences of ids;
- a category is identified by its position in `categories`;
- ratings, to-dos and bookmarks are plain values.

`ListManager.Valid` says that every id, tag and bookmark points into its arena. Every handler keeps it.

Each handler returns an `Entities.Report`:

- `Done` for its success message;
- `Rejected(kind)` for one of its error messages;
- `Linked(book, quote)` for the two sides of a category command;
- `Silent` or `Usage` when it prints nothing of its own or the command list;
- `Crashed(fault)` for an exception that nothing catches (the interpreter loop in
  `Quotesify.java` has no handler, so the program stops there).

The modules are:

- `Wrappers`: `Option` and `Result`.
- `Text`: the parts of `String` and `Integer` the handlers rely on. These are `trim`, `contains`,
  `split` with a literal separator (with and without limit 2), `parseInt`, `toString` and 32-bit
  subtraction.
- `Entities`: the records, the constants, the outcomes, and the parsers whose code is not part of
  this model.
- `Lists`: the lists, their lookups, and the `ListManager` class.
- `AddCommand`, `DeleteCommand` and `EditCommand`: the three handlers.

Some consequences of the code that a reader might not expect:

- Linking a book to a category appends it to the category's own list even when it is already
  there (`AddCommand.java:123-127`). A category's list is not a set.
- `delete book` removes the first rating with the book's title before it looks for the book, so the
  rating goes even when no such book is found (`DeleteCommand.java:103-119`). The book list is the
  only list the book leaves (`DeleteCommand.java:115`).
- Removing a category from a book or quote only clears that object's tag
  (`DeleteCommand.java:156-158`, `DeleteCommand.java:176-178`). The object stays in the
  category's own list, so the delete does not undo the add.
- Renaming a book to a title that already has a rating leaves two ratings for one title
  (`EditCommand.java:98-107`; `EditCommand.RetitleCanDuplicate`).
- Some malformed commands throw an exception that is never caught, so they are fatal:
  - a command word without a payload (`AddCommand.java:25`);
  - `add book` without `/by` (`AddCommand.java:55`);
  - `add quote` with `/by` before `/from` (`AddCommand.java:65-66`);
  - `delete book /by` (`DeleteCommand.java:100-101`);
  - `delete category` with a missing title or quote number (`DeleteCommand.java:149`, `DeleteCommand.java:167`), or naming an untagged quote (`DeleteCommand.java:176`);
  - `edit quote` with an out-of-range number (`EditCommand.java:67`).

## Model

| member | source | states |
|---|---|---|
| AddCommand.Parse | src/main/java/seedu/duke/commands/AddCommand.java:22-26 | arguments without a space throw; otherwise the tag holds no space and tag, space and payload give back the arguments |
| AddCommand.BookFromInformation | src/main/java/seedu/duke/commands/AddCommand.java:53-56 | fails exactly when the payload has no `/by`; otherwise an untagged book with trimmed title and author |
| AddCommand.BookFromInformationParts | src/main/java/seedu/duke/commands/AddCommand.java:54-56 | the title is the trimmed text before the first `/by`, the author the trimmed text after it |
| AddCommand.BookFromRendered | src/main/java/seedu/duke/commands/AddCommand.java:53-56 | `title /by author` is read back as exactly that title and author |
| AddCommand.AddBook | src/main/java/seedu/duke/commands/AddCommand.java:53-60 | `BookAdded`: a readable payload appends one new book object, the one `BookFromInformation` reads, and its id to the book list; an unreadable one throws and changes nothing |
| AddCommand.QuoteFromInformation | src/main/java/seedu/duke/commands/AddCommand.java:62-78 | throws exactly when both markers occur and no `/by` follows the first `/from`; which constructor is used follows which markers occur; no marker gives the trimmed payload |
| AddCommand.QuoteFromInformationParts | src/main/java/seedu/duke/commands/AddCommand.java:63-73 | the text, reference and author are the trimmed pieces around the first `/from` and the first `/by` after it, or around the single marker |
| AddCommand.QuoteFromRenderedFull | src/main/java/seedu/duke/commands/AddCommand.java:63-67 | `text /from reference /by author` is read back as those three parts |
| AddCommand.QuoteFromRenderedReference | src/main/java/seedu/duke/commands/AddCommand.java:68-70 | `text /from reference` is read back as text and reference |
| AddCommand.QuoteFromRenderedAuthor | src/main/java/seedu/duke/commands/AddCommand.java:71-73 | `text /by author` is read back as text and author |
| AddCommand.AuthorStoredAsReference | src/main/java/seedu/duke/commands/AddCommand.java:68-73 | `text /by x` and `text /from x` build the same quote |
| AddCommand.AuthorBeforeReferenceThrows | src/main/java/seedu/duke/commands/AddCommand.java:63-66 | `text /by author /from reference` throws |
| AddCommand.AddQuote | src/main/java/seedu/duke/commands/AddCommand.java:62-78 | `QuoteAdded`: a readable payload appends one new quote object, the one `QuoteFromInformation` reads, and its id to the quote list; otherwise it throws and changes nothing |
| AddCommand.WithCategory | src/main/java/seedu/duke/commands/AddCommand.java:110-114 | the name is then present; a new empty category is appended only when it was absent; unique names stay unique |
| AddCommand.AddCategoryToList | src/main/java/seedu/duke/commands/AddCommand.java:110-114 | the category list becomes `WithCategory` of the old one |
| AddCommand.BookToLink | src/main/java/seedu/duke/commands/AddCommand.java:116-131 | a book is found exactly when a title is given and some listed book has it; it is the first such book |
| AddCommand.AddCategoryToBook | src/main/java/seedu/duke/commands/AddCommand.java:116-131 | the search loop links exactly the book `BookToLink` picks: its tag is set and its id is appended to the category's books; otherwise nothing changes |
| AddCommand.AddCategoryToQuote | src/main/java/seedu/duke/commands/AddCommand.java:133-149 | -1 skips; a 0-based index in range tags that quote and appends it to the category; any other index is reported and changes nothing |
| AddCommand.ExecuteParameters | src/main/java/seedu/duke/commands/AddCommand.java:86-108 | `CategoryAdded`: an unreadable quote number is reported before anything changes; otherwise get-or-create, then the book side, then the quote side, with each side's report and the exact new lists; unique names stay unique |
| AddCommand.AddCategoryToBookOrQuote | src/main/java/seedu/duke/commands/AddCommand.java:80-84 | the outcome is exactly `CategoryAdded` for the parser's parameters of the payload's space-separated words |
| AddCommand.ReadRating | src/main/java/seedu/duke/commands/AddCommand.java:152-160 | a read rating has a 32-bit score and a trimmed title |
| AddCommand.ReadRatingParts | src/main/java/seedu/duke/commands/AddCommand.java:152-160 | the score is parsed from the text before the first space and the title is the trimmed rest; no space means no title |
| AddCommand.ReadRenderedRating | src/main/java/seedu/duke/commands/AddCommand.java:152-160 | `score title` is read back as that score and title |
| AddCommand.AddRating | src/main/java/seedu/duke/commands/AddCommand.java:151-195 | `RatingAdded`: rejections in source order (not a number, no title, outside 1..5, already rated, no such book), each changing nothing; otherwise one rating appended; at most one rating per title is kept |
| AddCommand.Dispatch | src/main/java/seedu/duke/commands/AddCommand.java:28-51 | each tag has exactly its handler's outcome (`BookAdded`, `QuoteAdded`, `CategoryAdded`, `RatingAdded`) and changes no other list; an unknown tag changes nothing; unique rating titles and category names stay unique |
| AddCommand.Execute | src/main/java/seedu/duke/commands/AddCommand.java:22-51 | a payload-less command throws before anything changes; otherwise the tag and payload the constructor splits off have the outcome `Dispatch` states |
| AddCommand.QuoteNumber | src/main/java/seedu/duke/commands/AddCommand.java:90 | no token gives no number; a token gives a 32-bit number exactly when `parseInt` reads it; the token `-1` gives -1 |
| Entities.CommandOf | src/main/java/seedu/duke/commands/DeleteCommand.java:26-35 | tag before the first space and payload after it, or the whole text and an empty payload when there is no space |
| Lists.FirstRating | src/main/java/seedu/duke/commands/DeleteCommand.java:85-90 | the first position holding that title, or none exactly when no rating has it |
| Lists.LastRating | src/main/java/seedu/quotesify/commands/EditCommand.java:136-141 | the last position holding that title, or none exactly when no rating has it |
| Lists.UniqueFirstIsLast | src/main/java/seedu/quotesify/commands/EditCommand.java:136-141 | with at most one rating per title, the first and the last rating of a title coincide |
| Lists.RemoveAt | src/main/java/seedu/duke/commands/DeleteCommand.java:95 | one element fewer; the ones before stay and the ones after move down by one |
| Lists.WithoutFirstRating | src/main/java/seedu/duke/commands/DeleteCommand.java:83-97 | one rating fewer exactly when the title was rated; no rating is invented; with unique titles the title is then gone |
| Lists.FindFirstRating | src/main/java/seedu/duke/commands/DeleteCommand.java:85-90 | the loop with `break` finds `FirstRating` |
| Lists.FindLastRating | src/main/java/seedu/quotesify/commands/EditCommand.java:136-141 | the loop without `break` finds `LastRating` |
| Lists.AppendNewTitleKeepsUnique | src/main/java/seedu/duke/commands/AddCommand.java:166-188 | appending a rating for an unrated title keeps at most one rating per title |
| Lists.FirstTitled | src/main/java/seedu/duke/commands/DeleteCommand.java:209 | the first listed book with exactly that title, or none when no listed book has it |
| Lists.FindBooks | src/main/java/seedu/duke/commands/DeleteCommand.java:114 | only listed books with that title and author, and every one of them; no more entries than the list; empty exactly when there is none (which one comes first is `FirstFoundIsFirstMatch`) |
| Lists.SetBookCategory | src/main/java/seedu/duke/commands/AddCommand.java:125 | only that book object changes, and only its tag: title and author stay |
| Lists.SetQuoteCategory | src/main/java/seedu/duke/commands/AddCommand.java:142 | only that quote object changes, and only its tag: text and the rest stay |
| Lists.PositionOf | src/main/java/seedu/duke/commands/DeleteCommand.java:95 | the first position of a present element |
| Lists.FirstFoundIsFirstMatch | src/main/java/seedu/duke/commands/DeleteCommand.java:114-115 | removing the first found book removes the first listed book by that title and author |
| Lists.FirstBookBy | src/main/java/seedu/duke/commands/DeleteCommand.java:113-115 | none exactly when no listed book matches; otherwise the position of the first match |
| Lists.CategoryIndex | src/main/java/seedu/duke/commands/DeleteCommand.java:135 | the first category with exactly that name, or none exactly when there is none |
| Lists.AppendNewNameKeepsUnique | src/main/java/seedu/duke/commands/AddCommand.java:111-112 | appending a category with a new name keeps the names unique |
| Lists.SameNamesKeepUnique | src/main/java/seedu/duke/commands/AddCommand.java:126 | changing a category's members keeps the names unique |
| Lists.FirstBookmark | src/main/java/seedu/duke/commands/DeleteCommand.java:216 | the first bookmark of that book object, or none when the book has none |
| Lists.ToDoPosition | src/main/java/seedu/duke/commands/DeleteCommand.java:188-190 | a to-do is found exactly for a 1-based number within the list |
| Lists.NumberedPosition | src/main/java/seedu/duke/commands/DeleteCommand.java:74-75 | not a number exactly when `parseInt` fails; a found index is in range; on lists of 32-bit size a number addresses an element exactly when it is in 1..size, at index number - 1 |
| Lists.NumberedRendered | src/main/java/seedu/duke/commands/DeleteCommand.java:74-75 | the number written for position k + 1 addresses position k |
| Lists.AddBookRef | src/main/java/seedu/duke/commands/AddCommand.java:126 | adding a book to a category renames no category |
| Lists.AddQuoteRef | src/main/java/seedu/duke/commands/AddCommand.java:143 | adding a quote to a category renames no category |
| Lists.QuoteList | src/main/java/seedu/quotesify/commands/EditCommand.java:66 | the quote objects of the list, in list order |
| Lists.ListManager.constructor | src/main/java/seedu/quotesify/Quotesify.java:31 | every list starts empty |
| Lists.ListManager.AppendBook | src/main/java/seedu/duke/commands/AddCommand.java:57 | the new book object and its id are appended |
| Lists.ListManager.AppendQuote | src/main/java/seedu/duke/commands/AddCommand.java:67-75 | the new quote object and its id are appended |
| Lists.ListManager.AppendCategory | src/main/java/seedu/duke/commands/AddCommand.java:112 | a new empty category is appended |
| Lists.ListManager.LinkBook | src/main/java/seedu/duke/commands/AddCommand.java:125-126 | the book's tag is set and its id appended to the category's books |
| Lists.ListManager.LinkQuote | src/main/java/seedu/duke/commands/AddCommand.java:142-143 | the quote's tag is set and its id appended to the category's quotes |
| Lists.ListManager.UntagBook | src/main/java/seedu/duke/commands/DeleteCommand.java:157 | only that book object's tag is cleared |
| Lists.ListManager.UntagQuote | src/main/java/seedu/duke/commands/DeleteCommand.java:177 | only that quote object's tag is cleared |
| Lists.ListManager.RemoveBookAt | src/main/java/seedu/duke/commands/DeleteCommand.java:115 | the book at that position leaves the book list |
| Lists.ListManager.RemoveQuoteAt | src/main/java/seedu/duke/commands/DeleteCommand.java:76 | the quote at that position leaves the quote list |
| Lists.ListManager.RemoveBookmarkAt | src/main/java/seedu/duke/commands/DeleteCommand.java:219 | the bookmark at that position is removed |
| Lists.ListManager.ReplaceQuote | src/main/java/seedu/quotesify/commands/EditCommand.java:69 | a new quote object takes the place of the quote at that position |
| Lists.ListManager.RetitleBook | src/main/java/seedu/quotesify/commands/EditCommand.java:109 | only that book object's title changes |
| Lists.ListManager.RenameCategory | src/main/java/seedu/quotesify/commands/EditCommand.java:175 | only that category's name changes |
| DeleteCommand.DeleteQuote | src/main/java/seedu/duke/commands/DeleteCommand.java:72-81 | `QuoteDeleted`: a number addressing a quote removes exactly that quote from the list; anything else is reported and changes nothing |
| DeleteCommand.DeleteLastAdded | src/main/java/seedu/duke/commands/DeleteCommand.java:74-76 | the number of the quote just appended deletes it and restores the list |
| DeleteCommand.DeleteRating | src/main/java/seedu/duke/commands/DeleteCommand.java:83-97 | `RatingDeleted`: the first rating of the title is removed; the report says whether there was one |
| DeleteCommand.DeleteUndoesRate | src/main/java/seedu/duke/commands/DeleteCommand.java:83-97 | deleting the rating of a title that was just rated for the first time restores the rating list |
| DeleteCommand.BookToDelete | src/main/java/seedu/duke/commands/DeleteCommand.java:100-101 | without `/by` the whole trimmed payload is the title and there is no author; only a payload with `/by` can throw; parts are trimmed |
| DeleteCommand.DeleteTargetRendered | src/main/java/seedu/duke/commands/DeleteCommand.java:100-114 | the payload that adds a book names that title and author for deletion |
| DeleteCommand.MissingAuthorRead | src/main/java/seedu/duke/commands/DeleteCommand.java:100-114 | `title /by` with nothing after gives the title and no author |
| DeleteCommand.FlagAloneThrows | src/main/java/seedu/duke/commands/DeleteCommand.java:100-101 | the payload `/by` alone throws |
| DeleteCommand.DeleteBook | src/main/java/seedu/duke/commands/DeleteCommand.java:99-120 | `BookDeleted`: the first rating of the title is removed whether or not the book exists; then the first listed book with that title and author leaves the list, or none is found |
| DeleteCommand.BookSide | src/main/java/seedu/duke/commands/DeleteCommand.java:147-163 | skipped exactly for an empty title; applied exactly when the category's first book of that title is tagged; a miss means no book of the category with that title is tagged |
| DeleteCommand.BookUntagged | src/main/java/seedu/duke/commands/DeleteCommand.java:155-158 | at most one book object changes, it is one of the category's books with that title, and it only loses this category's tag; nothing changes unless the side applies |
| DeleteCommand.QuoteSide | src/main/java/seedu/duke/commands/DeleteCommand.java:165-185 | skipped exactly for an empty number; not a number or out of range is a miss with its message; an untagged quote at a valid number throws; applied exactly when the quote there is tagged |
| DeleteCommand.QuoteUntagged | src/main/java/seedu/duke/commands/DeleteCommand.java:174-178 | at most one quote object changes, it is one of the category's quotes, and it only loses this category's tag; nothing changes unless the side applies |
| DeleteCommand.DeleteCategoryFromBook | src/main/java/seedu/duke/commands/DeleteCommand.java:147-163 | the report is `BookSide` and the book objects become `BookUntagged` |
| DeleteCommand.DeleteCategoryFromQuote | src/main/java/seedu/duke/commands/DeleteCommand.java:165-185 | the report is `QuoteSide` and the quote objects become `QuoteUntagged` |
| DeleteCommand.ExecuteParameters | src/main/java/seedu/duke/commands/DeleteCommand.java:130-145 | `CategoryDeleted`: an unknown category changes nothing; a missing title throws before anything changes; then the book side, then a missing quote number throws, or the quote side, with the report built from both sides; only tags of this category are cleared |
| DeleteCommand.DeleteCategoryFromBookOrQuote | src/main/java/seedu/duke/commands/DeleteCommand.java:122-128 | invalid parameters do nothing; valid ones have exactly the outcome `CategoryDeleted`; objects only ever lose a tag |
| DeleteCommand.ComputeToDoIndex | src/main/java/seedu/duke/commands/DeleteCommand.java:197-206 | the number typed, or 0 when it is not a number |
| DeleteCommand.ToDoIndexRendered | src/main/java/seedu/duke/commands/DeleteCommand.java:197-206 | every written 32-bit number is read back |
| DeleteCommand.DeleteToDo | src/main/java/seedu/duke/commands/DeleteCommand.java:187-195 | `ToDoDeleted`: the to-do found is removed; otherwise it is reported and nothing changes |
| DeleteCommand.DeleteBookmark | src/main/java/seedu/duke/commands/DeleteCommand.java:208-224 | `BookmarkDeleted`: no book with the title does nothing; otherwise the first bookmark of that book object is removed, or its absence reported |
| DeleteCommand.Execute | src/main/java/seedu/duke/commands/DeleteCommand.java:37-70 | `Deleted`: each tag has exactly its handler's outcome and changes no other list; an unknown tag changes nothing; no delete adds a second rating for a title |
| EditCommand.EditQuote | src/main/java/seedu/quotesify/commands/EditCommand.java:63-78 | `QuoteEdited`: no edit flag, or a parser rejection, is reported and changes nothing; an out-of-range number throws; otherwise a new quote object takes that place in the list |
| EditCommand.EditedQuoteList | src/main/java/seedu/quotesify/commands/EditCommand.java:69 | after the edit the list shows the edited quote at that number and every other quote as before |
| EditCommand.BookEditParts | src/main/java/seedu/quotesify/commands/EditCommand.java:82-87 | the trimmed number and new title around the first `/edit`; no flag means an empty title |
| EditCommand.BookEditRendered | src/main/java/seedu/quotesify/commands/EditCommand.java:82-87 | `n /edit title` is read back as that number and title |
| EditCommand.Retitled | src/main/java/seedu/quotesify/commands/EditCommand.java:96-107 | an unrated old title leaves the ratings as they are; a non-zero first rating moves to the end under the new title |
| EditCommand.RetitleKeepsUnique | src/main/java/seedu/quotesify/commands/EditCommand.java:96-107 | renaming to a title with no rating keeps at most one rating per title |
| EditCommand.RetitleCanDuplicate | src/main/java/seedu/quotesify/commands/EditCommand.java:98-107 | renaming to a rated title can leave two ratings for one title |
| EditCommand.EditBook | src/main/java/seedu/quotesify/commands/EditCommand.java:80-117 | `BookEdited`: rejections in source order (not a number, empty title, out of range), each changing nothing; otherwise the book object is retitled and its rating follows it |
| EditCommand.ScoreAndTitle | src/main/java/seedu/quotesify/commands/EditCommand.java:124-130 | nothing exactly when the payload has no space; otherwise a spaceless score text and a trimmed title |
| EditCommand.ScoreAndTitleRendered | src/main/java/seedu/quotesify/commands/EditCommand.java:124-130 | `score title` is read back as that score text and title |
| EditCommand.IsRated | src/main/java/seedu/quotesify/commands/EditCommand.java:148-162 | true exactly when some rating has the title |
| EditCommand.EditRating | src/main/java/seedu/quotesify/commands/EditCommand.java:119-146 | `RatingEdited`: rejections (no title, invalid score, not rated) change nothing; otherwise only the last rating of the title takes the new score; titles and uniqueness are kept |
| EditCommand.Renamed | src/main/java/seedu/quotesify/commands/EditCommand.java:175 | only the renamed category's name changes; its members and every other category stay |
| EditCommand.RenameKeepsUnique | src/main/java/seedu/quotesify/commands/EditCommand.java:164-180 | renaming to an unused name keeps names unique, finds the category under its new name and no longer under the old one |
| EditCommand.EditCategory | src/main/java/seedu/quotesify/commands/EditCommand.java:164-180 | `CategoryEdited`: a parser rejection, an unknown old name or a taken new name changes nothing; otherwise that category is renamed; names stay unique |
| EditCommand.Execute | src/main/java/seedu/quotesify/commands/EditCommand.java:37-61 | `Edited`: each tag has exactly its handler's outcome and changes no other list; an unknown tag prints the usage and changes nothing; category names stay unique |
| Text.Trim | src/main/java/seedu/duke/commands/AddCommand.java:55-56 | the result has no trim-space at either end and text without such ends is kept |
| Text.IndexOf | src/main/java/seedu/duke/commands/AddCommand.java:63 | the position of the first occurrence of the pattern, or none exactly when it occurs nowhere |
| Text.ContainsOccurs | src/main/java/seedu/duke/commands/AddCommand.java:63-71 | `contains` holds exactly when the pattern occurs at some position |
| Text.ParseMinusOne | src/main/java/seedu/duke/commands/AddCommand.java:134 | the token `-1` is read as -1 |
| Text.SplitOnce | src/main/java/seedu/duke/commands/AddCommand.java:23 | one part exactly when the separator is absent; otherwise the text before its first occurrence and the rest, which rebuild the input |
| Text.SplitAll | src/main/java/seedu/duke/commands/DeleteCommand.java:100 | text without the separator gives itself alone; otherwise no trailing empty piece |
| Text.SplitAllParts | src/main/java/seedu/duke/commands/DeleteCommand.java:100 | the pieces kept hold no separator, are a prefix of all the pieces, and start with the text before the first occurrence |
| Text.ParseInt | src/main/java/seedu/duke/commands/AddCommand.java:90 | a parsed value is 32-bit and comes from an optionally signed run of decimal digits |
| Text.ParseIntToString | src/main/java/seedu/duke/commands/DeleteCommand.java:200 | every 32-bit number written in decimal is parsed back |
| Text.Wrap32 | src/main/java/seedu/duke/commands/DeleteCommand.java:74 | the result is a 32-bit value congruent to the input, and equal to it when it already fits |
| Text.OneBasedIndex | src/main/java/seedu/duke/commands/DeleteCommand.java:174-175 | for a list of 32-bit size, number - 1 in int arithmetic is a valid index exactly when the number is in 1..size |

## Left out

- Printing: `TextUi` and every `System.out.println` become a `Report` value. The wording of the messages, and the list printed after `add quote`, are not modelled.
- `storage.save()` after every edit command, and `Storage` loading at start-up, are not part of this model.
- The interpreter loop, the logger and reading user input in `Quotesify.java` are not part of this model. A handler's uncaught exception is reported as `Crashed` with the state reached at the throw.
- `Parser.parseUserCommand`, which builds the command objects, is not part of this model.
- `CategoryParser`, `QuoteParser` and `RatingParser` are not part of this model. Their results are the function fields of `Entities.Parsers`, with an exception read as `None`.
- The list classes (`BookList`, `QuoteList`, `CategoryList`, `RatingList`, `ToDoList`, `BookmarkList`) are not part of this model. Their methods are modelled by their evident meaning:
  - `find` and `findByTitle` return the first exact match;
  - `getCategoryByName` throws when there is no such name;
  - `doesCategoryExist` and `isExistingCategory` test for a category of exactly that name;
  - `getQuote` and `getBook` throw `IndexOutOfBoundsException` for a position outside the list;
  - `QuoteList.editQuote` puts the new quote object, which has no category, at the position (`EditCommand.java:68-69`), rather than changing the old object in place, which would keep its category;
  - `BookList.deleteByBook` removes the book from the book list only, and not from any category's own list;
  - `ToDoList.find` and `delete` take a 1-based number;
  - `BookmarkList.find` matches the book object.
- `Command.java` is not part of this model. Its constants are taken to be the type tags `book`, `quote`, `category`, `rating`, `todo` and `bookmark`, the flags `/by` (author), `/from` (reference) and `/edit`, and the rating bounds 1 and 5 (`Entities.TagBook` to `Entities.RatingFive`).
- `Category.equals` is taken to be object identity, so categories are compared by position.
- The `assert` statements (`DeleteCommand.java:133`, `EditCommand.java:142`) are not modelled; Java runs without assertions by default.
- The `category == null` tests in `addCategoryToBook` and `addCategoryToQuote` never hold after get-or-create. The model does not represent them. A `null` category name from the parser is not modelled.
- Digits outside ASCII, which Java's `parseInt` accepts, are not modelled.
- Deleted books and quotes remain in their arena; only their place in the visible list is removed. This is how the model keeps aliases from categories and bookmarks meaningful.
- AddCommand.ReadRating: its own contract bounds only the score and the title. Which part of the payload each comes from is stated by `ReadRatingParts`.
- Text.SplitAll: its own contract states only the no-separator case and the dropped trailing empties. The rest is stated by `SplitAllParts`.
- `isExit` always returns false and has no state; it is not modelled.
