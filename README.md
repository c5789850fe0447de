# Book catalogue: a Dafny model

This project models the in-memory book catalogue of the repository. The
catalogue appears twice, in `solid_books.py` and `Solid.py`. The two copies
differ only in how they report: the first logs through `logging`, the second
prints. Both are modelled by the same Dafny code.

- `Text` (`text.dfy`): the Python built-ins the command loop relies on.
  These are `str.strip()` with Python's whitespace set, `str.lower()` on
  ASCII letters, and `str(int)` for the year. A parser for the rendered year
  is its partner.
- `Books` (`books.dfy`): the `Book` record and its `__str__` rendering
  (`Book.ToString`). It also holds the reported lines (`Message`: `Info` or
  `Warning`), the `show_books` listing (`Listing`) and the title filter of
  `remove_book` (`Without`). Lemmas prove that the filter keeps order, keeps
  multiplicities, is a no-op on an absent title and is idempotent, and that
  adding a book with a new title and then removing that title restores the
  list.
- `Catalog` (`catalog.dfy`): the class `Library`, with the mutable field
  `books` that `AddBook` appends to and `RemoveBook` rebinds. It also holds
  the class `LibraryManager`, which builds a `Book` and forwards each call.
- `Session` (`session.dfy`): the `main` loop. `Parse` is the
  strip/lower-case dispatch. `Step` and `Run` are the two-state machine
  (`Running`, `Terminated`) over the dispatched commands. `RunSession` is
  the imperative loop that creates the library and manager and drives them.
  It is proved equal to `Run`.

Output is a returned `seq<Message>`. `Solid.py` prints the text of each
message. `solid_books.py` logs `Info` messages with `logging.info` and
`Warning` messages with `logging.warning`. Input is a given sequence of
`Entry` records, one per pass of the loop. Each record holds the command
line, the raw title and author lines, and the year as an integer.

In both files `Library.show_books` renders the listing (`solid_books.py:45-50`,
`Solid.py:38-43`); `LibraryManager.show_books` only forwards the call.

## Model

| member | source | states |
|---|---|---|
| Catalog.Library.constructor | solid_books.py:34-35 | a new library holds no books |
| Catalog.Library.AddBook | solid_books.py:37-38 | the book is appended at the end: length grows by one and every earlier book keeps its position |
| Catalog.Library.RemoveBook | solid_books.py:41-42 | the new list is the old one filtered by exact title inequality; no book titled `t` is left, and the length drops by the number of books titled `t` |
| Catalog.Library.ShowBooks | solid_books.py:45-50 | reports the listing of the current books (see `Books.Listing`); the list is not changed |
| Catalog.LibraryManager.constructor | solid_books.py:54-55 | the manager holds the library it was given |
| Catalog.LibraryManager.AddBook | solid_books.py:57-59 | same effect on the library as adding `Book(title, author, year)` directly |
| Catalog.LibraryManager.RemoveBook | Solid.py:54-55 | passes the title through unchanged: same effect as the library's removal |
| Catalog.LibraryManager.ShowBooks | Solid.py:57-58 | reports exactly the library's listing |
| Books.RenderingShowsFields | solid_books.py:15-16 | `Book.__str__` (`Book.ToString`): the line starts with `Title: ` and the title, and ends with the year as `str` writes it, which reads back as the same year |
| Books.Lines | Solid.py:42-43 | one info line per book, in list order, each the book's `__str__` rendering |
| Books.Listing | Solid.py:38-43 | the listing is exactly `Library is empty.` iff the list is empty; otherwise it has one line per book, line i rendering book i |
| Books.Without | Solid.py:36 | no remaining book has the removed title, and the length is the old length minus the count of that title |
| Books.WithoutKeepsOrder | solid_books.py:42 | the books kept by removal form a subsequence of the old list, in the original order |
| Books.WithoutMultiplicity | Solid.py:36 | every book with another title keeps all its copies; every copy of a book with the removed title is gone |
| Books.WithoutAbsent | solid_books.py:42 | removing a title that no book has leaves the list unchanged |
| Books.WithoutIdempotent | Solid.py:36 | removing a title twice equals removing it once |
| Books.WithoutAppend | solid_books.py:42 | removal distributes over concatenation of two lists |
| Books.AddThenRemove | solid_books.py:37-42 | adding a book whose title is not present and then removing that title restores the previous list |
| Books.RemovalIsCaseSensitive | Solid.py:35-36 | titles are compared exactly: removing `dune` keeps `Dune` |
| Text.YearRoundTrip | solid_books.py:15-16 | the year written into a book's line reads back as the same integer, negatives included |
| Text.Digits | Solid.py:10-11 | the year's digits are decimal digits with no leading zero |
| Text.YearText | solid_books.py:16 | `str(year)`: a minus sign exactly when the year is negative, and decimal digits after it |
| Text.Strip | solid_books.py:77-82 | `str.strip()`: the result has no whitespace at either end and is no longer than the input (with `StripPadded`, it is exactly the text inside the padding) |
| Text.Lower | solid_books.py:73 | lower-casing keeps the length and maps each character through ASCII lower-casing |
| Text.StripPadded | solid_books.py:73 | strip removes exactly the surrounding whitespace: any whitespace around a text with non-space ends strips back to that text |
| Text.StripIdempotent | Solid.py:70 | stripping a stripped field changes nothing |
| Text.LeadingSpace | Solid.py:66 | counts the whitespace prefix: all of it is whitespace and the next character is not |
| Text.TrailingSpace | Solid.py:71 | counts the whitespace suffix: all of it is whitespace and the character before it is not |
| Session.Normalize | solid_books.py:73 | `.strip().lower()` of the command line: no longer than the line, no whitespace at either end, and already lower case (lower-casing it again changes nothing) |
| Session.Parse | solid_books.py:73-89 | the stripped, lower-cased token selects add, remove, show or exit, anything else is invalid; title and author are stripped but keep their case; the year is passed as given |
| Session.KeywordIgnoresPadding | Solid.py:66 | the normalised token of a padded line is the lower-cased text inside the padding |
| Session.ExitInAnyCase | Solid.py:66-80 | any casing of `exit` with any surrounding whitespace is the exit command |
| Session.ParseAddLine | Solid.py:69-73 | the line `add` with unpadded fields adds exactly that title, author and year |
| Session.ParseRemoveLine | Solid.py:74-76 | the line `remove` with an unpadded title removes exactly that title |
| Session.ParseShowLine | Solid.py:77-78 | the line `show` selects the show branch |
| Session.Step | Solid.py:68-82 | only exit terminates; only add and remove change the catalogue; only show and an invalid token report |
| Session.Run | solid_books.py:72-89 | the loop stops at the first exit and reads nothing after it; if it is still running, every entry was read and none was an exit |
| Session.Dispatch | solid_books.py:75-89 | one pass hands the command to the manager: the new catalogue, the report and the loop state are those of `Step` |
| Session.RunSession | solid_books.py:68-89 | `main` from a fresh library: final catalogue, everything reported, loop state and entries read are those of `Run` from the empty catalogue |
| Session.ExitEndsLoop | solid_books.py:86-87 | exit leaves the catalogue as it was, reports nothing and ends the loop after one entry |
| Session.InvalidContinues | solid_books.py:88-89 | an unrecognised token reports `Invalid command. Please try again.` as a warning, leaves the catalogue unchanged and the loop goes on |
| Session.RunStopsAtExit | Solid.py:79-80 | once the loop has terminated, further input changes nothing |
| Session.RunConcat | Solid.py:65-82 | a run that is still going can be split: the rest of the input continues from the catalogue it left |
| Session.AddsThenShowInOrder | solid_books.py:76-85 | after any run of adds, show lists the earlier books and then the added ones, in the order they were added |
| Session.RemovalsOver | Solid.py:74-78 | removing a title that only the first of two books has, twice, with a show after each removal: both shows list only the second book, and the second removal raises no error |
| Session.Walkthrough | Solid.py:61-82 | for two books with different titles: add both, show both in order, remove the first, show only the second, remove it again without error, show the same line |
| Session.FreshCatalogueIsEmpty | solid_books.py:69-85 | show on a fresh catalogue reports only `Library is empty.` |

## Left out

- `input()` and the prompt texts are not modelled: the loop reads a given sequence of `Entry` records. The actual `print` and `logging` calls are not modelled either: the report is a returned `seq<Message>`.
- Running out of input is not modelled as an error. The loop then stops with the state still `Running`; Python's `input()` would raise `EOFError` there.
- The `int(...)` parse of the year line is left out. The year arrives as an already-parsed integer, because a parse failure is an uncaught crash in both files.
- `Text.Lower` folds only `A`-`Z`; Python's `str.lower()` folds all of Unicode. For choosing a branch the two agree: the only non-ASCII character that lower-cases into ASCII is the Kelvin sign, and `k` is in no keyword.
- The `LibraryInterface` abstract base class is not modelled as an interface: `LibraryManager` holds a concrete `Library`. `Library` is the only implementation in both files.
- The `Book added: ...` and `Book removed: ...` log lines of `solid_books.py` are diagnostics and are not modelled. The same goes for the `logging.basicConfig` timestamp and level format.
- Session.Walkthrough: stated over the dispatched commands for any two books with distinct titles, not over the typed lines. `ParseAddLine`, `ParseRemoveLine` and `ParseShowLine` link the typed lines to those commands.
- `vehicle_factory.py` and `VehicleFactory.py` are not modelled. They only construct objects with a fixed region string and print a start-up message.
