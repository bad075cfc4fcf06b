# Book inventory client: table and form, modelled in Dafny

This project models the two components that make up the book inventory
client: the book table (`src/components/BookTable.jsx`) and the create/edit
form (`src/components/BookModal.jsx`).

The table holds the list of books fetched from the book service. It derives
from that list:
- the genre and status filter options (distinct values, in first-occurrence
  order);
- the filtered list (a case-insensitive search on title or author, plus
  genre and status equality, where no selection means "all");
- the current page of ten rows.

It also applies the results of delete, update and create calls to its list.
Typing a search or choosing a filter returns to page 1. The form validates a
draft field by field, hands it on only when it is valid, reloads itself
whenever it is shown or hidden or given another book, and updates one field per input
change.

Files:

- `books.dfy` (module `Books`): the `Book` record, `Option`, the service
  reply `Reply` (a value or a failure message), and the unique-id invariant.
- `js_string.dfy` (module `JsString`): the string operations the components
  rely on:
  - `toLowerCase`, on ASCII;
  - `includes`;
  - `trim`, over the ECMAScript white-space and line-terminator set.

  Their properties are proved as lemmas.
- `js_array.dfy` (module `JsArray`): the array operations:
  - `filter`, as a subsequence that keeps exactly the passing elements with
    their multiplicities;
  - `map`;
  - `[...new Set(xs)]`, with no duplicates, the same members and
    first-occurrence order;
  - `slice`, with ECMAScript's index clamping.
- `book_table.dfy` (module `BookTable`): options, filtering, pagination and
  the list updates as functions with lemmas. The class `Component` holds the
  table's state; its methods are the event handlers.
- `book_modal.dfy` (module `BookModal`): the draft, the validation rule
  (`Errors`, a map from field to message) with its lemmas, the parsing of
  input values, and the class `Component` holding `formData` and `errors`.

The service calls (`bookService.fetchBooks`, `deleteBook`, `updateBook`,
`addBook`) are not modelled. Their outcome is a `Reply` parameter of the
method that handles the completion. The current year (`new Date()`) is a
parameter of validation.

Behaviour of the code that the model keeps, where a reader might expect
otherwise:
- The current page is never clamped.
  - After a delete or an update that empties the last page, the page stays
    where it is and shows no rows.
  - "Next" is disabled only when the page number equals the page count.
    With no results the count is 0, so "Next" stays enabled and moves past
    the last page. The scenario method `BookTable.NextPastNoResults` walks
    through this.
- A failed create or update records the error in `error`, which replaces
  the whole table by the error panel. A failed delete only shows a
  notification.
- An update replaces every book whose id is the id of the book the service
  returned. That id is not necessarily the selected book's id.
- Reopening the form on a book turns a published year of 0 into an empty
  year, because `book.publishedYear || ''` treats 0 as falsy. It likewise
  turns an empty status into "available".
- The table accepts any status string. Only the form offers the two
  statuses "available" and "unavailable".
- A genre or status selection of `null` or `""` means "all", since both are
  falsy in `!selectedGenre`.

The validation messages are kept as constants of the type `Message`:
`TitleRequired`, `AuthorRequired`, `GenreRequired`, `YearRequired` and
`YearInvalid`. Their English texts are "Title is required", "Author is
required", "Genre is required", "Published year is required" and
"Published year must be between 1800 and current year".

## Model

| member | source | states |
|---|---|---|
| BookTable.GenreOptions | src/components/BookTable.jsx:51-54 | the genre options have no duplicates, include every book's genre, and contain only genres of some book |
| BookTable.StatusOptions | src/components/BookTable.jsx:56-59 | the status options have no duplicates, include every book's status, and contain only statuses of some book |
| JsArray.Distinct | src/components/BookTable.jsx:51 | `[...new Set(xs)]` has no duplicates, has the same members as xs, and lists them in order of first occurrence |
| BookTable.Matches | src/components/BookTable.jsx:61-69 | a matching book has the selected genre and status when one is selected, and a title or author at least as long as a non-empty query; with an empty query and no selection every book matches |
| BookTable.FilterBooks | src/components/BookTable.jsx:61-70 | the listed books are a subsequence of the list; each book occurs as often as in the list when it matches the search, genre and status, and not at all otherwise |
| BookTable.NoFilterListsAll | src/components/BookTable.jsx:61-70 | with an empty search and no genre or status selected (null or empty), every book is listed, in order |
| BookTable.ListedBooksHaveSelection | src/components/BookTable.jsx:66-67 | every listed book has the selected genre and the selected status, when one is selected |
| BookTable.SearchIgnoresQueryCase | src/components/BookTable.jsx:62-64 | a query matches a book exactly when its lower-cased form does |
| BookTable.EmptyQueryMatchesBySubstring | src/components/BookTable.jsx:62-64 | a book matches a query exactly when the lower-cased query occurs in the lower-cased title or author; the empty query matches every book |
| BookTable.AppendedBookListedLast | src/components/BookTable.jsx:61-70 | filtering the list with a book appended lists that book after the others, exactly when it matches |
| BookTable.TotalPages | src/components/BookTable.jsx:75 | the page count is the least number of ten-row pages that hold all listed books |
| BookTable.PageSlice | src/components/BookTable.jsx:72-74 | a page holds at most ten rows; page p from 1 on holds the rows (p-1)*10 up to p*10, cut at the list's end |
| BookTable.PageWindow | src/components/BookTable.jsx:72-75 | page p from 1 on holds exactly ten rows before the last page, at least one on any page up to the count, and none past it |
| BookTable.PagesUpToIsPrefix | src/components/BookTable.jsx:72-74 | pages 1 to k together are the first k*10 listed books, with no row shown twice or skipped |
| BookTable.AllPagesAreTheList | src/components/BookTable.jsx:72-75 | pages 1 to the page count together are exactly the listed books |
| BookTable.RemoveById | src/components/BookTable.jsx:105 | the list after a delete is a subsequence of the list, without the books with that id and with every other book as often as before |
| BookTable.RemoveKeepsIdsUnique | src/components/BookTable.jsx:105 | a delete keeps the ids unique |
| BookTable.RemovePresentIdDropsOne | src/components/BookTable.jsx:105 | with unique ids, deleting a present id shortens the list by exactly one |
| BookTable.RemoveAbsentIdKeepsAll | src/components/BookTable.jsx:105 | deleting an id no book has leaves the list unchanged |
| BookTable.ReplaceById | src/components/BookTable.jsx:126 | an update keeps the length and replaces exactly the books whose id is the returned book's id, leaving the others in place |
| BookTable.ReplaceKeepsIds | src/components/BookTable.jsx:126 | an update keeps every position's id, hence keeps unique ids unique |
| BookTable.RemoveAfterReplace | src/components/BookTable.jsx:105-126 | deleting a book's id after updating it leaves the same list as deleting it without the update |
| BookTable.AppendKeepsIdsUnique | src/components/BookTable.jsx:135 | appending a created book with a fresh id keeps the ids unique |
| BookTable.Component.constructor | src/components/BookTable.jsx:15-24 | the initial state: no books, loading, no error, page 1, empty search, no genre or status, form hidden, no book selected |
| BookTable.Component.Filtered | src/components/BookTable.jsx:61-70 | the listed books are a subsequence of the state's books; each book occurs as often as among them when it matches the current search and selections, and not at all otherwise |
| BookTable.Component.CurrentBooks | src/components/BookTable.jsx:72-74 | the rows shown are at most ten, and from page 1 on are the listed books (p-1)*10 up to p*10, cut at the end |
| BookTable.Component.PageCount | src/components/BookTable.jsx:75 | the page count is the fewest ten-row pages that hold the listed books |
| BookTable.Component.FetchCompleted | src/components/BookTable.jsx:30-49 | loading ends; success replaces the list and leaves the error; failure records the message and leaves the list |
| BookTable.Component.SetSearchQuery | src/components/BookTable.jsx:218-223 | the search becomes the typed text and the page returns to 1 |
| BookTable.Component.SetGenre | src/components/BookTable.jsx:229-235 | the genre becomes the selection and the page returns to 1 |
| BookTable.Component.SetStatus | src/components/BookTable.jsx:240-246 | the status becomes the selection and the page returns to 1 |
| BookTable.Component.PreviousPage | src/components/BookTable.jsx:311-313 | the page goes down by one except on page 1, where it stays; the page stays at least 1 |
| BookTable.Component.NextPage | src/components/BookTable.jsx:318-320 | the page goes up by one unless it equals the page count, including when the count is 0 and the page is past it |
| BookTable.Component.GoToPage | src/components/BookTable.jsx:345-348 | the numbered button at index i moves to page i+1, which lies within the page count |
| BookTable.Component.AddBook | src/components/BookTable.jsx:81-84 | the form opens with no book selected |
| BookTable.Component.EditBook | src/components/BookTable.jsx:86-89 | the form opens on the chosen book |
| BookTable.Component.HideModal | src/components/BookTable.jsx:372 | the form closes |
| BookTable.Component.DeleteBook | src/components/BookTable.jsx:102-120 | a successful delete removes the books with that id; a failed one leaves the list |
| BookTable.Component.ModalSubmitted | src/components/BookTable.jsx:122-153 | success replaces by the returned book when one was selected, appends it otherwise, and closes the form; failure records the error and leaves the list and the form |
| JsString.TrimEmptyIff | src/components/BookModal.jsx:42-44 | a string trims to nothing exactly when every character is white space |
| BookModal.FieldError | src/components/BookModal.jsx:42-48 | a field's message, when it has one, is a message of that field; the status never has one; the year is "required" exactly when it is empty |
| BookModal.Errors | src/components/BookModal.jsx:40-48 | every message in the error map sits under its own field, and only title, author, genre and year can be in error, never the status |
| BookModal.TextFieldsRequired | src/components/BookModal.jsx:42-44 | each of title, author and genre is in error exactly when it is all white space, and then carries its own "required" message |
| BookModal.YearRule | src/components/BookModal.jsx:45-48 | an empty year is "required"; a present year is "invalid" exactly when it is not a number or lies outside 1800 to the current year |
| BookModal.BlankDraftErrors | src/components/BookModal.jsx:29-48 | the blank draft fails on title, author, genre (required) and year (required) |
| BookModal.NoErrorsIff | src/components/BookModal.jsx:40-50 | a draft validates exactly when its three text fields trim to something and its year is a number from 1800 to the current year |
| BookModal.ReopenedBookValidIff | src/components/BookModal.jsx:19-50 | the form reopened on a book validates exactly when the book's texts trim to something and its year lies from 1800 to the current year |
| BookModal.OnlyTitleMissing | src/components/BookModal.jsx:42-48 | every draft whose title trims to nothing while author and genre trim to something and the year is a number from 1800 to the current year gets exactly the title message |
| BookModal.YearTooEarly | src/components/BookModal.jsx:42-48 | every draft whose three texts trim to something and whose year is a number before 1800 (such as 1700) gets exactly the "invalid" year message |
| BookModal.DraftOf | src/components/BookModal.jsx:19-36 | without a book the draft is blank; with one, title, author and genre are the book's, the year is empty exactly when the book's is 0 and is the book's otherwise, and the status is the book's when the book's is not empty and "available" when it is empty |
| BookModal.ParseYear | src/components/BookModal.jsx:45-46 | the year input is empty exactly when the typed text is |
| BookModal.WithField | src/components/BookModal.jsx:60-66 | a change event sets the named field (the year parsed from the text) and leaves every other field as it was |
| BookModal.Component.constructor | src/components/BookModal.jsx:9-16 | the form starts with the blank draft and no errors |
| BookModal.Component.Reset | src/components/BookModal.jsx:19-38 | the draft is reloaded from the book (or blanked) and the errors are cleared |
| BookModal.Component.ValidateForm | src/components/BookModal.jsx:40-51 | the errors shown become the validation map of the draft, and the result is true exactly when that map is empty |
| BookModal.Component.HandleSubmit | src/components/BookModal.jsx:53-58 | the draft is handed on exactly when it validates, and the errors shown are its validation map |
| BookModal.Component.HandleChange | src/components/BookModal.jsx:60-66 | the draft becomes the old draft with the named field set |

## Left out

- The book service's network calls, JSON handling and HTTP status checks are not modelled. Their outcome is a `Reply` parameter.
- Concurrency is not modelled. Each completion handler runs atomically on the state at its completion, so stale closures over `books` and overlapping requests are not covered.
- Notifications (toasts), the confirmation dialog, the loading spinner and error panel, and all markup and styling are not modelled. `DeleteBook` models the accepted confirmation; a rejected one does nothing.
- The "Showing X to Y of Z results" line is not modelled, since it is text only.
- The locale state and the message tables are not modelled. Messages are the constants of `Message`, and option labels are not modelled (each option's label equals its value).
- `src/App.jsx` is not part of this model: it only mounts the table.
- `handlePageChange` is modelled through its three callers, `PreviousPage`, `NextPage` and `GoToPage`.
- `JsString.Lower`: lower-cases ASCII letters only, because Unicode case mapping is not modelled.
- BookModal.ParseYear: classifies only strings of decimal digits as numbers. JavaScript's `isNaN` coercion also accepts signs, decimals, exponents and surrounding white space (for example "2e3" or " 1999 "), so the model calls some in-range years invalid that the component accepts.
- Book fields that are not strings (`null` or `undefined`) are not modelled. `|| ''` is modelled only where it changes a value, for a year of 0 and an empty status.
