# Library lending ledger, in Dafny

This project models the lending core of a small library-management REST backend. Librarians and members browse a catalog of books. Members are lent books through two view-set actions on borrow records, `borrow` and `return_book`. A book's availability flag (`available` / `borrowed`) is kept in step with its borrow records. The `borrow` and `return_book` actions never write that flag. The borrow record's save hook does: saving a new record marks its book borrowed, and re-saving a record that has a return date marks its book available. The source defines four role checks over the request's user, HTTP method and action. The view sets use three of them: `IsLibrarianOrReadOnly` for authors and books, `IsLibrarian` for members, and `IsLibrarianOrMemberReadOnly` for borrow records. No view set uses the fourth, `IsMember`.

The project has four modules:

- `Models` (models.dfy) covers the model layer:
  - the status and category enumerations, with their stored tags and choice validation;
  - the `Book` and `BorrowRecord` rows and their defaults;
  - the whole database as a `Store` value;
  - the save hook `SaveHook`, a function on the store;
  - the two loan invariants: a book is borrowed iff it has an open loan (`FlagsMatchLoans`), and no book has two open loans (`AtMostOneOpenLoan`).
- `Views` (views.dfy) covers the two actions:
  - `BorrowStep` and `ReturnStep` are functions returning the new store and the response. The response is `Created` / `Ok` / `NotFound` / `BadRequest`, standing for HTTP 201 / 200 / 404 / 400.
  - Lemmas state each branch, prove both actions preserve the loan invariants, and cover sequences of requests.
- `Ledger` (ledger.dfy) is the same ledger as a class, `LendingLedger`:
  - its fields are the maps of books and records, the member ids and the next record id;
  - methods `Borrow` and `ReturnBook` run the view logic step by step, with early returns;
  - the helper `SaveRecord` plays the save hook (nothing makes it private: any caller may use it, as the generic record writes do);
  - all three methods are proved equal to their specification functions, and only `Borrow` and `ReturnBook` are also proved to keep the loan invariants whenever they held before.
- `Permissions` (permissions.dfy) holds the four `has_permission` checks as predicates over the request, and which view set uses which check.

The clock is an abstract `nat` that the caller passes in (`now`). Ids are unbounded integers. Stored record ids are positive, as the database hands them out from 1 upwards. The ledger takes whatever `memberId` the caller gives: nothing ties the authenticated user to the member a book is lent to, and the model keeps it that way.

The code answers a double borrow and a double return with HTTP 400. It has no distinct "conflict" outcome, so the model calls these `BadRequest`. The code also runs no transaction around the two writes of an action; the model treats each action as one atomic step.

## Model

| member | source | states |
|---|---|---|
| `Models.ParseStatus` | library/models.py:27-30 | exactly the two stored tags `available` and `borrowed` name a status, and the status found is stored under that very tag |
| `Models.StatusTagRoundTrip` | library/models.py:27-30 | validating a status's stored tag gives that status back |
| `Models.ParseCategory` | library/models.py:16-25 | a stored category tag names a category only if that category is stored under that tag |
| `Models.CategoryTagRoundTrip` | library/models.py:16-25 | each of the eight categories is recovered from its stored tag |
| `Models.CategoryTagInjective` | library/models.py:16-25 | no two categories share a tag |
| `Models.NewBook` | library/models.py:32-36 | a new book's category defaults to `other` and its availability status to `available`; a category or status the caller gives is kept; title, author and isbn are as given |
| `Models.NewRecord` | library/models.py:54-57 | a new borrow record is open (no return date), is borrowed at creation time, and refers to the given book and member |
| `Models.SaveHook` | library/models.py:62-71 | saving writes the record under its id and leaves members alone; it keeps database integrity (ids below the next id, records refer to existing rows) |
| `Models.SaveNewMarksBorrowed` | library/models.py:64-66 | saving a new record gives it an id not used before, adds exactly that id, and marks its book borrowed whatever the book's prior status |
| `Models.SaveReturnedMarksAvailable` | library/models.py:67-69 | re-saving an existing record that has a return date marks its book available and keeps its id |
| `Models.SaveOpenKeepsBooks` | library/models.py:64-71 | re-saving an existing record with no return date leaves every book unchanged |
| `Models.SaveTouchesOnlyOwnBook` | library/models.py:62-71 | the hook changes no book but the record's own, and only its status; every other record stays as it was |
| `Views.HttpStatus` | library/views.py:54-104 | each outcome has its own code: 201 exactly for a created record, 200 exactly for a return, 404 exactly when something was not found, 400 exactly for a refusal; the two successes are the 2xx codes |
| `Views.BorrowStep` | library/views.py:43-74 | a borrow answers 404, 400 or 201; every refusal leaves the store as it was; it keeps database integrity |
| `Views.ReturnStep` | library/views.py:77-104 | a return answers 404, 400 or 200; every refusal leaves the store as it was; it keeps database integrity |
| `Views.BorrowMissingIsNotFound` | library/views.py:51-72 | a missing book or member gives 404 and no change, even when the book is not available: the lookups come before the availability check |
| `Views.BorrowUnavailableIsBadRequest` | library/views.py:54-58 | an existing book that is not available, with an existing member, gives 400; no record is created and the book's status is unchanged |
| `Views.BorrowCreatesOneOpenRecord` | library/views.py:60-66 | a successful borrow is 201 and adds exactly one record, under a fresh id, for that book and member, borrowed now and open; the book becomes borrowed and nothing else changes |
| `Views.ReturnMissingIsNotFound` | library/views.py:84-102 | returning an id with no record gives 404 and no change |
| `Views.ReturnTwiceIsBadRequest` | library/views.py:86-90 | returning a record that already has a return date gives 400 and no change |
| `Views.ReturnClosesRecord` | library/views.py:92-96 | a successful return is 200, sets that record's return date to `now` and its book to available, and changes no other record or book |
| `Views.BorrowSucceedsIffNoOpenLoan` | library/views.py:54-66 | when flags match loans, a borrow of an existing book by an existing member succeeds iff the book has no open loan |
| `Views.BorrowPreservesLoanInvariant` | library/views.py:54-66 | a borrow keeps "borrowed iff open loan" and "at most one open loan per book" |
| `Views.ReturnPreservesLoanInvariant` | library/views.py:86-96 | a return keeps "borrowed iff open loan" and "at most one open loan per book" |
| `Views.RunPreservesLoanInvariant` | library/views.py:43-104 | any sequence of borrows and returns keeps both loan invariants |
| `Views.DoubleBorrowRejected` | library/views.py:54-58 | while a loan is open, borrowing the same book again is refused (400 for an existing member) and changes nothing |
| `Views.DoubleReturnRejected` | library/views.py:86-90 | after a successful return, returning the same record again gives 400 and changes nothing |
| `Views.BorrowThenReturnRestoresCatalog` | library/models.py:62-71 | returning the record a borrow created restores the catalog exactly, and leaves the record closed at the return time |
| `Views.BorrowsOfBorrowedBookRefused` | library/views.py:54-58 | once a book is borrowed, every further borrow of it by enrolled members is 400 and the store never changes |
| `Views.SerialBorrowsOneWinner` | library/views.py:54-66 | of N borrows of one available book by enrolled members, served in turn, the first is created and the other N-1 get 400 |
| `Ledger.LendingLedger.SaveRecord` | library/models.py:62-71 | the helper leaves the rows exactly as `SaveHook` says and returns the id it gives |
| `Ledger.LendingLedger.Borrow` | library/views.py:43-74 | the stepwise borrow leaves the rows and answers exactly as `BorrowStep` says, and keeps the loan invariants if they held |
| `Ledger.LendingLedger.ReturnBook` | library/views.py:77-104 | the stepwise return leaves the rows and answers exactly as `ReturnStep` says, and keeps the loan invariants if they held |
| `Ledger.BorrowReturnScenario` | library/views.py:43-104 | borrow, borrow again, return, return again on one ledger answer created (a fresh open record for the first member), refused, ok (the same record closed at the return time), refused; the catalog ends as it began and the only new record is the closed one |
| `Permissions.IsLibrarian` | library/permissions.py:9-11 | granted exactly to authenticated staff |
| `Permissions.IsMember` | library/permissions.py:19-21 | granted exactly to authenticated users, staff or not |
| `Permissions.IsLibrarianOrReadOnly` | library/permissions.py:29-35 | only authenticated users are granted, and authenticated staff always are |
| `Permissions.IsLibrarianOrMemberReadOnly` | library/permissions.py:43-56 | every unauthenticated request is denied, and authenticated staff are always granted |
| `Permissions.Allowed` | library/views.py:15-40 | authors and books use `IsLibrarianOrReadOnly`, members `IsLibrarian`, borrow records `IsLibrarianOrMemberReadOnly`; so no endpoint admits an unauthenticated user, every endpoint admits a librarian, members are for librarians only, and outside borrow records every write is for librarians only |
| `Permissions.RoleChecksIgnoreMethodAndAction` | library/permissions.py:9-21 | `IsLibrarian` grants iff authenticated and staff, `IsMember` iff authenticated, whatever the method and action |
| `Permissions.ReadOnlySplitsOnMethod` | library/permissions.py:29-35 | `IsLibrarianOrReadOnly` is the member check for GET/HEAD/OPTIONS and the librarian check for any other method |
| `Permissions.MemberReadOnlySplitsOnAction` | library/permissions.py:43-56 | `IsLibrarianOrMemberReadOnly` is the member check for safe methods and for `borrow` / `return_book`, and the librarian check otherwise |
| `Permissions.MemberWritesOnlyLoans` | library/permissions.py:49-54 | with an unsafe method, an authenticated non-staff user is granted exactly the `borrow` and `return_book` actions |
| `Permissions.UnauthenticatedDenied` | library/permissions.py:9-56 | all four checks deny an unauthenticated user, whatever the method |
| `Permissions.StaffMonotone` | library/permissions.py:9-56 | under each of the four checks, what an authenticated non-staff user is granted, authenticated staff are granted too |
| `Permissions.ChecksOrdered` | library/permissions.py:9-56 | `IsLibrarian` grants no more than `IsLibrarianOrReadOnly`, which grants no more than `IsLibrarianOrMemberReadOnly`, which grants no more than `IsMember` |
| `Permissions.ScriptedOutcomes` | test_api.py:62-132 | without a token, GET books and authors are refused; a member may GET books but not POST one, may not list members, and may borrow; a librarian may create books and authors and list members |

## Left out

- Input validation by the serializers: a payload whose ids are missing or not integers gets 400 before the ledger runs (library/views.py:74 and 104). The model takes integer ids.
- The response body: the serializer's book title and member name fields are not modelled. A response carries the record's id and its fields.
- Generic create, update and delete of authors, books, members and records by the model view sets. Through them a librarian can create a book already marked borrowed, create a record for a borrowed book, or give an open record a return date. The save hook would run on those writes too, so they can break both loan invariants. This is why the invariants are kept beside `Valid()`, not inside it, and proved only for borrow and return.
- Whether the check hands back 401 or 403 on a refusal (the framework decides, from authentication).
- Author rows, member names and e-mails, enrollment dates, the unique isbn and the field length limits: nothing in the ledger reads them.
- Real timestamps and time zones: the clock is a `nat` parameter.
- Concurrency: the code holds no transaction or lock around the two writes of an action. The model runs each action as one atomic step, and concurrent borrows only as requests served in turn (`SerialBorrowsOneWinner`).
- Routing, schema views, the admin screens, authentication and token issue, seed scripts and database checks: all framework wiring or I/O.
- Status values outside the two choices: the database column would accept any string, but the model's `Status` has only the two.
- Models.SaveHook: requires a primary key to be positive. The hook's test `not self.pk` would also treat a key of 0 as a new record, but the database never hands out 0, so the model reads "no key" as `None`.
- Models.SaveHook: requires that a record saved with a primary key is already stored. Saving under an unknown key would insert a new row, and neither action ever does that.
