# Library ledger

A Dafny model of the library ledger in `library-go/main.go`. The ledger is an in-memory
database with three tables: users, books and loans. Request handlers read the tables by
linear search and change them in place. The model covers:

- registration, with email and role normalisation and the bootstrap-admin rule;
- the catalogue: create, update and delete a book;
- the loan life cycle: borrow, return, mark lost;
- the first-match lookups;
- the three read views: users by role, all loans joined with their reader and book, and
  the caller's own loans.

The model has two layers.

- **Module `Ledger`** states each handler's logic as a function. The function takes the
  data set before the request and gives back the answer plus the data set after it
  (`Step`).
  - Each contract lists every refusal as an if-and-only-if on the tables, and says that
    a refusal changes nothing.
  - For a success, it states the whole new data set: which record was appended, replaced
    or removed, and that nothing else moved.
- **Class `Library.Database`** is the imperative program. It holds three `seq` fields
  that its methods reassign, and has one method per handler.
  - Lookups and views are `for` loops that return early or append to an output list, as
    in the source.
  - Each method's contract ties its answer and its new state to the matching `Ledger`
    function.

What the functions promise together is proved in module `Properties`:

- the table invariants every request keeps (`Consistent`);
- the stock bound `0 <= availableQty <= totalQty`, which every request keeps except
  return;
- the loan life cycle: a loan closes once and then never changes;
- the bootstrap-admin gate;
- borrow followed by return restores the catalogue;
- views read the current records.

Module `Scenarios` works small request sequences through to their exact answers.

Supporting modules:

- `Text` models Go's `strings.TrimSpace`, `strings.ToLower`, `strings.EqualFold` and
  `genID`, with their properties.
- `Tables` holds the first-match lookups and the view builders.
- `Records` holds the entities, the refusal kinds and the HTTP status of each refusal.

The request's clock readings (`nowDate()`, and the default due date a week ahead), the
authenticated caller (`Option<User>`) and the password hash are parameters.

Where the code and the intended design disagree, the model follows the code:

- **Deleting a book that is on loan** is answered with 400, not the 409 conflict one
  would expect (`library-go/main.go:466-468`).
- **Updating a book's total** shifts the available count by the same amount and floors
  it at 0. It does not cap the count at the new total (`library-go/main.go:428-433`).
  The cap is not needed, because the shift already keeps the count within the total
  whenever it was within the old one (`Properties.UpdateBookKeepsStockBounded`).
- **Returning a loan** adds one copy to the shelf without regard to the total
  (`library-go/main.go:559-562`). So `0 <= availableQty <= totalQty` is not kept by
  every request sequence: `Properties.ReturnCanOverfillShelf` exhibits a sequence that
  breaks it. Every other request keeps it (`Properties.ApplyKeepsStockBounded`).
- **Book ids** are `genID("B", len+1)`, and delete shrinks the table, so two books can
  end up with the same id (`Scenarios.BookIdRepeatsAfterDelete`). User and loan ids
  stay distinct, because those tables only grow: every request keeps the numbering
  `UserIdsSequential`/`LoanIdsSequential`, and under it two records with one id are the
  same record (`Properties.UserIdsSequentialDistinct`, `Properties.LoanIdsSequentialDistinct`).

## Model

| member | source | states |
|---|---|---|
| Text.TrimSpace | library-go/main.go:232 | trimming never lengthens the text, and a non-empty result neither starts nor ends with white space (Go's unicode.IsSpace set) |
| Text.TrimSpaceCut | library-go/main.go:232 | the trimmed text is an infix of the input, and everything cut from either end is white space |
| Text.TrimSpaceIdempotent | library-go/main.go:232-233 | trimming twice is trimming once |
| Text.TrimSpaceKeepsTrimmed | library-go/main.go:362 | text with no white space at either end is left unchanged |
| Text.TrimSpaceUnpads | library-go/main.go:232 | one white-space character added on each side of a string with no white space at either end (the empty string included) is removed again |
| Text.TrimLeftCut | library-go/main.go:232 | the leading trim keeps a suffix and removes only white space |
| Text.TrimRightCut | library-go/main.go:232 | the trailing trim keeps a prefix and removes only white space |
| Text.ToLower | library-go/main.go:232-233 | lower-casing keeps the length |
| Text.ToLowerAt | library-go/main.go:232-233 | each character of the result is the lower case of the character at the same position |
| Text.ToLowerKeepsLower | library-go/main.go:232-233 | text with no upper-case letter is unchanged |
| Text.ToLowerIdempotent | library-go/main.go:232-233 | lower-casing twice is lower-casing once |
| Text.EqualFold | library-go/main.go:120 | two texts are equal ignoring case when they are equal once both sides are ASCII-lower-cased; equal text is equal ignoring case, and texts equal ignoring case have the same length. Folding covers ASCII letters only (see the Text.ToLower line under Left out) |
| Text.EqualFoldPointwise | library-go/main.go:372 | two texts are equal ignoring case exactly when they have the same length and agree at every position after lower-casing each character |
| Text.Decimal | library-go/main.go:108-110 | the %d numeral is non-empty and made only of digits |
| Text.DecimalRoundTrip | library-go/main.go:108-110 | reading the numeral back gives the number it was written from |
| Text.GenID | library-go/main.go:108-110 | an id is strictly longer than its prefix and starts with it |
| Text.GenIDInjective | library-go/main.go:108-110 | under one prefix, different numbers give different ids |
| Tables.EmailIndex | library-go/main.go:118-125 | -1 exactly when no user's email equals the query ignoring case; otherwise the first index whose email matches |
| Tables.UserIndex | library-go/main.go:127-134 | -1 exactly when no user has the id; otherwise the first index with it |
| Tables.BookIndex | library-go/main.go:136-143 | -1 exactly when no book has the id; otherwise the first index with it |
| Tables.LoanIndex | library-go/main.go:145-152 | -1 exactly when no loan has the id; otherwise the first index with it |
| Tables.UserListing | library-go/main.go:331-339 | a view is listed iff some user the role filter keeps has that view; an empty role lists every user, position by position |
| Tables.JoinLoan | library-go/main.go:631-646 | the joined row carries the loan itself |
| Tables.JoinLoanMatches | library-go/main.go:632-645 | reader fields come from the first user with the loan's reader id and book fields from the first book with its book id; each group is empty when there is no such record |
| Tables.ViewOfMyLoan | library-go/main.go:670-673 | copies the loan's id, status, dates and fine; the book is the first book with the loan's book id, and absent exactly when there is none |
| Tables.MyLoanListing | library-go/main.go:666-674 | a view is listed iff some loan of this reader has that view; no other reader's loan appears |
| Tables.MyLoanListingIndices | library-go/main.go:666-674 | the reader's list is drawn from strictly increasing loan positions that are exactly the positions of this reader's loans: each of them once, in table order, and nothing else |
| Tables.MyLoanListingInOrder | library-go/main.go:666-674 | such an increasing choice of positions exists for every loan table and reader |
| Tables.UserListingIndices | library-go/main.go:331-339 | the user list is drawn from strictly increasing table positions that are exactly the positions the role filter keeps: each kept user once, in table order, and nothing else |
| Tables.UserListingInOrder | library-go/main.go:331-339 | such an increasing choice of positions exists for every table and role |
| Tables.KeptUsersMembership | library-go/main.go:331-339 | a list drawn that way holds a view exactly when some kept user has it |
| Ledger.NormalizeEmail | library-go/main.go:232 | the normalised email is as long as the trimmed email, never longer than the input, and is empty exactly when the input is blank |
| Ledger.NormalizeEmailTrimmed | library-go/main.go:232 | a stored (trimmed, lower-cased) email has no white space left at either end |
| Ledger.NormalizeEmailIdempotent | library-go/main.go:232 | normalising a stored email again gives the same email |
| Ledger.NormalizeRole | library-go/main.go:233-236 | the role is "admin" or "reader", and "admin" exactly when the trimmed, lower-cased request says admin |
| Ledger.Register | library-go/main.go:232-269 | refusals exactly when: a field is missing (after email normalisation); the email is taken ignoring case; or an admin would be added after the first admin without an admin caller. A refusal changes nothing. A success appends exactly one user, "U<len+1>", with the normalised email and role |
| Ledger.CreateBook | library-go/main.go:362-388 | refusal exactly when the trimmed code, or the title or author as given, is empty, or the total is below 1, or when the code is taken ignoring case; a refusal changes nothing. A success appends exactly one book, "B<len+1>", with every copy available |
| Ledger.ShiftAvailable | library-go/main.go:428-433 | the new available count is the old one shifted by the change in total, or 0 when that shift would be negative |
| Ledger.UpdateBook | library-go/main.go:395-443 | refusal exactly when the id is missing, the book is unknown, or a negative total is supplied; a refusal changes nothing. A success replaces only that book: only supplied fields change, id, code and creation date are kept, and the available count follows the total |
| Ledger.DeleteBook | library-go/main.go:450-472 | refusal exactly when the id is missing, the book is unknown, or a loan of it is still borrowed. A success removes exactly the first book with the id, keeps the others in order, and leaves users and loans alone |
| Ledger.Borrow | library-go/main.go:488-528 | refusal exactly when an id is missing, the first user with the id is absent or not a reader, the book is unknown, or no copy is available; a refusal changes nothing. A success takes exactly one copy off that book's shelf and appends a borrowed loan "L<len+1>" with no return date and fine 0, due on the supplied date or the default |
| Ledger.Return | library-go/main.go:546-562 | refusal exactly when the loan is unknown or not borrowed; a refusal changes nothing. A success marks the loan returned on today's date and adds one copy to its book's shelf if the book still exists; nothing else changes |
| Ledger.LostFine | library-go/main.go:592-598 | the fine is the supplied amount, else the book's price, else 0 when the book is gone |
| Ledger.WriteOffCopy | library-go/main.go:604-609 | with a positive total, the total drops by one and the available count is clamped to the new total; otherwise the book is unchanged. The available count never rises, and the descriptive fields are kept |
| Ledger.MarkLost | library-go/main.go:582-610 | same refusals as Return. A success marks the loan lost with today's date and the fine from LostFine, and writes one copy off its book if the book still exists; nothing else changes |
| Ledger.ListLoans | library-go/main.go:630-646 | one row per loan, in loan order, each the loan joined with its current reader and book |
| Ledger.ListUsers | library-go/main.go:326-339 | the list is no longer than the user table and is drawn from strictly increasing table positions that are exactly the users whose role equals the trimmed, lower-cased query (every user when it is blank): each kept user once, in table order, and nothing else; a blank query lists every user, position by position |
| Ledger.MyLoans | library-go/main.go:651-675 | Unauthorized exactly when there is no caller, ReaderOnly exactly when the caller is not a reader; a reader caller always gets Ok with the listing of its own loans |
| Records.HttpStatus | library-go/main.go:238-658 | each refusal's status: 401 only for a missing caller, 403 for the two role refusals, 404 for the three unknown-record refusals, 409 for the two taken keys (email, code), 400 for the rest |
| Library.Database.constructor | library-go/main.go:88-95 | the tables start as the loaded snapshot |
| Library.Database.FindUserByEmail | library-go/main.go:118-125 | the loop returns the first index whose email matches ignoring case, or -1 |
| Library.Database.FindUserByID | library-go/main.go:127-134 | the loop returns the first index with the user id, or -1 |
| Library.Database.FindBookByID | library-go/main.go:136-143 | the loop returns the first index with the book id, or -1 |
| Library.Database.FindLoanByID | library-go/main.go:145-152 | the loop returns the first index with the loan id, or -1 |
| Library.Database.AnyAdminExists | library-go/main.go:154-161 | true exactly when some user has role admin |
| Library.Database.Register | library-go/main.go:232-269 | answer and new tables are those of Ledger.Register |
| Library.Database.CreateBook | library-go/main.go:362-388 | answer and new tables are those of Ledger.CreateBook, the code scan included |
| Library.Database.UpdateBook | library-go/main.go:395-443 | answer and new tables are those of Ledger.UpdateBook, with the record edited field by field |
| Library.Database.DeleteBook | library-go/main.go:450-472 | answer and new tables are those of Ledger.DeleteBook, the loan scan and the splice included |
| Library.Database.Borrow | library-go/main.go:488-528 | answer and new tables are those of Ledger.Borrow |
| Library.Database.Return | library-go/main.go:546-562 | answer and new tables are those of Ledger.Return |
| Library.Database.MarkLost | library-go/main.go:582-610 | answer and new tables are those of Ledger.MarkLost |
| Library.Database.ListUsers | library-go/main.go:326-339 | the filtering loop builds exactly the role-filtered listing of the normalised role query |
| Library.Database.JoinOne | library-go/main.go:632-645 | one joined row, as Tables.JoinLoan gives it |
| Library.Database.ListLoans | library-go/main.go:630-646 | the loop builds exactly Ledger.ListLoans |
| Library.Database.MyLoans | library-go/main.go:651-675 | the answer is exactly Ledger.MyLoans: the refusals, or the caller's loans built in loan order |
| Properties.SameBookKeysLookups | library-go/main.go:136-143 | changing anything but ids and codes moves no book lookup and keeps codes distinct |
| Properties.SameLoanIdsLookups | library-go/main.go:145-152 | changing anything but ids moves no loan lookup and keeps the loan numbering |
| Properties.UserIdsSequentialDistinct | library-go/main.go:261 | under the append-only numbering, two users with the same id are the same user |
| Properties.LoanIdsSequentialDistinct | library-go/main.go:518-519 | under the append-only numbering, two loans with the same id are the same loan |
| Properties.LoanIdsLocate | library-go/main.go:518-519 | under the append-only numbering, the lookup of "L<n>" finds the n-th loan |
| Properties.AppendUserKeepsEmailsDistinct | library-go/main.go:245-269 | appending a user whose email is not taken keeps emails distinct ignoring case |
| Properties.AppendUserKeepsIdsSequential | library-go/main.go:261-269 | appending "U<len+1>" keeps the user numbering |
| Properties.RegisterKeepsConsistent | library-go/main.go:232-269 | Register keeps every table invariant |
| Properties.AppendBookKeepsBooks | library-go/main.go:371-388 | appending a book with a new code and non-negative counts keeps the book invariants |
| Properties.ReplaceBookKeepsBooks | library-go/main.go:429-443 | replacing a book by one with the same id and code and non-negative counts keeps the book invariants |
| Properties.AppendLoanKeepsIdsSequential | library-go/main.go:518-528 | appending "L<len+1>" keeps the loan numbering |
| Properties.AppendLoanKeepsLoans | library-go/main.go:518-528 | appending the next-numbered loan with a known status keeps the loan invariants |
| Properties.ReplaceLoanKeepsLoans | library-go/main.go:556-557 | rewriting a loan in place, keeping its id, with a known status keeps the loan invariants |
| Properties.CreateBookKeepsConsistent | library-go/main.go:362-388 | CreateBook keeps every table invariant |
| Properties.UpdateBookKeepsConsistent | library-go/main.go:395-443 | UpdateBook keeps every table invariant, no count going negative included |
| Properties.RemoveBookKeepsBooks | library-go/main.go:472 | splicing a book out keeps the book invariants |
| Properties.DeleteBookKeepsConsistent | library-go/main.go:450-472 | DeleteBook keeps every table invariant |
| Properties.BorrowKeepsConsistent | library-go/main.go:488-528 | Borrow keeps every table invariant |
| Properties.ReturnKeepsConsistent | library-go/main.go:546-562 | Return keeps every table invariant |
| Properties.MarkLostKeepsConsistent | library-go/main.go:582-610 | MarkLost keeps every table invariant |
| Properties.ApplyKeepsConsistent | library-go/main.go:232-610 | every state-changing request keeps the invariants, whatever it answers |
| Properties.RunKeepsConsistent | library-go/main.go:232-610 | every sequence of requests keeps the invariants |
| Properties.EmptyIsConsistent | library-go/main.go:88-95 | the empty data set, used when there is no saved file, meets the invariants |
| Properties.AdminGate | library-go/main.go:250-256 | once an admin exists, a valid admin registration succeeds exactly when the caller is an admin, and is otherwise refused with nothing changed |
| Properties.FirstAdminOpen | library-go/main.go:250-269 | with no admin yet, any valid registration with a fresh email succeeds with the requested normalised role |
| Properties.ReplaceBookKeepsStockBounded | library-go/main.go:429-433 | replacing a book by one within 0..total keeps the stock bound |
| Properties.UpdateBookKeepsStockBounded | library-go/main.go:422-434 | if 0 <= available <= total held before an update, it holds after |
| Properties.DeleteBookKeepsStockBounded | library-go/main.go:472 | deleting a book keeps the stock bound |
| Properties.BorrowKeepsStockBounded | library-go/main.go:506-516 | borrowing keeps the stock bound |
| Properties.MarkLostKeepsStockBounded | library-go/main.go:604-609 | marking lost keeps the stock bound |
| Properties.ApplyKeepsStockBounded | library-go/main.go:232-610 | every request except return keeps the stock bound |
| Properties.ReturnCanOverfillShelf | library-go/main.go:559-562 | a concrete update-then-return sequence that leaves more copies on the shelf than in total |
| Properties.LoansEvolveTransitive | library-go/main.go:551-557 | the loan-table evolution relation composes |
| Properties.ApplyEvolvesLoans | library-go/main.go:528-602 | one request appends at most one loan and moves each existing loan at most one step, borrowed to returned or lost |
| Properties.RunEvolvesLoans | library-go/main.go:528-602 | over any request sequence no loan is removed, and a returned or lost loan never changes again |
| Properties.SecondCloseRefused | library-go/main.go:551-553 | once a loan is returned or lost, both return and mark-lost refuse it with "not active" and change nothing |
| Properties.ReturnFound | library-go/main.go:546-562 | Return of an open loan at a known index, in closed form |
| Properties.ReturnOfNewestLoan | library-go/main.go:546-562 | returning the newest loan gives back the copy it took, leaving the loan on record as returned |
| Properties.BorrowThenReturn | library-go/main.go:488-562 | borrow followed by the return of that loan restores the catalogue and users exactly; only the returned loan is added |
| Properties.MarkLostNeverRestocks | library-go/main.go:604-609 | marking lost never raises any available count and lowers a total by at most one |
| Properties.JoinSeesNewTitle | library-go/main.go:632-643 | after a title update, the loan list shows the new title at once |
| Scenarios.ScenarioCreate | library-go/main.go:362-388 | creating book B1 with two copies on a ledger of three readers |
| Scenarios.ScenarioBorrowFirst | library-go/main.go:488-528 | the first reader borrows: one copy left, loan L1 borrowed |
| Scenarios.ScenarioBorrowSecond | library-go/main.go:488-528 | the second reader borrows: no copy left, loan L2 borrowed |
| Scenarios.ScenarioBorrowThird | library-go/main.go:506-509 | the third reader is refused OutOfStock and nothing changes |
| Scenarios.ScenarioReturn | library-go/main.go:546-562 | L1 is returned and one copy is back |
| Scenarios.ScenarioLost | library-go/main.go:582-610 | L2 is lost with no fine given: the fine is the price and the total drops to one |
| Scenarios.CatalogueScenario | library-go/main.go:362-610 | the whole two-copies, three-readers sequence, request by request |
| Scenarios.RegisterOnEmpty | library-go/main.go:232-269 | on an empty ledger any registration with its fields present becomes user U1 |
| Scenarios.BootstrapFirstAdmin | library-go/main.go:232-269 | " A@x " registering as "Admin" unauthenticated becomes admin U1 with email "a@x" |
| Scenarios.BootstrapSecondAdmin | library-go/main.go:250-256 | a second admin registration succeeds only for an admin caller |
| Scenarios.BootstrapAdminScenario | library-go/main.go:232-269 | the two registrations in sequence |
| Scenarios.IdsCreateTwo | library-go/main.go:378-388 | two creations number the books B1 and B2 |
| Scenarios.IdsDeleteFirst | library-go/main.go:459-472 | deleting B1 leaves only the second book |
| Scenarios.IdsCreateAfterDelete | library-go/main.go:378-388 | the next creation is numbered from the shortened table |
| Scenarios.BookIdRepeatsAfterDelete | library-go/main.go:379 | create, create, delete the first, create: two books are called "B2" |

## Left out

- HTTP and JSON plumbing are not modelled. This covers request decoding, the "Bad JSON" answers, response encoding, method checks, routing and the `requireAuth`/`requireAdmin` wrappers (`library-go/main.go:71-86`, `185-209`, `679-796`). It is I/O and dispatch; refusals are modelled as `Error` values, with `HttpStatus` giving their codes.
- `loadDB`/`saveDB` file persistence is not modelled; the constructor takes the loaded snapshot instead. Saves whose errors are swallowed do not affect the tables.
- Login, bcrypt hashing and comparison, `genToken`'s random tokens and the token map are not modelled, because they are cryptography and foreign calls. `authUser` becomes the `Option<User>` caller parameter, and the password hash an opaque string.
- `apiMeta`, `apiMe` and `apiGetBooks` are not modelled: they only read the tables or answer constants. `apiLogin` is not modelled either: besides reading the users it changes only the token map, which is left out with the credentials.
- The mutex is left out; each request is atomic. When the normalised role is admin, every field is present, the email is free and an admin already exists (library-go/main.go:237-248), `apiRegister` calls `authUser` while holding the lock, and `authUser` locks it again whenever a bearer token is sent. That deadlock is outside a sequential model, and the admin check is modelled as written.
- Text.ToLower: lower-cases ASCII letters only, where Go folds all of Unicode; EqualFold inherits this. Invalid UTF-8 is not modelled.
- Text.EqualFold: folds ASCII letters only; Go's simple Unicode case folding (for example U+212A KELVIN SIGN equal to 'k') is not modelled.
- Text.IsSpace follows the Unicode White_Space set that Go's unicode.IsSpace accepts; no normalisation is modelled.
- Prices and fines are `float64` in the source; here they are `int` (`Money`), because they are only copied, never computed with.
- Quantities and counters are unbounded integers; 64-bit overflow of `int` is not modelled.
- The clock is left out: `nowDate()` and the default due date a week ahead are parameters.
- Tables.JoinLoan: its own contract states only that the row carries the loan; what the reader and book fields hold is stated by Tables.JoinLoanMatches.
- The other files of the repository (browser scripts, the static-catalogue service and type declarations) are not part of this model.
