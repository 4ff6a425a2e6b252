# Library borrowing engine — a Dafny model

This project models the borrowing, return and fine engine of a library-management
web application, together with its authentication reducer, and proves properties of
the model with Dafny.

The application keeps four lists and the signed-in user in one in-memory store
(`src/store/useLibraryStore.ts`): books, users, transactions, feedback and `currentUser`.
The engine modelled here works on the first three lists. A user borrows a copy of a book, alone ("Individual",
30-day term) or for a group of 3 to 6 people ("Group", 180-day term). The borrower may
hold only one active borrowing at a time. On return the store computes a fine. Any
return after the due date counts as a missing book: the fine is 200 % of the price plus
50 rupees per started day late. A damage surcharge of 10 % (small) or 50 % (large) of
the price is added, and the total is rounded. The borrower then loses a tenth of the
fine, rounded down, in points, never going below zero.

Every store operation is a pure function from the store (plus a clock reading `now`
and, where the store would draw one at random, a fresh id) to a new store and a reply:

| module | file | models |
|---|---|---|
| `Wrappers` | `wrappers.dfy` | `Option`, for absent fields and failed lookups |
| `Seqs` | `seqs.dfy` | `find` (first match), `filter`, counting |
| `LibraryTypes` | `library_types.dfy` | users, books, transactions, the store, lookups by id, the seeded store |
| `Fines` | `fines.dfy` | `calculateDaysDifference`, `calculateFine` |
| `Catalog` | `catalog.dfy` | `addBook`, `updateBook`, `deleteBook`, `register`/`addUser` |
| `Borrowing` | `borrowing.dfy` | `borrowBook`, `returnBook` |
| `Queries` | `queries.dfy` | the four transaction getters |
| `Traces` | `traces.dfy` | sequences of operations and the invariants they keep |
| `Auth` | `auth.dfy` | `AuthReducer` and the provider's starting state |

Representation choices:

- Timestamps are integers, in milliseconds. A day is 86 400 000 ms. The due date is
  `now + 30` or `now + 180` days of exactly that length.
- Prices, fines and points are integers. The fine is computed exactly in tenths of a
  rupee: 10 % of a whole-rupee price is `price` tenths. `Math.round` of `n` tenths is
  `(n + 5) / 10` with floor division, which is exact for every integer `n`, negative
  ones included.
- `Math.floor(fine / 10)` is Dafny's `fine / 10`. For a positive divisor it is floor
  division too.
- `find` returns the first entry with an id. `map` over ids changes every entry with
  that id. The model keeps both behaviours, so it stays faithful even when ids repeat.
  The invariants then say which traces keep ids unique.

The model follows what the code does, including these behaviours:

- `returnBook` does not check that the transaction is still active. A second return
  succeeds and lends the book's count another copy back (`Borrowing.RepeatedReturn`).
  The second fine uses the first return's recorded date, while the status uses the
  second clock reading.
- `addBook` takes the total from the caller and validates nothing. `register` and
  `addUser` validate nothing either. Apart from `borrowBook`'s group-size check, no
  operation validates its input.
- A decrement that would make a count negative is not refused. A borrow checks only
  the first book with the id, then decrements every book with it.
- The status `Overdue` exists in the record type but is never set.
- Only the borrower's id is checked for an active borrowing. Listed group members are
  not checked.
- Points follow the store's rule only: minus a tenth of the fine.

## Model

| member | source | states |
|---|---|---|
| Fines.DaysDifference | src/store/useLibraryStore.ts:127-132 | the result is the least whole number of days covering the gap between the two instants, in either order |
| Fines.RoundTenths | src/store/useLibraryStore.ts:396 | rounding a tenths amount gives the nearest whole rupee, halves rounded up |
| Fines.DamageSurcharge | src/store/useLibraryStore.ts:389-394 | no surcharge for an intact book, `round(price/10)` for small damage, `round(price/2)` for large |
| Fines.FineFor | src/store/useLibraryStore.ts:374-396 | on or before the due date the fine is only the damage surcharge, so 0 when undamaged; after it the fine is `2·price + 50·days late + surcharge`, at least `2·price + 50` for a non-negative price; never negative for a non-negative price |
| Fines.CalculateFine | src/store/useLibraryStore.ts:363-397 | 0 when no book has the transaction's book id; otherwise the fine for the first such book's price, the due date and the recorded return date or `now`; non-negative when all prices are |
| Fines.FineMonotoneInTime | src/store/useLibraryStore.ts:376-387 | a later return never costs less, for a fixed non-negative price |
| Fines.FineMonotoneInDamage | src/store/useLibraryStore.ts:389-394 | worse damage (intact < small < large) never costs less, for a fixed non-negative price |
| Fines.FineExamples | src/store/useLibraryStore.ts:374-396 | a 500-rupee book due on day 30 costs 1050 returned undamaged on day 31, 0 on day 30, and 250 on day 10 with large damage |
| Catalog.AddBook | src/store/useLibraryStore.ts:215-224 | one book is appended, with the given id and fields and available copies equal to its total; users and transactions are untouched |
| Catalog.DeleteBook | src/store/useLibraryStore.ts:234-238 | afterwards no book has the id; every other book keeps its multiplicity and its order (cutting the old list at any position cuts the new one at the same book); users and transactions are untouched |
| Catalog.ApplyPatch | src/store/useLibraryStore.ts:229 | each field of the patch that is given replaces the book's field; an empty patch changes nothing |
| Catalog.UpdateBook | src/store/useLibraryStore.ts:226-232 | every book with the id is patched, every other book is left as it was, and the order and length are kept |
| Catalog.Register | src/store/useLibraryStore.ts:203-212 | one user is appended, with the given id and profile and 100 points; books and transactions are untouched |
| Catalog.AddThenDeleteBook | src/store/useLibraryStore.ts:215-238 | deleting a book just added under a fresh id restores the store exactly |
| Catalog.UpdateBookIdempotent | src/store/useLibraryStore.ts:226-232 | applying the same update twice equals applying it once |
| Catalog.RegisterThenFind | src/store/useLibraryStore.ts:203-212 | after registering a fresh id, looking it up finds the new user with 100 points |
| Borrowing.BorrowBook | src/store/useLibraryStore.ts:241-312 | refusals in order (book or user missing, no copy available, group not 2–5 extra members, borrower already active), each if and only if its condition holds after the earlier ones pass, each leaving the store unchanged; on success one Active transaction is appended with fine 0, dates `now`, due `now` + 30 or 180 days and group list `[borrower] ++ members` for groups only, users are unchanged and only that book's count drops by one |
| Borrowing.PenalizeUsers | src/store/useLibraryStore.ts:349-353 | the borrower's points become `points − floor(fine/10)` or 0, never negative; other users and fields are unchanged |
| Borrowing.AdjustCopies | src/store/useLibraryStore.ts:304-308 | every book with the id has its available count moved by the given amount (−1 on borrow, +1 on return at lines 344-348); every other book and every other field is unchanged, and length and order are kept |
| Borrowing.CloseTransactions | src/store/useLibraryStore.ts:332-343 | every transaction with the id gets return date `now`, the given status, fine and damage, and `updatedAt = now`, keeping its other fields; every other transaction is unchanged |
| Borrowing.ReturnBook | src/store/useLibraryStore.ts:314-361 | an unknown id fails with fine 0 and changes nothing; otherwise the fine is the calculated one, every transaction with the id is closed with return date `now`, Missing if and only if `now` is past the due date, the book gains a copy and the borrower is penalised |
| Borrowing.BorrowEligibility | src/store/useLibraryStore.ts:241-274 | with unique book ids, a borrow succeeds if and only if the book exists with a copy, the borrower exists, the group size is valid and the borrower has no active transaction |
| Borrowing.BorrowKeepsSingleActive | src/store/useLibraryStore.ts:264-274 | a borrow never gives a borrower id a second active transaction |
| Borrowing.ReturnKeepsSingleActive | src/store/useLibraryStore.ts:331-343 | a return only closes transactions, so it keeps at most one active transaction per borrower |
| Borrowing.BorrowKeepsCopiesNonNegative | src/store/useLibraryStore.ts:250-309 | with unique book ids, a borrow never drives a count below zero |
| Borrowing.ReturnAppended | src/store/useLibraryStore.ts:316-343 | returning a transaction appended under a fresh id succeeds, prices that transaction, gives its book a copy back, records its status from the return time, and leaves every earlier transaction as it was |
| Borrowing.BorrowThenReturn | src/store/useLibraryStore.ts:276-361 | borrowing under a fresh id and returning it restores every book's count and earlier transactions; the fine is the one for the book's price, the due date and the return time; the status is Missing if and only if the return is late |
| Borrowing.BorrowThenReturnFine | src/store/useLibraryStore.ts:326-396 | returned on the due date, an undamaged loan costs 0 and is Returned; any later it is Missing and costs at least twice the price plus 50 |
| Borrowing.RepeatedReturn | src/store/useLibraryStore.ts:314-372 | returning the same transaction twice succeeds, adds two copies, prices the second fine at the first return's date, and sets the status by the second clock reading |
| Queries.ActiveTransactions | src/store/useLibraryStore.ts:438-440 | exactly the Active transactions, each with its multiplicity, in the list's order (cutting the list at any position cuts the result at the same place) |
| Queries.OverdueTransactions | src/store/useLibraryStore.ts:442-447 | exactly the Active transactions due strictly before `now`, each with its multiplicity, in the list's order |
| Queries.UserTransactions | src/store/useLibraryStore.ts:449-451 | exactly the transactions whose borrower is the user, each with its multiplicity, in the list's order |
| Queries.BookTransactions | src/store/useLibraryStore.ts:453-455 | exactly the transactions of the book, each with its multiplicity, in the list's order |
| Queries.AppendedComesLast | src/store/useLibraryStore.ts:438-455 | an Active transaction appended to the list comes last in the active view, its borrower's history and its book's history, after the earlier entries in their order |
| Queries.BorrowedComesLast | src/store/useLibraryStore.ts:302-303 | after a successful borrow the new transaction is the last entry of the active view, the borrower's history and the book's history, which otherwise keep their earlier entries |
| Queries.OverdueAreActive | src/store/useLibraryStore.ts:438-447 | every overdue transaction is among the active ones |
| Queries.OverdueGrowsWithTime | src/store/useLibraryStore.ts:442-447 | a transaction overdue at one instant is overdue at every later one |
| Traces.SingleActiveAlways | src/store/useLibraryStore.ts:264-274 | after any sequence of store operations, no borrower id holds two active transactions |
| Traces.CopiesSafeAlways | src/store/useLibraryStore.ts:215-361 | along traces that add books under fresh ids with non-negative totals and never rename a book or set a negative count, counts stay non-negative, repeated returns included |
| Traces.CopiesBoundedAlways | src/store/useLibraryStore.ts:215-361 | along traces that also use fresh transaction ids, leave counts to borrowing and return only active transactions, available copies plus active loans equal the total, so `0 ≤ available ≤ total` |
| Traces.InitialStoreInvariants | src/store/useLibraryStore.ts:139-185 | the seeded store satisfies all three invariants |
| Auth.Reduce | src/Context/AuthReducer.ts:5-33 | each declared action yields its fixed state (login start: fetching; success: the payload user; failure: error; logout: cleared), any other action keeps the state, and error or fetching is set only by failure or start |
| Auth.KnownActionForgetsState | src/Context/AuthReducer.ts:6-30 | for a declared action the result does not depend on the prior state |
| Auth.DispatchIsLastKnown | src/Context/AuthReducer.ts:5-33 | dispatching a sequence of actions equals applying only its last declared action, or nothing if none is declared |
| Auth.FlagsFollowLastAction | src/Context/AuthReducer.ts:5-33 | from the starting state, error is set if and only if the last declared action was a failure, fetching if and only if it was a start, and a user is present only after a success or with no declared action |

## Left out

- `generateId`: ids come from `Math.random`. Fresh ids are parameters, and the invariants demand freshness where they need it.
- Clock and calendar: `new Date()`, ISO-8601 strings and `setDate` are replaced by an integer `now` and fixed-length days. Daylight-saving shifts are not modelled.
- Clock readings within one call: `borrowBook` reads the clock once for the start date and once more for the due date, and `returnBook` reads it once inside `calculateFine` and once for the return date. The readings differ by at most the running time of the call. The model uses a single `now` per call.
- Floating point: prices are whole rupees and all arithmetic is exact. Fractional prices are not modelled.
- `addUser` (src/store/useLibraryStore.ts:408-417) is the same transition as `register` and is modelled once, by `Catalog.Register`.
- `login`, `logout` and `currentUser`: an asynchronous email lookup that ignores the password, and a field reset. They are session glue.
- `updateUser`, `addFeedback` and `deleteFeedback`: plain edits of records that take no part in borrowing.
- The zustand store wrapper, its persistence, and the localStorage handling of the authentication provider: runtime plumbing. The stored user is a parameter of `Auth.Initial`.
- Return messages: the message with the fine printed in it is not modelled. `returnBook` is reduced to success, fine and new store. The borrow messages are `Borrowing.ErrorMessage`.
- Catalog.UpdateBook: a patch field explicitly set to `undefined` (which erases the field in JavaScript) is treated like an absent field.
- Auth.Reduce: the failure action's payload is never read and is not carried.
