/** The transaction engine of the store: `borrowBook` and `returnBook`.
    `now` and the id of a new transaction are parameters. */
module Borrowing {
  import opened Wrappers
  import opened Seqs
  import opened LibraryTypes
  import opened Fines

  /** Why `borrowBook` refused, in the order the checks run. */
  datatype BorrowError = NotFound | NoCopies | GroupSize | AlreadyActive

  function ErrorMessage(e: BorrowError): string {
    match e
    case NotFound => "Book or User not found"
    case NoCopies => "No copies available"
    case GroupSize => "Group must have 3-6 members (including borrower)"
    case AlreadyActive => "User already has an active borrowing"
  }

  /** The store after the call and, on refusal, the reason. */
  datatype BorrowReply = BorrowReply(store: Store, error: Option<BorrowError>)

  /** The store after the call, whether the transaction was found, and the fine. */
  datatype ReturnReply = ReturnReply(store: Store, success: bool, fine: int)

  /** Loan term in days: 30 for an individual, 180 for a group. */
  function LoanDays(kind: BorrowingType): nat {
    match kind
    case Individual => 30
    case Group => 180
  }

  /** A group names between 2 and 5 members besides the borrower. */
  predicate GroupSizeOk(kind: BorrowingType, groupMembers: seq<Id>) {
    kind == Individual || 2 <= |groupMembers| <= 5
  }

  /** The borrower's active transactions, as `borrowBook` collects them. */
  function ActiveBorrowings(txs: seq<Transaction>, borrowerId: Id): seq<Transaction> {
    Filter(txs, (t: Transaction) => t.borrowerId == borrowerId && t.status == Active)
  }

  predicate HasActive(txs: seq<Transaction>, borrowerId: Id) {
    exists i :: 0 <= i < |txs| && txs[i].borrowerId == borrowerId && txs[i].status == Active
  }

  /** At most one active transaction per borrower id. */
  predicate SingleActive(txs: seq<Transaction>) {
    forall i, j :: 0 <= i < j < |txs| && txs[i].borrowerId == txs[j].borrowerId ==>
      !(txs[i].status == Active && txs[j].status == Active)
  }

  /** Adds `delta` to the available copies of every book with this id. */
  function AdjustCopies(books: seq<Book>, id: Id, delta: int): (r: seq<Book>)
    ensures |r| == |books|
    ensures forall i :: 0 <= i < |books| ==>
      r[i] == books[i].(availableCopies := books[i].availableCopies + (if books[i].id == id then delta else 0))
  {
    seq(|books|, i requires 0 <= i < |books| =>
      if books[i].id == id then books[i].(availableCopies := books[i].availableCopies + delta) else books[i])
  }

  /** Whether every book can still lend a copy it counts as available. */
  predicate CopiesNonNegative(books: seq<Book>) {
    forall i :: 0 <= i < |books| ==> books[i].availableCopies >= 0
  }

  /** `borrowBook`. The checks run in this order: book and borrower exist,
      a copy is available, a group has a valid size, the borrower has no
      active borrowing. Only then is a transaction appended and the book's
      available copies decremented. */
  function BorrowBook(s: Store, now: Time, txId: Id, bookId: Id, borrowerId: Id,
                      kind: BorrowingType, groupMembers: seq<Id>): (r: BorrowReply)
    ensures r.error.Some? ==> r.store == s
    ensures r.error == Some(NotFound) <==> !HasBook(s.books, bookId) || !HasUser(s.users, borrowerId)
    ensures r.error == Some(NoCopies) <==>
      HasBook(s.books, bookId) && HasUser(s.users, borrowerId)
      && FirstBook(s.books, bookId).availableCopies < 1
    ensures r.error == Some(GroupSize) <==>
      HasBook(s.books, bookId) && HasUser(s.users, borrowerId)
      && FirstBook(s.books, bookId).availableCopies >= 1
      && !GroupSizeOk(kind, groupMembers)
    ensures r.error == Some(AlreadyActive) <==>
      HasBook(s.books, bookId) && HasUser(s.users, borrowerId)
      && FirstBook(s.books, bookId).availableCopies >= 1
      && GroupSizeOk(kind, groupMembers)
      && HasActive(s.transactions, borrowerId)
    ensures r.error.None? ==>
      && HasBook(s.books, bookId) && HasUser(s.users, borrowerId)
      && r.store.users == s.users
      && r.store.books == AdjustCopies(s.books, bookId, -1)
      && |r.store.transactions| == |s.transactions| + 1
      && r.store.transactions[..|s.transactions|] == s.transactions
      && var t := r.store.transactions[|s.transactions|];
      && t.id == txId && t.bookId == bookId && t.borrowerId == borrowerId
      && t.bookName == FirstBook(s.books, bookId).title
      && t.borrowerName == FirstUser(s.users, borrowerId).profile.fullName
      && t.borrowingType == kind
      && t.groupMembers == (if kind == Group then Some([borrowerId] + groupMembers) else None)
      && t.status == Active && t.fine == 0
      && t.fromDate == now && t.createdAt == now && t.updatedAt == now
      && t.dueDate == now + LoanDays(kind) * DayMs
      && t.returnDate.None? && t.damageType.None?
  {
    match (FindBook(s.books, bookId), FindUser(s.users, borrowerId))
    case (Some(bi), Some(ui)) =>
      var book := s.books[bi];
      var user := s.users[ui];
      if book.availableCopies < 1 then BorrowReply(s, Some(NoCopies))
      else if kind == Group && (|groupMembers| < 2 || |groupMembers| > 5) then
        BorrowReply(s, Some(GroupSize))
      else if |ActiveBorrowings(s.transactions, borrowerId)| > 0 then
        assert ActiveBorrowings(s.transactions, borrowerId)[0] in ActiveBorrowings(s.transactions, borrowerId);
        BorrowReply(s, Some(AlreadyActive))
      else
        assert forall i :: 0 <= i < |s.transactions| ==> s.transactions[i] in s.transactions;
        var t := Transaction(txId, bookId, book.title, borrowerId, user.profile.fullName, kind,
          if kind == Group then Some([borrowerId] + groupMembers) else None,
          now, now + LoanDays(kind) * DayMs, None, Active, 0, None, now, now);
        BorrowReply(Store(s.users, AdjustCopies(s.books, bookId, -1), s.transactions + [t]), None)
    case _ => BorrowReply(s, Some(NotFound))
  }

  /** The transaction `transactions.find` returns for this id. */
  function FirstTransaction(txs: seq<Transaction>, id: Id): (t: Transaction)
    requires HasTransaction(txs, id)
    ensures t in txs && t.id == id
    ensures exists k :: 0 <= k < |txs| && txs[k] == t && forall j :: 0 <= j < k ==> txs[j].id != id
  {
    txs[FindTransaction(txs, id).value]
  }

  /** Status a return at `now` records for a transaction due at `due`. */
  function ReturnStatus(now: Time, due: Time): Status {
    if now > due then Missing else Returned
  }

  /** Deducts a tenth of the fine, rounded down, from every user with this id,
      never going below zero. */
  function PenalizeUsers(users: seq<User>, id: Id, fine: int): (r: seq<User>)
    ensures |r| == |users|
    ensures forall i :: 0 <= i < |users| && users[i].id != id ==> r[i] == users[i]
    ensures forall i :: 0 <= i < |users| && users[i].id == id ==>
      && r[i] == users[i].(points := r[i].points)
      && r[i].points >= 0
      && (r[i].points == 0 || r[i].points == users[i].points - fine / 10)
      && r[i].points >= users[i].points - fine / 10
  {
    seq(|users|, i requires 0 <= i < |users| =>
      if users[i].id == id then
        var p := users[i].points - fine / 10;
        users[i].(points := if p > 0 then p else 0)
      else users[i])
  }

  /** Records the return on every transaction with this id. */
  function CloseTransactions(txs: seq<Transaction>, id: Id, now: Time, status: Status,
                             fine: int, damage: Damage): (r: seq<Transaction>)
    ensures |r| == |txs|
    ensures forall i :: 0 <= i < |txs| && txs[i].id != id ==> r[i] == txs[i]
    ensures forall i :: 0 <= i < |txs| && txs[i].id == id ==>
      r[i] == txs[i].(returnDate := Some(now), status := status, fine := fine,
                      damageType := Some(damage), updatedAt := now)
  {
    seq(|txs|, i requires 0 <= i < |txs| =>
      if txs[i].id == id then
        txs[i].(returnDate := Some(now), status := status, fine := fine,
                damageType := Some(damage), updatedAt := now)
      else txs[i])
  }

  /** `returnBook`. An unknown id changes nothing. Otherwise the fine is
      computed, the transaction is closed as Missing when `now` is past its due
      date and as Returned otherwise, the book gains a copy, and the borrower
      loses a tenth of the fine in points, floored at zero. Whether the
      transaction was still active is not checked. */
  function ReturnBook(s: Store, now: Time, txId: Id, damage: Damage): (r: ReturnReply)
    ensures r.success <==> HasTransaction(s.transactions, txId)
    ensures !r.success ==> r.store == s && r.fine == 0
    ensures r.success ==>
      var t := FirstTransaction(s.transactions, txId);
      && r.fine == CalculateFine(s.books, t, damage, now)
      && r.store.books == AdjustCopies(s.books, t.bookId, 1)
      && r.store.users == PenalizeUsers(s.users, t.borrowerId, r.fine)
      && r.store.transactions ==
           CloseTransactions(s.transactions, txId, now, ReturnStatus(now, t.dueDate), r.fine, damage)
    ensures r.success ==>
      forall i :: 0 <= i < |r.store.transactions| && r.store.transactions[i].id == txId ==>
        && r.store.transactions[i].status != Active
        && (r.store.transactions[i].status == Missing <==> now > FirstTransaction(s.transactions, txId).dueDate)
        && r.store.transactions[i].returnDate == Some(now)
  {
    match FindTransaction(s.transactions, txId)
    case None => ReturnReply(s, false, 0)
    case Some(k) =>
      var t := s.transactions[k];
      var fine := CalculateFine(s.books, t, damage, now);
      var status := ReturnStatus(now, t.dueDate);
      ReturnReply(
        Store(PenalizeUsers(s.users, t.borrowerId, fine),
              AdjustCopies(s.books, t.bookId, 1),
              CloseTransactions(s.transactions, txId, now, status, fine, damage)),
        true, fine)
  }

  // ------------------------------------------------------------------ lemmas

  /** Adjusting copies leaves every id where it was, so lookups by id find the
      same position. */
  lemma AdjustCopiesKeepsLookup(books: seq<Book>, id: Id, delta: int, x: Id)
    ensures FindBook(AdjustCopies(books, id, delta), x) == FindBook(books, x)
    ensures HasBook(AdjustCopies(books, id, delta), x) == HasBook(books, x)
  {
    var r := AdjustCopies(books, id, delta);
    FirstIndexAgrees(r, (b: Book) => b.id == x, books, (b: Book) => b.id == x);
    if HasBook(books, x) {
      var i :| 0 <= i < |books| && books[i].id == x;
      assert r[i].id == x;
    }
  }

  /** Returning a copy undoes lending it. */
  lemma AdjustCopiesCancel(books: seq<Book>, id: Id)
    ensures AdjustCopies(AdjustCopies(books, id, -1), id, 1) == books
  {
  }

  /** Two copies returned one after the other. */
  lemma AdjustCopiesTwice(books: seq<Book>, id: Id)
    ensures AdjustCopies(AdjustCopies(books, id, 1), id, 1) == AdjustCopies(books, id, 2)
  {
  }

  /** When book ids are unique, `borrowBook` succeeds exactly when the book
      exists with a copy to lend, the borrower exists, a group has 2 to 5
      extra members, and the borrower has no active borrowing. */
  lemma BorrowEligibility(s: Store, now: Time, txId: Id, bookId: Id, borrowerId: Id,
                          kind: BorrowingType, groupMembers: seq<Id>)
    requires UniqueBookIds(s.books)
    ensures BorrowBook(s, now, txId, bookId, borrowerId, kind, groupMembers).error.None? <==>
      && (exists i :: 0 <= i < |s.books| && s.books[i].id == bookId && s.books[i].availableCopies >= 1)
      && HasUser(s.users, borrowerId)
      && GroupSizeOk(kind, groupMembers)
      && !HasActive(s.transactions, borrowerId)
  {
    if exists i :: 0 <= i < |s.books| && s.books[i].id == bookId && s.books[i].availableCopies >= 1 {
      var i :| 0 <= i < |s.books| && s.books[i].id == bookId && s.books[i].availableCopies >= 1;
      FirstBookIsUnique(s.books, i);
    }
  }

  /** A borrow, successful or not, never gives a borrower id a second active
      transaction. Group members are not borrowers here: only `borrowerId` is
      checked. */
  lemma BorrowKeepsSingleActive(s: Store, now: Time, txId: Id, bookId: Id, borrowerId: Id,
                                kind: BorrowingType, groupMembers: seq<Id>)
    requires SingleActive(s.transactions)
    ensures SingleActive(BorrowBook(s, now, txId, bookId, borrowerId, kind, groupMembers).store.transactions)
  {
    var r := BorrowBook(s, now, txId, bookId, borrowerId, kind, groupMembers);
    if r.error.None? {
      var txs := r.store.transactions;
      var n := |s.transactions|;
      forall i, j | 0 <= i < j < |txs| && txs[i].borrowerId == txs[j].borrowerId
        ensures !(txs[i].status == Active && txs[j].status == Active)
      {
        if j == n {
          assert txs[i] == s.transactions[i];
        } else {
          assert txs[i] == s.transactions[i] && txs[j] == s.transactions[j];
        }
      }
    }
  }

  /** A return only ever closes transactions, so it keeps the one-active rule. */
  lemma ReturnKeepsSingleActive(s: Store, now: Time, txId: Id, damage: Damage)
    requires SingleActive(s.transactions)
    ensures SingleActive(ReturnBook(s, now, txId, damage).store.transactions)
  {
    var r := ReturnBook(s, now, txId, damage);
    if r.success {
      var txs := r.store.transactions;
      forall i, j | 0 <= i < j < |txs| && txs[i].borrowerId == txs[j].borrowerId
        ensures !(txs[i].status == Active && txs[j].status == Active)
      {
      }
    }
  }

  /** With unique book ids, a borrow never drives a count below zero. */
  lemma BorrowKeepsCopiesNonNegative(s: Store, now: Time, txId: Id, bookId: Id, borrowerId: Id,
                                     kind: BorrowingType, groupMembers: seq<Id>)
    requires UniqueBookIds(s.books) && CopiesNonNegative(s.books)
    ensures CopiesNonNegative(BorrowBook(s, now, txId, bookId, borrowerId, kind, groupMembers).store.books)
  {
    var r := BorrowBook(s, now, txId, bookId, borrowerId, kind, groupMembers);
    if r.error.None? {
      forall i | 0 <= i < |s.books| && s.books[i].id == bookId
        ensures s.books[i].availableCopies >= 1
      {
        FirstBookIsUnique(s.books, i);
      }
    }
  }

  /** A transaction appended under a fresh id is the one `find` returns. */
  lemma FreshTransactionFound(txs: seq<Transaction>, t: Transaction)
    requires !HasTransaction(txs, t.id)
    ensures FindTransaction(txs + [t], t.id) == Some(|txs|)
  {
    assert (txs + [t])[|txs|].id == t.id;
  }

  /** ... and so it is the transaction a return of that id closes. */
  lemma FreshTransactionFirst(txs: seq<Transaction>, t: Transaction)
    requires !HasTransaction(txs, t.id)
    ensures HasTransaction(txs + [t], t.id) && FirstTransaction(txs + [t], t.id) == t
  {
    FreshTransactionFound(txs, t);
  }

  /** Returning a transaction that was appended under a fresh id closes that
      transaction alone, prices it, and leaves the earlier ones as they were. */
  lemma ReturnAppended(s: Store, txs: seq<Transaction>, t: Transaction, later: Time, damage: Damage)
    requires s.transactions == txs + [t] && !HasTransaction(txs, t.id)
    ensures
      var r := ReturnBook(s, later, t.id, damage);
      && r.success
      && r.fine == CalculateFine(s.books, t, damage, later)
      && r.store.books == AdjustCopies(s.books, t.bookId, 1)
      && |r.store.transactions| == |txs| + 1
      && r.store.transactions[..|txs|] == txs
      && r.store.transactions[|txs|].status == ReturnStatus(later, t.dueDate)
  {
    FreshTransactionFirst(txs, t);
    var r := ReturnBook(s, later, t.id, damage);
    assert r.store.transactions[..|txs|] == txs by {
      forall i | 0 <= i < |txs|
        ensures r.store.transactions[i] == txs[i]
      {
        assert s.transactions[i] == txs[i];
      }
    }
  }

  /** Borrowing with a fresh transaction id and then returning that
      transaction restores every book's count; the fine is the one for the
      book's price, the loan's due date and the return time, and the status
      is Missing exactly when the return is late. */
  lemma BorrowThenReturn(s: Store, now: Time, txId: Id, bookId: Id, borrowerId: Id,
                         kind: BorrowingType, groupMembers: seq<Id>, later: Time, damage: Damage)
    requires BorrowBook(s, now, txId, bookId, borrowerId, kind, groupMembers).error.None?
    requires !HasTransaction(s.transactions, txId)
    ensures
      var s1 := BorrowBook(s, now, txId, bookId, borrowerId, kind, groupMembers).store;
      var r := ReturnBook(s1, later, txId, damage);
      var due := now + LoanDays(kind) * DayMs;
      && r.success
      && r.store.books == s.books
      && r.fine == FineFor(FirstBook(s.books, bookId).price, due, later, damage)
      && |r.store.transactions| == |s.transactions| + 1
      && r.store.transactions[..|s.transactions|] == s.transactions
      && r.store.transactions[|s.transactions|].status == ReturnStatus(later, due)
  {
    var b := BorrowBook(s, now, txId, bookId, borrowerId, kind, groupMembers);
    var s1 := b.store;
    var n := |s.transactions|;
    var t := s1.transactions[n];
    assert s1.transactions == s.transactions + [t] by {
      assert s1.transactions[..n] == s.transactions;
    }
    ReturnAppended(s1, s.transactions, t, later, damage);
    AdjustCopiesKeepsLookup(s.books, bookId, -1, bookId);
    assert FirstBook(s1.books, bookId).price == FirstBook(s.books, bookId).price;
    AdjustCopiesCancel(s.books, bookId);
  }

  /** Returned on its due date, an undamaged loan is free and Returned; any
      later it is Missing and costs at least twice the price plus 50. */
  lemma BorrowThenReturnFine(s: Store, now: Time, txId: Id, bookId: Id, borrowerId: Id,
                             kind: BorrowingType, groupMembers: seq<Id>, later: Time, damage: Damage)
    requires BorrowBook(s, now, txId, bookId, borrowerId, kind, groupMembers).error.None?
    requires !HasTransaction(s.transactions, txId)
    ensures
      var s1 := BorrowBook(s, now, txId, bookId, borrowerId, kind, groupMembers).store;
      var r := ReturnBook(s1, later, txId, damage);
      var price := FirstBook(s.books, bookId).price;
      var due := now + LoanDays(kind) * DayMs;
      && (later <= due && damage == Intact ==>
            r.fine == 0 && r.store.transactions[|s.transactions|].status == Returned)
      && (later > due && price >= 0 ==>
            r.fine >= 2 * price + 50 && r.store.transactions[|s.transactions|].status == Missing)
  {
    BorrowThenReturn(s, now, txId, bookId, borrowerId, kind, groupMembers, later, damage);
  }

  /** `returnBook` does not check that the transaction is still active: a
      second return of the same transaction lends its book another copy back,
      and because the first return recorded a return date, the second fine is
      computed for that earlier instant while the status is decided by the
      later one. */
  lemma RepeatedReturn(s: Store, txId: Id, now1: Time, d1: Damage, now2: Time, d2: Damage)
    requires HasTransaction(s.transactions, txId)
    ensures
      var t := FirstTransaction(s.transactions, txId);
      var r1 := ReturnBook(s, now1, txId, d1);
      var r2 := ReturnBook(r1.store, now2, txId, d2);
      && r2.success
      && r2.store.books == AdjustCopies(s.books, t.bookId, 2)
      && r2.fine == (if HasBook(s.books, t.bookId)
                     then FineFor(FirstBook(s.books, t.bookId).price, t.dueDate, now1, d2) else 0)
      && forall i :: 0 <= i < |r2.store.transactions| && r2.store.transactions[i].id == txId ==>
           r2.store.transactions[i].status == ReturnStatus(now2, t.dueDate)
  {
    var t := FirstTransaction(s.transactions, txId);
    var r1 := ReturnBook(s, now1, txId, d1);
    var k := FindTransaction(s.transactions, txId).value;
    FirstIndexAgrees(r1.store.transactions, (x: Transaction) => x.id == txId,
                     s.transactions, (x: Transaction) => x.id == txId);
    assert r1.store.transactions[k].returnDate == Some(now1);
    AdjustCopiesKeepsLookup(s.books, t.bookId, 1, t.bookId);
    AdjustCopiesTwice(s.books, t.bookId);
  }
}
