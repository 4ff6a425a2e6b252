/** The read-only views of the transaction list (the store's getters). Each is
    a filter: it keeps, in order and with multiplicity, exactly the
    transactions that pass its test. Order is stated by cutting: for every
    position `k`, the view of the whole list is the view of the first `k`
    transactions followed by the view of the rest. */
module Queries {
  import opened Seqs
  import opened LibraryTypes
  import Borrowing

  /** The test of each view. */
  function ActiveTest(): Transaction -> bool {
    (t: Transaction) => t.status == Active
  }

  function OverdueTest(now: Time): Transaction -> bool {
    (t: Transaction) => t.status == Active && t.dueDate < now
  }

  function BorrowerTest(userId: Id): Transaction -> bool {
    (t: Transaction) => t.borrowerId == userId
  }

  function BookTest(bookId: Id): Transaction -> bool {
    (t: Transaction) => t.bookId == bookId
  }

  /** `getActiveTransactions`. */
  function ActiveTransactions(txs: seq<Transaction>): (r: seq<Transaction>)
    ensures forall t: Transaction :: multiset(r)[t] == if t.status == Active then multiset(txs)[t] else 0
    ensures forall k :: 0 <= k <= |txs| ==>
      r == Filter(txs[..k], ActiveTest()) + Filter(txs[k..], ActiveTest())
  {
    FilterSplits(txs, ActiveTest());
    Filter(txs, ActiveTest())
  }

  /** `getOverdueTransactions`: still active and due strictly before `now`. */
  function OverdueTransactions(txs: seq<Transaction>, now: Time): (r: seq<Transaction>)
    ensures forall t: Transaction ::
      multiset(r)[t] == if t.status == Active && t.dueDate < now then multiset(txs)[t] else 0
    ensures forall k :: 0 <= k <= |txs| ==>
      r == Filter(txs[..k], OverdueTest(now)) + Filter(txs[k..], OverdueTest(now))
  {
    FilterSplits(txs, OverdueTest(now));
    Filter(txs, OverdueTest(now))
  }

  /** `getUserTransactions`: every transaction whose borrower is `userId`
      (group members other than the borrower are not matched). */
  function UserTransactions(txs: seq<Transaction>, userId: Id): (r: seq<Transaction>)
    ensures forall t: Transaction ::
      multiset(r)[t] == if t.borrowerId == userId then multiset(txs)[t] else 0
    ensures forall k :: 0 <= k <= |txs| ==>
      r == Filter(txs[..k], BorrowerTest(userId)) + Filter(txs[k..], BorrowerTest(userId))
  {
    FilterSplits(txs, BorrowerTest(userId));
    Filter(txs, BorrowerTest(userId))
  }

  /** `getBookTransactions`. */
  function BookTransactions(txs: seq<Transaction>, bookId: Id): (r: seq<Transaction>)
    ensures forall t: Transaction ::
      multiset(r)[t] == if t.bookId == bookId then multiset(txs)[t] else 0
    ensures forall k :: 0 <= k <= |txs| ==>
      r == Filter(txs[..k], BookTest(bookId)) + Filter(txs[k..], BookTest(bookId))
  {
    FilterSplits(txs, BookTest(bookId));
    Filter(txs, BookTest(bookId))
  }

  /** Every overdue transaction is an active one. */
  lemma OverdueAreActive(txs: seq<Transaction>, now: Time)
    ensures multiset(OverdueTransactions(txs, now)) <= multiset(ActiveTransactions(txs))
  {
  }

  /** Once overdue, a transaction stays overdue as time passes. */
  lemma OverdueGrowsWithTime(txs: seq<Transaction>, now1: Time, now2: Time)
    requires now1 <= now2
    ensures multiset(OverdueTransactions(txs, now1)) <= multiset(OverdueTransactions(txs, now2))
  {
  }

  /** Appending one element that passes a test appends it to the filtered
      sequence. */
  lemma FilterAppendOne(txs: seq<Transaction>, t: Transaction, p: Transaction -> bool)
    requires p(t)
    ensures Filter(txs + [t], p) == Filter(txs, p) + [t]
  {
    assert [t][1..] == [];
    assert Filter([t], p) == [t];
    FilterAppend(txs, [t], p);
  }

  /** An active transaction appended to the list comes last in each view it
      belongs to, after the earlier entries in their order. */
  lemma AppendedComesLast(txs: seq<Transaction>, t: Transaction)
    requires t.status == Active
    ensures ActiveTransactions(txs + [t]) == ActiveTransactions(txs) + [t]
    ensures UserTransactions(txs + [t], t.borrowerId) == UserTransactions(txs, t.borrowerId) + [t]
    ensures BookTransactions(txs + [t], t.bookId) == BookTransactions(txs, t.bookId) + [t]
  {
    FilterAppendOne(txs, t, ActiveTest());
    FilterAppendOne(txs, t, BorrowerTest(t.borrowerId));
    FilterAppendOne(txs, t, BookTest(t.bookId));
  }

  /** A successful borrow appends its transaction to the end of the active
      list, of the borrower's history and of the book's history. */
  lemma BorrowedComesLast(s: Store, now: Time, txId: Id, bookId: Id, borrowerId: Id,
                          kind: BorrowingType, groupMembers: seq<Id>)
    requires Borrowing.BorrowBook(s, now, txId, bookId, borrowerId, kind, groupMembers).error.None?
    ensures
      var txs := Borrowing.BorrowBook(s, now, txId, bookId, borrowerId, kind, groupMembers).store.transactions;
      var t := txs[|s.transactions|];
      && ActiveTransactions(txs) == ActiveTransactions(s.transactions) + [t]
      && UserTransactions(txs, borrowerId) == UserTransactions(s.transactions, borrowerId) + [t]
      && BookTransactions(txs, bookId) == BookTransactions(s.transactions, bookId) + [t]
  {
    var txs := Borrowing.BorrowBook(s, now, txId, bookId, borrowerId, kind, groupMembers).store.transactions;
    var n := |s.transactions|;
    var t := txs[n];
    assert t.status == Active && t.borrowerId == borrowerId && t.bookId == bookId;
    assert txs == s.transactions + [t] by {
      assert txs[..n] == s.transactions;
    }
    AppendedComesLast(s.transactions, t);
  }
}
