/** Sequences of store operations and the invariants they keep. The store
    itself enforces none of these globally; each lemma says which callers'
    traces keep which property. */
module Traces {
  import opened Seqs
  import opened LibraryTypes
  import opened Catalog
  import opened Borrowing

  /** One mutating call on the store, with its clock reading and fresh id. */
  datatype Op =
    | AddBookOp(id: Id, data: BookData)
    | RegisterOp(id: Id, profile: UserProfile)
    | UpdateBookOp(id: Id, patch: BookPatch)
    | DeleteBookOp(id: Id)
    | BorrowOp(now: Time, txId: Id, bookId: Id, borrowerId: Id, kind: BorrowingType, groupMembers: seq<Id>)
    | ReturnOp(now: Time, txId: Id, damage: Damage)

  function Apply(s: Store, op: Op): Store {
    match op
    case AddBookOp(id, data) => AddBook(s, id, data)
    case RegisterOp(id, profile) => Register(s, id, profile)
    case UpdateBookOp(id, patch) => UpdateBook(s, id, patch)
    case DeleteBookOp(id) => DeleteBook(s, id)
    case BorrowOp(now, txId, bookId, borrowerId, kind, groupMembers) =>
      BorrowBook(s, now, txId, bookId, borrowerId, kind, groupMembers).store
    case ReturnOp(now, txId, damage) => ReturnBook(s, now, txId, damage).store
  }

  function Run(s: Store, ops: seq<Op>): Store
    decreases |ops|
  {
    if |ops| == 0 then s else Run(Apply(s, ops[0]), ops[1..])
  }

  // ------------------------------------------------- one active per borrower

  /** Whatever the calls, no borrower id ever holds two active transactions. */
  lemma {:induction false} SingleActiveAlways(s: Store, ops: seq<Op>)
    requires SingleActive(s.transactions)
    ensures SingleActive(Run(s, ops).transactions)
    decreases |ops|
  {
    if |ops| > 0 {
      var op := ops[0];
      match op {
        case BorrowOp(now, txId, bookId, borrowerId, kind, groupMembers) =>
          BorrowKeepsSingleActive(s, now, txId, bookId, borrowerId, kind, groupMembers);
        case ReturnOp(now, txId, damage) =>
          ReturnKeepsSingleActive(s, now, txId, damage);
        case _ =>
      }
      SingleActiveAlways(Apply(s, op), ops[1..]);
    }
  }

  // ---------------------------------------------------- shared lemma on ids

  /** Dropping books never creates a duplicate id. */
  lemma {:induction false} FilterKeepsUniqueIds(books: seq<Book>, p: Book -> bool)
    requires UniqueBookIds(books)
    ensures UniqueBookIds(Filter(books, p))
  {
    if |books| > 0 {
      var rest := Filter(books[1..], p);
      FilterKeepsUniqueIds(books[1..], p);
      if p(books[0]) {
        var r := [books[0]] + rest;
        forall i, j | 0 <= i < j < |r|
          ensures r[i].id != r[j].id
        {
          if i == 0 {
            assert r[j] == rest[j - 1] && rest[j - 1] in rest;
            assert r[j] in books[1..];
          }
        }
      }
    }
  }

  // --------------------------------------------- copies never go negative

  /** Book ids are unique and no count is negative. */
  predicate CopiesSafe(s: Store) {
    UniqueBookIds(s.books) && CopiesNonNegative(s.books)
  }

  /** What a caller must respect for counts to stay non-negative: added books
      get fresh ids and non-negative totals, and updates neither rename a book
      nor set a negative count. Borrows and returns, repeated or not, need
      nothing. */
  predicate SafeOp(s: Store, op: Op) {
    match op
    case AddBookOp(id, data) => !HasBook(s.books, id) && data.totalCopies >= 0
    case UpdateBookOp(_, patch) => patch.id.None? && patch.availableCopies.GetOr(0) >= 0
    case _ => true
  }

  predicate SafeTrace(s: Store, ops: seq<Op>)
    decreases |ops|
  {
    |ops| == 0 || (SafeOp(s, ops[0]) && SafeTrace(Apply(s, ops[0]), ops[1..]))
  }

  lemma SafeStep(s: Store, op: Op)
    requires CopiesSafe(s) && SafeOp(s, op)
    ensures CopiesSafe(Apply(s, op))
  {
    match op {
      case AddBookOp(id, data) =>
      case RegisterOp(id, profile) =>
      case UpdateBookOp(id, patch) =>
      case DeleteBookOp(id) =>
        var p := OtherThan(id);
        FilterKeepsUniqueIds(s.books, p);
        var r := Filter(s.books, p);
        assert forall i :: 0 <= i < |r| ==> r[i] in s.books;
      case BorrowOp(now, txId, bookId, borrowerId, kind, groupMembers) =>
        BorrowKeepsCopiesNonNegative(s, now, txId, bookId, borrowerId, kind, groupMembers);
      case ReturnOp(now, txId, damage) =>
    }
  }

  /** Counts never go negative along a trace that respects `SafeOp`. */
  lemma {:induction false} CopiesSafeAlways(s: Store, ops: seq<Op>)
    requires CopiesSafe(s) && SafeTrace(s, ops)
    ensures CopiesSafe(Run(s, ops))
    decreases |ops|
  {
    if |ops| > 0 {
      SafeStep(s, ops[0]);
      CopiesSafeAlways(Apply(s, ops[0]), ops[1..]);
    }
  }

  // ------------------------------------------- every copy is accounted for

  /** Active loans of this book id. */
  function ActiveLoans(txs: seq<Transaction>, bookId: Id): nat {
    Count(txs, (t: Transaction) => t.bookId == bookId && t.status == Active)
  }

  /** The book's available copies plus its active loans make its total. */
  predicate Accounted(b: Book, txs: seq<Transaction>) {
    0 <= b.availableCopies && b.availableCopies + ActiveLoans(txs, b.id) == b.totalCopies
  }

  predicate CopiesAccounted(s: Store) {
    && UniqueBookIds(s.books)
    && UniqueTxIds(s.transactions)
    && forall i :: 0 <= i < |s.books| ==> Accounted(s.books[i], s.transactions)
  }

  /** What a caller must respect for the accounting to hold: fresh ids for
      new books (unused by any transaction) and for new transactions,
      non-negative totals, updates that leave ids and counts alone, and
      returns only of active transactions. */
  predicate AccountedOp(s: Store, op: Op) {
    match op
    case AddBookOp(id, data) =>
      && !HasBook(s.books, id)
      && (forall j :: 0 <= j < |s.transactions| ==> s.transactions[j].bookId != id)
      && data.totalCopies >= 0
    case UpdateBookOp(_, patch) =>
      patch.id.None? && patch.totalCopies.None? && patch.availableCopies.None?
    case BorrowOp(_, txId, _, _, _, _) => !HasTransaction(s.transactions, txId)
    case ReturnOp(_, txId, _) =>
      forall j :: 0 <= j < |s.transactions| && s.transactions[j].id == txId ==>
        s.transactions[j].status == Active
    case _ => true
  }

  predicate AccountedTrace(s: Store, ops: seq<Op>)
    decreases |ops|
  {
    |ops| == 0 || (AccountedOp(s, ops[0]) && AccountedTrace(Apply(s, ops[0]), ops[1..]))
  }

  lemma AccountedAddBook(s: Store, id: Id, data: BookData)
    requires CopiesAccounted(s) && AccountedOp(s, AddBookOp(id, data))
    ensures CopiesAccounted(AddBook(s, id, data))
  {
    var s' := AddBook(s, id, data);
    assert Accounted(s'.books[|s.books|], s.transactions);
    forall i | 0 <= i < |s.books|
      ensures Accounted(s'.books[i], s'.transactions)
    {
      assert s'.books[i] == s.books[i];
    }
  }

  lemma AccountedDeleteBook(s: Store, id: Id)
    requires CopiesAccounted(s)
    ensures CopiesAccounted(DeleteBook(s, id))
  {
    var p := OtherThan(id);
    FilterKeepsUniqueIds(s.books, p);
    var r := Filter(s.books, p);
    assert forall i :: 0 <= i < |r| ==> r[i] in s.books;
  }

  lemma AccountedBorrow(s: Store, now: Time, txId: Id, bookId: Id, borrowerId: Id,
                        kind: BorrowingType, groupMembers: seq<Id>)
    requires CopiesAccounted(s) && !HasTransaction(s.transactions, txId)
    ensures CopiesAccounted(BorrowBook(s, now, txId, bookId, borrowerId, kind, groupMembers).store)
  {
    var r := BorrowBook(s, now, txId, bookId, borrowerId, kind, groupMembers);
    if r.error.None? {
      var n := |s.transactions|;
      var t := r.store.transactions[n];
      assert r.store.transactions == s.transactions + [t] by {
        assert r.store.transactions[..n] == s.transactions;
      }
      forall i | 0 <= i < |s.books|
        ensures Accounted(r.store.books[i], r.store.transactions)
      {
        var b := s.books[i];
        CountAppend(s.transactions, t, (x: Transaction) => x.bookId == b.id && x.status == Active);
        if b.id == bookId {
          FirstBookIsUnique(s.books, i);
        }
      }
    }
  }

  lemma AccountedReturn(s: Store, now: Time, txId: Id, damage: Damage)
    requires CopiesAccounted(s) && AccountedOp(s, ReturnOp(now, txId, damage))
    ensures CopiesAccounted(ReturnBook(s, now, txId, damage).store)
  {
    var r := ReturnBook(s, now, txId, damage);
    if r.success {
      var k := FindTransaction(s.transactions, txId).value;
      var t := s.transactions[k];
      var txs := r.store.transactions;
      assert txs == s.transactions[k := txs[k]] by {
        forall j | 0 <= j < |txs|
          ensures txs[j] == s.transactions[k := txs[k]][j]
        {
        }
      }
      forall i | 0 <= i < |s.books|
        ensures Accounted(r.store.books[i], txs)
      {
        var b := s.books[i];
        CountUpdate(s.transactions, k, txs[k], (x: Transaction) => x.bookId == b.id && x.status == Active);
      }
    }
  }

  lemma AccountedStep(s: Store, op: Op)
    requires CopiesAccounted(s) && AccountedOp(s, op)
    ensures CopiesAccounted(Apply(s, op))
  {
    match op {
      case AddBookOp(id, data) => AccountedAddBook(s, id, data);
      case RegisterOp(id, profile) =>
      case UpdateBookOp(id, patch) =>
        var s' := UpdateBook(s, id, patch);
        forall i | 0 <= i < |s.books|
          ensures s'.books[i].id == s.books[i].id
          ensures Accounted(s'.books[i], s'.transactions)
        {
        }
      case DeleteBookOp(id) => AccountedDeleteBook(s, id);
      case BorrowOp(now, txId, bookId, borrowerId, kind, groupMembers) =>
        AccountedBorrow(s, now, txId, bookId, borrowerId, kind, groupMembers);
      case ReturnOp(now, txId, damage) => AccountedReturn(s, now, txId, damage);
    }
  }

  /** Along a trace that returns only active transactions (and respects the
      other conditions of `AccountedOp`), every book's available copies stay
      between zero and its total. */
  lemma {:induction false} CopiesBoundedAlways(s: Store, ops: seq<Op>)
    requires CopiesAccounted(s) && AccountedTrace(s, ops)
    ensures CopiesAccounted(Run(s, ops))
    ensures forall i :: 0 <= i < |Run(s, ops).books| ==>
      0 <= Run(s, ops).books[i].availableCopies <= Run(s, ops).books[i].totalCopies
    decreases |ops|
  {
    if |ops| > 0 {
      AccountedStep(s, ops[0]);
      CopiesBoundedAlways(Apply(s, ops[0]), ops[1..]);
    }
  }

  /** The seeded store satisfies all three invariants. */
  lemma InitialStoreInvariants()
    ensures SingleActive(InitialStore().transactions)
    ensures CopiesSafe(InitialStore())
    ensures CopiesAccounted(InitialStore())
  {
  }
}
