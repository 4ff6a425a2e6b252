/** The entities of the in-memory library store (`src/store/useLibraryStore.ts`)
    and the lookups every operation shares. Timestamps are milliseconds since the
    epoch (the store keeps them as ISO-8601 strings); prices, fines and points are
    whole numbers. */
module LibraryTypes {
  import opened Wrappers
  import opened Seqs

  type Id = string

  /** Milliseconds since the epoch. */
  type Time = int

  /** One day in milliseconds: 1000 * 60 * 60 * 24. */
  const DayMs: int := 86400000

  datatype UserType = Student | Staff | Admin

  datatype BorrowingType = Individual | Group

  /** `Overdue` is part of the record type but no operation of the store ever
      sets it. */
  datatype Status = Active | Returned | Missing | Overdue

  /** Damage assessment made on return; `Intact` is the store's 'None'. */
  datatype Damage = Intact | Small | Large

  /** Everything a caller supplies when registering a user: the record minus
      `id` and `points`. */
  datatype UserProfile = UserProfile(
    fullName: string,
    email: string,
    userType: UserType,
    admissionId: Option<string>,
    employeeId: Option<string>,
    mobileNumber: string,
    age: int,
    gender: string,
    dob: string,
    address: string,
    isAdmin: bool)

  datatype User = User(id: Id, profile: UserProfile, points: int)

  /** Everything a caller supplies when adding a book: the record minus `id`
      and `availableCopies`. */
  datatype BookData = BookData(
    title: string,
    author: string,
    category: string,
    coverUrl: string,
    price: int,
    totalCopies: int,
    isPopular: Option<bool>,
    isRecent: Option<bool>)

  datatype Book = Book(
    id: Id,
    title: string,
    author: string,
    category: string,
    coverUrl: string,
    price: int,
    totalCopies: int,
    availableCopies: int,
    isPopular: Option<bool>,
    isRecent: Option<bool>)

  /** A borrowing. `bookName` and `borrowerName` are snapshots taken when the
      book is borrowed. */
  datatype Transaction = Transaction(
    id: Id,
    bookId: Id,
    bookName: string,
    borrowerId: Id,
    borrowerName: string,
    borrowingType: BorrowingType,
    groupMembers: Option<seq<Id>>,
    fromDate: Time,
    dueDate: Time,
    returnDate: Option<Time>,
    status: Status,
    fine: int,
    damageType: Option<Damage>,
    createdAt: Time,
    updatedAt: Time)

  /** The three collections the borrowing engine reads and writes. */
  datatype Store = Store(users: seq<User>, books: seq<Book>, transactions: seq<Transaction>)

  // ---------------------------------------------------------------- lookups

  /** Position of the first book with this id (`books.find`). */
  function FindBook(books: seq<Book>, id: Id): Option<nat> {
    FirstIndex(books, (b: Book) => b.id == id)
  }

  /** Position of the first user with this id (`users.find`). */
  function FindUser(users: seq<User>, id: Id): Option<nat> {
    FirstIndex(users, (u: User) => u.id == id)
  }

  /** Position of the first transaction with this id (`transactions.find`). */
  function FindTransaction(txs: seq<Transaction>, id: Id): Option<nat> {
    FirstIndex(txs, (t: Transaction) => t.id == id)
  }

  predicate HasBook(books: seq<Book>, id: Id) {
    exists i :: 0 <= i < |books| && books[i].id == id
  }

  predicate HasUser(users: seq<User>, id: Id) {
    exists i :: 0 <= i < |users| && users[i].id == id
  }

  predicate HasTransaction(txs: seq<Transaction>, id: Id) {
    exists i :: 0 <= i < |txs| && txs[i].id == id
  }

  /** The book `books.find` returns for this id. */
  function FirstBook(books: seq<Book>, id: Id): (b: Book)
    requires HasBook(books, id)
    ensures b in books && b.id == id
    ensures forall i :: 0 <= i < |books| && books[i].id == id ==> FindBook(books, id).value <= i
    ensures exists k :: 0 <= k < |books| && books[k] == b && forall j :: 0 <= j < k ==> books[j].id != id
  {
    books[FindBook(books, id).value]
  }

  /** The user `users.find` returns for this id. */
  function FirstUser(users: seq<User>, id: Id): (u: User)
    requires HasUser(users, id)
    ensures u in users && u.id == id
    ensures exists k :: 0 <= k < |users| && users[k] == u && forall j :: 0 <= j < k ==> users[j].id != id
  {
    users[FindUser(users, id).value]
  }

  // ------------------------------------------------------------- uniqueness

  predicate UniqueBookIds(books: seq<Book>) {
    forall i, j :: 0 <= i < j < |books| ==> books[i].id != books[j].id
  }

  predicate UniqueTxIds(txs: seq<Transaction>) {
    forall i, j :: 0 <= i < j < |txs| ==> txs[i].id != txs[j].id
  }

  /** With unique ids, the book `find` returns is the one at any index carrying
      that id. */
  lemma FirstBookIsUnique(books: seq<Book>, i: nat)
    requires UniqueBookIds(books) && i < |books|
    ensures HasBook(books, books[i].id) && FirstBook(books, books[i].id) == books[i]
  {
    assert HasBook(books, books[i].id);
  }

  // ----------------------------------------------------------- seeded state

  /** The store's initial contents: one administrator and two sample books. */
  function InitialStore(): Store {
    var admin := User("admin1",
      UserProfile("Admin User", "admin@library.com", Admin, None, Some("EMP001"),
        "9876543210", 35, "Male", "1990-01-01", "Library Admin Office", true),
      1000);
    var book1 := Book("book1", "Atomic Habits", "James Clear", "Self-Help",
      "https://images-na.ssl-images-amazon.com/images/I/51-uspgjGgL._SY300_.jpg",
      500, 3, 3, Some(true), Some(false));
    var book2 := Book("book2", "Rich Dad Poor Dad", "Robert Kiyosaki", "Finance",
      "https://images-na.ssl-images-amazon.com/images/I/81bsw6fnUiL._SY300_.jpg",
      400, 3, 3, Some(true), Some(true));
    Store([admin], [book1, book2], [])
  }
}
