/** Administrative transitions of the store: adding, editing and deleting
    books, and registering users. Fresh ids are parameters (the store draws
    them at random). */
module Catalog {
  import opened Wrappers
  import opened Seqs
  import opened LibraryTypes

  /** Points every newly registered user starts with. */
  const StartingPoints: int := 100

  /** `addBook`: appends a book whose available copies equal its total copies. */
  function AddBook(s: Store, id: Id, data: BookData): (s': Store)
    ensures s'.users == s.users && s'.transactions == s.transactions
    ensures |s'.books| == |s.books| + 1 && s'.books[..|s.books|] == s.books
    ensures var b := s'.books[|s.books|];
      && b.id == id && b.availableCopies == b.totalCopies == data.totalCopies
      && b.title == data.title && b.author == data.author && b.category == data.category
      && b.coverUrl == data.coverUrl && b.price == data.price
      && b.isPopular == data.isPopular && b.isRecent == data.isRecent
  {
    var b := Book(id, data.title, data.author, data.category, data.coverUrl, data.price,
      data.totalCopies, data.totalCopies, data.isPopular, data.isRecent);
    s.(books := s.books + [b])
  }

  /** The test `deleteBook` keeps a book by. */
  function OtherThan(id: Id): Book -> bool {
    (b: Book) => b.id != id
  }

  /** `deleteBook`: drops every book with this id and keeps the rest in order:
      cutting the old list anywhere cuts the new one at the same book. */
  function DeleteBook(s: Store, id: Id): (s': Store)
    ensures s'.users == s.users && s'.transactions == s.transactions
    ensures !HasBook(s'.books, id)
    ensures forall b: Book :: b.id != id ==> multiset(s'.books)[b] == multiset(s.books)[b]
    ensures forall b: Book :: b in s'.books <==> b in s.books && b.id != id
    ensures forall k :: 0 <= k <= |s.books| ==>
      s'.books == Filter(s.books[..k], OtherThan(id)) + Filter(s.books[k..], OtherThan(id))
  {
    var kept := Filter(s.books, OtherThan(id));
    assert forall i :: 0 <= i < |kept| ==> kept[i] in kept;
    FilterSplits(s.books, OtherThan(id));
    s.(books := kept)
  }

  /** `Partial<Book>`: the fields an update overwrites; `None` leaves a field
      as it was. */
  datatype BookPatch = BookPatch(
    id: Option<Id>,
    title: Option<string>,
    author: Option<string>,
    category: Option<string>,
    coverUrl: Option<string>,
    price: Option<int>,
    totalCopies: Option<int>,
    availableCopies: Option<int>,
    isPopular: Option<Option<bool>>,
    isRecent: Option<Option<bool>>)

  const EmptyPatch := BookPatch(None, None, None, None, None, None, None, None, None, None)

  /** `{ ...book, ...updates }`. */
  function ApplyPatch(b: Book, p: BookPatch): (r: Book)
    ensures p == EmptyPatch ==> r == b
    ensures r.availableCopies == p.availableCopies.GetOr(b.availableCopies)
    ensures r.totalCopies == p.totalCopies.GetOr(b.totalCopies)
    ensures r.id == p.id.GetOr(b.id) && r.price == p.price.GetOr(b.price)
    ensures r.title == p.title.GetOr(b.title) && r.author == p.author.GetOr(b.author)
    ensures r.category == p.category.GetOr(b.category) && r.coverUrl == p.coverUrl.GetOr(b.coverUrl)
    ensures r.isPopular == p.isPopular.GetOr(b.isPopular) && r.isRecent == p.isRecent.GetOr(b.isRecent)
  {
    Book(
      p.id.GetOr(b.id),
      p.title.GetOr(b.title),
      p.author.GetOr(b.author),
      p.category.GetOr(b.category),
      p.coverUrl.GetOr(b.coverUrl),
      p.price.GetOr(b.price),
      p.totalCopies.GetOr(b.totalCopies),
      p.availableCopies.GetOr(b.availableCopies),
      p.isPopular.GetOr(b.isPopular),
      p.isRecent.GetOr(b.isRecent))
  }

  /** `updateBook`: patches every book with this id, leaving the others and
      the order untouched. No value is checked, so a patch may set any copy
      count. */
  function UpdateBook(s: Store, id: Id, patch: BookPatch): (s': Store)
    ensures s'.users == s.users && s'.transactions == s.transactions
    ensures |s'.books| == |s.books|
    ensures forall i :: 0 <= i < |s.books| && s.books[i].id != id ==> s'.books[i] == s.books[i]
    ensures forall i :: 0 <= i < |s.books| && s.books[i].id == id ==>
      s'.books[i] == ApplyPatch(s.books[i], patch)
  {
    s.(books := seq(|s.books|, i requires 0 <= i < |s.books| =>
      if s.books[i].id == id then ApplyPatch(s.books[i], patch) else s.books[i]))
  }

  /** `register` (and `addUser`, which does the same): appends a user with the
      starting points. */
  function Register(s: Store, id: Id, profile: UserProfile): (s': Store)
    ensures s'.books == s.books && s'.transactions == s.transactions
    ensures |s'.users| == |s.users| + 1 && s'.users[..|s.users|] == s.users
    ensures s'.users[|s.users|] == User(id, profile, StartingPoints)
  {
    s.(users := s.users + [User(id, profile, StartingPoints)])
  }

  // ------------------------------------------------------------------ lemmas

  /** Deleting a freshly added book restores the store. */
  lemma {:induction false} AddThenDeleteBook(s: Store, id: Id, data: BookData)
    requires !HasBook(s.books, id)
    ensures DeleteBook(AddBook(s, id, data), id) == s
  {
    var p := OtherThan(id);
    FilterKeepsAll(s.books, p);
    var b := AddBook(s, id, data).books[|s.books|];
    FilterDropsLast(s.books, b, p);
  }

  lemma {:induction false} FilterKeepsAll(books: seq<Book>, p: Book -> bool)
    requires forall i :: 0 <= i < |books| ==> p(books[i])
    ensures Filter(books, p) == books
  {
    if |books| > 0 {
      FilterKeepsAll(books[1..], p);
    }
  }

  lemma {:induction false} FilterDropsLast(books: seq<Book>, b: Book, p: Book -> bool)
    requires !p(b)
    ensures Filter(books + [b], p) == Filter(books, p)
  {
    if |books| == 0 {
      assert books + [b] == [b];
    } else {
      assert (books + [b])[1..] == books[1..] + [b];
      FilterDropsLast(books[1..], b, p);
    }
  }

  /** Applying the same update twice is the same as applying it once. */
  lemma UpdateBookIdempotent(s: Store, id: Id, patch: BookPatch)
    ensures UpdateBook(UpdateBook(s, id, patch), id, patch) == UpdateBook(s, id, patch)
  {
    var once := UpdateBook(s, id, patch);
    var twice := UpdateBook(once, id, patch);
    forall i | 0 <= i < |s.books|
      ensures twice.books[i] == once.books[i]
    {
      if s.books[i].id == id {
        ApplyPatchIdempotent(s.books[i], patch);
      }
    }
  }

  lemma ApplyPatchIdempotent(b: Book, p: BookPatch)
    ensures ApplyPatch(ApplyPatch(b, p), p) == ApplyPatch(b, p)
  {
  }

  /** After registering a fresh id, looking that id up finds the new user with
      the starting points. */
  lemma RegisterThenFind(s: Store, id: Id, profile: UserProfile)
    requires !HasUser(s.users, id)
    ensures HasUser(Register(s, id, profile).users, id)
    ensures FirstUser(Register(s, id, profile).users, id) == User(id, profile, StartingPoints)
  {
    var users := Register(s, id, profile).users;
    assert users[|s.users|].id == id;
  }
}
