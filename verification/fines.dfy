/** The fine calculator of the store (`calculateDaysDifference` and
    `calculateFine`). Any return after the due date counts as a missing book:
    200 % of the price plus 50 rupees per started day late; a damage surcharge
    of 10 % (small) or 50 % (large) of the price comes on top, and the total is
    rounded to whole rupees. The arithmetic is done exactly, in tenths of a
    rupee, so that 10 % of a whole-rupee price needs no fractions. */
module Fines {
  import opened LibraryTypes

  function Abs(x: int): (r: nat)
    ensures r == x || r == -x
  {
    if x < 0 then -x else x
  }

  /** Whole days between two instants, in either order, counting a started day
      as a full one: the least `d` with `d` days covering the gap. */
  function DaysDifference(from: Time, to: Time): (d: nat)
    ensures d * DayMs >= Abs(to - from)
    ensures d > 0 ==> (d - 1) * DayMs < Abs(to - from)
  {
    (Abs(to - from) + DayMs - 1) / DayMs
  }

  /** `Math.round` of `n` tenths: the nearest whole number, halves rounded up. */
  function RoundTenths(n: int): (r: int)
    ensures 10 * r - 5 <= n < 10 * r + 5
  {
    (n + 5) / 10
  }

  /** The damage surcharge in tenths of a rupee: 10 % of the price is `price`
      tenths, 50 % is `5 * price` tenths. */
  function SurchargeTenths(price: int, damage: Damage): int {
    match damage
    case Intact => 0
    case Small => price
    case Large => 5 * price
  }

  /** The missing-book penalty and the daily late fee, in tenths of a rupee. */
  function LateTenths(price: int, due: Time, returned: Time): int {
    if returned > due then 20 * price + 500 * DaysDifference(due, returned) else 0
  }

  /** The damage surcharge alone, rounded: nothing for an intact book,
      `round(price / 10)` for small damage, `round(price / 2)` for large. */
  function DamageSurcharge(price: int, damage: Damage): (r: int)
    ensures damage == Intact ==> r == 0
    ensures damage == Small ==> 10 * r - 5 <= price < 10 * r + 5
    ensures damage == Large ==> 2 * r - 1 <= price < 2 * r + 1
  {
    RoundTenths(SurchargeTenths(price, damage))
  }

  /** Severity order of damage assessments. */
  function Severity(damage: Damage): nat {
    match damage
    case Intact => 0
    case Small => 1
    case Large => 2
  }

  /** The fine for a book of `price` due at `due` and returned at `returned`. */
  function FineFor(price: int, due: Time, returned: Time, damage: Damage): (fine: int)
    ensures returned <= due ==> fine == DamageSurcharge(price, damage)
    ensures returned <= due && damage == Intact ==> fine == 0
    ensures returned > due ==>
      fine == 2 * price + 50 * DaysDifference(due, returned) + DamageSurcharge(price, damage)
    ensures returned > due && price >= 0 ==> fine >= 2 * price + 50
    ensures price >= 0 ==> fine >= 0
  {
    RoundTenths(LateTenths(price, due, returned) + SurchargeTenths(price, damage))
  }

  /** The instant the fine is computed for: the recorded return date, or now. */
  function ReturnTime(t: Transaction, now: Time): Time {
    t.returnDate.GetOr(now)
  }

  /** `calculateFine`: the fine of transaction `t` at `now`, priced from the
      first book in `books` carrying its book id; nothing when no book does. */
  function CalculateFine(books: seq<Book>, t: Transaction, damage: Damage, now: Time): (fine: int)
    ensures !HasBook(books, t.bookId) ==> fine == 0
    ensures HasBook(books, t.bookId) ==>
      fine == FineFor(FirstBook(books, t.bookId).price, t.dueDate, ReturnTime(t, now), damage)
    ensures (forall i :: 0 <= i < |books| ==> books[i].price >= 0) ==> fine >= 0
  {
    match FindBook(books, t.bookId)
    case None => 0
    case Some(i) => FineFor(books[i].price, t.dueDate, ReturnTime(t, now), damage)
  }

  // ------------------------------------------------------------------ lemmas

  /** Counting started days is monotone in the later instant. */
  lemma DaysDifferenceMonotone(from: Time, t1: Time, t2: Time)
    requires from <= t1 <= t2
    ensures DaysDifference(from, t1) <= DaysDifference(from, t2)
  {
  }

  /** A later return never costs less. */
  lemma FineMonotoneInTime(price: int, due: Time, r1: Time, r2: Time, damage: Damage)
    requires price >= 0 && r1 <= r2
    ensures FineFor(price, due, r1, damage) <= FineFor(price, due, r2, damage)
  {
    if r1 > due {
      DaysDifferenceMonotone(due, r1, r2);
    }
  }

  /** Worse damage never costs less. */
  lemma FineMonotoneInDamage(price: int, due: Time, returned: Time, d1: Damage, d2: Damage)
    requires price >= 0 && Severity(d1) <= Severity(d2)
    ensures FineFor(price, due, returned, d1) <= FineFor(price, due, returned, d2)
  {
    assert DamageSurcharge(price, d1) <= DamageSurcharge(price, d2);
  }

  /** The worked examples for a 500-rupee book due on day 30: returned on day
      31 undamaged costs 1050, on day 30 nothing, on day 10 with large damage
      250. */
  lemma FineExamples()
    ensures FineFor(500, 30 * DayMs, 31 * DayMs, Intact) == 1050
    ensures FineFor(500, 30 * DayMs, 30 * DayMs, Intact) == 0
    ensures FineFor(500, 30 * DayMs, 10 * DayMs, Large) == 250
  {
    assert DaysDifference(30 * DayMs, 31 * DayMs) == 1;
  }
}
