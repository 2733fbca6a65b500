/**
 * The lending ledger as the database the views update in place: the books,
 * members and borrow records, and the borrow and return actions with the
 * record's save hook, each proved to do what its specification in Models and
 * Views says.
 */
module Ledger {
  import opened Models
  import opened Views

  class LendingLedger {
    var books: map<int, Book>
    var members: set<int>
    var records: map<int, Record>
    var nextId: int

    /** The rows as one value. */
    function Rows(): Store
      reads this
    {
      Store(books, members, records, nextId)
    }

    ghost predicate Valid()
      reads this
    {
      WellFormed(Rows())
    }

    /**
     * A ledger over a catalog and member list, with no borrow records yet.
     * When every book starts available, the loan invariants hold from the start.
     */
    constructor (catalog: map<int, Book>, enrolled: set<int>)
      ensures Valid()
      ensures books == catalog && members == enrolled && records == map[] && nextId == 1
      ensures (forall b | b in catalog :: catalog[b].status == Available) ==> LoanInvariant(Rows())
    {
      books := catalog;
      members := enrolled;
      records := map[];
      nextId := 1;
    }

    /**
     * BorrowRecord.save: `pk` is None for a record not yet stored. Updates the
     * availability of the record's book as the hook does, then stores the
     * record and returns its id.
     */
    method SaveRecord(pk: Option<int>, rec: Record) returns (id: int)
      requires Valid()
      requires rec.book in books && rec.member in members
      requires pk.Some? ==> pk.value in records
      modifies this
      ensures Valid()
      ensures (Rows(), id) == SaveHook(old(Rows()), pk, rec)
    {
      if pk.None? {
        books := books[rec.book := books[rec.book].(status := Borrowed)];
        id := nextId;
        nextId := nextId + 1;
      } else {
        if rec.returnDate.Some? {
          books := books[rec.book := books[rec.book].(status := Available)];
        }
        id := pk.value;
      }
      records := records[id := rec];
    }

    /** The `borrow` action. */
    method Borrow(bookId: int, memberId: int, now: nat) returns (resp: Response)
      requires Valid()
      modifies this
      ensures Valid()
      ensures (Rows(), resp) == BorrowStep(old(Rows()), bookId, memberId, now)
      ensures old(LoanInvariant(Rows())) ==> LoanInvariant(Rows())
    {
      ghost var before := Rows();
      if bookId !in books {
        return NotFound;
      }
      var book := books[bookId];
      if memberId !in members {
        return NotFound;
      }
      if book.status != Available {
        return BadRequest;
      }
      var rec := NewRecord(bookId, memberId, now);
      var id := SaveRecord(None, rec);
      resp := Created(id, rec);
      if LoanInvariant(before) {
        BorrowPreservesLoanInvariant(before, bookId, memberId, now);
      }
    }

    /** The `return_book` action. */
    method ReturnBook(recordId: int, now: nat) returns (resp: Response)
      requires Valid()
      modifies this
      ensures Valid()
      ensures (Rows(), resp) == ReturnStep(old(Rows()), recordId, now)
      ensures old(LoanInvariant(Rows())) ==> LoanInvariant(Rows())
    {
      ghost var before := Rows();
      if recordId !in records {
        return NotFound;
      }
      var rec := records[recordId];
      if rec.returnDate.Some? {
        return BadRequest;
      }
      rec := rec.(returnDate := Some(now));
      var id := SaveRecord(Some(recordId), rec);
      resp := Ok(id, rec);
      if LoanInvariant(before) {
        ReturnPreservesLoanInvariant(before, recordId, now);
      }
    }
  }

  /**
   * The two actions served one after another on one ledger: a member borrows
   * an available book, a second borrow of it is refused, the book comes back,
   * and a second return is refused.
   */
  method BorrowReturnScenario(ledger: LendingLedger, bookId: int, m1: int, m2: int)
    returns (first: Response, second: Response, back: Response, again: Response)
    requires ledger.Valid() && LoanInvariant(ledger.Rows())
    requires bookId in ledger.books && ledger.books[bookId].status == Available
    requires m1 in ledger.members && m2 in ledger.members
    modifies ledger
    ensures first.Created? && first.record == NewRecord(bookId, m1, 1) && first.id !in old(ledger.records)
    ensures second == BadRequest
    ensures back.Ok? && back.id == first.id && back.record == first.record.(returnDate := Some(3))
    ensures again == BadRequest
    ensures ledger.Valid() && LoanInvariant(ledger.Rows())
    ensures ledger.books == old(ledger.books)
    ensures ledger.records == old(ledger.records)[first.id := back.record]
  {
    first := ledger.Borrow(bookId, m1, 1);
    second := ledger.Borrow(bookId, m2, 2);
    back := ledger.ReturnBook(first.id, 3);
    again := ledger.ReturnBook(first.id, 4);
  }
}
