/**
 * The borrow and return actions of the borrow-record view set
 * (library/views.py) as functions from a store to the new store and the
 * response, and what they promise: their error cases, their effect, and the
 * loan invariants they keep.
 */
module Views {
  import opened Models

  /** The outcome of an action: HTTP 201, 200, 404 and 400 respectively. */
  datatype Response =
    | Created(id: int, record: Record)
    | Ok(id: int, record: Record)
    | NotFound
    | BadRequest

  function HttpStatus(resp: Response): (code: int)
    ensures code / 100 == 2 <==> resp.Created? || resp.Ok?
    ensures code == 201 <==> resp.Created?
    ensures code == 200 <==> resp.Ok?
    ensures code == 404 <==> resp.NotFound?
    ensures code == 400 <==> resp.BadRequest?
  {
    match resp
    case Created(_, _) => 201
    case Ok(_, _) => 200
    case NotFound => 404
    case BadRequest => 400
  }

  // ---------------------------------------------------------------------------
  // The two actions
  // ---------------------------------------------------------------------------

  /**
   * `borrow`: look up the book, then the member (either missing: 404); refuse
   * a book that is not available (400); otherwise create a record, whose save
   * hook marks the book borrowed (201).
   */
  function BorrowStep(s: Store, bookId: int, memberId: int, now: nat): (r: (Store, Response))
    ensures WellFormed(s) ==> WellFormed(r.0)
    ensures r.1.NotFound? || r.1.BadRequest? || r.1.Created?
    ensures !r.1.Created? ==> r.0 == s
  {
    if bookId !in s.books then (s, NotFound)
    else if memberId !in s.members then (s, NotFound)
    else if s.books[bookId].status != Available then (s, BadRequest)
    else
      var rec := NewRecord(bookId, memberId, now);
      var (s', id) := SaveHook(s, None, rec);
      (s', Created(id, rec))
  }

  /**
   * `return_book`: look up the record (missing: 404); refuse one that already
   * has a return date (400); otherwise stamp the return date and save it,
   * whose hook marks the book available (200).
   */
  function ReturnStep(s: Store, recordId: int, now: nat): (r: (Store, Response))
    requires WellFormed(s)
    ensures WellFormed(r.0)
    ensures r.1.NotFound? || r.1.BadRequest? || r.1.Ok?
    ensures !r.1.Ok? ==> r.0 == s
  {
    if recordId !in s.records then (s, NotFound)
    else
      var rec := s.records[recordId];
      if rec.returnDate.Some? then (s, BadRequest)
      else
        var returned := rec.(returnDate := Some(now));
        var (s', id) := SaveHook(s, Some(recordId), returned);
        (s', Ok(id, returned))
  }

  // ---------------------------------------------------------------------------
  // Borrow: each branch
  // ---------------------------------------------------------------------------

  /**
   * A missing book or a missing member gives 404 and changes nothing, whatever
   * the book's status: the lookups come before the availability check.
   */
  lemma BorrowMissingIsNotFound(s: Store, bookId: int, memberId: int, now: nat)
    requires bookId !in s.books || memberId !in s.members
    ensures BorrowStep(s, bookId, memberId, now) == (s, NotFound)
  {
  }

  /** An existing book that is not available, with an existing member: 400, nothing changes. */
  lemma BorrowUnavailableIsBadRequest(s: Store, bookId: int, memberId: int, now: nat)
    requires bookId in s.books && memberId in s.members
    requires s.books[bookId].status != Available
    ensures BorrowStep(s, bookId, memberId, now) == (s, BadRequest)
  {
  }

  /**
   * A successful borrow adds exactly one record, under an id not used before,
   * for the given book and member, borrowed now and open; the book becomes
   * borrowed and nothing else changes.
   */
  lemma BorrowCreatesOneOpenRecord(s: Store, bookId: int, memberId: int, now: nat)
    requires WellFormed(s)
    requires bookId in s.books && memberId in s.members
    requires s.books[bookId].status == Available
    ensures var (s', resp) := BorrowStep(s, bookId, memberId, now);
      && resp.Created?
      && resp.id !in s.records
      && s'.records == s.records[resp.id := resp.record]
      && resp.record == Record(bookId, memberId, now, None)
      && s'.books == s.books[bookId := s.books[bookId].(status := Borrowed)]
      && s'.members == s.members
  {
  }

  // ---------------------------------------------------------------------------
  // Return: each branch
  // ---------------------------------------------------------------------------

  lemma ReturnMissingIsNotFound(s: Store, recordId: int, now: nat)
    requires WellFormed(s) && recordId !in s.records
    ensures ReturnStep(s, recordId, now) == (s, NotFound)
  {
  }

  /** A record that was returned already: 400, nothing changes. */
  lemma ReturnTwiceIsBadRequest(s: Store, recordId: int, now: nat)
    requires WellFormed(s) && recordId in s.records
    requires s.records[recordId].returnDate.Some?
    ensures ReturnStep(s, recordId, now) == (s, BadRequest)
  {
  }

  /**
   * A successful return stamps that record's return date with `now` and
   * marks its book available; every other record and book is unchanged.
   */
  lemma ReturnClosesRecord(s: Store, recordId: int, now: nat)
    requires WellFormed(s) && recordId in s.records && Open(s.records[recordId])
    ensures var (s', resp) := ReturnStep(s, recordId, now);
      var rec := s.records[recordId];
      && resp == Ok(recordId, rec.(returnDate := Some(now)))
      && s'.records == s.records[recordId := rec.(returnDate := Some(now))]
      && s'.books == s.books[rec.book := s.books[rec.book].(status := Available)]
      && s'.members == s.members && s'.nextId == s.nextId
  {
  }

  // ---------------------------------------------------------------------------
  // The loan invariants
  // ---------------------------------------------------------------------------

  /**
   * When flags match loans, the availability check is exactly "no open loan":
   * a borrow of an existing book by an existing member succeeds iff the book
   * has no open loan.
   */
  lemma BorrowSucceedsIffNoOpenLoan(s: Store, bookId: int, memberId: int, now: nat)
    requires FlagsMatchLoans(s)
    requires bookId in s.books && memberId in s.members
    ensures BorrowStep(s, bookId, memberId, now).1.Created? <==> !HasOpenLoan(s, bookId)
  {
  }

  lemma BorrowPreservesLoanInvariant(s: Store, bookId: int, memberId: int, now: nat)
    requires WellFormed(s) && LoanInvariant(s)
    ensures LoanInvariant(BorrowStep(s, bookId, memberId, now).0)
  {
    var (s', resp) := BorrowStep(s, bookId, memberId, now);
    if resp.Created? {
      var id := resp.id;
      assert s'.records == s.records[id := resp.record];
      assert id !in s.records;
      forall b | b in s'.books
        ensures s'.books[b].status == Borrowed <==> HasOpenLoan(s', b)
      {
        if b == bookId {
          assert s'.records[id].book == b && Open(s'.records[id]);
        } else {
          if HasOpenLoan(s', b) {
            var i :| i in s'.records && s'.records[i].book == b && Open(s'.records[i]);
            assert i != id && i in s.records;
            assert HasOpenLoan(s, b);
          }
          if HasOpenLoan(s, b) {
            var i :| i in s.records && s.records[i].book == b && Open(s.records[i]);
            assert i in s'.records && s'.records[i] == s.records[i];
          }
        }
      }
      forall i, j | i in s'.records && j in s'.records && Open(s'.records[i]) && Open(s'.records[j])
          && s'.records[i].book == s'.records[j].book
        ensures i == j
      {
      }
    }
  }

  lemma ReturnPreservesLoanInvariant(s: Store, recordId: int, now: nat)
    requires WellFormed(s) && LoanInvariant(s)
    ensures LoanInvariant(ReturnStep(s, recordId, now).0)
  {
    var (s', resp) := ReturnStep(s, recordId, now);
    if resp.Ok? {
      var rec := s.records[recordId];
      ReturnClosesRecord(s, recordId, now);
      forall b | b in s'.books
        ensures s'.books[b].status == Borrowed <==> HasOpenLoan(s', b)
      {
        if b != rec.book {
          if HasOpenLoan(s', b) {
            var i :| i in s'.records && s'.records[i].book == b && Open(s'.records[i]);
            assert i != recordId && s.records[i] == s'.records[i];
            assert HasOpenLoan(s, b);
          }
          if HasOpenLoan(s, b) {
            var i :| i in s.records && s.records[i].book == b && Open(s.records[i]);
            assert i != recordId;
            assert s'.records[i] == s.records[i];
          }
        }
      }
      forall i, j | i in s'.records && j in s'.records && Open(s'.records[i]) && Open(s'.records[j])
          && s'.records[i].book == s'.records[j].book
        ensures i == j
      {
        assert i != recordId && j != recordId;
        assert s.records[i] == s'.records[i] && s.records[j] == s'.records[j];
      }
    }
  }

  // ---------------------------------------------------------------------------
  // Sequences of actions
  // ---------------------------------------------------------------------------

  /** One request to the ledger. */
  datatype Op = BorrowOp(bookId: int, memberId: int, at: nat) | ReturnOp(recordId: int, at: nat)

  function Apply(s: Store, op: Op): (r: (Store, Response))
    requires WellFormed(s)
    ensures WellFormed(r.0)
  {
    match op
    case BorrowOp(b, m, t) => BorrowStep(s, b, m, t)
    case ReturnOp(id, t) => ReturnStep(s, id, t)
  }

  /** The requests served one after another, with the response to each. */
  function Run(s: Store, ops: seq<Op>): (r: (Store, seq<Response>))
    requires WellFormed(s)
    ensures WellFormed(r.0)
    ensures |r.1| == |ops|
    decreases |ops|
  {
    if ops == [] then (s, [])
    else
      var (s1, resp) := Apply(s, ops[0]);
      var (s2, rest) := Run(s1, ops[1..]);
      (s2, [resp] + rest)
  }

  /** Any sequence of borrows and returns keeps both loan invariants. */
  lemma {:induction false} RunPreservesLoanInvariant(s: Store, ops: seq<Op>)
    requires WellFormed(s) && LoanInvariant(s)
    ensures LoanInvariant(Run(s, ops).0)
    decreases |ops|
  {
    if ops != [] {
      match ops[0] {
        case BorrowOp(b, m, t) => BorrowPreservesLoanInvariant(s, b, m, t);
        case ReturnOp(id, t) => ReturnPreservesLoanInvariant(s, id, t);
      }
      RunPreservesLoanInvariant(Apply(s, ops[0]).0, ops[1..]);
    }
  }

  /** Borrowing a book a second time while the first loan is open: 400, nothing changes. */
  lemma DoubleBorrowRejected(s: Store, bookId: int, m1: int, m2: int, t1: nat, t2: nat)
    requires WellFormed(s)
    requires BorrowStep(s, bookId, m1, t1).1.Created?
    ensures var s1 := BorrowStep(s, bookId, m1, t1).0;
      BorrowStep(s1, bookId, m2, t2) == (s1, if m2 in s1.members then BadRequest else NotFound)
  {
  }

  /** Returning the same record a second time: 400, nothing changes. */
  lemma DoubleReturnRejected(s: Store, recordId: int, t1: nat, t2: nat)
    requires WellFormed(s)
    requires ReturnStep(s, recordId, t1).1.Ok?
    ensures var s1 := ReturnStep(s, recordId, t1).0;
      ReturnStep(s1, recordId, t2) == (s1, BadRequest)
  {
  }

  /**
   * Returning the record a borrow created puts the catalog back as it was,
   * and leaves that record closed at the return time.
   */
  lemma BorrowThenReturnRestoresCatalog(s: Store, bookId: int, memberId: int, t1: nat, t2: nat)
    requires WellFormed(s)
    requires BorrowStep(s, bookId, memberId, t1).1.Created?
    ensures var (s1, resp) := BorrowStep(s, bookId, memberId, t1);
      var (s2, resp2) := ReturnStep(s1, resp.id, t2);
      && resp2 == Ok(resp.id, Record(bookId, memberId, t1, Some(t2)))
      && s2.books == s.books
      && s2.records == s.records[resp.id := Record(bookId, memberId, t1, Some(t2))]
  {
    var (s1, resp) := BorrowStep(s, bookId, memberId, t1);
    assert s1.books[bookId].status == Borrowed;
    var (s2, resp2) := ReturnStep(s1, resp.id, t2);
    assert s2.books[bookId] == s.books[bookId];
    assert s2.books == s.books;
  }

  /** Every request in `ops` borrows `bookId` for a member of `members`. */
  ghost predicate BorrowsOf(ops: seq<Op>, bookId: int, members: set<int>)
  {
    forall k | 0 <= k < |ops| :: ops[k].BorrowOp? && ops[k].bookId == bookId && ops[k].memberId in members
  }

  /** Once a book is borrowed, further borrows of it are all refused and change nothing. */
  lemma {:induction false} BorrowsOfBorrowedBookRefused(s: Store, bookId: int, ops: seq<Op>)
    requires WellFormed(s) && bookId in s.books && s.books[bookId].status == Borrowed
    requires BorrowsOf(ops, bookId, s.members)
    ensures Run(s, ops).0 == s
    ensures forall k | 0 <= k < |ops| :: Run(s, ops).1[k] == BadRequest
    decreases |ops|
  {
    if ops != [] {
      assert ops[0].BorrowOp? && ops[0].bookId == bookId && ops[0].memberId in s.members;
      assert Apply(s, ops[0]) == (s, BadRequest);
      assert BorrowsOf(ops[1..], bookId, s.members) by {
        forall k | 0 <= k < |ops[1..]| ensures ops[1..][k] == ops[k + 1] { }
      }
      BorrowsOfBorrowedBookRefused(s, bookId, ops[1..]);
    }
  }

  /**
   * N borrows of one available book, served one after another: the first is
   * created and the other N-1 are refused with 400.
   */
  lemma SerialBorrowsOneWinner(s: Store, bookId: int, ops: seq<Op>)
    requires WellFormed(s) && bookId in s.books && s.books[bookId].status == Available
    requires |ops| > 0 && BorrowsOf(ops, bookId, s.members)
    ensures Run(s, ops).1[0].Created?
    ensures forall k | 1 <= k < |ops| :: Run(s, ops).1[k] == BadRequest
  {
    assert ops[0].BorrowOp? && ops[0].bookId == bookId && ops[0].memberId in s.members;
    var (s1, resp) := Apply(s, ops[0]);
    assert s1.books[bookId].status == Borrowed && s1.members == s.members;
    assert BorrowsOf(ops[1..], bookId, s1.members) by {
      forall k | 0 <= k < |ops[1..]| ensures ops[1..][k] == ops[k + 1] { }
    }
    BorrowsOfBorrowedBookRefused(s1, bookId, ops[1..]);
  }
}
