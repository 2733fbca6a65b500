/**
 * The catalog and loan records of the library (library/models.py) as values,
 * the save hook of a borrow record as a function on the whole store, and the
 * two loan invariants the lending ledger is meant to keep.
 */
module Models {

  datatype Option<T> = None | Some(value: T)

  // ---------------------------------------------------------------------------
  // Enumerations
  // ---------------------------------------------------------------------------

  /** Book.STATUS_CHOICES: the two values of availability_status. */
  datatype Status = Available | Borrowed

  /** The value stored in the database for a status. */
  function StatusTag(st: Status): string
  {
    match st
    case Available => "available"
    case Borrowed => "borrowed"
  }

  /** Choice validation of a stored status value: which status it names, if any. */
  function ParseStatus(tag: string): (st: Option<Status>)
    ensures st.Some? ==> StatusTag(st.value) == tag
    ensures st.None? ==> tag != "available" && tag != "borrowed"
  {
    if tag == "available" then Some(Available)
    else if tag == "borrowed" then Some(Borrowed)
    else None
  }

  lemma StatusTagRoundTrip(st: Status)
    ensures ParseStatus(StatusTag(st)) == Some(st)
  {
  }

  /** Book.CATEGORY_CHOICES: the eight category tags of a book. */
  datatype Category =
    | Fiction | NonFiction | Science | Technology
    | History | Biography | Philosophy | Other

  /** The value stored in the database for a category. */
  function CategoryTag(c: Category): string
  {
    match c
    case Fiction => "fiction"
    case NonFiction => "non-fiction"
    case Science => "science"
    case Technology => "technology"
    case History => "history"
    case Biography => "biography"
    case Philosophy => "philosophy"
    case Other => "other"
  }

  /** Choice validation of a stored category value. */
  function ParseCategory(tag: string): (c: Option<Category>)
    ensures c.Some? ==> CategoryTag(c.value) == tag
  {
    match tag
    case "fiction" => Some(Fiction)
    case "non-fiction" => Some(NonFiction)
    case "science" => Some(Science)
    case "technology" => Some(Technology)
    case "history" => Some(History)
    case "biography" => Some(Biography)
    case "philosophy" => Some(Philosophy)
    case "other" => Some(Other)
    case _ => None
  }

  lemma CategoryTagRoundTrip(c: Category)
    ensures ParseCategory(CategoryTag(c)) == Some(c)
  {
  }

  /** Distinct categories are stored under distinct tags. */
  lemma CategoryTagInjective(c: Category, d: Category)
    requires CategoryTag(c) == CategoryTag(d)
    ensures c == d
  {
    CategoryTagRoundTrip(c);
    CategoryTagRoundTrip(d);
  }

  // ---------------------------------------------------------------------------
  // Entities
  // ---------------------------------------------------------------------------

  /** A Book row; `author` is the id of its Author. */
  datatype Book = Book(title: string, author: int, isbn: string, category: Category, status: Status)

  /**
   * A book as created from the fields a caller supplies: the category
   * defaults to `other` and the availability status to `available` when the
   * caller gives none; a status the caller gives (the book serializer accepts
   * one) is kept as given.
   */
  function NewBook(title: string, author: int, isbn: string, category: Option<Category>, status: Option<Status>): (b: Book)
    ensures category.None? ==> b.category == Other
    ensures category.Some? ==> b.category == category.value
    ensures status.None? ==> b.status == Available
    ensures status.Some? ==> b.status == status.value
    ensures b.title == title && b.author == author && b.isbn == isbn
  {
    Book(title, author, isbn,
      if category.Some? then category.value else Other,
      if status.Some? then status.value else Available)
  }

  /**
   * A BorrowRecord row: the ids of its book and member, the borrow time and
   * the return time, absent while the loan is open. Time is an abstract clock.
   */
  datatype Record = Record(book: int, member: int, borrowDate: nat, returnDate: Option<nat>)

  predicate Open(r: Record)
  {
    r.returnDate.None?
  }

  /** A record as created for a loan at time `now`: borrowed now, not yet returned. */
  function NewRecord(book: int, member: int, now: nat): (r: Record)
    ensures Open(r) && r.borrowDate == now
    ensures r.book == book && r.member == member
  {
    Record(book, member, now, None)
  }

  // ---------------------------------------------------------------------------
  // The store and its invariants
  // ---------------------------------------------------------------------------

  /**
   * The rows the ledger reads and writes: books and borrow records by id, the
   * ids of the members, and the next id the database hands to a new record.
   */
  datatype Store = Store(books: map<int, Book>, members: set<int>, records: map<int, Record>, nextId: int)

  /**
   * What the database itself guarantees: record ids are handed out from 1
   * upwards, so every stored id is positive and below the next one, and every
   * record refers to an existing book and member.
   */
  ghost predicate WellFormed(s: Store)
  {
    && 0 < s.nextId
    && forall id | id in s.records ::
      0 < id < s.nextId && s.records[id].book in s.books && s.records[id].member in s.members
  }

  /** Book `b` has an unreturned borrow record. */
  ghost predicate HasOpenLoan(s: Store, b: int)
  {
    exists id :: id in s.records && s.records[id].book == b && Open(s.records[id])
  }

  /** A book is borrowed exactly when it has an open loan. */
  ghost predicate FlagsMatchLoans(s: Store)
  {
    forall b | b in s.books :: s.books[b].status == Borrowed <==> HasOpenLoan(s, b)
  }

  /** No book has two open loans. */
  ghost predicate AtMostOneOpenLoan(s: Store)
  {
    forall i, j | i in s.records && j in s.records ::
      Open(s.records[i]) && Open(s.records[j]) && s.records[i].book == s.records[j].book ==> i == j
  }

  ghost predicate LoanInvariant(s: Store)
  {
    FlagsMatchLoans(s) && AtMostOneOpenLoan(s)
  }

  // ---------------------------------------------------------------------------
  // BorrowRecord.save
  // ---------------------------------------------------------------------------

  /**
   * Saving record `rec` under primary key `pk` (None for a record not yet in
   * the database). A new record first marks its book borrowed and gets the
   * next id; an existing record that carries a return date first marks its
   * book available; an existing open record leaves the book alone. Then the
   * record is written. The result is the new store and the record's id.
   * A stored key is never 0 (ids start at 1), so "has no key" is `pk.None?`.
   */
  function SaveHook(s: Store, pk: Option<int>, rec: Record): (r: (Store, int))
    requires rec.book in s.books
    requires pk.Some? ==> pk.value in s.records && 0 < pk.value
    ensures WellFormed(s) && rec.member in s.members ==> WellFormed(r.0)
    ensures r.0.members == s.members
    ensures r.0.records == s.records[r.1 := rec]
  {
    if pk.None? then
      var id := s.nextId;
      var book := s.books[rec.book].(status := Borrowed);
      (Store(s.books[rec.book := book], s.members, s.records[id := rec], s.nextId + 1), id)
    else if rec.returnDate.Some? then
      var book := s.books[rec.book].(status := Available);
      (s.(books := s.books[rec.book := book], records := s.records[pk.value := rec]), pk.value)
    else
      (s.(records := s.records[pk.value := rec]), pk.value)
  }

  /** A new record gets a fresh id and marks its book borrowed, whatever its status was. */
  lemma SaveNewMarksBorrowed(s: Store, rec: Record)
    requires WellFormed(s) && rec.book in s.books
    ensures var (s', id) := SaveHook(s, None, rec);
      && id !in s.records && s'.records.Keys == s.records.Keys + {id}
      && s'.books[rec.book].status == Borrowed
      && s'.nextId > id
  {
  }

  /** Re-saving an existing record that has a return date marks its book available. */
  lemma SaveReturnedMarksAvailable(s: Store, pk: int, rec: Record)
    requires rec.book in s.books && pk in s.records && 0 < pk && rec.returnDate.Some?
    ensures var (s', id) := SaveHook(s, Some(pk), rec);
      id == pk && s'.books[rec.book].status == Available && s'.nextId == s.nextId
  {
  }

  /** Re-saving an existing open record leaves every book as it was. */
  lemma SaveOpenKeepsBooks(s: Store, pk: int, rec: Record)
    requires rec.book in s.books && pk in s.records && 0 < pk && Open(rec)
    ensures var (s', id) := SaveHook(s, Some(pk), rec);
      id == pk && s'.books == s.books && s'.nextId == s.nextId
  {
  }

  /**
   * The hook touches only the record's own book: every other book, every
   * other record and the member set are as they were, and the own book keeps
   * all its fields but the status.
   */
  lemma SaveTouchesOnlyOwnBook(s: Store, pk: Option<int>, rec: Record)
    requires rec.book in s.books
    requires pk.Some? ==> pk.value in s.records && 0 < pk.value
    ensures var (s', id) := SaveHook(s, pk, rec);
      && s'.books.Keys == s.books.Keys
      && (forall b | b in s.books && b != rec.book :: s'.books[b] == s.books[b])
      && s'.books[rec.book].(status := s.books[rec.book].status) == s.books[rec.book]
      && (forall i | i in s.records && i != id :: i in s'.records && s'.records[i] == s.records[i])
  {
  }
}
