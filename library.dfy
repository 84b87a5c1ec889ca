/** The school library (library/models.py, library/views.py,
    library/tasks.py): books with their available-copy counter, borrow
    records, lending and returning, and the nightly overdue sweep. Dates
    are day numbers. */
module Library {
  import opened Common

  /** One Book row. */
  datatype Book = Book(
    tenant: TenantId,
    title: string,
    author: string,
    isbn: string,
    filiere: Option<nat>,
    category: string,
    quantity: int,
    available: int)

  /** A book entered with its counters left at their defaults. */
  function NewBook(tenant: TenantId, title: string, author: string, isbn: string, category: string): Book {
    Book(tenant, title, author, isbn, None, category, 1, 1)
  }

  datatype BorrowStatus = Borrowed | Returned | Overdue | Lost

  /** One BorrowRecord row. */
  datatype BorrowRecord = BorrowRecord(
    tenant: TenantId,
    book: nat,
    student: UserId,
    borrowedAt: int,
    dueDate: int,
    returnedAt: Option<int>,
    status: BorrowStatus,
    fineAmount: real)

  /** A record created with only its required columns: borrowed, no fine,
      not returned. */
  function NewRecord(tenant: TenantId, book: nat, student: UserId, now: int, dueDate: int): BorrowRecord {
    BorrowRecord(tenant, book, student, now, dueDate, None, Borrowed, 0.0)
  }

  /** The defaults: one copy, one available, a record borrowed with no fine. */
  lemma Defaults(tenant: TenantId, title: string, author: string, isbn: string, category: string,
                 book: nat, student: UserId, now: int, dueDate: int)
    ensures NewBook(tenant, title, author, isbn, category).quantity == 1
    ensures NewBook(tenant, title, author, isbn, category).available == 1
    ensures NewRecord(tenant, book, student, now, dueDate).status == Borrowed
    ensures NewRecord(tenant, book, student, now, dueDate).fineAmount == 0.0
    ensures NewRecord(tenant, book, student, now, dueDate).returnedAt.None?
  {
  }

  /** `BorrowRecord.is_overdue` on day `today`. */
  function IsOverdue(r: BorrowRecord, today: int): (overdue: bool)
    ensures overdue ==> r.status == Borrowed && r.dueDate < today
    ensures r.status == Borrowed && r.dueDate < today ==> overdue
  {
    r.status == Borrowed && r.dueDate < today
  }

  /** A record due today is not yet overdue, and one the sweep has already
      marked `overdue` (or returned, or lost) is never reported overdue. */
  lemma OverdueEdgeCases(r: BorrowRecord, today: int)
    ensures r.dueDate == today ==> !IsOverdue(r, today)
    ensures r.status != Borrowed ==> !IsOverdue(r, today)
    ensures IsOverdue(r, today) ==> IsOverdue(r, today + 1)
  {
  }

  /** The loan period of `borrow_book`. */
  const LoanDays := 14

  // ---------------------------------------------------------------------
  // The tables
  // ---------------------------------------------------------------------

  /** The books once programme `f` is deleted: each stays, and a book of
      that programme loses the link (SET_NULL). */
  function BooksDetached(books: map<nat, Book>, f: nat): map<nat, Book> {
    map k | k in books :: if books[k].filiere == Some(f) then books[k].(filiere := None) else books[k]
  }

  /** Detaching keeps every book with its counters; no book is left linked
      to the deleted programme, and the others keep their link. */
  lemma BooksDetachedKeepsCounters(books: map<nat, Book>, f: nat)
    ensures BooksDetached(books, f).Keys == books.Keys
    ensures forall k :: k in books ==>
      var b := BooksDetached(books, f)[k];
      b.(filiere := books[k].filiere) == books[k] && b.filiere != Some(f) &&
      (books[k].filiere != Some(f) ==> b == books[k])
  {
  }

  class LibraryDb {
    var books: map<nat, Book>
    var records: map<nat, BorrowRecord>
    var nextRecord: nat

    /** Record keys come from a counter starting at 1 and every record
        points at a stored book. */
    ghost predicate Valid()
      reads this
    {
      1 <= nextRecord &&
      forall k :: k in records ==> 1 <= k < nextRecord && records[k].book in books
    }

    constructor (books: map<nat, Book>)
      ensures Valid() && this.books == books && records == map[]
    {
      this.books := books;
      records := map[];
      nextRecord := 1;
    }

    /** `BorrowRecord.objects.create(...)`. */
    method CreateRecord(r: BorrowRecord) returns (key: nat)
      requires Valid() && r.book in books
      modifies this`records, this`nextRecord
      ensures Valid()
      ensures key == old(nextRecord) && key !in old(records) && records == old(records)[key := r]
    {
      key := nextRecord;
      nextRecord := nextRecord + 1;
      records := records[key := r];
    }

    /** The SET_NULL the database applies to this table when a programme is
        deleted. */
    method DetachFiliere(f: nat)
      requires Valid()
      modifies this`books
      ensures Valid()
      ensures books == BooksDetached(old(books), f)
    {
      BooksDetachedKeepsCounters(books, f);
      books := BooksDetached(books, f);
    }

    /** `book.save()` after adjusting its counter. */
    method SetAvailable(b: nat, available: int)
      requires Valid() && b in books
      modifies this`books
      ensures Valid()
      ensures books == old(books)[b := old(books)[b].(available := available)]
    {
      books := books[b := books[b].(available := available)];
    }
  }

  // ---------------------------------------------------------------------
  // library/views.py
  // ---------------------------------------------------------------------

  /** `book_list`: the school's books (shown ordered by title). */
  function BookList(books: map<nat, Book>, tenant: TenantId): (r: set<nat>)
    ensures forall k :: k in r <==> k in books && books[k].tenant == tenant
  {
    set k | k in books && books[k].tenant == tenant
  }

  /** Lending and returning change counters only, never which books the
      list shows. */
  lemma CountersDoNotChangeBookList(books: map<nat, Book>, tenant: TenantId, b: nat, available: int)
    requires b in books
    ensures BookList(books[b := books[b].(available := available)], tenant) == BookList(books, tenant)
  {
  }

  datatype BorrowOutcome = BookNotFound | NotAvailable | BorrowedAs(record: nat)

  /** `borrow_book`: a book of another school (or none) is not found; with
      a copy available one record due in fourteen days is created and the
      counter drops by one; otherwise nothing changes. */
  method BorrowBook(db: LibraryDb, tenant: TenantId, student: UserId, bookId: nat, today: int, now: int)
    returns (outcome: BorrowOutcome)
    requires db.Valid()
    modifies db
    ensures db.Valid()
    ensures outcome == BookNotFound <==> !(bookId in old(db.books) && old(db.books)[bookId].tenant == tenant)
    ensures outcome == NotAvailable <==>
      bookId in old(db.books) && old(db.books)[bookId].tenant == tenant && old(db.books)[bookId].available <= 0
    ensures !outcome.BorrowedAs? ==> unchanged(db)
    ensures outcome.BorrowedAs? ==>
      var b := old(db.books)[bookId];
      outcome.record !in old(db.records) &&
      db.records == old(db.records)[outcome.record := NewRecord(tenant, bookId, student, now, today + LoanDays)] &&
      db.books == old(db.books)[bookId := b.(available := b.available - 1)] &&
      b.available > 0 && db.books[bookId].available >= 0
  {
    if bookId !in db.books || db.books[bookId].tenant != tenant {
      return BookNotFound;
    }
    var book := db.books[bookId];
    if book.available > 0 {
      var key := db.CreateRecord(NewRecord(tenant, bookId, student, now, today + LoanDays));
      db.SetAvailable(bookId, book.available - 1);
      return BorrowedAs(key);
    }
    return NotAvailable;
  }

  /** The records `return_book` can find for this student and school. */
  predicate Returnable(records: map<nat, BorrowRecord>, recordId: nat, tenant: TenantId, student: UserId) {
    recordId in records && records[recordId].student == student && records[recordId].tenant == tenant &&
    (records[recordId].status == Borrowed || records[recordId].status == Overdue)
  }

  /** `return_book`: only the student's own borrowed or overdue record of
      this school is found; it becomes returned and its book gains one
      available copy, with no cap at the quantity. The return time is
      today's date stored into a date-time column, i.e. midnight of today. */
  method ReturnBook(db: LibraryDb, tenant: TenantId, student: UserId, recordId: nat, today: int)
    returns (found: bool)
    requires db.Valid()
    modifies db
    ensures db.Valid()
    ensures found == Returnable(old(db.records), recordId, tenant, student)
    ensures !found ==> unchanged(db)
    ensures found ==>
      var r := old(db.records)[recordId];
      var b := old(db.books)[r.book];
      db.records == old(db.records)[recordId := r.(status := Returned, returnedAt := Some(today * SecondsPerDay))] &&
      db.books == old(db.books)[r.book := b.(available := b.available + 1)] &&
      db.nextRecord == old(db.nextRecord)
  {
    if !Returnable(db.records, recordId, tenant, student) {
      return false;
    }
    var record := db.records[recordId];
    db.records := db.records[recordId := record.(status := Returned, returnedAt := Some(today * SecondsPerDay))];
    var book := db.books[record.book];
    db.SetAvailable(record.book, book.available + 1);
    return true;
  }

  /** Borrowing a copy and returning that record restores the counter and
      leaves the record returned: a full round trip. Returned on the day it
      was borrowed, the record's return time (midnight) is no later than its
      borrow time. */
  method BorrowThenReturn(db: LibraryDb, tenant: TenantId, student: UserId, bookId: nat, today: int, now: int)
    returns (outcome: BorrowOutcome)
    requires db.Valid()
    modifies db
    ensures db.Valid()
    ensures db.books == old(db.books)
    ensures outcome.BorrowedAs? ==>
      outcome.record !in old(db.records) && db.records.Keys == old(db.records).Keys + {outcome.record} &&
      db.records[outcome.record].status == Returned &&
      db.records[outcome.record].returnedAt == Some(today * SecondsPerDay) &&
      db.records[outcome.record].borrowedAt == now &&
      (today == now / SecondsPerDay ==> db.records[outcome.record].returnedAt.value <= now)
  {
    outcome := BorrowBook(db, tenant, student, bookId, today, now);
    if outcome.BorrowedAs? {
      var found := ReturnBook(db, tenant, student, outcome.record, today);
      assert found;
    }
  }

  // ---------------------------------------------------------------------
  // library/tasks.py
  // ---------------------------------------------------------------------

  /** The records `send_overdue_reminders` selects, across all schools. */
  function DueKeys(records: map<nat, BorrowRecord>, today: int): (ks: set<nat>)
    ensures forall k :: k in ks <==> k in records && IsOverdue(records[k], today)
  {
    set k | k in records && records[k].status == Borrowed && records[k].dueDate < today
  }

  /** `after` is `before` once the sweep of day `today` has run: same keys,
      every overdue record marked `overdue`, every other record untouched. */
  ghost predicate SweptFrom(before: map<nat, BorrowRecord>, after: map<nat, BorrowRecord>, today: int) {
    after.Keys == before.Keys &&
    forall k :: k in before ==>
      after[k] == if IsOverdue(before[k], today) then before[k].(status := Overdue) else before[k]
  }

  /** After the sweep no record is overdue, and running it again the same
      day changes nothing. */
  lemma SweepIdempotent(a: map<nat, BorrowRecord>, b: map<nat, BorrowRecord>, c: map<nat, BorrowRecord>, today: int)
    requires SweptFrom(a, b, today)
    ensures forall k :: k in b ==> !IsOverdue(b[k], today)
    ensures DueKeys(b, today) == {}
    ensures SweptFrom(b, c, today) ==> c == b
  {
    if SweptFrom(b, c, today) {
      forall k | k in c ensures c[k] == b[k] {
        assert !IsOverdue(b[k], today);
      }
    }
  }

  /** `send_overdue_reminders`: marks every selected record `overdue` (the
      reminder mail is not modelled) and returns how many it selected. */
  method SendOverdueReminders(db: LibraryDb, today: int) returns (count: nat)
    requires db.Valid()
    modifies db`records
    ensures db.Valid()
    ensures SweptFrom(old(db.records), db.records, today)
    ensures count == |DueKeys(old(db.records), today)|
  {
    var selected := ListOf(DueKeys(db.records, today));
    ghost var before := db.records;
    ghost var done: set<nat> := {};
    var i := 0;
    while i < |selected|
      invariant 0 <= i <= |selected|
      invariant db.Valid()
      invariant forall x :: x in done <==> x in selected[..i]
      invariant db.records.Keys == before.Keys
      invariant forall k :: k in before ==>
        db.records[k] == if k in done then before[k].(status := Overdue) else before[k]
    {
      var k := selected[i];
      db.records := db.records[k := db.records[k].(status := Overdue)];
      done := done + {k};
      assert selected[..i + 1] == selected[..i] + [k];
      i := i + 1;
    }
    assert selected[..i] == selected;
    count := |selected|;
  }
}
