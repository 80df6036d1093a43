/** `Book` and `BookStatus`: a book's catalog fields and the borrow/return
    state machine over its status, borrower and borrow date. */
module BookModel {
  import opened Common
  import Base

  /** The four members of the `BookStatus` enum. */
  datatype BookStatus = Available | Borrowed | Reserved | Maintenance

  /** The three fields `borrow` and `return_book` change. */
  datatype Lending = Lending(status: BookStatus, borrowedBy: Option<string>, borrowedDate: Option<Timestamp>)

  /** What the constructor sets: available, no borrower, no borrow date. */
  const NewLending := Lending(Available, None, None)

  /** The invariant the state machine keeps: a borrower and a borrow date are
      recorded exactly when the book is borrowed. */
  predicate Consistent(l: Lending) {
    (l.borrowedBy.Some? <==> l.status == Borrowed) && (l.borrowedDate.Some? <==> l.status == Borrowed)
  }

  /** `borrow(member_id)` (returns the flag and the new fields): it succeeds
      exactly on an available book, which becomes borrowed by `member` since
      `now`; otherwise nothing changes. */
  function BorrowStep(l: Lending, member: string, now: Timestamp): (r: (bool, Lending))
    ensures r.0 <==> l.status == Available
    ensures r.0 ==> r.1.status == Borrowed && r.1.borrowedBy == Some(member) && r.1.borrowedDate == Some(now)
    ensures !r.0 ==> r.1 == l
    ensures Consistent(l) ==> Consistent(r.1)
  {
    if l.status == Available then (true, Lending(Borrowed, Some(member), Some(now))) else (false, l)
  }

  /** `return_book()`: it succeeds exactly on a borrowed book, which becomes
      available with borrower and date cleared; in every other status
      (available, reserved, maintenance) nothing changes. */
  function ReturnStep(l: Lending): (r: (bool, Lending))
    ensures r.0 <==> l.status == Borrowed
    ensures r.0 ==> r.1 == NewLending
    ensures !r.0 ==> r.1 == l
    ensures Consistent(l) ==> Consistent(r.1)
  {
    if l.status == Borrowed then (true, NewLending) else (false, l)
  }

  /** A call of `borrow` or `return_book`. */
  datatype LendingOp = BorrowOp(member: string, at: Timestamp) | ReturnOp

  function Apply(l: Lending, op: LendingOp): Lending {
    match op
    case BorrowOp(m, t) => BorrowStep(l, m, t).1
    case ReturnOp => ReturnStep(l).1
  }

  /** The fields of a new book after the calls `ops`, in order. */
  function Run(ops: seq<LendingOp>): Lending {
    if ops == [] then NewLending else Apply(Run(ops[..|ops| - 1]), ops[|ops| - 1])
  }

  /** A book built by the constructor and changed only by `borrow` and
      `return_book` has a borrower (and a date) exactly when it is borrowed. */
  lemma {:induction false} RunConsistent(ops: seq<LendingOp>)
    ensures Consistent(Run(ops))
  {
    if ops != [] {
      RunConsistent(ops[..|ops| - 1]);
    }
  }

  /** Once a borrow succeeded, a second borrow by anyone fails until the book
      is returned, and returning it restores a new book's fields. */
  lemma BorrowTwiceFails(l: Lending, m: string, t: Timestamp, m': string, t': Timestamp)
    requires BorrowStep(l, m, t).0
    ensures !BorrowStep(BorrowStep(l, m, t).1, m', t').0
    ensures ReturnStep(BorrowStep(l, m, t).1) == (true, NewLending)
  {
  }

  /** `Book.to_dict()`, the entry stored under the book's id. */
  datatype BookRecord = BookRecord(
    id: string,
    title: string,
    authorId: string,
    isbn: string,
    pages: int,
    genre: Option<string>,
    status: BookStatus,
    borrowedBy: Option<string>,
    borrowedDate: Option<Timestamp>,
    createdAt: Timestamp,
    updatedAt: Timestamp)
  {
    function LendingState(): Lending {
      Lending(status, borrowedBy, borrowedDate)
    }

    function WithLending(l: Lending): BookRecord {
      this.(status := l.status, borrowedBy := l.borrowedBy, borrowedDate := l.borrowedDate)
    }
  }

  /** What the `isbn` setter does: raise on an empty value or one shorter than
      10 characters. */
  function CheckIsbn(value: string): (r: Outcome)
    ensures r.Pass? <==> |value| >= 10
    ensures r.Fail? ==> r.error == ValueError("ISBN must be at least 10 characters")
  {
    if value == "" || |value| < 10 then Fail(ValueError("ISBN must be at least 10 characters")) else Pass
  }

  /** What the `pages` setter does: raise on a negative count. */
  function CheckPages(value: int): (r: Outcome)
    ensures r.Pass? <==> value >= 0
    ensures r.Fail? ==> r.error == ValueError("Pages cannot be negative")
  {
    if value < 0 then Fail(ValueError("Pages cannot be negative")) else Pass
  }

  class Book {
    const base: Base.BaseEntity
    const authorId: string
    var isbn: string
    var pages: int
    const genre: Option<string>
    var status: BookStatus
    var borrowedBy: Option<string>
    var borrowedDate: Option<Timestamp>

    function LendingState(): Lending
      reads this
    {
      Lending(status, borrowedBy, borrowedDate)
    }

    /** `is_available`: the book is in the available status, and so (when its
        lending fields agree) has no borrower and no borrow date. */
    function IsAvailable(): (b: bool)
      reads this
      ensures b <==> LendingState().status == Available
      ensures b && Consistent(LendingState()) ==> borrowedBy == None && borrowedDate == None
    {
      status == Available
    }

    /** `to_dict()`: the entry holds the base's id, name (as the title) and
        timestamps, the book's catalog fields, and its lending fields. */
    function ToDict(): (r: BookRecord)
      reads this, base
      ensures r.id == base.id && r.title == base.name
      ensures r.createdAt == base.createdAt && r.updatedAt == base.updatedAt
      ensures r.authorId == authorId && r.isbn == isbn && r.pages == pages && r.genre == genre
      ensures r.LendingState() == LendingState()
    {
      BookRecord(base.id, base.name, authorId, isbn, pages, genre, status, borrowedBy, borrowedDate,
        base.createdAt, base.updatedAt)
    }

    /** `Book(title, author_id, isbn, pages, genre)`: no field is validated;
        the book starts available with no borrower and no borrow date. */
    constructor (id: string, title: string, authorId: string, isbn: string, pages: int,
                 genre: Option<string>, now: Timestamp)
      ensures fresh(base)
      ensures ToDict() == BookRecord(id, title, authorId, isbn, pages, genre, Available, None, None, now, now)
      ensures LendingState() == NewLending && Consistent(LendingState())
    {
      base := new Base.BaseEntity(id, title, now);
      this.authorId := authorId;
      this.isbn := isbn;
      this.pages := pages;
      this.genre := genre;
      status := Available;
      borrowedBy := None;
      borrowedDate := None;
    }

    /** The `isbn` setter: a rejected value leaves the book unchanged. */
    method SetIsbn(value: string) returns (r: Outcome)
      modifies this
      ensures r == CheckIsbn(value)
      ensures ToDict() == if r.Pass? then old(ToDict()).(isbn := value) else old(ToDict())
    {
      r := CheckIsbn(value);
      if r.Pass? {
        isbn := value;
      }
    }

    /** The `pages` setter: a rejected value leaves the book unchanged. */
    method SetPages(value: int) returns (r: Outcome)
      modifies this
      ensures r == CheckPages(value)
      ensures ToDict() == if r.Pass? then old(ToDict()).(pages := value) else old(ToDict())
    {
      r := CheckPages(value);
      if r.Pass? {
        pages := value;
      }
    }

    /** `borrow(member_id)`: the lending fields take the step BorrowStep gives,
        and no other field changes. */
    method Borrow(memberId: string, now: Timestamp) returns (ok: bool)
      modifies this
      ensures (ok, LendingState()) == BorrowStep(old(LendingState()), memberId, now)
      ensures ToDict() == old(ToDict()).WithLending(LendingState())
      ensures old(Consistent(LendingState())) ==> Consistent(LendingState())
    {
      if IsAvailable() {
        status := Borrowed;
        borrowedBy := Some(memberId);
        borrowedDate := Some(now);
        return true;
      }
      return false;
    }

    /** `return_book()`: the lending fields take the step ReturnStep gives, and
        no other field changes. */
    method ReturnBook() returns (ok: bool)
      modifies this
      ensures (ok, LendingState()) == ReturnStep(old(LendingState()))
      ensures ToDict() == old(ToDict()).WithLending(LendingState())
      ensures old(Consistent(LendingState())) ==> Consistent(LendingState())
    {
      if status == Borrowed {
        status := Available;
        borrowedBy := None;
        borrowedDate := None;
        return true;
      }
      return false;
    }
  }
}
