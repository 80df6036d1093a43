/** `Member`: a base entity with contact fields and the ordered list of the
    ids of the books it has borrowed. */
module MemberModel {
  import opened Common
  import IdLists
  import Base

  /** `Member.to_dict()`, the entry stored under the member's id. The membership
      id may be None, because the catalog service passes the optional phone in
      that position. */
  datatype MemberRecord = MemberRecord(
    id: string,
    name: string,
    email: string,
    membershipId: Option<string>,
    phone: Option<string>,
    borrowedBooks: seq<string>,
    createdAt: Timestamp,
    updatedAt: Timestamp)

  class Member {
    const base: Base.BaseEntity
    const email: string
    const membershipId: Option<string>
    const phone: Option<string>
    var borrowedBooks: seq<string>

    /** The borrowed list holds each id once. */
    ghost predicate Valid()
      reads this
    {
      IdLists.NoDuplicates(borrowedBooks)
    }

    /** `to_dict()`: the entry holds the base's id, name and timestamps, the
        contact fields and the borrowed list, which names each book once when
        the member is valid. */
    function ToDict(): (r: MemberRecord)
      reads this, base
      ensures r.id == base.id && r.name == base.name
      ensures r.createdAt == base.createdAt && r.updatedAt == base.updatedAt
      ensures r.email == email && r.membershipId == membershipId && r.phone == phone
      ensures r.borrowedBooks == borrowedBooks
      ensures Valid() ==> IdLists.NoDuplicates(r.borrowedBooks)
    {
      MemberRecord(base.id, base.name, email, membershipId, phone, borrowedBooks, base.createdAt, base.updatedAt)
    }

    /** `Member(name, email, membership_id, phone)`: stored as given, with an
        empty borrowed list. */
    constructor (id: string, name: string, email: string, membershipId: Option<string>,
                 phone: Option<string>, now: Timestamp)
      ensures fresh(base) && Valid()
      ensures ToDict() == MemberRecord(id, name, email, membershipId, phone, [], now, now)
    {
      base := new Base.BaseEntity(id, name, now);
      this.email := email;
      this.membershipId := membershipId;
      this.phone := phone;
      borrowedBooks := [];
    }

    /** `borrow_book(book_id)`: appends the id only when it is absent. Like the
        source it returns nothing (Python's None). */
    method BorrowBook(bookId: string)
      modifies this
      ensures borrowedBooks == IdLists.Added(old(borrowedBooks), bookId)
      ensures old(Valid()) ==> Valid()
    {
      if bookId !in borrowedBooks {
        borrowedBooks := borrowedBooks + [bookId];
      }
    }

    /** `return_book(book_id)`: removes the id when present, otherwise does
        nothing; returns nothing (Python's None). */
    method ReturnBook(bookId: string)
      modifies this
      ensures borrowedBooks == IdLists.Removed(old(borrowedBooks), bookId)
      ensures old(Valid()) ==> Valid() && bookId !in borrowedBooks
    {
      if bookId in borrowedBooks {
        ghost var before := borrowedBooks;
        borrowedBooks := IdLists.Removed(borrowedBooks, bookId);
        if IdLists.NoDuplicates(before) {
          IdLists.RemovedNoDuplicates(before, bookId);
        }
      }
    }
  }
}
