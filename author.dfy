/** `Author`: a base entity with a biography, a birth year and the ordered list
    of its books' ids. */
module AuthorModel {
  import opened Common
  import Text
  import IdLists
  import Base

  /** `Author.to_dict()`, the entry stored under the author's id. */
  datatype AuthorRecord = AuthorRecord(
    id: string,
    name: string,
    biography: Option<string>,
    birthYear: Option<int>,
    books: seq<string>,
    createdAt: Timestamp,
    updatedAt: Timestamp)

  /** What the `biography` setter stores: None for None or "" (the falsy
      values), otherwise the stripped text, which may be "" for a blank one. */
  function BiographyValue(value: Option<string>): (r: Option<string>)
    ensures r.None? <==> value == None || value == Some("")
    ensures r.Some? ==> r.value == Text.Strip(value.value) && (r.value == "" <==> Text.Blank(value.value))
  {
    if value.Some? && value.value != "" then Some(Text.Strip(value.value)) else None
  }

  /** What the `birth_year` setter does: a truthy year outside 1800..2024
      raises; None and 0 (falsy) are accepted, like every year in range. */
  function CheckBirthYear(value: Option<int>): (r: Outcome)
    ensures r.Pass? <==> value == None || value == Some(0) || 1800 <= value.value <= 2024
    ensures r.Fail? ==> r.error == ValueError("Birth year must be between 1800 and 2024")
  {
    if value.Some? && value.value != 0 && (value.value < 1800 || value.value > 2024) then
      Fail(ValueError("Birth year must be between 1800 and 2024"))
    else Pass
  }

  class Author {
    const base: Base.BaseEntity
    var biography: Option<string>
    var birthYear: Option<int>
    var books: seq<string>

    /** The book list holds each id once. */
    ghost predicate Valid()
      reads this
    {
      IdLists.NoDuplicates(books)
    }

    /** `to_dict()`: the entry holds the base's id, name and timestamps, the
        biography, the birth year and a copy of the book list, which names
        each book once when the author is valid. */
    function ToDict(): (r: AuthorRecord)
      reads this, base
      ensures r.id == base.id && r.name == base.name
      ensures r.createdAt == base.createdAt && r.updatedAt == base.updatedAt
      ensures r.biography == biography && r.birthYear == birthYear && r.books == Books()
      ensures Valid() ==> IdLists.NoDuplicates(r.books)
    {
      AuthorRecord(base.id, base.name, biography, birthYear, Books(), base.createdAt, base.updatedAt)
    }

    /** The `books` getter. It returns a copy: a Dafny sequence is a value, so
        what the caller does with it cannot reach the author. */
    function Books(): (r: seq<string>)
      reads this
      ensures |r| == |books| && forall i :: 0 <= i < |r| ==> r[i] == books[i]
      ensures Valid() ==> IdLists.NoDuplicates(r)
    {
      books
    }

    /** `Author(name, biography, birth_year)`: the values are stored as given,
        without the setters' checks; the book list starts empty. */
    constructor (id: string, name: string, biography: Option<string>, birthYear: Option<int>, now: Timestamp)
      ensures fresh(base) && Valid()
      ensures ToDict() == AuthorRecord(id, name, biography, birthYear, [], now, now)
    {
      base := new Base.BaseEntity(id, name, now);
      this.biography := biography;
      this.birthYear := birthYear;
      books := [];
    }

    /** The `biography` setter. */
    method SetBiography(value: Option<string>)
      modifies this
      ensures ToDict() == old(ToDict()).(biography := BiographyValue(value))
      ensures books == old(books)
    {
      biography := BiographyValue(value);
    }

    /** The `birth_year` setter: a rejected year leaves the author unchanged. */
    method SetBirthYear(value: Option<int>) returns (r: Outcome)
      modifies this
      ensures r == CheckBirthYear(value)
      ensures ToDict() == if r.Pass? then old(ToDict()).(birthYear := value) else old(ToDict())
      ensures books == old(books)
    {
      r := CheckBirthYear(value);
      if r.Pass? {
        birthYear := value;
      }
    }

    /** `add_book(book_id)`: appends the id only when it is absent. */
    method AddBook(bookId: string)
      modifies this
      ensures books == IdLists.Added(old(books), bookId)
      ensures biography == old(biography) && birthYear == old(birthYear)
      ensures old(Valid()) ==> Valid()
    {
      if bookId !in books {
        books := books + [bookId];
      }
    }

    /** `remove_book(book_id)`: removes the id when present, otherwise does nothing. */
    method RemoveBook(bookId: string)
      modifies this
      ensures books == IdLists.Removed(old(books), bookId)
      ensures biography == old(biography) && birthYear == old(birthYear)
      ensures old(Valid()) ==> Valid() && bookId !in books
    {
      if bookId in books {
        ghost var before := books;
        books := IdLists.Removed(books, bookId);
        if IdLists.NoDuplicates(before) {
          IdLists.RemovedNoDuplicates(before, bookId);
        }
      }
    }
  }
}
