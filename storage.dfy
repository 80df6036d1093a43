/** `DataStorage`: the catalog document, one JSON object with the keys
    "authors", "books" and "members", each mapping entity ids to entries.
    The file and its JSON encoding are abstracted away: loading returns the
    document last saved, and saving replaces it whole. */
module Storage {
  import opened Common
  import opened Tables
  import AuthorModel
  import BookModel
  import MemberModel

  datatype Document = Document(
    authors: Table<AuthorModel.AuthorRecord>,
    books: Table<BookModel.BookRecord>,
    members: Table<MemberModel.MemberRecord>)

  /** The three tables are well formed. */
  ghost predicate WellFormed(d: Document) {
    d.authors.Valid() && d.books.Valid() && d.members.Valid()
  }

  /** The document `_ensure_data_file` writes when there is no file: three empty maps. */
  function InitialDocument(): (d: Document)
    ensures WellFormed(d)
    ensures d.authors.entries == map[] && d.books.entries == map[] && d.members.entries == map[]
  {
    Document(EmptyTable(), EmptyTable(), EmptyTable())
  }

  class DataStorage {
    var data: Document

    ghost predicate Valid()
      reads this
    {
      WellFormed(data)
    }

    /** `DataStorage()`: keeps the document already saved, or starts from the
        initial one when there is none. */
    constructor (saved: Option<Document>)
      requires saved.Some? ==> WellFormed(saved.value)
      ensures Valid()
      ensures data == if saved.Some? then saved.value else InitialDocument()
    {
      data := if saved.Some? then saved.value else InitialDocument();
    }

    /** `load_data()`: the document last saved. */
    method LoadData() returns (d: Document)
      ensures d == data
    {
      d := data;
    }

    /** `save_data(data)`: the next load returns exactly `d`. */
    method SaveData(d: Document)
      modifies this
      ensures data == d
    {
      data := d;
    }
  }
}
