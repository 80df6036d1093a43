/** `LibraryService`: each transaction loads the catalog document, rebuilds the
    entities it needs, changes them through their own methods and saves the
    changed document. Every method is proved to compute the matching function
    of `Catalog` on the document it found, so what is proved there about
    results, frames and invariants holds of these methods.

    Ids (`uuid4`) and the clock (`datetime.now()`) are parameters: `id` is the
    fresh id the new entity receives, `now` the time read during the call. */
module LibraryService {
  import opened Common
  import opened Tables
  import opened Storage
  import Text
  import IdLists
  import opened BookModel
  import opened AuthorModel
  import opened MemberModel
  import Catalog

  /** The error `borrow_book` raises by reading `member.can_borrow`, which `Member` does not define. */
  const CanBorrowMissing := AttributeError("'Member' object has no attribute 'can_borrow'")

  /** `results[j].to_dict()` is, for each `j`, the book `get_book(keys[j])`
      rebuilds at time `now` from `books`. */
  ghost predicate Rebuilds(results: seq<Book>, books: map<string, BookRecord>, keys: seq<string>, now: Timestamp)
    reads results, set j | 0 <= j < |results| :: results[j].base
  {
    && |results| == |keys|
    && forall j :: 0 <= j < |results| ==>
         keys[j] in books && results[j].ToDict() == Catalog.RebuiltBook(books[keys[j]], now)
  }

  /** The book rebuilt from entry `k` extends what the results rebuild by `k`. */
  lemma RebuildsAppend(results: seq<Book>, books: map<string, BookRecord>, keys: seq<string>, now: Timestamp,
                       book: Book, k: string)
    requires Rebuilds(results, books, keys, now)
    requires k in books && book.ToDict() == Catalog.RebuiltBook(books[k], now)
    ensures Rebuilds(results + [book], books, keys + [k], now)
  {
    var r, ks := results + [book], keys + [k];
    forall j | 0 <= j < |r|
      ensures ks[j] in books && r[j].ToDict() == Catalog.RebuiltBook(books[ks[j]], now)
    {
      if j < |results| {
        assert r[j] == results[j] && ks[j] == keys[j];
      }
    }
  }

  class LibraryService {
    const storage: DataStorage

    /** `LibraryService()`: opens the storage, which holds the document saved
        before, or the initial one. */
    constructor (saved: Option<Document>)
      requires saved.Some? ==> WellFormed(saved.value)
      ensures fresh(storage) && storage.Valid()
      ensures storage.data == if saved.Some? then saved.value else InitialDocument()
    {
      storage := new DataStorage(saved);
    }

    // -------------------------------------------------------------------
    // Authors

    /** `create_author`. */
    method CreateAuthor(id: string, name: string, biography: Option<string>, birthYear: Option<int>,
                        now: Timestamp) returns (author: Author)
      requires storage.Valid()
      modifies storage
      ensures storage.Valid() && fresh(author) && fresh(author.base)
      ensures (author.ToDict(), storage.data) == Catalog.CreateAuthor(old(storage.data), id, name, biography, birthYear, now)
    {
      author := new Author(id, name, biography, birthYear, now);
      var data := storage.LoadData();
      data := data.(authors := data.authors.Put(author.base.id, author.ToDict()));
      storage.SaveData(data);
    }

    /** `get_author`: the stored fields feed a new `Author`, which then takes
        the stored id. */
    method GetAuthor(authorId: string, now: Timestamp) returns (author: Author?)
      ensures author == null <==> authorId !in storage.data.authors.entries
      ensures author != null ==>
                fresh(author) && fresh(author.base) && author.Valid() &&
                Some(author.ToDict()) == Catalog.AuthorView(storage.data, authorId, now)
    {
      var data := storage.LoadData();
      var found := data.authors.Get(authorId);
      if found.Some? {
        var a := found.value;
        author := new Author(a.id, a.name, a.biography, a.birthYear, now);
      } else {
        author := null;
      }
    }

    /** `get_all_authors`: one rebuilt author per entry, in the document's order. */
    method GetAllAuthors(now: Timestamp) returns (authors: seq<Author>)
      requires storage.Valid()
      ensures |authors| == |storage.data.authors.keys|
      ensures forall i :: 0 <= i < |authors| ==>
                fresh(authors[i]) && fresh(authors[i].base) &&
                authors[i].ToDict() == Catalog.RebuiltAuthor(storage.data.authors.entries[storage.data.authors.keys[i]], now)
    {
      var data := storage.LoadData();
      authors := [];
      var i := 0;
      while i < |data.authors.keys|
        invariant 0 <= i <= |data.authors.keys| && |authors| == i
        invariant forall j :: 0 <= j < i ==>
                    fresh(authors[j]) && fresh(authors[j].base) &&
                    authors[j].ToDict() == Catalog.RebuiltAuthor(data.authors.entries[data.authors.keys[j]], now)
      {
        var a := data.authors.entries[data.authors.keys[i]];
        var author := new Author(a.id, a.name, a.biography, a.birthYear, now);
        authors := authors + [author];
        i := i + 1;
      }
    }

    /** The setters `update_author` calls on the rebuilt author, for the keys
        the patch holds, in their order; the first one that raises stops it. */
    method Patch(author: Author, patch: Catalog.AuthorPatch, now: Timestamp) returns (r: Result<AuthorRecord>)
      modifies author, author.base
      ensures r == Catalog.ApplyPatch(old(author.ToDict()), patch, now)
      ensures r.Success? ==> author.ToDict() == r.value
    {
      ghost var rebuilt := author.ToDict();
      if patch.name.Some? {
        var outcome := author.base.SetName(patch.name.value, now);
        if outcome.Fail? {
          return Failure(outcome.error);
        }
      }
      ghost var named := author.ToDict();
      assert Catalog.NamePatched(rebuilt, patch, now) == Success(named);
      if patch.biography.Some? {
        author.SetBiography(patch.biography.value);
      }
      assert author.ToDict() == Catalog.BiographyPatched(named, patch);
      if patch.birthYear.Some? {
        var outcome := author.SetBirthYear(patch.birthYear.value);
        if outcome.Fail? {
          return Failure(outcome.error);
        }
      }
      r := Success(author.ToDict());
    }

    /** `update_author`: null for an unknown id; a setter that raises turns
        into a RuntimeError; otherwise the rebuilt author's entry is saved. */
    method UpdateAuthor(authorId: string, patch: Catalog.AuthorPatch, now: Timestamp) returns (r: Result<Author?>)
      requires storage.Valid()
      modifies storage
      ensures storage.Valid()
      ensures var spec := Catalog.UpdateAuthor(old(storage.data), authorId, patch, now);
        && storage.data == spec.1
        && (r.Failure? <==> spec.0.Failure?)
        && (r.Failure? ==> r.error == spec.0.error)
        && (r.Success? ==> (r.value == null <==> spec.0.value.None?))
        && (r.Success? && r.value != null ==> fresh(r.value) && r.value.ToDict() == spec.0.value.value)
    {
      var author := GetAuthor(authorId, now);
      if author == null {
        return Success(null);
      }
      var patched := Patch(author, patch, now);
      if patched.Failure? {
        return Failure(RuntimeError("Failed to update author: " + patched.error.message));
      }
      var data := storage.LoadData();
      data := data.(authors := data.authors.Put(authorId, author.ToDict()));
      storage.SaveData(data);
      r := Success(author);
    }

    /** `delete_author`: scans every book for one that refers to the author. */
    method DeleteAuthor(authorId: string) returns (r: Result<bool>)
      requires storage.Valid()
      modifies storage
      ensures storage.Valid()
      ensures (r, storage.data) == Catalog.DeleteAuthor(old(storage.data), authorId)
    {
      var data := storage.LoadData();
      if authorId !in data.authors.entries {
        return Success(false);
      }
      var authorBooks: seq<BookRecord> := [];
      var i := 0;
      while i < |data.books.keys|
        invariant 0 <= i <= |data.books.keys|
        invariant authorBooks == Catalog.BooksBy(data.books, data.books.keys[..i], authorId)
      {
        var book := data.books.entries[data.books.keys[i]];
        assert data.books.keys[..i + 1][..i] == data.books.keys[..i];
        if book.authorId == authorId {
          authorBooks := authorBooks + [book];
        }
        i := i + 1;
      }
      assert data.books.keys[..i] == data.books.keys;
      if authorBooks != [] {
        return Failure(ValueError("Cannot delete author with associated books"));
      }
      data := data.(authors := data.authors.Remove(authorId));
      storage.SaveData(data);
      r := Success(true);
    }

    // -------------------------------------------------------------------
    // Books

    /** `create_book`: the author must exist; the new book's id is appended
        to the author's stored list. */
    method CreateBook(id: string, title: string, authorId: string, isbn: string, pages: int,
                      genre: Option<string>, now: Timestamp) returns (r: Result<Book>)
      requires storage.Valid()
      modifies storage
      ensures storage.Valid()
      ensures var spec := Catalog.CreateBook(old(storage.data), id, title, authorId, isbn, pages, genre, now);
        && storage.data == spec.1
        && (r.Failure? <==> spec.0.Failure?)
        && (r.Failure? ==> r.error == spec.0.error)
        && (r.Success? ==> fresh(r.value) && r.value.ToDict() == spec.0.value)
    {
      var author := GetAuthor(authorId, now);
      if author == null {
        return Failure(ValueError("Author not found"));
      }
      var book := new Book(id, title, authorId, isbn, pages, genre, now);
      var data := storage.LoadData();
      data := data.(books := data.books.Put(book.base.id, book.ToDict()));
      var entry := data.authors.entries[authorId];
      data := data.(authors := data.authors.Put(authorId, entry.(books := entry.books + [book.base.id])));
      storage.SaveData(data);
      r := Success(book);
    }

    /** `_dict_to_book`, and the same rebuilding inside `get_book`: a new
        `Book` from the entry, which then takes the stored id, status,
        borrower and borrow date. */
    method DictToBook(entry: BookRecord, now: Timestamp) returns (book: Book)
      ensures fresh(book) && fresh(book.base)
      ensures book.ToDict() == Catalog.RebuiltBook(entry, now)
    {
      book := new Book(entry.id, entry.title, entry.authorId, entry.isbn, entry.pages, entry.genre, now);
      book.status := entry.status;
      book.borrowedBy := entry.borrowedBy;
      book.borrowedDate := entry.borrowedDate;
    }

    /** `get_book`. */
    method GetBook(bookId: string, now: Timestamp) returns (book: Book?)
      ensures book == null <==> bookId !in storage.data.books.entries
      ensures book != null ==>
                fresh(book) && fresh(book.base) &&
                Some(book.ToDict()) == Catalog.BookView(storage.data, bookId, now)
    {
      var data := storage.LoadData();
      var found := data.books.Get(bookId);
      if found.Some? {
        book := DictToBook(found.value, now);
      } else {
        book := null;
      }
    }

    /** The tests `search_books` makes of one book, in its order: the title,
        then the name of the book's author when that author exists, then the
        genre when it is a non-empty string; the first that contains the
        lowered query keeps the book (the `continue`s of the loop). */
    method Keep(data: Document, bookData: BookRecord, q: string) returns (keep: bool)
      ensures keep == Catalog.Matches(data, bookData, q)
    {
      if Text.Contains(Text.Lower(bookData.title), q) {
        return true;
      }
      var authorData := data.authors.Get(bookData.authorId);
      if authorData.Some? && Text.Contains(Text.Lower(authorData.value.name), q) {
        return true;
      }
      var genre := bookData.genre;
      keep := genre.Some? && genre.value != "" && Text.Contains(Text.Lower(genre.value), q);
    }

    /** `search_books`: one pass over the books in the document's order,
        rebuilding each book kept. */
    method SearchBooks(query: string, now: Timestamp) returns (results: seq<Book>)
      requires storage.Valid()
      ensures Rebuilds(results, storage.data.books.entries, Catalog.SearchKeys(storage.data, query), now)
    {
      var data := storage.LoadData();
      var q := Text.Lower(query);
      results := [];
      ghost var keys: seq<string> := [];
      var i := 0;
      while i < |data.books.keys|
        invariant 0 <= i <= |data.books.keys|
        invariant keys == Catalog.SearchPrefix(data, data.books.keys[..i], q)
        invariant Rebuilds(results, data.books.entries, keys, now)
      {
        var k := data.books.keys[i];
        var bookData := data.books.entries[k];
        Catalog.SearchPrefixStep(data, data.books.keys, i, q);
        var keep := Keep(data, bookData, q);
        if keep {
          var book := DictToBook(bookData, now);
          RebuildsAppend(results, data.books.entries, keys, now, book, k);
          results, keys := results + [book], keys + [k];
        }
        i := i + 1;
      }
      assert data.books.keys[..i] == data.books.keys;
    }

    // -------------------------------------------------------------------
    // Members

    /** `create_member` as written: `Member(name, email, phone)` binds the
        phone to the membership id and leaves the phone None. */
    method CreateMemberAsWritten(id: string, name: string, email: string, phone: Option<string>,
                                 now: Timestamp) returns (member: Member)
      requires storage.Valid()
      modifies storage
      ensures storage.Valid() && fresh(member) && fresh(member.base)
      ensures (member.ToDict(), storage.data) == Catalog.CreateMember(old(storage.data), id, name, email, phone, None, now)
    {
      member := new Member(id, name, email, phone, None, now);
      var data := storage.LoadData();
      data := data.(members := data.members.Put(member.base.id, member.ToDict()));
      storage.SaveData(data);
    }

    /** `create_member` as intended: the membership id the request carries and
        the phone each go to their own field. */
    method CreateMember(id: string, name: string, email: string, membershipId: string, phone: Option<string>,
                        now: Timestamp) returns (member: Member)
      requires storage.Valid()
      modifies storage
      ensures storage.Valid() && fresh(member) && fresh(member.base)
      ensures (member.ToDict(), storage.data) == Catalog.CreateMember(old(storage.data), id, name, email, Some(membershipId), phone, now)
    {
      member := new Member(id, name, email, Some(membershipId), phone, now);
      var data := storage.LoadData();
      data := data.(members := data.members.Put(member.base.id, member.ToDict()));
      storage.SaveData(data);
    }

    /** `get_member` as written: `Member(name, email, phone)` again, then the
        stored id and borrowed list. */
    method GetMemberAsWritten(memberId: string, now: Timestamp) returns (member: Member?)
      ensures member == null <==> memberId !in storage.data.members.entries
      ensures member != null ==>
                fresh(member) && fresh(member.base) &&
                Some(member.ToDict()) == Catalog.MemberViewAsWritten(storage.data, memberId, now)
    {
      var data := storage.LoadData();
      var found := data.members.Get(memberId);
      if found.Some? {
        var m := found.value;
        member := new Member(m.id, m.name, m.email, m.phone, None, now);
        member.borrowedBooks := m.borrowedBooks;
      } else {
        member := null;
      }
    }

    /** `get_member` as intended: every stored field comes back. */
    method GetMember(memberId: string, now: Timestamp) returns (member: Member?)
      ensures member == null <==> memberId !in storage.data.members.entries
      ensures member != null ==>
                fresh(member) && fresh(member.base) &&
                Some(member.ToDict()) == Catalog.MemberView(storage.data, memberId, now)
    {
      var data := storage.LoadData();
      var found := data.members.Get(memberId);
      if found.Some? {
        var m := found.value;
        member := new Member(m.id, m.name, m.email, m.membershipId, m.phone, now);
        member.borrowedBooks := m.borrowedBooks;
      } else {
        member := null;
      }
    }

    // -------------------------------------------------------------------
    // Borrowing

    /** `borrow_book` as written: the checks run, then `member.can_borrow` raises. */
    method BorrowBookAsWritten(bookId: string, memberId: string, now: Timestamp) returns (r: Result<bool>)
      ensures (r, storage.data) == Catalog.BorrowAsWritten(storage.data, bookId, memberId, now)
    {
      var book := GetBook(bookId, now);
      var member := GetMemberAsWritten(memberId, now);
      if book == null || member == null {
        return Failure(ValueError("Book or member not found"));
      }
      if !book.IsAvailable() {
        return Failure(ValueError("Book is not available"));
      }
      r := Failure(CanBorrowMissing);
    }

    /** `borrow_book` as intended: without the undefined limit check, and saving
        both entries whenever `book.borrow` succeeds. */
    method BorrowBook(bookId: string, memberId: string, now: Timestamp) returns (r: Result<bool>)
      requires storage.Valid()
      modifies storage
      ensures storage.Valid()
      ensures (r, storage.data) == Catalog.Borrow(old(storage.data), bookId, memberId, now)
    {
      var book := GetBook(bookId, now);
      var member := GetMember(memberId, now);
      if book == null || member == null {
        return Failure(ValueError("Book or member not found"));
      }
      if !book.IsAvailable() {
        return Failure(ValueError("Book is not available"));
      }
      var lent := book.Borrow(memberId, now);
      if lent {
        member.BorrowBook(bookId);
        var data := storage.LoadData();
        data := data.(books := data.books.Put(bookId, book.ToDict()));
        data := data.(members := data.members.Put(memberId, member.ToDict()));
        storage.SaveData(data);
      }
      r := Success(lent);
    }

    /** `return_book` as written: `member.return_book` answers None, so the
        `and` is falsy and nothing is saved. */
    method ReturnBookAsWritten(bookId: string, memberId: string, now: Timestamp) returns (r: Result<bool>)
      ensures (r, storage.data) == Catalog.ReturnAsWritten(storage.data, bookId, memberId, now)
    {
      var book := GetBook(bookId, now);
      var member := GetMemberAsWritten(memberId, now);
      if book == null || member == null {
        return Failure(ValueError("Book or member not found"));
      }
      if book.borrowedBy != Some(memberId) {
        return Failure(ValueError("Book not borrowed by this member"));
      }
      var returned := book.ReturnBook();
      if returned {
        member.ReturnBook(bookId);
      }
      r := Success(false);
    }

    /** `return_book` as intended: both entries are saved whenever
        `book.return_book` succeeds. */
    method ReturnBook(bookId: string, memberId: string, now: Timestamp) returns (r: Result<bool>)
      requires storage.Valid()
      modifies storage
      ensures storage.Valid()
      ensures (r, storage.data) == Catalog.Return(old(storage.data), bookId, memberId, now)
    {
      var book := GetBook(bookId, now);
      var member := GetMember(memberId, now);
      if book == null || member == null {
        return Failure(ValueError("Book or member not found"));
      }
      if book.borrowedBy != Some(memberId) {
        return Failure(ValueError("Book not borrowed by this member"));
      }
      var returned := book.ReturnBook();
      if returned {
        member.ReturnBook(bookId);
        var data := storage.LoadData();
        data := data.(books := data.books.Put(bookId, book.ToDict()));
        data := data.(members := data.members.Put(memberId, member.ToDict()));
        storage.SaveData(data);
      }
      r := Success(returned);
    }
  }
}
