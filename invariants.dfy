/** Every transaction of the catalog keeps the catalog invariant `Inv`:
    tables well formed, entries under their own ids, lending fields
    consistent, books pointing at existing authors, sound author lists, and
    loans recorded alike on the book and on the member.

    Each part of `Inv` names only the tables it constrains, so for each
    transaction only the parts over the tables it rewrites need a proof; the
    helper lemmas below prove one part each, over the tables alone. */
module Invariants {
  import opened Common
  import opened Tables
  import opened Storage
  import IdLists
  import opened BookModel
  import opened AuthorModel
  import opened MemberModel
  import opened Catalog

  // ---------------------------------------------------------------------
  // Authors

  lemma CreateAuthorKeepsInv(d: Document, id: string, name: string, biography: Option<string>,
                             birthYear: Option<int>, now: Timestamp)
    requires Inv(d)
    ensures Inv(CreateAuthor(d, id, name, biography, birthYear, now).1)
  {
    var a := AuthorRecord(id, name, biography, birthYear, [], now, now);
    assert CreateAuthor(d, id, name, biography, birthYear, now).1 == d.(authors := d.authors.Put(id, a));
    PutAuthorWithoutBooks(d, a);
  }

  lemma UpdateAuthorKeepsInv(d: Document, id: string, p: AuthorPatch, now: Timestamp)
    requires Inv(d)
    ensures Inv(UpdateAuthor(d, id, p, now).1)
  {
    var r := UpdateAuthor(d, id, p, now);
    if r.0.Success? && r.0.value.Some? {
      var a := r.0.value.value;
      assert a.id == id by {
        assert a.id == d.authors.entries[id].id;
      }
      assert r.1 == d.(authors := d.authors.Put(id, a));
      PutAuthorWithoutBooks(d, a);
    }
  }

  /** Storing, under its own id, an author entry whose book list is empty
      keeps the invariant, whether the id is new or not. */
  lemma PutAuthorWithoutBooks(d: Document, a: AuthorRecord)
    requires Inv(d) && a.books == []
    ensures Inv(d.(authors := d.authors.Put(a.id, a)))
  {
    var authors := d.authors.entries;
    var books := d.books.entries;
    var authors' := authors[a.id := a];
    assert AuthorIds(authors');
    AuthorsWiden(books, authors, authors');
    assert AuthorListsSound(authors', books) by {
      forall k | k in authors' ensures IdLists.NoDuplicates(authors'[k].books) {
        if k != a.id { assert authors'[k] == authors[k]; }
      }
      forall k, x | k in authors' && x in authors'[k].books
        ensures x in books && books[x].authorId == k
      {
        assert k != a.id && authors'[k] == authors[k];
      }
    }
  }

  lemma DeleteAuthorKeepsInv(d: Document, id: string)
    requires Inv(d)
    ensures Inv(DeleteAuthor(d, id).1)
  {
    if id in d.authors.entries && !Referenced(d, id) {
      assert DeleteAuthor(d, id).1 == d.(authors := d.authors.Remove(id));
      RemoveUnreferencedAuthor(d, id);
    }
  }

  /** Removing an author no book refers to keeps the invariant. */
  lemma RemoveUnreferencedAuthor(d: Document, id: string)
    requires Inv(d) && !Referenced(d, id)
    ensures Inv(d.(authors := d.authors.Remove(id)))
  {
    var authors := d.authors.entries;
    var books := d.books.entries;
    var authors' := authors - {id};
    assert AuthorIds(authors') by {
      forall k | k in authors' ensures authors'[k].id == k {
        assert authors'[k] == authors[k];
      }
    }
    assert BooksHaveAuthors(books, authors') by {
      forall k | k in books ensures books[k].authorId in authors' {
        assert books[k].authorId != id;
      }
    }
    assert AuthorListsSound(authors', books) by {
      forall k | k in authors' ensures IdLists.NoDuplicates(authors'[k].books) {
        assert authors'[k] == authors[k];
      }
      forall k, x | k in authors' && x in authors'[k].books
        ensures x in books && books[x].authorId == k
      {
        assert authors'[k] == authors[k];
      }
    }
  }

  /** More authors cannot leave a book without its author. */
  lemma AuthorsWiden(books: map<string, BookRecord>, authors: map<string, AuthorRecord>,
                     authors': map<string, AuthorRecord>)
    requires BooksHaveAuthors(books, authors) && authors.Keys <= authors'.Keys
    ensures BooksHaveAuthors(books, authors')
  {
  }

  // ---------------------------------------------------------------------
  // Books

  /** Needs a fresh book id, as uuid4 supplies. */
  lemma CreateBookKeepsInv(d: Document, id: string, title: string, authorId: string, isbn: string,
                           pages: int, genre: Option<string>, now: Timestamp)
    requires Inv(d) && id !in d.books.entries
    ensures Inv(CreateBook(d, id, title, authorId, isbn, pages, genre, now).1)
  {
    if authorId in d.authors.entries {
      var b := NewBook(id, title, authorId, isbn, pages, genre, now);
      var a := d.authors.entries[authorId];
      assert CreateBook(d, id, title, authorId, isbn, pages, genre, now).1 ==
        d.(books := d.books.Put(id, b), authors := d.authors.Put(authorId, a.(books := a.books + [id])));
      AddBookEntry(d, b);
    }
  }

  /** Storing a new unborrowed book of an existing author, and appending its id
      to that author's list, keeps the invariant. */
  lemma AddBookEntry(d: Document, b: BookRecord)
    requires Inv(d) && b.id !in d.books.entries && b.authorId in d.authors.entries
    requires b.LendingState() == NewLending
    ensures var a := d.authors.entries[b.authorId];
      Inv(d.(books := d.books.Put(b.id, b), authors := d.authors.Put(b.authorId, a.(books := a.books + [b.id]))))
  {
    var authors := d.authors.entries;
    var books := d.books.entries;
    var a := authors[b.authorId];
    var authors' := authors[b.authorId := a.(books := a.books + [b.id])];
    var books' := books[b.id := b];
    assert AuthorIds(authors') by {
      assert a.id == b.authorId;
    }
    assert BookIds(books');
    assert LendingConsistent(books');
    assert BooksHaveAuthors(books', authors') by {
      AuthorsWiden(books, authors, authors');
    }
    AddBookAuthorLists(authors, books, b);
    AddBookLoans(books, d.members.entries, b);
  }

  /** The new book's id is in no list yet, since every listed id is a book;
      appended to its author's list, each list still names its own author's books once. */
  lemma AddBookAuthorLists(authors: map<string, AuthorRecord>, books: map<string, BookRecord>, b: BookRecord)
    requires AuthorListsSound(authors, books) && b.id !in books && b.authorId in authors
    ensures var a := authors[b.authorId];
      AuthorListsSound(authors[b.authorId := a.(books := a.books + [b.id])], books[b.id := b])
  {
    var a := authors[b.authorId];
    var authors' := authors[b.authorId := a.(books := a.books + [b.id])];
    var books' := books[b.id := b];
    assert b.id !in a.books;
    forall k | k in authors' ensures IdLists.NoDuplicates(authors'[k].books) {
      if k == b.authorId {
        var s := a.books + [b.id];
        forall i, j | 0 <= i < j < |s| ensures s[i] != s[j] {
          if j < |a.books| { assert s[i] == a.books[i] && s[j] == a.books[j]; }
          else { assert s[i] == a.books[i]; }
        }
      } else {
        assert authors'[k] == authors[k];
      }
    }
    forall k, x | k in authors' && x in authors'[k].books
      ensures x in books' && books'[x].authorId == k
    {
      if k == b.authorId {
        assert x in a.books + [b.id];
        if x != b.id { assert x in a.books; }
      } else {
        assert authors'[k] == authors[k];
        assert x in books;
      }
    }
  }

  /** A new unborrowed book is in no member's list, and lists stay as they were. */
  lemma AddBookLoans(books: map<string, BookRecord>, members: map<string, MemberRecord>, b: BookRecord)
    requires LoansRecorded(books, members) && b.id !in books && b.borrowedBy.None?
    ensures LoansRecorded(books[b.id := b], members)
  {
    var books' := books[b.id := b];
    forall m, x | m in members && x in members[m].borrowedBooks
      ensures x in books' && books'[x].borrowedBy == Some(m)
    {
      assert x in books && x != b.id;
    }
  }

  // ---------------------------------------------------------------------
  // Members

  /** Needs a fresh member id, as uuid4 supplies: a member stored again under a
      used id would lose its borrowed list. */
  lemma CreateMemberKeepsInv(d: Document, id: string, name: string, email: string,
                             membershipId: Option<string>, phone: Option<string>, now: Timestamp)
    requires Inv(d) && id !in d.members.entries
    ensures Inv(CreateMember(d, id, name, email, membershipId, phone, now).1)
  {
    var m := MemberRecord(id, name, email, membershipId, phone, [], now, now);
    assert CreateMember(d, id, name, email, membershipId, phone, now).1 == d.(members := d.members.Put(id, m));
    assert MemberIds(d.members.entries[id := m]);
    AddMemberLoans(d.books.entries, d.members.entries, m);
  }

  /** A new member with an empty list is nobody's borrower yet, and the other lists stay. */
  lemma AddMemberLoans(books: map<string, BookRecord>, members: map<string, MemberRecord>, m: MemberRecord)
    requires LoansRecorded(books, members) && m.id !in members && m.borrowedBooks == []
    ensures LoansRecorded(books, members[m.id := m])
  {
    var members' := members[m.id := m];
    forall k | k in members' ensures IdLists.NoDuplicates(members'[k].borrowedBooks) {
      if k != m.id { assert members'[k] == members[k]; }
    }
    forall b | b in books && books[b].borrowedBy.Some?
      ensures books[b].borrowedBy.value in members' && b in members'[books[b].borrowedBy.value].borrowedBooks
    {
      var k := books[b].borrowedBy.value;
      assert k in members && k != m.id;
      assert members'[k] == members[k];
    }
    forall k, x | k in members' && x in members'[k].borrowedBooks
      ensures x in books && books[x].borrowedBy == Some(k)
    {
      assert k != m.id && members'[k] == members[k];
    }
  }

  // ---------------------------------------------------------------------
  // Borrowing

  lemma BorrowKeepsInv(d: Document, bookId: string, memberId: string, now: Timestamp)
    requires Inv(d)
    ensures Inv(Borrow(d, bookId, memberId, now).1)
  {
    if bookId in d.books.entries && memberId in d.members.entries && d.books.entries[bookId].status == Available {
      var b := RebuiltBook(d.books.entries[bookId], now);
      var m := RebuiltMember(d.members.entries[memberId], now);
      var nb := b.WithLending(BorrowStep(b.LendingState(), memberId, now).1);
      var nm := m.(borrowedBooks := IdLists.Added(m.borrowedBooks, bookId));
      assert Borrow(d, bookId, memberId, now).1 == d.(books := d.books.Put(bookId, nb), members := d.members.Put(memberId, nm));
      assert Consistent(d.books.entries[bookId].LendingState());
      RecordEntries(d, bookId, memberId, nb, nm);
      LendLoans(d.books.entries, d.members.entries, bookId, memberId, nb, nm);
    }
  }

  lemma ReturnKeepsInv(d: Document, bookId: string, memberId: string, now: Timestamp)
    requires Inv(d)
    ensures Inv(Return(d, bookId, memberId, now).1)
  {
    if && bookId in d.books.entries && memberId in d.members.entries
       && d.books.entries[bookId].borrowedBy == Some(memberId) && d.books.entries[bookId].status == Borrowed
    {
      var b := RebuiltBook(d.books.entries[bookId], now);
      var m := RebuiltMember(d.members.entries[memberId], now);
      var nb := b.WithLending(NewLending);
      var nm := m.(borrowedBooks := IdLists.Removed(m.borrowedBooks, bookId));
      assert Return(d, bookId, memberId, now).1 == d.(books := d.books.Put(bookId, nb), members := d.members.Put(memberId, nm));
      RecordEntries(d, bookId, memberId, nb, nm);
      ReturnLoans(d.books.entries, d.members.entries, bookId, memberId, nb, nm);
    }
  }

  /** Rewriting an existing book and an existing member with entries that keep
      their ids, the book's author and a consistent lending state keeps every
      part of the invariant but the loans, and keeps them when they hold of
      the rewritten tables. */
  lemma RecordEntries(d: Document, bookId: string, memberId: string, nb: BookRecord, nm: MemberRecord)
    requires Inv(d) && bookId in d.books.entries && memberId in d.members.entries
    requires nb.id == bookId && nb.authorId == d.books.entries[bookId].authorId && Consistent(nb.LendingState())
    requires nm.id == memberId
    ensures var d' := d.(books := d.books.Put(bookId, nb), members := d.members.Put(memberId, nm));
      LoansRecorded(d'.books.entries, d'.members.entries) ==> Inv(d')
  {
    var books' := d.books.entries[bookId := nb];
    assert BookIds(books');
    assert MemberIds(d.members.entries[memberId := nm]);
    assert LendingConsistent(books');
    RewriteBookAuthors(d.authors.entries, d.books.entries, bookId, nb);
  }

  /** A book rewritten with the same author keeps every author's list sound
      and its author present. */
  lemma RewriteBookAuthors(authors: map<string, AuthorRecord>, books: map<string, BookRecord>,
                           bookId: string, nb: BookRecord)
    requires BooksHaveAuthors(books, authors) && AuthorListsSound(authors, books)
    requires bookId in books && nb.authorId == books[bookId].authorId
    ensures BooksHaveAuthors(books[bookId := nb], authors) && AuthorListsSound(authors, books[bookId := nb])
  {
    var books' := books[bookId := nb];
    forall k, x | k in authors && x in authors[k].books
      ensures x in books' && books'[x].authorId == k
    {
      assert x in books && books[x].authorId == k;
    }
  }

  /** Lending an unborrowed book to a member who then lists it keeps the loans recorded alike. */
  lemma LendLoans(books: map<string, BookRecord>, members: map<string, MemberRecord>,
                  bookId: string, memberId: string, nb: BookRecord, nm: MemberRecord)
    requires LoansRecorded(books, members) && bookId in books && memberId in members
    requires books[bookId].borrowedBy.None? && nb.borrowedBy == Some(memberId)
    requires nm.borrowedBooks == IdLists.Added(members[memberId].borrowedBooks, bookId)
    ensures LoansRecorded(books[bookId := nb], members[memberId := nm])
  {
    var books', members' := books[bookId := nb], members[memberId := nm];
    forall k | k in members' ensures IdLists.NoDuplicates(members'[k].borrowedBooks) {
      if k != memberId { assert members'[k] == members[k]; }
    }
    forall b | b in books' && books'[b].borrowedBy.Some?
      ensures books'[b].borrowedBy.value in members' && b in members'[books'[b].borrowedBy.value].borrowedBooks
    {
      if b != bookId {
        var m := books[b].borrowedBy.value;
        assert b in members[m].borrowedBooks;
      }
    }
    forall m, x | m in members' && x in members'[m].borrowedBooks
      ensures x in books' && books'[x].borrowedBy == Some(m)
    {
      if m != memberId || x != bookId {
        assert x in members[m].borrowedBooks;
        assert books[x].borrowedBy == Some(m);
      }
    }
  }

  /** Clearing the borrower of a book lent to a member who then drops it from
      the list keeps the loans recorded alike. */
  lemma ReturnLoans(books: map<string, BookRecord>, members: map<string, MemberRecord>,
                    bookId: string, memberId: string, nb: BookRecord, nm: MemberRecord)
    requires LoansRecorded(books, members) && bookId in books && memberId in members
    requires books[bookId].borrowedBy == Some(memberId) && nb.borrowedBy.None?
    requires nm.borrowedBooks == IdLists.Removed(members[memberId].borrowedBooks, bookId)
    ensures LoansRecorded(books[bookId := nb], members[memberId := nm])
  {
    var books', members' := books[bookId := nb], members[memberId := nm];
    IdLists.RemovedNoDuplicates(members[memberId].borrowedBooks, bookId);
    forall k | k in members' ensures IdLists.NoDuplicates(members'[k].borrowedBooks) {
      if k != memberId { assert members'[k] == members[k]; }
    }
    forall b | b in books' && books'[b].borrowedBy.Some?
      ensures books'[b].borrowedBy.value in members' && b in members'[books'[b].borrowedBy.value].borrowedBooks
    {
      var m := books[b].borrowedBy.value;
      assert b in members[m].borrowedBooks;
    }
    forall m, x | m in members' && x in members'[m].borrowedBooks
      ensures x in books' && books'[x].borrowedBy == Some(m)
    {
      assert x in members[m].borrowedBooks;
      assert books[x].borrowedBy == Some(m);
    }
  }

  /** In a valid catalog a book recorded as borrowed by the member is in the
      borrowed status, so a return that passes the checks always succeeds. */
  lemma ReturnNeverFalse(d: Document, bookId: string, memberId: string, now: Timestamp)
    requires Inv(d)
    ensures Return(d, bookId, memberId, now).0 != Success(false)
  {
    if bookId in d.books.entries {
      assert Consistent(d.books.entries[bookId].LendingState());
    }
  }

  /** As written, returning a book its borrower holds answers False and leaves
      the book borrowed, where the intended transaction answers True and makes
      the book available again. */
  lemma ReturnAsWrittenKeepsLoan(d: Document, bookId: string, memberId: string, now: Timestamp)
    requires Inv(d) && bookId in d.books.entries && memberId in d.members.entries
    requires d.books.entries[bookId].borrowedBy == Some(memberId)
    ensures ReturnAsWritten(d, bookId, memberId, now) == (Success(false), d)
    ensures d.books.entries[bookId].status == Borrowed
    ensures Return(d, bookId, memberId, now).0 == Success(true)
    ensures Return(d, bookId, memberId, now).1.books.entries[bookId].status == Available
  {
    assert Consistent(d.books.entries[bookId].LendingState());
  }
}
