/** The catalog document seen as a whole: how the service rebuilds entities
    from their entries, the invariants a catalog keeps, and each transaction of
    `LibraryService` as a function from the document before to its result and
    the document after. `LibraryService`'s methods are proved to compute these
    functions; the lemmas here prove what the transactions promise. */
module Catalog {
  import opened Common
  import opened Tables
  import opened Storage
  import Text
  import IdLists
  import Base
  import opened BookModel
  import opened AuthorModel
  import opened MemberModel

  // ---------------------------------------------------------------------
  // Entries as the service rebuilds them

  /** `get_author`: a new `Author` built from the entry's name, biography and
      birth year and given the stored id; its book list is empty and its
      timestamps are the current time. */
  function RebuiltAuthor(a: AuthorRecord, now: Timestamp): (r: AuthorRecord)
    ensures r.id == a.id && r.name == a.name && r.biography == a.biography && r.birthYear == a.birthYear
    ensures r.books == [] && r.createdAt == now && r.updatedAt == now
  {
    a.(books := [], createdAt := now, updatedAt := now)
  }

  /** `get_book` and `_dict_to_book`: a new `Book` built from the entry, with
      the stored id, status, borrower and borrow date; only the timestamps are new. */
  function RebuiltBook(b: BookRecord, now: Timestamp): (r: BookRecord)
    ensures r.(createdAt := b.createdAt, updatedAt := b.updatedAt) == b
    ensures r.createdAt == now && r.updatedAt == now
    ensures r.LendingState() == b.LendingState()
  {
    b.(createdAt := now, updatedAt := now)
  }

  /** `get_member` as intended: a new `Member` with every stored field and the
      stored borrowed list; only the timestamps are new. */
  function RebuiltMember(m: MemberRecord, now: Timestamp): (r: MemberRecord)
    ensures r.(createdAt := m.createdAt, updatedAt := m.updatedAt) == m
    ensures r.createdAt == now && r.updatedAt == now
  {
    m.(createdAt := now, updatedAt := now)
  }

  /** `get_member` as written: `Member(name, email, phone)` puts the stored
      phone in the membership-id position and leaves the phone None. */
  function RebuiltMemberAsWritten(m: MemberRecord, now: Timestamp): (r: MemberRecord)
    ensures r.membershipId == m.phone && r.phone == None
    ensures r.(membershipId := m.membershipId, phone := m.phone, createdAt := m.createdAt, updatedAt := m.updatedAt) == m
    ensures r.createdAt == now && r.updatedAt == now
  {
    MemberRecord(m.id, m.name, m.email, m.phone, None, m.borrowedBooks, now, now)
  }

  // ---------------------------------------------------------------------
  // Invariants of a catalog

  // Each part of the invariant names only the tables it constrains.

  /** Every author entry is stored under its own id. */
  ghost predicate AuthorIds(authors: map<string, AuthorRecord>) {
    forall k :: k in authors ==> authors[k].id == k
  }

  /** Every book entry is stored under its own id. */
  ghost predicate BookIds(books: map<string, BookRecord>) {
    forall k :: k in books ==> books[k].id == k
  }

  /** Every member entry is stored under its own id. */
  ghost predicate MemberIds(members: map<string, MemberRecord>) {
    forall k :: k in members ==> members[k].id == k
  }

  /** Every book has a borrower and a borrow date exactly when it is borrowed. */
  ghost predicate LendingConsistent(books: map<string, BookRecord>) {
    forall k :: k in books ==> Consistent(books[k].LendingState())
  }

  /** Every book's author exists: an author cannot go while a book refers to it. */
  ghost predicate BooksHaveAuthors(books: map<string, BookRecord>, authors: map<string, AuthorRecord>) {
    forall k :: k in books ==> books[k].authorId in authors
  }

  /** An author's book list names each book once, and only books of that author. */
  ghost predicate AuthorListsSound(authors: map<string, AuthorRecord>, books: map<string, BookRecord>) {
    && (forall a :: a in authors ==> IdLists.NoDuplicates(authors[a].books))
    && (forall a, x :: a in authors && x in authors[a].books ==> x in books && books[x].authorId == a)
  }

  /** The loans as the books record them and as the members record them agree:
      a borrowed book is in its borrower's list, and a member's list holds,
      once each, exactly books that member has borrowed. */
  ghost predicate LoansRecorded(books: map<string, BookRecord>, members: map<string, MemberRecord>) {
    && (forall m :: m in members ==> IdLists.NoDuplicates(members[m].borrowedBooks))
    && (forall b :: b in books && books[b].borrowedBy.Some? ==>
          books[b].borrowedBy.value in members && b in members[books[b].borrowedBy.value].borrowedBooks)
    && (forall m, x :: m in members && x in members[m].borrowedBooks ==>
          x in books && books[x].borrowedBy == Some(m))
  }

  /** A valid catalog: well-formed tables, entries under their own ids, and
      lending, authorship and loans that agree across the tables. */
  ghost predicate Inv(d: Document) {
    var (authors, books, members) := (d.authors.entries, d.books.entries, d.members.entries);
    && WellFormed(d)
    && AuthorIds(authors) && BookIds(books) && MemberIds(members)
    && LendingConsistent(books)
    && BooksHaveAuthors(books, authors)
    && AuthorListsSound(authors, books)
    && LoansRecorded(books, members)
  }

  /** The document a new catalog starts from is a valid catalog. */
  lemma InitialInv()
    ensures Inv(InitialDocument())
  {
  }

  // ---------------------------------------------------------------------
  // Authors

  /** `create_author`: the new entry is stored under the new id; books and
      members are untouched; a fresh id is one new key, at the end of the order. */
  function CreateAuthor(d: Document, id: string, name: string, biography: Option<string>,
                        birthYear: Option<int>, now: Timestamp): (r: (AuthorRecord, Document))
    ensures r.0 == AuthorRecord(id, name, biography, birthYear, [], now, now)
    ensures r.1.books == d.books && r.1.members == d.members
    ensures r.1.authors.entries == d.authors.entries[id := r.0]
    ensures r.1.authors.entries.Keys == d.authors.entries.Keys + {id}
    ensures WellFormed(d) ==> WellFormed(r.1)
    ensures WellFormed(d) && id !in d.authors.entries ==> r.1.authors.keys == d.authors.keys + [id]
  {
    var a := AuthorRecord(id, name, biography, birthYear, [], now, now);
    (a, d.(authors := d.authors.Put(id, a)))
  }

  /** `get_author`: None for an unknown id, otherwise the rebuilt entry, which
      in a valid catalog carries the id asked for. */
  function AuthorView(d: Document, id: string, now: Timestamp): (r: Option<AuthorRecord>)
    ensures r.Some? <==> id in d.authors.entries
    ensures r.Some? ==> r.value == RebuiltAuthor(d.authors.entries[id], now)
    ensures Inv(d) && r.Some? ==> r.value.id == id
  {
    if id in d.authors.entries then Some(RebuiltAuthor(d.authors.entries[id], now)) else None
  }

  /** The keyword arguments `update_author` may receive; None is an absent key. */
  datatype AuthorPatch = AuthorPatch(name: Option<string>, biography: Option<Option<string>>, birthYear: Option<Option<int>>)

  /** The setters `update_author` calls, in the order it calls them: name,
      then biography, then birth year; the first one that raises stops it. */
  function ApplyPatch(a: AuthorRecord, p: AuthorPatch, now: Timestamp): (r: Result<AuthorRecord>)
    ensures r.Failure? <==> (p.name.Some? && Text.Blank(p.name.value)) ||
                            (p.birthYear.Some? && CheckBirthYear(p.birthYear.value).Fail?)
    ensures p.name.Some? && Text.Blank(p.name.value) ==> r == Failure(ValueError("Name cannot be empty"))
    ensures !(p.name.Some? && Text.Blank(p.name.value)) && p.birthYear.Some? && CheckBirthYear(p.birthYear.value).Fail? ==>
              r == Failure(ValueError("Birth year must be between 1800 and 2024"))
    ensures r.Success? ==> r.value.id == a.id && r.value.books == a.books && r.value.createdAt == a.createdAt
    ensures r.Success? ==>
              && r.value.name == (if p.name.Some? then Text.Strip(p.name.value) else a.name)
              && r.value.biography == (if p.biography.Some? then BiographyValue(p.biography.value) else a.biography)
              && r.value.birthYear == (if p.birthYear.Some? then p.birthYear.value else a.birthYear)
              && r.value.updatedAt == (if p.name.Some? then now else a.updatedAt)
  {
    var named :- NamePatched(a, p, now);
    var described := BiographyPatched(named, p);
    if p.birthYear.Some? then
      match CheckBirthYear(p.birthYear.value)
      case Pass => Success(described.(birthYear := p.birthYear.value))
      case Fail(e) => Failure(e)
    else Success(described)
  }

  /** The `name` step of ApplyPatch. */
  function NamePatched(a: AuthorRecord, p: AuthorPatch, now: Timestamp): (r: Result<AuthorRecord>)
    ensures r.Success? ==> r.value == (if p.name.Some? then a.(name := r.value.name, updatedAt := now) else a)
  {
    if p.name.Some? then
      var n :- Base.CheckName(p.name.value);
      Success(a.(name := n, updatedAt := now))
    else Success(a)
  }

  /** The `biography` step of ApplyPatch. */
  function BiographyPatched(a: AuthorRecord, p: AuthorPatch): AuthorRecord {
    if p.biography.Some? then a.(biography := BiographyValue(p.biography.value)) else a
  }

  /** `update_author`: an unknown id gives None; a setter that raises gives a
      RuntimeError and writes nothing; otherwise only the author's own entry
      is rewritten, from the rebuilt author (so its book list becomes empty). */
  function UpdateAuthor(d: Document, id: string, p: AuthorPatch, now: Timestamp): (r: (Result<Option<AuthorRecord>>, Document))
    ensures id !in d.authors.entries ==> r == (Success(None), d)
    ensures r.0.Failure? ==> r.1 == d && r.0.error.RuntimeError?
    ensures id in d.authors.entries && r.0.Failure? ==>
              ApplyPatch(RebuiltAuthor(d.authors.entries[id], now), p, now).Failure? &&
              r.0.error == RuntimeError("Failed to update author: " + ApplyPatch(RebuiltAuthor(d.authors.entries[id], now), p, now).error.message)
    ensures r.0.Success? ==> r.1.books == d.books && r.1.members == d.members
    ensures r.0.Success? && r.0.value.Some? ==>
              id in d.authors.entries && r.1.authors.entries == d.authors.entries[id := r.0.value.value] &&
              r.0.value.value.id == d.authors.entries[id].id && r.0.value.value.books == [] &&
              r.0.value.value.createdAt == now
    ensures WellFormed(d) ==> WellFormed(r.1) && r.1.authors.keys == d.authors.keys
  {
    if id !in d.authors.entries then (Success(None), d)
    else
      match ApplyPatch(RebuiltAuthor(d.authors.entries[id], now), p, now)
      case Failure(e) => (Failure(RuntimeError("Failed to update author: " + e.message)), d)
      case Success(a) => (Success(Some(a)), d.(authors := d.authors.Put(id, a)))
  }

  /** An update of a known author fails exactly when the given name is empty
      or blank, or the given birth year is truthy and outside 1800..2024; a
      successful one stores the stripped name, the biography setter's value
      and the new birth year, each only where given. */
  lemma UpdateAuthorOutcome(d: Document, id: string, p: AuthorPatch, now: Timestamp)
    requires id in d.authors.entries
    ensures var r := UpdateAuthor(d, id, p, now).0;
      && (r.Failure? <==> (p.name.Some? && Text.Blank(p.name.value)) ||
                          (p.birthYear.Some? && CheckBirthYear(p.birthYear.value).Fail?))
      && (r.Success? ==> r.value.Some?)
      && (r.Success? ==>
            && r.value.value.name == (if p.name.Some? then Text.Strip(p.name.value) else d.authors.entries[id].name)
            && r.value.value.biography == (if p.biography.Some? then BiographyValue(p.biography.value) else d.authors.entries[id].biography)
            && r.value.value.birthYear == (if p.birthYear.Some? then p.birthYear.value else d.authors.entries[id].birthYear))
  {
  }

  /** `[book for book in books.values() if book["author_id"] == author_id]`,
      over the keys `ks`. */
  function BooksBy(t: Table<BookRecord>, ks: seq<string>, authorId: string): (r: seq<BookRecord>)
    ensures forall b :: b in r ==> b.authorId == authorId
  {
    if ks == [] then []
    else
      var k := ks[|ks| - 1];
      BooksBy(t, ks[..|ks| - 1], authorId) +
        (if k in t.entries && t.entries[k].authorId == authorId then [t.entries[k]] else [])
  }

  /** The scan finds a book exactly when some book in the table refers to the author. */
  lemma {:induction false} BooksByFinds(t: Table<BookRecord>, ks: seq<string>, authorId: string)
    ensures BooksBy(t, ks, authorId) != [] <==> exists k :: k in ks && k in t.entries && t.entries[k].authorId == authorId
  {
    if ks != [] {
      var ks' := ks[..|ks| - 1];
      BooksByFinds(t, ks', authorId);
      assert forall k :: k in ks <==> k in ks' || k == ks[|ks| - 1] by {
        assert ks == ks' + [ks[|ks| - 1]];
      }
    }
  }

  /** Some book refers to the author. */
  ghost predicate Referenced(d: Document, authorId: string) {
    exists k :: k in d.books.entries && d.books.entries[k].authorId == authorId
  }

  /** `delete_author`: an unknown id gives False and writes nothing; an author
      some book refers to raises and writes nothing; otherwise exactly that
      author's key goes. */
  function DeleteAuthor(d: Document, id: string): (r: (Result<bool>, Document))
    requires WellFormed(d)
    ensures id !in d.authors.entries ==> r == (Success(false), d)
    ensures id in d.authors.entries && Referenced(d, id) ==>
              r == (Failure(ValueError("Cannot delete author with associated books")), d)
    ensures id in d.authors.entries && !Referenced(d, id) ==>
              r.0 == Success(true) && r.1.authors == d.authors.Remove(id) &&
              r.1.authors.entries == d.authors.entries - {id} &&
              r.1.books == d.books && r.1.members == d.members
    ensures WellFormed(r.1)
  {
    BooksByFinds(d.books, d.books.keys, id);
    if id !in d.authors.entries then (Success(false), d)
    else if BooksBy(d.books, d.books.keys, id) != [] then
      (Failure(ValueError("Cannot delete author with associated books")), d)
    else (Success(true), d.(authors := d.authors.Remove(id)))
  }

  // ---------------------------------------------------------------------
  // Books

  /** What `Book(title, author_id, isbn, pages, genre).to_dict()` stores. */
  function NewBook(id: string, title: string, authorId: string, isbn: string, pages: int,
                   genre: Option<string>, now: Timestamp): (r: BookRecord)
    ensures r.id == id && r.title == title && r.authorId == authorId
    ensures r.isbn == isbn && r.pages == pages && r.genre == genre
    ensures r.LendingState() == NewLending && Consistent(r.LendingState())
    ensures r.createdAt == now && r.updatedAt == now
  {
    BookRecord(id, title, authorId, isbn, pages, genre, Available, None, None, now, now)
  }

  /** `create_book`: an unknown author raises "Author not found" and writes
      nothing; otherwise the new book is stored available and unborrowed, its
      id is appended at the end of its author's list, no other author changes
      and members are untouched. */
  function CreateBook(d: Document, id: string, title: string, authorId: string, isbn: string,
                      pages: int, genre: Option<string>, now: Timestamp): (r: (Result<BookRecord>, Document))
    ensures r.0.Failure? <==> authorId !in d.authors.entries
    ensures r.0.Failure? ==> r == (Failure(ValueError("Author not found")), d)
    ensures r.0.Success? ==>
              && r.0.value == NewBook(id, title, authorId, isbn, pages, genre, now)
              && r.0.value.LendingState() == NewLending
              && r.1.books.entries == d.books.entries[id := r.0.value]
              && r.1.authors.entries == d.authors.entries[authorId := d.authors.entries[authorId].(books := d.authors.entries[authorId].books + [id])]
              && r.1.members == d.members
    ensures WellFormed(d) ==> WellFormed(r.1) && r.1.authors.keys == d.authors.keys
    ensures WellFormed(d) && id !in d.books.entries && r.0.Success? ==> r.1.books.keys == d.books.keys + [id]
  {
    if authorId !in d.authors.entries then (Failure(ValueError("Author not found")), d)
    else
      var b := NewBook(id, title, authorId, isbn, pages, genre, now);
      var a := d.authors.entries[authorId];
      (Success(b), d.(books := d.books.Put(id, b), authors := d.authors.Put(authorId, a.(books := a.books + [id]))))
  }

  /** `get_book`: None for an unknown id, otherwise the rebuilt entry, which
      in a valid catalog carries the id asked for and consistent lending fields. */
  function BookView(d: Document, id: string, now: Timestamp): (r: Option<BookRecord>)
    ensures r.Some? <==> id in d.books.entries
    ensures r.Some? ==> r.value == RebuiltBook(d.books.entries[id], now)
    ensures Inv(d) && r.Some? ==> r.value.id == id && Consistent(r.value.LendingState())
  {
    if id in d.books.entries then Some(RebuiltBook(d.books.entries[id], now)) else None
  }

  /** Whether `search_books` keeps book `b` for the lowered query `q`: `q`
      occurs in the lowered title, or in the lowered name of the book's author
      when that author exists, or in the lowered genre when it is a non-empty string. */
  function Matches(d: Document, b: BookRecord, q: string): (m: bool)
    ensures q == "" ==> m
  {
    assert Text.Lower(b.title)[..0] == "";
    || Text.Contains(Text.Lower(b.title), q)
    || (b.authorId in d.authors.entries && Text.Contains(Text.Lower(d.authors.entries[b.authorId].name), q))
    || (b.genre.Some? && b.genre.value != "" && Text.Contains(Text.Lower(b.genre.value), q))
  }

  /** A book matches exactly when the lowered query occurs in its lowered
      title, in the lowered name of its existing author, or in its lowered
      non-empty genre. */
  lemma MatchesOccurs(d: Document, b: BookRecord, q: string)
    ensures Matches(d, b, q) <==>
              (exists i :: Text.OccursAt(Text.Lower(b.title), q, i)) ||
              (b.authorId in d.authors.entries && exists i :: Text.OccursAt(Text.Lower(d.authors.entries[b.authorId].name), q, i)) ||
              (b.genre.Some? && b.genre.value != "" && exists i :: Text.OccursAt(Text.Lower(b.genre.value), q, i))
  {
    var title := Text.Lower(b.title);
    Text.ContainsOccurs(title, q);
    if b.authorId in d.authors.entries {
      Text.ContainsOccurs(Text.Lower(d.authors.entries[b.authorId].name), q);
    }
    if b.genre.Some? {
      Text.ContainsOccurs(Text.Lower(b.genre.value), q);
    }
    assert Text.Contains(title, q) == (exists i :: Text.OccursAt(Text.Lower(b.title), q, i));
    assert b.authorId in d.authors.entries ==> Text.Contains(Text.Lower(d.authors.entries[b.authorId].name), q) == (exists i :: Text.OccursAt(Text.Lower(d.authors.entries[b.authorId].name), q, i));
    assert b.genre.Some? ==> Text.Contains(Text.Lower(b.genre.value), q) == (exists i :: Text.OccursAt(Text.Lower(b.genre.value), q, i));
  }

  /** The keys among `ks`, in their order, whose books match `q`. */
  function SearchPrefix(d: Document, ks: seq<string>, q: string): (r: seq<string>)
    ensures forall k :: k in r ==> k in ks && k in d.books.entries
  {
    if ks == [] then []
    else
      var k := ks[|ks| - 1];
      SearchPrefix(d, ks[..|ks| - 1], q) + (if k in d.books.entries && Matches(d, d.books.entries[k], q) then [k] else [])
  }

  /** One more key of `ks` extends the search by that key exactly when its book matches. */
  lemma SearchPrefixStep(d: Document, ks: seq<string>, i: nat, q: string)
    requires i < |ks| && ks[i] in d.books.entries
    ensures SearchPrefix(d, ks[..i + 1], q) ==
              SearchPrefix(d, ks[..i], q) + (if Matches(d, d.books.entries[ks[i]], q) then [ks[i]] else [])
  {
    assert ks[..i + 1][..i] == ks[..i];
  }

  /** `search_books(query)`: the ids of the books it returns, in iteration order. */
  function SearchKeys(d: Document, query: string): (r: seq<string>)
    ensures forall k :: k in r ==> k in d.books.entries
  {
    SearchPrefix(d, d.books.keys, Text.Lower(query))
  }

  /** The positions in `ks` that SearchPrefix keeps. */
  ghost function SearchPositions(d: Document, ks: seq<string>, q: string): seq<int> {
    if ks == [] then []
    else
      var k := ks[|ks| - 1];
      SearchPositions(d, ks[..|ks| - 1], q) + (if k in d.books.entries && Matches(d, d.books.entries[k], q) then [|ks| - 1] else [])
  }

  /** SearchPrefix keeps exactly the matching keys of `ks`. */
  lemma {:induction false} SearchPrefixMembers(d: Document, ks: seq<string>, q: string)
    ensures forall k :: k in SearchPrefix(d, ks, q) <==> k in ks && k in d.books.entries && Matches(d, d.books.entries[k], q)
  {
    if ks != [] {
      var ks' := ks[..|ks| - 1];
      SearchPrefixMembers(d, ks', q);
      assert ks == ks' + [ks[|ks| - 1]];
      assert forall y :: y in ks <==> y in ks' || y == ks[|ks| - 1];
    }
  }

  /** A key listed once in `ks` is kept at most once. */
  lemma {:induction false} SearchPrefixNoDuplicates(d: Document, ks: seq<string>, q: string)
    requires IdLists.NoDuplicates(ks)
    ensures IdLists.NoDuplicates(SearchPrefix(d, ks, q))
  {
    if ks != [] {
      var ks' := ks[..|ks| - 1];
      var k := ks[|ks| - 1];
      assert IdLists.NoDuplicates(ks') by {
        forall a, b | 0 <= a < b < |ks'| ensures ks'[a] != ks'[b] {
          assert ks'[a] == ks[a] && ks'[b] == ks[b];
        }
      }
      assert k !in ks' by {
        forall a | 0 <= a < |ks'| ensures ks'[a] != k {
          assert ks'[a] == ks[a];
        }
      }
      SearchPrefixNoDuplicates(d, ks', q);
      var r' := SearchPrefix(d, ks', q);
      assert k !in r';
    }
  }

  /** SearchPrefix keeps the order of `ks`: its i-th key sits in `ks` at the
      i-th of a strictly increasing series of positions. */
  lemma {:induction false} SearchPrefixInOrder(d: Document, ks: seq<string>, q: string)
    ensures var r, p := SearchPrefix(d, ks, q), SearchPositions(d, ks, q);
      && |p| == |r|
      && (forall i :: 0 <= i < |p| ==> 0 <= p[i] < |ks| && ks[p[i]] == r[i])
      && (forall i, j :: 0 <= i < j < |p| ==> p[i] < p[j])
  {
    if ks != [] {
      var ks', k := ks[..|ks| - 1], ks[|ks| - 1];
      SearchPrefixInOrder(d, ks', q);
      var r', p' := SearchPrefix(d, ks', q), SearchPositions(d, ks', q);
      var keep := k in d.books.entries && Matches(d, d.books.entries[k], q);
      var r, p := SearchPrefix(d, ks, q), SearchPositions(d, ks, q);
      assert r == r' + (if keep then [k] else []);
      assert p == p' + (if keep then [|ks| - 1] else []);
      forall i | 0 <= i < |p| ensures 0 <= p[i] < |ks| && ks[p[i]] == r[i] {
        if i < |p'| {
          assert p[i] == p'[i] && r[i] == r'[i];
          assert ks[p'[i]] == ks'[p'[i]];
        }
      }
      forall i, j | 0 <= i < j < |p| ensures p[i] < p[j] {
        assert p[i] == p'[i];
        if j < |p'| { assert p[j] == p'[j]; }
      }
    }
  }

  /** `search_books(query)` returns exactly the books whose title, author
      name or genre contains the query, case-insensitively, each once. */
  lemma SearchKeysSpec(d: Document, query: string)
    requires WellFormed(d)
    ensures forall k :: k in SearchKeys(d, query) <==> k in d.books.entries && Matches(d, d.books.entries[k], Text.Lower(query))
    ensures IdLists.NoDuplicates(SearchKeys(d, query))
  {
    SearchPrefixMembers(d, d.books.keys, Text.Lower(query));
    SearchPrefixNoDuplicates(d, d.books.keys, Text.Lower(query));
  }

  /** The empty query matches every title, so it keeps every key of `ks`, in order. */
  lemma {:induction false} SearchPrefixEmptyQuery(d: Document, ks: seq<string>)
    requires forall k :: k in ks ==> k in d.books.entries
    ensures SearchPrefix(d, ks, Text.Lower("")) == ks
  {
    if ks != [] {
      var ks', k := ks[..|ks| - 1], ks[|ks| - 1];
      assert ks == ks' + [k];
      SearchPrefixEmptyQuery(d, ks');
      assert Text.Lower("") == "";
      assert Matches(d, d.books.entries[k], "");
    }
  }

  /** `search_books("")` returns every book of the catalog, in its order. */
  lemma SearchEmptyQueryReturnsAll(d: Document)
    requires WellFormed(d)
    ensures SearchKeys(d, "") == d.books.keys
  {
    SearchPrefixEmptyQuery(d, d.books.keys);
  }

  // ---------------------------------------------------------------------
  // Members

  /** `create_member`, for the membership id and phone the new `Member`
      receives: its entry, with an empty borrowed list, under the new id. */
  function CreateMember(d: Document, id: string, name: string, email: string, membershipId: Option<string>,
                        phone: Option<string>, now: Timestamp): (r: (MemberRecord, Document))
    ensures r.0 == MemberRecord(id, name, email, membershipId, phone, [], now, now)
    ensures r.1.authors == d.authors && r.1.books == d.books
    ensures r.1.members.entries == d.members.entries[id := r.0]
    ensures WellFormed(d) ==> WellFormed(r.1)
    ensures WellFormed(d) && id !in d.members.entries ==> r.1.members.keys == d.members.keys + [id]
  {
    var m := MemberRecord(id, name, email, membershipId, phone, [], now, now);
    (m, d.(members := d.members.Put(id, m)))
  }

  /** `get_member` as intended: None for an unknown id, otherwise the rebuilt
      entry, which in a valid catalog carries the id asked for and a borrowed
      list naming each book once. */
  function MemberView(d: Document, id: string, now: Timestamp): (r: Option<MemberRecord>)
    ensures r.Some? <==> id in d.members.entries
    ensures r.Some? ==> r.value == RebuiltMember(d.members.entries[id], now)
    ensures Inv(d) && r.Some? ==> r.value.id == id && IdLists.NoDuplicates(r.value.borrowedBooks)
  {
    if id in d.members.entries then Some(RebuiltMember(d.members.entries[id], now)) else None
  }

  /** `get_member` as written: None for an unknown id, otherwise the entry
      rebuilt with the stored phone put in the membership-id position, so the
      phone always comes back None. */
  function MemberViewAsWritten(d: Document, id: string, now: Timestamp): (r: Option<MemberRecord>)
    ensures r.Some? <==> id in d.members.entries
    ensures r.Some? ==> r.value == RebuiltMemberAsWritten(d.members.entries[id], now)
    ensures r.Some? ==> r.value.phone == None
  {
    if id in d.members.entries then Some(RebuiltMemberAsWritten(d.members.entries[id], now)) else None
  }

  /** As intended, a member read back in the same instant it was created is
      the member created, with its membership id and phone. */
  lemma MemberRoundTrip(d: Document, id: string, name: string, email: string, membershipId: string,
                        phone: Option<string>, now: Timestamp)
    ensures var (m, d') := CreateMember(d, id, name, email, Some(membershipId), phone, now);
      MemberView(d', id, now) == Some(m) && m.membershipId == Some(membershipId) && m.phone == phone
  {
  }

  /** As written, `create_member` stores the phone as the membership id and no
      phone, and `get_member` then reads the stored (absent) phone back as the
      membership id: after one read both are gone, whatever phone was given. */
  lemma MemberRoundTripAsWritten(d: Document, id: string, name: string, email: string,
                                 phone: string, now: Timestamp)
    ensures var (m, d') := CreateMember(d, id, name, email, Some(phone), None, now);
      && m.membershipId == Some(phone) && m.phone == None
      && MemberViewAsWritten(d', id, now).Some?
      && MemberViewAsWritten(d', id, now).value.membershipId == None
      && MemberViewAsWritten(d', id, now).value.phone == None
  {
  }

  // ---------------------------------------------------------------------
  // Borrowing

  /** `borrow_book` with its save branch taken whenever `book.borrow` succeeds:
      a missing book or member raises, a book that is not available raises;
      otherwise the book becomes borrowed by the member since `now`, the
      member's list gains the book, and only those two entries are rewritten. */
  function Borrow(d: Document, bookId: string, memberId: string, now: Timestamp): (r: (Result<bool>, Document))
    ensures bookId !in d.books.entries || memberId !in d.members.entries ==>
              r == (Failure(ValueError("Book or member not found")), d)
    ensures bookId in d.books.entries && memberId in d.members.entries && d.books.entries[bookId].status != Available ==>
              r == (Failure(ValueError("Book is not available")), d)
    ensures bookId in d.books.entries && memberId in d.members.entries && d.books.entries[bookId].status == Available ==>
              && r.0 == Success(true)
              && bookId in r.1.books.entries && memberId in r.1.members.entries
              && r.1.books.entries[bookId].LendingState() == Lending(Borrowed, Some(memberId), Some(now))
              && r.1.books.entries[bookId] == d.books.entries[bookId].(status := Borrowed, borrowedBy := Some(memberId),
                                                 borrowedDate := Some(now), createdAt := now, updatedAt := now)
              && r.1.members.entries[memberId] == d.members.entries[memberId].(
                   borrowedBooks := IdLists.Added(d.members.entries[memberId].borrowedBooks, bookId), createdAt := now, updatedAt := now)
              && r.1.members.entries[memberId].borrowedBooks == IdLists.Added(d.members.entries[memberId].borrowedBooks, bookId)
              && (forall k :: k != bookId ==> r.1.books.Get(k) == d.books.Get(k))
              && (forall k :: k != memberId ==> r.1.members.Get(k) == d.members.Get(k))
              && r.1.authors == d.authors
    ensures WellFormed(d) ==> WellFormed(r.1) && r.1.books.keys == d.books.keys && r.1.members.keys == d.members.keys
  {
    if bookId !in d.books.entries || memberId !in d.members.entries then
      (Failure(ValueError("Book or member not found")), d)
    else
      var b := RebuiltBook(d.books.entries[bookId], now);
      if b.status != Available then (Failure(ValueError("Book is not available")), d)
      else
        var m := RebuiltMember(d.members.entries[memberId], now);
        var nb := b.WithLending(BorrowStep(b.LendingState(), memberId, now).1);
        var nm := m.(borrowedBooks := IdLists.Added(m.borrowedBooks, bookId));
        (Success(true), d.(books := d.books.Put(bookId, nb), members := d.members.Put(memberId, nm)))
  }

  /** `return_book` with its save branch taken whenever `book.return_book`
      succeeds: a missing book or member raises, a book whose borrower is not
      the member raises; a book recorded with that borrower but not in the
      borrowed status gives False and writes nothing; otherwise the book
      becomes available with borrower and date cleared, the book leaves the
      member's list, and only those two entries are rewritten. */
  function Return(d: Document, bookId: string, memberId: string, now: Timestamp): (r: (Result<bool>, Document))
    ensures bookId !in d.books.entries || memberId !in d.members.entries ==>
              r == (Failure(ValueError("Book or member not found")), d)
    ensures bookId in d.books.entries && memberId in d.members.entries && d.books.entries[bookId].borrowedBy != Some(memberId) ==>
              r == (Failure(ValueError("Book not borrowed by this member")), d)
    ensures bookId in d.books.entries && memberId in d.members.entries && d.books.entries[bookId].borrowedBy == Some(memberId) ==>
              (d.books.entries[bookId].status != Borrowed ==> r == (Success(false), d)) &&
              (d.books.entries[bookId].status == Borrowed ==>
                && r.0 == Success(true)
                && bookId in r.1.books.entries && memberId in r.1.members.entries
                && r.1.books.entries[bookId].LendingState() == NewLending
                && r.1.books.entries[bookId] == d.books.entries[bookId].(status := Available, borrowedBy := None,
                                                   borrowedDate := None, createdAt := now, updatedAt := now)
                && r.1.members.entries[memberId] == d.members.entries[memberId].(
                     borrowedBooks := IdLists.Removed(d.members.entries[memberId].borrowedBooks, bookId), createdAt := now, updatedAt := now)
                && r.1.members.entries[memberId].borrowedBooks == IdLists.Removed(d.members.entries[memberId].borrowedBooks, bookId)
                && (forall k :: k != bookId ==> r.1.books.Get(k) == d.books.Get(k))
                && (forall k :: k != memberId ==> r.1.members.Get(k) == d.members.Get(k))
                && r.1.authors == d.authors)
    ensures WellFormed(d) ==> WellFormed(r.1) && r.1.books.keys == d.books.keys && r.1.members.keys == d.members.keys
  {
    if bookId !in d.books.entries || memberId !in d.members.entries then
      (Failure(ValueError("Book or member not found")), d)
    else
      var b := RebuiltBook(d.books.entries[bookId], now);
      if b.borrowedBy != Some(memberId) then (Failure(ValueError("Book not borrowed by this member")), d)
      else
        var step := ReturnStep(b.LendingState());
        if !step.0 then (Success(false), d)
        else
          var m := RebuiltMember(d.members.entries[memberId], now);
          var nm := m.(borrowedBooks := IdLists.Removed(m.borrowedBooks, bookId));
          (Success(true), d.(books := d.books.Put(bookId, b.WithLending(step.1)), members := d.members.Put(memberId, nm)))
  }

  /** `borrow_book` as written: once the book is found and available the
      undefined `member.can_borrow` raises, so it fails where the intended
      transaction succeeds, raises the same errors before that, and never writes. */
  function BorrowAsWritten(d: Document, bookId: string, memberId: string, now: Timestamp): (r: (Result<bool>, Document))
    ensures r.1 == d && r.0.Failure?
    ensures Borrow(d, bookId, memberId, now).0.Failure? ==> r == Borrow(d, bookId, memberId, now)
    ensures Borrow(d, bookId, memberId, now).0.Success? ==>
              r.0 == Failure(AttributeError("'Member' object has no attribute 'can_borrow'"))
  {
    if bookId !in d.books.entries || memberId !in d.members.entries then
      (Failure(ValueError("Book or member not found")), d)
    else if RebuiltBook(d.books.entries[bookId], now).status != Available then
      (Failure(ValueError("Book is not available")), d)
    else
      (Failure(AttributeError("'Member' object has no attribute 'can_borrow'")), d)
  }

  /** `return_book` as written: `member.return_book` returns None, so the `and`
      is falsy and the call gives False without writing wherever the intended
      transaction does not raise; it raises the same errors otherwise. */
  function ReturnAsWritten(d: Document, bookId: string, memberId: string, now: Timestamp): (r: (Result<bool>, Document))
    ensures r.1 == d && r.0 != Success(true)
    ensures Return(d, bookId, memberId, now).0.Failure? ==> r == Return(d, bookId, memberId, now)
    ensures Return(d, bookId, memberId, now).0.Success? ==> r.0 == Success(false)
  {
    if bookId !in d.books.entries || memberId !in d.members.entries then
      (Failure(ValueError("Book or member not found")), d)
    else if RebuiltBook(d.books.entries[bookId], now).borrowedBy != Some(memberId) then
      (Failure(ValueError("Book not borrowed by this member")), d)
    else
      (Success(false), d)
  }
}
