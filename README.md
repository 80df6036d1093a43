# Library catalog, modelled in Dafny

This project models the domain core of `library_management`, a small library
catalog service. The catalog is one document with three id-keyed maps:
`authors`, `books` and `members`. `LibraryService` runs transactions over
it. Each transaction loads the document, rebuilds the entities it needs,
changes them through their own methods, and saves the changed document.

The Dafny project follows the source's structure:

- `base.dfy`, `book.dfy`, `author.dfy`, `member.dfy`: the entity classes.
  - Their fields are mutable, and their methods update them in place.
  - Each class has a `ToDict()` that gives the entry stored in the document.
  - `book.dfy` also holds the borrow/return state machine as functions on the three lending fields, with lemmas over any sequence of calls.
- `storage.dfy`: `DataStorage`, an in-memory document. Loading returns what was saved last, and a new store starts from three empty maps.
- `tables.dfy`: a dict as entries plus insertion order. `for … in d.values()` visits entries in that order.
- `id_lists.dfy`: the two id-list updates, append-if-absent and `list.remove`.
- `text.dfy`: `str.strip`, `str.lower` and `in` on strings.
- `catalog.dfy`: each transaction as a function from the document before to its result and the document after.
  - Lemmas prove what each transaction promises.
  - `Inv`, the catalog invariant, states:
    - every entry is stored under its own id;
    - lending fields agree with the status;
    - every book's author exists;
    - author lists name only that author's books;
    - the books' borrowers and the members' borrowed lists agree.
- `invariants.dfy`: every transaction (the corrected ones where the source is broken) preserves `Inv`.
- `library_service.dfy`: the `LibraryService` class.
  - Every method is proved to compute the matching `Catalog` function on the document it found.
  - Loops carry invariants tying their partial results to prefix-recursive specification functions.

Ids and the clock are parameters. `id` is the fresh id (a `uuid4`) a new
entity receives. `now` is the time (`datetime.now()`) read during a call.

### Where the code and the design disagree

In each case the model follows the code:

- `create_author` and `create_book` run the constructors. The constructors store names, ISBNs, page counts and birth years without the setters' validation.
- `delete_author` decides whether an author has books by scanning the `author_id` of every stored book, not the author's own list.
- `update_author` starts from `get_author`, which rebuilds an `Author` with an empty book list. Every update therefore saves the author with `books == []`; `Catalog.UpdateAuthor` states this.
- `get_author`, `get_book` and `get_member` rebuild entities with new timestamps. A transaction that saves a rebuilt book or member therefore rewrites its `created_at`. Likewise `update_author` saves the rebuilt author, so its `created_at` becomes the time of the update; `Catalog.UpdateAuthor` states this.

## Model

| member | source | states |
|---|---|---|
| Base.CheckName | library_management/app/models/base.py:25-27 | fails with ValueError "Name cannot be empty" exactly when the value is empty or all white space; otherwise gives the stripped value, which is non-empty |
| Base.CheckNameIdempotent | library_management/app/models/base.py:25-27 | setting a name the setter stored before gives the same name |
| Base.BaseEntity.constructor | library_management/app/models/base.py:9-13 | takes the given id and clock reading and stores the name as given, without validation |
| Base.BaseEntity.SetName | library_management/app/models/base.py:23-28 | a rejected value leaves name and updated_at unchanged; an accepted one stores the stripped name and sets updated_at to now |
| Text.Strip | library_management/app/models/base.py:25-27 | empty exactly when the input is blank; otherwise it starts and ends with a non-space and is the piece of the input after its leading white space, followed only by white space |
| Text.StripIdempotent | library_management/app/models/base.py:27 | stripping twice is stripping once |
| Text.LowerChar | library_management/app/services/library_service.py:124-140 | an ASCII capital becomes its small letter (code plus 32), every other character is kept, and no capital is left |
| Text.Lower | library_management/app/services/library_service.py:124-140 | same length, and each character is the lowered character at the same position |
| Text.LowerIdempotent | library_management/app/services/library_service.py:124-140 | lowering twice is lowering once |
| Text.ContainsOccurs | library_management/app/services/library_service.py:128-140 | `q in s` holds exactly when q occurs in s at some position |
| BookModel.BorrowStep | library_management/app/models/book.py:57-65 | succeeds exactly on an available book, which becomes borrowed by the member since now; otherwise nothing changes; keeps borrower/date agreeing with the status |
| BookModel.ReturnStep | library_management/app/models/book.py:67-74 | succeeds exactly on a borrowed book, which becomes available with borrower and date cleared; in any other status nothing changes; keeps the agreement |
| BookModel.RunConsistent | library_management/app/models/book.py:21-23 | after any sequence of borrow and return calls on a new book, a borrower and a borrow date are recorded exactly when the book is borrowed |
| BookModel.BorrowTwiceFails | library_management/app/models/book.py:57-74 | after a successful borrow a second borrow fails, and a return restores a new book's lending fields |
| BookModel.CheckIsbn | library_management/app/models/book.py:33-37 | accepts exactly values of at least 10 characters; otherwise ValueError with the source's message |
| BookModel.CheckPages | library_management/app/models/book.py:43-47 | accepts exactly non-negative counts; otherwise ValueError with the source's message |
| BookModel.Book.constructor | library_management/app/models/book.py:14-23 | stores the fields as given; the book is available with no borrower and no borrow date |
| BookModel.Book.SetIsbn | library_management/app/models/book.py:33-37 | outcome is CheckIsbn's; a rejected value leaves the whole entry unchanged, an accepted one changes only the isbn |
| BookModel.Book.SetPages | library_management/app/models/book.py:43-47 | outcome is CheckPages'; a rejected value leaves the whole entry unchanged, an accepted one changes only pages |
| BookModel.Book.Borrow | library_management/app/models/book.py:57-65 | result and lending fields are BorrowStep's; no other field changes |
| BookModel.Book.ReturnBook | library_management/app/models/book.py:67-74 | result and lending fields are ReturnStep's; no other field changes |
| BookModel.Book.IsAvailable | library_management/app/models/book.py:53-55 | true exactly when the status is available; a consistent available book then has no borrower and no borrow date |
| BookModel.Book.ToDict | library_management/app/models/book.py:76-89 | the entry holds the base's id, name as title and timestamps, the catalog fields, and the book's lending fields as its lending state |
| AuthorModel.BiographyValue | library_management/app/models/author.py:17-19 | None exactly for None or ""; otherwise the stripped text |
| AuthorModel.CheckBirthYear | library_management/app/models/author.py:25-29 | accepts exactly None, 0 and the years 1800..2024; otherwise ValueError with the source's message |
| AuthorModel.Author.constructor | library_management/app/models/author.py:7-11 | stores the values without the setters' checks; the book list is empty |
| AuthorModel.Author.SetBiography | library_management/app/models/author.py:17-19 | changes only the biography, to BiographyValue |
| AuthorModel.Author.SetBirthYear | library_management/app/models/author.py:25-29 | outcome is CheckBirthYear's; a rejected year leaves the author unchanged |
| AuthorModel.Author.AddBook | library_management/app/models/author.py:35-38 | the list becomes Added(list, id); other fields unchanged; no duplicate appears |
| AuthorModel.Author.RemoveBook | library_management/app/models/author.py:40-43 | the list becomes Removed(list, id); on a list without duplicates the id is gone afterwards |
| AuthorModel.Author.Books | library_management/app/models/author.py:31-33 | the list element by element; without duplicates when the author is valid |
| AuthorModel.Author.ToDict | library_management/app/models/author.py:45-54 | the entry holds the base's id, name and timestamps, the biography, the birth year and the book list, which has no duplicates when the author is valid |
| MemberModel.Member.constructor | library_management/app/models/member.py:8-13 | stores the values as given; the borrowed list is empty |
| MemberModel.Member.BorrowBook | library_management/app/models/member.py:31-33 | the list becomes Added(list, id), keeping it free of duplicates; returns nothing |
| MemberModel.Member.ReturnBook | library_management/app/models/member.py:35-37 | the list becomes Removed(list, id); on a list without duplicates the id is gone; returns nothing |
| MemberModel.Member.ToDict | library_management/app/models/member.py:39-48 | the entry holds the base's id, name and timestamps, the contact fields and the borrowed list, which has no duplicates when the member is valid |
| IdLists.Added | library_management/app/models/author.py:37-38 | keeps the list as a prefix, contains the id, adds nothing else and at most one element, and never creates a duplicate |
| IdLists.AddedIdempotent | library_management/app/models/author.py:37-38 | adding twice is adding once |
| IdLists.Removed | library_management/app/models/author.py:42-43 | unchanged when the id is absent, one element shorter when present |
| IdLists.RemovedCutsFirst | library_management/app/models/member.py:36-37 | what is cut is the first occurrence; the others keep their order |
| IdLists.RemovedNoDuplicates | library_management/app/models/member.py:36-37 | on a list without duplicates, removal leaves no duplicates, no id, and every other element |
| IdLists.AddedThenRemoved | library_management/app/models/author.py:35-43 | adding then removing an absent id restores the list |
| Tables.Table.Put | library_management/app/services/library_service.py:20 | `d[k] = v` sets the entry; a new key goes to the end of the order, an existing key keeps its place |
| Tables.Table.Remove | library_management/app/services/library_service.py:81 | `del d[k]` removes the entry; a present key is cut from the order at its place and the other keys keep their order; an absent key leaves the order as it was |
| Storage.InitialDocument | library_management/app/services/data_storage.py:14-22 | the initial document has three empty maps |
| Storage.DataStorage.constructor | library_management/app/services/data_storage.py:9-22 | a new store holds the document saved before, or the initial one |
| Storage.DataStorage.LoadData | library_management/app/services/data_storage.py:24-28 | loading returns the document last saved |
| Storage.DataStorage.SaveData | library_management/app/services/data_storage.py:37-41 | after saving, the next load returns exactly what was saved |
| Catalog.InitialInv | library_management/app/services/data_storage.py:17-21 | the initial document satisfies the catalog invariant |
| Catalog.RebuiltAuthor | library_management/app/services/library_service.py:31-33 | get_author keeps id, name, biography and birth year, empties the book list and sets both timestamps to now |
| Catalog.RebuiltBook | library_management/app/services/library_service.py:111-116 | get_book keeps every field but the timestamps, so also the lending state, and sets both timestamps to now |
| Catalog.RebuiltMember | library_management/app/services/library_service.py:172-175 | the intended get_member keeps every field but the timestamps and sets both to now |
| Catalog.RebuiltMemberAsWritten | library_management/app/services/library_service.py:172-175 | the as-written get_member puts the stored phone in the membership-id field and leaves the phone None; the other fields are kept and both timestamps are now |
| Catalog.CreateAuthor | library_management/app/services/library_service.py:18-21 | the new entry sits under the new id; books and members are unchanged; a fresh id is one new key at the end |
| Catalog.AuthorView | library_management/app/services/library_service.py:26-35 | Some exactly for a stored id, holding the rebuilt entry; in a valid catalog it carries the id asked for |
| Catalog.ApplyPatch | library_management/app/services/library_service.py:55-60 | fails exactly when a given name is blank or a given birth year is refused; a blank name's ValueError wins over a refused year's, because the name setter runs first; on success the stripped name, the biography setter's value and the year are stored where given, and id, book list and creation time are kept |
| Catalog.UpdateAuthor | library_management/app/services/library_service.py:48-67 | an unknown id gives None and writes nothing; a setter that raises gives RuntimeError "Failed to update author: " followed by the message of the error Catalog.ApplyPatch picks, and writes nothing; otherwise only that author's entry is rewritten, with an empty book list and created_at set to now, and the key order is kept |
| Catalog.UpdateAuthorOutcome | library_management/app/services/library_service.py:54-65 | fails exactly on a blank name or an out-of-range truthy birth year; otherwise stores each given field as its setter would |
| Catalog.BooksBy | library_management/app/services/library_service.py:76-77 | every book the scan collects refers to the author |
| Catalog.BooksByFinds | library_management/app/services/library_service.py:76-78 | the scan finds a book exactly when some stored book refers to the author |
| Catalog.DeleteAuthor | library_management/app/services/library_service.py:69-83 | unknown id: False and no write; referenced author: ValueError and no write; otherwise True, and the authors table becomes Tables.Table.Remove of the id, so the id is cut from the key order and the other authors keep theirs |
| Catalog.NewBook | library_management/app/services/library_service.py:94-96 | the stored new book has the given fields, is available with no borrower and no borrow date, and was created and updated now |
| Catalog.CreateBook | library_management/app/services/library_service.py:86-104 | an unknown author raises "Author not found" with no write; otherwise the new book is stored available and unborrowed at the end of the order, its id is appended to its author's list, and no other author or member changes |
| Catalog.BookView | library_management/app/services/library_service.py:106-118 | Some exactly for a stored id, holding the rebuilt entry; in a valid catalog it carries the id asked for and consistent lending fields |
| Catalog.Matches | library_management/app/services/library_service.py:128-141 | the empty query matches every book |
| Catalog.MatchesOccurs | library_management/app/services/library_service.py:128-141 | a book matches exactly when the lowered query occurs in its lowered title, in the lowered name of its existing author, or in its lowered non-empty genre |
| Catalog.SearchKeys | library_management/app/services/library_service.py:120-143 | every id the search returns is a book of the catalog; SearchKeysSpec characterises the result fully |
| Catalog.SearchKeysSpec | library_management/app/services/library_service.py:120-143 | the search returns exactly the books whose lowered title, author name or non-empty genre contains the lowered query, each once |
| Catalog.SearchPrefixInOrder | library_management/app/services/library_service.py:126-141 | the results are in the books' iteration order |
| Catalog.SearchEmptyQueryReturnsAll | library_management/app/services/library_service.py:124-129 | the empty query returns every book, in order |
| Catalog.CreateMember | library_management/app/services/library_service.py:156-165 | the new entry, with an empty borrowed list, is stored under the new id; authors and books are unchanged |
| Catalog.MemberView | library_management/app/services/library_service.py:167-177 | as intended: Some exactly for a stored id, holding the rebuilt entry; in a valid catalog it carries the id asked for and a borrowed list without duplicates |
| Catalog.MemberViewAsWritten | library_management/app/services/library_service.py:167-177 | as written: Some exactly for a stored id, holding the entry rebuilt as written, whose phone is always None |
| Catalog.MemberRoundTrip | library_management/app/services/library_service.py:167-177 | as intended, a member read back is the member created, with its membership id and phone |
| Catalog.MemberRoundTripAsWritten | library_management/app/services/library_service.py:159 | as written, the phone is stored as the membership id with no phone, and one read loses both |
| Catalog.Borrow | library_management/app/services/library_service.py:180-202 | a missing book or member raises, as does a book that is not available; otherwise the stored book entry becomes borrowed by the member since now and the member's entry gains the book in its list, each with every other field kept and both timestamps set to now, and no other entry changes |
| Catalog.Return | library_management/app/services/library_service.py:204-223 | a missing entity raises, as does a borrower other than the member; a book recorded with that borrower but not borrowed gives False with no write; otherwise the stored book entry becomes available with borrower and date cleared and the book leaves the member's list, each with every other field kept and both timestamps set to now, and no other entry changes |
| Catalog.BorrowAsWritten | library_management/app/services/library_service.py:191 | always fails and never writes; same errors as Borrow where Borrow fails; AttributeError wherever Borrow would succeed |
| Catalog.ReturnAsWritten | library_management/app/services/library_service.py:216 | never writes and never gives True; same errors as Return where Return fails; False wherever Return succeeds |
| Invariants.CreateAuthorKeepsInv | library_management/app/services/library_service.py:18-21 | create_author preserves the catalog invariant |
| Invariants.UpdateAuthorKeepsInv | library_management/app/services/library_service.py:48-67 | update_author preserves the catalog invariant |
| Invariants.DeleteAuthorKeepsInv | library_management/app/services/library_service.py:69-83 | delete_author preserves it; the scan guard keeps every book's author present |
| Invariants.CreateBookKeepsInv | library_management/app/services/library_service.py:94-101 | create_book with a fresh id preserves the invariant |
| Invariants.CreateMemberKeepsInv | library_management/app/services/library_service.py:159-162 | create_member with a fresh id preserves the invariant |
| Invariants.BorrowKeepsInv | library_management/app/services/library_service.py:195-200 | the intended borrow preserves the invariant, so book and member records of the loan agree |
| Invariants.ReturnKeepsInv | library_management/app/services/library_service.py:216-221 | the intended return preserves the invariant |
| Invariants.ReturnNeverFalse | library_management/app/services/library_service.py:212-223 | on a valid catalog the intended return never gives False |
| Invariants.ReturnAsWrittenKeepsLoan | library_management/app/services/library_service.py:216 | on a valid catalog the as-written return of a real loan gives False and keeps the book borrowed, where the intended one succeeds and frees it |
| LibraryService.LibraryService.constructor | library_management/app/services/library_service.py:10-11 | the service's store holds the saved document, or the initial one |
| LibraryService.LibraryService.CreateAuthor | library_management/app/services/library_service.py:14-24 | the new author and the saved document are Catalog.CreateAuthor's |
| LibraryService.LibraryService.GetAuthor | library_management/app/services/library_service.py:26-35 | null exactly for an unknown id; otherwise a new author whose entry is the stored one with an empty book list and new timestamps |
| LibraryService.LibraryService.GetAllAuthors | library_management/app/services/library_service.py:37-46 | one new author per entry, in the document's order, each rebuilt as get_author rebuilds it |
| LibraryService.LibraryService.Patch | library_management/app/services/library_service.py:55-60 | the rebuilt author's new state and the outcome are Catalog.ApplyPatch's |
| LibraryService.LibraryService.UpdateAuthor | library_management/app/services/library_service.py:48-67 | the result and the saved document are Catalog.UpdateAuthor's |
| LibraryService.LibraryService.DeleteAuthor | library_management/app/services/library_service.py:69-83 | the result and the saved document are Catalog.DeleteAuthor's |
| LibraryService.LibraryService.CreateBook | library_management/app/services/library_service.py:86-104 | the result and the saved document are Catalog.CreateBook's |
| LibraryService.LibraryService.GetBook | library_management/app/services/library_service.py:106-118 | null exactly for an unknown id; otherwise a new book whose entry is the stored one with new timestamps |
| LibraryService.LibraryService.DictToBook | library_management/app/services/library_service.py:145-153 | a new book whose entry is the given one with new timestamps |
| LibraryService.LibraryService.Keep | library_management/app/services/library_service.py:128-141 | the title, author-name and genre tests, in order, keep a book exactly when Catalog.Matches holds |
| LibraryService.LibraryService.SearchBooks | library_management/app/services/library_service.py:120-143 | the books returned are, position by position, those of Catalog.SearchKeys, rebuilt from their entries |
| LibraryService.LibraryService.CreateMemberAsWritten | library_management/app/services/library_service.py:156-165 | as written: the saved entry has the phone as its membership id and no phone |
| LibraryService.LibraryService.CreateMember | library_management/app/services/library_service.py:156-165 | as intended: the saved entry has the given membership id and phone |
| LibraryService.LibraryService.GetMemberAsWritten | library_management/app/services/library_service.py:167-177 | as written: the stored phone comes back as the membership id, with no phone |
| LibraryService.LibraryService.GetMember | library_management/app/services/library_service.py:167-177 | as intended: every stored field comes back, with new timestamps |
| LibraryService.LibraryService.BorrowBookAsWritten | library_management/app/services/library_service.py:180-202 | the result is Catalog.BorrowAsWritten's, and nothing is saved |
| LibraryService.LibraryService.BorrowBook | library_management/app/services/library_service.py:180-202 | the result and the saved document are Catalog.Borrow's |
| LibraryService.LibraryService.ReturnBookAsWritten | library_management/app/services/library_service.py:204-223 | the result is Catalog.ReturnAsWritten's, and nothing is saved |
| LibraryService.LibraryService.ReturnBook | library_management/app/services/library_service.py:204-223 | the result and the saved document are Catalog.Return's |

## Left out

- File and JSON I/O in `data_storage.py`: the data file, directory creation, `FileNotFoundError` recovery, the `JSONDecodeError` and `HTTPException` mapping. The store is an in-memory document.
- The JSON encoding of entries:
  - the status is stored as the enum, not its string value;
  - a borrow date is stored as a clock reading, not an ISO string.
- The `try/except` wrappers that turn any exception into `RuntimeError("Failed to create …")` in `create_author`, `create_book` and `create_member`. The modelled bodies never raise there. `update_author`'s wrapper is modelled.
- FastAPI routers, pydantic schemas and `main.py`: framework glue.
- `update_book`, `get_all_members`, `update_member`, `delete_member` and `get_member_borrowed_books`: the routers call them, but the service does not define them.
- `member.can_borrow` (a borrowing limit): it is not defined anywhere, so the corrected borrow has no limit check.
- `uuid4` and `datetime.now()` are parameters. Each call reads the clock once, where the source may read it several times.
- `BaseEntity.__str__`: presentation only.
- The circular import in `member.py` and races between concurrent requests: import and concurrency concerns.
- Aliasing: `get_member` makes the stored borrowed list itself the member's list. Every load here returns a fresh document, so the aliasing cannot be observed.
- Text.Strip: only ASCII white space and the separators `str.strip` removes are modelled; no Unicode white space. The same applies to Text.Lower (ASCII letters only) and its callers.
- Catalog.ApplyPatch: an explicit `"name": None` in the update's keyword arguments is not modelled. Such a call makes the name setter raise on `not value`. The patch treats an absent name and a None name alike.
- Catalog.Borrow: the saved member is rebuilt by the intended `get_member`, because the as-written one does not reach the save.
- Catalog.Return: the saved member is also rebuilt by the intended `get_member`. So it corrects the constructor call at library_service.py:172-173 as well as the `and` at :216. Fixing only :216 of the source would save the stored phone as the membership id and None as the phone.
- LibraryService.LibraryService.ReturnBook: the same applies, because it saves Catalog.Return's document.
- LibraryService.LibraryService.SearchBooks: does not state that the returned books are new objects. GetBook and DictToBook state it for every single book.
- LibraryService.LibraryService.Keep: the `continue` after each successful test is written as an early return from the test helper. The tests and their order are the same.
- AuthorModel.Author.Books: returning a copy is automatic, because Dafny sequences are values. No lemma is needed.

## Findings

| source | as written | input that shows it | evidently intended | confidence | as-written member | corrected member |
|---|---|---|---|---|---|---|
| library_management/app/services/library_service.py:191 | `member.can_borrow` is read, but `Member` defines no such attribute | any existing member and an available book: the call raises AttributeError and the book is never lent | borrowing an available book lends it and saves both entries | high, not executed | Catalog.BorrowAsWritten | Catalog.Borrow |
| library_management/app/services/library_service.py:195 and :216 | `book.borrow(...) and member.borrow_book(...)`, and likewise for return; the member methods return None, so the condition is falsy | a member who borrowed a book returns it: the call gives False and nothing is saved | the save branch runs whenever the book's own step succeeds | high, not executed | Invariants.ReturnAsWrittenKeepsLoan | Catalog.Return |
| library_management/app/services/library_service.py:159 and :172 | `Member(name, email, phone)` against the four-parameter constructor `Member(name, email, membership_id, phone)` | `create_member("A", "a@x", "555")` stores membership id "555" and phone None; a later `get_member` reads membership id None | the membership id and the phone go to their own fields | high, not executed | Catalog.MemberRoundTripAsWritten | Catalog.MemberRoundTrip |
