/**
 * The book list (BookList.tsx): the search over the catalogue, what a book's
 * card derives from it, the dialog that gates deletes, and the dispatch of a
 * submitted form to the library.
 */
module BookList {
  import opened Options
  import opened Types
  import opened Seqs
  import opened Text
  import opened Lookups
  import opened App
  import opened Dialog
  import opened BookForm

  /** The search term occurs, ignoring case, in the title, the author or the ISBN. */
  predicate BookMatches(b: Book, term: string) {
    Matches(b.title, term) || Matches(b.author, term) || Matches(b.isbn, term)
  }

  /** `filteredBooks`: the books that match, in catalogue order. */
  function FilterBooks(books: seq<Book>, term: string): (r: seq<Book>)
    ensures forall b :: b in r <==> b in books && BookMatches(b, term)
    ensures IsSubseq(r, books)
    ensures forall b :: multiset(r)[b] == if BookMatches(b, term) then multiset(books)[b] else 0
  {
    FilterMultiset(books, (b: Book) => BookMatches(b, term));
    Filter(books, (b: Book) => BookMatches(b, term))
  }

  /** An empty search shows the whole catalogue. */
  lemma FilterBooksEmptyTerm(books: seq<Book>)
    ensures FilterBooks(books, "") == books
  {
    forall b: Book ensures BookMatches(b, "") {
      MatchesEmpty(b.title);
    }
    FilterLength(books, (b: Book) => BookMatches(b, ""));
  }

  /** The card marks a book available exactly when a copy is on the shelf. */
  predicate Available(b: Book) {
    b.quantity > 0
  }

  /** A name that is present (JavaScript truthiness of a string). */
  predicate Present(name: string) {
    name != ""
  }

  /** The name looked up for a student id (`""` when the student is missing). */
  function NameFor(students: seq<Student>): string -> string {
    (id: string) => NameOf(students, id)
  }

  /** The names of the card's borrowers: one per entry of `borrowedBy`, in that order, skipping ids with no named student. */
  function Borrowers(b: Book, students: seq<Student>): (names: seq<string>)
    ensures forall n :: n in names ==> n != "" && exists k :: 0 <= k < |b.borrowedBy| && NameOf(students, b.borrowedBy[k]) == n
    ensures forall n :: n in names ==> exists i :: 0 <= i < |students| && students[i].name == n && students[i].id in b.borrowedBy
    ensures forall k :: 0 <= k < |b.borrowedBy| && NameOf(students, b.borrowedBy[k]) != "" ==> NameOf(students, b.borrowedBy[k]) in names
    ensures IsSubseq(names, Map(b.borrowedBy, NameFor(students)))
  {
    var looked := Map(b.borrowedBy, NameFor(students));
    var names := Filter(looked, Present);
    assert forall n :: n in names ==> n in looked && n != "";
    forall k | 0 <= k < |b.borrowedBy| && NameOf(students, b.borrowedBy[k]) != ""
      ensures NameOf(students, b.borrowedBy[k]) in names
    {
      assert looked[k] in looked;
    }
    names
  }

  /** A borrower added at the end of `borrowedBy` adds their name, when they have one, at the end of the card's list. */
  lemma BorrowersAppend(b: Book, students: seq<Student>, id: string)
    ensures Borrowers(b.(borrowedBy := b.borrowedBy + [id]), students) ==
      Borrowers(b, students) + (if NameOf(students, id) != "" then [NameOf(students, id)] else [])
  {
    var f := NameFor(students);
    assert Map(b.borrowedBy + [id], f) == Map(b.borrowedBy, f) + Map([id], f);
    FilterAppend(Map(b.borrowedBy, f), Map([id], f), Present);
    assert Map([id], f)[1..] == [];
  }

  /** The number of borrowers that are students with a name. */
  function NamedBorrowers(ids: seq<string>, students: seq<Student>): nat {
    if ids == [] then 0
    else NamedBorrowers(ids[..|ids| - 1], students) + (if NameOf(students, ids[|ids| - 1]) != "" then 1 else 0)
  }

  /** The card lists one name per borrower that is a student with a name. */
  lemma {:induction false} BorrowersCount(b: Book, students: seq<Student>)
    ensures |Borrowers(b, students)| == NamedBorrowers(b.borrowedBy, students)
    decreases |b.borrowedBy|
  {
    if b.borrowedBy != [] {
      var ids := b.borrowedBy;
      var init := b.(borrowedBy := ids[..|ids| - 1]);
      assert ids == init.borrowedBy + [ids[|ids| - 1]];
      assert b == init.(borrowedBy := init.borrowedBy + [ids[|ids| - 1]]);
      BorrowersCount(init, students);
      BorrowersAppend(init, students, ids[|ids| - 1]);
    }
  }

  /** Borrowing a book adds the borrower's name, when they have one, at the end of that book's card. */
  lemma BorrowAddsBorrowerName(st: LibraryState, bookId: string, studentId: string, days: int, now: nat, i: int)
    requires 0 <= i < |st.books| && st.books[i].id == bookId
    ensures Borrowers(st.BorrowBook(bookId, studentId, days, now).books[i], st.students) ==
      Borrowers(st.books[i], st.students) + (if NameOf(st.students, studentId) != "" then [NameOf(st.students, studentId)] else [])
  {
    var b := st.books[i];
    var after := st.BorrowBook(bookId, studentId, days, now).books[i];
    BorrowersAppend(b, st.students, studentId);
    assert after.borrowedBy == b.borrowedBy + [studentId];
  }

  /** When every borrower is a student with a name, the card names all of them. */
  lemma BorrowersComplete(b: Book, students: seq<Student>)
    requires forall k :: 0 <= k < |b.borrowedBy| ==> NameOf(students, b.borrowedBy[k]) != ""
    ensures |Borrowers(b, students)| == |b.borrowedBy|
  {
    var looked := Map(b.borrowedBy, NameFor(students));
    FilterLength(looked, Present);
  }

  /** The list component's own state. */
  class BookListView {
    var modal: ModalState<Book>
    var searchTerm: string

    constructor ()
      ensures modal == Closed() && searchTerm == ""
    {
      modal := Closed();
      searchTerm := "";
    }

    function FilteredBooks(books: seq<Book>): seq<Book>
      reads this
    {
      FilterBooks(books, searchTerm)
    }

    method OpenAddModal()
      modifies this
      ensures modal == AddOpened() && searchTerm == old(searchTerm)
    {
      modal := AddOpened();
    }

    method OpenEditModal(book: Book)
      modifies this
      ensures modal == EditOpened(book) && searchTerm == old(searchTerm)
    {
      modal := EditOpened(book);
    }

    method CloseModal()
      modifies this
      ensures modal == Closed() && searchTerm == old(searchTerm)
    {
      modal := Closed();
    }

    /** `handleDeleteRequest`: ask the library whether the book can go, and open the matching dialog. */
    method HandleDeleteRequest(book: Book, lib: Library)
      modifies this
      ensures modal == DeleteRequested(book, lib.State().CanDeleteBook(book.id))
      ensures modal.kind == Some(Delete) <==> forall k :: 0 <= k < |lib.borrowingRecords| ==> lib.borrowingRecords[k].bookId != book.id
      ensures searchTerm == old(searchTerm)
    {
      var ok := lib.CheckCanDeleteBook(book.id);
      modal := DeleteRequested(book, ok);
    }

    /** `confirmDelete`: delete the dialog's book only from the confirmation dialog, then close it. */
    method ConfirmDelete(lib: Library)
      modifies this, lib
      ensures ConfirmTarget(old(modal)).Some? ==> lib.State() == old(lib.State()).DeleteBook(ConfirmTarget(old(modal)).value.id)
      ensures ConfirmTarget(old(modal)).None? ==> lib.State() == old(lib.State())
      ensures modal == Closed() && searchTerm == old(searchTerm)
    {
      var target := ConfirmTarget(modal);
      if target.Some? {
        lib.DeleteBook(target.value.id);
      }
      modal := Closed();
    }

    /** `handleSave`: an edited book updates the library, a new one is added; the dialog closes. */
    method HandleSave(payload: BookPayload, lib: Library, now: nat)
      modifies this, lib
      ensures payload.ExistingBook? ==> lib.State() == old(lib.State()).UpdateBook(payload.book)
      ensures payload.NewBook? ==> lib.State() == old(lib.State()).AddBook(payload.draft, now)
      ensures modal == Closed() && searchTerm == old(searchTerm)
    {
      match payload {
        case ExistingBook(b) => lib.UpdateBook(b);
        case NewBook(d) => lib.AddBook(d, now);
      }
      modal := Closed();
    }

    method SetSearchTerm(term: string)
      modifies this
      ensures searchTerm == term && modal == old(modal)
    {
      searchTerm := term;
    }
  }

  /**
   * A delete request followed by its confirmation, with no change to the
   * records in between, deletes the book exactly when no record refers to it,
   * and so never leaves a record pointing at a missing book.
   */
  method RequestThenConfirm(view: BookListView, lib: Library, book: Book)
    requires lib.State().RefIntegrity()
    modifies view, lib
    ensures old(lib.State()).CanDeleteBook(book.id) ==> lib.State() == old(lib.State()).DeleteBook(book.id)
    ensures !old(lib.State()).CanDeleteBook(book.id) ==> lib.State() == old(lib.State())
    ensures lib.State().RefIntegrity()
    ensures view.modal == Closed()
  {
    view.HandleDeleteRequest(book, lib);
    GatedDelete(book, lib.State().CanDeleteBook(book.id));
    view.ConfirmDelete(lib);
    DeleteBookIntegrity(old(lib.State()), book.id);
  }
}
