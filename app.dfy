/**
 * The mutation layer of the library (App.tsx): the three collections the
 * top-level component keeps in state, and the operations the views call to
 * replace them. Each operation is a function on `LibraryState` that computes
 * the new collections; the class `Library` holds the collections and applies
 * those functions step by step, as the component's state setters do.
 *
 * The clock (`Date.now()`, `new Date()`) is a parameter `now`, in milliseconds.
 */
module App {
  import opened Options
  import opened Types
  import opened Seqs
  import opened Text
  import opened Lookups

  /** The placeholder cover `https://picsum.photos/seed/<seed>/400/600`. */
  function CoverUrl(seed: string): string {
    "https://picsum.photos/seed/" + seed + "/400/600"
  }

  /** `${stamp}-${index}`: the id of entry `index` of an import, with `stamp` the clock reading for it. */
  function ImportId(stamp: nat, index: nat): string {
    Dashed(NatToString(stamp), NatToString(index))
  }

  /** Two entries of one import never share an id, whatever the clock read for each of them. */
  lemma ImportIdsDistinct(stamp1: nat, i: nat, stamp2: nat, j: nat)
    requires i != j
    ensures ImportId(stamp1, i) != ImportId(stamp2, j)
  {
    DigitsValueOfNatToString(i);
    DigitsValueOfNatToString(j);
    DashedDistinct(NatToString(stamp1), NatToString(i), NatToString(stamp2), NatToString(j));
  }

  /** The fields of a book that the book form edits. */
  function DraftOf(b: Book): BookDraft {
    BookDraft(b.title, b.author, b.isbn, b.genre, b.description, b.quantity, b.coverImage)
  }

  /** The fields of a book that an import supplies. */
  function ImportOf(b: Book): ImportedBook {
    ImportedBook(b.title, b.author, b.isbn, b.genre, b.description, b.quantity)
  }

  /** The fields of a student that the student form edits. */
  function StudentDraftOf(s: Student): StudentDraft {
    StudentDraft(s.name, s.email, s.phone, s.joinDate, s.birthDate, s.gender, s.grade, s.className, s.ethnicity, s.address)
  }

  /** The fields of a student that an import supplies. */
  function ImportOfStudent(s: Student): ImportedStudent {
    ImportedStudent(s.name, s.birthDate, s.gender, s.grade, s.className, s.ethnicity, s.address)
  }

  /** `{ ...book, id, borrowedBy: [] }`. */
  function BookFromDraft(d: BookDraft, id: string): Book {
    Book(id, d.title, d.author, d.isbn, d.genre, d.description, d.quantity, d.coverImage, [])
  }

  /** Entry `index` of a book import, read at clock `stamp`. */
  function BookFromImport(d: ImportedBook, stamp: nat, index: nat): Book {
    var seed := if d.isbn != "" then d.isbn else NatToString(stamp + index);
    Book(ImportId(stamp, index), d.title, d.author, d.isbn, d.genre, d.description, d.quantity, CoverUrl(seed), [])
  }

  /** `{ ...student, id }`. */
  function StudentFromDraft(d: StudentDraft, id: string): Student {
    Student(id, d.name, d.email, d.phone, d.joinDate, d.birthDate, d.gender, d.grade, d.className, d.ethnicity, d.address)
  }

  /** Entry `index` of a student import, read at clock `stamp`. */
  function StudentFromImport(d: ImportedStudent, stamp: nat, index: nat): Student {
    Student(ImportId(stamp, index), d.name, "", "", stamp, d.birthDate, d.gender, d.grade, d.className, d.ethnicity, d.address)
  }

  /** The books of an import, entry `k` read at clock `stamps[k]`. */
  function ImportedBooks(drafts: seq<ImportedBook>, stamps: seq<nat>): seq<Book>
    requires |stamps| == |drafts|
  {
    seq(|drafts|, k requires 0 <= k < |drafts| => BookFromImport(drafts[k], stamps[k], k))
  }

  /** The students of an import, entry `k` read at clock `stamps[k]`. */
  function ImportedStudents(drafts: seq<ImportedStudent>, stamps: seq<nat>): seq<Student>
    requires |stamps| == |drafts|
  {
    seq(|drafts|, k requires 0 <= k < |drafts| => StudentFromImport(drafts[k], stamps[k], k))
  }

  /** The book after `studentId` takes one copy: one fewer on the shelf, the student appended to the borrowers. */
  function BorrowedCopy(b: Book, studentId: string): Book {
    b.(quantity := b.quantity - 1, borrowedBy := b.borrowedBy + [studentId])
  }

  /** The book after `studentId` returns: one more on the shelf, and EVERY occurrence of the student dropped. */
  function ReturnedCopy(b: Book, studentId: string): Book {
    b.(quantity := b.quantity + 1, borrowedBy := RemoveAll(b.borrowedBy, studentId))
  }

  /** `records.filter(r => r.id !== id)`. */
  function Without(records: seq<BorrowingRecord>, id: string): seq<BorrowingRecord> {
    if records == [] then [] else (if records[0].id == id then [] else [records[0]]) + Without(records[1..], id)
  }

  /** A record survives `Without` exactly when it was there and has another id. */
  lemma {:induction false} WithoutMember(records: seq<BorrowingRecord>, id: string, rec: BorrowingRecord)
    ensures rec in Without(records, id) <==> rec in records && rec.id != id
  {
    if records != [] {
      assert records == [records[0]] + records[1..];
      WithoutMember(records[1..], id, rec);
    }
  }

  lemma WithoutMembers(records: seq<BorrowingRecord>, id: string)
    ensures forall rec :: rec in Without(records, id) <==> rec in records && rec.id != id
  {
    forall rec ensures rec in Without(records, id) <==> rec in records && rec.id != id {
      WithoutMember(records, id, rec);
    }
  }

  lemma {:induction false} WithoutAppend(a: seq<BorrowingRecord>, b: seq<BorrowingRecord>, id: string)
    ensures Without(a + b, id) == Without(a, id) + Without(b, id)
  {
    if a == [] {
      assert a + b == b;
    } else {
      assert (a + b)[0] == a[0];
      assert (a + b)[1..] == a[1..] + b;
      WithoutAppend(a[1..], b, id);
    }
  }

  lemma {:induction false} WithoutAbsent(records: seq<BorrowingRecord>, id: string)
    requires forall k :: 0 <= k < |records| ==> records[k].id != id
    ensures Without(records, id) == records
  {
    if records != [] {
      WithoutAbsent(records[1..], id);
    }
  }

  /** A book that is not `id`. */
  predicate OtherBook(id: string, b: Book) {
    b.id != id
  }

  /** A student that is not `id`. */
  predicate OtherStudent(id: string, s: Student) {
    s.id != id
  }

  /** The student ids of the records of book `bookId`, in record order. */
  function BorrowersOf(records: seq<BorrowingRecord>, bookId: string): seq<string> {
    if records == [] then []
    else (if records[0].bookId == bookId then [records[0].studentId] else []) + BorrowersOf(records[1..], bookId)
  }

  lemma {:induction false} BorrowersOfAppend(a: seq<BorrowingRecord>, b: seq<BorrowingRecord>, bookId: string)
    ensures BorrowersOf(a + b, bookId) == BorrowersOf(a, bookId) + BorrowersOf(b, bookId)
  {
    if a == [] {
      assert a + b == b;
    } else {
      assert (a + b)[0] == a[0];
      assert (a + b)[1..] == a[1..] + b;
      BorrowersOfAppend(a[1..], b, bookId);
    }
  }

  /** The three collections of App.tsx (`books`, `students`, `borrowingRecords`). */
  datatype LibraryState = LibraryState(books: seq<Book>, students: seq<Student>, records: seq<BorrowingRecord>) {

    /** `addBook` (App.tsx): append the draft with id `now` and no borrowers. */
    function AddBook(draft: BookDraft, now: nat): (r: LibraryState)
      ensures r.students == students && r.records == records
      ensures |r.books| == |books| + 1 && r.books[..|books|] == books
      ensures r.books[|books|].id == NatToString(now) && r.books[|books|].borrowedBy == []
      ensures DraftOf(r.books[|books|]) == draft
    {
      this.(books := books + [BookFromDraft(draft, NatToString(now))])
    }

    /**
     * `handleImportBooks`: append one book per entry, in input order; entry `k`
     * read the clock as `stamps[k]`.
     */
    function ImportBooks(drafts: seq<ImportedBook>, stamps: seq<nat>): (r: LibraryState)
      requires |stamps| == |drafts|
      ensures r.students == students && r.records == records
      ensures |r.books| == |books| + |drafts| && r.books[..|books|] == books
      ensures forall k :: 0 <= k < |drafts| ==>
        && r.books[|books| + k].id == ImportId(stamps[k], k)
        && r.books[|books| + k].borrowedBy == []
        && ImportOf(r.books[|books| + k]) == drafts[k]
        && r.books[|books| + k].coverImage == CoverUrl(if drafts[k].isbn != "" then drafts[k].isbn else NatToString(stamps[k] + k))
    {
      this.(books := books + ImportedBooks(drafts, stamps))
    }

    /** `updateBook`: every book with the same id is replaced; nothing else changes. */
    function UpdateBook(book: Book): (r: LibraryState)
      ensures r.students == students && r.records == records && |r.books| == |books|
      ensures forall i :: 0 <= i < |books| ==> r.books[i] == if books[i].id == book.id then book else books[i]
      ensures (forall i :: 0 <= i < |books| ==> books[i].id != book.id) ==> r == this
    {
      var r := this.(books := MapWhere(books, (b: Book) => b.id == book.id, (b: Book) => book));
      assert (forall i :: 0 <= i < |books| ==> books[i].id != book.id) ==> r.books == books;
      r
    }

    /** `checkCanDeleteBook`: no record refers to the book. */
    function CanDeleteBook(bookId: string): (ok: bool)
      ensures ok <==> forall i :: 0 <= i < |records| ==> records[i].bookId != bookId
    {
      !Any(records, (rec: BorrowingRecord) => rec.bookId == bookId)
    }

    /** `deleteBook`: drop every book with that id, keeping the others in order; the records are not touched. */
    function DeleteBook(bookId: string): (r: LibraryState)
      ensures r.students == students && r.records == records
      ensures forall b :: b in r.books <==> b in books && b.id != bookId
      ensures IsSubseq(r.books, books)
      ensures forall b :: multiset(r.books)[b] == if b.id != bookId then multiset(books)[b] else 0
      ensures (forall i :: 0 <= i < |books| ==> books[i].id != bookId) ==> r == this
    {
      FilterLength(books, (b: Book) => OtherBook(bookId, b));
      FilterMultiset(books, (b: Book) => OtherBook(bookId, b));
      this.(books := Filter(books, (b: Book) => OtherBook(bookId, b)))
    }

    /** `addStudent`: append the draft with id `now`. */
    function AddStudent(draft: StudentDraft, now: nat): (r: LibraryState)
      ensures r.books == books && r.records == records
      ensures |r.students| == |students| + 1 && r.students[..|students|] == students
      ensures r.students[|students|].id == NatToString(now)
      ensures StudentDraftOf(r.students[|students|]) == draft
    {
      this.(students := students + [StudentFromDraft(draft, NatToString(now))])
    }

    /** `updateStudent`: every student with the same id is replaced; nothing else changes. */
    function UpdateStudent(student: Student): (r: LibraryState)
      ensures r.books == books && r.records == records && |r.students| == |students|
      ensures forall i :: 0 <= i < |students| ==> r.students[i] == if students[i].id == student.id then student else students[i]
      ensures (forall i :: 0 <= i < |students| ==> students[i].id != student.id) ==> r == this
    {
      var r := this.(students := MapWhere(students, (s: Student) => s.id == student.id, (s: Student) => student));
      assert (forall i :: 0 <= i < |students| ==> students[i].id != student.id) ==> r.students == students;
      r
    }

    /** `checkCanDeleteStudent`: no record refers to the student. */
    function CanDeleteStudent(studentId: string): (ok: bool)
      ensures ok <==> forall i :: 0 <= i < |records| ==> records[i].studentId != studentId
    {
      !Any(records, (rec: BorrowingRecord) => rec.studentId == studentId)
    }

    /** `deleteStudent`: drop every student with that id, keeping the others in order; the records are not touched. */
    function DeleteStudent(studentId: string): (r: LibraryState)
      ensures r.books == books && r.records == records
      ensures forall s :: s in r.students <==> s in students && s.id != studentId
      ensures IsSubseq(r.students, students)
      ensures forall s :: multiset(r.students)[s] == if s.id != studentId then multiset(students)[s] else 0
      ensures (forall i :: 0 <= i < |students| ==> students[i].id != studentId) ==> r == this
    {
      FilterLength(students, (s: Student) => OtherStudent(studentId, s));
      FilterMultiset(students, (s: Student) => OtherStudent(studentId, s));
      this.(students := Filter(students, (s: Student) => OtherStudent(studentId, s)))
    }

    /**
     * `handleImportStudents`: append one student per entry, in input order,
     * with empty email and phone and the clock reading as join date.
     */
    function ImportStudents(drafts: seq<ImportedStudent>, stamps: seq<nat>): (r: LibraryState)
      requires |stamps| == |drafts|
      ensures r.books == books && r.records == records
      ensures |r.students| == |students| + |drafts| && r.students[..|students|] == students
      ensures forall k :: 0 <= k < |drafts| ==>
        && r.students[|students| + k].id == ImportId(stamps[k], k)
        && r.students[|students| + k].email == ""
        && r.students[|students| + k].phone == ""
        && r.students[|students| + k].joinDate == stamps[k]
        && ImportOfStudent(r.students[|students| + k]) == drafts[k]
    {
      this.(students := students + ImportedStudents(drafts, stamps))
    }

    /**
     * `borrowBook`: append a record with id `now`, due `days` days after `now`,
     * and move one copy of every book with that id from the shelf to the
     * student. There is no check that a copy is on the shelf.
     */
    function BorrowBook(bookId: string, studentId: string, days: int, now: nat): (r: LibraryState)
      ensures r.students == students
      ensures |r.records| == |records| + 1 && r.records[..|records|] == records
      ensures r.records[|records|] == BorrowingRecord(NatToString(now), bookId, studentId, now, now + days * MsPerDay)
      ensures |r.books| == |books|
      ensures forall i :: 0 <= i < |books| && books[i].id == bookId ==>
        r.books[i] == books[i].(quantity := books[i].quantity - 1, borrowedBy := books[i].borrowedBy + [studentId])
      ensures forall i :: 0 <= i < |books| && books[i].id != bookId ==> r.books[i] == books[i]
      ensures forall i :: 0 <= i < |books| ==> r.books[i].id == books[i].id && Copies(r.books[i]) == Copies(books[i])
    {
      var rec := BorrowingRecord(NatToString(now), bookId, studentId, now, now + days * MsPerDay);
      LibraryState(
        MapWhere(books, (b: Book) => b.id == bookId, (b: Book) => BorrowedCopy(b, studentId)),
        students,
        records + [rec])
    }

    /**
     * `returnBook`: an unknown record id changes nothing. Otherwise every record
     * with that id is removed, and every book of the first such record gets a
     * copy back and loses ALL occurrences of the record's student.
     */
    function ReturnBook(recordId: string): (r: LibraryState)
      ensures FindRecord(records, recordId).None? ==> r == this
      ensures r.students == students && |r.books| == |books|
      ensures forall i :: 0 <= i < |books| ==> r.books[i].id == books[i].id
      ensures forall x :: x in r.records <==> x in records && x.id != recordId
      ensures FindRecord(records, recordId).Some? ==>
        var rec := FindRecord(records, recordId).value;
        && r.records == Without(records, recordId)
        && (forall i :: 0 <= i < |books| && books[i].id == rec.bookId ==>
              r.books[i] == books[i].(quantity := books[i].quantity + 1, borrowedBy := RemoveAll(books[i].borrowedBy, rec.studentId)))
        && (forall i :: 0 <= i < |books| && books[i].id != rec.bookId ==> r.books[i] == books[i])
    {
      match FindRecord(records, recordId)
      case None => this
      case Some(rec) =>
        WithoutMembers(records, recordId);
        LibraryState(
          MapWhere(books, (b: Book) => b.id == rec.bookId, (b: Book) => ReturnedCopy(b, rec.studentId)),
          students,
          Without(records, recordId))
    }

    /** Every book's borrowers are, as a multiset, the students of the records for that book. */
    predicate Consistent() {
      forall i :: 0 <= i < |books| ==> multiset(books[i].borrowedBy) == multiset(BorrowersOf(records, books[i].id))
    }

    /** Every record refers to an existing book and an existing student. */
    predicate RefIntegrity() {
      forall k :: 0 <= k < |records| ==>
        (exists i :: 0 <= i < |books| && books[i].id == records[k].bookId) &&
        (exists j :: 0 <= j < |students| && students[j].id == records[k].studentId)
    }

    /** No two records share an id. */
    predicate UniqueRecordIds() {
      forall k, l :: 0 <= k < l < |records| ==> records[k].id != records[l].id
    }
  }

  /** The ids an import hands out are pairwise distinct. */
  lemma ImportedBookIdsDistinct(st: LibraryState, drafts: seq<ImportedBook>, stamps: seq<nat>)
    requires |stamps| == |drafts|
    ensures var r := st.ImportBooks(drafts, stamps);
      forall k1, k2 :: |st.books| <= k1 < k2 < |r.books| ==> r.books[k1].id != r.books[k2].id
  {
    var added := ImportedBooks(drafts, stamps);
    forall k1, k2 | 0 <= k1 < k2 < |added|
      ensures added[k1].id != added[k2].id
    {
      ImportIdsDistinct(stamps[k1], k1, stamps[k2], k2);
    }
    var n := |st.books|;
    var r := st.books + added;
    assert forall k :: n <= k < |r| ==> r[k] == added[k - n];
    assert st.ImportBooks(drafts, stamps).books == r;
  }



  /** The ids a student import hands out are pairwise distinct. */
  lemma ImportedStudentIdsDistinct(st: LibraryState, drafts: seq<ImportedStudent>, stamps: seq<nat>)
    requires |stamps| == |drafts|
    ensures var r := st.ImportStudents(drafts, stamps);
      forall k1, k2 :: |st.students| <= k1 < k2 < |r.students| ==> r.students[k1].id != r.students[k2].id
  {
    var added := ImportedStudents(drafts, stamps);
    forall k1, k2 | 0 <= k1 < k2 < |added|
      ensures added[k1].id != added[k2].id
    {
      ImportIdsDistinct(stamps[k1], k1, stamps[k2], k2);
    }
    var n := |st.students|;
    var r := st.students + added;
    assert forall k :: n <= k < |r| ==> r[k] == added[k - n];
    assert st.ImportStudents(drafts, stamps).students == r;
  }



  /** Removing a student from `s + [x]`, when `x` is not already in `s`, gives back `s`. */
  lemma RemoveAllAppended(s: seq<string>, x: string)
    requires x !in s
    ensures RemoveAll(s + [x], x) == s
  {
    RemoveAllAppend(s, [x], x);
    RemoveAllAbsent(s, x);
  }

  /**
   * A borrow followed by the return of the record it created restores the
   * state exactly, provided the clock reading is not already a record id and
   * the student did not already hold a copy of that book.
   */
  lemma BorrowThenReturn(st: LibraryState, bookId: string, studentId: string, days: int, now: nat)
    requires FindRecord(st.records, NatToString(now)).None?
    requires forall i :: 0 <= i < |st.books| && st.books[i].id == bookId ==> studentId !in st.books[i].borrowedBy
    ensures st.BorrowBook(bookId, studentId, days, now).ReturnBook(NatToString(now)) == st
  {
    var id := NatToString(now);
    var b := st.BorrowBook(bookId, studentId, days, now);
    var rec := b.records[|st.records|];
    assert b.records == st.records + [rec];
    assert FindRecord(b.records, id) == Some(rec);
    WithoutAppend(st.records, [rec], id);
    WithoutAbsent(st.records, id);
    var r := b.ReturnBook(id);
    forall i | 0 <= i < |st.books|
      ensures r.books[i] == st.books[i]
    {
      if st.books[i].id == bookId {
        RemoveAllAppended(st.books[i].borrowedBy, studentId);
      }
    }
  }

  /** A return keeps a book's copy count exactly when the student appeared once among its borrowers. */
  lemma ReturnCopies(st: LibraryState, recordId: string, i: nat)
    requires FindRecord(st.records, recordId).Some? && i < |st.books|
    requires st.books[i].id == FindRecord(st.records, recordId).value.bookId
    ensures var r := st.ReturnBook(recordId);
      Copies(r.books[i]) == Copies(st.books[i]) <==> multiset(st.books[i].borrowedBy)[FindRecord(st.records, recordId).value.studentId] == 1
  {
    var rec := FindRecord(st.records, recordId).value;
    var r := st.ReturnBook(recordId);
    assert r.books[i] == ReturnedCopy(st.books[i], rec.studentId);
    RemoveAllLength(st.books[i].borrowedBy, rec.studentId);
  }

  /** A return leaves the copy counts of books other than the returned one, and the ids of all books, alone. */
  lemma ReturnKeepsOtherCopies(st: LibraryState, recordId: string)
    ensures var r := st.ReturnBook(recordId);
      forall i :: 0 <= i < |st.books| ==>
        && r.books[i].id == st.books[i].id
        && (FindRecord(st.records, recordId).None? || st.books[i].id != FindRecord(st.records, recordId).value.bookId ==> Copies(r.books[i]) == Copies(st.books[i]))
  {
  }

  /** A borrow keeps every book's borrowers in step with the records. */
  lemma BorrowKeepsConsistent(st: LibraryState, bookId: string, studentId: string, days: int, now: nat)
    requires st.Consistent()
    ensures st.BorrowBook(bookId, studentId, days, now).Consistent()
  {
    var r := st.BorrowBook(bookId, studentId, days, now);
    var rec := r.records[|st.records|];
    assert r.records == st.records + [rec];
    forall i | 0 <= i < |r.books|
      ensures multiset(r.books[i].borrowedBy) == multiset(BorrowersOf(r.records, r.books[i].id))
    {
      BorrowersOfAppend(st.records, [rec], r.books[i].id);
      assert BorrowersOf([rec], r.books[i].id) == (if bookId == r.books[i].id then [studentId] else []) by {
        assert [rec][1..] == [];
      }
    }
  }

  /**
   * Removing the one record with a given id takes exactly its student out of
   * the borrowers of its book, and nothing out of those of any other book.
   */
  lemma {:induction false} WithoutUniqueRecord(records: seq<BorrowingRecord>, k: nat, bookId: string)
    requires k < |records|
    requires forall l :: 0 <= l < |records| && l != k ==> records[l].id != records[k].id
    ensures multiset(BorrowersOf(Without(records, records[k].id), bookId)) + LoanOf(records[k], bookId)
      == multiset(BorrowersOf(records, bookId))
  {
    var id, rest := records[k].id, records[1..];
    BorrowersStep(records, bookId);
    if k == 0 {
      forall l | 0 <= l < |rest| ensures rest[l].id != id {
        assert rest[l] == records[l + 1];
      }
      WithoutAbsent(rest, id);
      assert Without(records, id) == rest;
    } else {
      forall l | 0 <= l < |rest| && l != k - 1 ensures rest[l].id != rest[k - 1].id {
        assert rest[l] == records[l + 1];
      }
      assert rest[k - 1] == records[k];
      WithoutUniqueRecord(rest, k - 1, bookId);
      WithoutStep(records, id, bookId);
      var l0, lk := LoanOf(records[0], bookId), LoanOf(records[k], bookId);
      var wr, br := multiset(BorrowersOf(Without(rest, id), bookId)), multiset(BorrowersOf(rest, bookId));
      assert wr + lk == br;
      assert (l0 + wr) + lk == l0 + (wr + lk);
    }
  }

  /** The student of `rec`, as a multiset, when `rec` is a loan of book `bookId`. */
  function LoanOf(rec: BorrowingRecord, bookId: string): multiset<string> {
    if rec.bookId == bookId then multiset{rec.studentId} else multiset{}
  }

  /** The first record contributes its loan to the borrowers. */
  lemma BorrowersStep(records: seq<BorrowingRecord>, bookId: string)
    requires records != []
    ensures multiset(BorrowersOf(records, bookId)) == LoanOf(records[0], bookId) + multiset(BorrowersOf(records[1..], bookId))
  {
  }

  /** A first record that `Without` keeps contributes its loan to the result's borrowers. */
  lemma WithoutStep(records: seq<BorrowingRecord>, id: string, bookId: string)
    requires records != [] && records[0].id != id
    ensures multiset(BorrowersOf(Without(records, id), bookId)) ==
      LoanOf(records[0], bookId) + multiset(BorrowersOf(Without(records[1..], id), bookId))
  {
    var w := [records[0]] + Without(records[1..], id);
    assert w[0] == records[0] && w[1..] == Without(records[1..], id);
    BorrowersStep(w, bookId);
  }

  /** Clearing an element that occurs once takes away exactly that one occurrence. */
  lemma DropSingle<T>(m: multiset<T>, w: multiset<T>, x: T)
    requires m == w + multiset{x} && m[x] == 1
    ensures m[x := 0] == w
  {
    assert forall y :: m[x := 0][y] == w[y];
  }

  /** One book's borrowers after the return of record `k`, the only record with its id. */
  lemma ReturnKeepsBookConsistent(st: LibraryState, k: nat, i: nat)
    requires k < |st.records| && i < |st.books|
    requires forall l :: 0 <= l < |st.records| && l != k ==> st.records[l].id != st.records[k].id
    requires multiset(st.books[i].borrowedBy) == multiset(BorrowersOf(st.records, st.books[i].id))
    requires FindRecord(st.records, st.records[k].id) == Some(st.records[k])
    requires st.books[i].id == st.records[k].bookId ==> multiset(st.books[i].borrowedBy)[st.records[k].studentId] == 1
    ensures var r := st.ReturnBook(st.records[k].id);
      multiset(r.books[i].borrowedBy) == multiset(BorrowersOf(r.records, r.books[i].id))
  {
    var rec := st.records[k];
    var r := st.ReturnBook(rec.id);
    var id := st.books[i].id;
    assert r.records == Without(st.records, rec.id);
    WithoutUniqueRecord(st.records, k, id);
    if id == rec.bookId {
      var bb := st.books[i].borrowedBy;
      assert r.books[i].borrowedBy == RemoveAll(bb, rec.studentId);
      RemoveAllMultiset(bb, rec.studentId);
      DropSingle(multiset(bb), multiset(BorrowersOf(r.records, id)), rec.studentId);
    } else {
      assert r.books[i] == st.books[i];
    }
  }

  /**
   * A return keeps every book's borrowers in step with the records when record
   * ids are unique and the student held exactly one copy of the book.
   */
  lemma ReturnKeepsConsistent(st: LibraryState, recordId: string)
    requires st.Consistent() && st.UniqueRecordIds()
    requires FindRecord(st.records, recordId).Some?
    requires var rec := FindRecord(st.records, recordId).value;
      forall i :: 0 <= i < |st.books| && st.books[i].id == rec.bookId ==> multiset(st.books[i].borrowedBy)[rec.studentId] == 1
    ensures st.ReturnBook(recordId).Consistent()
  {
    var rec := FindRecord(st.records, recordId).value;
    var k :| 0 <= k < |st.records| && st.records[k] == rec;
    assert forall l :: 0 <= l < |st.records| && l != k ==> st.records[l].id != st.records[k].id;
    forall i | 0 <= i < |st.books|
      ensures multiset(st.ReturnBook(recordId).books[i].borrowedBy) == multiset(BorrowersOf(st.ReturnBook(recordId).records, st.ReturnBook(recordId).books[i].id))
    {
      ReturnKeepsBookConsistent(st, k, i);
    }
  }

  /** The one-book library of the double-borrow scenario, with `q` copies on the shelf. */
  function OneBook(q: int, borrowers: seq<string>, records: seq<BorrowingRecord>): LibraryState {
    LibraryState([Book("b", "", "", "", "", "", q, "", borrowers)], [], records)
  }

  /** Record `id` of student "s" for book "b", taken at clock `t` for 14 days. */
  function LoanOfS(id: string, t: nat): BorrowingRecord {
    BorrowingRecord(id, "b", "s", t, t + 14 * MsPerDay)
  }

  lemma DoubleBorrowSteps()
    ensures OneBook(2, [], []).BorrowBook("b", "s", 14, 1) == OneBook(1, ["s"], [LoanOfS("1", 1)])
    ensures OneBook(1, ["s"], [LoanOfS("1", 1)]).BorrowBook("b", "s", 14, 2) == OneBook(0, ["s", "s"], [LoanOfS("1", 1), LoanOfS("2", 2)])
  {
    assert NatToString(1) == "1" && NatToString(2) == "2";
    assert [] + ["s"] == ["s"] && ["s"] + ["s"] == ["s", "s"];
    assert [LoanOfS("1", 1)] + [LoanOfS("2", 2)] == [LoanOfS("1", 1), LoanOfS("2", 2)];
  }

  lemma ReturnFirstOfTwo()
    ensures OneBook(0, ["s", "s"], [LoanOfS("1", 1), LoanOfS("2", 2)]).ReturnBook("1") == OneBook(1, [], [LoanOfS("2", 2)])
  {
    var recs := [LoanOfS("1", 1), LoanOfS("2", 2)];
    assert FindRecord(recs, "1") == Some(recs[0]);
    assert recs[1..] == [LoanOfS("2", 2)];
    assert Without([LoanOfS("2", 2)], "1") == [LoanOfS("2", 2)];
    assert Without(recs, "1") == [LoanOfS("2", 2)];
    assert RemoveAll(["s", "s"], "s") == [];
  }

  /**
   * The removal of every occurrence breaks that agreement: a student who
   * borrowed two copies of a book and returns one holds the other on record
   * but no longer among the borrowers, and a copy is lost from the count.
   */
  lemma DoubleBorrowThenReturn()
    ensures var st := OneBook(2, [], []);
      var twice := st.BorrowBook("b", "s", 14, 1).BorrowBook("b", "s", 14, 2);
      var r := twice.ReturnBook("1");
      && twice.Consistent()
      && !r.Consistent()
      && Copies(r.books[0]) == 1 && Copies(st.books[0]) == 2
  {
    DoubleBorrowSteps();
    ReturnFirstOfTwo();
    var twice := OneBook(0, ["s", "s"], [LoanOfS("1", 1), LoanOfS("2", 2)]);
    assert BorrowersOf([LoanOfS("2", 2)], "b") == ["s"];
    assert BorrowersOf(twice.records, "b") == ["s", "s"];
  }

  /** Without a shelf check, borrowing a book with no copy left drives its quantity below zero. */
  lemma BorrowWithoutStock()
    ensures LibraryState([Book("b", "", "", "", "", "", 0, "", [])], [], []).BorrowBook("b", "s", 7, 0).books[0].quantity == -1
  {
  }

  /** As long as only books with a copy on the shelf are borrowed, no quantity becomes negative. */
  lemma BorrowKeepsStock(st: LibraryState, bookId: string, studentId: string, days: int, now: nat)
    requires forall i :: 0 <= i < |st.books| ==> st.books[i].quantity >= 0
    requires forall i :: 0 <= i < |st.books| && st.books[i].id == bookId ==> st.books[i].quantity > 0
    ensures var r := st.BorrowBook(bookId, studentId, days, now);
      forall i :: 0 <= i < |r.books| ==> r.books[i].quantity >= 0
  {
  }

  /** Keeping exactly the books with another id keeps references intact exactly when no record uses that id. */
  lemma KeptBooksIntegrity(st: LibraryState, bookId: string, kept: seq<Book>)
    requires st.RefIntegrity()
    requires forall b :: b in kept <==> b in st.books && b.id != bookId
    ensures st.(books := kept).RefIntegrity() <==> st.CanDeleteBook(bookId)
  {
    var r := st.(books := kept);
    if st.CanDeleteBook(bookId) {
      forall k | 0 <= k < |r.records|
        ensures exists i :: 0 <= i < |r.books| && r.books[i].id == r.records[k].bookId
      {
        var i :| 0 <= i < |st.books| && st.books[i].id == st.records[k].bookId;
        assert st.books[i] in r.books;
        var w :| 0 <= w < |r.books| && r.books[w] == st.books[i];
      }
    } else {
      var k :| 0 <= k < |st.records| && st.records[k].bookId == bookId;
      forall i | 0 <= i < |r.books| ensures r.books[i].id != r.records[k].bookId {
        assert r.books[i] in r.books;
      }
    }
  }

  /** Deleting a book keeps references intact exactly when the delete check allows it. */
  lemma DeleteBookIntegrity(st: LibraryState, bookId: string)
    requires st.RefIntegrity()
    ensures st.DeleteBook(bookId).RefIntegrity() <==> st.CanDeleteBook(bookId)
  {
    KeptBooksIntegrity(st, bookId, st.DeleteBook(bookId).books);
  }

  /** Keeping exactly the students with another id keeps references intact exactly when no record uses that id. */
  lemma KeptStudentsIntegrity(st: LibraryState, studentId: string, kept: seq<Student>)
    requires st.RefIntegrity()
    requires forall s :: s in kept <==> s in st.students && s.id != studentId
    ensures st.(students := kept).RefIntegrity() <==> st.CanDeleteStudent(studentId)
  {
    var r := st.(students := kept);
    if st.CanDeleteStudent(studentId) {
      forall k | 0 <= k < |r.records|
        ensures exists j :: 0 <= j < |r.students| && r.students[j].id == r.records[k].studentId
      {
        var j :| 0 <= j < |st.students| && st.students[j].id == st.records[k].studentId;
        assert st.students[j] in r.students;
        var w :| 0 <= w < |r.students| && r.students[w] == st.students[j];
      }
    } else {
      var k :| 0 <= k < |st.records| && st.records[k].studentId == studentId;
      forall j | 0 <= j < |r.students| ensures r.students[j].id != r.records[k].studentId {
        assert r.students[j] in r.students;
      }
    }
  }

  /** Deleting a student keeps references intact exactly when the delete check allows it. */
  lemma DeleteStudentIntegrity(st: LibraryState, studentId: string)
    requires st.RefIntegrity()
    ensures st.DeleteStudent(studentId).RefIntegrity() <==> st.CanDeleteStudent(studentId)
  {
    KeptStudentsIntegrity(st, studentId, st.DeleteStudent(studentId).students);
  }

  /** Deleting a book or a student never breaks the borrower bookkeeping of the books that remain. */
  lemma DeleteKeepsConsistent(st: LibraryState, bookId: string, studentId: string)
    requires st.Consistent()
    ensures st.DeleteBook(bookId).Consistent() && st.DeleteStudent(studentId).Consistent()
  {
    var r := st.DeleteBook(bookId);
    forall i | 0 <= i < |r.books|
      ensures multiset(r.books[i].borrowedBy) == multiset(BorrowersOf(r.records, r.books[i].id))
    {
      assert r.books[i] in st.books;
    }
  }

  /** A borrow keeps references intact exactly when the book and the student exist. */
  lemma BorrowIntegrity(st: LibraryState, bookId: string, studentId: string, days: int, now: nat)
    requires st.RefIntegrity()
    ensures st.BorrowBook(bookId, studentId, days, now).RefIntegrity() <==>
      (exists i :: 0 <= i < |st.books| && st.books[i].id == bookId) &&
      (exists j :: 0 <= j < |st.students| && st.students[j].id == studentId)
  {
    var r := st.BorrowBook(bookId, studentId, days, now);
    assert r.records[|st.records|].bookId == bookId && r.records[|st.records|].studentId == studentId;
    assert forall k :: 0 <= k < |st.records| ==> r.records[k] == st.records[k];
  }

  /** Record `k` after a return was a record before it, and its book and student are still there. */
  lemma ReturnKeepsRecordRefs(st: LibraryState, recordId: string, k: nat)
    requires st.RefIntegrity()
    requires k < |st.ReturnBook(recordId).records|
    ensures var r := st.ReturnBook(recordId);
      (exists i :: 0 <= i < |r.books| && r.books[i].id == r.records[k].bookId) &&
      (exists j :: 0 <= j < |r.students| && r.students[j].id == r.records[k].studentId)
  {
    var r := st.ReturnBook(recordId);
    var rec := r.records[k];
    assert rec in r.records;
    var l :| 0 <= l < |st.records| && st.records[l] == rec;
    var i :| 0 <= i < |st.books| && st.books[i].id == st.records[l].bookId;
    var j :| 0 <= j < |st.students| && st.students[j].id == st.records[l].studentId;
    assert r.books[i].id == rec.bookId && r.students[j].id == rec.studentId;
  }

  /** A return keeps references intact. */
  lemma ReturnIntegrity(st: LibraryState, recordId: string)
    requires st.RefIntegrity()
    ensures st.ReturnBook(recordId).RefIntegrity()
  {
    var r := st.ReturnBook(recordId);
    forall k | 0 <= k < |r.records|
      ensures (exists i :: 0 <= i < |r.books| && r.books[i].id == r.records[k].bookId) &&
              (exists j :: 0 <= j < |r.students| && r.students[j].id == r.records[k].studentId)
    {
      ReturnKeepsRecordRefs(st, recordId, k);
    }
  }

  /** An update that keeps the replaced books' borrowers keeps the borrower bookkeeping and the references. */
  lemma UpdateBookKeepsInvariants(st: LibraryState, book: Book)
    requires forall i :: 0 <= i < |st.books| && st.books[i].id == book.id ==> st.books[i].borrowedBy == book.borrowedBy
    ensures st.Consistent() ==> st.UpdateBook(book).Consistent()
    ensures st.RefIntegrity() ==> st.UpdateBook(book).RefIntegrity()
  {
    var r := st.UpdateBook(book);
    assert forall i :: 0 <= i < |st.books| ==> r.books[i].id == st.books[i].id;
  }

  /** A new book whose id no record uses keeps the borrower bookkeeping and the references. */
  lemma AddBookKeepsInvariants(st: LibraryState, draft: BookDraft, now: nat)
    requires st.CanDeleteBook(NatToString(now))
    ensures st.Consistent() ==> st.AddBook(draft, now).Consistent()
    ensures st.RefIntegrity() ==> st.AddBook(draft, now).RefIntegrity()
  {
    var r := st.AddBook(draft, now);
    assert BorrowersOf(st.records, NatToString(now)) == [] by {
      NoBorrowers(st.records, NatToString(now));
    }
    assert forall i :: 0 <= i < |st.books| ==> r.books[i] == st.books[i];
  }

  /** An import whose ids no record uses keeps the borrower bookkeeping and the references. */
  lemma ImportBooksKeepsInvariants(st: LibraryState, drafts: seq<ImportedBook>, stamps: seq<nat>)
    requires |stamps| == |drafts|
    requires forall k :: 0 <= k < |drafts| ==> st.CanDeleteBook(ImportId(stamps[k], k))
    ensures st.Consistent() ==> st.ImportBooks(drafts, stamps).Consistent()
    ensures st.RefIntegrity() ==> st.ImportBooks(drafts, stamps).RefIntegrity()
  {
    var r := st.ImportBooks(drafts, stamps);
    var n := |st.books|;
    forall i | n <= i < |r.books|
      ensures multiset(r.books[i].borrowedBy) == multiset(BorrowersOf(r.records, r.books[i].id))
    {
      NoBorrowers(st.records, ImportId(stamps[i - n], i - n));
    }
    assert forall i :: 0 <= i < n ==> r.books[i] == st.books[i];
  }

  /** A student list that keeps every old student's id at its position keeps the references intact. */
  lemma StudentIdsKeptIntegrity(st: LibraryState, kept: seq<Student>)
    requires st.RefIntegrity()
    requires |st.students| <= |kept|
    requires forall j :: 0 <= j < |st.students| ==> kept[j].id == st.students[j].id
    ensures st.(students := kept).RefIntegrity()
  {
    var r := LibraryState(st.books, kept, st.records);
    assert r == st.(students := kept);
    forall k | 0 <= k < |r.records|
      ensures exists i :: 0 <= i < |r.books| && r.books[i].id == r.records[k].bookId
      ensures exists j :: 0 <= j < |r.students| && r.students[j].id == r.records[k].studentId
    {
      var i :| 0 <= i < |st.books| && st.books[i].id == st.records[k].bookId;
      assert r.books[i] == st.books[i];
      var j :| 0 <= j < |st.students| && st.students[j].id == st.records[k].studentId;
      assert r.students[j].id == st.students[j].id;
    }
  }

  /** Adding a student changes neither the books nor the records, and keeps every student a record refers to. */
  lemma AddStudentKeepsInvariants(st: LibraryState, draft: StudentDraft, now: nat)
    ensures st.Consistent() ==> st.AddStudent(draft, now).Consistent()
    ensures st.RefIntegrity() ==> st.AddStudent(draft, now).RefIntegrity()
  {
    var r := st.AddStudent(draft, now);
    assert r == st.(students := r.students);
    if st.RefIntegrity() {
      assert forall j :: 0 <= j < |st.students| ==> r.students[j] == st.students[j];
      StudentIdsKeptIntegrity(st, r.students);
    }
  }

  /** A student import changes neither the books nor the records, and keeps every student a record refers to. */
  lemma ImportStudentsKeepsInvariants(st: LibraryState, drafts: seq<ImportedStudent>, stamps: seq<nat>)
    requires |stamps| == |drafts|
    ensures st.Consistent() ==> st.ImportStudents(drafts, stamps).Consistent()
    ensures st.RefIntegrity() ==> st.ImportStudents(drafts, stamps).RefIntegrity()
  {
    var r := st.ImportStudents(drafts, stamps);
    assert r == st.(students := r.students);
    if st.RefIntegrity() {
      assert forall j :: 0 <= j < |st.students| ==> r.students[j] == st.students[j];
      StudentIdsKeptIntegrity(st, r.students);
    }
  }

  /** An update keeps every student id in place, so it keeps the borrower bookkeeping and the references. */
  lemma UpdateStudentKeepsInvariants(st: LibraryState, student: Student)
    ensures st.Consistent() ==> st.UpdateStudent(student).Consistent()
    ensures st.RefIntegrity() ==> st.UpdateStudent(student).RefIntegrity()
  {
    var r := st.UpdateStudent(student);
    assert r == st.(students := r.students);
    if st.RefIntegrity() {
      assert forall j :: 0 <= j < |st.students| ==> r.students[j].id == st.students[j].id;
      StudentIdsKeptIntegrity(st, r.students);
    }
  }

  /** A book no record refers to has no borrowers on record. */
  lemma {:induction false} NoBorrowers(records: seq<BorrowingRecord>, bookId: string)
    requires forall k :: 0 <= k < |records| ==> records[k].bookId != bookId
    ensures BorrowersOf(records, bookId) == []
  {
    if records != [] {
      assert forall k :: 0 <= k < |records| - 1 ==> records[1..][k] == records[k + 1];
      NoBorrowers(records[1..], bookId);
    }
  }

  /**
   * The component that owns the collections. Each handler replaces them with
   * the result of the corresponding operation on `LibraryState`.
   */
  class Library {
    var books: seq<Book>
    var students: seq<Student>
    var borrowingRecords: seq<BorrowingRecord>

    function State(): LibraryState
      reads this
    {
      LibraryState(books, students, borrowingRecords)
    }

    /** `useState(initialBooks)`, `useState(initialStudents)`, `useState(initialBorrowingRecords)`. */
    constructor (initial: LibraryState)
      ensures State() == initial
    {
      books, students, borrowingRecords := initial.books, initial.students, initial.records;
    }

    method AddBook(draft: BookDraft, now: nat)
      modifies this
      ensures State() == old(State()).AddBook(draft, now)
    {
      books := books + [BookFromDraft(draft, NatToString(now))];
    }

    method ImportBooks(drafts: seq<ImportedBook>, stamps: seq<nat>)
      requires |stamps| == |drafts|
      modifies this
      ensures State() == old(State()).ImportBooks(drafts, stamps)
    {
      books := books + ImportedBooks(drafts, stamps);
    }

    method UpdateBook(book: Book)
      modifies this
      ensures State() == old(State()).UpdateBook(book)
    {
      books := MapWhere(books, (b: Book) => b.id == book.id, (b: Book) => book);
    }

    method CheckCanDeleteBook(bookId: string) returns (ok: bool)
      ensures ok <==> forall i :: 0 <= i < |borrowingRecords| ==> borrowingRecords[i].bookId != bookId
      ensures ok == State().CanDeleteBook(bookId)
    {
      ok := !Any(borrowingRecords, (rec: BorrowingRecord) => rec.bookId == bookId);
    }

    method DeleteBook(bookId: string)
      modifies this
      ensures State() == old(State()).DeleteBook(bookId)
    {
      books := Filter(books, (b: Book) => OtherBook(bookId, b));
    }

    method AddStudent(draft: StudentDraft, now: nat)
      modifies this
      ensures State() == old(State()).AddStudent(draft, now)
    {
      students := students + [StudentFromDraft(draft, NatToString(now))];
    }

    method UpdateStudent(student: Student)
      modifies this
      ensures State() == old(State()).UpdateStudent(student)
    {
      students := MapWhere(students, (s: Student) => s.id == student.id, (s: Student) => student);
    }

    method CheckCanDeleteStudent(studentId: string) returns (ok: bool)
      ensures ok <==> forall i :: 0 <= i < |borrowingRecords| ==> borrowingRecords[i].studentId != studentId
      ensures ok == State().CanDeleteStudent(studentId)
    {
      ok := !Any(borrowingRecords, (rec: BorrowingRecord) => rec.studentId == studentId);
    }

    method DeleteStudent(studentId: string)
      modifies this
      ensures State() == old(State()).DeleteStudent(studentId)
    {
      students := Filter(students, (s: Student) => OtherStudent(studentId, s));
    }

    method ImportStudents(drafts: seq<ImportedStudent>, stamps: seq<nat>)
      requires |stamps| == |drafts|
      modifies this
      ensures State() == old(State()).ImportStudents(drafts, stamps)
    {
      students := students + ImportedStudents(drafts, stamps);
    }

    method BorrowBook(bookId: string, studentId: string, days: int, now: nat)
      modifies this
      ensures State() == old(State()).BorrowBook(bookId, studentId, days, now)
    {
      var rec := BorrowingRecord(NatToString(now), bookId, studentId, now, now + days * MsPerDay);
      borrowingRecords := borrowingRecords + [rec];
      books := MapWhere(books, (b: Book) => b.id == bookId, (b: Book) => BorrowedCopy(b, studentId));
    }

    method ReturnBook(recordId: string)
      modifies this
      ensures State() == old(State()).ReturnBook(recordId)
    {
      var found := FindRecord(borrowingRecords, recordId);
      if found.None? {
        return;
      }
      var rec := found.value;
      borrowingRecords := Without(borrowingRecords, recordId);
      books := MapWhere(books, (b: Book) => b.id == rec.bookId, (b: Book) => ReturnedCopy(b, rec.studentId));
    }
  }
}
