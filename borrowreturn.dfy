/**
 * The borrowing desk (BorrowReturn.tsx): picking a book with a copy on the
 * shelf and a student by searching, choosing a loan duration (a preset or a
 * custom number of days, kept within 1..730), the due date shown before
 * confirming, the checks `handleBorrow` makes before lending, and the list of
 * open loans with their return buttons.
 *
 * The clock is a parameter (`now`, in milliseconds); the alerts are returned
 * as values instead of being shown.
 */
module BorrowReturn {
  import opened Options
  import opened Types
  import opened Seqs
  import opened Text
  import opened Lookups
  import opened App

  /** The bounds of a loan, in days. */
  const MinDays: int := 1
  const MaxDays: int := 730

  /** The value of the duration picker that switches to the custom input. */
  const CustomOption: string := "custom"

  /** The duration picker's preset entries, custom excluded. */
  const PresetOptions: seq<string> := ["7", "14", "21", "30"]

  const DurationMessage: string := "Thời gian mượn phải từ 1 đến 730 ngày."
  const SelectionMessage: string := "Vui lòng chọn sách và học sinh."

  /** The duration the picker stands for: the custom input when `custom` is picked, the preset otherwise, parsed as by `parseInt(..., 10)`. */
  function ChosenDays(option: string, custom: string): Option<int> {
    if option == CustomOption then ParseInt(custom) else ParseInt(option)
  }

  /** A duration that parsed and lies within the allowed bounds. */
  predicate ValidDays(d: Option<int>) {
    d.Some? && MinDays <= d.value <= MaxDays
  }

  /** `calculatedDueDate`: the due date a loan made now would get, or nothing while the duration is not valid. */
  function DueDatePreview(option: string, custom: string, now: nat): (due: Option<int>)
    ensures due.Some? <==> ValidDays(ChosenDays(option, custom))
    ensures due.Some? ==> due.value == now + ChosenDays(option, custom).value * MsPerDay
    ensures due.Some? ==> now + MsPerDay <= due.value <= now + MaxDays * MsPerDay
  {
    var d := ChosenDays(option, custom);
    if ValidDays(d) then Some(now + d.value * MsPerDay) else None
  }

  /** What pressing the borrow button does: lend, or show one of the two alerts. */
  datatype BorrowOutcome = Lent(bookId: string, studentId: string, days: int) | Refused(message: string)

  /** `handleBorrow`'s checks: a book and a student must be selected, and the duration must be valid. */
  function BorrowDecision(selectedBook: string, selectedStudent: string, option: string, custom: string): (o: BorrowOutcome)
    ensures o.Lent? <==> selectedBook != "" && selectedStudent != "" && ValidDays(ChosenDays(option, custom))
    ensures o.Lent? ==> o == Lent(selectedBook, selectedStudent, ChosenDays(option, custom).value) && MinDays <= o.days <= MaxDays
    ensures (selectedBook == "" || selectedStudent == "") ==> o == Refused(SelectionMessage)
    ensures selectedBook != "" && selectedStudent != "" && !ValidDays(ChosenDays(option, custom)) ==> o == Refused(DurationMessage)
  {
    if selectedBook != "" && selectedStudent != "" then
      var d := ChosenDays(option, custom);
      if d.None? || d.value < MinDays || d.value > MaxDays then Refused(DurationMessage)
      else Lent(selectedBook, selectedStudent, d.value)
    else Refused(SelectionMessage)
  }

  /** The preview and the button agree: with both selected, a due date is shown exactly when a loan would be made, and it is that loan's due date. */
  lemma PreviewMatchesLoan(st: LibraryState, selectedBook: string, selectedStudent: string, option: string, custom: string, now: nat)
    requires selectedBook != "" && selectedStudent != ""
    ensures DueDatePreview(option, custom, now).Some? <==> BorrowDecision(selectedBook, selectedStudent, option, custom).Lent?
    ensures DueDatePreview(option, custom, now).Some? ==>
      var o := BorrowDecision(selectedBook, selectedStudent, option, custom);
      st.BorrowBook(o.bookId, o.studentId, o.days, now).records[|st.records|].dueDate == DueDatePreview(option, custom, now).value
  {
  }

  /** Every preset of the picker is a valid duration, whatever the custom input holds. */
  lemma PresetsValid(custom: string)
    ensures forall i :: 0 <= i < |PresetOptions| ==> ValidDays(ChosenDays(PresetOptions[i], custom))
  {
    ParsesAs(7, "7");
    ParsesAs(14, "14");
    ParsesAs(21, "21");
    ParsesAs(30, "30");
    assert ChosenDays("7", custom) == Some(7) && ChosenDays("14", custom) == Some(14);
    assert ChosenDays("21", custom) == Some(21) && ChosenDays("30", custom) == Some(30);
  }

  /** A literal that prints a number parses back to it. */
  lemma ParsesAs(n: nat, s: string)
    requires NatToString(n) == s
    ensures ParseInt(s) == Some(n)
  {
    ParseNatToString(n);
  }

  /** What the custom input may hold between edits: empty, or a number from 0 to 730. */
  predicate CustomInRange(custom: string) {
    custom == "" || (ParseInt(custom).Some? && 0 <= ParseInt(custom).value <= MaxDays)
  }

  /**
   * `handleCustomDurationChange`: an empty input is kept; an input that parses
   * to 0..730 is kept, with its leading zeros dropped when it has more than one
   * character and starts with `0`; any other input is ignored.
   */
  function AfterCustomChange(current: string, value: string): (next: string)
    ensures value == "" ==> next == ""
    ensures value != "" && !CustomInRange(value) ==> next == current
    ensures value != "" && CustomInRange(value) ==> ParseInt(next) == ParseInt(value)
    ensures value != "" && CustomInRange(value) && |value| > 1 && value[0] == '0' ==>
      next == NatToString(ParseInt(value).value)
    ensures value != "" && CustomInRange(value) && !(|value| > 1 && value[0] == '0') ==> next == value
  {
    if value == "" then ""
    else
      var n := ParseInt(value);
      if n.Some? && n.value <= MaxDays && n.value >= 0 then
        if |value| > 1 && value[0] == '0' then
          ParseNatToString(n.value);
          NatToString(n.value)
        else value
      else current
  }

  /** Typing keeps the custom input in range. */
  lemma CustomChangeKeepsRange(current: string, value: string)
    requires CustomInRange(current)
    ensures CustomInRange(AfterCustomChange(current, value))
  {
  }

  /** A typed number with leading zeros is shown without them. */
  lemma CustomChangeDropsZeros(current: string, value: string)
    requires |value| > 1 && value[0] == '0' && CustomInRange(value)
    ensures var next := AfterCustomChange(current, value); next[0] == '0' ==> next == "0"
  {
  }

  /** `handleCustomDurationBlur`: a value that is missing or below 1 becomes `1`, one above 730 becomes `730`, and one in range stays. */
  function AfterCustomBlur(current: string): (next: string)
    ensures ValidDays(ParseInt(next))
    ensures ValidDays(ParseInt(current)) ==> next == current
    ensures (ParseInt(current).None? || ParseInt(current).value < MinDays) ==> next == "1"
    ensures ParseInt(current).Some? && ParseInt(current).value > MaxDays ==> next == "730"
  {
    var d := ParseInt(current);
    ParsesAs(1, "1");
    ParsesAs(730, "730");
    if d.None? || d.value < MinDays then "1"
    else if d.value > MaxDays then "730"
    else current
  }

  /** After the custom input loses focus, a custom loan is always allowed. */
  lemma BlurMakesCustomValid(current: string)
    ensures ValidDays(ChosenDays(CustomOption, AfterCustomBlur(current)))
  {
  }

  /** A blur right after another blur changes nothing. */
  lemma BlurIdempotent(current: string)
    ensures AfterCustomBlur(AfterCustomBlur(current)) == AfterCustomBlur(current)
  {
  }

  /** `availableBooks`: the books with a copy on the shelf, in catalogue order. */
  function AvailableBooks(books: seq<Book>): (r: seq<Book>)
    ensures forall b :: b in r <==> b in books && b.quantity > 0
    ensures IsSubseq(r, books)
    ensures forall b :: multiset(r)[b] == if b.quantity > 0 then multiset(books)[b] else 0
  {
    FilterMultiset(books, (b: Book) => b.quantity > 0);
    Filter(books, (b: Book) => b.quantity > 0)
  }

  /** The book search: the term occurs, ignoring case, in the title or the author. */
  predicate BookOffered(b: Book, term: string) {
    Matches(b.title, term) || Matches(b.author, term)
  }

  /** `filteredAvailableBooks`: the books the dropdown offers, in catalogue order. */
  function FilteredAvailableBooks(books: seq<Book>, term: string): (r: seq<Book>)
    ensures forall b :: b in r <==> b in books && b.quantity > 0 && BookOffered(b, term)
    ensures IsSubseq(r, books)
    ensures forall b :: multiset(r)[b] == if b.quantity > 0 && BookOffered(b, term) then multiset(books)[b] else 0
  {
    var available := AvailableBooks(books);
    var r := Filter(available, (b: Book) => BookOffered(b, term));
    FilterMultiset(available, (b: Book) => BookOffered(b, term));
    IsSubseqTrans(r, available, books);
    r
  }

  /** With an empty search the dropdown offers every book with a copy on the shelf. */
  lemma EmptySearchOffersAvailable(books: seq<Book>)
    ensures FilteredAvailableBooks(books, "") == AvailableBooks(books)
  {
    forall b: Book ensures BookOffered(b, "") {
      MatchesEmpty(b.title);
    }
    FilterLength(AvailableBooks(books), (b: Book) => BookOffered(b, ""));
  }

  /** `filteredStudents`: the students whose name contains the term, ignoring case, in list order. */
  function FilteredStudents(students: seq<Student>, term: string): (r: seq<Student>)
    ensures forall s :: s in r <==> s in students && Matches(s.name, term)
    ensures IsSubseq(r, students)
    ensures forall s :: multiset(r)[s] == if Matches(s.name, term) then multiset(students)[s] else 0
  {
    FilterMultiset(students, (s: Student) => Matches(s.name, term));
    Filter(students, (s: Student) => Matches(s.name, term))
  }

  /**
   * A book the dropdown offers has a copy on the shelf, so when book ids are
   * unique, lending it keeps every quantity non-negative.
   */
  lemma OfferedBookKeepsStock(st: LibraryState, b: Book, term: string, studentId: string, days: int, now: nat)
    requires forall i :: 0 <= i < |st.books| ==> st.books[i].quantity >= 0
    requires forall i, j :: 0 <= i < j < |st.books| ==> st.books[i].id != st.books[j].id
    requires b in FilteredAvailableBooks(st.books, term)
    ensures var r := st.BorrowBook(b.id, studentId, days, now);
      forall i :: 0 <= i < |r.books| ==> r.books[i].quantity >= 0
  {
    var k :| 0 <= k < |st.books| && st.books[k] == b;
    assert forall i :: 0 <= i < |st.books| && st.books[i].id == b.id ==> i == k;
    BorrowKeepsStock(st, b.id, studentId, days, now);
  }

  /** One line of the return list: the record with its book's title and its student's name. */
  datatype LoanRow = LoanRow(record: BorrowingRecord, bookTitle: string, studentName: string)

  function RowOf(books: seq<Book>, students: seq<Student>, rec: BorrowingRecord): LoanRow {
    LoanRow(rec, TitleOf(books, rec.bookId), NameOf(students, rec.studentId))
  }

  predicate Shown(row: LoanRow) {
    row.bookTitle != "" && row.studentName != ""
  }

  /**
   * `borrowedBooksDetails`: the records, in order, with titles and names looked
   * up; a record whose book or student is missing (or unnamed) is not listed.
   */
  function LoanRows(books: seq<Book>, students: seq<Student>, records: seq<BorrowingRecord>): (rows: seq<LoanRow>)
    ensures forall row :: row in rows ==>
      && row.record in records
      && row.bookTitle == TitleOf(books, row.record.bookId) && row.bookTitle != ""
      && row.studentName == NameOf(students, row.record.studentId) && row.studentName != ""
    ensures forall k :: 0 <= k < |records| && TitleOf(books, records[k].bookId) != "" && NameOf(students, records[k].studentId) != "" ==>
      RowOf(books, students, records[k]) in rows
    ensures IsSubseq(rows, Map(records, (rec: BorrowingRecord) => RowOf(books, students, rec)))
  {
    var all := Map(records, (rec: BorrowingRecord) => RowOf(books, students, rec));
    var rows := Filter(all, Shown);
    assert forall row :: row in all ==> exists k :: 0 <= k < |records| && row == RowOf(books, students, records[k]);
    rows
  }

  /** When every record's book and student are there with a title and a name, every record is listed. */
  lemma AllLoansListed(books: seq<Book>, students: seq<Student>, records: seq<BorrowingRecord>)
    requires forall k :: 0 <= k < |records| ==> TitleOf(books, records[k].bookId) != "" && NameOf(students, records[k].studentId) != ""
    ensures |LoanRows(books, students, records)| == |records|
  {
    FilterLength(Map(records, (rec: BorrowingRecord) => RowOf(books, students, rec)), Shown);
  }

  /** The overdue mark of a row: a loan just made is not overdue until its duration has passed. */
  lemma FreshLoanNotOverdue(st: LibraryState, bookId: string, studentId: string, days: int, now: nat, later: int)
    requires MinDays <= days && later <= now + days * MsPerDay
    ensures !Overdue(st.BorrowBook(bookId, studentId, days, now).records[|st.records|], later)
  {
  }

  /** The borrowing desk's own state. */
  class BorrowPanel {
    var selectedBook: string
    var selectedStudent: string
    var bookSearchTerm: string
    var studentSearchTerm: string
    var isBookDropdownOpen: bool
    var isStudentDropdownOpen: bool
    var borrowDurationOption: string
    var customDuration: string

    /** The fields as the desk starts, and as a successful loan leaves them. */
    predicate Reset()
      reads this
    {
      && selectedBook == "" && selectedStudent == ""
      && bookSearchTerm == "" && studentSearchTerm == ""
      && borrowDurationOption == "14" && customDuration == "1"
    }

    constructor ()
      ensures Reset() && !isBookDropdownOpen && !isStudentDropdownOpen
    {
      selectedBook := "";
      selectedStudent := "";
      bookSearchTerm := "";
      studentSearchTerm := "";
      isBookDropdownOpen := false;
      isStudentDropdownOpen := false;
      borrowDurationOption := "14";
      customDuration := "1";
    }

    function Preview(now: nat): Option<int>
      reads this
    {
      DueDatePreview(borrowDurationOption, customDuration, now)
    }

    /** The borrow button is enabled exactly when a book and a student are selected. */
    predicate CanConfirm()
      reads this
    {
      selectedBook != "" && selectedStudent != ""
    }

    /**
     * `handleBorrow`: when the checks pass, lend the book in the library and
     * reset the desk; otherwise leave both as they are and report the alert.
     */
    method HandleBorrow(lib: Library, now: nat) returns (outcome: BorrowOutcome)
      modifies this, lib
      ensures outcome == BorrowDecision(old(selectedBook), old(selectedStudent), old(borrowDurationOption), old(customDuration))
      ensures outcome.Lent? ==> lib.State() == old(lib.State()).BorrowBook(outcome.bookId, outcome.studentId, outcome.days, now) && Reset()
      ensures outcome.Refused? ==> lib.State() == old(lib.State()) && unchanged(this)
      ensures isBookDropdownOpen == old(isBookDropdownOpen) && isStudentDropdownOpen == old(isStudentDropdownOpen)
    {
      outcome := BorrowDecision(selectedBook, selectedStudent, borrowDurationOption, customDuration);
      if outcome.Lent? {
        lib.BorrowBook(outcome.bookId, outcome.studentId, outcome.days, now);
        ClearSelection();
      }
    }

    /** The state resets that follow a successful loan. */
    method ClearSelection()
      modifies this
      ensures Reset()
      ensures isBookDropdownOpen == old(isBookDropdownOpen) && isStudentDropdownOpen == old(isStudentDropdownOpen)
    {
      selectedBook := "";
      selectedStudent := "";
      bookSearchTerm := "";
      studentSearchTerm := "";
      borrowDurationOption := "14";
      customDuration := "1";
    }

    /** The duration picker's `onChange`. */
    method SetDurationOption(option: string)
      modifies this
      ensures borrowDurationOption == option
      ensures selectedBook == old(selectedBook) && selectedStudent == old(selectedStudent) && customDuration == old(customDuration)
      ensures bookSearchTerm == old(bookSearchTerm) && studentSearchTerm == old(studentSearchTerm)
      ensures isBookDropdownOpen == old(isBookDropdownOpen) && isStudentDropdownOpen == old(isStudentDropdownOpen)
    {
      borrowDurationOption := option;
    }

    method HandleCustomDurationChange(value: string)
      modifies this
      ensures customDuration == AfterCustomChange(old(customDuration), value)
      ensures selectedBook == old(selectedBook) && selectedStudent == old(selectedStudent) && borrowDurationOption == old(borrowDurationOption)
      ensures bookSearchTerm == old(bookSearchTerm) && studentSearchTerm == old(studentSearchTerm)
      ensures isBookDropdownOpen == old(isBookDropdownOpen) && isStudentDropdownOpen == old(isStudentDropdownOpen)
    {
      customDuration := AfterCustomChange(customDuration, value);
    }

    method HandleCustomDurationBlur()
      modifies this
      ensures customDuration == AfterCustomBlur(old(customDuration))
      ensures selectedBook == old(selectedBook) && selectedStudent == old(selectedStudent) && borrowDurationOption == old(borrowDurationOption)
      ensures bookSearchTerm == old(bookSearchTerm) && studentSearchTerm == old(studentSearchTerm)
      ensures isBookDropdownOpen == old(isBookDropdownOpen) && isStudentDropdownOpen == old(isStudentDropdownOpen)
    {
      customDuration := AfterCustomBlur(customDuration);
    }

    /** `handleSelectBook`: select the book, show its title in the search box, close the dropdown. */
    method HandleSelectBook(book: Book)
      modifies this
      ensures selectedBook == book.id && bookSearchTerm == book.title && !isBookDropdownOpen
      ensures selectedStudent == old(selectedStudent) && studentSearchTerm == old(studentSearchTerm) && isStudentDropdownOpen == old(isStudentDropdownOpen)
      ensures borrowDurationOption == old(borrowDurationOption) && customDuration == old(customDuration)
    {
      selectedBook := book.id;
      bookSearchTerm := book.title;
      isBookDropdownOpen := false;
    }

    /** `handleBookSearchChange`: typing drops the selected book and opens the dropdown. */
    method HandleBookSearchChange(value: string)
      modifies this
      ensures bookSearchTerm == value && selectedBook == "" && isBookDropdownOpen
      ensures selectedStudent == old(selectedStudent) && studentSearchTerm == old(studentSearchTerm) && isStudentDropdownOpen == old(isStudentDropdownOpen)
      ensures borrowDurationOption == old(borrowDurationOption) && customDuration == old(customDuration)
    {
      bookSearchTerm := value;
      selectedBook := "";
      isBookDropdownOpen := true;
    }

    /** `handleSelectStudent`: select the student, show the name in the search box, close the dropdown. */
    method HandleSelectStudent(student: Student)
      modifies this
      ensures selectedStudent == student.id && studentSearchTerm == student.name && !isStudentDropdownOpen
      ensures selectedBook == old(selectedBook) && bookSearchTerm == old(bookSearchTerm) && isBookDropdownOpen == old(isBookDropdownOpen)
      ensures borrowDurationOption == old(borrowDurationOption) && customDuration == old(customDuration)
    {
      selectedStudent := student.id;
      studentSearchTerm := student.name;
      isStudentDropdownOpen := false;
    }

    /** `handleStudentSearchChange`: typing drops the selected student and opens the dropdown. */
    method HandleStudentSearchChange(value: string)
      modifies this
      ensures studentSearchTerm == value && selectedStudent == "" && isStudentDropdownOpen
      ensures selectedBook == old(selectedBook) && bookSearchTerm == old(bookSearchTerm) && isBookDropdownOpen == old(isBookDropdownOpen)
      ensures borrowDurationOption == old(borrowDurationOption) && customDuration == old(customDuration)
    {
      studentSearchTerm := value;
      selectedStudent := "";
      isStudentDropdownOpen := true;
    }

    /** The return button of a listed loan: return that record in the library. */
    method HandleReturn(row: LoanRow, lib: Library)
      modifies lib
      ensures lib.State() == old(lib.State()).ReturnBook(row.record.id)
    {
      lib.ReturnBook(row.record.id);
    }
  }

  /**
   * Typing in the book search after picking a book disables the borrow
   * button, so no loan goes out for a book the search box no longer names.
   */
  method SearchAfterSelectDeselects(desk: BorrowPanel, book: Book, value: string, lib: Library, now: nat) returns (outcome: BorrowOutcome)
    modifies desk, lib
    ensures outcome == Refused(SelectionMessage)
    ensures lib.State() == old(lib.State())
    ensures desk.bookSearchTerm == value && desk.selectedBook == ""
  {
    desk.HandleSelectBook(book);
    desk.HandleBookSearchChange(value);
    assert !desk.CanConfirm();
    outcome := desk.HandleBorrow(lib, now);
  }

  /** A custom duration that was blurred never makes the borrow button raise the duration alert. */
  method BlurThenBorrow(desk: BorrowPanel, lib: Library, now: nat) returns (outcome: BorrowOutcome)
    requires desk.borrowDurationOption == CustomOption && desk.CanConfirm()
    modifies desk, lib
    ensures outcome.Lent? && MinDays <= outcome.days <= MaxDays
    ensures lib.State() == old(lib.State()).BorrowBook(old(desk.selectedBook), old(desk.selectedStudent), outcome.days, now)
  {
    desk.HandleCustomDurationBlur();
    BlurMakesCustomValid(old(desk.customDuration));
    outcome := desk.HandleBorrow(lib, now);
  }
}
