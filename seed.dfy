/**
 * The library the app starts with (constants.ts): five students, eight books
 * and three open loans, whose dates are set relative to the moment the
 * module is loaded (`load`, in milliseconds), and the facts that make it a
 * sound starting state.
 */
module Seed {
  import opened Types
  import opened App

  /** `new Date('yyyy-mm-dd')`, read as midnight UTC. */
  const Sep1st2023: Instant := 1693526400000
  const Jan10th2024: Instant := 1704844800000
  const Feb20th2024: Instant := 1708387200000
  const Mar15th2024: Instant := 1710460800000

  const Student1: Student :=
    Student("student-1", "Nguyễn Văn An", "an.nguyen@example.com", "0901234567", Sep1st2023,
    "15/05/2010", "Nam", "8", "8A1", "Kinh", "123 Đường ABC, Quận 1, TP. HCM")

  const Student2: Student :=
    Student("student-2", "Trần Thị Bình", "binh.tran@example.com", "0912345678", Sep1st2023,
    "20/08/2011", "Nữ", "7", "7A2", "Kinh", "456 Đường XYZ, Quận 3, TP. HCM")

  const Student3: Student :=
    Student("student-3", "Lê Hoàng Cường", "cuong.le@example.com", "0987654321", Jan10th2024,
    "10/11/2009", "Nam", "9", "9B1", "Kinh", "789 Đường DEF, Quận Gò Vấp, TP. HCM")

  const Student4: Student :=
    Student("student-4", "Phạm Thúy Duyên", "duyen.pham@example.com", "0978123456", Feb20th2024,
    "25/02/2010", "Nữ", "8", "8A3", "Kinh", "101 Đường GHI, Quận Bình Thạnh, TP. HCM")

  const Student5: Student :=
    Student("student-5", "Hoàng Minh Hải", "hai.hoang@example.com", "0965432109", Mar15th2024,
    "30/07/2011", "Nam", "7", "7A2", "Kinh", "212 Đường KLM, Quận 10, TP. HCM")

  function InitialStudents(): seq<Student> {
    [Student1, Student2, Student3, Student4, Student5]
  }

  const Book1: Book :=
    Book("book-1", "Dế Mèn Phiêu Lưu Ký", "Tô Hoài", "978-604-2-05996-8", "Thiếu nhi",
    "Cuộc phiêu lưu của chú Dế Mèn qua thế giới loài vật và những bài học đường đời sâu sắc.",
    4, "https://picsum.photos/seed/9786042059968/400/600", ["student-1"])

  const Book2: Book :=
    Book("book-2", "Harry Potter và Hòn Đá Phù Thủy", "J.K. Rowling", "978-604-1-19766-9", "Giả tưởng",
    "Tập đầu tiên trong series truyện về cậu bé phù thủy Harry Potter và những cuộc phiêu lưu tại trường Hogwarts.",
    2, "https://picsum.photos/seed/9786041197669/400/600", ["student-2"])

  const Book3: Book :=
    Book("book-3", "Số Đỏ", "Vũ Trọng Phụng", "978-604-9-69830-7", "Văn học Việt Nam",
    "Một tác phẩm châm biếm sâu cay về xã hội Việt Nam thời Pháp thuộc qua nhân vật Xuân Tóc Đỏ.",
    5, "https://picsum.photos/seed/9786049698307/400/600", [])

  const Book4: Book :=
    Book("book-4", "Nhà Giả Kim", "Paulo Coelho", "978-604-3-46387-9", "Tiểu thuyết",
    "Hành trình đi tìm kho báu của cậu bé chăn cừu Santiago, một câu chuyện đầy triết lý về việc theo đuổi ước mơ.",
    6, "https://picsum.photos/seed/9786043463879/400/600", [])

  const Book5: Book :=
    Book("book-5", "Lược Sử Loài Người", "Yuval Noah Harari", "978-604-3-45579-9", "Khoa học",
    "Cuốn sách kể về toàn bộ lịch sử của loài người, từ thời kỳ đồ đá cho đến cuộc cách mạng công nghệ.",
    3, "https://picsum.photos/seed/9786043455799/400/600", [])

  const Book6: Book :=
    Book("book-6", "Conan - Tập 1", "Aoyama Gosho", "978-604-2-21111-3", "Trinh thám",
    "Cậu thám tử trung học Kudo Shinichi bị teo nhỏ và phá các vụ án dưới thân phận Edogawa Conan.",
    9, "https://picsum.photos/seed/9786042211113/400/600", ["student-1"])

  const Book7: Book :=
    Book("book-7", "Tôi Thấy Hoa Vàng Trên Cỏ Xanh", "Nguyễn Nhật Ánh", "978-604-2-16223-1", "Thiếu nhi",
    "Câu chuyện tuổi thơ trong sáng, hồn nhiên ở một làng quê nghèo Việt Nam những năm cuối 1980.",
    7, "https://picsum.photos/seed/9786042162231/400/600", [])

  const Book8: Book :=
    Book("book-8", "Đắc Nhân Tâm", "Dale Carnegie", "978-604-5-88697-3", "Kỹ năng sống",
    "Cuốn sách self-help kinh điển về nghệ thuật giao tiếp, ứng xử và thu phục lòng người.",
    10, "https://picsum.photos/seed/9786045886973/400/600", [])

  function InitialBooks(): seq<Book> {
    [Book1, Book2, Book3, Book4, Book5, Book6, Book7, Book8]
  }

  /** A date `days` days from `load` (`new Date(new Date().setDate(new Date().getDate() + days))`). */
  function DaysFrom(load: Instant, days: int): Instant {
    load + days * MsPerDay
  }

  function InitialRecords(load: Instant): seq<BorrowingRecord> {
    [
      BorrowingRecord("record-1", "book-1", "student-1", DaysFrom(load, -10), DaysFrom(load, 4)),
      BorrowingRecord("record-2", "book-2", "student-2", DaysFrom(load, -20), DaysFrom(load, -6)),
      BorrowingRecord("record-3", "book-6", "student-1", DaysFrom(load, -2), DaysFrom(load, 12))
    ]
  }

  /** The state `App` starts from. */
  function InitialState(load: Instant): LibraryState {
    LibraryState(InitialBooks(), InitialStudents(), InitialRecords(load))
  }

  /** The borrowers of a book among three records, one record at a time. */
  lemma BorrowersOfThree(a: BorrowingRecord, b: BorrowingRecord, c: BorrowingRecord, bookId: string)
    ensures BorrowersOf([a, b, c], bookId) ==
      (if a.bookId == bookId then [a.studentId] else []) +
      (if b.bookId == bookId then [b.studentId] else []) +
      (if c.bookId == bookId then [c.studentId] else [])
  {
    var ha := if a.bookId == bookId then [a.studentId] else [];
    var hb := if b.bookId == bookId then [b.studentId] else [];
    var hc := if c.bookId == bookId then [c.studentId] else [];
    assert [a, b, c][1..] == [b, c];
    assert [b, c][1..] == [c];
    assert [c][1..] == [];
    assert BorrowersOf([c], bookId) == hc + [] == hc;
    assert BorrowersOf([b, c], bookId) == hb + hc;
    assert BorrowersOf([a, b, c], bookId) == ha + (hb + hc);
    assert ha + (hb + hc) == ha + hb + hc;
  }

  /** The students of the seed records for one book id. */
  lemma SeedBorrowers(load: Instant, bookId: string)
    ensures BorrowersOf(InitialRecords(load), bookId) ==
      (if bookId == "book-1" then ["student-1"] else []) +
      (if bookId == "book-2" then ["student-2"] else []) +
      (if bookId == "book-6" then ["student-1"] else [])
  {
    var recs := InitialRecords(load);
    BorrowersOfThree(recs[0], recs[1], recs[2], bookId);
  }

  /** The ids of the seed books, in list order. */
  const BookIds: seq<string> := ["book-1", "book-2", "book-3", "book-4", "book-5", "book-6", "book-7", "book-8"]

  /** The ids of the seed students, in list order. */
  const StudentIds: seq<string> := ["student-1", "student-2", "student-3", "student-4", "student-5"]

  /**
   * The part of the seed books the loan bookkeeping looks at: their ids, and
   * `student-1` holding `book-1` and `book-6`, `student-2` holding `book-2`.
   */
  predicate HasSeedKeys(books: seq<Book>) {
    && |books| == |BookIds|
    && (forall i :: 0 <= i < |books| ==> books[i].id == BookIds[i])
    && (forall i :: 0 <= i < |books| ==>
          books[i].borrowedBy == if i == 0 || i == 5 then ["student-1"] else if i == 1 then ["student-2"] else [])
  }

  predicate HasSeedStudentIds(students: seq<Student>) {
    && |students| == |StudentIds|
    && (forall j :: 0 <= j < |students| ==> students[j].id == StudentIds[j])
  }

  lemma SeedKeys()
    ensures HasSeedKeys(InitialBooks())
  {
  }

  lemma SeedStudentIds()
    ensures HasSeedStudentIds(InitialStudents())
  {
  }

  /** The students the seed records list for the book at position `i` of the seed. */
  lemma SeedBorrowersAt(load: Instant, i: int)
    requires 0 <= i < |BookIds|
    ensures BorrowersOf(InitialRecords(load), BookIds[i]) ==
      if i == 0 || i == 5 then ["student-1"] else if i == 1 then ["student-2"] else []
  {
    var id := BookIds[i];
    SeedBorrowers(load, id);
    if i == 0 || i == 5 {
      assert id == "book-1" || id == "book-6";
      assert id != "book-2";
      assert id == "book-1" <==> id != "book-6";
    } else if i == 1 {
      assert id != "book-1" && id != "book-6";
    } else {
      assert id[5] != '1' && id[5] != '2' && id[5] != '6';
    }
  }

  /** Books with the seed's ids and borrowers agree with the seed records. */
  lemma KeysConsistent(books: seq<Book>, students: seq<Student>, load: Instant)
    requires HasSeedKeys(books)
    ensures LibraryState(books, students, InitialRecords(load)).Consistent()
  {
    forall i | 0 <= i < |books|
      ensures multiset(books[i].borrowedBy) == multiset(BorrowersOf(InitialRecords(load), books[i].id))
    {
      SeedBorrowersAt(load, i);
    }
  }

  /** Each book lists as borrowers exactly the students of its records. */
  lemma SeedConsistent(load: Instant)
    ensures InitialState(load).Consistent()
  {
    SeedKeys();
    KeysConsistent(InitialBooks(), InitialStudents(), load);
  }

  /** The copies on the shelf and lent out match the totals noted in the source: 5, 3 and 10. */
  lemma SeedTotals()
    ensures Copies(InitialBooks()[0]) == 5 && Copies(InitialBooks()[1]) == 3 && Copies(InitialBooks()[5]) == 10
    ensures forall i :: 0 <= i < |InitialBooks()| ==> InitialBooks()[i].quantity >= 0
  {
  }

  /** Records with the seed's ids refer to books and students with the seed's ids. */
  lemma KeysIntegrity(books: seq<Book>, students: seq<Student>, load: Instant)
    requires HasSeedKeys(books) && HasSeedStudentIds(students)
    ensures var st := LibraryState(books, students, InitialRecords(load));
      && st.UniqueRecordIds()
      && st.RefIntegrity()
      && (forall i, j :: 0 <= i < j < |books| ==> books[i].id != books[j].id)
      && (forall i, j :: 0 <= i < j < |students| ==> students[j].id != students[i].id)
  {
    assert books[0].id == "book-1" && books[1].id == "book-2" && books[5].id == "book-6";
    assert students[0].id == "student-1" && students[1].id == "student-2";
  }

  /** Ids are unique in each collection, and every record refers to an existing book and student. */
  lemma SeedIds(load: Instant)
    ensures var st := InitialState(load);
      && st.UniqueRecordIds()
      && st.RefIntegrity()
      && (forall i, j :: 0 <= i < j < |st.books| ==> st.books[i].id != st.books[j].id)
      && (forall i, j :: 0 <= i < j < |st.students| ==> st.students[i].id != st.students[j].id)
  {
    SeedKeys();
    SeedStudentIds();
    KeysIntegrity(InitialBooks(), InitialStudents(), load);
  }

  /** Every loan was made before it falls due. */
  lemma SeedDates(load: Instant)
    ensures forall k :: 0 <= k < |InitialRecords(load)| ==> InitialRecords(load)[k].borrowDate < InitialRecords(load)[k].dueDate
  {
  }

  /** From loading on, until the first loan falls due four days later, only record-2 is overdue. */
  lemma SeedOverdue(load: Instant, now: Instant)
    requires load <= now < DaysFrom(load, 4)
    ensures forall k :: 0 <= k < |InitialRecords(load)| ==> (Overdue(InitialRecords(load)[k], now) <==> InitialRecords(load)[k].id == "record-2")
  {
  }
}
