/**
 * The dashboard (Dashboard.tsx): the four counters, the copies per genre
 * behind the bar chart, and the most recent loans.
 *
 * The clock is a parameter (`now`, in milliseconds).
 */
module Dashboard {
  import opened Types
  import opened Seqs
  import opened Lookups
  import App
  import Text

  /** `totalBooks`: the copies of all books, on the shelf or lent out, summed from the first book on. */
  function TotalCopies(books: seq<Book>): int {
    if books == [] then 0 else TotalCopies(books[..|books| - 1]) + Copies(books[|books| - 1])
  }

  /** The copy count is additive over the catalogue. */
  lemma {:induction false} TotalCopiesAppend(a: seq<Book>, b: seq<Book>)
    ensures TotalCopies(a + b) == TotalCopies(a) + TotalCopies(b)
    decreases |b|
  {
    if b != [] {
      var init := b[..|b| - 1];
      assert (a + b)[..|a + b| - 1] == a + init;
      assert (a + b)[|a + b| - 1] == b[|b| - 1];
      TotalCopiesAppend(a, init);
      assert TotalCopies(a + b) == TotalCopies(a + init) + Copies(b[|b| - 1]);
    } else {
      assert a + b == a;
    }
  }

  /** With no negative quantity the total is not negative. */
  lemma {:induction false} TotalCopiesNonNegative(books: seq<Book>)
    requires forall i :: 0 <= i < |books| ==> books[i].quantity >= 0
    ensures TotalCopies(books) >= 0
  {
    if books != [] {
      TotalCopiesNonNegative(books[..|books| - 1]);
    }
  }

  /** A loan moves a copy from the shelf to a student, so the total does not change. */
  lemma {:induction false} TotalCopiesKeptByCopies(a: seq<Book>, b: seq<Book>)
    requires |a| == |b|
    requires forall i :: 0 <= i < |a| ==> Copies(a[i]) == Copies(b[i])
    ensures TotalCopies(a) == TotalCopies(b)
  {
    if a != [] {
      TotalCopiesKeptByCopies(a[..|a| - 1], b[..|b| - 1]);
    }
  }

  /** Borrowing leaves `totalBooks` as it was. */
  lemma BorrowKeepsTotal(st: App.LibraryState, bookId: string, studentId: string, days: int, now: nat)
    ensures TotalCopies(st.BorrowBook(bookId, studentId, days, now).books) == TotalCopies(st.books)
  {
    TotalCopiesKeptByCopies(st.BorrowBook(bookId, studentId, days, now).books, st.books);
  }

  /** `borrowedBooksCount`: one per open record. */
  function BorrowedCount(records: seq<BorrowingRecord>): nat {
    |records|
  }

  /** The records whose due date has passed. */
  function OverdueRecords(records: seq<BorrowingRecord>, now: Instant): (r: seq<BorrowingRecord>)
    ensures forall x :: x in r <==> x in records && Overdue(x, now)
    ensures IsSubseq(r, records)
    ensures forall x :: multiset(r)[x] == if Overdue(x, now) then multiset(records)[x] else 0
  {
    FilterMultiset(records, (x: BorrowingRecord) => Overdue(x, now));
    Filter(records, (x: BorrowingRecord) => Overdue(x, now))
  }

  /** `overdueBooksCount`: never more than the borrowed count, and equal to it exactly when every loan is overdue. */
  function OverdueCount(records: seq<BorrowingRecord>, now: Instant): (n: nat)
    ensures n <= BorrowedCount(records)
    ensures n == BorrowedCount(records) <==> forall k :: 0 <= k < |records| ==> Overdue(records[k], now)
  {
    FilterLength(records, (x: BorrowingRecord) => Overdue(x, now));
    |OverdueRecords(records, now)|
  }

  /** As time passes, no loan stops being overdue. */
  lemma OverdueGrows(records: seq<BorrowingRecord>, now: Instant, later: Instant)
    requires now <= later
    ensures OverdueCount(records, now) <= OverdueCount(records, later)
  {
    FilterMonotone(records, (x: BorrowingRecord) => Overdue(x, now), (x: BorrowingRecord) => Overdue(x, later));
  }

  /** `totalStudents`. */
  function StudentCount(students: seq<Student>): nat {
    |students|
  }

  /** One bar of the genre chart. */
  datatype GenreCount = GenreCount(name: string, count: int)

  function GenreOf(b: Book): string {
    b.genre
  }

  function NameOfEntry(e: GenreCount): string {
    e.name
  }

  /** The genres of the books, in catalogue order, repetitions included. */
  function Genres(books: seq<Book>): seq<string> {
    Map(books, GenreOf)
  }

  /** The copies of the books of one genre, summed from the first book on. */
  function GenreTotal(books: seq<Book>, genre: string): int {
    if books == [] then 0
    else GenreTotal(books[..|books| - 1], genre) + (if books[|books| - 1].genre == genre then Copies(books[|books| - 1]) else 0)
  }

  /** `acc.find(item => item.name === genre)`, as the position found (the length when there is none). */
  function EntryFor(data: seq<GenreCount>, genre: string): (k: nat)
    ensures k <= |data|
    ensures k < |data| ==> data[k].name == genre
    ensures k == |data| <==> forall j :: 0 <= j < |data| ==> data[j].name != genre
  {
    if data == [] then 0
    else if data[0].name == genre then 0
    else
      assert forall j :: 1 <= j < |data| ==> data[1..][j - 1] == data[j];
      1 + EntryFor(data[1..], genre)
  }

  /** The bars before step `i + 1` of the reduce determine those after it. */
  lemma GenreStep(books: seq<Book>, i: nat)
    requires i < |books|
    ensures books[..i + 1][..i] == books[..i]
    ensures Genres(books[..i + 1]) == Genres(books[..i]) + [books[i].genre]
    ensures forall g :: GenreTotal(books[..i + 1], g) == GenreTotal(books[..i], g) + (if books[i].genre == g then Copies(books[i]) else 0)
  {
    assert books[..i + 1][..i] == books[..i];
  }

  /** `data` is the genre chart of `books`: each genre once, in order of first appearance, with the copies of all its books. */
  predicate IsChart(data: seq<GenreCount>, books: seq<Book>) {
    && Map(data, NameOfEntry) == Distinct(Genres(books))
    && forall j :: 0 <= j < |data| ==> data[j].count == GenreTotal(books, data[j].name)
  }

  /** The reduce's callback: add the book's copies to its genre's entry, or append an entry for a genre met for the first time. */
  function AddToChart(data: seq<GenreCount>, b: Book): (r: seq<GenreCount>)
    ensures |r| == if EntryFor(data, b.genre) < |data| then |data| else |data| + 1
    ensures forall j :: 0 <= j < |r| ==> r[j].name == if j < |data| then data[j].name else b.genre
    ensures forall j :: 0 <= j < |data| && j != EntryFor(data, b.genre) ==> r[j] == data[j]
    ensures r[EntryFor(data, b.genre)].count ==
      (if EntryFor(data, b.genre) < |data| then data[EntryFor(data, b.genre)].count else 0) + Copies(b)
  {
    var k := EntryFor(data, b.genre);
    if k < |data| then data[k := GenreCount(b.genre, data[k].count + Copies(b))]
    else data + [GenreCount(b.genre, Copies(b))]
  }

  /** The reduce itself, from the first book on. */
  function Chart(books: seq<Book>): seq<GenreCount> {
    if books == [] then [] else AddToChart(Chart(books[..|books| - 1]), books[|books| - 1])
  }

  /** The reduce yields the genre chart. */
  lemma {:induction false} ChartCorrect(books: seq<Book>)
    ensures IsChart(Chart(books), books)
  {
    if books == [] {
      assert Genres([]) == [];
    } else {
      var i := |books| - 1;
      var init := books[..i];
      assert books[..i + 1] == books;
      ChartCorrect(init);
      var prev := Chart(init);
      var k := EntryFor(prev, books[i].genre);
      if k < |prev| {
        ExistingGenreStep(books, i, prev, k, Chart(books));
      } else {
        NewGenreStep(books, i, prev, Chart(books));
      }
    }
  }

  /**
   * `genreData`: the `reduce` over the books that adds each book's copies to
   * its genre's entry in place, creating the entry, at the end, the first time
   * the genre is met. The result holds each genre once, in order of first
   * appearance, with the copies of all its books.
   */
  method GenreData(books: seq<Book>) returns (data: seq<GenreCount>)
    ensures data == Chart(books)
    ensures IsChart(data, books)
  {
    data := [];
    var i := 0;
    while i < |books|
      invariant 0 <= i <= |books|
      invariant data == Chart(books[..i])
    {
      var book := books[i];
      assert books[..i + 1][..i] == books[..i];
      var k := EntryFor(data, book.genre);
      if k < |data| {
        data := data[k := GenreCount(book.genre, data[k].count + Copies(book))];
      } else {
        data := data + [GenreCount(book.genre, Copies(book))];
      }
      i := i + 1;
    }
    assert books[..|books|] == books;
    ChartCorrect(books);
  }

  /** The loop invariant of `GenreData` after the step through `books[i]`, when its genre already has entry `k`. */
  lemma ExistingGenreStep(books: seq<Book>, i: nat, data: seq<GenreCount>, k: nat, next: seq<GenreCount>)
    requires i < |books| && k < |data| && data[k].name == books[i].genre
    requires IsChart(data, books[..i])
    requires next == data[k := GenreCount(books[i].genre, data[k].count + Copies(books[i]))]
    ensures IsChart(next, books[..i + 1])
  {
    var genre := books[i].genre;
    var names := Map(data, NameOfEntry);
    GenreStep(books, i);
    assert Genres(books[..i + 1])[..i] == Genres(books[..i]);
    assert names[k] == genre;
    assert forall j :: 0 <= j < |data| && j != k ==> data[j].name != genre by {
      assert NoDuplicates(names);
      assert forall j :: 0 <= j < |data| ==> names[j] == data[j].name;
    }
    assert Map(next, NameOfEntry) == names;
  }

  /** The loop invariant of `GenreData` after the step through `books[i]`, when its genre has no entry yet. */
  lemma NewGenreStep(books: seq<Book>, i: nat, data: seq<GenreCount>, next: seq<GenreCount>)
    requires i < |books| && forall j :: 0 <= j < |data| ==> data[j].name != books[i].genre
    requires IsChart(data, books[..i])
    requires next == data + [GenreCount(books[i].genre, Copies(books[i]))]
    ensures IsChart(next, books[..i + 1])
  {
    var genre := books[i].genre;
    var names := Map(data, NameOfEntry);
    GenreStep(books, i);
    assert Genres(books[..i + 1])[..i] == Genres(books[..i]);
    assert genre !in names;
    assert genre !in Genres(books[..i]);
    assert GenreTotal(books[..i], genre) == 0 by {
      GenreAbsent(books[..i], genre);
    }
    assert Map(next, NameOfEntry) == names + [genre];
  }

  /** A genre no book has totals zero. */
  lemma {:induction false} GenreAbsent(books: seq<Book>, genre: string)
    requires genre !in Genres(books)
    ensures GenreTotal(books, genre) == 0
  {
    if books != [] {
      var init := books[..|books| - 1];
      assert Genres(books)[|books| - 1] == books[|books| - 1].genre;
      assert forall j :: 0 <= j < |init| ==> Genres(init)[j] == Genres(books)[j];
      GenreAbsent(init, genre);
    }
  }

  /** The sum of the chart's bars. */
  function SumCounts(data: seq<GenreCount>): int {
    if data == [] then 0 else data[0].count + SumCounts(data[1..])
  }

  /** The copies of the genres in `names`, summed. */
  function SumTotals(names: seq<string>, books: seq<Book>): int {
    if names == [] then 0 else GenreTotal(books, names[0]) + SumTotals(names[1..], books)
  }

  /** One more book adds its copies to the sum exactly when its genre is among `names`. */
  lemma {:induction false} SumTotalsStep(names: seq<string>, books: seq<Book>)
    requires books != [] && NoDuplicates(names)
    ensures var last := books[|books| - 1];
      SumTotals(names, books) == SumTotals(names, books[..|books| - 1]) + (if last.genre in names then Copies(last) else 0)
  {
    if names != [] {
      assert NoDuplicates(names[1..]) by {
        assert forall i :: 0 <= i < |names| - 1 ==> names[1..][i] == names[i + 1];
      }
      assert names[0] !in names[1..];
      assert forall g :: g in names <==> g == names[0] || g in names[1..];
      SumTotalsStep(names[1..], books);
    }
  }

  /** Summed over distinct genres that cover the catalogue, the genre totals give the whole total. */
  lemma {:induction false} SumTotalsCover(names: seq<string>, books: seq<Book>)
    requires NoDuplicates(names)
    requires forall i :: 0 <= i < |books| ==> books[i].genre in names
    ensures SumTotals(names, books) == TotalCopies(books)
    decreases |books|
  {
    if books == [] {
      SumTotalsZero(names);
    } else {
      SumTotalsStep(names, books);
      SumTotalsCover(names, books[..|books| - 1]);
    }
  }

  lemma {:induction false} SumTotalsZero(names: seq<string>)
    ensures SumTotals(names, []) == 0
  {
    if names != [] {
      SumTotalsZero(names[1..]);
    }
  }

  /** Bars whose counts are the genre totals sum to the totals of their names. */
  lemma {:induction false} SumCountsOfTotals(data: seq<GenreCount>, books: seq<Book>)
    requires forall j :: 0 <= j < |data| ==> data[j].count == GenreTotal(books, data[j].name)
    ensures SumCounts(data) == SumTotals(Map(data, NameOfEntry), books)
  {
    if data != [] {
      assert Map(data, NameOfEntry)[1..] == Map(data[1..], NameOfEntry);
      SumCountsOfTotals(data[1..], books);
    }
  }

  /** The bars of the genre chart add up to `totalBooks`: every copy is counted under exactly one genre. */
  lemma ChartSumsToTotal(books: seq<Book>, data: seq<GenreCount>)
    requires IsChart(data, books)
    ensures SumCounts(data) == TotalCopies(books)
  {
    var names := Map(data, NameOfEntry);
    assert forall i :: 0 <= i < |books| ==> books[i].genre in names by {
      assert forall i :: 0 <= i < |books| ==> Genres(books)[i] == books[i].genre;
    }
    SumCountsOfTotals(data, books);
    SumTotalsCover(names, books);
  }

  /** A genre no book has gets no bar; a genre some book has gets exactly one. */
  lemma ChartHasOneBarPerGenre(books: seq<Book>, data: seq<GenreCount>, genre: string)
    requires IsChart(data, books)
    ensures (exists j :: 0 <= j < |data| && data[j].name == genre) <==> exists i :: 0 <= i < |books| && books[i].genre == genre
    ensures forall j, k :: 0 <= j < k < |data| ==> data[j].name != data[k].name
  {
    var names := Map(data, NameOfEntry);
    assert forall j :: 0 <= j < |data| ==> names[j] == data[j].name;
    assert forall i :: 0 <= i < |books| ==> Genres(books)[i] == books[i].genre;
    if exists i :: 0 <= i < |books| && books[i].genre == genre {
      var i :| 0 <= i < |books| && books[i].genre == genre;
      assert Genres(books)[i] == genre;
      assert genre in names;
    }
    if exists j :: 0 <= j < |data| && data[j].name == genre {
      var j :| 0 <= j < |data| && data[j].name == genre;
      assert names[j] == genre;
      assert genre in Genres(books);
    }
  }

  /** `borrowingRecords.slice(-5).reverse()`: the last five records, or all of them when fewer, newest first. */
  function RecentRecords(records: seq<BorrowingRecord>): (r: seq<BorrowingRecord>)
    ensures |r| == if |records| < 5 then |records| else 5
    ensures forall i :: 0 <= i < |r| ==> r[i] == records[|records| - 1 - i]
  {
    var n := if |records| < 5 then |records| else 5;
    Reverse(records[|records| - n..])
  }

  /** A loan just made heads the recent list. */
  lemma NewLoanIsMostRecent(st: App.LibraryState, bookId: string, studentId: string, days: int, now: nat)
    ensures var r := st.BorrowBook(bookId, studentId, days, now);
      RecentRecords(r.records)[0] == r.records[|st.records|] && r.records[|st.records|].id == Text.NatToString(now)
  {
  }

  /** One entry of the recent list: the book's title, the student's name and the borrow date. */
  datatype RecentLine = RecentLine(title: string, name: string, borrowDate: Instant)

  /** The recent list as shown: titles and names looked up, `""` where the book or the student is missing. */
  function RecentLines(books: seq<Book>, students: seq<Student>, records: seq<BorrowingRecord>): (lines: seq<RecentLine>)
    ensures |lines| == |RecentRecords(records)|
    ensures forall i :: 0 <= i < |lines| ==>
      var rec := records[|records| - 1 - i];
      lines[i] == RecentLine(TitleOf(books, rec.bookId), NameOf(students, rec.studentId), rec.borrowDate)
  {
    var recent := RecentRecords(records);
    seq(|recent|, i requires 0 <= i < |recent| =>
      RecentLine(TitleOf(books, recent[i].bookId), NameOf(students, recent[i].studentId), recent[i].borrowDate))
  }
}
