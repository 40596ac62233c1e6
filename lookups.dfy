/**
 * Look-ups by id that several views repeat (`books.find(b => b.id === id)`,
 * `students.find(m => m.id === id)`), and the display strings they yield.
 */
module Lookups {
  import opened Options
  import opened Types
  import opened Seqs

  function FindBook(books: seq<Book>, id: string): Option<Book> {
    Find(books, (b: Book) => b.id == id)
  }

  function FindStudent(students: seq<Student>, id: string): Option<Student> {
    Find(students, (s: Student) => s.id == id)
  }

  function FindRecord(records: seq<BorrowingRecord>, id: string): Option<BorrowingRecord> {
    Find(records, (r: BorrowingRecord) => r.id == id)
  }

  /**
   * `books.find(b => b.id === id)?.title`, with `""` standing for `undefined`:
   * the callers only test it for truthiness, and `undefined` and `''` are both falsy.
   */
  function TitleOf(books: seq<Book>, id: string): (t: string)
    ensures (forall i :: 0 <= i < |books| ==> books[i].id != id) ==> t == ""
    ensures forall i :: 0 <= i < |books| && books[i].id == id && (forall j :: 0 <= j < i ==> books[j].id != id) ==> t == books[i].title
    ensures t != "" ==> exists i :: 0 <= i < |books| && books[i].id == id && books[i].title == t
  {
    match FindBook(books, id)
    case None => ""
    case Some(b) => b.title
  }

  /** The title found for an id depends only on the ids and titles of the catalogue, position by position. */
  lemma TitleOfAgree(a: seq<Book>, b: seq<Book>, id: string)
    requires |a| == |b|
    requires forall i :: 0 <= i < |a| ==> a[i].id == b[i].id && a[i].title == b[i].title
    ensures TitleOf(a, id) == TitleOf(b, id)
  {
    var found := FindBook(a, id);
    if found.Some? {
      var i :| 0 <= i < |a| && a[i] == found.value && a[i].id == id && forall j :: 0 <= j < i ==> a[j].id != id;
    }
  }

  /** `students.find(m => m.id === id)?.name`, with `""` standing for `undefined`. */
  function NameOf(students: seq<Student>, id: string): (n: string)
    ensures (forall i :: 0 <= i < |students| ==> students[i].id != id) ==> n == ""
    ensures forall i :: 0 <= i < |students| && students[i].id == id && (forall j :: 0 <= j < i ==> students[j].id != id) ==> n == students[i].name
    ensures n != "" ==> exists i :: 0 <= i < |students| && students[i].id == id && students[i].name == n
  {
    match FindStudent(students, id)
    case None => ""
    case Some(s) => s.name
  }
}
