/**
 * The entity shapes of the library (types.ts): books, students and borrowing
 * records, and the record shapes the callers hand to the mutation layer
 * (`Omit<...>` of the full entities).
 */
module Types {

  /** A JavaScript `Date`, as milliseconds since the epoch. */
  type Instant = int

  /** One calendar day in milliseconds; `setDate(getDate() + d)` is modelled as adding `d` days of this length. */
  const MsPerDay: int := 86400000

  datatype Book = Book(
    id: string,
    title: string,
    author: string,
    isbn: string,
    genre: string,
    description: string,
    quantity: int,            // copies currently on the shelf
    coverImage: string,
    borrowedBy: seq<string>   // ids of the students holding a copy, in borrowing order
  )

  datatype Student = Student(
    id: string,
    name: string,
    email: string,
    phone: string,
    joinDate: Instant,
    birthDate: string,
    gender: string,
    grade: string,
    className: string,
    ethnicity: string,
    address: string
  )

  datatype BorrowingRecord = BorrowingRecord(
    id: string,
    bookId: string,
    studentId: string,
    borrowDate: Instant,
    dueDate: Instant
  )

  /** `Omit<Book, 'id' | 'borrowedBy'>`: what the book form hands to `addBook`. */
  datatype BookDraft = BookDraft(
    title: string,
    author: string,
    isbn: string,
    genre: string,
    description: string,
    quantity: int,
    coverImage: string
  )

  /** `Omit<Book, 'id' | 'borrowedBy' | 'coverImage'>`: one entry of a book import. */
  datatype ImportedBook = ImportedBook(
    title: string,
    author: string,
    isbn: string,
    genre: string,
    description: string,
    quantity: int
  )

  /** `Omit<Student, 'id'>`: what the student form hands to `addStudent`. */
  datatype StudentDraft = StudentDraft(
    name: string,
    email: string,
    phone: string,
    joinDate: Instant,
    birthDate: string,
    gender: string,
    grade: string,
    className: string,
    ethnicity: string,
    address: string
  )

  /** `Omit<Student, 'id' | 'joinDate' | 'email' | 'phone'>`: one entry of a student import. */
  datatype ImportedStudent = ImportedStudent(
    name: string,
    birthDate: string,
    gender: string,
    grade: string,
    className: string,
    ethnicity: string,
    address: string
  )

  /** The physical copies a book stands for: those on the shelf plus those lent out. */
  function Copies(b: Book): int {
    b.quantity + |b.borrowedBy|
  }

  /** A loan is overdue once its due date lies before the current time (`new Date(r.dueDate) < new Date()`). */
  predicate Overdue(rec: BorrowingRecord, now: Instant) {
    rec.dueDate < now
  }
}
