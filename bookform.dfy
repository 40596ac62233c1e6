/**
 * The book form (BookForm.tsx): the edited fields, their initialisation from
 * the book being edited, per-field changes, the AI lookup by ISBN, and the
 * record handed to the list on submit.
 *
 * The lookup itself is not modelled: its outcome is a parameter, either the
 * details it returned (each possibly missing) or the message it failed with.
 */
module BookForm {
  import opened Options
  import opened Types
  import opened Text
  import opened App

  /** What the form hands to `onSave`: a whole book when editing, a book without id and borrowers when adding. */
  datatype BookPayload = ExistingBook(book: Book) | NewBook(draft: BookDraft)

  /** The inputs of the form, by their `name` attribute. */
  datatype BookField = Isbn | Title | Author | Genre | Description | Quantity

  /** The details the AI lookup may return; any of them may be missing. */
  datatype BookDetails = BookDetails(title: Option<string>, author: Option<string>, description: Option<string>, genre: Option<string>)

  const MissingIsbn: string := "Vui lòng nhập ISBN để tìm kiếm."

  /** The state of a blank form. */
  function EmptyForm(): (f: BookDraft)
    ensures f.quantity == 1
    ensures f.title == f.author == f.isbn == f.genre == f.description == f.coverImage == ""
  {
    BookDraft("", "", "", "", "", 1, "")
  }

  /** The init effect: the fields of the book when editing, a blank form when adding. */
  function FormFor(book: Option<Book>): (f: BookDraft)
    ensures book.None? ==> f == EmptyForm()
    ensures book.Some? ==> f == DraftOf(book.value)
  {
    match book
    case None => EmptyForm()
    case Some(b) => BookDraft(b.title, b.author, b.isbn, b.genre, b.description, b.quantity, b.coverImage)
  }

  /**
   * `handleChange`: the named field takes the typed value; the quantity takes
   * the number it parses to, and an input that does not parse leaves it alone.
   */
  function Changed(f: BookDraft, field: BookField, value: string): (g: BookDraft)
    ensures g.title == (if field == Title then value else f.title)
    ensures g.author == (if field == Author then value else f.author)
    ensures g.isbn == (if field == Isbn then value else f.isbn)
    ensures g.genre == (if field == Genre then value else f.genre)
    ensures g.description == (if field == Description then value else f.description)
    ensures g.quantity == (if field == Quantity then ParseInt(value).GetOr(f.quantity) else f.quantity)
    ensures g.coverImage == f.coverImage
  {
    match field
    case Isbn => f.(isbn := value)
    case Title => f.(title := value)
    case Author => f.(author := value)
    case Genre => f.(genre := value)
    case Description => f.(description := value)
    case Quantity =>
      match ParseInt(value)
      case Some(n) => f.(quantity := n)
      case None => f
  }

  /** Typing the decimal form of a count into the quantity input stores that count. */
  lemma ChangedQuantity(f: BookDraft, n: nat)
    ensures Changed(f, Quantity, NatToString(n)).quantity == n
    ensures Changed(f, Quantity, NatToString(n)) == f.(quantity := n)
  {
    ParseNatToString(n);
  }

  /** Retyping a text field's current value changes nothing. */
  lemma ChangedSameText(f: BookDraft, field: BookField)
    requires field != Quantity
    ensures Changed(f, field, match field
      case Isbn => f.isbn
      case Title => f.title
      case Author => f.author
      case Genre => f.genre
      case Description => f.description
      case Quantity => "") == f
  {
  }

  /** A successful lookup: the four text fields from the details (`''` when missing) and the cover seeded by the ISBN looked up. */
  function Fetched(f: BookDraft, isbn: string, d: BookDetails): (g: BookDraft)
    ensures g.title == d.title.GetOr("") && g.author == d.author.GetOr("")
    ensures g.description == d.description.GetOr("") && g.genre == d.genre.GetOr("")
    ensures g.coverImage == CoverUrl(isbn)
    ensures g.isbn == f.isbn && g.quantity == f.quantity
  {
    f.(title := d.title.GetOr(""), author := d.author.GetOr(""), description := d.description.GetOr(""),
       genre := d.genre.GetOr(""), coverImage := CoverUrl(isbn))
  }

  /**
   * `handleSubmit`: editing spreads the form over the book, so the id and the
   * borrowers come from the book; adding keeps the form's cover when there is
   * one, and otherwise seeds a placeholder by the ISBN or, without one, by the clock.
   */
  function Submit(book: Option<Book>, f: BookDraft, now: nat): (p: BookPayload)
    ensures book.Some? ==> p.ExistingBook? && p.book.id == book.value.id && p.book.borrowedBy == book.value.borrowedBy && DraftOf(p.book) == f
    ensures book.None? ==>
      && p.NewBook?
      && p.draft.(coverImage := f.coverImage) == f
      && p.draft.coverImage == (if f.coverImage != "" then f.coverImage else CoverUrl(if f.isbn != "" then f.isbn else NatToString(now)))
  {
    match book
    case Some(b) =>
      ExistingBook(b.(title := f.title, author := f.author, isbn := f.isbn, genre := f.genre,
                      description := f.description, quantity := f.quantity, coverImage := f.coverImage))
    case None =>
      var cover := if f.coverImage != "" then f.coverImage else CoverUrl(if f.isbn != "" then f.isbn else NatToString(now));
      NewBook(f.(coverImage := cover))
  }

  /** Opening a book and submitting without changes hands back the very same book. */
  lemma SubmitUnchanged(b: Book, now: nat)
    ensures Submit(Some(b), FormFor(Some(b)), now) == ExistingBook(b)
  {
  }

  /** A submitted edit, applied to the library, changes the fields of that book only and keeps its borrowers. */
  lemma SubmitEditKeepsBorrowers(st: LibraryState, b: Book, f: BookDraft, now: nat)
    ensures var p := Submit(Some(b), f, now);
      forall i :: 0 <= i < |st.books| && st.books[i].id == b.id ==>
        st.UpdateBook(p.book).books[i].borrowedBy == b.borrowedBy && DraftOf(st.UpdateBook(p.book).books[i]) == f
  {
  }

  /** The form component: the props it was opened with and the state the handlers update. */
  class BookFormView {
    const book: Option<Book>
    var formData: BookDraft
    var isLoading: bool
    var error: string

    /** Mount, including the first run of the init effect. */
    constructor (book: Option<Book>)
      ensures this.book == book && formData == FormFor(book)
      ensures !isLoading && error == ""
    {
      this.book := book;
      formData := FormFor(book);
      isLoading := false;
      error := "";
    }

    method HandleChange(field: BookField, value: string)
      modifies this
      ensures formData == Changed(old(formData), field, value)
      ensures isLoading == old(isLoading) && error == old(error)
    {
      formData := Changed(formData, field, value);
    }

    /**
     * The synchronous part of `handleFetchFromGemini`: with no ISBN it sets the
     * error and asks for nothing; otherwise it starts loading, clears the error
     * and returns the ISBN to look up.
     */
    method BeginFetch() returns (request: Option<string>)
      modifies this
      ensures formData == old(formData)
      ensures old(formData.isbn) == "" ==> request.None? && error == MissingIsbn && isLoading == old(isLoading)
      ensures old(formData.isbn) != "" ==> request == Some(old(formData.isbn)) && isLoading && error == ""
    {
      if formData.isbn == "" {
        error := MissingIsbn;
        return None;
      }
      isLoading := true;
      error := "";
      request := Some(formData.isbn);
    }

    /**
     * The continuation once the lookup for `isbn` settles: the details are
     * merged into the current fields, or the failure's message is shown; either
     * way loading ends.
     */
    method CompleteFetch(isbn: string, outcome: Result<BookDetails>)
      modifies this
      ensures !isLoading
      ensures outcome.Ok? ==> formData == Fetched(old(formData), isbn, outcome.value) && error == old(error)
      ensures outcome.Failed? ==> formData == old(formData) && error == outcome.message
    {
      match outcome {
        case Ok(details) => formData := Fetched(formData, isbn, details);
        case Failed(message) => error := message;
      }
      isLoading := false;
    }

    method HandleSubmit(now: nat) returns (payload: BookPayload)
      ensures payload == Submit(book, formData, now)
      ensures book.Some? ==> payload.ExistingBook? && payload.book.id == book.value.id && payload.book.borrowedBy == book.value.borrowedBy
      ensures book.None? ==> payload.NewBook? && payload.draft.title == formData.title && payload.draft.quantity == formData.quantity
    {
      payload := Submit(book, formData, now);
    }
  }
}
