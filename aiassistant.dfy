/**
 * The recommendation assistant (AIAssistant.tsx): the choice between a
 * recommendation for a student, built from what that student has borrowed,
 * and a free-form request; the mutual clearing of the two inputs; and the
 * state around the request.
 *
 * The request to the recommendation service is not modelled: the prompt it
 * would be sent is returned, and its outcome is a parameter.
 */
module AIAssistant {
  import opened Options
  import opened Types
  import opened Seqs
  import opened Text
  import opened Lookups
  import opened App

  /** One recommendation returned by the service. */
  datatype Recommendation = Recommendation(title: string, author: string, reason: string)

  const MissingInputMessage: string := "Vui lòng chọn học sinh hoặc nhập một yêu cầu."

  /** `titles.join(sep)`. */
  function Join(titles: seq<string>, sep: string): (r: string)
    ensures titles == [] ==> r == ""
    ensures |titles| == 1 ==> r == titles[0]
  {
    if titles == [] then ""
    else if |titles| == 1 then titles[0]
    else titles[0] + sep + Join(titles[1..], sep)
  }

  /** Every joined title occurs in the joined text. */
  lemma {:induction false} JoinIncludes(titles: seq<string>, sep: string, k: nat)
    requires k < |titles|
    ensures Includes(Join(titles, sep), titles[k])
  {
    if |titles| == 1 {
      IncludesSelf(titles[0]);
    } else if k == 0 {
      IncludesSelf(titles[0]);
      IncludesAppend(titles[0], sep + Join(titles[1..], sep), titles[0]);
      assert titles[0] + sep + Join(titles[1..], sep) == titles[0] + (sep + Join(titles[1..], sep));
    } else {
      JoinIncludes(titles[1..], sep, k - 1);
      IncludesAppend(titles[0] + sep, Join(titles[1..], sep), titles[k]);
    }
  }

  /** The test `r.studentId === selectedStudent` on a record. */
  function OwnedBy(studentId: string): BorrowingRecord -> bool {
    (r: BorrowingRecord) => r.studentId == studentId
  }

  /** The title looked up for a record's book (`""` when the book is missing). */
  function TitleFor(books: seq<Book>): BorrowingRecord -> string {
    (r: BorrowingRecord) => TitleOf(books, r.bookId)
  }

  /** A title that is present (JavaScript truthiness of a string). */
  predicate Present(t: string) {
    t != ""
  }

  /**
   * `borrowedBookTitles`: the titles of the books on the student's records, in
   * record order, one per record, skipping records whose book is missing (or untitled).
   */
  function BorrowedTitles(books: seq<Book>, records: seq<BorrowingRecord>, studentId: string): (titles: seq<string>)
    ensures forall t :: t in titles ==> t != "" && exists k ::
      0 <= k < |records| && records[k].studentId == studentId && TitleOf(books, records[k].bookId) == t
    ensures forall t :: t in titles ==> exists k, i ::
      && 0 <= k < |records| && 0 <= i < |books|
      && records[k].studentId == studentId && books[i].id == records[k].bookId && books[i].title == t
    ensures forall k :: 0 <= k < |records| && records[k].studentId == studentId && TitleOf(books, records[k].bookId) != "" ==>
      TitleOf(books, records[k].bookId) in titles
    ensures titles == [] <==> forall k :: 0 <= k < |records| && records[k].studentId == studentId ==> TitleOf(books, records[k].bookId) == ""
    ensures IsSubseq(titles, Map(Filter(records, OwnedBy(studentId)), TitleFor(books)))
  {
    var own := Filter(records, OwnedBy(studentId));
    var looked := Map(own, TitleFor(books));
    var titles := Filter(looked, Present);
    forall t | t in titles
      ensures exists k :: 0 <= k < |records| && records[k].studentId == studentId && TitleOf(books, records[k].bookId) == t
    {
      var j :| 0 <= j < |looked| && looked[j] == t;
      assert own[j] in records;
      var k :| 0 <= k < |records| && records[k] == own[j];
    }
    forall k | 0 <= k < |records| && records[k].studentId == studentId && TitleOf(books, records[k].bookId) != ""
      ensures TitleOf(books, records[k].bookId) in titles
    {
      assert records[k] in own;
      var j :| 0 <= j < |own| && own[j] == records[k];
      assert looked[j] in looked;
    }
    assert titles != [] ==> titles[0] in titles;
    titles
  }

  /** A record added at the end adds its title, when it is the student's and its book has one, at the end of the list. */
  lemma BorrowedTitlesAppend(books: seq<Book>, records: seq<BorrowingRecord>, rec: BorrowingRecord, studentId: string)
    ensures BorrowedTitles(books, records + [rec], studentId) ==
      BorrowedTitles(books, records, studentId) +
      (if rec.studentId == studentId && TitleOf(books, rec.bookId) != "" then [TitleOf(books, rec.bookId)] else [])
  {
    FilterMapFilterSnoc(records, rec, OwnedBy(studentId), TitleFor(books), Present);
  }

  /** Two catalogues that agree on ids and titles, position by position, give the same titles. */
  lemma BorrowedTitlesAgree(a: seq<Book>, b: seq<Book>, records: seq<BorrowingRecord>, studentId: string)
    requires |a| == |b|
    requires forall i :: 0 <= i < |a| ==> a[i].id == b[i].id && a[i].title == b[i].title
    ensures BorrowedTitles(a, records, studentId) == BorrowedTitles(b, records, studentId)
  {
    var own := Filter(records, OwnedBy(studentId));
    forall k | 0 <= k < |own| ensures TitleFor(a)(own[k]) == TitleFor(b)(own[k]) {
      TitleOfAgree(a, b, own[k].bookId);
    }
    assert Map(own, TitleFor(a)) == Map(own, TitleFor(b));
  }

  /** A record added at the end, with the catalogue changed only in ways that keep ids and titles, adds its title at the end. */
  lemma BorrowedTitlesSnocAgree(a: seq<Book>, b: seq<Book>, records: seq<BorrowingRecord>, rec: BorrowingRecord, studentId: string)
    requires |a| == |b|
    requires forall i :: 0 <= i < |a| ==> a[i].id == b[i].id && a[i].title == b[i].title
    ensures BorrowedTitles(a, records + [rec], studentId) ==
      BorrowedTitles(b, records, studentId) +
      (if rec.studentId == studentId && TitleOf(b, rec.bookId) != "" then [TitleOf(b, rec.bookId)] else [])
  {
    BorrowedTitlesAgree(a, b, records + [rec], studentId);
    BorrowedTitlesAppend(b, records, rec, studentId);
  }

  /** Borrowing a book adds its title, when it has one, at the end of the borrower's history. */
  lemma BorrowAddsTitle(st: LibraryState, bookId: string, studentId: string, days: int, now: nat)
    ensures var r := st.BorrowBook(bookId, studentId, days, now);
      BorrowedTitles(r.books, r.records, studentId) ==
      BorrowedTitles(st.books, st.records, studentId) + (if TitleOf(st.books, bookId) != "" then [TitleOf(st.books, bookId)] else [])
  {
    var r := st.BorrowBook(bookId, studentId, days, now);
    var rec := r.records[|st.records|];
    assert r.records == st.records + [rec];
    assert forall i :: 0 <= i < |r.books| ==> r.books[i].id == st.books[i].id && r.books[i].title == st.books[i].title;
    BorrowedTitlesSnocAgree(r.books, st.books, st.records, rec, studentId);
  }

  /** The number of the student's records whose book has a title. */
  function TitledLoans(books: seq<Book>, records: seq<BorrowingRecord>, studentId: string): nat {
    if records == [] then 0
    else
      var last := records[|records| - 1];
      TitledLoans(books, records[..|records| - 1], studentId) +
      (if last.studentId == studentId && TitleOf(books, last.bookId) != "" then 1 else 0)
  }

  /** The list holds one title per record of the student whose book has one. */
  lemma {:induction false} BorrowedTitlesCount(books: seq<Book>, records: seq<BorrowingRecord>, studentId: string)
    ensures |BorrowedTitles(books, records, studentId)| == TitledLoans(books, records, studentId)
  {
    if records != [] {
      var init, last := records[..|records| - 1], records[|records| - 1];
      assert records == init + [last];
      BorrowedTitlesCount(books, init, studentId);
      BorrowedTitlesAppend(books, init, last, studentId);
    }
  }

  /** The three kinds of prompt the assistant sends. */
  datatype Prompt =
    | History(name: string, titles: seq<string>)   // a student with borrowed titles
    | Newcomer(name: string)                       // a student with none
    | Query(text: string)                          // the typed request, sent as is

  const HistoryOpening: string := "Học sinh "
  const HistoryMiddle: string := " đã từng mượn các cuốn sách sau: "
  const HistoryClosing: string := ". Dựa vào đó, hãy đề xuất những cuốn sách tương tự hoặc cùng thể loại mà họ có thể thích."
  const NewcomerClosing: string := " là học sinh mới và chưa mượn cuốn sách nào. Hãy đề xuất một vài cuốn sách hay, dễ đọc thuộc nhiều thể loại khác nhau để bắt đầu."

  /** The text of a prompt, the two student prompts being template strings. */
  function PromptText(p: Prompt): string {
    match p
    case History(name, titles) => HistoryOpening + name + HistoryMiddle + Join(titles, ", ") + HistoryClosing
    case Newcomer(name) => HistoryOpening + name + NewcomerClosing
    case Query(text) => text
  }

  /** A student's prompt names the student and, with a history, every title; a query is sent unchanged. */
  lemma PromptMentions(p: Prompt)
    ensures p.History? ==> Includes(PromptText(p), p.name) && forall k :: 0 <= k < |p.titles| ==> Includes(PromptText(p), p.titles[k])
    ensures p.Newcomer? ==> Includes(PromptText(p), p.name)
    ensures p.Query? ==> PromptText(p) == p.text
  {
    match p
    case History(name, titles) =>
      var j := Join(titles, ", ");
      var front := HistoryOpening + name;
      IncludesSelf(name);
      IncludesAppend(HistoryOpening, name, name);
      IncludesAppend(front, HistoryMiddle, name);
      IncludesAppend(front + HistoryMiddle, j, name);
      IncludesAppend(front + HistoryMiddle + j, HistoryClosing, name);
      forall k | 0 <= k < |titles|
        ensures Includes(PromptText(p), titles[k])
      {
        JoinIncludes(titles, ", ", k);
        IncludesAppend(front + HistoryMiddle, j, titles[k]);
        IncludesAppend(front + HistoryMiddle + j, HistoryClosing, titles[k]);
      }
    case Newcomer(name) =>
      IncludesSelf(name);
      IncludesAppend(HistoryOpening, name, name);
      IncludesAppend(HistoryOpening + name, NewcomerClosing, name);
    case Query(_) =>
  }

  /** What pressing the button does before any request: nothing, the missing-input error, or a request with this prompt. */
  datatype Decision = Silent | MissingInput | Ask(prompt: Prompt)

  /**
   * `handleGetRecommendations`'s choice of prompt: a selected student wins over
   * the query (and an unknown student id does nothing); a student's prompt
   * depends on whether they have borrowed titles; otherwise the query is the
   * prompt, and without it the input is missing.
   */
  function Decide(students: seq<Student>, books: seq<Book>, records: seq<BorrowingRecord>,
                  selectedStudent: string, customQuery: string): (d: Decision)
    ensures d == MissingInput <==> selectedStudent == "" && customQuery == ""
    ensures d == Silent <==> selectedStudent != "" && FindStudent(students, selectedStudent).None?
    ensures d.Ask? && d.prompt.Query? <==> selectedStudent == "" && customQuery != ""
    ensures d.Ask? && d.prompt.Query? ==> d.prompt.text == customQuery
    ensures d.Ask? && !d.prompt.Query? ==>
      && FindStudent(students, selectedStudent).Some?
      && d.prompt.name == FindStudent(students, selectedStudent).value.name
      && (d.prompt.History? <==> BorrowedTitles(books, records, selectedStudent) != [])
      && (d.prompt.History? ==> d.prompt.titles == BorrowedTitles(books, records, selectedStudent))
  {
    if selectedStudent != "" then
      match FindStudent(students, selectedStudent)
      case None => Silent
      case Some(s) =>
        var titles := BorrowedTitles(books, records, selectedStudent);
        if |titles| > 0 then Ask(History(s.name, titles)) else Ask(Newcomer(s.name))
    else if customQuery != "" then Ask(Query(customQuery))
    else MissingInput
  }

  /** A selected student takes precedence: the query typed does not matter. */
  lemma StudentTakesPrecedence(students: seq<Student>, books: seq<Book>, records: seq<BorrowingRecord>,
                               selectedStudent: string, q1: string, q2: string)
    requires selectedStudent != ""
    ensures Decide(students, books, records, selectedStudent, q1) == Decide(students, books, records, selectedStudent, q2)
  {
  }

  /** A request for a student names that student and, with a history, each title borrowed. */
  lemma StudentPromptMentions(students: seq<Student>, books: seq<Book>, records: seq<BorrowingRecord>, selectedStudent: string, q: string)
    requires selectedStudent != "" && FindStudent(students, selectedStudent).Some?
    ensures var d := Decide(students, books, records, selectedStudent, q);
      var titles := BorrowedTitles(books, records, selectedStudent);
      && d.Ask?
      && Includes(PromptText(d.prompt), FindStudent(students, selectedStudent).value.name)
      && forall k :: 0 <= k < |titles| ==> Includes(PromptText(d.prompt), titles[k])
  {
    PromptMentions(Decide(students, books, records, selectedStudent, q).prompt);
  }

  /** The assistant component's state. */
  class AssistantView {
    var selectedStudent: string
    var customQuery: string
    var isLoading: bool
    var results: seq<Recommendation>
    var error: string

    /** At most one of the two inputs is filled in. */
    predicate Exclusive()
      reads this
    {
      selectedStudent == "" || customQuery == ""
    }

    constructor ()
      ensures selectedStudent == "" && customQuery == "" && !isLoading && results == [] && error == ""
      ensures Exclusive()
    {
      selectedStudent := "";
      customQuery := "";
      isLoading := false;
      results := [];
      error := "";
    }

    /** The button is enabled when no request is under way and some input is filled in. */
    predicate CanRequest()
      reads this
    {
      !isLoading && (selectedStudent != "" || customQuery != "")
    }

    /** The student picker's `onChange`: picking a student clears the query. */
    method SelectStudent(id: string)
      modifies this
      ensures selectedStudent == id && customQuery == ""
      ensures isLoading == old(isLoading) && results == old(results) && error == old(error)
      ensures Exclusive()
    {
      selectedStudent := id;
      customQuery := "";
    }

    /** The query box's `onChange`: typing clears the picked student. */
    method TypeQuery(q: string)
      modifies this
      ensures customQuery == q && selectedStudent == ""
      ensures isLoading == old(isLoading) && results == old(results) && error == old(error)
      ensures Exclusive()
    {
      customQuery := q;
      selectedStudent := "";
    }

    /**
     * The synchronous part of `handleGetRecommendations`: nothing for an
     * unknown student, the error without any input, and otherwise loading
     * starts, the error and the results are cleared and the prompt is returned.
     */
    method BeginRequest(students: seq<Student>, books: seq<Book>, records: seq<BorrowingRecord>) returns (request: Option<string>)
      modifies this
      ensures selectedStudent == old(selectedStudent) && customQuery == old(customQuery)
      ensures var d := Decide(students, books, records, old(selectedStudent), old(customQuery));
        && (d == Silent ==> request.None? && isLoading == old(isLoading) && results == old(results) && error == old(error))
        && (d == MissingInput ==> request.None? && isLoading == old(isLoading) && results == old(results) && error == MissingInputMessage)
        && (d.Ask? ==> request == Some(PromptText(d.prompt)) && isLoading && results == [] && error == "")
    {
      var d := Decide(students, books, records, selectedStudent, customQuery);
      match d {
        case Silent =>
          request := None;
        case MissingInput =>
          error := MissingInputMessage;
          request := None;
        case Ask(prompt) =>
          isLoading := true;
          error := "";
          results := [];
          request := Some(PromptText(prompt));
      }
    }

    /** Once the request settles: the recommendations are shown, or the failure's message; loading ends either way. */
    method CompleteRequest(outcome: Result<seq<Recommendation>>)
      modifies this
      ensures !isLoading
      ensures selectedStudent == old(selectedStudent) && customQuery == old(customQuery)
      ensures outcome.Ok? ==> results == outcome.value && error == old(error)
      ensures outcome.Failed? ==> results == old(results) && error == outcome.message
    {
      match outcome {
        case Ok(recs) => results := recs;
        case Failed(message) => error := message;
      }
      isLoading := false;
    }
  }

  /** An enabled button never shows the missing-input error. */
  lemma EnabledButtonHasInput(students: seq<Student>, books: seq<Book>, records: seq<BorrowingRecord>,
                              selectedStudent: string, customQuery: string)
    requires selectedStudent != "" || customQuery != ""
    ensures Decide(students, books, records, selectedStudent, customQuery) != MissingInput
  {
  }

  /** Whatever the two inputs were set to last, they are never both filled in, so a request always comes from one source. */
  method TypeThenPick(view: AssistantView, q: string, id: string)
    modifies view
    ensures view.Exclusive() && view.selectedStudent == id && view.customQuery == ""
  {
    view.TypeQuery(q);
    view.SelectStudent(id);
  }
}
