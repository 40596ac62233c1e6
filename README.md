# School library manager: a Dafny model of its bookkeeping

This project models the in-memory bookkeeping of a school library web app. The app keeps three collections: books, students and borrowing records. It also models the views that read and change them:

- the borrowing desk;
- the book and student lists, with their forms;
- the AI reading assistant's prompt selection;
- the dashboard statistics;
- the seed data the app starts with.

Everything is sequential and total. Time is an integer number of milliseconds passed in as `now`, and the ids made from `Date.now()` are the decimal form of that clock value.

Each component and source file has its own module. Alongside them sit shared helper modules (`Options`, `Seqs`, `Text`, `Lookups`, `Dialog`) for the building blocks several files use:

- `Types`: the entity shapes of `types.ts`, with `Copies(b) = quantity + |borrowedBy|` and the overdue test.
- `Options`, `Seqs`, `Text`, `Lookups`: the JavaScript building blocks the code uses:
  - `Option`/`Result`;
  - `map`, `filter`, `find`, `some`, `new Set`, `reverse`;
  - ASCII `toLowerCase`/`includes`;
  - `parseInt`, `toString`;
  - `find(...)?.title`.
- `App` (App.tsx):
  - `LibraryState` and its pure transitions, one per callback;
  - the invariants `Consistent`, `RefIntegrity` and `UniqueRecordIds`, with lemmas about which operations keep them;
  - the class `Library`, whose fields are the three `useState` collections and whose methods replace them.
- `Dialog`: the add/edit/delete/error modal state machine. BookList.tsx and MemberList.tsx share it.
- `BookList`, `MemberList`, `BookForm`, `MemberForm`, `BorrowReturn`, `AIAssistant`, `Dashboard`: one module per component. Each has a class for the component's state and pure functions for its derived values.
- `Seed` (constants.ts): the literal seed data, with lemmas that it is a sound starting state.

## Model

| member | source | states |
|---|---|---|
| Types.Copies | components/Dashboard.tsx:26 | a book's copies are those on the shelf plus those lent out |
| Types.Overdue | components/Dashboard.tsx:28 | a loan is overdue once its due date lies before the current time |
| App.ImportIdsDistinct | App.tsx:25 | two import entries with different indices get different `${t}-${index}` ids, whatever clock reading each got |
| App.LibraryState.AddBook | App.tsx:18-20 | exactly one book is appended, with id `Date.now()`, no borrowers and the draft's fields; the old books keep their order; students and records are untouched |
| App.LibraryState.ImportBooks | App.tsx:22-30 | the imported books are appended in input order, entry `k`, read at clock `t_k`, with id `${t_k}-${k}`, no borrowers, and a cover seeded by the ISBN, or by `t_k + k` when the ISBN is empty; nothing else changes |
| App.LibraryState.UpdateBook | App.tsx:32-34 | every book with the given id is replaced and every other book kept in place; the length is kept; with no matching id the state is unchanged |
| App.LibraryState.CanDeleteBook | App.tsx:36-38 | true iff no record has that `bookId` |
| App.LibraryState.DeleteBook | App.tsx:40-42 | the books left are those with another id, in their old order and each as often as before, and none with that id; records and students are untouched; with no matching id the state is unchanged |
| App.LibraryState.AddStudent | App.tsx:44-46 | exactly one student is appended, with id `Date.now()` and the draft's fields; nothing else changes |
| App.LibraryState.UpdateStudent | App.tsx:48-50 | every student with the given id is replaced; order and length are kept; with no matching id the state is unchanged |
| App.LibraryState.CanDeleteStudent | App.tsx:52-54 | true iff no record has that `studentId` |
| App.LibraryState.DeleteStudent | App.tsx:56-58 | the students left are those with another id, in their old order and each as often as before, and none with that id; books and records are untouched; with no matching id the state is unchanged |
| App.LibraryState.ImportStudents | App.tsx:60-69 | the imported students are appended in input order, entry `k`, read at clock `t_k`, with id `${t_k}-${k}`, empty email and phone, and join date `t_k` |
| App.LibraryState.BorrowBook | App.tsx:72-90 | one record `(now, bookId, studentId, now, now + days·MsPerDay)` is appended after the unchanged old records; each book with that id has one copy fewer on the shelf and `studentId` appended to its borrowers, with no stock check; every other book is unchanged; `Copies` is kept for every book |
| App.LibraryState.ReturnBook | App.tsx:92-102 | an unknown record id changes nothing; otherwise the records left are exactly those with another id, and the record's book gets one more copy on the shelf and loses every occurrence of the student among its borrowers; ids and students are untouched |
| App.ImportedBookIdsDistinct | App.tsx:22-30 | the ids one book import hands out are pairwise distinct |
| App.ImportedStudentIdsDistinct | App.tsx:60-69 | the ids one student import hands out are pairwise distinct |
| App.BorrowThenReturn | App.tsx:72-102 | a borrow by a student not already among the book's borrowers, followed by the return of the record it created, restores the state exactly |
| App.ReturnCopies | App.tsx:96-100 | a return keeps the returned book's `Copies` iff the student occurred exactly once among its borrowers |
| App.ReturnKeepsOtherCopies | App.tsx:96-100 | a return leaves the `Copies` of every other book, and all book ids, unchanged |
| App.BorrowKeepsConsistent | App.tsx:84-89 | a borrow keeps every book's borrowers equal, as a multiset, to the students of its records |
| App.ReturnKeepsConsistent | App.tsx:92-101 | with unique record ids, and the student holding that book once, a return keeps the borrowers in step with the records |
| App.DoubleBorrowThenReturn | App.tsx:85-100 | two loans of one book to one student keep the bookkeeping consistent; returning one of them breaks it (the other loan stays on record, but the student is no longer a borrower), and the book counts 1 copy instead of 2 |
| App.BorrowWithoutStock | App.tsx:85-89 | borrowing a book with no copy on the shelf drives its quantity to -1 |
| App.BorrowKeepsStock | App.tsx:85-89 | when only books with a copy on the shelf are borrowed, no quantity becomes negative |
| App.DeleteBookIntegrity | App.tsx:36-42 | from a state whose records all refer to existing entries, a book delete keeps that so iff the delete check allows it |
| App.DeleteStudentIntegrity | App.tsx:52-58 | from a state whose records all refer to existing entries, a student delete keeps that so iff the delete check allows it |
| App.KeptBooksIntegrity | App.tsx:36-42 | keeping exactly the books with another id keeps every record's references intact iff no record uses that id |
| App.KeptStudentsIntegrity | App.tsx:52-58 | keeping exactly the students with another id keeps every record's references intact iff no record uses that id |
| App.DeleteKeepsConsistent | App.tsx:40-42 | deleting a book or a student keeps the borrower bookkeeping of the books that remain |
| App.BorrowIntegrity | App.tsx:72-84 | a borrow keeps every record referring to an existing book and student iff the book and the student exist |
| App.ReturnIntegrity | App.tsx:92-96 | a return keeps every record referring to an existing book and student |
| App.UpdateBookKeepsInvariants | App.tsx:32-34 | an update that keeps the replaced books' borrowers keeps both invariants |
| App.AddBookKeepsInvariants | App.tsx:18-20 | adding a book whose new id no record uses keeps both invariants |
| App.ImportBooksKeepsInvariants | App.tsx:22-30 | a book import whose new ids no record uses keeps both invariants |
| App.StudentIdsKeptIntegrity | App.tsx:44-69 | a student list that keeps every old student's id at its position keeps every record's references intact |
| App.AddStudentKeepsInvariants | App.tsx:44-46 | adding a student keeps both invariants |
| App.UpdateStudentKeepsInvariants | App.tsx:48-50 | an update keeps every student id in place, so it keeps both invariants |
| App.ImportStudentsKeepsInvariants | App.tsx:60-69 | a student import keeps both invariants |
| App.Library.constructor | App.tsx:14-16 | the collections start as the given initial state |
| App.Library.AddBook | App.tsx:18-20 | the new state is `AddBook` of the old one |
| App.Library.ImportBooks | App.tsx:22-30 | the new state is `ImportBooks` of the old one |
| App.Library.UpdateBook | App.tsx:32-34 | the new state is `UpdateBook` of the old one |
| App.Library.CheckCanDeleteBook | App.tsx:36-38 | returns true iff no record refers to the book; the state is unchanged |
| App.Library.DeleteBook | App.tsx:40-42 | the new state is `DeleteBook` of the old one |
| App.Library.AddStudent | App.tsx:44-46 | the new state is `AddStudent` of the old one |
| App.Library.UpdateStudent | App.tsx:48-50 | the new state is `UpdateStudent` of the old one |
| App.Library.CheckCanDeleteStudent | App.tsx:52-54 | returns true iff no record refers to the student; the state is unchanged |
| App.Library.DeleteStudent | App.tsx:56-58 | the new state is `DeleteStudent` of the old one |
| App.Library.ImportStudents | App.tsx:60-69 | the new state is `ImportStudents` of the old one |
| App.Library.BorrowBook | App.tsx:72-90 | the new state is `BorrowBook` of the old one |
| App.Library.ReturnBook | App.tsx:92-102 | the new state is `ReturnBook` of the old one |
| Text.ParseInt | components/BorrowReturn.tsx:25 | `parseInt(s, 10)` is `NaN` iff no digit follows the optional sign; otherwise the value of the leading digits, negated after a `-` |
| Text.ParseNatToString | components/BorrowReturn.tsx:25 | `parseInt(n.toString(), 10)` gives back `n` |
| Text.NatToStringInjective | App.tsx:19 | different clock readings give different `Date.now().toString()` ids |
| Lookups.TitleOf | components/BorrowReturn.tsx:125 | `''` when no book has that id; otherwise the title of the first book with that id; a non-empty title belongs to a book with that id |
| Lookups.NameOf | components/BorrowReturn.tsx:126 | `''` when no student has that id; otherwise the name of the first student with that id; a non-empty name belongs to a student with that id |
| Lookups.TitleOfAgree | components/AIAssistant.tsx:34 | the title found for an id depends only on the ids and titles of the catalogue, position by position |
| Dialog.DeleteRequested | components/BookList.tsx:79-85 | a delete request opens the `'delete'` dialog iff the check allowed it and the `'error'` dialog otherwise, holding the item either way |
| Dialog.ConfirmTarget | components/BookList.tsx:87-92 | confirming deletes an item only from the `'delete'` dialog with data, and then that item |
| Dialog.GatedDelete | components/MemberList.tsx:70-76 | a request followed by a confirmation deletes the item iff the check allowed it |
| Dialog.OnlyConfirmationDeletes | components/MemberList.tsx:147-152 | the closed, add, edit and error dialogs never lead to a delete |
| BookList.FilterBooks | components/BookList.tsx:139-144 | the books shown are, in catalogue order, exactly those whose title, author or ISBN contains the term, ignoring case, each as often as in the catalogue |
| BookList.FilterBooksEmptyTerm | components/BookList.tsx:139-144 | an empty search shows the whole catalogue |
| BookList.Available | components/BookList.tsx:21 | a book is shown as available iff a copy is on the shelf |
| BookList.Borrowers | components/BookList.tsx:22 | the card's names follow `borrowedBy` order; each is the non-empty name looked up for some borrower id, and every borrower id with a name has its name on the card |
| BookList.BorrowersAppend | components/BookList.tsx:22 | a borrower id added at the end adds its name, when it has one, at the end of the card |
| BookList.BorrowersCount | components/BookList.tsx:22 | the card lists one name per borrower id that names a student with a name |
| BookList.BorrowAddsBorrowerName | components/BookList.tsx:22 | after a borrow, the borrowed book's card lists the borrower's name, when they have one, after the names it listed before |
| BookList.BorrowersComplete | components/BookList.tsx:22 | when every borrower id names a student with a name, the card lists one name per borrower |
| BookList.BookListView.constructor | components/BookList.tsx:69-70 | the dialog starts closed and the search empty |
| BookList.BookListView.OpenAddModal | components/BookList.tsx:75 | opens the add dialog; the search is kept |
| BookList.BookListView.OpenEditModal | components/BookList.tsx:76 | opens the edit dialog for the book |
| BookList.BookListView.CloseModal | components/BookList.tsx:77 | closes the dialog |
| BookList.BookListView.HandleDeleteRequest | components/BookList.tsx:79-85 | opens the `'delete'` dialog iff no record refers to the book, the `'error'` dialog otherwise |
| BookList.BookListView.ConfirmDelete | components/BookList.tsx:87-92 | deletes the dialog's book only from the `'delete'` dialog, otherwise leaves the library alone, and always closes the dialog |
| BookList.BookListView.HandleSave | components/BookList.tsx:130-137 | a whole book updates the library, a draft is added, and the dialog closes |
| BookList.BookListView.SetSearchTerm | components/BookList.tsx:215 | stores the term; the dialog is kept |
| BookList.RequestThenConfirm | components/BookList.tsx:79-92 | a request and its confirmation delete the book iff no record refers to it, so every record still refers to an existing book |
| MemberList.ClassNames | components/MemberList.tsx:163 | `'all'` first, then each class of the students exactly once, in order of first appearance |
| MemberList.FilterStudents | components/MemberList.tsx:165-169 | the students shown are, in list order, exactly those whose name or address contains the term and whose class is the one picked, or any class for `'all'`, each as often as in the list |
| MemberList.FilterStudentsShowsAll | components/MemberList.tsx:165-169 | an empty search with `'all'` picked shows every student |
| MemberList.FilterStudentsByClass | components/MemberList.tsx:168 | picking a class shows only students of that class |
| MemberList.MemberListView.constructor | components/MemberList.tsx:58-60 | the dialog starts closed, the search empty and the class `'all'` |
| MemberList.MemberListView.OpenAddModal | components/MemberList.tsx:66 | opens the add dialog |
| MemberList.MemberListView.OpenEditModal | components/MemberList.tsx:67 | opens the edit dialog for the student |
| MemberList.MemberListView.CloseModal | components/MemberList.tsx:68 | closes the dialog |
| MemberList.MemberListView.HandleDeleteRequest | components/MemberList.tsx:70-76 | opens the `'delete'` dialog iff no record refers to the student, the `'error'` dialog otherwise |
| MemberList.MemberListView.ConfirmDelete | components/MemberList.tsx:147-152 | deletes the dialog's student only from the `'delete'` dialog, and always closes the dialog |
| MemberList.MemberListView.HandleSave | components/MemberList.tsx:154-161 | a whole student updates the library, a draft is added, and the dialog closes |
| MemberList.MemberListView.SetSearchTerm | components/MemberList.tsx:246 | stores the term |
| MemberList.MemberListView.SetSelectedClass | components/MemberList.tsx:253 | stores the class picked |
| MemberList.RequestThenConfirm | components/MemberList.tsx:70-76 | a request and its confirmation delete the student iff no record refers to them, so every record still refers to an existing student |
| BookForm.EmptyForm | components/BookForm.tsx:14-22 | a blank form has empty text fields and quantity 1 |
| BookForm.FormFor | components/BookForm.tsx:26-42 | editing starts from the book's fields, adding from the blank form |
| BookForm.Changed | components/BookForm.tsx:44-47 | only the named field changes: text fields take the value verbatim, the quantity takes what `parseInt` reads |
| BookForm.ChangedQuantity | components/BookForm.tsx:46 | typing the decimal form of `n` into the quantity stores `n` and changes nothing else |
| BookForm.ChangedSameText | components/BookForm.tsx:46 | retyping a text field's own value changes nothing |
| BookForm.Fetched | components/BookForm.tsx:58-65 | a lookup sets title, author, description and genre from the details, `''` where missing, and the cover seeded by the ISBN; ISBN and quantity are kept |
| BookForm.Submit | components/BookForm.tsx:73-81 | an edit is the book with the form's fields, with id and borrowers taken from the book; an add is the form, keeping its cover when non-empty and otherwise seeding one by the ISBN or, without one, by the clock |
| BookForm.SubmitUnchanged | components/BookForm.tsx:26-42 | opening a book and submitting unchanged hands back that very book |
| BookForm.SubmitEditKeepsBorrowers | components/BookForm.tsx:75-76 | a submitted edit applied to the library changes only that book's form fields and keeps its borrowers |
| BookForm.BookFormView.constructor | components/BookForm.tsx:14-42 | the form starts as `FormFor(book)`, not loading and without error |
| BookForm.BookFormView.HandleChange | components/BookForm.tsx:44-47 | the fields become `Changed` of the old ones |
| BookForm.BookFormView.BeginFetch | components/BookForm.tsx:49-57 | with an empty ISBN, the error is set and no request is made; otherwise loading starts, the error clears and the ISBN is requested |
| BookForm.BookFormView.CompleteFetch | components/BookForm.tsx:57-70 | a result is merged as `Fetched`, a failure shows its message, and loading ends either way |
| BookForm.BookFormView.HandleSubmit | components/BookForm.tsx:73-81 | returns `Submit` of the form: an edit keeps the book's id and borrowers, an add carries the form's fields |
| MemberForm.EmptyForm | components/MemberForm.tsx:12-22 | a blank form has empty fields, except gender `'Nam'` |
| MemberForm.FormFor | components/MemberForm.tsx:24-42 | editing starts from the student's fields, adding from the blank form |
| MemberForm.Changed | components/MemberForm.tsx:44-47 | the named field takes the value and every other field keeps its own |
| MemberForm.FormExtensional | components/MemberForm.tsx:44-47 | two forms that agree on every field are equal |
| MemberForm.ChangedLaws | components/MemberForm.tsx:44-47 | retyping a field's value changes nothing, and a later change of a field overrides an earlier one |
| MemberForm.Submit | components/MemberForm.tsx:49-56 | an edit is the student with the form's fields, keeping id and join date; an add is the form with join date now |
| MemberForm.SubmitUnchanged | components/MemberForm.tsx:24-42 | opening a student and submitting unchanged hands back that very student |
| MemberForm.SubmitNewThenAdd | components/MemberForm.tsx:53-54 | an added student carries the form's fields and the submit time as join date |
| MemberForm.MemberFormView.constructor | components/MemberForm.tsx:12-42 | the form starts as `FormFor(student)` |
| MemberForm.MemberFormView.HandleChange | components/MemberForm.tsx:44-47 | the fields become `Changed` of the old ones |
| MemberForm.MemberFormView.HandleSubmit | components/MemberForm.tsx:49-56 | returns `Submit` of the form; an edit keeps the id, an add stamps the join date |
| BorrowReturn.ChosenDays | components/BorrowReturn.tsx:25 | the duration read from the custom input when `'custom'` is picked, from the option otherwise, as `parseInt` reads it |
| BorrowReturn.ValidDays | components/BorrowReturn.tsx:26 | a duration is valid iff it parsed and lies in 1..730 |
| BorrowReturn.DueDatePreview | components/BorrowReturn.tsx:24-36 | a due date is shown iff the chosen duration is valid, and then it is `now` plus that many days, between 1 and 730 days ahead |
| BorrowReturn.BorrowDecision | components/BorrowReturn.tsx:39-56 | lends iff a book and a student are selected and the duration parses to 1..730; otherwise raises the selection alert, or the duration alert when both are selected |
| BorrowReturn.PreviewMatchesLoan | components/BorrowReturn.tsx:24-46 | with both selected, a due date is previewed iff the button lends, and it is the due date of the loan made |
| BorrowReturn.PresetsValid | components/BorrowReturn.tsx:220-224 | every preset of the picker is a valid duration |
| BorrowReturn.AfterCustomChange | components/BorrowReturn.tsx:58-74 | `''` is accepted; a value out of 0..730 or not a number is ignored; one in range is kept, shown without leading zero when longer than one character |
| BorrowReturn.CustomChangeKeepsRange | components/BorrowReturn.tsx:58-74 | typing keeps the custom input empty or in 0..730 |
| BorrowReturn.CustomChangeDropsZeros | components/BorrowReturn.tsx:68-70 | a typed number with a leading zero is stored without it |
| BorrowReturn.AfterCustomBlur | components/BorrowReturn.tsx:76-83 | the result always parses to 1..730: missing or below 1 becomes `'1'`, above 730 becomes `'730'`, in range stays |
| BorrowReturn.BlurMakesCustomValid | components/BorrowReturn.tsx:76-83 | after a blur, a custom loan is always allowed |
| BorrowReturn.BlurIdempotent | components/BorrowReturn.tsx:76-83 | a second blur changes nothing |
| BorrowReturn.AvailableBooks | components/BorrowReturn.tsx:85 | exactly the books with a copy on the shelf, in catalogue order, each as often as in the catalogue |
| BorrowReturn.FilteredAvailableBooks | components/BorrowReturn.tsx:87-92 | exactly the books with a copy on the shelf whose title or author contains the term, ignoring case, in order, each as often as in the catalogue |
| BorrowReturn.EmptySearchOffersAvailable | components/BorrowReturn.tsx:87-92 | an empty search offers every available book |
| BorrowReturn.FilteredStudents | components/BorrowReturn.tsx:94-98 | exactly the students whose name contains the term, ignoring case, in order, each as often as in the list |
| BorrowReturn.OfferedBookKeepsStock | components/BorrowReturn.tsx:85-92 | lending a book the dropdown offers never makes a quantity negative |
| BorrowReturn.LoanRows | components/BorrowReturn.tsx:124-128 | the listed loans are, in record order, the records whose book and student exist with a title and a name, each with that title and name |
| BorrowReturn.AllLoansListed | components/BorrowReturn.tsx:124-128 | when every record's book and student exist, every record is listed |
| BorrowReturn.FreshLoanNotOverdue | components/BorrowReturn.tsx:266 | a loan just made is not overdue before its duration has passed |
| BorrowReturn.BorrowPanel.constructor | components/BorrowReturn.tsx:13-22 | nothing selected, empty searches, both dropdowns closed, option `'14'`, custom `'1'` |
| BorrowReturn.BorrowPanel.HandleBorrow | components/BorrowReturn.tsx:39-56 | the outcome is `BorrowDecision`; a loan borrows in the library and resets selections, searches and durations; an alert changes nothing |
| BorrowReturn.BorrowPanel.ClearSelection | components/BorrowReturn.tsx:47-52 | selections and searches cleared, option `'14'`, custom `'1'` |
| BorrowReturn.BorrowPanel.SetDurationOption | components/BorrowReturn.tsx:217 | stores the option picked; nothing else changes |
| BorrowReturn.BorrowPanel.HandleCustomDurationChange | components/BorrowReturn.tsx:58-74 | the custom input becomes `AfterCustomChange` of the old one; nothing else changes |
| BorrowReturn.BorrowPanel.HandleCustomDurationBlur | components/BorrowReturn.tsx:76-83 | the custom input becomes `AfterCustomBlur` of the old one; nothing else changes |
| BorrowReturn.BorrowPanel.HandleSelectBook | components/BorrowReturn.tsx:100-104 | selects the book, shows its title and closes the book dropdown |
| BorrowReturn.BorrowPanel.HandleBookSearchChange | components/BorrowReturn.tsx:106-110 | stores the term, drops the selected book and opens the dropdown |
| BorrowReturn.BorrowPanel.HandleSelectStudent | components/BorrowReturn.tsx:112-116 | selects the student, shows the name and closes the student dropdown |
| BorrowReturn.BorrowPanel.HandleStudentSearchChange | components/BorrowReturn.tsx:118-122 | stores the term, drops the selected student and opens the dropdown |
| BorrowReturn.BorrowPanel.HandleReturn | components/BorrowReturn.tsx:277 | returns the row's record in the library |
| BorrowReturn.SearchAfterSelectDeselects | components/BorrowReturn.tsx:100-110 | typing after selecting a book leaves the button raising the selection alert and the library unchanged |
| BorrowReturn.BlurThenBorrow | components/BorrowReturn.tsx:39-83 | with both selected, a blurred custom duration always lends, for 1..730 days |
| AIAssistant.Join | components/AIAssistant.tsx:38 | joining no titles gives `''`, one title gives that title |
| AIAssistant.JoinIncludes | components/AIAssistant.tsx:38 | every joined title occurs in the joined text |
| AIAssistant.BorrowedTitles | components/AIAssistant.tsx:33-35 | in record order, each title is the non-empty title looked up for one of the student's records, every such record's title is in the list, and the list is empty iff none of the student's records has a titled book |
| AIAssistant.BorrowedTitlesAppend | components/AIAssistant.tsx:33-35 | a record added at the end adds its book's title at the end when the record is the student's and the book has a title, and changes nothing otherwise |
| AIAssistant.BorrowedTitlesCount | components/AIAssistant.tsx:33-35 | the list holds one title per record of the student whose book has a title |
| AIAssistant.BorrowedTitlesAgree | components/AIAssistant.tsx:34 | catalogues that agree on ids and titles give the same list |
| AIAssistant.BorrowedTitlesSnocAgree | components/AIAssistant.tsx:33-35 | a record added at the end, with the catalogue changed only in ways that keep ids and titles, adds its title at the end |
| AIAssistant.BorrowAddsTitle | components/AIAssistant.tsx:33-35 | after a borrow, the borrower's titles are the old ones followed by the borrowed book's title, when it has one |
| AIAssistant.PromptText | components/AIAssistant.tsx:37-47 | the history prompt, the newcomer prompt and the typed query, as the source's template strings |
| AIAssistant.PromptMentions | components/AIAssistant.tsx:37-42 | a history prompt names the student and every title, a newcomer prompt names the student, a query is sent unchanged |
| AIAssistant.Decide | components/AIAssistant.tsx:26-49 | no input gives the error; an unknown student does nothing; a query alone is sent as it is; a known student gets the history prompt iff they have borrowed titles, and the newcomer prompt otherwise |
| AIAssistant.StudentTakesPrecedence | components/AIAssistant.tsx:29-45 | with a student selected, the query typed does not matter |
| AIAssistant.StudentPromptMentions | components/AIAssistant.tsx:29-43 | a student's request names that student and each title borrowed |
| AIAssistant.EnabledButtonHasInput | components/AIAssistant.tsx:119 | an enabled button never leads to the missing-input error |
| AIAssistant.AssistantView.constructor | components/AIAssistant.tsx:20-24 | empty inputs and results, not loading, no error |
| AIAssistant.AssistantView.CanRequest | components/AIAssistant.tsx:119 | the button is enabled iff no request is under way and a student or a query is given |
| AIAssistant.AssistantView.SelectStudent | components/AIAssistant.tsx:81-84 | picking a student clears the query |
| AIAssistant.AssistantView.TypeQuery | components/AIAssistant.tsx:108-111 | typing a query clears the student |
| AIAssistant.AssistantView.BeginRequest | components/AIAssistant.tsx:26-54 | sets the error and requests nothing without input; does nothing for an unknown student; otherwise starts loading, clears error and results, and returns the prompt text |
| AIAssistant.AssistantView.CompleteRequest | components/AIAssistant.tsx:55-62 | a result is shown, a failure's message is shown, and loading ends either way |
| AIAssistant.TypeThenPick | components/AIAssistant.tsx:81-111 | the inputs are never both filled in |
| Dashboard.TotalCopies | components/Dashboard.tsx:26 | `totalBooks`: the sum over the catalogue of the copies on the shelf and lent out |
| Dashboard.BorrowedCount | components/Dashboard.tsx:27 | `borrowedBooksCount`: one per record |
| Dashboard.StudentCount | components/Dashboard.tsx:29 | `totalStudents`: one per student |
| Dashboard.TotalCopiesAppend | components/Dashboard.tsx:26 | `totalBooks` is additive over the catalogue |
| Dashboard.TotalCopiesNonNegative | components/Dashboard.tsx:26 | with no negative quantity, `totalBooks` is not negative |
| Dashboard.TotalCopiesKeptByCopies | components/Dashboard.tsx:26 | catalogues with the same copies per position have the same total |
| Dashboard.BorrowKeepsTotal | components/Dashboard.tsx:26 | a borrow leaves `totalBooks` unchanged |
| Dashboard.OverdueRecords | components/Dashboard.tsx:28 | exactly the records due before `now`, in order, each as often as among the records |
| Dashboard.OverdueCount | components/Dashboard.tsx:27-28 | never more than the borrowed count, and equal to it iff every loan is overdue |
| Dashboard.OverdueGrows | components/Dashboard.tsx:28 | as time passes the overdue count never drops |
| Dashboard.EntryFor | components/Dashboard.tsx:32 | the position of the genre's entry, or the length when there is none |
| Dashboard.AddToChart | components/Dashboard.tsx:31-39 | the genre's existing bar, or a new bar at the end, grows by the book's copies; every other bar and every name is kept |
| Dashboard.Chart | components/Dashboard.tsx:31-40 | the reduce from the first book on, one `AddToChart` step per book |
| Dashboard.ChartCorrect | components/Dashboard.tsx:31-40 | the reduce yields each genre once, in order of first appearance, with the copies of all its books |
| Dashboard.GenreData | components/Dashboard.tsx:31-40 | the in-place reduce loop computes the genre chart |
| Dashboard.ChartSumsToTotal | components/Dashboard.tsx:26-40 | the chart's counts add up to `totalBooks` |
| Dashboard.ChartHasOneBarPerGenre | components/Dashboard.tsx:31-40 | a genre has a bar iff some book has it, and no two bars share a genre |
| Dashboard.RecentRecords | components/Dashboard.tsx:78 | the last `min(5, n)` records, newest first |
| Dashboard.NewLoanIsMostRecent | components/Dashboard.tsx:78 | a loan just made heads the recent list |
| Dashboard.RecentLines | components/Dashboard.tsx:78-90 | one line per recent record, with its book's title and its student's name looked up |
| Seed.SeedConsistent | constants.ts:89-204 | every seed book's borrowers are, as a multiset, the students of its seed records |
| Seed.SeedTotals | constants.ts:97-175 | `Copies` are 5, 3 and 10 for book-1, book-2 and book-6, as the source's comments say, and no quantity is negative |
| Seed.SeedIds | constants.ts:4-204 | ids are unique in each collection, and every record refers to an existing book and student |
| Seed.SeedDates | constants.ts:187-202 | every seed loan was made before it falls due |
| Seed.SeedOverdue | constants.ts:188-202 | from loading until four days later, only record-2 is overdue |

## Left out

- Spreadsheet and image import (FileReader, xlsx, base64, the AI extraction): I/O and foreign libraries. The model starts from the list of entries those steps hand to `handleImportBooks`/`handleImportStudents`.
- `services/geminiService.ts` is not part of this model. The ISBN lookup and the recommendation call are parameters: their outcome, success or failure, is an input of `CompleteFetch` and `CompleteRequest`.
- Rendering, CSS and routing (`renderContent`, Sidebar), and the chart library: presentation only.
- The 200 ms `setTimeout` that closes a dropdown on blur: a timer. The dropdown flags are modelled only where the handlers set them.
- Dates: `new Date()` is a millisecond parameter, and `setDate(getDate() + d)` is modelled as adding `d` days of 86,400,000 ms, so daylight-saving shifts are not modelled. Locale formatting (`toLocaleDateString`) is left out.
- `Date.now()` ids: the clock reading is a parameter, so two calls in the same millisecond are not modelled. Within one import every entry gets its own reading, which is at least as general as a single one.
- Separate clock readings within one step are modelled as one reading. The source reads the clock more than once in these places:
  - App.tsx:25 and 27: the id and the cover seed of an imported book;
  - App.tsx:63-64: the id and the join date of an imported student;
  - App.tsx:73-80: the id, the borrow date and the due date of a new record.
- Text.Lower: lower-cases ASCII letters only. JavaScript's `toLowerCase` also folds Vietnamese letters, so the searches are modelled as case-insensitive on A-Z only.
- Text.ParseInt: models an optional sign followed by the leading decimal digits; surrounding whitespace and `NaN` as a number are not modelled (`None` stands for `NaN`).
- BookForm.Changed: when the quantity input does not parse, the model keeps the old quantity; the source stores `NaN`.
- React re-render timing and stale closures (for example `returnBook` reading the records it captured): each handler is one atomic step.
- Returns remove every occurrence of the student among a book's borrowers. The model follows the code here, although a return could be read as giving back one copy; `App.DoubleBorrowThenReturn` shows the effect.
- After a return, `totalBooks` is not kept in general. A student holding two copies of one book loses both on one return, so `Dashboard` states only that borrowing keeps the total.
- The seed's relative dates are taken from one load instant; the source evaluates `new Date()` once per field, a few microseconds apart.
