/**
 * The student list (MemberList.tsx): the class picker, the search by name or
 * address within a class, the dialog that gates deletes, and the dispatch of
 * a submitted form to the library.
 */
module MemberList {
  import opened Options
  import opened Types
  import opened Seqs
  import opened Text
  import opened App
  import opened Dialog
  import opened MemberForm

  /** The picker entry that stands for every class. */
  const AllClasses: string := "all"

  function ClassOf(s: Student): string {
    s.className
  }

  /** `classNames`: `'all'`, then each class of the students once, in order of first appearance. */
  function ClassNames(students: seq<Student>): (names: seq<string>)
    ensures |names| >= 1 && names[0] == AllClasses
    ensures NoDuplicates(names[1..])
    ensures forall c :: c in names[1..] <==> exists i :: 0 <= i < |students| && students[i].className == c
    ensures forall i :: 1 <= i < |names| ==> names[i] in Map(students, ClassOf)
    ensures forall i, j :: 1 <= i < j < |names| ==>
      IndexOf(Map(students, ClassOf), names[i]) < IndexOf(Map(students, ClassOf), names[j])
  {
    var classes := Map(students, ClassOf);
    var d := Distinct(classes);
    var names := [AllClasses] + d;
    assert names[1..] == d;
    forall c ensures c in d <==> exists i :: 0 <= i < |students| && students[i].className == c {
      if c in classes {
        var i :| 0 <= i < |classes| && classes[i] == c;
        assert students[i].className == c;
      }
    }
    names
  }

  /** The student is shown for the search term and the class picked. */
  predicate StudentMatches(s: Student, term: string, selectedClass: string) {
    (Matches(s.name, term) || Matches(s.address, term)) && (selectedClass == AllClasses || s.className == selectedClass)
  }

  /** `filteredStudents`: the students that match, in list order. */
  function FilterStudents(students: seq<Student>, term: string, selectedClass: string): (r: seq<Student>)
    ensures forall s :: s in r <==> s in students && StudentMatches(s, term, selectedClass)
    ensures IsSubseq(r, students)
    ensures forall s :: multiset(r)[s] == if StudentMatches(s, term, selectedClass) then multiset(students)[s] else 0
  {
    FilterMultiset(students, (s: Student) => StudentMatches(s, term, selectedClass));
    Filter(students, (s: Student) => StudentMatches(s, term, selectedClass))
  }

  /** With an empty search and every class picked, the whole list is shown. */
  lemma FilterStudentsShowsAll(students: seq<Student>)
    ensures FilterStudents(students, "", AllClasses) == students
  {
    forall s: Student ensures StudentMatches(s, "", AllClasses) {
      MatchesEmpty(s.name);
    }
    FilterLength(students, (s: Student) => StudentMatches(s, "", AllClasses));
  }

  /** Picking a class shows only students of that class. */
  lemma FilterStudentsByClass(students: seq<Student>, term: string, c: string)
    requires c != AllClasses
    ensures forall s :: s in FilterStudents(students, term, c) ==> s.className == c
  {
  }

  /** The list component's own state. */
  class MemberListView {
    var modal: ModalState<Student>
    var searchTerm: string
    var selectedClass: string

    constructor ()
      ensures modal == Closed() && searchTerm == "" && selectedClass == AllClasses
    {
      modal := Closed();
      searchTerm := "";
      selectedClass := AllClasses;
    }

    function FilteredStudents(students: seq<Student>): seq<Student>
      reads this
    {
      FilterStudents(students, searchTerm, selectedClass)
    }

    method OpenAddModal()
      modifies this
      ensures modal == AddOpened() && searchTerm == old(searchTerm) && selectedClass == old(selectedClass)
    {
      modal := AddOpened();
    }

    method OpenEditModal(student: Student)
      modifies this
      ensures modal == EditOpened(student) && searchTerm == old(searchTerm) && selectedClass == old(selectedClass)
    {
      modal := EditOpened(student);
    }

    method CloseModal()
      modifies this
      ensures modal == Closed() && searchTerm == old(searchTerm) && selectedClass == old(selectedClass)
    {
      modal := Closed();
    }

    /** `handleDeleteRequest`: ask the library whether the student can go, and open the matching dialog. */
    method HandleDeleteRequest(student: Student, lib: Library)
      modifies this
      ensures modal == DeleteRequested(student, lib.State().CanDeleteStudent(student.id))
      ensures modal.kind == Some(Delete) <==> forall k :: 0 <= k < |lib.borrowingRecords| ==> lib.borrowingRecords[k].studentId != student.id
      ensures searchTerm == old(searchTerm) && selectedClass == old(selectedClass)
    {
      var ok := lib.CheckCanDeleteStudent(student.id);
      modal := DeleteRequested(student, ok);
    }

    /** `confirmDelete`: delete the dialog's student only from the confirmation dialog, then close it. */
    method ConfirmDelete(lib: Library)
      modifies this, lib
      ensures ConfirmTarget(old(modal)).Some? ==> lib.State() == old(lib.State()).DeleteStudent(ConfirmTarget(old(modal)).value.id)
      ensures ConfirmTarget(old(modal)).None? ==> lib.State() == old(lib.State())
      ensures modal == Closed() && searchTerm == old(searchTerm) && selectedClass == old(selectedClass)
    {
      var target := ConfirmTarget(modal);
      if target.Some? {
        lib.DeleteStudent(target.value.id);
      }
      modal := Closed();
    }

    /** `handleSave`: an edited student updates the library, a new one is added; the dialog closes. */
    method HandleSave(payload: StudentPayload, lib: Library, now: nat)
      modifies this, lib
      ensures payload.ExistingStudent? ==> lib.State() == old(lib.State()).UpdateStudent(payload.student)
      ensures payload.NewStudent? ==> lib.State() == old(lib.State()).AddStudent(payload.draft, now)
      ensures modal == Closed() && searchTerm == old(searchTerm) && selectedClass == old(selectedClass)
    {
      match payload {
        case ExistingStudent(s) => lib.UpdateStudent(s);
        case NewStudent(d) => lib.AddStudent(d, now);
      }
      modal := Closed();
    }

    method SetSearchTerm(term: string)
      modifies this
      ensures searchTerm == term && modal == old(modal) && selectedClass == old(selectedClass)
    {
      searchTerm := term;
    }

    method SetSelectedClass(c: string)
      modifies this
      ensures selectedClass == c && modal == old(modal) && searchTerm == old(searchTerm)
    {
      selectedClass := c;
    }
  }

  /**
   * A delete request followed by its confirmation deletes the student exactly
   * when no record refers to them, and so never leaves a record pointing at a
   * missing student.
   */
  method RequestThenConfirm(view: MemberListView, lib: Library, student: Student)
    requires lib.State().RefIntegrity()
    modifies view, lib
    ensures old(lib.State()).CanDeleteStudent(student.id) ==> lib.State() == old(lib.State()).DeleteStudent(student.id)
    ensures !old(lib.State()).CanDeleteStudent(student.id) ==> lib.State() == old(lib.State())
    ensures lib.State().RefIntegrity()
    ensures view.modal == Closed()
  {
    view.HandleDeleteRequest(student, lib);
    GatedDelete(student, lib.State().CanDeleteStudent(student.id));
    view.ConfirmDelete(lib);
    DeleteStudentIntegrity(old(lib.State()), student.id);
  }
}
