/**
 * The student form (MemberForm.tsx): the edited fields, their initialisation
 * from the student being edited, per-field changes, and the record handed to
 * the list on submit.
 */
module MemberForm {
  import opened Options
  import opened Types
  import opened App

  /** What the form hands to `onSave`: a whole student when editing, a student without id when adding. */
  datatype StudentPayload = ExistingStudent(student: Student) | NewStudent(draft: StudentDraft)

  /** The inputs of the form, by their `name` attribute. */
  datatype StudentField = Name | Email | Phone | BirthDate | Gender | Grade | ClassName | Ethnicity | Address

  /** `formData`: every field of a student but the id and the join date. */
  datatype StudentFormData = StudentFormData(
    name: string, email: string, phone: string, birthDate: string, gender: string,
    grade: string, className: string, ethnicity: string, address: string)

  /** The gender a new form starts with. */
  const DefaultGender: string := "Nam"

  /** The state of a blank form: all fields empty but the gender. */
  function EmptyForm(): (f: StudentFormData)
    ensures f.gender == DefaultGender
    ensures f.name == f.email == f.phone == f.birthDate == f.grade == f.className == f.ethnicity == f.address == ""
  {
    StudentFormData("", "", "", "", DefaultGender, "", "", "", "")
  }

  /** The fields of a student that the form edits. */
  function FieldsOf(s: Student): StudentFormData {
    StudentFormData(s.name, s.email, s.phone, s.birthDate, s.gender, s.grade, s.className, s.ethnicity, s.address)
  }

  /** The init effect: the student's fields when editing, a blank form when adding. */
  function FormFor(student: Option<Student>): (f: StudentFormData)
    ensures student.None? ==> f == EmptyForm()
    ensures student.Some? ==> f == FieldsOf(student.value)
  {
    if student.Some? then FieldsOf(student.value) else EmptyForm()
  }

  /** The stored value of one field. */
  function Get(f: StudentFormData, field: StudentField): string {
    match field
    case Name => f.name
    case Email => f.email
    case Phone => f.phone
    case BirthDate => f.birthDate
    case Gender => f.gender
    case Grade => f.grade
    case ClassName => f.className
    case Ethnicity => f.ethnicity
    case Address => f.address
  }

  /** `handleChange`: the named field takes the value; every other field keeps its own. */
  function Changed(f: StudentFormData, field: StudentField, value: string): (g: StudentFormData)
    ensures Get(g, field) == value
    ensures forall other :: other != field ==> Get(g, other) == Get(f, other)
  {
    match field
    case Name => f.(name := value)
    case Email => f.(email := value)
    case Phone => f.(phone := value)
    case BirthDate => f.(birthDate := value)
    case Gender => f.(gender := value)
    case Grade => f.(grade := value)
    case ClassName => f.(className := value)
    case Ethnicity => f.(ethnicity := value)
    case Address => f.(address := value)
  }

  /** Two forms that agree on every field are the same form. */
  lemma FormExtensional(f: StudentFormData, g: StudentFormData)
    requires forall field :: Get(f, field) == Get(g, field)
    ensures f == g
  {
    assert Get(f, Name) == Get(g, Name) && Get(f, Email) == Get(g, Email) && Get(f, Phone) == Get(g, Phone);
    assert Get(f, BirthDate) == Get(g, BirthDate) && Get(f, Gender) == Get(g, Gender) && Get(f, Grade) == Get(g, Grade);
    assert Get(f, ClassName) == Get(g, ClassName) && Get(f, Ethnicity) == Get(g, Ethnicity) && Get(f, Address) == Get(g, Address);
  }

  /** Retyping a field's current value changes nothing, and a later change of the same field overrides an earlier one. */
  lemma ChangedLaws(f: StudentFormData, field: StudentField, v: string, w: string)
    ensures Changed(f, field, Get(f, field)) == f
    ensures Changed(Changed(f, field, v), field, w) == Changed(f, field, w)
  {
    FormExtensional(Changed(f, field, Get(f, field)), f);
    FormExtensional(Changed(Changed(f, field, v), field, w), Changed(f, field, w));
  }

  /**
   * `handleSubmit`: editing spreads the form over the student, so the id and
   * the join date come from the student; adding stamps the clock as join date.
   */
  function Submit(student: Option<Student>, f: StudentFormData, now: nat): (p: StudentPayload)
    ensures student.Some? ==>
      && p.ExistingStudent?
      && p.student.id == student.value.id && p.student.joinDate == student.value.joinDate
      && FieldsOf(p.student) == f
    ensures student.None? ==>
      && p.NewStudent? && p.draft.joinDate == now
      && p.draft == StudentDraft(f.name, f.email, f.phone, now, f.birthDate, f.gender, f.grade, f.className, f.ethnicity, f.address)
  {
    match student
    case Some(s) =>
      ExistingStudent(s.(name := f.name, email := f.email, phone := f.phone, birthDate := f.birthDate, gender := f.gender,
                         grade := f.grade, className := f.className, ethnicity := f.ethnicity, address := f.address))
    case None =>
      NewStudent(StudentDraft(f.name, f.email, f.phone, now, f.birthDate, f.gender, f.grade, f.className, f.ethnicity, f.address))
  }

  /** Opening a student and submitting without changes hands back the very same student. */
  lemma SubmitUnchanged(s: Student, now: nat)
    ensures Submit(Some(s), FormFor(Some(s)), now) == ExistingStudent(s)
  {
  }

  /** A new student, once added, carries the form's fields and the submit time as join date. */
  lemma SubmitNewThenAdd(st: LibraryState, f: StudentFormData, submitted: nat, now: nat)
    ensures var added := st.AddStudent(Submit(None, f, submitted).draft, now).students[|st.students|];
      FieldsOf(added) == f && added.joinDate == submitted && added.id == Text.NatToString(now)
  {
  }

  /** The form component: the props it was opened with and the state the handlers update. */
  class MemberFormView {
    const student: Option<Student>
    var formData: StudentFormData

    /** Mount, including the first run of the init effect. */
    constructor (student: Option<Student>)
      ensures this.student == student && formData == FormFor(student)
    {
      this.student := student;
      formData := FormFor(student);
    }

    method HandleChange(field: StudentField, value: string)
      modifies this
      ensures formData == Changed(old(formData), field, value)
    {
      formData := Changed(formData, field, value);
    }

    method HandleSubmit(now: nat) returns (payload: StudentPayload)
      ensures payload == Submit(student, formData, now)
      ensures student.Some? ==> payload.ExistingStudent? && payload.student.id == student.value.id
      ensures student.None? ==> payload.NewStudent? && payload.draft.joinDate == now && payload.draft.gender == formData.gender
    {
      payload := Submit(student, formData, now);
    }
  }
}
