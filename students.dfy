/** `components/StudentManager.tsx`: the student form with its field
    validation, saving, the directory filter and the credentials a new
    student is given. `today` and `year` stand for the clock. */
module Students {
  import opened Wrappers
  import opened Collections
  import opened Text
  import opened Types
  import opened Store

  /** The form fields, in the order `handleSave` validates them. */
  datatype Field = Id | RollNo | FullName | ContactNumber | ClassName | Section | DateOfBirth | AdmissionDate | Address | Gender

  const FieldsToValidate: seq<Field> := [Id, RollNo, FullName, ContactNumber, ClassName, Section, DateOfBirth, AdmissionDate, Address, Gender]

  /* ----------------------------------------------------------- validation */

  /** The characters of `^[a-zA-Z\s.]+$`. */
  predicate NameChar(c: char) {
    ('a' <= c <= 'z') || ('A' <= c <= 'Z') || IsSpace(c) || c == '.'
  }

  predicate IdTaken(students: seq<Student>, id: string) {
    exists i :: 0 <= i < |students| && ToLower(students[i].id) == ToLower(id)
  }

  /** What each field must satisfy for the form to be saved. */
  ghost predicate FieldOk(field: Field, data: Student, isEdit: bool, students: seq<Student>, today: string) {
    match field
    case Id => Trim(data.id) != [] && (isEdit || !IdTaken(students, data.id))
    case RollNo => data.rollNo > 0
    case FullName => Trim(data.fullName) != [] && |data.fullName| >= 3 && forall i :: 0 <= i < |data.fullName| ==> NameChar(data.fullName[i])
    case ContactNumber => TenDigits(data.contactNumber)
    case ClassName => data.className != []
    case Section => data.section != []
    case Gender => data.gender != []
    case DateOfBirth => data.dateOfBirth != [] && !LexLess(today, data.dateOfBirth)
    case AdmissionDate => data.admissionDate != [] && (data.dateOfBirth == [] || LexLess(data.dateOfBirth, data.admissionDate))
    case Address => |Trim(data.address)| >= 5
  }

  const IdRequired := "Student ID is required"
  const IdExists := "Student ID already exists"
  const RollRequired := "Roll Number is required"
  const RollNotPositive := "Enter a valid positive roll number"
  const NameRequired := "Full Name is required"
  const NameTooShort := "Name must be at least 3 characters"
  const NameBadChars := "Name can only contain letters, dots, and spaces"
  const ContactRequired := "Contact Number is required"
  const ContactInvalid := "Enter a valid 10-digit mobile number"
  const ClassRequired := "Class selection is required"
  const SectionRequired := "Section selection is required"
  const GenderRequired := "Gender selection is required"
  const BirthRequired := "Date of Birth is required"
  const BirthInFuture := "Date of Birth cannot be in the future"
  const AdmissionRequired := "Admission Date is required"
  const AdmissionNotAfterBirth := "Admission Date must be after Date of Birth"
  const AddressRequired := "Address is required"
  const AddressTooShort := "Address too short (min 5 chars)"

  /** `validateField`: the first message that applies to the field, or the
      empty string when it is valid. The roll number 0 stands for every
      falsy input (empty, not a number), which share the required message.
      Each field's checks run in the order listed: a later message is only
      given when every earlier check of that field passed. */
  function ValidateField(field: Field, data: Student, isEdit: bool, students: seq<Student>, today: string): (message: string)
    ensures message == "" <==> FieldOk(field, data, isEdit, students, today)
    ensures (field == Id && Trim(data.id) == []) ==> message == IdRequired
    ensures (field == Id && Trim(data.id) != [] && !isEdit && IdTaken(students, data.id)) ==> message == IdExists
    ensures (field == RollNo && data.rollNo == 0) ==> message == RollRequired
    ensures (field == RollNo && data.rollNo < 0) ==> message == RollNotPositive
    ensures (field == FullName && Trim(data.fullName) == []) ==> message == NameRequired
    ensures (field == FullName && Trim(data.fullName) != [] && |data.fullName| < 3) ==> message == NameTooShort
    ensures (field == FullName && Trim(data.fullName) != [] && |data.fullName| >= 3
             && exists i :: 0 <= i < |data.fullName| && !NameChar(data.fullName[i])) ==> message == NameBadChars
    ensures (field == ContactNumber && data.contactNumber == []) ==> message == ContactRequired
    ensures (field == ContactNumber && data.contactNumber != [] && !TenDigits(data.contactNumber)) ==> message == ContactInvalid
    ensures (field == ClassName && data.className == []) ==> message == ClassRequired
    ensures (field == Section && data.section == []) ==> message == SectionRequired
    ensures (field == Gender && data.gender == []) ==> message == GenderRequired
    ensures (field == DateOfBirth && data.dateOfBirth == []) ==> message == BirthRequired
    ensures (field == DateOfBirth && data.dateOfBirth != [] && LexLess(today, data.dateOfBirth)) ==> message == BirthInFuture
    ensures (field == AdmissionDate && data.admissionDate == []) ==> message == AdmissionRequired
    ensures (field == AdmissionDate && data.admissionDate != [] && data.dateOfBirth != []
             && !LexLess(data.dateOfBirth, data.admissionDate)) ==> message == AdmissionNotAfterBirth
    ensures (field == Address && Trim(data.address) == []) ==> message == AddressRequired
    ensures (field == Address && Trim(data.address) != [] && |Trim(data.address)| < 5) ==> message == AddressTooShort
  {
    match field
    case Id =>
      if data.id == [] || Trim(data.id) == [] then IdRequired
      else if !isEdit && IdTaken(students, data.id) then IdExists
      else ""
    case RollNo =>
      if data.rollNo == 0 then RollRequired
      else if data.rollNo <= 0 then RollNotPositive
      else ""
    case FullName =>
      if data.fullName == [] || Trim(data.fullName) == [] then NameRequired
      else if |data.fullName| < 3 then NameTooShort
      else if exists i :: 0 <= i < |data.fullName| && !NameChar(data.fullName[i]) then NameBadChars
      else ""
    case ContactNumber =>
      if data.contactNumber == [] then ContactRequired
      else if !TenDigits(data.contactNumber) then ContactInvalid
      else ""
    case ClassName =>
      if data.className == [] then ClassRequired else ""
    case Section =>
      if data.section == [] then SectionRequired else ""
    case Gender =>
      if data.gender == [] then GenderRequired else ""
    case DateOfBirth =>
      if data.dateOfBirth == [] then BirthRequired
      else if LexLess(today, data.dateOfBirth) then BirthInFuture
      else ""
    case AdmissionDate =>
      if data.admissionDate == [] then AdmissionRequired
      else if data.dateOfBirth != [] && !LexLess(data.dateOfBirth, data.admissionDate) then AdmissionNotAfterBirth
      else ""
    case Address =>
      if data.address == [] || Trim(data.address) == [] then AddressRequired
      else if |Trim(data.address)| < 5 then AddressTooShort
      else ""
  }

  ghost predicate FormOk(data: Student, isEdit: bool, students: seq<Student>, today: string) {
    forall f: Field :: FieldOk(f, data, isEdit, students, today)
  }

  /** A form that passes validation has its dates in order: born no later
      than today and admitted after birth. */
  lemma {:induction false} ValidFormDates(data: Student, isEdit: bool, students: seq<Student>, today: string)
    requires FormOk(data, isEdit, students, today)
    ensures !LexLess(today, data.dateOfBirth) && LexLess(data.dateOfBirth, data.admissionDate)
    ensures !LexLess(data.admissionDate, data.dateOfBirth)
  {
    assert FieldOk(DateOfBirth, data, isEdit, students, today);
    assert FieldOk(AdmissionDate, data, isEdit, students, today);
    LexLessAsymmetric(data.dateOfBirth, data.admissionDate);
  }

  /** Runs `check` on each field in turn, gathering the non-empty messages. */
  method CollectErrors(fields: seq<Field>, check: Field -> string) returns (errors: map<Field, string>, isValid: bool)
    ensures forall f :: f in errors <==> f in fields && check(f) != ""
    ensures forall f :: f in errors ==> errors[f] == check(f)
    ensures isValid <==> forall j :: 0 <= j < |fields| ==> check(fields[j]) == ""
  {
    errors := map[];
    isValid := true;
    var i := 0;
    while i < |fields|
      invariant 0 <= i <= |fields|
      invariant forall f :: f in errors <==> f in fields[..i] && check(f) != ""
      invariant forall f :: f in errors ==> errors[f] == check(f)
      invariant isValid <==> forall j :: 0 <= j < i ==> check(fields[j]) == ""
    {
      assert fields[..i + 1] == fields[..i] + [fields[i]];
      var error := check(fields[i]);
      if error != "" {
        errors := errors[fields[i] := error];
        isValid := false;
      }
      i := i + 1;
    }
    assert fields[..i] == fields;
  }

  lemma {:induction false} AllFieldsValidated()
    ensures forall f: Field :: f in FieldsToValidate
  {
    forall f: Field
      ensures f in FieldsToValidate
    {
      match f
      case Id => assert FieldsToValidate[0] == f;
      case RollNo => assert FieldsToValidate[1] == f;
      case FullName => assert FieldsToValidate[2] == f;
      case ContactNumber => assert FieldsToValidate[3] == f;
      case ClassName => assert FieldsToValidate[4] == f;
      case Section => assert FieldsToValidate[5] == f;
      case DateOfBirth => assert FieldsToValidate[6] == f;
      case AdmissionDate => assert FieldsToValidate[7] == f;
      case Address => assert FieldsToValidate[8] == f;
      case Gender => assert FieldsToValidate[9] == f;
    }
  }

  /** The validation loop of `handleSave`: every field is checked and the
      errors gathered; the form is valid exactly when no field has one. */
  method ValidateAll(data: Student, isEdit: bool, students: seq<Student>, today: string)
    returns (errors: map<Field, string>, isValid: bool)
    ensures forall f: Field :: f in errors <==> ValidateField(f, data, isEdit, students, today) != ""
    ensures forall f :: f in errors ==> errors[f] == ValidateField(f, data, isEdit, students, today)
    ensures isValid <==> FormOk(data, isEdit, students, today)
  {
    var check := f => ValidateField(f, data, isEdit, students, today);
    errors, isValid := CollectErrors(FieldsToValidate, check);
    AllFieldsValidated();
    if isValid {
      forall f: Field
        ensures FieldOk(f, data, isEdit, students, today)
      {
        assert f in FieldsToValidate;
        var j :| 0 <= j < |FieldsToValidate| && FieldsToValidate[j] == f;
        assert check(FieldsToValidate[j]) == "";
      }
    }
  }

  /* ---------------------------------------------------------- credentials */

  /** The id a new student is given: `UV-<year>-<roll number>`. */
  function CredentialId(year: int, rollNo: int): string {
    "UV-" + IntToString(year) + "-" + IntToString(rollNo)
  }

  /** `generateNewCredentials`: the next roll number and the id built from it. */
  function NewCredentials(students: seq<Student>, year: int): (creds: (string, int))
    ensures creds.0 == CredentialId(year, creds.1)
    ensures creds.1 == NextRollNo(students)
    ensures students == [] ==> creds.1 == FirstRollNo
    ensures students != [] ==> creds.1 == MaxRollNo(students) + 1
    ensures forall i :: 0 <= i < |students| ==> students[i].rollNo < creds.1
  {
    var nextRoll := NextRollNo(students);
    (CredentialId(year, nextRoll), nextRoll)
  }

  /** The year and the roll number can be read back from an id. */
  lemma {:induction false} CredentialIdInjective(y1: int, r1: int, y2: int, r2: int)
    requires y1 >= 0 && r1 >= 0 && y2 >= 0 && r2 >= 0
    requires CredentialId(y1, r1) == CredentialId(y2, r2)
    ensures y1 == y2 && r1 == r2
  {
    var a, b := IntToString(y1), IntToString(y2);
    var c, d := IntToString(r1), IntToString(r2);
    var x := CredentialId(y1, r1);
    assert x == "UV-" + a + "-" + c && x == "UV-" + b + "-" + d;
    assert |a| == |b| by {
      assert x[3 + |a|] == '-' && x[3 + |b|] == '-';
      assert forall k :: 0 <= k < |a| ==> IsDigit(a[k]) && x[3 + k] == a[k];
      assert forall k :: 0 <= k < |b| ==> IsDigit(b[k]) && x[3 + k] == b[k];
    }
    assert a == x[3..3 + |a|] == b;
    assert c == x[4 + |a|..] == d;
    IntToStringInjective(y1, y2);
    IntToStringInjective(r1, r2);
  }

  /** When every stored id was generated from its own roll number, the new
      id is not among them. */
  lemma {:induction false} NewIdFresh(students: seq<Student>, year: int, years: seq<int>)
    requires year >= 0 && |years| == |students|
    requires forall i :: 0 <= i < |students| ==>
      years[i] >= 0 && students[i].rollNo >= 0 && students[i].id == CredentialId(years[i], students[i].rollNo)
    ensures forall i :: 0 <= i < |students| ==> students[i].id != NewCredentials(students, year).0
  {
    var creds := NewCredentials(students, year);
    assert creds.1 >= 0 by {
      if students != [] {
        assert students[0].rollNo < creds.1;
      }
    }
    forall i | 0 <= i < |students|
      ensures students[i].id != creds.0
    {
      if students[i].id == creds.0 {
        CredentialIdInjective(years[i], students[i].rollNo, year, creds.1);
      }
    }
  }

  /* ----------------------------------------------------------------- save */

  /** The empty form, with the admission date set to today. */
  function BlankForm(today: string): Student {
    Student("", 0, "", "Male", "", "", "", "", "", today)
  }

  datatype SaveOutcome =
    | Invalid(errors: map<Field, string>)
    | Saved(nextForm: Option<Student>)

  /** `handleSave`: validates every field; on success saves the student and
      either opens a fresh form with new credentials (save and new, when
      adding) or returns to the list (`None`). */
  method HandleSave(db: DatabaseService, formData: Student, isEdit: bool, saveAndNew: bool, students: seq<Student>,
                    today: string, year: int) returns (outcome: SaveOutcome)
    modifies db`students
    ensures outcome.Invalid? <==> !FormOk(formData, isEdit, students, today)
    ensures outcome.Invalid? ==> db.students == old(db.students)
    ensures outcome.Invalid? ==> forall f: Field :: f in outcome.errors <==> ValidateField(f, formData, isEdit, students, today) != ""
    ensures outcome.Invalid? ==> forall f :: f in outcome.errors ==> outcome.errors[f] == ValidateField(f, formData, isEdit, students, today)
    ensures outcome.Saved? ==> db.students == Some(Upsert(old(db.GetStudents()), formData, StudentKey))
    ensures outcome.Saved? ==> (outcome.nextForm.Some? <==> saveAndNew && !isEdit)
    ensures outcome.Saved? && outcome.nextForm.Some? ==>
      var creds := NewCredentials(db.GetStudents(), year);
      outcome.nextForm.value == BlankForm(today).(id := creds.0, rollNo := creds.1)
  {
    var errors, isValid := ValidateAll(formData, isEdit, students, today);
    if !isValid {
      return Invalid(errors);
    }
    db.SaveStudent(formData);
    if saveAndNew && !isEdit {
      var creds := NewCredentials(db.GetStudents(), year);
      outcome := Saved(Some(BlankForm(today).(id := creds.0, rollNo := creds.1)));
    } else {
      outcome := Saved(None);
    }
  }

  /** After "save and new", the fresh form's roll number is above that of
      every stored student, the one just saved included. */
  lemma {:induction false} SaveAndNewRollIsFresh(stored: seq<Student>, formData: Student, year: int)
    ensures var saved := Upsert(stored, formData, StudentKey);
      formData.rollNo < NewCredentials(saved, year).1
      && forall i :: 0 <= i < |saved| ==> saved[i].rollNo < NewCredentials(saved, year).1
  {
    var saved := Upsert(stored, formData, StudentKey);
    var k :| 0 <= k < |saved| && saved[k] == formData;
  }

  /* ------------------------------------------------------------ directory */

  /** Search on the lower-cased name, the roll number as written, or the
      lower-cased id. */
  predicate MatchesSearch(s: Student, searchTerm: string) {
    || Includes(ToLower(s.fullName), ToLower(searchTerm))
    || Includes(IntToString(s.rollNo), searchTerm)
    || (s.id != [] && Includes(ToLower(s.id), ToLower(searchTerm)))
  }

  /** An empty filter lets every student through. */
  predicate Matches(s: Student, searchTerm: string, filterClass: string, filterSection: string) {
    && MatchesSearch(s, searchTerm)
    && (filterClass == [] || s.className == filterClass)
    && (filterSection == [] || s.section == filterSection)
  }

  function DirectoryFilter(searchTerm: string, filterClass: string, filterSection: string): Student -> bool {
    (s: Student) => Matches(s, searchTerm, filterClass, filterSection)
  }

  /** `filteredStudents`: the students matching the search, the class and the
      section, in their original order. */
  function FilteredStudents(students: seq<Student>, searchTerm: string, filterClass: string, filterSection: string)
    : (r: seq<Student>)
    ensures |r| <= |students|
    ensures forall s :: s in r <==> s in students && Matches(s, searchTerm, filterClass, filterSection)
  {
    Filter(students, DirectoryFilter(searchTerm, filterClass, filterSection))
  }

  /** `clearFilters` shows the whole directory. */
  lemma {:induction false} ClearedFiltersShowAll(students: seq<Student>)
    ensures FilteredStudents(students, "", "", "") == students
  {
    forall s | s in students
      ensures DirectoryFilter("", "", "")(s)
    {
      assert ToLower("") == "";
      assert OccursAt(ToLower(s.fullName), "", 0);
    }
    FilterKeepsAll(students, DirectoryFilter("", "", ""));
  }

  /** Choosing a class or a section only ever hides students. */
  lemma {:induction false} NarrowingHides(students: seq<Student>, searchTerm: string, filterClass: string, filterSection: string)
    ensures forall s :: s in FilteredStudents(students, searchTerm, filterClass, filterSection) ==>
      s in FilteredStudents(students, searchTerm, "", "")
    ensures |FilteredStudents(students, searchTerm, filterClass, filterSection)| <= |FilteredStudents(students, searchTerm, "", "")|
  {
    var narrow := FilteredStudents(students, searchTerm, filterClass, filterSection);
    var wide := FilteredStudents(students, searchTerm, "", "");
    FilterNested(students, DirectoryFilter(searchTerm, "", ""), DirectoryFilter(searchTerm, filterClass, filterSection));
  }
}
