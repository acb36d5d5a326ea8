/** `components/TeacherManager.tsx`: the staff directory with its form
    validation and search, and daily teacher attendance, kept as one record
    per teacher and date. `now` stands for `Date.now()`. */
module Teachers {
  import opened Wrappers
  import opened Collections
  import opened Text
  import opened Types
  import opened Store
  import Attendance

  /* ---------------------------------------------------------------- email */

  /** A character of `[^\s@]`. */
  predicate EmailChar(c: char) {
    c != '@' && !IsSpace(c)
  }

  /** A run of `[^\s@]+`. */
  predicate EmailPart(x: string) {
    x != [] && forall i :: 0 <= i < |x| ==> EmailChar(x[i])
  }

  /** `^[^\s@]+@[^\s@]+\.[^\s@]+$`, read as the pattern is written: a local
      part, `@`, a domain part, `.`, and a last part. */
  ghost predicate EmailPattern(s: string) {
    exists a, b, c :: EmailPart(a) && EmailPart(b) && EmailPart(c) && s == a + "@" + b + "." + c
  }

  /** The same shape, by positions: one `@` after at least one character,
      a `.` at least two characters after it and before the last character,
      and no other `@` and no white space anywhere. */
  predicate ValidEmail(s: string) {
    exists p, k :: 0 < p && p + 1 < k && k + 1 < |s| && s[p] == '@' && s[k] == '.' &&
      forall i :: 0 <= i < |s| && i != p ==> EmailChar(s[i])
  }

  lemma {:induction false} ValidEmailHasPattern(s: string)
    requires ValidEmail(s)
    ensures EmailPattern(s)
  {
    var p, k :| 0 < p && p + 1 < k && k + 1 < |s| && s[p] == '@' && s[k] == '.' &&
      forall i :: 0 <= i < |s| && i != p ==> EmailChar(s[i]);
    var a, b, c := s[..p], s[p + 1..k], s[k + 1..];
    assert s == a + "@" + b + "." + c;
    assert EmailPart(a);
    assert EmailPart(b) by {
      forall i | 0 <= i < |b|
        ensures EmailChar(b[i])
      {
        assert b[i] == s[p + 1 + i];
      }
    }
    assert EmailPart(c) by {
      forall i | 0 <= i < |c|
        ensures EmailChar(c[i])
      {
        assert c[i] == s[k + 1 + i];
      }
    }
  }

  lemma {:induction false} PatternIsValidEmail(a: string, b: string, c: string)
    requires EmailPart(a) && EmailPart(b) && EmailPart(c)
    ensures ValidEmail(a + "@" + b + "." + c)
  {
    var s := a + "@" + b + "." + c;
    var p, k := |a|, |a| + 1 + |b|;
    assert s[p] == '@' && s[k] == '.';
    forall i | 0 <= i < |s| && i != p
      ensures EmailChar(s[i])
    {
      if i < p {
        assert s[i] == a[i];
      } else if i < k {
        assert s[i] == b[i - p - 1];
      } else if i > k {
        assert s[i] == c[i - k - 1];
      }
    }
  }

  /** The positional reading and the pattern accept the same strings. */
  lemma {:induction false} ValidEmailMatchesPattern(s: string)
    ensures ValidEmail(s) <==> EmailPattern(s)
  {
    if ValidEmail(s) {
      ValidEmailHasPattern(s);
    }
    if EmailPattern(s) {
      var a, b, c :| EmailPart(a) && EmailPart(b) && EmailPart(c) && s == a + "@" + b + "." + c;
      PatternIsValidEmail(a, b, c);
    }
  }

  /* ----------------------------------------------------------- validation */

  const NameRequired := "Full Name is required"
  const SubjectRequired := "Subject is required"
  const InvalidEmail := "Invalid email address format"
  const InvalidPhone := "Phone number must be exactly 10 digits"
  const InvalidSalary := "Salary must be a positive number greater than zero"

  /** What a teacher must satisfy to be saved. Email and phone are optional,
      and checked only when given. */
  ghost predicate TeacherOk(t: Teacher) {
    && Trim(t.fullName) != []
    && Trim(t.subject) != []
    && (t.email == [] || EmailPattern(t.email))
    && (t.phone == [] || TenDigits(t.phone))
    && t.salary > 0
  }

  /** `validateForm`: the message of the first failing check, in the order
      name, subject, email, phone, salary, or `None` when all pass. */
  function ValidateForm(t: Teacher): (r: Option<string>)
    ensures r.None? <==> TeacherOk(t)
    ensures Trim(t.fullName) == [] ==> r == Some(NameRequired)
    ensures Trim(t.fullName) != [] && Trim(t.subject) == [] ==> r == Some(SubjectRequired)
    ensures Trim(t.fullName) != [] && Trim(t.subject) != [] && t.email != [] && !EmailPattern(t.email) ==>
      r == Some(InvalidEmail)
    ensures (Trim(t.fullName) != [] && Trim(t.subject) != [] && (t.email == [] || EmailPattern(t.email))
             && t.phone != [] && !TenDigits(t.phone)) ==> r == Some(InvalidPhone)
    ensures (Trim(t.fullName) != [] && Trim(t.subject) != [] && (t.email == [] || EmailPattern(t.email))
             && (t.phone == [] || TenDigits(t.phone)) && t.salary <= 0) ==> r == Some(InvalidSalary)
  {
    ValidEmailMatchesPattern(t.email);
    if Trim(t.fullName) == [] then Some(NameRequired)
    else if Trim(t.subject) == [] then Some(SubjectRequired)
    else if t.email != [] && !ValidEmail(t.email) then Some(InvalidEmail)
    else if t.phone != [] && !TenDigits(t.phone) then Some(InvalidPhone)
    else if t.salary <= 0 then Some(InvalidSalary)
    else None
  }

  /* ------------------------------------------------------------ directory */

  /** The teacher `handleSaveTeacher` stores: a new teacher gets the clock
      reading as id, an edited one keeps its id. */
  function TeacherToSave(formData: Teacher, now: nat): (t: Teacher)
    ensures t.id != []
    ensures formData.id != [] ==> t == formData
    ensures t == formData.(id := t.id)
  {
    formData.(id := if formData.id != [] then formData.id else IntToString(now))
  }

  /** `handleSaveTeacher`: saves the teacher when the form validates, and
      writes nothing otherwise. */
  method HandleSaveTeacher(db: DatabaseService, formData: Teacher, now: nat) returns (error: Option<string>)
    modifies db`teachers
    ensures error == ValidateForm(formData)
    ensures error.Some? ==> db.teachers == old(db.teachers)
    ensures error.None? ==> db.teachers == Some(Upsert(old(db.GetTeachers()), TeacherToSave(formData, now), TeacherKey))
  {
    error := ValidateForm(formData);
    if error.Some? {
      return;
    }
    var teacher := formData.(id := if formData.id != [] then formData.id else IntToString(now));
    db.SaveTeacher(teacher);
  }

  /** A saved teacher is in the directory, which keeps one teacher per id;
      saving an existing teacher leaves the directory's size unchanged. */
  lemma {:induction false} SaveTeacherStores(teachers: seq<Teacher>, formData: Teacher, now: nat)
    requires UniqueKeys(teachers, TeacherKey)
    ensures var saved := Upsert(teachers, TeacherToSave(formData, now), TeacherKey);
      && TeacherToSave(formData, now) in saved
      && UniqueKeys(saved, TeacherKey)
      && (HasKey(teachers, TeacherKey, formData.id) && formData.id != [] ==> |saved| == |teachers|)
  {
    UpsertKeepsUnique(teachers, TeacherToSave(formData, now), TeacherKey);
  }

  /** `handleDelete`: removes the teacher once the user confirms. Attendance
      records of the teacher stay in the store. */
  method HandleDelete(db: DatabaseService, id: string, confirmed: bool)
    modifies db`teachers
    ensures confirmed ==> db.teachers == Some(Filter(old(db.GetTeachers()), KeyIsNot(TeacherKey, id)))
    ensures !confirmed ==> db.teachers == old(db.teachers)
  {
    if confirmed {
      db.DeleteTeacher(id);
    }
  }

  predicate MatchesSearch(t: Teacher, searchTerm: string) {
    Includes(ToLower(t.fullName), ToLower(searchTerm)) || Includes(ToLower(t.subject), ToLower(searchTerm))
  }

  function SearchFilter(searchTerm: string): Teacher -> bool {
    (t: Teacher) => MatchesSearch(t, searchTerm)
  }

  /** `filteredTeachers`: the teachers whose name or subject contains the
      search text, ignoring case, in their original order. */
  function FilteredTeachers(teachers: seq<Teacher>, searchTerm: string): (r: seq<Teacher>)
    ensures |r| <= |teachers|
    ensures forall t :: t in r <==> t in teachers && MatchesSearch(t, searchTerm)
  {
    Filter(teachers, SearchFilter(searchTerm))
  }

  /** The search ignores the case of what is typed. */
  lemma {:induction false} SearchIgnoresCase(teachers: seq<Teacher>, searchTerm: string)
    ensures FilteredTeachers(teachers, ToLower(searchTerm)) == FilteredTeachers(teachers, searchTerm)
  {
    var lower := ToLower(searchTerm);
    assert ToLower(lower) == lower;
    forall t | t in teachers
      ensures SearchFilter(lower)(t) == SearchFilter(searchTerm)(t)
    {
    }
    FilterAgree(teachers, SearchFilter(lower), SearchFilter(searchTerm));
  }

  /** An empty search shows the whole directory. */
  lemma {:induction false} EmptySearchShowsAll(teachers: seq<Teacher>)
    ensures FilteredTeachers(teachers, "") == teachers
  {
    forall t | t in teachers
      ensures SearchFilter("")(t)
    {
      assert ToLower("") == "";
      assert OccursAt(ToLower(t.fullName), "", 0);
    }
    FilterKeepsAll(teachers, SearchFilter(""));
  }

  /* ----------------------------------------------------------- attendance */

  function OnDate(date: string): TeacherAttendance -> bool {
    (r: TeacherAttendance) => r.date == date
  }

  function TeacherOwner(r: TeacherAttendance): string {
    r.teacherId
  }

  function RecordStatus(r: TeacherAttendance): TeacherStatus {
    r.status
  }

  /** The dictionary `loadAttendance` builds: each teacher with a record on
      the date gets the status of their last such record. */
  function DayMap(records: seq<TeacherAttendance>, date: string): map<string, TeacherStatus> {
    LastByKey(Filter(records, OnDate(date)), TeacherOwner, RecordStatus)
  }

  /** `loadAttendance`. */
  method LoadAttendance(db: DatabaseService, attendanceDate: string) returns (m: map<string, TeacherStatus>)
    ensures m == DayMap(db.GetTeacherAttendance(), attendanceDate)
  {
    var todaysRecs := Filter(db.GetTeacherAttendance(), OnDate(attendanceDate));
    m := IndexLast(todaysRecs, TeacherOwner, RecordStatus);
  }

  /** The record `markAttendance` saves, with the id `<teacher>-<date>`. */
  function MarkRecord(teacherId: string, date: string, status: TeacherStatus): TeacherAttendance {
    TeacherAttendance(Attendance.RecordId(teacherId, date), teacherId, date, status)
  }

  /** `markAttendance`: saves the teacher's status for the date and reloads
      the day's dictionary. */
  method MarkAttendance(db: DatabaseService, teacherId: string, status: TeacherStatus, attendanceDate: string)
    returns (m: map<string, TeacherStatus>)
    modifies db`teacherAttendance
    ensures db.teacherAttendance == Some(Upsert(old(db.GetTeacherAttendance()), MarkRecord(teacherId, attendanceDate, status), TeacherAttendanceKey))
    ensures m == DayMap(db.GetTeacherAttendance(), attendanceDate)
  {
    var record := TeacherAttendance(Attendance.RecordId(teacherId, attendanceDate), teacherId, attendanceDate, status);
    db.SaveTeacherAttendance(record);
    m := LoadAttendance(db, attendanceDate);
  }

  /** Every record carries the id `markAttendance` gives it, over an ISO
      date, and no two records share an id. */
  ghost predicate Consistent(records: seq<TeacherAttendance>) {
    WellKeyed(records) && UniqueKeys(records, TeacherAttendanceKey)
  }

  ghost predicate WellKeyed(records: seq<TeacherAttendance>) {
    forall i :: 0 <= i < |records| ==>
      records[i].id == Attendance.RecordId(records[i].teacherId, records[i].date)
      && |records[i].date| == Attendance.DateLength
  }

  /** At most one record per teacher and date. */
  ghost predicate OnePerDay(records: seq<TeacherAttendance>) {
    forall i, j :: 0 <= i < j < |records| ==>
      records[i].teacherId != records[j].teacherId || records[i].date != records[j].date
  }

  /** A consistent store holds at most one record per teacher and date. */
  lemma {:induction false} ConsistentOnePerDay(records: seq<TeacherAttendance>)
    requires Consistent(records)
    ensures OnePerDay(records)
  {
    forall i, j | 0 <= i < j < |records|
      ensures records[i].teacherId != records[j].teacherId || records[i].date != records[j].date
    {
      assert TeacherAttendanceKey(records[i]) != TeacherAttendanceKey(records[j]);
    }
  }

  /** Marking replaces the teacher's record for the date, or adds one, and
      leaves every other record in place. */
  lemma {:induction false} MarkContents(records: seq<TeacherAttendance>, teacherId: string, date: string, status: TeacherStatus)
    requires Consistent(records) && |date| == Attendance.DateLength
    ensures var updated := Upsert(records, MarkRecord(teacherId, date, status), TeacherAttendanceKey);
      && Consistent(updated)
      && (forall z :: z in updated <==>
            z == MarkRecord(teacherId, date, status)
            || (z in records && (z.teacherId != teacherId || z.date != date)))
  {
    var rec := MarkRecord(teacherId, date, status);
    var updated := Upsert(records, rec, TeacherAttendanceKey);
    UpsertKeepsUnique(records, rec, TeacherAttendanceKey);
    UpsertFrom(records, rec, TeacherAttendanceKey);
    forall i | 0 <= i < |updated|
      ensures updated[i].id == Attendance.RecordId(updated[i].teacherId, updated[i].date)
      ensures |updated[i].date| == Attendance.DateLength
    {
      assert updated[i] in updated;
    }
    var n :| 0 <= n < |updated| && updated[n] == rec;
    forall z | z in updated
      ensures z == rec || (z in records && (z.teacherId != teacherId || z.date != date))
    {
      var j :| 0 <= j < |updated| && updated[j] == z;
      if j != n {
        assert TeacherAttendanceKey(updated[j]) != TeacherAttendanceKey(updated[n]);
      }
    }
    forall z | z in records && (z.teacherId != teacherId || z.date != date)
      ensures z in updated
    {
      var j :| 0 <= j < |records| && records[j] == z;
      if z.id == rec.id {
        Attendance.RecordIdInjective(z.teacherId, z.date, teacherId, date);
      }
      UpsertRetains(records, rec, TeacherAttendanceKey, z);
    }
  }

  /** `m` is the dictionary of `date` over `records`: it holds exactly the
      teachers with a record on the date, each with that record's status. */
  ghost predicate Describes(m: map<string, TeacherStatus>, records: seq<TeacherAttendance>, date: string) {
    && (forall k :: k in m <==> exists i :: 0 <= i < |records| && records[i].teacherId == k && records[i].date == date)
    && (forall i :: 0 <= i < |records| && records[i].date == date ==>
          records[i].teacherId in m && m[records[i].teacherId] == records[i].status)
  }

  lemma {:induction false} DayMapDescribes(records: seq<TeacherAttendance>, date: string)
    requires OnePerDay(records)
    ensures Describes(DayMap(records, date), records, date)
  {
    FilterKeepsUnique(records, OnDate(date), TeacherOwner);
    LastByKeyFilter(records, OnDate(date), TeacherOwner, RecordStatus);
  }

  /** Two stores that differ only in the record of one teacher on a date
      describe dictionaries of that date that differ only in that teacher. */
  lemma {:induction false} DescribesReplaced(m0: map<string, TeacherStatus>, m1: map<string, TeacherStatus>,
                          before: seq<TeacherAttendance>, after: seq<TeacherAttendance>, rec: TeacherAttendance)
    requires Describes(m0, before, rec.date) && Describes(m1, after, rec.date)
    requires forall z :: z in after <==> z == rec || (z in before && (z.teacherId != rec.teacherId || z.date != rec.date))
    ensures m1 == m0[rec.teacherId := rec.status]
  {
    var date := rec.date;
    assert rec in after;
    var n :| 0 <= n < |after| && after[n] == rec;
    forall k | k in m1
      ensures k in m0[rec.teacherId := rec.status]
    {
      var i :| 0 <= i < |after| && after[i].teacherId == k && after[i].date == date;
      if k != rec.teacherId {
        assert after[i] in after;
        var j :| 0 <= j < |before| && before[j] == after[i];
      }
    }
    forall k | k in m0[rec.teacherId := rec.status]
      ensures k in m1 && m1[k] == m0[rec.teacherId := rec.status][k]
    {
      if k != rec.teacherId {
        var j :| 0 <= j < |before| && before[j].teacherId == k && before[j].date == date;
        assert before[j] in after;
        var i :| 0 <= i < |after| && after[i] == before[j];
      }
    }
  }

  /** Marking a teacher and reloading the day shows exactly that change. */
  lemma {:induction false} MarkThenLoad(records: seq<TeacherAttendance>, teacherId: string, date: string, status: TeacherStatus)
    requires Consistent(records) && |date| == Attendance.DateLength
    ensures var updated := Upsert(records, MarkRecord(teacherId, date, status), TeacherAttendanceKey);
      DayMap(updated, date) == DayMap(records, date)[teacherId := status]
  {
    var rec := MarkRecord(teacherId, date, status);
    var updated := Upsert(records, rec, TeacherAttendanceKey);
    MarkContents(records, teacherId, date, status);
    ConsistentOnePerDay(records);
    ConsistentOnePerDay(updated);
    DayMapDescribes(records, date);
    DayMapDescribes(updated, date);
    DescribesReplaced(DayMap(records, date), DayMap(updated, date), records, updated, rec);
  }

  /** Re-marking a teacher on the same date overwrites the record: the
      store ends as if only the second mark had been made. */
  lemma {:induction false} RemarkOverwrites(records: seq<TeacherAttendance>, teacherId: string, date: string, first: TeacherStatus, second: TeacherStatus)
    ensures Upsert(Upsert(records, MarkRecord(teacherId, date, first), TeacherAttendanceKey), MarkRecord(teacherId, date, second), TeacherAttendanceKey)
      == Upsert(records, MarkRecord(teacherId, date, second), TeacherAttendanceKey)
  {
    UpsertOverwrites(records, MarkRecord(teacherId, date, first), MarkRecord(teacherId, date, second), TeacherAttendanceKey);
  }

  /* --------------------------------------------------------------- counts */

  /** The teachers shown with a status: `Object.values(attendanceMap)`
      filtered to that status, counted. */
  function CountWith(m: map<string, TeacherStatus>, status: TeacherStatus): nat {
    |set k | k in m && m[k] == status|
  }

  /** Every marked teacher is counted exactly once, as present or absent. */
  lemma {:induction false} PresentPlusAbsent(m: map<string, TeacherStatus>)
    ensures CountWith(m, Present) + CountWith(m, Absent) == |m|
  {
    var p := set k | k in m && m[k] == Present;
    var a := set k | k in m && m[k] == Absent;
    assert p * a == {};
    assert p + a == m.Keys;
  }
}
