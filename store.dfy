/** `services/db.ts`: the record store. Each localStorage key holding a JSON
    array becomes a field holding `None` (the key was never written) or
    `Some(list)`; every read re-reads the whole list and every write replaces
    it, so serialisation itself is not modelled. */
module Store {
  import opened Wrappers
  import opened Collections
  import opened Types

  /** The roll number handed out when there are no students. */
  const FirstRollNo := 1001

  /** `Math.max(...students.map(s => s.rollNo))` on a non-empty list. */
  function MaxRollNo(students: seq<Student>): (m: int)
    requires students != []
    ensures forall i :: 0 <= i < |students| ==> students[i].rollNo <= m
    ensures exists i :: 0 <= i < |students| && students[i].rollNo == m
  {
    if |students| == 1 then students[0].rollNo
    else
      var rest := MaxRollNo(students[1..]);
      if students[0].rollNo > rest then students[0].rollNo else rest
  }

  /** `getNextRollNo`: 1001 for no students, otherwise one past the largest
      roll number, so it is larger than every roll number in use. */
  function NextRollNo(students: seq<Student>): (r: int)
    ensures students == [] ==> r == FirstRollNo
    ensures forall i :: 0 <= i < |students| ==> students[i].rollNo < r
    ensures students != [] ==> exists i :: 0 <= i < |students| && students[i].rollNo == r - 1
  {
    if students == [] then FirstRollNo else MaxRollNo(students) + 1
  }

  /** What `initializeData` does to one key: write `[]` only if absent. The
      list a reader sees is the same before and after. */
  function InitSlot<T>(slot: Option<seq<T>>): (r: Option<seq<T>>)
    ensures r.Some?
    ensures slot.Some? ==> r == slot
    ensures r.GetOr([]) == slot.GetOr([])
  {
    if slot.None? then Some([]) else slot
  }

  class DatabaseService {
    var students: Option<seq<Student>>
    var teachers: Option<seq<Teacher>>
    var teacherAttendance: Option<seq<TeacherAttendance>>
    var fees: Option<seq<FeeRecord>>
    var attendance: Option<seq<AttendanceRecord>>
    var exams: Option<seq<ExamResult>>

    /** A browser whose localStorage holds none of the keys. */
    constructor ()
      ensures students == None && teachers == None && teacherAttendance == None
      ensures fees == None && attendance == None && exams == None
    {
      students, teachers, teacherAttendance := None, None, None;
      fees, attendance, exams := None, None, None;
    }

    /* ------------------------------------------------------------ teachers */

    function GetTeachers(): (r: seq<Teacher>)
      reads this
      ensures teachers.None? ==> r == []
      ensures teachers.Some? ==> r == teachers.value
    {
      teachers.GetOr([])
    }

    method SaveTeacher(teacher: Teacher)
      modifies this`teachers
      ensures teachers == Some(Upsert(old(GetTeachers()), teacher, TeacherKey))
    {
      var list := GetTeachers();
      var i := FindIndex(list, KeyIs(TeacherKey, teacher.id));
      if i >= 0 {
        list := list[i := teacher];
      } else {
        list := list + [teacher];
      }
      teachers := Some(list);
    }

    /** Removes the teacher only; their attendance records stay. */
    method DeleteTeacher(id: string)
      modifies this`teachers
      ensures teachers == Some(Filter(old(GetTeachers()), KeyIsNot(TeacherKey, id)))
    {
      teachers := Some(Filter(GetTeachers(), KeyIsNot(TeacherKey, id)));
    }

    function GetTeacherAttendance(): (r: seq<TeacherAttendance>)
      reads this
      ensures teacherAttendance.None? ==> r == []
      ensures teacherAttendance.Some? ==> r == teacherAttendance.value
    {
      teacherAttendance.GetOr([])
    }

    method SaveTeacherAttendance(record: TeacherAttendance)
      modifies this`teacherAttendance
      ensures teacherAttendance == Some(Upsert(old(GetTeacherAttendance()), record, TeacherAttendanceKey))
    {
      var list := GetTeacherAttendance();
      var i := FindIndex(list, KeyIs(TeacherAttendanceKey, record.id));
      if i >= 0 {
        list := list[i := record];
      } else {
        list := list + [record];
      }
      teacherAttendance := Some(list);
    }

    function GetTeacherCount(): (n: nat)
      reads this
      ensures n == |GetTeachers()|
    {
      |GetTeachers()|
    }

    /* ------------------------------------------------------------ students */

    function GetStudents(): (r: seq<Student>)
      reads this
      ensures students.None? ==> r == []
      ensures students.Some? ==> r == students.value
    {
      students.GetOr([])
    }

    method SaveStudent(student: Student)
      modifies this`students
      ensures students == Some(Upsert(old(GetStudents()), student, StudentKey))
    {
      var list := GetStudents();
      var i := FindIndex(list, KeyIs(StudentKey, student.id));
      if i >= 0 {
        list := list[i := student];
      } else {
        list := list + [student];
      }
      students := Some(list);
    }

    /** Removes the student and, in cascade, every fee, attendance and exam
        record whose `studentId` is theirs. */
    method DeleteStudent(id: string)
      modifies this`students, this`fees, this`attendance, this`exams
      ensures students == Some(Filter(old(GetStudents()), KeyIsNot(StudentKey, id)))
      ensures fees == Some(Filter(old(GetFees()), KeyIsNot(FeeOwner, id)))
      ensures attendance == Some(Filter(old(GetAttendance()), KeyIsNot(AttendanceOwner, id)))
      ensures exams == Some(Filter(old(GetExams()), KeyIsNot(ExamOwner, id)))
    {
      students := Some(Filter(GetStudents(), KeyIsNot(StudentKey, id)));
      CleanupRelatedRecords(id);
    }

    method CleanupRelatedRecords(studentId: string)
      modifies this`fees, this`attendance, this`exams
      ensures fees == Some(Filter(old(GetFees()), KeyIsNot(FeeOwner, studentId)))
      ensures attendance == Some(Filter(old(GetAttendance()), KeyIsNot(AttendanceOwner, studentId)))
      ensures exams == Some(Filter(old(GetExams()), KeyIsNot(ExamOwner, studentId)))
    {
      fees := Some(Filter(GetFees(), KeyIsNot(FeeOwner, studentId)));
      attendance := Some(Filter(GetAttendance(), KeyIsNot(AttendanceOwner, studentId)));
      exams := Some(Filter(GetExams(), KeyIsNot(ExamOwner, studentId)));
    }

    function GetNextRollNo(): (r: int)
      reads this
      ensures r == NextRollNo(GetStudents())
      ensures GetStudents() == [] ==> r == FirstRollNo
      ensures GetStudents() != [] ==> r == MaxRollNo(GetStudents()) + 1
      ensures forall i :: 0 <= i < |GetStudents()| ==> GetStudents()[i].rollNo < r
    {
      NextRollNo(GetStudents())
    }

    /* ---------------------------------------------------------------- fees */

    function GetFees(): (r: seq<FeeRecord>)
      reads this
      ensures fees.None? ==> r == []
      ensures fees.Some? ==> r == fees.value
    {
      fees.GetOr([])
    }

    method SaveFeeRecord(record: FeeRecord)
      modifies this`fees
      ensures fees == Some(Upsert(old(GetFees()), record, FeeKey))
    {
      var list := GetFees();
      var i := FindIndex(list, KeyIs(FeeKey, record.id));
      if i >= 0 {
        list := list[i := record];
      } else {
        list := list + [record];
      }
      fees := Some(list);
    }

    /* ---------------------------------------------------------- attendance */

    function GetAttendance(): (r: seq<AttendanceRecord>)
      reads this
      ensures attendance.None? ==> r == []
      ensures attendance.Some? ==> r == attendance.value
    {
      attendance.GetOr([])
    }

    method SaveAttendance(record: AttendanceRecord)
      modifies this`attendance
      ensures attendance == Some(Upsert(old(GetAttendance()), record, AttendanceKey))
    {
      var list := GetAttendance();
      var i := FindIndex(list, KeyIs(AttendanceKey, record.id));
      if i >= 0 {
        list := list[i := record];
      } else {
        list := list + [record];
      }
      attendance := Some(list);
    }

    /* --------------------------------------------------------------- exams */

    function GetExams(): (r: seq<ExamResult>)
      reads this
      ensures exams.None? ==> r == []
      ensures exams.Some? ==> r == exams.value
    {
      exams.GetOr([])
    }

    method SaveExamResult(result: ExamResult)
      modifies this`exams
      ensures exams == Some(Upsert(old(GetExams()), result, ExamKey))
    {
      var list := GetExams();
      var i := FindIndex(list, KeyIs(ExamKey, result.id));
      if i >= 0 {
        list := list[i := result];
      } else {
        list := list + [result];
      }
      exams := Some(list);
    }

    /* ------------------------------------------------------ initialisation */

    /** Writes an empty student list and an empty teacher list where none is
        stored yet; existing data is never touched. */
    method InitializeData()
      modifies this`students, this`teachers
      ensures students == InitSlot(old(students))
      ensures teachers == InitSlot(old(teachers))
    {
      if students.None? {
        students := Some([]);
      }
      if teachers.None? {
        teachers := Some([]);
      }
    }
  }
}
