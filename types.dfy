/** The records of `types.ts`. Every record is a value: the application
    never holds a live reference from one record to another, only ids. */
module Types {
  import opened Wrappers

  datatype Student = Student(
    id: string,
    rollNo: int,
    fullName: string,
    gender: string,          // 'Male' | 'Female' | 'Other', or '' while the form's select is unset
    dateOfBirth: string,
    contactNumber: string,
    address: string,
    className: string,
    section: string,
    admissionDate: string)

  datatype Teacher = Teacher(
    id: string,
    fullName: string,
    email: string,
    subject: string,
    qualification: string,
    phone: string,
    salary: int,
    joinDate: string)

  datatype AttendanceStatus = Present | Absent | Late | Excused

  /** A teacher is only ever marked present or absent. */
  type TeacherStatus = s: AttendanceStatus | s == Present || s == Absent witness Present

  datatype TeacherAttendance = TeacherAttendance(id: string, teacherId: string, date: string, status: TeacherStatus)

  /** The payment form offers CHEQUE besides the three modes `types.ts`
      declares, and stores it unchecked; the model admits all four. */
  datatype PaymentMode = Upi | Cash | Online | Cheque

  type Semester = s: int | s == 1 || s == 2 witness 1

  datatype Transaction = Transaction(id: string, date: string, amount: int, mode: PaymentMode, semester: Semester)

  datatype FeeRecord = FeeRecord(
    id: string,
    studentId: string,
    academicYear: string,
    semester1Paid: bool,
    semester2Paid: bool,
    lastPaymentDate: Option<string>,
    transactions: Option<seq<Transaction>>)
  {
    /** `record.transactions || []`: a record stored without a list has none. */
    function Txns(): seq<Transaction> {
      transactions.GetOr([])
    }
  }

  datatype AttendanceRecord = AttendanceRecord(id: string, studentId: string, date: string, status: AttendanceStatus)

  datatype ExamType = MidTerm | Final {
    /** The string stored in `examType` and used in result ids. */
    function Name(): string {
      match this
      case MidTerm => "Mid-Term"
      case Final => "Final"
    }
  }

  datatype ExamResult = ExamResult(
    id: string,
    studentId: string,
    subject: string,
    marksObtained: int,
    totalMarks: int,
    examType: ExamType)

  /* The `id` of each record, the key every save looks records up by. */

  function StudentKey(s: Student): string { s.id }
  function TeacherKey(t: Teacher): string { t.id }
  function TeacherAttendanceKey(a: TeacherAttendance): string { a.id }
  function FeeKey(f: FeeRecord): string { f.id }
  function AttendanceKey(a: AttendanceRecord): string { a.id }
  function ExamKey(e: ExamResult): string { e.id }

  /* The `studentId` a record belongs to, which deleting a student cleans up by. */

  function FeeOwner(f: FeeRecord): string { f.studentId }
  function AttendanceOwner(a: AttendanceRecord): string { a.studentId }
  function ExamOwner(e: ExamResult): string { e.studentId }
}
