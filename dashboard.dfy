/** `components/Dashboard.tsx`, `updateStats`: the figures of the home
    screen, computed afresh from the store's lists. `today` stands for the
    current date. */
module Dashboard {
  import opened Wrappers
  import opened Collections
  import opened Types
  import opened Store
  import Fees
  import Exams
  import Attendance

  /* -------------------------------------------------------------- revenue */

  /** What one fee record adds to the revenue: the full fee for each
      semester whose cached flag is set, nothing for partial payments. */
  function FlagRevenue(r: FeeRecord): int {
    (if r.semester1Paid then Fees.SemesterFee else 0) + (if r.semester2Paid then Fees.SemesterFee else 0)
  }

  /** The revenue figure: a reduce over the fee records. */
  function Revenue(fees: seq<FeeRecord>): int {
    SumOf(fees, FlagRevenue)
  }

  function Semester1Flag(r: FeeRecord): bool { r.semester1Paid }
  function Semester2Flag(r: FeeRecord): bool { r.semester2Paid }

  /** The revenue is the fee times the number of set flags. */
  lemma {:induction false} RevenueCountsFlags(fees: seq<FeeRecord>)
    ensures Revenue(fees) == Fees.SemesterFee * (|Filter(fees, Semester1Flag)| + |Filter(fees, Semester2Flag)|)
  {
    if fees != [] {
      RevenueCountsFlags(fees[1..]);
    }
  }

  /** When every record's flags agree with its transactions and no semester
      has a negative total, the revenue never exceeds what was collected. */
  lemma {:induction false} RevenueAtMostCollected(fees: seq<FeeRecord>)
    requires forall i :: 0 <= i < |fees| ==>
      Fees.FlagsInSync(fees[i]) && Fees.SemesterPaid(fees[i], 1) >= 0 && Fees.SemesterPaid(fees[i], 2) >= 0
    ensures Revenue(fees) <= Fees.TotalCollected(fees)
  {
    if fees != [] {
      Fees.RecordTotalSplit(fees[0]);
      assert forall i :: 0 <= i < |fees[1..]| ==> fees[1..][i] == fees[i + 1];
      RevenueAtMostCollected(fees[1..]);
    }
  }

  /** A partial payment counts towards what was collected but not towards
      the revenue figure. */
  lemma {:induction false} PartialPaymentNotInRevenue(studentId: string, academicYear: string, txn: Transaction)
    requires 0 < txn.amount < Fees.SemesterFee
    ensures var r := FeeRecord(studentId + "-" + academicYear, studentId, academicYear, false, false, None, Some([txn]));
      && Fees.FlagsInSync(r)
      && Revenue([r]) == 0
      && Fees.TotalCollected([r]) == txn.amount
  {
    var r := FeeRecord(studentId + "-" + academicYear, studentId, academicYear, false, false, None, Some([txn]));
    var other: Semester := if txn.semester == 1 then 2 else 1;
    assert [txn][1..] == [] && [r][1..] == [];
    assert Filter([txn], Fees.InSemester(txn.semester)) == [txn];
    assert Filter([txn], Fees.InSemester(other)) == [];
    assert r.Txns() == [txn];
    assert SumOf([txn], Fees.Amount) == txn.amount + SumOf([], Fees.Amount);
    assert Fees.SemesterPaid(r, txn.semester) == txn.amount;
    assert Fees.SemesterPaid(r, other) == 0;
    assert Fees.RecordTotal(r) == txn.amount;
    assert SumOf([r], FlagRevenue) == FlagRevenue(r) + SumOf([], FlagRevenue);
    assert SumOf([r], Fees.RecordTotal) == Fees.RecordTotal(r) + SumOf([], Fees.RecordTotal);
  }

  /* -------------------------------------------------------- present today */

  function PresentOn(today: string): AttendanceRecord -> bool {
    (a: AttendanceRecord) => a.date == today && a.status == Present
  }

  /** The records of today with status Present, counted. */
  function PresentToday(attendance: seq<AttendanceRecord>, today: string): nat {
    |Filter(attendance, PresentOn(today))|
  }

  /** The students the attendance screen shows as present on a date. */
  function ShownPresent(m: map<string, AttendanceStatus>): set<string> {
    set k | k in m && m[k] == Present
  }

  /** Every student with a present record on the date is shown present. */
  lemma {:induction false} PresentRecordShown(attendance: seq<AttendanceRecord>, today: string, day: map<string, AttendanceStatus>)
    requires Attendance.Describes(day, attendance, today)
    ensures forall k :: k in LastByKey(Filter(attendance, PresentOn(today)), AttendanceOwner, Attendance.RecordStatus) ==>
      k in ShownPresent(day)
  {
    var ps := Filter(attendance, PresentOn(today));
    forall k | k in LastByKey(ps, AttendanceOwner, Attendance.RecordStatus)
      ensures k in ShownPresent(day)
    {
      var i :| 0 <= i < |ps| && ps[i].studentId == k;
      assert ps[i] in attendance;
      var j :| 0 <= j < |attendance| && attendance[j] == ps[i];
      assert attendance[j].date == today;
    }
  }

  /** Every student shown present has a present record on the date. */
  lemma {:induction false} ShownHasPresentRecord(attendance: seq<AttendanceRecord>, today: string, day: map<string, AttendanceStatus>)
    requires Attendance.Describes(day, attendance, today)
    ensures forall k :: k in ShownPresent(day) ==>
      k in LastByKey(Filter(attendance, PresentOn(today)), AttendanceOwner, Attendance.RecordStatus)
  {
    var ps := Filter(attendance, PresentOn(today));
    forall k | k in ShownPresent(day)
      ensures k in LastByKey(ps, AttendanceOwner, Attendance.RecordStatus)
    {
      var j :| 0 <= j < |attendance| && attendance[j].studentId == k && attendance[j].date == today;
      assert attendance[j].status == Present;
      assert attendance[j] in ps;
      var i :| 0 <= i < |ps| && ps[i] == attendance[j];
      assert AttendanceOwner(ps[i]) == k;
    }
  }

  /** With one record per student and date, the figure is the number of
      students the attendance screen shows as present today. */
  lemma {:induction false} PresentTodayMatchesAttendanceScreen(attendance: seq<AttendanceRecord>, today: string)
    requires Attendance.OnePerDay(attendance)
    ensures PresentToday(attendance, today) == |ShownPresent(Attendance.DayMap(attendance, today))|
  {
    var ps := Filter(attendance, PresentOn(today));
    Attendance.DayMapOfOnePerDay(attendance, today);
    FilterKeepsUnique(attendance, PresentOn(today), AttendanceOwner);
    LastByKeyCount(ps, AttendanceOwner, Attendance.RecordStatus);
    var day := Attendance.DayMap(attendance, today);
    PresentRecordShown(attendance, today, day);
    ShownHasPresentRecord(attendance, today, day);
    assert LastByKey(ps, AttendanceOwner, Attendance.RecordStatus).Keys == ShownPresent(day);
  }

  /* ------------------------------------------------------------ pass rate */

  /** The pass mark: 40 and above passes. */
  const PassMark := 40

  function Passed(e: ExamResult): bool {
    e.marksObtained >= PassMark
  }

  /** A result passes exactly when its grade is not F. */
  lemma {:induction false} PassedIffNotF(e: ExamResult)
    ensures Passed(e) <==> Exams.GradeOf(e.marksObtained) != Exams.F
  {
  }

  /** Cancelling a positive factor. */
  lemma {:induction false} CancelFactor(d: int, a: int, b: int)
    requires d > 0 && d * a < d * b
    ensures a < b
  {
  }

  /** `(200 * passed + total) / (2 * total)` is `100 * passed / total`
      rounded half up, and lies between 0 and 100. */
  lemma {:induction false} RoundedPercent(passed: int, total: int)
    requires 0 <= passed <= total && 0 < total
    ensures var r := (200 * passed + total) / (2 * total);
      && 2 * total * r <= 200 * passed + total < 2 * total * (r + 1)
      && 0 <= r <= 100
  {
    var x, d := 200 * passed + total, 2 * total;
    var r := x / d;
    assert x == d * r + x % d && 0 <= x % d < d;
    assert d * (r + 1) == d * r + d;
    CancelFactor(d, r, 101);
    CancelFactor(d, -1, r);
  }

  /** The pass rate in percent, rounded half up, or 0 without results. */
  function PassRate(exams: seq<ExamResult>): (rate: int)
    ensures exams == [] ==> rate == 0
    ensures exams != [] ==>
      var passed, total := |Filter(exams, Passed)|, |exams|;
      2 * total * rate <= 200 * passed + total < 2 * total * (rate + 1)
    ensures 0 <= rate <= 100
  {
    if |exams| == 0 then 0
    else
      var passed, total := |Filter(exams, Passed)|, |exams|;
      RoundedPercent(passed, total);
      (200 * passed + total) / (2 * total)
  }

  /** Everyone passing gives 100, nobody passing gives 0. */
  lemma {:induction false} PassRateExtremes(exams: seq<ExamResult>)
    requires exams != []
    ensures (forall i :: 0 <= i < |exams| ==> Passed(exams[i])) ==> PassRate(exams) == 100
    ensures (forall i :: 0 <= i < |exams| ==> !Passed(exams[i])) ==> PassRate(exams) == 0
  {
    var n, r := |exams|, PassRate(exams);
    if forall i :: 0 <= i < |exams| ==> Passed(exams[i]) {
      FilterKeepsAll(exams, Passed);
      assert 2 * n * 100 < 2 * n * (r + 1);
      CancelFactor(2 * n, 100, r + 1);
    }
    if forall i :: 0 <= i < |exams| ==> !Passed(exams[i]) {
      assert Filter(exams, Passed) == [];
      assert 2 * n * r < 2 * n * 1;
      CancelFactor(2 * n, r, 1);
    }
  }

  /* --------------------------------------------------------------- gender */

  function IsMale(s: Student): bool { s.gender == "Male" }
  function IsFemale(s: Student): bool { s.gender == "Female" }

  function MaleCount(students: seq<Student>): nat { |Filter(students, IsMale)| }
  function FemaleCount(students: seq<Student>): nat { |Filter(students, IsFemale)| }

  /** Nobody is counted twice: a student of any other gender is in
      neither count. */
  lemma {:induction false} GenderCountsBounded(students: seq<Student>)
    ensures MaleCount(students) + FemaleCount(students) <= |students|
  {
    FilterDisjointCount(students, IsMale, IsFemale);
  }

  /* ---------------------------------------------------------------- stats */

  datatype Stats = Stats(
    totalStudents: nat,
    totalTeachers: nat,
    totalRevenue: int,
    attendanceToday: nat,
    passPercentage: int,
    maleCount: nat,
    femaleCount: nat)

  /** `updateStats`: every figure read from the store's current lists. */
  function UpdateStats(db: DatabaseService, today: string): (st: Stats)
    reads db
    ensures st.totalStudents == |db.GetStudents()| && st.totalTeachers == |db.GetTeachers()|
    ensures st.totalRevenue == Fees.SemesterFee * (|Filter(db.GetFees(), Semester1Flag)| + |Filter(db.GetFees(), Semester2Flag)|)
    ensures st.passPercentage == PassRate(db.GetExams()) && 0 <= st.passPercentage <= 100
    ensures st.maleCount == MaleCount(db.GetStudents()) && st.femaleCount == FemaleCount(db.GetStudents())
    ensures st.maleCount + st.femaleCount <= st.totalStudents
    ensures st.attendanceToday == PresentToday(db.GetAttendance(), today)
    ensures st.attendanceToday <= |db.GetAttendance()|
  {
    var students := db.GetStudents();
    RevenueCountsFlags(db.GetFees());
    GenderCountsBounded(students);
    Stats(|students|, db.GetTeacherCount(), Revenue(db.GetFees()), PresentToday(db.GetAttendance(), today),
          PassRate(db.GetExams()), MaleCount(students), FemaleCount(students))
  }
}
