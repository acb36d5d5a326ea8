/** `components/AttendanceManager.tsx`: daily student attendance. The screen
    keeps a dictionary from student id to status for the selected date; every
    change is also saved as an attendance record, one per student and date. */
module Attendance {
  import opened Wrappers
  import opened Collections
  import opened Types
  import opened Store

  /** The length of an ISO date `YYYY-MM-DD`, the form every date takes. */
  const DateLength := 10

  function OnDate(date: string): AttendanceRecord -> bool {
    (r: AttendanceRecord) => r.date == date
  }

  function RecordStatus(r: AttendanceRecord): AttendanceStatus {
    r.status
  }

  /** The dictionary `loadAttendanceForDate` builds: each student with a
      record on the date gets the status of their last such record. */
  function DayMap(records: seq<AttendanceRecord>, date: string): map<string, AttendanceStatus> {
    LastByKey(Filter(records, OnDate(date)), AttendanceOwner, RecordStatus)
  }

  /** `loadAttendanceForDate`. */
  method LoadAttendanceForDate(db: DatabaseService, date: string) returns (m: map<string, AttendanceStatus>)
    ensures m == DayMap(db.GetAttendance(), date)
  {
    var records := Filter(db.GetAttendance(), OnDate(date));
    m := IndexLast(records, AttendanceOwner, RecordStatus);
  }

  /** The card of a student: the status shown (Present until marked) and
      whether the student is marked at all. */
  function DisplayStatus(attendanceMap: map<string, AttendanceStatus>, studentId: string): (shown: (AttendanceStatus, bool))
    ensures shown.1 <==> studentId in attendanceMap
    ensures shown.0 == if studentId in attendanceMap then attendanceMap[studentId] else Present
  {
    if studentId in attendanceMap then (attendanceMap[studentId], true) else (Present, false)
  }

  /* ------------------------------------------------------------- marking */

  /** The id of a new record: student and date. */
  function RecordId(studentId: string, date: string): string {
    studentId + "-" + date
  }

  function ForStudentOnDate(studentId: string, date: string): AttendanceRecord -> bool {
    (r: AttendanceRecord) => r.studentId == studentId && r.date == date
  }

  /** The record `updateStatus` saves: it reuses the id of the student's
      existing record for the date, if any. */
  function MarkRecord(records: seq<AttendanceRecord>, studentId: string, date: string, status: AttendanceStatus): (r: AttendanceRecord)
    ensures r.studentId == studentId && r.date == date && r.status == status
    ensures Find(records, ForStudentOnDate(studentId, date)).Some? ==> r.id == Find(records, ForStudentOnDate(studentId, date)).value.id
    ensures Find(records, ForStudentOnDate(studentId, date)).None? ==> r.id == RecordId(studentId, date)
  {
    var existing := Find(records, ForStudentOnDate(studentId, date));
    AttendanceRecord(if existing.Some? then existing.value.id else RecordId(studentId, date), studentId, date, status)
  }

  /** The stored records after `updateStatus`. */
  function UpdateRecords(records: seq<AttendanceRecord>, studentId: string, date: string, status: AttendanceStatus): seq<AttendanceRecord> {
    Upsert(records, MarkRecord(records, studentId, date, status), AttendanceKey)
  }

  /** `updateStatus`: records the status in the dictionary and saves it. */
  method UpdateStatus(db: DatabaseService, attendanceMap: map<string, AttendanceStatus>, studentId: string,
                      status: AttendanceStatus, selectedDate: string) returns (newMap: map<string, AttendanceStatus>)
    modifies db`attendance
    ensures newMap == attendanceMap[studentId := status]
    ensures db.attendance == Some(UpdateRecords(old(db.GetAttendance()), studentId, selectedDate, status))
  {
    newMap := attendanceMap[studentId := status];
    var existing := Find(db.GetAttendance(), ForStudentOnDate(studentId, selectedDate));
    var record := AttendanceRecord(if existing.Some? then existing.value.id else RecordId(studentId, selectedDate),
                                   studentId, selectedDate, status);
    db.SaveAttendance(record);
  }

  /* ------------------------------------------------------ the store's shape */

  /** Every record carries the id a first save gives it, over an ISO date. */
  ghost predicate WellKeyed(records: seq<AttendanceRecord>) {
    forall i :: 0 <= i < |records| ==>
      records[i].id == RecordId(records[i].studentId, records[i].date) && |records[i].date| == DateLength
  }

  /** At most one record per student and date. */
  ghost predicate OnePerDay(records: seq<AttendanceRecord>) {
    forall i, j :: 0 <= i < j < |records| ==>
      records[i].studentId != records[j].studentId || records[i].date != records[j].date
  }

  ghost predicate Consistent(records: seq<AttendanceRecord>) {
    WellKeyed(records) && OnePerDay(records)
  }

  /** Over dates of one length, a record id tells student and date apart. */
  lemma {:induction false} RecordIdInjective(s1: string, d1: string, s2: string, d2: string)
    requires |d1| == |d2| && RecordId(s1, d1) == RecordId(s2, d2)
    ensures s1 == s2 && d1 == d2
  {
    var x := RecordId(s1, d1);
    assert x == s1 + "-" + d1 && x == s2 + "-" + d2;
    assert |s1| == |s2|;
    assert s1 == x[..|s1|] && s2 == x[..|s2|];
    assert d1 == x[|x| - |d1|..] && d2 == x[|x| - |d2|..];
  }

  lemma {:induction false} ConsistentUniqueIds(records: seq<AttendanceRecord>)
    requires Consistent(records)
    ensures UniqueKeys(records, AttendanceKey)
  {
    forall i, j | 0 <= i < j < |records|
      ensures AttendanceKey(records[i]) != AttendanceKey(records[j])
    {
      if AttendanceKey(records[i]) == AttendanceKey(records[j]) {
        RecordIdInjective(records[i].studentId, records[i].date, records[j].studentId, records[j].date);
      }
    }
  }

  /** `m` is the dictionary of `date` over `records`: it holds exactly the
      students with a record on the date, each with that record's status. */
  ghost predicate Describes(m: map<string, AttendanceStatus>, records: seq<AttendanceRecord>, date: string) {
    && (forall k :: k in m <==> exists i :: 0 <= i < |records| && records[i].studentId == k && records[i].date == date)
    && (forall i :: 0 <= i < |records| && records[i].date == date ==>
          records[i].studentId in m && m[records[i].studentId] == records[i].status)
  }

  /** With one record per student and date, the day's dictionary is the one
      the records describe. */
  lemma {:induction false} DayMapOfOnePerDay(records: seq<AttendanceRecord>, date: string)
    requires OnePerDay(records)
    ensures Describes(DayMap(records, date), records, date)
  {
    FilterKeepsUnique(records, OnDate(date), AttendanceOwner);
    LastByKeyFilter(records, OnDate(date), AttendanceOwner, RecordStatus);
  }

  /** A status update replaces the student's record for the date, or adds
      one, and leaves every other record in place. */
  lemma {:induction false} UpdateRecordsContents(records: seq<AttendanceRecord>, studentId: string, date: string, status: AttendanceStatus)
    requires Consistent(records) && |date| == DateLength
    ensures var updated := UpdateRecords(records, studentId, date, status);
      && Consistent(updated)
      && (forall z :: z in updated <==>
            z == MarkRecord(records, studentId, date, status)
            || (z in records && (z.studentId != studentId || z.date != date)))
  {
    var rec := MarkRecord(records, studentId, date, status);
    var updated := UpdateRecords(records, studentId, date, status);
    ConsistentUniqueIds(records);
    var i0 := FirstWhere(records, ForStudentOnDate(studentId, date));
    if i0 >= 0 {
      var e := records[i0];
      assert rec.id == e.id == RecordId(studentId, date);
      var k := FirstWhere(records, KeyIs(AttendanceKey, rec.id));
      assert k == i0 by {
        assert KeyIs(AttendanceKey, rec.id)(records[i0]);
      }
      assert updated == records[i0 := rec];
      forall z | z in updated
        ensures z == rec || (z in records && (z.studentId != studentId || z.date != date))
      {
        var j :| 0 <= j < |updated| && updated[j] == z;
        if j != i0 {
          assert z == records[j];
        }
      }
      forall z | z in records && (z.studentId != studentId || z.date != date)
        ensures z in updated
      {
        var j :| 0 <= j < |records| && records[j] == z;
        assert updated[j] == z;
      }
    } else {
      assert rec.id == RecordId(studentId, date);
      assert !HasKey(records, AttendanceKey, rec.id) by {
        forall j | 0 <= j < |records|
          ensures AttendanceKey(records[j]) != rec.id
        {
          assert !ForStudentOnDate(studentId, date)(records[j]);
          if AttendanceKey(records[j]) == rec.id {
            RecordIdInjective(records[j].studentId, records[j].date, studentId, date);
          }
        }
      }
      assert updated == records + [rec];
      assert forall j :: 0 <= j < |records| ==> records[j].studentId != studentId || records[j].date != date by {
        forall j | 0 <= j < |records|
          ensures records[j].studentId != studentId || records[j].date != date
        {
          assert !ForStudentOnDate(studentId, date)(records[j]);
        }
      }
    }
  }

  /** Two stores that differ only in the record of one student on a date
      describe dictionaries of that date that differ only in that student. */
  lemma {:induction false} DescribesReplaced(m0: map<string, AttendanceStatus>, m1: map<string, AttendanceStatus>,
                          before: seq<AttendanceRecord>, after: seq<AttendanceRecord>, rec: AttendanceRecord)
    requires Describes(m0, before, rec.date) && Describes(m1, after, rec.date)
    requires forall z :: z in after <==> z == rec || (z in before && (z.studentId != rec.studentId || z.date != rec.date))
    ensures m1 == m0[rec.studentId := rec.status]
  {
    var date := rec.date;
    assert rec in after;
    var n :| 0 <= n < |after| && after[n] == rec;
    forall k | k in m1
      ensures k in m0[rec.studentId := rec.status]
    {
      var i :| 0 <= i < |after| && after[i].studentId == k && after[i].date == date;
      if k != rec.studentId {
        assert after[i] in after;
        var j :| 0 <= j < |before| && before[j] == after[i];
      }
    }
    forall k | k in m0[rec.studentId := rec.status]
      ensures k in m1 && m1[k] == m0[rec.studentId := rec.status][k]
    {
      if k != rec.studentId {
        var j :| 0 <= j < |before| && before[j].studentId == k && before[j].date == date;
        assert before[j] in after;
        var i :| 0 <= i < |after| && after[i] == before[j];
      }
    }
  }

  /** Two stores with the same records on a date describe the same
      dictionary of that date. */
  lemma {:induction false} DescribesSameDay(m0: map<string, AttendanceStatus>, m1: map<string, AttendanceStatus>,
                         before: seq<AttendanceRecord>, after: seq<AttendanceRecord>, date: string)
    requires Describes(m0, before, date) && Describes(m1, after, date)
    requires forall z: AttendanceRecord :: z.date == date ==> (z in after <==> z in before)
    ensures m1 == m0
  {
    forall k | k in m1
      ensures k in m0 && m1[k] == m0[k]
    {
      var i :| 0 <= i < |after| && after[i].studentId == k && after[i].date == date;
      assert after[i] in after;
      var j :| 0 <= j < |before| && before[j] == after[i];
    }
    forall k | k in m0
      ensures k in m1
    {
      var j :| 0 <= j < |before| && before[j].studentId == k && before[j].date == date;
      assert before[j] in before;
      var i :| 0 <= i < |after| && after[i] == before[j];
    }
  }

  /** Marking a student and reloading the day shows exactly that change. */
  lemma {:induction false} UpdateThenLoad(records: seq<AttendanceRecord>, studentId: string, date: string, status: AttendanceStatus)
    requires Consistent(records) && |date| == DateLength
    ensures DayMap(UpdateRecords(records, studentId, date, status), date) == DayMap(records, date)[studentId := status]
  {
    var updated := UpdateRecords(records, studentId, date, status);
    UpdateRecordsContents(records, studentId, date, status);
    DayMapOfOnePerDay(records, date);
    DayMapOfOnePerDay(updated, date);
    DescribesReplaced(DayMap(records, date), DayMap(updated, date), records, updated, MarkRecord(records, studentId, date, status));
  }

  /** Marking a student on one date leaves the dictionary of every other
      date as it was. */
  lemma {:induction false} UpdateLeavesOtherDays(records: seq<AttendanceRecord>, studentId: string, date: string, status: AttendanceStatus, other: string)
    requires Consistent(records) && |date| == DateLength && other != date
    ensures DayMap(UpdateRecords(records, studentId, date, status), other) == DayMap(records, other)
  {
    var updated := UpdateRecords(records, studentId, date, status);
    UpdateRecordsContents(records, studentId, date, status);
    DayMapOfOnePerDay(records, other);
    DayMapOfOnePerDay(updated, other);
    DescribesSameDay(DayMap(records, other), DayMap(updated, other), records, updated, other);
  }

  /* ------------------------------------------------------------ mark all */

  /** The dictionary after marking every listed student with one status. */
  function MarkAllMap(attendanceMap: map<string, AttendanceStatus>, students: seq<Student>, status: AttendanceStatus)
    : (m: map<string, AttendanceStatus>)
    ensures forall k :: k in m <==> k in attendanceMap || (exists i :: 0 <= i < |students| && students[i].id == k)
    ensures forall i :: 0 <= i < |students| ==> m[students[i].id] == status
    ensures forall k :: k in attendanceMap && (forall i :: 0 <= i < |students| ==> students[i].id != k) ==> m[k] == attendanceMap[k]
  {
    if students == [] then attendanceMap
    else
      var init := students[..|students| - 1];
      assert forall i :: 0 <= i < |init| ==> init[i] == students[i];
      var m0 := MarkAllMap(attendanceMap, init, status);
      MarkAllMapStep(attendanceMap, students, status, m0);
      m0[students[|students| - 1].id := status]
  }

  /** One step of marking: the dictionary for all but the last student,
      with the last one marked, is the dictionary for all of them. */
  lemma {:induction false} MarkAllMapStep(attendanceMap: map<string, AttendanceStatus>, students: seq<Student>, status: AttendanceStatus,
                       m0: map<string, AttendanceStatus>)
    requires students != []
    requires forall k :: k in m0 <==> k in attendanceMap || (exists i :: 0 <= i < |students| - 1 && students[i].id == k)
    requires forall i :: 0 <= i < |students| - 1 ==> m0[students[i].id] == status
    requires forall k :: k in attendanceMap && (forall i :: 0 <= i < |students| - 1 ==> students[i].id != k) ==> m0[k] == attendanceMap[k]
    ensures var m := m0[students[|students| - 1].id := status];
      && (forall k :: k in m <==> k in attendanceMap || (exists i :: 0 <= i < |students| && students[i].id == k))
      && (forall i :: 0 <= i < |students| ==> m[students[i].id] == status)
      && (forall k :: k in attendanceMap && (forall i :: 0 <= i < |students| ==> students[i].id != k) ==> m[k] == attendanceMap[k])
  {
    var n := |students| - 1;
    var m := m0[students[n].id := status];
    forall k
      ensures k in m <==> k in attendanceMap || (exists i :: 0 <= i < |students| && students[i].id == k)
    {
      if k == students[n].id {
        assert 0 <= n < |students| && students[n].id == k;
      } else if k in m0 && k !in attendanceMap {
        var i :| 0 <= i < n && students[i].id == k;
        assert 0 <= i < |students| && students[i].id == k;
      }
    }
    forall k | k in attendanceMap && (forall i :: 0 <= i < |students| ==> students[i].id != k)
      ensures m[k] == attendanceMap[k]
    {
      assert students[n].id != k;
    }
  }

  /** The stored records after marking every listed student, one after the other. */
  function MarkAllRecords(records: seq<AttendanceRecord>, students: seq<Student>, date: string, status: AttendanceStatus)
    : seq<AttendanceRecord>
  {
    if students == [] then records
    else UpdateRecords(MarkAllRecords(records, students[..|students| - 1], date, status), students[|students| - 1].id, date, status)
  }

  /** `markAll`, with the dictionary threaded from one update to the next. */
  method MarkAll(db: DatabaseService, attendanceMap: map<string, AttendanceStatus>, students: seq<Student>,
                 status: AttendanceStatus, selectedDate: string) returns (newMap: map<string, AttendanceStatus>)
    modifies db`attendance
    ensures newMap == MarkAllMap(attendanceMap, students, status)
    ensures db.attendance == if students == [] then old(db.attendance) else Some(MarkAllRecords(old(db.GetAttendance()), students, selectedDate, status))
  {
    newMap := attendanceMap;
    ghost var start, startSlot := db.GetAttendance(), db.attendance;
    var i := 0;
    while i < |students|
      invariant 0 <= i <= |students|
      invariant newMap == MarkAllMap(attendanceMap, students[..i], status)
      invariant i == 0 ==> db.attendance == startSlot
      invariant i > 0 ==> db.attendance == Some(MarkAllRecords(start, students[..i], selectedDate, status))
    {
      ghost var before := db.GetAttendance();
      assert before == MarkAllRecords(start, students[..i], selectedDate, status);
      MarkAllPrefix(attendanceMap, start, students, i, selectedDate, status);
      newMap := UpdateStatus(db, newMap, students[i].id, status, selectedDate);
      i := i + 1;
    }
    assert students[..|students|] == students;
  }

  /** Marking one more student of the list is one more `updateStatus`. */
  lemma {:induction false} MarkAllPrefix(attendanceMap: map<string, AttendanceStatus>, records: seq<AttendanceRecord>, students: seq<Student>,
                      i: nat, date: string, status: AttendanceStatus)
    requires i < |students|
    ensures MarkAllMap(attendanceMap, students[..i + 1], status) == MarkAllMap(attendanceMap, students[..i], status)[students[i].id := status]
    ensures MarkAllRecords(records, students[..i + 1], date, status)
      == UpdateRecords(MarkAllRecords(records, students[..i], date, status), students[i].id, date, status)
  {
    assert students[..i + 1][..i] == students[..i];
  }

  /** After marking everyone, reloading the day shows everyone with that
      status, on top of what the day showed before. */
  lemma {:induction false} MarkAllThenLoad(records: seq<AttendanceRecord>, students: seq<Student>, date: string, status: AttendanceStatus)
    requires Consistent(records) && |date| == DateLength
    ensures Consistent(MarkAllRecords(records, students, date, status))
    ensures DayMap(MarkAllRecords(records, students, date, status), date) == MarkAllMap(DayMap(records, date), students, status)
  {
    if students != [] {
      var init := students[..|students| - 1];
      var last := students[|students| - 1];
      MarkAllThenLoad(records, init, date, status);
      var mid := MarkAllRecords(records, init, date, status);
      UpdateRecordsContents(mid, last.id, date, status);
      UpdateThenLoad(mid, last.id, date, status);
    }
  }

  /* ------------------------------------------- mark all, as the screen does */

  /** What the screen's dictionary becomes after `markAll` as written: every
      `updateStatus` call copies the dictionary of the same render, so each
      call overwrites the previous one and only the last student shows as
      marked. The store is updated for every student. */
  function MarkAllMapAsWritten(attendanceMap: map<string, AttendanceStatus>, students: seq<Student>, status: AttendanceStatus)
    : (m: map<string, AttendanceStatus>)
    ensures students == [] ==> m == attendanceMap
    ensures students != [] ==> m == attendanceMap[students[|students| - 1].id := status]
  {
    if students == [] then attendanceMap
    else attendanceMap[students[|students| - 1].id := status]
  }

  /** Two unmarked students, "All Present": the store holds a record for the
      first one, but the screen still shows them as unmarked. */
  lemma {:induction false} MarkAllAsWrittenLosesUpdates(s1: Student, s2: Student)
    requires s1.id != s2.id
    ensures var stored := MarkAllRecords([], [s1, s2], "2024-07-01", Present);
      && s1.id in DayMap(stored, "2024-07-01")
      && s1.id !in MarkAllMapAsWritten(map[], [s1, s2], Present)
      && s1.id in MarkAllMap(map[], [s1, s2], Present)
  {
    MarkAllThenLoad([], [s1, s2], "2024-07-01", Present);
    assert [s1, s2][0] == s1;
  }
}
