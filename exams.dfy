/** `components/ExamManager.tsx`: marks out of 100 for one exam type and one
    subject at a time, entered per student into a dictionary keyed by student
    id, graded on a fixed ladder and saved as one exam result per student. */
module Exams {
  import opened Wrappers
  import opened Collections
  import opened Types
  import opened Store

  const TotalMarks := 100

  /* ---------------------------------------------------------------- grade */

  datatype Grade = APlus | A | B | C | D | F {
    function Label(): string {
      match this
      case APlus => "A+"
      case A => "A"
      case B => "B"
      case C => "C"
      case D => "D"
      case F => "F"
    }

    /** The position on the ladder, F lowest. */
    function Rank(): nat {
      match this
      case APlus => 5
      case A => 4
      case B => 3
      case C => 2
      case D => 1
      case F => 0
    }
  }

  /** The grade ladder, as bands of marks: 90 and above A+, then steps of ten
      down to D from 40, F below 40. */
  function GradeOf(marks: int): (g: Grade)
    ensures g == APlus <==> 90 <= marks
    ensures g == A <==> 80 <= marks < 90
    ensures g == B <==> 70 <= marks < 80
    ensures g == C <==> 60 <= marks < 70
    ensures g == D <==> 40 <= marks < 60
    ensures g == F <==> marks < 40
  {
    if marks >= 90 then APlus
    else if marks >= 80 then A
    else if marks >= 70 then B
    else if marks >= 60 then C
    else if marks >= 40 then D
    else F
  }

  /** More marks never give a lower grade. */
  lemma {:induction false} GradeMonotone(m1: int, m2: int)
    requires m1 <= m2
    ensures GradeOf(m1).Rank() <= GradeOf(m2).Rank()
  {
  }

  /** The grade column: `-` for a student without marks. */
  function GradeCell(results: map<string, int>, studentId: string): (cell: string)
    ensures cell == "-" <==> studentId !in results
    ensures studentId in results ==> cell == GradeOf(results[studentId]).Label()
  {
    if studentId in results then GradeOf(results[studentId]).Label() else "-"
  }

  /* ---------------------------------------------------------- mark entry */

  /** What the marks input holds: empty, a number, or text that does not
      parse as one. */
  datatype MarkEntry = Blank | Number(value: int) | NotANumber

  /** Every mark in the dictionary lies between 0 and 100. */
  predicate MarksInRange(results: map<string, int>) {
    forall k :: k in results ==> 0 <= results[k] <= TotalMarks
  }

  /** `handleMarkChange`: clearing the input removes the mark, a number from
      0 to 100 sets it, anything else is ignored. Only the one student's
      entry can change, and marks stay within range. */
  function HandleMarkChange(results: map<string, int>, studentId: string, entry: MarkEntry): (r: map<string, int>)
    ensures forall k :: k != studentId ==> (k in r <==> k in results) && (k in r ==> r[k] == results[k])
    ensures entry.Blank? ==> studentId !in r
    ensures entry.Number? && 0 <= entry.value <= TotalMarks ==> studentId in r && r[studentId] == entry.value
    ensures !entry.Blank? && !(entry.Number? && 0 <= entry.value <= TotalMarks) ==> r == results
    ensures MarksInRange(results) ==> MarksInRange(r)
  {
    match entry
    case Blank => results - {studentId}
    case NotANumber => results
    case Number(v) => if v < 0 || v > TotalMarks then results else results[studentId := v]
  }

  /* ------------------------------------------------------------- loading */

  function ResultMatches(studentId: string, examType: ExamType, subject: string): ExamResult -> bool {
    (r: ExamResult) => r.studentId == studentId && r.examType == examType && r.subject == subject
  }

  function MatchFor(all: seq<ExamResult>, studentId: string, examType: ExamType, subject: string): Option<ExamResult> {
    Find(all, ResultMatches(studentId, examType, subject))
  }

  ghost predicate ListsId(students: seq<Student>, id: string) {
    exists i :: 0 <= i < |students| && students[i].id == id
  }

  /** The dictionary `loadResults` builds: for each listed student with a
      stored result of this exam and subject, the marks of the first such
      result. */
  function ResultsFor(all: seq<ExamResult>, students: seq<Student>, examType: ExamType, subject: string): (m: map<string, int>)
    ensures forall k :: k in m <==> ListsId(students, k) && MatchFor(all, k, examType, subject).Some?
    ensures forall k :: k in m ==> m[k] == MatchFor(all, k, examType, subject).value.marksObtained
  {
    if students == [] then map[]
    else
      var init := students[..|students| - 1];
      var s := students[|students| - 1];
      assert forall i :: 0 <= i < |init| ==> init[i] == students[i];
      var m := ResultsFor(all, init, examType, subject);
      match MatchFor(all, s.id, examType, subject)
      case Some(r) => m[s.id := r.marksObtained]
      case None => m
  }

  /** `loadResults`. */
  method LoadResults(db: DatabaseService, studentList: seq<Student>, examType: ExamType, subject: string)
    returns (mapping: map<string, int>)
    ensures mapping == ResultsFor(db.GetExams(), studentList, examType, subject)
  {
    var allResults := db.GetExams();
    mapping := map[];
    var i := 0;
    while i < |studentList|
      invariant 0 <= i <= |studentList|
      invariant mapping == ResultsFor(allResults, studentList[..i], examType, subject)
    {
      assert studentList[..i + 1][..i] == studentList[..i];
      var s := studentList[i];
      var found := Find(allResults, ResultMatches(s.id, examType, subject));
      if found.Some? {
        mapping := mapping[s.id := found.value.marksObtained];
      }
      i := i + 1;
    }
    assert studentList[..|studentList|] == studentList;
  }

  /* -------------------------------------------------------------- saving */

  /** The id a saved result gets: student, exam type and subject. */
  function ResultId(studentId: string, examType: ExamType, subject: string): string {
    studentId + "-" + examType.Name() + "-" + subject
  }

  function ResultFor(studentId: string, marks: int, examType: ExamType, subject: string): ExamResult {
    ExamResult(ResultId(studentId, examType, subject), studentId, subject, marks, TotalMarks, examType)
  }

  /** The results `saveAll` writes, in roster order: one per student with
      marks. */
  function ResultsToSave(students: seq<Student>, results: map<string, int>, examType: ExamType, subject: string): (rs: seq<ExamResult>)
    ensures forall z :: z in rs <==> (exists i :: 0 <= i < |students| && students[i].id in results
                                        && z == ResultFor(students[i].id, results[students[i].id], examType, subject))
  {
    if students == [] then []
    else
      var init := students[..|students| - 1];
      var s := students[|students| - 1];
      assert forall i :: 0 <= i < |init| ==> init[i] == students[i];
      var rs0 := ResultsToSave(init, results, examType, subject);
      ResultsToSaveStep(students, results, examType, subject, rs0);
      rs0 + (if s.id in results then [ResultFor(s.id, results[s.id], examType, subject)] else [])
  }

  /** One step of `saveAll`'s loop: the results for all but the last
      student, plus the last student's result if they have marks. */
  lemma {:induction false} ResultsToSaveStep(students: seq<Student>, results: map<string, int>, examType: ExamType, subject: string,
                          rs0: seq<ExamResult>)
    requires students != []
    requires forall z :: z in rs0 <==> (exists i :: 0 <= i < |students| - 1 && students[i].id in results
                                          && z == ResultFor(students[i].id, results[students[i].id], examType, subject))
    ensures var s := students[|students| - 1];
      var rs := rs0 + (if s.id in results then [ResultFor(s.id, results[s.id], examType, subject)] else []);
      forall z :: z in rs <==> (exists i :: 0 <= i < |students| && students[i].id in results
                                  && z == ResultFor(students[i].id, results[students[i].id], examType, subject))
  {
    var n := |students| - 1;
    var s := students[n];
    var rs := rs0 + (if s.id in results then [ResultFor(s.id, results[s.id], examType, subject)] else []);
    forall z
      ensures z in rs <==> (exists i :: 0 <= i < |students| && students[i].id in results
                              && z == ResultFor(students[i].id, results[students[i].id], examType, subject))
    {
      if z in rs0 {
        var i :| 0 <= i < n && students[i].id in results
          && z == ResultFor(students[i].id, results[students[i].id], examType, subject);
        assert 0 <= i < |students|;
      } else if z in rs {
        assert s.id in results && z == ResultFor(s.id, results[s.id], examType, subject);
      }
    }
  }

  /** One more student of the roster adds at most that student's result. */
  lemma {:induction false} ResultsToSavePrefix(students: seq<Student>, results: map<string, int>, examType: ExamType, subject: string, i: nat)
    requires i < |students|
    ensures ResultsToSave(students[..i + 1], results, examType, subject)
      == ResultsToSave(students[..i], results, examType, subject)
         + (if students[i].id in results then [ResultFor(students[i].id, results[students[i].id], examType, subject)] else [])
  {
    assert students[..i + 1][..i] == students[..i];
  }

  /** `saveAll`: saves, student by student, a result for everyone with marks. */
  method SaveAll(db: DatabaseService, students: seq<Student>, results: map<string, int>, examType: ExamType, subject: string)
    modifies db`exams
    ensures var rs := ResultsToSave(students, results, examType, subject);
      db.exams == if rs == [] then old(db.exams) else Some(UpsertAll(old(db.GetExams()), rs, ExamKey))
  {
    var i := 0;
    while i < |students|
      invariant 0 <= i <= |students|
      invariant ResultsToSave(students[..i], results, examType, subject) == [] ==> db.exams == old(db.exams)
      invariant ResultsToSave(students[..i], results, examType, subject) != [] ==>
        db.exams == Some(UpsertAll(old(db.GetExams()), ResultsToSave(students[..i], results, examType, subject), ExamKey))
    {
      var s := students[i];
      ghost var done := ResultsToSave(students[..i], results, examType, subject);
      assert db.GetExams() == UpsertAll(old(db.GetExams()), done, ExamKey);
      ResultsToSavePrefix(students, results, examType, subject, i);
      if s.id in results {
        var result := ResultFor(s.id, results[s.id], examType, subject);
        db.SaveExamResult(result);
        UpsertAllSnoc(old(db.GetExams()), done, result, ExamKey);
      } else {
        assert done + [] == done;
      }
      i := i + 1;
    }
    assert students[..|students|] == students;
  }

  /* ------------------------------------------------------- the round trip */

  /** Every stored result carries the id `saveAll` would give it. */
  ghost predicate WellKeyed(all: seq<ExamResult>) {
    forall i :: 0 <= i < |all| ==> all[i].id == ResultId(all[i].studentId, all[i].examType, all[i].subject)
  }

  /** For one exam type and subject, the result id tells the student. */
  lemma {:induction false} ResultIdInjective(s1: string, s2: string, examType: ExamType, subject: string)
    requires ResultId(s1, examType, subject) == ResultId(s2, examType, subject)
    ensures s1 == s2
  {
    var suffix := "-" + examType.Name() + "-" + subject;
    assert ResultId(s1, examType, subject) == s1 + suffix;
    assert ResultId(s2, examType, subject) == s2 + suffix;
    assert s1 == (s1 + suffix)[..|s1|];
    assert s2 == (s2 + suffix)[..|s2|];
  }

  lemma {:induction false} ResultsToSaveKeyDetermines(students: seq<Student>, results: map<string, int>, examType: ExamType, subject: string)
    ensures KeyDetermines(ResultsToSave(students, results, examType, subject), ExamKey)
  {
    var rs := ResultsToSave(students, results, examType, subject);
    forall i, j | 0 <= i < |rs| && 0 <= j < |rs| && ExamKey(rs[i]) == ExamKey(rs[j])
      ensures rs[i] == rs[j]
    {
      assert rs[i] in rs && rs[j] in rs;
      ResultIdInjective(rs[i].studentId, rs[j].studentId, examType, subject);
    }
  }

  /** Saving keeps the store well keyed and free of duplicate ids. */
  lemma {:induction false} SaveAllKeepsStoreWellFormed(all: seq<ExamResult>, students: seq<Student>, results: map<string, int>,
                                    examType: ExamType, subject: string)
    requires UniqueKeys(all, ExamKey) && WellKeyed(all)
    ensures var saved := UpsertAll(all, ResultsToSave(students, results, examType, subject), ExamKey);
      UniqueKeys(saved, ExamKey) && WellKeyed(saved)
  {
    var rs := ResultsToSave(students, results, examType, subject);
    var saved := UpsertAll(all, rs, ExamKey);
    UpsertAllKeepsUnique(all, rs, ExamKey);
    UpsertAllFrom(all, rs, ExamKey);
    forall i | 0 <= i < |saved|
      ensures saved[i].id == ResultId(saved[i].studentId, saved[i].examType, saved[i].subject)
    {
      assert saved[i] in saved;
    }
  }

  /** Marks saved by `saveAll` are what `loadResults` reads back for the same
      exam type and subject, for every listed student who had marks. */
  lemma {:induction false} SaveThenLoad(all: seq<ExamResult>, students: seq<Student>, results: map<string, int>,
                     examType: ExamType, subject: string)
    requires UniqueKeys(all, ExamKey) && WellKeyed(all)
    ensures var loaded := ResultsFor(UpsertAll(all, ResultsToSave(students, results, examType, subject), ExamKey),
                                     students, examType, subject);
      forall k :: k in results && ListsId(students, k) ==> k in loaded && loaded[k] == results[k]
  {
    var rs := ResultsToSave(students, results, examType, subject);
    var saved := UpsertAll(all, rs, ExamKey);
    ResultsToSaveKeyDetermines(students, results, examType, subject);
    UpsertAllContains(all, rs, ExamKey);
    SaveAllKeepsStoreWellFormed(all, students, results, examType, subject);
    forall k | k in results && ListsId(students, k)
      ensures MatchFor(saved, k, examType, subject) == Some(ResultFor(k, results[k], examType, subject))
    {
      var i :| 0 <= i < |students| && students[i].id == k;
      var e := ResultFor(k, results[k], examType, subject);
      assert e in rs;
      assert e in saved;
      var n :| 0 <= n < |saved| && saved[n] == e;
      var found := MatchFor(saved, k, examType, subject);
      assert ResultMatches(k, examType, subject)(saved[n]);
      var m := FirstWhere(saved, ResultMatches(k, examType, subject));
      assert saved[m].id == e.id;
      assert m == n;
    }
  }
}
