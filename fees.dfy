/** `components/FeesManager.tsx`: semester fees of 11000 per student per
    semester, paid in instalments. A semester's status is derived from the
    sum of its transactions; the two boolean flags of a fee record are kept
    in step with it on every payment. */
module Fees {
  import opened Wrappers
  import opened Collections
  import opened Text
  import opened Types
  import opened Store

  const SemesterFee := 11000

  datatype FeeStatus = Paid | Partial | Pending

  datatype SemesterStats = SemesterStats(paid: int, due: int, status: FeeStatus)

  /* ------------------------------------------------------ semester totals */

  function InSemester(semester: Semester): Transaction -> bool {
    (t: Transaction) => t.semester == semester
  }

  function Amount(t: Transaction): int {
    t.amount
  }

  /** What has been paid towards one semester of a record. */
  function SemesterPaid(record: FeeRecord, semester: Semester): int {
    SumOf(Filter(record.Txns(), InSemester(semester)), Amount)
  }

  /** The status ladder: PAID from the full fee upwards, PARTIAL for any
      positive amount below it, PENDING otherwise. */
  function StatusOf(paid: int): (s: FeeStatus)
    ensures s == Paid <==> paid >= SemesterFee
    ensures s == Partial <==> 0 < paid < SemesterFee
    ensures s == Pending <==> paid <= 0
  {
    if paid >= SemesterFee then Paid else if paid > 0 then Partial else Pending
  }

  /** `getSemesterStats`: what was paid, what is still due, and the status. */
  function GetSemesterStats(record: FeeRecord, semester: Semester): (st: SemesterStats)
    ensures st.paid == SemesterPaid(record, semester)
    ensures st.paid + st.due == SemesterFee
    ensures st.status == StatusOf(st.paid)
    ensures st.status == Paid <==> st.due <= 0
  {
    var paid := SemesterPaid(record, semester);
    SemesterStats(paid, SemesterFee - paid, StatusOf(paid))
  }

  /** The paid amount does not depend on the order of the transactions. */
  lemma {:induction false} SemesterPaidPermutation(r1: FeeRecord, r2: FeeRecord, semester: Semester)
    requires multiset(r1.Txns()) == multiset(r2.Txns())
    ensures SemesterPaid(r1, semester) == SemesterPaid(r2, semester)
  {
    FilterPermutation(r1.Txns(), r2.Txns(), InSemester(semester));
    SumOfPermutation(Filter(r1.Txns(), InSemester(semester)), Filter(r2.Txns(), InSemester(semester)), Amount);
  }

  /** Everything a record holds is paid towards one semester or the other. */
  lemma {:induction false} RecordTotalSplit(record: FeeRecord)
    ensures RecordTotal(record) == SemesterPaid(record, 1) + SemesterPaid(record, 2)
  {
    var txns := record.Txns();
    SumOfSplit(txns, InSemester(1), Amount);
    FilterAgree(txns, Not(InSemester(1)), InSemester(2));
  }

  /* ----------------------------------------------------------- fee record */

  function ForStudentYear(studentId: string, academicYear: string): FeeRecord -> bool {
    (f: FeeRecord) => f.studentId == studentId && f.academicYear == academicYear
  }

  /** The record used for a student with nothing stored for the year. */
  function BlankRecord(studentId: string, academicYear: string): FeeRecord {
    FeeRecord(studentId + "-" + academicYear, studentId, academicYear, false, false, None, Some([]))
  }

  /** `getFeeRecord`: the first stored record of the student for the year,
      or a blank one with no transactions. */
  function GetFeeRecord(fees: seq<FeeRecord>, studentId: string, academicYear: string): (r: FeeRecord)
    ensures r.studentId == studentId && r.academicYear == academicYear
    ensures HasRecord(fees, studentId, academicYear) ==>
      r in fees && r == fees[FirstWhere(fees, ForStudentYear(studentId, academicYear))]
    ensures !HasRecord(fees, studentId, academicYear) ==>
      r.id == studentId + "-" + academicYear && r.Txns() == [] && !r.semester1Paid && !r.semester2Paid
  {
    match Find(fees, ForStudentYear(studentId, academicYear))
    case Some(existing) => existing
    case None => BlankRecord(studentId, academicYear)
  }

  ghost predicate HasRecord(fees: seq<FeeRecord>, studentId: string, academicYear: string) {
    exists i :: 0 <= i < |fees| && fees[i].studentId == studentId && fees[i].academicYear == academicYear
  }

  /** A student without a record owes the whole fee for both semesters. */
  lemma {:induction false} BlankRecordPending(fees: seq<FeeRecord>, studentId: string, academicYear: string, semester: Semester)
    requires !HasRecord(fees, studentId, academicYear)
    ensures GetSemesterStats(GetFeeRecord(fees, studentId, academicYear), semester) == SemesterStats(0, SemesterFee, Pending)
  {
    assert GetFeeRecord(fees, studentId, academicYear).Txns() == [];
  }

  function StatusFor(fees: seq<FeeRecord>, academicYear: string, s: Student, semester: Semester): FeeStatus {
    GetSemesterStats(GetFeeRecord(fees, s.id, academicYear), semester).status
  }

  /* ------------------------------------------------------------ aggregates */

  function TotalExpectedRevenue(students: seq<Student>): (n: int)
    ensures n == |students| * (2 * SemesterFee)
  {
    |students| * SemesterFee * 2
  }

  /** The sum of every transaction of a record, whatever its semester. */
  function RecordTotal(record: FeeRecord): int {
    SumOf(record.Txns(), Amount)
  }

  /** `totalCollected`: every transaction of every stored record, whichever
      year or student it belongs to. */
  function TotalCollected(fees: seq<FeeRecord>): int {
    SumOf(fees, RecordTotal)
  }

  function PendingRevenue(students: seq<Student>, fees: seq<FeeRecord>): (n: int)
    ensures n + TotalCollected(fees) == TotalExpectedRevenue(students)
  {
    TotalExpectedRevenue(students) - TotalCollected(fees)
  }

  function FullyPaid(fees: seq<FeeRecord>, academicYear: string): Student -> bool {
    (s: Student) => StatusFor(fees, academicYear, s, 1) == Paid && StatusFor(fees, academicYear, s, 2) == Paid
  }

  function IsDefaulter(fees: seq<FeeRecord>, academicYear: string): Student -> bool {
    (s: Student) => StatusFor(fees, academicYear, s, 1) != Paid || StatusFor(fees, academicYear, s, 2) != Paid
  }

  function DefaultersCount(students: seq<Student>, fees: seq<FeeRecord>, academicYear: string): nat {
    |Filter(students, IsDefaulter(fees, academicYear))|
  }

  /** Every student is either a defaulter or fully paid, never both. */
  lemma {:induction false} DefaultersComplementPaid(students: seq<Student>, fees: seq<FeeRecord>, academicYear: string)
    ensures DefaultersCount(students, fees, academicYear) + |Filter(students, FullyPaid(fees, academicYear))| == |students|
  {
    FilterAgree(students, IsDefaulter(fees, academicYear), Not(FullyPaid(fees, academicYear)));
    FilterComplementCount(students, FullyPaid(fees, academicYear));
  }

  /** The collected total is the sum of the semester totals of each record. */
  lemma {:induction false} TotalCollectedBySemester(fees: seq<FeeRecord>)
    ensures TotalCollected(fees) == SumOf(fees, r => SemesterPaid(r, 1) + SemesterPaid(r, 2))
  {
    if fees != [] {
      RecordTotalSplit(fees[0]);
      TotalCollectedBySemester(fees[1..]);
    }
  }

  /* -------------------------------------------------------- status filter */

  datatype StatusFilter = All | PaidFilter | PendingFilter | PartialFilter

  /** Search on the lower-cased name, or on the roll number as written. */
  function MatchesSearch(searchTerm: string): Student -> bool {
    (s: Student) => Includes(ToLower(s.fullName), ToLower(searchTerm)) || Includes(IntToString(s.rollNo), searchTerm)
  }

  /** PAID needs both semesters paid; PENDING and PARTIAL need either
      semester in that state. */
  function MatchesStatus(fees: seq<FeeRecord>, academicYear: string, filter: StatusFilter, s: Student): bool {
    var s1 := StatusFor(fees, academicYear, s, 1);
    var s2 := StatusFor(fees, academicYear, s, 2);
    match filter
    case All => true
    case PaidFilter => s1 == Paid && s2 == Paid
    case PendingFilter => s1 == Pending || s2 == Pending
    case PartialFilter => s1 == Partial || s2 == Partial
  }

  function Shown(fees: seq<FeeRecord>, academicYear: string, searchTerm: string, filter: StatusFilter): Student -> bool {
    (s: Student) => MatchesSearch(searchTerm)(s) && MatchesStatus(fees, academicYear, filter, s)
  }

  /** `filteredStudents`: the students matching both the search and the
      status filter, in their original order. */
  function FilteredStudents(students: seq<Student>, fees: seq<FeeRecord>, academicYear: string,
                            searchTerm: string, filter: StatusFilter): (r: seq<Student>)
    ensures forall s :: s in r <==> s in students && MatchesSearch(searchTerm)(s) && MatchesStatus(fees, academicYear, filter, s)
  {
    Filter(students, Shown(fees, academicYear, searchTerm, filter))
  }

  /** With no search text and no status filter, every student is listed. */
  lemma {:induction false} EmptySearchShowsAll(students: seq<Student>, fees: seq<FeeRecord>, academicYear: string)
    ensures FilteredStudents(students, fees, academicYear, "", All) == students
  {
    forall s | s in students
      ensures Shown(fees, academicYear, "", All)(s)
    {
      assert ToLower("") == "";
      assert OccursAt(ToLower(s.fullName), "", 0);
      assert Includes(ToLower(s.fullName), ToLower(""));
      assert MatchesSearch("")(s);
      assert MatchesStatus(fees, academicYear, All, s);
    }
    FilterKeepsAll(students, Shown(fees, academicYear, "", All));
  }

  /** No student is both fully paid and pending, so the PAID and PENDING
      lists together never exceed the class. */
  lemma {:induction false} PaidAndPendingDisjoint(students: seq<Student>, fees: seq<FeeRecord>, academicYear: string, searchTerm: string)
    ensures |FilteredStudents(students, fees, academicYear, searchTerm, PaidFilter)|
          + |FilteredStudents(students, fees, academicYear, searchTerm, PendingFilter)| <= |students|
  {
    forall s | s in students
      ensures !(Shown(fees, academicYear, searchTerm, PaidFilter)(s) && Shown(fees, academicYear, searchTerm, PendingFilter)(s))
    {
      assert !(MatchesStatus(fees, academicYear, PaidFilter, s) && MatchesStatus(fees, academicYear, PendingFilter, s));
    }
    FilterDisjointCount(students, Shown(fees, academicYear, searchTerm, PaidFilter), Shown(fees, academicYear, searchTerm, PendingFilter));
  }

  /* -------------------------------------------------------------- payment */

  /** The payment the modal is open for. */
  datatype Selection = Selection(studentId: string, studentName: string, semester: Semester, currentDue: int)

  datatype PaymentForm = PaymentForm(amount: int, mode: PaymentMode, date: string, transactionId: string)

  datatype PaymentDraft = PaymentDraft(selection: Selection, form: PaymentForm)

  function AutoTransactionId(now: int): string {
    "TXN-" + IntToString(now)
  }

  /** `initiatePayment`: nothing for a semester already PAID; otherwise the
      modal opens with the amount due filled in. `today` and `now` stand for
      the clock. */
  function InitiatePayment(fees: seq<FeeRecord>, academicYear: string, student: Student, semester: Semester,
                           today: string, now: int): (r: Option<PaymentDraft>)
    ensures r.None? <==> StatusFor(fees, academicYear, student, semester) == Paid
    ensures r.Some? ==> r.value.selection.studentId == student.id && r.value.selection.semester == semester
    ensures r.Some? ==> r.value.selection.currentDue == SemesterFee - SemesterPaid(GetFeeRecord(fees, student.id, academicYear), semester) > 0
    ensures r.Some? ==> r.value.form == PaymentForm(r.value.selection.currentDue, Cash, today, AutoTransactionId(now))
  {
    var stats := GetSemesterStats(GetFeeRecord(fees, student.id, academicYear), semester);
    if stats.status == Paid then None
    else Some(PaymentDraft(Selection(student.id, student.fullName, semester, stats.due),
                           PaymentForm(stats.due, Cash, today, AutoTransactionId(now))))
  }

  datatype PaymentError = NoSelection | InvalidAmount | ExceedsDue(due: int)

  datatype PaymentOutcome =
    | Rejected(error: PaymentError)
    | Recorded(record: FeeRecord, txn: Transaction, receipt: Option<Student>)

  /** Both flags agree with the statuses the transactions give. */
  predicate FlagsInSync(record: FeeRecord) {
    record.semester1Paid == (GetSemesterStats(record, 1).status == Paid)
    && record.semester2Paid == (GetSemesterStats(record, 2).status == Paid)
  }

  function NewTransaction(selection: Selection, form: PaymentForm, now: int): (t: Transaction)
    ensures t.amount == form.amount && t.semester == selection.semester && t.date == form.date && t.mode == form.mode
    ensures t.id == if form.transactionId == "" then AutoTransactionId(now) else form.transactionId
  {
    Transaction(if form.transactionId == "" then AutoTransactionId(now) else form.transactionId,
                form.date, form.amount, form.mode, selection.semester)
  }

  /** The record after a payment: the transaction appended, the flags
      recomputed and the payment date remembered. */
  function RecordPayment(record: FeeRecord, txn: Transaction, date: string): (r: FeeRecord)
    ensures r.id == record.id && r.studentId == record.studentId && r.academicYear == record.academicYear
    ensures r.Txns() == record.Txns() + [txn]
    ensures r.lastPaymentDate == Some(date)
    ensures FlagsInSync(r)
  {
    var withTxn := record.(transactions := Some(record.Txns() + [txn]));
    withTxn.(semester1Paid := GetSemesterStats(withTxn, 1).status == Paid,
             semester2Paid := GetSemesterStats(withTxn, 2).status == Paid,
             lastPaymentDate := Some(date))
  }

  /** A payment adds its amount to its own semester and nothing to the other. */
  lemma {:induction false} PaymentAddsToSemester(record: FeeRecord, txn: Transaction, date: string, semester: Semester)
    ensures SemesterPaid(RecordPayment(record, txn, date), semester)
         == SemesterPaid(record, semester) + (if txn.semester == semester then txn.amount else 0)
  {
    var p := InSemester(semester);
    FilterConcat(record.Txns(), [txn], p);
    SumOfConcat(Filter(record.Txns(), p), Filter([txn], p), Amount);
  }

  /** `processPayment` without its effect on the store: the checks in the
      order the handler makes them, then the new record and the receipt. */
  function ApplyPayment(students: seq<Student>, fees: seq<FeeRecord>, academicYear: string,
                        selected: Option<Selection>, form: PaymentForm, now: int): (o: PaymentOutcome)
    ensures selected.None? ==> o == Rejected(NoSelection)
    ensures selected.Some? && form.amount <= 0 ==> o == Rejected(InvalidAmount)
    ensures selected.Some? && form.amount > 0 && form.amount > selected.value.currentDue ==>
      o == Rejected(ExceedsDue(selected.value.currentDue))
    ensures o.Recorded? <==> selected.Some? && 0 < form.amount <= selected.value.currentDue
    ensures o.Recorded? ==>
      && o.txn == NewTransaction(selected.value, form, now)
      && o.record == RecordPayment(GetFeeRecord(fees, selected.value.studentId, academicYear), o.txn, form.date)
      && o.receipt == Find(students, KeyIs(StudentKey, selected.value.studentId))
  {
    match selected
    case None => Rejected(NoSelection)
    case Some(sel) =>
      if form.amount <= 0 then Rejected(InvalidAmount)
      else if form.amount > sel.currentDue then Rejected(ExceedsDue(sel.currentDue))
      else
        var txn := NewTransaction(sel, form, now);
        Recorded(RecordPayment(GetFeeRecord(fees, sel.studentId, academicYear), txn, form.date),
                 txn, Find(students, KeyIs(StudentKey, sel.studentId)))
  }

  /** An accepted payment never takes a semester past its fee: the new due
      is the old one less the amount, and is not negative. */
  lemma {:induction false} AcceptedPaymentKeepsDueNonNegative(students: seq<Student>, fees: seq<FeeRecord>, academicYear: string,
                                           sel: Selection, form: PaymentForm, now: int)
    requires sel.currentDue == GetSemesterStats(GetFeeRecord(fees, sel.studentId, academicYear), sel.semester).due
    requires ApplyPayment(students, fees, academicYear, Some(sel), form, now).Recorded?
    ensures var o := ApplyPayment(students, fees, academicYear, Some(sel), form, now);
      GetSemesterStats(o.record, sel.semester).due == sel.currentDue - form.amount >= 0
  {
    var o := ApplyPayment(students, fees, academicYear, Some(sel), form, now);
    PaymentAddsToSemester(GetFeeRecord(fees, sel.studentId, academicYear), o.txn, form.date, sel.semester);
  }

  /** Submitting the form as `initiatePayment` filled it in settles the
      semester. */
  lemma {:induction false} PrefilledPaymentSettles(students: seq<Student>, fees: seq<FeeRecord>, academicYear: string, student: Student,
                                semester: Semester, today: string, now: int)
    requires InitiatePayment(fees, academicYear, student, semester, today, now).Some?
    ensures var d := InitiatePayment(fees, academicYear, student, semester, today, now).value;
      var o := ApplyPayment(students, fees, academicYear, Some(d.selection), d.form, now);
      o.Recorded? && GetSemesterStats(o.record, semester).status == Paid
  {
    var d := InitiatePayment(fees, academicYear, student, semester, today, now).value;
    var o := ApplyPayment(students, fees, academicYear, Some(d.selection), d.form, now);
    PaymentAddsToSemester(GetFeeRecord(fees, student.id, academicYear), o.txn, d.form.date, semester);
  }

  /** Two instalments of 5000 and 6000 settle a semester: the first leaves it
      PARTIAL with 6000 due, an instalment over the due is refused, and the
      second makes it PAID. */
  lemma {:induction false} InstalmentScenario(student: Student, academicYear: string)
    ensures var sel := Selection(student.id, student.fullName, 1, SemesterFee);
      var o1 := ApplyPayment([student], [], academicYear, Some(sel), PaymentForm(5000, Cash, "2024-01-10", "T1"), 0);
      && o1.Recorded?
      && GetSemesterStats(o1.record, 1) == SemesterStats(5000, 6000, Partial)
      && ApplyPayment([student], [o1.record], academicYear, Some(sel.(currentDue := 6000)), PaymentForm(7000, Upi, "2024-02-10", "T2"), 0)
         == Rejected(ExceedsDue(6000))
      && var o2 := ApplyPayment([student], [o1.record], academicYear, Some(sel.(currentDue := 6000)), PaymentForm(6000, Upi, "2024-02-10", "T2"), 0);
         o2.Recorded? && GetSemesterStats(o2.record, 1) == SemesterStats(11000, 0, Paid)
         && GetSemesterStats(o2.record, 2).status == Pending
  {
    var sel := Selection(student.id, student.fullName, 1, SemesterFee);
    var blank := GetFeeRecord([], student.id, academicYear);
    var o1 := ApplyPayment([student], [], academicYear, Some(sel), PaymentForm(5000, Cash, "2024-01-10", "T1"), 0);
    PaymentAddsToSemester(blank, o1.txn, "2024-01-10", 1);
    PaymentAddsToSemester(blank, o1.txn, "2024-01-10", 2);
    assert GetFeeRecord([o1.record], student.id, academicYear) == o1.record;
    var o2 := ApplyPayment([student], [o1.record], academicYear, Some(sel.(currentDue := 6000)), PaymentForm(6000, Upi, "2024-02-10", "T2"), 0);
    PaymentAddsToSemester(o1.record, o2.txn, "2024-02-10", 1);
    PaymentAddsToSemester(o1.record, o2.txn, "2024-02-10", 2);
  }

  /** Saving a paid record adds exactly the amount to the collected total,
      when ids are unique and the record is either the stored one or a blank
      one under a new id. */
  lemma {:induction false} PaymentRaisesCollected(fees: seq<FeeRecord>, record: FeeRecord, txn: Transaction, date: string)
    requires UniqueKeys(fees, FeeKey)
    requires record in fees || (!HasKey(fees, FeeKey, record.id) && record.Txns() == [])
    ensures TotalCollected(Upsert(fees, RecordPayment(record, txn, date), FeeKey)) == TotalCollected(fees) + txn.amount
  {
    var updated := RecordPayment(record, txn, date);
    SumOfConcat(record.Txns(), [txn], Amount);
    assert RecordTotal(updated) == RecordTotal(record) + txn.amount;
    var i := FirstWhere(fees, KeyIs(FeeKey, updated.id));
    if i >= 0 {
      var k :| 0 <= k < |fees| && fees[k] == record;
      assert fees[i] == record;
      SumOfUpdate(fees, i, updated, RecordTotal);
    } else {
      assert !HasKey(fees, FeeKey, updated.id);
      assert RecordTotal(record) == 0;
      assert Upsert(fees, updated, FeeKey) == fees + [updated];
      assert SumOf([updated], RecordTotal) == RecordTotal(updated);
      SumOfConcat(fees, [updated], RecordTotal);
    }
  }

  /** `processPayment`: validates the form against the selection, then stores
      the fee record with the new transaction and returns the receipt. */
  method ProcessPayment(db: DatabaseService, students: seq<Student>, fees: seq<FeeRecord>, academicYear: string,
                        selected: Option<Selection>, form: PaymentForm, now: int) returns (o: PaymentOutcome)
    modifies db`fees
    ensures o == ApplyPayment(students, fees, academicYear, selected, form, now)
    ensures o.Recorded? ==> db.fees == Some(Upsert(old(db.GetFees()), o.record, FeeKey))
    ensures o.Rejected? ==> db.fees == old(db.fees)
  {
    if selected.None? {
      return Rejected(NoSelection);
    }
    var sel := selected.value;
    if form.amount <= 0 {
      return Rejected(InvalidAmount);
    }
    if form.amount > sel.currentDue {
      return Rejected(ExceedsDue(sel.currentDue));
    }
    var record := GetFeeRecord(fees, sel.studentId, academicYear);
    var txn := NewTransaction(sel, form, now);
    var updated := RecordPayment(record, txn, form.date);
    db.SaveFeeRecord(updated);
    var student := Find(students, KeyIs(StudentKey, sel.studentId));
    o := Recorded(updated, txn, student);
  }
}
