/** How the writes and the reads of the tracker fit together: what a later
    fetch_student_data, fetch_reports or fetch_metrics sees after a
    register_student, log_internship or log_feedback. */
module Properties {
  import opened Schema
  import opened Repository
  import opened Queries
  import Progress

  /** Row numbers of the students with this email. */
  function EmailRows(students: seq<Student>, email: string): set<nat> {
    set k: nat | k < |students| && students[k].email == email
  }

  lemma OneRowPerEmail(students: seq<Student>, email: string)
    requires UniqueEmails(students) && FindStudent(students, Some(email)).Some?
    ensures |EmailRows(students, email)| == 1
  {
    var k :| 0 <= k < |students| && students[k] == FindStudent(students, Some(email)).value;
    assert EmailRows(students, email) == {k as nat};
  }

  /** Registering the same email twice: the second call stores no row and
      touches no other table, still reports success, and exactly one row has
      that email. */
  lemma RegisterTwice(db: Database, first: string, second: Text, email: string, fault: bool)
    requires Consistent(db)
    ensures var once := Register(db, Some(first), Some(email), false);
            var twice := Register(once.db, second, Some(email), fault);
            && twice.ok == !fault
            && twice.db.(studentSeq := once.db.studentSeq) == once.db
            && |EmailRows(twice.db.students, email)| == 1
  {
    var once := Register(db, Some(first), Some(email), false);
    OneRowPerEmail(once.db.students, email);
  }

  /** A rejected duplicate still uses up an id: register a new email, the
      same email again, then another new email, and the third student is
      found under the counter's old value plus 3, not plus 2. */
  lemma DuplicateLeavesGap(db: Database, a: string, c: string, first: string, again: Text, other: string)
    requires Consistent(db) && a != c
    requires FindStudent(db.students, Some(a)).None? && FindStudent(db.students, Some(c)).None?
    ensures var d1 := Register(db, Some(first), Some(a), false).db;
            var d2 := Register(d1, again, Some(a), false).db;
            var d3 := Register(d2, Some(other), Some(c), false).db;
            FetchStudentData(d3, Some(c), false) == Some(StudentView(db.studentSeq + 3, other, []))
  {
    var d1 := Register(db, Some(first), Some(a), false).db;
    var d2 := Register(d1, again, Some(a), false).db;
    assert d2.students == db.students + [Student(db.studentSeq + 1, first, a)];
    assert FindStudent(d2.students, Some(c)).None?;
    RegisterThenFetch(d2, other, c);
  }

  /** An internship's student_id never exceeds the students' counter. */
  lemma InternshipOwnersAllocated(db: Database, k: nat)
    requires Consistent(db) && k < |db.internships|
    ensures db.internships[k].studentId <= db.studentSeq
  {
    assert Resolves(db.students, db.internships[k].studentId);
    var a :| 0 <= a < |db.students| && db.students[a].id == db.internships[k].studentId;
    assert StudentIds(db.students)[a] == db.students[a].id;
  }

  /** A newly registered student is found by email, under the next id, with
      no internships. */
  lemma RegisterThenFetch(db: Database, name: string, email: string)
    requires Consistent(db)
    requires FindStudent(db.students, Some(email)).None?
    ensures FetchStudentData(Register(db, Some(name), Some(email), false).db, Some(email), false)
            == Some(StudentView(db.studentSeq + 1, name, []))
  {
    var after := Register(db, Some(name), Some(email), false).db;
    FindStudentUnique(after.students, Some(email), |db.students|);
    forall k | 0 <= k < |db.internships| ensures db.internships[k].studentId != db.studentSeq + 1 {
      InternshipOwnersAllocated(db, k);
    }
    assert RowsOf(after.internships, db.studentSeq + 1) == {};
  }

  /** Logging an internship for a known email adds exactly its projection
      to what fetch_student_data returns for that email. */
  lemma LogInternshipThenFetch(db: Database, email: string, company: string, duration: string,
                               note: Text, msme: Option<int>)
    requires Consistent(db)
    requires FindStudent(db.students, Some(email)).Some?
    ensures var step := RecordInternship(db, Some(email), Some(company), Some(duration), note, msme, false);
            && step.ok
            && FetchStudentData(step.db, Some(email), false).value.internships ==
               FetchStudentData(db, Some(email), false).value.internships + [InternshipView(company, duration, note, msme)]
  {
    var step := RecordInternship(db, Some(email), Some(company), Some(duration), note, msme, false);
    assert step.db.internships[..|db.internships|] == db.internships;
  }

  /** Register a new email, then log one internship for it:
      fetch_student_data lists exactly that internship. */
  lemma FirstInternshipFetched(db: Database, name: string, email: string, company: string, duration: string,
                               note: Text, msme: Option<int>)
    requires Consistent(db)
    requires FindStudent(db.students, Some(email)).None?
    ensures var registered := Register(db, Some(name), Some(email), false).db;
            var logged := RecordInternship(registered, Some(email), Some(company), Some(duration), note, msme, false);
            && logged.ok
            && FetchStudentData(logged.db, Some(email), false)
               == Some(StudentView(db.studentSeq + 1, name, [InternshipView(company, duration, note, msme)]))
  {
    var registered := Register(db, Some(name), Some(email), false).db;
    RegisterThenFetch(db, name, email);
    LogInternshipThenFetch(registered, email, company, duration, note, msme);
    var logged := RecordInternship(registered, Some(email), Some(company), Some(duration), note, msme, false);
    assert logged.db.students == registered.students;
    assert [] + [InternshipView(company, duration, note, msme)] == [InternshipView(company, duration, note, msme)];
  }

  /** log_internship moves the metrics by one row: one more internship, its
      msme_digitalized (NULL as 0) added to the total, and one more
      certification exactly when the student had no internship before. */
  lemma LogInternshipMetrics(db: Database, email: Text, company: Text, duration: Text,
                             note: Text, msme: Option<int>)
    requires RecordInternship(db, email, company, duration, note, msme, false).ok
    ensures var sid := FindStudent(db.students, email).value.id;
            var before := Aggregate(db.internships);
            var after := Aggregate(RecordInternship(db, email, company, duration, note, msme, false).db.internships);
            && after.totalInternships == before.totalInternships + 1
            && after.totalMsmes == before.totalMsmes + msme.GetOr(0)
            && after.certificationsIssued ==
               before.certificationsIssued + (if HasInternship(db.internships, sid) then 0 else 1)
  {
    var sid := FindStudent(db.students, email).value.id;
    var ins := db.internships;
    var after := RecordInternship(db, email, company, duration, note, msme, false).db.internships;
    var row := after[|ins|];
    assert after == ins + [row];
    ColumnTotalSnoc(ins, row);
    assert DistinctStudents(after) == DistinctStudents(ins) + {sid} by {
      assert forall k :: 0 <= k < |ins| ==> after[k] == ins[k];
    }
    assert sid in DistinctStudents(ins) <==> HasInternship(ins, sid);
  }

  /** After log_internship, fetch_reports returns the rows it returned
      before, each as often as before, plus one row pairing the student
      found by email with the new internship. */
  lemma LogInternshipReported(db: Database, email: Text, company: Text, duration: Text,
                              note: Text, msme: Option<int>)
    requires Consistent(db)
    requires RecordInternship(db, email, company, duration, note, msme, false).ok
    ensures var after := RecordInternship(db, email, company, duration, note, msme, false).db;
            var added := Row(FindStudent(db.students, email).value, after.internships[|db.internships|]);
            && |FetchReports(after, false)| == |FetchReports(db, false)| + 1
            && multiset(FetchReports(after, false)) == multiset(FetchReports(db, false)) + multiset{added}
            && added in FetchReports(after, false)
  {
    var after := RecordInternship(db, email, company, duration, note, msme, false).db;
    var s := FindStudent(db.students, email).value;
    var a :| 0 <= a < |db.students| && db.students[a] == s;
    AllocatedDistinct(db.students, db.studentSeq);
    ByIdOfMember(db.students, a);
    var row := after.internships[|db.internships|];
    assert after.internships[..|db.internships|] == db.internships;
    assert Reported(after.students, after.internships) == Reported(db.students, db.internships) + [Row(s, row)];
    assert Row(s, row) in multiset(FetchReports(after, false));
  }

  /** Joining with one more student whose id no internship carries leaves
      the join as it was. */
  lemma {:induction false} JoinIgnoresUnreferenced(students: seq<Student>, x: Student, ins: seq<Internship>)
    requires forall b :: 0 <= b < |ins| ==> ins[b].studentId != x.id
    ensures Join(students + [x], ins) == Join(students, ins)
    decreases |ins|
  {
    if ins != [] {
      var p := ins[..|ins| - 1];
      assert forall b :: 0 <= b < |p| ==> p[b] == ins[b];
      JoinIgnoresUnreferenced(students, x, p);
      assert (students + [x])[..|students|] == students;
    }
  }

  /** register_student never changes what fetch_reports returns: the new
      student has no internship yet. */
  lemma RegisterKeepsReports(db: Database, name: Text, email: Text, fault: bool)
    requires Consistent(db)
    ensures FetchReports(Register(db, name, email, fault).db, false) == FetchReports(db, false)
  {
    var after := Register(db, name, email, fault).db;
    if after.students != db.students {
      var x := after.students[|db.students|];
      assert after.students == db.students + [x];
      forall b | 0 <= b < |db.internships| ensures db.internships[b].studentId != x.id {
        InternshipOwnersAllocated(db, b);
      }
      JoinIgnoresUnreferenced(db.students, x, db.internships);
    }
  }

  /** Every field log_feedback writes reads back unchanged from the
      feedback table, under an id above every earlier feedback id. */
  lemma FeedbackRoundTrip(db: Database, studentId: Option<int>, rating: Option<int>, comments: Text)
    requires Consistent(db)
    ensures var after := RecordFeedback(db, studentId, rating, comments, false).db;
            && |after.feedback| == |db.feedback| + 1
            && after.feedback[|db.feedback|].studentId == studentId
            && after.feedback[|db.feedback|].rating == rating
            && after.feedback[|db.feedback|].comments == comments
            && (forall k :: 0 <= k < |db.feedback| ==> db.feedback[k].id < after.feedback[|db.feedback|].id)
            && after.students == db.students && after.internships == db.internships
  {
    assert forall k :: 0 <= k < |db.feedback| ==> FeedbackIds(db.feedback)[k] == db.feedback[k].id;
  }

  /** A new store answers every query with its empty result. */
  lemma EmptyStore(email: Text)
    ensures FetchMetrics(Empty(), false) == Some(Metrics(0, 0, 0))
    ensures FetchReports(Empty(), false) == []
    ensures FetchStudentData(Empty(), email, false) == None
  {
  }

  /** A client of `Store`: two internships
      with 3 and 4 for one student and one with 5 for another give
      total_internships = 3, total_msmes = 12, certifications_issued = 2. */
  method MetricsExample() {
    var store := new Store();
    var ok := store.RegisterStudent(Some("Asha"), Some("a@x.com"), false);
    ExampleRegisterAsha();
    ok := store.RegisterStudent(Some("Ravi"), Some("r@x.com"), false);
    ExampleRegisterRavi();
    ok := store.LogInternship(Some("a@x.com"), Some("Acme"), Some("3 months"), Some("ok"), Some(3), false);
    ExampleLogAcme();
    ok := store.LogInternship(Some("a@x.com"), Some("Byte"), Some("2 months"), None, Some(4), false);
    ExampleLogByte();
    ok := store.LogInternship(Some("r@x.com"), Some("Core"), Some("1 month"), Some("good"), Some(5), false);
    ExampleLogCore();
    ExampleAggregate(ExampleA1(), ExampleA2(), ExampleR1());
    assert FetchMetrics(store.Snapshot(), false) == Some(Metrics(3, 12, 2));
    assert Progress.ShownMetrics(FetchMetrics(store.Snapshot(), false)) == Metrics(3, 12, 2);
  }

  function Asha(): Student { Student(1, "Asha", "a@x.com") }
  function Ravi(): Student { Student(2, "Ravi", "r@x.com") }
  function ExampleA1(): Internship { Internship(1, 1, "Acme", "3 months", Some("ok"), Some(3)) }
  function ExampleA2(): Internship { Internship(2, 1, "Byte", "2 months", None, Some(4)) }
  function ExampleR1(): Internship { Internship(3, 2, "Core", "1 month", Some("good"), Some(5)) }

  lemma ExampleRegisterAsha()
    ensures Register(Empty(), Some("Asha"), Some("a@x.com"), false)
            == Step(true, Database([Asha()], [], [], 1, 0, 0))
  {
  }

  lemma ExampleRegisterRavi()
    ensures Register(Database([Asha()], [], [], 1, 0, 0), Some("Ravi"), Some("r@x.com"), false)
            == Step(true, Database([Asha(), Ravi()], [], [], 2, 0, 0))
  {
    assert FindStudent([Asha()], Some("r@x.com")).None?;
  }

  lemma ExampleLogAcme()
    ensures RecordInternship(Database([Asha(), Ravi()], [], [], 2, 0, 0),
                             Some("a@x.com"), Some("Acme"), Some("3 months"), Some("ok"), Some(3), false)
            == Step(true, Database([Asha(), Ravi()], [ExampleA1()], [], 2, 1, 0))
  {
    assert FindStudent([Asha(), Ravi()], Some("a@x.com")) == Some(Asha());
  }

  lemma ExampleLogByte()
    ensures RecordInternship(Database([Asha(), Ravi()], [ExampleA1()], [], 2, 1, 0),
                             Some("a@x.com"), Some("Byte"), Some("2 months"), None, Some(4), false)
            == Step(true, Database([Asha(), Ravi()], [ExampleA1(), ExampleA2()], [], 2, 2, 0))
  {
    assert FindStudent([Asha(), Ravi()], Some("a@x.com")) == Some(Asha());
  }

  lemma ExampleLogCore()
    ensures RecordInternship(Database([Asha(), Ravi()], [ExampleA1(), ExampleA2()], [], 2, 2, 0),
                             Some("r@x.com"), Some("Core"), Some("1 month"), Some("good"), Some(5), false)
            == Step(true, Database([Asha(), Ravi()], [ExampleA1(), ExampleA2(), ExampleR1()], [], 2, 3, 0))
  {
    assert FindStudent([Asha(), Ravi()], Some("r@x.com")) == Some(Ravi());
  }

  lemma ExampleAggregate(a1: Internship, a2: Internship, r1: Internship)
    requires a1.studentId == a2.studentId != r1.studentId
    requires a1.msme == Some(3) && a2.msme == Some(4) && r1.msme == Some(5)
    ensures Aggregate([a1, a2, r1]) == Metrics(3, 12, 2)
  {
    assert DistinctStudents([a1, a2, r1]) == {a1.studentId, r1.studentId};
    assert ColumnTotal([a1, a2, r1]) == 3 + ColumnTotal([a2, r1]);
    assert ColumnTotal([a2, r1]) == 4 + ColumnTotal([r1]);
  }
}
