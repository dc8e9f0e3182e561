/** The three write operations of the tracker: register_student,
    log_internship and log_feedback. Each is specified by a function from the
    store before the call to the Boolean it returns and the store after it;
    the class `Store` holds the tables as fields and its methods, written
    step by step like the Python, are proved to agree with those functions.

    `fault` stands for the storage engine raising sqlite3.Error during the
    call: the operation catches it, returns False and commits nothing. */
module Repository {
  import opened Schema

  /** What a write returns, and the store it leaves behind. */
  datatype Step = Step(ok: bool, db: Database)

  /** register_student: `INSERT OR IGNORE INTO students (name, email)`.
      SQLite computes the new rowid, advancing the AUTOINCREMENT counter to
      it, before it checks the row's constraints; OR IGNORE then skips the
      row on a UNIQUE conflict and also on a NOT NULL violation. So a
      duplicate or NULL email, or a NULL name, stores no row but uses up the
      next id, and the call still succeeds. */
  function Register(db: Database, name: Text, email: Text, fault: bool): (r: Step)
    ensures r.ok == !fault
    ensures r.db.(students := db.students, studentSeq := db.studentSeq) == db
    ensures fault ==> r.db == db
    ensures !fault ==> r.db.studentSeq == db.studentSeq + 1
    ensures FindStudent(db.students, email).Some? || name.None? || email.None? ==> r.db.students == db.students
    ensures r.db.students == db.students || (!fault && name.Some? && email.Some? && FindStudent(db.students, email).None?
                           && r.db.students == db.students + [Student(db.studentSeq + 1, name.value, email.value)])
    ensures !fault && name.Some? && email.Some? ==> FindStudent(r.db.students, email).Some?
    ensures Consistent(db) ==> Consistent(r.db)
  {
    if fault then Step(false, db)
    else if name.Some? && email.Some? && FindStudent(db.students, email).None? then
      var id := db.studentSeq + 1;
      var s := Student(id, name.value, email.value);
      AppendStudent(db, s);
      Step(true, db.(students := db.students + [s], studentSeq := id))
    else Step(true, db.(studentSeq := db.studentSeq + 1))
  }

  /** Appending a student under the next id whose email is new keeps the
      store consistent, and the email is then found. */
  lemma AppendStudent(db: Database, s: Student)
    requires s.id == db.studentSeq + 1 && FindStudent(db.students, Some(s.email)).None?
    ensures FindStudent(db.students + [s], Some(s.email)).Some?
    ensures Consistent(db) ==> Consistent(db.(students := db.students + [s], studentSeq := s.id))
  {
    assert (db.students + [s])[|db.students|].email == s.email;
    assert StudentIds(db.students + [s]) == StudentIds(db.students) + [s.id];
    forall k | 0 <= k < |db.internships| && Resolves(db.students, db.internships[k].studentId)
      ensures Resolves(db.students + [s], db.internships[k].studentId)
    {
      var j :| 0 <= j < |db.students| && db.students[j].id == db.internships[k].studentId;
      assert (db.students + [s])[j] == db.students[j];
    }
  }

  /** log_internship: look the email up; on a hit, `INSERT INTO internships`
      with that student's id and the given fields; on a miss, False. A NULL
      company or duration violates NOT NULL, which a plain INSERT reports as
      an error, so the call fails and nothing is stored. */
  function RecordInternship(db: Database, email: Text, company: Text, duration: Text,
                         note: Text, msme: Option<int>, fault: bool): (r: Step)
    ensures r.ok <==> !fault && FindStudent(db.students, email).Some? && company.Some? && duration.Some?
    ensures !r.ok ==> r.db == db
    ensures r.ok ==> r.db == db.(internships := db.internships + [Internship(
                              db.internshipSeq + 1, FindStudent(db.students, email).value.id,
                              company.value, duration.value, note, msme)],
                            internshipSeq := db.internshipSeq + 1)
    ensures r.ok && Consistent(db) ==>
              forall k :: 0 <= k < |db.internships| ==> db.internships[k].id < r.db.internships[|db.internships|].id
    ensures Consistent(db) ==> Consistent(r.db)
  {
    if fault then Step(false, db)
    else match FindStudent(db.students, email)
      case None => Step(false, db)
      case Some(student) =>
        if company.None? || duration.None? then Step(false, db)
        else
          var id := db.internshipSeq + 1;
          var row := Internship(id, student.id, company.value, duration.value, note, msme);
          assert InternshipIds(db.internships + [row]) == InternshipIds(db.internships) + [id];
          assert Resolves(db.students, student.id) by {
            var k :| 0 <= k < |db.students| && db.students[k] == student;
          }
          assert forall k :: 0 <= k < |db.internships| ==> InternshipIds(db.internships)[k] == db.internships[k].id;
          Step(true, db.(internships := db.internships + [row], internshipSeq := id))
  }

  /** log_feedback: `INSERT INTO feedback` with the given values as they are;
      neither the student id nor the rating is checked. */
  function RecordFeedback(db: Database, studentId: Option<int>, rating: Option<int>,
                       comments: Text, fault: bool): (r: Step)
    ensures r.ok == !fault
    ensures fault ==> r.db == db
    ensures !fault ==> r.db == db.(feedback := db.feedback + [FeedbackEntry(db.feedbackSeq + 1, studentId, rating, comments)],
                                   feedbackSeq := db.feedbackSeq + 1)
    ensures Consistent(db) ==> Consistent(r.db)
  {
    if fault then Step(false, db)
    else
      var id := db.feedbackSeq + 1;
      var row := FeedbackEntry(id, studentId, rating, comments);
      assert FeedbackIds(db.feedback + [row]) == FeedbackIds(db.feedback) + [id];
      Step(true, db.(feedback := db.feedback + [row], feedbackSeq := id))
  }

  /** The store as the program sees it through its connection. */
  class Store {
    var students: seq<Student>
    var internships: seq<Internship>
    var feedback: seq<FeedbackEntry>
    var studentSeq: nat
    var internshipSeq: nat
    var feedbackSeq: nat

    function Snapshot(): Database
      reads this
    {
      Database(students, internships, feedback, studentSeq, internshipSeq, feedbackSeq)
    }

    ghost predicate Valid()
      reads this
    {
      Consistent(Snapshot())
    }

    /** initialize_database on a new file: three empty tables. */
    constructor ()
      ensures Valid() && Snapshot() == Empty()
    {
      students, internships, feedback := [], [], [];
      studentSeq, internshipSeq, feedbackSeq := 0, 0, 0;
    }

    method RegisterStudent(name: Text, email: Text, fault: bool) returns (ok: bool)
      requires Valid()
      modifies this
      ensures Step(ok, Snapshot()) == Register(old(Snapshot()), name, email, fault)
      ensures Valid()
    {
      if fault {
        return false;
      }
      studentSeq := studentSeq + 1;
      if name.Some? && email.Some? && FindStudent(students, email).None? {
        students := students + [Student(studentSeq, name.value, email.value)];
      }
      ok := true;
    }

    method LogInternship(email: Text, company: Text, duration: Text,
                         note: Text, msme: Option<int>, fault: bool) returns (ok: bool)
      requires Valid()
      modifies this
      ensures Step(ok, Snapshot()) == RecordInternship(old(Snapshot()), email, company, duration, note, msme, fault)
      ensures Valid()
    {
      if fault {
        return false;
      }
      var result := FindStudent(students, email);
      if result.None? {
        return false;
      }
      if company.None? || duration.None? {
        return false;
      }
      internshipSeq := internshipSeq + 1;
      internships := internships + [Internship(internshipSeq, result.value.id, company.value, duration.value, note, msme)];
      ok := true;
    }

    method LogFeedback(studentId: Option<int>, rating: Option<int>, comments: Text, fault: bool)
      returns (ok: bool)
      requires Valid()
      modifies this
      ensures Step(ok, Snapshot()) == RecordFeedback(old(Snapshot()), studentId, rating, comments, fault)
      ensures Valid()
    {
      if fault {
        return false;
      }
      feedbackSeq := feedbackSeq + 1;
      feedback := feedback + [FeedbackEntry(feedbackSeq, studentId, rating, comments)];
      ok := true;
    }
  }
}
