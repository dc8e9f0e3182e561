/** The three tables of the internship tracker's SQLite store (students,
    internships, feedback), each a sequence of rows in rowid order, together
    with the AUTOINCREMENT counter SQLite keeps for each table. */
module Schema {

  datatype Option<T> = None | Some(value: T) {
    /** `x or default`, as Python applies it to a NULL query result. */
    function GetOr(default: T): T {
      if Some? then value else default
    }
  }

  /** A value bound from Python into a nullable SQL column: None becomes NULL. */
  type Text = Option<string>

  /** students(student_id INTEGER PRIMARY KEY AUTOINCREMENT,
      name TEXT NOT NULL, email TEXT UNIQUE NOT NULL) */
  datatype Student = Student(id: int, name: string, email: string)

  /** internships(internship_id …AUTOINCREMENT, student_id INTEGER,
      company_name TEXT NOT NULL, duration TEXT NOT NULL, feedback TEXT,
      msme_digitalized INTEGER DEFAULT 0) */
  datatype Internship = Internship(
    id: int, studentId: int, company: string, duration: string,
    feedback: Text, msme: Option<int>)

  /** feedback(feedback_id …AUTOINCREMENT, student_id INTEGER,
      rating INTEGER, comments TEXT); no column is NOT NULL. */
  datatype FeedbackEntry = FeedbackEntry(
    id: int, studentId: Option<int>, rating: Option<int>, comments: Text)

  /** The whole store. `studentSeq` and its siblings are the largest id each
      table has ever handed out (sqlite_sequence), 0 for a new table. */
  datatype Database = Database(
    students: seq<Student>,
    internships: seq<Internship>,
    feedback: seq<FeedbackEntry>,
    studentSeq: nat,
    internshipSeq: nat,
    feedbackSeq: nat)

  /** The store right after the three CREATE TABLE statements. */
  function Empty(): Database {
    Database([], [], [], 0, 0, 0)
  }

  function StudentIds(s: seq<Student>): seq<int> {
    seq(|s|, k requires 0 <= k < |s| => s[k].id)
  }

  function InternshipIds(s: seq<Internship>): seq<int> {
    seq(|s|, k requires 0 <= k < |s| => s[k].id)
  }

  function FeedbackIds(s: seq<FeedbackEntry>): seq<int> {
    seq(|s|, k requires 0 <= k < |s| => s[k].id)
  }

  /** Ids handed out by AUTOINCREMENT: strictly increasing in rowid order,
      never below 1 and never above the table's counter. */
  predicate Allocated(ids: seq<int>, last: nat) {
    && (forall i, j :: 0 <= i < j < |ids| ==> ids[i] < ids[j])
    && (forall k :: 0 <= k < |ids| ==> 1 <= ids[k] <= last)
  }

  /** The UNIQUE constraint on students.email. */
  predicate UniqueEmails(s: seq<Student>) {
    forall i, j :: 0 <= i < j < |s| ==> s[i].email != s[j].email
  }

  /** Some student row carries id `sid`. */
  predicate Resolves(students: seq<Student>, sid: int) {
    exists k :: 0 <= k < |students| && students[k].id == sid
  }

  /** What every reachable store satisfies: the AUTOINCREMENT discipline on
      all three tables, unique emails, and every internship row pointing at
      an existing student (log_internship only inserts resolved ids and no
      row is ever deleted). Feedback rows carry no such guarantee. */
  ghost predicate Consistent(db: Database) {
    && Allocated(StudentIds(db.students), db.studentSeq)
    && Allocated(InternshipIds(db.internships), db.internshipSeq)
    && Allocated(FeedbackIds(db.feedback), db.feedbackSeq)
    && UniqueEmails(db.students)
    && forall k :: 0 <= k < |db.internships| ==> Resolves(db.students, db.internships[k].studentId)
  }

  /** `SELECT … FROM students WHERE email = ?` followed by `fetchone()`: the
      first matching row. A NULL email matches nothing, since `email = NULL`
      is never true in SQL. */
  function FindStudent(students: seq<Student>, email: Text): (r: Option<Student>)
    ensures r.None? <==> (email.None? || forall k :: 0 <= k < |students| ==> students[k].email != email.value)
    ensures r.Some? ==> email.Some? && r.value in students && r.value.email == email.value
  {
    if email.None? || students == [] then None
    else if students[0].email == email.value then Some(students[0])
    else FindStudent(students[1..], email)
  }

  /** With unique emails the row found is the only one with that email. */
  lemma {:induction false} FindStudentUnique(students: seq<Student>, email: Text, k: nat)
    requires UniqueEmails(students)
    requires k < |students| && email.Some? && students[k].email == email.value
    ensures FindStudent(students, email) == Some(students[k])
  {
    if students[0].email != email.value {
      assert UniqueEmails(students[1..]) by {
        forall i, j | 0 <= i < j < |students[1..]|
          ensures students[1..][i].email != students[1..][j].email
        {
          assert students[1..][i] == students[i + 1] && students[1..][j] == students[j + 1];
        }
      }
      assert students[1..][k - 1] == students[k];
      FindStudentUnique(students[1..], email, k - 1);
    }
  }
}
