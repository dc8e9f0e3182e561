/** The read side of the tracker: fetch_student_data, fetch_reports and
    fetch_metrics, as functions of the store. None of the SELECTs has an
    ORDER BY, so the sequences below list rows in rowid order, which is one
    order SQLite may return. What the program can rely on is stated with
    counts and multisets; lemmas equating sequences speak of that rowid
    order. `fault` is the storage engine raising sqlite3.Error, after which
    each query returns its empty answer. */
module Queries {
  import opened Schema

  /** One element of a student's "internships": the columns
      company_name, duration, feedback, msme_digitalized. */
  datatype InternshipView = InternshipView(company: string, duration: string, feedback: Text, msme: Option<int>)

  /** The dictionary fetch_student_data returns. */
  datatype StudentView = StudentView(studentId: int, name: string, internships: seq<InternshipView>)

  /** One row of `SELECT s.name, s.email, i.company_name, i.duration,
      i.feedback, i.msme_digitalized FROM students s JOIN internships i …`. */
  datatype ReportRow = ReportRow(
    name: string, email: string, company: string, duration: string, feedback: Text, msme: Option<int>)

  /** The dictionary fetch_metrics returns when no error occurs. */
  datatype Metrics = Metrics(totalInternships: nat, totalMsmes: int, certificationsIssued: nat)

  function View(i: Internship): InternshipView {
    InternshipView(i.company, i.duration, i.feedback, i.msme)
  }

  /** Row numbers of the internships whose student_id is `sid`. */
  function RowsOf(ins: seq<Internship>, sid: int): set<nat> {
    set k: nat | k < |ins| && ins[k].studentId == sid
  }

  /** Row numbers of the internships whose student_id is `sid` and whose
      projection is `v`. */
  function RowsShowing(ins: seq<Internship>, sid: int, v: InternshipView): set<nat> {
    set k: nat | k < |ins| && ins[k].studentId == sid && View(ins[k]) == v
  }

  lemma RowsOfSnoc(ins: seq<Internship>, sid: int)
    requires ins != []
    ensures RowsOf(ins, sid) == RowsOf(ins[..|ins| - 1], sid) + (if ins[|ins| - 1].studentId == sid then {|ins| - 1} else {})
  {
    var p := ins[..|ins| - 1];
    assert forall k: nat | k < |p| :: p[k] == ins[k];
  }

  lemma RowsShowingSnoc(ins: seq<Internship>, sid: int, v: InternshipView)
    requires ins != []
    ensures RowsShowing(ins, sid, v) ==
            RowsShowing(ins[..|ins| - 1], sid, v)
            + (if ins[|ins| - 1].studentId == sid && View(ins[|ins| - 1]) == v then {|ins| - 1} else {})
  {
    var p := ins[..|ins| - 1];
    assert forall k: nat | k < |p| :: p[k] == ins[k];
  }

  /** The inductive step of InternshipsOf: appending the last row's
      projection, when it matches, keeps the counts and the membership. */
  lemma InternshipsOfStep(ins: seq<Internship>, sid: int, rest: seq<InternshipView>)
    requires ins != []
    requires |rest| == |RowsOf(ins[..|ins| - 1], sid)|
    requires forall v :: multiset(rest)[v] == |RowsShowing(ins[..|ins| - 1], sid, v)|
    ensures var r := rest + (if ins[|ins| - 1].studentId == sid then [View(ins[|ins| - 1])] else []);
            && |r| == |RowsOf(ins, sid)|
            && forall v :: multiset(r)[v] == |RowsShowing(ins, sid, v)|
  {
    RowsOfSnoc(ins, sid);
    forall v ensures multiset(rest + (if ins[|ins| - 1].studentId == sid then [View(ins[|ins| - 1])] else []))[v]
                     == |RowsShowing(ins, sid, v)|
    {
      RowsShowingSnoc(ins, sid, v);
    }
  }

  /** A projection is in the list exactly when some row shows it. */
  lemma MembershipFromCount(ins: seq<Internship>, sid: int, r: seq<InternshipView>, v: InternshipView)
    requires multiset(r)[v] == |RowsShowing(ins, sid, v)|
    ensures v in r <==> exists k :: 0 <= k < |ins| && ins[k].studentId == sid && View(ins[k]) == v
  {
    if v in r {
      assert multiset(r)[v] > 0;
      var k :| k in RowsShowing(ins, sid, v);
    }
    if exists k :: 0 <= k < |ins| && ins[k].studentId == sid && View(ins[k]) == v {
      var k :| 0 <= k < |ins| && ins[k].studentId == sid && View(ins[k]) == v;
      assert (k as nat) in RowsShowing(ins, sid, v);
    }
  }

  /** `SELECT company_name, duration, feedback, msme_digitalized FROM
      internships WHERE student_id = ?`: every matching row projected, each
      projection as many times as there are rows showing it. */
  function InternshipsOf(ins: seq<Internship>, sid: int): (r: seq<InternshipView>)
    ensures |r| == |RowsOf(ins, sid)|
    ensures forall v :: multiset(r)[v] == |RowsShowing(ins, sid, v)|
    decreases |ins|
  {
    if ins == [] then []
    else
      var rest := InternshipsOf(ins[..|ins| - 1], sid);
      InternshipsOfStep(ins, sid, rest);
      rest + (if ins[|ins| - 1].studentId == sid then [View(ins[|ins| - 1])] else [])
  }

  /** The internship rows whose student_id is `sid`, in table order. */
  function Owned(ins: seq<Internship>, sid: int): (r: seq<Internship>)
    ensures |r| == |RowsOf(ins, sid)|
    ensures forall k :: 0 <= k < |r| ==> r[k].studentId == sid && r[k] in ins
    decreases |ins|
  {
    if ins == [] then []
    else
      var p := ins[..|ins| - 1];
      RowsOfSnoc(ins, sid);
      assert forall i :: i in p ==> i in ins;
      Owned(p, sid) + (if ins[|ins| - 1].studentId == sid then [ins[|ins| - 1]] else [])
  }

  /** `Owned` is the filter: each row appears in it exactly as often as in
      the table when it carries `sid`, and not at all otherwise. */
  lemma {:induction false} OwnedIsFilter(ins: seq<Internship>, sid: int)
    ensures forall x :: multiset(Owned(ins, sid))[x] == if x.studentId == sid then multiset(ins)[x] else 0
    decreases |ins|
  {
    if ins != [] {
      var p := ins[..|ins| - 1];
      OwnedIsFilter(p, sid);
      assert ins == p + [ins[|ins| - 1]];
    }
  }

  /** Each row's projection to the four columns fetch_student_data selects. */
  function Views(xs: seq<Internship>): (r: seq<InternshipView>)
    ensures |r| == |xs| && forall k :: 0 <= k < |xs| ==> r[k] == View(xs[k])
  {
    seq(|xs|, k requires 0 <= k < |xs| => View(xs[k]))
  }

  /** The internships fetch_student_data lists are the projections of the
      student's own rows, one for one. */
  lemma {:induction false} InternshipsOfOwned(ins: seq<Internship>, sid: int)
    ensures InternshipsOf(ins, sid) == Views(Owned(ins, sid))
    decreases |ins|
  {
    if ins != [] {
      var p := ins[..|ins| - 1];
      InternshipsOfOwned(p, sid);
      var extra := if ins[|ins| - 1].studentId == sid then [ins[|ins| - 1]] else [];
      assert Views(Owned(p, sid) + extra) == Views(Owned(p, sid)) + Views(extra);
    }
  }

  /** fetch_student_data: None when the email matches no student (or on a
      storage error); otherwise that student's id and name and the
      projections of exactly the internship rows carrying that id. */
  function FetchStudentData(db: Database, email: Text, fault: bool): (r: Option<StudentView>)
    ensures r.None? <==> fault || FindStudent(db.students, email).None?
    ensures r.Some? ==> exists k :: 0 <= k < |db.students| && db.students[k].email == email.value
                                && db.students[k].id == r.value.studentId && db.students[k].name == r.value.name
    ensures r.Some? ==> |r.value.internships| == |RowsOf(db.internships, r.value.studentId)|
    ensures r.Some? ==> forall v :: multiset(r.value.internships)[v] == |RowsShowing(db.internships, r.value.studentId, v)|
    ensures r.Some? ==> forall v :: v in r.value.internships <==>
                          exists k :: 0 <= k < |db.internships| && db.internships[k].studentId == r.value.studentId
                                   && View(db.internships[k]) == v
  {
    if fault then None
    else match FindStudent(db.students, email)
      case None => None
      case Some(s) =>
        assert exists k :: 0 <= k < |db.students| && db.students[k] == s;
        var views := InternshipsOf(db.internships, s.id);
        assert forall v :: v in views <==>
                 exists k :: 0 <= k < |db.internships| && db.internships[k].studentId == s.id
                          && View(db.internships[k]) == v by {
          forall v ensures v in views <==>
                 exists k :: 0 <= k < |db.internships| && db.internships[k].studentId == s.id
                          && View(db.internships[k]) == v
          {
            MembershipFromCount(db.internships, s.id, views, v);
          }
        }
        Some(StudentView(s.id, s.name, views))
  }

  function Row(s: Student, i: Internship): ReportRow {
    ReportRow(s.name, s.email, i.company, i.duration, i.feedback, i.msme)
  }

  /** The rows the inner join produces for one internship: one per student
      whose student_id equals the internship's. */
  function JoinOne(students: seq<Student>, i: Internship): (r: seq<ReportRow>)
    ensures forall row :: row in r <==>
              exists a :: 0 <= a < |students| && students[a].id == i.studentId && row == Row(students[a], i)
    decreases |students|
  {
    if students == [] then []
    else
      var p := students[..|students| - 1];
      var last := students[|students| - 1];
      assert forall a :: 0 <= a < |p| ==> p[a] == students[a];
      JoinOne(p, i) + (if last.id == i.studentId then [Row(last, i)] else [])
  }

  /** No two student rows share an id. */
  predicate DistinctIds(students: seq<Student>) {
    forall a, b :: 0 <= a < b < |students| ==> students[a].id != students[b].id
  }

  /** The first student row carrying id `sid`. */
  function ById(students: seq<Student>, sid: int): (r: Option<Student>)
    ensures r.Some? <==> Resolves(students, sid)
    ensures r.Some? ==> r.value.id == sid && r.value in students
    decreases |students|
  {
    if students == [] then None
    else
      var p := students[..|students| - 1];
      var last := students[|students| - 1];
      assert Resolves(students, sid) ==> Resolves(p, sid) || last.id == sid by {
        if Resolves(students, sid) && last.id != sid {
          var a :| 0 <= a < |students| && students[a].id == sid;
          assert p[a] == students[a];
        }
      }
      assert Resolves(p, sid) ==> Resolves(students, sid) by {
        if Resolves(p, sid) {
          var a :| 0 <= a < |p| && p[a].id == sid;
          assert students[a] == p[a];
        }
      }
      var found := ById(p, sid);
      if found.Some? then found else if last.id == sid then Some(last) else None
  }

  /** With distinct ids, the row carrying a student's id is that student. */
  lemma ByIdOfMember(students: seq<Student>, a: nat)
    requires DistinctIds(students) && a < |students|
    ensures ById(students, students[a].id) == Some(students[a])
  {
    var s := ById(students, students[a].id).value;
    var c :| 0 <= c < |students| && students[c] == s;
    assert c == a;
  }

  /** Reference for fetch_reports: each internship, in table order, paired
      with the student its student_id names; an internship naming no
      student gives no row. */
  function Reported(students: seq<Student>, ins: seq<Internship>): (r: seq<ReportRow>)
    ensures |r| <= |ins|
    ensures (forall b :: 0 <= b < |ins| ==> Resolves(students, ins[b].studentId)) ==>
              |r| == |ins| && forall b :: 0 <= b < |ins| ==> r[b] == Row(ById(students, ins[b].studentId).value, ins[b])
    decreases |ins|
  {
    if ins == [] then []
    else
      var p := ins[..|ins| - 1];
      var i := ins[|ins| - 1];
      assert forall b :: 0 <= b < |p| ==> p[b] == ins[b];
      Reported(students, p) + (match ById(students, i.studentId) case Some(s) => [Row(s, i)] case None => [])
  }

  /** Student ids being a key, the join rows of one internship are its row
      with the student its student_id names, or none. */
  lemma {:induction false} JoinOneById(students: seq<Student>, i: Internship)
    requires DistinctIds(students)
    ensures JoinOne(students, i) == match ById(students, i.studentId) case Some(s) => [Row(s, i)] case None => []
    decreases |students|
  {
    if students != [] {
      var p := students[..|students| - 1];
      var last := students[|students| - 1];
      assert DistinctIds(p) by {
        assert forall a :: 0 <= a < |p| ==> p[a] == students[a];
      }
      JoinOneById(p, i);
    }
  }

  /** `students s JOIN internships i ON s.student_id = i.student_id`. */
  function Join(students: seq<Student>, ins: seq<Internship>): (r: seq<ReportRow>)
    ensures forall row :: row in r <==>
              exists a, b :: 0 <= a < |students| && 0 <= b < |ins| && students[a].id == ins[b].studentId
                          && row == Row(students[a], ins[b])
    decreases |ins|
  {
    if ins == [] then []
    else
      var p := ins[..|ins| - 1];
      assert forall b :: 0 <= b < |p| ==> p[b] == ins[b];
      Join(students, p) + JoinOne(students, ins[|ins| - 1])
  }

  /** With student ids a key, the join is exactly the reference rows,
      multiplicities included. */
  lemma {:induction false} JoinIsReported(students: seq<Student>, ins: seq<Internship>)
    requires DistinctIds(students)
    ensures Join(students, ins) == Reported(students, ins)
    decreases |ins|
  {
    if ins != [] {
      JoinIsReported(students, ins[..|ins| - 1]);
      JoinOneById(students, ins[|ins| - 1]);
    }
  }

  /** Student ids being a key, an internship joins with at most one student,
      and with exactly one when its student_id resolves. */
  lemma {:induction false} JoinOneSize(students: seq<Student>, i: Internship)
    requires DistinctIds(students)
    ensures |JoinOne(students, i)| == if Resolves(students, i.studentId) then 1 else 0
    decreases |students|
  {
    if students != [] {
      var p := students[..|students| - 1];
      var last := students[|students| - 1];
      assert forall a :: 0 <= a < |p| ==> p[a] == students[a];
      JoinOneSize(p, i);
      if last.id == i.studentId {
        assert !Resolves(p, i.studentId);
      } else if Resolves(students, i.studentId) {
        var a :| 0 <= a < |students| && students[a].id == i.studentId;
        assert a < |p|;
      }
    }
  }

  /** When every internship resolves to a student, the join has exactly one
      row per internship. */
  lemma {:induction false} JoinSize(students: seq<Student>, ins: seq<Internship>)
    requires DistinctIds(students)
    requires forall b :: 0 <= b < |ins| ==> Resolves(students, ins[b].studentId)
    ensures |Join(students, ins)| == |ins|
    decreases |ins|
  {
    if ins != [] {
      JoinSize(students, ins[..|ins| - 1]);
      JoinOneSize(students, ins[|ins| - 1]);
    }
  }

  lemma AllocatedDistinct(students: seq<Student>, last: nat)
    requires Allocated(StudentIds(students), last)
    ensures DistinctIds(students)
  {
    forall a, b | 0 <= a < b < |students| ensures students[a].id != students[b].id {
      assert StudentIds(students)[a] < StudentIds(students)[b];
    }
  }

  /** fetch_reports: the join rows, [] on a storage error. On a consistent
      store there is exactly one row per internship, and the rows are the
      reference rows counted with multiplicity, in whatever order. */
  function FetchReports(db: Database, fault: bool): (r: seq<ReportRow>)
    ensures fault ==> r == []
    ensures !fault ==> forall row :: row in r <==>
              exists a, b :: 0 <= a < |db.students| && 0 <= b < |db.internships|
                          && db.students[a].id == db.internships[b].studentId
                          && row == Row(db.students[a], db.internships[b])
    ensures !fault && Consistent(db) ==> |r| == |db.internships|
    ensures !fault && Consistent(db) ==> multiset(r) == multiset(Reported(db.students, db.internships))
  {
    if fault then []
    else
      var r := Join(db.students, db.internships);
      assert Consistent(db) ==> |r| == |db.internships| && r == Reported(db.students, db.internships) by {
        if Consistent(db) {
          AllocatedDistinct(db.students, db.studentSeq);
          JoinSize(db.students, db.internships);
          JoinIsReported(db.students, db.internships);
        }
      }
      r
  }

  /** `SELECT SUM(msme_digitalized) FROM internships`: the sum of the
      non-NULL values, and NULL when there is none (an empty table
      included). */
  function Sum(ins: seq<Internship>): (r: Option<int>)
    ensures r.None? <==> forall k :: 0 <= k < |ins| ==> ins[k].msme.None?
    decreases |ins|
  {
    if ins == [] then None
    else
      var p := ins[..|ins| - 1];
      var m := ins[|ins| - 1].msme;
      assert forall k :: 0 <= k < |p| ==> p[k] == ins[k];
      if m.None? then Sum(p) else Some(Sum(p).GetOr(0) + m.value)
  }

  /** Reference total: every row's msme_digitalized added up from the first
      row on, a NULL counting as 0. */
  function ColumnTotal(ins: seq<Internship>): int {
    if ins == [] then 0 else ins[0].msme.GetOr(0) + ColumnTotal(ins[1..])
  }

  lemma {:induction false} ColumnTotalSnoc(ins: seq<Internship>, i: Internship)
    ensures ColumnTotal(ins + [i]) == ColumnTotal(ins) + i.msme.GetOr(0)
  {
    if ins != [] {
      assert (ins + [i])[1..] == ins[1..] + [i];
      ColumnTotalSnoc(ins[1..], i);
    }
  }

  /** `SUM(…) or 0` is the column total with NULLs counted as 0. */
  lemma {:induction false} SumOrZero(ins: seq<Internship>)
    ensures Sum(ins).GetOr(0) == ColumnTotal(ins)
    decreases |ins|
  {
    if ins != [] {
      var p := ins[..|ins| - 1];
      SumOrZero(p);
      assert ins == p + [ins[|ins| - 1]];
      ColumnTotalSnoc(p, ins[|ins| - 1]);
    }
  }

  /** The values `COUNT(DISTINCT student_id)` counts. */
  function DistinctStudents(ins: seq<Internship>): set<int> {
    set k | 0 <= k < |ins| :: ins[k].studentId
  }

  lemma {:induction false} DistinctStudentsBound(ins: seq<Internship>)
    ensures |DistinctStudents(ins)| <= |ins|
    ensures ins != [] ==> |DistinctStudents(ins)| >= 1
    decreases |ins|
  {
    if ins != [] {
      var p := ins[..|ins| - 1];
      DistinctStudentsBound(p);
      assert DistinctStudents(ins) == DistinctStudents(p) + {ins[|ins| - 1].studentId} by {
        assert forall k :: 0 <= k < |p| ==> p[k] == ins[k];
      }
      assert ins[0].studentId in DistinctStudents(ins);
    }
  }

  /** The three aggregates of fetch_metrics, computed on the internships
      table: `COUNT(*)`, `SUM(msme_digitalized) or 0` and
      `COUNT(DISTINCT student_id)`. */
  function Aggregate(ins: seq<Internship>): (r: Metrics)
    ensures r.totalInternships == |ins|
    ensures r.totalMsmes == ColumnTotal(ins)
    ensures (forall k :: 0 <= k < |ins| ==> ins[k].msme.GetOr(0) >= 0) ==> r.totalMsmes >= 0
    ensures r.certificationsIssued == |DistinctStudents(ins)|
    ensures r.certificationsIssued <= r.totalInternships
    ensures r.certificationsIssued == 0 <==> r.totalInternships == 0
  {
    SumOrZero(ins);
    DistinctStudentsBound(ins);
    ColumnTotalNonNegative(ins);
    Metrics(|ins|, Sum(ins).GetOr(0), |DistinctStudents(ins)|)
  }

  lemma {:induction false} ColumnTotalNonNegative(ins: seq<Internship>)
    ensures (forall k :: 0 <= k < |ins| ==> ins[k].msme.GetOr(0) >= 0) ==> ColumnTotal(ins) >= 0
  {
    if ins != [] {
      assert forall k :: 0 <= k < |ins[1..]| ==> ins[1..][k] == ins[k + 1];
      ColumnTotalNonNegative(ins[1..]);
    }
  }

  /** fetch_metrics: the aggregates, or the empty dictionary (None) on a
      storage error. */
  function FetchMetrics(db: Database, fault: bool): (r: Option<Metrics>)
    ensures r.None? <==> fault
    ensures r.Some? ==> r.value.certificationsIssued <= r.value.totalInternships == |db.internships|
    ensures r.Some? && db.internships == [] ==> r.value == Metrics(0, 0, 0)
  {
    if fault then None else Some(Aggregate(db.internships))
  }

  /** Some internship row carries student_id `sid`. */
  predicate HasInternship(ins: seq<Internship>, sid: int) {
    exists k :: 0 <= k < |ins| && ins[k].studentId == sid
  }

  /** On a consistent store, "certifications issued" counts exactly the
      students who have logged at least one internship. */
  lemma CertifiedAreActiveStudents(db: Database)
    requires Consistent(db)
    ensures DistinctStudents(db.internships) ==
            set a | 0 <= a < |db.students| && HasInternship(db.internships, db.students[a].id) :: db.students[a].id
  {
    var active := set a | 0 <= a < |db.students| && HasInternship(db.internships, db.students[a].id) :: db.students[a].id;
    forall x | x in DistinctStudents(db.internships) ensures x in active {
      var k :| 0 <= k < |db.internships| && db.internships[k].studentId == x;
      assert Resolves(db.students, x);
      var a :| 0 <= a < |db.students| && db.students[a].id == x;
      assert HasInternship(db.internships, db.students[a].id);
    }
    forall x | x in active ensures x in DistinctStudents(db.internships) {
      var a :| 0 <= a < |db.students| && HasInternship(db.internships, db.students[a].id) && db.students[a].id == x;
      var k :| 0 <= k < |db.internships| && db.internships[k].studentId == x;
    }
  }
}
