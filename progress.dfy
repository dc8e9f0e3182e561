/** The decision rules of the "Your Progress" page, the sidebar greeting and
    the metric cards, lifted out of the Streamlit script, together with the
    empty-input guard of plot_internship_progress. */
module Progress {
  import opened Schema
  import opened Queries
  import Decimal

  /** `min(total * 10, 100)`: ten points per internship, capped at 100. */
  function ProgressPercent(total: nat): (p: nat)
    ensures p <= 100
    ensures p == 100 <==> total >= 10
    ensures total < 10 ==> p == 10 * total
  {
    if total * 10 < 100 then total * 10 else 100
  }

  lemma ProgressMonotone(a: nat, b: nat)
    requires a <= b
    ensures ProgressPercent(a) <= ProgressPercent(b)
  {
  }

  datatype Badges = Badges(firstInternship: bool, internshipPro: bool, topPerformer: bool)

  /** The three `if`s after the progress bar. */
  function Award(total: nat, msmes: int): (b: Badges)
    ensures b.firstInternship <==> total >= 1
    ensures b.internshipPro <==> total >= 3
    ensures b.topPerformer <==> msmes >= 5
    ensures b.internshipPro ==> b.firstInternship
  {
    Badges(total >= 1, total >= 3, msmes >= 5)
  }

  /** `sum([int(i[3]) for i in internships])`. `int(None)` raises TypeError,
      so a NULL msme_digitalized gives no sum (None). */
  function MsmeSum(views: seq<InternshipView>): (r: Option<int>)
    ensures r.None? <==> exists k :: 0 <= k < |views| && views[k].msme.None?
    ensures r.Some? && (forall k :: 0 <= k < |views| ==> views[k].msme.value >= 0) ==> r.value >= 0
    decreases |views|
  {
    if views == [] then Some(0)
    else
      var rest := MsmeSum(views[1..]);
      assert forall k :: 0 <= k < |views[1..]| ==> views[1..][k] == views[k + 1];
      if views[0].msme.None? || rest.None? then None else Some(views[0].msme.value + rest.value)
  }

  /** Over a student's own rows, the sum is the column total of those rows
      when none is NULL. */
  lemma {:induction false} MsmeSumTotal(xs: seq<Internship>)
    ensures (forall k :: 0 <= k < |xs| ==> xs[k].msme.Some?) ==> MsmeSum(Views(xs)) == Some(ColumnTotal(xs))
    decreases |xs|
  {
    if xs != [] {
      assert Views(xs)[1..] == Views(xs[1..]);
      assert forall k :: 0 <= k < |xs[1..]| ==> xs[1..][k] == xs[k + 1];
      MsmeSumTotal(xs[1..]);
    }
  }

  /** One bar of the chart: x is the internship's position, the colour its
      company, the height its msme_digitalized. */
  datatype Bar = Bar(x: nat, company: string, height: Option<int>)

  /** plot_internship_progress, minus the rendering: None for an empty list,
      otherwise one bar per internship in list order. */
  function PlotInternshipProgress(views: seq<InternshipView>): (chart: Option<seq<Bar>>)
    ensures chart.None? <==> views == []
    ensures chart.Some? ==> |chart.value| == |views|
    ensures chart.Some? ==> forall k :: 0 <= k < |views| ==> chart.value[k] == Bar(k, views[k].company, views[k].msme)
  {
    if views == [] then None
    else Some(seq(|views|, k requires 0 <= k < |views| => Bar(k, views[k].company, views[k].msme)))
  }

  /** What the "Your Progress" page shows. */
  datatype ProgressPanel =
    | NoInternshipsYet
    | Panel(progress: nat, badges: Badges, chart: Option<seq<Bar>>)
    | TypeErrorRaised

  function YourProgress(studentData: Option<StudentView>): (r: ProgressPanel)
    ensures r.NoInternshipsYet? <==> studentData.None? || studentData.value.internships == []
    ensures r.TypeErrorRaised? <==>
              (studentData.Some? &&
               exists k :: 0 <= k < |studentData.value.internships| && studentData.value.internships[k].msme.None?)
    ensures r.Panel? ==> 10 <= r.progress <= 100 && r.badges.firstInternship && r.chart.Some?
    ensures r.Panel? ==> (r.badges.internshipPro <==> |studentData.value.internships| >= 3)
    ensures r.Panel? ==> && r.progress == ProgressPercent(|studentData.value.internships|)
                         && MsmeSum(studentData.value.internships).Some?
                         && (r.badges.topPerformer <==> MsmeSum(studentData.value.internships).value >= 5)
                         && r.chart == PlotInternshipProgress(studentData.value.internships)
  {
    if studentData.None? || studentData.value.internships == [] then NoInternshipsYet
    else
      var views := studentData.value.internships;
      var msmes := MsmeSum(views);
      if msmes.None? then TypeErrorRaised
      else Panel(ProgressPercent(|views|), Award(|views|, msmes.value), PlotInternshipProgress(views))
  }

  /** The page for a student found by email, in terms of the student's own
      internship rows: progress min(10 * rows, 100), Internship Pro from 3
      rows, Top Performer exactly when their msme_digitalized total reaches
      5, and a TypeError when one of them is NULL. */
  lemma YourProgressForStudent(db: Database, email: Text)
    requires FetchStudentData(db, email, false).Some?
    ensures var data := FetchStudentData(db, email, false);
            var own := Owned(db.internships, data.value.studentId);
            var r := YourProgress(data);
            && (r.NoInternshipsYet? <==> own == [])
            && (r.TypeErrorRaised? <==> exists k :: 0 <= k < |own| && own[k].msme.None?)
            && (r.Panel? ==> && r.progress == ProgressPercent(|own|)
                             && (r.badges.internshipPro <==> |own| >= 3)
                             && (r.badges.topPerformer <==> ColumnTotal(own) >= 5))
  {
    var data := FetchStudentData(db, email, false);
    var own := Owned(db.internships, data.value.studentId);
    InternshipsOfOwned(db.internships, data.value.studentId);
    var views := data.value.internships;
    assert views == Views(own);
    assert (exists k :: 0 <= k < |views| && views[k].msme.None?) <==>
           (exists k :: 0 <= k < |own| && own[k].msme.None?) by {
      forall k | 0 <= k < |own| ensures views[k].msme == own[k].msme {
      }
    }
    MsmeSumTotal(own);
  }

  /** `'s' if total > 1 else ''`. */
  function Plural(total: nat): string {
    if total > 1 then "s" else ""
  }

  /** The sidebar greeting for a known student with `total` internships. */
  function Greeting(name: string, total: nat): (g: string)
    ensures total == 0 ==> g == "Hi " + name + "! You're just starting! Log your first internship!"
    ensures total > 0 ==>
              exists digits :: (&& Decimal.AllDigits(digits) && digits != [] && digits[0] != '0'
                                && Decimal.Value(digits) == total
                                && g == "Hi " + name + "! Wow, " + digits + " internship" + Plural(total) + "! Keep it up!")
  {
    Decimal.NatToStringRoundTrip(total);
    if total == 0 then "Hi " + name + "! You're just starting! Log your first internship!"
    else "Hi " + name + "! Wow, " + Decimal.NatToString(total) + " internship" + Plural(total) + "! Keep it up!"
  }

  /** `metrics.get(key, 0)` for the three metric cards: all zero when
      fetch_metrics returned its empty dictionary. */
  function ShownMetrics(m: Option<Metrics>): (shown: Metrics)
    ensures m.None? ==> shown == Metrics(0, 0, 0)
    ensures m.Some? ==> shown == m.value
  {
    if m.None? then Metrics(0, 0, 0) else m.value
  }

  /** The cards never show more certifications than internships, and show
      the table's row count whenever the query succeeded. */
  lemma CardsConsistent(db: Database, fault: bool)
    ensures var shown := ShownMetrics(FetchMetrics(db, fault));
            && shown.certificationsIssued <= shown.totalInternships
            && (!fault ==> shown.totalInternships == |db.internships|)
  {
  }
}
