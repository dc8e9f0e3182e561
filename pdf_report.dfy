/** The layout rule of generate_pdf_report: each report row becomes one
    line of text at x = 30; a cursor y starts at 800 and drops 20 after each
    line, and once it falls below 40 the canvas starts a new page and y goes
    back to 800. The canvas itself is not modelled: a drawn line is recorded
    with the number of pages begun before it. */
module PdfReport {
  import opened Schema
  import opened Queries
  import Decimal

  const LEFT_X := 30
  const TOP_Y := 800
  const LINE_STEP := 20
  const BOTTOM_Y := 40
  /** Lines that fit between TOP_Y and BOTTOM_Y: 800, 780, …, 40. */
  const LINES_PER_PAGE := 39

  /** Python's f-string rendering of a nullable TEXT value. */
  function ShowText(t: Text): string {
    if t.None? then "None" else t.value
  }

  /** Python's f-string rendering of a nullable INTEGER value. */
  function ShowInt(m: Option<int>): string {
    if m.None? then "None" else Decimal.IntToString(m.value)
  }

  /** The text drawn for one report row. */
  function RowText(row: ReportRow): (text: string)
    ensures 6 + |row.name| <= |text| && text[..6] == "Name: " && text[6..6 + |row.name|] == row.name
  {
    var head := "Name: " + row.name;
    var tail := ", Email: " + row.email + ", Company: " + row.company
                + ", Duration: " + row.duration + ", Feedback: " + ShowText(row.feedback)
                + ", MSMEs Digitalized: " + ShowInt(row.msme);
    assert (head + tail)[..|head|] == head;
    assert head[..6] == "Name: " && head[6..] == row.name;
    head + tail
  }

  /** `c.drawString(x, y, text)` on the page numbered `page` (from 0). */
  datatype Line = Line(page: nat, x: int, y: int, text: string)

  /** Where the k-th row is drawn: page k / 39, 20 points lower for each
      line already on that page. */
  function Placement(data: seq<ReportRow>, k: nat): (line: Line)
    requires k < |data|
    ensures line.x == LEFT_X && line.text == RowText(data[k])
    ensures BOTTOM_Y <= line.y <= TOP_Y
    ensures line.y == TOP_Y <==> k % LINES_PER_PAGE == 0
  {
    Line(k / LINES_PER_PAGE, LEFT_X, TOP_Y - LINE_STEP * (k % LINES_PER_PAGE), RowText(data[k]))
  }

  /** The cursor after one more line on a page holding `k % 39` lines. */
  lemma CursorStep(k: nat)
    ensures k % LINES_PER_PAGE == LINES_PER_PAGE - 1 ==>
              (k + 1) % LINES_PER_PAGE == 0 && (k + 1) / LINES_PER_PAGE == k / LINES_PER_PAGE + 1
    ensures k % LINES_PER_PAGE < LINES_PER_PAGE - 1 ==>
              (k + 1) % LINES_PER_PAGE == k % LINES_PER_PAGE + 1 && (k + 1) / LINES_PER_PAGE == k / LINES_PER_PAGE
  {
  }

  /** generate_pdf_report's loop. Returns the lines drawn and the number of
      `showPage()` calls made inside the loop. */
  method GeneratePdfReport(data: seq<ReportRow>) returns (lines: seq<Line>, pageBreaks: nat)
    ensures |lines| == |data|
    ensures forall k :: 0 <= k < |data| ==> lines[k] == Placement(data, k)
    ensures pageBreaks == |data| / LINES_PER_PAGE
  {
    var y := TOP_Y;
    lines, pageBreaks := [], 0;
    for n := 0 to |data|
      invariant |lines| == n
      invariant forall k :: 0 <= k < n ==> lines[k] == Placement(data, k)
      invariant pageBreaks == n / LINES_PER_PAGE
      invariant y == TOP_Y - LINE_STEP * (n % LINES_PER_PAGE)
    {
      assert Line(pageBreaks, LEFT_X, y, RowText(data[n])) == Placement(data, n);
      lines := lines + [Line(pageBreaks, LEFT_X, y, RowText(data[n]))];
      CursorStep(n);
      y := y - LINE_STEP;
      if y < BOTTOM_Y {
        assert n % LINES_PER_PAGE == LINES_PER_PAGE - 1;
        pageBreaks := pageBreaks + 1;
        y := TOP_Y;
      } else {
        assert n % LINES_PER_PAGE < LINES_PER_PAGE - 1;
      }
    }
  }

  /** Consecutive lines: on the same page the next is 20 lower; otherwise
      the previous one sat at the bottom (y = 40) and the next opens the
      following page at the top. */
  lemma NextLine(data: seq<ReportRow>, k: nat)
    requires k + 1 < |data|
    ensures var a, b := Placement(data, k), Placement(data, k + 1);
            if a.page == b.page then b.y == a.y - LINE_STEP
            else b.page == a.page + 1 && a.y == BOTTOM_Y && b.y == TOP_Y
  {
    CursorStep(k);
  }

  /** The row numbers drawn on page p. */
  function OnPage(data: seq<ReportRow>, p: nat): set<nat> {
    set k: nat | k < |data| && Placement(data, k).page == p
  }

  /** The numbers lo, lo + 1, …, hi - 1. */
  function Range(lo: nat, hi: nat): (r: set<nat>)
    ensures forall k :: k in r <==> lo <= k < hi
    ensures |r| == if lo <= hi then hi - lo else 0
    decreases hi - lo
  {
    if hi <= lo then {} else {lo} + Range(lo + 1, hi)
  }

  /** No page holds more than 39 lines. */
  lemma PageCapacity(data: seq<ReportRow>, p: nat)
    ensures |OnPage(data, p)| <= LINES_PER_PAGE
  {
    var lo := p * LINES_PER_PAGE;
    forall k | k in OnPage(data, p) ensures k in Range(lo, lo + LINES_PER_PAGE) {
      assert k / LINES_PER_PAGE == p;
    }
    SubsetSize(OnPage(data, p), Range(lo, lo + LINES_PER_PAGE));
  }

  lemma SubsetSize(a: set<nat>, b: set<nat>)
    requires a <= b
    ensures |a| <= |b|
  {
    assert b == a + (b - a);
  }
}
