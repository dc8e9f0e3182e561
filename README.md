# Ky'ra internship tracker: a Dafny model of its data layer

Ky'ra is a Streamlit dashboard that tracks student internships. It keeps
three SQLite tables. `students` holds a name and a unique email. `internships`
holds a company, a duration, a feedback note and a count of MSMEs (small
businesses) digitalized, and points at its student. `feedback` holds a rating
and comments. This project models the program's data layer in Dafny:

- the write operations `register_student`, `log_internship` and `log_feedback`;
- the queries `fetch_student_data`, `fetch_reports` and `fetch_metrics`;
- the pagination loop of `generate_pdf_report`;
- the empty-input guard of `plot_internship_progress`;
- the progress, badge, greeting and metric-card rules of the UI.

Modules, one per file:

- `Schema` (schema.dfy): the row types, the store as a `Database` value
  (three sequences in rowid order plus the three AUTOINCREMENT counters), the
  invariant `Consistent`, and the email lookup `FindStudent`.
- `Repository` (repository.dfy): the writes. `Register`, `RecordInternship` and
  `RecordFeedback` are functions from the store before a call to the Boolean
  returned and the store after it. The class `Store` keeps the tables as
  fields. Its methods `RegisterStudent`, `LogInternship` and `LogFeedback` update
  them step by step and are proved to agree with those functions.
- `Queries` (queries.dfy): the reads as functions of the store: filter,
  projection, inner join, `COUNT(*)`, `SUM(...) or 0` and `COUNT(DISTINCT ...)`.
- `Decimal` (decimal.dfy): Python's `str` on integers, as the f-strings use it.
- `PdfReport` (pdf_report.dfy): the cursor and page-break rule of the PDF export.
- `Progress` (progress.dfy): the rules of the "Your Progress" page, the sidebar
  greeting and the metric cards.
- `Properties` (properties.dfy): lemmas about what a later read sees after a
  write, and a client of `Store` that registers two students, logs
  three internships and checks what fetch_metrics returns and the cards
  then show.

Conventions of the model:

- A Python `None` passed into a nullable column becomes SQL NULL. It is `None`
  in the model's `Text` (`Option<string>`) and `Option<int>` values.
- `fault: bool` stands for the storage engine raising `sqlite3.Error` during
  the call. The operation then catches it, returns its negative answer (False,
  None, `[]` or `{}`) and stores nothing.
- `INSERT OR IGNORE` applies the IGNORE resolution to NOT NULL as well as to
  UNIQUE violations. So `register_student` with a NULL name or email, like one
  with a registered email, stores nothing and still returns True. SQLite
  computes the new rowid, and advances the AUTOINCREMENT counter to it,
  before it checks constraints, so an ignored insert still uses up an id: the
  next student registered gets the id after it.
- A plain `INSERT` with a NULL company or duration violates NOT NULL. It raises
  an error, so `log_internship` returns False and stores nothing.

Two behaviours of the code worth stating, since a reader might expect
otherwise:

- A storage error in `fetch_student_data` returns the same None as an unknown
  email. Nothing distinguishes the two.
- Feedback rows are not required to reference an existing student.
  `log_feedback` checks nothing, and SQLite does not enforce foreign keys by
  default.

## Model

| member | source | states |
|---|---|---|
| `Schema.FindStudent` | kyra_internship_dashboard.py:78-79 | the lookup by email finds nothing exactly when the email is NULL or no student row has it; otherwise it returns a row of the table with that email |
| `Schema.FindStudentUnique` | kyra_internship_dashboard.py:35 | under the UNIQUE constraint on email, the row the lookup returns is the one row with that email |
| `Repository.Register` | kyra_internship_dashboard.py:62-72 | returns True unless the engine fails, including for an ignored duplicate; an engine failure changes nothing; otherwise the students' counter advances by one, and a row with that id is appended exactly when name and email are non-NULL and the email is new; other tables untouched; the invariant is kept |
| `Repository.RecordInternship` | kyra_internship_dashboard.py:74-94 | succeeds exactly when the email resolves and company and duration are not NULL; only then is one row appended, carrying the found student's id and the given fields unchanged, with an id above every earlier internship id; on failure nothing changes; the invariant is kept |
| `Repository.RecordFeedback` | kyra_internship_dashboard.py:96-109 | always appends exactly one feedback row with the given student id, rating and comments unchanged, unless the engine fails; no check on either value; other tables untouched; the invariant is kept |
| `Repository.Store.constructor` | kyra_internship_dashboard.py:28-59 | schema initialization yields three empty tables with their counters at 0, satisfying the invariant |
| `Repository.AppendStudent` | kyra_internship_dashboard.py:66-67 | appending a student with a new email under the next id keeps the store consistent, and that email is then found |
| `Repository.Store.RegisterStudent` | kyra_internship_dashboard.py:62-72 | the in-place update returns and leaves exactly what `Register` prescribes, and keeps the invariant |
| `Repository.Store.LogInternship` | kyra_internship_dashboard.py:74-94 | the in-place update returns and leaves exactly what `RecordInternship` prescribes, and keeps the invariant |
| `Repository.Store.LogFeedback` | kyra_internship_dashboard.py:96-109 | the in-place update returns and leaves exactly what `RecordFeedback` prescribes, and keeps the invariant |
| `Queries.Owned` | kyra_internship_dashboard.py:118-121 | the student's own internship rows: as many as rows carrying the id, each carrying it and taken from the table |
| `Queries.OwnedIsFilter` | kyra_internship_dashboard.py:118-121 | each internship row appears among the student's own rows exactly as often as in the table when it carries the student's id, and not at all otherwise |
| `Queries.Views` | kyra_internship_dashboard.py:118 | one projection to company, duration, feedback and msme per row, in order |
| `Queries.InternshipsOfOwned` | kyra_internship_dashboard.py:118-122 | the listed internships are the projections of the student's own rows, one for one |
| `Queries.InternshipsOf` | kyra_internship_dashboard.py:118-122 | the projections of the rows carrying the student id: as many as there are such rows, and each projection as often as rows show it |
| `Queries.FetchStudentData` | kyra_internship_dashboard.py:111-129 | None exactly on an unknown email or a storage error; otherwise the id and name of the student row with that email, and exactly the projections of that student's internship rows, counted with multiplicity |
| `Queries.JoinOne` | kyra_internship_dashboard.py:135-139 | the join rows of one internship are exactly its pairings with students of the same id |
| `Queries.ById` | kyra_internship_dashboard.py:33 | a student with the id is found exactly when one exists, and the one found carries it |
| `Queries.ByIdOfMember` | kyra_internship_dashboard.py:33 | with student ids a key, looking up a student's id finds that student |
| `Queries.Reported` | kyra_internship_dashboard.py:135-139 | reference rows for the join: when every internship resolves, one row per internship, pairing it with the student its id names |
| `Queries.JoinOneById` | kyra_internship_dashboard.py:138 | with student ids a key, one internship's join rows are its row with the student it names, or none |
| `Queries.Join` | kyra_internship_dashboard.py:135-139 | a row is in the inner join exactly when it pairs some student with some internship carrying that student's id |
| `Queries.JoinIsReported` | kyra_internship_dashboard.py:135-139 | with student ids a key, the join is exactly the reference rows, multiplicities included |
| `Queries.JoinOneSize` | kyra_internship_dashboard.py:33 | with student ids a key, an internship joins with exactly one student when its id resolves and with none otherwise |
| `Queries.JoinSize` | kyra_internship_dashboard.py:135-139 | when every internship's student id resolves, the join has exactly one row per internship |
| `Queries.FetchReports` | kyra_internship_dashboard.py:131-145 | [] on a storage error; otherwise exactly the join rows; on a consistent store as many rows as internships, and the same multiset as the reference rows, whatever the order |
| `Queries.Sum` | kyra_internship_dashboard.py:153 | `SUM(msme_digitalized)` is NULL exactly when no row has a non-NULL value, an empty table included |
| `Queries.SumOrZero` | kyra_internship_dashboard.py:153-154 | `SUM(...) or 0` equals the column total with every NULL counted as 0, and 0 on an empty table |
| `Queries.DistinctStudentsBound` | kyra_internship_dashboard.py:155 | the distinct student ids number at most the internship rows, and at least one when there is a row |
| `Queries.Aggregate` | kyra_internship_dashboard.py:151-156 | the internship count, the NULL-as-0 msme total (non-negative when every value is) and the distinct-student count; certifications never exceed internships and are 0 exactly when there are none |
| `Queries.FetchMetrics` | kyra_internship_dashboard.py:147-165 | the empty dictionary exactly on a storage error; otherwise certifications at most the internship count, which equals the table's row count, and all three values 0 on an empty table |
| `Queries.CertifiedAreActiveStudents` | kyra_internship_dashboard.py:155-156 | on a consistent store, "certifications issued" counts exactly the ids of students with at least one internship |
| `Decimal.NatToString` | kyra_internship_dashboard.py:175 | a non-negative integer renders as a non-empty string of digits with no leading zero |
| `Decimal.NatToStringRoundTrip` | kyra_internship_dashboard.py:175 | reading the rendered digits back gives the number |
| `Decimal.IntToStringRoundTrip` | kyra_internship_dashboard.py:175 | the rendering of any integer, sign included, reads back as that integer |
| `PdfReport.RowText` | kyra_internship_dashboard.py:175 | each row's line begins with "Name: " followed by the student's name |
| `PdfReport.Placement` | kyra_internship_dashboard.py:173-180 | row k is drawn at x = 30 with its own text, at a y within [40, 800], and at y = 800 exactly when it opens a page |
| `PdfReport.GeneratePdfReport` | kyra_internship_dashboard.py:168-182 | the loop draws one line per row, in input order, each where `Placement` puts it, and starts a new page once per 39 rows; empty input draws nothing |
| `PdfReport.NextLine` | kyra_internship_dashboard.py:176-180 | of two consecutive lines, the second is 20 lower on the same page, or else the first sat at y = 40 and the second opens the next page at y = 800 |
| `PdfReport.PageCapacity` | kyra_internship_dashboard.py:177-180 | no page holds more than 39 lines |
| `Progress.ProgressPercent` | kyra_internship_dashboard.py:254 | progress never exceeds 100, is 10 per internship below ten internships, and reaches 100 exactly from ten on |
| `Progress.ProgressMonotone` | kyra_internship_dashboard.py:254 | more internships never show less progress |
| `Progress.Award` | kyra_internship_dashboard.py:257-262 | "First Internship" exactly when total >= 1, "Internship Pro" exactly when total >= 3, "Top Performer" exactly when the MSME sum >= 5; Pro implies First |
| `Progress.MsmeSum` | kyra_internship_dashboard.py:253 | the `int(...)` sum fails exactly when some msme value is NULL, and is non-negative when every value is |
| `Progress.MsmeSumTotal` | kyra_internship_dashboard.py:253 | over rows with no NULL msme, the sum of their projections is those rows' column total |
| `Progress.PlotInternshipProgress` | kyra_internship_dashboard.py:184-189 | no chart exactly for an empty list; otherwise one bar per internship, positioned by index, coloured by company, as high as its msme value |
| `Progress.YourProgress` | kyra_internship_dashboard.py:250-267 | the "no internships" notice exactly when the student is unknown or has none; the TypeError exactly when some msme is NULL; otherwise progress is min(10 * count, 100) and so in [10, 100], the First Internship badge always, Pro exactly from three internships, Top Performer exactly when the msme sum reaches 5, and the chart of those internships |
| `Progress.YourProgressForStudent` | kyra_internship_dashboard.py:250-262 | for a student found by email, in terms of their own internship rows: no panel exactly without rows, TypeError exactly when one has NULL msme, otherwise progress min(10 * rows, 100), Pro from 3 rows, Top Performer exactly when their msme total reaches 5 |
| `Progress.Greeting` | kyra_internship_dashboard.py:232-237 | the "just starting" message for zero internships; otherwise the count in decimal with no leading zero, reading back as the total, with "internship" made plural exactly when total > 1 |
| `Progress.ShownMetrics` | kyra_internship_dashboard.py:239-246 | each metric card shows 0 when the metrics dictionary is empty, and the fetched value otherwise |
| `Progress.CardsConsistent` | kyra_internship_dashboard.py:239-246 | the cards never show more certifications than internships, and show the table's row count when the query succeeded |
| `Properties.OneRowPerEmail` | kyra_internship_dashboard.py:35 | with unique emails, a found email names exactly one row |
| `Properties.RegisterTwice` | kyra_internship_dashboard.py:66 | registering an email a second time stores no row and changes no table beyond the id counter, still returns True, and leaves exactly one row with that email |
| `Properties.DuplicateLeavesGap` | kyra_internship_dashboard.py:66 | after a new email, the same email again and another new email, the third student is found under the old counter plus 3 |
| `Properties.RegisterThenFetch` | kyra_internship_dashboard.py:111-124 | a newly registered email is found under the next id with the given name and no internships |
| `Properties.LogInternshipThenFetch` | kyra_internship_dashboard.py:78-91 | logging an internship for a known email adds exactly its projection to what the student's data lists |
| `Properties.FirstInternshipFetched` | kyra_internship_dashboard.py:111-124 | register, then log one internship: the student's data lists exactly that one internship |
| `Properties.LogInternshipMetrics` | kyra_internship_dashboard.py:151-156 | a logged internship adds 1 to the count and its msme value (NULL as 0) to the total; certifications grow by 1 exactly when the student had no internship before |
| `Properties.LogInternshipReported` | kyra_internship_dashboard.py:131-142 | after logging an internship, the report's multiset of rows is the old one plus one row pairing the found student with the new internship |
| `Properties.JoinIgnoresUnreferenced` | kyra_internship_dashboard.py:138 | a student whose id no internship carries adds nothing to the join |
| `Properties.RegisterKeepsReports` | kyra_internship_dashboard.py:62-69 | registering a student never changes the report rows |
| `Properties.FeedbackRoundTrip` | kyra_internship_dashboard.py:100-103 | every field written to feedback reads back unchanged, under an id above every earlier feedback id; students and internships unchanged |
| `Properties.EmptyStore` | kyra_internship_dashboard.py:147-162 | a new store gives metrics 0/0/0, no report rows and no student |
| `Properties.ExampleAggregate` | kyra_internship_dashboard.py:151-156 | two internships with 3 and 4 MSMEs for one student and one with 5 for another give 3 internships, 12 MSMEs and 2 certifications |

## Left out

- The Streamlit UI is not modelled: page routing, session state, widgets,
  `st.error` messages and the required-field check before `log_internship`.
  Only the decision rules at lines 232-262 are lifted out.
- Concurrency is not modelled. `get_connection` is a cached resource shared
  by every Streamlit session and opened with `check_same_thread=False`, so
  sessions run statements on one connection without isolation from each
  other. Each operation is modelled as one atomic step on a single state.
  The bounds proved about a result, such as `FetchMetrics`'s certifications
  never exceeding internships, hold only for a call that no other session's
  write interleaves with. `fetch_metrics` sends three separate SELECTs, and a
  `log_internship` committed between them can break that bound.
- The connection handling is not modelled. This covers `get_connection`, its
  `STREAMLIT_CLOUD` path choice and the cached connection's lifecycle. The
  cached connection is closed by `initialize_database` and by every operation,
  so later calls would hit a closed-connection error. In the model that is
  the `fault = true` case; which calls actually get it is not modelled.
- `CREATE TABLE IF NOT EXISTS` on a file that already has the tables is not
  modelled. The constructor models initialization of a new file only.
- Foreign-key enforcement is not modelled. SQLite leaves it off by default,
  so only the table contents are modelled.
- Result order is not modelled. The SELECTs have no ORDER BY. The model lists
  rows in rowid order. What the program can rely on is stated with counts
  and multisets (`InternshipsOf`, `FetchStudentData`, `FetchReports`,
  `LogInternshipReported`). The lemmas that equate sequences
  (`LogInternshipThenFetch`, `FirstInternshipFetched`, `RegisterKeepsReports`,
  `JoinIgnoresUnreferenced`, `InternshipsOfOwned`, `JoinIsReported`) are
  about that rowid order, the order of a plain table scan, which SQL does not
  promise.
- Chart rendering is not modelled (matplotlib, seaborn, PNG, base64). It is
  float-based and runs in foreign libraries. `PlotInternshipProgress` gives
  the bar data only.
- PDF output is not modelled: reportlab canvas calls, fonts, the temporary
  file and the PDF bytes, including whether `save` adds a trailing blank page.
  `GeneratePdfReport` gives each drawn line with its page number, and the
  count of `showPage` calls.
- SQLite's dynamic typing is not modelled. Values are modelled as TEXT or
  NULL and INTEGER or NULL. A string stored in an INTEGER column is not.
- 64-bit limits are not modelled: rowid exhaustion (SQLITE_FULL), overflow
  in `SUM`, and Python's OverflowError when binding an integer too large for
  SQLite. Ids and sums are unbounded integers.
- Repository.Register: the counter advance on an ignored insert follows the
  order of SQLite's insert code, which computes the rowid before the
  constraint checks. SQLite's AUTOINCREMENT documentation only says such ids
  might not be reused. A build that behaved otherwise would leave the
  counter unchanged on that path.
