# Student report card: grading and statistics model

A Dafny model of the grading logic of a small student report card system. The
system has two front ends over one `students` table: a Flask web app (`app.py`)
and a Tk desktop form (`tkinter_app.py`). The model covers:

- the `Student` class of `app.py`: total = sum of the marks, percentage =
  total / number of subjects, and the five-way grade cascade
  (≥90 A+, ≥75 A, ≥60 B, ≥50 C, otherwise F). Modules `Grading`, `Marks`
  and `StudentModel`;
- the record that the web `add_student` and `edit_student` handlers build
  from the three form marks (`StudentModel.WebRecord`). The web front end
  checks no range;
- the listing and statistics pass of `index()`, as a method with a loop
  (`Dashboard.Scan`). It reads a row whose marks do not decode as all zeros
  and a subject missing from the marks as 0. It rounds each percentage to
  two places and sums the columns. Every average is 0 when there are no rows.
  The top performer is the first row with the largest percentage, provided
  that percentage beats the initial maximum of -1;
- the desktop `add_student` handler (`Desktop.AddStudent`). It strips the
  fields, rejects a blank field, then a mark that does not convert, then a
  mark outside 0..100, in that order. It computes the total, the two-place
  percentage and the grade with its own copy of the same cascade.

Percentages are exact `real`s. `round(x, 2)` is `Rounding.RoundTo2`. It
rounds to the nearest hundredth, and an exact tie goes to the even hundredth
as in Python (62.625 gives 62.62). Ties do occur: an average such as
501 / 8 = 62.625 is one.

The desktop copy of the cascade (`tkinter_app.py:50-59`) is identical to
`Student.calculate_grade` (`app.py:16-26`), so both front ends use
`Grading.CalculateGrade`. The desktop form rounds its percentage before
grading; the web form does not. `Desktop.DesktopGradeMatchesWeb` proves that
this never changes the grade: a third of an integer rounded to two places
stays on the same side of every integer threshold. The proof holds for every
integer total, not only for 0..300.

The desktop form rejects marks outside 0..100 (`tkinter_app.py:42-44`), but
the web handlers do not check them: `StudentModel.WebAcceptsOutOfRangeMarks` records that marks of
150 are stored with a percentage of 150 and an A+. The model follows the code.

A negative percentage comes from negative marks, which only the web form
accepts. A row whose rounded percentage is at most -1 never becomes the top
performer, so a table of such rows shows 'N/A'. A top performer whose name is
the empty string also shows as 'N/A' (`top_student or 'N/A'`). `Dashboard.Scan`
states both cases.

## Model

| member | source | states |
|---|---|---|
| `Grading.CalculateGrade` | app.py:16-26 | each grade holds exactly on its band: A+ iff ≥90, A iff 75≤p<90, B iff 60≤p<75, C iff 50≤p<60, F iff p<50; the thresholds are inclusive and the bands cover every percentage |
| `Grading.Letter` | app.py:17-26 | the stored grade text is always one of "A+", "A", "B", "C", "F" |
| `Grading.Rank` | app.py:16-26 | the order of the grades: A+ is the top rank and F the bottom one |
| `Grading.Threshold` | app.py:17-23 | the passing thresholds lie between 50 and 90 |
| `Grading.AtLeastIffThreshold` | app.py:16-26 | a percentage earns at least grade g exactly when it reaches g's threshold |
| `Grading.GradeMonotone` | app.py:16-26 | a higher percentage never yields a worse grade |
| `Rounding.RoundHalfEven` | app.py:95-98 | the nearest integer, within one half of the value; on an exact half it is the even one |
| `Rounding.RoundTo2` | app.py:67 | `round(x, 2)` gives a whole number of hundredths within half a hundredth of x, and the even hundredth on an exact tie |
| `Rounding.RoundHalfEvenMonotone` | app.py:95-98 | rounding to an integer preserves order |
| `Rounding.RoundTo2TiesToEven` | app.py:95-98 | a tie goes to the even hundredth: 62.625 rounds to 62.62 and 62.875 to 62.88 (both exact in binary, so Python sees the same ties) |
| `Rounding.RoundTo2Monotone` | app.py:67 | rounding preserves order |
| `Rounding.RoundTo2Exact` | app.py:67 | a value that is already a whole number of hundredths is unchanged by rounding |
| `Marks.SumOfMarks` | app.py:12 | the total of no marks is 0, and with every mark in 0..100 the total lies in 0..100 × the number of subjects |
| `Marks.SumOverRemove` | app.py:12 | the sum of the marks does not depend on the order the subjects are taken in: any subject can be split off |
| `Marks.SumOfMarksAdd` | app.py:12 | adding a subject adds its score to the total |
| `Marks.SumOverBounds` | app.py:12 | with every mark in lo..hi, the total lies between lo and hi times the number of subjects |
| `Marks.Subjects` | app.py:114 | the marks map built from the form has exactly the keys Math, Science, English with the given scores |
| `Marks.SubjectsSum` | app.py:112-115 | the total of the three-subject map is math + science + english |
| `StudentModel.NewStudent` | app.py:8-14 | the constructor keeps name, roll and marks and derives total, percentage and grade consistently: total is the sum of the marks, percentage × subject count = total, and grade is the cascade of the percentage; it requires non-empty marks because the source divides by `len(marks)` without a guard |
| `StudentModel.ConsistentDetermined` | app.py:12-14 | two records that are consistent with the same marks agree on total, percentage and grade |
| `StudentModel.PercentageInRange` | app.py:12-13 | with every mark in 0..100, the percentage lies in 0..100 |
| `StudentModel.WebRecord` | app.py:112-120 | the record the add handler stores: marks {Math, Science, English}, total = their sum, percentage = total / 3, grade = cascade of that percentage, and the derived fields are consistent with the stored marks |
| `StudentModel.WebAcceptsOutOfRangeMarks` | app.py:154-162 | add and edit build the record without any range check: marks of 150 give a percentage of 150 and an A+, and negative marks give an F |
| `Dashboard.Key` | app.py:74-76 | each listed subject is a key of the default marks map |
| `Dashboard.Lookup` | app.py:74-76 | `marks.get(subject, 0)`: the stored score if the subject is present, else 0 |
| `Dashboard.MarksOrDefault` | app.py:62-65 | marks that do not decode are replaced by zeros for all three subjects |
| `Dashboard.Process` | app.py:67-80 | a listing entry copies id, name, roll, total and grade, rounds the percentage to two places, reads a missing subject as 0 and reads every subject as 0 when the marks do not decode |
| `Dashboard.PercentageTotal` | app.py:68 | the running percentage sum is 0 for no entries, and with every percentage in 0..100 it lies in 0..100 × entries |
| `Dashboard.PercentageTotalAppend` | app.py:67-68 | each row adds its rounded percentage to the running sum |
| `Dashboard.Shown` | app.py:99 | the top performer shows as 'N/A' when there is none or its name is empty, and otherwise as its name |
| `Dashboard.Average` | app.py:95-98 | with no rows the average is 0 and no division happens |
| `Dashboard.Scan` | app.py:56-99 | one entry per row, in row order; count = number of rows; each average is the rounded column sum (or percentage sum) over the count, and 0 with no rows; the top performer is the first entry with the largest percentage if it beats -1, and 'N/A' if no entry does |
| `Dashboard.SumColumn` | app.py:89-91 | the generator sum equals the column total of the entries |
| `Dashboard.TopSoFarStep` | app.py:82-84 | one loop step keeps the running maximum and top student right: a strictly larger percentage takes over, while a tie or a smaller one leaves the earlier student on top |
| `Dashboard.FirstBestUnique` | app.py:82-84 | at most one entry is the first with the largest percentage |
| `Dashboard.FirstBestExists` | app.py:57-84 | if some entry beats -1 there is a first best entry, so Scan's two top-performer clauses fix the result on every input |
| `Dashboard.ColumnTotalAppend` | app.py:89-91 | column sums add up over concatenation of the rows |
| `Dashboard.ColumnTotalBounds` | app.py:89-91 | with every mark of a column in 0..100, its sum lies in 0..100 × rows |
| `Dashboard.AverageInRange` | app.py:95-97 | with every mark of a column in 0..100, its average lies in 0..100 |
| `Desktop.IsSpaceChars` | tkinter_app.py:28-32 | the whitespace that `str.strip()` removes includes blank, tab, newline, carriage return, no-break space and ideographic space, and excludes the digits and the signs |
| `Desktop.StripLeft` | tkinter_app.py:28-32 | the result is a suffix of the input that does not start with whitespace, and only whitespace was removed |
| `Desktop.StripRight` | tkinter_app.py:28-32 | the result is a prefix of the input that does not end with whitespace, and only whitespace was removed |
| `Desktop.Strip` | tkinter_app.py:28-32 | a non-empty stripped field neither starts nor ends with whitespace |
| `Desktop.StripTrims` | tkinter_app.py:28-32 | the stripped field is a contiguous slice of the field, and everything before and after that slice is whitespace |
| `Desktop.StripEmptyIffBlank` | tkinter_app.py:28-36 | a field counts as missing exactly when it holds only whitespace |
| `Desktop.StripIdempotent` | tkinter_app.py:28-32 | stripping twice is stripping once |
| `Desktop.AddStudent` | tkinter_app.py:26-59 | the form is rejected as missing iff some stripped field is empty, whatever the other fields hold; as invalid iff all are filled and some mark does not convert; as out of range iff all convert and some mark is outside 0..100; otherwise it is accepted with the record graded from the stripped, converted fields |
| `Desktop.Graded` | tkinter_app.py:46-59 | total = math + science + english and lies in 0..300, percentage = total / 3 rounded to two places, grade = the cascade of that rounded percentage |
| `Desktop.RoundedThirdKeepsThreshold` | tkinter_app.py:48-50 | for any integer total and integer threshold t, the rounded total / 3 reaches t iff the exact total / 3 does |
| `Desktop.RoundedThirdKeepsGrade` | tkinter_app.py:48-59 | rounding total / 3 to two places never changes its grade |
| `Desktop.DesktopGradeMatchesWeb` | tkinter_app.py:46-59 | for marks in 0..100, the desktop grade equals the grade of the web Student for the same three marks |
| `Desktop.RoundingCanCrossThreshold` | tkinter_app.py:48-50 | for values that are not thirds, rounding can cross a threshold: 89.996 is an A but rounds to an A+ |
| `Rounding.RoundTo2Idempotent` | app.py:67 | re-rounding a stored two-place percentage in the listing leaves it unchanged |
| `Desktop.ReprRow` | tkinter_app.py:61-62 | the row the desktop handler inserts, as written: its marks column does not decode, and id, name, roll, total, percentage and grade text are the ones the handler inserts |
| `Desktop.JsonRow` | app.py:119-120 | the row with the marks stored as JSON decodes back to the three marks |
| `Desktop.ReprRowLosesMarks` | tkinter_app.py:61-62 | as written, the listing shows a desktop-added student's Math mark as 0 whatever was entered |
| `Desktop.JsonRowShowsRecord` | app.py:61-80 | with JSON-stored marks, the listing shows the entered marks, total, grade, name and roll, and the stored two-place percentage unchanged |
| `Desktop.Submit` | tkinter_app.py:34-63 | as written: a rejected form leaves the table unchanged; an accepted one keeps the earlier rows and appends exactly one row, with the given id and the record's name, roll, total, percentage and grade text, whose marks do not decode, so the listing shows every mark as 0 |
| `Desktop.SubmitJson` | app.py:119-120 | corrected: the appended row carries the same id, name, roll, total, percentage and grade text, stores the marks as JSON, and the listing shows the entered Math, Science and English marks |

## Findings

| source | as written | input that shows it | evidently intended | confidence | as-written member | corrected member |
|---|---|---|---|---|---|---|
| tkinter_app.py:61-62 | the desktop handler stores the marks column as `str(marks)`, a Python literal with single-quoted keys that `json.loads` in the web listing rejects | any accepted desktop form with Math = 90: the web listing shows Math 0, Science 0, English 0 for that student | store `json.dumps(marks)` as the web handlers do (app.py:120); `database_fix.py` repairs such rows after the fact | high; not executed | `Desktop.ReprRowLosesMarks` | `Desktop.JsonRowShowsRecord` |

`Desktop.Submit` inserts the row as written (`Desktop.ReprRow`);
`Desktop.SubmitJson` inserts the corrected row (`Desktop.JsonRow`).

## Left out

- Flask routing, templates, redirects, `jsonify`, `send_file` and form access are web plumbing. The routes `get_student`, `delete_student` and `download` (CSV export) contain no grading logic.
- All SQLite access is left out: table creation, INSERT, UPDATE, DELETE, SELECT and the LIKE search. Fetched rows are an input sequence (`Dashboard.Row`). The id that AUTOINCREMENT assigns is a parameter of `Desktop.Submit`.
- Edit by id (UPDATE … WHERE id): the store is not modelled. Edit builds the same record as add (`StudentModel.WebRecord`).
- `int()` on form strings: the web handlers take the marks as integers, and a conversion failure (HTTP 400) is not modelled. The desktop handler takes `int()` as the parameter `parseInt`.
- `json.loads`, `json.dumps`, `str(marks)` and `ast.literal_eval` are not modelled. A row's decoded marks are an `Option`; None stands for a decoding failure.
- Stored marks that decode but are not a map of integers are not modelled. In the source, a decoded value that is not a dict raises AttributeError at `marks.get` (app.py:74, outside the `try`), and a non-numeric value under Math, Science or English raises TypeError in the column sums (app.py:89-91). Float-valued marks raise nothing: they flow into the sums and averages as floats, but `MarkMap` holds integers. Extra keys are never read.
- NULL names and rolls are not modelled, because both are strings here. In the source a missing `name` or `roll` form field stores NULL (a missing mark field instead makes `int(None)` fail, answered with HTTP 400). The listing copies either one, and `top_student or 'N/A'` shows a NULL name as 'N/A' when that student is top performer.
- NULL percentages are not modelled; `round(None, 2)` raises in the source.
- `database_fix.py` is a one-shot repair script that chooses among the outcomes of two parsers.
- Floating point: percentages and averages are exact reals. Python's `round` rounds the binary float, and `RoundTo2` rounds the exact value; both send an exact tie to the even hundredth. They can differ where the decimal value has no exact binary form: Python rounds 2.675 to 2.67 because the float lies just below 2.675, while `RoundTo2` gives 2.68.
- The desktop handler's catch-all `except Exception` (database errors), the Tk widgets, message boxes, `refresh_table`, `clear_fields` and `export_csv` are left out.
- The sum over a map picks its subjects by choice, so it and the record constructors built on it are ghost. Python sums the values in insertion order, which gives the same integer.
