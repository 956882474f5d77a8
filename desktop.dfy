/** The add_student handler of the desktop form (tkinter_app.py): strip the
    five fields, reject blanks, convert the marks, reject marks outside
    0..100, then compute total, the two-place percentage and the grade. */
module Desktop {
  import opened Options
  import opened Grading
  import opened Rounding
  import opened Marks
  import StudentModel
  import opened Dashboard

  /** The characters str.strip() removes: Python's whitespace. */
  predicate IsSpace(c: char)
  {
    || '\t' <= c <= '\r'
    || '\U{1C}' <= c <= ' '
    || c == '\U{85}' || c == '\U{A0}' || c == '\U{1680}'
    || '\U{2000}' <= c <= '\U{200A}'
    || c == '\U{2028}' || c == '\U{2029}' || c == '\U{202F}' || c == '\U{205F}'
    || c == '\U{3000}'
  }

  /** The whitespace set includes the blank, tab, newline and carriage
      return, and excludes the digits and the signs int() accepts. */
  lemma IsSpaceChars()
    ensures IsSpace(' ') && IsSpace('\t') && IsSpace('\n') && IsSpace('\r')
    ensures IsSpace('\U{A0}') && IsSpace('\U{3000}')
    ensures forall c :: '0' <= c <= '9' ==> !IsSpace(c)
    ensures !IsSpace('-') && !IsSpace('+')
  {
  }

  /** Drops leading whitespace: what is left is a suffix of s that does not
      start with whitespace, and everything dropped was whitespace. */
  function StripLeft(s: string): (r: string)
    ensures |r| <= |s| && r == s[|s| - |r|..]
    ensures forall i :: 0 <= i < |s| - |r| ==> IsSpace(s[i])
    ensures r != [] ==> !IsSpace(r[0])
    decreases |s|
  {
    if s != [] && IsSpace(s[0]) then StripLeft(s[1..]) else s
  }

  /** Drops trailing whitespace: what is left is a prefix of s that does not
      end with whitespace, and everything dropped was whitespace. */
  function StripRight(s: string): (r: string)
    ensures |r| <= |s| && r == s[..|r|]
    ensures forall i :: |r| <= i < |s| ==> IsSpace(s[i])
    ensures r != [] ==> !IsSpace(r[|r| - 1])
    decreases |s|
  {
    if s != [] && IsSpace(s[|s| - 1]) then StripRight(s[..|s| - 1]) else s
  }

  /** r is s with the a characters before it and the ones after it removed,
      all of them whitespace. */
  ghost predicate TrimmedFrom(s: string, r: string, a: int)
  {
    && 0 <= a <= |s| - |r| && r == s[a..a + |r|]
    && (forall i :: 0 <= i < a ==> IsSpace(s[i]))
    && (forall i :: a + |r| <= i < |s| ==> IsSpace(s[i]))
  }

  /** str.strip(): s with its leading and trailing whitespace removed, and
      nothing else changed. */
  function Strip(s: string): (r: string)
    ensures |r| <= |s|
    ensures r != [] ==> !IsSpace(r[0]) && !IsSpace(r[|r| - 1])
  {
    StripRight(StripLeft(s))
  }

  /** Stripping keeps a contiguous slice of the field and removes only
      whitespace before and after it. */
  lemma StripTrims(s: string)
    ensures TrimmedFrom(s, Strip(s), |s| - |StripLeft(s)|)
  {
    var l := StripLeft(s);
    var r := StripRight(l);
    var a := |s| - |l|;
    assert Strip(s) == r;
    TrimBothEnds(s, l, r, IsSpace);
    assert TrimmedFrom(s, r, a);
  }

  /** Dropping a prefix and then a suffix, each made of characters that
      satisfy p, leaves a slice of s with only such characters around it. */
  lemma TrimBothEnds(s: string, l: string, r: string, p: char -> bool)
    requires |l| <= |s| && l == s[|s| - |l|..]
    requires forall i :: 0 <= i < |s| - |l| ==> p(s[i])
    requires |r| <= |l| && r == l[..|r|]
    requires forall i :: |r| <= i < |l| ==> p(l[i])
    ensures r == s[|s| - |l|..|s| - |l| + |r|]
    ensures forall i :: |s| - |l| + |r| <= i < |s| ==> p(s[i])
  {
    var a := |s| - |l|;
    forall i | a + |r| <= i < |s|
      ensures p(s[i])
    {
      assert s[i] == l[i - a];
    }
  }

  /** A field is blank after stripping exactly when it holds nothing but
      whitespace. */
  lemma StripEmptyIffBlank(s: string)
    ensures Strip(s) == [] <==> forall i :: 0 <= i < |s| ==> IsSpace(s[i])
  {
    var l := StripLeft(s);
    if exists i :: 0 <= i < |s| && !IsSpace(s[i]) {
      var i :| 0 <= i < |s| && !IsSpace(s[i]);
      assert |s| - |l| <= i;
      assert l[i - (|s| - |l|)] == s[i];
      assert StripRight(l) != [];
    }
  }

  /** Stripping twice changes nothing. */
  lemma StripIdempotent(s: string)
    ensures Strip(Strip(s)) == Strip(s)
  {
    var r := Strip(s);
    if r != [] {
      assert StripLeft(r) == r;
      assert StripRight(r) == r;
    }
  }

  /** The five entry fields as typed. */
  datatype Form = Form(name: string, roll: string, math: string, science: string, english: string)

  /** Why a form was turned away; each one shows its own message box. */
  datatype Rejection = MissingField | InvalidNumber | MarksOutOfRange

  /** The record inserted for an accepted form. */
  datatype Record = Record(
    name: string,
    roll: string,
    math: int,
    science: int,
    english: int,
    total: int,
    percentage: real,
    grade: Grade)

  datatype Outcome = Rejected(reason: Rejection) | Accepted(record: Record)

  /** `all([name, roll, math, sci, eng])` on the stripped fields. */
  predicate AllFilled(f: Form)
  {
    Strip(f.name) != [] && Strip(f.roll) != [] &&
    Strip(f.math) != [] && Strip(f.science) != [] && Strip(f.english) != []
  }

  /** int() succeeds on all three stripped mark fields; parseInt stands for
      Python's int() on a string. */
  predicate AllNumeric(f: Form, parseInt: string -> Option<int>)
  {
    parseInt(Strip(f.math)).Some? && parseInt(Strip(f.science)).Some? &&
    parseInt(Strip(f.english)).Some?
  }

  predicate InRange(v: int)
  {
    0 <= v <= 100
  }

  /** The checks in the order the handler makes them: blanks first, then
      conversion, then the range; only a form that passes all three yields
      a record, whose derived fields come from its three marks. */
  function AddStudent(f: Form, parseInt: string -> Option<int>): (o: Outcome)
    ensures o == Rejected(MissingField) <==> !AllFilled(f)
    ensures o == Rejected(InvalidNumber) <==> AllFilled(f) && !AllNumeric(f, parseInt)
    ensures o == Rejected(MarksOutOfRange) <==>
      && AllFilled(f) && AllNumeric(f, parseInt)
      && !(InRange(parseInt(Strip(f.math)).value) && InRange(parseInt(Strip(f.science)).value)
           && InRange(parseInt(Strip(f.english)).value))
    ensures o.Accepted? ==>
      && AllFilled(f) && AllNumeric(f, parseInt)
      && o.record == Graded(Strip(f.name), Strip(f.roll), parseInt(Strip(f.math)).value,
                            parseInt(Strip(f.science)).value, parseInt(Strip(f.english)).value)
  {
    var name, roll := Strip(f.name), Strip(f.roll);
    var math, science, english := Strip(f.math), Strip(f.science), Strip(f.english);
    if name == [] || roll == [] || math == [] || science == [] || english == [] then
      Rejected(MissingField)
    else if parseInt(math).None? || parseInt(science).None? || parseInt(english).None? then
      Rejected(InvalidNumber)
    else
      var m, s, e := parseInt(math).value, parseInt(science).value, parseInt(english).value;
      if !(0 <= m <= 100 && 0 <= s <= 100 && 0 <= e <= 100) then
        Rejected(MarksOutOfRange)
      else
        Accepted(Graded(name, roll, m, s, e))
  }

  /** Total, two-place percentage and grade of three marks in 0..100. */
  function Graded(name: string, roll: string, math: int, science: int, english: int): (r: Record)
    requires InRange(math) && InRange(science) && InRange(english)
    ensures r.name == name && r.roll == roll
    ensures r.math == math && r.science == science && r.english == english
    ensures r.total == math + science + english && 0 <= r.total <= 300
    ensures r.percentage == RoundTo2(r.total as real / 3.0)
    ensures r.grade == CalculateGrade(r.percentage)
  {
    var total := math + science + english;
    var percentage := RoundTo2(total as real / 3.0);
    Record(name, roll, math, science, english, total, percentage, CalculateGrade(percentage))
  }

  /** A third of a whole number is never within a hundredth of an integer
      without reaching it, so rounding it to two places keeps it on the same
      side of every integer threshold. */
  lemma RoundedThirdKeepsThreshold(total: int, t: int)
    ensures RoundTo2(total as real / 3.0) >= t as real <==> total as real / 3.0 >= t as real
  {
    var x := total as real / 3.0;
    if total >= 3 * t {
      RoundTo2Monotone(t as real, x);
      RoundTo2Exact(100 * t);
      assert (100 * t) as real / 100.0 == t as real;
    } else {
      assert x <= t as real - 1.0 / 3.0;
    }
  }

  /** Hence the two-place percentage of the desktop form and the exact one
      of the web form give the same grade. */
  lemma RoundedThirdKeepsGrade(total: int)
    ensures CalculateGrade(RoundTo2(total as real / 3.0)) == CalculateGrade(total as real / 3.0)
  {
    RoundedThirdKeepsThreshold(total, 90);
    RoundedThirdKeepsThreshold(total, 75);
    RoundedThirdKeepsThreshold(total, 60);
    RoundedThirdKeepsThreshold(total, 50);
  }

  /** A desktop record carries the grade the web Student gives the same
      three marks. */
  lemma DesktopGradeMatchesWeb(name: string, roll: string, math: int, science: int, english: int)
    requires InRange(math) && InRange(science) && InRange(english)
    ensures Graded(name, roll, math, science, english).grade
         == StudentModel.WebRecord(name, roll, math, science, english).grade
  {
    RoundedThirdKeepsGrade(math + science + english);
  }

  /** The agreement depends on the percentage being a third: in general,
      rounding to two places can cross a threshold. */
  lemma RoundingCanCrossThreshold()
    ensures CalculateGrade(RoundTo2(89.996)) == APlus
    ensures CalculateGrade(89.996) == A
  {
    assert (100.0 * 89.996).Floor == 8999;
  }

  /** The row the desktop handler inserts, as written: the marks column is
      str(marks), a Python literal with single-quoted keys that json.loads
      rejects, so the listing reads it as undecodable. */
  function ReprRow(id: int, r: Record): (row: Row)
    ensures row.marks.None?
    ensures row.id == id && row.name == r.name && row.roll == r.roll
    ensures row.total == r.total as real && row.percentage == r.percentage
    ensures row.grade == Letter(r.grade)
  {
    Row(id, r.name, r.roll, None, r.total as real, r.percentage, Letter(r.grade))
  }

  /** The row with its marks stored as the web front end stores them
      (json.dumps), which the listing decodes back to the three marks. */
  function JsonRow(id: int, r: Record): (row: Row)
    ensures row.marks == Some(Subjects(r.math, r.science, r.english))
    ensures row.id == id && row.name == r.name && row.roll == r.roll
    ensures row.total == r.total as real && row.percentage == r.percentage
    ensures row.grade == Letter(r.grade)
  {
    Row(id, r.name, r.roll, Some(Subjects(r.math, r.science, r.english)),
        r.total as real, r.percentage, Letter(r.grade))
  }

  /** As written, the web listing shows every desktop-added student with
      zero marks, whatever marks were entered. */
  lemma ReprRowLosesMarks(id: int, r: Record)
    requires r.math != 0
    ensures Process(ReprRow(id, r)).math == 0 != r.math
  {
  }

  /** With the marks stored as JSON, the listing shows exactly what was
      entered: the three marks, the total, the stored percentage and grade. */
  lemma JsonRowShowsRecord(id: int, r: Record)
    ensures var e := Process(JsonRow(id, r));
      && e.math == r.math && e.science == r.science && e.english == r.english
      && e.total == r.total as real && e.grade == Letter(r.grade)
      && e.name == r.name && e.roll == r.roll
      && (r.percentage == RoundTo2(r.total as real / 3.0) ==> e.percentage == r.percentage)
  {
    var e := Process(JsonRow(id, r));
    assert e.math == Column(e, Math) && Key(Math) in Subjects(r.math, r.science, r.english);
    assert e.science == Column(e, Science) && Key(Science) in Subjects(r.math, r.science, r.english);
    assert e.english == Column(e, English) && Key(English) in Subjects(r.math, r.science, r.english);
    RoundTo2Idempotent(r.total as real / 3.0);
  }

  /** The table after the handler runs, as written: a rejected form stores
      nothing; an accepted one appends exactly one row, whose str(marks)
      column the listing cannot decode and so shows with zero marks. */
  function Submit(table: seq<Row>, id: int, f: Form, parseInt: string -> Option<int>): (t: seq<Row>)
    ensures AddStudent(f, parseInt).Rejected? ==> t == table
    ensures AddStudent(f, parseInt).Accepted? ==>
      var r := AddStudent(f, parseInt).record;
      && |t| == |table| + 1 && t[..|table|] == table
      && t[|table|].marks.None?
      && t[|table|].id == id && t[|table|].name == r.name && t[|table|].roll == r.roll
      && t[|table|].total == r.total as real && t[|table|].percentage == r.percentage
      && t[|table|].grade == Letter(r.grade)
      && forall s :: Column(Process(t[|table|]), s) == 0
  {
    match AddStudent(f, parseInt)
    case Rejected(_) => table
    case Accepted(r) => table + [ReprRow(id, r)]
  }

  /** The same handler with the marks stored as JSON: the appended row shows
      in the listing with the marks that were entered. */
  function SubmitJson(table: seq<Row>, id: int, f: Form, parseInt: string -> Option<int>): (t: seq<Row>)
    ensures AddStudent(f, parseInt).Rejected? ==> t == table
    ensures AddStudent(f, parseInt).Accepted? ==>
      var r := AddStudent(f, parseInt).record;
      && |t| == |table| + 1 && t[..|table|] == table
      && t[|table|].marks == Some(Subjects(r.math, r.science, r.english))
      && t[|table|].id == id && t[|table|].name == r.name && t[|table|].roll == r.roll
      && t[|table|].total == r.total as real && t[|table|].percentage == r.percentage
      && t[|table|].grade == Letter(r.grade)
      && Process(t[|table|]).math == r.math
      && Process(t[|table|]).science == r.science
      && Process(t[|table|]).english == r.english
  {
    match AddStudent(f, parseInt)
    case Rejected(_) => table
    case Accepted(r) =>
      JsonRowShowsRecord(id, r);
      table + [JsonRow(id, r)]
  }
}
