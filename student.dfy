/** Marks are a mapping from subject name to an integer score. */
module Marks {

  type MarkMap = map<string, int>

  /** Sum of the scores of the subjects in keys, taken in any order. */
  ghost function SumOver(m: MarkMap, keys: set<string>): int
    requires keys <= m.Keys
    decreases keys
  {
    if keys == {} then 0
    else
      var k :| k in keys;
      m[k] + SumOver(m, keys - {k})
  }

  /** sum(marks.values()): 0 for no subjects, and with every score in
      0..100 at most 100 per subject. */
  ghost function SumOfMarks(m: MarkMap): (r: int)
    ensures m == map[] ==> r == 0
    ensures (forall k :: k in m ==> 0 <= m[k] <= 100) ==> 0 <= r <= 100 * |m|
  {
    if forall k :: k in m ==> 0 <= m[k] <= 100 then
      SumOverBounds(m, m.Keys, 0, 100);
      assert |m.Keys| == |m|;
      SumOver(m, m.Keys)
    else
      SumOver(m, m.Keys)
  }

  /** The sum does not depend on which subject is taken first: any subject
      can be split off. */
  lemma {:induction false} SumOverRemove(m: MarkMap, keys: set<string>, k: string)
    requires keys <= m.Keys && k in keys
    ensures SumOver(m, keys) == m[k] + SumOver(m, keys - {k})
    decreases keys
  {
    var j :| j in keys && SumOver(m, keys) == m[j] + SumOver(m, keys - {j});
    if j != k {
      SumOverRemove(m, keys - {j}, k);
      SumOverRemove(m, keys - {k}, j);
      assert keys - {j} - {k} == keys - {k} - {j};
    }
  }

  /** Adding a subject adds its score to the sum. */
  lemma SumOfMarksAdd(m: MarkMap, k: string, v: int)
    requires k !in m
    ensures SumOfMarks(m[k := v]) == SumOfMarks(m) + v
  {
    var m' := m[k := v];
    SumOverRemove(m', m'.Keys, k);
    assert m'.Keys - {k} == m.Keys;
    SumOverSameScores(m', m, m.Keys);
  }

  /** The sum only depends on the scores of the subjects summed. */
  lemma {:induction false} SumOverSameScores(m: MarkMap, m': MarkMap, keys: set<string>)
    requires keys <= m.Keys && keys <= m'.Keys
    requires forall k :: k in keys ==> m[k] == m'[k]
    ensures SumOver(m, keys) == SumOver(m', keys)
    decreases keys
  {
    if keys != {} {
      var k :| k in keys && SumOver(m, keys) == m[k] + SumOver(m, keys - {k});
      SumOverRemove(m', keys, k);
      SumOverSameScores(m, m', keys - {k});
    }
  }

  /** When every score is in lo..hi, the sum lies between lo and hi times the
      number of subjects. */
  lemma {:induction false} SumOverBounds(m: MarkMap, keys: set<string>, lo: int, hi: int)
    requires keys <= m.Keys
    requires forall k :: k in keys ==> lo <= m[k] <= hi
    ensures lo * |keys| <= SumOver(m, keys) <= hi * |keys|
    decreases keys
  {
    if keys != {} {
      var k :| k in keys;
      SumOverRemove(m, keys, k);
      var rest := keys - {k};
      SumOverBounds(m, rest, lo, hi);
      assert |keys| == |rest| + 1;
      MulSucc(lo, |rest|);
      MulSucc(hi, |rest|);
    }
  }

  lemma MulSucc(a: int, n: int)
    ensures a * (n + 1) == a * n + a
  {
  }

  /** The mark map both front ends build: {'Math': .., 'Science': .., 'English': ..}. */
  function Subjects(math: int, science: int, english: int): (m: MarkMap)
    ensures m.Keys == {"Math", "Science", "English"} && |m| == 3
    ensures m["Math"] == math && m["Science"] == science && m["English"] == english
  {
    var m := map["Math" := math, "Science" := science, "English" := english];
    assert m.Keys == {"Math", "Science", "English"};
    assert |m.Keys| == 3;
    m
  }

  /** The total of a three-subject mark map is the sum of the three scores. */
  lemma SubjectsSum(math: int, science: int, english: int)
    ensures SumOfMarks(Subjects(math, science, english)) == math + science + english
  {
    var m1: MarkMap := map["Math" := math];
    var m2 := m1["Science" := science];
    var m3 := m2["English" := english];
    assert m3 == Subjects(math, science, english);
    SumOfMarksAdd(map[], "Math", math);
    assert map[]["Math" := math] == m1;
    SumOfMarksAdd(m1, "Science", science);
    SumOfMarksAdd(m2, "English", english);
  }
}

/** The Student class of app.py: a record whose total, percentage and grade
    are computed once, in the constructor, from its marks. */
module StudentModel {
  import opened Marks
  import opened Grading

  datatype Student = Student(
    name: string,
    roll: string,
    marks: MarkMap,
    total: int,
    percentage: real,
    grade: Grade)

  /** The invariant the stored record is meant to keep: the derived fields
      are the ones the marks determine. */
  ghost predicate Consistent(s: Student)
  {
    && |s.marks| > 0
    && s.total == SumOfMarks(s.marks)
    && s.percentage * |s.marks| as real == s.total as real
    && s.grade == CalculateGrade(s.percentage)
  }

  /** Student(name, roll, marks). The source divides by len(marks) without a
      guard, so the marks must not be empty. */
  ghost function NewStudent(name: string, roll: string, marks: MarkMap): (s: Student)
    requires |marks| > 0
    ensures s.name == name && s.roll == roll && s.marks == marks
    ensures Consistent(s)
  {
    var total := SumOfMarks(marks);
    var percentage := total as real / |marks| as real;
    Student(name, roll, marks, total, percentage, CalculateGrade(percentage))
  }

  /** Two consistent records with the same marks agree on every derived
      field: total, percentage and grade are a function of the marks. */
  lemma ConsistentDetermined(s: Student, t: Student)
    requires Consistent(s) && Consistent(t) && s.marks == t.marks
    ensures s.total == t.total && s.percentage == t.percentage && s.grade == t.grade
  {
    var n := |s.marks| as real;
    assert s.percentage * n == t.percentage * n;
    assert s.percentage == (s.percentage * n) / n;
    assert t.percentage == (t.percentage * n) / n;
  }

  /** With every mark in 0..100 the percentage lies in 0..100 too. */
  lemma PercentageInRange(name: string, roll: string, marks: MarkMap)
    requires |marks| > 0
    requires forall k :: k in marks ==> 0 <= marks[k] <= 100
    ensures 0.0 <= NewStudent(name, roll, marks).percentage <= 100.0
  {
    SumOverBounds(marks, marks.Keys, 0, 100);
    assert |marks.Keys| == |marks|;
    var total := SumOfMarks(marks);
    var n := |marks| as real;
    assert 0.0 <= total as real <= 100.0 * n;
    assert total as real / n <= (100.0 * n) / n;
  }

  /** The record add_student and edit_student persist for the five form
      fields: the marks map of the three subjects and the Student built from
      it. */
  ghost function WebRecord(name: string, roll: string, math: int, science: int, english: int): (s: Student)
    ensures s.name == name && s.roll == roll
    ensures s.marks == Subjects(math, science, english)
    ensures s.total == math + science + english
    ensures s.percentage == (math + science + english) as real / 3.0
    ensures s.grade == CalculateGrade(s.percentage)
    ensures Consistent(s)
  {
    SubjectsSum(math, science, english);
    NewStudent(name, roll, Subjects(math, science, english))
  }

  /** The web front end checks no range: marks of 150 are stored, with a
      percentage of 150 and an A+. */
  lemma WebAcceptsOutOfRangeMarks()
    ensures WebRecord("x", "1", 150, 150, 150).percentage == 150.0
    ensures WebRecord("x", "1", 150, 150, 150).grade == APlus
    ensures WebRecord("x", "1", -10, -10, -10).grade == F
  {
  }
}
