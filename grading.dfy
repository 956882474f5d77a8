/** Option, for values that may be absent (a stored marks field that does not
    parse, an integer field that does not convert). */
module Options {
  datatype Option<+T> = None | Some(value: T)
}

/** The five-way threshold cascade that turns a percentage into a letter
    grade (Student.calculate_grade in app.py; tkinter_app.py repeats it
    verbatim for the desktop form). */
module Grading {

  /** The letter grades, best first. */
  datatype Grade = APlus | A | B | C | F

  /** The text stored in the grade column. */
  function Letter(g: Grade): (s: string)
    ensures s in ["A+", "A", "B", "C", "F"]
  {
    match g
    case APlus => "A+"
    case A => "A"
    case B => "B"
    case C => "C"
    case F => "F"
  }

  /** Position of a grade in the order F < C < B < A < A+. */
  function Rank(g: Grade): (r: nat)
    ensures r <= 4
    ensures r == 4 <==> g == APlus
    ensures r == 0 <==> g == F
  {
    match g
    case APlus => 4
    case A => 3
    case B => 2
    case C => 1
    case F => 0
  }

  /** The cascade: every threshold is inclusive, and the five bands are
      disjoint and cover every percentage. */
  function CalculateGrade(percentage: real): (g: Grade)
    ensures g == APlus <==> percentage >= 90.0
    ensures g == A <==> 75.0 <= percentage < 90.0
    ensures g == B <==> 60.0 <= percentage < 75.0
    ensures g == C <==> 50.0 <= percentage < 60.0
    ensures g == F <==> percentage < 50.0
  {
    if percentage >= 90.0 then APlus
    else if percentage >= 75.0 then A
    else if percentage >= 60.0 then B
    else if percentage >= 50.0 then C
    else F
  }

  /** The lowest percentage that earns each passing grade. */
  function Threshold(g: Grade): (t: real)
    requires g != F
    ensures 50.0 <= t <= 90.0
  {
    match g
    case APlus => 90.0
    case A => 75.0
    case B => 60.0
    case C => 50.0
  }

  /** A percentage earns at least a passing grade g exactly when it reaches
      g's threshold. */
  lemma AtLeastIffThreshold(percentage: real, g: Grade)
    requires g != F
    ensures Rank(CalculateGrade(percentage)) >= Rank(g) <==> percentage >= Threshold(g)
  {
  }

  /** A higher percentage never yields a worse grade. */
  lemma GradeMonotone(p: real, q: real)
    requires p <= q
    ensures Rank(CalculateGrade(p)) <= Rank(CalculateGrade(q))
  {
  }
}

/** round(x, 2): rounding to two decimal places, a tie going to the even
    hundredth as Python's round does. */
module Rounding {

  /** The nearest integer to y; when y lies exactly halfway between two
      integers, the even one. */
  function RoundHalfEven(y: real): (n: int)
    ensures y - 0.5 <= n as real <= y + 0.5
    ensures y - y.Floor as real == 0.5 ==> n % 2 == 0
  {
    var f := y.Floor;
    var fraction := y - f as real;
    if fraction < 0.5 then f
    else if fraction > 0.5 then f + 1
    else if f % 2 == 0 then f
    else f + 1
  }

  /** The result is a whole number of hundredths, lies within half a
      hundredth of x, and on an exact tie is the even hundredth. */
  function RoundTo2(x: real): (r: real)
    ensures x - 0.005 <= r <= x + 0.005
    ensures (100.0 * r).Floor as real == 100.0 * r
    ensures 100.0 * x - (100.0 * x).Floor as real == 0.5 ==> (100.0 * r).Floor % 2 == 0
  {
    var n := RoundHalfEven(100.0 * x);
    assert 100.0 * (n as real / 100.0) == n as real;
    n as real / 100.0
  }

  /** Rounding to an integer never reverses the order of two values. */
  lemma RoundHalfEvenMonotone(a: real, b: real)
    requires a <= b
    ensures RoundHalfEven(a) <= RoundHalfEven(b)
  {
    if a < b {
      assert RoundHalfEven(a) as real - RoundHalfEven(b) as real < 1.0;
    }
  }

  /** Rounding never reverses the order of two values. */
  lemma RoundTo2Monotone(x: real, y: real)
    requires x <= y
    ensures RoundTo2(x) <= RoundTo2(y)
  {
    RoundHalfEvenMonotone(100.0 * x, 100.0 * y);
  }

  /** A value that is already a whole number of hundredths is unchanged. */
  lemma RoundTo2Exact(k: int)
    ensures RoundTo2(k as real / 100.0) == k as real / 100.0
  {
    assert 100.0 * (k as real / 100.0) == k as real;
    assert (k as real).Floor == k;
  }

  /** Rounding an already rounded value again changes nothing, so the
      listing shows the stored two-place percentage unchanged. */
  lemma RoundTo2Idempotent(x: real)
    ensures RoundTo2(RoundTo2(x)) == RoundTo2(x)
  {
    var k := (100.0 * RoundTo2(x)).Floor;
    assert RoundTo2(x) == k as real / 100.0;
    RoundTo2Exact(k);
  }

  /** Ties go to the even hundredth: 62.625 rounds down, 62.875 up. */
  lemma RoundTo2TiesToEven()
    ensures RoundTo2(62.625) == 62.62
    ensures RoundTo2(62.875) == 62.88
  {
    assert (100.0 * 62.625).Floor == 6262;
    assert (100.0 * 62.875).Floor == 6287;
  }
}
