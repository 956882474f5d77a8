/** The listing and statistics computed by index() in app.py on every page
    load: one pass over the fetched rows, then column sums and averages. */
module Dashboard {
  import opened Options
  import opened Marks
  import opened Rounding

  /** A fetched row of the students table. marks is the decoded marks
      column: None when json.loads fails on it. */
  datatype Row = Row(
    id: int,
    name: string,
    roll: string,
    marks: Option<MarkMap>,
    total: real,
    percentage: real,
    grade: string)

  /** One entry of the processed listing. */
  datatype Entry = Entry(
    id: int,
    name: string,
    roll: string,
    math: int,
    science: int,
    english: int,
    total: real,
    percentage: real,
    grade: string)

  datatype Stats = Stats(
    count: nat,
    averageMath: real,
    averageScience: real,
    averageEnglish: real,
    averagePercentage: real,
    topPerformer: string)

  datatype Subject = Math | Science | English

  /** The key of a subject in a marks map. */
  function Key(s: Subject): (k: string)
    ensures k in Subjects(0, 0, 0)
  {
    match s
    case Math => "Math"
    case Science => "Science"
    case English => "English"
  }

  /** marks.get(key, 0) */
  function Lookup(m: MarkMap, key: string): (v: int)
    ensures key in m ==> v == m[key]
    ensures key !in m ==> v == 0
  {
    if key in m then m[key] else 0
  }

  /** The marks the listing uses: the decoded map, or all zeros when the
      stored text does not decode. */
  function MarksOrDefault(r: Row): (m: MarkMap)
    ensures r.marks.Some? ==> m == r.marks.value
    ensures r.marks.None? ==> forall s: Subject :: Key(s) in m && m[Key(s)] == 0
  {
    match r.marks
    case Some(m) => m
    case None => Subjects(0, 0, 0)
  }

  /** The score of a subject in an entry. */
  function Column(e: Entry, s: Subject): int
  {
    match s
    case Math => e.math
    case Science => e.science
    case English => e.english
  }

  /** The entry built for one row. Every field but the three marks and the
      percentage is copied; the percentage is rounded to two places; a
      subject missing from the decoded marks, or every subject when the marks
      do not decode, reads as 0. */
  function Process(r: Row): (e: Entry)
    ensures e.id == r.id && e.name == r.name && e.roll == r.roll
    ensures e.total == r.total && e.grade == r.grade
    ensures e.percentage == RoundTo2(r.percentage)
    ensures r.marks.None? ==> forall s :: Column(e, s) == 0
    ensures r.marks.Some? ==> forall s :: Key(s) !in r.marks.value ==> Column(e, s) == 0
    ensures r.marks.Some? ==> forall s :: Key(s) in r.marks.value ==> Column(e, s) == r.marks.value[Key(s)]
  {
    var m := MarksOrDefault(r);
    Entry(r.id, r.name, r.roll,
          Lookup(m, "Math"), Lookup(m, "Science"), Lookup(m, "English"),
          r.total, RoundTo2(r.percentage), r.grade)
  }

  /** sum(s[column] for s in entries) */
  function ColumnTotal(es: seq<Entry>, s: Subject): int
  {
    if es == [] then 0 else ColumnTotal(es[..|es| - 1], s) + Column(es[|es| - 1], s)
  }

  /** The running total_percentage after the given entries: 0 for none,
      and with every percentage in 0..100 at most 100 per entry. */
  function PercentageTotal(es: seq<Entry>): (t: real)
    ensures es == [] ==> t == 0.0
    ensures (forall i :: 0 <= i < |es| ==> 0.0 <= es[i].percentage <= 100.0) ==>
              0.0 <= t <= 100.0 * |es| as real
  {
    if es == [] then 0.0 else PercentageTotal(es[..|es| - 1]) + es[|es| - 1].percentage
  }

  /** `top_student or 'N/A'`: no top student, or one whose name is the empty
      string, both show as 'N/A'. */
  function Shown(top: Option<string>): (name: string)
    ensures name == "N/A" <==> top.None? || top.value == "" || top.value == "N/A"
    ensures top.Some? && top.value != "" ==> name == top.value
  {
    if top.None? || top.value == "" then "N/A" else top.value
  }

  /** k is the top performer of the entries: the first entry with the
      largest percentage, and that percentage beats the initial maximum -1. */
  ghost predicate IsFirstBest(es: seq<Entry>, k: int)
  {
    && 0 <= k < |es|
    && es[k].percentage > -1.0
    && (forall j :: 0 <= j < |es| ==> es[j].percentage <= es[k].percentage)
    && (forall j :: 0 <= j < k ==> es[j].percentage < es[k].percentage)
  }

  /** round(total / count, 2) if count else 0 */
  function Average(total: real, count: nat): (a: real)
    ensures count == 0 ==> a == 0.0
  {
    if count == 0 then 0.0 else RoundTo2(total / count as real)
  }

  /** The loop of index(): one entry per row, in row order, and the top
      performer; then the column sums and averages, with every average 0
      when there are no rows. */
  method Scan(rows: seq<Row>) returns (entries: seq<Entry>, stats: Stats)
    ensures |entries| == |rows|
    ensures forall i :: 0 <= i < |rows| ==> entries[i] == Process(rows[i])
    ensures stats.count == |rows|
    ensures stats.averageMath == Average(ColumnTotal(entries, Math) as real, |rows|)
    ensures stats.averageScience == Average(ColumnTotal(entries, Science) as real, |rows|)
    ensures stats.averageEnglish == Average(ColumnTotal(entries, English) as real, |rows|)
    ensures stats.averagePercentage == Average(PercentageTotal(entries), |rows|)
    ensures (forall j :: 0 <= j < |entries| ==> entries[j].percentage <= -1.0) ==> stats.topPerformer == "N/A"
    ensures forall k :: IsFirstBest(entries, k) ==> stats.topPerformer == Shown(Some(entries[k].name))
  {
    entries := [];
    var top: Option<string> := None;
    var maxPercentage: real := -1.0;
    var totalPercentage: real := 0.0;
    ghost var topIndex: int := -1;
    var i := 0;
    while i < |rows|
      invariant 0 <= i <= |rows|
      invariant |entries| == i
      invariant forall j :: 0 <= j < i ==> entries[j] == Process(rows[j])
      invariant totalPercentage == PercentageTotal(entries)
      invariant TopSoFar(entries, topIndex, top, maxPercentage)
    {
      var entry := Process(rows[i]);
      totalPercentage := totalPercentage + entry.percentage;
      TopSoFarStep(entries, entry, topIndex, top, maxPercentage);
      if entry.percentage > maxPercentage {
        maxPercentage := entry.percentage;
        top := Some(entry.name);
        topIndex := i;
      }
      PercentageTotalAppend(entries, entry);
      assert (entries + [entry])[..i] == entries;
      entries := entries + [entry];
      i := i + 1;
    }
    var count := |entries|;
    var totalMath := SumColumn(entries, Math);
    var totalScience := SumColumn(entries, Science);
    var totalEnglish := SumColumn(entries, English);
    stats := Stats(
      count,
      Average(totalMath as real, count),
      Average(totalScience as real, count),
      Average(totalEnglish as real, count),
      Average(totalPercentage, count),
      Shown(top));
    if topIndex != -1 {
      forall k | IsFirstBest(entries, k) ensures stats.topPerformer == Shown(Some(entries[k].name)) {
        FirstBestUnique(entries, k, topIndex);
      }
    }
  }

  /** The running maximum, the top student and the index of the top student
      agree with the entries processed so far. */
  ghost predicate TopSoFar(es: seq<Entry>, topIndex: int, top: Option<string>, maxPercentage: real)
  {
    if topIndex == -1 then
      top == None && maxPercentage == -1.0 && forall j :: 0 <= j < |es| ==> es[j].percentage <= -1.0
    else
      IsFirstBest(es, topIndex) && top == Some(es[topIndex].name) && maxPercentage == es[topIndex].percentage
  }

  /** One iteration of the loop keeps TopSoFar: a strictly larger percentage
      takes over, an equal or smaller one does not. */
  lemma TopSoFarStep(es: seq<Entry>, e: Entry, topIndex: int, top: Option<string>, maxPercentage: real)
    requires TopSoFar(es, topIndex, top, maxPercentage)
    ensures e.percentage > maxPercentage ==> TopSoFar(es + [e], |es|, Some(e.name), e.percentage)
    ensures e.percentage <= maxPercentage ==> TopSoFar(es + [e], topIndex, top, maxPercentage)
  {
    var es' := es + [e];
    assert forall j :: 0 <= j < |es| ==> es'[j] == es[j];
  }

  /** Appending an entry adds its percentage to the running sum. */
  lemma PercentageTotalAppend(es: seq<Entry>, e: Entry)
    ensures PercentageTotal(es + [e]) == PercentageTotal(es) + e.percentage
  {
    assert (es + [e])[..|es|] == es;
  }

  /** One generator sum over the processed entries. */
  method SumColumn(es: seq<Entry>, s: Subject) returns (t: int)
    ensures t == ColumnTotal(es, s)
  {
    t := 0;
    for i := 0 to |es|
      invariant t == ColumnTotal(es[..i], s)
    {
      assert es[..i + 1][..i] == es[..i];
      t := t + Column(es[i], s);
    }
    assert es[..|es|] == es;
  }

  /** There is at most one top performer. */
  lemma FirstBestUnique(es: seq<Entry>, k: int, k': int)
    requires IsFirstBest(es, k) && IsFirstBest(es, k')
    ensures k' == k
  {
  }

  /** Whenever some entry beats -1 there is a top performer, so the two
      topPerformer clauses of Scan determine it on every input. */
  lemma {:induction false} FirstBestExists(es: seq<Entry>, i: int)
    requires 0 <= i < |es| && es[i].percentage > -1.0
    ensures exists k :: IsFirstBest(es, k)
    decreases |es|
  {
    var last := |es| - 1;
    if i == last && forall j :: 0 <= j < last ==> es[j].percentage < es[last].percentage {
      assert IsFirstBest(es, last);
    } else {
      var front := es[..last];
      var i' :| 0 <= i' < last && es[i'].percentage >= es[i].percentage;
      FirstBestExists(front, i');
      var k :| IsFirstBest(front, k);
      if es[last].percentage <= front[k].percentage {
        assert IsFirstBest(es, k);
      } else {
        assert forall j :: 0 <= j < last ==> es[j].percentage < es[last].percentage;
        assert IsFirstBest(es, last);
      }
    }
  }

  /** Column sums add up over concatenation, so the sum of a column is the
      same whichever way the rows are split. */
  lemma {:induction false} ColumnTotalAppend(a: seq<Entry>, b: seq<Entry>, s: Subject)
    ensures ColumnTotal(a + b, s) == ColumnTotal(a, s) + ColumnTotal(b, s)
    decreases |b|
  {
    if b != [] {
      var b' := b[..|b| - 1];
      assert (a + b)[..|a + b| - 1] == a + b';
      ColumnTotalAppend(a, b', s);
    } else {
      assert a + b == a;
    }
  }

  /** When every mark of a column is in 0..100, its sum lies between 0 and
      100 times the number of rows. */
  lemma {:induction false} ColumnTotalBounds(es: seq<Entry>, s: Subject)
    requires forall i :: 0 <= i < |es| ==> 0 <= Column(es[i], s) <= 100
    ensures 0 <= ColumnTotal(es, s) <= 100 * |es|
    decreases |es|
  {
    if es != [] {
      ColumnTotalBounds(es[..|es| - 1], s);
    }
  }

  /** When every mark of a column is in 0..100, so is its average. */
  lemma AverageInRange(es: seq<Entry>, s: Subject)
    requires forall i :: 0 <= i < |es| ==> 0 <= Column(es[i], s) <= 100
    ensures 0.0 <= Average(ColumnTotal(es, s) as real, |es|) <= 100.0
  {
    ColumnTotalBounds(es, s);
    if |es| > 0 {
      var n := |es| as real;
      var x := ColumnTotal(es, s) as real / n;
      assert x * n == ColumnTotal(es, s) as real;
      DivAtMost(ColumnTotal(es, s) as real, n, 100.0);
      RoundTo2Monotone(0.0, x);
      RoundTo2Monotone(x, 100.0);
      RoundTo2Exact(0);
      RoundTo2Exact(10000);
    }
  }

  /** Dividing by a positive count keeps an upper bound. */
  lemma DivAtMost(a: real, n: real, c: real)
    requires n > 0.0 && a <= c * n
    ensures a / n <= c
  {
    var q := a / n;
    assert q * n == a;
    assert (c - q) * n == c * n - a;
  }
}
