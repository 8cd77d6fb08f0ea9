/**
 The gradebook's data sources and analysis pass: building the score table
 from entered rows, the built-in sample table, and the summary computed for
 a non-empty table (statistics, grades, distribution, pass/fail split).
 */
module Gradebook {
  import opened OrderedMap
  import opened Statistics
  import opened Grading
  import opened PassFail

  datatype Option<T> = None | Some(value: T)

  /**
   `manual_entry` and `load_from_csv` after parsing: each (name, score) row
   is assigned into the table in turn, so a repeated name keeps its first
   position and its last score.
   */
  method CollectScores(rows: seq<(Name, real)>) returns (marks: seq<(Name, real)>)
    ensures marks == FromEntries(rows)
    ensures UniqueKeys(marks)
    ensures forall n :: n in Keys(marks) <==> n in Keys(rows)
  {
    marks := [];
    var i := 0;
    while i < |rows|
      invariant 0 <= i <= |rows|
      invariant marks == FromEntries(rows[..i])
    {
      var (name, score) := rows[i];
      assert rows[..i + 1][..i] == rows[..i];
      marks := Insert(marks, name, score);
      i := i + 1;
    }
    assert rows[..i] == rows;
  }

  /** `sample_data`: the built-in demonstration table. */
  function SampleData(): (marks: seq<(Name, real)>)
    ensures |marks| == 7
  {
    [("Honey", 95.0), ("Babita", 50.0), ("Chirag", 60.0), ("Deepika", 67.0),
     ("mohit", 75.0), ("Firoj", 36.0), ("Reena", 81.0)]
  }

  /** The sample table names seven distinct students. */
  lemma SampleIsDictionary()
    ensures UniqueKeys(SampleData())
  {
  }

  /** Everything the analysis pass computes for one table. */
  datatype Summary = Summary(
    average: real,
    median: real,
    highest: (Name, real),
    lowest: (Name, real),
    grades: seq<(Name, Grade)>,
    distribution: map<Grade, nat>,
    passed: seq<Name>,
    failed: seq<Name>)

  /** The summary of a non-empty table, as the analysis pass computes it. */
  function Summarize(marks: seq<(Name, real)>): (s: Summary)
    requires |marks| > 0 && UniqueKeys(marks)
    ensures s.lowest.1 <= s.average <= s.highest.1
    ensures s.lowest.1 <= s.median <= s.highest.1
    ensures Keys(s.grades) == Keys(marks)
    ensures |s.passed| + |s.failed| == |marks|
  {
    var lowest, highest := FindMinScore(marks), FindMaxScore(marks);
    LookupAt(marks, ArgMin(marks));
    LookupAt(marks, ArgMax(marks));
    AverageBetweenExtremes(marks);
    MedianBetweenExtremes(marks);
    GradeBoardMatchesScores(marks);
    var (passed, failed) := PassFailList(marks);
    Summary(Average(marks), Median(marks), highest, lowest,
            GradeBoard(marks), Distribution(GradeBoard(marks)), passed, failed)
  }

  /**
   One analysis pass: an empty table yields no summary ("No data
   available!"); otherwise the statistics, the grade table, its
   distribution and the pass/fail split.
   */
  method Analyze(marks: seq<(Name, real)>) returns (report: Option<Summary>)
    requires UniqueKeys(marks)
    ensures report.None? <==> |marks| == 0
    ensures report.Some? ==> report.value == Summarize(marks)
  {
    if |marks| == 0 {
      return None;
    }
    var grades := AssignGrades(marks);
    var dist := GradeDistribution(grades);
    var (passed, failed) := PassFailList(marks);
    report := Some(Summary(Average(marks), Median(marks), FindMaxScore(marks), FindMinScore(marks),
                           grades, dist, passed, failed));
  }

  /** The sample scores, in table order. */
  lemma SampleScores()
    ensures Scores(SampleData()) == [95.0, 50.0, 60.0, 67.0, 75.0, 36.0, 81.0]
  {
  }

  /** Sample average: the scores add up to 464 over 7 students. */
  lemma SampleAverage()
    ensures Average(SampleData()) == 464.0 / 7.0
  {
    SampleScores();
  }

  /** Sorting the last three sample scores. */
  lemma SortSampleLastThree()
    ensures Sort([75.0, 36.0, 81.0]) == [36.0, 75.0, 81.0]
  {
    assert Sort([81.0]) == [81.0];
    assert Sort([36.0, 81.0]) == [36.0, 81.0];
  }

  /** Sorting the last five sample scores. */
  lemma SortSampleLastFive()
    ensures Sort([60.0, 67.0, 75.0, 36.0, 81.0]) == [36.0, 60.0, 67.0, 75.0, 81.0]
  {
    SortSampleLastThree();
    assert Sort([67.0, 75.0, 36.0, 81.0]) == [36.0, 67.0, 75.0, 81.0];
  }

  /** Sorting the last six sample scores. */
  lemma SortSampleLastSix()
    ensures Sort([50.0, 60.0, 67.0, 75.0, 36.0, 81.0]) == [36.0, 50.0, 60.0, 67.0, 75.0, 81.0]
  {
    SortSampleLastFive();
  }

  /** Sorting all seven sample scores. */
  lemma SortSample()
    ensures Sort([95.0, 50.0, 60.0, 67.0, 75.0, 36.0, 81.0]) == [36.0, 50.0, 60.0, 67.0, 75.0, 81.0, 95.0]
  {
    SortSampleLastSix();
  }

  /** Sample median: the sorted scores are 36, 50, 60, 67, 75, 81, 95; the fourth is 67. */
  lemma SampleMedian()
    ensures Median(SampleData()) == 67.0
  {
    SampleScores();
    SortSample();
  }

  /** The highest sample score is the first one. */
  lemma SampleMaxIndex()
    ensures ArgMax(SampleData()) == 0
  {
    ArgMaxIsEarliestMaximum(SampleData(), 0);
  }

  /** The lowest sample score is the sixth one. */
  lemma SampleMinIndex()
    ensures ArgMin(SampleData()) == 5
  {
    ArgMinIsEarliestMinimum(SampleData(), 5);
  }

  /** Sample extremes: highest Honey (95), lowest Firoj (36). */
  lemma SampleExtremes()
    ensures UniqueKeys(SampleData())
    ensures FindMaxScore(SampleData()) == ("Honey", 95.0)
    ensures FindMinScore(SampleData()) == ("Firoj", 36.0)
  {
    SampleIsDictionary();
    SampleMaxIndex();
    SampleMinIndex();
    LookupAt(SampleData(), 0);
    LookupAt(SampleData(), 5);
  }

  /** Sample grades, in table order. */
  lemma SampleGrades()
    ensures GradeBoard(SampleData()) ==
      [("Honey", A), ("Babita", F), ("Chirag", D), ("Deepika", D), ("mohit", C), ("Firoj", F), ("Reena", B)]
  {
  }

  /** Sample distribution: one A, one B, one C, two D, two F. */
  lemma SampleDistribution()
    ensures Distribution(GradeBoard(SampleData())) == map[A := 1, B := 1, C := 1, D := 2, F := 2]
  {
    SampleGrades();
    var g := [("Honey", A), ("Babita", F), ("Chirag", D), ("Deepika", D), ("mohit", C), ("Firoj", F), ("Reena", B)];
    assert Count(g, A) == 1 && Count(g, B) == 1 && Count(g, C) == 1 && Count(g, D) == 2 && Count(g, F) == 2;
  }

  /** Sample pass/fail split: everyone passes except Firoj. */
  lemma SamplePassFail()
    ensures UniqueKeys(SampleData())
    ensures PassFailList(SampleData()) == (["Honey", "Babita", "Chirag", "Deepika", "mohit", "Reena"], ["Firoj"])
  {
    SampleIsDictionary();
    var m := SampleData();
    assert Select(m, true) == ["Honey", "Babita", "Chirag", "Deepika", "mohit", "Reena"];
    assert Select(m, false) == ["Firoj"];
    assert PassFailList(m) == (Select(m, true), Select(m, false));
  }
}
