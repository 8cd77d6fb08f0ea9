/**
 Letter grades: the fixed band table, the name-to-grade table built from a
 score table, and the count of students per letter.
 */
module Grading {
  import opened OrderedMap

  datatype Grade = A | B | C | D | F

  /** The band table: each band includes its lower edge. */
  function LetterGrade(score: real): (g: Grade)
    ensures g == A <==> score >= 90.0
    ensures g == B <==> 80.0 <= score < 90.0
    ensures g == C <==> 70.0 <= score < 80.0
    ensures g == D <==> 60.0 <= score < 70.0
    ensures g == F <==> score < 60.0
  {
    if score >= 90.0 then A
    else if score >= 80.0 then B
    else if score >= 70.0 then C
    else if score >= 60.0 then D
    else F
  }

  /** The boundary scores land in the band they open; just below, in the band beneath. */
  lemma GradeBoundaries()
    ensures LetterGrade(90.0) == A && LetterGrade(89.9) == B
    ensures LetterGrade(80.0) == B && LetterGrade(79.9) == C
    ensures LetterGrade(70.0) == C && LetterGrade(69.9) == D
    ensures LetterGrade(60.0) == D && LetterGrade(59.9) == F
  {
  }

  /** The table `assign_grades` returns: each name with the letter of its score, in the same order. */
  function GradeBoard(marks: seq<(Name, real)>): seq<(Name, Grade)>
  {
    seq(|marks|, i requires 0 <= i < |marks| => (marks[i].0, LetterGrade(marks[i].1)))
  }

  /** The grade table has exactly the names of the score table, in the same order, and grades each by its own score. */
  lemma GradeBoardMatchesScores(marks: seq<(Name, real)>)
    requires UniqueKeys(marks)
    ensures Keys(GradeBoard(marks)) == Keys(marks)
    ensures UniqueKeys(GradeBoard(marks))
    ensures forall n :: n in Keys(marks) ==> Lookup(GradeBoard(marks), n) == LetterGrade(Lookup(marks, n))
  {
    var g := GradeBoard(marks);
    assert Keys(g) == Keys(marks);
    forall n | n in Keys(marks) ensures Lookup(g, n) == LetterGrade(Lookup(marks, n)) {
      var i := IndexOf(Keys(marks), n);
      LookupAt(marks, i);
      LookupAt(g, i);
    }
  }

  /** `assign_grades`: fills the grade table one entry per student, in iteration order. */
  method AssignGrades(marks: seq<(Name, real)>) returns (grades: seq<(Name, Grade)>)
    requires UniqueKeys(marks)
    ensures grades == GradeBoard(marks)
  {
    grades := [];
    var i := 0;
    while i < |marks|
      invariant 0 <= i <= |marks|
      invariant grades == GradeBoard(marks[..i])
    {
      var (name, score) := marks[i];
      assert Keys(grades) == Keys(marks[..i]);
      assert name !in Keys(grades);
      if score >= 90.0 {
        grades := Insert(grades, name, A);
      } else if score >= 80.0 {
        grades := Insert(grades, name, B);
      } else if score >= 70.0 {
        grades := Insert(grades, name, C);
      } else if score >= 60.0 {
        grades := Insert(grades, name, D);
      } else {
        grades := Insert(grades, name, F);
      }
      assert marks[..i + 1] == marks[..i] + [marks[i]];
      i := i + 1;
    }
    assert marks[..i] == marks;
  }

  /** Number of entries of the grade table carrying letter `g`. */
  function Count(grades: seq<(Name, Grade)>, g: Grade): nat
  {
    if |grades| == 0 then 0
    else (if grades[0].1 == g then 1 else 0) + Count(grades[1..], g)
  }

  /** Counting over one more entry adds one exactly when that entry carries the letter. */
  lemma {:induction false} CountAppend(grades: seq<(Name, Grade)>, e: (Name, Grade), g: Grade)
    ensures Count(grades + [e], g) == Count(grades, g) + (if e.1 == g then 1 else 0)
  {
    if |grades| > 0 {
      assert (grades + [e])[1..] == grades[1..] + [e];
      CountAppend(grades[1..], e, g);
    }
  }

  /** The table `grade_distribution` returns: all five letters, each with its count. */
  function Distribution(grades: seq<(Name, Grade)>): (dist: map<Grade, nat>)
    ensures dist.Keys == {A, B, C, D, F}
  {
    map[A := Count(grades, A), B := Count(grades, B), C := Count(grades, C),
        D := Count(grades, D), F := Count(grades, F)]
  }

  /** One more student adds one to the count of their letter and changes no other count. */
  lemma DistributionAppend(grades: seq<(Name, Grade)>, e: (Name, Grade))
    ensures e.1 in Distribution(grades)
    ensures Distribution(grades + [e]) == Distribution(grades)[e.1 := Distribution(grades)[e.1] + 1]
  {
    assert e.1 == A || e.1 == B || e.1 == C || e.1 == D || e.1 == F;
    CountAppend(grades, e, A);
    CountAppend(grades, e, B);
    CountAppend(grades, e, C);
    CountAppend(grades, e, D);
    CountAppend(grades, e, F);
  }

  /** Every student is counted under exactly one letter. */
  lemma {:induction false} CountsTotal(grades: seq<(Name, Grade)>)
    ensures Count(grades, A) + Count(grades, B) + Count(grades, C) + Count(grades, D) + Count(grades, F) == |grades|
  {
    if |grades| > 0 {
      CountsTotal(grades[1..]);
    }
  }

  /** The names graded `g`. */
  function NamesWith(grades: seq<(Name, Grade)>, g: Grade): set<Name>
  {
    set i | 0 <= i < |grades| && grades[i].1 == g :: grades[i].0
  }

  /** In a table with distinct names, the count for a letter is the number of names graded with it. */
  lemma {:induction false} CountIsNumberOfNames(grades: seq<(Name, Grade)>, g: Grade)
    requires UniqueKeys(grades)
    ensures Count(grades, g) == |NamesWith(grades, g)|
  {
    if |grades| > 0 {
      var tail := grades[1..];
      assert UniqueKeys(tail);
      CountIsNumberOfNames(tail, g);
      NamesWithFirst(grades, g);
      assert grades[0].0 !in NamesWith(tail, g) by {
        assert forall i :: 0 <= i < |tail| ==> tail[i].0 != grades[0].0;
      }
    }
  }

  lemma NamesWithFirst(grades: seq<(Name, Grade)>, g: Grade)
    requires |grades| > 0
    ensures NamesWith(grades, g) == NamesWith(grades[1..], g) + (if grades[0].1 == g then {grades[0].0} else {})
  {
    var tail := grades[1..];
    forall x | x in NamesWith(grades, g) ensures x in NamesWith(tail, g) || (grades[0].1 == g && x == grades[0].0) {
      var i :| 0 <= i < |grades| && grades[i].1 == g && grades[i].0 == x;
      if i > 0 {
        assert tail[i - 1] == grades[i];
      }
    }
    forall x | x in NamesWith(tail, g) ensures x in NamesWith(grades, g) {
      var i :| 0 <= i < |tail| && tail[i].1 == g && tail[i].0 == x;
      assert grades[i + 1] == tail[i];
    }
  }

  /**
   The distribution has all five letters even when a count is 0, its counts
   add up to the number of students, and each count is the number of
   students holding that letter.
   */
  lemma DistributionProperties(grades: seq<(Name, Grade)>)
    requires UniqueKeys(grades)
    ensures var d := Distribution(grades); d[A] + d[B] + d[C] + d[D] + d[F] == |grades|
    ensures forall g :: g in Distribution(grades) && Distribution(grades)[g] == |NamesWith(grades, g)|
  {
    CountsTotal(grades);
    forall g ensures g in Distribution(grades) && Distribution(grades)[g] == |NamesWith(grades, g)| {
      assert g == A || g == B || g == C || g == D || g == F;
      CountIsNumberOfNames(grades, g);
    }
  }

  /** `grade_distribution`: all five buckets start at 0, then each student adds one to its letter. */
  method GradeDistribution(grades: seq<(Name, Grade)>) returns (dist: map<Grade, nat>)
    ensures dist == Distribution(grades)
  {
    dist := map[A := 0, B := 0, C := 0, D := 0, F := 0];
    var i := 0;
    while i < |grades|
      invariant 0 <= i <= |grades|
      invariant dist == Distribution(grades[..i])
    {
      var g := grades[i].1;
      assert g == A || g == B || g == C || g == D || g == F;
      assert grades[..i + 1] == grades[..i] + [grades[i]];
      DistributionAppend(grades[..i], grades[i]);
      dist := dist[g := dist[g] + 1];
      i := i + 1;
    }
    assert grades[..i] == grades;
  }
}
