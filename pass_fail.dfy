/**
 The pass/fail split: names scoring at least the pass mark pass, the others
 fail. The pass mark (40) is independent of the grade bands, so a score in
 [40, 60) passes while being graded F.
 */
module PassFail {
  import opened OrderedMap
  import opened Grading

  const PassMark: real := 40.0

  /** Whether a score reaches the pass mark. */
  predicate Passes(score: real)
  {
    score >= PassMark
  }

  /**
   The names whose pass status is `passing`, in iteration order: the list
   comprehension `[name for name, score in marks_dict.items() if ...]` with
   the condition `score >= 40` or its negation.
   */
  function Select(marks: seq<(Name, real)>, passing: bool): (r: seq<Name>)
    ensures |r| <= |marks|
  {
    if |marks| == 0 then []
    else (if Passes(marks[0].1) == passing then [marks[0].0] else []) + Select(marks[1..], passing)
  }

  /** In a dictionary, the selection holds exactly the names whose pass status is `passing`. */
  lemma {:induction false} SelectMembers(marks: seq<(Name, real)>, passing: bool)
    requires UniqueKeys(marks)
    ensures forall n :: n in Select(marks, passing) <==> n in Keys(marks) && Passes(Lookup(marks, n)) == passing
  {
    if |marks| > 0 {
      var tail := marks[1..];
      var head := if Passes(marks[0].1) == passing then [marks[0].0] else [];
      DropFirst(marks);
      LookupAt(marks, 0);
      SelectMembers(tail, passing);
      assert Select(marks, passing) == head + Select(tail, passing);
    }
  }

  /** The selection lists its names in the order of the table, each once. */
  lemma SelectOrdered(marks: seq<(Name, real)>, passing: bool)
    requires UniqueKeys(marks)
    ensures forall i :: 0 <= i < |Select(marks, passing)| ==> Select(marks, passing)[i] in Keys(marks)
    ensures forall i, j :: 0 <= i < j < |Select(marks, passing)| ==>
      IndexOf(Keys(marks), Select(marks, passing)[i]) < IndexOf(Keys(marks), Select(marks, passing)[j])
  {
    SelectMembers(marks, passing);
    forall i, j | 0 <= i < j < |Select(marks, passing)| {
      SelectOrderedAt(marks, passing, i, j);
    }
  }

  /** Every selected name is a key of the table. */
  lemma {:induction false} SelectKeys(marks: seq<(Name, real)>, passing: bool, i: nat)
    requires i < |Select(marks, passing)|
    ensures Select(marks, passing)[i] in Keys(marks)
  {
    var head := if Passes(marks[0].1) == passing then [marks[0].0] else [];
    assert Select(marks, passing) == head + Select(marks[1..], passing);
    assert Keys(marks) == [marks[0].0] + Keys(marks[1..]);
    if i >= |head| {
      SelectKeys(marks[1..], passing, i - |head|);
    }
  }

  /** Of two positions of the selection, the earlier holds the key that comes first in the table. */
  lemma {:induction false} SelectOrderedAt(marks: seq<(Name, real)>, passing: bool, i: nat, j: nat)
    requires UniqueKeys(marks) && i < j < |Select(marks, passing)|
    ensures Select(marks, passing)[i] in Keys(marks) && Select(marks, passing)[j] in Keys(marks)
    ensures IndexOf(Keys(marks), Select(marks, passing)[i]) < IndexOf(Keys(marks), Select(marks, passing)[j])
  {
    var ks, tail := Keys(marks), marks[1..];
    var rest, r := Select(tail, passing), Select(marks, passing);
    var x, y := r[i], r[j];
    UniqueKeysTail(marks);
    if Passes(marks[0].1) == passing {
      assert y == rest[j - 1] && (i == 0 ==> x == ks[0]) && (i > 0 ==> x == rest[i - 1]) by {
        assert r == [marks[0].0] + rest;
      }
      SelectKeys(tail, passing, j - 1);
      IndexInTail(marks, y);
      if i > 0 {
        SelectOrderedAt(tail, passing, i - 1, j - 1);
        IndexInTail(marks, x);
      }
    } else {
      assert x == rest[i] && y == rest[j];
      SelectOrderedAt(tail, passing, i, j);
      IndexInTail(marks, x);
      IndexInTail(marks, y);
    }
  }

  /** Every name lands in exactly one of the two selections. */
  lemma {:induction false} SelectSplits(marks: seq<(Name, real)>)
    ensures |Select(marks, true)| + |Select(marks, false)| == |marks|
  {
    if |marks| > 0 {
      SelectSplits(marks[1..]);
    }
  }

  /**
   `pass_fail_list`: `passed` holds exactly the names scoring at least the
   pass mark, `failed` exactly the others; every name is in one of the two
   and not both; both keep the iteration order of the score table.
   */
  function PassFailList(marks: seq<(Name, real)>): (r: (seq<Name>, seq<Name>))
    requires UniqueKeys(marks)
    ensures forall n :: n in r.0 <==> n in Keys(marks) && Lookup(marks, n) >= PassMark
    ensures forall n :: n in r.1 <==> n in Keys(marks) && Lookup(marks, n) < PassMark
    ensures forall n :: n in Keys(marks) ==> (n in r.0 <==> n !in r.1)
    ensures |r.0| + |r.1| == |marks|
    ensures forall i, j :: 0 <= i < j < |r.0| ==> IndexOf(Keys(marks), r.0[i]) < IndexOf(Keys(marks), r.0[j])
    ensures forall i, j :: 0 <= i < j < |r.1| ==> IndexOf(Keys(marks), r.1[i]) < IndexOf(Keys(marks), r.1[j])
  {
    SelectSplits(marks);
    SelectMembers(marks, true);
    SelectMembers(marks, false);
    SelectOrdered(marks, true);
    SelectOrdered(marks, false);
    (Select(marks, true), Select(marks, false))
  }

  /** The two thresholds disagree: a score of 50 is graded F and still passes. */
  lemma FailingGradeStillPasses()
    ensures LetterGrade(50.0) == F && 50.0 >= PassMark
  {
  }
}
