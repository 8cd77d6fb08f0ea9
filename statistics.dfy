/**
 The statistical summary of a score table: average, median, and the
 holders of the highest and lowest score. Scores are mathematical reals.
 */
module Statistics {
  import opened OrderedMap

  /** `marks_dict.values()`: the scores, in iteration order. */
  function Scores(marks: seq<(Name, real)>): seq<real>
  {
    seq(|marks|, i requires 0 <= i < |marks| => marks[i].1)
  }

  function Sum(s: seq<real>): real
  {
    if |s| == 0 then 0.0 else s[0] + Sum(s[1..])
  }

  /** The sum of values that all lie in [lo, hi] lies in [|s| * lo, |s| * hi]. */
  lemma {:induction false} SumBounds(s: seq<real>, lo: real, hi: real)
    requires forall i :: 0 <= i < |s| ==> lo <= s[i] <= hi
    ensures (|s| as real) * lo <= Sum(s) <= (|s| as real) * hi
  {
    if |s| > 0 {
      SumBounds(s[1..], lo, hi);
    }
  }

  /**
   Index of the entry `max(marks_dict, key=marks_dict.get)` selects: the
   earliest entry holding the highest score, since the left-to-right scan
   replaces its candidate only by a strictly greater score.
   */
  function ArgMax(marks: seq<(Name, real)>): (k: nat)
    requires |marks| > 0
    ensures k < |marks|
    ensures forall j :: 0 <= j < |marks| ==> marks[j].1 <= marks[k].1
    ensures forall j :: 0 <= j < k ==> marks[j].1 < marks[k].1
  {
    if |marks| == 1 then 0
    else
      var k := 1 + ArgMax(marks[1..]);
      if marks[0].1 >= marks[k].1 then 0 else k
  }

  /** Index of the entry `min(marks_dict, key=marks_dict.get)` selects; the earliest minimum wins. */
  function ArgMin(marks: seq<(Name, real)>): (k: nat)
    requires |marks| > 0
    ensures k < |marks|
    ensures forall j :: 0 <= j < |marks| ==> marks[k].1 <= marks[j].1
    ensures forall j :: 0 <= j < k ==> marks[k].1 < marks[j].1
  {
    if |marks| == 1 then 0
    else
      var k := 1 + ArgMin(marks[1..]);
      if marks[0].1 <= marks[k].1 then 0 else k
  }

  /** The contract of `ArgMax` determines it: the earliest index holding the highest score. */
  lemma ArgMaxIsEarliestMaximum(marks: seq<(Name, real)>, k: nat)
    requires k < |marks|
    requires forall j :: 0 <= j < |marks| ==> marks[j].1 <= marks[k].1
    requires forall j :: 0 <= j < k ==> marks[j].1 < marks[k].1
    ensures ArgMax(marks) == k
  {
    var a := ArgMax(marks);
    assert marks[a].1 == marks[k].1;
  }

  /** The contract of `ArgMin` determines it: the earliest index holding the lowest score. */
  lemma ArgMinIsEarliestMinimum(marks: seq<(Name, real)>, k: nat)
    requires k < |marks|
    requires forall j :: 0 <= j < |marks| ==> marks[k].1 <= marks[j].1
    requires forall j :: 0 <= j < k ==> marks[k].1 < marks[j].1
    ensures ArgMin(marks) == k
  {
    var a := ArgMin(marks);
    assert marks[a].1 == marks[k].1;
  }

  /** `find_max_score`: the name with the highest score, and that score. */
  function FindMaxScore(marks: seq<(Name, real)>): (r: (Name, real))
    requires |marks| > 0 && UniqueKeys(marks)
    ensures r.0 in Keys(marks) && Lookup(marks, r.0) == r.1
    ensures forall n :: n in Keys(marks) ==> Lookup(marks, n) <= r.1
    ensures forall j :: 0 <= j < IndexOf(Keys(marks), r.0) ==> marks[j].1 < r.1
  {
    var name := marks[ArgMax(marks)].0;
    LookupAt(marks, ArgMax(marks));
    (name, Lookup(marks, name))
  }

  /** `find_min_score`: the name with the lowest score, and that score. */
  function FindMinScore(marks: seq<(Name, real)>): (r: (Name, real))
    requires |marks| > 0 && UniqueKeys(marks)
    ensures r.0 in Keys(marks) && Lookup(marks, r.0) == r.1
    ensures forall n :: n in Keys(marks) ==> r.1 <= Lookup(marks, n)
    ensures forall j :: 0 <= j < IndexOf(Keys(marks), r.0) ==> r.1 < marks[j].1
  {
    var name := marks[ArgMin(marks)].0;
    LookupAt(marks, ArgMin(marks));
    (name, Lookup(marks, name))
  }

  /** `calculate_average`: the sum of the scores divided by their number. */
  function Average(marks: seq<(Name, real)>): real
    requires |marks| > 0
  {
    Sum(Scores(marks)) / (|marks| as real)
  }

  /** The average lies between the lowest and the highest score. */
  lemma AverageBetweenExtremes(marks: seq<(Name, real)>)
    requires |marks| > 0
    ensures marks[ArgMin(marks)].1 <= Average(marks) <= marks[ArgMax(marks)].1
  {
    var lo, hi := marks[ArgMin(marks)].1, marks[ArgMax(marks)].1;
    MeanOfBounded(Scores(marks), lo, hi);
  }

  /** The mean of values that all lie in [lo, hi] lies in [lo, hi]. */
  lemma MeanOfBounded(s: seq<real>, lo: real, hi: real)
    requires |s| > 0
    requires forall i :: 0 <= i < |s| ==> lo <= s[i] <= hi
    ensures lo <= Sum(s) / (|s| as real) <= hi
  {
    SumBounds(s, lo, hi);
    MeanBounds(Sum(s), |s| as real, lo, hi);
  }

  lemma MeanBounds(total: real, n: real, lo: real, hi: real)
    requires n > 0.0 && n * lo <= total <= n * hi
    ensures lo <= total / n <= hi
  {
    var q := total / n;
    assert q * n == total;
    assert (q - lo) * n == total - lo * n;
    assert (hi - q) * n == hi * n - total;
  }

  ghost predicate Sorted(s: seq<real>)
  {
    forall i, j :: 0 <= i < j < |s| ==> s[i] <= s[j]
  }

  /** Inserts `x` before the first element not smaller than it. */
  function InsertSorted(x: real, s: seq<real>): (r: seq<real>)
    ensures |r| == |s| + 1 && r[0] == (if |s| == 0 || x <= s[0] then x else s[0])
  {
    if |s| == 0 || x <= s[0] then [x] + s
    else [s[0]] + InsertSorted(x, s[1..])
  }

  /** `sorted(data)`, the first step of `statistics.median`. */
  function Sort(s: seq<real>): (r: seq<real>)
    ensures |r| == |s|
  {
    if |s| == 0 then [] else InsertSorted(s[0], Sort(s[1..]))
  }

  /** Inserting into a sorted sequence keeps it sorted and adds exactly `x`. */
  lemma {:induction false} InsertSortedCorrect(x: real, s: seq<real>)
    requires Sorted(s)
    ensures Sorted(InsertSorted(x, s))
    ensures multiset(InsertSorted(x, s)) == multiset(s) + multiset{x}
  {
    if |s| == 0 || x <= s[0] {
      SortedCons(x, s);
    } else {
      var rest := InsertSorted(x, s[1..]);
      SortedTail(s);
      InsertSortedCorrect(x, s[1..]);
      assert |s| == 1 || s[0] <= s[1];
      SortedCons(s[0], rest);
      MultisetTail(s);
    }
  }

  /** Putting a value no larger than the head in front of a sorted sequence keeps it sorted. */
  lemma SortedCons(x: real, s: seq<real>)
    requires Sorted(s) && (|s| > 0 ==> x <= s[0])
    ensures Sorted([x] + s)
  {
    var r := [x] + s;
    forall i, j | 0 <= i < j < |r| ensures r[i] <= r[j] {
      if i == 0 {
        assert r[j] == s[j - 1];
      }
    }
  }

  /** `Sort` returns a sorted permutation of its input. */
  lemma {:induction false} SortCorrect(s: seq<real>)
    ensures Sorted(Sort(s)) && multiset(Sort(s)) == multiset(s)
  {
    if |s| > 0 {
      SortCorrect(s[1..]);
      InsertSortedCorrect(s[0], Sort(s[1..]));
      MultisetTail(s);
    }
  }

  /** The head of a sorted sequence is below every element of it. */
  lemma SortedHeadLeast(a: seq<real>, v: real)
    requires Sorted(a) && v in multiset(a)
    ensures |a| > 0 && a[0] <= v
  {
    var k :| 0 <= k < |a| && a[k] == v;
    assert k == 0 || a[0] <= a[k];
  }

  lemma SortedTail(a: seq<real>)
    requires Sorted(a) && |a| > 0
    ensures Sorted(a[1..])
  {
  }

  /** Removing the head of a sequence removes one copy of it from the multiset. */
  lemma MultisetTail(a: seq<real>)
    requires |a| > 0
    ensures multiset(a[1..]) == multiset(a) - multiset{a[0]}
  {
    assert a == [a[0]] + a[1..];
  }

  /** Two sorted sequences with the same elements are equal. */
  lemma {:induction false} SortedUnique(a: seq<real>, b: seq<real>)
    requires Sorted(a) && Sorted(b) && multiset(a) == multiset(b)
    ensures a == b
  {
    assert |a| == |multiset(a)| == |multiset(b)| == |b|;
    if |a| > 0 {
      var x, y, a', b' := a[0], b[0], a[1..], b[1..];
      assert x == y by {
        assert x in multiset(a) && y in multiset(b);
        SortedHeadLeast(a, y);
        SortedHeadLeast(b, x);
      }
      assert multiset(a') == multiset(b') by {
        MultisetTail(a);
        MultisetTail(b);
      }
      SortedTail(a);
      SortedTail(b);
      SortedUnique(a', b');
      assert a == [x] + a' && b == [y] + b';
    }
  }

  /** Every element of a permutation of `s` lies between two bounds of `s`. */
  lemma PermutationBounded(s: seq<real>, t: seq<real>, lo: real, hi: real)
    requires multiset(t) == multiset(s)
    requires forall i :: 0 <= i < |s| ==> lo <= s[i] <= hi
    ensures forall i :: 0 <= i < |t| ==> lo <= t[i] <= hi
  {
    forall i | 0 <= i < |t| ensures lo <= t[i] <= hi {
      assert t[i] in multiset(s);
    }
  }

  /** The middle element of a sequence of odd length, the mean of the two middle ones otherwise. */
  function Middle(t: seq<real>): real
    requires |t| > 0
  {
    var n := |t|;
    if n % 2 == 1 then t[n / 2] else (t[n / 2 - 1] + t[n / 2]) / 2.0
  }

  /** The middle of values that all lie in [lo, hi] lies in [lo, hi]. */
  lemma MiddleBounded(t: seq<real>, lo: real, hi: real)
    requires |t| > 0
    requires forall i :: 0 <= i < |t| ==> lo <= t[i] <= hi
    ensures lo <= Middle(t) <= hi
  {
    var n := |t|;
    if n % 2 == 0 {
      assert lo <= t[n / 2 - 1] <= hi && lo <= t[n / 2] <= hi;
    }
  }

  /**
   `calculate_median`: the middle of the sorted scores for an odd count, the
   mean of the two middle ones for an even count.
   */
  function Median(marks: seq<(Name, real)>): real
    requires |marks| > 0
  {
    Middle(Sort(Scores(marks)))
  }

  /** The median lies between the lowest and the highest score. */
  lemma MedianBetweenExtremes(marks: seq<(Name, real)>)
    requires |marks| > 0
    ensures marks[ArgMin(marks)].1 <= Median(marks) <= marks[ArgMax(marks)].1
  {
    var s := Scores(marks);
    var lo, hi := marks[ArgMin(marks)].1, marks[ArgMax(marks)].1;
    assert forall i :: 0 <= i < |s| ==> lo <= s[i] <= hi by {
      forall i | 0 <= i < |s| ensures lo <= s[i] <= hi {
        assert s[i] == marks[i].1;
      }
    }
    SortCorrect(s);
    PermutationBounded(s, Sort(s), lo, hi);
    MiddleBounded(Sort(s), lo, hi);
  }

  /** The median depends only on the multiset of scores: not on names, not on order. */
  lemma MedianIgnoresNamesAndOrder(m1: seq<(Name, real)>, m2: seq<(Name, real)>)
    requires |m1| > 0 && multiset(Scores(m1)) == multiset(Scores(m2))
    ensures |m2| > 0 && Median(m1) == Median(m2)
  {
    assert |m2| == |multiset(Scores(m2))| == |multiset(Scores(m1))| == |m1|;
    SortCorrect(Scores(m1));
    SortCorrect(Scores(m2));
    SortedUnique(Sort(Scores(m1)), Sort(Scores(m2)));
  }

  /** The median read off any sorted arrangement of the scores. */
  lemma MedianOfSorted(marks: seq<(Name, real)>, t: seq<real>)
    requires |marks| > 0 && Sorted(t) && multiset(t) == multiset(Scores(marks))
    ensures |t| == |marks|
    ensures Median(marks) == Middle(t)
  {
    assert |t| == |multiset(t)| == |marks|;
    SortCorrect(Scores(marks));
    SortedUnique(Sort(Scores(marks)), t);
  }

  /** Odd count: any table holding the scores 10, 20 and 30, in any order and under any names, has median 20. */
  lemma MedianOddExample(m: seq<(Name, real)>)
    requires multiset(Scores(m)) == multiset{10.0, 20.0, 30.0}
    ensures |m| == 3 && Median(m) == 20.0
  {
    var t := [10.0, 20.0, 30.0];
    assert |m| == |Scores(m)| == |multiset(Scores(m))| == 3;
    assert multiset(t) == multiset{10.0, 20.0, 30.0};
    MedianOfSorted(m, t);
    assert Middle(t) == 20.0;
  }

  /** Even count: any table holding the scores 10, 20, 30 and 40 has median 25, the mean of 20 and 30. */
  lemma MedianEvenExample(m: seq<(Name, real)>)
    requires multiset(Scores(m)) == multiset{10.0, 20.0, 30.0, 40.0}
    ensures |m| == 4 && Median(m) == 25.0
  {
    var t := [10.0, 20.0, 30.0, 40.0];
    assert |m| == |Scores(m)| == |multiset(Scores(m))| == 4;
    assert multiset(t) == multiset{10.0, 20.0, 30.0, 40.0};
    MedianOfSorted(m, t);
    assert Middle(t) == (20.0 + 30.0) / 2.0;
  }
}
