# GradeBook Analyzer — verified model of the analysis core

The GradeBook Analyzer is a console script. It builds a table from student
names to scores, from the keyboard, a CSV file or a built-in sample. It then
reports:

- the average, the median, and the highest and lowest scorers;
- a letter grade per student (A ≥ 90, B ≥ 80, C ≥ 70, D ≥ 60, else F);
- how many students got each letter;
- the list of students who passed (score ≥ 40) and who failed.

This project models that analysis in Dafny and proves what each step computes.

Modules:

- `OrderedMap` (`ordered_map.dfy`) — the insertion-ordered dictionary.
  - It is a sequence of `(name, value)` entries with distinct names.
  - `Insert` is `d[name] = value`. A present name keeps its place and gets the new value. A new name is appended.
  - `FromEntries` is a sequence of such assignments.
- `Statistics` (`statistics.dfy`):
  - average, as sum over count;
  - median, as the middle of the sorted scores or the mean of the two middle ones;
  - highest and lowest scorer. When several students tie, the earliest in table order wins, as with Python's `max`/`min` with a `key`.
- `Grading` (`grading.dfy`):
  - the band table;
  - `assign_grades`, as a loop that inserts into the grade table;
  - `grade_distribution`, as a loop that increments five counters that start at zero.
- `PassFail` (`pass_fail.dfy`) — the two list comprehensions of `pass_fail_list`. The pass mark is 40, while the F band ends at 60.
- `Gradebook` (`gradebook.dfy`):
  - the data-entry loop that assigns parsed rows into the table;
  - the sample table;
  - the analysis pass, with the "No data available!" case;
  - the expected results on the sample table.

Scores are mathematical reals. The letter grades are a datatype `Grade`. The
grade distribution is a `map<Grade, nat>`.

## Model

| member | source | states |
|---|---|---|
| OrderedMap.Insert | gradebook.py/gradebook.py:33 | `marks[name] = score`: a present name keeps its position and no key is added; a new name is appended as the last key; distinct keys stay distinct |
| OrderedMap.InsertLookup | gradebook.py/gradebook.py:42 | after `marks[k] = v`, `k` is a key and maps to `v` |
| OrderedMap.InsertLookupOther | gradebook.py/gradebook.py:42 | after `marks[k] = v`, every other key is still present with its old value |
| OrderedMap.FromEntries | gradebook.py/gradebook.py:30-33 | assigning a sequence of rows yields a dictionary (distinct keys) holding exactly the names of the rows |
| OrderedMap.FromEntriesLastWins | gradebook.py/gradebook.py:30-33 | a repeated name holds the score of its last row |
| OrderedMap.FromEntriesOrder | gradebook.py/gradebook.py:41-42 | the keys appear in the order of the names' first rows |
| OrderedMap.FromEntriesOfDictionary | gradebook.py/gradebook.py:41-42 | re-assigning the entries of a dictionary in order rebuilds it exactly |
| OrderedMap.Lookup | gradebook.py/gradebook.py:70 | the definition of `marks[k]` for a present key: the value of the entry holding `k`; what it returns after assignments is stated by `InsertLookup`, `InsertLookupOther` and `FromEntriesLastWins` |
| OrderedMap.LookupAt | gradebook.py/gradebook.py:70 | in a dictionary, the entry at position i is found by its own name and `marks[name]` is its score |
| Gradebook.CollectScores | gradebook.py/gradebook.py:27-46 | the data-entry loop builds exactly `FromEntries(rows)`: distinct names, exactly the names of the rows |
| Statistics.Average | gradebook.py/gradebook.py:62-63 | the definition: the sum of the scores over their number, for a non-empty table; its bounds are stated by `AverageBetweenExtremes` |
| Statistics.SumBounds | gradebook.py/gradebook.py:63 | a sum of n values in [lo, hi] lies in [n·lo, n·hi] |
| Statistics.AverageBetweenExtremes | gradebook.py/gradebook.py:62-63 | `sum(values) / len` lies between the lowest and the highest score |
| Statistics.MeanOfBounded | gradebook.py/gradebook.py:63 | the mean of values in [lo, hi] lies in [lo, hi] |
| Statistics.ArgMax | gradebook.py/gradebook.py:68-69 | the chosen entry holds a score at least every other score, and every earlier entry's score is strictly smaller (first maximum wins) |
| Statistics.ArgMin | gradebook.py/gradebook.py:72-73 | the chosen entry holds a score at most every other score, and every earlier entry's score is strictly greater (first minimum wins) |
| Statistics.ArgMaxIsEarliestMaximum | gradebook.py/gradebook.py:68-69 | any index that is a maximum with only strictly smaller scores before it is the one `ArgMax` picks |
| Statistics.ArgMinIsEarliestMinimum | gradebook.py/gradebook.py:72-73 | any index that is a minimum with only strictly greater scores before it is the one `ArgMin` picks |
| Statistics.FindMaxScore | gradebook.py/gradebook.py:68-70 | returns `(n, marks[n])` with `n` a key, `marks[n]` at least every score, and every name before `n` scoring strictly less |
| Statistics.FindMinScore | gradebook.py/gradebook.py:72-74 | returns `(n, marks[n])` with `n` a key, `marks[n]` at most every score, and every name before `n` scoring strictly more |
| Statistics.InsertSortedCorrect | gradebook.py/gradebook.py:66 | inserting into a sorted sequence keeps it sorted and adds exactly one copy of the value |
| Statistics.SortCorrect | gradebook.py/gradebook.py:66 | the sort used by the median returns a sorted permutation of the scores |
| Statistics.SortedUnique | gradebook.py/gradebook.py:66 | two sorted sequences with the same elements are equal, so the sorted scores are determined by the scores |
| Statistics.MiddleBounded | gradebook.py/gradebook.py:66 | the middle element, or the mean of the two middle ones, of values in [lo, hi] lies in [lo, hi] |
| Statistics.Median | gradebook.py/gradebook.py:65-66 | the definition: the middle of the sorted scores, or the mean of the two middle ones for an even count; what it means is stated by `MedianOfSorted`, `MedianIgnoresNamesAndOrder` and `MedianBetweenExtremes` |
| Statistics.MedianBetweenExtremes | gradebook.py/gradebook.py:65-66 | the median lies between the lowest and the highest score |
| Statistics.MedianIgnoresNamesAndOrder | gradebook.py/gradebook.py:65-66 | two tables with the same multiset of scores, whatever their names or order, have the same median |
| Statistics.MedianOfSorted | gradebook.py/gradebook.py:65-66 | for any sorted arrangement of the scores, the median is its middle element (odd count) or the mean of its two middle elements (even count) |
| Statistics.MedianOddExample | gradebook.py/gradebook.py:65-66 | any table with scores {10, 20, 30} has median 20 |
| Statistics.MedianEvenExample | gradebook.py/gradebook.py:65-66 | any table with scores {10, 20, 30, 40} has median 25, the mean of the two middle scores |
| Grading.LetterGrade | gradebook.py/gradebook.py:82-91 | A iff score ≥ 90, B iff 80 ≤ score < 90, C iff 70 ≤ score < 80, D iff 60 ≤ score < 70, F iff score < 60 |
| Grading.GradeBoundaries | gradebook.py/gradebook.py:82-91 | each band includes its lower edge: 90, 80, 70, 60 open A, B, C, D; just below falls one band lower |
| Grading.GradeBoard | gradebook.py/gradebook.py:79-92 | the table `assign_grades` returns: each name with the letter of its score, in table order; stated by `GradeBoardMatchesScores`, and `AssignGrades` is proved to build it |
| Grading.GradeBoardMatchesScores | gradebook.py/gradebook.py:79-92 | the grade table has the same keys in the same order as the score table and grades each name by its own score |
| Grading.AssignGrades | gradebook.py/gradebook.py:79-92 | the insertion loop with its if/elif chain builds exactly the grade table `GradeBoard(marks)` |
| Grading.CountAppend | gradebook.py/gradebook.py:96-97 | one more graded student adds one to the count of exactly their letter |
| Grading.DistributionAppend | gradebook.py/gradebook.py:96-97 | `dist[g] += 1` on the distribution so far gives the distribution of the grade table with one more student |
| Grading.Distribution | gradebook.py/gradebook.py:94-95 | the distribution has all five letters as keys, zero counts included |
| Grading.CountsTotal | gradebook.py/gradebook.py:94-98 | the five counts add up to the number of graded students |
| Grading.CountIsNumberOfNames | gradebook.py/gradebook.py:94-98 | in a table with distinct names, each count is the number of names graded with that letter |
| Grading.DistributionProperties | gradebook.py/gradebook.py:94-98 | all five letters present, counts sum to the number of students, each count is the number of names with that letter |
| Grading.GradeDistribution | gradebook.py/gradebook.py:94-98 | the counting loop starting from five zero buckets yields exactly `Distribution(grades)` |
| PassFail.Select | gradebook.py/gradebook.py:104-105 | the comprehension itself, over the entries in table order; its own contract is only the length bound, and what it selects is stated by `SelectMembers` (membership) and `SelectOrdered` (order) |
| PassFail.SelectMembers | gradebook.py/gradebook.py:104-105 | a name is selected iff it is a key whose score's pass status is the requested one |
| PassFail.SelectKeys | gradebook.py/gradebook.py:104-105 | every selected name is a key of the table |
| PassFail.SelectOrderedAt | gradebook.py/gradebook.py:104-105 | of two positions of a selection, the earlier holds the name that comes first in the table |
| PassFail.SelectOrdered | gradebook.py/gradebook.py:104-105 | each selection lists table keys, in table order |
| PassFail.SelectSplits | gradebook.py/gradebook.py:104-105 | the two selections together are as long as the table |
| PassFail.PassFailList | gradebook.py/gradebook.py:103-106 | `passed` is exactly the names with score ≥ 40 and `failed` exactly those < 40; they are disjoint and cover every name; both keep table order |
| PassFail.FailingGradeStillPasses | gradebook.py/gradebook.py:91 | a score of 50 is graded F and still passes, because the pass mark (40) differs from the F band edge (60) |
| Gradebook.Summarize | gradebook.py/gradebook.py:154-175 | for a non-empty table, average and median lie between the lowest and highest score, the grade table has the table's keys, and the pass/fail lists together have one entry per student |
| Gradebook.Analyze | gradebook.py/gradebook.py:150-175 | an empty table gives no report ("No data available!"); otherwise the loops' results equal `Summarize(marks)` |
| Gradebook.SampleData | gradebook.py/gradebook.py:48-57 | the built-in sample table of seven entries (Honey 95, Babita 50, Chirag 60, Deepika 67, mohit 75, Firoj 36, Reena 81); its facts are stated by the `Sample*` lemmas below |
| Gradebook.SampleIsDictionary | gradebook.py/gradebook.py:48-57 | the sample table has seven distinct names |
| Gradebook.SampleScores | gradebook.py/gradebook.py:48-57 | the sample scores in table order are 95, 50, 60, 67, 75, 36, 81 |
| Gradebook.SampleAverage | gradebook.py/gradebook.py:62-63 | the sample average is 464/7 |
| Gradebook.SortSample | gradebook.py/gradebook.py:66 | the sorted sample scores are 36, 50, 60, 67, 75, 81, 95 |
| Gradebook.SampleMedian | gradebook.py/gradebook.py:65-66 | the sample median is 67 |
| Gradebook.SampleMaxIndex | gradebook.py/gradebook.py:68-69 | the highest sample score is at the first entry |
| Gradebook.SampleMinIndex | gradebook.py/gradebook.py:72-73 | the lowest sample score is at the sixth entry |
| Gradebook.SampleExtremes | gradebook.py/gradebook.py:68-74 | on the sample, highest is Honey (95) and lowest is Firoj (36) |
| Gradebook.SampleGrades | gradebook.py/gradebook.py:79-92 | the sample grades are Honey A, Babita F, Chirag D, Deepika D, mohit C, Firoj F, Reena B |
| Gradebook.SampleDistribution | gradebook.py/gradebook.py:94-98 | the sample distribution is A:1, B:1, C:1, D:2, F:2 |
| Gradebook.SamplePassFail | gradebook.py/gradebook.py:103-106 | on the sample, everyone passes except Firoj, in table order |

## Left out

- The menu, the main loop's prompting and choice handling, and the parsing of console text with `int()`/`float()` (lines 16-34, 130-148) are interactive I/O. `CollectScores` starts from rows that are already parsed.
- CSV reading, file opening, the `FileNotFoundError` handling, and `export_to_csv` with its fixed file name, together with the y/n prompt that calls it (lines 36-46, 119-125, 183-185) are file I/O and library calls. The dictionary updates inside the CSV loop are modelled by `CollectScores`.
- `display_table`, every `print`, and the `:.2f` formatting (lines 111-117, 160-182) are presentation only.
- Statistics.Average: scores are mathematical reals, so the model has no floating-point rounding in `sum(...)/len(...)` or in `float()`. The sample's integer scores appear as 95.0 and so on, and its average is exactly 464/7.
- Grading.LetterGrade, PassFail.PassFailList, Statistics.FindMaxScore, Statistics.FindMinScore, Statistics.Average: scores are finite reals. NaN and the infinities, which `float()` accepts at lines 32 and 42, are not modelled. With a NaN score the source differs from these contracts: every `>=` test at lines 82-88 fails, so the student gets F whatever the bands say; both `score >= 40` and `score < 40` at lines 104-105 fail, so the name is in neither list and the two lists no longer cover every name; `max`/`min` at lines 69 and 73 may return the NaN student. A table holding both an infinite and a negative infinite score has a NaN average at line 63.
- Statistics.Median: the internals of `statistics.median` are not modelled. The median is the middle of the scores sorted by an insertion sort, which is proved to be a sorted permutation. Any other correct sort gives the same result (`SortedUnique`).
- Statistics.Average, Statistics.Median, Statistics.FindMaxScore, Statistics.FindMinScore: these require a non-empty table. The source raises an exception on an empty table, but its only caller returns early when the table is empty (lines 150-152). That early return is modelled in `Analyze`.
- Grading.Distribution: letters are a datatype instead of the strings "A" to "F". The distribution is a map, so the fixed print order A, B, C, D, F of the source's dictionary is not modelled; only the printing depends on that order.
- Grading.AssignGrades, Grading.GradeDistribution, Gradebook.CollectScores: the dictionaries the source mutates in place are modelled as sequence and map values that the loops reassign. These dictionaries are local to each function and never aliased, so nothing observable is lost.
