/**
 An insertion-ordered dictionary, as the gradebook keeps its name-to-score
 and name-to-grade tables: a sequence of (key, value) entries whose keys are
 distinct. Assigning to a key that is present replaces its value in place;
 assigning to a new key appends an entry at the end.
 */
module OrderedMap {

  /** Student names, the keys of every table of the gradebook. */
  type Name = string

  /** The keys of the entries, in iteration order. */
  function Keys<V>(m: seq<(Name, V)>): seq<Name>
  {
    seq(|m|, i requires 0 <= i < |m| => m[i].0)
  }

  /** The dictionary invariant: no key occurs twice. */
  ghost predicate UniqueKeys<V>(m: seq<(Name, V)>)
  {
    forall i, j :: 0 <= i < j < |m| ==> m[i].0 != m[j].0
  }

  /** Position of the first occurrence of `k` in `ks`. */
  function IndexOf(ks: seq<Name>, k: Name): (i: nat)
    requires k in ks
    ensures i < |ks| && ks[i] == k
    ensures forall j :: 0 <= j < i ==> ks[j] != k
  {
    if ks[0] == k then 0 else 1 + IndexOf(ks[1..], k)
  }

  /** `m[k]`: the value stored under a key that is present. */
  function Lookup<V>(m: seq<(Name, V)>, k: Name): V
    requires k in Keys(m)
  {
    m[IndexOf(Keys(m), k)].1
  }

  /** Appending a key leaves the position of every earlier key unchanged. */
  lemma IndexOfAppend(ks: seq<Name>, k: Name, x: Name)
    requires k in ks
    ensures k in ks + [x] && IndexOf(ks + [x], k) == IndexOf(ks, k)
  {
    var i, i' := IndexOf(ks, k), IndexOf(ks + [x], k);
    assert (ks + [x])[i] == k;
  }

  /** In a dictionary every entry is found again by its own key. */
  lemma LookupAt<V>(m: seq<(Name, V)>, i: nat)
    requires UniqueKeys(m) && i < |m|
    ensures m[i].0 in Keys(m) && IndexOf(Keys(m), m[i].0) == i
    ensures Lookup(m, m[i].0) == m[i].1
  {
    assert Keys(m)[i] == m[i].0;
  }

  /** The entries after the first of a dictionary form a dictionary. */
  lemma UniqueKeysTail<V>(m: seq<(Name, V)>)
    requires UniqueKeys(m) && |m| > 0
    ensures UniqueKeys(m[1..])
  {
    forall i, j | 0 <= i < j < |m| - 1 ensures m[1..][i].0 != m[1..][j].0 {
      assert m[1..][i] == m[i + 1] && m[1..][j] == m[j + 1];
    }
  }

  /** A key of the entries after the first is one place further on in the whole dictionary. */
  lemma IndexInTail<V>(m: seq<(Name, V)>, k: Name)
    requires UniqueKeys(m) && |m| > 0 && k in Keys(m[1..])
    ensures k != m[0].0 && k in Keys(m)
    ensures IndexOf(Keys(m), k) == 1 + IndexOf(Keys(m[1..]), k)
  {
    var ks, ks' := Keys(m), Keys(m[1..]);
    assert ks == [m[0].0] + ks';
    var i := IndexOf(ks', k);
    assert m[i + 1].0 == k;
  }

  /** A key of the entries after the first keeps its value in the whole dictionary. */
  lemma LookupInTail<V>(m: seq<(Name, V)>, k: Name)
    requires UniqueKeys(m) && |m| > 0 && k in Keys(m[1..])
    ensures k != m[0].0 && k in Keys(m) && Lookup(m, k) == Lookup(m[1..], k)
  {
    IndexInTail(m, k);
    var i := IndexOf(Keys(m[1..]), k);
    assert m[1..][i] == m[i + 1];
  }

  /** Removing the first entry of a dictionary leaves a dictionary of the other keys with their values. */
  lemma DropFirst<V>(m: seq<(Name, V)>)
    requires UniqueKeys(m) && |m| > 0
    ensures UniqueKeys(m[1..])
    ensures forall k :: k in Keys(m) <==> k == m[0].0 || k in Keys(m[1..])
    ensures forall k :: k in Keys(m[1..]) ==> k != m[0].0 && Lookup(m, k) == Lookup(m[1..], k)
  {
    UniqueKeysTail(m);
    assert Keys(m) == [m[0].0] + Keys(m[1..]);
    forall k | k in Keys(m[1..]) ensures k != m[0].0 && Lookup(m, k) == Lookup(m[1..], k) {
      LookupInTail(m, k);
    }
  }

  /**
   `m[k] = v` on an insertion-ordered dictionary: a key already present keeps
   its place, a new key goes to the end.
   */
  function Insert<V>(m: seq<(Name, V)>, k: Name, v: V): (r: seq<(Name, V)>)
    ensures Keys(r) == if k in Keys(m) then Keys(m) else Keys(m) + [k]
    ensures UniqueKeys(m) ==> UniqueKeys(r)
  {
    if k in Keys(m) then
      m[IndexOf(Keys(m), k) := (k, v)]
    else
      var r := m + [(k, v)];
      assert Keys(r) == Keys(m) + [k];
      assert forall i | 0 <= i < |m| :: m[i].0 == Keys(m)[i];
      r
  }

  /** After `m[k] = v`, `k` holds `v`. */
  lemma InsertLookup<V>(m: seq<(Name, V)>, k: Name, v: V)
    ensures k in Keys(Insert(m, k, v)) && Lookup(Insert(m, k, v), k) == v
  {
    if k !in Keys(m) {
      IndexOfLast(Keys(m), k);
    }
  }

  /** After `m[k] = v`, every other key keeps its value. */
  lemma InsertLookupOther<V>(m: seq<(Name, V)>, k: Name, v: V, k': Name)
    requires k' in Keys(m) && k' != k
    ensures k' in Keys(Insert(m, k, v)) && Lookup(Insert(m, k, v), k') == Lookup(m, k')
  {
    if k !in Keys(m) {
      IndexOfAppend(Keys(m), k', k);
    }
  }

  /** The dictionary obtained by assigning the entries of `es` one after another. */
  function FromEntries<V>(es: seq<(Name, V)>): (m: seq<(Name, V)>)
    ensures UniqueKeys(m)
    ensures forall k :: k in Keys(m) <==> k in Keys(es)
  {
    if |es| == 0 then []
    else
      var prefix := es[..|es| - 1];
      assert forall k :: k in Keys(es) <==> k in Keys(prefix) || k == es[|es| - 1].0 by {
        assert Keys(es) == Keys(prefix) + [es[|es| - 1].0];
      }
      Insert(FromEntries(prefix), es[|es| - 1].0, es[|es| - 1].1)
  }

  /** Last write wins: each key holds the value of its last assignment. */
  lemma {:induction false} FromEntriesLastWins<V>(es: seq<(Name, V)>, i: nat)
    requires i < |es|
    requires forall j :: i < j < |es| ==> es[j].0 != es[i].0
    ensures es[i].0 in Keys(FromEntries(es))
    ensures Lookup(FromEntries(es), es[i].0) == es[i].1
  {
    var n := |es| - 1;
    var prefix, k := es[..n], es[i].0;
    assert FromEntries(es) == Insert(FromEntries(prefix), es[n].0, es[n].1);
    if i == n {
      InsertLookup(FromEntries(prefix), k, es[n].1);
    } else {
      assert prefix[i] == es[i] && k != es[n].0;
      assert forall j :: i < j < n ==> prefix[j].0 != prefix[i].0 by {
        assert forall j | i < j < n :: prefix[j] == es[j];
      }
      FromEntriesLastWins(prefix, i);
      InsertLookupOther(FromEntries(prefix), es[n].0, es[n].1, k);
    }
  }

  /** Keys appear in the order in which they were first assigned. */
  lemma {:induction false} FromEntriesOrder<V>(es: seq<(Name, V)>, p: nat, q: nat)
    requires p < q < |FromEntries(es)|
    ensures Keys(FromEntries(es))[p] in Keys(es) && Keys(FromEntries(es))[q] in Keys(es)
    ensures IndexOf(Keys(es), Keys(FromEntries(es))[p]) < IndexOf(Keys(es), Keys(FromEntries(es))[q])
  {
    var n := |es| - 1;
    var prefix, last := es[..n], es[n].0;
    var ks' := Keys(prefix);
    var mk, mk' := Keys(FromEntries(es)), Keys(FromEntries(prefix));
    FromEntriesStep(es);
    var kp, kq := mk[p], mk[q];
    assert kp == mk'[p] && kp in ks';
    IndexOfAppend(ks', kp, last);
    if q < |mk'| {
      assert kq == mk'[q];
      FromEntriesOrder(prefix, p, q);
      IndexOfAppend(ks', kq, last);
    } else {
      assert kq == last && kq !in ks';
      IndexOfLast(ks', last);
    }
  }

  /** One more assignment: the keys of the entries and of the dictionary grow by at most its key. */
  lemma FromEntriesStep<V>(es: seq<(Name, V)>)
    requires |es| > 0
    ensures var n := |es| - 1;
      Keys(es) == Keys(es[..n]) + [es[n].0] &&
      Keys(FromEntries(es)) ==
        if es[n].0 in Keys(FromEntries(es[..n])) then Keys(FromEntries(es[..n]))
        else Keys(FromEntries(es[..n])) + [es[n].0]
  {
    var n := |es| - 1;
    assert forall i | 0 <= i < n :: Keys(es)[i] == Keys(es[..n])[i];
  }

  /** A key appended after keys that differ from it is found at the end. */
  lemma IndexOfLast(ks: seq<Name>, k: Name)
    requires k !in ks
    ensures k in ks + [k] && IndexOf(ks + [k], k) == |ks|
  {
  }

  /** Re-assigning the entries of a dictionary, in order, rebuilds it exactly. */
  lemma {:induction false} FromEntriesOfDictionary<V>(m: seq<(Name, V)>)
    requires UniqueKeys(m)
    ensures FromEntries(m) == m
  {
    if |m| > 0 {
      var n := |m| - 1;
      var prefix := m[..n];
      DropLast(m);
      FromEntriesOfDictionary(prefix);
      assert FromEntries(m) == Insert(prefix, m[n].0, m[n].1);
      assert prefix + [m[n]] == m;
    }
  }

  /** Without its last entry a dictionary is a dictionary that lacks the last key. */
  lemma DropLast<V>(m: seq<(Name, V)>)
    requires UniqueKeys(m) && |m| > 0
    ensures UniqueKeys(m[..|m| - 1]) && m[|m| - 1].0 !in Keys(m[..|m| - 1])
  {
    var n := |m| - 1;
    assert forall i | 0 <= i < n :: Keys(m[..n])[i] == m[i].0;
  }
}
