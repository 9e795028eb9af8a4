/**
 * Grouping and counting: the histogram that `Collectors.groupingBy(key,
 * Collectors.counting())` builds from the keys of a stream, and the reference
 * count it is specified against.
 */
module Grouping {

  /** Number of positions of `ks` that hold `k`. */
  function Occurrences<K(==)>(ks: seq<K>, k: K): (n: nat)
    ensures n <= |ks|
    ensures n > 0 <==> k in ks
  {
    if ks == [] then 0
    else
      assert ks == ks[..|ks| - 1] + [ks[|ks| - 1]];
      Occurrences(ks[..|ks| - 1], k) + (if ks[|ks| - 1] == k then 1 else 0)
  }

  /** The reference count agrees with the multiplicity of `k` in the multiset of `ks`. */
  lemma {:induction false} OccurrencesIsMultiplicity<K>(ks: seq<K>, k: K)
    ensures Occurrences(ks, k) == multiset(ks)[k]
  {
    if ks != [] {
      var init, last := ks[..|ks| - 1], ks[|ks| - 1];
      assert ks == init + [last];
      OccurrencesIsMultiplicity(init, k);
    }
  }

  /**
   * The histogram of `ks`: its keys are exactly the values occurring in `ks`,
   * each mapped to the number of times it occurs.
   */
  function Tally<K(==,!new)>(ks: seq<K>): (m: map<K, nat>)
    ensures forall k :: k in m <==> k in ks
    ensures forall k | k in m :: m[k] == Occurrences(ks, k)
  {
    if ks == [] then map[]
    else
      var init, last := ks[..|ks| - 1], ks[|ks| - 1];
      assert ks == init + [last];
      var m := Tally(init);
      m[last := if last in m then m[last] + 1 else 1]
  }

  /** Sum of the values `m` holds at the keys in `ks`. */
  ghost function SumOver<K>(m: map<K, nat>, ks: set<K>): nat
    requires ks <= m.Keys
  {
    if ks == {} then 0 else var k :| k in ks; m[k] + SumOver(m, ks - {k})
  }

  /** Sum of all values of `m`. */
  ghost function Total<K>(m: map<K, nat>): nat
  {
    SumOver(m, m.Keys)
  }

  /** Any key may be split off a sum, whichever one the definition picks. */
  lemma {:induction false} SumOverSplit<K>(m: map<K, nat>, ks: set<K>, k: K)
    requires ks <= m.Keys && k in ks
    ensures SumOver(m, ks) == m[k] + SumOver(m, ks - {k})
    decreases ks
  {
    var j :| j in ks && SumOver(m, ks) == m[j] + SumOver(m, ks - {j});
    if j != k {
      SumOverSplit(m, ks - {j}, k);
      SumOverSplit(m, ks - {k}, j);
      assert ks - {j} - {k} == ks - {k} - {j};
    }
  }

  /** Two maps that agree on `ks` have the same sum over `ks`. */
  lemma {:induction false} SumOverAgree<K>(m1: map<K, nat>, m2: map<K, nat>, ks: set<K>)
    requires ks <= m1.Keys && ks <= m2.Keys
    requires forall k | k in ks :: m1[k] == m2[k]
    ensures SumOver(m1, ks) == SumOver(m2, ks)
    decreases ks
  {
    if ks != {} {
      var k :| k in ks;
      SumOverSplit(m1, ks, k);
      SumOverSplit(m2, ks, k);
      SumOverAgree(m1, m2, ks - {k});
    }
  }

  /** The counts of a histogram add up to the number of keys it was built from. */
  lemma {:induction false} TallyTotal<K(!new)>(ks: seq<K>)
    ensures Total(Tally(ks)) == |ks|
  {
    if ks != [] {
      var init, last := ks[..|ks| - 1], ks[|ks| - 1];
      assert ks == init + [last];
      TallyTotal(init);
      var m := Tally(init);
      var m' := Tally(ks);
      assert m' == m[last := if last in m then m[last] + 1 else 1];
      SumOverSplit(m', m'.Keys, last);
      SumOverAgree(m', m, m'.Keys - {last});
      if last in m {
        SumOverSplit(m, m.Keys, last);
        assert m'.Keys - {last} == m.Keys - {last};
      } else {
        assert m'.Keys - {last} == m.Keys;
      }
    }
  }
}
