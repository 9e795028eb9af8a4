/**
 * Ranking of map entries by count: the `sorted(comparingByValue().reversed())`
 * and `limit(n)` stages applied to the entries of the address histogram.
 */
module Ranking {

  function Min(a: nat, b: nat): nat
  {
    if a <= b then a else b
  }

  /** A map entry: a client address and its request count. */
  type Entry = (string, nat)

  /** Counts never increase from left to right. */
  predicate SortedByCountDesc(r: seq<Entry>)
  {
    forall i, j | 0 <= i < j < |r| :: r[i].1 >= r[j].1
  }

  /** No address appears in two entries. */
  predicate DistinctKeys(r: seq<Entry>)
  {
    forall i, j | 0 <= i < j < |r| :: r[i].0 != r[j].0
  }

  /** The addresses of the entries. */
  function Keys(r: seq<Entry>): set<string>
  {
    set p | p in r :: p.0
  }

  /** `xs` lists every element of `s` exactly once. */
  predicate IsEnumeration(xs: seq<string>, s: set<string>)
  {
    && (forall i, j | 0 <= i < j < |xs| :: xs[i] != xs[j])
    && (forall i | 0 <= i < |xs| :: xs[i] in s)
    && (forall x | x in s :: x in xs)
  }

  /** An entry whose count bounds every count of a sorted list may go in front. */
  lemma ConsSorted(x: Entry, s: seq<Entry>)
    requires SortedByCountDesc(s)
    requires forall p | p in s :: p.1 <= x.1
    ensures SortedByCountDesc([x] + s)
  {
    var r := [x] + s;
    forall i, j | 0 <= i < j < |r| ensures r[i].1 >= r[j].1 {
      assert r[j] == s[j - 1];
      if i > 0 { assert r[i] == s[i - 1]; }
    }
  }

  /** A bound on the counts of a list holds for every permutation of it. */
  lemma CountsBounded(r: seq<Entry>, t: seq<Entry>, b: nat)
    requires multiset(r) == multiset(t)
    requires forall p | p in t :: p.1 <= b
    ensures forall p | p in r :: p.1 <= b
  {
    forall p | p in r ensures p.1 <= b {
      assert p in multiset(t);
    }
  }

  /**
   * Inserts `x` into a list sorted by descending count, in front of the
   * entries with the same count.
   */
  function Insert(x: Entry, s: seq<Entry>): (r: seq<Entry>)
    requires SortedByCountDesc(s)
    ensures SortedByCountDesc(r)
    ensures multiset(r) == multiset(s) + multiset{x}
  {
    if s == [] || x.1 >= s[0].1 then
      ConsSorted(x, s);
      [x] + s
    else
      var rest := Insert(x, s[1..]);
      assert s == [s[0]] + s[1..];
      assert multiset(rest) == multiset(s[1..] + [x]);
      CountsBounded(rest, s[1..] + [x], s[0].1);
      ConsSorted(s[0], rest);
      [s[0]] + rest
  }

  /** Same elements, same addresses. */
  lemma KeysOfPermutation(r: seq<Entry>, s: seq<Entry>)
    requires multiset(r) == multiset(s)
    ensures Keys(r) == Keys(s)
  {
    forall p ensures p in r <==> p in s {
      assert p in r <==> p in multiset(r);
      assert p in s <==> p in multiset(s);
    }
  }

  /** Consing an entry adds its address and keeps distinctness iff it is new. */
  lemma DistinctKeysCons(x: Entry, s: seq<Entry>)
    ensures Keys([x] + s) == Keys(s) + {x.0}
    ensures DistinctKeys([x] + s) <==> x.0 !in Keys(s) && DistinctKeys(s)
  {
    assert forall p :: p in [x] + s <==> p == x || p in s;
    if DistinctKeys([x] + s) {
      forall i, j | 0 <= i < j < |s| ensures s[i].0 != s[j].0 {
        assert ([x] + s)[i + 1] == s[i] && ([x] + s)[j + 1] == s[j];
      }
      forall p | p in s ensures p.0 != x.0 {
        var i :| 0 <= i < |s| && s[i] == p;
        assert ([x] + s)[0] == x && ([x] + s)[i + 1] == p;
      }
    }
    if x.0 !in Keys(s) && DistinctKeys(s) {
      forall i, j | 0 <= i < j < |[x] + s| ensures ([x] + s)[i].0 != ([x] + s)[j].0 {
        if i == 0 {
          assert ([x] + s)[j] == s[j - 1];
          assert s[j - 1] in s;
        } else {
          assert ([x] + s)[i] == s[i - 1] && ([x] + s)[j] == s[j - 1];
        }
      }
    }
  }

  /** Inserting an entry whose address is new keeps the addresses distinct. */
  lemma {:induction false} InsertDistinct(x: Entry, s: seq<Entry>)
    requires SortedByCountDesc(s) && DistinctKeys(s) && x.0 !in Keys(s)
    ensures DistinctKeys(Insert(x, s))
  {
    DistinctKeysCons(x, s);
    if !(s == [] || x.1 >= s[0].1) {
      assert s == [s[0]] + s[1..];
      DistinctKeysCons(s[0], s[1..]);
      InsertDistinct(x, s[1..]);
      var rest := Insert(x, s[1..]);
      KeysOfPermutation(rest, [x] + s[1..]);
      DistinctKeysCons(x, s[1..]);
      DistinctKeysCons(s[0], rest);
    }
  }

  /**
   * Stable insertion sort by descending count: a permutation of `s` whose
   * counts never increase.
   */
  function SortByCountDesc(s: seq<Entry>): (r: seq<Entry>)
    ensures SortedByCountDesc(r)
    ensures multiset(r) == multiset(s)
    ensures |r| == |s|
  {
    if s == [] then []
    else
      assert s == [s[0]] + s[1..];
      Insert(s[0], SortByCountDesc(s[1..]))
  }

  /** Sorting keeps the addresses distinct. */
  lemma {:induction false} SortDistinct(s: seq<Entry>)
    requires DistinctKeys(s)
    ensures DistinctKeys(SortByCountDesc(s))
  {
    if s != [] {
      assert s == [s[0]] + s[1..];
      DistinctKeysCons(s[0], s[1..]);
      SortDistinct(s[1..]);
      var t := SortByCountDesc(s[1..]);
      KeysOfPermutation(t, s[1..]);
      InsertDistinct(s[0], t);
    }
  }

  /** A list has at most as many addresses as entries, exactly as many when they are distinct. */
  lemma {:induction false} KeysCard(r: seq<Entry>)
    ensures |Keys(r)| <= |r|
    ensures DistinctKeys(r) ==> |Keys(r)| == |r|
  {
    if r != [] {
      assert r == [r[0]] + r[1..];
      DistinctKeysCons(r[0], r[1..]);
      KeysCard(r[1..]);
    }
  }

  /** An enumeration of a set is as long as the set is large. */
  lemma {:induction false} EnumerationCard(xs: seq<string>, s: set<string>)
    requires IsEnumeration(xs, s)
    ensures |xs| == |s|
  {
    if xs != [] {
      var rest := s - {xs[0]};
      forall i, j | 0 <= i < j < |xs[1..]| ensures xs[1..][i] != xs[1..][j] {
        assert xs[1..][i] == xs[i + 1] && xs[1..][j] == xs[j + 1];
      }
      forall i | 0 <= i < |xs[1..]| ensures xs[1..][i] in rest {
        assert xs[1..][i] == xs[i + 1];
      }
      forall x | x in rest ensures x in xs[1..] {
        var k :| 0 <= k < |xs| && xs[k] == x;
        assert xs[1..][k - 1] == x;
      }
      EnumerationCard(xs[1..], rest);
    }
  }

  /** The distinct elements of `ks` in order of first occurrence. */
  function FirstSeen(ks: seq<string>): (r: seq<string>)
    ensures forall i, j | 0 <= i < j < |r| :: r[i] != r[j]
    ensures forall x :: x in r <==> x in ks
  {
    if ks == [] then []
    else
      var init, last := ks[..|ks| - 1], ks[|ks| - 1];
      assert ks == init + [last];
      var r := FirstSeen(init);
      if last in r then r else r + [last]
  }

  /** A subset is no larger than its superset. */
  lemma SubsetCard(a: set<string>, b: set<string>)
    requires a <= b
    ensures |a| <= |b|
  {
    assert b == a + (b - a);
    assert a * (b - a) == {};
  }

  /** At most `n` elements from the front of `s`: `Stream.limit(n)`. */
  function Limit<T>(s: seq<T>, n: nat): (r: seq<T>)
    ensures |r| == Min(n, |s|)
    ensures r == s[..|r|]
  {
    if n < |s| then s[..n] else s
  }
}
