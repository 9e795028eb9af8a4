/**
 * The log analyzer: three read-only queries over the fixed list of parsed
 * entries the analyzer was constructed with. The analyzer's only state is that
 * final list, so each query here takes it as its first argument.
 */
module Analyzer {
  import opened LogEntries
  import opened Grouping
  import opened Strings
  import opened Ranking

  /** `Stream.limit` rejects a negative size. */
  datatype Error = IllegalArgument

  datatype Result<T> = Success(value: T) | Failure(error: Error)

  // ---------------------------------------------------------------------
  // Reference definitions

  /** The client address of every entry, in log order. */
  function Ips(logs: seq<LogEntry>): seq<string>
  {
    seq(|logs|, i requires 0 <= i < |logs| => logs[i].ipAddress)
  }

  /** The status code of every entry, in log order. */
  function Codes(logs: seq<LogEntry>): seq<int>
  {
    seq(|logs|, i requires 0 <= i < |logs| => logs[i].statusCode)
  }

  /** The distinct client addresses occurring in the log. */
  function IpSet(logs: seq<LogEntry>): set<string>
  {
    set e | e in logs :: e.ipAddress
  }

  /** The distinct status codes occurring in the log. */
  function CodeSet(logs: seq<LogEntry>): set<int>
  {
    set e | e in logs :: e.statusCode
  }

  /** Number of entries whose client address is `ip`. */
  function IpCount(logs: seq<LogEntry>, ip: string): nat
  {
    Occurrences(Ips(logs), ip)
  }

  /** Number of entries whose status code is `code`. */
  function CodeCount(logs: seq<LogEntry>, code: int): nat
  {
    Occurrences(Codes(logs), code)
  }

  lemma IpsCoverIpSet(logs: seq<LogEntry>)
    ensures forall ip :: ip in Ips(logs) <==> ip in IpSet(logs)
  {
    forall ip ensures ip in Ips(logs) <==> ip in IpSet(logs) {
      if ip in Ips(logs) {
        var i :| 0 <= i < |logs| && Ips(logs)[i] == ip;
        assert logs[i] in logs;
      }
      if ip in IpSet(logs) {
        var e :| e in logs && e.ipAddress == ip;
        var i :| 0 <= i < |logs| && logs[i] == e;
        assert Ips(logs)[i] == ip;
      }
    }
  }

  lemma CodesCoverCodeSet(logs: seq<LogEntry>)
    ensures forall c :: c in Codes(logs) <==> c in CodeSet(logs)
  {
    forall c ensures c in Codes(logs) <==> c in CodeSet(logs) {
      if c in Codes(logs) {
        var i :| 0 <= i < |logs| && Codes(logs)[i] == c;
        assert logs[i] in logs;
      }
      if c in CodeSet(logs) {
        var e :| e in logs && e.statusCode == c;
        var i :| 0 <= i < |logs| && logs[i] == e;
        assert Codes(logs)[i] == c;
      }
    }
  }

  // ---------------------------------------------------------------------
  // findTopNIps

  /**
   * `groupingBy(getIpAddress, counting())`: every address of the log mapped to
   * the number of its requests.
   */
  function GroupByIp(logs: seq<LogEntry>): (m: map<string, nat>)
    ensures m.Keys == IpSet(logs)
    ensures forall ip | ip in m :: m[ip] == IpCount(logs, ip) >= 1
  {
    IpsCoverIpSet(logs);
    Tally(Ips(logs))
  }

  /** The request counts of all addresses add up to the number of entries. */
  lemma GroupByIpTotal(logs: seq<LogEntry>)
    ensures Total(GroupByIp(logs)) == |logs|
  {
    TallyTotal(Ips(logs));
  }

  /** The entries of the histogram `m`, listed in the iteration order `order`. */
  function EntriesInOrder(m: map<string, nat>, order: seq<string>): seq<Entry>
    requires forall i | 0 <= i < |order| :: order[i] in m
  {
    seq(|order|, i requires 0 <= i < |order| => (order[i], m[order[i]]))
  }

  /** Every entry is an address of the log with its true request count. */
  ghost predicate TrueCounts(logs: seq<LogEntry>, r: seq<Entry>)
  {
    forall i | 0 <= i < |r| :: r[i].0 in IpSet(logs) && r[i].1 == IpCount(logs, r[i].0)
  }

  /** No address of the log left out of the non-empty `r` has more requests than its last entry. */
  ghost predicate KeepsTop(logs: seq<LogEntry>, r: seq<Entry>)
  {
    forall ip | ip in IpSet(logs) && ip !in Keys(r) :: |r| > 0 ==> IpCount(logs, ip) <= r[|r| - 1].1
  }

  /**
   * What a top-`n` ranking of the log's addresses is: `min(n, #addresses)`
   * distinct addresses of the log with their true request counts, counts not
   * increasing, and no address left out that has more requests than the last
   * one kept. The order among equal counts is left free.
   */
  ghost predicate IsTopN(logs: seq<LogEntry>, n: nat, r: seq<Entry>)
  {
    && |r| == Min(n, |IpSet(logs)|)
    && DistinctKeys(r)
    && TrueCounts(logs, r)
    && SortedByCountDesc(r)
    && KeepsTop(logs, r)
  }

  /**
   * `findTopNIps(topN)`. The histogram's entries are streamed in `order`, the
   * iteration order of the grouping map, which Java leaves unspecified: any
   * enumeration of the log's addresses is allowed, and it decides only how
   * equal counts are ordered. A negative `topN` is rejected by `limit`.
   */
  function FindTopNIps(logs: seq<LogEntry>, topN: int, order: seq<string>): (r: Result<seq<Entry>>)
    requires IsEnumeration(order, IpSet(logs))
    ensures r.Failure? <==> topN < 0
    ensures r.Success? ==> IsTopN(logs, topN, r.value)
    ensures r.Success? ==> forall i | 0 <= i < |r.value| :: r.value[i].1 >= 1
    ensures topN == 0 ==> r == Success([])
  {
    if topN < 0 then Failure(IllegalArgument)
    else
      TopNCorrect(logs, topN, order);
      Success(Limit(SortByCountDesc(EntriesInOrder(GroupByIp(logs), order)), topN))
  }

  /** The histogram's entries, in any enumeration order, are distinct addresses with their true counts. */
  lemma EntriesInOrderTrue(logs: seq<LogEntry>, order: seq<string>)
    requires IsEnumeration(order, IpSet(logs))
    ensures DistinctKeys(EntriesInOrder(GroupByIp(logs), order))
    ensures TrueCounts(logs, EntriesInOrder(GroupByIp(logs), order))
    ensures forall ip | ip in IpSet(logs) :: (ip, IpCount(logs, ip)) in EntriesInOrder(GroupByIp(logs), order)
  {
    var es := EntriesInOrder(GroupByIp(logs), order);
    forall i, j | 0 <= i < j < |es| ensures es[i].0 != es[j].0 {
      assert es[i].0 == order[i] && es[j].0 == order[j];
    }
    forall ip | ip in IpSet(logs) ensures (ip, IpCount(logs, ip)) in es {
      var k :| 0 <= k < |order| && order[k] == ip;
      assert es[k] == (ip, IpCount(logs, ip));
    }
  }

  /** True counts survive a permutation followed by taking a prefix. */
  lemma TrueCountsOfPrefixOfPermutation(logs: seq<LogEntry>, es: seq<Entry>, ranked: seq<Entry>, n: nat)
    requires TrueCounts(logs, es) && multiset(ranked) == multiset(es)
    ensures TrueCounts(logs, Limit(ranked, n))
  {
    var top := Limit(ranked, n);
    forall i | 0 <= i < |top| ensures top[i].0 in IpSet(logs) && top[i].1 == IpCount(logs, top[i].0) {
      assert top[i] == ranked[i];
      assert ranked[i] in multiset(es);
      var k :| 0 <= k < |es| && es[k] == ranked[i];
    }
  }

  /** Keeping a prefix of a sorted permutation of all addresses leaves out none with a higher count. */
  lemma KeepsTopOfSortedPrefix(logs: seq<LogEntry>, es: seq<Entry>, ranked: seq<Entry>, n: nat)
    requires forall ip | ip in IpSet(logs) :: (ip, IpCount(logs, ip)) in es
    requires multiset(ranked) == multiset(es) && SortedByCountDesc(ranked)
    ensures KeepsTop(logs, Limit(ranked, n))
  {
    var top := Limit(ranked, n);
    forall ip | ip in IpSet(logs) && ip !in Keys(top) && |top| > 0
      ensures IpCount(logs, ip) <= top[|top| - 1].1
    {
      var p := (ip, IpCount(logs, ip));
      assert p in multiset(ranked);
      var j :| 0 <= j < |ranked| && ranked[j] == p;
      assert ranked[|top| - 1] == top[|top| - 1];
    }
  }

  /** Sorting the histogram's entries by count and keeping `n` of them gives a top-`n` ranking. */
  lemma TopNCorrect(logs: seq<LogEntry>, n: nat, order: seq<string>)
    requires IsEnumeration(order, IpSet(logs))
    ensures IsTopN(logs, n, Limit(SortByCountDesc(EntriesInOrder(GroupByIp(logs), order)), n))
  {
    var es := EntriesInOrder(GroupByIp(logs), order);
    var ranked := SortByCountDesc(es);
    EnumerationCard(order, IpSet(logs));
    EntriesInOrderTrue(logs, order);
    SortDistinct(es);
    TrueCountsOfPrefixOfPermutation(logs, es, ranked, n);
    KeepsTopOfSortedPrefix(logs, es, ranked, n);
  }

  /**
   * Two top-`n` rankings of the same log agree on the count at every
   * position: only the order of addresses with equal counts can differ.
   */
  lemma TopNCountsDetermined(logs: seq<LogEntry>, n: nat, r1: seq<Entry>, r2: seq<Entry>)
    requires IsTopN(logs, n, r1) && IsTopN(logs, n, r2)
    ensures |r1| == |r2|
    ensures forall i | 0 <= i < |r1| :: r1[i].1 == r2[i].1
  {
    forall i | 0 <= i < |r1| ensures r1[i].1 == r2[i].1 {
      CountNotAbove(logs, n, r1, r2, i);
      CountNotAbove(logs, n, r2, r1, i);
    }
  }

  /**
   * An address with more requests than position `i` of the ranking `r2` must
   * sit ahead of position `i` in `r2`.
   */
  lemma AddressAhead(logs: seq<LogEntry>, r2: seq<Entry>, i: nat, ip: string)
    requires TrueCounts(logs, r2) && SortedByCountDesc(r2) && KeepsTop(logs, r2)
    requires i < |r2| && ip in IpSet(logs) && IpCount(logs, ip) > r2[i].1
    ensures ip in Keys(r2[..i])
  {
    if ip in Keys(r2) {
      var q :| q in r2 && q.0 == ip;
      var k :| 0 <= k < |r2| && r2[k] == q;
      assert r2[..i][k] == q;
    }
  }

  /**
   * If position `i` of `r1` holds more requests than position `i` of `r2`,
   * then every address in `r1[..i + 1]` lies in `r2[..i]`.
   */
  lemma HigherAddressesAhead(logs: seq<LogEntry>, r1: seq<Entry>, r2: seq<Entry>, i: nat)
    requires TrueCounts(logs, r1) && SortedByCountDesc(r1)
    requires TrueCounts(logs, r2) && SortedByCountDesc(r2) && KeepsTop(logs, r2)
    requires i < |r1| && i < |r2| && r1[i].1 > r2[i].1
    ensures Keys(r1[..i + 1]) <= Keys(r2[..i])
  {
    forall ip | ip in Keys(r1[..i + 1]) ensures ip in Keys(r2[..i]) {
      PrefixAddress(logs, r1, i, ip);
      AddressAhead(logs, r2, i, ip);
    }
  }

  /** An address among the first `i + 1` entries of a ranking has at least the count at position `i`. */
  lemma PrefixAddress(logs: seq<LogEntry>, r: seq<Entry>, i: nat, ip: string)
    requires TrueCounts(logs, r) && SortedByCountDesc(r)
    requires i < |r| && ip in Keys(r[..i + 1])
    ensures ip in IpSet(logs) && IpCount(logs, ip) >= r[i].1
  {
    var p :| p in r[..i + 1] && p.0 == ip;
    var j :| 0 <= j <= i && r[j] == p;
  }

  /** The `i`-th count of one top-`n` ranking is at most the `i`-th count of any other. */
  lemma CountNotAbove(logs: seq<LogEntry>, n: nat, r1: seq<Entry>, r2: seq<Entry>, i: nat)
    requires IsTopN(logs, n, r1) && IsTopN(logs, n, r2) && i < |r1|
    ensures r1[i].1 <= r2[i].1
  {
    if r1[i].1 > r2[i].1 {
      // i + 1 distinct addresses cannot fit into the i entries ahead of position i.
      HigherAddressesAhead(logs, r1, r2, i);
      assert DistinctKeys(r1[..i + 1]);
      KeysCard(r1[..i + 1]);
      KeysCard(r2[..i]);
      SubsetCard(Keys(r1[..i + 1]), Keys(r2[..i]));
      assert false;
    }
  }

  /** When `n` reaches the number of addresses, the ranking holds every address of the log. */
  lemma TopNAllWhenLarge(logs: seq<LogEntry>, n: nat, r: seq<Entry>)
    requires IsTopN(logs, n, r) && n >= |IpSet(logs)|
    ensures Keys(r) == IpSet(logs)
  {
    assert Keys(r) <= IpSet(logs) by {
      forall ip | ip in Keys(r) ensures ip in IpSet(logs) {
        var p :| p in r && p.0 == ip;
        var k :| 0 <= k < |r| && r[k] == p;
      }
    }
    KeysCard(r);
    var missing := IpSet(logs) - Keys(r);
    assert IpSet(logs) == Keys(r) + missing;
    assert Keys(r) * missing == {};
  }

  /** Whatever the iteration order, the count at each position of the result is the same. */
  lemma FindTopNIpsOrderFree(logs: seq<LogEntry>, topN: int, order1: seq<string>, order2: seq<string>)
    requires IsEnumeration(order1, IpSet(logs)) && IsEnumeration(order2, IpSet(logs))
    ensures FindTopNIps(logs, topN, order1).Success? == FindTopNIps(logs, topN, order2).Success?
    ensures topN >= 0 ==>
      var r1, r2 := FindTopNIps(logs, topN, order1).value, FindTopNIps(logs, topN, order2).value;
      |r1| == |r2| && forall i | 0 <= i < |r1| :: r1[i].1 == r2[i].1
  {
    if topN >= 0 {
      TopNCountsDetermined(logs, topN, FindTopNIps(logs, topN, order1).value, FindTopNIps(logs, topN, order2).value);
    }
  }

  /** Every log has an iteration order for its addresses, so `FindTopNIps` can always be called. */
  lemma EnumerationExists(logs: seq<LogEntry>)
    ensures IsEnumeration(FirstSeen(Ips(logs)), IpSet(logs))
  {
    IpsCoverIpSet(logs);
  }

  // ---------------------------------------------------------------------
  // countStatusCodes

  /**
   * `countStatusCodes()`: its keys are exactly the status codes occurring in
   * the log, each mapped to the number of entries with that code.
   */
  function CountStatusCodes(logs: seq<LogEntry>): (m: map<int, nat>)
    ensures m.Keys == CodeSet(logs)
    ensures forall c | c in m :: m[c] == CodeCount(logs, c) >= 1
  {
    CodesCoverCodeSet(logs);
    Tally(Codes(logs))
  }

  /** The histogram's counts add up to the number of entries. */
  lemma CountStatusCodesTotal(logs: seq<LogEntry>)
    ensures Total(CountStatusCodes(logs)) == |logs|
  {
    TallyTotal(Codes(logs));
  }

  // ---------------------------------------------------------------------
  // filterByUserAgent

  /**
   * `filterByUserAgent(needle)`: the number of entries whose user agent
   * contains `needle` (case-sensitive, contiguous).
   */
  function FilterByUserAgent(logs: seq<LogEntry>, needle: string): (n: nat)
    ensures n <= |logs|
    ensures n == |logs| <==> forall i | 0 <= i < |logs| :: Contains(logs[i].userAgent, needle)
    ensures n == 0 <==> forall i | 0 <= i < |logs| :: !Contains(logs[i].userAgent, needle)
  {
    if logs == [] then 0
    else
      (if StringContains(logs[0].userAgent, needle) then 1 else 0) + FilterByUserAgent(logs[1..], needle)
  }

  /** The count is additive over concatenation: each entry is judged on its own. */
  lemma {:induction false} FilterByUserAgentAppend(a: seq<LogEntry>, b: seq<LogEntry>, needle: string)
    ensures FilterByUserAgent(a + b, needle) == FilterByUserAgent(a, needle) + FilterByUserAgent(b, needle)
  {
    if a != [] {
      assert (a + b)[0] == a[0];
      assert (a + b)[1..] == a[1..] + b;
      FilterByUserAgentAppend(a[1..], b, needle);
    } else {
      assert a + b == b;
    }
  }

  /** A single entry counts exactly when its user agent contains the needle. */
  lemma FilterByUserAgentSingle(e: LogEntry, needle: string)
    ensures FilterByUserAgent([e], needle) == if Contains(e.userAgent, needle) then 1 else 0
  {
    assert [e][1..] == [];
  }

  /** The empty needle matches every entry. */
  /** The indices of the entries whose user agent contains `needle`. */
  ghost function MatchingIndices(logs: seq<LogEntry>, needle: string): set<nat>
  {
    set i: nat | i < |logs| && Contains(logs[i].userAgent, needle)
  }

  /** The count is the number of entries whose user agent contains `needle`. */
  lemma {:induction false} FilterByUserAgentCountsMatches(logs: seq<LogEntry>, needle: string)
    ensures FilterByUserAgent(logs, needle) == |MatchingIndices(logs, needle)|
  {
    if logs != [] {
      var n := |logs| - 1;
      var init, last := logs[..n], logs[n];
      assert logs == init + [last];
      FilterByUserAgentCountsMatches(init, needle);
      FilterByUserAgentAppend(init, [last], needle);
      FilterByUserAgentSingle(last, needle);
      var rest := if Contains(last.userAgent, needle) then {n} else {};
      assert MatchingIndices(logs, needle) == MatchingIndices(init, needle) + rest;
      assert MatchingIndices(init, needle) * rest == {};
    }
  }

  lemma FilterByUserAgentEmptyNeedle(logs: seq<LogEntry>)
    ensures FilterByUserAgent(logs, "") == |logs|
  {
    forall i | 0 <= i < |logs| ensures Contains(logs[i].userAgent, "") {
      assert OccursAt(logs[i].userAgent, "", 0);
    }
  }
}
