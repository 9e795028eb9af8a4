# Log analyzer core, modelled in Dafny

This project models `LogAnalyzer`, the aggregation core of a small access-log
analyzer written in Java. The analyzer is built once over a fixed list of parsed
log entries. It answers three read-only queries:

- `findTopNIps(topN)` groups the entries by client address and counts each group.
  It sorts the groups by count, highest first, and keeps at most `topN` of them in
  an insertion-ordered map.
- `countStatusCodes()` builds a histogram from status code to number of entries.
- `filterByUserAgent(needle)` counts the entries whose user agent contains `needle`
  (case-sensitive, contiguous).

The analyzer's only field is the `final` list it was constructed with. So every
query here is a pure function that takes that list (`seq<LogEntry>`) as its first
argument. Dafny functions cannot change state, so the list is never modified and
repeated calls give equal results.

Files and modules:

- `log_entry.dfy` (`LogEntries`): the `LogEntry` record, with the three fields the
  analyzer reads (address, status code, user agent).
- `grouping.dfy` (`Grouping`): `groupingBy(key, counting())` as `Tally` over a
  sequence of keys. Its reference count is `Occurrences`, which is proved equal to
  multiset multiplicity. The counts are proved to add up to the input length.
- `strings.dfy` (`Strings`): `String.contains` as `indexOf(needle, 0) >= 0`. It is
  proved equal to the reference predicate `Contains` (some index where `needle`
  occurs).
- `ranking.dfy` (`Ranking`): the `sorted(comparingByValue().reversed())` and
  `limit` stages. Sorting is a stable insertion sort by descending count. It is
  proved sorted, a permutation, and to keep addresses distinct.
- `analyzer.dfy` (`Analyzer`): the three queries, the specification `IsTopN` of a
  top-N ranking, and the lemmas about them.
- `examples.dfy` (`AnalyzerScenario`): the three queries on a three-line sample log.

How the top-N ranking is specified. The grouping map is a `HashMap`, and Java
leaves its iteration order unspecified. That order decides how equal counts end
up ordered after the sort. The model makes this order an explicit parameter,
`order`, which may be any duplicate-free enumeration of the log's addresses.
`FindTopNIps` is proved to meet `IsTopN` for every such order. `IsTopN` requires:

- exactly `min(n, #addresses)` entries;
- distinct addresses, each from the log, each with its true request count;
- counts that never increase from left to right;
- no address left out that has more requests than the last one kept.

`TopNCountsDetermined` proves that two results meeting `IsTopN` have the same
count at every position. So only the order of tied addresses is left free, and
the model commits to no tie-break rule: the code sorts by count only.

A negative `topN` makes `Stream.limit` throw `IllegalArgumentException`. The
model returns `Failure(IllegalArgument)` for it.

Line 40 passes `Collectors.LinkedHashMap::new` as the map supplier. No such
member exists in `Collectors`. The model reads it as the evidently intended
`LinkedHashMap::new`, an insertion-ordered map, and returns a sequence of
(address, count) pairs. The `toMap` merge function `(e1, e2) -> e1` never runs,
because the sorted entries already have distinct keys.

## Model

| member | source | states |
|---|---|---|
| `Grouping.Tally` | src/main/java/com/app/analyzer/LogAnalyzer.java:31 | the histogram's keys are exactly the values occurring in the input; each key maps to its number of occurrences |
| `Grouping.OccurrencesIsMultiplicity` | src/main/java/com/app/analyzer/LogAnalyzer.java:31 | the reference count of a key equals its multiplicity in the multiset of the input |
| `Grouping.TallyTotal` | src/main/java/com/app/analyzer/LogAnalyzer.java:31 | the histogram's counts add up to the number of input elements |
| `Analyzer.GroupByIp` | src/main/java/com/app/analyzer/LogAnalyzer.java:31 | the keys are exactly the log's addresses; each maps to its number of entries, which is at least 1 |
| `Analyzer.GroupByIpTotal` | src/main/java/com/app/analyzer/LogAnalyzer.java:31 | the per-address counts add up to the number of entries |
| `Ranking.Insert` | src/main/java/com/app/analyzer/LogAnalyzer.java:34 | inserting into a list sorted by descending count keeps it sorted, and the result is the old list plus the new entry as a multiset |
| `Ranking.SortByCountDesc` | src/main/java/com/app/analyzer/LogAnalyzer.java:34 | the result is sorted by descending count and is a permutation of the input |
| `Ranking.SortDistinct` | src/main/java/com/app/analyzer/LogAnalyzer.java:34 | sorting keeps the addresses pairwise distinct |
| `Ranking.Limit` | src/main/java/com/app/analyzer/LogAnalyzer.java:36 | the result is the first `min(n, length)` elements of the input |
| `Analyzer.FindTopNIps` | src/main/java/com/app/analyzer/LogAnalyzer.java:28-41 | fails exactly when `topN < 0`; otherwise gives a top-`topN` ranking (`IsTopN`) with every count at least 1; `topN = 0` gives the empty ranking |
| `Analyzer.EntriesInOrderTrue` | src/main/java/com/app/analyzer/LogAnalyzer.java:33 | the histogram's entries streamed in any enumeration order have distinct addresses and true counts, and include every address of the log with its count |
| `Analyzer.TopNCorrect` | src/main/java/com/app/analyzer/LogAnalyzer.java:30-40 | grouping, sorting by descending count and keeping `n` entries, for any iteration order, meets `IsTopN`: right size, distinct addresses with true counts, non-increasing, true top counts |
| `Analyzer.TopNCountsDetermined` | src/main/java/com/app/analyzer/LogAnalyzer.java:34-36 | any two top-`n` rankings of a log have the same length and the same count at every position |
| `Analyzer.CountNotAbove` | src/main/java/com/app/analyzer/LogAnalyzer.java:34-36 | the count at position `i` of one top-`n` ranking is at most the count at position `i` of any other |
| `Analyzer.TopNAllWhenLarge` | src/main/java/com/app/analyzer/LogAnalyzer.java:36 | when `n` is at least the number of distinct addresses, every address of the log appears in the ranking |
| `Analyzer.FindTopNIpsOrderFree` | src/main/java/com/app/analyzer/LogAnalyzer.java:31-36 | two iteration orders of the grouping map give the same success or failure and the same counts at every position |
| `Analyzer.EnumerationExists` | src/main/java/com/app/analyzer/LogAnalyzer.java:31-33 | every log has an iteration order for its addresses (first-seen order), so the top-N query can always be called |
| `Analyzer.CountStatusCodes` | src/main/java/com/app/analyzer/LogAnalyzer.java:47-50 | the keys are exactly the status codes occurring in the log; each maps to its number of entries, which is at least 1 |
| `Analyzer.CountStatusCodesTotal` | src/main/java/com/app/analyzer/LogAnalyzer.java:47-50 | the status-code counts add up to the number of entries |
| `Strings.IndexOf` | src/main/java/com/app/analyzer/LogAnalyzer.java:59 | returns -1 exactly when `needle` occurs at no position at or after `from`; otherwise returns the first such position |
| `Strings.StringContains` | src/main/java/com/app/analyzer/LogAnalyzer.java:59 | true exactly when `needle` is a contiguous piece of the string |
| `Analyzer.FilterByUserAgent` | src/main/java/com/app/analyzer/LogAnalyzer.java:57-61 | the count is at most the number of entries; it equals that number exactly when every user agent contains `needle`, and is 0 exactly when none does |
| `Analyzer.FilterByUserAgentCountsMatches` | src/main/java/com/app/analyzer/LogAnalyzer.java:57-61 | the count equals the number of indices of entries whose user agent contains `needle` |
| `Analyzer.FilterByUserAgentAppend` | src/main/java/com/app/analyzer/LogAnalyzer.java:58-60 | the count over two concatenated logs is the sum of their counts |
| `Analyzer.FilterByUserAgentSingle` | src/main/java/com/app/analyzer/LogAnalyzer.java:59 | one entry counts 1 when its user agent contains `needle` and 0 otherwise |
| `Analyzer.FilterByUserAgentEmptyNeedle` | src/main/java/com/app/analyzer/LogAnalyzer.java:59 | the empty needle matches every entry, so the count equals the number of entries |
| `AnalyzerScenario.SampleStatusCodes` | src/main/java/com/app/analyzer/LogAnalyzer.java:47-50 | on the sample log (codes 200, 404, 200) the histogram is {200: 2, 404: 1} |
| `AnalyzerScenario.SampleUserAgentFilter` | src/main/java/com/app/analyzer/LogAnalyzer.java:57-61 | on the sample log, two user agents contain "Mozilla" |
| `AnalyzerScenario.CurlIsNotMozilla` | src/main/java/com/app/analyzer/LogAnalyzer.java:59 | "curl/7.0" does not contain "Mozilla" |
| `AnalyzerScenario.SampleTopTwoRanking` | src/main/java/com/app/analyzer/LogAnalyzer.java:34-36 | the sample log has no count tie, so its only top-two ranking is [("192.168.1.1", 2), ("10.0.0.5", 1)] |
| `AnalyzerScenario.SampleTopTwo` | src/main/java/com/app/analyzer/LogAnalyzer.java:28-41 | for every iteration order, the top-two query on the sample log returns [("192.168.1.1", 2), ("10.0.0.5", 1)] |

## Left out

- `Main.java`: the entry point, the argument check, reading the log file, console output and error messages. This is I/O glue.
- `ConfigReader.java`: loads a properties file and wraps `getProperty` and `Integer.parseInt`. This is file I/O over library calls.
- `NginxLogParser`, `ReportGenerator` and the `LogEntry` class are not part of this model. Their sources are not available. `LogEntry` appears only as the three fields the analyzer reads.
- The `LogAnalyzer` constructor stores the caller's list by reference, without a copy. The model passes the list as a value, so aliasing is not modelled: the caller mutating the list after construction would change later query results.
- The `HashMap` iteration order of the grouping map is an input (`order`), not a computation. The model proves its results for every possible order.
- Whether `Stream.sorted` is stable on the entry stream is not modelled. The model's sort happens to be stable, but nothing proved depends on it.
- Java `long` counts and the `int` range of `topN` are unbounded integers here. Overflow cannot happen for lists that fit in memory.
- `null` is not modelled. In Java, a `null` needle, user agent or address throws `NullPointerException`; Dafny strings cannot be null.
- Java strings are sequences of UTF-16 code units. Here they are `seq<char>`, and a Dafny `char` is a Unicode scalar value: a supplementary character is one `char`, and a lone surrogate cannot be represented. On well-formed strings `contains` gives the same answer either way. There is no normalisation.
- `Strings.IndexOf`: models `indexOf` only for a start position inside the string. `contains` always searches from 0.
