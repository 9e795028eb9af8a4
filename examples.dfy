/**
 * The analyzer on a three-line sample access log: two
 * requests from 192.168.1.1 (status 200 with Mozilla, 404 with curl) and one
 * from 10.0.0.5 (status 200 with Mozilla).
 */
module AnalyzerScenario {
  import opened LogEntries
  import opened Grouping
  import opened Strings
  import opened Ranking
  import opened Analyzer

  function SampleLog(): seq<LogEntry>
  {
    [ LogEntry("192.168.1.1", 200, "Mozilla/5.0"),
      LogEntry("192.168.1.1", 404, "curl/7.0"),
      LogEntry("10.0.0.5", 200, "Mozilla/5.0") ]
  }

  /** The status histogram of the sample log is {200: 2, 404: 1}. */
  lemma SampleStatusCodes()
    ensures CountStatusCodes(SampleLog()) == map[200 := 2, 404 := 1]
  {
    var logs := SampleLog();
    assert Codes(logs) == [200, 404, 200];
    assert CodeSet(logs) == {200, 404} by {
      assert logs[0] in logs && logs[1] in logs;
    }
    OccurrencesIsMultiplicity(Codes(logs), 200);
    OccurrencesIsMultiplicity(Codes(logs), 404);
  }

  /** Two of the sample log's user agents contain "Mozilla". */
  lemma SampleUserAgentFilter()
    ensures FilterByUserAgent(SampleLog(), "Mozilla") == 2
  {
    var logs := SampleLog();
    assert logs == [logs[0]] + [logs[1]] + [logs[2]];
    FilterByUserAgentAppend([logs[0]] + [logs[1]], [logs[2]], "Mozilla");
    FilterByUserAgentAppend([logs[0]], [logs[1]], "Mozilla");
    FilterByUserAgentSingle(logs[0], "Mozilla");
    FilterByUserAgentSingle(logs[1], "Mozilla");
    FilterByUserAgentSingle(logs[2], "Mozilla");
    assert OccursAt("Mozilla/5.0", "Mozilla", 0);
    CurlIsNotMozilla();
  }

  /** The search is case-sensitive and contiguous: "curl/7.0" does not contain "Mozilla". */
  lemma CurlIsNotMozilla()
    ensures !Contains("curl/7.0", "Mozilla")
  {
    forall i: nat ensures !OccursAt("curl/7.0", "Mozilla", i) {
      if i <= 1 {
        assert "curl/7.0"[i..i + 7][0] != 'M';
      }
    }
  }

  /** The sample log's addresses and their request counts. */
  lemma SampleIpCounts()
    ensures IpSet(SampleLog()) == {"192.168.1.1", "10.0.0.5"}
    ensures IpCount(SampleLog(), "192.168.1.1") == 2 && IpCount(SampleLog(), "10.0.0.5") == 1
  {
    var logs := SampleLog();
    assert Ips(logs) == ["192.168.1.1", "192.168.1.1", "10.0.0.5"];
    assert logs[0] in logs && logs[2] in logs;
    OccurrencesIsMultiplicity(Ips(logs), "192.168.1.1");
    OccurrencesIsMultiplicity(Ips(logs), "10.0.0.5");
  }

  /** The sample log has no count tie, so its top-two ranking is unique. */
  lemma SampleTopTwoRanking(r: seq<Entry>)
    requires IsTopN(SampleLog(), 2, r)
    ensures r == [("192.168.1.1", 2), ("10.0.0.5", 1)]
  {
    SampleIpCounts();
    assert |r| == 2;
    assert r[0].0 != r[1].0 && r[0].1 >= r[1].1;
    assert r[0].0 in IpSet(SampleLog()) && r[1].0 in IpSet(SampleLog());
    assert r[0].0 == "192.168.1.1";
  }

  /** The top two addresses of the sample log, whatever the grouping map's iteration order. */
  lemma SampleTopTwo(order: seq<string>)
    requires IsEnumeration(order, IpSet(SampleLog()))
    ensures FindTopNIps(SampleLog(), 2, order) == Success([("192.168.1.1", 2), ("10.0.0.5", 1)])
  {
    SampleTopTwoRanking(FindTopNIps(SampleLog(), 2, order).value);
  }
}
