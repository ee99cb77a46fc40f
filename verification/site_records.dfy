/** The plain data carried between the pinger, the handler and the log
    store: one probe result (`PingResponse`), the handler's classification of
    it (`PingHandlerResponse`), and a row of the log table as read back by a
    query (`SiteRecord`). */
module SiteRecords {
  import opened JavaSemantics

  /** Status numbers of the log table. */
  const STATUS_UNREACHABLE: int := 1
  const STATUS_REACHABLE_AGAIN: int := 2
  const STATUS_LATENCY_SLOW: int := 3

  /** The latency of a ping whose latency is unknown. */
  const UNKNOWN_LATENCY: real := -1.0

  datatype PingResponse = PingResponse(reachable: bool, ip: string, latency: real, pingTime: Time)

  datatype PingHandlerResponse = NoProblems | SiteUnreachable | SiteReachableAgain | SiteLatencySlow

  datatype SiteRecord = SiteRecord(siteName: string, statusNum: int, pingTime: Time, latency: real)

  /** The row a log insert produces when it is read back: an unknown latency
      is stored as SQL `NULL`, which `ResultSet.getFloat` returns as 0. */
  function StoredRecord(siteName: string, statusNum: int, pingTime: Time, latency: real): (r: SiteRecord)
    ensures r.siteName == siteName && r.statusNum == statusNum && r.pingTime == pingTime
    ensures latency != UNKNOWN_LATENCY ==> r.latency == latency
    ensures latency == UNKNOWN_LATENCY ==> r.latency == 0.0
  {
    SiteRecord(siteName, statusNum, pingTime, if latency == UNKNOWN_LATENCY then 0.0 else latency)
  }

  /** The rows `selectReportLog(siteName, start, end)` asks for. */
  predicate InReportWindow(x: SiteRecord, siteName: string, start: Time, end: Time) {
    x.siteName == siteName && start <= x.pingTime < end
  }

  /** The rows `selectEmergencyReportLog(start, end)` asks for. */
  predicate InEmergencyWindow(x: SiteRecord, start: Time, end: Time) {
    start <= x.pingTime <= end
  }

  /** `selectReportLog(siteName, start, end)`: the rows of one site with
      `start <= pingTime < end`, in log order. */
  function SelectReportLog(log: seq<SiteRecord>, siteName: string, start: Time, end: Time): (r: seq<SiteRecord>)
    ensures forall k :: 0 <= k < |r| ==> r[k] in log
    ensures forall k :: 0 <= k < |r| ==> r[k].siteName == siteName && start <= r[k].pingTime < end
    ensures forall x :: x in log && x.siteName == siteName && start <= x.pingTime < end ==> x in r
    decreases |log|
  {
    if |log| == 0 then []
    else
      var rest := SelectReportLog(log[1..], siteName, start, end);
      if InReportWindow(log[0], siteName, start, end) then [log[0]] + rest else rest
  }

  /** Each row of the window is returned as often as it is in the log. */
  lemma {:induction false} SelectReportLogCounts(log: seq<SiteRecord>, siteName: string, start: Time, end: Time)
    ensures forall x :: multiset(SelectReportLog(log, siteName, start, end))[x] ==
                          if InReportWindow(x, siteName, start, end) then multiset(log)[x] else 0
    decreases |log|
  {
    if |log| > 0 {
      SelectReportLogCounts(log[1..], siteName, start, end);
      assert log == [log[0]] + log[1..];
    }
  }

  /** The query result of a log written in two parts is the two parts'
      results one after the other: rows keep their log order. */
  lemma {:induction false} SelectReportLogAppend(a: seq<SiteRecord>, b: seq<SiteRecord>, siteName: string, start: Time, end: Time)
    ensures SelectReportLog(a + b, siteName, start, end) == SelectReportLog(a, siteName, start, end) + SelectReportLog(b, siteName, start, end)
    decreases |a|
  {
    if |a| == 0 {
      assert a + b == b;
    } else {
      assert (a + b)[1..] == a[1..] + b;
      SelectReportLogAppend(a[1..], b, siteName, start, end);
    }
  }

  /** `selectEmergencyReportLog(start, end)`: the rows of every site with
      `start <= pingTime <= end`, in log order. */
  function SelectEmergencyReportLog(log: seq<SiteRecord>, start: Time, end: Time): (r: seq<SiteRecord>)
    ensures forall k :: 0 <= k < |r| ==> r[k] in log && start <= r[k].pingTime <= end
    ensures forall x :: x in log && start <= x.pingTime <= end ==> x in r
    decreases |log|
  {
    if |log| == 0 then []
    else
      var rest := SelectEmergencyReportLog(log[1..], start, end);
      if InEmergencyWindow(log[0], start, end) then [log[0]] + rest else rest
  }

  lemma {:induction false} SelectEmergencyReportLogCounts(log: seq<SiteRecord>, start: Time, end: Time)
    ensures forall x :: multiset(SelectEmergencyReportLog(log, start, end))[x] ==
                          if InEmergencyWindow(x, start, end) then multiset(log)[x] else 0
    decreases |log|
  {
    if |log| > 0 {
      SelectEmergencyReportLogCounts(log[1..], start, end);
      assert log == [log[0]] + log[1..];
    }
  }

  lemma {:induction false} SelectEmergencyReportLogAppend(a: seq<SiteRecord>, b: seq<SiteRecord>, start: Time, end: Time)
    ensures SelectEmergencyReportLog(a + b, start, end) == SelectEmergencyReportLog(a, start, end) + SelectEmergencyReportLog(b, start, end)
    decreases |a|
  {
    if |a| == 0 {
      assert a + b == b;
    } else {
      assert (a + b)[1..] == a[1..] + b;
      SelectEmergencyReportLogAppend(a[1..], b, start, end);
    }
  }
}
