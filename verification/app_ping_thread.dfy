/** The packaged `org.connectionmonitor.app.PingThread`: it dispatches a
    handler classification to log inserts and counter updates, and it keeps
    its own latency buffer, stamping recalculations with the rounded hour.
    `PingHandler.handlePing(PingResponse)`, which produces the
    classification, belongs to a snapshot of `PingHandler` that is not part
    of this model, so the classification is an input here. */
module AppPingThread {
  import opened JavaSemantics
  import opened MoreMath
  import opened SiteRecords
  import opened CheckNeedEmail
  import opened LatencyBaseline
  import opened EmailReports

  const HOURS_FOR_UPDATE: int := 5
  const SAMPLE_SIZE: int := 4000

  /** The status number a classification is logged with; `NO_PROBLEMS` logs
      nothing. */
  function StatusFor(hr: PingHandlerResponse): Option<int> {
    match hr
    case NoProblems => None
    case SiteUnreachable => Some(STATUS_UNREACHABLE)
    case SiteReachableAgain => Some(STATUS_REACHABLE_AGAIN)
    case SiteLatencySlow => Some(STATUS_LATENCY_SLOW)
  }

  datatype Dispatched = Dispatched(reports: ReportHandler, log: seq<SiteRecord>, emergencyWindow: Option<CheckNeedEmailResponse>)

  /** `handleResponse`: increment then insert status 1; insert status 2 then
      decrement, building the emergency message from the decrement's window
      when it says to send; insert status 3; nothing for `NO_PROBLEMS`. */
  function HandleResponse(h: ReportHandler, log: seq<SiteRecord>, siteName: string,
                          resp: PingResponse, hr: PingHandlerResponse): (r: Dispatched)
    requires WellFormed(h)
    ensures WellFormed(r.reports)
    ensures StatusFor(hr).None? ==> r.log == log
    ensures StatusFor(hr).Some? ==>
              r.log == log + [StoredRecord(siteName, StatusFor(hr).value, resp.pingTime, resp.latency)]
    ensures r.reports.numEmergencyReportSites ==
              h.numEmergencyReportSites + (match hr
                                           case SiteUnreachable => 1
                                           case SiteReachableAgain => -1
                                           case _ => 0)
    ensures hr != SiteUnreachable && hr != SiteReachableAgain ==> r.reports == h
    ensures r.emergencyWindow.Some? <==> hr == SiteReachableAgain && h.numEmergencyReportSites == 1
    ensures r.emergencyWindow.Some? ==> r.emergencyWindow.value.ShouldSend()
    ensures r.emergencyWindow.Some? ==>
              r.emergencyWindow.value.StartDateQuery() == h.startEmergency &&
              r.emergencyWindow.value.EndDateQuery() == Some(resp.pingTime + REPORT_SLACK)
  {
    var at := resp.pingTime;
    match hr
    case SiteUnreachable =>
      var h1 := IncrementNumEmergencyReportSites(h, at);
      Dispatched(h1, log + [StoredRecord(siteName, STATUS_UNREACHABLE, at, resp.latency)], None)
    case SiteReachableAgain =>
      var log1 := log + [StoredRecord(siteName, STATUS_REACHABLE_AGAIN, at, resp.latency)];
      var needEmail := DecrementNumEmergencyReportSites(h, at);
      Dispatched(needEmail.handler, log1, if needEmail.response.ShouldSend() then Some(needEmail.response) else None)
    case SiteLatencySlow =>
      Dispatched(h, log + [StoredRecord(siteName, STATUS_LATENCY_SLOW, at, resp.latency)], None)
    case NoProblems =>
      Dispatched(h, log, None)
  }

  /** A sequence of classified responses, possibly from several sites. */
  datatype Classified = Classified(siteName: string, resp: PingResponse, hr: PingHandlerResponse)

  function Balance(cs: seq<Classified>): int
    decreases |cs|
  {
    if |cs| == 0 then 0
    else (match cs[0].hr
          case SiteUnreachable => 1
          case SiteReachableAgain => -1
          case _ => 0) + Balance(cs[1..])
  }

  function Recoveries(cs: seq<Classified>): nat
    decreases |cs|
  {
    if |cs| == 0 then 0
    else (if cs[0].hr == SiteReachableAgain then 1 else 0) + Recoveries(cs[1..])
  }

  /** Is `w` the window a recovery response among `cs` would close? */
  predicate ClosedByRecovery(cs: seq<Classified>, w: CheckNeedEmailResponse) {
    exists j :: 0 <= j < |cs| && cs[j].hr == SiteReachableAgain && w.EndDateQuery() == Some(cs[j].resp.pingTime + REPORT_SLACK)
  }

  /** `handleResponse` over a sequence of responses, with the emergency
      windows whose messages it sends: each is due, ends 5 seconds after the
      recovery that closed it, and there is at most one per recovery. */
  function DispatchAll(h: ReportHandler, log: seq<SiteRecord>, cs: seq<Classified>): (r: (Dispatched, seq<CheckNeedEmailResponse>))
    requires WellFormed(h)
    ensures WellFormed(r.0.reports)
    ensures |r.1| <= Recoveries(cs)
    ensures forall k :: 0 <= k < |r.1| ==> r.1[k].ShouldSend() && ClosedByRecovery(cs, r.1[k])
    decreases |cs|
  {
    if |cs| == 0 then (Dispatched(h, log, None), [])
    else
      var d := HandleResponse(h, log, cs[0].siteName, cs[0].resp, cs[0].hr);
      var rest := DispatchAll(d.reports, d.log, cs[1..]);
      assert forall k :: 0 <= k < |rest.1| ==> ClosedByRecovery(cs[1..], rest.1[k]) ==> ClosedByRecovery(cs, rest.1[k]) by {
        forall k | 0 <= k < |rest.1| && ClosedByRecovery(cs[1..], rest.1[k])
          ensures ClosedByRecovery(cs, rest.1[k])
        {
          var j :| 0 <= j < |cs[1..]| && cs[1..][j].hr == SiteReachableAgain &&
                   rest.1[k].EndDateQuery() == Some(cs[1..][j].resp.pingTime + REPORT_SLACK);
          assert cs[j + 1] == cs[1..][j];
        }
      }
      var mine := if d.emergencyWindow.Some? then [d.emergencyWindow.value] else [];
      assert forall k :: 0 <= k < |mine| ==> ClosedByRecovery(cs, mine[k]) by {
        if d.emergencyWindow.Some? {
          assert cs[0].hr == SiteReachableAgain;
        }
      }
      (rest.0, mine + rest.1)
  }

  /** Only the two outage classifications move the counter: after any
      sequence of dispatches it has changed by the number of
      `SITE_UNREACHABLE` minus the number of `SITE_REACHABLE_AGAIN`
      responses, and every non-problem response leaves the log alone. */
  lemma {:induction false} DispatchCounts(h: ReportHandler, log: seq<SiteRecord>, cs: seq<Classified>)
    requires WellFormed(h)
    ensures DispatchAll(h, log, cs).0.reports.numEmergencyReportSites == h.numEmergencyReportSites + Balance(cs)
    ensures (forall k :: 0 <= k < |cs| ==> cs[k].hr == NoProblems) ==> DispatchAll(h, log, cs).0.log == log
    decreases |cs|
  {
    if |cs| > 0 {
      var d := HandleResponse(h, log, cs[0].siteName, cs[0].resp, cs[0].hr);
      DispatchCounts(d.reports, d.log, cs[1..]);
    }
  }

  /** `checkNeedPingSiteUpdate`: the hour of the cycle since the last
      recalculation is at least 5. */
  function CheckNeedPingSiteUpdate(now: Time, lastRecalculated: Time): (need: bool)
    ensures need <==> HourOfCycle(now, lastRecalculated) >= HOURS_FOR_UPDATE
    ensures 0 <= now - lastRecalculated < HOURS_FOR_UPDATE * MS_PER_HOUR ==> !need
  {
    if 0 <= now - lastRecalculated < HOURS_FOR_UPDATE * MS_PER_HOUR then
      UpdateWindowSchedule(HOURS_FOR_UPDATE, now, lastRecalculated);
      InUpdateWindow(HOURS_FOR_UPDATE, now, lastRecalculated)
    else
      InUpdateWindow(HOURS_FOR_UPDATE, now, lastRecalculated)
  }

  /** `handlePingSiteUpdate`: add the sample; at 4000 samples recalibrate
      the site from the whole buffer, stamp `roundToHour(now)` and clear the
      buffer. */
  function HandlePingSiteUpdate(sqrt: real -> real, s: Sampler, latency: real, now: Time, roundToHour: Time -> Time): (r: Sampler)
    requires |s.latencyValues| < SAMPLE_SIZE
    ensures |r.latencyValues| < SAMPLE_SIZE
    ensures r.site.name == s.site.name && r.site.address == s.site.address
    ensures |s.latencyValues| + 1 < SAMPLE_SIZE ==> r == s.(latencyValues := s.latencyValues + [latency])
    ensures |s.latencyValues| + 1 == SAMPLE_SIZE ==>
              r.latencyValues == [] && r.lastRecalculated == roundToHour(now) &&
              r.site.avgLatency == Mean(s.latencyValues + [latency]) &&
              r.site.latencyStdDeviation == StdDev(s.latencyValues + [latency], sqrt)
  {
    AddSample(SAMPLE_SIZE, sqrt, s, latency, roundToHour(now))
  }

  datatype ThreadState = ThreadState(sampler: Sampler, reports: ReportHandler, log: seq<SiteRecord>)

  /** One iteration of `run`: dispatch the response, then update the
      baseline only for a reachable ping in the update window. */
  function Iteration(sqrt: real -> real, roundToHour: Time -> Time, st: ThreadState,
                     resp: PingResponse, hr: PingHandlerResponse, now: Time): (r: (ThreadState, Option<CheckNeedEmailResponse>))
    requires WellFormed(st.reports) && |st.sampler.latencyValues| < SAMPLE_SIZE
    ensures WellFormed(r.0.reports) && |r.0.sampler.latencyValues| < SAMPLE_SIZE
    ensures r.0.reports == HandleResponse(st.reports, st.log, st.sampler.site.name, resp, hr).reports
    ensures r.1 == HandleResponse(st.reports, st.log, st.sampler.site.name, resp, hr).emergencyWindow
    ensures !(resp.reachable && CheckNeedPingSiteUpdate(now, st.sampler.lastRecalculated)) ==> r.0.sampler == st.sampler
    ensures resp.reachable && CheckNeedPingSiteUpdate(now, st.sampler.lastRecalculated) ==>
              r.0.sampler == HandlePingSiteUpdate(sqrt, st.sampler, resp.latency, now, roundToHour)
  {
    var d := HandleResponse(st.reports, st.log, st.sampler.site.name, resp, hr);
    var sampler :=
      if resp.reachable && CheckNeedPingSiteUpdate(now, st.sampler.lastRecalculated)
      then HandlePingSiteUpdate(sqrt, st.sampler, resp.latency, now, roundToHour)
      else st.sampler;
    (ThreadState(sampler, d.reports, d.log), d.emergencyWindow)
  }
}
