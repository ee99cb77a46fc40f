/** The running monitor as one sequential system: one `PingHandler` state
    per site, the shared `EmailReportHandler`, and the log table. A step is
    one `handlePing` call of one site, with its `synchronized` calls into the
    report handler performed atomically in program order. Threads, the
    database and the mail server are replaced by this interleaving, the
    record list and the returned emails. */
module Monitor {
  import opened JavaSemantics
  import opened MoreDateFunctions
  import opened SiteRecords
  import opened CheckNeedEmail
  import opened OutageTracking
  import opened PingHandlers
  import opened EmailReports

  datatype System = System(sites: seq<SiteState>, reports: ReportHandler, log: seq<SiteRecord>)

  /** The number of sites whose emergency notification is outstanding. */
  function InEmergency(sites: seq<SiteState>): (n: nat)
    ensures n <= |sites|
    decreases |sites|
  {
    if |sites| == 0 then 0
    else Flag(sites[|sites| - 1].needEmergencyNotification) + InEmergency(sites[..|sites| - 1])
  }

  lemma {:induction false} InEmergencyUpdate(sites: seq<SiteState>, i: int, s: SiteState)
    requires 0 <= i < |sites|
    ensures InEmergency(sites[i := s]) ==
              InEmergency(sites) - Flag(sites[i].needEmergencyNotification) + Flag(s.needEmergencyNotification)
    decreases |sites|
  {
    var n := |sites| - 1;
    if i < n {
      InEmergencyUpdate(sites[..n], i, s);
      assert sites[i := s][..n] == sites[..n][i := s];
    } else {
      assert sites[i := s][..n] == sites[..n];
    }
  }

  /** The system invariant: every site state is consistent, and the shared
      counter is exactly the number of sites in emergency. */
  predicate Valid(sys: System) {
    && (forall i :: 0 <= i < |sys.sites| ==> Consistent(HANDLER_TUNING, sys.sites[i]))
    && WellFormed(sys.reports)
    && sys.reports.numEmergencyReportSites == InEmergency(sys.sites)
  }

  datatype Applied = Applied(reports: ReportHandler, log: seq<SiteRecord>, emails: seq<Email>)

  /** Perform a list of `handlePing` effects: inserts append a row to the
      log, counter updates go to the report handler, and a decrement that
      reaches 0 sends the emergency report over the log as it stands. */
  function ApplyEffects(h: ReportHandler, log: seq<SiteRecord>, effects: seq<Effect>): (r: Applied)
    requires WellFormed(h)
    ensures WellFormed(r.reports)
    ensures r.reports.numEmergencyReportSites == h.numEmergencyReportSites + CounterDelta(effects)
    ensures |r.log| == |log| + |Statuses(effects)| && r.log[..|log|] == log
    ensures r.reports.activePingSiteNames == h.activePingSiteNames
    ensures r.reports.lastRegularReport == h.lastRegularReport
    ensures DecrementFree(effects) ==> r.emails == []
    decreases |effects|
  {
    if |effects| == 0 then Applied(h, log, [])
    else
      match effects[0]
      case InsertLogEntry(name, status, at, ip, latency) =>
        var r := ApplyEffects(h, log + [StoredRecord(name, status, at, latency)], effects[1..]);
        assert r.log[..|log|] == (log + [StoredRecord(name, status, at, latency)])[..|log|];
        r
      case IncrementEmergency(t) =>
        ApplyEffects(IncrementNumEmergencyReportSites(h, t), log, effects[1..])
      case DecrementEmergency(t) =>
        var d := DecrementNumEmergencyReportSites(h, t);
        var sent :=
          if d.response.ShouldSend()
          then [SendEmergencyReport(d.handler, log, d.response.start, d.response.end)]
          else [];
        var r := ApplyEffects(d.handler, log, effects[1..]);
        Applied(r.reports, r.log, sent + r.emails)
  }

  /** The emails one `handlePing` call sends: the emergency report when it
      ends the last outstanding emergency, nothing otherwise. */
  lemma HandlePingEmails(h: ReportHandler, log: seq<SiteRecord>, sqrt: real -> real, s: SiteState, p: Ping)
    requires WellFormed(h) && OutageStartKnown(s)
    ensures var emails := ApplyEffects(h, log, HandlePing(sqrt, s, p).effects).emails;
            if p.reachable && s.wasSiteUnreachable && s.needEmergencyNotification && h.numEmergencyReportSites == 1
            then emails == [SendEmergencyReport(h, log + [StoredRecord(s.sampler.site.name, STATUS_REACHABLE_AGAIN, p.now, p.latency)],
                                                h.startEmergency.value, p.now + REPORT_SLACK)]
            else emails == []
  {
    var fx := HandlePing(sqrt, s, p).effects;
    if p.reachable && s.wasSiteUnreachable && s.needEmergencyNotification {
      HandlePingWhenRecovering(sqrt, s, p);
      RecoveryCase(h, log, fx, s, p);
    } else {
      NoRecoveryNoEmails(h, log, sqrt, s, p);
    }
  }

  /** Applying the effects of a recovery: the decrement sends the report
      exactly when it brings the counter to 0, over the log that already
      holds the status-2 row. */
  lemma RecoveryCase(h: ReportHandler, log: seq<SiteRecord>, fx: seq<Effect>, s: SiteState, p: Ping)
    requires WellFormed(h)
    requires |fx| >= 2 && fx[..2] == [InsertLogEntry(s.sampler.site.name, STATUS_REACHABLE_AGAIN, p.now, p.ip, p.latency),
                                      DecrementEmergency(p.now)]
    requires DecrementFree(fx[2..])
    ensures var emails := ApplyEffects(h, log, fx).emails;
            if h.numEmergencyReportSites == 1
            then emails == [SendEmergencyReport(h, log + [StoredRecord(s.sampler.site.name, STATUS_REACHABLE_AGAIN, p.now, p.latency)],
                                                h.startEmergency.value, p.now + REPORT_SLACK)]
            else emails == []
  {
    var name := s.sampler.site.name;
    var log2 := log + [StoredRecord(name, STATUS_REACHABLE_AGAIN, p.now, p.latency)];
    assert fx[0] == InsertLogEntry(name, STATUS_REACHABLE_AGAIN, p.now, p.ip, p.latency);
    assert fx[1..][0] == DecrementEmergency(p.now);
    assert fx[1..][1..] == fx[2..];
    var d := DecrementNumEmergencyReportSites(h, p.now);
    var tail := ApplyEffects(d.handler, log2, fx[2..]);
    assert tail.emails == [];
  }

  lemma NoRecoveryNoEmails(h: ReportHandler, log: seq<SiteRecord>, sqrt: real -> real, s: SiteState, p: Ping)
    requires WellFormed(h) && OutageStartKnown(s)
    requires !(p.reachable && s.wasSiteUnreachable && s.needEmergencyNotification)
    ensures DecrementFree(HandlePing(sqrt, s, p).effects)
  {
    if p.reachable {
      HandlePingWhenReachable(sqrt, s, p);
    } else {
      HandlePingWhenUnreachable(sqrt, s, p);
    }
  }

  datatype StepOutput = StepOutput(sys: System, regularReport: Option<Email>, emergencyReport: Option<Email>)

  /** Site `i` handles ping `p`: `checkReportSend` first, then the outage
      step, then its effects. */
  function PingStep(sys: System, i: int, p: Ping, sqrt: real -> real, roundToHour: Time -> Time): (r: StepOutput)
    requires Valid(sys) && 0 <= i < |sys.sites|
    ensures Valid(r.sys)
    ensures r.sys.sites == sys.sites[i := HandlePing(sqrt, sys.sites[i], p).state]
    ensures r.sys.reports.activePingSiteNames == sys.reports.activePingSiteNames
    ensures |r.sys.log| >= |sys.log| && r.sys.log[..|sys.log|] == sys.log
    ensures r.regularReport.Some? <==>
              TimeDiffInHours(p.now, sys.reports.lastRegularReport) >= sys.reports.reportFrequency as real
    ensures r.regularReport.Some? ==>
              r.regularReport.value == SendRegularReport(sys.reports, sys.log, roundToHour(p.now)).1 &&
              r.sys.reports.lastRegularReport == roundToHour(p.now)
    ensures r.regularReport.None? ==> r.sys.reports.lastRegularReport == sys.reports.lastRegularReport
    // the emergency report goes out exactly when the last site in emergency recovers
    ensures r.emergencyReport.Some? <==>
              p.reachable && sys.sites[i].needEmergencyNotification && InEmergency(sys.sites) == 1
    ensures r.emergencyReport.Some? ==>
              r.emergencyReport.value ==
                SendEmergencyReport(sys.reports,
                                    sys.log + [StoredRecord(sys.sites[i].sampler.site.name, STATUS_REACHABLE_AGAIN, p.now, p.latency)],
                                    sys.reports.startEmergency.value, p.now + REPORT_SLACK)
  {
    var check := CheckReportSend(sys.reports, p.now, roundToHour);
    var regular := if check.response.ShouldSend() then Some(SendRegularReport(sys.reports, sys.log, check.response.end).1) else None;
    var s := sys.sites[i];
    var out := HandlePing(sqrt, s, p);
    var applied := ApplyEffects(check.handler, sys.log, out.effects);
    HandlePingEmails(check.handler, sys.log, sqrt, s, p);
    InEmergencyUpdate(sys.sites, i, out.state);
    var sites := sys.sites[i := out.state];
    assert forall j :: 0 <= j < |sites| ==> Consistent(HANDLER_TUNING, sites[j]);
    var emergency := if |applied.emails| > 0 then Some(applied.emails[0]) else None;
    StepOutput(System(sites, applied.reports, applied.log), regular, emergency)
  }

  /** The counter never goes negative in a valid system. */
  lemma CounterNonNegative(sys: System)
    requires Valid(sys)
    ensures sys.reports.numEmergencyReportSites >= 0
    ensures sys.reports.numEmergencyReportSites <= |sys.sites|
  {
  }

  /** A fresh system: every site new, the report handler just built, the
      log empty. It is valid. */
  lemma InitialSystemValid(sites: seq<SiteState>, h: ReportHandler)
    requires forall i :: 0 <= i < |sites| ==> Consistent(HANDLER_TUNING, sites[i]) && !sites[i].needEmergencyNotification
    requires WellFormed(h) && h.numEmergencyReportSites == 0
    ensures Valid(System(sites, h, []))
  {
    NoneInEmergency(sites);
  }

  lemma {:induction false} NoneInEmergency(sites: seq<SiteState>)
    requires forall i :: 0 <= i < |sites| ==> !sites[i].needEmergencyNotification
    ensures InEmergency(sites) == 0
    decreases |sites|
  {
    if |sites| > 0 {
      NoneInEmergency(sites[..|sites| - 1]);
    }
  }
}
