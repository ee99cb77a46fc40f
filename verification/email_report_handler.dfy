/** `EmailReportHandler`: the emergency counter shared by all sites, the
    regular-report schedule, and the two folds that turn log query results
    into report contents. Every `synchronized` method is one atomic
    function here. Message text (dates formatted by `SimpleDateFormat`,
    numbers by `Double.toString`) is kept structured. */
module EmailReports {
  import opened JavaSemantics
  import opened MoreDateFunctions
  import opened SiteRecords
  import opened CheckNeedEmail

  /** The milliseconds an emergency window is widened by on each side. */
  const REPORT_SLACK: int := 5000

  datatype ReportHandler = ReportHandler(
    notifyList: string,
    emergencyNotifyList: string,
    reportFrequency: int,
    numEmergencyReportSites: int,
    activePingSiteNames: seq<string>,
    startEmergency: Option<Time>,
    lastRegularReport: Time,
    stationHeader: string)

  /** While any site is in emergency the window start is known. */
  predicate WellFormed(h: ReportHandler) {
    h.numEmergencyReportSites >= 1 ==> h.startEmergency.Some?
  }

  /** The constructor, with `new Date()` passed in as `now`. */
  function NewReportHandler(emailFrequency: int, emailList: string, emergencyEmailList: string,
                            stationName: string, now: Time, roundToHour: Time -> Time): (h: ReportHandler)
    ensures WellFormed(h)
    ensures h.numEmergencyReportSites == 0 && h.activePingSiteNames == []
    ensures h.lastRegularReport == roundToHour(now)
    ensures h.reportFrequency == emailFrequency
    ensures h.notifyList == emailList && h.emergencyNotifyList == emergencyEmailList
    ensures stationName == [] ==> h.stationHeader == []
    ensures stationName != [] ==> h.stationHeader == stationName + " - "
  {
    ReportHandler(emailList, emergencyEmailList, emailFrequency, 0, [], None, roundToHour(now),
                  if stationName != [] then stationName + " - " else [])
  }

  /** `addSiteNameToList`. */
  function AddSiteNameToList(h: ReportHandler, siteName: string): (r: ReportHandler)
    ensures r.activePingSiteNames == h.activePingSiteNames + [siteName]
    ensures r == h.(activePingSiteNames := r.activePingSiteNames)
  {
    h.(activePingSiteNames := h.activePingSiteNames + [siteName])
  }

  /** `incrementNumEmergencyReportSites(t)`. */
  function IncrementNumEmergencyReportSites(h: ReportHandler, t: Time): (r: ReportHandler)
    ensures r.numEmergencyReportSites == h.numEmergencyReportSites + 1
    ensures r.numEmergencyReportSites == 1 ==> r.startEmergency == Some(t - REPORT_SLACK)
    ensures r.numEmergencyReportSites != 1 ==> r.startEmergency == h.startEmergency
    ensures r == h.(numEmergencyReportSites := r.numEmergencyReportSites, startEmergency := r.startEmergency)
    ensures WellFormed(h) ==> WellFormed(r)
  {
    var count := h.numEmergencyReportSites + 1;
    if count == 1 then h.(numEmergencyReportSites := count, startEmergency := Some(t - REPORT_SLACK))
    else h.(numEmergencyReportSites := count)
  }

  datatype Decision = Decision(handler: ReportHandler, response: CheckNeedEmailResponse)

  /** `decrementNumEmergencyReportSites(t)`: there is no lower-bound guard;
      the report over `[startEmergency, t + 5000]` is due exactly when the
      count reaches 0. `startEmergency` is left as it is. */
  function DecrementNumEmergencyReportSites(h: ReportHandler, t: Time): (r: Decision)
    requires WellFormed(h)
    ensures r.handler == h.(numEmergencyReportSites := h.numEmergencyReportSites - 1)
    ensures WellFormed(r.handler)
    ensures r.response.ShouldSend() <==> r.handler.numEmergencyReportSites == 0
    ensures r.response.ShouldSend() ==>
              r.response.StartDateQuery() == h.startEmergency &&
              r.response.EndDateQuery() == Some(t + REPORT_SLACK)
  {
    var count := h.numEmergencyReportSites - 1;
    var handler := h.(numEmergencyReportSites := count);
    if count == 0 then Decision(handler, EmailNeeded(h.startEmergency.value, t + REPORT_SLACK))
    else Decision(handler, NoEmailNeeded())
  }

  /** `checkReportSend`: a regular report is due once `reportFrequency`
      hours have passed since the last one; it covers
      `[lastRegularReport, roundToHour(now))` and moves `lastRegularReport`
      to the window's end. */
  function CheckReportSend(h: ReportHandler, now: Time, roundToHour: Time -> Time): (r: Decision)
    ensures r.response.ShouldSend() <==> TimeDiffInHours(now, h.lastRegularReport) >= h.reportFrequency as real
    ensures !r.response.ShouldSend() ==> r.handler == h
    ensures r.response.ShouldSend() ==>
              r.response.StartDateQuery() == Some(h.lastRegularReport) &&
              r.response.EndDateQuery() == Some(roundToHour(now)) &&
              r.handler == h.(lastRegularReport := roundToHour(now))
  {
    if TimeDiffInHours(now, h.lastRegularReport) >= h.reportFrequency as real then
      Decision(h.(lastRegularReport := roundToHour(now)), EmailNeeded(h.lastRegularReport, roundToHour(now)))
    else
      Decision(h, NoEmailNeeded())
  }

  /** Calls of `checkReportSend` at successive times. */
  function ScheduleReports(h: ReportHandler, times: seq<Time>, roundToHour: Time -> Time): (r: (ReportHandler, seq<CheckNeedEmailResponse>))
    ensures forall k :: 0 <= k < |r.1| ==> r.1[k].ShouldSend()
    ensures r.0 == h.(lastRegularReport := r.0.lastRegularReport)
    decreases |times|
  {
    if |times| == 0 then (h, [])
    else
      var d := CheckReportSend(h, times[0], roundToHour);
      var rest := ScheduleReports(d.handler, times[1..], roundToHour);
      (rest.0, (if d.response.ShouldSend() then [d.response] else []) + rest.1)
  }

  /** Each window starts where the previous one ended. */
  predicate BackToBack(sent: seq<CheckNeedEmailResponse>)
    requires forall k :: 0 <= k < |sent| ==> sent[k].Send?
  {
    forall k :: 0 <= k < |sent| - 1 ==> sent[k].end == sent[k + 1].start
  }

  lemma BackToBackCons(w: CheckNeedEmailResponse, rest: seq<CheckNeedEmailResponse>)
    requires w.Send? && forall k :: 0 <= k < |rest| ==> rest[k].Send?
    requires BackToBack(rest) && (|rest| > 0 ==> rest[0].start == w.end)
    ensures BackToBack([w] + rest)
  {
    var all := [w] + rest;
    forall k | 0 <= k < |all| - 1
      ensures all[k].end == all[k + 1].start
    {
      assert all[k + 1] == rest[k];
      if k > 0 {
        assert all[k] == rest[k - 1];
      }
    }
  }

  /** The regular reports tile time: the first starts at the handler's last
      report, each starts where the previous one ended, and the handler
      remembers the end of the last one. */
  lemma {:induction false} ReportWindowsAreContiguous(h: ReportHandler, times: seq<Time>, roundToHour: Time -> Time)
    ensures var (final, sent) := ScheduleReports(h, times, roundToHour);
            (|sent| == 0 ==> final.lastRegularReport == h.lastRegularReport) &&
            (|sent| > 0 ==> sent[0].start == h.lastRegularReport &&
                            sent[|sent| - 1].end == final.lastRegularReport) &&
            BackToBack(sent)
    decreases |times|
  {
    if |times| > 0 {
      var d := CheckReportSend(h, times[0], roundToHour);
      ReportWindowsAreContiguous(d.handler, times[1..], roundToHour);
      var rest := ScheduleReports(d.handler, times[1..], roundToHour);
      if d.response.ShouldSend() {
        BackToBackCons(d.response, rest.1);
        var sent := [d.response] + rest.1;
        assert |rest.1| > 0 ==> sent[|sent| - 1] == rest.1[|rest.1| - 1];
      }
    }
  }

  function StatusNums(records: seq<SiteRecord>): (r: seq<int>)
    ensures |r| == |records|
    ensures forall k :: 0 <= k < |records| ==> r[k] == records[k].statusNum
  {
    seq(|records|, k requires 0 <= k < |records| => records[k].statusNum)
  }

  /** The number of status-1 records of a site. */
  function UnreachableCount(records: seq<SiteRecord>): (n: nat)
    ensures n == multiset(StatusNums(records))[STATUS_UNREACHABLE]
    decreases |records|
  {
    if |records| == 0 then 0
    else
      assert StatusNums(records) == [records[0].statusNum] + StatusNums(records[1..]);
      (if records[0].statusNum == STATUS_UNREACHABLE then 1 else 0) + UnreachableCount(records[1..])
  }

  /** The larger of 0 and every status-3 latency. */
  function MaxSlowLatency(records: seq<SiteRecord>): (m: real)
    ensures m >= 0.0
    ensures forall k :: 0 <= k < |records| && records[k].statusNum == STATUS_LATENCY_SLOW ==> records[k].latency <= m
    ensures m == 0.0 || exists k :: 0 <= k < |records| && records[k].statusNum == STATUS_LATENCY_SLOW && records[k].latency == m
    decreases |records|
  {
    if |records| == 0 then 0.0
    else
      var rest := MaxSlowLatency(records[1..]);
      assert forall k :: 1 <= k < |records| ==> records[k] == records[1..][k - 1];
      if records[0].statusNum == STATUS_LATENCY_SLOW && records[0].latency > rest then records[0].latency
      else
        assert rest != 0.0 ==> exists k :: 1 <= k < |records| && records[k].statusNum == STATUS_LATENCY_SLOW && records[k].latency == rest;
        rest
  }

  lemma ConsOccurrences(a: int, s: seq<int>, v: int)
    ensures multiset([a] + s)[v] == multiset(s)[v] + if a == v then 1 else 0
  {
    assert multiset([a] + s) == multiset{a} + multiset(s);
  }

  lemma StatusNumsCons(records: seq<SiteRecord>)
    requires |records| > 0
    ensures StatusNums(records) == [records[0].statusNum] + StatusNums(records[1..])
  {
  }

  lemma StatusNumsSnoc(records: seq<SiteRecord>, x: SiteRecord)
    ensures StatusNums(records + [x]) == StatusNums(records) + [x.statusNum]
  {
  }

  /** Counting record by record: one more status-1 record adds one. */
  lemma UnreachableCountSnoc(records: seq<SiteRecord>, x: SiteRecord)
    ensures UnreachableCount(records + [x]) == UnreachableCount(records) + if x.statusNum == STATUS_UNREACHABLE then 1 else 0
  {
    StatusNumsSnoc(records, x);
  }

  /** The three properties of `MaxSlowLatency` pin its value down. */
  lemma MaxSlowLatencyUnique(records: seq<SiteRecord>, m: real)
    requires m >= 0.0
    requires forall k :: 0 <= k < |records| && records[k].statusNum == STATUS_LATENCY_SLOW ==> records[k].latency <= m
    requires m == 0.0 || exists k :: 0 <= k < |records| && records[k].statusNum == STATUS_LATENCY_SLOW && records[k].latency == m
    ensures m == MaxSlowLatency(records)
  {
  }

  /** Keeping the maximum record by record: a later slow record replaces
      the maximum only when strictly larger. */
  lemma MaxSlowLatencySnoc(records: seq<SiteRecord>, x: SiteRecord)
    ensures MaxSlowLatency(records + [x]) ==
              if x.statusNum == STATUS_LATENCY_SLOW && x.latency > MaxSlowLatency(records) then x.latency
              else MaxSlowLatency(records)
  {
    var all := records + [x];
    var m := MaxSlowLatency(records);
    var m' := if x.statusNum == STATUS_LATENCY_SLOW && x.latency > m then x.latency else m;
    assert forall k :: 0 <= k < |records| ==> all[k] == records[k];
    assert all[|records|] == x;
    if m' != 0.0 {
      if m' == m {
        var k :| 0 <= k < |records| && records[k].statusNum == STATUS_LATENCY_SLOW && records[k].latency == m;
        assert all[k] == records[k];
      } else {
        assert all[|records|].latency == m';
      }
    }
    MaxSlowLatencyUnique(all, m');
  }

  /** The count and the maximum folded from the first record on. */
  function Summary(records: seq<SiteRecord>): (int, real)
    decreases |records|
  {
    if |records| == 0 then (0, 0.0)
    else
      var (count, max) := Summary(records[..|records| - 1]);
      var x := records[|records| - 1];
      (count + (if x.statusNum == STATUS_UNREACHABLE then 1 else 0),
       if x.statusNum == STATUS_LATENCY_SLOW && x.latency > max then x.latency else max)
  }

  /** The last record's part of the count and of the maximum. */
  lemma LastRecordStep(records: seq<SiteRecord>)
    requires |records| > 0
    ensures var init, x := records[..|records| - 1], records[|records| - 1];
            UnreachableCount(records) == UnreachableCount(init) + (if x.statusNum == STATUS_UNREACHABLE then 1 else 0) &&
            MaxSlowLatency(records) ==
              if x.statusNum == STATUS_LATENCY_SLOW && x.latency > MaxSlowLatency(init) then x.latency else MaxSlowLatency(init)
  {
    var init, x := records[..|records| - 1], records[|records| - 1];
    assert records == init + [x];
    UnreachableCountSnoc(init, x);
    MaxSlowLatencySnoc(init, x);
  }

  lemma {:induction false} SummaryIsCountAndMax(records: seq<SiteRecord>)
    ensures Summary(records) == (UnreachableCount(records), MaxSlowLatency(records))
    decreases |records|
  {
    if |records| > 0 {
      SummaryIsCountAndMax(records[..|records| - 1]);
      LastRecordStep(records);
    }
  }

  /** The per-site loop of `sendRegularReport`: one pass over the query
      result counting status-1 records and keeping the largest status-3
      latency above 0. */
  method SummarizeSite(siteRecords: seq<SiteRecord>) returns (unreachableCount: int, maxLatency: real)
    ensures unreachableCount == UnreachableCount(siteRecords)
    ensures maxLatency == MaxSlowLatency(siteRecords)
  {
    unreachableCount, maxLatency := 0, 0.0;
    var i := 0;
    while i < |siteRecords|
      invariant 0 <= i <= |siteRecords|
      invariant (unreachableCount, maxLatency) == Summary(siteRecords[..i])
    {
      var record := siteRecords[i];
      assert siteRecords[..i + 1][..i] == siteRecords[..i];
      if record.statusNum == STATUS_UNREACHABLE {
        unreachableCount := unreachableCount + 1;
      } else if record.statusNum == STATUS_LATENCY_SLOW {
        if record.latency > maxLatency {
          maxLatency := record.latency;
        }
      }
      i := i + 1;
    }
    assert siteRecords[..i] == siteRecords;
    SummaryIsCountAndMax(siteRecords);
  }

  /** One site's part of the regular report. */
  datatype Section = Section(siteName: string, unreachableCount: nat, maxLatency: real)

  predicate Reportable(s: Section) {
    s.unreachableCount != 0 || s.maxLatency != 0.0
  }

  function SectionFor(log: seq<SiteRecord>, siteName: string, start: Time, end: Time): Section {
    var records := SelectReportLog(log, siteName, start, end);
    Section(siteName, UnreachableCount(records), MaxSlowLatency(records))
  }

  /** The reportable sections among `sections`, in order. */
  function Reportables(sections: seq<Section>): (r: seq<Section>)
    ensures |r| <= |sections|
    ensures forall k :: 0 <= k < |r| ==> r[k] in sections && Reportable(r[k])
    ensures forall i :: 0 <= i < |sections| && Reportable(sections[i]) ==> sections[i] in r
    decreases |sections|
  {
    if |sections| == 0 then []
    else
      var rest := Reportables(sections[1..]);
      assert forall i :: 1 <= i < |sections| ==> sections[i] == sections[1..][i - 1];
      if Reportable(sections[0]) then [sections[0]] + rest else rest
  }

  /** `Reportables` is an order-preserving filter: it distributes over
      concatenation and keeps a single section exactly when it is reportable. */
  lemma {:induction false} ReportablesAppend(a: seq<Section>, b: seq<Section>)
    ensures Reportables(a + b) == Reportables(a) + Reportables(b)
    decreases |a|
  {
    if |a| == 0 {
      assert a + b == b;
    } else {
      assert (a + b)[1..] == a[1..] + b;
      ReportablesAppend(a[1..], b);
    }
  }

  lemma ReportablesSingleton(x: Section)
    ensures Reportables([x]) == if Reportable(x) then [x] else []
  {
    assert [x][1..] == [];
  }

  /** Each section is kept as often as it occurs, or not at all. */
  lemma {:induction false} ReportablesMultiset(sections: seq<Section>)
    ensures forall x :: multiset(Reportables(sections))[x] == if Reportable(x) then multiset(sections)[x] else 0
    decreases |sections|
  {
    if |sections| > 0 {
      ReportablesMultiset(sections[1..]);
      assert sections == [sections[0]] + sections[1..];
    }
  }

  /** The loop of `sendRegularReport` over the active site names: every
      site's section, in list order, keeping those with something to report. */
  function ReportSections(log: seq<SiteRecord>, names: seq<string>, start: Time, end: Time): (r: seq<Section>)
    ensures |r| <= |names|
    ensures forall k :: 0 <= k < |r| ==>
              r[k].siteName in names && Reportable(r[k]) && r[k] == SectionFor(log, r[k].siteName, start, end)
    ensures forall i :: 0 <= i < |names| && Reportable(SectionFor(log, names[i], start, end)) ==>
              SectionFor(log, names[i], start, end) in r
  {
    var all := AllSections(log, names, start, end);
    SectionsNamedBy(log, names, start, end, all);
    Reportables(all)
  }

  /** Every name's section, reportable or not. */
  function AllSections(log: seq<SiteRecord>, names: seq<string>, start: Time, end: Time): (r: seq<Section>)
    ensures |r| == |names| && forall i :: 0 <= i < |names| ==> r[i] == SectionFor(log, names[i], start, end)
  {
    seq(|names|, i requires 0 <= i < |names| => SectionFor(log, names[i], start, end))
  }

  /** The sections follow the order of the name list, one per reportable
      name; a name added twice by `addSiteNameToList` reports twice. */
  lemma ReportSectionsAppend(log: seq<SiteRecord>, a: seq<string>, b: seq<string>, start: Time, end: Time)
    ensures ReportSections(log, a + b, start, end) == ReportSections(log, a, start, end) + ReportSections(log, b, start, end)
  {
    var sa, sb := AllSections(log, a, start, end), AllSections(log, b, start, end);
    var sab := AllSections(log, a + b, start, end);
    forall i | 0 <= i < |sab|
      ensures sab[i] == (sa + sb)[i]
    {
      if i < |a| {
        assert (a + b)[i] == a[i];
      } else {
        assert (a + b)[i] == b[i - |a|];
      }
    }
    assert sab == sa + sb;
    ReportablesAppend(sa, sb);
  }

  lemma ReportSectionsSingleton(log: seq<SiteRecord>, n: string, start: Time, end: Time)
    ensures ReportSections(log, [n], start, end) ==
              if Reportable(SectionFor(log, n, start, end)) then [SectionFor(log, n, start, end)] else []
  {
    assert AllSections(log, [n], start, end) == [SectionFor(log, n, start, end)];
    ReportablesSingleton(SectionFor(log, n, start, end));
  }

  lemma SectionsNamedBy(log: seq<SiteRecord>, names: seq<string>, start: Time, end: Time, all: seq<Section>)
    requires |all| == |names|
    requires forall i :: 0 <= i < |names| ==> all[i] == SectionFor(log, names[i], start, end)
    ensures forall x :: x in all ==> x.siteName in names && x == SectionFor(log, x.siteName, start, end)
  {
    forall x | x in all
      ensures x.siteName in names && x == SectionFor(log, x.siteName, start, end)
    {
      var i :| 0 <= i < |all| && all[i] == x;
      assert x.siteName == names[i];
    }
  }

  datatype ReportBody = NothingToReport | Sections(sections: seq<Section>)

  /** The message body: "Nothing to report." exactly when no site has a
      section. */
  function RegularReportBody(log: seq<SiteRecord>, names: seq<string>, start: Time, end: Time): (b: ReportBody)
    ensures b.NothingToReport? <==> forall n :: n in names ==> !Reportable(SectionFor(log, n, start, end))
    ensures b.Sections? ==> |b.sections| > 0 && b.sections == ReportSections(log, names, start, end)
  {
    var sections := ReportSections(log, names, start, end);
    assert forall n :: n in names ==> exists i :: 0 <= i < |names| && names[i] == n;
    if |sections| == 0 then NothingToReport
    else
      var n := sections[0].siteName;
      assert n in names && Reportable(SectionFor(log, n, start, end));
      Sections(sections)
  }

  /** One line of the emergency message. */
  datatype EmergencyLine = BecameUnreachable(at: Time, siteName: string) | BecameReachableAgain(at: Time, siteName: string)

  function LineOf(record: SiteRecord): seq<EmergencyLine> {
    if record.statusNum == STATUS_UNREACHABLE then [BecameUnreachable(record.pingTime, record.siteName)]
    else if record.statusNum == STATUS_REACHABLE_AGAIN then [BecameReachableAgain(record.pingTime, record.siteName)]
    else []
  }

  /** The loop of `sendEmergencyReport`: a line per status-1 or status-2
      record, in query order. */
  function EmergencyLines(records: seq<SiteRecord>): seq<EmergencyLine>
    decreases |records|
  {
    if |records| == 0 then [] else LineOf(records[0]) + EmergencyLines(records[1..])
  }

  /** One line per status-1 record and one per status-2 record. */
  lemma {:induction false} EmergencyLinesCount(records: seq<SiteRecord>)
    ensures |EmergencyLines(records)| ==
              multiset(StatusNums(records))[STATUS_UNREACHABLE] + multiset(StatusNums(records))[STATUS_REACHABLE_AGAIN]
    decreases |records|
  {
    if |records| > 0 {
      var x, tail := records[0], records[1..];
      EmergencyLinesCount(tail);
      StatusNumsCons(records);
      ConsOccurrences(x.statusNum, StatusNums(tail), STATUS_UNREACHABLE);
      ConsOccurrences(x.statusNum, StatusNums(tail), STATUS_REACHABLE_AGAIN);
      assert |EmergencyLines(records)| == |LineOf(x)| + |EmergencyLines(tail)|;
    }
  }

  /** The body is built record by record: concatenating query results
      concatenates their lines, and status-3 records add nothing. */
  lemma {:induction false} EmergencyLinesAppend(a: seq<SiteRecord>, b: seq<SiteRecord>)
    ensures EmergencyLines(a + b) == EmergencyLines(a) + EmergencyLines(b)
    decreases |a|
  {
    if |a| > 0 {
      assert (a + b)[1..] == a[1..] + b;
      EmergencyLinesAppend(a[1..], b);
    } else {
      assert a + b == b;
    }
  }

  predicate MakesLine(record: SiteRecord) {
    record.statusNum == STATUS_UNREACHABLE || record.statusNum == STATUS_REACHABLE_AGAIN
  }

  /** Each line is the line of the record `idx` points it at. */
  ghost predicate PointsAtLines(records: seq<SiteRecord>, lines: seq<EmergencyLine>, idx: seq<int>) {
    |idx| == |lines| &&
    forall k :: 0 <= k < |idx| ==> 0 <= idx[k] < |records| && LineOf(records[idx[k]]) == [lines[k]]
  }

  ghost predicate Increasing(idx: seq<int>) {
    forall k, l :: 0 <= k < l < |idx| ==> idx[k] < idx[l]
  }

  /** Every status-1 or status-2 record has its line. */
  ghost predicate CoversLineRecords(records: seq<SiteRecord>, idx: seq<int>) {
    forall j :: 0 <= j < |records| && MakesLine(records[j]) ==> j in idx
  }

  /** `idx` maps each line to the record it comes from, in order, and
      misses no record that has a line. */
  ghost predicate LinesIndexRecords(records: seq<SiteRecord>, lines: seq<EmergencyLine>, idx: seq<int>) {
    PointsAtLines(records, lines, idx) && Increasing(idx) && CoversLineRecords(records, idx)
  }

  function Shifted(idx: seq<int>): (r: seq<int>)
    ensures |r| == |idx| && forall k :: 0 <= k < |idx| ==> r[k] == idx[k] + 1
  {
    seq(|idx|, k requires 0 <= k < |idx| => idx[k] + 1)
  }

  lemma ShiftedPointsAtLines(records: seq<SiteRecord>, lines: seq<EmergencyLine>, idx: seq<int>)
    requires |records| > 0 && PointsAtLines(records[1..], lines, idx)
    ensures PointsAtLines(records, lines, Shifted(idx))
  {
    var shifted := Shifted(idx);
    forall k | 0 <= k < |shifted|
      ensures 0 <= shifted[k] < |records| && LineOf(records[shifted[k]]) == [lines[k]]
    {
      assert records[shifted[k]] == records[1..][idx[k]];
    }
  }

  lemma ShiftedCovers(records: seq<SiteRecord>, idx: seq<int>)
    requires |records| > 0 && CoversLineRecords(records[1..], idx)
    ensures forall j :: 1 <= j < |records| && MakesLine(records[j]) ==> j in Shifted(idx)
  {
    var shifted := Shifted(idx);
    forall j | 1 <= j < |records| && MakesLine(records[j])
      ensures j in shifted
    {
      assert records[j] == records[1..][j - 1];
      var k :| 0 <= k < |idx| && idx[k] == j - 1;
      assert shifted[k] == j;
    }
  }

  /** A record without a line in front shifts every index by one. */
  lemma IndexPastSilentRecord(records: seq<SiteRecord>, lines: seq<EmergencyLine>, idx: seq<int>)
    requires |records| > 0 && LinesIndexRecords(records[1..], lines, idx) && !MakesLine(records[0])
    ensures LinesIndexRecords(records, lines, Shifted(idx))
  {
    ShiftedPointsAtLines(records, lines, idx);
    ShiftedCovers(records, idx);
  }

  lemma ConsIncreasing(idx: seq<int>)
    requires Increasing(idx) && forall k :: 0 <= k < |idx| ==> idx[k] >= 0
    ensures Increasing([0] + Shifted(idx))
  {
    var all := [0] + Shifted(idx);
    forall k, l | 0 <= k < l < |all|
      ensures all[k] < all[l]
    {
      assert all[l] == idx[l - 1] + 1;
      if k > 0 {
        assert all[k] == idx[k - 1] + 1;
      }
    }
  }

  lemma ConsPointsAtLines(records: seq<SiteRecord>, lines: seq<EmergencyLine>, idx: seq<int>)
    requires |records| > 0 && PointsAtLines(records[1..], lines, idx) && MakesLine(records[0])
    ensures PointsAtLines(records, LineOf(records[0]) + lines, [0] + Shifted(idx))
  {
    var shifted := Shifted(idx);
    var all, allLines := [0] + shifted, LineOf(records[0]) + lines;
    ShiftedPointsAtLines(records, lines, idx);
    assert |LineOf(records[0])| == 1;
    forall k | 0 <= k < |all|
      ensures 0 <= all[k] < |records| && LineOf(records[all[k]]) == [allLines[k]]
    {
      if k > 0 {
        assert all[k] == shifted[k - 1] && allLines[k] == lines[k - 1];
      }
    }
  }

  /** A record with a line in front puts index 0 before the shifted ones. */
  lemma IndexPastLineRecord(records: seq<SiteRecord>, lines: seq<EmergencyLine>, idx: seq<int>)
    requires |records| > 0 && LinesIndexRecords(records[1..], lines, idx) && MakesLine(records[0])
    ensures LinesIndexRecords(records, LineOf(records[0]) + lines, [0] + Shifted(idx))
  {
    var all := [0] + Shifted(idx);
    ConsPointsAtLines(records, lines, idx);
    ConsIncreasing(idx);
    ShiftedCovers(records, idx);
    assert CoversLineRecords(records, all) by {
      assert all[0] == 0;
      assert forall j :: j in Shifted(idx) ==> j in all;
    }
  }

  /** The emergency body is the status-1 and status-2 records' lines, in
      query order, one line per record. */
  lemma {:induction false} EmergencyLinesIndexed(records: seq<SiteRecord>) returns (idx: seq<int>)
    ensures LinesIndexRecords(records, EmergencyLines(records), idx)
    decreases |records|
  {
    if |records| == 0 {
      idx := [];
    } else {
      var rest := EmergencyLinesIndexed(records[1..]);
      if MakesLine(records[0]) {
        IndexPastLineRecord(records, EmergencyLines(records[1..]), rest);
        idx := [0] + Shifted(rest);
      } else {
        IndexPastSilentRecord(records, EmergencyLines(records[1..]), rest);
        assert LineOf(records[0]) == [];
        assert EmergencyLines(records) == EmergencyLines(records[1..]);
        idx := Shifted(rest);
      }
    }
  }

  lemma {:induction false} EmergencyLinesOfSlowRecords(records: seq<SiteRecord>)
    requires forall k :: 0 <= k < |records| ==> records[k].statusNum == STATUS_LATENCY_SLOW
    ensures EmergencyLines(records) == []
    decreases |records|
  {
    if |records| > 0 {
      assert forall k :: 0 <= k < |records| - 1 ==> records[1..][k] == records[k + 1];
      EmergencyLinesOfSlowRecords(records[1..]);
    }
  }

  datatype EmailContent =
    | RegularReport(start: Time, end: Time, body: ReportBody)
    | EmergencyReport(lines: seq<EmergencyLine>)

  datatype Email = Email(recipients: string, subject: string, content: EmailContent)

  /** `sendRegularReport(end)` as the email it sends and the handler after. */
  function SendRegularReport(h: ReportHandler, log: seq<SiteRecord>, end: Time): (r: (ReportHandler, Email))
    ensures r.0 == h.(lastRegularReport := end)
    ensures r.1.recipients == h.notifyList
    ensures r.1.subject == h.stationHeader + "ConnectionMonitor Regular Report"
    ensures r.1.content == RegularReport(h.lastRegularReport, end,
                                         RegularReportBody(log, h.activePingSiteNames, h.lastRegularReport, end))
  {
    var body := RegularReportBody(log, h.activePingSiteNames, h.lastRegularReport, end);
    (h.(lastRegularReport := end),
     Email(h.notifyList, h.stationHeader + "ConnectionMonitor Regular Report", RegularReport(h.lastRegularReport, end, body)))
  }

  /** `sendEmergencyReport` over the window `[start, end]`. */
  function SendEmergencyReport(h: ReportHandler, log: seq<SiteRecord>, start: Time, end: Time): (e: Email)
    ensures e.recipients == h.emergencyNotifyList
    ensures e.subject == h.stationHeader + "ConnectionMonitor Site Unreachable Notification"
    ensures e.content == EmergencyReport(EmergencyLines(SelectEmergencyReportLog(log, start, end)))
  {
    Email(h.emergencyNotifyList, h.stationHeader + "ConnectionMonitor Site Unreachable Notification",
          EmergencyReport(EmergencyLines(SelectEmergencyReportLog(log, start, end))))
  }

  /** A call of one of the two counter methods. */
  datatype CounterOp = Increment(at: Time) | Decrement(at: Time)

  function Delta(op: CounterOp): int {
    if op.Increment? then 1 else -1
  }

  function ApplyCounterOp(h: ReportHandler, op: CounterOp): (r: Decision)
    requires WellFormed(h)
    ensures WellFormed(r.handler)
  {
    match op
    case Increment(t) => Decision(IncrementNumEmergencyReportSites(h, t), NoEmailNeeded())
    case Decrement(t) => DecrementNumEmergencyReportSites(h, t)
  }

  function ApplyCounterOps(h: ReportHandler, ops: seq<CounterOp>): (r: (ReportHandler, seq<CheckNeedEmailResponse>))
    requires WellFormed(h)
    ensures WellFormed(r.0)
    decreases |ops|
  {
    if |ops| == 0 then (h, [])
    else
      var d := ApplyCounterOp(h, ops[0]);
      var rest := ApplyCounterOps(d.handler, ops[1..]);
      (rest.0, (if d.response.ShouldSend() then [d.response] else []) + rest.1)
  }

  /** The count stays at least 1 after every operation. */
  predicate StaysOpen(count: int, ops: seq<CounterOp>)
    decreases |ops|
  {
    |ops| == 0 || (count + Delta(ops[0]) >= 1 && StaysOpen(count + Delta(ops[0]), ops[1..]))
  }

  function TotalDelta(ops: seq<CounterOp>): int
    decreases |ops|
  {
    if |ops| == 0 then 0 else Delta(ops[0]) + TotalDelta(ops[1..])
  }

  /** While some site stays in emergency no report is due and the window
      start does not move. */
  lemma {:induction false} OpenEmergencyKeepsItsStart(h: ReportHandler, ops: seq<CounterOp>)
    requires WellFormed(h) && h.numEmergencyReportSites >= 1
    requires StaysOpen(h.numEmergencyReportSites, ops)
    ensures var (final, sent) := ApplyCounterOps(h, ops);
            sent == [] && final.startEmergency == h.startEmergency &&
            final.numEmergencyReportSites == h.numEmergencyReportSites + TotalDelta(ops)
    decreases |ops|
  {
    if |ops| > 0 {
      var d := ApplyCounterOp(h, ops[0]);
      OpenEmergencyKeepsItsStart(d.handler, ops[1..]);
    }
  }

  /** An emergency cycle: the first site goes down at `t0`, other sites come
      and go while at least one stays down, and the last one recovers at
      `t1`. Exactly one report is due, covering `[t0 - 5000, t1 + 5000]`. */
  lemma EmergencyCycleWindow(h: ReportHandler, t0: Time, ops: seq<CounterOp>, t1: Time)
    requires WellFormed(h) && h.numEmergencyReportSites == 0
    requires StaysOpen(1, ops) && TotalDelta(ops) == 0
    ensures var (final, sent) := ApplyCounterOps(h, [Increment(t0)] + ops + [Decrement(t1)]);
            sent == [EmailNeeded(t0 - REPORT_SLACK, t1 + REPORT_SLACK)] &&
            final.numEmergencyReportSites == 0
  {
    var h1 := IncrementNumEmergencyReportSites(h, t0);
    OpenEmergencyKeepsItsStart(h1, ops);
    ApplyCounterOpsAppend(h, [Increment(t0)], ops + [Decrement(t1)]);
    ApplyCounterOpsAppend(h1, ops, [Decrement(t1)]);
    assert [Increment(t0)] + ops + [Decrement(t1)] == [Increment(t0)] + (ops + [Decrement(t1)]);
    assert ApplyCounterOps(h, [Increment(t0)]).0 == h1 by {
      assert [Increment(t0)][1..] == [];
    }
    assert ApplyCounterOps(h, [Increment(t0)]).1 == [] by {
      assert [Increment(t0)][1..] == [];
    }
    var mid := ApplyCounterOps(h1, ops).0;
    assert [Decrement(t1)][1..] == [];
    assert ApplyCounterOps(mid, [Decrement(t1)]).1 == [EmailNeeded(t0 - REPORT_SLACK, t1 + REPORT_SLACK)];
  }

  lemma {:induction false} ApplyCounterOpsAppend(h: ReportHandler, a: seq<CounterOp>, b: seq<CounterOp>)
    requires WellFormed(h)
    ensures var ra := ApplyCounterOps(h, a);
            var rb := ApplyCounterOps(ra.0, b);
            ApplyCounterOps(h, a + b) == (rb.0, ra.1 + rb.1)
    decreases |a|
  {
    if |a| > 0 {
      var d := ApplyCounterOp(h, a[0]);
      assert (a + b)[1..] == a[1..] + b;
      ApplyCounterOpsAppend(d.handler, a[1..], b);
      var ra := ApplyCounterOps(d.handler, a[1..]);
      var rb := ApplyCounterOps(ra.0, b);
      var x := if d.response.ShouldSend() then [d.response] else [];
      assert x + (ra.1 + rb.1) == (x + ra.1) + rb.1;
    } else {
      assert a + b == b;
      var rb := ApplyCounterOps(h, b);
      assert [] + rb.1 == rb.1;
    }
  }
}
