/** The older root `PingThread`: its daily-report accumulator, the
    substring-based parsers of the `ping -c 1` output, the rule that takes
    the address from the first output line and the latency from the second,
    and its `handlePing`, which is the shared outage step with the thread's
    own constants (initially 30 s, 6 h, 4000 samples), reporting its two
    console lines and its slow-ping log line. */
module LegacyPingThread {
  import opened JavaSemantics
  import opened OutageTracking
  import opened LatencyBaseline

  /** `appendDailyReport`: an empty message clears the report, any other
      message is appended on a new line. */
  function AppendDailyReport(dailyReport: string, message: string): (r: string)
    ensures message == [] ==> r == []
    ensures message != [] ==> r == dailyReport + "\n" + message
  {
    if message == [] then [] else dailyReport + "\n" + message
  }

  /** Each message on its own line. */
  function Lines(messages: seq<string>): string
    decreases |messages|
  {
    if |messages| == 0 then [] else Lines(messages[..|messages| - 1]) + "\n" + messages[|messages| - 1]
  }

  function AppendAll(dailyReport: string, messages: seq<string>): string
    decreases |messages|
  {
    if |messages| == 0 then dailyReport
    else AppendDailyReport(AppendAll(dailyReport, messages[..|messages| - 1]), messages[|messages| - 1])
  }

  lemma {:induction false} AppendAllWithoutClear(dailyReport: string, messages: seq<string>)
    requires forall k :: 0 <= k < |messages| ==> messages[k] != []
    ensures AppendAll(dailyReport, messages) == dailyReport + Lines(messages)
    decreases |messages|
  {
    if |messages| > 0 {
      var init := messages[..|messages| - 1];
      assert forall k :: 0 <= k < |init| ==> init[k] == messages[k];
      AppendAllWithoutClear(dailyReport, init);
    }
  }

  lemma {:induction false} AppendAllAfterClear(dailyReport: string, messages: seq<string>, c: int)
    requires 0 <= c < |messages| && messages[c] == []
    requires forall k :: c < k < |messages| ==> messages[k] != []
    ensures AppendAll(dailyReport, messages) == Lines(messages[c + 1..])
    decreases |messages|
  {
    var n := |messages| - 1;
    if c < n {
      var init := messages[..n];
      assert forall k :: 0 <= k < |init| ==> init[k] == messages[k];
      AppendAllAfterClear(dailyReport, init, c);
      var tail := messages[c + 1..];
      assert tail[..|tail| - 1] == init[c + 1..];
    } else {
      assert messages[c + 1..] == [];
    }
  }

  /** The report holds every message since the last empty one, in order;
      with no empty message it is the old report followed by them all. */
  lemma DailyReportKeepsMessagesSinceLastClear(dailyReport: string, messages: seq<string>)
    ensures (forall k :: 0 <= k < |messages| ==> messages[k] != []) ==>
              AppendAll(dailyReport, messages) == dailyReport + Lines(messages)
    ensures forall c :: 0 <= c < |messages| && messages[c] == [] &&
                        (forall k :: c < k < |messages| ==> messages[k] != []) ==>
              AppendAll(dailyReport, messages) == Lines(messages[c + 1..])
  {
    if forall k :: 0 <= k < |messages| ==> messages[k] != [] {
      AppendAllWithoutClear(dailyReport, messages);
    }
    forall c | 0 <= c < |messages| && messages[c] == [] && (forall k :: c < k < |messages| ==> messages[k] != [])
      ensures AppendAll(dailyReport, messages) == Lines(messages[c + 1..])
    {
      AppendAllAfterClear(dailyReport, messages, c);
    }
  }

  /** `s.indexOf(c)` for a one-character string: the first position of `c`,
      or -1 when `c` does not occur. */
  function FirstIndex(s: string, c: char): (r: int)
    ensures r == IndexOf(s, [c])
    ensures r == -1 <==> c !in s
    ensures r != -1 ==> 0 <= r < |s| && s[r] == c && c !in s[..r]
  {
    IndexOfChar(s, c);
    IndexOf(s, [c])
  }

  /** `parsePingIP(pingString, reachable)`. When neither parenthesis is
      present the line is returned whole; otherwise the text from just after
      the first `(` (or from the start, when there is none) up to the first
      `)`, which throws when there is no `)` or it comes before the `(`. The
      `reachable` argument is unused. */
  function ParsePingIP(pingString: string, reachable: bool): (r: Throws<string>)
    ensures '(' !in pingString && ')' !in pingString ==> r == Returns(pingString)
    ensures var i, j := FirstIndex(pingString, '('), FirstIndex(pingString, ')');
            0 <= i < j ==> r == Returns(pingString[i + 1..j])
    ensures var j := FirstIndex(pingString, ')');
            '(' !in pingString && j != -1 ==> r == Returns(pingString[..j])
    ensures var i, j := FirstIndex(pingString, '('), FirstIndex(pingString, ')');
            i != -1 && j < i ==> r == Threw(StringIndexOutOfBounds)
  {
    var ipSubstrStart := FirstIndex(pingString, '(') + 1;
    var ipSubstrEnd := FirstIndex(pingString, ')');
    if ipSubstrStart > 0 || ipSubstrEnd > -1 then
      Substring(pingString, ipSubstrStart, ipSubstrEnd)
    else
      Returns(pingString)
  }

  /** `parsePingLatency(pingString)`, with `Double.parseDouble` a parameter
      that either returns a value or throws `NumberFormatException`. Without
      `time=` and ` ms` the result is -1. Otherwise the text from five past
      the first `time=` up to the first ` ms` is parsed; a missing `time=`
      makes that start 4, and a missing ` ms` makes the substring throw. */
  function ParsePingLatency(pingString: string, parseDouble: string -> Throws<real>): (r: Throws<real>)
    ensures IndexOf(pingString, "time=") == -1 && IndexOf(pingString, " ms") == -1 ==> r == Returns(-1.0)
    ensures var i, j := IndexOf(pingString, "time="), IndexOf(pingString, " ms");
            i != -1 && j != -1 && i + 5 <= j ==> r == parseDouble(pingString[i + 5..j])
    ensures var j := IndexOf(pingString, " ms");
            IndexOf(pingString, "time=") == -1 && 4 <= j ==> r == parseDouble(pingString[4..j])
    ensures var i, j := IndexOf(pingString, "time="), IndexOf(pingString, " ms");
            (i != -1 || j != -1) && !(0 <= i + 5 <= j) ==> r == Threw(StringIndexOutOfBounds)
  {
    var latencySubstrStart := IndexOf(pingString, "time=") + 5;
    var latencySubstrEnd := IndexOf(pingString, " ms");
    if latencySubstrStart > 4 || latencySubstrEnd > -1 then
      match Substring(pingString, latencySubstrStart, latencySubstrEnd)
      case Threw(e) => Threw(e)
      case Returns(latencySubstr) =>
        assert latencySubstr == pingString[latencySubstrStart..latencySubstrEnd];
        parseDouble(latencySubstr)
    else
      Returns(-1.0)
  }

  /** What `pingSite` hands to `handlePing`. */
  datatype ParsedPing = ParsedPing(reachable: bool, ip: string, latency: real)

  /** The line rule of `pingSite` as a specification: the address from line
      0, the latency from line 1 only for a reachable ping; the first
      exception ends the call. */
  function ParseOutput(lines: seq<string>, reachable: bool, parseDouble: string -> Throws<real>): Throws<ParsedPing> {
    if |lines| == 0 then Returns(ParsedPing(reachable, "", -1.0))
    else
      match ParsePingIP(lines[0], reachable)
      case Threw(e) => Threw(e)
      case Returns(ip) =>
        if reachable && |lines| > 1 then
          match ParsePingLatency(lines[1], parseDouble)
          case Threw(e) => Threw(e)
          case Returns(latency) => Returns(ParsedPing(reachable, ip, latency))
        else Returns(ParsedPing(reachable, ip, -1.0))
  }

  /** The read loop of `pingSite` (lines 254-268): a counter selects what
      each line is used for. */
  method ReadPingOutput(lines: seq<string>, reachable: bool, parseDouble: string -> Throws<real>) returns (r: Throws<ParsedPing>)
    ensures r == ParseOutput(lines, reachable, parseDouble)
    ensures r.Returns? ==> r.value.reachable == reachable
    ensures r.Returns? && !reachable ==> r.value.latency == -1.0
    ensures r.Returns? && |lines| == 0 ==> r.value.ip == ""
  {
    var pingLatency := -1.0;
    var pingReturnSite := "";
    var count := 0;
    while count < |lines|
      invariant 0 <= count <= |lines|
      invariant count == 0 ==> pingReturnSite == "" && pingLatency == -1.0
      invariant count >= 1 ==> ParsePingIP(lines[0], reachable) == Returns(pingReturnSite)
      invariant !(reachable && count >= 2) ==> pingLatency == -1.0
      invariant reachable && count >= 2 ==> ParsePingLatency(lines[1], parseDouble) == Returns(pingLatency)
      decreases |lines| - count
    {
      if count == 0 {
        var ip := ParsePingIP(lines[count], reachable);
        if ip.Threw? {
          return Threw(ip.exception);
        }
        pingReturnSite := ip.value;
      } else if reachable && count == 1 {
        var latency := ParsePingLatency(lines[count], parseDouble);
        if latency.Threw? {
          return Threw(latency.exception);
        }
        pingLatency := latency.value;
      }
      count := count + 1;
    }
    return Returns(ParsedPing(reachable, pingReturnSite, pingLatency));
  }

  /** `setOutageEmergency`, `setHoursForUpdate` and `setSampleSize`: the
      three constants of the legacy step are public fields with setters;
      `LEGACY_TUNING` holds their initial values. Each setter changes only its
      own field. */
  function SetOutageEmergency(t: Tuning, emergencyLimit: int): (r: Tuning)
    ensures r.outageEmergency == emergencyLimit
    ensures r.hoursForUpdate == t.hoursForUpdate && r.sampleSize == t.sampleSize
  {
    t.(outageEmergency := emergencyLimit)
  }

  function SetHoursForUpdate(t: Tuning, hours: int): (r: Tuning)
    ensures r.hoursForUpdate == hours
    ensures r.outageEmergency == t.outageEmergency && r.sampleSize == t.sampleSize
  {
    t.(hoursForUpdate := hours)
  }

  function SetSampleSize(t: Tuning, smplSize: int): (r: Tuning)
    ensures r.sampleSize == smplSize
    ensures r.outageEmergency == t.outageEmergency && r.hoursForUpdate == t.hoursForUpdate
  {
    t.(sampleSize := smplSize)
  }

  /** What the legacy `handlePing` reports: the two console lines printed at
      the start and the end of an emergency, and the one file-log line kept
      in the model, the slow-ping line. */
  datatype ReportedLine = EmergencyIn(site: string, at: Time) | EmergencyOver(site: string, at: Time) | SlowLine(site: string, at: Time, latency: real)

  function LineFor(siteName: string, p: Ping, e: Event): ReportedLine {
    match e
    case EmergencyBegan => EmergencyIn(siteName, p.now)
    case EmergencyEnded => EmergencyOver(siteName, p.now)
    case LatencySlow => SlowLine(siteName, p.now, p.latency)
  }

  /** `handlePing` of the root `PingThread`, with the thread's current
      `outageEmergency`, `hoursForUpdate` and `sampleSize` in `t`. */
  function LegacyHandlePing(t: Tuning, sqrt: real -> real, siteName: string, s: SiteState, p: Ping): (r: (SiteState, seq<ReportedLine>))
    requires OutageStartKnown(s)
    ensures Consistent(t, s) ==> Consistent(t, r.0)
    ensures r.0 == Step(t, sqrt, s, p).state
    ensures EmergencyIn(siteName, p.now) in r.1 <==>
              !p.reachable && s.wasSiteUnreachable && !s.needEmergencyNotification &&
              MoreDateFunctions.TimeDiffInSeconds(p.now, s.outageStart.value) > t.outageEmergency as real
    ensures EmergencyOver(siteName, p.now) in r.1 <==> p.reachable && s.wasSiteUnreachable && s.needEmergencyNotification
    ensures SlowLine(siteName, p.now, p.latency) in r.1 <==> p.reachable && IsSlow(s.sampler.site, p.latency)
    ensures p.reachable ==> !r.0.wasSiteUnreachable
    ensures !p.reachable ==> r.0.sampler == s.sampler
  {
    var step := Step(t, sqrt, s, p);
    var out := seq(|step.events|, k requires 0 <= k < |step.events| => LineFor(siteName, p, step.events[k]));
    assert forall k :: 0 <= k < |out| ==> out[k] == LineFor(siteName, p, step.events[k]);
    assert EmergencyBegan in step.events ==> EmergencyIn(siteName, p.now) in out;
    assert EmergencyEnded in step.events ==> EmergencyOver(siteName, p.now) in out;
    assert LatencySlow in step.events ==> SlowLine(siteName, p.now, p.latency) in out;
    (step.state, out)
  }

  /** With the initial constants the emergency threshold is 30 seconds; after
      `setOutageEmergency(n)` it is `n` seconds. */
  lemma LegacyThresholdFollowsSetter(sqrt: real -> real, siteName: string, s: SiteState, p: Ping, n: int)
    requires OutageStartKnown(s) && !p.reachable && s.wasSiteUnreachable && !s.needEmergencyNotification
    ensures EmergencyIn(siteName, p.now) in LegacyHandlePing(LEGACY_TUNING, sqrt, siteName, s, p).1 <==>
              MoreDateFunctions.TimeDiffInSeconds(p.now, s.outageStart.value) > 30.0
    ensures EmergencyIn(siteName, p.now) in LegacyHandlePing(SetOutageEmergency(LEGACY_TUNING, n), sqrt, siteName, s, p).1 <==>
              MoreDateFunctions.TimeDiffInSeconds(p.now, s.outageStart.value) > n as real
  {
  }
}
