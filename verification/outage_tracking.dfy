/** The per-site outage and latency state machine shared by
    `PingHandler.handlePing` and the older root `PingThread.handlePing`. One
    step takes the flag state, the latency buffer and one ping, and returns
    the new state and the events it raises; each caller turns the events
    into its own side effects (log inserts and counter updates, or console
    lines). The two callers differ only in their `Tuning` constants. */
module OutageTracking {
  import opened JavaSemantics
  import opened MoreDateFunctions
  import opened PingSites
  import opened LatencyBaseline

  /** Seconds of outage before an emergency, hours-of-cycle threshold for
      sampling, and the number of samples per recalculation. */
  datatype Tuning = Tuning(outageEmergency: int, hoursForUpdate: int, sampleSize: int)

  /** The constants of `PingHandler`. */
  const HANDLER_TUNING: Tuning := Tuning(15, 5, 4000)

  /** The initial constants of the root `PingThread`; its setters change them. */
  const LEGACY_TUNING: Tuning := Tuning(30, 6, 4000)

  /** One ping result together with the time it was handled. */
  datatype Ping = Ping(reachable: bool, ip: string, latency: real, now: Time)

  /** What a step reports: an outage crossed the emergency threshold, an
      emergency outage ended, or a reachable ping was slow. */
  datatype Event = EmergencyBegan | EmergencyEnded | LatencySlow

  datatype SiteState = SiteState(
    wasSiteUnreachable: bool,
    needEmergencyNotification: bool,
    outageStart: Option<Time>,
    sampler: Sampler)

  /** `outageStart` is `null` only before the first failure. */
  predicate OutageStartKnown(s: SiteState) {
    s.wasSiteUnreachable ==> s.outageStart.Some?
  }

  /** The invariant every reachable state keeps. */
  predicate Consistent(t: Tuning, s: SiteState) {
    && (s.needEmergencyNotification ==> s.wasSiteUnreachable)
    && OutageStartKnown(s)
    && |s.sampler.latencyValues| < t.sampleSize
  }

  /** The state a handler starts in: no outage, an empty buffer, and
      `lastRecalculated` set to the creation time. */
  function NewSiteState(t: Tuning, site: PingSite, now: Time): (s: SiteState)
    requires t.sampleSize > 0
    ensures Consistent(t, s)
    ensures !s.wasSiteUnreachable && !s.needEmergencyNotification
    ensures s.sampler.site == site && s.sampler.latencyValues == [] && s.sampler.lastRecalculated == now
  {
    SiteState(false, false, None, Sampler(site, [], now))
  }

  /** `resetEmergencyReporting`: both flags cleared together. */
  function ResetEmergencyReporting(s: SiteState): (r: SiteState)
    ensures !r.wasSiteUnreachable && !r.needEmergencyNotification
    ensures r.outageStart == s.outageStart && r.sampler == s.sampler
  {
    s.(wasSiteUnreachable := false, needEmergencyNotification := false)
  }

  function Toggle(e: Event, open: bool): bool {
    match e
    case EmergencyBegan => true
    case EmergencyEnded => false
    case LatencySlow => open
  }

  function Allowed(e: Event, open: bool): bool {
    match e
    case EmergencyBegan => !open
    case EmergencyEnded => open
    case LatencySlow => true
  }

  /** Emergencies open and close strictly alternately, starting from `open`. */
  predicate Alternates(events: seq<Event>, open: bool)
    decreases |events|
  {
    |events| == 0 || (Allowed(events[0], open) && Alternates(events[1..], Toggle(events[0], open)))
  }

  /** Whether an emergency is open after `events`. */
  function OpenAfter(events: seq<Event>, open: bool): bool
    decreases |events|
  {
    if |events| == 0 then open else OpenAfter(events[1..], Toggle(events[0], open))
  }

  function Count(events: seq<Event>, e: Event): nat {
    multiset(events)[e]
  }

  function Flag(b: bool): int {
    if b then 1 else 0
  }

  datatype StepResult = StepResult(state: SiteState, events: seq<Event>)

  /** One call of `handlePing`. */
  function Step(t: Tuning, sqrt: real -> real, s: SiteState, p: Ping): (r: StepResult)
    requires OutageStartKnown(s)
    ensures OutageStartKnown(r.state)
    ensures Consistent(t, s) ==> Consistent(t, r.state)
    ensures r.state.sampler.site.name == s.sampler.site.name
    ensures r.state.sampler.site.address == s.sampler.site.address
    // the first failure only arms the outage clock
    ensures !p.reachable && !s.wasSiteUnreachable ==>
              r.events == [] && r.state.wasSiteUnreachable && r.state.outageStart == Some(p.now) &&
              r.state.needEmergencyNotification == s.needEmergencyNotification && r.state.sampler == s.sampler
    // an emergency begins once per outage, strictly after the threshold
    ensures EmergencyBegan in r.events <==>
              !p.reachable && s.wasSiteUnreachable && !s.needEmergencyNotification &&
              TimeDiffInSeconds(p.now, s.outageStart.value) > t.outageEmergency as real
    ensures EmergencyEnded in r.events <==>
              p.reachable && s.wasSiteUnreachable && s.needEmergencyNotification
    ensures LatencySlow in r.events <==> p.reachable && IsSlow(s.sampler.site, p.latency)
    ensures |r.events| <= 2
    ensures Consistent(t, s) ==>
              Alternates(r.events, s.needEmergencyNotification) &&
              OpenAfter(r.events, s.needEmergencyNotification) == r.state.needEmergencyNotification
    // unreachable pings never touch the baseline and leave the site down
    ensures !p.reachable ==> r.state.sampler == s.sampler && r.state.wasSiteUnreachable
    ensures !p.reachable ==> r.state.needEmergencyNotification == (s.needEmergencyNotification || EmergencyBegan in r.events)
    // a reachable ping ends any outage and feeds the buffer only in the window
    ensures p.reachable ==> !r.state.wasSiteUnreachable
    ensures p.reachable && Consistent(t, s) ==> !r.state.needEmergencyNotification
    ensures p.reachable && !InUpdateWindow(t.hoursForUpdate, p.now, s.sampler.lastRecalculated) ==>
              r.state.sampler == s.sampler
    ensures p.reachable && InUpdateWindow(t.hoursForUpdate, p.now, s.sampler.lastRecalculated) ==>
              r.state.sampler == AddSample(t.sampleSize, sqrt, s.sampler, p.latency, p.now)
  {
    if p.reachable then
      var ended := if s.wasSiteUnreachable && s.needEmergencyNotification then [EmergencyEnded] else [];
      var reset := if s.wasSiteUnreachable then ResetEmergencyReporting(s) else s;
      var slow := if IsSlow(s.sampler.site, p.latency) then [LatencySlow] else [];
      var sampler :=
        if InUpdateWindow(t.hoursForUpdate, p.now, s.sampler.lastRecalculated)
        then AddSample(t.sampleSize, sqrt, s.sampler, p.latency, p.now)
        else s.sampler;
      StepResult(reset.(sampler := sampler), ended + slow)
    else if s.wasSiteUnreachable then
      if TimeDiffInSeconds(p.now, s.outageStart.value) > t.outageEmergency as real && !s.needEmergencyNotification then
        StepResult(s.(needEmergencyNotification := true), [EmergencyBegan])
      else
        StepResult(s, [])
    else
      StepResult(s.(wasSiteUnreachable := true, outageStart := Some(p.now)), [])
  }

  lemma {:induction false} AlternatesAppend(a: seq<Event>, b: seq<Event>, open: bool)
    ensures Alternates(a + b, open) <==> Alternates(a, open) && Alternates(b, OpenAfter(a, open))
    ensures OpenAfter(a + b, open) == OpenAfter(b, OpenAfter(a, open))
    decreases |a|
  {
    if |a| > 0 {
      assert (a + b)[1..] == a[1..] + b;
      AlternatesAppend(a[1..], b, Toggle(a[0], open));
    } else {
      assert a + b == b;
    }
  }

  /** Handle a sequence of pings in order, collecting the events. */
  function Run(t: Tuning, sqrt: real -> real, s: SiteState, pings: seq<Ping>): (r: StepResult)
    requires OutageStartKnown(s)
    ensures OutageStartKnown(r.state)
    ensures Consistent(t, s) ==> Consistent(t, r.state)
    ensures Consistent(t, s) ==>
              Alternates(r.events, s.needEmergencyNotification) &&
              OpenAfter(r.events, s.needEmergencyNotification) == r.state.needEmergencyNotification
    ensures r.state.sampler.site.name == s.sampler.site.name
    ensures r.state.sampler.site.address == s.sampler.site.address
    decreases |pings|
  {
    if |pings| == 0 then StepResult(s, [])
    else
      var first := Step(t, sqrt, s, pings[0]);
      var rest := Run(t, sqrt, first.state, pings[1..]);
      AlternatesAppend(first.events, rest.events, s.needEmergencyNotification);
      StepResult(rest.state, first.events + rest.events)
  }

  /** Strict alternation means the emergencies opened minus those closed is
      the change of the open flag. */
  lemma {:induction false} AlternationBalance(events: seq<Event>, open: bool)
    requires Alternates(events, open)
    ensures Count(events, EmergencyBegan) - Count(events, EmergencyEnded) == Flag(OpenAfter(events, open)) - Flag(open)
    decreases |events|
  {
    if |events| > 0 {
      AlternationBalance(events[1..], Toggle(events[0], open));
      assert events == [events[0]] + events[1..];
      assert multiset(events) == multiset([events[0]]) + multiset(events[1..]);
    }
  }

  /** Over any ping sequence, emergencies begun minus emergencies ended equals
      the change of `needEmergencyNotification`; from a state with no
      emergency it is 0 or 1 and equals the final flag. */
  lemma RunBalance(t: Tuning, sqrt: real -> real, s: SiteState, pings: seq<Ping>)
    requires Consistent(t, s)
    ensures var r := Run(t, sqrt, s, pings);
            Count(r.events, EmergencyBegan) - Count(r.events, EmergencyEnded) ==
            Flag(r.state.needEmergencyNotification) - Flag(s.needEmergencyNotification)
    ensures !s.needEmergencyNotification ==>
              var r := Run(t, sqrt, s, pings);
              Count(r.events, EmergencyBegan) - Count(r.events, EmergencyEnded) == Flag(r.state.needEmergencyNotification)
  {
    var r := Run(t, sqrt, s, pings);
    AlternationBalance(r.events, s.needEmergencyNotification);
  }

  /** During an uninterrupted outage the emergency begins at most once, and
      not at all if it had already begun. */
  lemma {:induction false} OutageAlertsAtMostOnce(t: Tuning, sqrt: real -> real, s: SiteState, pings: seq<Ping>)
    requires Consistent(t, s)
    requires forall k :: 0 <= k < |pings| ==> !pings[k].reachable
    ensures var r := Run(t, sqrt, s, pings);
            Count(r.events, EmergencyBegan) == Flag(r.state.needEmergencyNotification) - Flag(s.needEmergencyNotification) &&
            Count(r.events, EmergencyBegan) <= 1 &&
            Count(r.events, EmergencyEnded) == 0
    decreases |pings|
  {
    var r := Run(t, sqrt, s, pings);
    if |pings| == 0 {
      assert r.events == [];
    } else {
      var first := Step(t, sqrt, s, pings[0]);
      OutageAlertsAtMostOnce(t, sqrt, first.state, pings[1..]);
      var rest := Run(t, sqrt, first.state, pings[1..]);
      assert r.events == first.events + rest.events;
      assert multiset(r.events) == multiset(first.events) + multiset(rest.events);
      assert first.events == [] || first.events == [EmergencyBegan];
    }
  }

  /** An outage whose pings all stay within the threshold of the first
      failure raises no emergency, and the reachable ping that ends it raises
      no "reachable again" either. */
  lemma SubThresholdOutageIsSilent(t: Tuning, sqrt: real -> real, s: SiteState, pings: seq<Ping>, back: Ping)
    requires Consistent(t, s) && !s.wasSiteUnreachable
    requires |pings| > 0
    requires forall k :: 0 <= k < |pings| ==> !pings[k].reachable
    requires forall k :: 0 <= k < |pings| ==> TimeDiffInSeconds(pings[k].now, pings[0].now) <= t.outageEmergency as real
    requires back.reachable
    ensures var r := Run(t, sqrt, s, pings + [back]);
            EmergencyBegan !in r.events && EmergencyEnded !in r.events && !r.state.wasSiteUnreachable
  {
    var first := Step(t, sqrt, s, pings[0]);
    assert first.events == [] && first.state.outageStart == Some(pings[0].now);
    SilentWhileBelowThreshold(t, sqrt, first.state, pings[1..], pings[0].now);
    RunAppend(t, sqrt, s, pings, [back]);
    var mid := Run(t, sqrt, s, pings);
    assert pings == [pings[0]] + pings[1..];
    assert mid == StepResult(Run(t, sqrt, first.state, pings[1..]).state, first.events + Run(t, sqrt, first.state, pings[1..]).events);
    var last := Run(t, sqrt, mid.state, [back]);
    assert last.events == Step(t, sqrt, mid.state, back).events + [];
  }

  lemma {:induction false} SilentWhileBelowThreshold(t: Tuning, sqrt: real -> real, s: SiteState, pings: seq<Ping>, start: Time)
    requires Consistent(t, s) && s.wasSiteUnreachable && !s.needEmergencyNotification && s.outageStart == Some(start)
    requires forall k :: 0 <= k < |pings| ==> !pings[k].reachable
    requires forall k :: 0 <= k < |pings| ==> TimeDiffInSeconds(pings[k].now, start) <= t.outageEmergency as real
    ensures var r := Run(t, sqrt, s, pings);
            r.events == [] && r.state.wasSiteUnreachable && !r.state.needEmergencyNotification
    decreases |pings|
  {
    if |pings| > 0 {
      var first := Step(t, sqrt, s, pings[0]);
      assert first == StepResult(s, []);
      SilentWhileBelowThreshold(t, sqrt, s, pings[1..], start);
    }
  }

  /** Running two ping sequences one after the other is running their
      concatenation. */
  lemma {:induction false} RunAppend(t: Tuning, sqrt: real -> real, s: SiteState, a: seq<Ping>, b: seq<Ping>)
    requires OutageStartKnown(s)
    ensures var ra := Run(t, sqrt, s, a);
            var rb := Run(t, sqrt, ra.state, b);
            Run(t, sqrt, s, a + b) == StepResult(rb.state, ra.events + rb.events)
    decreases |a|
  {
    if |a| > 0 {
      var first := Step(t, sqrt, s, a[0]);
      assert (a + b)[0] == a[0] && (a + b)[1..] == a[1..] + b;
      RunAppend(t, sqrt, first.state, a[1..], b);
      var ra := Run(t, sqrt, first.state, a[1..]);
      var rb := Run(t, sqrt, ra.state, b);
      assert first.events + (ra.events + rb.events) == (first.events + ra.events) + rb.events;
    } else {
      assert a + b == b;
    }
  }
}
