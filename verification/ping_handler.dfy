/** `PingHandler.handlePing`: the shared outage step with the handler's
    constants (15 s, 5 h, 4000 samples), whose events become log inserts and
    updates of the shared emergency counter. The call of `checkReportSend`
    that opens `handlePing`, and the file log, are composed in `Monitor`. */
module PingHandlers {
  import opened JavaSemantics
  import opened MoreDateFunctions
  import opened PingSites
  import opened LatencyBaseline
  import opened SiteRecords
  import opened OutageTracking

  /** A side effect of `handlePing` on the shared database and report handler. */
  datatype Effect =
    | InsertLogEntry(siteName: string, statusNum: int, pingTime: Time, ipAddress: string, latency: real)
    | IncrementEmergency(at: Time)
    | DecrementEmergency(at: Time)

  /** The effects of one event, in the order `handlePing` performs them. */
  function EventEffects(siteName: string, p: Ping, e: Event): seq<Effect> {
    match e
    case EmergencyBegan =>
      [InsertLogEntry(siteName, STATUS_UNREACHABLE, p.now, p.ip, p.latency), IncrementEmergency(p.now)]
    case EmergencyEnded =>
      [InsertLogEntry(siteName, STATUS_REACHABLE_AGAIN, p.now, p.ip, p.latency), DecrementEmergency(p.now)]
    case LatencySlow =>
      [InsertLogEntry(siteName, STATUS_LATENCY_SLOW, p.now, p.ip, p.latency)]
  }

  function EffectsOf(siteName: string, p: Ping, events: seq<Event>): seq<Effect>
    decreases |events|
  {
    if |events| == 0 then [] else EventEffects(siteName, p, events[0]) + EffectsOf(siteName, p, events[1..])
  }

  /** The status numbers inserted by a list of effects, in order. */
  function Statuses(effects: seq<Effect>): seq<int>
    decreases |effects|
  {
    if |effects| == 0 then []
    else (if effects[0].InsertLogEntry? then [effects[0].statusNum] else []) + Statuses(effects[1..])
  }

  /** The net change a list of effects makes to the emergency counter. */
  function CounterDelta(effects: seq<Effect>): int
    decreases |effects|
  {
    if |effects| == 0 then 0
    else
      (match effects[0]
       case IncrementEmergency(_) => 1
       case DecrementEmergency(_) => -1
       case InsertLogEntry(_, _, _, _, _) => 0)
      + CounterDelta(effects[1..])
  }

  /** No effect of the list decrements the counter. */
  predicate DecrementFree(effects: seq<Effect>) {
    forall k :: 0 <= k < |effects| ==> !effects[k].DecrementEmergency?
  }

  /** Every effect is a well-formed log insert for this ping, or a counter
      update stamped with its time. */
  predicate EffectsFor(siteName: string, p: Ping, effects: seq<Effect>) {
    forall k :: 0 <= k < |effects| ==> EffectFor(siteName, p, effects[k])
  }

  predicate EffectFor(siteName: string, p: Ping, effect: Effect) {
    match effect
    case InsertLogEntry(name, status, at, ip, latency) =>
      name == siteName && at == p.now && ip == p.ip && latency == p.latency &&
      status in {STATUS_UNREACHABLE, STATUS_REACHABLE_AGAIN, STATUS_LATENCY_SLOW}
    case IncrementEmergency(at) => at == p.now
    case DecrementEmergency(at) => at == p.now
  }

  lemma {:induction false} EffectsOfAppend(siteName: string, p: Ping, a: seq<Event>, b: seq<Event>)
    ensures EffectsOf(siteName, p, a + b) == EffectsOf(siteName, p, a) + EffectsOf(siteName, p, b)
    decreases |a|
  {
    if |a| > 0 {
      assert (a + b)[1..] == a[1..] + b;
      EffectsOfAppend(siteName, p, a[1..], b);
    } else {
      assert a + b == b;
    }
  }

  lemma EffectsForAppend(siteName: string, p: Ping, a: seq<Effect>, b: seq<Effect>)
    requires EffectsFor(siteName, p, a) && EffectsFor(siteName, p, b)
    ensures EffectsFor(siteName, p, a + b)
  {
    forall k | 0 <= k < |a + b|
      ensures EffectFor(siteName, p, (a + b)[k])
    {
      if k < |a| {
        assert (a + b)[k] == a[k];
      } else {
        assert (a + b)[k] == b[k - |a|];
      }
    }
  }

  lemma {:induction false} StatusesAppend(a: seq<Effect>, b: seq<Effect>)
    ensures Statuses(a + b) == Statuses(a) + Statuses(b)
    ensures CounterDelta(a + b) == CounterDelta(a) + CounterDelta(b)
    decreases |a|
  {
    if |a| > 0 {
      assert (a + b)[1..] == a[1..] + b;
      StatusesAppend(a[1..], b);
    } else {
      assert a + b == b;
    }
  }

  function StatusOf(e: Event): int {
    match e
    case EmergencyBegan => STATUS_UNREACHABLE
    case EmergencyEnded => STATUS_REACHABLE_AGAIN
    case LatencySlow => STATUS_LATENCY_SLOW
  }

  function DeltaOf(e: Event): int {
    match e
    case EmergencyBegan => 1
    case EmergencyEnded => -1
    case LatencySlow => 0
  }

  lemma SingleEffect(x: Effect)
    ensures Statuses([x]) == if x.InsertLogEntry? then [x.statusNum] else []
    ensures CounterDelta([x]) == match x
                                 case IncrementEmergency(_) => 1
                                 case DecrementEmergency(_) => -1
                                 case InsertLogEntry(_, _, _, _, _) => 0
  {
    assert [x][1..] == [];
  }

  /** Each event inserts exactly its own status and moves the counter by its
      own delta. */
  lemma EventEffectsShape(siteName: string, p: Ping, e: Event)
    ensures EffectsFor(siteName, p, EventEffects(siteName, p, e))
    ensures Statuses(EventEffects(siteName, p, e)) == [StatusOf(e)]
    ensures CounterDelta(EventEffects(siteName, p, e)) == DeltaOf(e)
  {
    var fx := EventEffects(siteName, p, e);
    if e.LatencySlow? {
      SingleEffect(fx[0]);
    } else {
      assert fx == [fx[0]] + [fx[1]];
      SingleEffect(fx[0]);
      SingleEffect(fx[1]);
      StatusesAppend([fx[0]], [fx[1]]);
    }
  }

  lemma EffectsOfSingle(siteName: string, p: Ping, e: Event)
    ensures EffectsOf(siteName, p, [e]) == EventEffects(siteName, p, e)
  {
    assert [e][1..] == [];
  }

  lemma EffectsOfPair(siteName: string, p: Ping, e0: Event, e1: Event)
    ensures EffectsFor(siteName, p, EffectsOf(siteName, p, [e0, e1]))
    ensures Statuses(EffectsOf(siteName, p, [e0, e1])) == [StatusOf(e0), StatusOf(e1)]
    ensures CounterDelta(EffectsOf(siteName, p, [e0, e1])) == DeltaOf(e0) + DeltaOf(e1)
  {
    var a, b := EventEffects(siteName, p, e0), EventEffects(siteName, p, e1);
    EventEffectsShape(siteName, p, e0);
    EventEffectsShape(siteName, p, e1);
    EffectsOfSingle(siteName, p, e0);
    EffectsOfSingle(siteName, p, e1);
    assert [e0, e1] == [e0] + [e1];
    EffectsOfAppend(siteName, p, [e0], [e1]);
    EffectsForAppend(siteName, p, a, b);
    StatusesAppend(a, b);
  }

  /** A list of at most two events: its statuses, and its counter delta as
      the number of begun minus ended emergencies. */
  lemma EffectsOfSmall(siteName: string, p: Ping, events: seq<Event>)
    requires |events| <= 2
    ensures EffectsFor(siteName, p, EffectsOf(siteName, p, events))
    ensures |Statuses(EffectsOf(siteName, p, events))| == |events|
    ensures forall k :: 0 <= k < |events| ==> Statuses(EffectsOf(siteName, p, events))[k] == StatusOf(events[k])
    ensures CounterDelta(EffectsOf(siteName, p, events)) == Count(events, EmergencyBegan) - Count(events, EmergencyEnded)
  {
    if |events| == 1 {
      assert events == [events[0]];
      EffectsOfOne(siteName, p, events[0]);
    } else if |events| == 2 {
      assert events == [events[0], events[1]];
      EffectsOfTwo(siteName, p, events[0], events[1]);
    }
  }

  lemma EffectsOfOne(siteName: string, p: Ping, e: Event)
    ensures EffectsFor(siteName, p, EffectsOf(siteName, p, [e]))
    ensures Statuses(EffectsOf(siteName, p, [e])) == [StatusOf(e)]
    ensures CounterDelta(EffectsOf(siteName, p, [e])) == Count([e], EmergencyBegan) - Count([e], EmergencyEnded)
  {
    EventEffectsShape(siteName, p, e);
    EffectsOfSingle(siteName, p, e);
    assert multiset([e]) == multiset{e};
  }

  lemma EffectsOfTwo(siteName: string, p: Ping, e0: Event, e1: Event)
    ensures EffectsFor(siteName, p, EffectsOf(siteName, p, [e0, e1]))
    ensures Statuses(EffectsOf(siteName, p, [e0, e1])) == [StatusOf(e0), StatusOf(e1)]
    ensures CounterDelta(EffectsOf(siteName, p, [e0, e1])) == Count([e0, e1], EmergencyBegan) - Count([e0, e1], EmergencyEnded)
  {
    EffectsOfPair(siteName, p, e0, e1);
    assert multiset([e0, e1]) == multiset{e0, e1};
  }

  /** The statuses a step's events insert. */
  lemma StatusesOfEvents(st: seq<int>, events: seq<Event>)
    requires |st| == |events|
    requires forall k :: 0 <= k < |events| ==> st[k] == StatusOf(events[k])
    ensures STATUS_UNREACHABLE in st <==> EmergencyBegan in events
    ensures STATUS_REACHABLE_AGAIN in st <==> EmergencyEnded in events
    ensures STATUS_LATENCY_SLOW in st <==> LatencySlow in events
  {
  }

  datatype HandlerOutcome = HandlerOutcome(state: SiteState, effects: seq<Effect>)

  /** `handlePing(reachable, pingIP, pingLatency)` at time `now`. */
  function HandlePing(sqrt: real -> real, s: SiteState, p: Ping): (r: HandlerOutcome)
    requires OutageStartKnown(s)
    ensures OutageStartKnown(r.state)
    ensures Consistent(HANDLER_TUNING, s) ==> Consistent(HANDLER_TUNING, r.state)
    ensures r.state == Step(HANDLER_TUNING, sqrt, s, p).state
    ensures EffectsFor(s.sampler.site.name, p, r.effects)
    ensures STATUS_UNREACHABLE in Statuses(r.effects) <==>
              !p.reachable && s.wasSiteUnreachable && !s.needEmergencyNotification &&
              TimeDiffInSeconds(p.now, s.outageStart.value) > 15.0
    ensures STATUS_REACHABLE_AGAIN in Statuses(r.effects) <==>
              p.reachable && s.wasSiteUnreachable && s.needEmergencyNotification
    ensures STATUS_LATENCY_SLOW in Statuses(r.effects) <==> p.reachable && IsSlow(s.sampler.site, p.latency)
    ensures |Statuses(r.effects)| <= 2
    ensures Consistent(HANDLER_TUNING, s) ==>
              CounterDelta(r.effects) == Flag(r.state.needEmergencyNotification) - Flag(s.needEmergencyNotification)
  {
    var step := Step(HANDLER_TUNING, sqrt, s, p);
    EffectsOfSmall(s.sampler.site.name, p, step.events);
    StatusesOfEvents(Statuses(EffectsOf(s.sampler.site.name, p, step.events)), step.events);
    var outcome := HandlerOutcome(step.state, EffectsOf(s.sampler.site.name, p, step.events));
    if Consistent(HANDLER_TUNING, s) then
      AlternationBalance(step.events, s.needEmergencyNotification);
      outcome
    else
      outcome
  }

  /** The effects of an unreachable ping: nothing, or the status-1 insert
      followed by the increment. */
  lemma HandlePingWhenUnreachable(sqrt: real -> real, s: SiteState, p: Ping)
    requires OutageStartKnown(s) && !p.reachable
    ensures var r := HandlePing(sqrt, s, p);
            r.effects == [] ||
            r.effects == [InsertLogEntry(s.sampler.site.name, STATUS_UNREACHABLE, p.now, p.ip, p.latency), IncrementEmergency(p.now)]
  {
    var step := Step(HANDLER_TUNING, sqrt, s, p);
    if step.events != [] {
      assert step.events == [EmergencyBegan];
      EffectsOfSingle(s.sampler.site.name, p, EmergencyBegan);
    }
  }

  /** The effects of a recovery from an emergency: the status-2 insert, the
      decrement, and then at most a status-3 insert. */
  lemma HandlePingWhenRecovering(sqrt: real -> real, s: SiteState, p: Ping)
    requires OutageStartKnown(s) && p.reachable && s.wasSiteUnreachable && s.needEmergencyNotification
    ensures var r := HandlePing(sqrt, s, p);
            |r.effects| >= 2 &&
            r.effects[..2] == [InsertLogEntry(s.sampler.site.name, STATUS_REACHABLE_AGAIN, p.now, p.ip, p.latency),
                               DecrementEmergency(p.now)] &&
            DecrementFree(r.effects[2..])
  {
    var step := Step(HANDLER_TUNING, sqrt, s, p);
    var name := s.sampler.site.name;
    var tail := step.events[1..];
    assert step.events == [EmergencyEnded] + tail;
    assert tail == [] || tail == [LatencySlow];
    var fx := EffectsOf(name, p, step.events);
    assert fx == EventEffects(name, p, EmergencyEnded) + EffectsOf(name, p, tail);
    assert fx[2..] == EffectsOf(name, p, tail);
    if tail != [] {
      EffectsOfSingle(name, p, LatencySlow);
    }
  }

  /** Any other reachable ping inserts at most a status-3 record. */
  lemma HandlePingWhenReachable(sqrt: real -> real, s: SiteState, p: Ping)
    requires OutageStartKnown(s) && p.reachable && !(s.wasSiteUnreachable && s.needEmergencyNotification)
    ensures var r := HandlePing(sqrt, s, p);
            r.effects == [] ||
            r.effects == [InsertLogEntry(s.sampler.site.name, STATUS_LATENCY_SLOW, p.now, p.ip, p.latency)]
  {
    var step := Step(HANDLER_TUNING, sqrt, s, p);
    assert step.events == [] || step.events == [LatencySlow];
    if step.events != [] {
      EffectsOfSingle(s.sampler.site.name, p, LatencySlow);
    }
  }
}
