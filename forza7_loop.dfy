/**
 * One iteration of the Forza 7 reader's receive loop (udpReadLoop), as a
 * function of the loop's state and of what that iteration observes, and the
 * properties of whole runs of the loop: edge-triggered gear and ABS
 * delivery, RPM on every accepted packet, and the once-a-second heartbeat.
 */
module Forza7Loop {
  import opened Wrappers
  import opened SimTelemetry
  import opened Forza7Packet

  const HeartbeatPeriodMs: nat := 1000
  /** The values the reader starts with before any packet: neutral, ABS off. */
  const InitialGear: int := 0
  const InitialAbs: bool := false

  /**
   * What the loop remembers between iterations: the last gear and ABS flag
   * delivered (members of the reader) and the time of the last heartbeat
   * (a local of the loop, set when the loop starts).
   */
  datatype LoopState = LoopState(lastGear: int, lastAbs: bool, lastHeartbeatMs: int)

  /** One iteration's inputs: what the non-blocking receive returned and the clock reading after it. */
  datatype Tick = Tick(poll: Poll, nowMs: nat)

  /** The state after some iterations and the listener calls they made. */
  datatype Outcome = Outcome(state: LoopState, events: seq<Event>)

  /** The reader starts in neutral with ABS off; the heartbeat timer starts when the loop does. */
  function InitialLoopState(startMs: int): (s: LoopState)
    ensures s.lastGear == InitialGear && s.lastAbs == InitialAbs && s.lastHeartbeatMs == startMs
  {
    LoopState(InitialGear, InitialAbs, startMs)
  }

  /** Integer division rounding toward zero, as a duration_cast to a coarser unit does. */
  function TruncDiv(a: int, b: nat): (q: int)
    requires b > 0
    ensures a >= 0 ==> 0 <= q && q * b <= a < q * b + b
    ensures a < 0 ==> q <= 0 && q * b - b < a <= q * b
  {
    if a >= 0 then a / b else -((-a) / b)
  }

  /** The heartbeat test: the elapsed time, cut to whole seconds, is at least one. */
  function HeartbeatDue(lastMs: int, nowMs: int): (due: bool)
    ensures due <==> nowMs - lastMs >= HeartbeatPeriodMs
  {
    TruncDiv(nowMs - lastMs, 1000) >= 1
  }

  /** The listener calls for one decoded packet and the edge-detection update. */
  function PacketStep(s: LoopState, hasListener: bool, f: DashFrame): (o: Outcome)
    ensures o.state.lastHeartbeatMs == s.lastHeartbeatMs
    ensures |o.events| <= 3 && forall e :: e in o.events ==> !e.Heartbeat?
  {
    if !hasListener then Outcome(s, [])
    else
      var gearEvents := if f.gear != s.lastGear then [UpdateGear(f.gear)] else [];
      var absActive := f.absRaw != 0;
      var absEvents := if s.lastAbs != absActive then [UpdateAbs(absActive)] else [];
      Outcome(s.(lastGear := f.gear, lastAbs := absActive), [UpdateRpm(f.rpmBits)] + gearEvents + absEvents)
  }

  /** The heartbeat check at the end of every iteration, with or without a packet. */
  function HeartbeatStep(s: LoopState, hasListener: bool, nowMs: nat): (o: Outcome)
    ensures o.state.lastGear == s.lastGear && o.state.lastAbs == s.lastAbs
    ensures |o.events| <= 1 && forall e :: e in o.events ==> e == Heartbeat(Connected, nowMs)
  {
    if HeartbeatDue(s.lastHeartbeatMs, nowMs) then
      Outcome(s.(lastHeartbeatMs := nowMs), if hasListener then [Heartbeat(Connected, nowMs)] else [])
    else
      Outcome(s, [])
  }

  /** The packet half of an iteration: decode and deliver if the receive returned exactly a Dash packet. */
  function PacketPhase(s: LoopState, hasListener: bool, poll: Poll): (o: Outcome)
    ensures o.state.lastHeartbeatMs == s.lastHeartbeatMs && |o.events| <= 3
    ensures AcceptedPacket(poll).None? ==> o == Outcome(s, [])
    ensures AcceptedPacket(poll).Some? ==> o == PacketStep(s, hasListener, DecodeDash(poll.bytes))
  {
    match AcceptedPacket(poll)
    case Some(packet) => PacketStep(s, hasListener, DecodeDash(packet))
    case None => Outcome(s, [])
  }

  /** One whole iteration: receive, decode if the length is right, then the heartbeat check. */
  function StepSpec(s: LoopState, hasListener: bool, t: Tick): (o: Outcome)
    ensures |o.events| <= 4
    ensures !hasListener ==> o.events == []
  {
    var afterPacket := PacketPhase(s, hasListener, t.poll);
    var afterBeat := HeartbeatStep(afterPacket.state, hasListener, t.nowMs);
    Outcome(afterBeat.state, afterPacket.events + afterBeat.events)
  }

  /** The iterations over `ticks`, in order, starting from `s`. */
  function RunSpec(s: LoopState, hasListener: bool, ticks: seq<Tick>): (o: Outcome)
    ensures |o.events| <= 4 * |ticks|
  {
    if ticks == [] then Outcome(s, [])
    else
      var before := RunSpec(s, hasListener, ticks[..|ticks| - 1]);
      var last := StepSpec(before.state, hasListener, ticks[|ticks| - 1]);
      Outcome(last.state, before.events + last.events)
  }

  /** Running over one more tick of `ticks` is one more iteration after the shorter run. */
  lemma RunSpecPrefix(s: LoopState, hasListener: bool, ticks: seq<Tick>, i: nat)
    requires i < |ticks|
    ensures var before := RunSpec(s, hasListener, ticks[..i]);
      var last := StepSpec(before.state, hasListener, ticks[i]);
      RunSpec(s, hasListener, ticks[..i + 1]) == Outcome(last.state, before.events + last.events)
  {
    assert ticks[..i + 1][..i] == ticks[..i];
  }

  /** Clock readings never go backwards (a steady clock). */
  ghost predicate Monotone(ticks: seq<Tick>)
  {
    forall i :: 0 < i < |ticks| ==> ticks[i - 1].nowMs <= ticks[i].nowMs
  }

  // ---------------------------------------------------------------------
  // One packet

  /**
   * With a listener, an accepted packet makes exactly one RPM call, first;
   * a gear call iff the gear changed; an ABS call iff the flag changed; gear
   * before ABS; nothing else. Afterwards the remembered values are the new ones.
   */
  lemma PacketStepEmits(s: LoopState, f: DashFrame)
    ensures var o := PacketStep(s, true, f);
      && o.events != [] && o.events[0] == UpdateRpm(f.rpmBits)
      && (forall i :: 0 < i < |o.events| ==> o.events[i].UpdateGear? || o.events[i].UpdateAbs?)
      && (forall g :: UpdateGear(g) in o.events <==> g == f.gear && f.gear != s.lastGear)
      && (forall a :: UpdateAbs(a) in o.events <==> a == (f.absRaw != 0) && a != s.lastAbs)
      && (forall i, j :: 0 <= i < j < |o.events| && o.events[i].UpdateAbs? ==> !o.events[j].UpdateGear?)
      && |o.events| == 1 + (if f.gear != s.lastGear then 1 else 0) + (if (f.absRaw != 0) != s.lastAbs then 1 else 0)
      && o.state == LoopState(f.gear, f.absRaw != 0, s.lastHeartbeatMs)
  {
  }

  /** Without a listener a packet makes no call and the remembered values stay. */
  lemma PacketStepWithoutListener(s: LoopState, f: DashFrame)
    ensures PacketStep(s, false, f) == Outcome(s, [])
  {
  }

  /** The same packet twice in a row: the second makes only the RPM call. */
  lemma RepeatedFrameOnlyRpm(s: LoopState, f: DashFrame)
    ensures PacketStep(PacketStep(s, true, f).state, true, f).events == [UpdateRpm(f.rpmBits)]
  {
  }

  /** The first packet in neutral with ABS off makes only the RPM call, as the reader starts at gear 0, ABS off. */
  lemma FirstNeutralPacketOnlyRpm(startMs: int, packet: seq<Byte>)
    requires |packet| == DashPacketSize
    requires packet[GearOffset] == 0 && packet[AbsOffset] == 0
    ensures PacketStep(InitialLoopState(startMs), true, DecodeDash(packet)).events
         == [UpdateRpm(ReadWord32(packet, RpmOffset))]
  {
  }

  // ---------------------------------------------------------------------
  // One iteration

  /**
   * A heartbeat fires iff a whole second has passed since the last one; it
   * reports Connected with the current time, and only then is the timer reset.
   * Either way the time since the last heartbeat is under a second afterwards.
   */
  lemma HeartbeatStepFires(s: LoopState, hasListener: bool, nowMs: nat)
    ensures var o := HeartbeatStep(s, hasListener, nowMs);
      && (nowMs - s.lastHeartbeatMs >= HeartbeatPeriodMs ==>
            o.state == s.(lastHeartbeatMs := nowMs)
            && o.events == (if hasListener then [Heartbeat(Connected, nowMs)] else []))
      && (nowMs - s.lastHeartbeatMs < HeartbeatPeriodMs ==> o == Outcome(s, []))
      && nowMs - o.state.lastHeartbeatMs < HeartbeatPeriodMs
  {
  }

  /**
   * A datagram of any length other than 324 bytes, or no datagram, leaves the
   * remembered gear and ABS flag alone; the iteration can only make a heartbeat call.
   */
  lemma DroppedDatagramOnlyHeartbeat(s: LoopState, hasListener: bool, t: Tick)
    requires !(t.poll.Datagram? && |t.poll.bytes| == DashPacketSize)
    ensures var o := StepSpec(s, hasListener, t);
      && o.state.lastGear == s.lastGear && o.state.lastAbs == s.lastAbs
      && o.events == HeartbeatStep(s, hasListener, t.nowMs).events
      && forall e :: e in o.events ==> e.Heartbeat?
  {
  }

  /** The gear calls of one packet: the new gear iff it differs from the remembered one. */
  lemma PacketGearTrace(s: LoopState, hasListener: bool, f: DashFrame)
    ensures var o := PacketStep(s, hasListener, f);
      GearTrace(o.events) == if o.state.lastGear != s.lastGear then [o.state.lastGear] else []
  {
    if hasListener {
      var rpm := [UpdateRpm(f.rpmBits)];
      var gearEvents := if f.gear != s.lastGear then [UpdateGear(f.gear)] else [];
      var absEvents := if s.lastAbs != (f.absRaw != 0) then [UpdateAbs(f.absRaw != 0)] else [];
      GearTraceAppend(rpm + gearEvents, absEvents);
      GearTraceAppend(rpm, gearEvents);
      GearTraceSingle(rpm);
      GearTraceSingle(gearEvents);
      GearTraceSingle(absEvents);
    }
  }

  /** The ABS calls of one packet: the new flag iff it differs from the remembered one. */
  lemma PacketAbsTrace(s: LoopState, hasListener: bool, f: DashFrame)
    ensures var o := PacketStep(s, hasListener, f);
      AbsTrace(o.events) == if o.state.lastAbs != s.lastAbs then [o.state.lastAbs] else []
  {
    if hasListener {
      var rpm := [UpdateRpm(f.rpmBits)];
      var gearEvents := if f.gear != s.lastGear then [UpdateGear(f.gear)] else [];
      var absEvents := if s.lastAbs != (f.absRaw != 0) then [UpdateAbs(f.absRaw != 0)] else [];
      AbsTraceAppend(rpm + gearEvents, absEvents);
      AbsTraceAppend(rpm, gearEvents);
      AbsTraceSingle(rpm);
      AbsTraceSingle(gearEvents);
      AbsTraceSingle(absEvents);
    }
  }

  lemma GearTraceSingle(events: seq<Event>)
    requires |events| <= 1
    ensures GearTrace(events) == if events != [] && events[0].UpdateGear? then [events[0].gear] else []
  {
  }

  lemma AbsTraceSingle(events: seq<Event>)
    requires |events| <= 1
    ensures AbsTrace(events) == if events != [] && events[0].UpdateAbs? then [events[0].absActive] else []
  {
  }

  /** The heartbeat check neither delivers nor changes a gear or ABS flag. */
  lemma HeartbeatKeepsEdges(s: LoopState, hasListener: bool, nowMs: nat)
    ensures var o := HeartbeatStep(s, hasListener, nowMs);
      && GearTrace(o.events) == [] && AbsTrace(o.events) == []
      && o.state.lastGear == s.lastGear && o.state.lastAbs == s.lastAbs
  {
  }

  /** The gear calls of one iteration: the new gear iff it differs from the remembered one. */
  lemma StepGearTrace(s: LoopState, hasListener: bool, t: Tick)
    ensures var o := StepSpec(s, hasListener, t);
      GearTrace(o.events) == if o.state.lastGear != s.lastGear then [o.state.lastGear] else []
  {
    var afterPacket := PacketPhase(s, hasListener, t.poll);
    var afterBeat := HeartbeatStep(afterPacket.state, hasListener, t.nowMs);
    GearTraceAppend(afterPacket.events, afterBeat.events);
    HeartbeatKeepsEdges(afterPacket.state, hasListener, t.nowMs);
    if AcceptedPacket(t.poll).Some? {
      PacketGearTrace(s, hasListener, DecodeDash(AcceptedPacket(t.poll).value));
    }
  }

  /** The ABS calls of one iteration: the new flag iff it differs from the remembered one. */
  lemma StepAbsTrace(s: LoopState, hasListener: bool, t: Tick)
    ensures var o := StepSpec(s, hasListener, t);
      AbsTrace(o.events) == if o.state.lastAbs != s.lastAbs then [o.state.lastAbs] else []
  {
    var afterPacket := PacketPhase(s, hasListener, t.poll);
    var afterBeat := HeartbeatStep(afterPacket.state, hasListener, t.nowMs);
    AbsTraceAppend(afterPacket.events, afterBeat.events);
    HeartbeatKeepsEdges(afterPacket.state, hasListener, t.nowMs);
    if AcceptedPacket(t.poll).Some? {
      PacketAbsTrace(s, hasListener, DecodeDash(AcceptedPacket(t.poll).value));
    }
  }

  // ---------------------------------------------------------------------
  // Whole runs

  /** Without a listener no call is ever made and the remembered gear and ABS flag never change. */
  lemma {:induction false} RunWithoutListenerSilent(s: LoopState, ticks: seq<Tick>)
    ensures var o := RunSpec(s, false, ticks);
      o.events == [] && o.state.lastGear == s.lastGear && o.state.lastAbs == s.lastAbs
  {
    if ticks != [] {
      RunWithoutListenerSilent(s, ticks[..|ticks| - 1]);
    }
  }

  /** Every heartbeat reports Connected. */
  lemma {:induction false} RunHeartbeatsReportConnected(s: LoopState, hasListener: bool, ticks: seq<Tick>)
    ensures forall e :: e in RunSpec(s, hasListener, ticks).events && e.Heartbeat? ==> e.state == Connected
  {
    if ticks != [] {
      RunHeartbeatsReportConnected(s, hasListener, ticks[..|ticks| - 1]);
    }
  }

  /**
   * Gear calls are edge-triggered: each carries a gear different from the one
   * delivered before it (the first from the starting gear), and the remembered
   * gear is always the last one delivered.
   */
  lemma {:induction false} RunGearEdges(s: LoopState, hasListener: bool, ticks: seq<Tick>)
    ensures var o := RunSpec(s, hasListener, ticks);
      ChangesOnly(s.lastGear, GearTrace(o.events)) && LastOr(s.lastGear, GearTrace(o.events)) == o.state.lastGear
  {
    if ticks != [] {
      var init := ticks[..|ticks| - 1];
      var before := RunSpec(s, hasListener, init);
      var last := StepSpec(before.state, hasListener, ticks[|ticks| - 1]);
      RunGearEdges(s, hasListener, init);
      StepGearTrace(before.state, hasListener, ticks[|ticks| - 1]);
      GearEdgesCompose(s.lastGear, before.events, last.events, before.state.lastGear, last.state.lastGear);
    }
  }

  lemma GearEdgesCompose(initial: int, done: seq<Event>, next: seq<Event>, doneGear: int, nextGear: int)
    requires ChangesOnly(initial, GearTrace(done)) && LastOr(initial, GearTrace(done)) == doneGear
    requires GearTrace(next) == if nextGear != doneGear then [nextGear] else []
    ensures ChangesOnly(initial, GearTrace(done + next)) && LastOr(initial, GearTrace(done + next)) == nextGear
  {
    var doneTrace, nextTrace := GearTrace(done), GearTrace(next);
    GearTraceAppend(done, next);
    AppendKeepsChanges(initial, doneTrace, nextTrace);
  }

  /**
   * ABS calls are edge-triggered: each carries the opposite of the flag
   * delivered before it, and the remembered flag is the last one delivered.
   */
  lemma {:induction false} RunAbsEdges(s: LoopState, hasListener: bool, ticks: seq<Tick>)
    ensures var o := RunSpec(s, hasListener, ticks);
      ChangesOnly(s.lastAbs, AbsTrace(o.events)) && LastOr(s.lastAbs, AbsTrace(o.events)) == o.state.lastAbs
  {
    if ticks != [] {
      var init := ticks[..|ticks| - 1];
      var before := RunSpec(s, hasListener, init);
      var last := StepSpec(before.state, hasListener, ticks[|ticks| - 1]);
      RunAbsEdges(s, hasListener, init);
      StepAbsTrace(before.state, hasListener, ticks[|ticks| - 1]);
      AbsEdgesCompose(s.lastAbs, before.events, last.events, before.state.lastAbs, last.state.lastAbs);
    }
  }

  lemma AbsEdgesCompose(initial: bool, done: seq<Event>, next: seq<Event>, doneAbs: bool, nextAbs: bool)
    requires ChangesOnly(initial, AbsTrace(done)) && LastOr(initial, AbsTrace(done)) == doneAbs
    requires AbsTrace(next) == if nextAbs != doneAbs then [nextAbs] else []
    ensures ChangesOnly(initial, AbsTrace(done + next)) && LastOr(initial, AbsTrace(done + next)) == nextAbs
  {
    var doneTrace, nextTrace := AbsTrace(done), AbsTrace(next);
    AbsTraceAppend(done, next);
    AppendKeepsChanges(initial, doneTrace, nextTrace);
  }

  /** Appending nothing, or one value that differs from the last, keeps a trace edge-triggered. */
  lemma AppendKeepsChanges<T>(initial: T, trace: seq<T>, next: seq<T>)
    requires ChangesOnly(initial, trace)
    requires next == [] || (|next| == 1 && next[0] != LastOr(initial, trace))
    ensures ChangesOnly(initial, trace + next)
    ensures LastOr(initial, trace + next) == if next == [] then LastOr(initial, trace) else next[0]
  {
  }

  /**
   * With a steady clock, the last heartbeat is never in the future and never
   * more than a second old at the end of any iteration, packets or not.
   */
  lemma {:induction false} RunHeartbeatFresh(s: LoopState, hasListener: bool, ticks: seq<Tick>)
    requires Monotone(ticks)
    requires ticks != [] && s.lastHeartbeatMs <= ticks[0].nowMs
    ensures var o := RunSpec(s, hasListener, ticks);
      var nowMs := ticks[|ticks| - 1].nowMs;
      o.state.lastHeartbeatMs <= nowMs < o.state.lastHeartbeatMs + HeartbeatPeriodMs
  {
    var init := ticks[..|ticks| - 1];
    var before := RunSpec(s, hasListener, init);
    if init != [] {
      assert Monotone(init);
      RunHeartbeatFresh(s, hasListener, init);
      assert before.state.lastHeartbeatMs <= ticks[|ticks| - 2].nowMs;
    }
    assert before.state.lastHeartbeatMs <= ticks[|ticks| - 1].nowMs;
  }
}
