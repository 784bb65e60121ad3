/**
 * The listener side of a simulator telemetry reader (ISimTelemetry): the
 * connectivity states a heartbeat reports and the four calls a reader makes on
 * its listener, recorded as events in the order they are made.
 */
module SimTelemetry {

  /** Connectivity of a telemetry reader, as reported by a heartbeat. */
  datatype TelemetryState = Disconnected | Connecting | Connected | NoData | Error

  /** One call made on the registered listener. */
  datatype Event =
    | Heartbeat(state: TelemetryState, timestampMs: nat)
    | UpdateRpm(rpmBits: nat)   // the raw 32-bit pattern of the RPM float
    | UpdateAbs(absActive: bool)
    | UpdateGear(gear: int)

  /** The gears delivered by the `UpdateGear` calls in `events`, in order. */
  function GearTrace(events: seq<Event>): (gears: seq<int>)
    ensures |gears| <= |events|
    ensures forall i :: 0 <= i < |gears| ==> UpdateGear(gears[i]) in events
  {
    if events == [] then []
    else
      var init := events[..|events| - 1];
      var e := events[|events| - 1];
      assert forall x :: x in init ==> x in events;
      GearTrace(init) + (if e.UpdateGear? then [e.gear] else [])
  }

  /** The flags delivered by the `UpdateAbs` calls in `events`, in order. */
  function AbsTrace(events: seq<Event>): (flags: seq<bool>)
    ensures |flags| <= |events|
    ensures forall i :: 0 <= i < |flags| ==> UpdateAbs(flags[i]) in events
  {
    if events == [] then []
    else
      var init := events[..|events| - 1];
      var e := events[|events| - 1];
      assert forall x :: x in init ==> x in events;
      AbsTrace(init) + (if e.UpdateAbs? then [e.absActive] else [])
  }

  lemma {:induction false} GearTraceAppend(a: seq<Event>, b: seq<Event>)
    ensures GearTrace(a + b) == GearTrace(a) + GearTrace(b)
    decreases |b|
  {
    if b != [] {
      var b' := b[..|b| - 1];
      assert (a + b)[..|a + b| - 1] == a + b';
      GearTraceAppend(a, b');
    } else {
      assert a + b == a;
    }
  }

  lemma {:induction false} AbsTraceAppend(a: seq<Event>, b: seq<Event>)
    ensures AbsTrace(a + b) == AbsTrace(a) + AbsTrace(b)
    decreases |b|
  {
    if b != [] {
      var b' := b[..|b| - 1];
      assert (a + b)[..|a + b| - 1] == a + b';
      AbsTraceAppend(a, b');
    } else {
      assert a + b == a;
    }
  }

  /**
   * Edge-triggered delivery: every value in `trace` differs from the one
   * delivered before it, the first one from `initial`.
   */
  ghost predicate ChangesOnly<T>(initial: T, trace: seq<T>)
  {
    (trace != [] ==> trace[0] != initial) &&
    forall i :: 0 < i < |trace| ==> trace[i] != trace[i - 1]
  }

  /** The last value of `trace`, or `initial` if nothing was delivered. */
  function LastOr<T>(initial: T, trace: seq<T>): T
  {
    if trace == [] then initial else trace[|trace| - 1]
  }
}
