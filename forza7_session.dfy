/**
 * The Forza 7 reader object (TelemetryForza7): configuring it from an
 * "ip:port" source, running its receive loop, and disconnecting it. Socket
 * calls are replaced by their outcomes, which the caller supplies, and are
 * recorded in a log so that what the reader asked of the system can be stated.
 */
module Forza7Session {
  import opened Wrappers
  import opened SimTelemetry
  import opened Forza7Packet
  import opened Forza7Loop

  // ---------------------------------------------------------------------
  // The telemetry source string

  /** The position of the first ':' in `s`, as std::string::find reports it. */
  function FirstColon(s: string): (r: Option<nat>)
    ensures r.None? <==> ':' !in s
    ensures r.Some? ==> r.value < |s| && s[r.value] == ':' && ':' !in s[..r.value]
  {
    if s == [] then None
    else if s[0] == ':' then Some(0)
    else
      match FirstColon(s[1..])
      case None => None
      case Some(i) =>
        assert s[..i + 1] == [s[0]] + s[1..][..i];
        Some(i + 1)
  }

  /** The two halves of an "ip:port" source. Only the port text is used: the socket binds to every local address. */
  datatype SourceAddress = SourceAddress(ip: string, portText: string)

  /** Splitting the source at its first ':'; there is nothing to split without one. */
  function ParseSource(source: string): (r: Option<SourceAddress>)
    ensures r.None? <==> ':' !in source
    ensures r.Some? ==> source == r.value.ip + [':'] + r.value.portText && ':' !in r.value.ip
  {
    match FirstColon(source)
    case None => None
    case Some(colon) =>
      assert source == source[..colon] + [':'] + source[colon + 1..];
      Some(SourceAddress(source[..colon], source[colon + 1..]))
  }

  /** Joining an ip without ':' to any port text and parsing it back gives both halves. */
  lemma ParseSourceJoin(ip: string, portText: string)
    requires ':' !in ip
    ensures ParseSource(ip + [':'] + portText) == Some(SourceAddress(ip, portText))
  {
    var source := ip + [':'] + portText;
    assert source[|ip|] == ':';
    assert source[..|ip|] == ip;
    assert source[|ip| + 1..] == portText;
  }

  // ---------------------------------------------------------------------
  // Socket lifecycle

  /** A system call the reader made, with the outcome the system gave. */
  datatype SysCall =
    | OpenSocket(result: int)                            // socket(AF_INET, SOCK_DGRAM, 0)
    | BindAnyAddress(fd: int, portText: string, ok: bool) // bind to INADDR_ANY at the port
    | CloseSocket(fd: int)

  /** The connection side of the reader: listener set, running flag, socket handle and the system calls so far. */
  datatype Lifecycle = Lifecycle(hasListener: bool, running: bool, socket: int, sysCalls: seq<SysCall>)

  /** The reader runs exactly when it holds an open socket, and never without a listener. */
  ghost predicate LifecycleValid(l: Lifecycle)
  {
    (l.running <==> l.socket >= 0) && (l.running ==> l.hasListener)
  }

  const InitialLifecycle := Lifecycle(false, false, -1, [])

  datatype Configured = Configured(after: Lifecycle, ok: bool)

  /**
   * configureTelemetry, with the outcomes of socket() (`socketFd`) and bind()
   * (`bindOk`) as inputs. The listener is stored before the source is parsed.
   */
  function ConfigureSpec(l: Lifecycle, listenerGiven: bool, source: string, socketFd: int, bindOk: bool): (r: Configured)
    ensures r.ok ==> r.after.running && r.after.hasListener
    ensures !r.ok ==> r.after.running == l.running
    ensures |l.sysCalls| <= |r.after.sysCalls| <= |l.sysCalls| + 3 && r.after.sysCalls[..|l.sysCalls|] == l.sysCalls
  {
    if !listenerGiven || source == [] then Configured(l, false)
    else
      var withListener := l.(hasListener := true);
      match ParseSource(source)
      case None => Configured(withListener, false)
      case Some(address) =>
        var withSocket := withListener.(socket := socketFd, sysCalls := l.sysCalls + [OpenSocket(socketFd)]);
        if socketFd < 0 then Configured(withSocket, false)
        else if !bindOk then
          Configured(withSocket.(socket := -1,
                             sysCalls := withSocket.sysCalls + [BindAnyAddress(socketFd, address.portText, false), CloseSocket(socketFd)]),
                     false)
        else
          Configured(withSocket.(running := true,
                             sysCalls := withSocket.sysCalls + [BindAnyAddress(socketFd, address.portText, true)]),
                     true)
  }

  /** disconnect: a running reader is stopped and its socket closed; the listener is always cleared. */
  function DisconnectSpec(l: Lifecycle): (d: Lifecycle)
    ensures !d.running && !d.hasListener
    ensures |l.sysCalls| <= |d.sysCalls| <= |l.sysCalls| + 1 && d.sysCalls[..|l.sysCalls|] == l.sysCalls
  {
    var stopped :=
      if l.running then
        l.(running := false,
           socket := -1,
           sysCalls := l.sysCalls + if l.socket != -1 then [CloseSocket(l.socket)] else [])
      else l;
    stopped.(hasListener := false)
  }

  /** No listener or an empty source: false, and nothing is stored, opened or started. */
  lemma ConfigureRejectsMissingArguments(l: Lifecycle, listenerGiven: bool, source: string, socketFd: int, bindOk: bool)
    requires !listenerGiven || source == []
    ensures ConfigureSpec(l, listenerGiven, source, socketFd, bindOk) == Configured(l, false)
  {
  }

  /** A source without ':' gives false with no socket opened, but the listener has been stored by then. */
  lemma ConfigureRejectsMissingColon(l: Lifecycle, source: string, socketFd: int, bindOk: bool)
    requires source != [] && ':' !in source
    ensures ConfigureSpec(l, true, source, socketFd, bindOk) == Configured(l.(hasListener := true), false)
  {
  }

  /**
   * From a stopped reader, configure succeeds exactly when the listener is
   * given, the source has a ':', and socket creation and bind both succeed; the
   * reader is running afterwards exactly when it succeeded, bound to the text
   * after the first ':'. A failed bind closes the socket and resets the handle.
   */
  lemma ConfigureOutcome(l: Lifecycle, listenerGiven: bool, source: string, socketFd: int, bindOk: bool)
    requires LifecycleValid(l) && !l.running
    ensures var r := ConfigureSpec(l, listenerGiven, source, socketFd, bindOk);
      && (r.ok <==> listenerGiven && ':' in source && socketFd >= 0 && bindOk)
      && LifecycleValid(r.after)
      && r.after.running == r.ok
      && (r.ok ==> r.after.socket == socketFd && r.after.hasListener
                   && r.after.sysCalls == l.sysCalls + [OpenSocket(socketFd), BindAnyAddress(socketFd, ParseSource(source).value.portText, true)])
      && (listenerGiven && source != [] ==> r.after.hasListener)
      && (listenerGiven && ':' in source && socketFd >= 0 && !bindOk ==>
            r.after.socket == -1 && r.after.sysCalls[|r.after.sysCalls| - 1] == CloseSocket(socketFd))
  {
  }

  /** After disconnect nothing runs, no socket is held, no listener is set; a running reader's socket is closed once. */
  lemma DisconnectStops(l: Lifecycle)
    requires LifecycleValid(l)
    ensures var r := DisconnectSpec(l);
      && LifecycleValid(r) && !r.running && !r.hasListener && r.socket < 0
      && r.sysCalls == l.sysCalls + (if l.running then [CloseSocket(l.socket)] else [])
  {
  }

  /** A second disconnect changes nothing: in particular it closes no socket again. */
  lemma DisconnectIdempotent(l: Lifecycle)
    ensures DisconnectSpec(DisconnectSpec(l)) == DisconnectSpec(l)
  {
  }

  /** Once disconnected, no listener call is ever made again, whatever the loop would observe. */
  lemma NoCallsAfterDisconnect(l: Lifecycle, s: LoopState, ticks: seq<Tick>)
    ensures RunSpec(s, DisconnectSpec(l).hasListener, ticks).events == []
  {
    RunWithoutListenerSilent(s, ticks);
  }

  // ---------------------------------------------------------------------
  // The reader object

  lemma AppendAssociates<T>(a: seq<T>, b: seq<T>, c: seq<T>)
    ensures a + (b + c) == (a + b) + c
  {
  }

  class Session {
    var hasListener: bool
    var running: bool
    var socket: int
    var sysCalls: seq<SysCall>
    var lastGear: int
    var lastAbs: bool
    var lastHeartbeatMs: int
    /** The calls made on the listener so far, in order. */
    var events: seq<Event>

    function Connection(): Lifecycle
      reads this
    {
      Lifecycle(hasListener, running, socket, sysCalls)
    }

    function Loop(): LoopState
      reads this
    {
      LoopState(lastGear, lastAbs, lastHeartbeatMs)
    }

    ghost predicate Valid()
      reads this
    {
      LifecycleValid(Connection())
    }

    /** No listener, not running, no socket; neutral gear and ABS off remembered. */
    constructor ()
      ensures Valid()
      ensures Connection() == InitialLifecycle
      ensures lastGear == InitialGear && lastAbs == InitialAbs && events == []
    {
      hasListener, running, socket, sysCalls := false, false, -1, [];
      lastGear, lastAbs, lastHeartbeatMs := InitialGear, InitialAbs, 0;
      events := [];
    }

    /** configureTelemetry on a reader that is not running. */
    method Configure(listenerGiven: bool, source: string, socketFd: int, bindOk: bool) returns (ok: bool)
      requires Valid() && !running
      modifies this
      ensures Valid()
      ensures Configured(Connection(), ok) == ConfigureSpec(old(Connection()), listenerGiven, source, socketFd, bindOk)
      ensures Loop() == old(Loop()) && events == old(events)
    {
      ok := false;
      if !listenerGiven || |source| == 0 {
        return;
      }
      hasListener := true;
      var address := ParseSource(source);
      if address.None? {
        return;
      }
      socket := socketFd;
      sysCalls := sysCalls + [OpenSocket(socketFd)];
      if socket < 0 {
        return;
      }
      if !bindOk {
        sysCalls := sysCalls + [BindAnyAddress(socket, address.value.portText, false), CloseSocket(socket)];
        socket := -1;
        return;
      }
      sysCalls := sysCalls + [BindAnyAddress(socket, address.value.portText, true)];
      running := true;
      ok := true;
    }

    /** The listener calls and edge updates for one accepted Dash packet. */
    method DeliverPacket(packet: seq<Byte>)
      requires Valid() && running && |packet| == DashPacketSize
      modifies this
      ensures Valid() && Connection() == old(Connection())
      ensures Loop() == PacketStep(old(Loop()), hasListener, DecodeDash(packet)).state
      ensures events == old(events) + PacketStep(old(Loop()), hasListener, DecodeDash(packet)).events
    {
      var rpm := ReadWord32(packet, RpmOffset);
      var gear := ReadUint8(packet, GearOffset);
      var absVal := ReadInt8(packet, AbsOffset);
      if hasListener {
        events := events + [UpdateRpm(rpm)];
        if gear != lastGear {
          events := events + [UpdateGear(gear)];
          lastGear := gear;
        }
        var absActive := absVal != 0;
        if lastAbs != absActive {
          events := events + [UpdateAbs(absActive)];
          lastAbs := absActive;
        }
      }
    }

    /** The heartbeat check that ends every iteration. */
    method CheckHeartbeat(nowMs: nat)
      requires Valid() && running
      modifies this
      ensures Valid() && Connection() == old(Connection())
      ensures Loop() == HeartbeatStep(old(Loop()), hasListener, nowMs).state
      ensures events == old(events) + HeartbeatStep(old(Loop()), hasListener, nowMs).events
    {
      if HeartbeatDue(lastHeartbeatMs, nowMs) {
        if hasListener {
          events := events + [Heartbeat(Connected, nowMs)];
        }
        lastHeartbeatMs := nowMs;
      }
    }

    /** One iteration of the receive loop's body: receive, decode a Dash packet if one came, heartbeat check. */
    method Step(t: Tick)
      requires Valid() && running
      modifies this
      ensures Valid() && Connection() == old(Connection())
      ensures Loop() == StepSpec(old(Loop()), hasListener, t).state
      ensures events == old(events) + StepSpec(old(Loop()), hasListener, t).events
    {
      var packet := AcceptedPacket(t.poll);
      if packet.Some? {
        DeliverPacket(packet.value);
      }
      ghost var afterPacket := events;
      CheckHeartbeat(t.nowMs);
      assert events == old(events) + (afterPacket[|old(events)|..] + events[|afterPacket|..]);
    }

    /**
     * udpReadLoop: the heartbeat timer starts at `startMs`, then one iteration
     * per tick while the reader runs. `ticks` are the iterations that happen
     * before a disconnect is requested.
     */
    method RunReadLoop(startMs: int, ticks: seq<Tick>)
      requires Valid()
      modifies this
      ensures Valid() && Connection() == old(Connection())
      ensures old(running) ==>
        var o := RunSpec(old(Loop()).(lastHeartbeatMs := startMs), hasListener, ticks);
        Loop() == o.state && events == old(events) + o.events
      ensures !old(running) ==> Loop() == old(Loop()) && events == old(events)
    {
      if !running {
        return;
      }
      lastHeartbeatMs := startMs;
      ghost var start := Loop();
      ghost var listener := hasListener;
      var i := 0;
      while running && i < |ticks|
        invariant 0 <= i <= |ticks|
        invariant Valid() && Connection() == old(Connection()) && hasListener == listener
        invariant !running ==> i == 0
        invariant Loop() == RunSpec(start, listener, ticks[..i]).state
        invariant events == old(events) + RunSpec(start, listener, ticks[..i]).events
      {
        ghost var before := RunSpec(start, listener, ticks[..i]);
        Step(ticks[i]);
        RunSpecPrefix(start, listener, ticks, i);
        AppendAssociates(old(events), before.events, StepSpec(before.state, listener, ticks[i]).events);
        i := i + 1;
      }
      assert running ==> ticks[..i] == ticks;
    }

    /** disconnect; the reader thread has been joined by the time the socket is closed. */
    method Disconnect()
      requires Valid()
      modifies this
      ensures Valid()
      ensures Connection() == DisconnectSpec(old(Connection()))
      ensures Loop() == old(Loop()) && events == old(events)
    {
      if running {
        running := false;
        if socket != -1 {
          sysCalls := sysCalls + [CloseSocket(socket)];
          socket := -1;
        }
      }
      hasListener := false;
    }
  }
}
