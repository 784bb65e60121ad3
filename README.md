# Forza 7 telemetry reader, modelled in Dafny

This project models the telemetry reader for Forza Motorsport 7 (`TelemetryForza7`). The game broadcasts a 324-byte "Dash" datagram over UDP. The reader takes the engine RPM, the gear and an ABS indicator from fixed offsets in it and passes them to a registered listener (`ISimTelemetry`):

- RPM is sent on every accepted packet.
- Gear and ABS are sent only when they change.
- A `Connected` heartbeat is sent once at least a whole second has passed, whether or not packets arrive.

The reader is configured from an `"ip:port"` source string. `disconnect` stops it.

Modules, one per component:

- `Wrappers` (`wrappers.dfy`): `Option`.
- `SimTelemetry` (`sim_telemetry.dfy`): the listener vocabulary. It has the `TelemetryState` enum and an `Event` for each of the four listener calls. It also has the traces of gear and ABS calls taken from an event log.
- `Forza7Packet` (`forza7_packet.dfy`): the pure decoder.
  - `readUint8_t`, `readInt8_t`, and `readFloat`, which is kept as the 32-bit little-endian bit pattern.
  - The Dash layout: RPM at 12..15, gear at 312, ABS proxy at 315.
  - What `recvfrom` returns into the 2048-byte buffer, and the "exactly 324 bytes" acceptance test.
- `Forza7Loop` (`forza7_loop.dfy`): one iteration of `udpReadLoop` as a function of the loop state and of what the iteration observes (`StepSpec`). Runs of the loop (`RunSpec`) are folds of that function. The lemmas state edge-triggered delivery, RPM on every packet, the heartbeat rule and silence without a listener.
- `Forza7Session` (`forza7_session.dfy`): source-string parsing, `configureTelemetry` and `disconnect` as functions on the lifecycle (`ConfigureSpec`, `DisconnectSpec`), and the class `Session`.
  - `Session` has the reader's fields and the methods `Configure`, `DeliverPacket`, `CheckHeartbeat`, `Step`, `RunReadLoop` and `Disconnect`.
  - Each method is proved against the spec functions.
  - Listener calls are appended to `events`. System calls (socket, bind, close) and the outcomes they returned are appended to `sysCalls`.

Inputs that stand in for the environment:

- `socketFd` is the value `socket()` returns.
- `bindOk` is whether `bind()` succeeded.
- A `Tick` is what one non-blocking receive returned (`NoDatagram` or a `Datagram` of bytes) together with the steady-clock reading in milliseconds after it.
- `RunReadLoop(startMs, ticks)` is the loop thread's life. The heartbeat timer starts at `startMs`. There is then one iteration per tick until a disconnect is requested. On a stopped reader it changes nothing.
- The heartbeat timer is a local variable of `udpReadLoop` (`TelemetryForza7.cpp:93`). The model keeps it in the field `lastHeartbeatMs` so that `Step` can be a method of `Session`. `RunReadLoop` starts it before the first iteration, and `CheckHeartbeat` resets it when a heartbeat fires.
- `Step`, `DeliverPacket` and `CheckHeartbeat` require a running reader, as the loop body only runs inside `while (running)` (`TelemetryForza7.cpp:95`), on the thread a successful configure starts. A `Step` called outside `RunReadLoop`, or a second `RunReadLoop` within one configure (which restarts the timer), stands for no path of the code.

Behaviour of the code that a reader might not expect, which the model keeps:

- A failed configure can leave the listener stored. Given a listener and a non-empty source, the listener is stored (`TelemetryForza7.cpp:38`) before any check that can fail, so it stays stored when:
  - the source has no `':'` (`TelemetryForza7.cpp:41-46`);
  - `socket()` fails (`TelemetryForza7.cpp:51-56`);
  - `bind()` fails (`TelemetryForza7.cpp:63-69`).
- The heartbeat timestamp is the steady clock's reading (`TelemetryForza7.cpp:146`), not time since the Unix epoch.
- The remembered gear and ABS values are members of the object. Neither `configureTelemetry` nor `disconnect` resets them, so they carry over into the next session. `Session.Configure` and `Session.Disconnect` state this (`Loop()` is unchanged).
- The ABS value is a proxy: any non-zero byte at offset 315 counts as active.

## Model

| member | source | states |
|---|---|---|
| Forza7Packet.ReadUint8 | Application/telemetry_readers/forza_7/TelemetryForza7.cpp:184-186 | the byte at the offset as an unsigned value in 0..255, equal to the raw byte |
| Forza7Packet.ReadInt8 | Application/telemetry_readers/forza_7/TelemetryForza7.cpp:188-190 | the byte as two's-complement int8: in -128..127, congruent to the raw byte mod 256, non-zero exactly when the raw byte is |
| Forza7Packet.ReadWord32 | Application/telemetry_readers/forza_7/TelemetryForza7.cpp:178-182 | the result is a 32-bit word whose little-endian bytes are exactly the four bytes at the offset, so no bit of the RPM field (the float's bit pattern) is lost |
| Forza7Packet.ReadWord32OfBytes | Application/telemetry_readers/forza_7/TelemetryForza7.cpp:178-182 | reading back the little-endian bytes of any 32-bit word gives the word |
| Forza7Packet.DecodeDash | Application/telemetry_readers/forza_7/TelemetryForza7.cpp:100-112 | a 324-byte packet decodes to an RPM pattern below 2^32, a gear in 0..255 and an ABS value in -128..127 |
| Forza7Packet.EncodeDash | Application/telemetry_readers/forza_7/TelemetryForza7.cpp:100-112 | the reference encoder, the partner of DecodeDash: writes a frame's fields at 12..15, 312 and 315 and keeps every other byte |
| Forza7Packet.DecodeEncodeDash | Application/telemetry_readers/forza_7/TelemetryForza7.cpp:100-112 | decoding an encoded frame gives the frame back, whatever the other 318 bytes are |
| Forza7Packet.EncodeDecodeDash | Application/telemetry_readers/forza_7/TelemetryForza7.cpp:100-112 | re-encoding a decoded packet over itself reproduces the packet |
| Forza7Packet.DecodeDashReadsOnlyFields | Application/telemetry_readers/forza_7/TelemetryForza7.cpp:102-112 | two packets that agree on bytes 12..15, 312 and 315 decode the same: no other byte is read |
| Forza7Packet.RpmOfFiftyPattern | Application/telemetry_readers/forza_7/TelemetryForza7.cpp:178-182 | the bytes 00 00 48 42 at offset 12 give the bit pattern 0x42480000 (the float 50.0) |
| Forza7Packet.Received | Application/telemetry_readers/forza_7/TelemetryForza7.cpp:88-97 | recvfrom's result: -1 exactly when no datagram waits; otherwise the datagram's length if it fits the 2048-byte buffer, and 2048 if it is longer |
| Forza7Packet.AcceptedPacket | Application/telemetry_readers/forza_7/TelemetryForza7.cpp:97-98 | a datagram is handed to the decoder iff it is exactly 324 bytes long; longer ones cannot pass by being cut to 2048 |
| Forza7Loop.InitialLoopState | Application/telemetry_readers/forza_7/TelemetryForza7.cpp:15-16 | the loop starts from gear 0, ABS off (the constructor's values) and the timer at the loop's start (`TelemetryForza7.cpp:93`); FirstNeutralPacketOnlyRpm states the consequence for the first packet |
| Forza7Loop.TruncDiv | Application/telemetry_readers/forza_7/TelemetryForza7.cpp:138 | duration_cast to seconds: the quotient rounded toward zero, bracketed by q*b <= a < q*b + b for a >= 0 and q*b - b < a <= q*b for a < 0; HeartbeatDue uses it |
| Forza7Loop.PacketStep | Application/telemetry_readers/forza_7/TelemetryForza7.cpp:114-128 | a packet never touches the heartbeat timer, makes at most three calls and never a heartbeat call; its calls and new state are stated by PacketStepEmits and PacketStepWithoutListener |
| Forza7Loop.HeartbeatStep | Application/telemetry_readers/forza_7/TelemetryForza7.cpp:136-150 | the heartbeat check never changes the remembered gear or ABS flag and makes at most one call, Heartbeat(Connected, now); when it fires is stated by HeartbeatStepFires |
| Forza7Loop.PacketPhase | Application/telemetry_readers/forza_7/TelemetryForza7.cpp:97-134 | the receive-and-decode half keeps the timer and makes at most three calls; an exactly 324-byte datagram is decoded and handed to PacketStep (so it makes the RPM call when there is a listener), and without one nothing changes and nothing is called |
| Forza7Loop.StepSpec | Application/telemetry_readers/forza_7/TelemetryForza7.cpp:95-153 | one iteration makes at most four calls and none without a listener; StepGearTrace, StepAbsTrace and DroppedDatagramOnlyHeartbeat state the rest |
| Forza7Loop.RunSpec | Application/telemetry_readers/forza_7/TelemetryForza7.cpp:95-153 | a run of n iterations makes at most 4n calls; RunGearEdges, RunAbsEdges, RunHeartbeatsReportConnected, RunHeartbeatFresh and RunWithoutListenerSilent state what the calls are |
| Forza7Loop.HeartbeatDue | Application/telemetry_readers/forza_7/TelemetryForza7.cpp:136-138 | the whole-seconds-elapsed test holds iff at least 1000 ms have passed since the last heartbeat |
| Forza7Loop.PacketStepEmits | Application/telemetry_readers/forza_7/TelemetryForza7.cpp:114-128 | with a listener, exactly one RPM call and it comes first; a gear call iff the gear changed; an ABS call iff the flag changed; gear before ABS; nothing else; afterwards the remembered gear and flag are the packet's |
| Forza7Loop.PacketStepWithoutListener | Application/telemetry_readers/forza_7/TelemetryForza7.cpp:114-128 | without a listener a packet makes no call and the remembered gear and flag stay |
| Forza7Loop.RepeatedFrameOnlyRpm | Application/telemetry_readers/forza_7/TelemetryForza7.cpp:117-127 | the same packet twice in a row: the second makes only the RPM call |
| Forza7Loop.FirstNeutralPacketOnlyRpm | Application/telemetry_readers/forza_7/TelemetryForza7.cpp:12-16 | from the initial gear 0 / ABS off, a first packet in neutral with ABS off makes only the RPM call |
| Forza7Loop.HeartbeatStepFires | Application/telemetry_readers/forza_7/TelemetryForza7.cpp:136-150 | a heartbeat fires iff 1000 ms have passed, reports Connected and the current time, and only then resets the timer; afterwards the last heartbeat is less than a second old |
| Forza7Loop.DroppedDatagramOnlyHeartbeat | Application/telemetry_readers/forza_7/TelemetryForza7.cpp:97-150 | an iteration without a 324-byte datagram keeps the remembered gear and ABS flag and can only make a heartbeat call |
| Forza7Loop.PacketGearTrace | Application/telemetry_readers/forza_7/TelemetryForza7.cpp:117-121 | a packet delivers a gear exactly when the remembered gear changes, and delivers the new one |
| Forza7Loop.PacketAbsTrace | Application/telemetry_readers/forza_7/TelemetryForza7.cpp:122-127 | a packet delivers an ABS flag exactly when the remembered flag changes, and delivers the new one |
| Forza7Loop.StepGearTrace | Application/telemetry_readers/forza_7/TelemetryForza7.cpp:95-150 | the same for a whole iteration, heartbeat included |
| Forza7Loop.StepAbsTrace | Application/telemetry_readers/forza_7/TelemetryForza7.cpp:95-150 | the same for the ABS flag over a whole iteration |
| Forza7Loop.RunWithoutListenerSilent | Application/telemetry_readers/forza_7/TelemetryForza7.cpp:114-148 | without a listener no run makes any call and the remembered gear and flag never change |
| Forza7Loop.RunHeartbeatsReportConnected | Application/telemetry_readers/forza_7/TelemetryForza7.cpp:142-147 | every heartbeat of every run reports Connected |
| Forza7Loop.RunGearEdges | Application/telemetry_readers/forza_7/TelemetryForza7.cpp:117-121 | over any run each gear call differs from the previous one (the first from the starting gear), and the remembered gear is the last one delivered |
| Forza7Loop.RunAbsEdges | Application/telemetry_readers/forza_7/TelemetryForza7.cpp:122-127 | over any run the ABS calls alternate, starting from the opposite of the starting flag, and the remembered flag is the last one delivered |
| Forza7Loop.RunHeartbeatFresh | Application/telemetry_readers/forza_7/TelemetryForza7.cpp:93-150 | with a steady clock, after any run the last heartbeat is not in the future and less than one second old |
| Forza7Session.FirstColon | Application/telemetry_readers/forza_7/TelemetryForza7.cpp:41-42 | None iff the source has no ':'; otherwise the index of a ':' with none before it |
| Forza7Session.ParseSource | Application/telemetry_readers/forza_7/TelemetryForza7.cpp:41-48 | splits the source at its first ':' into an ip without ':' and the port text, which join back to the source; nothing iff there is no ':' |
| Forza7Session.ParseSourceJoin | Application/telemetry_readers/forza_7/TelemetryForza7.cpp:41-48 | joining an ip without ':' and any port text, then parsing, gives back both halves |
| Forza7Session.ConfigureSpec | Application/telemetry_readers/forza_7/TelemetryForza7.cpp:29-84 | success leaves the reader running with a listener; a failure leaves the running flag as it was; the system-call log only grows, by at most socket, bind and close; ConfigureOutcome and the ConfigureRejects lemmas state each path |
| Forza7Session.DisconnectSpec | Application/telemetry_readers/forza_7/TelemetryForza7.cpp:158-174 | afterwards the reader is not running and holds no listener; the log only grows, by at most one close; DisconnectStops and DisconnectIdempotent state the rest |
| Forza7Session.ConfigureRejectsMissingArguments | Application/telemetry_readers/forza_7/TelemetryForza7.cpp:31-35 | no listener or an empty source: false, with nothing stored, opened or started |
| Forza7Session.ConfigureRejectsMissingColon | Application/telemetry_readers/forza_7/TelemetryForza7.cpp:38-46 | a non-empty source without ':': false, no socket call, but the listener is stored |
| Forza7Session.ConfigureOutcome | Application/telemetry_readers/forza_7/TelemetryForza7.cpp:31-80 | from a stopped reader: true iff listener, ':' in the source, socket and bind all succeed; running afterwards iff true; given a listener and a non-empty source, the listener is stored whatever fails later; on success the socket is bound to the text after the first ':'; a failed bind closes the socket and resets the handle to -1 |
| Forza7Session.DisconnectStops | Application/telemetry_readers/forza_7/TelemetryForza7.cpp:158-174 | afterwards not running, no socket, no listener; a running reader's socket is closed exactly once, a stopped reader's not at all |
| Forza7Session.DisconnectIdempotent | Application/telemetry_readers/forza_7/TelemetryForza7.cpp:158-174 | a second disconnect changes nothing, so no socket is closed twice |
| Forza7Session.NoCallsAfterDisconnect | Application/telemetry_readers/forza_7/TelemetryForza7.cpp:158-174 | once disconnected, no listener call is made whatever the loop observes |
| Forza7Session.Session.constructor | Application/telemetry_readers/forza_7/TelemetryForza7.cpp:12-19 | no listener, not running, no socket, gear 0, ABS off, no calls made |
| Forza7Session.Session.Configure | Application/telemetry_readers/forza_7/TelemetryForza7.cpp:29-84 | new lifecycle and result are ConfigureSpec of the old one; edge state and listener calls untouched; the invariant "running iff a socket is held, and only with a listener" is kept |
| Forza7Session.Session.DeliverPacket | Application/telemetry_readers/forza_7/TelemetryForza7.cpp:110-128 | on a running reader, the new loop state and the appended calls are those of PacketStep on the decoded packet |
| Forza7Session.Session.CheckHeartbeat | Application/telemetry_readers/forza_7/TelemetryForza7.cpp:136-150 | on a running reader, the new loop state and the appended calls are those of HeartbeatStep |
| Forza7Session.Session.Step | Application/telemetry_readers/forza_7/TelemetryForza7.cpp:97-153 | one iteration of a running reader: the new loop state and appended calls are StepSpec's; the lifecycle is unchanged |
| Forza7Session.Session.RunReadLoop | Application/telemetry_readers/forza_7/TelemetryForza7.cpp:86-155 | with the reader running, the loop state and the calls after all ticks are RunSpec's from the heartbeat start time; not running, no iteration happens |
| Forza7Session.Session.Disconnect | Application/telemetry_readers/forza_7/TelemetryForza7.cpp:158-174 | the new lifecycle is DisconnectSpec of the old one, keeping the invariant; edge state and listener calls untouched |

## Left out

- The RPM float: `readFloat` copies four bytes into a `float`, which the listener receives widened to `double`. The model keeps the 32-bit pattern and does no IEEE-754 interpretation.
- Port conversion: `std::stoi` and `htons` are not modelled. The port is the text after the first `':'`. In the code, a port text `std::stoi` cannot parse throws out of `configureTelemetry` after the listener has been stored. The model does not capture that exception path.
- System calls: `socket`, `bind` and `recvfrom` are replaced by their outcomes, which are inputs. `fcntl`/`O_NONBLOCK` is left out: it only affects blocking, and what it returns does not change the result.
- Concurrency: the reader thread, the atomic `running` flag, `join` and the 10 ms `sleep_for` are left out. The loop is sequential. A stop request is the end of the tick sequence, so `RunReadLoop` never sees `running` change while it runs.
- Time: `steady_clock` becomes integer milliseconds, so the model has no sub-millisecond resolution.
- Logging to `std::cout`/`std::cerr` is left out.
- Re-configuring while running: `Session.Configure` requires the reader to be stopped, so no path of `configureTelemetry` on a running reader is modelled. In the code:
  - a call that succeeds assigns a new thread to a joinable `std::thread`, which terminates the program (`TelemetryForza7.cpp:78`);
  - a call with no listener or an empty source returns false normally (`TelemetryForza7.cpp:32-35`);
  - a source without `':'` replaces the listener of the running loop and returns false (`TelemetryForza7.cpp:38-46`);
  - a failed socket or bind overwrites `udpSocket` under the live loop, and a failed bind sets it to -1 (`TelemetryForza7.cpp:67`). The original socket is then never closed, because `disconnect` only closes a handle other than -1 (`TelemetryForza7.cpp:167`).
- The destructor only calls `disconnect`. Object lifetime is not modelled.
- `udpSocket` is not initialised by the C++ constructor. The model starts it at -1. The code never reads the uninitialised value, because `disconnect` only closes the socket of a running reader.
- `TelemetryForza7.hpp` is not part of this model. It is malformed and does not declare the members the implementation uses.
- The UI shell, the JNI stub and the older copy of the listener interface under `app/src/main/cpp` are not part of this model.
