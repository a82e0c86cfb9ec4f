/** What goes over a call: the messages of one driver, in order and once each, to the other. */
module IridiumCalls {
  import opened ByteStrings
  import opened RudicsPacket
  import opened IridiumFsm
  import opened IridiumRuns

  // ----- what a run puts on the wire and passes up

  function After(env: Env, s: Fsm, stimulus: Stimulus): Fsm
    requires Proper(env)
  {
    if stimulus.Occur? then ProcessEvent(env, s, stimulus.event, stimulus.clock) else Move(s, stimulus)
  }

  function WrittenBy(s: Fsm, stimulus: Stimulus): seq<Output>
  {
    if stimulus.Write? && s.serialTx != [] then [s.serialTx[0]] else []
  }

  function Wire(env: Env, s: Fsm, stimuli: seq<Stimulus>): seq<Output>
    requires Proper(env)
    decreases |stimuli|
  {
    if stimuli == [] then []
    else WrittenBy(s, stimuli[0]) + Wire(env, After(env, s, stimuli[0]), stimuli[1..])
  }

  function PassedBy(s: Fsm, stimulus: Stimulus): seq<Bytes>
  {
    if stimulus.Collect? && s.received != [] then [s.received[0]] else []
  }

  function PassedUp(env: Env, s: Fsm, stimuli: seq<Stimulus>): seq<Bytes>
    requires Proper(env)
    decreases |stimuli|
  {
    if stimuli == [] then []
    else PassedBy(s, stimuli[0]) + PassedUp(env, After(env, s, stimuli[0]), stimuli[1..])
  }

  function QueuedBy(stimulus: Stimulus): seq<Bytes>
  {
    if stimulus.Buffer? then [stimulus.message] else []
  }

  function Queued(stimuli: seq<Stimulus>): seq<Bytes>
  {
    if stimuli == [] then [] else QueuedBy(stimuli[0]) + Queued(stimuli[1..])
  }

  function Packets(outputs: seq<Output>): seq<Bytes>
  {
    if outputs == [] then []
    else (if outputs[0].Packet? then [outputs[0].bytes] else []) + Packets(outputs[1..])
  }

  lemma {:induction false} PacketsAppend(a: seq<Output>, b: seq<Output>)
    ensures Packets(a + b) == Packets(a) + Packets(b)
  {
    if a == [] {
      assert a + b == b;
    } else {
      assert (a + b)[1..] == a[1..] + b;
      PacketsAppend(a[1..], b);
      var first := if a[0].Packet? then [a[0].bytes] else [];
      assert Packets(a) == first + Packets(a[1..]) && Packets(a + b) == first + Packets(a[1..] + b);
    }
  }

  lemma OnePacket(bytes: Bytes)
    ensures Packets([Packet(bytes)]) == [bytes]
  {
    assert [Packet(bytes)][1..] == [];
  }

  lemma TextIsNoPacket(text: string, rest: seq<Output>)
    ensures Packets([Text(text)] + rest) == Packets(rest)
  {
    assert ([Text(text)] + rest)[1..] == rest;
  }

  /** Each packet parses to the message in its place. */
  predicate Carries(env: Env, packets: seq<Bytes>, messages: seq<Bytes>)
    requires Proper(env)
  {
    && |packets| == |messages|
    && forall i :: 0 <= i < |packets| ==> Parse(packets[i], env.reserved, true, env.crc) == Parsed(messages[i])
  }

  // ----- one event on a call

  predicate OnLine(s: Fsm)
  {
    s.line.Online? && s.call.OnCall?
  }

  /** By the stored numbers: data waits, and the last packet has had its time at the target bit rate. */
  predicate DueToSend(env: Env, s: Fsm, now: int)
    requires Proper(env) && s.call.OnCall?
  {
    |s.dataOut| > 0 &&
    (now - s.call.record.lastTxTime) as real * env.targetBitRate as real > 8.0 * s.call.record.lastBytesSent as real
  }

  lemma RateExactly(env: Env, r: CallRecord, now: int)
    requires Proper(env)
    ensures now as real <= r.lastTxTime as real + r.lastBytesSent as real / ByteRate(env) <==>
              (now - r.lastTxTime) as real * env.targetBitRate as real <= 8.0 * r.lastBytesSent as real
  {
    Quotient((now - r.lastTxTime) as real, r.lastBytesSent as real, env.targetBitRate as real);
  }

  lemma Quotient(x: real, y: real, rate: real)
    requires rate > 0.0
    ensures x <= y / (rate / 8.0) <==> x * rate <= 8.0 * y
  {
    var q := y / (rate / 8.0);
    assert q * (rate / 8.0) == y;
    assert q * rate == 8.0 * y;
    if x <= q {
      assert x * rate <= q * rate;
    } else {
      assert x * rate > q * rate;
    }
  }

  /** What a tick on a call does when it sends. */
  predicate SendsFirst(env: Env, s: Fsm, next: Fsm, packet: Bytes, now: int)
    requires Proper(env) && s.call.OnCall? && |s.dataOut| > 0
  {
    && Parse(packet, env.reserved, true, env.crc) == Parsed(s.dataOut[0])
    && next.dataOut == s.dataOut[1..] && next.line == s.line && next.received == s.received && next.hungUp == s.hungUp
    && next.serialTx == (if |s.serialTx| < 10 then s.serialTx else s.serialTx[1..]) + [Packet(packet)]
    && next.call == OnCall(s.call.record.(lastTxTime := now, lastBytesSent := |packet|,
                                          totalBytesSent := s.call.record.totalBytesSent + |packet|))
  }

  /** A due tick takes the first message off the queue and appends one packet that parses to it; any other
      tick changes nothing. */
  lemma TickSends(env: Env, s: Fsm, clock: nat -> int) returns (packet: Bytes)
    requires Proper(env) && OnLine(s)
    ensures var next := ProcessEvent(env, s, EvTxSerial, clock);
            if DueToSend(env, s, clock(1)) then SendsFirst(env, s, next, packet, clock(1)) else next == s
  {
    TickDrains(env, s, clock);
    packet := DueSends(env, s, clock(1));
  }

  lemma TickDrains(env: Env, s: Fsm, clock: nat -> int)
    requires Proper(env) && OnLine(s)
    ensures ProcessEvent(env, s, EvTxSerial, clock) == CallTx(env, s, clock(1)).fsm
  {
    DrainStep(env, s, [EvTxSerial], clock, 0);
    assert [EvTxSerial][1..] + [EvTxOnCallSerial] == [EvTxOnCallSerial];
    DrainStep(env, s, [EvTxOnCallSerial], clock, 1);
    assert [EvTxOnCallSerial][1..] + [] == [];
  }

  lemma DueSends(env: Env, s: Fsm, now: int) returns (packet: Bytes)
    requires Proper(env) && s.call.OnCall?
    ensures var next := CallTx(env, s, now).fsm;
            if DueToSend(env, s, now) then SendsFirst(env, s, next, packet, now) else next == s
  {
    packet := [];
    if DueToSend(env, s, now) {
      packet := Serialize(s.dataOut[0], env.reserved, true, env.crc);
      SerializeRoundTrip(s.dataOut[0], env.reserved, true, env.crc);
      WhenDue(env, s, now, packet);
    } else {
      WhenNotDue(env, s, now);
    }
  }

  lemma WhenNotDue(env: Env, s: Fsm, now: int)
    requires Proper(env) && s.call.OnCall? && !DueToSend(env, s, now)
    ensures CallTx(env, s, now).fsm == s
  {
    RateExactly(env, s.call.record, now);
  }

  lemma WhenDue(env: Env, s: Fsm, now: int, packet: Bytes)
    requires Proper(env) && s.call.OnCall? && DueToSend(env, s, now)
    requires packet == Serialize(s.dataOut[0], env.reserved, true, env.crc)
    ensures CallTx(env, s, now).fsm
            == Transmit(s.(call := OnCall(Sent(s.call.record, |packet|, now)), dataOut := s.dataOut[1..]), Packet(packet))
  {
    RateExactly(env, s.call.record, now);
  }

  /** The time of the last reception, the bye and the message that a line leaves behind. */
  predicate Heard(env: Env, s: Fsm, next: Fsm, text: string, now: int)
    requires Proper(env) && s.call.OnCall?
  {
    var r := s.call.record;
    if Trim(text) == "goby" then next == s
    else if Trim(text) == "bye" then next == s.(call := OnCall(r.(byeReceived := true)))
    else if Parse(Octets(text), env.reserved, true, env.crc).Parsed? then
      var message := Parse(Octets(text), env.reserved, true, env.crc).bytes;
      next == s.(call := OnCall(r.(lastRxTime := now)),
                 received := (if |s.received| < 10 then s.received else s.received[1..]) + [message])
    else next == s
  }

  /** A line that does not report a lost carrier. */
  lemma LineHeard(env: Env, s: Fsm, text: string, clock: nat -> int)
    requires Proper(env) && OnLine(s) && !Contains(text, "NO CARRIER")
    ensures Heard(env, s, ProcessEvent(env, s, EvRxSerial(text), clock), text, clock(1))
  {
    DrainStep(env, s, [EvRxSerial(text)], clock, 0);
    assert [EvRxSerial(text)][1..] + [EvRxOnCallSerial(text)] == [EvRxOnCallSerial(text)];
    DrainStep(env, s, [EvRxOnCallSerial(text)], clock, 1);
    assert [EvRxOnCallSerial(text)][1..] + [] == [];
  }

  lemma ByeSent(env: Env, s: Fsm, clock: nat -> int)
    requires Proper(env) && OnLine(s)
    ensures ProcessEvent(env, s, EvSendBye, clock)
            == s.(call := OnCall(s.call.record.(byeSent := true)),
                  serialTx := [Text("bye\r")] + if |s.serialTx| < 10 then s.serialTx else s.serialTx[..|s.serialTx| - 1])
  {
    DrainStep(env, s, [EvSendBye], clock, 0);
    assert [EvSendBye][1..] + [] == [];
  }

  /** Requests to dial or to begin a data burst are ignored on line. */
  lemma IgnoredOnLine(env: Env, s: Fsm, e: Event, clock: nat -> int)
    requires Proper(env) && OnLine(s) && (e.EvDial? || e.EvSBDBeginData?)
    ensures ProcessEvent(env, s, e, clock) == s
  {
    DrainStep(env, s, [e], clock, 0);
    assert [e][1..] + [] == [];
  }

  // ----- runs on a call

  /** Anything but the end of the call. */
  predicate CallGoesOn(stimulus: Stimulus)
  {
    stimulus.Occur? ==>
      && External(stimulus.event) && !stimulus.event.EvHangup? && !stimulus.event.EvNoCarrier?
      && (stimulus.event.EvRxSerial? ==> !Contains(stimulus.event.line, "NO CARRIER"))
  }

  /** There is room for what the stimulus may add to the three buffers. */
  predicate Room(s: Fsm, stimulus: Stimulus)
  {
    && (stimulus.Buffer? ==> |s.dataOut| < 5)
    && (stimulus.Occur? && (stimulus.event.EvTxSerial? || stimulus.event.EvSendBye?) ==> |s.serialTx| < 10)
    && (stimulus.Occur? && stimulus.event.EvRxSerial? ==> |s.received| < 10)
  }

  predicate Roomy(env: Env, s: Fsm, stimuli: seq<Stimulus>)
    requires Proper(env)
    decreases |stimuli|
  {
    stimuli == [] ||
    (CallGoesOn(stimuli[0]) && Room(s, stimuli[0]) && Roomy(env, After(env, s, stimuli[0]), stimuli[1..]))
  }

  /** The message of a line that is neither a greeting nor a bye. */
  function MessageOf(env: Env, text: string): seq<Bytes>
    requires Proper(env)
  {
    if Trim(text) == "goby" || Trim(text) == "bye" then []
    else
      match Parse(Octets(text), env.reserved, true, env.crc)
      case Parsed(message) => [message]
      case Rejected(_) => []
  }

  function HeardBy(env: Env, stimulus: Stimulus): seq<Bytes>
    requires Proper(env)
  {
    if stimulus.Occur? && stimulus.event.EvRxSerial? then MessageOf(env, stimulus.event.line) else []
  }

  function AllHeard(env: Env, stimuli: seq<Stimulus>): seq<Bytes>
    requires Proper(env)
    decreases |stimuli|
  {
    if stimuli == [] then [] else HeardBy(env, stimuli[0]) + AllHeard(env, stimuli[1..])
  }

  /** From one state to another, these packets were put out for these messages of the queue. */
  predicate Flows(env: Env, s: Fsm, written: seq<Output>, next: Fsm, queued: seq<Bytes>, packets: seq<Bytes>)
    requires Proper(env)
  {
    && |packets| <= |s.dataOut + queued|
    && Packets(written + next.serialTx) == Packets(s.serialTx) + packets
    && Carries(env, packets, (s.dataOut + queued)[..|packets|])
    && next.dataOut == (s.dataOut + queued)[|packets|..]
  }

  lemma SameFlows(env: Env, s: Fsm, next: Fsm)
    requires Proper(env) && next.serialTx == s.serialTx && next.dataOut == s.dataOut
    ensures Flows(env, s, [], next, [], [])
  {
    assert [] + next.serialTx == next.serialTx && s.dataOut + [] == s.dataOut;
  }

  lemma TickFlows(env: Env, s: Fsm, clock: nat -> int) returns (packets: seq<Bytes>)
    requires Proper(env) && OnLine(s) && |s.serialTx| < 10
    ensures var next := ProcessEvent(env, s, EvTxSerial, clock);
            OnLine(next) && Flows(env, s, [], next, [], packets) && next.received == s.received
  {
    var packet := TickSends(env, s, clock);
    var next := ProcessEvent(env, s, EvTxSerial, clock);
    if DueToSend(env, s, clock(1)) {
      packets := [packet];
      PacketsAppend(s.serialTx, [Packet(packet)]);
      OnePacket(packet);
      assert [] + next.serialTx == next.serialTx && s.dataOut + [] == s.dataOut;
      assert s.dataOut[..1] == [s.dataOut[0]];
    } else {
      packets := [];
      SameFlows(env, s, next);
    }
  }

  lemma ByeFlows(env: Env, s: Fsm, clock: nat -> int)
    requires Proper(env) && OnLine(s) && |s.serialTx| < 10
    ensures var next := ProcessEvent(env, s, EvSendBye, clock);
            OnLine(next) && Flows(env, s, [], next, [], []) && next.received == s.received
  {
    ByeSent(env, s, clock);
    var next := ProcessEvent(env, s, EvSendBye, clock);
    TextIsNoPacket("bye\r", s.serialTx);
    assert [] + next.serialTx == next.serialTx && s.dataOut + [] == s.dataOut;
  }

  lemma MoveFlows(env: Env, s: Fsm, stimulus: Stimulus)
    requires Proper(env) && !stimulus.Occur? && Room(s, stimulus)
    ensures Flows(env, s, WrittenBy(s, stimulus), Move(s, stimulus), QueuedBy(stimulus), [])
    ensures PassedBy(s, stimulus) + Move(s, stimulus).received == s.received
  {
    var written, next, queued := WrittenBy(s, stimulus), Move(s, stimulus), QueuedBy(stimulus);
    assert written + next.serialTx == s.serialTx;
    assert next.dataOut == s.dataOut + queued;
    assert next.dataOut[0..] == next.dataOut && Packets(s.serialTx) + [] == Packets(s.serialTx);
    assert PassedBy(s, stimulus) + next.received == s.received;
  }

  /** One stimulus on a call. */
  lemma StepFlows(env: Env, s: Fsm, stimulus: Stimulus) returns (packets: seq<Bytes>)
    requires Proper(env) && OnLine(s) && CallGoesOn(stimulus) && Room(s, stimulus)
    ensures var next := After(env, s, stimulus);
            && OnLine(next) && Flows(env, s, WrittenBy(s, stimulus), next, QueuedBy(stimulus), packets)
            && PassedBy(s, stimulus) + next.received == s.received + HeardBy(env, stimulus)
  {
    packets := [];
    if !stimulus.Occur? {
      MoveFlows(env, s, stimulus);
      assert s.received + [] == s.received;
    } else {
      var next := After(env, s, stimulus);
      if stimulus.event.EvTxSerial? {
        packets := TickFlows(env, s, stimulus.clock);
      } else if stimulus.event.EvSendBye? {
        ByeFlows(env, s, stimulus.clock);
      } else if stimulus.event.EvRxSerial? {
        LineHeard(env, s, stimulus.event.line, stimulus.clock);
        SameFlows(env, s, next);
      } else {
        IgnoredOnLine(env, s, stimulus.event, stimulus.clock);
        SameFlows(env, s, next);
      }
      assert [] + next.received == next.received && s.received + [] == s.received;
    }
  }

  lemma FlowsOn(env: Env, s: Fsm, w: seq<Output>, m: Fsm, q: seq<Bytes>, p: seq<Bytes>,
                x: seq<Output>, n: Fsm, r: seq<Bytes>, o: seq<Bytes>)
    requires Proper(env) && Flows(env, s, w, m, q, p) && Flows(env, m, x, n, r, o)
    ensures Flows(env, s, w + x, n, q + r, p + o)
  {
    QueuesSplit(s.dataOut, q, m.dataOut, r, |p|, |o|);
    CarriesBoth(env, p, (s.dataOut + q)[..|p|], o, (m.dataOut + r)[..|o|]);
    PacketsAppend(w, x + n.serialTx);
    PacketsAppend(w, m.serialTx);
    assert (w + x) + n.serialTx == w + (x + n.serialTx);
    Grouped(Packets(w), Packets(m.serialTx), Packets(s.serialTx), p, o);
  }

  lemma Grouped(a: seq<Bytes>, b: seq<Bytes>, c: seq<Bytes>, p: seq<Bytes>, o: seq<Bytes>)
    requires a + b == c + p
    ensures a + (b + o) == c + (p + o)
  {
    assert a + (b + o) == (a + b) + o;
  }

  lemma CarriesBoth(env: Env, p: seq<Bytes>, a: seq<Bytes>, o: seq<Bytes>, b: seq<Bytes>)
    requires Proper(env) && Carries(env, p, a) && Carries(env, o, b)
    ensures Carries(env, p + o, a + b)
  {
  }

  /** Taking i off a queue to which q was added, then j after r was added, is taking i + j after both were. */
  lemma QueuesSplit(d: seq<Bytes>, q: seq<Bytes>, e: seq<Bytes>, r: seq<Bytes>, i: nat, j: nat)
    requires i <= |d + q| && e == (d + q)[i..] && j <= |e + r|
    ensures i + j <= |d + (q + r)|
    ensures (d + (q + r))[..i + j] == (d + q)[..i] + (e + r)[..j] && (d + (q + r))[i + j..] == (e + r)[j..]
  {
    var all := d + (q + r);
    assert all == (d + q) + r;
    assert all[i..] == e + r;
    assert all[i..][..j] == all[i..i + j] && all[i..][j..] == all[i + j..];
    assert all[..i] == (d + q)[..i];
  }

  /** Over every run on a call in which the buffers have room: what is written and what still waits to be
      written are packets that parse to the messages of the queue, in order and once each, the others are
      still queued; and what was passed up and what still waits is what the lines say. */
  lemma {:induction false} CallDelivers(env: Env, s: Fsm, stimuli: seq<Stimulus>) returns (packets: seq<Bytes>)
    requires Proper(env) && OnLine(s) && Roomy(env, s, stimuli)
    ensures var r := Run(env, s, stimuli);
            && OnLine(r) && Flows(env, s, Wire(env, s, stimuli), r, Queued(stimuli), packets)
            && PassedUp(env, s, stimuli) + r.received == s.received + AllHeard(env, stimuli)
    decreases |stimuli|
  {
    if stimuli == [] {
      packets := [];
      SameFlows(env, s, s);
      assert [] + s.received == s.received + [];
    } else {
      var first, rest := stimuli[0], stimuli[1..];
      var next := After(env, s, first);
      var some := StepFlows(env, s, first);
      var more := CallDelivers(env, next, rest);
      packets := some + more;
      FlowsOn(env, s, WrittenBy(s, first), next, QueuedBy(first), some,
              Wire(env, next, rest), Run(env, next, rest), Queued(rest), more);
      Regrouped(PassedBy(s, first), PassedUp(env, next, rest), Run(env, next, rest).received,
                next.received, s.received, HeardBy(env, first), AllHeard(env, rest));
    }
  }

  lemma Regrouped(a: seq<Bytes>, b: seq<Bytes>, c: seq<Bytes>, d: seq<Bytes>, e: seq<Bytes>, f: seq<Bytes>, g: seq<Bytes>)
    requires b + c == d + g && a + d == e + f
    ensures (a + b) + c == e + (f + g)
  {
    assert (a + b) + c == a + (b + c);
    assert a + (d + g) == (a + d) + g;
  }

  // ----- from driver to driver

  /** The received lines that are neither greeting nor bye. */
  function DataLines(stimuli: seq<Stimulus>): seq<string>
  {
    if stimuli == [] then []
    else
      (if IsData(stimuli[0]) then [stimuli[0].event.line] else []) + DataLines(stimuli[1..])
  }

  /** Line by line, the octets of the packets. */
  predicate SameOctets(lines: seq<string>, packets: seq<Bytes>)
  {
    |lines| == |packets| && forall i :: 0 <= i < |lines| ==> Octets(lines[i]) == packets[i]
  }

  lemma LineCarries(env: Env, text: string, packet: Bytes, message: Bytes)
    requires Proper(env) && Trim(text) != "goby" && Trim(text) != "bye"
    requires Octets(text) == packet && Parse(packet, env.reserved, true, env.crc) == Parsed(message)
    ensures MessageOf(env, text) == [message]
  {
  }

  /** Whether the stimulus is a line with data. */
  predicate IsData(stimulus: Stimulus)
  {
    && stimulus.Occur? && stimulus.event.EvRxSerial?
    && Trim(stimulus.event.line) != "goby" && Trim(stimulus.event.line) != "bye"
  }

  lemma NoDataHeard(env: Env, stimulus: Stimulus)
    requires Proper(env) && !IsData(stimulus)
    ensures HeardBy(env, stimulus) == []
  {
  }

  lemma {:induction false} HeardFromLines(env: Env, stimuli: seq<Stimulus>, packets: seq<Bytes>, messages: seq<Bytes>)
    requires Proper(env) && SameOctets(DataLines(stimuli), packets) && Carries(env, packets, messages)
    ensures AllHeard(env, stimuli) == messages
    decreases |stimuli|
  {
    if stimuli != [] {
      var later := DataLines(stimuli[1..]);
      if !IsData(stimuli[0]) {
        assert DataLines(stimuli) == later;
        NoDataHeard(env, stimuli[0]);
        HeardFromLines(env, stimuli[1..], packets, messages);
      } else {
        var text := stimuli[0].event.line;
        assert DataLines(stimuli) == [text] + later;
        assert DataLines(stimuli)[0] == text;
        LineCarries(env, text, packets[0], messages[0]);
        assert forall i :: 0 <= i < |later| ==> later[i] == DataLines(stimuli)[i + 1];
        HeardFromLines(env, stimuli[1..], packets[1..], messages[1..]);
        assert messages == [messages[0]] + messages[1..];
      }
    }
  }

  lemma CarriesPrefix(env: Env, packets: seq<Bytes>, messages: seq<Bytes>, n: nat)
    requires Proper(env) && Carries(env, packets, messages) && n <= |packets|
    ensures Carries(env, packets[..n], messages[..n])
  {
  }

  /** Two drivers on a call, on a line that neither loses nor adds: the second passes up, after what it had,
      exactly the messages that the first had queued first, in order and once each. */
  lemma EndToEnd(env: Env, a: Fsm, sending: seq<Stimulus>, b: Fsm, hearing: seq<Stimulus>) returns (n: nat)
    requires Proper(env) && OnLine(a) && OnLine(b) && Roomy(env, a, sending) && Roomy(env, b, hearing)
    requires Packets(a.serialTx) == [] && SameOctets(DataLines(hearing), Packets(Wire(env, a, sending)))
    ensures n == |Packets(Wire(env, a, sending))| <= |a.dataOut + Queued(sending)|
    ensures PassedUp(env, b, hearing) + Run(env, b, hearing).received
            == b.received + (a.dataOut + Queued(sending))[..n]
  {
    var packets := CallDelivers(env, a, sending);
    var _ := CallDelivers(env, b, hearing);
    var wire, left := Wire(env, a, sending), Run(env, a, sending).serialTx;
    var all := a.dataOut + Queued(sending);
    PacketsAppend(wire, left);
    n := |Packets(wire)|;
    assert packets == Packets(wire) + Packets(left);
    assert packets[..n] == Packets(wire);
    CarriesPrefix(env, packets, all[..|packets|], n);
    assert all[..|packets|][..n] == all[..n];
    HeardFromLines(env, hearing, Packets(wire), all[..n]);
  }

  // ----- off line

  /** Events that never lead to a transmission of data. */
  predicate Harmless(e: Event)
  {
    !e.EvTxOnCallSerial? && !e.EvTxSerial?
  }

  predicate AllHarmless(events: seq<Event>)
  {
    forall i :: 0 <= i < |events| ==> Harmless(events[i])
  }

  lemma DispatchKeepsData(env: Env, s: Fsm, e: Event, now: int)
    requires Proper(env) && (Harmless(e) || (e.EvTxSerial? && !s.line.Online?))
    ensures KeepsData(s, Dispatch(env, s, e, now))
  {
    if FromSerial(e) {
      SerialKeepsData(env, s, e, now);
    } else if ForSbd(e) {
      SbdKeepsData(env, s, e, now);
    }
  }

  predicate KeepsData(s: Fsm, r: Reaction)
  {
    r.fsm.dataOut == s.dataOut && AllHarmless(r.posts)
  }

  lemma SerialKeepsData(env: Env, s: Fsm, e: Event, now: int)
    requires Proper(env) && FromSerial(e) && (Harmless(e) || (e.EvTxSerial? && !s.line.Online?))
    ensures KeepsData(s, Dispatch(env, s, e, now))
  {
    if s.line.Command? && e.EvRxSerial? {
      RxKeepsData(env, s, e.line);
    } else if s.line.Command? && e.EvAck? {
      AckKeepsData(s, e.response);
    } else if s.call.OnCall? && e.EvRxOnCallSerial? {
      HearingKeepsData(env, s, e.line, now);
    }
  }

  lemma RxKeepsData(env: Env, s: Fsm, text: string)
    requires s.line.Command?
    ensures KeepsData(s, CommandRx(env, s, text))
  {
  }

  lemma AckKeepsData(s: Fsm, response: string)
    requires s.line.Command?
    ensures KeepsData(s, CommandAck(s, response))
  {
    if s.line.atOut != [] {
      assert AllHarmless(AckPosts(s.line.atOut[0].command, response, |s.line.atOut| == 1));
    }
  }

  lemma HearingKeepsData(env: Env, s: Fsm, text: string, now: int)
    requires Proper(env) && s.call.OnCall?
    ensures KeepsData(s, CallRx(env, s, text, now))
  {
  }

  lemma SbdKeepsData(env: Env, s: Fsm, e: Event, now: int)
    requires Proper(env) && ForSbd(e)
    ensures KeepsData(s, Dispatch(env, s, e, now))
  {
    if s.line.Command? {
      assert KeepsData(s, SbdReact(env, s, e));
    }
  }

  lemma {:induction false} DrainKeepsData(env: Env, s: Fsm, posted: seq<Event>, clock: nat -> int, tick: nat)
    requires Proper(env) && AllHarmless(posted)
    ensures Drain(env, s, posted, clock, tick).dataOut == s.dataOut
    decreases TotalWeight(posted)
  {
    if posted != [] {
      var r := Dispatch(env, s, posted[0], clock(tick));
      DrainStep(env, s, posted, clock, tick);
      DispatchKeepsData(env, s, posted[0], clock(tick));
      DrainKeepsData(env, r.fsm, posted[1..] + r.posts, clock, tick + 1);
    }
  }

  /** Only a tick on line takes data off the queue, whatever else happens and in whatever state. */
  lemma OffLineKeepsData(env: Env, s: Fsm, e: Event, clock: nat -> int)
    requires Proper(env) && External(e) && !(e.EvTxSerial? && s.line.Online?)
    ensures ProcessEvent(env, s, e, clock).dataOut == s.dataOut
  {
    DispatchKeepsData(env, s, e, clock(0));
    DrainStep(env, s, [e], clock, 0);
    var r := Dispatch(env, s, e, clock(0));
    assert [e][1..] + r.posts == r.posts;
    DrainKeepsData(env, r.fsm, r.posts, clock, 1);
  }

  /** A message that finds the queue full takes the place of the oldest one. */
  lemma OldestOverwritten(s: Fsm, message: Bytes)
    ensures Queue(s, message).dataOut == (if |s.dataOut| < 5 then s.dataOut else s.dataOut[1..]) + [message]
  {
  }
}
