/** Any number of drivers on a channel that loses, delays, reorders and duplicates. */
module AckNetwork {
  import opened ByteStrings
  import opened AppAck
  import opened Options

  /** `ids` gives the application ack ids of each modem id; `sent` logs all that was ever put on
      the channel, `decoded` says who decoded what. */
  datatype Net = Net(ids: map<nat, set<nat>>, drivers: map<nat, Driver>, sent: seq<Message>,
                     decoded: set<(nat, Message)>, reports: seq<Report>)

  datatype Event =
    | Transmit(id: nat, dest: int, data: Bytes, ackRequested: bool, parts: seq<AckPart>)
    | Deliver(id: nat, message: Message)

  /** Every driver acknowledges for its own id, and for no id of another. */
  predicate Configured(ids: map<nat, set<nat>>)
  {
    && (forall a :: a in ids ==> a in ids[a])
    && (forall a, b :: a in ids && b in ids && a != b ==> ids[a] !! ids[b])
  }

  /** A driver sends what it owes; a message may be delivered to anybody, any number of times. */
  ghost predicate Legal(net: Net, e: Event)
  {
    match e
    case Transmit(id, _, _, _, parts) => id in net.drivers && AcksFor(parts, net.drivers[id].toAck)
    case Deliver(id, m) => id in net.drivers && id in net.ids && m in net.sent
  }

  ghost function Step(net: Net, e: Event): Net
    requires Legal(net, e)
  {
    match e
    case Transmit(id, dest, data, ackRequested, parts) =>
      var (d, message) := Send(id, net.drivers[id], dest, data, ackRequested, parts);
      net.(drivers := net.drivers[id := d], sent := if message.Some? then net.sent + [message.value] else net.sent)
    case Deliver(id, m) =>
      var (d, reports) := Receive(id, net.ids[id], net.drivers[id], m);
      net.(drivers := net.drivers[id := d], decoded := net.decoded + {(id, m)}, reports := net.reports + reports)
  }

  ghost predicate LegalRun(net: Net, events: seq<Event>)
    decreases |events|
  {
    events == [] || (Legal(net, events[0]) && LegalRun(Step(net, events[0]), events[1..]))
  }

  ghost function Run(net: Net, events: seq<Event>): Net
    requires LegalRun(net, events)
    decreases |events|
  {
    if events == [] then net else Run(Step(net, events[0]), events[1..])
  }

  ghost predicate Initial(net: Net)
  {
    && net.drivers.Keys == net.ids.Keys && Configured(net.ids)
    && (forall i :: i in net.drivers ==> net.drivers[i] == Driver(0, {}, map[]))
    && net.sent == [] && net.decoded == {} && net.reports == []
  }

  // ----- runs in parts

  lemma {:induction false} RunAppend(net: Net, a: seq<Event>, b: seq<Event>)
    requires LegalRun(net, a) && LegalRun(Run(net, a), b)
    ensures LegalRun(net, a + b) && Run(net, a + b) == Run(Run(net, a), b)
    decreases |a|
  {
    if a == [] {
      assert a + b == b;
    } else {
      assert (a + b)[0] == a[0] && (a + b)[1..] == a[1..] + b;
      RunAppend(Step(net, a[0]), a[1..], b);
    }
  }

  lemma OneEvent(net: Net, e: Event)
    requires Legal(net, e)
    ensures LegalRun(net, [e]) && Run(net, [e]) == Step(net, e)
  {
    assert [e][1..] == [];
  }

  // ----- the invariant of all runs

  /** Driver r decoded a packet from s that asked for an acknowledgment of this frame from r. */
  ghost predicate Heard(net: Net, r: nat, s: nat, frame: nat)
  {
    r in net.ids &&
    exists m :: (r, m) in net.decoded && m.src == s && m.ackRequested && m.frameStart == frame
                && m.dest >= 0 && m.dest in net.ids[r]
  }

  ghost predicate WindowsOpen(net: Net)
  {
    && net.drivers.Keys == net.ids.Keys && Configured(net.ids)
    && (forall i :: i in net.drivers ==> net.drivers[i].nextFrame <= MAX_FRAMES)
    && (forall i, f :: i in net.drivers && f in net.drivers[i].waiting ==> f < net.drivers[i].nextFrame)
    && (forall m :: m in net.sent ==> m.src in net.drivers)
    && (forall r, m :: (r, m) in net.decoded ==> m in net.sent)
  }

  ghost predicate AcksHonest(net: Net)
  {
    && (forall r, s, f :: r in net.drivers && s in net.drivers[r].toAck && f in net.drivers[r].toAck[s] ==>
          Heard(net, r, s, f))
    && (forall m, k, f :: m in net.sent && 0 <= k < |m.parts| && 0 <= f < MAX_FRAMES && m.parts[k].frames[f] ==>
          Heard(net, m.src, m.parts[k].dest, f))
  }

  ghost predicate ReportHonest(net: Net, p: Report)
  {
    p.to in net.drivers && p.dest == p.to && Heard(net, p.src, p.to, p.frame)
  }

  ghost predicate ReportsHonest(net: Net)
  {
    forall k :: 0 <= k < |net.reports| ==> ReportHonest(net, net.reports[k])
  }

  /** How often a driver sent a frame number with an ack requested. */
  function Requests(sent: seq<Message>, id: nat, frame: nat): nat
  {
    if sent == [] then 0
    else
      var last := sent[|sent| - 1];
      Requests(sent[..|sent| - 1], id, frame)
      + if last.src == id && last.ackRequested && last.frameStart == frame then 1 else 0
  }

  /** How often it was told that the frame number was acknowledged. */
  function Acknowledged(reports: seq<Report>, id: nat, frame: nat): nat
  {
    if reports == [] then 0
    else
      var last := reports[|reports| - 1];
      Acknowledged(reports[..|reports| - 1], id, frame) + if last.to == id && last.frame == frame then 1 else 0
  }

  predicate Covered(net: Net, id: nat, frame: nat)
    requires id in net.drivers
  {
    Acknowledged(net.reports, id, frame) + (if frame in net.drivers[id].waiting then 1 else 0)
    <= Requests(net.sent, id, frame)
  }

  /** No frame number is acknowledged more often than it was sent with a request. */
  ghost predicate AllCovered(net: Net)
  {
    forall i, f: nat :: i in net.drivers ==> Covered(net, i, f)
  }

  ghost predicate Inv(net: Net)
  {
    WindowsOpen(net) && AcksHonest(net) && ReportsHonest(net) && AllCovered(net)
  }

  lemma HeardGrows(net: Net, later: Net, r: nat, s: nat, frame: nat)
    requires Heard(net, r, s, frame) && later.ids == net.ids && net.decoded <= later.decoded
    ensures Heard(later, r, s, frame)
  {
  }

  // ----- sending keeps the invariant, also when the window starts over

  lemma TransmitWindows(net: Net, e: Event)
    requires WindowsOpen(net) && Legal(net, e) && e.Transmit?
    ensures WindowsOpen(Step(net, e))
  {
    var next := Step(net, e);
    assert forall m :: m in next.sent ==> m in net.sent || m.src == e.id;
    assert forall m :: m in net.sent ==> m in next.sent;
  }

  lemma TransmitAcks(net: Net, e: Event)
    requires AcksHonest(net) && Legal(net, e) && e.Transmit?
    ensures AcksHonest(Step(net, e))
  {
    var next, toAck := Step(net, e), net.drivers[e.id].toAck;
    forall r, s, f | r in next.drivers && s in next.drivers[r].toAck && f in next.drivers[r].toAck[s]
      ensures Heard(next, r, s, f)
    {
      HeardGrows(net, next, r, s, f);
    }
    forall m, k, f | m in next.sent && 0 <= k < |m.parts| && 0 <= f < MAX_FRAMES && m.parts[k].frames[f]
      ensures Heard(next, m.src, m.parts[k].dest, f)
    {
      if m in net.sent {
        HeardGrows(net, next, m.src, m.parts[k].dest, f);
      } else {
        assert m.parts == e.parts && m.src == e.id;
        assert f in toAck[m.parts[k].dest];
        HeardGrows(net, next, e.id, m.parts[k].dest, f);
      }
    }
  }

  lemma TransmitReports(net: Net, e: Event)
    requires ReportsHonest(net) && Legal(net, e) && e.Transmit?
    ensures ReportsHonest(Step(net, e))
  {
    var next := Step(net, e);
    forall k | 0 <= k < |next.reports| ensures ReportHonest(next, next.reports[k]) {
      var p := net.reports[k];
      assert ReportHonest(net, p);
      HeardGrows(net, next, p.src, p.to, p.frame);
    }
  }

  lemma RequestsAppend(sent: seq<Message>, m: Message, id: nat, frame: nat)
    ensures Requests(sent + [m], id, frame)
            == Requests(sent, id, frame) + if m.src == id && m.ackRequested && m.frameStart == frame then 1 else 0
  {
    assert (sent + [m])[..|sent|] == sent;
  }

  lemma TransmitCovered(net: Net, e: Event)
    requires WindowsOpen(net) && AllCovered(net) && Legal(net, e) && e.Transmit?
    ensures AllCovered(Step(net, e))
  {
    var next := Step(net, e);
    var w := Window(net.drivers[e.id]);
    forall i, f: nat | i in next.drivers ensures Covered(next, i, f) {
      assert Covered(net, i, f);
      if next.sent != net.sent {
        RequestsAppend(net.sent, next.sent[|net.sent|], i, f);
      }
    }
  }

  // ----- receiving keeps the invariant

  lemma DeliverWindows(net: Net, e: Event)
    requires WindowsOpen(net) && Legal(net, e) && e.Deliver?
    ensures WindowsOpen(Step(net, e))
  {
    ScanAllMeans(e.id, net.ids[e.id], e.message.src, e.message.parts, net.drivers[e.id].waiting);
  }

  lemma DeliverAcks(net: Net, e: Event)
    requires AcksHonest(net) && Legal(net, e) && e.Deliver?
    ensures AcksHonest(Step(net, e))
  {
    var next, m := Step(net, e), e.message;
    forall r, s, f | r in next.drivers && s in next.drivers[r].toAck && f in next.drivers[r].toAck[s]
      ensures Heard(next, r, s, f)
    {
      if s in net.drivers[r].toAck && f in net.drivers[r].toAck[s] {
        HeardGrows(net, next, r, s, f);
      } else {
        assert r == e.id && s == m.src && f == m.frameStart;
        assert (r, m) in next.decoded;
      }
    }
    forall n, k, f | n in next.sent && 0 <= k < |n.parts| && 0 <= f < MAX_FRAMES && n.parts[k].frames[f]
      ensures Heard(next, n.src, n.parts[k].dest, f)
    {
      HeardGrows(net, next, n.src, n.parts[k].dest, f);
    }
  }

  /** What a driver reports was acknowledged by a driver that heard it, and is its own. */
  lemma ReportIsHeard(net: Net, id: nat, m: Message, p: Report, left: set<nat>)
    requires WindowsOpen(net) && AcksHonest(net) && m in net.sent && id in net.drivers
    requires Answers(p, id, net.ids[id], m.src, m.parts, net.drivers[id].waiting, left)
    ensures Heard(net, p.src, p.to, p.frame) && p.dest == p.to
  {
    var k :| 0 <= k < |m.parts| && m.parts[k].dest == p.dest && p.frame < MAX_FRAMES && m.parts[k].frames[p.frame];
    assert Heard(net, m.src, m.parts[k].dest, p.frame);
    var n :| (m.src, n) in net.decoded && n.src == p.dest && n.ackRequested && n.frameStart == p.frame
             && n.dest >= 0 && n.dest in net.ids[m.src];
    assert p.dest in net.ids && p.dest in net.ids[p.dest];
  }

  lemma DeliverReports(net: Net, e: Event)
    requires Inv(net) && Legal(net, e) && e.Deliver?
    ensures ReportsHonest(Step(net, e))
  {
    var next, d, m := Step(net, e), net.drivers[e.id], e.message;
    var (left, new_) := ScanAll(e.id, net.ids[e.id], m.src, m.parts, d.waiting);
    ScanAllMeans(e.id, net.ids[e.id], m.src, m.parts, d.waiting);
    assert next.reports == net.reports + new_;
    forall k | 0 <= k < |next.reports| ensures ReportHonest(next, next.reports[k]) {
      var p := next.reports[k];
      if k < |net.reports| {
        assert ReportHonest(net, net.reports[k]);
      } else {
        assert p == new_[k - |net.reports|];
        ReportIsHeard(net, e.id, m, p, left);
      }
      HeardGrows(net, next, p.src, p.to, p.frame);
    }
  }

  lemma {:induction false} AcknowledgedAppend(a: seq<Report>, b: seq<Report>, id: nat, frame: nat)
    ensures Acknowledged(a + b, id, frame) == Acknowledged(a, id, frame) + Acknowledged(b, id, frame)
  {
    if b == [] {
      assert a + b == a;
    } else {
      assert (a + b)[..|a + b| - 1] == a + b[..|b| - 1];
      AcknowledgedAppend(a, b[..|b| - 1], id, frame);
    }
  }

  /** Reports with distinct frames count each frame at most once, and only frames that are there. */
  lemma {:induction false} AcknowledgedOnce(reports: seq<Report>, id: nat, frame: nat)
    requires DistinctFrames(reports)
    ensures Acknowledged(reports, id, frame) <= 1
    ensures Acknowledged(reports, id, frame) == 1 ==>
              exists k :: 0 <= k < |reports| && reports[k].to == id && reports[k].frame == frame
  {
    if reports != [] {
      AcknowledgedOnce(reports[..|reports| - 1], id, frame);
    }
  }

  lemma DeliverCovered(net: Net, e: Event)
    requires AllCovered(net) && Legal(net, e) && e.Deliver?
    ensures AllCovered(Step(net, e))
  {
    var next, d, m := Step(net, e), net.drivers[e.id], e.message;
    var (left, new_) := ScanAll(e.id, net.ids[e.id], m.src, m.parts, d.waiting);
    ScanAllMeans(e.id, net.ids[e.id], m.src, m.parts, d.waiting);
    forall i, f: nat | i in next.drivers ensures Covered(next, i, f) {
      assert Covered(net, i, f);
      AcknowledgedAppend(net.reports, new_, i, f);
      AcknowledgedOnce(new_, i, f);
    }
  }

  lemma StepKeeps(net: Net, e: Event)
    requires Inv(net) && Legal(net, e)
    ensures Inv(Step(net, e))
  {
    if e.Transmit? {
      TransmitWindows(net, e);
      TransmitAcks(net, e);
      TransmitReports(net, e);
      TransmitCovered(net, e);
    } else {
      DeliverWindows(net, e);
      DeliverAcks(net, e);
      DeliverReports(net, e);
      DeliverCovered(net, e);
    }
  }

  lemma {:induction false} RunKeeps(net: Net, events: seq<Event>)
    requires Inv(net) && LegalRun(net, events)
    ensures Inv(Run(net, events)) && Run(net, events).ids == net.ids
    decreases |events|
  {
    if events != [] {
      StepKeeps(net, events[0]);
      RunKeeps(Step(net, events[0]), events[1..]);
    }
  }

  /** Over every run, however often windows start over: waiting frames stay below 32; every acked
      frame reported to a sender is a frame number that it sent with an ack requested and that a
      driver answering for the destination decoded; and no frame number is reported more often
      than it was sent. */
  lemma AckSafety(net: Net, events: seq<Event>)
    requires Initial(net) && LegalRun(net, events)
    ensures var r := Run(net, events);
            && (forall i, f :: i in r.drivers && f in r.drivers[i].waiting ==> f < MAX_FRAMES)
            && (forall k :: 0 <= k < |r.reports| ==> SentAndDecoded(r, r.reports[k]))
            && (forall i, f: nat :: i in r.drivers ==> Acknowledged(r.reports, i, f) <= Requests(r.sent, i, f))
  {
    RunKeeps(net, events);
    var r := Run(net, events);
    forall k | 0 <= k < |r.reports| ensures SentAndDecoded(r, r.reports[k]) {
      var p := r.reports[k];
      assert ReportHonest(r, p);
      var m :| (p.src, m) in r.decoded && m.src == p.to && m.ackRequested && m.frameStart == p.frame
               && m.dest >= 0 && m.dest in r.ids[p.src];
      assert m in r.sent;
    }
    forall i, f: nat | i in r.drivers ensures Acknowledged(r.reports, i, f) <= Requests(r.sent, i, f) {
      assert Covered(r, i, f);
    }
  }

  /** Some message of the sender with this frame number and an ack requested was decoded by the
      driver that acknowledged it, which answers for the message's destination. */
  ghost predicate SentAndDecoded(net: Net, p: Report)
  {
    && p.dest == p.to && p.src in net.ids
    && exists m :: m in net.sent && IsRequest(m, p.to, p.frame)
                   && m.dest >= 0 && m.dest in net.ids[p.src] && (p.src, m) in net.decoded
  }

  predicate IsRequest(m: Message, id: nat, frame: nat)
  {
    m.src == id && m.ackRequested && m.frameStart == frame
  }

  // ----- what is owed, and what a reply settles

  /** The driver decodes a message for one of its ids that asks for an acknowledgment. */
  predicate Hears(e: Event, r: nat, ids: set<nat>, s: nat, frame: nat)
  {
    && e.Deliver? && e.id == r && e.message.ackRequested && e.message.src == s && e.message.frameStart == frame
    && e.message.dest >= 0 && e.message.dest in ids
  }

  /** It did so, and has not sent since. */
  ghost predicate HeardSince(events: seq<Event>, r: nat, ids: set<nat>, s: nat, frame: nat)
  {
    exists i: nat :: HeardAt(events, r, ids, s, frame, i)
  }

  predicate Silent(events: seq<Event>, r: nat)
  {
    forall i :: 0 <= i < |events| ==> !(events[i].Transmit? && events[i].id == r)
  }

  predicate Owes(d: Driver, s: nat, frame: nat)
  {
    s in d.toAck && frame in d.toAck[s]
  }

  lemma StepOwes(net: Net, e: Event, r: nat, s: nat, frame: nat)
    requires Legal(net, e) && r in net.drivers && r in net.ids
    ensures Owes(Step(net, e).drivers[r], s, frame) <==>
              || Hears(e, r, net.ids[r], s, frame)
              || (Owes(net.drivers[r], s, frame) && !(e.Transmit? && e.id == r))
  {
  }

  lemma SilentFirst(e: Event, rest: seq<Event>, r: nat)
    ensures Silent([e] + rest, r) <==> Silent(rest, r) && !(e.Transmit? && e.id == r)
  {
    var all := [e] + rest;
    if Silent(all, r) {
      assert !(all[0].Transmit? && all[0].id == r);
      forall i | 0 <= i < |rest| ensures !(rest[i].Transmit? && rest[i].id == r) {
        assert rest[i] == all[i + 1];
      }
    }
  }

  /** Event i is the hearing, and the driver has been silent since. */
  predicate HeardAt(events: seq<Event>, r: nat, ids: set<nat>, s: nat, frame: nat, i: int)
  {
    0 <= i < |events| && Hears(events[i], r, ids, s, frame) && Silent(events[i + 1..], r)
  }

  lemma HeardAtShift(e: Event, rest: seq<Event>, r: nat, ids: set<nat>, s: nat, frame: nat, i: nat)
    ensures HeardAt([e] + rest, r, ids, s, frame, i + 1) <==> HeardAt(rest, r, ids, s, frame, i)
  {
    if i < |rest| {
      assert ([e] + rest)[i + 1] == rest[i] && ([e] + rest)[i + 1 + 1..] == rest[i + 1..];
    }
  }

  lemma HeardFirst(e: Event, rest: seq<Event>, r: nat, ids: set<nat>, s: nat, frame: nat)
    ensures HeardSince([e] + rest, r, ids, s, frame) <==>
              HeardSince(rest, r, ids, s, frame) || (Hears(e, r, ids, s, frame) && Silent(rest, r))
  {
    assert ([e] + rest)[0] == e && ([e] + rest)[1..] == rest;
    assert HeardAt([e] + rest, r, ids, s, frame, 0) <==> Hears(e, r, ids, s, frame) && Silent(rest, r);
    if HeardSince(rest, r, ids, s, frame) {
      var i: nat :| HeardAt(rest, r, ids, s, frame, i);
      HeardAtShift(e, rest, r, ids, s, frame, i);
    }
    if HeardSince([e] + rest, r, ids, s, frame) {
      var i: nat :| HeardAt([e] + rest, r, ids, s, frame, i);
      if i > 0 {
        HeardAtShift(e, rest, r, ids, s, frame, i - 1);
      }
    }
  }

  lemma {:induction false} RunOwes(net: Net, events: seq<Event>, r: nat, s: nat, frame: nat)
    requires LegalRun(net, events) && r in net.drivers && r in net.ids
    ensures r in Run(net, events).drivers
    ensures Owes(Run(net, events).drivers[r], s, frame) <==>
              || HeardSince(events, r, net.ids[r], s, frame)
              || (Owes(net.drivers[r], s, frame) && Silent(events, r))
    decreases |events|
  {
    if events != [] {
      StepOwes(net, events[0], r, s, frame);
      RunOwes(Step(net, events[0]), events[1..], r, s, frame);
      HeardFirst(events[0], events[1..], r, net.ids[r], s, frame);
      SilentFirst(events[0], events[1..], r);
      assert events == [events[0]] + events[1..];
    }
  }

  /** Over every run, a driver owes its sources exactly the frames that it decoded for one of its ids,
      with an ack requested, since it last sent. */
  lemma OwedExactly(net: Net, events: seq<Event>, r: nat, s: nat, frame: nat)
    requires Initial(net) && LegalRun(net, events) && r in net.drivers
    ensures r in Run(net, events).drivers
    ensures var owed := Run(net, events).drivers[r].toAck;
            s in owed && frame in owed[s] <==> HeardSince(events, r, net.ids[r], s, frame)
  {
    RunOwes(net, events, r, s, frame);
  }

  /** A delivery settles just the frames that were heard: the hearer stops waiting for them and is told of
      each that it waited for. */
  ghost predicate Settles(net: Net, next: Net, a: nat, r: nat, heard: nat -> bool)
    requires a in net.drivers && a in next.drivers
  {
    && (forall f :: f in next.drivers[a].waiting <==> f in net.drivers[a].waiting && !heard(f))
    && |net.reports| <= |next.reports| && next.reports[..|net.reports|] == net.reports
    && (forall f :: f in net.drivers[a].waiting && heard(f) <==> Told(next.reports[|net.reports|..], a, r, f))
  }

  lemma DeliverSettles(net: Net, a: nat, m: Message, heard: nat -> bool)
    requires Inv(net) && a in net.ids && m in net.sent
    requires forall f: nat :: f < MAX_FRAMES ==> (AcksFrame(m.parts, net.ids[a], f) <==> heard(f))
    ensures Settles(net, Step(net, Deliver(a, m)), a, m.src, heard)
  {
    var waiting := net.drivers[a].waiting;
    ScanAllExactly(a, net.ids[a], m.src, m.parts, waiting);
    var (left, reports) := ScanAll(a, net.ids[a], m.src, m.parts, waiting);
    var next := Step(net, Deliver(a, m));
    assert next.reports == net.reports + reports && next.drivers[a].waiting == left;
    assert next.reports[|net.reports|..] == reports;
    forall f ensures f in waiting && heard(f) <==> Told(reports, a, m.src, f) {
    }
  }

  /** A reply settles any number of frames from any number of sources: whatever driver r had heard since it
      last sent, and whatever happened since, each driver that hears the reply stops waiting for exactly those
      of its frames, and is told of each of them. */
  lemma ReplySettles(start: Net, before: seq<Event>, e: Event, m: Message, after: seq<Event>, a: nat)
    requires Initial(start) && LegalRun(start, before) && e.Transmit? && Legal(Run(start, before), e)
    requires Step(Run(start, before), e).sent == Run(start, before).sent + [m]
    requires LegalRun(Step(Run(start, before), e), after) && a in start.ids
    ensures var net := Run(Step(Run(start, before), e), after);
            && e.id in start.ids && a in net.drivers && Legal(net, Deliver(a, m))
            && Settles(net, Step(net, Deliver(a, m)), a, e.id,
                       (f: nat) => HeardSince(before, e.id, start.ids[e.id], a, f))
  {
    var net1 := Run(start, before);
    RunKeeps(start, before);
    StepKeeps(net1, e);
    var sent := Step(net1, e);
    RunKeeps(sent, after);
    assert m == sent.sent[|net1.sent|];
    RunGrows(sent, after);
    var heard := (f: nat) => HeardSince(before, e.id, start.ids[e.id], a, f);
    forall f: nat | f < MAX_FRAMES ensures AcksFrame(m.parts, start.ids[a], f) <==> heard(f) {
      PartsMean(net1, e, a, f);
      OwedExactly(start, before, e.id, a, f);
    }
    DeliverSettles(Run(sent, after), a, m, heard);
  }

  /** Some of the reports tells the driver of the frame. */
  predicate Told(reports: seq<Report>, a: nat, r: nat, frame: nat)
  {
    exists k :: 0 <= k < |reports| && reports[k].to == a && reports[k].src == r && reports[k].frame == frame
  }

  /** Some part for one of these ids has the frame's bit set. */
  predicate AcksFrame(parts: seq<AckPart>, ids: set<nat>, frame: nat)
  {
    exists k :: 0 <= k < |parts| && parts[k].dest in ids && frame < MAX_FRAMES && parts[k].frames[frame]
  }

  lemma ScanAllExactly(to: nat, ackIds: set<nat>, src: nat, parts: seq<AckPart>, waiting: set<nat>)
    requires forall f :: f in waiting ==> f < MAX_FRAMES
    ensures var (left, reports) := ScanAll(to, ackIds, src, parts, waiting);
            forall f :: (f in left <==> f in waiting && !AcksFrame(parts, ackIds, f))
                        && (f in waiting && AcksFrame(parts, ackIds, f) <==> Told(reports, to, src, f))
  {
    var (left, reports) := ScanAll(to, ackIds, src, parts, waiting);
    ScanAllMeans(to, ackIds, src, parts, waiting);
    ScanAllKeeps(to, ackIds, src, parts, waiting);
    forall f | f in waiting && AcksFrame(parts, ackIds, f) ensures f !in left && Told(reports, to, src, f) {
      var k :| 0 <= k < |parts| && parts[k].dest in ackIds && parts[k].frames[f];
      ScanAllReports(to, ackIds, src, parts, waiting, k, f);
      var dest :| Report(to, src, dest, f) in reports;
      var n :| 0 <= n < |reports| && reports[n] == Report(to, src, dest, f);
    }
    forall f | Told(reports, to, src, f) ensures f in waiting && AcksFrame(parts, ackIds, f) {
      var n :| 0 <= n < |reports| && reports[n].to == to && reports[n].src == src && reports[n].frame == f;
      assert Answers(reports[n], to, ackIds, src, parts, waiting, left);
    }
  }

  /** What no part acknowledges goes on waiting. */
  lemma {:induction false} ScanAllKeeps(to: nat, ackIds: set<nat>, src: nat, parts: seq<AckPart>, waiting: set<nat>)
    ensures forall f :: f in waiting && !AcksFrame(parts, ackIds, f) ==> f in ScanAll(to, ackIds, src, parts, waiting).0
    decreases |parts|
  {
    if parts != [] {
      var left := if parts[0].dest !in ackIds then waiting else Scan(to, src, parts[0], waiting, 0).0;
      ScanMeans(to, src, parts[0], waiting, 0);
      ScanAllKeeps(to, ackIds, src, parts[1..], left);
      forall f: nat | AcksFrame(parts[1..], ackIds, f) ensures AcksFrame(parts, ackIds, f) {
        LaterAcks(parts, ackIds, f);
      }
    }
  }

  lemma LaterAcks(parts: seq<AckPart>, ids: set<nat>, frame: nat)
    requires parts != [] && AcksFrame(parts[1..], ids, frame)
    ensures AcksFrame(parts, ids, frame)
  {
    var k :| 0 <= k < |parts| - 1 && parts[1..][k].dest in ids && frame < MAX_FRAMES && parts[1..][k].frames[frame];
    assert parts[k + 1] == parts[1..][k];
  }

  /** The parts of a reply acknowledge to driver a just what is owed to it. */
  lemma PartsMean(net: Net, e: Event, a: nat, frame: nat)
    requires Inv(net) && Legal(net, e) && e.Transmit? && a in net.ids && frame < MAX_FRAMES
    ensures AcksFrame(e.parts, net.ids[a], frame) <==> Owes(net.drivers[e.id], a, frame)
  {
    var toAck := net.drivers[e.id].toAck;
    if AcksFrame(e.parts, net.ids[a], frame) {
      var k :| 0 <= k < |e.parts| && e.parts[k].dest in net.ids[a] && e.parts[k].frames[frame];
      var s := e.parts[k].dest;
      assert s in toAck && frame in toAck[s];
      assert Heard(net, e.id, s, frame);
      assert s in net.ids && s in net.ids[s];
    }
    if Owes(net.drivers[e.id], a, frame) {
      assert a in Dests(e.parts);
      var p :| p in e.parts && p.dest == a;
      var k :| 0 <= k < |e.parts| && e.parts[k] == p;
      assert e.parts[k].frames[frame];
    }
  }

  lemma {:induction false} RunGrows(net: Net, events: seq<Event>)
    requires LegalRun(net, events)
    ensures forall m :: m in net.sent ==> m in Run(net, events).sent
    decreases |events|
  {
    if events != [] {
      RunGrows(Step(net, events[0]), events[1..]);
    }
  }

  /** A message to whom it may concern goes to the broadcast id: whoever answers for that owes an acknowledgment. */
  lemma QueryIsBroadcast(id: nat, d: Driver, data: Bytes, parts: seq<AckPart>, r: nat, ids: set<nat>, hearer: Driver)
    requires |data| > 0 && 0 in ids
    ensures var m := Send(id, d, -1, data, true, parts).1;
            && m.Some? && m.value.dest == 0 && Owes(Receive(r, ids, hearer, m.value).0, id, m.value.frameStart)
  {
  }

  // ----- how many requests keep frame numbers apart

  /** How many messages a driver sent with an ack requested. */
  function Total(sent: seq<Message>, id: nat): nat
  {
    if sent == [] then 0
    else
      var last := sent[|sent| - 1];
      Total(sent[..|sent| - 1], id) + if last.src == id && last.ackRequested then 1 else 0
  }

  ghost predicate AtMost(net: Net, n: nat)
  {
    forall i :: i in net.drivers ==> Total(net.sent, i) <= n
  }

  /** As long as a driver sent no more than 32 requests, each has a frame number of its own; only
      the 32nd may be followed by a new window. */
  ghost predicate NumberedTo(sent: seq<Message>, id: nat, next: nat)
  {
    var total := Total(sent, id);
    total <= MAX_FRAMES ==>
      && (next == total || (total == MAX_FRAMES && next == 0))
      && OnceBelow(sent, id, total)
  }

  ghost predicate OnceBelow(sent: seq<Message>, id: nat, total: nat)
  {
    forall f: nat :: Requests(sent, id, f) == if f < total then 1 else 0
  }

  ghost predicate AllNumbered(net: Net)
  {
    forall i :: i in net.drivers ==> NumberedTo(net.sent, i, net.drivers[i].nextFrame)
  }

  lemma TotalAppend(sent: seq<Message>, m: Message, id: nat)
    ensures Total(sent + [m], id) == Total(sent, id) + if m.src == id && m.ackRequested then 1 else 0
  {
    assert (sent + [m])[..|sent|] == sent;
  }

  lemma RequestNumbered(sent: seq<Message>, id: nat, next: nat, m: Message)
    requires NumberedTo(sent, id, next) && next < MAX_FRAMES && IsRequest(m, id, next)
    ensures NumberedTo(sent + [m], id, next + 1)
  {
    var total := Total(sent, id);
    TotalAppend(sent, m, id);
    if total < MAX_FRAMES {
      forall f: nat ensures Requests(sent + [m], id, f) == if f < total + 1 then 1 else 0 {
        RequestsAppend(sent, m, id, f);
      }
    }
  }

  lemma OtherNumbered(sent: seq<Message>, id: nat, next: nat, m: Message)
    requires NumberedTo(sent, id, next) && !(m.src == id && m.ackRequested)
    ensures NumberedTo(sent + [m], id, next)
  {
    TotalAppend(sent, m, id);
    forall f: nat ensures Requests(sent + [m], id, f) == Requests(sent, id, f) {
      RequestsAppend(sent, m, id, f);
    }
  }

  lemma StepNumbered(net: Net, e: Event, id: nat)
    requires Legal(net, e) && id in net.drivers && NumberedTo(net.sent, id, net.drivers[id].nextFrame)
    ensures NumberedTo(Step(net, e).sent, id, Step(net, e).drivers[id].nextFrame)
  {
    if e.Transmit? {
      var next := if e.id == id then Window(net.drivers[id]).nextFrame else net.drivers[id].nextFrame;
      assert NumberedTo(net.sent, id, next);
      var message := Send(e.id, net.drivers[e.id], e.dest, e.data, e.ackRequested, e.parts).1;
      if message.Some? {
        if e.id == id && e.ackRequested {
          RequestNumbered(net.sent, id, next, message.value);
        } else {
          OtherNumbered(net.sent, id, next, message.value);
        }
      }
    }
  }

  lemma {:induction false} RunNumbered(net: Net, events: seq<Event>)
    requires AllNumbered(net) && LegalRun(net, events)
    ensures AllNumbered(Run(net, events))
    decreases |events|
  {
    if events != [] {
      var next := Step(net, events[0]);
      forall i | i in next.drivers ensures NumberedTo(next.sent, i, next.drivers[i].nextFrame) {
        StepNumbered(net, events[0], i);
      }
      RunNumbered(Step(net, events[0]), events[1..]);
    }
  }

  lemma {:induction false} RequestCounted(sent: seq<Message>, m: Message)
    requires m in sent && m.ackRequested
    ensures Requests(sent, m.src, m.frameStart) >= 1
  {
    var last := |sent| - 1;
    if sent[last] != m {
      assert m in sent[..last];
      RequestCounted(sent[..last], m);
    }
  }

  /** Two requests for the same frame number are counted twice. */
  lemma {:induction false} RequestsCounted(sent: seq<Message>, m: Message, n: Message)
    requires m in sent && n in sent && m != n && m.ackRequested && IsRequest(n, m.src, m.frameStart)
    ensures Requests(sent, m.src, m.frameStart) >= 2
  {
    var last := |sent| - 1;
    if sent[last] == m {
      assert n in sent[..last];
      RequestCounted(sent[..last], n);
    } else if sent[last] == n {
      assert m in sent[..last];
      RequestCounted(sent[..last], m);
    } else {
      assert m in sent[..last] && n in sent[..last];
      RequestsCounted(sent[..last], m, n);
    }
  }

  // ----- every request is accounted for

  /** Each frame number was acknowledged or still waits, as often as it was sent. */
  ghost predicate Accounted(net: Net, id: nat)
    requires id in net.drivers
  {
    forall f: nat :: AccountedFor(net.reports, net.drivers[id].waiting, net.sent, id, f)
  }

  predicate AccountedFor(reports: seq<Report>, waiting: set<nat>, sent: seq<Message>, id: nat, frame: nat)
  {
    Acknowledged(reports, id, frame) + (if frame in waiting then 1 else 0) == Requests(sent, id, frame)
  }

  lemma SendAccounted(reports: seq<Report>, waiting: set<nat>, sent: seq<Message>, m: Message, id: nat, frame: nat)
    requires AccountedFor(reports, waiting, sent, id, frame)
    requires m.src == id && m.ackRequested ==> m.frameStart !in waiting
    ensures AccountedFor(reports, if m.src == id && m.ackRequested then waiting + {m.frameStart} else waiting,
                         sent + [m], id, frame)
  {
    RequestsAppend(sent, m, id, frame);
  }

  lemma TransmitAccounted(net: Net, e: Event, id: nat)
    requires WindowsOpen(net) && Legal(net, e) && e.Transmit? && id in net.drivers && Accounted(net, id)
    requires NumberedTo(net.sent, id, net.drivers[id].nextFrame) && Total(net.sent, id) < MAX_FRAMES
    ensures Accounted(Step(net, e), id)
  {
    var d, message := net.drivers[id], Send(e.id, net.drivers[e.id], e.dest, e.data, e.ackRequested, e.parts).1;
    assert Window(d) == d;
    if message.Some? {
      forall f: nat ensures AccountedFor(net.reports, Step(net, e).drivers[id].waiting, net.sent + [message.value], id, f) {
        assert AccountedFor(net.reports, d.waiting, net.sent, id, f);
        SendAccounted(net.reports, d.waiting, net.sent, message.value, id, f);
      }
    }
  }

  lemma DeliverAccounted(net: Net, e: Event, id: nat)
    requires WindowsOpen(net) && Legal(net, e) && e.Deliver? && id in net.drivers && Accounted(net, id)
    ensures Accounted(Step(net, e), id)
  {
    var next, m, waiting := Step(net, e), e.message, net.drivers[e.id].waiting;
    var (left, new_) := ScanAll(e.id, net.ids[e.id], m.src, m.parts, waiting);
    ScanAllMeans(e.id, net.ids[e.id], m.src, m.parts, waiting);
    ScanAllExactly(e.id, net.ids[e.id], m.src, m.parts, waiting);
    forall f: nat ensures AccountedFor(next.reports, next.drivers[id].waiting, next.sent, id, f) {
      assert AccountedFor(net.reports, net.drivers[id].waiting, net.sent, id, f);
      AcknowledgedAppend(net.reports, new_, id, f);
      AcknowledgedExactly(new_, e.id, m.src, id, f);
    }
  }

  lemma {:induction false} AcknowledgedExactly(reports: seq<Report>, to: nat, src: nat, id: nat, frame: nat)
    requires DistinctFrames(reports) && forall k :: 0 <= k < |reports| ==> reports[k].to == to && reports[k].src == src
    ensures Acknowledged(reports, id, frame) == if id == to && Told(reports, to, src, frame) then 1 else 0
  {
    if reports != [] {
      var last := |reports| - 1;
      AcknowledgedExactly(reports[..last], to, src, id, frame);
      assert forall k :: 0 <= k < last ==> reports[..last][k] == reports[k];
    }
  }

  lemma {:induction false} RunAccounted(net: Net, events: seq<Event>, id: nat)
    requires Inv(net) && AllNumbered(net) && LegalRun(net, events) && id in net.drivers && Accounted(net, id)
    requires Total(Run(net, events).sent, id) < MAX_FRAMES
    ensures id in Run(net, events).drivers && Accounted(Run(net, events), id)
    decreases |events|
  {
    if events != [] {
      var e, next := events[0], Step(net, events[0]);
      StepKeeps(net, e);
      RunNumbered(net, [e]);
      OneEvent(net, e);
      TotalGrows(net, events, id);
      TotalGrows(next, events[1..], id);
      if e.Transmit? {
        TransmitAccounted(net, e, id);
      } else {
        DeliverAccounted(net, e, id);
      }
      RunAccounted(next, events[1..], id);
    }
  }

  lemma {:induction false} TotalGrows(net: Net, events: seq<Event>, id: nat)
    requires LegalRun(net, events)
    ensures Total(net.sent, id) <= Total(Run(net, events).sent, id)
    decreases |events|
  {
    if events != [] {
      var next := Step(net, events[0]);
      if next.sent != net.sent {
        TotalAppend(net.sent, next.sent[|net.sent|], id);
      }
      TotalGrows(next, events[1..], id);
    }
  }

  /** Until a driver has sent 32 requests, each of them still waits or was acknowledged, and not both: no frame
      is forgotten, however the sendings and deliveries interleave. */
  lemma EveryRequestAccounted(net: Net, events: seq<Event>, id: nat, frame: nat)
    requires Initial(net) && LegalRun(net, events) && id in net.drivers && Total(Run(net, events).sent, id) < MAX_FRAMES
    ensures id in Run(net, events).drivers
    ensures var r := Run(net, events);
            && Requests(r.sent, id, frame) == (if frame < Total(r.sent, id) then 1 else 0)
            && Acknowledged(r.reports, id, frame) + (if frame in r.drivers[id].waiting then 1 else 0)
               == Requests(r.sent, id, frame)
  {
    InitiallyAccounted(net, id);
    RunAccounted(net, events, id);
    RunNumbered(net, events);
    var r := Run(net, events);
    assert OnceBelow(r.sent, id, Total(r.sent, id));
    assert AccountedFor(r.reports, r.drivers[id].waiting, r.sent, id, frame);
  }

  lemma InitiallyAccounted(net: Net, id: nat)
    requires Initial(net) && id in net.drivers
    ensures Inv(net) && AllNumbered(net) && Accounted(net, id)
  {
  }

  /** Every report is for the very message that was decoded, and comes at most once. */
  ghost predicate AllGenuine(net: Net)
  {
    && (forall k :: 0 <= k < |net.reports| ==> Genuine(net, net.reports[k]))
    && (forall i, f: nat :: i in net.drivers ==> Acknowledged(net.reports, i, f) <= 1)
  }

  /** With no more than n requests from each driver all reports are genuine, over every run, if and
      only if n is at most 32. */
  lemma GenuineExactly(n: nat)
    ensures (forall net, events ::
               Initial(net) && LegalRun(net, events) && AtMost(Run(net, events), n) ==> AllGenuine(Run(net, events)))
            <==> n <= MAX_FRAMES
  {
    if n <= MAX_FRAMES {
      forall net, events | Initial(net) && LegalRun(net, events) && AtMost(Run(net, events), n)
        ensures AllGenuine(Run(net, events))
      {
        GenuineWithin(net, events);
      }
    } else {
      var start, events := LateAckMisleads();
      assert AtMost(Run(start, events), n);
    }
  }

  lemma GenuineWithin(net: Net, events: seq<Event>)
    requires Initial(net) && LegalRun(net, events) && AtMost(Run(net, events), MAX_FRAMES)
    ensures AllGenuine(Run(net, events))
  {
    AckSafety(net, events);
    RunNumbered(net, events);
    RunKeeps(net, events);
    DistinctMeansGenuine(Run(net, events));
  }

  lemma DistinctMeansGenuine(net: Net)
    requires ReportsHonest(net) && forall k :: 0 <= k < |net.reports| ==> SentAndDecoded(net, net.reports[k])
    requires forall i, f: nat :: i in net.drivers ==> Acknowledged(net.reports, i, f) <= Requests(net.sent, i, f)
    requires forall i :: i in net.drivers ==> OnceBelow(net.sent, i, Total(net.sent, i))
    ensures AllGenuine(net)
  {
    forall k | 0 <= k < |net.reports| ensures Genuine(net, net.reports[k]) {
      var p := net.reports[k];
      assert ReportHonest(net, p);
      OnlyRequest(net, p, Total(net.sent, p.to));
    }
    forall i, f: nat | i in net.drivers ensures Acknowledged(net.reports, i, f) <= 1 {
      assert OnceBelow(net.sent, i, Total(net.sent, i));
      assert Requests(net.sent, i, f) <= 1;
    }
  }

  /** With one request for each frame number, what was decoded is the message that was meant. */
  lemma OnlyRequest(net: Net, p: Report, total: nat)
    requires OnceBelow(net.sent, p.to, total) && SentAndDecoded(net, p)
    ensures Genuine(net, p)
  {
    var m :| m in net.sent && IsRequest(m, p.to, p.frame)
             && m.dest >= 0 && m.dest in net.ids[p.src] && (p.src, m) in net.decoded;
    forall n | n in net.sent && IsRequest(n, p.to, p.frame) ensures n == m {
      if n != m {
        RequestsCounted(net.sent, m, n);
      }
    }
  }

  /** Every message that the report could be about was decoded. */
  ghost predicate Genuine(net: Net, p: Report)
  {
    SentAndDecoded(net, p) && forall m :: m in net.sent && IsRequest(m, p.to, p.frame) ==> (p.src, m) in net.decoded
  }

  // ----- across windows

  const NOBODY_YET: Net :=
    Net(map[1 := {1}, 2 := {2}], map[1 := Driver(0, {}, map[]), 2 := Driver(0, {}, map[])], [], {}, [])

  const EARLY: Message := Message(1, 2, 0, true, [], [7])
  const LATE: Message := Message(1, 2, 0, true, [], [8])
  const REPLY: Message := Message(2, 1, 0, false, [AckPart(1, MaskOf({0}))], [9])

  const SEND: Event := Transmit(1, 2, [8], true, [])

  function Sends(n: nat): (events: seq<Event>)
    ensures |events| == n
  {
    if n == 0 then [] else [SEND] + Sends(n - 1)
  }

  lemma TwoEvents(net: Net, d: Event, e: Event)
    requires Legal(net, d) && Legal(Step(net, d), e)
    ensures LegalRun(net, [d, e]) && Run(net, [d, e]) == Step(Step(net, d), e)
  {
    OneEvent(net, d);
    OneEvent(Step(net, d), e);
    RunAppend(net, [d], [e]);
    assert [d, e] == [d] + [e];
  }

  /** Driver 2 hears the first frame of driver 1 and acknowledges it; the reply is held up. */
  lemma ExchangeSteps() returns (start: Net, send: Event, hear: Event, reply: Event)
    ensures Initial(start) && Legal(start, send) && Legal(Step(start, send), hear)
    ensures Legal(Step(Step(start, send), hear), reply)
    ensures Sending(Step(Step(Step(start, send), hear), reply), 1)
  {
    var afterSend, afterHear;
    start, send, afterSend := SendEarly();
    hear, afterHear := HearEarly(afterSend);
    reply := AnswerEarly(afterHear);
  }

  lemma SendEarly() returns (start: Net, send: Event, after: Net)
    ensures Initial(start) && Legal(start, send) && after == Step(start, send) && Counted(after, 1)
    ensures after == NOBODY_YET.(drivers := map[1 := Driver(1, {0}, map[]), 2 := Driver(0, {}, map[])], sent := [EARLY])
  {
    start, send := NOBODY_YET, Transmit(1, 2, [7], true, []);
    assert Dests([]) == {};
    assert [] + [EARLY] == [EARLY] && {} + {0} == {0};
    after := Step(start, send);
    OneSent(EARLY);
  }

  lemma OneSent(m: Message)
    ensures forall id :: Total([m], id) == if m.src == id && m.ackRequested then 1 else 0
  {
    forall id ensures Total([m], id) == if m.src == id && m.ackRequested then 1 else 0 {
      TotalAppend([], m, id);
      assert [] + [m] == [m];
    }
  }

  lemma HearEarly(net: Net) returns (hear: Event, after: Net)
    requires net == NOBODY_YET.(drivers := map[1 := Driver(1, {0}, map[]), 2 := Driver(0, {}, map[])], sent := [EARLY])
    requires Counted(net, 1)
    ensures Counted(after, 1)
    ensures Legal(net, hear) && after == Step(net, hear)
    ensures after == net.(drivers := map[1 := Driver(1, {0}, map[]), 2 := Driver(0, {}, map[1 := {0}])],
                          decoded := {(2, EARLY)})
  {
    hear := Deliver(2, EARLY);
    assert {} + {0} == {0};
    after := Step(net, hear);
  }

  lemma AnswerEarly(net: Net) returns (reply: Event)
    requires net.ids == NOBODY_YET.ids && net.decoded == {(2, EARLY)} && net.reports == []
    requires net.drivers == map[1 := Driver(1, {0}, map[]), 2 := Driver(0, {}, map[1 := {0}])] && Counted(net, 1)
    ensures Legal(net, reply) && Sending(Step(net, reply), 1)
  {
    reply := Transmit(2, 1, [9], false, REPLY.parts);
    assert REPLY.parts[0].dest == 1;
    assert Dests(REPLY.parts) == {1};
    assert AcksFor(REPLY.parts, map[1 := {0}]);
    assert Step(net, reply).sent == net.sent + [REPLY];
    TotalAppend(net.sent, REPLY, 1);
    TotalAppend(net.sent, REPLY, 2);
  }

  lemma ExchangeRuns() returns (start: Net, events: seq<Event>)
    ensures Initial(start) && LegalRun(start, events) && Sending(Run(start, events), 1)
  {
    var send, hear, reply;
    start, send, hear, reply := ExchangeSteps();
    TwoEvents(start, send, hear);
    OneEvent(Step(Step(start, send), hear), reply);
    RunAppend(start, [send, hear], [reply]);
    events := [send, hear] + [reply];
  }

  /** The requests sent so far, all by driver 1. */
  ghost predicate Counted(net: Net, requests: nat)
  {
    Total(net.sent, 1) == requests && Total(net.sent, 2) == 0
  }

  /** Driver 1 uses up frame numbers; nothing is delivered. */
  ghost predicate Sending(net: Net, frames: nat)
  {
    && net.ids == NOBODY_YET.ids && net.drivers.Keys == {1, 2} && net.decoded == {(2, EARLY)} && net.reports == []
    && net.drivers[1].nextFrame == frames && net.drivers[1].toAck == map[] && REPLY in net.sent
    && Counted(net, frames)
  }

  lemma SendOne(net: Net, frames: nat)
    requires Sending(net, frames) && frames < MAX_FRAMES
    ensures Legal(net, SEND) && Sending(Step(net, SEND), frames + 1)
  {
    assert Dests([]) == {};
    assert AcksFor([], map[]);
    var m := Message(1, 2, frames, true, [], [8]);
    assert Step(net, SEND).sent == net.sent + [m];
    TotalAppend(net.sent, m, 1);
    TotalAppend(net.sent, m, 2);
  }

  lemma FirstEvent(net: Net, e: Event, rest: seq<Event>)
    requires Legal(net, e) && LegalRun(Step(net, e), rest)
    ensures LegalRun(net, [e] + rest) && Run(net, [e] + rest) == Run(Step(net, e), rest)
  {
    assert ([e] + rest)[1..] == rest;
  }

  lemma {:induction false} SendMany(net: Net, frames: nat, n: nat)
    requires Sending(net, frames) && frames + n <= MAX_FRAMES
    ensures LegalRun(net, Sends(n)) && Sending(Run(net, Sends(n)), frames + n)
    decreases n
  {
    if n > 0 {
      SendOne(net, frames);
      SendMany(Step(net, SEND), frames + 1, n - 1);
      FirstEvent(net, SEND, Sends(n - 1));
    }
  }

  ghost predicate Misleading(net: Net)
  {
    && LATE in net.sent && net.reports == [Report(1, 2, 1, 0)] && net.decoded == {(2, EARLY), (1, REPLY)}
    && net.drivers.Keys == {1, 2} && Counted(net, MAX_FRAMES + 1)
  }

  lemma NotGenuine(net: Net)
    requires Misleading(net)
    ensures !Genuine(net, net.reports[0]) && forall i :: (i, LATE) !in net.decoded
  {
    assert LATE.data[0] != EARLY.data[0];
    assert LATE != EARLY && LATE != REPLY;
    assert IsRequest(LATE, 1, 0) && (2, LATE) !in net.decoded;
  }

  /** Frame 0 is sent again, in a new window. */
  lemma SendLate(net: Net) returns (after: Net)
    requires Sending(net, MAX_FRAMES)
    ensures Legal(net, SEND) && after == Step(net, SEND) && after.ids == net.ids && after.drivers.Keys == {1, 2}
    ensures after.drivers[1] == Driver(1, {0}, map[]) && after.sent == net.sent + [LATE]
    ensures after.decoded == net.decoded && after.reports == []
  {
    assert Dests([]) == {};
    assert AcksFor([], map[]);
    assert {} + {0} == {0};
    after := Step(net, SEND);
  }

  /** The old reply is taken for its acknowledgment. */
  lemma Misled(net: Net)
    requires Sending(net, MAX_FRAMES)
    ensures Legal(net, SEND) && Legal(Step(net, SEND), Deliver(1, REPLY))
    ensures Misleading(Step(Step(net, SEND), Deliver(1, REPLY)))
  {
    var after := SendLate(net);
    TotalAppend(net.sent, LATE, 1);
    TotalAppend(net.sent, LATE, 2);
    assert REPLY in after.sent && after.sent[|net.sent|] == LATE;
    ReplyTaken(after);
  }

  lemma ReplyTaken(net: Net)
    requires net.ids == NOBODY_YET.ids && net.drivers.Keys == {1, 2} && net.drivers[1] == Driver(1, {0}, map[])
    requires REPLY in net.sent && LATE in net.sent && Counted(net, MAX_FRAMES + 1)
    requires net.decoded == {(2, EARLY)} && net.reports == []
    ensures Legal(net, Deliver(1, REPLY)) && Misleading(Step(net, Deliver(1, REPLY)))
  {
    ReplyScanned();
    assert [] + [Report(1, 2, 1, 0)] == [Report(1, 2, 1, 0)];
  }

  lemma ReplyScanned()
    ensures ScanAll(1, {1}, 2, REPLY.parts, {0}).1 == [Report(1, 2, 1, 0)]
  {
    var part := REPLY.parts[0];
    NothingScanned(1, 2, part, {0} - {0}, 1);
    var (left, first) := Scan(1, 2, part, {0}, 0);
    assert part.frames[0] && first == [Report(1, 2, 1, 0)] + [];
    assert REPLY.parts[1..] == [];
    assert ScanAll(1, {1}, 2, [], left).1 == [];
  }

  lemma {:induction false} NothingScanned(to: nat, src: nat, part: AckPart, waiting: set<nat>, j: nat)
    requires j <= MAX_FRAMES && waiting == {}
    ensures Scan(to, src, part, waiting, j) == (waiting, [])
    decreases MAX_FRAMES - j
  {
    if j < MAX_FRAMES {
      NothingScanned(to, src, part, waiting, j + 1);
    }
  }

  /** With the 33rd request frame numbers no longer tell messages apart: the first window is used
      up while a reply is held up, frame 0 is sent again with another message, and the old reply
      is taken for its acknowledgment, although nobody decoded it. */
  lemma LateAckMisleads() returns (start: Net, events: seq<Event>)
    ensures Initial(start) && LegalRun(start, events)
    ensures var r := Run(start, events);
            && r.reports == [Report(1, 2, 1, 0)] && SentAndDecoded(r, r.reports[0])
            && !Genuine(r, r.reports[0]) && AtMost(r, MAX_FRAMES + 1)
            && LATE in r.sent && IsRequest(LATE, 1, 0) && forall i :: (i, LATE) !in r.decoded
  {
    start, events := LateAckRuns();
    NotGenuine(Run(start, events));
    AckSafety(start, events);
  }

  lemma LateAckRuns() returns (start: Net, events: seq<Event>)
    ensures Initial(start) && LegalRun(start, events) && Misleading(Run(start, events))
  {
    var exchange;
    start, exchange := ExchangeRuns();
    var middle := Run(start, exchange);
    var sends := WindowUsedUp(middle);
    var later := Run(middle, sends);
    Misled(later);
    TwoEvents(later, SEND, Deliver(1, REPLY));
    var last := [SEND, Deliver(1, REPLY)];
    RunAppend(middle, sends, last);
    RunAppend(start, exchange, sends + last);
    events := exchange + (sends + last);
  }

  lemma WindowUsedUp(net: Net) returns (sends: seq<Event>)
    requires Sending(net, 1)
    ensures LegalRun(net, sends) && Sending(Run(net, sends), MAX_FRAMES)
  {
    var n: nat :| n + 1 == MAX_FRAMES;
    SendMany(net, 1, n);
    sends := Sends(n);
  }
}
