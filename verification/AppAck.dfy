/** Application acknowledgments of the Micro-Modem driver for flexible data
    packets (src/acomms/modemdriver/mm_driver.cpp). */
module AppAck {
  import opened ByteStrings
  import opened Options

  /** application_ack_max_frames_, and the bits of an acked_frames field. */
  const MAX_FRAMES := 32

  /** A uint32 field, bit by bit. */
  type Mask = m: seq<bool> | |m| == MAX_FRAMES witness seq(MAX_FRAMES, _ => false)

  const NO_FRAMES: Mask := seq(MAX_FRAMES, _ => false)

  datatype AckPart = AckPart(dest: nat, frames: Mask)

  /** A data packet: the MMApplicationAck in front, then the data. */
  datatype Message = Message(src: nat, dest: int, frameStart: nat, ackRequested: bool, parts: seq<AckPart>, data: Bytes)

  /** signal_receive of an ACK with one acked_frame. */
  datatype Report = Report(to: nat, src: nat, dest: nat, frame: nat)

  datatype Driver = Driver(nextFrame: nat, waiting: set<nat>, toAck: map<nat, set<nat>>)

  const QUERY_DESTINATION_ID := -1
  const BROADCAST_ID := 0

  // ----- the bitmask

  function MaskOf(frames: set<nat>): Mask
  {
    seq(MAX_FRAMES, j requires 0 <= j < MAX_FRAMES => j in frames)
  }

  /** mask |= 1 << frame, kept in 32 bits */
  function SetBit(mask: Mask, frame: nat): Mask
  {
    if frame < MAX_FRAMES then mask[frame := true] else mask
  }

  /** The parts of an outgoing acknowledgment: in the order of the map, one mask for each source. */
  ghost predicate AcksFor(parts: seq<AckPart>, toAck: map<nat, set<nat>>)
  {
    && (forall i, j :: 0 <= i < j < |parts| ==> parts[i].dest < parts[j].dest)
    && (forall i :: 0 <= i < |parts| ==> parts[i].dest in toAck && parts[i].frames == MaskOf(toAck[parts[i].dest]))
    && toAck.Keys == Dests(parts)
  }

  function Dests(parts: seq<AckPart>): set<nat>
  {
    set p | p in parts :: p.dest
  }

  // ----- sending

  /** cache_outgoing_data: when the window has no room for one more frame, it starts over. */
  function Window(d: Driver): (w: Driver)
    ensures w.nextFrame < MAX_FRAMES
  {
    if d.nextFrame + 1 > MAX_FRAMES then d.(nextFrame := 0, waiting := {}) else d
  }

  function RealDest(dest: int): int
  {
    if dest == QUERY_DESTINATION_ID then BROADCAST_ID else dest
  }

  /** cctdp with the data and the ack request that signal_data_request supplied. */
  function Send(id: nat, d: Driver, dest: int, data: Bytes, ackRequested: bool, parts: seq<AckPart>)
    : (Driver, Option<Message>)
  {
    var w := Window(d).(toAck := map[]);
    if parts == [] && data == [] then (w, None)
    else
      var message := Message(id, RealDest(dest), w.nextFrame, ackRequested, parts, data);
      if ackRequested then (w.(waiting := w.waiting + {w.nextFrame}, nextFrame := w.nextFrame + 1), Some(message))
      else (w, Some(message))
  }

  // ----- receiving

  /** handle_ack for the set bits j, j+1, ... of one part. */
  function Scan(to: nat, src: nat, part: AckPart, waiting: set<nat>, j: nat): (r: (set<nat>, seq<Report>))
    requires j <= MAX_FRAMES
    decreases MAX_FRAMES - j
  {
    if j == MAX_FRAMES then (waiting, [])
    else if part.frames[j] && j in waiting then
      var (rest, reports) := Scan(to, src, part, waiting - {j}, j + 1);
      (rest, [Report(to, src, part.dest, j)] + reports)
    else Scan(to, src, part, waiting, j + 1)
  }

  function ScanAll(to: nat, ackIds: set<nat>, src: nat, parts: seq<AckPart>, waiting: set<nat>): (set<nat>, seq<Report>)
    decreases |parts|
  {
    if parts == [] then (waiting, [])
    else if parts[0].dest !in ackIds then ScanAll(to, ackIds, src, parts[1..], waiting)
    else
      var (left, first) := Scan(to, src, parts[0], waiting, 0);
      var (rest, more) := ScanAll(to, ackIds, src, parts[1..], left);
      (rest, first + more)
  }

  /** signal_receive is called for every set bit, with an empty message when the frame was not waited for. */
  function Signals(to: nat, src: nat, part: AckPart, waiting: set<nat>, j: nat): seq<Option<Report>>
    requires j <= MAX_FRAMES
    decreases MAX_FRAMES - j
  {
    if j == MAX_FRAMES then []
    else
      var rest := Signals(to, src, part, waiting, j + 1);
      if !part.frames[j] then rest
      else [if j in waiting then Some(Report(to, src, part.dest, j)) else None] + rest
  }

  function SignalsAll(to: nat, ackIds: set<nat>, src: nat, parts: seq<AckPart>, waiting: set<nat>): seq<Option<Report>>
    decreases |parts|
  {
    if parts == [] then []
    else if parts[0].dest !in ackIds then SignalsAll(to, ackIds, src, parts[1..], waiting)
    else
      Signals(to, src, parts[0], waiting, 0)
      + SignalsAll(to, ackIds, src, parts[1..], Scan(to, src, parts[0], waiting, 0).0)
  }

  /** The signals that carry an acknowledgment. */
  function Reported(signals: seq<Option<Report>>): seq<Report>
  {
    if signals == [] then []
    else (if signals[0].Some? then [signals[0].value] else []) + Reported(signals[1..])
  }

  function Cache(toAck: map<nat, set<nat>>, src: nat, frame: nat): map<nat, set<nat>>
  {
    toAck[src := (if src in toAck then toAck[src] else {}) + {frame}]
  }

  /** process_incoming_app_ack of a packet that was decoded. */
  function Receive(to: nat, ackIds: set<nat>, d: Driver, m: Message): (Driver, seq<Report>)
  {
    var toAck := if m.dest >= 0 && m.dest in ackIds && m.ackRequested then Cache(d.toAck, m.src, m.frameStart) else d.toAck;
    var (waiting, reports) := ScanAll(to, ackIds, m.src, m.parts, d.waiting);
    (d.(toAck := toAck, waiting := waiting), reports)
  }

  /** The driver object, with the loops of the original. */
  class MMDriver {
    const modemId: nat
    const ackIds: set<nat>
    var nextFrame: nat
    var waiting: set<nat>
    var toAck: map<nat, set<nat>>

    function View(): Driver
      reads this
    {
      Driver(nextFrame, waiting, toAck)
    }

    constructor (modemId: nat, additional: set<nat>)
      ensures this.modemId == modemId && ackIds == {modemId} + additional
      ensures View() == Driver(0, {}, map[])
    {
      this.modemId, ackIds := modemId, {modemId} + additional;
      nextFrame, waiting, toAck := 0, {}, map[];
    }

    method BuildMask(frames: set<nat>) returns (mask: Mask)
      ensures mask == MaskOf(frames)
    {
      mask := NO_FRAMES;
      var remaining := frames;
      while remaining != {}
        invariant remaining <= frames
        invariant forall j :: 0 <= j < MAX_FRAMES ==> (mask[j] <==> j in frames - remaining)
        decreases |remaining|
      {
        var frame :| frame in remaining;
        remaining := remaining - {frame};
        mask := SetBit(mask, frame);
      }
    }

    /** The parts for all frames that wait to be acknowledged, in the order of the map. */
    method BuildAcks() returns (parts: seq<AckPart>)
      ensures AcksFor(parts, toAck)
    {
      parts := [];
      var remaining := toAck.Keys;
      while remaining != {}
        invariant Building(parts, remaining, toAck)
        decreases |remaining|
      {
        var source := Least(remaining);
        var mask := BuildMask(toAck[source]);
        BuildingStep(parts, remaining, toAck, source);
        remaining := remaining - {source};
        parts := parts + [AckPart(source, mask)];
      }
    }

    method Least(s: set<nat>) returns (x: nat)
      requires s != {}
      ensures x in s && forall y :: y in s ==> x <= y
    {
      x :| x in s;
      var unseen := s - {x};
      while unseen != {}
        invariant unseen <= s && x in s
        invariant forall y :: y in s && y !in unseen ==> x <= y
        decreases |unseen|
      {
        var y :| y in unseen;
        unseen := unseen - {y};
        if y < x {
          x := y;
        }
      }
    }

    method Cctdp(dest: int, data: Bytes, ackRequested: bool) returns (sent: Option<Message>, parts: seq<AckPart>)
      modifies this
      ensures AcksFor(parts, old(toAck))
      ensures (View(), sent) == Send(modemId, old(View()), dest, data, ackRequested, parts)
    {
      if nextFrame + 1 > MAX_FRAMES {
        waiting := {};
        nextFrame := 0;
      }
      parts := BuildAcks();
      toAck := map[];
      if parts == [] && data == [] {
        return None, parts;
      }
      sent := Some(Message(modemId, RealDest(dest), nextFrame, ackRequested, parts, data));
      if ackRequested {
        waiting := waiting + {nextFrame};
        nextFrame := nextFrame + 1;
      }
    }

    /** The result lists the calls of signal_receive, in order. */
    method ProcessIncoming(m: Message) returns (signals: seq<Option<Report>>)
      modifies this
      ensures (View(), Reported(signals)) == Receive(modemId, ackIds, old(View()), m)
      ensures signals == SignalsAll(modemId, ackIds, m.src, m.parts, old(waiting))
    {
      if m.dest >= 0 && m.dest in ackIds && m.ackRequested {
        toAck := Cache(toAck, m.src, m.frameStart);
      }
      signals := HandleParts(m);
      ReportedSignals(modemId, ackIds, m.src, m.parts, old(waiting));
    }

    method HandleParts(m: Message) returns (signals: seq<Option<Report>>)
      modifies `waiting
      ensures waiting == ScanAll(modemId, ackIds, m.src, m.parts, old(waiting)).0
      ensures signals == SignalsAll(modemId, ackIds, m.src, m.parts, old(waiting))
    {
      signals := [];
      for i := 0 to |m.parts|
        invariant Progress(modemId, ackIds, m.src, m.parts, old(waiting), i, waiting, signals)
      {
        ProgressStep(modemId, ackIds, m.src, m.parts, old(waiting), i, waiting, signals);
        if m.parts[i].dest in ackIds {
          var more := HandlePart(m.src, m.parts[i]);
          signals := signals + more;
        }
      }
    }

    method HandlePart(src: nat, part: AckPart) returns (signals: seq<Option<Report>>)
      modifies `waiting
      ensures waiting == Scan(modemId, src, part, old(waiting), 0).0
      ensures signals == Signals(modemId, src, part, old(waiting), 0)
    {
      signals := [];
      for j := 0 to MAX_FRAMES
        invariant Scan(modemId, src, part, waiting, j).0 == Scan(modemId, src, part, old(waiting), 0).0
        invariant signals + Signals(modemId, src, part, old(waiting), j) == Signals(modemId, src, part, old(waiting), 0)
        invariant forall f :: j <= f < MAX_FRAMES ==> (f in waiting <==> f in old(waiting))
      {
        if part.frames[j] {
          var msg: Option<Report> := None;
          if j in waiting {
            msg := Some(Report(modemId, src, part.dest, j));
            waiting := waiting - {j};
          }
          signals := signals + [msg];
        }
      }
      assert signals + [] == signals;
    }
  }

  /** After the first i parts. */
  ghost predicate Progress(to: nat, ackIds: set<nat>, src: nat, parts: seq<AckPart>, start: set<nat>, i: nat,
                           waiting: set<nat>, signals: seq<Option<Report>>)
  {
    && i <= |parts|
    && ScanAll(to, ackIds, src, parts[i..], waiting).0 == ScanAll(to, ackIds, src, parts, start).0
    && signals + SignalsAll(to, ackIds, src, parts[i..], waiting) == SignalsAll(to, ackIds, src, parts, start)
  }

  lemma ProgressStep(to: nat, ackIds: set<nat>, src: nat, parts: seq<AckPart>, start: set<nat>, i: nat,
                     waiting: set<nat>, signals: seq<Option<Report>>)
    requires i < |parts| && Progress(to, ackIds, src, parts, start, i, waiting, signals)
    ensures if parts[i].dest in ackIds
            then Progress(to, ackIds, src, parts, start, i + 1, Scan(to, src, parts[i], waiting, 0).0,
                          signals + Signals(to, src, parts[i], waiting, 0))
            else Progress(to, ackIds, src, parts, start, i + 1, waiting, signals)
  {
    var rest := parts[i..];
    assert rest[0] == parts[i] && rest[1..] == parts[i + 1..];
  }

  // ----- signals and reports

  lemma {:induction false} ReportedAppend(a: seq<Option<Report>>, b: seq<Option<Report>>)
    ensures Reported(a + b) == Reported(a) + Reported(b)
  {
    if a == [] {
      assert a + b == b;
    } else {
      assert (a + b)[1..] == a[1..] + b;
      ReportedAppend(a[1..], b);
      var first := if a[0].Some? then [a[0].value] else [];
      assert Reported(a) == first + Reported(a[1..]) && Reported(a + b) == first + Reported(a[1..] + b);
    }
  }

  lemma {:induction false} ReportedPart(to: nat, src: nat, part: AckPart, start: set<nat>, waiting: set<nat>, j: nat)
    requires j <= MAX_FRAMES && forall f :: j <= f < MAX_FRAMES ==> (f in waiting <==> f in start)
    ensures Reported(Signals(to, src, part, start, j)) == Scan(to, src, part, waiting, j).1
    decreases MAX_FRAMES - j
  {
    if j < MAX_FRAMES {
      ReportedPart(to, src, part, start, if part.frames[j] && j in waiting then waiting - {j} else waiting, j + 1);
      var rest := Signals(to, src, part, start, j + 1);
      if part.frames[j] {
        var first := if j in start then Some(Report(to, src, part.dest, j)) else None;
        assert ([first] + rest)[1..] == rest;
      }
    }
  }

  /** Leaving out the empty signals gives the reports. */
  lemma {:induction false} ReportedSignals(to: nat, ackIds: set<nat>, src: nat, parts: seq<AckPart>, waiting: set<nat>)
    ensures Reported(SignalsAll(to, ackIds, src, parts, waiting)) == ScanAll(to, ackIds, src, parts, waiting).1
    decreases |parts|
  {
    if parts != [] {
      if parts[0].dest !in ackIds {
        ReportedSignals(to, ackIds, src, parts[1..], waiting);
      } else {
        var left := Scan(to, src, parts[0], waiting, 0).0;
        ReportedPart(to, src, parts[0], waiting, waiting, 0);
        ReportedSignals(to, ackIds, src, parts[1..], left);
        ReportedAppend(Signals(to, src, parts[0], waiting, 0), SignalsAll(to, ackIds, src, parts[1..], left));
      }
    }
  }

  /** The parts built so far, with the sources that remain all larger. */
  ghost predicate Building(parts: seq<AckPart>, remaining: set<nat>, toAck: map<nat, set<nat>>)
  {
    && (forall i, j :: 0 <= i < j < |parts| ==> parts[i].dest < parts[j].dest)
    && (forall i :: 0 <= i < |parts| ==> parts[i].dest in toAck && parts[i].frames == MaskOf(toAck[parts[i].dest]))
    && (forall i, s :: 0 <= i < |parts| && s in remaining ==> parts[i].dest < s)
    && remaining <= toAck.Keys && toAck.Keys - remaining == Dests(parts)
  }

  lemma BuildingStep(parts: seq<AckPart>, remaining: set<nat>, toAck: map<nat, set<nat>>, source: nat)
    requires Building(parts, remaining, toAck)
    requires source in remaining && forall s :: s in remaining ==> source <= s
    ensures Building(parts + [AckPart(source, MaskOf(toAck[source]))], remaining - {source}, toAck)
  {
    var last := AckPart(source, MaskOf(toAck[source]));
    assert Dests(parts + [last]) == Dests(parts) + {source} by {
      assert forall p :: p in parts + [last] <==> p in parts || p == last;
      assert last in parts + [last];
    }
  }

  // ----- what a scan does

  /** Only waiting frames with a set bit are reported, once each, and exactly these stop waiting. */
  lemma {:induction false} ScanMeans(to: nat, src: nat, part: AckPart, waiting: set<nat>, j: nat)
    requires j <= MAX_FRAMES
    ensures var (left, reports) := Scan(to, src, part, waiting, j);
            && (forall f :: f in left <==> f in waiting && !(j <= f < MAX_FRAMES && part.frames[f]))
            && (forall k :: 0 <= k < |reports| ==>
                  && reports[k].to == to && reports[k].src == src && reports[k].dest == part.dest
                  && j <= reports[k].frame < MAX_FRAMES && part.frames[reports[k].frame] && reports[k].frame in waiting)
            && DistinctFrames(reports)
    decreases MAX_FRAMES - j
  {
    if j < MAX_FRAMES {
      ScanMeans(to, src, part, if part.frames[j] && j in waiting then waiting - {j} else waiting, j + 1);
    }
  }

  /** And all of them are reported. */
  lemma {:induction false} ScanReportsAll(to: nat, src: nat, part: AckPart, waiting: set<nat>, j: nat, f: nat)
    requires j <= f < MAX_FRAMES && f in waiting && part.frames[f]
    ensures Report(to, src, part.dest, f) in Scan(to, src, part, waiting, j).1
    decreases f - j
  {
    if j < f {
      ScanReportsAll(to, src, part, if part.frames[j] && j in waiting then waiting - {j} else waiting, j + 1, f);
    }
  }

  /** A waiting frame acknowledged in some part for one of our ids is reported. */
  lemma {:induction false} ScanAllReports(to: nat, ackIds: set<nat>, src: nat, parts: seq<AckPart>, waiting: set<nat>,
                                          k: nat, f: nat)
    requires k < |parts| && parts[k].dest in ackIds && f < MAX_FRAMES && parts[k].frames[f] && f in waiting
    ensures exists dest :: Report(to, src, dest, f) in ScanAll(to, ackIds, src, parts, waiting).1
    ensures f !in ScanAll(to, ackIds, src, parts, waiting).0
    decreases |parts|
  {
    ScanAllMeans(to, ackIds, src, parts, waiting);
    if parts[0].dest !in ackIds {
      ScanAllReports(to, ackIds, src, parts[1..], waiting, k - 1, f);
    } else {
      var (left, first) := Scan(to, src, parts[0], waiting, 0);
      ScanMeans(to, src, parts[0], waiting, 0);
      ScanAllMeans(to, ackIds, src, parts[1..], left);
      var (rest, more) := ScanAll(to, ackIds, src, parts[1..], left);
      if parts[0].frames[f] {
        ScanReportsAll(to, src, parts[0], waiting, 0, f);
        assert Report(to, src, parts[0].dest, f) in first + more;
      } else {
        ScanAllReports(to, ackIds, src, parts[1..], left, k - 1, f);
        var dest :| Report(to, src, dest, f) in more;
        assert Report(to, src, dest, f) in first + more;
      }
    }
  }

  /** The exchange works: a frame that the destination hears is reported as acknowledged when the
      destination's next packet is heard. */
  lemma ExchangeCompletes(a: nat, aIds: set<nat>, dA: Driver, data: Bytes, aParts: seq<AckPart>,
                          b: nat, bIds: set<nat>, dB: Driver, reply: Bytes, bDest: int, bAck: bool, bParts: seq<AckPart>)
    requires a in aIds && b in bIds && (data != [] || aParts != [])
    requires var (_, m) := Send(a, dA, b, data, true, aParts);
             m.Some? && AcksFor(bParts, Receive(b, bIds, dB, m.value).0.toAck)
    ensures var (sender, m) := Send(a, dA, b, data, true, aParts);
            var (receiver, _) := Receive(b, bIds, dB, m.value);
            var (_, r) := Send(b, receiver, bDest, reply, bAck, bParts);
            && r.Some?
            && var (after, reports) := Receive(a, aIds, sender, r.value);
               && m.value.frameStart in sender.waiting && m.value.frameStart !in after.waiting
               && exists dest :: Report(a, b, dest, m.value.frameStart) in reports
  {
    var (sender, m) := Send(a, dA, b, data, true, aParts);
    var (receiver, _) := Receive(b, bIds, dB, m.value);
    var f := m.value.frameStart;
    assert a in receiver.toAck && f in receiver.toAck[a];
    assert a in Dests(bParts);
    var p :| p in bParts && p.dest == a;
    var k :| 0 <= k < |bParts| && bParts[k] == p;
    ScanAllReports(a, aIds, b, bParts, sender.waiting, k, f);
  }

  predicate Acks(parts: seq<AckPart>, dest: nat, frame: nat)
  {
    exists k :: 0 <= k < |parts| && parts[k].dest == dest && frame < MAX_FRAMES && parts[k].frames[frame]
  }

  /** A report comes from a part for one of our ids and ends the wait for its frame. */
  predicate Answers(p: Report, to: nat, ackIds: set<nat>, src: nat, parts: seq<AckPart>, waiting: set<nat>, left: set<nat>)
  {
    && p.to == to && p.src == src && p.dest in ackIds && Acks(parts, p.dest, p.frame)
    && p.frame in waiting && p.frame !in left
  }

  predicate DistinctFrames(reports: seq<Report>)
  {
    forall k, l :: 0 <= k < l < |reports| ==> reports[k].frame != reports[l].frame
  }

  lemma {:induction false} ScanAllMeans(to: nat, ackIds: set<nat>, src: nat, parts: seq<AckPart>, waiting: set<nat>)
    ensures var (left, reports) := ScanAll(to, ackIds, src, parts, waiting);
            && left <= waiting && DistinctFrames(reports)
            && (forall k :: 0 <= k < |reports| ==> Answers(reports[k], to, ackIds, src, parts, waiting, left))
    decreases |parts|
  {
    if parts != [] {
      if parts[0].dest !in ackIds {
        ScanAllMeans(to, ackIds, src, parts[1..], waiting);
        LaterParts(parts);
      } else {
        var (middle, first) := Scan(to, src, parts[0], waiting, 0);
        ScanMeans(to, src, parts[0], waiting, 0);
        ScanAllMeans(to, ackIds, src, parts[1..], middle);
        LaterParts(parts);
      }
    }
  }

  lemma LaterParts(parts: seq<AckPart>)
    requires parts != []
    ensures forall dest: nat, frame: nat :: Acks(parts[1..], dest, frame) ==> Acks(parts, dest, frame)
    ensures forall frame :: 0 <= frame < MAX_FRAMES && parts[0].frames[frame] ==> Acks(parts, parts[0].dest, frame)
  {
  }
}
