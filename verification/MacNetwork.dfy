/** Any number of nodes running the same schedule, in any interleaving. */
module MacNetwork {
  import opened Arithmetic
  import opened MacSchedule
  import opened Options

  datatype Node = Node(config: Config, timer: Timer, clock: int, starts: seq<Start>)

  datatype Operation =
    | Work(due: int, now: int, now2: int, now3: int)
    | Refresh(now: int, later: int)
    | Stop
    | Resume(now: int, later: int)

  datatype Event = Event(node: nat, op: Operation)

  /** The last clock reading an operation may make. */
  function ClockAfter(clock: int, op: Operation): int
  {
    match op
    case Work(_, _, _, now3) => now3
    case Refresh(_, later) => later
    case Resume(_, later) => later
    case Stop => clock
  }

  /** The readings of one operation, and of successive operations of a node, do not decrease. */
  predicate Steady(clock: int, op: Operation)
  {
    match op
    case Work(due, now, now2, now3) => clock <= due <= now <= now2 <= now3
    case Refresh(now, later) => clock <= now <= later
    case Resume(now, later) => clock <= now <= later
    case Stop => true
  }

  function Step(slots: seq<Slot>, node: Node, op: Operation): (r: Node)
    requires PositiveSlots(slots) && ValidTimer(slots, node.timer)
    ensures ValidTimer(slots, r.timer) && r.config == node.config
  {
    var clock := ClockAfter(node.clock, op);
    match op
    case Work(due, now, now2, now3) =>
      var (timer, start) := DoWork(slots, node.config, node.timer, due, now, now2, now3);
      node.(timer := timer, clock := clock,
            starts := if start.Some? then node.starts + [start.value] else node.starts)
    case Refresh(now, later) => node.(timer := Update(slots, node.config, node.timer, now, later), clock := clock)
    case Resume(now, later) => node.(timer := Restart(slots, node.config, node.timer, now, later), clock := clock)
    case Stop => node.(timer := Shutdown(node.timer))
  }

  ghost predicate ValidNodes(slots: seq<Slot>, nodes: seq<Node>)
  {
    PositiveSlots(slots) && forall n :: 0 <= n < |nodes| ==> ValidTimer(slots, nodes[n].timer)
  }

  /** Events of nodes that do not exist change nothing. */
  ghost function Run(slots: seq<Slot>, nodes: seq<Node>, events: seq<Event>): (r: seq<Node>)
    requires ValidNodes(slots, nodes)
    ensures ValidNodes(slots, r) && |r| == |nodes|
    decreases |events|
  {
    if events == [] then nodes
    else if events[0].node >= |nodes| then Run(slots, nodes, events[1..])
    else
      var e := events[0];
      Run(slots, nodes[e.node := Step(slots, nodes[e.node], e.op)], events[1..])
  }

  /** Nodes that have not run yet. */
  predicate Fresh(node: Node)
  {
    !node.timer.running && node.starts == []
  }

  // ----- alignment is kept by every step

  ghost predicate OnSchedule(slots: seq<Slot>, node: Node)
  {
    && (node.timer.running ==> Aligned(slots, Base(node.config), node.timer.next, node.timer.current))
    && forall s :: 0 <= s < |node.starts| ==>
         && Aligned(slots, Base(node.config), node.starts[s].time, node.starts[s].slot)
         && (node.starts[s].initiated <==> Transmits(node.config, slots[node.starts[s].slot]))
  }

  lemma StepOnSchedule(slots: seq<Slot>, node: Node, op: Operation)
    requires PositiveSlots(slots) && ValidTimer(slots, node.timer)
    requires Synchronisable(slots, node.config) && OnSchedule(slots, node)
    ensures OnSchedule(slots, Step(slots, node, op))
  {
    match op {
      case Work(due, now, now2, now3) =>
        if node.timer.running {
          IncrementAligned(slots, Base(node.config), node.config.kind, node.timer);
          UpdateAligned(slots, node.config, node.timer, now2, now3);
        }
      case Refresh(now, later) =>
        if slots != [] {
          UpdateAligned(slots, node.config, node.timer, now, later);
        }
      case Resume(now, later) =>
        if slots != [] {
          UpdateAligned(slots, node.config, node.timer.(running := true), now, later);
        }
      case Stop =>
    }
  }

  ghost predicate AllOnSchedule(slots: seq<Slot>, nodes: seq<Node>)
  {
    forall n :: 0 <= n < |nodes| ==> Synchronisable(slots, nodes[n].config) && OnSchedule(slots, nodes[n])
  }

  lemma {:induction false} RunOnSchedule(slots: seq<Slot>, nodes: seq<Node>, events: seq<Event>)
    requires ValidNodes(slots, nodes) && AllOnSchedule(slots, nodes)
    ensures var r := Run(slots, nodes, events);
            AllOnSchedule(slots, r) && forall n :: 0 <= n < |r| ==> r[n].config == nodes[n].config
    decreases |events|
  {
    if events != [] {
      var e := events[0];
      if e.node < |nodes| {
        StepOnSchedule(slots, nodes[e.node], e.op);
        RunOnSchedule(slots, nodes[e.node := Step(slots, nodes[e.node], e.op)], events[1..]);
      } else {
        RunOnSchedule(slots, nodes, events[1..]);
      }
    }
  }

  /** A network in which each slot belongs to one node. */
  ghost predicate OwnSlots(slots: seq<Slot>, nodes: seq<Node>)
  {
    && (forall n :: 0 <= n < |nodes| ==>
          && nodes[n].config.kind == FixedDecentralized
          && nodes[n].config.reference == nodes[0].config.reference)
    && (forall m, n :: 0 <= m < n < |nodes| ==> nodes[m].config.modemId != nodes[n].config.modemId)
    && forall i :: 0 <= i < |slots| ==> !slots[i].alwaysInitiate
  }

  ghost predicate Decentralized(slots: seq<Slot>, nodes: seq<Node>)
  {
    OwnSlots(slots, nodes) && forall n :: 0 <= n < |nodes| ==> Synchronisable(slots, nodes[n].config)
  }

  /** Collision freedom over every run: what two nodes initiate occupies disjoint slots.
      The clocks may read anything; they need not agree or even advance. */
  lemma MutualExclusion(slots: seq<Slot>, nodes: seq<Node>, events: seq<Event>, m: nat, n: nat, s: nat, t: nat)
    requires ValidNodes(slots, nodes) && Decentralized(slots, nodes)
    requires forall i :: 0 <= i < |nodes| ==> Fresh(nodes[i])
    requires m < |nodes| && n < |nodes| && m != n
    ensures var r := Run(slots, nodes, events);
            s < |r[m].starts| && t < |r[n].starts| && r[m].starts[s].initiated && r[n].starts[t].initiated ==>
              && r[m].starts[s].slot < |slots| && r[n].starts[t].slot < |slots|
              && Disjoint(r[m].starts[s].time, slots[r[m].starts[s].slot].length,
                          r[n].starts[t].time, slots[r[n].starts[t].slot].length)
  {
    RunOnSchedule(slots, nodes, events);
    var r := Run(slots, nodes, events);
    if s < |r[m].starts| && t < |r[n].starts| && r[m].starts[s].initiated && r[n].starts[t].initiated {
      assert Base(r[m].config) == Base(r[n].config);
      var x, y := r[m].starts[s], r[n].starts[t];
      assert slots[x.slot].src == r[m].config.modemId && slots[y.slot].src == r[n].config.modemId;
      SlotsDisjoint(slots, Base(r[m].config), x.time, x.slot, y.time, y.slot);
    }
  }

  // ----- clocks that do not go back

  /** All events of a run read clocks that do not go back. */
  ghost predicate SteadyRun(slots: seq<Slot>, nodes: seq<Node>, events: seq<Event>)
    requires ValidNodes(slots, nodes)
    decreases |events|
  {
    if events == [] then true
    else if events[0].node >= |nodes| then SteadyRun(slots, nodes, events[1..])
    else
      var e := events[0];
      && Steady(nodes[e.node].clock, e.op)
      && SteadyRun(slots, nodes[e.node := Step(slots, nodes[e.node], e.op)], events[1..])
  }

  predicate Increasing(starts: seq<Start>)
  {
    forall s, t :: 0 <= s < t < |starts| ==> starts[s].time < starts[t].time
  }

  /** Each slot was started after its nominal time, within the allowed skew, and no slot
      instance twice; the next one is later still, or so far past that it will be skipped. */
  ghost predicate Orderly(node: Node)
  {
    && Increasing(node.starts)
    && (forall s :: 0 <= s < |node.starts| ==>
          node.starts[s].time < node.starts[s].at <= node.starts[s].time + ALLOWED_SKEW)
    && (node.starts != [] ==>
          var last := node.starts[|node.starts| - 1].time;
          && last < node.clock
          && (node.timer.running ==>
                last < node.timer.next || node.timer.next + ALLOWED_SKEW < node.clock))
  }

  /** After update the timer is not behind the clock, or behind by more than any allowed skew. */
  lemma UpdateAhead(slots: seq<Slot>, config: Config, timer: Timer, now: int, later: int)
    requires PositiveSlots(slots) && slots != [] && now <= later
    ensures var t := Update(slots, config, timer, now, later);
            now <= t.next || t.next + ALLOWED_SKEW < later
  {
    CyclePositive(slots);
    if !StartsInMiddle(slots, config) {
      if ReferenceAt(config, now) <= now {
        NextCycleExactly(slots, config, now);
        MulMonotone(UINT32 - 1, 1, Cycle(slots));
      } else {
        MulMonotone(Cycle(slots), 0, CyclesSinceReference(slots, config, now));
      }
    }
  }

  lemma WorkOrderly(slots: seq<Slot>, node: Node, op: Operation)
    requires PositiveSlots(slots) && ValidTimer(slots, node.timer)
    requires node.config.kind != NoMac && Orderly(node) && Steady(node.clock, op) && op.Work?
    ensures Orderly(Step(slots, node, op))
  {
    if node.timer.running && op.due > node.timer.next {
      if Skewed(node.timer, op.now) {
        UpdateAhead(slots, node.config, node.timer, op.now2, op.now3);
      } else {
        var start := Start(node.timer.next, node.timer.current, Transmits(node.config, slots[node.timer.current]), op.now);
        assert Step(slots, node, op).starts == node.starts + [start];
        assert Increasing(node.starts + [start]);
      }
    }
  }

  lemma StepOrderly(slots: seq<Slot>, node: Node, op: Operation)
    requires PositiveSlots(slots) && ValidTimer(slots, node.timer)
    requires node.config.kind != NoMac && Orderly(node) && Steady(node.clock, op)
    ensures Orderly(Step(slots, node, op))
  {
    match op {
      case Work(_, _, _, _) => WorkOrderly(slots, node, op);
      case Refresh(now, later) =>
        if slots != [] {
          UpdateAhead(slots, node.config, node.timer, now, later);
        }
      case Resume(now, later) =>
        if slots != [] {
          UpdateAhead(slots, node.config, node.timer.(running := true), now, later);
        }
      case Stop =>
    }
  }

  lemma {:induction false} RunOrderly(slots: seq<Slot>, nodes: seq<Node>, events: seq<Event>)
    requires ValidNodes(slots, nodes) && SteadyRun(slots, nodes, events)
    requires forall n :: 0 <= n < |nodes| ==> nodes[n].config.kind != NoMac && Orderly(nodes[n])
    ensures var r := Run(slots, nodes, events); forall n :: 0 <= n < |r| ==> Orderly(r[n])
    decreases |events|
  {
    if events != [] {
      var e := events[0];
      if e.node < |nodes| {
        var after := nodes[e.node := Step(slots, nodes[e.node], e.op)];
        StepOrderly(slots, nodes[e.node], e.op);
        RunOrderly(slots, after, events[1..]);
        assert Run(slots, nodes, events) == Run(slots, after, events[1..]);
      } else {
        RunOrderly(slots, nodes, events[1..]);
        assert Run(slots, nodes, events) == Run(slots, nodes, events[1..]);
      }
    }
  }

  /** Over every run the nominal times of the slots a node starts strictly increase. */
  lemma NoSlotStartsTwice(slots: seq<Slot>, nodes: seq<Node>, events: seq<Event>, n: nat)
    requires ValidNodes(slots, nodes) && SteadyRun(slots, nodes, events)
    requires forall i :: 0 <= i < |nodes| ==> Fresh(nodes[i]) && nodes[i].config.kind != NoMac
    requires n < |nodes|
    ensures Increasing(Run(slots, nodes, events)[n].starts)
  {
    RunOrderly(slots, nodes, events);
  }

  /** The node's clock is read within the allowed skew after the slot is due. */
  predicate Timely(timer: Timer, op: Operation)
  {
    op.Work? && timer.running && timer.next < op.due <= op.now <= timer.next + ALLOWED_SKEW
  }

  /** Every poll comes before the slot is due, or in time for it. */
  ghost predicate AllTimely(slots: seq<Slot>, node: Node, ops: seq<Operation>)
    requires PositiveSlots(slots) && ValidTimer(slots, node.timer)
    decreases |ops|
  {
    ops == [] ||
    (&& ops[0].Work? && node.timer.running && (ops[0].due <= node.timer.next || Timely(node.timer, ops[0]))
     && AllTimely(slots, Step(slots, node, ops[0]), ops[1..]))
  }

  ghost function Steps(slots: seq<Slot>, node: Node, ops: seq<Operation>): Node
    requires PositiveSlots(slots) && ValidTimer(slots, node.timer)
    decreases |ops|
  {
    if ops == [] then node else Steps(slots, Step(slots, node, ops[0]), ops[1..])
  }

  /** The slots that follow one another from a timer on. */
  function Upcoming(slots: seq<Slot>, kind: MacType, timer: Timer, n: nat): (r: seq<(int, nat)>)
    requires timer.current < |slots|
    ensures |r| == n
    decreases n
  {
    if n == 0 then []
    else [(timer.next, timer.current)] + Upcoming(slots, kind, Increment(slots, kind, timer), n - 1)
  }

  function Nominal(starts: seq<Start>): (r: seq<(int, nat)>)
    ensures |r| == |starts|
  {
    seq(|starts|, i requires 0 <= i < |starts| => (starts[i].time, starts[i].slot))
  }

  /** The slots started between two states of a node are those of the schedule, one after the
      other, and the timer stands at the one that follows. */
  ghost predicate StartedInTurn(slots: seq<Slot>, before: Node, after: Node)
  {
    && before.timer.current < |slots| && |before.starts| <= |after.starts|
    && var n := |after.starts| - |before.starts|;
       && Nominal(after.starts) == Nominal(before.starts) + Upcoming(slots, before.config.kind, before.timer, n)
       && Upcoming(slots, before.config.kind, before.timer, n + 1)[n] == (after.timer.next, after.timer.current)
  }

  lemma {:induction false} UpcomingNext(slots: seq<Slot>, kind: MacType, timer: Timer, n: nat)
    requires timer.current < |slots|
    ensures Upcoming(slots, kind, timer, n + 1)[..n] == Upcoming(slots, kind, timer, n)
    decreases n
  {
    if n > 0 {
      UpcomingNext(slots, kind, Increment(slots, kind, timer), n - 1);
    }
  }

  lemma IdleStep(slots: seq<Slot>, node: Node, op: Operation)
    requires PositiveSlots(slots) && ValidTimer(slots, node.timer) && op.Work? && op.due <= node.timer.next
    ensures Step(slots, node, op) == node.(clock := op.now3)
  {
  }

  lemma TimelyStep(slots: seq<Slot>, node: Node, op: Operation)
    requires PositiveSlots(slots) && ValidTimer(slots, node.timer) && Timely(node.timer, op)
    ensures var next := Step(slots, node, op);
            && next.timer == Increment(slots, node.config.kind, node.timer)
            && |next.starts| == |node.starts| + 1
            && Nominal(next.starts) == Nominal(node.starts) + [(node.timer.next, node.timer.current)]
  {
  }

  lemma TurnContinues(slots: seq<Slot>, before: Node, middle: Node, after: Node)
    requires before.timer.current < |slots| && before.config == middle.config
    requires middle.timer == Increment(slots, before.config.kind, before.timer) && |middle.starts| == |before.starts| + 1
    requires Nominal(middle.starts) == Nominal(before.starts) + [(before.timer.next, before.timer.current)]
    requires StartedInTurn(slots, middle, after)
    ensures StartedInTurn(slots, before, after)
  {
    var kind, n := before.config.kind, |after.starts| - |middle.starts|;
    var rest := Upcoming(slots, kind, middle.timer, n);
    assert Upcoming(slots, kind, before.timer, n + 1) == [(before.timer.next, before.timer.current)] + rest;
    assert Upcoming(slots, kind, before.timer, n + 2)[n + 1] == Upcoming(slots, kind, middle.timer, n + 1)[n];
  }

  lemma IdleContinues(slots: seq<Slot>, before: Node, middle: Node, after: Node)
    requires before.timer.current < |slots| && before.config == middle.config
    requires middle.timer == before.timer && middle.starts == before.starts && StartedInTurn(slots, middle, after)
    ensures StartedInTurn(slots, before, after)
  {
  }

  lemma StartContinues(slots: seq<Slot>, node: Node)
    requires node.timer.current < |slots|
    ensures StartedInTurn(slots, node, node)
  {
    assert Nominal(node.starts) + [] == Nominal(node.starts);
  }

  /** A node whose polls are idle or in time misses no slot: it starts slot after slot of the schedule. */
  lemma {:induction false} TimelyMissesNothing(slots: seq<Slot>, node: Node, ops: seq<Operation>)
    requires PositiveSlots(slots) && ValidTimer(slots, node.timer) && node.timer.running
    requires AllTimely(slots, node, ops)
    ensures Steps(slots, node, ops).timer.running && StartedInTurn(slots, node, Steps(slots, node, ops))
    decreases |ops|
  {
    if ops == [] {
      StartContinues(slots, node);
    } else {
      var next := Step(slots, node, ops[0]);
      if ops[0].due <= node.timer.next {
        IdleStep(slots, node, ops[0]);
        TimelyMissesNothing(slots, next, ops[1..]);
        IdleContinues(slots, node, next, Steps(slots, next, ops[1..]));
      } else {
        TimelyStep(slots, node, ops[0]);
        TimelyMissesNothing(slots, next, ops[1..]);
        TurnContinues(slots, node, next, Steps(slots, next, ops[1..]));
      }
    }
  }

  /** The clock of each poll reads at most `gap` more than when the poll before began. */
  predicate Frequent(ops: seq<Operation>, last: int, gap: int)
    decreases |ops|
  {
    ops == [] ||
    (ops[0].Work? && ops[0].due <= ops[0].now <= last + gap && Frequent(ops[1..], ops[0].due, gap))
  }

  function LastPoll(ops: seq<Operation>, last: int): int
    decreases |ops|
  {
    if ops == [] then last else LastPoll(ops[1..], if ops[0].Work? then ops[0].due else last)
  }

  /** Polling often enough, no further apart than the allowed skew and the shortest slot, misses
      no slot: every slot due before the last poll was started, each in its turn. */
  lemma {:induction false} FrequentPollsMissNothing(slots: seq<Slot>, node: Node, ops: seq<Operation>, last: int, gap: int)
    requires PositiveSlots(slots) && ValidTimer(slots, node.timer) && node.timer.running && node.config.kind != NoMac
    requires last <= node.timer.next && Frequent(ops, last, gap)
    requires gap <= ALLOWED_SKEW && forall i :: 0 <= i < |slots| ==> gap <= slots[i].length
    ensures var r := Steps(slots, node, ops);
            r.timer.running && StartedInTurn(slots, node, r) && LastPoll(ops, last) <= r.timer.next
  {
    FrequentIsTimely(slots, node, ops, last, gap);
    TimelyMissesNothing(slots, node, ops);
  }

  lemma {:induction false} FrequentIsTimely(slots: seq<Slot>, node: Node, ops: seq<Operation>, last: int, gap: int)
    requires PositiveSlots(slots) && ValidTimer(slots, node.timer) && node.timer.running && node.config.kind != NoMac
    requires last <= node.timer.next && Frequent(ops, last, gap)
    requires gap <= ALLOWED_SKEW && forall i :: 0 <= i < |slots| ==> gap <= slots[i].length
    ensures AllTimely(slots, node, ops) && LastPoll(ops, last) <= Steps(slots, node, ops).timer.next
    decreases |ops|
  {
    if ops != [] {
      var op := ops[0];
      if op.due <= node.timer.next {
        IdleStep(slots, node, op);
      } else {
        TimelyStep(slots, node, op);
        assert gap <= slots[node.timer.current].length;
      }
      FrequentIsTimely(slots, Step(slots, node, op), ops[1..], op.due, gap);
    }
  }

  // ----- what a node initiates

  /** By the fields of slot and configuration: a polling node polls every source but the broadcast id; in a
      decentralized network a node takes its own slots and those that are always initiated. */
  predicate Ours(kind: MacType, modemId: int, slot: Slot)
  {
    (kind == Polled && slot.src != 0) || (kind == FixedDecentralized && (slot.src == modemId || slot.alwaysInitiate))
  }

  /** Nominal times and slots of the starts at which the node transmitted. */
  function Initiated(starts: seq<Start>): seq<(int, nat)>
  {
    if starts == [] then []
    else
      var last := starts[|starts| - 1];
      Initiated(starts[..|starts| - 1]) + if last.initiated then [(last.time, last.slot)] else []
  }

  /** Those of the scheduled slots that are the node's to initiate. */
  function Turns(slots: seq<Slot>, kind: MacType, modemId: int, scheduled: seq<(int, nat)>): seq<(int, nat)>
  {
    if scheduled == [] then []
    else
      var last := scheduled[|scheduled| - 1];
      Turns(slots, kind, modemId, scheduled[..|scheduled| - 1])
      + if last.1 < |slots| && Ours(kind, modemId, slots[last.1]) then [last] else []
  }

  /** The node transmitted at just those of its starts that were its to initiate. */
  predicate TakesItsTurns(slots: seq<Slot>, node: Node)
  {
    forall s :: 0 <= s < |node.starts| ==>
      && node.starts[s].slot < |slots|
      && (node.starts[s].initiated <==> Ours(node.config.kind, node.config.modemId, slots[node.starts[s].slot]))
  }

  lemma StepTakesTurns(slots: seq<Slot>, node: Node, op: Operation)
    requires PositiveSlots(slots) && ValidTimer(slots, node.timer) && node.config.kind != NoMac && TakesItsTurns(slots, node)
    ensures TakesItsTurns(slots, Step(slots, node, op))
  {
  }

  lemma {:induction false} StepsTakeTurns(slots: seq<Slot>, node: Node, ops: seq<Operation>)
    requires PositiveSlots(slots) && ValidTimer(slots, node.timer) && node.config.kind != NoMac && TakesItsTurns(slots, node)
    ensures TakesItsTurns(slots, Steps(slots, node, ops)) && Steps(slots, node, ops).config == node.config
    decreases |ops|
  {
    if ops != [] {
      StepTakesTurns(slots, node, ops[0]);
      StepsTakeTurns(slots, Step(slots, node, ops[0]), ops[1..]);
    }
  }

  lemma {:induction false} TurnsAppend(slots: seq<Slot>, kind: MacType, modemId: int, a: seq<(int, nat)>, b: seq<(int, nat)>)
    ensures Turns(slots, kind, modemId, a + b) == Turns(slots, kind, modemId, a) + Turns(slots, kind, modemId, b)
  {
    if b == [] {
      assert a + b == a;
    } else {
      assert (a + b)[..|a + b| - 1] == a + b[..|b| - 1];
      TurnsAppend(slots, kind, modemId, a, b[..|b| - 1]);
    }
  }

  lemma {:induction false} InitiatedAreTurns(slots: seq<Slot>, kind: MacType, modemId: int, starts: seq<Start>)
    requires forall s :: 0 <= s < |starts| ==>
               starts[s].slot < |slots| && (starts[s].initiated <==> Ours(kind, modemId, slots[starts[s].slot]))
    ensures Initiated(starts) == Turns(slots, kind, modemId, Nominal(starts))
  {
    if starts != [] {
      assert Nominal(starts)[..|starts| - 1] == Nominal(starts[..|starts| - 1]);
      InitiatedAreTurns(slots, kind, modemId, starts[..|starts| - 1]);
    }
  }

  /** A node that polls its clock often enough initiates, of all slots of the schedule that come up, each that
      is its own to initiate, in turn, and no other; none that was due before the last poll is left out. */
  lemma InitiatesItsTurns(slots: seq<Slot>, node: Node, ops: seq<Operation>, last: int, gap: int) returns (n: nat)
    requires PositiveSlots(slots) && ValidTimer(slots, node.timer) && node.timer.running && node.config.kind != NoMac
    requires TakesItsTurns(slots, node) && last <= node.timer.next && Frequent(ops, last, gap)
    requires gap <= ALLOWED_SKEW && forall i :: 0 <= i < |slots| ==> gap <= slots[i].length
    ensures var scheduled := Upcoming(slots, node.config.kind, node.timer, n + 1);
            && Initiated(Steps(slots, node, ops).starts)
               == Initiated(node.starts) + Turns(slots, node.config.kind, node.config.modemId, scheduled[..n])
            && LastPoll(ops, last) <= scheduled[n].0
  {
    FrequentPollsMissNothing(slots, node, ops, last, gap);
    var r := Steps(slots, node, ops);
    n := |r.starts| - |node.starts|;
    StepsTakeTurns(slots, node, ops);
    UpcomingNext(slots, node.config.kind, node.timer, n);
    InitiatedSince(slots, node, r, Upcoming(slots, node.config.kind, node.timer, n));
  }

  lemma InitiatedSince(slots: seq<Slot>, node: Node, later: Node, scheduled: seq<(int, nat)>)
    requires TakesItsTurns(slots, node) && TakesItsTurns(slots, later) && later.config == node.config
    requires Nominal(later.starts) == Nominal(node.starts) + scheduled
    ensures Initiated(later.starts)
            == Initiated(node.starts) + Turns(slots, node.config.kind, node.config.modemId, scheduled)
  {
    var kind, id := node.config.kind, node.config.modemId;
    InitiatedAreTurns(slots, kind, id, node.starts);
    InitiatedAreTurns(slots, kind, id, later.starts);
    TurnsAppend(slots, kind, id, Nominal(node.starts), scheduled);
  }

  /** The slots that come up: the one the timer stands at, then each time the next of the list, as long after
      as the slot before it lasts. */
  lemma {:induction false} UpcomingMeans(slots: seq<Slot>, kind: MacType, timer: Timer, n: nat)
    requires timer.current < |slots| && kind != NoMac
    ensures var r := Upcoming(slots, kind, timer, n);
            && (n > 0 ==> r[0] == (timer.next, timer.current))
            && forall i :: 0 <= i < n - 1 ==>
                 && r[i].1 < |slots| && r[i + 1].0 == r[i].0 + slots[r[i].1].length
                 && r[i + 1].1 == if r[i].1 + 1 == |slots| then 0 else r[i].1 + 1
    decreases n
  {
    if n > 0 {
      UpcomingMeans(slots, kind, Increment(slots, kind, timer), n - 1);
    }
  }

  /** A stopped node starts nothing until it is resumed, and with no slots nothing ever starts. */
  lemma {:induction false} StoppedIsSilent(slots: seq<Slot>, node: Node, ops: seq<Operation>)
    requires PositiveSlots(slots) && ValidTimer(slots, node.timer) && !node.timer.running
    requires |slots| == 0 || forall i :: 0 <= i < |ops| ==> !ops[i].Resume?
    ensures var r := Steps(slots, node, ops); r.starts == node.starts && !r.timer.running
    decreases |ops|
  {
    if ops != [] {
      StoppedIsSilent(slots, Step(slots, node, ops[0]), ops[1..]);
    }
  }

  /** When every slot outlasts the allowed skew, two nodes never initiate at the same instant:
      each initiation falls inside its own slot. */
  lemma InitiationsInsideSlots(slots: seq<Slot>, nodes: seq<Node>, events: seq<Event>, m: nat, n: nat, s: nat, t: nat)
    requires ValidNodes(slots, nodes) && Decentralized(slots, nodes)
    requires forall i :: 0 <= i < |nodes| ==> Fresh(nodes[i])
    requires forall i :: 0 <= i < |slots| ==> slots[i].length > ALLOWED_SKEW
    requires SteadyRun(slots, nodes, events)
    requires m < |nodes| && n < |nodes| && m != n
    ensures var r := Run(slots, nodes, events);
            s < |r[m].starts| && t < |r[n].starts| && r[m].starts[s].initiated && r[n].starts[t].initiated ==>
              && r[m].starts[s].slot < |slots|
              && r[m].starts[s].time < r[m].starts[s].at < r[m].starts[s].time + slots[r[m].starts[s].slot].length
              && r[m].starts[s].at != r[n].starts[t].at
  {
    RunOrderly(slots, nodes, events);
    MutualExclusion(slots, nodes, events, m, n, s, t);
  }

  // ----- the start of the day as reference time

  /** A network that has not run yet, with one owner for each slot and cycles counted from the start of the day. */
  ghost predicate StartOfDayNetwork(slots: seq<Slot>, nodes: seq<Node>)
  {
    && ValidNodes(slots, nodes) && OwnSlots(slots, nodes)
    && forall n :: 0 <= n < |nodes| ==> Fresh(nodes[n]) && nodes[n].config.reference == StartOfDay
  }

  /** What different nodes initiate occupies disjoint slots. */
  ghost predicate CollisionFree(slots: seq<Slot>, nodes: seq<Node>)
  {
    forall m, n, s, t | 0 <= m < |nodes| && 0 <= n < |nodes| && m != n
                        && 0 <= s < |nodes[m].starts| && 0 <= t < |nodes[n].starts| ::
      nodes[m].starts[s].initiated && nodes[n].starts[t].initiated ==>
        Apart(slots, nodes[m].starts[s], nodes[n].starts[t])
  }

  predicate Apart(slots: seq<Slot>, x: Start, y: Start)
  {
    x.slot < |slots| && y.slot < |slots| && Disjoint(x.time, slots[x.slot].length, y.time, slots[y.slot].length)
  }

  /** No run of such a network with a cycle of this length has a collision; if so required, the
      runs are those whose clocks do not go back. */
  ghost predicate Exclusive(cycle: int, steady: bool)
  {
    forall slots, nodes, events ::
      StartOfDayNetwork(slots, nodes) && Cycle(slots) == cycle && (steady ==> SteadyRun(slots, nodes, events)) ==>
        CollisionFree(slots, Run(slots, nodes, events))
  }

  /** With the start of the day as reference time, mutual exclusion holds over every run of every
      network, whether or not clocks may go back, if and only if the cycle divides the day. */
  lemma ExclusiveExactly(cycle: int, steady: bool)
    requires cycle > 0
    ensures Exclusive(cycle, steady) <==> DAY % cycle == 0
  {
    if DAY % cycle == 0 {
      forall slots, nodes, events | StartOfDayNetwork(slots, nodes) && Cycle(slots) == cycle
        ensures CollisionFree(slots, Run(slots, nodes, events))
      {
        DividingIsExclusive(slots, nodes, events);
      }
    } else {
      var slots, nodes, events := CollisionAcrossMidnight(cycle);
    }
  }

  lemma DividingIsExclusive(slots: seq<Slot>, nodes: seq<Node>, events: seq<Event>)
    requires StartOfDayNetwork(slots, nodes) && Cycle(slots) > 0 && DAY % Cycle(slots) == 0
    ensures CollisionFree(slots, Run(slots, nodes, events))
  {
    var r := Run(slots, nodes, events);
    forall m, n, s, t | 0 <= m < |r| && 0 <= n < |r| && m != n && 0 <= s < |r[m].starts| && 0 <= t < |r[n].starts|
                        && r[m].starts[s].initiated && r[n].starts[t].initiated
      ensures Apart(slots, r[m].starts[s], r[n].starts[t])
    {
      MutualExclusion(slots, nodes, events, m, n, s, t);
    }
  }

  // ----- a cycle that does not divide the day

  /** What is left of the day after whole cycles belongs to node 2, the rest of the cycle to node 1. */
  function SplitCycle(cycle: int): seq<Slot>
    requires cycle > 0
  {
    [Slot(2, DAY % cycle, false), Slot(1, cycle - DAY % cycle, false)]
  }

  function Idle(modemId: int): Node
  {
    Node(Config(modemId, FixedDecentralized, true, StartOfDay), Timer(false, 0, 0), 0, [])
  }

  /** One poll, all of whose clock readings are the same. */
  function Poll(at: int): Operation
  {
    Work(at, at, at, at)
  }

  function Tagged(n: nat, ops: seq<Operation>): (events: seq<Event>)
    ensures |events| == |ops|
  {
    seq(|ops|, i requires 0 <= i < |ops| => Event(n, ops[i]))
  }

  /** Node 1 starts in the last cycle before midnight and goes on with its slot at midnight; node 2
      starts at midnight, counts from there and takes its own slot at once. */
  lemma CollisionAcrossMidnight(cycle: int) returns (slots: seq<Slot>, nodes: seq<Node>, events: seq<Event>)
    requires cycle > 0 && DAY % cycle != 0
    ensures StartOfDayNetwork(slots, nodes) && Cycle(slots) == cycle && SteadyRun(slots, nodes, events)
    ensures !CollisionFree(slots, Run(slots, nodes, events))
  {
    slots, nodes := SplitCycle(cycle), [Idle(1), Idle(2)];
    SplitCycleLength(cycle);
    var before, x := BeforeMidnight(cycle);
    var after, y := AfterMidnight(cycle);
    events := Tagged(0, before) + Tagged(1, after);
    var first := nodes[0 := Steps(slots, Idle(1), before)];
    RunOfOne(slots, nodes, 0, before);
    RunOfOne(slots, first, 1, after);
    RunSplit(slots, nodes, Tagged(0, before), Tagged(1, after));
    SteadyOfOne(slots, nodes, 0, before);
    SteadyOfOne(slots, first, 1, after);
    SteadySplit(slots, nodes, Tagged(0, before), Tagged(1, after));
    var r := Run(slots, nodes, events);
    assert r[0].starts[1] == x && r[1].starts[0] == y;
    assert !Apart(slots, r[0].starts[1], r[1].starts[0]);
  }

  lemma SplitCycleLength(cycle: int)
    requires cycle > 0 && DAY % cycle != 0
    ensures var slots := SplitCycle(cycle);
            PositiveSlots(slots) && Cycle(slots) == cycle && Offset(slots, 1) == DAY % cycle
  {
    var slots := SplitCycle(cycle);
    assert Offset(slots, 1) == Offset(slots, 0) + slots[0].length;
    assert Offset(slots, 2) == Offset(slots, 1) + slots[1].length;
  }

  lemma {:induction false} RunSplit(slots: seq<Slot>, nodes: seq<Node>, a: seq<Event>, b: seq<Event>)
    requires ValidNodes(slots, nodes)
    ensures Run(slots, nodes, a + b) == Run(slots, Run(slots, nodes, a), b)
    decreases |a|
  {
    if a == [] {
      assert a + b == b;
    } else {
      var e := a[0];
      assert (a + b)[0] == e && (a + b)[1..] == a[1..] + b;
      RunSplit(slots, if e.node < |nodes| then nodes[e.node := Step(slots, nodes[e.node], e.op)] else nodes, a[1..], b);
    }
  }

  /** Events of one node change that node only. */
  lemma {:induction false} RunOfOne(slots: seq<Slot>, nodes: seq<Node>, n: nat, ops: seq<Operation>)
    requires ValidNodes(slots, nodes) && n < |nodes|
    ensures Run(slots, nodes, Tagged(n, ops)) == nodes[n := Steps(slots, nodes[n], ops)]
    decreases |ops|
  {
    if ops != [] {
      assert Tagged(n, ops)[1..] == Tagged(n, ops[1..]);
      RunOfOne(slots, nodes[n := Step(slots, nodes[n], ops[0])], n, ops[1..]);
    } else {
      assert nodes[n := nodes[n]] == nodes;
    }
  }

  ghost predicate SteadySteps(slots: seq<Slot>, node: Node, ops: seq<Operation>)
    requires PositiveSlots(slots) && ValidTimer(slots, node.timer)
    decreases |ops|
  {
    ops == [] || (Steady(node.clock, ops[0]) && SteadySteps(slots, Step(slots, node, ops[0]), ops[1..]))
  }

  lemma {:induction false} SteadyOfOne(slots: seq<Slot>, nodes: seq<Node>, n: nat, ops: seq<Operation>)
    requires ValidNodes(slots, nodes) && n < |nodes| && SteadySteps(slots, nodes[n], ops)
    ensures SteadyRun(slots, nodes, Tagged(n, ops))
    decreases |ops|
  {
    if ops != [] {
      assert Tagged(n, ops)[1..] == Tagged(n, ops[1..]);
      SteadyOfOne(slots, nodes[n := Step(slots, nodes[n], ops[0])], n, ops[1..]);
    }
  }

  lemma {:induction false} SteadySplit(slots: seq<Slot>, nodes: seq<Node>, a: seq<Event>, b: seq<Event>)
    requires ValidNodes(slots, nodes) && SteadyRun(slots, nodes, a) && SteadyRun(slots, Run(slots, nodes, a), b)
    ensures SteadyRun(slots, nodes, a + b)
    decreases |a|
  {
    if a == [] {
      assert a + b == b;
    } else {
      var e := a[0];
      assert (a + b)[0] == e && (a + b)[1..] == a[1..] + b;
      SteadySplit(slots, if e.node < |nodes| then nodes[e.node := Step(slots, nodes[e.node], e.op)] else nodes, a[1..], b);
    }
  }

  /** A node whose timer runs, with what it has started. */
  function Running(modemId: int, current: nat, next: int, clock: int, starts: seq<Start>): Node
  {
    Idle(modemId).(timer := Timer(true, current, next), clock := clock, starts := starts)
  }

  /** Within one day, counting from its start is counting from a fixed time. */
  lemma UpdateOfDay(slots: seq<Slot>, config: Config, timer: Timer, now: int)
    requires PositiveSlots(slots) && config.reference == StartOfDay
    ensures Update(slots, config, timer, now, now)
            == Update(slots, config.(reference := Fixed(now / DAY * DAY)), timer, now, now)
  {
    if slots != [] {
      CyclePositive(slots);
      assert ReferenceAt(config, now) == ReferenceAt(config.(reference := Fixed(now / DAY * DAY)), now);
    }
  }

  /** A node that starts when a cycle of the day begins takes the first slot of that cycle. */
  lemma ResumeOnTime(slots: seq<Slot>, modemId: int, k: nat, now: int)
    requires PositiveSlots(slots) && |slots| > 1 && now == Boundary(slots, now / DAY * DAY, k, 0)
    ensures Step(slots, Idle(modemId), Resume(now, now)) == Running(modemId, 0, now, now, [])
  {
    var day := now / DAY * DAY;
    var config, timer := Idle(modemId).config, Timer(true, 0, 0);
    var fixed_ := config.(reference := Fixed(day));
    UpdateOfDay(slots, config, timer, now);
    UpdateEarliest(slots, fixed_, timer, now, now, k, 0);
    UpdateAligned(slots, fixed_, timer, now, now);
    var t := Update(slots, fixed_, timer, now, now);
    assert Aligned(slots, day, now, 0);
    SlotsDisjoint(slots, day, t.next, t.current, now, 0);
  }

  /** A poll just after a slot is due starts it. */
  lemma PollStarts(slots: seq<Slot>, modemId: int, current: nat, next: int, clock: int, starts: seq<Start>)
    requires PositiveSlots(slots) && current < |slots| && !slots[current].alwaysInitiate
    ensures Step(slots, Running(modemId, current, next, clock, starts), Poll(next + 1))
            == Running(modemId, NextSlot(slots, current), next + slots[current].length, next + 1,
                       starts + [Start(next, current, slots[current].src == modemId, next + 1)])
  {
  }

  lemma BeforeMidnight(cycle: int) returns (ops: seq<Operation>, last: Start)
    requires cycle > 0 && DAY % cycle != 0
    ensures PositiveSlots(SplitCycle(cycle)) && last == Start(DAY, 1, true, DAY + 1)
    ensures SteadySteps(SplitCycle(cycle), Idle(1), ops)
    ensures var r := Steps(SplitCycle(cycle), Idle(1), ops); |r.starts| == 2 && r.starts[1] == last
  {
    var slots, from := SplitCycle(cycle), DAY - DAY % cycle;
    SplitCycleLength(cycle);
    LastCycle(cycle);
    var x := Start(from, 0, false, from + 1);
    last := Start(DAY, 1, true, DAY + 1);
    ops := [Resume(from, from), Poll(from + 1), Poll(DAY + 1)];
    assert [] + [x] == [x] && [x] + [last] == [x, last];
    ResumeOnTime(slots, 1, DAY / cycle, from);
    PollStarts(slots, 1, 0, from, from, []);
    PollStarts(slots, 1, 1, DAY, from + 1, [x]);
    ThreeSteps(slots, Idle(1), ops[0], ops[1], ops[2]);
  }

  lemma LastCycle(cycle: int)
    requires cycle > 0 && DAY % cycle != 0
    ensures var from := DAY - DAY % cycle;
            0 <= from < DAY && from / DAY * DAY == 0 && from == Boundary(SplitCycle(cycle), 0, DAY / cycle, 0)
  {
    SplitCycleLength(cycle);
    DivMod(DAY, cycle);
    assert cycle * (DAY / cycle) == DAY / cycle * cycle;
  }

  lemma AfterMidnight(cycle: int) returns (ops: seq<Operation>, last: Start)
    requires cycle > 0 && DAY % cycle != 0
    ensures PositiveSlots(SplitCycle(cycle)) && last == Start(DAY, 0, true, DAY + 1)
    ensures SteadySteps(SplitCycle(cycle), Idle(2), ops)
    ensures var r := Steps(SplitCycle(cycle), Idle(2), ops); |r.starts| == 1 && r.starts[0] == last
  {
    var slots := SplitCycle(cycle);
    SplitCycleLength(cycle);
    last := Start(DAY, 0, true, DAY + 1);
    ops := [Resume(DAY, DAY), Poll(DAY + 1)];
    assert [] + [last] == [last];
    ResumeOnTime(slots, 2, 0, DAY);
    PollStarts(slots, 2, 0, DAY, DAY, []);
    TwoSteps(slots, Idle(2), ops[0], ops[1]);
  }

  lemma TwoSteps(slots: seq<Slot>, node: Node, a: Operation, b: Operation)
    requires PositiveSlots(slots) && ValidTimer(slots, node.timer)
    requires Steady(node.clock, a) && Steady(Step(slots, node, a).clock, b)
    ensures Steps(slots, node, [a, b]) == Step(slots, Step(slots, node, a), b) && SteadySteps(slots, node, [a, b])
  {
    var next := Step(slots, node, a);
    assert [a, b][1..] == [b] && [b][1..] == [];
    assert Steps(slots, next, [b]) == Steps(slots, Step(slots, next, b), []);
  }

  lemma ThreeSteps(slots: seq<Slot>, node: Node, a: Operation, b: Operation, c: Operation)
    requires PositiveSlots(slots) && ValidTimer(slots, node.timer)
    requires Steady(node.clock, a) && Steady(Step(slots, node, a).clock, b)
    requires Steady(Step(slots, Step(slots, node, a), b).clock, c)
    ensures Steps(slots, node, [a, b, c]) == Step(slots, Step(slots, Step(slots, node, a), b), c)
    ensures SteadySteps(slots, node, [a, b, c])
  {
    assert [a, b, c][1..] == [b, c];
    TwoSteps(slots, Step(slots, node, a), b, c);
  }
}
