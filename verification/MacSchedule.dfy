/** The TDMA cycle that the nodes of src/acomms/amac share: slot boundaries, and
    what one node's timer does with its clock. Times are in microseconds. */
module MacSchedule {
  import opened Arithmetic
  import opened Options

  datatype MacType = NoMac | FixedDecentralized | Polled

  datatype RefTime = StartOfDay | Fixed(time: int)

  datatype Slot = Slot(src: int, length: int, alwaysInitiate: bool)

  datatype Config = Config(modemId: int, kind: MacType, startInMiddle: bool, reference: RefTime)

  /** The timer: whether it runs, its position in the slot list, when that slot starts. */
  datatype Timer = Timer(running: bool, current: nat, next: int)

  /** One slot that was started: nominal time, slot, whether this node transmits, clock reading. */
  datatype Start = Start(time: int, slot: nat, initiated: bool, at: int)

  const ALLOWED_SKEW := 2_000_000
  const DAY := 86_400_000_000
  const UINT32 := 0x1_0000_0000
  const BROADCAST_ID := 0

  /** A slot of no length would stop the search for the next slot. */
  predicate PositiveSlots(slots: seq<Slot>)
  {
    forall i :: 0 <= i < |slots| ==> slots[i].length > 0
  }

  // ----- slot boundaries

  /** The time from the start of the cycle to the start of slot i. */
  function Offset(slots: seq<Slot>, i: nat): int
    requires i <= |slots|
  {
    if i == 0 then 0 else Offset(slots, i - 1) + slots[i - 1].length
  }

  function Cycle(slots: seq<Slot>): int { Offset(slots, |slots|) }

  /** The start of slot i in cycle k. */
  function Boundary(slots: seq<Slot>, base: int, k: int, i: nat): int
    requires i <= |slots|
  {
    base + k * Cycle(slots) + Offset(slots, i)
  }

  ghost predicate Aligned(slots: seq<Slot>, base: int, time: int, i: nat)
  {
    i < |slots| && exists k :: time == Boundary(slots, base, k, i)
  }

  lemma {:induction false} OffsetMonotone(slots: seq<Slot>, i: nat, j: nat)
    requires PositiveSlots(slots) && i <= j <= |slots|
    ensures 0 <= Offset(slots, i) <= Offset(slots, j)
    ensures i < j ==> Offset(slots, i) < Offset(slots, j)
  {
    if i < j {
      OffsetMonotone(slots, i, j - 1);
    } else if i > 0 {
      OffsetMonotone(slots, i - 1, i);
    }
  }

  lemma CyclePositive(slots: seq<Slot>)
    requires PositiveSlots(slots) && slots != []
    ensures Cycle(slots) > 0
  {
    OffsetMonotone(slots, 0, |slots|);
  }

  /** In the order of cycle and slot, each slot ends no later than a later one starts. */
  lemma BoundaryOrder(slots: seq<Slot>, base: int, k: int, i: nat, l: int, j: nat)
    requires PositiveSlots(slots) && i < |slots| && j < |slots|
    requires k < l || (k == l && i < j)
    ensures Boundary(slots, base, k, i) + slots[i].length <= Boundary(slots, base, l, j)
  {
    OffsetMonotone(slots, i + 1, |slots|);
    OffsetMonotone(slots, 0, j);
    if k < l {
      CyclePositive(slots);
      MulMonotone(Cycle(slots), k + 1, l);
      assert (k + 1) * Cycle(slots) == k * Cycle(slots) + Cycle(slots);
    } else {
      OffsetMonotone(slots, i + 1, j);
    }
  }

  predicate Disjoint(s: int, sLength: int, t: int, tLength: int)
  {
    s + sLength <= t || t + tLength <= s
  }

  /** Two slot instances are the same instance of the same slot, or do not overlap. */
  lemma SlotsDisjoint(slots: seq<Slot>, base: int, s: int, i: nat, t: int, j: nat)
    requires PositiveSlots(slots)
    requires Aligned(slots, base, s, i) && Aligned(slots, base, t, j)
    ensures (s == t && i == j) || Disjoint(s, slots[i].length, t, slots[j].length)
  {
    var k :| s == Boundary(slots, base, k, i);
    var l :| t == Boundary(slots, base, l, j);
    if k < l || (k == l && i < j) {
      BoundaryOrder(slots, base, k, i, l, j);
    } else if l < k || (k == l && j < i) {
      BoundaryOrder(slots, base, l, j, k, i);
    }
  }

  // ----- the timer

  /** Integer division of C++, which truncates toward zero. */
  function TruncatedDivision(a: int, b: int): int
    requires b > 0
  {
    if a >= 0 then a / b else -((-a) / b)
  }

  function ReferenceAt(config: Config, now: int): int
  {
    match config.reference
    case StartOfDay => now / DAY * DAY
    case Fixed(time) => time
  }

  /** cycles_since_reference_ is an unsigned 32-bit number. */
  function CyclesSinceReference(slots: seq<Slot>, config: Config, now: int): (n: nat)
    requires Cycle(slots) > 0
    ensures n < UINT32
  {
    (TruncatedDivision(now - ReferenceAt(config, now), Cycle(slots)) + 1) % UINT32
  }

  function NextCycleTime(slots: seq<Slot>, config: Config, now: int): int
    requires Cycle(slots) > 0
  {
    ReferenceAt(config, now) + CyclesSinceReference(slots, config, now) * Cycle(slots)
  }

  function NextSlot(slots: seq<Slot>, i: nat): (j: nat)
    requires i < |slots|
    ensures j < |slots|
  {
    if i + 1 == |slots| then 0 else i + 1
  }

  /** increment_slot */
  function Increment(slots: seq<Slot>, kind: MacType, timer: Timer): Timer
    requires timer.current < |slots|
  {
    if kind == NoMac then timer
    else timer.(next := timer.next + slots[timer.current].length, current := NextSlot(slots, timer.current))
  }

  /** Slots are skipped until one is not in the past. */
  function Skip(slots: seq<Slot>, kind: MacType, timer: Timer, now: int): (t: Timer)
    requires PositiveSlots(slots) && kind != NoMac && timer.current < |slots|
    ensures t.current < |slots| && t.next >= now && t.running == timer.running
    decreases now - timer.next
  {
    if timer.next >= now then timer else Skip(slots, kind, Increment(slots, kind, timer), now)
  }

  predicate StartsInMiddle(slots: seq<Slot>, config: Config)
  {
    config.startInMiddle && |slots| > 1 && config.kind != NoMac
  }

  /** update, which reads the clock once for the cycle and again for the slot. */
  function Update(slots: seq<Slot>, config: Config, timer: Timer, now: int, later: int): (t: Timer)
    requires PositiveSlots(slots)
    ensures slots != [] ==> t.current < |slots|
    ensures t.running ==> slots != [] && timer.running
  {
    if slots == [] then timer.(running := false)
    else
      CyclePositive(slots);
      var cycle := timer.(current := 0, next := NextCycleTime(slots, config, now));
      if StartsInMiddle(slots, config) then
        Skip(slots, config.kind, cycle.(next := cycle.next - Cycle(slots)), later)
      else cycle
  }

  predicate Transmits(config: Config, slot: Slot)
  {
    match config.kind
    case FixedDecentralized => slot.src == config.modemId || slot.alwaysInitiate
    case Polled => slot.src != BROADCAST_ID
    case NoMac => true
  }

  predicate Skewed(timer: Timer, now: int)
  {
    now - timer.next > ALLOWED_SKEW || timer.next - now > ALLOWED_SKEW
  }

  predicate ValidTimer(slots: seq<Slot>, timer: Timer)
  {
    timer.running ==> timer.current < |slots|
  }

  /** do_work and begin_slot with their four clock readings; the last two only matter on a skew. */
  function DoWork(slots: seq<Slot>, config: Config, timer: Timer, due: int, now: int, now2: int, now3: int)
    : (r: (Timer, Option<Start>))
    requires PositiveSlots(slots) && ValidTimer(slots, timer)
    ensures ValidTimer(slots, r.0)
  {
    if !timer.running || due <= timer.next then (timer, None)
    else if Skewed(timer, now) then (Update(slots, config, timer, now2, now3), None)
    else (Increment(slots, config.kind, timer),
          Some(Start(timer.next, timer.current, Transmits(config, slots[timer.current]), now)))
  }

  function Restart(slots: seq<Slot>, config: Config, timer: Timer, now: int, later: int): (t: Timer)
    requires PositiveSlots(slots) && ValidTimer(slots, timer)
    ensures ValidTimer(slots, t)
  {
    if timer.running then timer else Update(slots, config, timer.(running := true), now, later)
  }

  function Shutdown(timer: Timer): Timer
  {
    timer.(running := false, current := 0)
  }

  // ----- alignment

  /** The origin that every node counts cycles from. */
  function Base(config: Config): int
  {
    if config.reference.Fixed? then config.reference.time else 0
  }

  /** With the start of the day as reference, days must be whole numbers of cycles. */
  predicate Synchronisable(slots: seq<Slot>, config: Config)
  {
    config.reference.StartOfDay? && slots != [] && Cycle(slots) > 0 ==> DAY % Cycle(slots) == 0
  }

  lemma CycleTimeAligned(slots: seq<Slot>, config: Config, now: int, back: int)
    requires PositiveSlots(slots) && slots != [] && Cycle(slots) > 0
    requires Synchronisable(slots, config)
    ensures Aligned(slots, Base(config), NextCycleTime(slots, config, now) - back * Cycle(slots), 0)
  {
    var c, n := Cycle(slots), CyclesSinceReference(slots, config, now);
    match config.reference {
      case Fixed(time) =>
        Distribute(n, -back, c);
        assert NextCycleTime(slots, config, now) - back * c == Boundary(slots, time, n - back, 0);
      case StartOfDay =>
        var perDay := DAY / c;
        var day := now / DAY;
        assert DAY == perDay * c;
        Associate(day, perDay, c);
        Distribute(n, -back, c);
        Distribute(day * perDay, n - back, c);
        assert NextCycleTime(slots, config, now) - back * c == Boundary(slots, 0, day * perDay + (n - back), 0);
    }
  }

  lemma IncrementAligned(slots: seq<Slot>, base: int, kind: MacType, timer: Timer)
    requires Aligned(slots, base, timer.next, timer.current)
    ensures var t := Increment(slots, kind, timer); Aligned(slots, base, t.next, t.current)
  {
    var t := Increment(slots, kind, timer);
    var k :| timer.next == Boundary(slots, base, k, timer.current);
    if kind != NoMac {
      if timer.current + 1 == |slots| {
        Distribute(k, 1, Cycle(slots));
        assert t.next == Boundary(slots, base, k + 1, 0);
      } else {
        assert t.next == Boundary(slots, base, k, t.current);
      }
    }
  }

  lemma {:induction false} SkipAligned(slots: seq<Slot>, base: int, kind: MacType, timer: Timer, now: int)
    requires PositiveSlots(slots) && kind != NoMac
    requires Aligned(slots, base, timer.next, timer.current)
    ensures var t := Skip(slots, kind, timer, now); Aligned(slots, base, t.next, t.current)
    decreases now - timer.next
  {
    if timer.next < now {
      IncrementAligned(slots, base, kind, timer);
      SkipAligned(slots, base, kind, Increment(slots, kind, timer), now);
    }
  }

  /** Whatever the clock says, even past the wrap-around of the cycle count, update lands on a slot boundary. */
  lemma UpdateAligned(slots: seq<Slot>, config: Config, timer: Timer, now: int, later: int)
    requires PositiveSlots(slots) && slots != [] && Synchronisable(slots, config)
    ensures var t := Update(slots, config, timer, now, later); Aligned(slots, Base(config), t.next, t.current)
  {
    CyclePositive(slots);
    CycleTimeAligned(slots, config, now, 0);
    if StartsInMiddle(slots, config) {
      CycleTimeAligned(slots, config, now, 1);
      var t := timer.(current := 0, next := NextCycleTime(slots, config, now) - Cycle(slots));
      SkipAligned(slots, Base(config), config.kind, t, later);
    }
  }

  // ----- resynchronisation

  /** Starting mid-cycle, update stops at the earliest boundary of any slot that is not in the past. */
  lemma UpdateEarliest(slots: seq<Slot>, config: Config, timer: Timer, now: int, later: int, k: int, i: nat)
    requires PositiveSlots(slots) && config.startInMiddle && |slots| > 1 && config.kind != NoMac
    requires Synchronisable(slots, config)
    requires ReferenceAt(config, now) <= now <= later && i < |slots|
    ensures later <= Update(slots, config, timer, now, later).next
    ensures later <= Boundary(slots, Base(config), k, i) ==>
              Update(slots, config, timer, now, later).next <= Boundary(slots, Base(config), k, i)
  {
    CyclePositive(slots);
    CycleTimeAligned(slots, config, now, 1);
    PreviousCycleNotAfter(slots, config, now);
    var t := timer.(current := 0, next := NextCycleTime(slots, config, now) - Cycle(slots));
    SkipEarliest(slots, Base(config), config.kind, t, later, k, i);
  }

  lemma {:induction false} SkipEarliest(
    slots: seq<Slot>, base: int, kind: MacType, timer: Timer, now: int, k: int, i: nat)
    requires PositiveSlots(slots) && kind != NoMac && i < |slots|
    requires Aligned(slots, base, timer.next, timer.current)
    requires now <= Boundary(slots, base, k, i) ==> timer.next <= Boundary(slots, base, k, i)
    ensures now <= Boundary(slots, base, k, i) ==>
              Skip(slots, kind, timer, now).next <= Boundary(slots, base, k, i)
    decreases now - timer.next
  {
    if timer.next < now {
      SlotsDisjoint(slots, base, timer.next, timer.current, Boundary(slots, base, k, i), i);
      IncrementAligned(slots, base, kind, timer);
      SkipEarliest(slots, base, kind, Increment(slots, kind, timer), now, k, i);
    }
  }

  lemma PreviousCycleNotAfter(slots: seq<Slot>, config: Config, now: int)
    requires Cycle(slots) > 0 && ReferenceAt(config, now) <= now
    ensures NextCycleTime(slots, config, now) - Cycle(slots) <= now
  {
    var c: int, n: int := Cycle(slots), CyclesSinceReference(slots, config, now);
    var d := now - ReferenceAt(config, now);
    MulMonotone(c, n - 1, d / c);
    Distribute(n, -1, c);
  }

  /** Otherwise it goes to the start of the next cycle, exactly as long as the cycle count fits 32 bits;
      after that it falls back by at least 2^32 - 1 cycles. */
  lemma NextCycleExactly(slots: seq<Slot>, config: Config, now: int)
    requires Cycle(slots) > 0 && ReferenceAt(config, now) <= now
    ensures var c, t := Cycle(slots), NextCycleTime(slots, config, now);
            && (now < t <= now + c <==> (now - ReferenceAt(config, now)) / c + 1 < UINT32)
            && (now < t || t <= now - (UINT32 - 1) * c)
  {
    var c, n, d := Cycle(slots), CyclesSinceReference(slots, config, now), now - ReferenceAt(config, now);
    var q := d / c;
    assert q * c <= d < q * c + c;
    Distribute(q, 1, c);
    if q + 1 < UINT32 {
      assert n == q + 1;
    } else {
      assert n <= q + 1 - UINT32;
      MulMonotone(c, n, q + 1 - UINT32);
      Distribute(q + 1, -UINT32, c);
    }
  }

  /** A node that may not start in the middle of a cycle, or has only one slot, waits for the first slot of the
      next cycle, as long as the cycle count fits 32 bits. */
  lemma UpdateWaits(slots: seq<Slot>, config: Config, timer: Timer, now: int, later: int)
    requires PositiveSlots(slots) && slots != [] && (!config.startInMiddle || |slots| == 1 || config.kind == NoMac)
    requires Cycle(slots) > 0 && ReferenceAt(config, now) <= now
    requires (now - ReferenceAt(config, now)) / Cycle(slots) + 1 < UINT32
    ensures var t := Update(slots, config, timer, now, later);
            t.current == 0 && now < t.next <= now + Cycle(slots) && t.running == timer.running
  {
    NextCycleExactly(slots, config, now);
  }

  /** Two nodes that update on different days agree on the cycle just when it divides the day. */
  lemma StartOfDayConsistentExactly(slots: seq<Slot>, config: Config)
    requires PositiveSlots(slots) && slots != [] && config.reference.StartOfDay?
    ensures Cycle(slots) > 0
    ensures (forall now :: Aligned(slots, Cycle(slots), NextCycleTime(slots, config, now), 0))
            <==> DAY % Cycle(slots) == 0
  {
    CyclePositive(slots);
    var c := Cycle(slots);
    if DAY % c == 0 {
      forall now ensures Aligned(slots, c, NextCycleTime(slots, config, now), 0) {
        CycleTimeAligned(slots, config, now, 0);
        var k :| NextCycleTime(slots, config, now) == Boundary(slots, 0, k, 0);
        Distribute(k, -1, c);
        assert NextCycleTime(slots, config, now) == Boundary(slots, c, k - 1, 0);
      }
    } else {
      assert NextCycleTime(slots, config, DAY) == DAY + c;
      if Aligned(slots, c, NextCycleTime(slots, config, DAY), 0) {
        var k :| DAY + c == Boundary(slots, c, k, 0);
        assert DAY == k * c + 0;
        MultipleOf(k, c);
      }
    }
  }

  // ----- arithmetic

  lemma MultipleOf(k: int, c: int)
    requires c > 0
    ensures k * c % c == 0
  {
    var q, r := k * c / c, k * c % c;
    Distribute(k, -q, c);
    assert r == (k - q) * c;
    if k - q >= 1 {
      MulMonotone(c, 1, k - q);
    } else if k - q <= -1 {
      MulMonotone(c, k - q, -1);
    }
  }
}
