/** The MAC of one node (src/acomms/amac/mac_manager.cpp), with every reading of
    the system clock as an argument. */
module MacManager {
  import opened MacSchedule
  import opened Options

  class MACManager {
    var slots: seq<Slot>
    var config: Config
    var startedUp: bool
    var currentSlot: nat
    var nextSlotT: int
    var cyclesSinceReference: nat

    ghost predicate Valid()
      reads this
    {
      PositiveSlots(slots) && ValidTimer(slots, Clock()) && (slots != [] ==> currentSlot < |slots|)
    }

    function Clock(): Timer
      reads this
    {
      Timer(startedUp, currentSlot, nextSlotT)
    }

    constructor ()
      ensures Valid() && !startedUp && slots == [] && config.kind == NoMac
    {
      slots := [];
      config := Config(0, NoMac, true, StartOfDay);
      startedUp, currentSlot, nextSlotT, cyclesSinceReference := false, 0, 0, 0;
    }

    /** startup of a MAC that is not running; without a MAC type nothing starts. */
    method Startup(cfg: Config, cfgSlots: seq<Slot>, now: int, later: int)
      requires Valid() && !startedUp && PositiveSlots(cfgSlots)
      modifies this
      ensures Valid() && config == cfg
      ensures cfg.kind == NoMac ==> slots == old(slots) && Clock() == old(Clock())
      ensures cfg.kind != NoMac ==>
        slots == cfgSlots && Clock() == Restart(slots, cfg, Timer(false, 0, old(nextSlotT)), now, later)
    {
      config := cfg;
      if cfg.kind == NoMac {
        return;
      }
      slots := cfgSlots;
      currentSlot := 0;
      RestartTimer(now, later);
    }

    method DoWork(due: int, now: int, now2: int, now3: int) returns (start: Option<Start>)
      requires Valid()
      modifies this
      ensures Valid() && slots == old(slots) && config == old(config)
      ensures (Clock(), start) == MacSchedule.DoWork(slots, config, old(Clock()), due, now, now2, now3)
    {
      start := None;
      if startedUp && due > nextSlotT {
        start := BeginSlot(now, now2, now3);
      }
    }

    method RestartTimer(now: int, later: int)
      requires Valid()
      modifies this
      ensures Valid() && slots == old(slots) && config == old(config)
      ensures Clock() == Restart(slots, config, old(Clock()), now, later)
    {
      if startedUp {
        return;
      }
      startedUp := true;
      UpdateTimer(now, later);
    }

    method ShutdownTimer()
      requires Valid()
      modifies this
      ensures Valid() && slots == old(slots) && config == old(config)
      ensures Clock() == Shutdown(old(Clock()))
    {
      currentSlot := 0;
      startedUp := false;
    }

    method BeginSlot(now: int, now2: int, now3: int) returns (start: Option<Start>)
      requires Valid() && startedUp
      modifies this
      ensures Valid() && slots == old(slots) && config == old(config)
      ensures forall due :: due > old(nextSlotT) ==>
        (Clock(), start) == MacSchedule.DoWork(slots, config, old(Clock()), due, now, now2, now3)
    {
      var skew := if now >= nextSlotT then now - nextSlotT else nextSlotT - now;
      if skew > ALLOWED_SKEW {
        UpdateTimer(now2, now3);
        return None;
      }
      var s := slots[currentSlot];
      var weAreTransmitting := true;
      match config.kind {
        case FixedDecentralized => weAreTransmitting := s.src == config.modemId || s.alwaysInitiate;
        case Polled => weAreTransmitting := s.src != BROADCAST_ID;
        case NoMac =>
      }
      start := Some(Start(nextSlotT, currentSlot, weAreTransmitting, now));
      IncrementSlot();
    }

    method IncrementSlot()
      requires Valid() && slots != []
      modifies `nextSlotT, `currentSlot
      ensures Valid()
      ensures Clock() == Increment(slots, config.kind, old(Clock()))
    {
      if config.kind != NoMac {
        nextSlotT := nextSlotT + slots[currentSlot].length;
        currentSlot := currentSlot + 1;
        if currentSlot == |slots| {
          currentSlot := 0;
        }
      }
    }

    method CycleDuration() returns (length: int)
      ensures length == Cycle(slots)
    {
      length := 0;
      for i := 0 to |slots|
        invariant length == Offset(slots, i)
      {
        length := length + slots[i].length;
      }
    }

    method NextCycleStart(now: int) returns (time: int)
      requires PositiveSlots(slots) && slots != []
      modifies `cyclesSinceReference
      ensures Cycle(slots) > 0
      ensures cyclesSinceReference == CyclesSinceReference(slots, config, now)
      ensures time == NextCycleTime(slots, config, now)
    {
      CyclePositive(slots);
      var reference := ReferenceAt(config, now);
      var cycleDur := CycleDuration();
      cyclesSinceReference := (TruncatedDivision(now - reference, cycleDur) + 1) % UINT32;
      time := reference + cyclesSinceReference * cycleDur;
    }

    /** update: first to the next cycle, then, if allowed, back one cycle and forward slot by slot. */
    method UpdateTimer(now: int, later: int)
      requires PositiveSlots(slots)
      modifies `startedUp, `currentSlot, `nextSlotT, `cyclesSinceReference
      ensures Valid()
      ensures Clock() == Update(slots, config, old(Clock()), now, later)
    {
      if |slots| == 0 {
        startedUp := false;
        return;
      }
      currentSlot := 0;
      nextSlotT := NextCycleStart(now);
      if StartsInMiddle(slots, config) {
        var cycleDur := CycleDuration();
        nextSlotT := nextSlotT - cycleDur;
        ghost var from := Clock();
        while nextSlotT < later
          invariant Valid()
          invariant startedUp == old(startedUp)
          invariant Skip(slots, config.kind, Clock(), later) == Skip(slots, config.kind, from, later)
          decreases later - nextSlotT
        {
          IncrementSlot();
        }
      }
    }
  }
}
