/** What every run of the statechart keeps. */
module IridiumRuns {
  import opened ByteStrings
  import opened Options
  import RudicsPacket
  import opened IridiumFsm

  /** What the driver does to the machine (src/acomms/modemdriver/iridium_driver.cpp). */
  datatype Stimulus =
    | Occur(event: Event, clock: nat -> int)
    | Buffer(message: Bytes)
    | Write
    | Collect

  /** A message queued, an output written to the modem, a received message passed up. */
  function Move(s: Fsm, stimulus: Stimulus): (r: Fsm)
    requires !stimulus.Occur?
    ensures r.line == s.line && r.call == s.call && r.hungUp == s.hungUp
  {
    match stimulus
    case Buffer(message) => Queue(s, message)
    case Write => Written(s)
    case Collect => Collected(s)
  }

  /** The events that the driver itself raises. */
  predicate External(e: Event)
  {
    e.EvRxSerial? || e.EvTxSerial? || e.EvDial? || e.EvHangup? || e.EvNoCarrier? || e.EvSendBye? || e.EvSBDBeginData?
  }

  predicate AllExternal(stimuli: seq<Stimulus>)
  {
    forall i :: 0 <= i < |stimuli| ==> !stimuli[i].Occur? || External(stimuli[i].event)
  }

  function Run(env: Env, s: Fsm, stimuli: seq<Stimulus>): Fsm
    requires Proper(env)
    decreases |stimuli|
  {
    if stimuli == [] then s
    else
      match stimuli[0]
      case Occur(event, clock) => Run(env, ProcessEvent(env, s, event, clock), stimuli[1..])
      case _ => Run(env, Move(s, stimuli[0]), stimuli[1..])
  }

  // ----- the two regions

  /** With nothing pending, Online means OnCall, and a call goes on off line only after EvHangup. */
  predicate Coherent(s: Fsm)
  {
    && (s.line.Online? ==> s.call.OnCall?)
    && (s.call.OnCall? && !s.line.Online? ==> s.hungUp)
  }

  /** While events are pending, the last word in the queue agrees with the second region. */
  predicate Settling(s: Fsm, word: Option<bool>)
  {
    if word.None? then Coherent(s) else word.value == s.call.OnCall?
  }

  lemma StepSettles(env: Env, s: Fsm, posted: seq<Event>, now: int)
    requires Proper(env) && posted != [] && Settling(s, LastWord(posted))
    ensures var r := Dispatch(env, s, posted[0], now);
            Settling(r.fsm, LastWord(posted[1..] + r.posts))
  {
    DispatchSound(env, s, posted[0], now);
    LastWordAppend(posted[1..], Dispatch(env, s, posted[0], now).posts);
  }

  lemma {:induction false} DrainSettles(env: Env, s: Fsm, posted: seq<Event>, clock: nat -> int, tick: nat)
    requires Proper(env) && Settling(s, LastWord(posted))
    ensures Coherent(Drain(env, s, posted, clock, tick))
    decreases TotalWeight(posted)
  {
    if posted != [] {
      var r := Dispatch(env, s, posted[0], clock(tick));
      DrainStep(env, s, posted, clock, tick);
      StepSettles(env, s, posted, clock(tick));
      DrainSettles(env, r.fsm, posted[1..] + r.posts, clock, tick + 1);
    }
  }

  lemma {:induction false} RunCoherent(env: Env, s: Fsm, stimuli: seq<Stimulus>)
    requires Proper(env) && AllExternal(stimuli) && Coherent(s)
    ensures Coherent(Run(env, s, stimuli))
    decreases |stimuli|
  {
    if stimuli != [] {
      match stimuli[0] {
        case Occur(event, clock) =>
          Single(event);
          DrainSettles(env, s, [event], clock, 0);
          RunCoherent(env, ProcessEvent(env, s, event, clock), stimuli[1..]);
        case _ => RunCoherent(env, Move(s, stimuli[0]), stimuli[1..]);
      }
    }
  }

  /** From initiation, after every run: region coherence. */
  lemma RegionsCoherent(env: Env, stimuli: seq<Stimulus>)
    requires Proper(env) && AllExternal(stimuli)
    ensures var s := Run(env, Initial(env), stimuli);
            && (s.line.Online? ==> s.call.OnCall?)
            && (s.call.OnCall? && !s.line.Online? ==> s.hungUp)
  {
    RunCoherent(env, Initial(env), stimuli);
  }

  // ----- calls

  /** Events that neither end a call nor take the line off line, and lead only to such events. */
  predicate Gentle(e: Event)
  {
    || (e.EvAck? && e.response != "OK") || e.EvConnect? || e.EvOnline? || e.EvAtEmpty? || ForSbd(e)
  }

  predicate AllGentle(events: seq<Event>)
  {
    forall i :: 0 <= i < |events| ==> Gentle(events[i])
  }

  predicate StaysGentle(s: Fsm, e: Event, r: Reaction)
  {
    && AllGentle(r.posts)
    && (e.EvConnect? || s.call.OnCall? ==> r.fsm.call.OnCall?)
    && (s.call.OnCall? ==> r.fsm.hungUp == s.hungUp)
    && (!s.call.OnCall? && r.fsm.call.OnCall? ==> !r.fsm.hungUp)
  }

  lemma AckGentle(env: Env, s: Fsm, e: Event, now: int)
    requires Proper(env) && e.EvAck? && Gentle(e)
    ensures StaysGentle(s, e, Dispatch(env, s, e, now))
  {
    if s.line.Command? && s.line.atOut != [] {
      assert AllGentle(AckPosts(s.line.atOut[0].command, e.response, |s.line.atOut| == 1));
    }
  }

  lemma SbdGentle(env: Env, s: Fsm, e: Event, now: int)
    requires Proper(env) && ForSbd(e)
    ensures StaysGentle(s, e, Dispatch(env, s, e, now))
  {
    if s.line.Command? {
      assert StaysGentle(s, e, SbdReact(env, s, e));
    }
  }

  lemma LinkGentle(env: Env, s: Fsm, e: Event, now: int)
    requires Proper(env) && (e.EvConnect? || e.EvOnline? || e.EvAtEmpty?)
    ensures StaysGentle(s, e, Dispatch(env, s, e, now))
  {
  }

  lemma DispatchGentle(env: Env, s: Fsm, e: Event, now: int)
    requires Proper(env) && Gentle(e)
    ensures StaysGentle(s, e, Dispatch(env, s, e, now))
  {
    if e.EvAck? {
      AckGentle(env, s, e, now);
    } else if ForSbd(e) {
      SbdGentle(env, s, e, now);
    } else {
      LinkGentle(env, s, e, now);
    }
  }

  lemma {:induction false} DrainGentle(env: Env, s: Fsm, posted: seq<Event>, clock: nat -> int, tick: nat)
    requires Proper(env) && AllGentle(posted)
    requires s.call.OnCall? || EvConnect in posted
    requires s.call.OnCall? ==> !s.hungUp
    ensures var r := Drain(env, s, posted, clock, tick); r.call.OnCall? && !r.hungUp
    decreases TotalWeight(posted)
  {
    if posted != [] {
      var r := Dispatch(env, s, posted[0], clock(tick));
      DrainStep(env, s, posted, clock, tick);
      DispatchGentle(env, s, posted[0], clock(tick));
      DrainGentle(env, r.fsm, posted[1..] + r.posts, clock, tick + 1);
    }
  }

  /** When the modem reports a connection, the driver ends up on line and on a new call. */
  lemma ConnectEstablishes(env: Env, s: Fsm, text: string, clock: nat -> int)
    requires Proper(env) && Coherent(s) && s.line.Command? && s.call == NotOnCall
    requires "CONNECT" <= Trim(text) && (s.line.atOut != [] ==> s.line.atOut[0].command != "+SBDRB")
    ensures var r := ProcessEvent(env, s, EvRxSerial(text), clock);
            r.line.Online? && r.call.OnCall? && !r.hungUp
  {
    var posted := [EvAck(Trim(text)), EvConnect];
    Single(EvRxSerial(text));
    DrainSettles(env, s, [EvRxSerial(text)], clock, 0);
    ConnectDrains(env, s, text, clock);
    assert posted[1] == EvConnect && Trim(text) != "OK";
    DrainGentle(env, s, posted, clock, 1);
  }

  lemma ConnectDrains(env: Env, s: Fsm, text: string, clock: nat -> int)
    requires Proper(env) && s.line.Command? && "CONNECT" <= Trim(text)
    requires s.line.atOut != [] ==> s.line.atOut[0].command != "+SBDRB"
    ensures Drain(env, s, [EvRxSerial(text)], clock, 0) == Drain(env, s, [EvAck(Trim(text)), EvConnect], clock, 1)
  {
    ConnectAnswer(env, s, text);
    DrainStep(env, s, [EvRxSerial(text)], clock, 0);
    var posted := [EvAck(Trim(text)), EvConnect];
    assert [EvRxSerial(text)][1..] + posted == posted;
  }

  lemma ConnectAnswer(env: Env, s: Fsm, text: string)
    requires s.line.Command? && "CONNECT" <= Trim(text) && (s.line.atOut != [] ==> s.line.atOut[0].command != "+SBDRB")
    ensures CommandRx(env, s, text) == Reaction(s, [EvAck(Trim(text)), EvConnect])
  {
    assert Trim(text)[0] == 'C';
  }

  lemma NoCarrierDrains(env: Env, s: Fsm, clock: nat -> int, tick: nat)
    requires Proper(env) && s.line.Online? && s.call.OnCall?
    ensures Drain(env, s, [EvNoCarrier], clock, tick)
            == s.(line := PushAt(EnterCommand(PostDisconnected), "+CEER"), call := NotOnCall)
  {
  }

  lemma CallLineDrains(env: Env, s: Fsm, text: string, clock: nat -> int, tick: nat)
    requires Proper(env) && s.line.Online? && s.call.OnCall? && Contains(text, "NO CARRIER")
    ensures Drain(env, s, [EvRxOnCallSerial(text)], clock, tick)
            == s.(line := PushAt(EnterCommand(PostDisconnected), "+CEER"), call := NotOnCall)
  {
    DrainStep(env, s, [EvRxOnCallSerial(text)], clock, tick);
    assert [EvRxOnCallSerial(text)][1..] + [EvNoCarrier] == [EvNoCarrier];
    NoCarrierDrains(env, s, clock, tick + 1);
  }

  /** When the carrier is lost during a call, the call ends and the driver asks the modem why. */
  lemma CarrierLostEndsCall(env: Env, s: Fsm, text: string, clock: nat -> int)
    requires Proper(env) && s.line.Online? && s.call.OnCall? && Contains(text, "NO CARRIER")
    ensures ProcessEvent(env, s, EvRxSerial(text), clock)
            == s.(line := PushAt(EnterCommand(PostDisconnected), "+CEER"), call := NotOnCall)
  {
    DrainStep(env, s, [EvRxSerial(text)], clock, 0);
    assert [EvRxSerial(text)][1..] + [EvRxOnCallSerial(text)] == [EvRxOnCallSerial(text)];
    CallLineDrains(env, s, text, clock, 1);
  }

  function HangingUpWith(atOut: seq<AtSentence>): Line
  {
    Command(HangingUp, Sbd(SBDReady, [], false), atOut, "")
  }

  // ----- hanging up, however ticks and answers interleave

  /** What may happen while the driver hangs up: ticks, "OK" answers and its own moves. */
  predicate HangupStimulus(stimulus: Stimulus)
  {
    !stimulus.Occur? || stimulus.event.EvTxSerial? || IsOk(stimulus)
  }

  predicate IsOk(stimulus: Stimulus)
  {
    stimulus.Occur? && stimulus.event.EvRxSerial? && Trim(stimulus.event.line) == "OK"
  }

  predicate HangupStimuli(stimuli: seq<Stimulus>)
  {
    forall i :: 0 <= i < |stimuli| ==> HangupStimulus(stimuli[i])
  }

  function Answers(stimuli: seq<Stimulus>): nat
  {
    if stimuli == [] then 0 else Answers(stimuli[1..]) + if IsOk(stimuli[0]) then 1 else 0
  }

  /** What follows the first "OK". */
  function AfterOk(stimuli: seq<Stimulus>): seq<Stimulus>
  {
    if stimuli == [] then [] else if IsOk(stimuli[0]) then stimuli[1..] else AfterOk(stimuli[1..])
  }

  /** How many ticks before the first "OK" come more than the timeout after the one that counted before. */
  function Attempts(stimuli: seq<Stimulus>, last: int, timeout: int): nat
    decreases |stimuli|
  {
    if stimuli == [] || IsOk(stimuli[0]) then 0
    else if stimuli[0].Occur? && last + timeout < stimuli[0].clock(0)
    then 1 + Attempts(stimuli[1..], stimuli[0].clock(0), timeout)
    else Attempts(stimuli[1..], last, timeout)
  }

  /** The driver was reset: no call, and the commands of the configuration going out or done. */
  predicate Restarted(s: Fsm)
  {
    s.call == NotOnCall && s.line.Command? && s.line.task in {Configure, Ready} && s.line.sbd.task == SBDReady
  }

  predicate HungUp(s: Fsm)
  {
    s.call == NotOnCall && s.line == EnterCommand(Ready)
  }

  /** Hanging up, for every interleaving of ticks with the modem's answers: after the second "OK"
      the call is over; the driver is ready with nothing left to send when neither command was
      due more than three times, and was reset otherwise. */
  lemma HangupCompletes(env: Env, s: Fsm, clock: nat -> int, stimuli: seq<Stimulus>)
    requires Proper(env) && s.line.Online? && s.call.OnCall?
    requires HangupStimuli(stimuli) && Answers(stimuli) >= 2
    ensures var r := Run(env, ProcessEvent(env, s, EvHangup, clock), stimuli);
            && r.call == NotOnCall
            && if Attempts(stimuli, 0, 6) <= 3 && Attempts(AfterOk(stimuli), 0, 10) <= 3
               then HungUp(r) else Restarted(r)
  {
    HangupStarts(env, s, clock);
    EscapingRun(env, s.(line := Escaping(0, 0), hungUp := true), 0, 0, stimuli);
  }

  /** The command list while hanging up, with whatever time and count of the last sending. */
  function Escaping(last: int, tries: nat): Line
  {
    HangingUpWith([AtSentence("+++", last, tries), AtSentence("H", 0, 0)])
  }

  function Hanging(last: int, tries: nat): Line
  {
    HangingUpWith([AtSentence("H", last, tries)])
  }

  lemma {:induction false} EscapingRun(env: Env, s: Fsm, last: int, tries: nat, stimuli: seq<Stimulus>)
    requires Proper(env) && s.line == Escaping(last, tries) && s.call.OnCall? && tries <= 3
    requires HangupStimuli(stimuli) && Answers(stimuli) >= 2
    ensures var r := Run(env, s, stimuli);
            if tries + Attempts(stimuli, last, 6) <= 3 && Attempts(AfterOk(stimuli), 0, 10) <= 3
            then HungUp(r) else Restarted(r)
    decreases |stimuli|
  {
    var first, rest := stimuli[0], stimuli[1..];
    assert HangupStimulus(first);
    if !first.Occur? {
      EscapingRun(env, Move(s, first), last, tries, rest);
    } else if IsOk(first) {
      HangupEscapes(env, s, last, tries, first.event.line, first.clock);
      HangingRun(env, s.(line := Hanging(0, 0)), 0, 0, rest);
    } else {
      var now := first.clock(0);
      EscapeTick(env, s, last, tries, first.clock);
      var next := ProcessEvent(env, s, EvTxSerial, first.clock);
      if last + 6 >= now {
        EscapingRun(env, next, last, tries, rest);
      } else if tries < 3 {
        EscapingRun(env, next, now, tries + 1, rest);
      } else {
        RestartedRun(env, next, rest);
      }
    }
  }

  lemma {:induction false} HangingRun(env: Env, s: Fsm, last: int, tries: nat, stimuli: seq<Stimulus>)
    requires Proper(env) && s.line == Hanging(last, tries) && s.call.OnCall? && tries <= 3
    requires HangupStimuli(stimuli) && Answers(stimuli) >= 1
    ensures var r := Run(env, s, stimuli);
            if tries + Attempts(stimuli, last, 10) <= 3 then HungUp(r) else Restarted(r)
    decreases |stimuli|
  {
    var first, rest := stimuli[0], stimuli[1..];
    assert HangupStimulus(first);
    if !first.Occur? {
      HangingRun(env, Move(s, first), last, tries, rest);
    } else if IsOk(first) {
      HangupEnds(env, s, last, tries, first.event.line, first.clock);
      HungUpRun(env, s.(line := EnterCommand(Ready), call := NotOnCall), rest);
    } else {
      var now := first.clock(0);
      HangTick(env, s, last, tries, first.clock);
      var next := ProcessEvent(env, s, EvTxSerial, first.clock);
      if last + 10 >= now {
        HangingRun(env, next, last, tries, rest);
      } else if tries < 3 {
        HangingRun(env, next, now, tries + 1, rest);
      } else {
        RestartedRun(env, next, rest);
      }
    }
  }

  /** Once hung up, neither ticks nor answers change anything. */
  lemma {:induction false} HungUpRun(env: Env, s: Fsm, stimuli: seq<Stimulus>)
    requires Proper(env) && HungUp(s) && HangupStimuli(stimuli)
    ensures HungUp(Run(env, s, stimuli))
    decreases |stimuli|
  {
    if stimuli != [] {
      var first := stimuli[0];
      assert HangupStimulus(first);
      if stimuli[0].Occur? {
        var event, clock := stimuli[0].event, stimuli[0].clock;
        if event.EvTxSerial? {
          TickIdle(env, s, clock);
        } else {
          OkIdle(env, s, event.line, clock);
        }
        HungUpRun(env, s, stimuli[1..]);
      } else {
        HungUpRun(env, Move(s, stimuli[0]), stimuli[1..]);
      }
    }
  }

  lemma TickIdle(env: Env, s: Fsm, clock: nat -> int)
    requires Proper(env) && HungUp(s)
    ensures ProcessEvent(env, s, EvTxSerial, clock) == s
  {
    DrainStep(env, s, [EvTxSerial], clock, 0);
    assert [EvTxSerial][1..] + [] == [];
  }

  lemma AckIdle(env: Env, s: Fsm, clock: nat -> int, tick: nat)
    requires Proper(env) && HungUp(s)
    ensures Drain(env, s, [EvAck("OK")], clock, tick) == s
  {
    DrainStep(env, s, [EvAck("OK")], clock, tick);
    assert [EvAck("OK")][1..] + [] == [];
  }

  lemma OkIdle(env: Env, s: Fsm, text: string, clock: nat -> int)
    requires Proper(env) && HungUp(s) && Trim(text) == "OK"
    ensures ProcessEvent(env, s, EvRxSerial(text), clock) == s
  {
    DrainStep(env, s, [EvRxSerial(text)], clock, 0);
    OkAnswer(env, s, text);
    assert [EvRxSerial(text)][1..] + [EvAck("OK")] == [EvAck("OK")];
    AckIdle(env, s, clock, 1);
  }

  /** The events that ticks and answers give rise to in a driver that was reset. */
  predicate Calm(e: Event)
  {
    || e.EvTxSerial? || (e.EvRxSerial? && Trim(e.line) == "OK") || e.EvAck? || e.EvReset? || e.EvNoCarrier?
    || e.EvAtEmpty? || e.EvDisconnect? || e.EvConfigured?
    || e.EvSBDReceiveComplete? || e.EvSBDSendBufferCleared? || e.EvSBDWriteReady? || e.EvSBDWriteComplete?
  }

  predicate AllCalm(events: seq<Event>)
  {
    forall i :: 0 <= i < |events| ==> Calm(events[i])
  }

  predicate StaysRestarted(r: Reaction)
  {
    Restarted(r.fsm) && AllCalm(r.posts)
  }

  lemma AnswerRestarted(env: Env, s: Fsm, text: string)
    requires Restarted(s) && Trim(text) == "OK"
    ensures StaysRestarted(CommandRx(env, s, text))
  {
    assert s.line.atOut != [] ==> ("AT" + s.line.atOut[0].command)[0] == 'A';
  }

  lemma AckRestarted(s: Fsm, response: string)
    requires Restarted(s)
    ensures StaysRestarted(CommandAck(s, response))
  {
    if s.line.atOut != [] {
      assert AllCalm(AckPosts(s.line.atOut[0].command, response, |s.line.atOut| == 1));
    }
  }

  lemma ConfigureRestarted(env: Env)
    ensures EnterConfigure(env).task == Configure && EnterConfigure(env).sbd.task == SBDReady
  {
    ConfigKeepsSbd(PushAt(EnterCommand(Configure), ""), env.config);
  }

  lemma {:induction false} ConfigKeepsSbd(line: Line, config: seq<string>)
    requires line.Command?
    ensures PushConfig(line, config).sbd == line.sbd
    decreases |config|
  {
    if config != [] {
      ConfigKeepsSbd(PushAt(line, config[0]), config[1..]);
    }
  }

  lemma DispatchRestarted(env: Env, s: Fsm, e: Event, now: int)
    requires Proper(env) && Restarted(s) && Calm(e)
    ensures StaysRestarted(Dispatch(env, s, e, now))
  {
    if e.EvRxSerial? {
      AnswerRestarted(env, s, e.line);
    } else if e.EvAck? {
      AckRestarted(s, e.response);
    } else if e.EvReset? {
      ConfigureRestarted(env);
    }
  }

  lemma {:induction false} DrainRestarted(env: Env, s: Fsm, posted: seq<Event>, clock: nat -> int, tick: nat)
    requires Proper(env) && Restarted(s) && AllCalm(posted)
    ensures Restarted(Drain(env, s, posted, clock, tick))
    decreases TotalWeight(posted)
  {
    if posted != [] {
      var r := Dispatch(env, s, posted[0], clock(tick));
      DrainStep(env, s, posted, clock, tick);
      DispatchRestarted(env, s, posted[0], clock(tick));
      DrainRestarted(env, r.fsm, posted[1..] + r.posts, clock, tick + 1);
    }
  }

  lemma {:induction false} RestartedRun(env: Env, s: Fsm, stimuli: seq<Stimulus>)
    requires Proper(env) && Restarted(s) && HangupStimuli(stimuli)
    ensures Restarted(Run(env, s, stimuli))
    decreases |stimuli|
  {
    if stimuli != [] {
      assert HangupStimulus(stimuli[0]);
      if stimuli[0].Occur? {
        var event, clock := stimuli[0].event, stimuli[0].clock;
        DrainRestarted(env, s, [event], clock, 0);
        RestartedRun(env, ProcessEvent(env, s, event, clock), stimuli[1..]);
      } else {
        RestartedRun(env, Move(s, stimuli[0]), stimuli[1..]);
      }
    }
  }

  lemma ResetDrains(env: Env, s: Fsm, clock: nat -> int, tick: nat)
    requires Proper(env) && s.call.OnCall? && s.line.Command? && s.line.task == HangingUp
    ensures Restarted(Drain(env, s, [EvReset], clock, tick))
  {
    var reset := s.(line := EnterConfigure(env), call := NotOnCall);
    DrainStep(env, s, [EvReset], clock, tick);
    assert [EvReset][1..] + [EvDisconnect] == [EvDisconnect];
    ConfigureRestarted(env);
    DrainRestarted(env, reset, [EvDisconnect], clock, tick + 1);
  }

  /** A tick sends the command in front when it is due, up to three times. */
  lemma HangingUpTick(env: Env, s: Fsm, front: AtSentence, rest: seq<AtSentence>, clock: nat -> int)
    requires Proper(env) && s.call.OnCall? && s.line == HangingUpWith([front] + rest) && front.command != "+SBDRB"
    ensures var next := ProcessEvent(env, s, EvTxSerial, clock);
            if front.lastSendTime + Timeout(front.command) >= clock(0) then next == s
            else if front.tries < 3 then
              next == Transmit(s.(line := HangingUpWith([front.(tries := front.tries + 1, lastSendTime := clock(0))] + rest)),
                               Text(if front.command == "+++" then "+++" else "AT" + front.command + "\r"))
            else Restarted(next)
  {
    DrainStep(env, s, [EvTxSerial], clock, 0);
    HangingUpSends(s, front, rest, clock(0));
    if front.lastSendTime + Timeout(front.command) < clock(0) && front.tries >= 3 {
      assert [EvTxSerial][1..] + [EvReset] == [EvReset];
      ResetDrains(env, CommandTx(s, clock(0)).fsm, clock, 1);
    } else {
      assert [EvTxSerial][1..] + [] == [];
    }
  }

  lemma HangingUpSends(s: Fsm, front: AtSentence, rest: seq<AtSentence>, now: int)
    requires s.line == HangingUpWith([front] + rest) && front.command != "+SBDRB"
    ensures var r := CommandTx(s, now);
            if front.lastSendTime + Timeout(front.command) >= now then r == Reaction(s, [])
            else if front.tries < 3 then
              r == Reaction(Transmit(s.(line := HangingUpWith([front.(tries := front.tries + 1, lastSendTime := now)] + rest)),
                                     Text(if front.command == "+++" then "+++" else "AT" + front.command + "\r")), [])
            else r.posts == [EvReset] && r.fsm.call == s.call && r.fsm.line.Command? && r.fsm.line.task == HangingUp
  {
    var sent := front.(tries := front.tries + 1, lastSendTime := now);
    assert ([front] + rest)[0 := sent] == [sent] + rest;
  }

  lemma EscapeTick(env: Env, s: Fsm, last: int, tries: nat, clock: nat -> int)
    requires Proper(env) && s.call.OnCall? && s.line == Escaping(last, tries)
    ensures var next := ProcessEvent(env, s, EvTxSerial, clock);
            if last + 6 >= clock(0) then next == s
            else if tries < 3 then next == Transmit(s.(line := Escaping(clock(0), tries + 1)), Text("+++"))
            else Restarted(next)
  {
    var front, rest := AtSentence("+++", last, tries), [AtSentence("H", 0, 0)];
    assert [front, rest[0]] == [front] + rest;
    HangingUpTick(env, s, front, rest, clock);
    var sent := AtSentence("+++", clock(0), tries + 1);
    assert [sent, rest[0]] == [sent] + rest;
  }

  lemma HangTick(env: Env, s: Fsm, last: int, tries: nat, clock: nat -> int)
    requires Proper(env) && s.call.OnCall? && s.line == Hanging(last, tries)
    ensures var next := ProcessEvent(env, s, EvTxSerial, clock);
            if last + 10 >= clock(0) then next == s
            else if tries < 3 then next == Transmit(s.(line := Hanging(clock(0), tries + 1)), Text("ATH\r"))
            else Restarted(next)
  {
    var front := AtSentence("H", last, tries);
    assert [front] == [front] + [];
    HangingUpTick(env, s, front, [], clock);
    var sent := AtSentence("H", clock(0), tries + 1);
    assert [sent] == [sent] + [];
    assert "AT" + "H" + "\r" == "ATH\r";
  }

  lemma HangupStarts(env: Env, s: Fsm, clock: nat -> int)
    requires Proper(env) && s.line.Online?
    ensures ProcessEvent(env, s, EvHangup, clock) == s.(line := Escaping(0, 0), hungUp := true)
  {
    DrainStep(env, s, [EvHangup], clock, 0);
    assert [EvHangup][1..] + [] == [];
  }

  /** "OK" is never an echo, since an echo starts with "AT". */
  lemma OkAnswer(env: Env, s: Fsm, text: string)
    requires s.line.Command? && Trim(text) == "OK" && (s.line.atOut != [] ==> s.line.atOut[0].command != "+SBDRB")
    ensures CommandRx(env, s, text) == Reaction(s, [EvAck("OK")])
  {
    assert s.line.atOut != [] ==> ("AT" + s.line.atOut[0].command)[0] == 'A';
  }

  lemma HangupEscapes(env: Env, s: Fsm, last: int, tries: nat, text: string, clock: nat -> int)
    requires Proper(env) && Trim(text) == "OK" && s.line == Escaping(last, tries)
    ensures ProcessEvent(env, s, EvRxSerial(text), clock) == s.(line := Hanging(0, 0))
  {
    OkAnswer(env, s, text);
    DrainStep(env, s, [EvRxSerial(text)], clock, 0);
    assert [EvRxSerial(text)][1..] + [EvAck("OK")] == [EvAck("OK")];
    EscapeAcknowledged(env, s, last, tries, clock, 1);
  }

  lemma EscapeAcknowledged(env: Env, s: Fsm, last: int, tries: nat, clock: nat -> int, tick: nat)
    requires Proper(env) && s.line == Escaping(last, tries)
    ensures Drain(env, s, [EvAck("OK")], clock, tick) == s.(line := Hanging(0, 0))
  {
    DrainStep(env, s, [EvAck("OK")], clock, tick);
    assert s.line.atOut[1..] == [AtSentence("H", 0, 0)];
    assert AckPosts("+++", "OK", false) == [];
    assert [EvAck("OK")][1..] + [] == [];
  }

  lemma HangupEnds(env: Env, s: Fsm, last: int, tries: nat, text: string, clock: nat -> int)
    requires Proper(env) && Trim(text) == "OK" && s.call.OnCall? && s.line == Hanging(last, tries)
    ensures ProcessEvent(env, s, EvRxSerial(text), clock) == s.(line := EnterCommand(Ready), call := NotOnCall)
  {
    OkAnswer(env, s, text);
    DrainStep(env, s, [EvRxSerial(text)], clock, 0);
    assert [EvRxSerial(text)][1..] + [EvAck("OK")] == [EvAck("OK")];
    HangAcknowledged(env, s, last, tries, clock, 1);
  }

  lemma HangAcknowledged(env: Env, s: Fsm, last: int, tries: nat, clock: nat -> int, tick: nat)
    requires Proper(env) && s.call.OnCall? && s.line == Hanging(last, tries)
    ensures Drain(env, s, [EvAck("OK")], clock, tick) == s.(line := EnterCommand(Ready), call := NotOnCall)
  {
    DrainStep(env, s, [EvAck("OK")], clock, tick);
    assert AckPosts("H", "OK", true) == [EvNoCarrier, EvAtEmpty];
    assert [EvAck("OK")][1..] + [EvNoCarrier, EvAtEmpty] == [EvNoCarrier, EvAtEmpty];
    assert s.line.atOut[1..] == [];
    CallOver(env, s.(line := EnterCommand(HangingUp)), clock, tick + 1);
  }

  lemma CallOver(env: Env, s: Fsm, clock: nat -> int, tick: nat)
    requires Proper(env) && s.line == EnterCommand(HangingUp) && s.call.OnCall?
    ensures Drain(env, s, [EvNoCarrier, EvAtEmpty], clock, tick) == s.(line := EnterCommand(Ready), call := NotOnCall)
  {
    DrainStep(env, s, [EvNoCarrier, EvAtEmpty], clock, tick);
    assert [EvNoCarrier, EvAtEmpty][1..] + [EvDisconnect] == [EvAtEmpty, EvDisconnect];
    CommandsDone(env, s.(call := NotOnCall), clock, tick + 1);
  }

  lemma CommandsDone(env: Env, s: Fsm, clock: nat -> int, tick: nat)
    requires Proper(env) && s.line == EnterCommand(HangingUp)
    ensures Drain(env, s, [EvAtEmpty, EvDisconnect], clock, tick) == s.(line := EnterCommand(Ready))
  {
  }

  // ----- throughput

  /** What was sent before the last packet fits the target rate up to the time of the last packet. */
  predicate WithinRate(env: Env, r: CallRecord)
    requires Proper(env)
  {
    && r.lastBytesSent <= r.totalBytesSent
    && (r.totalBytesSent - r.lastBytesSent) as real <= ByteRate(env) * (r.lastTxTime - r.start) as real
  }

  predicate Throttled(env: Env, s: Fsm)
    requires Proper(env)
  {
    s.call.OnCall? ==> WithinRate(env, s.call.record)
  }

  lemma SendKeepsRate(rate: real, before: real, last: real, start: real, lastTx: real, now: real)
    requires rate > 0.0 && before <= rate * (lastTx - start) && now > lastTx + last / rate
    ensures before + last <= rate * (now - start)
  {
    var wait := last / rate;
    assert rate * wait == last;
    assert rate * (now - lastTx) >= rate * wait;
    assert rate * (now - start) == rate * (now - lastTx) + rate * (lastTx - start);
  }

  lemma SentWithinRate(env: Env, r: CallRecord, size: nat, now: int)
    requires Proper(env) && WithinRate(env, r)
    requires now as real > r.lastTxTime as real + r.lastBytesSent as real / ByteRate(env)
    ensures WithinRate(env, Sent(r, size, now))
  {
    SendKeepsRate(ByteRate(env), (r.totalBytesSent - r.lastBytesSent) as real, r.lastBytesSent as real,
                  r.start as real, r.lastTxTime as real, now as real);
  }

  lemma CallTxThrottled(env: Env, s: Fsm, now: int)
    requires Proper(env) && s.call.OnCall? && WithinRate(env, s.call.record)
    ensures Throttled(env, CallTx(env, s, now).fsm)
  {
    var r := s.call.record;
    if s.dataOut != [] && now as real > r.lastTxTime as real + r.lastBytesSent as real / ByteRate(env) {
      SentWithinRate(env, r, |RudicsPacket.Serialize(s.dataOut[0], env.reserved, true, env.crc)|, now);
    }
  }

  lemma CallUntouched(env: Env, s: Fsm, e: Event, now: int)
    requires Proper(env) && (FromSerial(e) || ForSbd(e)) && !e.EvTxOnCallSerial? && !e.EvRxOnCallSerial?
    ensures Dispatch(env, s, e, now).fsm.call == s.call
  {
  }

  /** A line received changes neither when nor how much was sent. */
  lemma CallRxSendsNothing(env: Env, s: Fsm, text: string, now: int)
    requires Proper(env) && s.call.OnCall?
    ensures CallRx(env, s, text, now).fsm.call.OnCall? && SameSent(s.call.record, CallRx(env, s, text, now).fsm.call.record)
  {
  }

  predicate SameSent(r: CallRecord, q: CallRecord)
  {
    && q.start == r.start && q.lastTxTime == r.lastTxTime
    && q.totalBytesSent == r.totalBytesSent && q.lastBytesSent == r.lastBytesSent
  }

  lemma SameRate(env: Env, r: CallRecord, q: CallRecord)
    requires Proper(env) && SameSent(r, q) && WithinRate(env, r)
    ensures WithinRate(env, q)
  {
  }

  lemma CallRxThrottled(env: Env, s: Fsm, text: string, now: int)
    requires Proper(env) && s.call.OnCall? && WithinRate(env, s.call.record)
    ensures Throttled(env, CallRx(env, s, text, now).fsm)
  {
    CallRxSendsNothing(env, s, text, now);
    SameRate(env, s.call.record, CallRx(env, s, text, now).fsm.call.record);
  }

  lemma DispatchThrottled(env: Env, s: Fsm, e: Event, now: int)
    requires Proper(env) && Throttled(env, s)
    ensures Throttled(env, Dispatch(env, s, e, now).fsm)
  {
    if e.EvTxOnCallSerial? && s.call.OnCall? {
      CallTxThrottled(env, s, now);
    } else if e.EvRxOnCallSerial? && s.call.OnCall? {
      CallRxThrottled(env, s, e.line, now);
    } else if FromSerial(e) || ForSbd(e) {
      if !e.EvTxOnCallSerial? && !e.EvRxOnCallSerial? {
        CallUntouched(env, s, e, now);
      }
    }
  }

  lemma {:induction false} DrainThrottled(env: Env, s: Fsm, posted: seq<Event>, clock: nat -> int, tick: nat)
    requires Proper(env) && Throttled(env, s)
    ensures Throttled(env, Drain(env, s, posted, clock, tick))
    decreases TotalWeight(posted)
  {
    if posted != [] {
      var r := Dispatch(env, s, posted[0], clock(tick));
      DrainStep(env, s, posted, clock, tick);
      DispatchThrottled(env, s, posted[0], clock(tick));
      DrainThrottled(env, r.fsm, posted[1..] + r.posts, clock, tick + 1);
    }
  }

  /** At every point of every call, whatever the clock reads, the bytes sent before the last packet
      stay within the target rate. At initiation there is no call, so nothing to throttle yet. */
  lemma {:induction false} CallThroughput(env: Env, s: Fsm, stimuli: seq<Stimulus>)
    requires Proper(env) && Throttled(env, s)
    ensures Throttled(env, Run(env, s, stimuli))
    decreases |stimuli|
  {
    if stimuli != [] {
      match stimuli[0] {
        case Occur(event, clock) =>
          DrainThrottled(env, s, [event], clock, 0);
          CallThroughput(env, ProcessEvent(env, s, event, clock), stimuli[1..]);
        case _ => CallThroughput(env, Move(s, stimuli[0]), stimuli[1..]);
      }
    }
  }
}
