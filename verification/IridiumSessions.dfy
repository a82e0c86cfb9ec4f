/** What the driver does with the modem off line: configuring it, dialling, answering, data bursts. */
module IridiumSessions {
  import opened ByteStrings
  import opened Options
  import opened RudicsPacket
  import opened IridiumFsm
  import opened IridiumRuns
  import opened IridiumCalls

  // ----- one answer, one tick

  function Commands(atOut: seq<AtSentence>): (r: seq<string>)
    ensures |r| == |atOut|
  {
    seq(|atOut|, i requires 0 <= i < |atOut| => atOut[i].command)
  }

  function Fresh(commands: seq<string>): (r: seq<AtSentence>)
    ensures |r| == |commands|
  {
    seq(|commands|, i requires 0 <= i < |commands| => AtSentence(commands[i], 0, 0))
  }

  /** The line is no part of a burst and no echo of the command in front. */
  predicate Plain(s: Fsm, answer: string)
    requires s.line.Command?
  {
    s.line.atOut != [] ==> s.line.atOut[0].command != "+SBDRB" && answer != "AT" + s.line.atOut[0].command
  }

  lemma NotAnEcho(s: Fsm, answer: string)
    requires s.line.Command? && (s.line.atOut != [] ==> s.line.atOut[0].command != "+SBDRB")
    requires |answer| > 0 && answer[0] != 'A'
    ensures Plain(s, answer)
  {
    assert s.line.atOut != [] ==> ("AT" + s.line.atOut[0].command)[0] == 'A';
  }

  lemma AnswerDrains(env: Env, s: Fsm, text: string, clock: nat -> int)
    requires Proper(env) && s.line.Command? && Plain(s, Trim(text))
    ensures ProcessEvent(env, s, EvRxSerial(text), clock) == Drain(env, s, Answered(Trim(text)), clock, 1)
  {
    DrainStep(env, s, [EvRxSerial(text)], clock, 0);
    assert [EvRxSerial(text)][1..] + Answered(Trim(text)) == Answered(Trim(text));
  }

  /** A word that is no number. */
  predicate Word(response: string)
  {
    response == "OK" || response == "READY" || response == "NO CARRIER" || response == "BUSY" || response == "NO DIALTONE"
  }

  /** An acknowledgment takes the command in front off the queue. */
  lemma AckTakes(env: Env, s: Fsm, response: string, rest: seq<Event>, clock: nat -> int, tick: nat)
    requires Proper(env) && s.line.Command? && |s.line.atOut| > 0 && Word(response)
    ensures Drain(env, s, [EvAck(response)] + rest, clock, tick)
            == Drain(env, s.(line := s.line.(atOut := s.line.atOut[1..])),
                     rest + AckPosts(s.line.atOut[0].command, response, |s.line.atOut| == 1), clock, tick + 1)
  {
    assert response[0] == 'O' || response[0] == 'R' || response[0] == 'N' || response[0] == 'B';
    assert ([EvAck(response)] + rest)[1..] == rest;
    DrainStep(env, s, [EvAck(response)] + rest, clock, tick);
  }

  lemma AckIgnored(env: Env, s: Fsm, response: string, rest: seq<Event>, clock: nat -> int, tick: nat)
    requires Proper(env) && s.line.Command? && s.line.atOut == [] && Word(response)
    ensures Drain(env, s, [EvAck(response)] + rest, clock, tick) == Drain(env, s, rest, clock, tick + 1)
  {
    assert response[0] == 'O' || response[0] == 'R' || response[0] == 'N' || response[0] == 'B';
    assert ([EvAck(response)] + rest)[1..] + [] == rest;
    DrainStep(env, s, [EvAck(response)] + rest, clock, tick);
  }

  /** EvAtEmpty makes a driver ready that was configuring, hanging up or asking why, and is ignored otherwise. */
  lemma EmptyMeans(env: Env, s: Fsm, clock: nat -> int, tick: nat)
    requires Proper(env) && s.line.Command? && s.line.task != Configure
    ensures Drain(env, s, [EvAtEmpty], clock, tick)
            == if s.line.task == HangingUp || s.line.task == PostDisconnected then s.(line := s.line.(task := Ready)) else s
  {
    DrainStep(env, s, [EvAtEmpty], clock, tick);
    assert [EvAtEmpty][1..] + [] == [];
  }

  /** An event of the burst that posts nothing is dealt with at once. */
  lemma SbdDrains(env: Env, s: Fsm, e: Event, next: Fsm, clock: nat -> int, tick: nat)
    requires Proper(env) && s.line.Command? && ForSbd(e) && SbdReact(env, s, e) == Reaction(next, [])
    ensures Drain(env, s, [e], clock, tick) == next
  {
    DrainStep(env, s, [e], clock, tick);
    assert [e][1..] + [] == [];
  }

  /** How long the modem may take for each command, in seconds. */
  lemma TimeoutsMean(number: string, size: string)
    ensures Timeout("D" + number) == 60 && Timeout("A") == 30 && Timeout("H") == 10 && Timeout("+++") == 6
    ensures Timeout("+SBDIX") == 60 && Timeout("+SBDIXA") == 60
    ensures Timeout("+SBDD2") == 2 && Timeout("+SBDWB=" + size) == 2 && Timeout("+SBDRB") == 2
    ensures Timeout("") == 2 && Timeout("E") == 2 && Timeout("+CEER") == 2 && Timeout("AT") == 30
  {
    assert ("D" + number)[0] == 'D';
    assert ("+SBDWB=" + size)[0] == '+' && ("+SBDWB=" + size)[4] == 'W';
    assert "+SBDD2"[4] == 'D' && "+SBDRB"[4] == 'R' && "+CEER"[1] == 'C' && "+SBDI"[4] == 'I';
  }

  /** The tick does not find the command in front overdue for the fourth time. */
  predicate Spared(s: Fsm, now: int)
  {
    s.line.Command? && s.line.atOut != [] ==>
      s.line.atOut[0].tries < 3 || now <= s.line.atOut[0].lastSendTime + Timeout(s.line.atOut[0].command)
  }

  /** What a tick does off line: when it is time, it writes the command in front. */
  predicate Ticked(s: Fsm, next: Fsm, now: int)
    requires s.line.Command?
  {
    if s.line.atOut == [] || now <= s.line.atOut[0].lastSendTime + Timeout(s.line.atOut[0].command) then next == s
    else
      var front := s.line.atOut[0];
      var sent := [AtSentence(front.command, now, front.tries + 1)] + s.line.atOut[1..];
      next == s.(line := s.line.(atOut := sent),
                 serialTx := (if |s.serialTx| < 10 then s.serialTx else s.serialTx[1..])
                             + [Text(if front.command == "+++" then "+++" else "AT" + front.command + "\r")])
  }

  lemma SparedTick(env: Env, s: Fsm, clock: nat -> int)
    requires Proper(env) && s.line.Command? && Spared(s, clock(0))
    requires s.line.atOut != [] ==> s.line.atOut[0].command != "+SBDRB"
    ensures Ticked(s, ProcessEvent(env, s, EvTxSerial, clock), clock(0))
  {
    DrainStep(env, s, [EvTxSerial], clock, 0);
    assert [EvTxSerial][1..] + [] == [];
    if s.line.atOut != [] {
      var front := s.line.atOut[0];
      var sent := front.(tries := front.tries + 1, lastSendTime := clock(0));
      assert s.line.atOut[0 := sent] == [sent] + s.line.atOut[1..];
    }
  }

  lemma TickKeepsCommands(s: Fsm, next: Fsm, now: int)
    requires s.line.Command? && Ticked(s, next, now)
    ensures next.line.Command? && Commands(next.line.atOut) == Commands(s.line.atOut)
    ensures next.line == s.line.(atOut := next.line.atOut) && next.call == s.call && next.received == s.received
    ensures next.line.atOut == [] || next.line.atOut[1..] == s.line.atOut[1..]
    ensures |s.serialTx| < 10 ==> Packets(next.serialTx) == Packets(s.serialTx)
  {
    if next != s && |s.serialTx| < 10 {
      var text := next.serialTx[|s.serialTx|];
      assert next.serialTx == s.serialTx + [text];
      PacketsAppend(s.serialTx, [text]);
      TextIsNoPacket(text.text, []);
      assert [Text(text.text)] + [] == [text];
    }
  }

  // ----- dialling

  /** Off line and off the call, with nothing to say to the modem. */
  predicate Idle(s: Fsm)
  {
    s.call == NotOnCall && s.line.Command? && s.line.task == Ready && s.line.sbd.task == SBDReady && s.line.atOut == []
  }

  /** In the k-th attempt, whatever the time and count of the last sending. */
  predicate DialsAt(env: Env, s: Fsm, k: nat)
  {
    && s.call == NotOnCall && s.line.Command? && s.line.task == Dial(k) && s.line.sbd.task == SBDReady
    && Commands(s.line.atOut) == ["D" + env.number]
  }

  /** What the modem says when it does not connect. */
  predicate Fails(answer: string)
  {
    answer == "NO CARRIER" || answer == "BUSY" || answer == "NO DIALTONE" || answer == "OK"
  }

  predicate IsFailure(stimulus: Stimulus)
  {
    stimulus.Occur? && stimulus.event.EvRxSerial? && Fails(Trim(stimulus.event.line))
  }

  /** How many of the stimuli are such answers. */
  function Count(stimuli: seq<Stimulus>, answer: Stimulus -> bool): nat
  {
    if stimuli == [] then 0 else Count(stimuli[1..], answer) + if answer(stimuli[0]) then 1 else 0
  }

  /** Such answers, ticks that do not use up the retries, and the driver's own moves. */
  predicate Spares(env: Env, s: Fsm, stimuli: seq<Stimulus>, answer: Stimulus -> bool)
    requires Proper(env)
    decreases |stimuli|
  {
    stimuli == [] ||
    (&& (!stimuli[0].Occur? || answer(stimuli[0]) || (stimuli[0].event.EvTxSerial? && Spared(s, stimuli[0].clock(0))))
     && Spares(env, After(env, s, stimuli[0]), stimuli[1..], answer))
  }

  lemma OneCommand(atOut: seq<AtSentence>, command: string)
    requires Commands(atOut) == [command]
    ensures |atOut| == 1 && atOut[0].command == command && atOut[1..] == []
  {
    assert Commands(atOut)[0] == atOut[0].command;
  }

  lemma DialStarts(env: Env, s: Fsm, clock: nat -> int)
    requires Proper(env) && Idle(s)
    ensures DialsAt(env, ProcessEvent(env, s, EvDial, clock), 1)
  {
    DrainStep(env, s, [EvDial], clock, 0);
    assert [EvDial][1..] + [] == [];
    var next := ProcessEvent(env, s, EvDial, clock);
    assert next.line.atOut == [] + [AtSentence("D" + env.number, 0, 0)];
    assert Commands(next.line.atOut) == ["D" + env.number];
  }

  lemma DialFails(env: Env, s: Fsm, k: nat, text: string, clock: nat -> int)
    requires Proper(env) && DialsAt(env, s, k) && Fails(Trim(text))
    ensures var next := ProcessEvent(env, s, EvRxSerial(text), clock);
            if k < env.dialAttempts then DialsAt(env, next, k + 1) else Idle(next)
  {
    OneCommand(s.line.atOut, "D" + env.number);
    assert ("AT" + s.line.atOut[0].command)[0] == 'A' && ("D" + env.number)[0] == 'D';
    AnswerDrains(env, s, text, clock);
    var popped := s.(line := s.line.(atOut := []));
    DialPopped(env, s, k, Trim(text), clock);
    Redials(env, popped, k, clock);
  }

  /** The answer takes the command off the queue and says that there is no carrier. */
  lemma DialPopped(env: Env, s: Fsm, k: nat, answer: string, clock: nat -> int)
    requires Proper(env) && DialsAt(env, s, k) && Fails(answer)
    ensures Drain(env, s, Answered(answer), clock, 1)
            == Drain(env, s.(line := s.line.(atOut := [])), [EvNoCarrier, EvAtEmpty], clock, 2)
  {
    OneCommand(s.line.atOut, "D" + env.number);
    assert ("D" + env.number)[0] == 'D';
    if answer == "OK" {
      AckTakes(env, s, answer, [], clock, 1);
      assert [EvAck(answer)] + [] == Answered(answer);
      assert [] + AckPosts("D" + env.number, answer, true) == [EvNoCarrier, EvAtEmpty];
    } else {
      AckTakes(env, s, answer, [EvNoCarrier], clock, 1);
      assert [EvAck(answer)] + [EvNoCarrier] == Answered(answer);
      assert [EvNoCarrier] + AckPosts("D" + env.number, answer, true) == [EvNoCarrier, EvAtEmpty];
    }
  }

  lemma Redials(env: Env, s: Fsm, k: nat, clock: nat -> int)
    requires Proper(env) && s.call == NotOnCall && s.line.Command? && s.line.task == Dial(k)
    requires s.line.sbd.task == SBDReady && s.line.atOut == []
    ensures var next := Drain(env, s, [EvNoCarrier, EvAtEmpty], clock, 2);
            if k < env.dialAttempts then DialsAt(env, next, k + 1) else Idle(next)
  {
    DrainStep(env, s, [EvNoCarrier, EvAtEmpty], clock, 2);
    assert [EvNoCarrier, EvAtEmpty][1..] + [] == [EvAtEmpty];
    var next := Dispatch(env, s, EvNoCarrier, clock(2)).fsm;
    EmptyMeans(env, next, clock, 3);
    if k < env.dialAttempts {
      assert next.line.atOut == [] + [AtSentence("D" + env.number, 0, 0)];
      assert Commands(next.line.atOut) == ["D" + env.number];
    }
  }

  /** What the modem still says to an idle driver changes nothing. */
  lemma FailureIdle(env: Env, s: Fsm, text: string, clock: nat -> int)
    requires Proper(env) && Idle(s) && Fails(Trim(text))
    ensures ProcessEvent(env, s, EvRxSerial(text), clock) == s
  {
    var answer := Trim(text);
    AnswerDrains(env, s, text, clock);
    if answer == "OK" {
      AckIgnored(env, s, answer, [], clock, 1);
      assert [EvAck(answer)] + [] == Answered(answer);
    } else {
      AckIgnored(env, s, answer, [EvNoCarrier], clock, 1);
      assert [EvAck(answer)] + [EvNoCarrier] == Answered(answer);
      CarrierIgnored(env, s, clock, 2);
    }
  }

  lemma CarrierIgnored(env: Env, s: Fsm, clock: nat -> int, tick: nat)
    requires Proper(env) && Idle(s)
    ensures Drain(env, s, [EvNoCarrier], clock, tick) == s
  {
    DrainStep(env, s, [EvNoCarrier], clock, tick);
    assert [EvNoCarrier][1..] + [] == [];
  }

  lemma {:induction false} IdleRun(env: Env, s: Fsm, stimuli: seq<Stimulus>, answer: Stimulus -> bool)
    requires Proper(env) && Idle(s) && Spares(env, s, stimuli, answer)
    requires forall stimulus :: answer(stimulus) ==> IsFailure(stimulus)
    ensures Idle(Run(env, s, stimuli))
    decreases |stimuli|
  {
    if stimuli != [] {
      var first := stimuli[0];
      if first.Occur? {
        if first.event.EvTxSerial? {
          SparedTick(env, s, first.clock);
        } else {
          FailureIdle(env, s, first.event.line, first.clock);
        }
      }
      IdleRun(env, After(env, s, first), stimuli[1..], answer);
    }
  }

  lemma {:induction false} DialRun(env: Env, s: Fsm, k: nat, stimuli: seq<Stimulus>)
    requires Proper(env) && DialsAt(env, s, k) && k >= 1 && Spares(env, s, stimuli, IsFailure)
    ensures var n := Count(stimuli, IsFailure);
            if n == 0 || k + n <= env.dialAttempts then DialsAt(env, Run(env, s, stimuli), k + n)
            else Idle(Run(env, s, stimuli))
    decreases |stimuli|
  {
    if stimuli != [] {
      var first, rest := stimuli[0], stimuli[1..];
      var next := After(env, s, first);
      if IsFailure(first) {
        DialFails(env, s, k, first.event.line, first.clock);
        if k < env.dialAttempts {
          DialRun(env, next, k + 1, rest);
        } else {
          IdleRun(env, next, rest, IsFailure);
        }
      } else {
        if first.Occur? {
          OneCommand(s.line.atOut, "D" + env.number);
          assert ("D" + env.number)[0] == 'D';
          SparedTick(env, s, first.clock);
          TickKeepsCommands(s, next, first.clock(0));
        }
        DialRun(env, next, k, rest);
      }
    }
  }

  /** The driver dials once, and once more after each failure until it has dialled as often as configured;
      after that failure it is idle again. */
  lemma DialsAsConfigured(env: Env, s: Fsm, clock: nat -> int, stimuli: seq<Stimulus>)
    requires Proper(env) && Idle(s) && Spares(env, ProcessEvent(env, s, EvDial, clock), stimuli, IsFailure)
    ensures var n, r := Count(stimuli, IsFailure), Run(env, ProcessEvent(env, s, EvDial, clock), stimuli);
            if n == 0 || n < env.dialAttempts then DialsAt(env, r, n + 1) else Idle(r)
  {
    DialStarts(env, s, clock);
    DialRun(env, ProcessEvent(env, s, EvDial, clock), 1, stimuli);
  }

  // ----- configuration

  /** What a driver says to the modem at first. */
  function Setup(env: Env): seq<string>
  {
    [""] + env.config
  }

  /** No more commands than fit, and none that reads a data burst. */
  predicate ProperSetup(env: Env)
  {
    |env.config| < 100 && "+SBDRB" !in env.config
  }

  /** The first k commands were acknowledged. */
  predicate ConfiguresAt(env: Env, s: Fsm, k: nat)
  {
    && s.call == NotOnCall && s.line.Command? && s.line.task == Configure && s.line.sbd.task == SBDReady
    && k < |Setup(env)| && Commands(s.line.atOut) == Setup(env)[k..]
  }

  lemma CommandsPushed(line: Line, command: string)
    requires line.Command? && |line.atOut| < 100
    ensures Commands(PushAt(line, command).atOut) == Commands(line.atOut) + [command]
  {
  }

  lemma {:induction false} ConfigPushed(line: Line, config: seq<string>)
    requires line.Command? && |line.atOut| + |config| <= 100
    ensures Commands(PushConfig(line, config).atOut) == Commands(line.atOut) + config
    ensures PushConfig(line, config).sbd == line.sbd
    decreases |config|
  {
    if config != [] {
      CommandsPushed(line, config[0]);
      ConfigPushed(PushAt(line, config[0]), config[1..]);
      assert [config[0]] + config[1..] == config;
    }
  }

  lemma InitialConfigures(env: Env)
    requires ProperSetup(env)
    ensures ConfiguresAt(env, Initial(env), 0)
  {
    var line := PushAt(EnterCommand(Configure), "");
    assert line.atOut == [AtSentence("", 0, 0)];
    assert Commands(line.atOut) == [""];
    ConfigPushed(line, env.config);
  }

  lemma SetupAcknowledged(env: Env, s: Fsm, k: nat, text: string, clock: nat -> int)
    requires Proper(env) && ProperSetup(env) && ConfiguresAt(env, s, k) && Trim(text) == "OK"
    ensures var next := ProcessEvent(env, s, EvRxSerial(text), clock);
            if k + 1 < |Setup(env)| then ConfiguresAt(env, next, k + 1) else Idle(next)
  {
    var front := s.line.atOut[0].command;
    FrontOfSetup(env, s, k);
    NotAnEcho(s, "OK");
    AnswerDrains(env, s, text, clock);
    AckTakes(env, s, "OK", [], clock, 1);
    var posts := AckPosts(front, "OK", |s.line.atOut| == 1);
    assert [EvAck("OK")] + [] == Answered("OK") && [] + posts == posts;
    ConfigureSettles(env, s.(line := s.line.(atOut := s.line.atOut[1..])), front, |s.line.atOut| == 1, clock);
    NextOfSetup(env, s, k);
  }

  lemma FrontOfSetup(env: Env, s: Fsm, k: nat)
    requires ProperSetup(env) && ConfiguresAt(env, s, k)
    ensures |s.line.atOut| == |Setup(env)| - k && s.line.atOut[0].command == Setup(env)[k] != "+SBDRB"
  {
    assert Commands(s.line.atOut)[0] == s.line.atOut[0].command;
    assert k > 0 ==> Setup(env)[k] == env.config[k - 1];
  }

  lemma NextOfSetup(env: Env, s: Fsm, k: nat)
    requires ProperSetup(env) && ConfiguresAt(env, s, k) && |s.line.atOut| == |Setup(env)| - k
    ensures var left := s.(line := s.line.(atOut := s.line.atOut[1..]));
            if k + 1 < |Setup(env)| then ConfiguresAt(env, left, k + 1)
            else Idle(left.(line := left.line.(task := Ready)))
  {
    assert Commands(s.line.atOut[1..]) == Commands(s.line.atOut)[1..] == Setup(env)[k + 1..];
  }

  /** A configuration command that looks like a hang-up or a dial posts an idle EvNoCarrier. */
  lemma ConfigureSettles(env: Env, s: Fsm, front: string, last: bool, clock: nat -> int)
    requires Proper(env) && s.call == NotOnCall && s.line.Command? && s.line.task == Configure
    requires s.line.sbd.task == SBDReady
    ensures Drain(env, s, AckPosts(front, "OK", last), clock, 2) == if last then s.(line := s.line.(task := Ready)) else s
  {
    var posts := AckPosts(front, "OK", last);
    if posts != [] && posts[0] == EvNoCarrier {
      assert posts == [EvNoCarrier] + When(last, EvAtEmpty);
      DrainStep(env, s, posts, clock, 2);
      assert posts[1..] + [] == When(last, EvAtEmpty);
      LastSettles(env, s, last, clock, 3);
    } else {
      assert posts == When(last, EvAtEmpty);
      LastSettles(env, s, last, clock, 2);
    }
  }

  lemma LastSettles(env: Env, s: Fsm, last: bool, clock: nat -> int, tick: nat)
    requires Proper(env) && s.line.Command? && s.line.task == Configure && s.line.sbd.task == SBDReady
    ensures Drain(env, s, When(last, EvAtEmpty), clock, tick) == if last then s.(line := s.line.(task := Ready)) else s
  {
    if last {
      DrainStep(env, s, [EvAtEmpty], clock, tick);
      assert [EvAtEmpty][1..] + [EvConfigured] == [EvConfigured];
      var next := s.(line := s.line.(task := Ready));
      ConfiguredIgnored(env, next);
      SbdDrains(env, next, EvConfigured, next, clock, tick + 1);
    }
  }

  lemma {:induction false} SetupRun(env: Env, s: Fsm, k: nat, stimuli: seq<Stimulus>)
    requires Proper(env) && ProperSetup(env) && ConfiguresAt(env, s, k) && Spares(env, s, stimuli, IsOk)
    ensures var n, r := Count(stimuli, IsOk), Run(env, s, stimuli);
            if k + n < |Setup(env)| then ConfiguresAt(env, r, k + n) else Idle(r)
    decreases |stimuli|
  {
    if stimuli != [] {
      var first, rest := stimuli[0], stimuli[1..];
      var next := After(env, s, first);
      if IsOk(first) {
        SetupAcknowledged(env, s, k, first.event.line, first.clock);
        if k + 1 < |Setup(env)| {
          SetupRun(env, next, k + 1, rest);
        } else {
          IdleRun(env, next, rest, IsOk);
        }
      } else {
        if first.Occur? {
          assert Commands(s.line.atOut)[0] == s.line.atOut[0].command == Setup(env)[k];
          SparedTick(env, s, first.clock);
          TickKeepsCommands(s, next, first.clock(0));
        }
        SetupRun(env, next, k, rest);
      }
    }
  }

  /** From its start the driver goes through the configured commands, one with each "OK", and is ready after
      the last. */
  lemma ConfiguresInOrder(env: Env, stimuli: seq<Stimulus>)
    requires Proper(env) && ProperSetup(env) && Spares(env, Initial(env), stimuli, IsOk)
    ensures var n, r := Count(stimuli, IsOk), Run(env, Initial(env), stimuli);
            if n <= |env.config| then ConfiguresAt(env, r, n) else Idle(r)
  {
    InitialConfigures(env);
    SetupRun(env, Initial(env), 0, stimuli);
  }

  /** A command that was sent three times and is due again resets the machine, which starts over with its
      configuration. */
  lemma ExhaustedResets(env: Env, s: Fsm, clock: nat -> int)
    requires Proper(env) && ProperSetup(env) && s.call == NotOnCall && s.line.Command? && s.line.atOut != []
    requires !Spared(s, clock(0))
    ensures ConfiguresAt(env, ProcessEvent(env, s, EvTxSerial, clock), 0)
  {
    DrainStep(env, s, [EvTxSerial], clock, 0);
    GivesUp(s, clock(0));
    assert [EvTxSerial][1..] + [EvReset] == [EvReset];
    ResetConfigures(env, CommandTx(s, clock(0)).fsm, clock);
  }

  lemma GivesUp(s: Fsm, now: int)
    requires s.line.Command? && s.line.atOut != [] && !Spared(s, now)
    ensures var r := CommandTx(s, now); r.posts == [EvReset] && r.fsm.call == s.call && r.fsm.line.Command?
  {
  }

  lemma ResetConfigures(env: Env, s: Fsm, clock: nat -> int)
    requires Proper(env) && ProperSetup(env) && s.call == NotOnCall && s.line.Command?
    ensures ConfiguresAt(env, Drain(env, s, [EvReset], clock, 1), 0)
  {
    var reset := s.(line := EnterConfigure(env));
    InitialConfigures(env);
    assert ConfiguresAt(env, reset, 0);
    DrainStep(env, s, [EvReset], clock, 1);
    assert [EvReset][1..] + ([] + ExitLine(s.line)) == ExitLine(s.line);
    if s.line.task == Configure {
      ConfiguredIgnored(env, reset);
      SbdDrains(env, reset, EvConfigured, reset, clock, 2);
    }
  }

  lemma ConfiguredIgnored(env: Env, s: Fsm)
    requires s.line.Command?
    ensures SbdReact(env, s, EvConfigured) == Reaction(s, [])
  {
  }

  /** So does an error that the modem reports. */
  lemma ErrorResets(env: Env, s: Fsm, text: string, clock: nat -> int)
    requires Proper(env) && ProperSetup(env) && s.call == NotOnCall && s.line.Command?
    requires s.line.atOut != [] ==> s.line.atOut[0].command != "+SBDRB"
    requires Trim(text) == "ERROR"
    ensures ConfiguresAt(env, ProcessEvent(env, s, EvRxSerial(text), clock), 0)
  {
    NotAnEcho(s, "ERROR");
    AnswerDrains(env, s, text, clock);
    ResetConfigures(env, s, clock);
  }

  /** What the modem says beyond this is ignored, as are the numbers from 1 to 3. */
  predicate Meaningless(answer: string)
  {
    || answer == "1" || answer == "2" || answer == "3"
    || (&& answer != "OK" && answer != "RING" && answer != "NO CARRIER" && answer != "NO DIALTONE" && answer != "BUSY"
        && answer != "ERROR" && answer != "READY" && answer != "SBDRING" && answer != "0"
        && !("CONNECT" <= answer) && !("+SBDI" <= answer))
  }

  lemma NoiseIgnored(env: Env, s: Fsm, text: string, clock: nat -> int)
    requires Proper(env) && s.line.Command? && Plain(s, Trim(text)) && Meaningless(Trim(text))
    ensures ProcessEvent(env, s, EvRxSerial(text), clock) == s
  {
    var answer := Trim(text);
    AnswerDrains(env, s, text, clock);
    if answer == "1" || answer == "2" || answer == "3" {
      NumberIgnored(env, s, answer, clock);
    } else {
      assert Answered(answer) == [];
    }
  }

  lemma NumberIgnored(env: Env, s: Fsm, answer: string, clock: nat -> int)
    requires Proper(env) && s.line.Command? && (answer == "1" || answer == "2" || answer == "3")
    ensures Drain(env, s, Answered(answer), clock, 1) == s
  {
    assert Answered(answer) == [EvAck(answer)];
    DrainStep(env, s, [EvAck(answer)], clock, 1);
    assert [EvAck(answer)][1..] + [] == [];
  }

  // ----- calls that come in, calls that are lost, echoes

  /** A connection while dialling or picking up: a new call begins, with nothing sent on it yet, and the
      greeting goes out before anything else. */
  lemma CallBegins(env: Env, s: Fsm, text: string, clock: nat -> int)
    requires Proper(env) && s.call == NotOnCall && s.line.Command? && (s.line.task.Dial? || s.line.task == Answer)
    requires |s.line.atOut| == 1 && s.line.atOut[0].command != "+SBDRB" && "CONNECT" <= Trim(text)
    ensures var now := clock(2);
            ProcessEvent(env, s, EvRxSerial(text), clock)
            == s.(line := Online, call := OnCall(CallRecord(now, now, 0, false, false, 0, 0)), hungUp := false,
                  serialTx := [Text("goby\r")] + if |s.serialTx| < 10 then s.serialTx else s.serialTx[..|s.serialTx| - 1])
  {
    var answer := Trim(text);
    assert answer[0] == 'C';
    NotAnEcho(s, answer);
    AnswerDrains(env, s, text, clock);
    assert Answered(answer) == [EvAck(answer), EvConnect];
    DrainStep(env, s, [EvAck(answer), EvConnect], clock, 1);
    assert AckPosts(s.line.atOut[0].command, answer, true) == [EvAtEmpty];
    assert [EvAck(answer), EvConnect][1..] + [EvAtEmpty] == [EvConnect, EvAtEmpty];
    GoesOnLine(env, s.(line := s.line.(atOut := s.line.atOut[1..])), clock);
  }

  lemma GoesOnLine(env: Env, s: Fsm, clock: nat -> int)
    requires Proper(env) && s.call == NotOnCall && s.line.Command? && (s.line.task.Dial? || s.line.task == Answer)
    ensures Drain(env, s, [EvConnect, EvAtEmpty], clock, 2) == EnterOnCall(s, clock(2)).(line := Online)
  {
    var called := EnterOnCall(s, clock(2));
    ConnectReacts(env, s, clock(2));
    DrainStep(env, s, [EvConnect, EvAtEmpty], clock, 2);
    assert [EvConnect, EvAtEmpty][1..] + [EvOnline] == [EvAtEmpty, EvOnline];
    LineFollows(env, called, clock);
  }

  lemma ConnectReacts(env: Env, s: Fsm, now: int)
    requires Proper(env) && s.call == NotOnCall
    ensures Dispatch(env, s, EvConnect, now) == Reaction(EnterOnCall(s, now), [EvOnline])
  {
  }

  lemma LineFollows(env: Env, s: Fsm, clock: nat -> int)
    requires Proper(env) && s.line.Command? && (s.line.task.Dial? || s.line.task == Answer)
    ensures Drain(env, s, [EvAtEmpty, EvOnline], clock, 3) == s.(line := Online)
  {
    DrainStep(env, s, [EvAtEmpty, EvOnline], clock, 3);
    assert [EvAtEmpty, EvOnline][1..] + [] == [EvOnline];
    TakenOnLine(env, s, clock);
  }

  lemma TakenOnLine(env: Env, s: Fsm, clock: nat -> int)
    requires Proper(env) && s.line.Command? && s.line.task != Configure
    ensures Drain(env, s, [EvOnline], clock, 4) == s.(line := Online)
  {
    DrainStep(env, s, [EvOnline], clock, 4);
    assert [EvOnline][1..] + [] == [];
  }

  /** The driver picks up. */
  predicate PicksUp(s: Fsm)
  {
    && s.call == NotOnCall && s.line.Command? && s.line.task == Answer && s.line.sbd.task == SBDReady
    && Commands(s.line.atOut) == ["A"]
  }

  lemma RingIsAnswered(env: Env, s: Fsm, text: string, clock: nat -> int)
    requires Proper(env) && Idle(s) && Trim(text) == "RING"
    ensures PicksUp(ProcessEvent(env, s, EvRxSerial(text), clock))
  {
    AnswerDrains(env, s, text, clock);
    DrainStep(env, s, [EvRing], clock, 1);
    assert [EvRing][1..] + [] == [];
    var next := ProcessEvent(env, s, EvRxSerial(text), clock);
    assert next.line.atOut == [] + [AtSentence("A", 0, 0)];
    assert Commands(next.line.atOut) == ["A"];
  }

  /** A caller that gave up leaves the driver idle. */
  lemma CallerGone(env: Env, s: Fsm, text: string, clock: nat -> int)
    requires Proper(env) && PicksUp(s) && Trim(text) == "NO CARRIER"
    ensures Idle(ProcessEvent(env, s, EvRxSerial(text), clock))
  {
    OneCommand(s.line.atOut, "A");
    assert ("AT" + "A")[0] == 'A';
    AnswerDrains(env, s, text, clock);
    AckTakes(env, s, "NO CARRIER", [EvNoCarrier], clock, 1);
    assert [EvAck("NO CARRIER")] + [EvNoCarrier] == Answered("NO CARRIER");
    assert [EvNoCarrier] + AckPosts("A", "NO CARRIER", true) == [EvNoCarrier, EvAtEmpty];
    StopsAnswering(env, s.(line := s.line.(atOut := [])), clock);
  }

  lemma StopsAnswering(env: Env, s: Fsm, clock: nat -> int)
    requires Proper(env) && s.line.Command? && s.line.task == Answer
    ensures Drain(env, s, [EvNoCarrier, EvAtEmpty], clock, 2) == s.(line := s.line.(task := Ready))
  {
    DrainStep(env, s, [EvNoCarrier, EvAtEmpty], clock, 2);
    assert [EvNoCarrier, EvAtEmpty][1..] + [] == [EvAtEmpty];
    EmptyMeans(env, s.(line := s.line.(task := Ready)), clock, 3);
  }

  /** After a lost carrier, the modem's answer to the question why leaves the driver idle. */
  lemma ReasonGiven(env: Env, s: Fsm, text: string, clock: nat -> int)
    requires Proper(env) && s.call == NotOnCall && s.line == PushAt(EnterCommand(PostDisconnected), "+CEER")
    requires Trim(text) == "OK"
    ensures Idle(ProcessEvent(env, s, EvRxSerial(text), clock))
  {
    assert s.line.atOut == [AtSentence("+CEER", 0, 0)];
    CommandPopped(env, s, "+CEER", true, text, clock);
  }

  /** When the modem echoes the command in front, turning the echo off comes next. */
  lemma EchoTurnedOff(env: Env, s: Fsm, text: string, clock: nat -> int)
    requires Proper(env) && s.line.Command? && 0 < |s.line.atOut| < 100
    requires s.line.atOut[0].command != "+SBDRB" && s.line.atOut[0].command != "E"
    requires Trim(text) == "AT" + s.line.atOut[0].command
    ensures var next := ProcessEvent(env, s, EvRxSerial(text), clock);
            && next.line.Command? && next == s.(line := s.line.(atOut := next.line.atOut))
            && Commands(next.line.atOut) == [s.line.atOut[0].command, "E"] + Commands(s.line.atOut)[1..]
  {
    DrainStep(env, s, [EvRxSerial(text)], clock, 0);
    assert [EvRxSerial(text)][1..] + [] == [];
  }

  // ----- a data burst goes out

  function Total(data: Bytes): nat
  {
    if data == [] then 0 else Total(data[..|data| - 1]) + data[|data| - 1] as int
  }

  /** What the modem is to transmit: the data, and the sum of its bytes in two more. */
  predicate Checked(data: Bytes, sent: Bytes)
  {
    && |sent| == |data| + 2 && sent[..|data|] == data
    && sent[|data|] as int * 256 + sent[|data| + 1] as int == Total(data) % 65536
  }

  lemma {:induction false} SumsAgree(data: Bytes)
    ensures ByteSum(data) == Total(data)
  {
    if |data| == 1 {
      assert data[..0] == [] && data[1..] == [];
    } else if |data| > 1 {
      var middle, last := data[1..|data| - 1], data[|data| - 1];
      SumsAgree(data[1..]);
      SumsAgree(data[..|data| - 1]);
      SumsAgree(middle);
      assert data[1..][..|data| - 2] == middle && data[..|data| - 1][1..] == middle;
    }
  }

  lemma ChecksumMeans(data: Bytes)
    requires data != []
    ensures Checked(data, WithChecksum(data))
  {
    SumsAgree(data);
    var sum := ByteSum(data);
    assert sum / 256 % 256 * 256 + sum % 256 == sum % 65536 by {
      TwoBytes(sum);
    }
  }

  lemma TwoBytes(n: nat)
    ensures n / 256 % 256 * 256 + n % 256 == n % 65536
  {
    var q := n / 65536;
    assert n == q * 65536 + n % 65536;
    assert n / 256 == q * 256 + n % 65536 / 256;
  }

  /** The number that a string of decimal digits denotes. */
  function NumberOf(digits: string): int
  {
    if digits == "" then 0 else NumberOf(digits[..|digits| - 1]) * 10 + (digits[|digits| - 1] as int - '0' as int)
  }

  predicate AllDigits(text: string)
  {
    |text| > 0 && forall i :: 0 <= i < |text| ==> '0' <= text[i] <= '9'
  }

  lemma {:induction false} DecimalMeans(n: nat)
    ensures AllDigits(Decimal(n)) && NumberOf(Decimal(n)) == n
    decreases n
  {
    var text := Decimal(n);
    if n < 10 {
      assert text[..0] == "";
    } else {
      DecimalMeans(n / 10);
      assert text[..|text| - 1] == Decimal(n / 10);
    }
  }

  /** The modem's answers in a burst, one after the other, and where they leave the driver. */
  function Asked(p: nat, size: string, ring: bool): seq<string>
  {
    var transmit := if ring then "+SBDIXA" else "+SBDIX";
    if p == 0 then ["+SBDD2"]
    else if p == 1 then ["+SBDD2", "+SBDWB=" + size]
    else if p == 2 then ["+SBDWB=" + size]
    else if p == 3 then []
    else if p == 4 then ["AT", transmit]
    else if p == 5 || p == 6 then [transmit]
    else []
  }

  function TaskAt(p: nat): SbdTask
  {
    if p == 0 then SBDClearBuffers else if p <= 3 then SBDWrite else if p <= 5 then SBDTransmit else SBDReady
  }

  predicate IsNext(env: Env, p: nat, answer: string)
  {
    if p == 0 || p == 3 then answer == "0"
    else if p == 2 then answer == "READY"
    else if p == 5 then "+SBDI" <= answer && Nothing(env.sbdStatus(answer))
    else p <= 6 && answer == "OK"
  }

  /** The status says that no message is waiting, or that the transmission failed, or nothing at all. */
  predicate Nothing(status: Option<(int, int)>)
  {
    status.Some? ==> status.value.0 > 4 || status.value.1 != 1
  }

  /** After p answers. */
  predicate BurstAt(s: Fsm, sent: Bytes, ring: bool, size: string, p: nat)
  {
    && p <= 7 && s.call == NotOnCall && s.line.Command? && s.line.task == Ready
    && Commands(s.line.atOut) == Asked(p, size, ring)
    && s.line.sbd.task == TaskAt(p) && (p <= 5 ==> s.line.sbd.data == sent && s.line.sbd.ringAlert == ring)
  }

  lemma BurstBegun(env: Env, s: Fsm, data: Bytes, ring: bool, sent: Bytes, size: string, next: Fsm)
    requires Idle(s) && sent == WithChecksum(data)
    requires next == s.(line := PushAt(s.line.(sbd := Sbd(SBDClearBuffers, sent, ring), sbdRxBuffer := ""), "+SBDD2"))
    ensures SbdReact(env, s, EvSBDBeginData(data, ring)) == Reaction(next, []) && BurstAt(next, sent, ring, size, 0)
  {
    CommandsPushed(s.line, "+SBDD2");
    assert Commands(s.line.atOut) + ["+SBDD2"] == ["+SBDD2"];
  }

  lemma BurstBegins(env: Env, s: Fsm, data: Bytes, ring: bool, sent: Bytes, size: string, clock: nat -> int)
    requires Proper(env) && Idle(s) && sent == WithChecksum(data)
    ensures BurstAt(ProcessEvent(env, s, EvSBDBeginData(data, ring), clock), sent, ring, size, 0)
  {
    var next := s.(line := PushAt(s.line.(sbd := Sbd(SBDClearBuffers, sent, ring), sbdRxBuffer := ""), "+SBDD2"));
    BurstBegun(env, s, data, ring, sent, size, next);
    SbdDrains(env, s, EvSBDBeginData(data, ring), next, clock, 0);
  }

  lemma FrontCommand(atOut: seq<AtSentence>, commands: seq<string>)
    requires Commands(atOut) == commands && |commands| > 0
    ensures |atOut| == |commands| && atOut[0].command == commands[0] && Commands(atOut[1..]) == commands[1..]
  {
    assert Commands(atOut)[0] == atOut[0].command;
  }

  /** A number is an acknowledgment that takes nothing off the queue. */
  lemma NumberAnswered(env: Env, s: Fsm, text: string, posted: Event, next: Fsm, clock: nat -> int)
    requires Proper(env) && s.line.Command? && Trim(text) == "0" && CommandAck(s, "0") == Reaction(next, [posted])
    requires s.line.atOut != [] ==> s.line.atOut[0].command != "+SBDRB"
    ensures ProcessEvent(env, s, EvRxSerial(text), clock) == Drain(env, next, [posted], clock, 2)
  {
    NotAnEcho(s, "0");
    AnswerDrains(env, s, text, clock);
    DrainStep(env, s, [EvAck("0")], clock, 1);
    assert [EvAck("0")][1..] + [posted] == [posted];
  }

  /** The buffers of the modem are clear: the data may be written. */
  lemma BufferCleared(env: Env, s: Fsm, sent: Bytes, ring: bool, size: string, text: string, clock: nat -> int)
    requires Proper(env) && |sent| > 2 && size == Decimal(|sent| - 2) && Trim(text) == "0"
    requires BurstAt(s, sent, ring, size, 0)
    ensures BurstAt(ProcessEvent(env, s, EvRxSerial(text), clock), sent, ring, size, 1)
    ensures ProcessEvent(env, s, EvRxSerial(text), clock).serialTx == s.serialTx
  {
    FrontCommand(s.line.atOut, ["+SBDD2"]);
    NumberAnswered(env, s, text, EvSBDSendBufferCleared, s, clock);
    WriteBegins(env, s, sent, ring, size, clock);
  }

  lemma WriteBegins(env: Env, s: Fsm, sent: Bytes, ring: bool, size: string, clock: nat -> int)
    requires Proper(env) && |sent| > 2 && size == Decimal(|sent| - 2)
    requires BurstAt(s, sent, ring, size, 0)
    ensures var next := Drain(env, s, [EvSBDSendBufferCleared], clock, 2);
            BurstAt(next, sent, ring, size, 1) && next.serialTx == s.serialTx
  {
    var line := s.line.(sbd := s.line.sbd.(task := SBDWrite));
    var next := s.(line := PushAt(line, "+SBDWB=" + size));
    WriteAsked(env, s, sent, next);
    SbdDrains(env, s, EvSBDSendBufferCleared, next, clock, 2);
    assert |s.line.atOut| == |Commands(s.line.atOut)|;
    CommandsPushed(line, "+SBDWB=" + size);
    assert ["+SBDD2"] + ["+SBDWB=" + size] == ["+SBDD2", "+SBDWB=" + size];
  }

  lemma WriteAsked(env: Env, s: Fsm, sent: Bytes, next: Fsm)
    requires s.line.Command? && s.line.sbd.task == SBDClearBuffers && s.line.sbd.data == sent && |sent| > 2
    requires next == s.(line := PushAt(s.line.(sbd := s.line.sbd.(task := SBDWrite)), "+SBDWB=" + Decimal(|sent| - 2)))
    ensures SbdReact(env, s, EvSBDSendBufferCleared) == Reaction(next, [])
  {
  }

  /** An "OK" takes a command off the queue that is not the last, or that leaves nothing to do. */
  lemma BurstAcknowledged(env: Env, s: Fsm, sent: Bytes, ring: bool, size: string, p: nat, text: string, clock: nat -> int)
    requires Proper(env) && BurstAt(s, sent, ring, size, p) && (p == 1 || p == 4 || p == 6) && Trim(text) == "OK"
    ensures BurstAt(ProcessEvent(env, s, EvRxSerial(text), clock), sent, ring, size, p + 1)
    ensures ProcessEvent(env, s, EvRxSerial(text), clock).serialTx == s.serialTx
  {
    FrontCommand(s.line.atOut, Asked(p, size, ring));
    CommandPopped(env, s, s.line.atOut[0].command, p == 6, text, clock);
  }

  /** An "OK" to a command that neither dials nor hangs up. */
  lemma CommandPopped(env: Env, s: Fsm, front: string, last: bool, text: string, clock: nat -> int)
    requires Proper(env) && s.line.Command? && s.line.task != Configure && Trim(text) == "OK"
    requires |s.line.atOut| > 0 && s.line.atOut[0].command == front && (last <==> |s.line.atOut| == 1)
    requires |front| > 0 && front[0] != 'H' && front[0] != 'D' && front != "+SBDRB"
    ensures var popped := s.(line := s.line.(atOut := s.line.atOut[1..]));
            ProcessEvent(env, s, EvRxSerial(text), clock)
            == if last && (s.line.task == HangingUp || s.line.task == PostDisconnected)
               then popped.(line := popped.line.(task := Ready)) else popped
  {
    NotAnEcho(s, "OK");
    AnswerDrains(env, s, text, clock);
    AckTakes(env, s, "OK", [], clock, 1);
    assert [EvAck("OK")] + [] == Answered("OK");
    assert [] + AckPosts(front, "OK", last) == When(last, EvAtEmpty);
    if last {
      EmptyMeans(env, s.(line := s.line.(atOut := s.line.atOut[1..])), clock, 2);
    }
  }

  /** The modem is ready for the data, which go out as one packet. */
  lemma DataWritten(env: Env, s: Fsm, sent: Bytes, ring: bool, size: string, text: string, clock: nat -> int)
    requires Proper(env) && BurstAt(s, sent, ring, size, 2) && Trim(text) == "READY" && |s.serialTx| < 10
    ensures BurstAt(ProcessEvent(env, s, EvRxSerial(text), clock), sent, ring, size, 3)
    ensures ProcessEvent(env, s, EvRxSerial(text), clock).serialTx == s.serialTx + [Packet(sent)]
  {
    FrontCommand(s.line.atOut, ["+SBDWB=" + size]);
    NotAnEcho(s, "READY");
    AnswerDrains(env, s, text, clock);
    AckTakes(env, s, "READY", [], clock, 1);
    assert [EvAck("READY")] + [] == Answered("READY");
    assert [] + AckPosts("+SBDWB=" + size, "READY", true) == [EvSBDWriteReady, EvAtEmpty];
    DataGoOut(env, s.(line := s.line.(atOut := s.line.atOut[1..])), sent, clock);
  }

  lemma DataGoOut(env: Env, s: Fsm, sent: Bytes, clock: nat -> int)
    requires Proper(env) && s.line.Command? && s.line.task == Ready && s.line.sbd.task == SBDWrite
    requires s.line.sbd.data == sent && |s.serialTx| < 10
    ensures Drain(env, s, [EvSBDWriteReady, EvAtEmpty], clock, 2) == s.(serialTx := s.serialTx + [Packet(sent)])
  {
    var next := s.(serialTx := s.serialTx + [Packet(sent)]);
    WriteReady(env, s, sent, next);
    DrainStep(env, s, [EvSBDWriteReady, EvAtEmpty], clock, 2);
    assert [EvSBDWriteReady, EvAtEmpty][1..] + [] == [EvAtEmpty];
    EmptyMeans(env, next, clock, 3);
  }

  lemma WriteReady(env: Env, s: Fsm, sent: Bytes, next: Fsm)
    requires s.line.Command? && s.line.sbd.task == SBDWrite && s.line.sbd.data == sent && |s.serialTx| < 10
    requires next == s.(serialTx := s.serialTx + [Packet(sent)])
    ensures SbdReact(env, s, EvSBDWriteReady) == Reaction(next, [])
  {
  }

  /** The data are complete: they may be transmitted. */
  lemma DataComplete(env: Env, s: Fsm, sent: Bytes, ring: bool, size: string, text: string, clock: nat -> int)
    requires Proper(env) && BurstAt(s, sent, ring, size, 3) && Trim(text) == "0"
    ensures BurstAt(ProcessEvent(env, s, EvRxSerial(text), clock), sent, ring, size, 4)
    ensures ProcessEvent(env, s, EvRxSerial(text), clock).serialTx == s.serialTx
  {
    assert |s.line.atOut| == |Commands(s.line.atOut)| == 0;
    var transmit := if ring then "+SBDIXA" else "+SBDIX";
    var pushed := s.(line := PushAt(s.line, "AT"));
    NumberAnswered(env, s, text, EvSBDWriteComplete, pushed, clock);
    var line := pushed.line.(sbd := s.line.sbd.(task := SBDTransmit));
    var next := s.(line := PushAt(line, transmit));
    assert SbdReact(env, pushed, EvSBDWriteComplete) == Reaction(next, []);
    SbdDrains(env, pushed, EvSBDWriteComplete, next, clock, 2);
    CommandsPushed(s.line, "AT");
    CommandsPushed(line, transmit);
    assert [] + ["AT"] + [transmit] == ["AT", transmit];
  }

  /** The modem has transmitted, or failed to. */
  lemma DataTransmitted(env: Env, s: Fsm, sent: Bytes, ring: bool, size: string, text: string, clock: nat -> int)
    requires Proper(env) && BurstAt(s, sent, ring, size, 5) && IsNext(env, 5, Trim(text))
    ensures BurstAt(ProcessEvent(env, s, EvRxSerial(text), clock), sent, ring, size, 6)
    ensures ProcessEvent(env, s, EvRxSerial(text), clock).serialTx == s.serialTx
  {
    var answer := Trim(text);
    FrontCommand(s.line.atOut, Asked(5, size, ring));
    assert answer[0] == '+' && answer[1] == 'S';
    NotAnEcho(s, answer);
    AnswerDrains(env, s, text, clock);
    assert Answered(answer) == [EvSBDTransmitComplete(answer)];
    var next := s.(line := s.line.(sbd := s.line.sbd.(task := SBDReady, data := [])));
    TransmitEnds(env, s, answer, next);
    SbdDrains(env, s, EvSBDTransmitComplete(answer), next, clock, 1);
    BurstTransmitted(s, next, sent, ring, size);
  }

  lemma BurstTransmitted(s: Fsm, next: Fsm, sent: Bytes, ring: bool, size: string)
    requires BurstAt(s, sent, ring, size, 5)
    requires next == s.(line := s.line.(sbd := s.line.sbd.(task := SBDReady, data := [])))
    ensures BurstAt(next, sent, ring, size, 6)
  {
  }

  lemma TransmitEnds(env: Env, s: Fsm, answer: string, next: Fsm)
    requires s.line.Command? && s.line.sbd.task == SBDTransmit && Nothing(env.sbdStatus(answer))
    requires next == s.(line := s.line.(sbd := s.line.sbd.(task := SBDReady, data := [])))
    ensures SbdReact(env, s, EvSBDTransmitComplete(answer)) == Reaction(next, [])
  {
  }

  /** The modem's next answer, a tick that does not use up the retries, or a move of the driver. */
  predicate Fits(env: Env, s: Fsm, first: Stimulus, p: nat)
  {
    first.Occur? ==>
      && |s.serialTx| < 10
      && if first.event.EvRxSerial? then IsNext(env, p, Trim(first.event.line))
         else first.event.EvTxSerial? && Spared(s, first.clock(0))
  }

  /** How far one stimulus takes the burst. */
  function Further(p: nat, stimulus: Stimulus): nat
  {
    if stimulus.Occur? && stimulus.event.EvRxSerial? then p + 1 else p
  }

  predicate Answering(env: Env, s: Fsm, stimuli: seq<Stimulus>, p: nat)
    requires Proper(env)
    decreases |stimuli|
  {
    stimuli == [] ||
    (Fits(env, s, stimuli[0], p) && Answering(env, After(env, s, stimuli[0]), stimuli[1..], Further(p, stimuli[0])))
  }

  function LinesIn(stimuli: seq<Stimulus>): nat
  {
    if stimuli == [] then 0
    else LinesIn(stimuli[1..]) + if stimuli[0].Occur? && stimuli[0].event.EvRxSerial? then 1 else 0
  }

  lemma BurstStep(env: Env, s: Fsm, sent: Bytes, ring: bool, size: string, p: nat, text: string, clock: nat -> int)
    requires Proper(env) && |sent| > 2 && size == Decimal(|sent| - 2)
    requires BurstAt(s, sent, ring, size, p) && IsNext(env, p, Trim(text)) && |s.serialTx| < 10
    ensures p < 7 && BurstAt(ProcessEvent(env, s, EvRxSerial(text), clock), sent, ring, size, p + 1)
    ensures Packets(ProcessEvent(env, s, EvRxSerial(text), clock).serialTx) == Packets(s.serialTx) + CalledBetween(p, p + 1, sent)
  {
    assert Packets(s.serialTx) + [] == Packets(s.serialTx);
    if p == 0 {
      BufferCleared(env, s, sent, ring, size, text, clock);
    } else if p == 2 {
      DataWritten(env, s, sent, ring, size, text, clock);
      PacketsAppend(s.serialTx, [Packet(sent)]);
      OnePacket(sent);
    } else if p == 3 {
      DataComplete(env, s, sent, ring, size, text, clock);
    } else if p == 5 {
      DataTransmitted(env, s, sent, ring, size, text, clock);
    } else {
      BurstAcknowledged(env, s, sent, ring, size, p, text, clock);
    }
  }

  lemma BurstTick(env: Env, s: Fsm, sent: Bytes, ring: bool, size: string, p: nat, clock: nat -> int)
    requires Proper(env) && BurstAt(s, sent, ring, size, p) && Spared(s, clock(0)) && |s.serialTx| < 10
    ensures var next := ProcessEvent(env, s, EvTxSerial, clock);
            BurstAt(next, sent, ring, size, p) && Packets(next.serialTx) == Packets(s.serialTx)
  {
    if s.line.atOut != [] {
      assert Commands(s.line.atOut)[0] == s.line.atOut[0].command;
      NoneReads(p, size, ring);
    }
    SparedTick(env, s, clock);
    TickKeepsCommands(s, ProcessEvent(env, s, EvTxSerial, clock), clock(0));
  }

  lemma NoneReads(p: nat, size: string, ring: bool)
    ensures forall i :: 0 <= i < |Asked(p, size, ring)| ==> Asked(p, size, ring)[i] != "+SBDRB"
  {
    assert ("+SBDWB=" + size)[4] == 'W' && "+SBDRB"[4] == 'R' && "+SBDD2"[4] == 'D' && "+SBDIX"[4] == 'I';
  }

  /** The packet, if the third answer came in between. */
  function CalledBetween(p: nat, q: nat, sent: Bytes): seq<Bytes>
  {
    if p <= 2 < q then [sent] else []
  }

  lemma CalledAdds(p: nat, q: nat, r: nat, sent: Bytes)
    requires p <= q <= r
    ensures CalledBetween(p, q, sent) + CalledBetween(q, r, sent) == CalledBetween(p, r, sent)
  {
  }

  lemma RunUnfolds(env: Env, s: Fsm, stimuli: seq<Stimulus>, p: nat)
    requires Proper(env) && |stimuli| > 0
    ensures var first, rest := stimuli[0], stimuli[1..];
            && Run(env, s, stimuli) == Run(env, After(env, s, first), rest)
            && Wire(env, s, stimuli) == WrittenBy(s, first) + Wire(env, After(env, s, first), rest)
            && p + LinesIn(stimuli) == Further(p, first) + LinesIn(rest)
  {
  }

  /** The state and the packets after a run that began after p answers and had q in all. */
  predicate BurstReached(env: Env, s: Fsm, wire: seq<Output>, r: Fsm, sent: Bytes, ring: bool, size: string, p: nat, q: nat)
  {
    BurstAt(r, sent, ring, size, q) && Packets(wire + r.serialTx) == Packets(s.serialTx) + CalledBetween(p, q, sent)
  }

  lemma BurstMoves(env: Env, s: Fsm, sent: Bytes, ring: bool, size: string, p: nat, first: Stimulus)
    requires BurstAt(s, sent, ring, size, p) && !first.Occur?
    ensures BurstAt(Move(s, first), sent, ring, size, p)
    ensures Packets(WrittenBy(s, first) + Move(s, first).serialTx) == Packets(s.serialTx)
  {
    assert WrittenBy(s, first) + Move(s, first).serialTx == s.serialTx;
  }

  lemma BurstStimulus(env: Env, s: Fsm, sent: Bytes, ring: bool, size: string, p: nat, first: Stimulus)
    requires Proper(env) && |sent| > 2 && size == Decimal(|sent| - 2)
    requires BurstAt(s, sent, ring, size, p) && Fits(env, s, first, p)
    ensures BurstAt(After(env, s, first), sent, ring, size, Further(p, first))
    ensures BurstReached(env, s, WrittenBy(s, first), After(env, s, first), sent, ring, size, p, Further(p, first))
  {
    assert Packets(s.serialTx) + [] == Packets(s.serialTx);
    if !first.Occur? {
      BurstMoves(env, s, sent, ring, size, p, first);
    } else {
      var next := After(env, s, first);
      assert [] + next.serialTx == next.serialTx;
      if first.event.EvRxSerial? {
        BurstStep(env, s, sent, ring, size, p, first.event.line, first.clock);
      } else {
        BurstTick(env, s, sent, ring, size, p, first.clock);
      }
    }
  }

  /** What is put on the wire adds up. */
  lemma WireAdds(written: seq<Output>, next: seq<Output>, wire: seq<Output>, last: seq<Output>,
                 before: seq<Bytes>, x: seq<Bytes>, y: seq<Bytes>)
    requires Packets(written + next) == before + x && Packets(wire + last) == Packets(next) + y
    ensures Packets((written + wire) + last) == before + (x + y)
  {
    PacketsAppend(written, wire + last);
    PacketsAppend(written, next);
    assert (written + wire) + last == written + (wire + last);
    Grouped(Packets(written), Packets(next), before, x, y);
  }

  lemma BurstStands(env: Env, s: Fsm, sent: Bytes, ring: bool, size: string, p: nat)
    requires BurstAt(s, sent, ring, size, p)
    ensures BurstReached(env, s, [], s, sent, ring, size, p, p)
  {
    assert [] + s.serialTx == s.serialTx && Packets(s.serialTx) + [] == Packets(s.serialTx);
  }

  lemma AnsweringNext(env: Env, s: Fsm, stimuli: seq<Stimulus>, p: nat)
    requires Proper(env) && |stimuli| > 0 && Answering(env, s, stimuli, p)
    ensures Fits(env, s, stimuli[0], p)
    ensures Answering(env, After(env, s, stimuli[0]), stimuli[1..], Further(p, stimuli[0]))
  {
  }

  /** The run goes on from where one stimulus left it. */
  lemma BurstMore(env: Env, s: Fsm, stimuli: seq<Stimulus>, sent: Bytes, ring: bool, size: string, p: nat)
    requires Proper(env) && |stimuli| > 0
    requires var next, q, rest := After(env, s, stimuli[0]), Further(p, stimuli[0]), stimuli[1..];
             && BurstReached(env, s, WrittenBy(s, stimuli[0]), next, sent, ring, size, p, q)
             && BurstReached(env, next, Wire(env, next, rest), Run(env, next, rest), sent, ring, size, q, q + LinesIn(rest))
    ensures BurstReached(env, s, Wire(env, s, stimuli), Run(env, s, stimuli), sent, ring, size, p, p + LinesIn(stimuli))
  {
    var next, q, rest := After(env, s, stimuli[0]), Further(p, stimuli[0]), stimuli[1..];
    RunUnfolds(env, s, stimuli, p);
    BurstJoins(env, s, WrittenBy(s, stimuli[0]), next, Wire(env, next, rest), Run(env, next, rest), sent, ring, size,
               p, q, q + LinesIn(rest));
  }

  lemma {:induction false} BurstRun(env: Env, s: Fsm, sent: Bytes, ring: bool, size: string, p: nat, stimuli: seq<Stimulus>)
    requires Proper(env) && |sent| > 2 && size == Decimal(|sent| - 2)
    requires BurstAt(s, sent, ring, size, p) && Answering(env, s, stimuli, p)
    ensures BurstReached(env, s, Wire(env, s, stimuli), Run(env, s, stimuli), sent, ring, size, p, p + LinesIn(stimuli))
    decreases |stimuli|
  {
    if |stimuli| == 0 {
      BurstStands(env, s, sent, ring, size, p);
    } else {
      AnsweringNext(env, s, stimuli, p);
      BurstStimulus(env, s, sent, ring, size, p, stimuli[0]);
      BurstRun(env, After(env, s, stimuli[0]), sent, ring, size, Further(p, stimuli[0]), stimuli[1..]);
      BurstMore(env, s, stimuli, sent, ring, size, p);
    }
  }

  lemma BurstJoins(env: Env, s: Fsm, written: seq<Output>, next: Fsm, wire: seq<Output>, last: Fsm,
                   sent: Bytes, ring: bool, size: string, p: nat, q: nat, r: nat)
    requires p <= q <= r && BurstReached(env, next, wire, last, sent, ring, size, q, r)
    requires BurstReached(env, s, written, next, sent, ring, size, p, q)
    ensures BurstReached(env, s, written + wire, last, sent, ring, size, p, r)
  {
    WireAdds(written, next.serialTx, wire, last.serialTx, Packets(s.serialTx),
             CalledBetween(p, q, sent), CalledBetween(q, r, sent));
    CalledAdds(p, q, r, sent);
  }

  /** A data burst: however ticks come between the modem's answers, the driver announces the size of the data,
      writes the data with their checksum exactly once, when the modem is ready for them, has them
      transmitted, and is idle again after the last answer. */
  lemma BurstGoesOut(env: Env, s: Fsm, data: Bytes, ring: bool, clock: nat -> int, stimuli: seq<Stimulus>)
    returns (sent: Bytes, size: string)
    requires Proper(env) && Idle(s) && data != []
    requires Answering(env, ProcessEvent(env, s, EvSBDBeginData(data, ring), clock), stimuli, 0)
    ensures Checked(data, sent) && AllDigits(size) && NumberOf(size) == |data|
    ensures var begun := ProcessEvent(env, s, EvSBDBeginData(data, ring), clock);
            var n, r := LinesIn(stimuli), Run(env, begun, stimuli);
            && n <= 7 && BurstAt(r, sent, ring, size, n) && (n == 7 ==> Idle(r))
            && Packets(Wire(env, begun, stimuli) + r.serialTx) == Packets(s.serialTx) + if n > 2 then [sent] else []
  {
    sent, size := WithChecksum(data), Decimal(|data|);
    ChecksumMeans(data);
    DecimalMeans(|data|);
    BurstBegins(env, s, data, ring, sent, size, clock);
    BurstRun(env, ProcessEvent(env, s, EvSBDBeginData(data, ring), clock), sent, ring, size, 0, stimuli);
    BurstBeginsSilently(env, s, data, ring, clock);
    var r := Run(env, ProcessEvent(env, s, EvSBDBeginData(data, ring), clock), stimuli);
    assert |r.line.atOut| == |Commands(r.line.atOut)|;
  }

  lemma BurstBeginsSilently(env: Env, s: Fsm, data: Bytes, ring: bool, clock: nat -> int)
    requires Proper(env) && Idle(s)
    ensures ProcessEvent(env, s, EvSBDBeginData(data, ring), clock).serialTx == s.serialTx
  {
    var next := s.(line := PushAt(s.line.(sbd := Sbd(SBDClearBuffers, WithChecksum(data), ring), sbdRxBuffer := ""), "+SBDD2"));
    BurstBegun(env, s, data, ring, WithChecksum(data), "", next);
    SbdDrains(env, s, EvSBDBeginData(data, ring), next, clock, 0);
  }

  // ----- a data burst comes in

  /** An alert of the modem begins a burst without data. */
  lemma RingAlerted(env: Env, s: Fsm, text: string, size: string, clock: nat -> int)
    requires Proper(env) && Idle(s) && Trim(text) == "SBDRING"
    ensures BurstAt(ProcessEvent(env, s, EvRxSerial(text), clock), [], true, size, 0)
  {
    AnswerDrains(env, s, text, clock);
    var next := s.(line := PushAt(s.line.(sbd := Sbd(SBDClearBuffers, [], true), sbdRxBuffer := ""), "+SBDD2"));
    BurstBegun(env, s, [], true, [], size, next);
    AlertMeans(Trim(text));
    SbdDrains(env, s, EvSBDBeginData([], true), next, clock, 1);
  }

  lemma AlertMeans(answer: string)
    requires answer == "SBDRING"
    ensures Answered(answer) == [EvSBDBeginData([], true)]
  {
    assert answer[0] == 'S' && |answer| == 7;
  }

  /** Without data the driver goes straight on to the transmission, which checks the mailbox. */
  lemma MailboxChecked(env: Env, s: Fsm, ring: bool, size: string, text: string, clock: nat -> int)
    requires Proper(env) && BurstAt(s, [], ring, size, 0) && Trim(text) == "0"
    ensures var next := ProcessEvent(env, s, EvRxSerial(text), clock);
            && next.line.Command? && next.line.sbd.task == SBDTransmit && next.serialTx == s.serialTx
            && Commands(next.line.atOut) == ["+SBDD2", if ring then "+SBDIXA" else "+SBDIX"]
  {
    FrontCommand(s.line.atOut, ["+SBDD2"]);
    NumberAnswered(env, s, text, EvSBDSendBufferCleared, s, clock);
    NothingToWrite(env, s, clock);
    MailboxAsked(env, s.(line := s.line.(sbd := s.line.sbd.(task := SBDWrite))), ring, clock);
  }

  lemma NothingToWrite(env: Env, s: Fsm, clock: nat -> int)
    requires Proper(env) && s.line.Command? && s.line.sbd.task == SBDClearBuffers && s.line.sbd.data == []
    ensures Drain(env, s, [EvSBDSendBufferCleared], clock, 2)
            == Drain(env, s.(line := s.line.(sbd := s.line.sbd.(task := SBDWrite))), [EvSBDWriteComplete], clock, 3)
  {
    DrainStep(env, s, [EvSBDSendBufferCleared], clock, 2);
    assert [EvSBDSendBufferCleared][1..] + [EvSBDWriteComplete] == [EvSBDWriteComplete];
  }

  lemma MailboxAsked(env: Env, s: Fsm, ring: bool, clock: nat -> int)
    requires Proper(env) && s.line.Command? && s.line.sbd.task == SBDWrite && s.line.sbd.ringAlert == ring
    requires Commands(s.line.atOut) == ["+SBDD2"]
    ensures var next := Drain(env, s, [EvSBDWriteComplete], clock, 3);
            && next.line.Command? && next.line.sbd.task == SBDTransmit && next.serialTx == s.serialTx
            && Commands(next.line.atOut) == ["+SBDD2", if ring then "+SBDIXA" else "+SBDIX"]
  {
    var transmit := if ring then "+SBDIXA" else "+SBDIX";
    var line := s.line.(sbd := s.line.sbd.(task := SBDTransmit));
    assert SbdReact(env, s, EvSBDWriteComplete) == Reaction(s.(line := PushAt(line, transmit)), []);
    SbdDrains(env, s, EvSBDWriteComplete, s.(line := PushAt(line, transmit)), clock, 3);
    assert |s.line.atOut| == |Commands(s.line.atOut)|;
    CommandsPushed(line, transmit);
    assert ["+SBDD2"] + [transmit] == ["+SBDD2", transmit];
  }

  /** When a transmission succeeded and brought a message, the driver asks for it. */
  lemma MessageWaits(env: Env, s: Fsm, transmit: string, text: string, clock: nat -> int)
    requires Proper(env) && s.line.Command? && s.line.sbd.task == SBDTransmit && Commands(s.line.atOut) == [transmit]
    requires "+SBDI" <= Trim(text) && transmit != "+SBDRB"
    requires env.sbdStatus(Trim(text)).Some? && env.sbdStatus(Trim(text)).value.0 <= 4 && env.sbdStatus(Trim(text)).value.1 == 1
    ensures var next := ProcessEvent(env, s, EvRxSerial(text), clock);
            && next.line.Command? && next.line.sbd.task == SBDReceive && Commands(next.line.atOut) == [transmit, "+SBDRB"]
            && next == s.(line := next.line) && next.line.task == s.line.task && next.line.sbdRxBuffer == s.line.sbdRxBuffer
  {
    var answer := Trim(text);
    OneCommand(s.line.atOut, transmit);
    assert answer[0] == '+' && answer[1] == 'S';
    NotAnEcho(s, answer);
    AnswerDrains(env, s, text, clock);
    assert Answered(answer) == [EvSBDTransmitComplete(answer)];
    var left := s.line.(sbd := s.line.sbd.(task := SBDReceive, data := []));
    var next := s.(line := PushAt(left, "+SBDRB"));
    TransmitBrings(env, s, answer, next);
    SbdDrains(env, s, EvSBDTransmitComplete(answer), next, clock, 1);
    CommandsPushed(left, "+SBDRB");
    assert [transmit] + ["+SBDRB"] == [transmit, "+SBDRB"];
  }

  lemma TransmitBrings(env: Env, s: Fsm, answer: string, next: Fsm)
    requires s.line.Command? && s.line.sbd.task == SBDTransmit
    requires env.sbdStatus(answer).Some? && env.sbdStatus(answer).value.0 <= 4 && env.sbdStatus(answer).value.1 == 1
    requires next == s.(line := PushAt(s.line.(sbd := s.line.sbd.(task := SBDReceive, data := [])), "+SBDRB"))
    ensures SbdReact(env, s, EvSBDTransmitComplete(answer)) == Reaction(next, [])
  {
  }

  /** And once the transmission is acknowledged, it reads. */
  lemma ReadingBegins(env: Env, s: Fsm, transmit: string, text: string, clock: nat -> int)
    requires Proper(env) && s.call == NotOnCall && s.line.Command? && s.line.task == Ready && s.line.sbd.task == SBDReceive
    requires Commands(s.line.atOut) == [transmit, "+SBDRB"] && Trim(text) == "OK"
    requires transmit == "+SBDIX" || transmit == "+SBDIXA"
    ensures Reads(ProcessEvent(env, s, EvRxSerial(text), clock), s.line.sbdRxBuffer)
  {
    FrontCommand(s.line.atOut, [transmit, "+SBDRB"]);
    CommandPopped(env, s, transmit, false, text, clock);
  }

  /** The driver reads a burst and has read this much. */
  predicate Reads(s: Fsm, buffer: string)
  {
    && s.call == NotOnCall && s.line.Command? && s.line.task == Ready && s.line.sbd.task == SBDReceive
    && Commands(s.line.atOut) == ["+SBDRB"] && s.line.sbdRxBuffer == buffer
  }

  /** The size in the first two characters, and that many more. */
  predicate Complete(buffer: string)
  {
    |buffer| >= 2 && |buffer| >= 2 + (buffer[0] as int % 256) * 256 + buffer[1] as int % 256
  }

  /** The message of a complete burst, if its last four bytes are its checksum. */
  ghost predicate BurstSays(env: Env, buffer: string, message: Bytes)
    requires Complete(buffer)
  {
    var size := (buffer[0] as int % 256) * 256 + buffer[1] as int % 256;
    exists field :: NetworkOrder(field, env.crc(message)) && Octets(buffer[2..2 + size]) == message + field
  }

  /** What is read when a piece arrives: a line feed left over from the command before is dropped. */
  function Joined(buffer: string, piece: string): string
  {
    if |buffer| == 0 && |piece| > 0 && piece[0] == '\n' then piece[1..] else buffer + piece
  }

  /** The burst is over: the message is received, if the checksum is right. */
  ghost predicate BurstOver(env: Env, s: Fsm, next: Fsm, all: string)
    requires Complete(all)
  {
    && next.line.Command? && next.line.task == Ready && next.line.sbd.task == SBDReady
    && Commands(next.line.atOut) == [""] && next.call == NotOnCall && next.serialTx == s.serialTx
    && (forall message :: BurstSays(env, all, message) ==>
          next.received == (if |s.received| < 10 then s.received else s.received[1..]) + [message])
    && ((forall message :: !BurstSays(env, all, message)) ==> next.received == s.received)
  }

  /** A piece that does not complete the burst is kept; one that does ends it. */
  lemma PieceArrives(env: Env, s: Fsm, buffer: string, piece: string, clock: nat -> int)
    requires Proper(env) && Reads(s, buffer)
    ensures var next, all := ProcessEvent(env, s, EvRxSerial(piece), clock), Joined(buffer, piece);
            if !Complete(all) then Reads(next, all) && next == s.(line := next.line) else BurstOver(env, s, next, all)
  {
    OneCommand(s.line.atOut, "+SBDRB");
    var all := Joined(buffer, piece);
    DrainStep(env, s, [EvRxSerial(piece)], clock, 0);
    if !Complete(all) {
      PieceKept(env, s, buffer, piece, all);
      assert [EvRxSerial(piece)][1..] + [] == [];
    } else {
      var r := SbdRx(env, s, piece).fsm;
      PieceCompletes(env, s, buffer, piece, all);
      assert [EvRxSerial(piece)][1..] + [EvSBDReceiveComplete] == [EvSBDReceiveComplete];
      var next := r.(line := r.line.(sbd := r.line.sbd.(task := SBDReady)));
      ReceiveEnds(env, r, next);
      SbdDrains(env, r, EvSBDReceiveComplete, next, clock, 1);
    }
  }

  lemma PieceKept(env: Env, s: Fsm, buffer: string, piece: string, all: string)
    requires Reads(s, buffer) && |s.line.atOut| == 1 && all == Joined(buffer, piece) && !Complete(all)
    ensures SbdRx(env, s, piece) == Reaction(s.(line := s.line.(sbdRxBuffer := all)), [])
  {
    assert |buffer| == 0 ==> buffer + piece == piece;
  }

  lemma PieceCompletes(env: Env, s: Fsm, buffer: string, piece: string, all: string)
    requires Reads(s, buffer) && |s.line.atOut| == 1 && all == Joined(buffer, piece) && Complete(all)
    ensures var r := SbdRx(env, s, piece);
            && r.posts == [EvSBDReceiveComplete] && r.fsm.line.Command? && r.fsm.line.task == Ready
            && r.fsm.line.sbd.task == SBDReceive && Commands(r.fsm.line.atOut) == [""]
            && r.fsm.call == NotOnCall && r.fsm.serialTx == s.serialTx
            && (forall message :: BurstSays(env, all, message) ==>
                  r.fsm.received == (if |s.received| < 10 then s.received else s.received[1..]) + [message])
            && ((forall message :: !BurstSays(env, all, message)) ==> r.fsm.received == s.received)
  {
    BurstChecked(env, all);
    var left := s.line.(sbdRxBuffer := all, atOut := s.line.atOut[1..]);
    CommandsPushed(left, "");
    assert Commands(left.atOut) + [""] == [""];
  }

  lemma ReceiveEnds(env: Env, s: Fsm, next: Fsm)
    requires s.line.Command? && s.line.sbd.task == SBDReceive
    requires next == s.(line := s.line.(sbd := s.line.sbd.(task := SBDReady)))
    ensures SbdReact(env, s, EvSBDReceiveComplete) == Reaction(next, [])
  {
  }

  lemma BurstChecked(env: Env, buffer: string)
    requires Complete(buffer)
    ensures var bytes := Octets(buffer);
            var checked := CheckCrc(bytes[2..2 + SbdSize(bytes)], env.crc);
            forall message :: BurstSays(env, buffer, message) <==> checked == Parsed(message)
  {
    var bytes := Octets(buffer);
    var body := bytes[2..2 + SbdSize(bytes)];
    assert body == Octets(buffer[2..2 + SbdSize(bytes)]);
    forall message ensures BurstSays(env, buffer, message) <==> CheckCrc(body, env.crc) == Parsed(message) {
      if BurstSays(env, buffer, message) {
        var field :| NetworkOrder(field, env.crc(message)) && body == message + field;
        assert body[..|body| - 4] == message && body[|body| - 4..] == field;
      }
      if CheckCrc(body, env.crc) == Parsed(message) {
        var field := body[|body| - 4..];
        assert body == message + field && NetworkOrder(field, env.crc(message));
      }
    }
  }

  /** A tick while a burst is read loses what was read so far. */
  lemma TickForgets(env: Env, s: Fsm, buffer: string, clock: nat -> int)
    requires Proper(env) && Reads(s, buffer) && Spared(s, clock(0))
    ensures Reads(ProcessEvent(env, s, EvTxSerial, clock), "")
  {
    OneCommand(s.line.atOut, "+SBDRB");
    DrainStep(env, s, [EvTxSerial], clock, 0);
    assert [EvTxSerial][1..] + [] == [];
    var next := ProcessEvent(env, s, EvTxSerial, clock);
    assert |next.line.atOut| == 1 && next.line.atOut[0].command == "+SBDRB";
    assert Commands(next.line.atOut) == ["+SBDRB"];
  }

  /** The state after the pieces, one line after the other. */
  function AfterPieces(env: Env, s: Fsm, pieces: seq<string>, clock: nat -> int): Fsm
    requires Proper(env)
    decreases |pieces|
  {
    if pieces == [] then s else AfterPieces(env, ProcessEvent(env, s, EvRxSerial(pieces[0]), clock), pieces[1..], clock)
  }

  function AllJoined(buffer: string, pieces: seq<string>): string
    decreases |pieces|
  {
    if pieces == [] then buffer else AllJoined(Joined(buffer, pieces[0]), pieces[1..])
  }

  /** However a burst is cut into pieces, as long as no tick comes between them, the message is received when
      the last piece completes it, and not before. */
  lemma {:induction false} PiecesArrive(env: Env, s: Fsm, buffer: string, pieces: seq<string>, clock: nat -> int)
    requires Proper(env) && Reads(s, buffer) && pieces != []
    requires forall i :: 0 < i < |pieces| ==> !Complete(AllJoined(buffer, pieces[..i]))
    ensures var last := AfterPieces(env, s, pieces, clock);
            if !Complete(AllJoined(buffer, pieces)) then Reads(last, AllJoined(buffer, pieces)) && last.received == s.received
            else BurstOver(env, s, last, AllJoined(buffer, pieces))
    decreases |pieces|
  {
    var next, joined, rest := ProcessEvent(env, s, EvRxSerial(pieces[0]), clock), Joined(buffer, pieces[0]), pieces[1..];
    PieceArrives(env, s, buffer, pieces[0], clock);
    PiecesUnfold(env, s, buffer, pieces, clock);
    if rest == [] {
      NoMorePieces(env, next, joined, rest, clock);
    } else {
      NotYetComplete(buffer, pieces);
      PiecesArrive(env, next, joined, rest, clock);
    }
  }

  lemma PiecesUnfold(env: Env, s: Fsm, buffer: string, pieces: seq<string>, clock: nat -> int)
    requires Proper(env) && |pieces| > 0
    ensures AllJoined(buffer, pieces) == AllJoined(Joined(buffer, pieces[0]), pieces[1..])
    ensures AfterPieces(env, s, pieces, clock)
            == AfterPieces(env, ProcessEvent(env, s, EvRxSerial(pieces[0]), clock), pieces[1..], clock)
  {
  }

  lemma NoMorePieces(env: Env, s: Fsm, buffer: string, pieces: seq<string>, clock: nat -> int)
    requires Proper(env) && pieces == []
    ensures AllJoined(buffer, pieces) == buffer && AfterPieces(env, s, pieces, clock) == s
  {
  }

  lemma NotYetComplete(buffer: string, pieces: seq<string>)
    requires |pieces| > 1 && forall i :: 0 < i < |pieces| ==> !Complete(AllJoined(buffer, pieces[..i]))
    ensures !Complete(Joined(buffer, pieces[0]))
    ensures forall i :: 0 < i < |pieces| - 1 ==> !Complete(AllJoined(Joined(buffer, pieces[0]), pieces[1..][..i]))
  {
    assert pieces[..1] == [pieces[0]] && [pieces[0]][1..] == [];
    assert AllJoined(buffer, pieces[..1]) == AllJoined(Joined(buffer, pieces[0]), []);
    forall i | 0 < i < |pieces| - 1 ensures !Complete(AllJoined(Joined(buffer, pieces[0]), pieces[1..][..i])) {
      assert pieces[..i + 1][1..] == pieces[1..][..i];
      assert AllJoined(buffer, pieces[..i + 1]) == AllJoined(Joined(buffer, pieces[0]), pieces[1..][..i]);
    }
  }

  /** Pieces behind the first non-empty one are simply appended. */
  lemma {:induction false} JoinedIsConcatenation(buffer: string, pieces: seq<string>)
    requires |buffer| > 0
    ensures AllJoined(buffer, pieces) == buffer + Glued(pieces)
    decreases |pieces|
  {
    if pieces != [] {
      JoinedIsConcatenation(buffer + pieces[0], pieces[1..]);
    }
  }

  function Glued(pieces: seq<string>): string
  {
    if pieces == [] then "" else pieces[0] + Glued(pieces[1..])
  }
}
