/** The Iridium driver's statechart (src/acomms/modemdriver/iridium_driver_fsm.h
    and .cpp): two orthogonal regions, reactions that post further events, and a
    queue of posted events that is drained after each external event. */
module IridiumFsm {
  import opened ByteStrings
  import opened Options
  import opened RudicsPacket

  // ----- events and states

  datatype Event =
    | EvRxSerial(line: string)
    | EvTxSerial
    | EvRxOnCallSerial(line: string)
    | EvTxOnCallSerial
    | EvAck(response: string)
    | EvAtEmpty
    | EvReset
    | EvDial
    | EvRing
    | EvOnline
    | EvHangup
    | EvConnect
    | EvNoCarrier
    | EvDisconnect
    | EvSendBye
    | EvConfigured
    | EvSBDBeginData(data: Bytes, ringAlert: bool)
    | EvSBDSendBufferCleared
    | EvSBDWriteReady
    | EvSBDWriteComplete
    | EvSBDTransmitComplete(sbdi: string)
    | EvSBDReceiveComplete

  /** An AT command waiting for its answer. */
  datatype AtSentence = AtSentence(command: string, lastSendTime: int, tries: nat)

  /** First region of Command. */
  datatype Task = Configure | Ready | HangingUp | PostDisconnected | Dial(attempts: nat) | Answer

  /** Second region of Command. */
  datatype SbdTask = SBDReady | SBDClearBuffers | SBDWrite | SBDTransmit | SBDReceive

  datatype Sbd = Sbd(task: SbdTask, data: Bytes, ringAlert: bool)

  /** First region of Active. */
  datatype Line =
    | Command(task: Task, sbd: Sbd, atOut: seq<AtSentence>, sbdRxBuffer: string)
    | Online

  /** OnCallBase (iridium_driver_common.h), with the time at which the call began. */
  datatype CallRecord = CallRecord(start: int, lastTxTime: int, lastRxTime: int, byeReceived: bool, byeSent: bool,
                                   totalBytesSent: nat, lastBytesSent: nat)

  /** Second region of Active. */
  datatype Call = NotOnCall | OnCall(record: CallRecord)

  datatype Output = Text(text: string) | Packet(bytes: Bytes)

  /** `hungUp` is a history variable: EvHangup took this call off line. */
  datatype Fsm = Fsm(line: Line, call: Call, serialTx: seq<Output>, dataOut: seq<Bytes>, received: seq<Bytes>,
                     hungUp: bool)

  datatype Reaction = Reaction(fsm: Fsm, posts: seq<Event>)

  /** Configuration, the reserved characters and checksum of the packet codec, and the parser of +SBDI answers,
      which is not part of this model. */
  datatype Env = Env(config: seq<string>, number: string, dialAttempts: nat, targetBitRate: nat, reserved: Bytes,
                     crc: Checksum, sbdStatus: string -> Option<(int, int)>)

  predicate Proper(env: Env)
  {
    env.targetBitRate > 0 && Usable(env.reserved) && FreeSubstitutes(env.reserved)
  }

  /** The reserved characters that the original uses are proper. */
  lemma DefaultIsProper(env: Env)
    requires env.targetBitRate > 0 && env.reserved == DEFAULT_RESERVED
    ensures Proper(env)
  {
    DefaultReservedAdmissible();
    AdmissibleHasFreeSubstitutes(env.reserved);
  }

  function ByteRate(env: Env): (r: real)
    requires Proper(env)
    ensures r > 0.0
  {
    env.targetBitRate as real / 8.0
  }

  // ----- circular buffers

  const AT_BUFFER_CAPACITY := 100
  const SERIAL_BUFFER_CAPACITY := 10
  const DATA_BUFFER_CAPACITY := 5
  const RECEIVED_BUFFER_CAPACITY := 10

  /** push_back of a full circular buffer overwrites the front, push_front the back. */
  function PushBack<T>(s: seq<T>, x: T, capacity: nat): seq<T>
    requires capacity > 0
  {
    if |s| >= capacity then s[1..] + [x] else s + [x]
  }

  function PushFront<T>(s: seq<T>, x: T, capacity: nat): seq<T>
    requires capacity > 0
  {
    if |s| >= capacity then [x] + s[..|s| - 1] else [x] + s
  }

  function PushAt(line: Line, command: string): (r: Line)
    requires line.Command?
    ensures r.Command?
  {
    line.(atOut := PushBack(line.atOut, AtSentence(command, 0, 0), AT_BUFFER_CAPACITY))
  }

  function Transmit(s: Fsm, output: Output): Fsm
  {
    s.(serialTx := PushBack(s.serialTx, output, SERIAL_BUFFER_CAPACITY))
  }

  function Receive(s: Fsm, message: Bytes): Fsm
  {
    s.(received := PushBack(s.received, message, RECEIVED_BUFFER_CAPACITY))
  }

  // ----- text

  /** The bytes of a line. */
  function Octets(text: string): (r: Bytes)
    ensures |r| == |text|
  {
    seq(|text|, i requires 0 <= i < |text| => text[i] as int % 256)
  }

  predicate IsSpace(c: char) { c == ' ' || '\t' <= c <= '\r' }

  function TrimLeft(s: string): string
  {
    if s != [] && IsSpace(s[0]) then TrimLeft(s[1..]) else s
  }

  function TrimRight(s: string): string
  {
    if s != [] && IsSpace(s[|s| - 1]) then TrimRight(s[..|s| - 1]) else s
  }

  function Trim(s: string): string { TrimRight(TrimLeft(s)) }

  predicate Contains(s: string, part: string)
  {
    part <= s || (s != [] && Contains(s[1..], part))
  }

  // ----- entry actions

  function EnterCommand(task: Task): (r: Line)
    ensures r.Command?
  {
    Command(task, Sbd(SBDReady, [], false), [], "")
  }

  function PushConfig(line: Line, config: seq<string>): (r: Line)
    requires line.Command?
    ensures r.Command? && r.task == line.task
    decreases |config|
  {
    if config == [] then line else PushConfig(PushAt(line, config[0]), config[1..])
  }

  function EnterConfigure(env: Env): (r: Line)
    ensures r.Command?
  {
    PushConfig(PushAt(EnterCommand(Configure), ""), env.config)
  }

  function EnterOnCall(s: Fsm, now: int): Fsm
  {
    s.(call := OnCall(CallRecord(now, now, 0, false, false, 0, 0)), hungUp := false,
       serialTx := PushFront(s.serialTx, Text("goby\r"), SERIAL_BUFFER_CAPACITY))
  }

  /** What the destructors of the states of one region post. */
  function ExitLine(line: Line): seq<Event>
  {
    if line.Command? && line.task == Configure then [EvConfigured] else []
  }

  function ExitCall(call: Call): seq<Event>
  {
    if call.OnCall? then [EvDisconnect] else []
  }

  function Initial(env: Env): Fsm
  {
    Fsm(EnterConfigure(env), NotOnCall, [], [], [], false)
  }

  // ----- reactions of Command

  function Discard(s: Fsm): Reaction { Reaction(s, []) }

  /** in_state_react(EvRxSerial): answers of the modem. */
  function CommandRx(env: Env, s: Fsm, text: string): Reaction
    requires s.line.Command?
  {
    var line := s.line;
    if line.atOut != [] && line.atOut[0].command == "+SBDRB" then SbdRx(env, s, text)
    else
      var answer := Trim(text);
      if line.atOut != [] && line.atOut[0].command != "E" && answer == "AT" + line.atOut[0].command then
        Reaction(s.(line := line.(atOut := InsertEcho(line.atOut))), [])
      else Reaction(s, Answered(answer))
  }

  function Answered(answer: string): seq<Event>
  {
    if answer == "OK" then [EvAck(answer)]
    else if answer == "RING" then [EvRing]
    else if answer == "NO CARRIER" then [EvAck(answer), EvNoCarrier]
    else if "CONNECT" <= answer then [EvAck(answer), EvConnect]
    else if answer == "NO DIALTONE" then [EvAck(answer), EvNoCarrier]
    else if answer == "BUSY" then [EvAck(answer), EvNoCarrier]
    else if answer == "ERROR" then [EvReset]
    else if answer == "0" || answer == "1" || answer == "2" || answer == "3" then [EvAck(answer)]
    else if answer == "READY" then [EvAck(answer)]
    else if "+SBDI" <= answer then [EvSBDTransmitComplete(answer)]
    else if answer == "SBDRING" then [EvSBDBeginData([], true)]
    else []
  }

  /** The command that turns the echo off goes second; a full buffer loses its front. */
  function InsertEcho(atOut: seq<AtSentence>): seq<AtSentence>
    requires atOut != []
  {
    var inserted := atOut[..1] + [AtSentence("E", 0, 0)] + atOut[1..];
    if |atOut| >= AT_BUFFER_CAPACITY then inserted[1..] else inserted
  }

  /** handle_sbd_rx: a message arrives in pieces, its size in its first two bytes. */
  function SbdRx(env: Env, s: Fsm, text: string): Reaction
    requires s.line.Command? && s.line.atOut != []
  {
    var buffer := if s.line.sbdRxBuffer == [] && text != [] && text[0] == '\n' then text[1..]
                  else s.line.sbdRxBuffer + text;
    var line := s.line.(sbdRxBuffer := buffer);
    var bytes := Octets(buffer);
    if |bytes| < 2 || |bytes| < 2 + SbdSize(bytes) then Discard(s.(line := line))
    else
      var left := s.(line := PushAt(line.(atOut := line.atOut[1..]), ""));
      match CheckCrc(bytes[2..2 + SbdSize(bytes)], env.crc)
      case Parsed(message) => Reaction(Receive(left, message), [EvSBDReceiveComplete])
      case Rejected(_) => Reaction(left, [EvSBDReceiveComplete])
  }

  function SbdSize(bytes: Bytes): nat
    requires |bytes| >= 2
  {
    var first: int, second: int := bytes[0], bytes[1];
    first * 256 + second
  }

  const RETRIES_BEFORE_RESET := 3

  function Timeout(command: string): int
  {
    if "+SBDI" <= command then 60
    else if command == "+++" then 6
    else if command == "" then 2
    else
      match command[0]
      case 'D' => 60
      case 'A' => 30
      case 'H' => 10
      case _ => 2
  }

  /** in_state_react(EvTxSerial): (re)send the command at the front. */
  function CommandTx(s: Fsm, now: int): Reaction
    requires s.line.Command?
  {
    if s.line.atOut == [] then Discard(s)
    else
      var front := s.line.atOut[0];
      var line := if front.command == "+SBDRB" then s.line.(sbdRxBuffer := "") else s.line;
      if front.lastSendTime + Timeout(front.command) >= now then Discard(s.(line := line))
      else if front.tries + 1 > RETRIES_BEFORE_RESET then
        Reaction(s.(line := line.(atOut := line.atOut[0 := front.(tries := front.tries + 1)])), [EvReset])
      else
        var sentence := if front.command == "+++" then front.command else "AT" + front.command + "\r";
        var sent := front.(tries := front.tries + 1, lastSendTime := now);
        Discard(Transmit(s.(line := line.(atOut := line.atOut[0 := sent])), Text(sentence)))
  }

  /** in_state_react(EvAck) */
  function CommandAck(s: Fsm, response: string): Reaction
    requires s.line.Command?
  {
    var atOut := s.line.atOut;
    if response != [] && response[0] == '0' then
      if atOut != [] && atOut[0].command == "+SBDD2" then Reaction(s, [EvSBDSendBufferCleared])
      else if atOut == [] then Reaction(s.(line := PushAt(s.line, "AT")), [EvSBDWriteComplete])
      else Discard(s)
    else if response != [] && (response[0] == '1' || response[0] == '2' || response[0] == '3') then Discard(s)
    else if atOut == [] then Discard(s)
    else Reaction(s.(line := s.line.(atOut := atOut[1..])), AckPosts(atOut[0].command, response, |atOut| == 1))
  }

  /** An "OK" to a hang-up or to a dial means that there is no carrier. */
  function AckPosts(command: string, response: string, last: bool): seq<Event>
  {
    var ends := command != [] && response == "OK" && (command[0] == 'H' || command[0] == 'D');
    When(ends, EvNoCarrier) + When(response == "READY", EvSBDWriteReady) + When(last, EvAtEmpty)
  }

  function When(condition: bool, e: Event): seq<Event>
  {
    if condition then [e] else []
  }

  function DialNumber(env: Env, line: Line, attempts: nat): (r: Line)
    requires line.Command?
    ensures r.Command?
  {
    PushAt(line.(task := Dial(attempts + 1)), "D" + env.number)
  }

  // ----- reactions of the SBD region

  function ByteSum(data: Bytes): nat
  {
    if data == [] then 0 else data[0] + ByteSum(data[1..])
  }

  function WithChecksum(data: Bytes): Bytes
  {
    if data == [] then data else data + [ByteSum(data) / 256 % 256, ByteSum(data) % 256]
  }

  function EnterSbdWrite(s: Fsm): Reaction
    requires s.line.Command?
  {
    var line := s.line.(sbd := s.line.sbd.(task := SBDWrite));
    if line.sbd.data == [] then Reaction(s.(line := line), [EvSBDWriteComplete])
    else Discard(s.(line := PushAt(line, "+SBDWB=" + Decimal(|line.sbd.data| - 2))))
  }

  function Decimal(n: int): string
  {
    if n < 10 then [if 0 <= n then '0' + n as char else '-'] else Decimal(n / 10) + ['0' + (n % 10) as char]
  }

  function SbdReact(env: Env, s: Fsm, e: Event): Reaction
    requires s.line.Command?
  {
    var line := s.line;
    match (line.sbd.task, e)
    case (SBDReady, EvSBDBeginData(data, ringAlert)) =>
      var sbd := Sbd(SBDClearBuffers, WithChecksum(data), ringAlert);
      Discard(s.(line := PushAt(line.(sbd := sbd, sbdRxBuffer := ""), "+SBDD2")))
    case (SBDClearBuffers, EvSBDSendBufferCleared) => EnterSbdWrite(s)
    case (SBDWrite, EvSBDWriteReady) => Discard(Transmit(s, Packet(line.sbd.data)))
    case (SBDWrite, EvSBDWriteComplete) =>
      Discard(s.(line := PushAt(line.(sbd := line.sbd.(task := SBDTransmit)),
                                if line.sbd.ringAlert then "+SBDIXA" else "+SBDIX")))
    case (SBDTransmit, EvSBDTransmitComplete(sbdi)) =>
      var status := env.sbdStatus(sbdi);
      var received := status.Some? && status.value.0 <= 4 && status.value.1 == 1;
      var left := line.(sbd := line.sbd.(task := if received then SBDReceive else SBDReady, data := []));
      Discard(s.(line := if received then PushAt(left, "+SBDRB") else left))
    case (SBDReceive, EvSBDReceiveComplete) => Discard(s.(line := line.(sbd := line.sbd.(task := SBDReady))))
    case (_, _) => Discard(s)
  }

  // ----- reactions of OnCall

  function CallRx(env: Env, s: Fsm, text: string, now: int): Reaction
    requires Proper(env) && s.call.OnCall?
  {
    if Contains(text, "NO CARRIER") then Reaction(s, [EvNoCarrier])
    else if Trim(text) == "goby" then Discard(s)
    else if Trim(text) == "bye" then Discard(s.(call := OnCall(s.call.record.(byeReceived := true))))
    else
      match Parse(Octets(text), env.reserved, true, env.crc)
      case Parsed(message) => Discard(Receive(s.(call := OnCall(s.call.record.(lastRxTime := now))), message))
      case Rejected(_) => Discard(s)
  }

  /** set_last_bytes_sent and set_last_tx_time */
  function Sent(r: CallRecord, size: nat, now: int): CallRecord
  {
    r.(lastBytesSent := size, totalBytesSent := r.totalBytesSent + size, lastTxTime := now)
  }

  /** Data goes out only when the target rate allows the previous packet to have been sent. */
  function CallTx(env: Env, s: Fsm, now: int): Reaction
    requires Proper(env) && s.call.OnCall?
  {
    var r := s.call.record;
    if s.dataOut == [] || now as real <= r.lastTxTime as real + r.lastBytesSent as real / ByteRate(env) then Discard(s)
    else
      var packet := Serialize(s.dataOut[0], env.reserved, true, env.crc);
      Discard(Transmit(s.(call := OnCall(Sent(r, |packet|, now)), dataOut := s.dataOut[1..]), Packet(packet)))
  }

  // ----- dispatch

  /** One event is offered to the first region and its enclosing states, then to the other
      regions; whoever reacts to it consumes it. */
  function Dispatch(env: Env, s: Fsm, e: Event, now: int): Reaction
    requires Proper(env)
  {
    match e
    case EvReset => Reaction(s.(line := EnterConfigure(env), call := NotOnCall), ExitCall(s.call) + ExitLine(s.line))
    case EvRxSerial(text) => if s.line.Online? then Reaction(s, [EvRxOnCallSerial(text)]) else CommandRx(env, s, text)
    case EvTxSerial => if s.line.Online? then Reaction(s, [EvTxOnCallSerial]) else CommandTx(s, now)
    case EvAck(response) => if s.line.Online? then Discard(s) else CommandAck(s, response)
    case EvAtEmpty =>
      if s.line.Command? && s.line.task in {Configure, HangingUp, PostDisconnected}
      then Reaction(s.(line := s.line.(task := Ready)), ExitLine(s.line))
      else Discard(s)
    case EvDial =>
      if s.line.Command? && s.line.task == Ready && s.call == NotOnCall
      then Discard(s.(line := DialNumber(env, s.line, 0)))
      else Discard(s)
    case EvRing =>
      if s.line.Command? && s.line.task == Ready
      then Discard(s.(line := PushAt(s.line.(task := Answer), "A")))
      else Discard(s)
    case EvOnline => if s.line.Command? then Reaction(s.(line := Online), ExitLine(s.line)) else Discard(s)
    case EvHangup =>
      if s.line.Online?
      then Discard(s.(line := PushAt(PushAt(EnterCommand(HangingUp), "+++"), "H"), hungUp := true))
      else Discard(s)
    case EvDisconnect =>
      if s.line.Online? then Discard(s.(line := PushAt(EnterCommand(PostDisconnected), "+CEER"))) else Discard(s)
    case EvConnect => if s.call == NotOnCall then Reaction(EnterOnCall(s, now), [EvOnline]) else Discard(s)
    case EvNoCarrier =>
      if s.line.Command? && s.line.task.Dial? then
        if s.line.task.attempts < env.dialAttempts
        then Discard(s.(line := DialNumber(env, s.line, s.line.task.attempts)))
        else Discard(s.(line := s.line.(task := Ready)))
      else if s.line.Command? && s.line.task == Answer then Discard(s.(line := s.line.(task := Ready)))
      else if s.call.OnCall? then Reaction(s.(call := NotOnCall), ExitCall(s.call))
      else Discard(s)
    case EvRxOnCallSerial(text) => if s.call.OnCall? then CallRx(env, s, text, now) else Discard(s)
    case EvTxOnCallSerial => if s.call.OnCall? then CallTx(env, s, now) else Discard(s)
    case EvSendBye =>
      if s.call.OnCall?
      then Discard(s.(call := OnCall(s.call.record.(byeSent := true)),
                      serialTx := PushFront(s.serialTx, Text("bye\r"), SERIAL_BUFFER_CAPACITY)))
      else Discard(s)
    case _ => if s.line.Command? then SbdReact(env, s, e) else Discard(s)
  }

  // ----- draining the posted events

  /** More than the total of what a reaction to the event may post. */
  function Weight(e: Event): nat
  {
    match e
    case EvRxSerial(_) => 11
    case EvTxSerial => 5
    case EvAck(_) => 7
    case EvRxOnCallSerial(_) => 3
    case EvConnect => 3
    case EvReset => 3
    case EvNoCarrier => 2
    case EvOnline => 2
    case EvAtEmpty => 2
    case EvSBDSendBufferCleared => 2
    case _ => 1
  }

  function TotalWeight(events: seq<Event>): nat
  {
    if events == [] then 0 else Weight(events[0]) + TotalWeight(events[1..])
  }

  lemma {:induction false} TotalWeightAppend(a: seq<Event>, b: seq<Event>)
    ensures TotalWeight(a + b) == TotalWeight(a) + TotalWeight(b)
  {
    if a == [] {
      assert a + b == b;
    } else {
      assert (a + b)[1..] == a[1..] + b;
      TotalWeightAppend(a[1..], b);
    }
  }

  /** The last word in the queue on whether there is a call: EvOnline or EvDisconnect. */
  function LastWord(posted: seq<Event>): Option<bool>
  {
    if posted == [] then None
    else
      var later := LastWord(posted[1..]);
      if later.Some? then later
      else if posted[0].EvOnline? then Some(true)
      else if posted[0].EvDisconnect? then Some(false)
      else None
  }

  lemma {:induction false} LastWordAppend(a: seq<Event>, b: seq<Event>)
    ensures LastWord(a + b) == if LastWord(b).Some? then LastWord(b) else LastWord(a)
  {
    if a == [] {
      assert a + b == b;
    } else {
      assert (a + b)[1..] == a[1..] + b;
      LastWordAppend(a[1..], b);
    }
  }

  // ----- what one reaction may do

  /** What Dispatch promises. The posts are lighter than the event. Only EvOnline puts the line
      on line; only EvHangup, EvDisconnect and EvReset take it off; entering a call posts
      EvOnline last, leaving it posts EvDisconnect. */
  predicate Sound(s: Fsm, e: Event, r: Reaction)
  {
    && TotalWeight(r.posts) < Weight(e)
    && LastWord(r.posts) == (if r.fsm.call.OnCall? == s.call.OnCall? then None else Some(r.fsm.call.OnCall?))
    && (e.EvOnline? ==> r.fsm.line.Online?)
    && (e.EvDisconnect? ==> !r.fsm.line.Online?)
    && (e.EvOnline? || e.EvDisconnect? ==> r.fsm.call == s.call)
    && (!e.EvOnline? && !e.EvDisconnect? ==>
          && (r.fsm.line.Online? ==> s.line.Online?)
          && (s.line.Online? && !r.fsm.line.Online? ==> r.fsm.hungUp || !r.fsm.call.OnCall?)
          && (r.fsm.call.OnCall? == s.call.OnCall? && s.hungUp ==> r.fsm.hungUp))
  }

  /** Most reactions leave both regions where they are. */
  predicate Minor(s: Fsm, r: Reaction)
  {
    && r.fsm.line.Online? == s.line.Online? && r.fsm.call.OnCall? == s.call.OnCall?
    && r.fsm.hungUp == s.hungUp && LastWord(r.posts) == None
  }

  lemma Single(e: Event)
    ensures TotalWeight([e]) == Weight(e)
    ensures LastWord([e]) == if e.EvOnline? then Some(true) else if e.EvDisconnect? then Some(false) else None
  {
  }

  lemma Pair(d: Event, e: Event)
    ensures TotalWeight([d, e]) == Weight(d) + Weight(e)
    ensures LastWord([d, e]) == if LastWord([e]).Some? then LastWord([e]) else LastWord([d])
  {
    assert [d, e] == [d] + [e];
    Single(d);
    Single(e);
    TotalWeightAppend([d], [e]);
    LastWordAppend([d], [e]);
  }

  lemma AnsweredMinor(answer: string)
    ensures TotalWeight(Answered(answer)) <= 10 && LastWord(Answered(answer)) == None
  {
    var posts := Answered(answer);
    if |posts| == 1 {
      Single(posts[0]);
      assert posts == [posts[0]];
    } else if |posts| == 2 {
      Pair(posts[0], posts[1]);
      Single(posts[0]);
      Single(posts[1]);
      assert posts == [posts[0], posts[1]];
    }
  }

  lemma SbdRxMinor(env: Env, s: Fsm, text: string)
    requires s.line.Command? && s.line.atOut != []
    ensures Minor(s, SbdRx(env, s, text)) && TotalWeight(SbdRx(env, s, text).posts) <= 10
  {
    Single(EvSBDReceiveComplete);
  }

  lemma CommandRxMinor(env: Env, s: Fsm, text: string)
    requires s.line.Command?
    ensures Minor(s, CommandRx(env, s, text)) && TotalWeight(CommandRx(env, s, text).posts) <= 10
  {
    AnsweredMinor(Trim(text));
    if s.line.atOut != [] {
      SbdRxMinor(env, s, text);
    }
  }

  lemma CommandTxMinor(s: Fsm, now: int)
    requires s.line.Command?
    ensures Minor(s, CommandTx(s, now)) && TotalWeight(CommandTx(s, now).posts) <= 3
  {
  }

  lemma CommandAckMinor(s: Fsm, response: string)
    requires s.line.Command?
    ensures Minor(s, CommandAck(s, response)) && TotalWeight(CommandAck(s, response).posts) <= 5
  {
    Single(EvSBDSendBufferCleared);
    Single(EvSBDWriteComplete);
    if s.line.atOut != [] {
      AckPostsMinor(s.line.atOut[0].command, response, |s.line.atOut| == 1);
    }
  }

  lemma AckPostsMinor(command: string, response: string, last: bool)
    ensures TotalWeight(AckPosts(command, response, last)) <= 5 && LastWord(AckPosts(command, response, last)) == None
  {
    var ends := command != [] && response == "OK" && (command[0] == 'H' || command[0] == 'D');
    var a, b, c := When(ends, EvNoCarrier), When(response == "READY", EvSBDWriteReady), When(last, EvAtEmpty);
    Single(EvNoCarrier);
    Single(EvSBDWriteReady);
    Single(EvAtEmpty);
    TotalWeightAppend(a + b, c);
    TotalWeightAppend(a, b);
    LastWordAppend(a + b, c);
    LastWordAppend(a, b);
  }

  lemma CallRxMinor(env: Env, s: Fsm, text: string, now: int)
    requires Proper(env) && s.call.OnCall?
    ensures Minor(s, CallRx(env, s, text, now)) && TotalWeight(CallRx(env, s, text, now).posts) <= 2
  {
  }

  predicate FromSerial(e: Event)
  {
    e.EvRxSerial? || e.EvTxSerial? || e.EvAck? || e.EvRxOnCallSerial? || e.EvTxOnCallSerial?
  }

  predicate ForSbd(e: Event)
  {
    || e.EvConfigured? || e.EvSBDBeginData? || e.EvSBDSendBufferCleared? || e.EvSBDWriteReady?
    || e.EvSBDWriteComplete? || e.EvSBDTransmitComplete? || e.EvSBDReceiveComplete?
  }

  lemma SerialSound(env: Env, s: Fsm, e: Event, now: int)
    requires Proper(env) && FromSerial(e)
    ensures Sound(s, e, Dispatch(env, s, e, now))
  {
    match e {
      case EvRxSerial(text) =>
        Single(EvRxOnCallSerial(text));
        if s.line.Command? {
          CommandRxMinor(env, s, text);
        }
      case EvTxSerial =>
        Single(EvTxOnCallSerial);
        if s.line.Command? {
          CommandTxMinor(s, now);
        }
      case EvAck(response) =>
        if s.line.Command? {
          CommandAckMinor(s, response);
        }
      case EvRxOnCallSerial(text) =>
        if s.call.OnCall? {
          CallRxMinor(env, s, text, now);
        }
      case EvTxOnCallSerial =>
    }
  }

  lemma SbdMinor(env: Env, s: Fsm, e: Event)
    requires s.line.Command? && ForSbd(e)
    ensures Minor(s, SbdReact(env, s, e)) && TotalWeight(SbdReact(env, s, e).posts) < Weight(e)
  {
    Single(EvSBDWriteComplete);
  }

  lemma SbdSound(env: Env, s: Fsm, e: Event, now: int)
    requires Proper(env) && ForSbd(e)
    ensures Sound(s, e, Dispatch(env, s, e, now))
  {
    if s.line.Command? {
      SbdMinor(env, s, e);
    }
  }

  lemma ResetSound(env: Env, s: Fsm, now: int)
    requires Proper(env)
    ensures Sound(s, EvReset, Dispatch(env, s, EvReset, now))
  {
    Single(EvDisconnect);
    Single(EvConfigured);
    TotalWeightAppend(ExitCall(s.call), ExitLine(s.line));
    LastWordAppend(ExitCall(s.call), ExitLine(s.line));
  }

  predicate Dialling(e: Event)
  {
    e.EvAtEmpty? || e.EvDial? || e.EvRing? || e.EvSendBye?
  }

  lemma DiallingSound(env: Env, s: Fsm, e: Event, now: int)
    requires Proper(env) && Dialling(e)
    ensures Sound(s, e, Dispatch(env, s, e, now))
  {
  }

  lemma LinkSound(env: Env, s: Fsm, e: Event, now: int)
    requires Proper(env) && !FromSerial(e) && !ForSbd(e) && !e.EvReset? && !Dialling(e)
    ensures Sound(s, e, Dispatch(env, s, e, now))
  {
  }

  lemma DispatchSound(env: Env, s: Fsm, e: Event, now: int)
    requires Proper(env)
    ensures Sound(s, e, Dispatch(env, s, e, now))
  {
    if FromSerial(e) {
      SerialSound(env, s, e, now);
    } else if ForSbd(e) {
      SbdSound(env, s, e, now);
    } else if e.EvReset? {
      ResetSound(env, s, now);
    } else if Dialling(e) {
      DiallingSound(env, s, e, now);
    } else {
      LinkSound(env, s, e, now);
    }
  }

  /** Runs until no posted event is left; the clock may read anything at each reaction. */
  function Drain(env: Env, s: Fsm, posted: seq<Event>, clock: nat -> int, tick: nat): Fsm
    requires Proper(env)
    decreases TotalWeight(posted)
  {
    if posted == [] then s
    else
      var r := Dispatch(env, s, posted[0], clock(tick));
      DispatchSound(env, s, posted[0], clock(tick));
      TotalWeightAppend(posted[1..], r.posts);
      Drain(env, r.fsm, posted[1..] + r.posts, clock, tick + 1)
  }

  /** Draining takes one event off the queue at a time, and what is left weighs less. */
  lemma DrainStep(env: Env, s: Fsm, posted: seq<Event>, clock: nat -> int, tick: nat)
    requires Proper(env) && posted != []
    ensures var r := Dispatch(env, s, posted[0], clock(tick));
            Drain(env, s, posted, clock, tick) == Drain(env, r.fsm, posted[1..] + r.posts, clock, tick + 1)
    ensures TotalWeight(posted[1..] + Dispatch(env, s, posted[0], clock(tick)).posts) < TotalWeight(posted)
  {
    DispatchSound(env, s, posted[0], clock(tick));
    TotalWeightAppend(posted[1..], Dispatch(env, s, posted[0], clock(tick)).posts);
  }

  function ProcessEvent(env: Env, s: Fsm, e: Event, clock: nat -> int): Fsm
    requires Proper(env)
  {
    Drain(env, s, [e], clock, 0)
  }

  /** The state machine object. */
  class IridiumDriverFsm {
    const env: Env
    var line: Line
    var call: Call
    var serialTx: seq<Output>
    var dataOut: seq<Bytes>
    var received: seq<Bytes>
    var posted: seq<Event>
    var hungUp: bool

    ghost predicate Valid()
      reads this
    {
      Proper(env) && posted == []
    }

    ghost function View(): Fsm
      reads this
    {
      Fsm(line, call, serialTx, dataOut, received, hungUp)
    }

    /** initiate */
    constructor (env: Env)
      requires Proper(env)
      ensures Valid() && this.env == env && View() == Initial(env)
    {
      this.env := env;
      line, call, serialTx, dataOut, received, posted := EnterConfigure(env), NotOnCall, [], [], [], [];
      hungUp := false;
    }

    /** process_event: the event itself, then everything that was posted. */
    method Process(e: Event, clock: nat -> int)
      requires Valid()
      modifies this
      ensures Valid()
      ensures View() == ProcessEvent(env, old(View()), e, clock)
    {
      posted := [e];
      var tick := 0;
      while posted != []
        invariant Drain(env, View(), posted, clock, tick) == ProcessEvent(env, old(View()), e, clock)
        decreases TotalWeight(posted)
      {
        DrainStep(env, View(), posted, clock, tick);
        var event := posted[0];
        posted := posted[1..];
        var r := Dispatch(env, Fsm(line, call, serialTx, dataOut, received, hungUp), event, clock(tick));
        line, call, serialTx, dataOut := r.fsm.line, r.fsm.call, r.fsm.serialTx, r.fsm.dataOut;
        received, hungUp := r.fsm.received, r.fsm.hungUp;
        posted := posted + r.posts;
        tick := tick + 1;
      }
    }

    method BufferDataOut(message: Bytes)
      requires Valid()
      modifies `dataOut
      ensures Valid()
      ensures View() == Queue(old(View()), message)
    {
      dataOut := PushBack(dataOut, message, DATA_BUFFER_CAPACITY);
    }

    /** What the driver writes to the modem next. */
    method NextOutput() returns (output: Option<Output>)
      requires Valid()
      modifies `serialTx
      ensures Valid()
      ensures View() == Written(old(View()))
      ensures output == if old(serialTx) == [] then None else Some(old(serialTx)[0])
    {
      if serialTx == [] {
        return None;
      }
      output := Some(serialTx[0]);
      serialTx := serialTx[1..];
    }

    /** What the driver passes up next. */
    method NextReceived() returns (message: Option<Bytes>)
      requires Valid()
      modifies `received
      ensures Valid()
      ensures View() == Collected(old(View()))
      ensures message == if old(received) == [] then None else Some(old(received)[0])
    {
      if received == [] {
        return None;
      }
      message := Some(received[0]);
      received := received[1..];
    }
  }

  /** buffer_data_out */
  function Queue(s: Fsm, message: Bytes): Fsm
  {
    s.(dataOut := PushBack(s.dataOut, message, DATA_BUFFER_CAPACITY))
  }

  function Written(s: Fsm): Fsm
  {
    if s.serialTx == [] then s else s.(serialTx := s.serialTx[1..])
  }

  function Collected(s: Fsm): Fsm
  {
    if s.received == [] then s else s.(received := s.received[1..])
  }
}
