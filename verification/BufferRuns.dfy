/** Whole runs of a DynamicBuffer: any sequence of its calls. */
module BufferRuns {
  import opened Options
  import opened SubBuffer
  import opened DynamicBuffers

  /** One call. A call of top carries the subbuffer that won, None when it threw. A call without a
      configuration to apply is refused. */
  datatype Op =
    | OpCreate(key: Key, config: Config, now: int)
    | OpReplace(key: Key, config: Config, now: int)
    | OpUpdate(key: Key, config: Config, now: int)
    | OpRemove(key: Key)
    | OpPush(key: Key, value: Value)
    | OpPop(key: Key)
    | OpErase(key: Key, value: Value)
    | OpExpire(now: int)
    | OpTop(contest: Contest, winner: Option<Key>)
    | OpRefused

  /** The outcome of a contest is one that DynamicBuffer.Top allows; the clock is past the zero point. */
  ghost predicate Legal(qs: Queues, op: Op)
    requires AllProper(qs)
  {
    match op
    case OpCreate(_, config, _) => Proper(config)
    case OpReplace(_, config, _) => Proper(config)
    case OpUpdate(_, config, _) => Proper(config)
    case OpTop(c, winner) =>
      && c.now > ZERO_POINT && c.ackTimeout >= 0
      && (winner == None ==> forall k :: !Eligible(qs, c, k))
      && (winner.Some? ==> IsWinner(qs, c, winner.value))
    case _ => true
  }

  // ----- the effect on one subbuffer

  function Get(qs: Queues, key: Key): Option<Queue>
  {
    if key in qs then Some(qs[key]) else None
  }

  /** Calls for a subbuffer that does not exist throw and change nothing. */
  function Effect(q: Option<Queue>, op: Op, key: Key): Option<Queue>
  {
    match op
    case OpCreate(k, config, now) => if k == key && q.None? then Some(Created(config, now)) else q
    case OpReplace(k, config, now) => if k == key then Some(Created(config, now)) else q
    case OpUpdate(k, config, now) =>
      if k != key then q else if q.None? then Some(Created(config, now)) else Some(Reconfigure(q.value, config))
    case OpRemove(k) => if k == key then None else q
    case OpPush(k, v) => if k == key && q.Some? then Some(Push(q.value, v.data, v.pushTime).0) else q
    case OpPop(k) =>
      if k == key && q.Some? && q.value.entries != [] then Some(q.value.(entries := q.value.entries[1..])) else q
    case OpErase(k, v) => if k == key && q.Some? then Some(Erase(q.value, v).0) else q
    case OpExpire(now) => if q.Some? then Some(Expire(q.value, now).0) else q
    case OpTop(c, winner) =>
      if winner != Some(key) || q.None? then q else
        var i := FirstAvailable(q.value.entries, c.now, c.ackTimeout);
        if i == |q.value.entries| then q else Some(Serve(q.value, c.now, i))
    case OpRefused => q
  }

  function Named(op: Op): set<Key>
  {
    match op
    case OpCreate(k, _, _) => {k}
    case OpReplace(k, _, _) => {k}
    case OpUpdate(k, _, _) => {k}
    case _ => {}
  }

  function Step(qs: Queues, op: Op): Queues
  {
    map k | k in qs.Keys + Named(op) && Effect(Get(qs, k), op, k).Some? :: Effect(Get(qs, k), op, k).value
  }

  lemma StepAt(qs: Queues, op: Op, key: Key)
    ensures Get(Step(qs, op), key) == Effect(Get(qs, key), op, key)
  {
  }

  // ----- what a call does with the values

  /** What became of the values of one subbuffer. */
  datatype Ledger = Ledger(pushed: multiset<Value>, exceeded: multiset<Value>, expired: multiset<Value>,
                           erased: multiset<Value>, popped: multiset<Value>, dropped: multiset<Value>)

  const BLANK: Ledger := Ledger(multiset{}, multiset{}, multiset{}, multiset{}, multiset{}, multiset{})

  function Add(a: Ledger, b: Ledger): Ledger
  {
    Ledger(a.pushed + b.pushed, a.exceeded + b.exceeded, a.expired + b.expired,
           a.erased + b.erased, a.popped + b.popped, a.dropped + b.dropped)
  }

  function Queued(q: Option<Queue>): multiset<Value>
  {
    if q.Some? then Contents(q.value) else multiset{}
  }

  /** The values one call accepts, returns or throws away. */
  function Posting(q: Option<Queue>, op: Op, key: Key): Ledger
  {
    if q.None? then BLANK else
      match op
      case OpReplace(k, _, _) => if k == key then BLANK.(dropped := Contents(q.value)) else BLANK
      case OpRemove(k) => if k == key then BLANK.(dropped := Contents(q.value)) else BLANK
      case OpPush(k, v) =>
        if k == key then BLANK.(pushed := multiset{v}, exceeded := multiset(Push(q.value, v.data, v.pushTime).1))
        else BLANK
      case OpPop(k) =>
        if k == key && q.value.entries != [] then BLANK.(popped := multiset{q.value.entries[0].value}) else BLANK
      case OpErase(k, v) => if k == key && Erase(q.value, v).1 then BLANK.(erased := multiset{v}) else BLANK
      case OpExpire(now) => BLANK.(expired := multiset(Expire(q.value, now).1))
      case _ => BLANK
  }

  /** The value that a contest serves from the subbuffer. */
  function Served(q: Option<Queue>, op: Op, key: Key): seq<Value>
  {
    if !op.OpTop? || op.winner != Some(key) || q.None? then [] else
      var i := FirstAvailable(q.value.entries, op.contest.now, op.contest.ackTimeout);
      if i == |q.value.entries| then [] else [q.value.entries[i].value]
  }

  /** What a caller receives: values accepted by push, returned by push and expire, found by erase, and served by top. */
  datatype Receipt = Receipt(accepted: seq<FullValue>, exceeded: seq<FullValue>, expired: seq<FullValue>,
                             erased: seq<FullValue>, served: seq<FullValue>)

  const NOTHING: Receipt := Receipt([], [], [], [], [])

  /** The receipt agrees with the ledger of one subbuffer, and with what it served. */
  predicate Agrees(r: Receipt, key: Key, l: Ledger, served: seq<Value>)
  {
    && multiset(Of(r.accepted, key)) == l.pushed && multiset(Of(r.exceeded, key)) == l.exceeded
    && multiset(Of(r.expired, key)) == l.expired && multiset(Of(r.erased, key)) == l.erased
    && Of(r.served, key) == served
  }

  ghost predicate Tells(r: Receipt, qs: Queues, op: Op)
  {
    forall key :: Agrees(r, key, Posting(Get(qs, key), op, key), Served(Get(qs, key), op, key))
  }

  lemma NothingToTell(qs: Queues, op: Op)
    requires op.OpCreate? || op.OpReplace? || op.OpUpdate? || op.OpRemove? || op.OpPop? || op.OpRefused?
             || (op.OpTop? && op.winner == None)
    ensures Tells(NOTHING, qs, op)
  {
  }

  lemma OfOne(v: FullValue, key: Key)
    ensures Of([v], key) == if key == v.key then [v.value] else []
  {
    assert [v][1..] == [];
  }

  lemma PushTells(qs: Queues, v: FullValue, exceeded: Option<seq<FullValue>>)
    requires v.key !in qs ==> exceeded == None
    requires v.key in qs ==> exceeded == Some(Tagged(v.key, Push(qs[v.key], v.value.data, v.value.pushTime).1))
    ensures Tells(if exceeded.None? then NOTHING else NOTHING.(accepted := [v], exceeded := exceeded.value),
                  qs, OpPush(v.key, v.value))
  {
    var r := if exceeded.None? then NOTHING else NOTHING.(accepted := [v], exceeded := exceeded.value);
    var op := OpPush(v.key, v.value);
    forall key ensures Agrees(r, key, Posting(Get(qs, key), op, key), Served(Get(qs, key), op, key)) {
      if v.key in qs {
        PushAgrees(Get(qs, key), v, Push(qs[v.key], v.value.data, v.value.pushTime).1, key);
      }
    }
  }

  lemma PushAgrees(q: Option<Queue>, v: FullValue, values: seq<Value>, key: Key)
    requires key == v.key ==> q.Some? && values == Push(q.value, v.value.data, v.value.pushTime).1
    ensures Agrees(NOTHING.(accepted := [v], exceeded := Tagged(v.key, values)), key,
                   Posting(q, OpPush(v.key, v.value), key), Served(q, OpPush(v.key, v.value), key))
  {
    PushPosting(q, OpPush(v.key, v.value), values, key);
    PushReceipt(v, values, key);
  }

  lemma PushPosting(q: Option<Queue>, op: Op, values: seq<Value>, key: Key)
    requires op.OpPush?
    requires key == op.key ==> q.Some? && values == Push(q.value, op.value.data, op.value.pushTime).1
    ensures Posting(q, op, key)
            == if key == op.key then BLANK.(pushed := multiset{op.value}, exceeded := multiset(values)) else BLANK
    ensures Served(q, op, key) == []
  {
  }

  lemma PushReceipt(v: FullValue, values: seq<Value>, key: Key)
    ensures Agrees(NOTHING.(accepted := [v], exceeded := Tagged(v.key, values)), key,
                   if key == v.key then BLANK.(pushed := multiset{v.value}, exceeded := multiset(values)) else BLANK, [])
  {
    OfOne(v, key);
    OfTagged(v.key, values, key);
  }

  lemma EraseTells(qs: Queues, v: FullValue, found: bool)
    requires found == (v.key in qs && Erase(qs[v.key], v.value).1)
    ensures Tells(if found then NOTHING.(erased := [v]) else NOTHING, qs, OpErase(v.key, v.value))
  {
    forall key ensures var op := OpErase(v.key, v.value);
                       Agrees(if found then NOTHING.(erased := [v]) else NOTHING, key,
                              Posting(Get(qs, key), op, key), Served(Get(qs, key), op, key))
    {
      OfOne(v, key);
    }
  }

  lemma ExpireTells(qs: Queues, now: int, after: Queues, expired: seq<FullValue>)
    requires Expiring(qs, now, after, expired, {})
    ensures Tells(NOTHING.(expired := expired), qs, OpExpire(now))
  {
    forall key ensures Agrees(NOTHING.(expired := expired), key,
                              Posting(Get(qs, key), OpExpire(now), key), Served(Get(qs, key), OpExpire(now), key))
    {
      if key in qs {
        assert Settled(Expire(qs[key], now), qs[key], after[key], Of(expired, key), true);
        ExpiredAgrees(qs[key], now, expired, key);
      } else {
        assert Of(expired, key) == [];
      }
    }
  }

  lemma ExpiredAgrees(q: Queue, now: int, expired: seq<FullValue>, key: Key)
    requires Of(expired, key) == Expire(q, now).1
    ensures Agrees(NOTHING.(expired := expired), key, Posting(Some(q), OpExpire(now), key), Served(Some(q), OpExpire(now), key))
  {
  }

  lemma TopTells(qs: Queues, c: Contest, v: FullValue)
    requires v.key in qs
    requires var q := qs[v.key];
             var i := FirstAvailable(q.entries, c.now, c.ackTimeout); i < |q.entries| && v.value == q.entries[i].value
    ensures Tells(NOTHING.(served := [v]), qs, OpTop(c, Some(v.key)))
  {
    forall key ensures var op := OpTop(c, Some(v.key));
                       Agrees(NOTHING.(served := [v]), key, Posting(Get(qs, key), op, key), Served(Get(qs, key), op, key))
    {
      OfOne(v, key);
    }
  }

  // ----- the calls on the object take these steps

  lemma Same(qs: Queues, rs: Queues)
    requires forall k :: Get(qs, k) == Get(rs, k)
    ensures qs == rs
  {
    forall k ensures k in qs <==> k in rs {
      assert Get(qs, k) == Get(rs, k);
    }
    forall k | k in qs ensures qs[k] == rs[k] {
      assert Get(qs, k) == Get(rs, k);
    }
  }

  lemma Untouched(op: Op, key: Key)
    requires key !in Named(op)
    ensures Effect(None, op, key) == None
  {
  }

  /** A call that changes one subbuffer, or makes it. */
  lemma StepOne(qs: Queues, op: Op, key: Key, q: Queue)
    requires Effect(Get(qs, key), op, key) == Some(q) && Named(op) <= {key}
    requires forall k :: k in qs && k != key ==> Effect(Some(qs[k]), op, k) == Some(qs[k])
    ensures Step(qs, op) == qs[key := q]
  {
    forall k ensures Get(Step(qs, op), k) == Get(qs[key := q], k) {
      StepAt(qs, op, k);
      if k !in qs && k != key {
        Untouched(op, k);
      }
    }
    Same(Step(qs, op), qs[key := q]);
  }

  lemma StepNone(qs: Queues, op: Op)
    requires Named(op) <= qs.Keys
    requires forall k :: k in qs ==> Effect(Some(qs[k]), op, k) == Some(qs[k])
    ensures Step(qs, op) == qs
  {
    forall k ensures Get(Step(qs, op), k) == Get(qs, k) {
      StepAt(qs, op, k);
      if k !in qs {
        Untouched(op, k);
      }
    }
    Same(Step(qs, op), qs);
  }

  /** A call as its caller writes it. */
  datatype Call =
    | CallCreate(key: Key, cfgs: seq<Settings>, now: int)
    | CallReplace(key: Key, cfgs: seq<Settings>, now: int)
    | CallUpdate(key: Key, cfgs: seq<Settings>, now: int)
    | CallRemove(key: Key)
    | CallPush(value: FullValue)
    | CallPop(key: Key)
    | CallErase(value: FullValue)
    | CallExpire(now: int)
    | CallTop(contest: Contest)

  predicate ProperCall(call: Call)
  {
    match call
    case CallCreate(_, cfgs, _) => cfgs != [] ==> Proper(ConfigOf(cfgs))
    case CallReplace(_, cfgs, _) => cfgs != [] ==> Proper(ConfigOf(cfgs))
    case CallUpdate(_, cfgs, _) => cfgs != [] ==> Proper(ConfigOf(cfgs))
    case CallTop(c) => c.now > ZERO_POINT && c.ackTimeout >= 0
    case _ => true
  }

  /** Which step a call takes; who wins a contest is for the object to say. */
  predicate Takes(call: Call, op: Op)
  {
    match call
    case CallCreate(key, cfgs, now) => op == if cfgs == [] then OpRefused else OpCreate(key, ConfigOf(cfgs), now)
    case CallReplace(key, cfgs, now) => op == if cfgs == [] then OpRemove(key) else OpReplace(key, ConfigOf(cfgs), now)
    case CallUpdate(key, cfgs, now) => op == if cfgs == [] then OpRefused else OpUpdate(key, ConfigOf(cfgs), now)
    case CallRemove(key) => op == OpRemove(key)
    case CallPush(v) => op == OpPush(v.key, v.value)
    case CallPop(key) => op == OpPop(key)
    case CallErase(v) => op == OpErase(v.key, v.value)
    case CallExpire(now) => op == OpExpire(now)
    case CallTop(c) => op.OpTop? && op.contest == c
  }

  method PerformCreate(b: DynamicBuffer, key: Key, cfgs: seq<Settings>, now: int) returns (op: Op)
    requires b.Valid() && ProperCall(CallCreate(key, cfgs, now))
    modifies b
    ensures b.Valid() && fresh(b.subs.Values - old(b.subs.Values))
    ensures Takes(CallCreate(key, cfgs, now), op) && Legal(old(b.View()), op) && b.View() == Step(old(b.View()), op)
    ensures Tells(NOTHING, old(b.View()), op)
  {
    ghost var qs := b.View();
    var ok := b.Create(key, cfgs, now);
    op := if cfgs == [] then OpRefused else OpCreate(key, ConfigOf(cfgs), now);
    NothingToTell(qs, op);
    if ok {
      StepOne(qs, op, key, Created(ConfigOf(cfgs), now));
    } else {
      StepNone(qs, op);
    }
  }

  method PerformReplace(b: DynamicBuffer, key: Key, cfgs: seq<Settings>, now: int) returns (op: Op)
    requires b.Valid() && ProperCall(CallReplace(key, cfgs, now))
    modifies b
    ensures b.Valid() && fresh(b.subs.Values - old(b.subs.Values))
    ensures Takes(CallReplace(key, cfgs, now), op) && Legal(old(b.View()), op) && b.View() == Step(old(b.View()), op)
    ensures Tells(NOTHING, old(b.View()), op)
  {
    ghost var qs := b.View();
    var ok := b.Replace(key, cfgs, now);
    op := if cfgs == [] then OpRemove(key) else OpReplace(key, ConfigOf(cfgs), now);
    NothingToTell(qs, op);
    if ok {
      StepOne(qs, op, key, Created(ConfigOf(cfgs), now));
    } else {
      StepRemove(qs, key);
    }
  }

  lemma StepRemove(qs: Queues, key: Key)
    ensures Step(qs, OpRemove(key)) == qs - {key}
  {
  }

  method PerformUpdate(b: DynamicBuffer, key: Key, cfgs: seq<Settings>, now: int) returns (op: Op)
    requires b.Valid() && ProperCall(CallUpdate(key, cfgs, now))
    modifies b, b.subs.Values
    ensures b.Valid() && fresh(b.subs.Values - old(b.subs.Values))
    ensures Takes(CallUpdate(key, cfgs, now), op) && Legal(old(b.View()), op) && b.View() == Step(old(b.View()), op)
    ensures Tells(NOTHING, old(b.View()), op)
  {
    ghost var qs := b.View();
    var ok := b.Update(key, cfgs, now);
    op := if cfgs == [] then OpRefused else OpUpdate(key, ConfigOf(cfgs), now);
    NothingToTell(qs, op);
    if ok {
      StepOne(qs, op, key, b.View()[key]);
    } else {
      StepNone(qs, op);
    }
  }

  method PerformPush(b: DynamicBuffer, v: FullValue) returns (op: Op, receipt: Receipt)
    requires b.Valid()
    modifies b.subs.Values
    ensures b.Valid()
    ensures Takes(CallPush(v), op) && b.View() == Step(old(b.View()), op)
    ensures Tells(receipt, old(b.View()), op)
  {
    ghost var qs := b.View();
    var exceeded := b.PushFull(v);
    op := OpPush(v.key, v.value);
    receipt := if exceeded.None? then NOTHING else NOTHING.(accepted := [v], exceeded := exceeded.value);
    PushTells(qs, v, exceeded);
    if v.key in qs {
      StepOne(qs, op, v.key, Push(qs[v.key], v.value.data, v.value.pushTime).0);
    } else {
      StepNone(qs, op);
    }
  }

  /** A caller pops only what is there. */
  method PerformPop(b: DynamicBuffer, key: Key) returns (op: Op)
    requires b.Valid()
    modifies b.subs.Values
    ensures b.Valid()
    ensures Takes(CallPop(key), op) && b.View() == Step(old(b.View()), op)
    ensures Tells(NOTHING, old(b.View()), op)
  {
    ghost var qs := b.View();
    op := OpPop(key);
    NothingToTell(qs, op);
    if key in b.subs && b.subs[key].data != [] {
      b.EntryProper(key);
      b.PopFrom(key);
      StepOne(qs, op, key, qs[key].(entries := qs[key].entries[1..]));
    } else {
      assert key in qs ==> qs[key] == b.subs[key].View();
      StepNone(qs, op);
    }
  }

  method PerformErase(b: DynamicBuffer, v: FullValue) returns (op: Op, receipt: Receipt)
    requires b.Valid()
    modifies b.subs.Values
    ensures b.Valid()
    ensures Takes(CallErase(v), op) && b.View() == Step(old(b.View()), op)
    ensures Tells(receipt, old(b.View()), op)
  {
    ghost var qs := b.View();
    var found := b.EraseFull(v);
    op := OpErase(v.key, v.value);
    receipt := if found == Some(true) then NOTHING.(erased := [v]) else NOTHING;
    EraseTells(qs, v, found == Some(true));
    if v.key in qs {
      StepOne(qs, op, v.key, Erase(qs[v.key], v.value).0);
    } else {
      StepNone(qs, op);
    }
  }

  method PerformExpire(b: DynamicBuffer, now: int) returns (op: Op, receipt: Receipt)
    requires b.Valid()
    modifies b.subs.Values
    ensures b.Valid()
    ensures Takes(CallExpire(now), op) && b.View() == Step(old(b.View()), op)
    ensures Tells(receipt, old(b.View()), op)
  {
    ghost var qs := b.View();
    var expired := b.ExpireAll(now);
    op := OpExpire(now);
    receipt := NOTHING.(expired := expired);
    ExpireTells(qs, now, b.View(), expired);
    StepExpire(qs, now, b.View(), expired);
  }

  lemma StepExpire(qs: Queues, now: int, after: Queues, expired: seq<FullValue>)
    requires Expiring(qs, now, after, expired, {})
    ensures after == Step(qs, OpExpire(now))
  {
    forall k | k in qs ensures k in after && Effect(Get(qs, k), OpExpire(now), k) == Some(after[k]) {
      assert Settled(Expire(qs[k], now), qs[k], after[k], Of(expired, k), true);
    }
  }

  lemma StepTop(qs: Queues, c: Contest, key: Key)
    requires key in qs
    ensures var q := qs[key];
            var i := FirstAvailable(q.entries, c.now, c.ackTimeout);
            i < |q.entries| ==> Step(qs, OpTop(c, Some(key))) == qs[key := Serve(q, c.now, i)]
  {
    var q := qs[key];
    var i := FirstAvailable(q.entries, c.now, c.ackTimeout);
    if i < |q.entries| {
      StepOne(qs, OpTop(c, Some(key)), key, Serve(q, c.now, i));
    }
  }

  method PerformTop(b: DynamicBuffer, c: Contest) returns (op: Op, receipt: Receipt)
    requires b.Valid() && ProperCall(CallTop(c))
    modifies b.subs.Values
    ensures b.Valid()
    ensures Takes(CallTop(c), op) && Legal(old(b.View()), op) && b.View() == Step(old(b.View()), op)
    ensures Tells(receipt, old(b.View()), op)
  {
    ghost var qs := b.View();
    var top := b.Top(c);
    if top.None? {
      op, receipt := OpTop(c, None), NOTHING;
      NothingToTell(qs, op);
      StepNone(qs, op);
    } else {
      var key := top.value.key;
      op, receipt := OpTop(c, Some(key)), NOTHING.(served := [top.value]);
      TopTells(qs, c, top.value);
      StepTop(qs, c, key);
    }
  }

  method Perform(b: DynamicBuffer, call: Call) returns (op: Op, receipt: Receipt)
    requires b.Valid() && ProperCall(call)
    modifies b, b.subs.Values
    ensures b.Valid() && fresh(b.subs.Values - old(b.subs.Values))
    ensures Takes(call, op) && Legal(old(b.View()), op) && b.View() == Step(old(b.View()), op)
    ensures Tells(receipt, old(b.View()), op)
  {
    receipt := NOTHING;
    match call {
      case CallCreate(key, cfgs, now) => op := PerformCreate(b, key, cfgs, now);
      case CallReplace(key, cfgs, now) => op := PerformReplace(b, key, cfgs, now);
      case CallUpdate(key, cfgs, now) => op := PerformUpdate(b, key, cfgs, now);
      case CallRemove(key) =>
        StepRemove(b.View(), key);
        NothingToTell(b.View(), OpRemove(key));
        b.Remove(key);
        op := OpRemove(key);
      case CallPush(v) => op, receipt := PerformPush(b, v);
      case CallPop(key) => op := PerformPop(b, key);
      case CallErase(v) => op, receipt := PerformErase(b, v);
      case CallExpire(now) => op, receipt := PerformExpire(b, now);
      case CallTop(c) => op, receipt := PerformTop(b, c);
    }
  }

  ghost predicate LegalRun(qs: Queues, ops: seq<Op>)
    decreases |ops|
  {
    AllProper(qs) && (ops == [] || (Legal(qs, ops[0]) && LegalRun(Step(qs, ops[0]), ops[1..])))
  }

  function Run(qs: Queues, ops: seq<Op>): Queues
    decreases |ops|
  {
    if ops == [] then qs else Run(Step(qs, ops[0]), ops[1..])
  }

  function Account(qs: Queues, ops: seq<Op>, key: Key): Ledger
    decreases |ops|
  {
    if ops == [] then BLANK
    else
      var before := ops[..|ops| - 1];
      Add(Account(qs, before, key), Posting(Get(Run(qs, before), key), ops[|ops| - 1], key))
  }

  /** The values that the contests of a run serve from one subbuffer, in order. */
  function ServedIn(qs: Queues, ops: seq<Op>, key: Key): seq<Value>
    decreases |ops|
  {
    if ops == [] then []
    else
      var before := ops[..|ops| - 1];
      ServedIn(qs, before, key) + Served(Get(Run(qs, before), key), ops[|ops| - 1], key)
  }

  ghost predicate TellsRun(r: Receipt, qs: Queues, ops: seq<Op>)
  {
    forall key :: Agrees(r, key, Account(qs, ops, key), ServedIn(qs, ops, key))
  }

  /** The balance of one subbuffer, in terms of what the caller received. */
  predicate Settles(r: Receipt, key: Key, before: multiset<Value>, l: Ledger, after: multiset<Value>)
  {
    before + multiset(Of(r.accepted, key))
    == after + (multiset(Of(r.exceeded, key)) + multiset(Of(r.expired, key)) + multiset(Of(r.erased, key))
                + l.popped + l.dropped)
  }

  lemma AgreedSettles(r: Receipt, key: Key, before: multiset<Value>, l: Ledger, after: multiset<Value>, served: seq<Value>)
    requires Balanced(before, l, after) && Agrees(r, key, l, served)
    ensures Settles(r, key, before, l, after)
  {
  }

  ghost predicate AllSettled(r: Receipt, before: Queues, ops: seq<Op>, after: Queues)
  {
    forall key :: Settles(r, key, Queued(Get(before, key)), Account(before, ops, key), Queued(Get(after, key)))
  }

  /** Any calls on the object make a legal run, so what is proved of runs holds of the object, and
      what the calls return are the entries of the ledgers, so Conservation is about it. */
  method PerformAll(b: DynamicBuffer, calls: seq<Call>) returns (ops: seq<Op>, receipt: Receipt)
    requires b.Valid() && forall i :: 0 <= i < |calls| ==> ProperCall(calls[i])
    modifies b, b.subs.Values
    ensures b.Valid()
    ensures |ops| == |calls| && Performed(old(b.View()), calls, ops, receipt, b.View())
    ensures AllSettled(receipt, old(b.View()), ops, b.View())
  {
    ops, receipt := [], NOTHING;
    ghost var start := b.View();
    for i := 0 to |calls|
      invariant b.Valid() && fresh(b.subs.Values - old(b.subs.Values))
      invariant |ops| == i && Performed(start, calls, ops, receipt, b.View())
    {
      ghost var before := b.View();
      var op, more := Perform(b, calls[i]);
      PerformedMore(start, calls, ops, receipt, before, op, more);
      ops, receipt := ops + [op], Join(receipt, more);
    }
    Balance(receipt, start, ops, b.View());
  }

  /** The calls so far made this run and returned this receipt. */
  ghost predicate Performed(start: Queues, calls: seq<Call>, ops: seq<Op>, receipt: Receipt, view: Queues)
  {
    AllTake(calls, ops) && RunTo(start, ops, view) && TellsRun(receipt, start, ops)
  }

  lemma PerformedMore(start: Queues, calls: seq<Call>, ops: seq<Op>, receipt: Receipt, view: Queues, op: Op, more: Receipt)
    requires Performed(start, calls, ops, receipt, view) && |ops| < |calls| && Takes(calls[|ops|], op)
    requires Legal(view, op) && AllProper(Step(view, op)) && Tells(more, view, op)
    ensures Performed(start, calls, ops + [op], Join(receipt, more), Step(view, op))
  {
    TakeMore(calls, ops, op);
    RunFurther(start, ops, view, op);
    TellMore(receipt, more, start, ops, view, op);
  }

  function Join(r: Receipt, s: Receipt): Receipt
  {
    Receipt(r.accepted + s.accepted, r.exceeded + s.exceeded, r.expired + s.expired, r.erased + s.erased, r.served + s.served)
  }

  lemma JoinAgrees(r: Receipt, s: Receipt, key: Key, l: Ledger, m: Ledger, x: seq<Value>, y: seq<Value>)
    requires Agrees(r, key, l, x) && Agrees(s, key, m, y)
    ensures Agrees(Join(r, s), key, Add(l, m), x + y)
  {
    OfAppend(r.accepted, s.accepted, key);
    OfAppend(r.exceeded, s.exceeded, key);
    OfAppend(r.expired, s.expired, key);
    OfAppend(r.erased, s.erased, key);
    OfAppend(r.served, s.served, key);
  }

  lemma AccountAppend(qs: Queues, ops: seq<Op>, op: Op, key: Key)
    ensures var q := Get(Run(qs, ops), key);
            && Account(qs, ops + [op], key) == Add(Account(qs, ops, key), Posting(q, op, key))
            && ServedIn(qs, ops + [op], key) == ServedIn(qs, ops, key) + Served(q, op, key)
  {
    assert (ops + [op])[..|ops|] == ops;
  }

  lemma TellMore(r: Receipt, more: Receipt, start: Queues, ops: seq<Op>, view: Queues, op: Op)
    requires TellsRun(r, start, ops) && view == Run(start, ops) && Tells(more, view, op)
    ensures TellsRun(Join(r, more), start, ops + [op])
  {
    forall key ensures Agrees(Join(r, more), key, Account(start, ops + [op], key), ServedIn(start, ops + [op], key)) {
      AccountAppend(start, ops, op, key);
      JoinAgrees(r, more, key, Account(start, ops, key), Posting(Get(view, key), op, key),
                 ServedIn(start, ops, key), Served(Get(view, key), op, key));
    }
  }

  lemma Balance(r: Receipt, start: Queues, ops: seq<Op>, view: Queues)
    requires TellsRun(r, start, ops) && view == Run(start, ops)
    ensures AllSettled(r, start, ops, view)
  {
    forall key ensures Settles(r, key, Queued(Get(start, key)), Account(start, ops, key), Queued(Get(view, key))) {
      Conservation(start, ops, key);
      AgreedSettles(r, key, Queued(Get(start, key)), Account(start, ops, key), Queued(Get(view, key)),
                    ServedIn(start, ops, key));
    }
  }

  predicate AllTake(calls: seq<Call>, ops: seq<Op>)
  {
    |ops| <= |calls| && forall j :: 0 <= j < |ops| ==> Takes(calls[j], ops[j])
  }

  lemma TakeMore(calls: seq<Call>, ops: seq<Op>, op: Op)
    requires AllTake(calls, ops) && |ops| < |calls| && Takes(calls[|ops|], op)
    ensures AllTake(calls, ops + [op])
  {
    forall j | 0 <= j < |ops| + 1 ensures Takes(calls[j], (ops + [op])[j]) {
      var taken := if j < |ops| then ops[j] else op;
      assert Takes(calls[j], taken) && (ops + [op])[j] == taken;
    }
  }

  ghost predicate RunTo(start: Queues, ops: seq<Op>, view: Queues)
  {
    LegalRun(start, ops) && AllProper(view) && view == Run(start, ops)
  }

  lemma RunFurther(start: Queues, ops: seq<Op>, view: Queues, op: Op)
    requires RunTo(start, ops, view) && Legal(view, op) && AllProper(Step(view, op))
    ensures RunTo(start, ops + [op], Step(view, op))
  {
    LegalAppend(start, ops, op);
    RunAppend(start, ops, op);
  }

  lemma {:induction false} LegalAppend(qs: Queues, ops: seq<Op>, op: Op)
    requires LegalRun(qs, ops) && AllProper(Run(qs, ops)) && Legal(Run(qs, ops), op) && AllProper(Step(Run(qs, ops), op))
    ensures LegalRun(qs, ops + [op])
    decreases |ops|
  {
    if ops == [] {
      assert [] + [op] == [op] && [op][1..] == [];
    } else {
      assert (ops + [op])[0] == ops[0] && (ops + [op])[1..] == ops[1..] + [op];
      LegalAppend(Step(qs, ops[0]), ops[1..], op);
    }
  }

  lemma {:induction false} RunAppend(qs: Queues, ops: seq<Op>, op: Op)
    ensures Run(qs, ops + [op]) == Step(Run(qs, ops), op)
    decreases |ops|
  {
    if ops == [] {
      assert ops + [op] == [op] && [op][1..] == ops;
    } else {
      assert (ops + [op])[0] == ops[0] && (ops + [op])[1..] == ops[1..] + [op];
      RunAppend(Step(qs, ops[0]), ops[1..], op);
    }
  }

  // ----- conservation

  function Settlement(l: Ledger): multiset<Value>
  {
    l.exceeded + l.expired + l.erased + l.popped + l.dropped
  }

  /** Over every run, each value pushed to a subbuffer is accounted for exactly once. */
  lemma {:induction false} Conservation(qs: Queues, ops: seq<Op>, key: Key)
    ensures Balanced(Queued(Get(qs, key)), Account(qs, ops, key), Queued(Get(Run(qs, ops), key)))
    decreases |ops|
  {
    if ops == [] {
      Unmoved(Queued(Get(qs, key)));
    } else {
      var before, op := ops[..|ops| - 1], ops[|ops| - 1];
      var q := Get(Run(qs, before), key);
      assert ops == before + [op];
      RunAppend(qs, before, op);
      StepAt(Run(qs, before), op, key);
      Conservation(qs, before, key);
      StepConserves(q, op, key);
      AccountAppend(qs, before, op, key);
      BalancedAdd(Queued(Get(qs, key)), Account(qs, before, key), Queued(q), Posting(q, op, key), Queued(Effect(q, op, key)));
    }
  }

  /** What was queued and what was pushed is what is queued and what went elsewhere. */
  predicate Balanced(before: multiset<Value>, l: Ledger, after: multiset<Value>)
  {
    before + l.pushed == after + Settlement(l)
  }

  lemma BalancedAdd(a: multiset<Value>, l: Ledger, b: multiset<Value>, m: Ledger, c: multiset<Value>)
    requires Balanced(a, l, b) && Balanced(b, m, c)
    ensures Balanced(a, Add(l, m), c)
  {
    assert Settlement(Add(l, m)) == Settlement(l) + Settlement(m);
    calc {
      a + (l.pushed + m.pushed);
      (a + l.pushed) + m.pushed;
      (b + Settlement(l)) + m.pushed;
      (b + m.pushed) + Settlement(l);
      (c + Settlement(m)) + Settlement(l);
      c + (Settlement(l) + Settlement(m));
    }
  }

  lemma OneFate(p: multiset<Value>, m: multiset<Value>)
    ensures Settlement(BLANK) == multiset{}
    ensures Settlement(BLANK.(pushed := p, exceeded := m)) == m
    ensures Settlement(BLANK.(expired := m)) == m
    ensures Settlement(BLANK.(erased := m)) == m
    ensures Settlement(BLANK.(popped := m)) == m
    ensures Settlement(BLANK.(dropped := m)) == m
  {
  }

  lemma StepConserves(q: Option<Queue>, op: Op, key: Key)
    ensures Conserves(q, op, key)
  {
    match op {
      case OpPush(_, _) => PushBalanced(q, op, key);
      case OpPop(_) => PopBalanced(q, op, key);
      case OpErase(_, _) => EraseBalanced(q, op, key);
      case OpExpire(_) => ExpireBalanced(q, op, key);
      case OpTop(_, _) => TopBalanced(q, op, key);
      case OpReplace(_, _, _) => ReplaceBalanced(q, op, key);
      case OpRemove(_) => RemoveBalanced(q, op, key);
      case _ => ConfigBalanced(q, op, key);
    }
  }

  predicate Conserves(q: Option<Queue>, op: Op, key: Key)
  {
    Balanced(Queued(q), Posting(q, op, key), Queued(Effect(q, op, key)))
  }

  lemma ConfigBalanced(q: Option<Queue>, op: Op, key: Key)
    requires op.OpCreate? || op.OpUpdate? || op.OpRefused?
    ensures Conserves(q, op, key)
  {
    Unmoved(Queued(q));
    if !op.OpRefused? {
      NewIsEmpty(op.config, op.now);
    }
  }

  lemma ReplaceBalanced(q: Option<Queue>, op: Op, key: Key)
    requires op.OpReplace?
    ensures Conserves(q, op, key)
  {
    NewIsEmpty(op.config, op.now);
    Unmoved(Queued(q));
    DroppedBalanced(Queued(q));
  }

  lemma RemoveBalanced(q: Option<Queue>, op: Op, key: Key)
    requires op.OpRemove?
    ensures Conserves(q, op, key)
  {
    Unmoved(Queued(q));
    DroppedBalanced(Queued(q));
  }

  lemma NewIsEmpty(config: Config, now: int)
    ensures Contents(Created(config, now)) == multiset{}
  {
    assert Values(Created(config, now).entries) == [];
  }

  lemma Unmoved(m: multiset<Value>)
    ensures Balanced(m, BLANK, m)
  {
  }

  lemma DroppedBalanced(m: multiset<Value>)
    ensures Balanced(m, BLANK.(dropped := m), multiset{})
  {
  }

  lemma PushBalanced(q: Option<Queue>, op: Op, key: Key)
    requires op.OpPush?
    ensures Conserves(q, op, key)
  {
    Unmoved(Queued(q));
    if q.Some? && op.key == key {
      var v := op.value;
      PushConserves(q.value, v.data, v.pushTime);
      OneFate(multiset{v}, multiset(Push(q.value, v.data, v.pushTime).1));
      assert v == Value(v.pushTime, v.data);
    }
  }

  lemma PopBalanced(q: Option<Queue>, op: Op, key: Key)
    requires op.OpPop?
    ensures Conserves(q, op, key)
  {
    Unmoved(Queued(q));
    if q.Some? && op.key == key && q.value.entries != [] {
      var r, v := q.value.(entries := q.value.entries[1..]), q.value.entries[0].value;
      PopConserves(q.value);
      PoppedBalanced(Contents(q.value), multiset{v}, Contents(r));
      assert Effect(q, op, key) == Some(r) && Posting(q, op, key) == BLANK.(popped := multiset{v});
    }
  }

  lemma EraseBalanced(q: Option<Queue>, op: Op, key: Key)
    requires op.OpErase?
    ensures Conserves(q, op, key)
  {
    Unmoved(Queued(q));
    if q.Some? && op.key == key {
      var (r, found) := Erase(q.value, op.value);
      assert Effect(q, op, key) == Some(r);
      EraseConserves(q.value, op.value);
      if found {
        assert Posting(q, op, key) == BLANK.(erased := multiset{op.value});
        ErasedBalanced(Contents(q.value), multiset{op.value}, Contents(r));
      } else {
        assert Posting(q, op, key) == BLANK && r == q.value;
      }
    }
  }

  lemma PoppedBalanced(before: multiset<Value>, popped: multiset<Value>, after: multiset<Value>)
    requires before == after + popped
    ensures Balanced(before, BLANK.(popped := popped), after)
  {
  }

  lemma ErasedBalanced(before: multiset<Value>, erased: multiset<Value>, after: multiset<Value>)
    requires before == after + erased
    ensures Balanced(before, BLANK.(erased := erased), after)
  {
  }

  lemma ExpireBalanced(q: Option<Queue>, op: Op, key: Key)
    requires op.OpExpire?
    ensures Conserves(q, op, key)
  {
    if q.Some? {
      QueueExpires(q.value, op.now, Expire(q.value, op.now));
    } else {
      Unmoved(Queued(q));
    }
  }

  lemma QueueExpires(q: Queue, now: int, r: (Queue, seq<Value>))
    requires r == Expire(q, now)
    ensures Balanced(Contents(q), BLANK.(expired := multiset(r.1)), Contents(r.0))
  {
    ExpireConserves(q, now);
    ExpiredBalanced(Contents(q), multiset(r.1), Contents(r.0));
  }

  lemma ExpiredBalanced(before: multiset<Value>, expired: multiset<Value>, after: multiset<Value>)
    requires before == after + expired
    ensures Balanced(before, BLANK.(expired := expired), after)
  {
  }

  lemma TopBalanced(q: Option<Queue>, op: Op, key: Key)
    requires op.OpTop?
    ensures Conserves(q, op, key)
  {
    Unmoved(Queued(q));
    if q.Some? {
      var i := FirstAvailable(q.value.entries, op.contest.now, op.contest.ackTimeout);
      if i < |q.value.entries| {
        ServeConserves(q.value, op.contest.now, i);
      }
    }
  }

  // ----- order, and with it the early exits

  /** Pushes to the subbuffer carry times that do not decrease, and its order is never reconfigured. */
  ghost predicate InOrder(ops: seq<Op>, key: Key, newestFirst: bool, latest: int)
    decreases |ops|
  {
    if ops == [] then true
    else
      match ops[0]
      case OpCreate(k, config, _) =>
        (k == key ==> config.newestFirst == newestFirst) && InOrder(ops[1..], key, newestFirst, latest)
      case OpReplace(k, config, _) =>
        (k == key ==> config.newestFirst == newestFirst) && InOrder(ops[1..], key, newestFirst, latest)
      case OpUpdate(k, config, _) =>
        (k == key ==> config.newestFirst == newestFirst) && InOrder(ops[1..], key, newestFirst, latest)
      case OpPush(k, v) =>
        if k == key then latest <= v.pushTime && InOrder(ops[1..], key, newestFirst, v.pushTime)
        else InOrder(ops[1..], key, newestFirst, latest)
      case _ => InOrder(ops[1..], key, newestFirst, latest)
  }

  ghost predicate OrderedUpTo(q: Option<Queue>, newestFirst: bool, latest: int)
  {
    q.Some? ==>
      && Ordered(q.value) && q.value.config.newestFirst == newestFirst
      && forall i :: 0 <= i < |q.value.entries| ==> q.value.entries[i].value.pushTime <= latest
  }

  function Latest(op: Op, key: Key, latest: int): int
  {
    if op.OpPush? && op.key == key then op.value.pushTime else latest
  }

  lemma StepOrdered(q: Option<Queue>, op: Op, key: Key, newestFirst: bool, latest: int)
    requires OrderedUpTo(q, newestFirst, latest)
    requires op.OpCreate? || op.OpReplace? || op.OpUpdate? ==> op.key == key ==> op.config.newestFirst == newestFirst
    requires op.OpPush? && op.key == key ==> latest <= op.value.pushTime
    ensures OrderedUpTo(Effect(q, op, key), newestFirst, Latest(op, key, latest))
  {
    if q.Some? {
      match op {
        case OpPush(k, v) =>
          if k == key {
            PushOrdered(q.value, v, latest);
          }
        case OpPop(k) =>
          if q.value.entries != [] {
            SliceOrdered(q.value, 1, |q.value.entries|, latest);
            assert q.value.entries[1..|q.value.entries|] == q.value.entries[1..];
          }
        case OpErase(k, v) => EraseOrdered(q.value, v, latest);
        case OpExpire(now) => ExpireOrdered(q.value, now, latest);
        case OpTop(c, winner) => ServeOrdered(q.value, c, latest);
        case _ =>
      }
    }
  }

  lemma PushOrdered(q: Queue, v: Value, latest: int)
    requires OrderedUpTo(Some(q), q.config.newestFirst, latest) && latest <= v.pushTime
    ensures OrderedUpTo(Some(Push(q, v.data, v.pushTime).0), q.config.newestFirst, v.pushTime)
  {
  }

  lemma SliceOrdered(q: Queue, from: nat, to: nat, latest: int)
    requires OrderedUpTo(Some(q), q.config.newestFirst, latest) && from <= to <= |q.entries|
    ensures OrderedUpTo(Some(q.(entries := q.entries[from..to])), q.config.newestFirst, latest)
  {
  }

  lemma EraseOrdered(q: Queue, v: Value, latest: int)
    requires OrderedUpTo(Some(q), q.config.newestFirst, latest)
    ensures OrderedUpTo(Some(Erase(q, v).0), q.config.newestFirst, latest)
  {
  }

  lemma ExpireOrdered(q: Queue, now: int, latest: int)
    requires OrderedUpTo(Some(q), q.config.newestFirst, latest)
    ensures OrderedUpTo(Some(Expire(q, now).0), q.config.newestFirst, latest)
  {
  }

  lemma ServeOrdered(q: Queue, c: Contest, latest: int)
    requires OrderedUpTo(Some(q), q.config.newestFirst, latest)
    ensures var i := FirstAvailable(q.entries, c.now, c.ackTimeout);
            i < |q.entries| ==> OrderedUpTo(Some(Serve(q, c.now, i)), q.config.newestFirst, latest)
  {
  }

  lemma {:induction false} RunOrdered(qs: Queues, ops: seq<Op>, key: Key, newestFirst: bool, latest: int)
    requires InOrder(ops, key, newestFirst, latest) && OrderedUpTo(Get(qs, key), newestFirst, latest)
    ensures var q := Get(Run(qs, ops), key); q.Some? ==> Ordered(q.value)
    decreases |ops|
  {
    if ops != [] {
      StepAt(qs, ops[0], key);
      StepOrdered(Get(qs, key), ops[0], key, newestFirst, latest);
      RunOrdered(Step(qs, ops[0]), ops[1..], key, newestFirst, Latest(ops[0], key, latest));
    }
  }

  /** After every such run, from before the subbuffer is created, the early exits lose nothing. */
  lemma EarlyExitsExact(qs: Queues, ops: seq<Op>, key: Key, newestFirst: bool, latest: int, now: int, value: Value)
    requires key !in qs && InOrder(ops, key, newestFirst, latest)
    ensures var r := Run(qs, ops);
            key in r ==>
              && Expire(r[key], now).0.entries == Unexpired(r[key].entries, now, r[key].config.ttl)
              && (Erase(r[key], value).1 <==> value in Values(r[key].entries))
  {
    RunOrdered(qs, ops, key, newestFirst, latest);
    var r := Run(qs, ops);
    if key in r {
      ExpireExact(r[key], now);
      EraseExact(r[key], value);
    }
  }

  /** When the order of a filled queue is turned round, the early exit may keep what has expired. */
  lemma TurnedRoundKeepsExpired(key: Key, config: Config)
    requires config.ttl == 10 && config.maxQueue >= 2 && !config.newestFirst
    ensures var r := Run(map[], TurnRound(key, config));
            && key in r && |r[key].entries| == 2 && IsExpired(r[key].entries[0], 25, r[key].config.ttl)
            && !ExpiredTogether(r[key], 25) && Expire(r[key], 25) == (r[key], [])
  {
    var q := TwoQueued(config.(newestFirst := true), 0 - config.blackout - config.blackout);
    TurnRoundRun(key, config);
    assert !IsExpired(q.entries[1], 25, 10) && IsExpired(q.entries[0], 25, 10);
    assert q.entries[..2] == q.entries && q.entries[2..] == [];
  }

  function TurnRound(key: Key, config: Config): seq<Op>
  {
    [OpCreate(key, config, 0), OpPush(key, Value(1, [])), OpPush(key, Value(20, [])),
     OpUpdate(key, config.(newestFirst := true), 20)]
  }

  function TwoQueued(config: Config, lastAccess: int): Queue
  {
    Queue(config, [Entry(ZERO_POINT, Value(1, [])), Entry(ZERO_POINT, Value(20, []))], lastAccess)
  }

  lemma TurnRoundRun(key: Key, config: Config)
    requires config.maxQueue >= 2 && !config.newestFirst
    ensures Get(Run(map[], TurnRound(key, config)), key)
            == Some(TwoQueued(config.(newestFirst := true), 0 - config.blackout - config.blackout))
  {
    var ops, q0 := TurnRound(key, config), Created(config, 0);
    var e1, e2 := Entry(ZERO_POINT, Value(1, [])), Entry(ZERO_POINT, Value(20, []));
    assert [] + [e1] == [e1] && [e1] + [e2] == [e1, e2];
    assert Push(q0, [], 1).0 == q0.(entries := [e1]);
    assert Push(q0.(entries := [e1]), [], 20).0 == q0.(entries := [e1, e2]);
    RunAt(map[], ops, key);
    EffectsFour(None, ops, key);
    assert Effect(None, ops[0], key) == Some(q0);
    assert Effect(Some(q0), ops[1], key) == Some(q0.(entries := [e1]));
    assert Effect(Some(q0.(entries := [e1])), ops[2], key) == Some(q0.(entries := [e1, e2]));
  }

  /** A run as one subbuffer sees it. */
  function Effects(q: Option<Queue>, ops: seq<Op>, key: Key): Option<Queue>
    decreases |ops|
  {
    if ops == [] then q else Effects(Effect(q, ops[0], key), ops[1..], key)
  }

  /** Subbuffers touch one another only through who wins. */
  lemma {:induction false} RunAt(qs: Queues, ops: seq<Op>, key: Key)
    ensures Get(Run(qs, ops), key) == Effects(Get(qs, key), ops, key)
    decreases |ops|
  {
    if ops != [] {
      StepAt(qs, ops[0], key);
      RunAt(Step(qs, ops[0]), ops[1..], key);
    }
  }

  lemma EffectsStep(q: Option<Queue>, ops: seq<Op>, key: Key, i: nat)
    requires i < |ops|
    ensures Effects(q, ops[i..], key) == Effects(Effect(q, ops[i], key), ops[i + 1..], key)
  {
    assert ops[i..][1..] == ops[i + 1..];
  }

  lemma EffectsFour(q: Option<Queue>, ops: seq<Op>, key: Key)
    requires |ops| == 4
    ensures Effects(q, ops, key)
            == Effect(Effect(Effect(Effect(q, ops[0], key), ops[1], key), ops[2], key), ops[3], key)
  {
    var q1 := Effect(q, ops[0], key);
    var q2 := Effect(q1, ops[1], key);
    var q3 := Effect(q2, ops[2], key);
    assert ops[0..] == ops;
    EffectsStep(q, ops, key, 0);
    EffectsStep(q1, ops, key, 1);
    EffectsStep(q2, ops, key, 2);
    EffectsStep(q3, ops, key, 3);
  }

  // ----- spacing

  /** The call leaves the subbuffer in place with its configuration. */
  predicate Quiet(op: Op, key: Key)
  {
    match op
    case OpCreate(k, _, _) => k != key
    case OpReplace(k, _, _) => k != key
    case OpUpdate(k, _, _) => k != key
    case OpRemove(k) => k != key
    case _ => true
  }

  predicate AllQuiet(ops: seq<Op>, key: Key)
  {
    forall i :: 0 <= i < |ops| ==> Quiet(ops[i], key)
  }

  /** When the subbuffer won a contest. */
  function Serves(ops: seq<Op>, key: Key): seq<int>
  {
    if ops == [] then []
    else (if ops[0].OpTop? && ops[0].winner == Some(key) then [ops[0].contest.now] else []) + Serves(ops[1..], key)
  }

  lemma QuietKeeps(qs: Queues, op: Op, key: Key)
    requires AllProper(qs) && Legal(qs, op) && key in qs && Quiet(op, key)
    ensures key in Step(qs, op) && Step(qs, op)[key].config == qs[key].config
    ensures if op.OpTop? && op.winner == Some(key)
            then Step(qs, op)[key].lastAccess == op.contest.now > qs[key].lastAccess + qs[key].config.blackout
            else Step(qs, op)[key].lastAccess == qs[key].lastAccess
  {
  }

  /** Each time is more than `gap` after the one before, the first after `from`. */
  predicate Apart(times: seq<int>, from: int, gap: int)
  {
    times == [] || (times[0] > from + gap && Apart(times[1..], times[0], gap))
  }

  /** Between reconfigurations, the times at which a subbuffer is served are more than its blackout apart. */
  lemma {:induction false} BlackoutSpacing(qs: Queues, ops: seq<Op>, key: Key)
    requires LegalRun(qs, ops) && key in qs && AllQuiet(ops, key)
    ensures Apart(Serves(ops, key), qs[key].lastAccess, qs[key].config.blackout)
    decreases |ops|
  {
    if ops != [] {
      QuietKeeps(qs, ops[0], key);
      BlackoutSpacing(Step(qs, ops[0]), ops[1..], key);
      ServesStep(ops, key);
    }
  }

  lemma ServesStep(ops: seq<Op>, key: Key)
    requires ops != []
    ensures if ops[0].OpTop? && ops[0].winner == Some(key)
            then Serves(ops, key) != [] && Serves(ops, key)[0] == ops[0].contest.now
                 && Serves(ops, key)[1..] == Serves(ops[1..], key)
            else Serves(ops, key) == Serves(ops[1..], key)
  {
  }

  lemma {:induction false} ApartMeans(times: seq<int>, from: int, gap: int)
    requires Apart(times, from, gap) && gap >= 0
    ensures forall i :: 0 <= i < |times| ==> times[i] > from + gap
    ensures forall i, j :: 0 <= i < j < |times| ==> times[j] > times[i] + gap
  {
    if times != [] {
      ApartMeans(times[1..], times[0], gap);
      assert forall i :: 1 <= i < |times| ==> times[i] == times[1..][i - 1];
    }
  }

  /** Where the i-th stored value of the subbuffer is after a call, if it is still stored. */
  function Follow(q: Queue, op: Op, key: Key, i: nat): Option<nat>
    requires i < |q.entries|
  {
    match op
    case OpReplace(k, _, _) => if k == key then None else Some(i)
    case OpRemove(k) => if k == key then None else Some(i)
    case OpPush(k, v) =>
      if k != key then Some(i) else
        var j := if q.config.newestFirst then i + 1 else i;
        if j < q.config.maxQueue then Some(j) else None
    case OpPop(k) => if k != key then Some(i) else if i == 0 then None else Some(i - 1)
    case OpErase(k, v) =>
      var n := EraseIndex(q.entries, v, q.config.newestFirst, 0);
      if k != key || i < n then Some(i) else if i == n then None else Some(i - 1)
    case OpExpire(now) =>
      if q.config.newestFirst then
        if i < |q.entries| - BackRun(q.entries, now, q.config.ttl) then Some(i) else None
      else
        var n := FrontRun(q.entries, now, q.config.ttl);
        if i < n then None else Some(i - n)
    case _ => Some(i)
  }

  predicate Sends(q: Queue, op: Op, key: Key, i: nat)
  {
    && op.OpTop? && op.winner == Some(key)
    && FirstAvailable(q.entries, op.contest.now, op.contest.ackTimeout) == i < |q.entries|
  }

  /** Following a value finds that value; only a send changes when it was sent. */
  predicate Found(q: Queue, op: Op, key: Key, i: nat)
    requires i < |q.entries|
  {
    Follow(q, op, key, i).Some? ==>
      var r, j := Effect(Some(q), op, key), Follow(q, op, key, i).value;
      && r.Some? && j < |r.value.entries|
      && r.value.entries[j] == if Sends(q, op, key, i) then q.entries[i].(sent := op.contest.now) else q.entries[i]
  }

  lemma FollowFinds(q: Queue, op: Op, key: Key, i: nat)
    requires i < |q.entries|
    ensures Found(q, op, key, i)
  {
    match op {
      case OpPush(_, _) => FollowPush(q, op, key, i);
      case OpErase(_, _) => FollowErase(q, op, key, i);
      case OpExpire(_) => FollowExpire(q, op, key, i);
      case OpTop(_, _) => FollowTop(q, op, key, i);
      case _ => FollowOther(q, op, key, i);
    }
  }

  lemma FollowPush(q: Queue, op: Op, key: Key, i: nat)
    requires op.OpPush? && i < |q.entries|
    ensures Found(q, op, key, i)
  {
  }

  lemma FollowErase(q: Queue, op: Op, key: Key, i: nat)
    requires op.OpErase? && i < |q.entries|
    ensures Found(q, op, key, i)
  {
  }

  lemma FollowExpire(q: Queue, op: Op, key: Key, i: nat)
    requires op.OpExpire? && i < |q.entries|
    ensures Found(q, op, key, i)
  {
  }

  lemma FollowTop(q: Queue, op: Op, key: Key, i: nat)
    requires op.OpTop? && i < |q.entries|
    ensures Found(q, op, key, i)
  {
  }

  lemma FollowOther(q: Queue, op: Op, key: Key, i: nat)
    requires !op.OpPush? && !op.OpErase? && !op.OpExpire? && !op.OpTop? && i < |q.entries|
    ensures Found(q, op, key, i)
  {
  }

  /** The contests in which one stored value was sent. */
  function Sendings(qs: Queues, ops: seq<Op>, key: Key, i: nat): seq<Contest>
    requires key in qs && i < |qs[key].entries|
    decreases |ops|
  {
    if ops == [] then []
    else
      var q, op := qs[key], ops[0];
      var sent := if Sends(q, op, key, i) then [op.contest] else [];
      var next := Follow(q, op, key, i);
      if next.None? then sent
      else
        FollowFinds(q, op, key, i);
        StepAt(qs, op, key);
        sent + Sendings(Step(qs, op), ops[1..], key, next.value)
  }

  /** Each sending, after one at `last` if there was one, waits for its own ack timeout. */
  predicate Patient(sent: seq<Contest>, last: int)
  {
    sent == [] ||
    (&& (last == ZERO_POINT || sent[0].now > last + sent[0].ackTimeout)
     && sent[0].ackTimeout >= 0 && sent[0].now > ZERO_POINT
     && Patient(sent[1..], sent[0].now))
  }

  /** A stored value is sent again only after strictly more than the ack timeout of the later call. */
  lemma {:induction false} ResendSpacing(qs: Queues, ops: seq<Op>, key: Key, i: nat)
    requires LegalRun(qs, ops) && key in qs && i < |qs[key].entries|
    ensures Patient(Sendings(qs, ops, key, i), qs[key].entries[i].sent)
    decreases |ops|
  {
    if ops != [] {
      var q, op := qs[key], ops[0];
      var next := Follow(q, op, key, i);
      if next.Some? {
        FollowFinds(q, op, key, i);
        StepAt(qs, op, key);
        ResendSpacing(Step(qs, op), ops[1..], key, next.value);
        var later := Sendings(Step(qs, op), ops[1..], key, next.value);
        if op.OpTop? {
          assert ([op.contest] + later)[1..] == later;
        }
        assert [] + later == later;
      }
    }
  }

  lemma {:induction false} PatientMeans(sent: seq<Contest>, last: int)
    requires Patient(sent, last)
    ensures last != ZERO_POINT ==> forall n :: 0 <= n < |sent| ==> sent[n].now > last + sent[n].ackTimeout
    ensures forall m, n :: 0 <= m < n < |sent| ==> sent[n].now > sent[m].now + sent[n].ackTimeout
  {
    if sent != [] {
      PatientMeans(sent[1..], sent[0].now);
      assert forall i :: 1 <= i < |sent| ==> sent[i] == sent[1..][i - 1];
    }
  }

  // ----- fairness

  /** How fast the priority of a subbuffer grows. */
  function Rate(q: Queue): (r: real)
    requires Proper(q.config)
    ensures r > 0.0
  {
    q.config.valueBase / q.config.ttl as real
  }

  lemma PriorityIsRateTimesWait(qs: Queues, c: Contest, key: Key)
    requires AllProper(qs) && Eligible(qs, c, key)
    ensures Priority(qs, c, key) == Rate(qs[key]) * (c.now - qs[key].lastAccess) as real
    ensures c.now > qs[key].lastAccess
  {
  }

  /** In every contest that b wins, a takes part; a never wins. */
  ghost predicate Overtaken(qs: Queues, ops: seq<Op>, a: Key, b: Key)
    requires LegalRun(qs, ops)
    decreases |ops|
  {
    if ops == [] then true
    else
      && Quiet(ops[0], a) && Quiet(ops[0], b)
      && (ops[0].OpTop? ==> ops[0].winner != Some(a))
      && (ops[0].OpTop? && ops[0].winner == Some(b) ==> Eligible(qs, ops[0].contest, a))
      && Overtaken(Step(qs, ops[0]), ops[1..], a, b)
  }

  /** Win times of b while a, last served at t0, waits; b was last served at `last`. */
  predicate Overtakes(times: seq<int>, last: int, t0: int, rA: real, rB: real)
  {
    times == [] ||
    (&& times[0] > t0
     && rB * (times[0] - last) as real >= rA * (times[0] - t0) as real
     && Overtakes(times[1..], times[0], t0, rA, rB))
  }

  lemma {:induction false} OvertakingTimes(qs: Queues, ops: seq<Op>, a: Key, b: Key)
    requires LegalRun(qs, ops) && a in qs && b in qs && a != b && Overtaken(qs, ops, a, b)
    ensures Overtakes(Serves(ops, b), qs[b].lastAccess, qs[a].lastAccess, Rate(qs[a]), Rate(qs[b]))
    decreases |ops|
  {
    if ops != [] {
      QuietKeeps(qs, ops[0], a);
      QuietKeeps(qs, ops[0], b);
      OvertakingTimes(Step(qs, ops[0]), ops[1..], a, b);
      ServesStep(ops, b);
      if ops[0].OpTop? && ops[0].winner == Some(b) {
        ContestLost(qs, ops[0].contest, a, b);
      }
    }
  }

  lemma ContestLost(qs: Queues, c: Contest, a: Key, b: Key)
    requires AllProper(qs) && Eligible(qs, c, a) && IsWinner(qs, c, b)
    ensures c.now > qs[a].lastAccess
    ensures Rate(qs[b]) * (c.now - qs[b].lastAccess) as real >= Rate(qs[a]) * (c.now - qs[a].lastAccess) as real
  {
  }

  /** The gap that the next win needs grows with the wait of a. */
  predicate Spreads(times: seq<int>, t0: int, rA: real, rB: real)
  {
    && (forall i :: 0 <= i < |times| ==> times[i] > t0)
    && (forall i :: 0 <= i < |times| - 1 ==>
          (rB - rA) * (times[i + 1] - t0) as real >= rB * (times[i] - t0) as real)
  }

  lemma {:induction false} OvertakesSpreads(times: seq<int>, last: int, t0: int, rA: real, rB: real)
    requires Overtakes(times, last, t0, rA, rB)
    ensures Spreads(times, t0, rA, rB)
  {
    if |times| >= 1 {
      OvertakesSpreads(times[1..], times[0], t0, rA, rB);
      if |times| >= 2 {
        GapFromWin(rA, rB, t0 as real, times[0] as real, times[1] as real);
      }
      assert forall i :: 1 <= i < |times| ==> times[i] == times[1..][i - 1];
      forall i | 0 <= i < |times| - 1
        ensures (rB - rA) * (times[i + 1] - t0) as real >= rB * (times[i] - t0) as real
      {
        if i > 0 {
          assert times[i + 1] == times[1..][i] && times[i] == times[1..][i - 1];
        }
      }
    }
  }

  /** Successive wins of b at t < t' obey (rB - rA)(t' - t0) >= rB (t - t0). */
  lemma OvertakingSpreads(qs: Queues, ops: seq<Op>, a: Key, b: Key)
    requires LegalRun(qs, ops) && a in qs && b in qs && a != b && Overtaken(qs, ops, a, b)
    ensures Spreads(Serves(ops, b), qs[a].lastAccess, Rate(qs[a]), Rate(qs[b]))
  {
    OvertakingTimes(qs, ops, a, b);
    OvertakesSpreads(Serves(ops, b), qs[b].lastAccess, qs[a].lastAccess, Rate(qs[a]), Rate(qs[b]));
  }

  lemma GapFromWin(rA: real, rB: real, t0: real, t: real, u: real)
    requires rB * (u - t) >= rA * (u - t0)
    ensures (rB - rA) * (u - t0) >= rB * (t - t0)
  {
  }

  /** A subbuffer whose priority grows no faster passes a waiting one at most once. */
  lemma PassedAtMostOnce(qs: Queues, ops: seq<Op>, a: Key, b: Key)
    requires LegalRun(qs, ops) && a in qs && b in qs && a != b && Overtaken(qs, ops, a, b)
    requires Rate(qs[b]) <= Rate(qs[a])
    ensures |Serves(ops, b)| <= 1
  {
    OvertakingSpreads(qs, ops, a, b);
    if |Serves(ops, b)| >= 2 {
      TwiceMeansFaster(Serves(ops, b), qs[a].lastAccess, Rate(qs[a]), Rate(qs[b]));
    }
  }

  lemma TwiceMeansFaster(times: seq<int>, t0: int, rA: real, rB: real)
    requires Spreads(times, t0, rA, rB) && 0.0 < rA && 0.0 < rB && |times| >= 2
    ensures rB > rA
  {
    assert (rB - rA) * (times[0 + 1] - t0) as real >= rB * (times[0] - t0) as real;
    Positive(rB, (times[0] - t0) as real);
    PositiveFactor(rB - rA, (times[1] - t0) as real);
  }

  lemma PositiveFactor(x: real, y: real)
    requires y > 0.0 && x * y > 0.0
    ensures x > 0.0
  {
  }

  function RealPow(x: real, n: nat): real
  {
    if n == 0 then 1.0 else x * RealPow(x, n - 1)
  }

  /** (t_n - t0) >= (rB / (rB - rA))^n (t_0 - t0) */
  predicate Geometric(times: seq<int>, t0: int, rA: real, rB: real, n: nat)
    requires n < |times|
  {
    RealPow(rB - rA, n) * (times[n] - t0) as real >= RealPow(rB, n) * (times[0] - t0) as real
  }

  /** A faster subbuffer overtakes at times that grow geometrically with ratio rB / (rB - rA). */
  lemma OvertakingGrowsGeometrically(qs: Queues, ops: seq<Op>, a: Key, b: Key, n: nat)
    requires LegalRun(qs, ops) && a in qs && b in qs && a != b && Overtaken(qs, ops, a, b)
    requires Rate(qs[b]) > Rate(qs[a]) && n < |Serves(ops, b)|
    ensures Geometric(Serves(ops, b), qs[a].lastAccess, Rate(qs[a]), Rate(qs[b]), n)
  {
    OvertakingSpreads(qs, ops, a, b);
    GeometricGrowth(Serves(ops, b), qs[a].lastAccess, Rate(qs[a]), Rate(qs[b]), n);
  }

  lemma {:induction false} GeometricGrowth(times: seq<int>, t0: int, rA: real, rB: real, n: nat)
    requires n < |times| && 0.0 < rA < rB && Spreads(times, t0, rA, rB)
    ensures Geometric(times, t0, rA, rB, n)
  {
    if n > 0 {
      GeometricGrowth(times, t0, rA, rB, n - 1);
      PowerPositive(rB - rA, n - 1);
      var p, q := RealPow(rB - rA, n - 1), RealPow(rB, n - 1);
      var x, y, z := (times[0] - t0) as real, (times[n - 1] - t0) as real, (times[n] - t0) as real;
      assert (rB - rA) * z >= rB * y;
      GrowthStep(p, q, rB - rA, rB, x, y, z);
    }
  }

  lemma GrowthStep(p: real, q: real, d: real, r: real, x: real, y: real, z: real)
    requires p > 0.0 && r > 0.0 && p * y >= q * x && d * z >= r * y
    ensures (d * p) * z >= (r * q) * x
  {
  }

  lemma ScaleUp(k: real, x: real, y: real)
    requires k > 0.0 && x <= y
    ensures k * x <= k * y
  {
  }

  lemma {:induction false} PowerPositive(x: real, n: nat)
    requires x > 0.0
    ensures RealPow(x, n) > 0.0
  {
    if n > 0 {
      PowerPositive(x, n - 1);
    }
  }

  /** (|times| - 1) rA (t_0 - t0) <= (rB - rA) (deadline - t_0) */
  predicate FewBy(times: seq<int>, deadline: int, t0: int, rA: real, rB: real)
    requires times != []
  {
    (|times| - 1) as real * (rA * (times[0] - t0) as real) <= (rB - rA) * (deadline - times[0]) as real
  }

  /** The number of its wins before any deadline is at most linear in the deadline; NotStarved says more. */
  lemma OvertakingBounded(qs: Queues, ops: seq<Op>, a: Key, b: Key, deadline: int)
    requires LegalRun(qs, ops) && a in qs && b in qs && a != b && Overtaken(qs, ops, a, b)
    requires Rate(qs[b]) > Rate(qs[a]) && Serves(ops, b) != []
    requires Serves(ops, b)[|Serves(ops, b)| - 1] <= deadline
    ensures FewBy(Serves(ops, b), deadline, qs[a].lastAccess, Rate(qs[a]), Rate(qs[b]))
  {
    OvertakingSpreads(qs, ops, a, b);
    SpreadsFew(Serves(ops, b), deadline, qs[a].lastAccess, Rate(qs[a]), Rate(qs[b]));
  }

  lemma SpreadsFew(times: seq<int>, deadline: int, t0: int, rA: real, rB: real)
    requires times != [] && times[|times| - 1] <= deadline && 0.0 < rA < rB && Spreads(times, t0, rA, rB)
    ensures FewBy(times, deadline, t0, rA, rB)
  {
    LinearGrowth(times, t0, rA, rB, |times| - 1);
    ScaleUp(rB - rA, (times[|times| - 1] - times[0]) as real, (deadline - times[0]) as real);
  }

  lemma {:induction false} LinearGrowth(times: seq<int>, t0: int, rA: real, rB: real, n: nat)
    requires n < |times| && 0.0 < rA < rB && Spreads(times, t0, rA, rB)
    ensures times[n] >= times[0]
    ensures n as real * (rA * (times[0] - t0) as real) <= (rB - rA) * (times[n] - times[0]) as real
  {
    if n > 0 {
      LinearGrowth(times, t0, rA, rB, n - 1);
      assert (rB - rA) * (times[n - 1 + 1] - t0) as real >= rB * (times[n - 1] - t0) as real;
      LinearStep(rA, rB, n as real, t0 as real, times[0] as real, times[n - 1] as real, times[n] as real);
    }
  }

  lemma LinearStep(rA: real, rB: real, n: real, t0: real, first: real, t: real, u: real)
    requires 0.0 < rA < rB && first > t0 && t >= first
    requires (rB - rA) * (u - t0) >= rB * (t - t0)
    requires (n - 1.0) * (rA * (first - t0)) <= (rB - rA) * (t - first)
    ensures n * (rA * (first - t0)) <= (rB - rA) * (u - first)
    ensures u >= first
  {
    var d := rB - rA;
    GapAtLeast(rA, rB, t0, t, u);
    ScaleUp(rA, first - t0, t - t0);
    Positive(rA, first - t0);
    assert d * (u - t) > 0.0;
    NotBefore(d, t, u);
    assert d * (u - first) == d * (u - t) + d * (t - first);
    assert n * (rA * (first - t0)) == (n - 1.0) * (rA * (first - t0)) + rA * (first - t0);
  }

  lemma GapAtLeast(rA: real, rB: real, t0: real, t: real, u: real)
    requires (rB - rA) * (u - t0) >= rB * (t - t0)
    ensures (rB - rA) * (u - t) >= rA * (t - t0)
  {
  }

  lemma Positive(x: real, y: real)
    requires x > 0.0 && y > 0.0
    ensures x * y > 0.0
  {
  }

  lemma NotBefore(d: real, t: real, u: real)
    requires d > 0.0
    ensures d * (u - t) > 0.0 ==> u > t
  {
  }

  // ----- nobody starves

  /** No subbuffer is created, replaced, reconfigured or removed. */
  predicate Undisturbed(op: Op)
  {
    !op.OpCreate? && !op.OpReplace? && !op.OpUpdate? && !op.OpRemove?
  }

  /** The subbuffers stay as they are, and a takes part in every contest. */
  ghost predicate Contends(qs: Queues, ops: seq<Op>, a: Key)
    requires LegalRun(qs, ops)
    decreases |ops|
  {
    ops == [] ||
    (&& Undisturbed(ops[0])
     && (ops[0].OpTop? ==> Eligible(qs, ops[0].contest, a))
     && Contends(Step(qs, ops[0]), ops[1..], a))
  }

  predicate Wins(op: Op, key: Key)
  {
    op.OpTop? && op.winner == Some(key)
  }

  predicate Before(ops: seq<Op>, deadline: int)
  {
    forall i :: 0 <= i < |ops| && ops[i].OpTop? ==> ops[i].contest.now <= deadline
  }

  function Contests(ops: seq<Op>): nat
  {
    if ops == [] then 0 else Contests(ops[1..]) + if ops[0].OpTop? then 1 else 0
  }

  /** (rB / (rB - rA))^n exceeds the span of time. */
  predicate Enough(rA: real, rB: real, n: nat, span: int)
  {
    RealPow(rB, n) > RealPow(rB - rA, n) * span as real
  }

  /** Enough for every subbuffer whose rate is larger. */
  ghost predicate EnoughForAll(qs: Queues, a: Key, n: nat, deadline: int)
    requires AllProper(qs) && a in qs
  {
    forall b :: b in qs && Rate(qs[b]) > Rate(qs[a]) ==> Enough(Rate(qs[a]), Rate(qs[b]), n, deadline - qs[a].lastAccess)
  }

  function Max(m: nat, n: nat): nat { if m < n then n else m }

  /** Nobody starves: a subbuffer that takes part in every contest wins one of them, once there
      were more contests than n for each competitor, where n grows with the logarithm of the time
      they take (EnoughDoubles), and such an n always exists (EnoughExists). */
  lemma NotStarved(qs: Queues, ops: seq<Op>, a: Key, deadline: int, n: nat)
    requires LegalRun(qs, ops) && a in qs && Contends(qs, ops, a) && Before(ops, deadline)
    requires EnoughForAll(qs, a, n, deadline)
    requires Contests(ops) > (|qs| - 1) * Max(n, 1)
    ensures exists i :: 0 <= i < |ops| && Wins(ops[i], a)
  {
    if forall i :: 0 <= i < |ops| ==> !Wins(ops[i], a) {
      var others := qs.Keys - {a};
      forall b | b in others ensures |Serves(ops, b)| <= Max(n, 1) {
        FewWins(qs, ops, a, b, deadline, n);
      }
      AllWonByOthers(qs, ops, a, others);
      WinsBounded(ops, others, Max(n, 1));
      KeysWithout(qs, a);
      assert false;
    }
  }

  lemma KeysWithout(qs: Queues, a: Key)
    requires a in qs
    ensures |qs.Keys - {a}| == |qs| - 1
  {
    assert |qs.Keys| == |qs|;
  }

  lemma {:induction false} Losing(qs: Queues, ops: seq<Op>, a: Key, b: Key)
    requires LegalRun(qs, ops) && Contends(qs, ops, a) && forall i :: 0 <= i < |ops| ==> !Wins(ops[i], a)
    ensures Overtaken(qs, ops, a, b)
    decreases |ops|
  {
    if ops != [] {
      assert !Wins(ops[0], a);
      forall i | 0 <= i < |ops[1..]| ensures !Wins(ops[1..][i], a) {
        assert ops[1..][i] == ops[i + 1];
      }
      Losing(Step(qs, ops[0]), ops[1..], a, b);
    }
  }

  /** While a never wins, no competitor wins more than n times. */
  lemma FewWins(qs: Queues, ops: seq<Op>, a: Key, b: Key, deadline: int, n: nat)
    requires LegalRun(qs, ops) && a in qs && b in qs && a != b && Contends(qs, ops, a) && Before(ops, deadline)
    requires EnoughForAll(qs, a, n, deadline) && forall i :: 0 <= i < |ops| ==> !Wins(ops[i], a)
    ensures |Serves(ops, b)| <= Max(n, 1)
  {
    Losing(qs, ops, a, b);
    if Rate(qs[b]) <= Rate(qs[a]) {
      PassedAtMostOnce(qs, ops, a, b);
    } else {
      OvertakingSpreads(qs, ops, a, b);
      ServesBefore(ops, b, deadline);
      FewBySpreading(Serves(ops, b), qs[a].lastAccess, Rate(qs[a]), Rate(qs[b]), n, deadline);
    }
  }

  lemma FewBySpreading(times: seq<int>, t0: int, rA: real, rB: real, n: nat, deadline: int)
    requires 0.0 < rA < rB && Spreads(times, t0, rA, rB) && Enough(rA, rB, n, deadline - t0)
    requires forall i :: 0 <= i < |times| ==> times[i] <= deadline
    ensures |times| <= n
  {
    if |times| > n {
      GeometricGrowth(times, t0, rA, rB, n);
      TooFew(times, t0, rA, rB, n, deadline);
      assert false;
    }
  }

  lemma TooFew(times: seq<int>, t0: int, rA: real, rB: real, n: nat, deadline: int)
    requires n < |times| && 0.0 < rA < rB && times[0] > t0 && times[n] <= deadline
    requires Geometric(times, t0, rA, rB, n)
    ensures !Enough(rA, rB, n, deadline - t0)
  {
    PowerPositive(rB - rA, n);
    PowerPositive(rB, n);
    ScaleUp(RealPow(rB - rA, n), (times[n] - t0) as real, (deadline - t0) as real);
    ScaleUp(RealPow(rB, n), 1.0, (times[0] - t0) as real);
  }

  lemma {:induction false} ServesBefore(ops: seq<Op>, key: Key, deadline: int)
    requires Before(ops, deadline)
    ensures forall i :: 0 <= i < |Serves(ops, key)| ==> Serves(ops, key)[i] <= deadline
  {
    if ops != [] {
      forall i | 0 <= i < |ops[1..]| && ops[1..][i].OpTop? ensures ops[1..][i].contest.now <= deadline {
        assert ops[1..][i] == ops[i + 1];
      }
      ServesBefore(ops[1..], key, deadline);
      var times, rest := Serves(ops, key), Serves(ops[1..], key);
      ServesStep(ops, key);
      forall i | 0 <= i < |times| ensures times[i] <= deadline {
        if Wins(ops[0], key) {
          assert i > 0 ==> times[i] == rest[i - 1];
        }
      }
    }
  }

  /** How many contests the given subbuffers won together. */
  function WinsOf(ops: seq<Op>, keys: set<Key>): nat
  {
    if ops == [] then 0
    else
      WinsOf(ops[1..], keys)
      + if ops[0].OpTop? && ops[0].winner.Some? && ops[0].winner.value in keys then 1 else 0
  }

  lemma {:induction false} WinsSplit(ops: seq<Op>, keys: set<Key>, b: Key)
    requires b in keys
    ensures WinsOf(ops, keys) == WinsOf(ops, keys - {b}) + |Serves(ops, b)|
  {
    if ops != [] {
      WinsSplit(ops[1..], keys, b);
    }
  }

  lemma {:induction false} NoWins(ops: seq<Op>)
    ensures WinsOf(ops, {}) == 0
  {
    if ops != [] {
      NoWins(ops[1..]);
    }
  }

  lemma OneMore(n: nat, m: nat)
    ensures (n + 1) * m == n * m + m
  {
  }

  lemma {:induction false} WinsBounded(ops: seq<Op>, keys: set<Key>, m: nat)
    requires forall b :: b in keys ==> |Serves(ops, b)| <= m
    ensures WinsOf(ops, keys) <= |keys| * m
    decreases |keys|
  {
    if keys == {} {
      NoWins(ops);
    } else {
      var b :| b in keys;
      WinsSplit(ops, keys, b);
      WinsBounded(ops, keys - {b}, m);
      OneMore(|keys - {b}|, m);
    }
  }

  lemma {:induction false} AllWonByOthers(qs: Queues, ops: seq<Op>, a: Key, others: set<Key>)
    requires LegalRun(qs, ops) && Contends(qs, ops, a) && others == qs.Keys - {a}
    requires forall i :: 0 <= i < |ops| ==> !Wins(ops[i], a)
    ensures WinsOf(ops, others) == Contests(ops)
    decreases |ops|
  {
    if ops != [] {
      assert !Wins(ops[0], a);
      forall i | 0 <= i < |ops[1..]| ensures !Wins(ops[1..][i], a) {
        assert ops[1..][i] == ops[i + 1];
      }
      SameKeys(qs, ops[0]);
      AllWonByOthers(Step(qs, ops[0]), ops[1..], a, others);
    }
  }

  lemma SameKeys(qs: Queues, op: Op)
    requires Undisturbed(op)
    ensures Step(qs, op).Keys == qs.Keys
  {
    forall k ensures k in Step(qs, op) <==> k in qs {
      StepAt(qs, op, k);
    }
  }

  // ----- how large n has to be

  /** Bernoulli's inequality, multiplied by d. */
  lemma {:induction false} Bernoulli(d: real, r: real, n: nat)
    requires d > 0.0 && r > 0.0
    ensures RealPow(d + r, n) * d >= RealPow(d, n) * (d + n as real * r)
  {
    if n > 0 {
      Bernoulli(d, r, n - 1);
      PowerPositive(d, n - 1);
      BernoulliStep(d, r, (n - 1) as real, RealPow(d + r, n - 1), RealPow(d, n - 1));
    }
  }

  lemma BernoulliStep(d: real, r: real, m: real, p: real, q: real)
    requires d > 0.0 && r > 0.0 && m >= 0.0 && q > 0.0 && p * d >= q * (d + m * r)
    ensures ((d + r) * p) * d >= (d * q) * (d + (m + 1.0) * r)
  {
    var x := d + m * r;
    ScaleUp(d + r, q * x, p * d);
    assert ((d + r) * p) * d == (d + r) * (p * d);
    assert (d + r) * x == d * (d + (m + 1.0) * r) + r * (m * r);
    assert m * r >= 0.0 && r * (m * r) >= 0.0;
    ScaleUp(q, d * (d + (m + 1.0) * r), (d + r) * x);
    assert (d + r) * (q * x) == q * ((d + r) * x);
    assert (d * q) * (d + (m + 1.0) * r) == q * (d * (d + (m + 1.0) * r));
  }

  predicate LinearlyEnough(rA: real, rB: real, n: nat, span: int)
  {
    n as real * rA >= span as real * (rB - rA)
  }

  lemma MoreIsEnough(rA: real, rB: real, m: nat, n: nat, span: int)
    requires rA > 0.0 && m <= n && LinearlyEnough(rA, rB, m, span)
    ensures LinearlyEnough(rA, rB, n, span)
  {
    ScaleUp(rA, m as real, n as real);
  }

  lemma LinearIsEnough(rA: real, rB: real, n: nat, span: int)
    requires 0.0 < rA < rB && LinearlyEnough(rA, rB, n, span)
    ensures Enough(rA, rB, n, span)
  {
    var d := rB - rA;
    Bernoulli(d, rA, n);
    PowerPositive(d, n);
    assert d + rA == rB;
    StrictlyMore(d, RealPow(rB, n), RealPow(d, n), d + n as real * rA, span as real);
  }

  lemma StrictlyMore(d: real, p: real, q: real, x: real, s: real)
    requires d > 0.0 && q > 0.0 && p * d >= q * x && x > s * d
    ensures p > q * s
  {
    assert q * x > q * (s * d);
    assert q * (s * d) == (q * s) * d;
    if p <= q * s {
      ScaleUp(d, p, q * s);
      assert false;
    }
  }

  /** Whatever the rates and the deadline, some n is enough for all competitors. */
  lemma EnoughExists(qs: Queues, a: Key, deadline: int)
    requires AllProper(qs) && a in qs
    ensures exists n :: EnoughForAll(qs, a, n, deadline)
  {
    var span := deadline - qs[a].lastAccess;
    var n := LargestOf(qs, a, span, qs.Keys);
    forall b | b in qs && Rate(qs[b]) > Rate(qs[a]) ensures Enough(Rate(qs[a]), Rate(qs[b]), n, span) {
      LinearIsEnough(Rate(qs[a]), Rate(qs[b]), n, span);
    }
    assert EnoughForAll(qs, a, n, deadline);
  }

  lemma {:induction false} LargestOf(qs: Queues, a: Key, span: int, keys: set<Key>) returns (n: nat)
    requires AllProper(qs) && a in qs && keys <= qs.Keys
    ensures forall b :: b in keys ==> LinearlyEnough(Rate(qs[a]), Rate(qs[b]), n, span)
    decreases |keys|
  {
    if keys == {} {
      n := 0;
    } else {
      var b :| b in keys;
      var m := LargestOf(qs, a, span, keys - {b});
      var k := Multiple(Rate(qs[a]), span as real * (Rate(qs[b]) - Rate(qs[a])));
      assert LinearlyEnough(Rate(qs[a]), Rate(qs[b]), k, span);
      n := Max(m, k);
      forall c | c in keys ensures LinearlyEnough(Rate(qs[a]), Rate(qs[c]), n, span) {
        MoreIsEnough(Rate(qs[a]), Rate(qs[c]), if c == b then k else m, n, span);
      }
    }
  }

  lemma Multiple(r: real, x: real) returns (n: nat)
    requires r > 0.0
    ensures n as real * r >= x
  {
    var quotient := x / r;
    assert quotient * r == x;
    n := if quotient < 0.0 then 0 else quotient.Floor + 1;
    ScaleUp(r, quotient, n as real);
  }

  lemma {:induction false} PowerSum(x: real, m: nat, n: nat)
    ensures RealPow(x, m + n) == RealPow(x, m) * RealPow(x, n)
  {
    if m > 0 {
      PowerSum(x, m - 1, n);
    }
  }

  /** Doubling the time costs only a fixed number of further contests for each competitor. */
  lemma EnoughDoubles(rA: real, rB: real, n: nat, span: int, m: nat)
    requires 0.0 < rA < rB && span >= 0 && Enough(rA, rB, n, span)
    requires RealPow(rB, m) >= 2.0 * RealPow(rB - rA, m)
    ensures Enough(rA, rB, m + n, 2 * span)
  {
    var d := rB - rA;
    PowerSum(rB, m, n);
    PowerSum(d, m, n);
    PowerPositive(d, m);
    PowerPositive(d, n);
    PowerPositive(rB, m);
    DoubleProduct(RealPow(rB, m), RealPow(d, m), RealPow(rB, n), RealPow(d, n), span as real);
  }

  lemma DoubleProduct(p: real, q: real, x: real, y: real, s: real)
    requires p > 0.0 && q > 0.0 && y > 0.0 && s >= 0.0 && p >= 2.0 * q && x > y * s
    ensures p * x > (q * y) * (2.0 * s)
  {
    var z := y * s;
    assert z >= 0.0;
    assert p * x > p * z;
    assert p * z >= (2.0 * q) * z;
    assert (q * y) * (2.0 * s) == (2.0 * q) * z;
  }
}
