/** One time-dependent priority queue: DynamicSubBuffer of
    src/acomms/buffer/dynamic_buffer.h. Times are in microseconds, doubles are reals. */
module SubBuffer {
  import opened ByteStrings
  import opened Options

  datatype Value = Value(pushTime: int, data: Bytes)

  /** A queued value and when it was last sent (ZERO_POINT: never). */
  datatype Entry = Entry(sent: int, value: Value)

  /** DynamicBufferConfig: fields that may be absent, times in seconds. */
  datatype Settings = Settings(ackRequired: Option<bool>, blackoutTime: Option<real>, maxQueue: Option<nat>,
                               newestFirst: Option<bool>, ttl: Option<real>, valueBase: Option<real>)

  /** The merged configuration as the queue reads it: defaults filled in, times in microseconds. */
  datatype Config = Config(blackout: int, maxQueue: nat, newestFirst: bool, ttl: int, valueBase: real)

  datatype Queue = Queue(config: Config, entries: seq<Entry>, lastAccess: int)

  datatype ValueResult = Provided(priority: real) | Empty | InBlackout | WaitingForAck | TooLarge

  const ZERO_POINT := 0

  predicate Proper(config: Config)
  {
    config.blackout >= 0 && config.ttl > 0 && config.valueBase > 0.0
  }

  // ----- merging configurations

  /** The values that the configurations give to one field. */
  function Given<T>(cfgs: seq<Settings>, field: Settings -> Option<T>): seq<T>
  {
    if cfgs == [] then []
    else
      var last := field(cfgs[|cfgs| - 1]);
      Given(cfgs[..|cfgs| - 1], field) + if last.Some? then [last.value] else []
  }

  function AckRequiredOf(s: Settings): Option<bool> { s.ackRequired }
  function BlackoutTimeOf(s: Settings): Option<real> { s.blackoutTime }
  function MaxQueueOf(s: Settings): Option<nat> { s.maxQueue }
  function NewestFirstOf(s: Settings): Option<bool> { s.newestFirst }
  function TtlOf(s: Settings): Option<real> { s.ttl }
  function ValueBaseOf(s: Settings): Option<real> { s.valueBase }

  function AnyTrue(given: seq<bool>): Option<bool>
  {
    if given == [] then None else Some(true in given)
  }

  function Least(given: seq<real>): (r: Option<real>)
    ensures given == [] <==> r == None
    ensures r.Some? ==> r.value in given && forall i :: 0 <= i < |given| ==> r.value <= given[i]
  {
    if given == [] then None
    else
      var last, before := given[|given| - 1], Least(given[..|given| - 1]);
      if before.None? || last < before.value then Some(last) else before
  }

  function Greatest(given: seq<nat>): (r: Option<nat>)
    ensures given == [] <==> r == None
    ensures r.Some? ==> r.value in given && forall i :: 0 <= i < |given| ==> given[i] <= r.value
  {
    if given == [] then None
    else
      var last, before := given[|given| - 1], Greatest(given[..|given| - 1]);
      if before.None? || last > before.value then Some(last) else before
  }

  function Sum(given: seq<real>): real
  {
    if given == [] then 0.0 else Sum(given[..|given| - 1]) + given[|given| - 1]
  }

  function Mean(given: seq<real>): Option<real>
  {
    if given == [] then None else Some(Sum(given) / |given| as real)
  }

  /** True wins over false, the smallest blackout and the largest queue win, the others are averaged. */
  function Merged(cfgs: seq<Settings>): Settings
  {
    Settings(AnyTrue(Given(cfgs, AckRequiredOf)), Least(Given(cfgs, BlackoutTimeOf)), Greatest(Given(cfgs, MaxQueueOf)),
             AnyTrue(Given(cfgs, NewestFirstOf)), Mean(Given(cfgs, TtlOf)), Mean(Given(cfgs, ValueBaseOf)))
  }

  function OrElse<T>(x: Option<T>, fallback: T): T
  {
    if x.Some? then x.value else fallback
  }

  /** convert_duration truncates to whole microseconds. */
  function Microseconds(seconds: real): int
  {
    var micros := seconds * 1000000.0;
    if micros >= 0.0 then micros.Floor else -(-micros).Floor
  }

  /** The accessors give the defaults of the message for fields that are absent. */
  function Resolve(s: Settings): Config
  {
    Config(Microseconds(OrElse(s.blackoutTime, 0.0)), OrElse(s.maxQueue, 1000), OrElse(s.newestFirst, true),
           Microseconds(OrElse(s.ttl, 1800.0)), OrElse(s.valueBase, 100.0))
  }

  const UNSET: Settings := Settings(None, None, None, None, None, None)

  function ConfigOf(cfgs: seq<Settings>): Config
  {
    Resolve(Merged(cfgs))
  }

  /** One more configuration in the merging loop. */
  lemma GivenStep<T>(cfgs: seq<Settings>, i: nat, field: Settings -> Option<T>)
    requires i < |cfgs|
    ensures var before, after := Given(cfgs[..i], field), Given(cfgs[..i + 1], field);
            if field(cfgs[i]).Some? then after == before + [field(cfgs[i]).value] && after[..|before|] == before
            else after == before
  {
    assert cfgs[..i + 1][..i] == cfgs[..i];
    assert Given(cfgs[..i], field) + [] == Given(cfgs[..i], field);
  }

  /** The merging of update. */
  method Merge(cfgs: seq<Settings>) returns (merged: Settings)
    ensures merged == Merged(cfgs)
  {
    merged := UNSET;
    var ttlSum, ttlDivisor, valueBaseSum, valueBaseDivisor := 0.0, 0, 0.0, 0;
    for i := 0 to |cfgs|
      invariant merged.ackRequired == AnyTrue(Given(cfgs[..i], AckRequiredOf))
      invariant merged.blackoutTime == Least(Given(cfgs[..i], BlackoutTimeOf))
      invariant merged.maxQueue == Greatest(Given(cfgs[..i], MaxQueueOf))
      invariant merged.newestFirst == AnyTrue(Given(cfgs[..i], NewestFirstOf))
      invariant ttlSum == Sum(Given(cfgs[..i], TtlOf)) && ttlDivisor == |Given(cfgs[..i], TtlOf)|
      invariant valueBaseSum == Sum(Given(cfgs[..i], ValueBaseOf)) && valueBaseDivisor == |Given(cfgs[..i], ValueBaseOf)|
    {
      var ackRequired := MergeFlag(cfgs, i, AckRequiredOf, merged.ackRequired);
      var blackoutTime := MergeLeast(cfgs, i, BlackoutTimeOf, merged.blackoutTime);
      var maxQueue := MergeGreatest(cfgs, i, MaxQueueOf, merged.maxQueue);
      var newestFirst := MergeFlag(cfgs, i, NewestFirstOf, merged.newestFirst);
      merged := Settings(ackRequired, blackoutTime, maxQueue, newestFirst, None, None);
      ttlSum, ttlDivisor := MergeSum(cfgs, i, TtlOf, ttlSum, ttlDivisor);
      valueBaseSum, valueBaseDivisor := MergeSum(cfgs, i, ValueBaseOf, valueBaseSum, valueBaseDivisor);
    }
    assert cfgs[..|cfgs|] == cfgs;
    merged := merged.(ttl := if ttlDivisor > 0 then Some(ttlSum / ttlDivisor as real) else None,
                      valueBase := if valueBaseDivisor > 0 then Some(valueBaseSum / valueBaseDivisor as real) else None);
  }

  lemma TrueIn(flags: seq<bool>, flag: bool)
    ensures true in flags + [flag] <==> true in flags || flag
  {
    assert (flags + [flag])[|flags|] == flag;
    if i :| 0 <= i < |flags| && flags[i] {
      assert (flags + [flag])[i];
    }
  }

  method MergeFlag(cfgs: seq<Settings>, i: nat, field: Settings -> Option<bool>, before: Option<bool>)
    returns (after: Option<bool>)
    requires i < |cfgs| && before == AnyTrue(Given(cfgs[..i], field))
    ensures after == AnyTrue(Given(cfgs[..i + 1], field))
  {
    GivenStep(cfgs, i, field);
    var given := field(cfgs[i]);
    if given.Some? {
      TrueIn(Given(cfgs[..i], field), given.value);
    }
    return if given.Some? && (before.None? || given.value) then given else before;
  }

  method MergeLeast(cfgs: seq<Settings>, i: nat, field: Settings -> Option<real>, before: Option<real>)
    returns (after: Option<real>)
    requires i < |cfgs| && before == Least(Given(cfgs[..i], field))
    ensures after == Least(Given(cfgs[..i + 1], field))
  {
    GivenStep(cfgs, i, field);
    var given := field(cfgs[i]);
    return if given.Some? && (before.None? || given.value < before.value) then given else before;
  }

  method MergeGreatest(cfgs: seq<Settings>, i: nat, field: Settings -> Option<nat>, before: Option<nat>)
    returns (after: Option<nat>)
    requires i < |cfgs| && before == Greatest(Given(cfgs[..i], field))
    ensures after == Greatest(Given(cfgs[..i + 1], field))
  {
    GivenStep(cfgs, i, field);
    var given := field(cfgs[i]);
    return if given.Some? && (before.None? || given.value > before.value) then given else before;
  }

  method MergedConfig(cfgs: seq<Settings>) returns (config: Config)
    ensures config == ConfigOf(cfgs)
  {
    var merged := Merge(cfgs);
    config := Resolve(merged);
  }

  method MergeSum(cfgs: seq<Settings>, i: nat, field: Settings -> Option<real>, sum: real, divisor: nat)
    returns (newSum: real, newDivisor: nat)
    requires i < |cfgs| && sum == Sum(Given(cfgs[..i], field)) && divisor == |Given(cfgs[..i], field)|
    ensures newSum == Sum(Given(cfgs[..i + 1], field)) && newDivisor == |Given(cfgs[..i + 1], field)|
  {
    GivenStep(cfgs, i, field);
    var given := field(cfgs[i]);
    if given.Some? {
      return sum + given.value, divisor + 1;
    }
    return sum, divisor;
  }

  /** Some configuration gives the field this value. */
  predicate Gives<T(==)>(cfgs: seq<Settings>, field: Settings -> Option<T>, x: T)
  {
    exists i :: 0 <= i < |cfgs| && field(cfgs[i]) == Some(x)
  }

  lemma {:induction false} GivenMeans<T>(cfgs: seq<Settings>, field: Settings -> Option<T>, x: T)
    ensures x in Given(cfgs, field) <==> Gives(cfgs, field, x)
  {
    if cfgs != [] {
      var last := |cfgs| - 1;
      GivenMeans(cfgs[..last], field, x);
      assert forall i :: 0 <= i < last ==> cfgs[..last][i] == cfgs[i];
      if Gives(cfgs, field, x) && field(cfgs[last]) != Some(x) {
        var i :| 0 <= i < |cfgs| && field(cfgs[i]) == Some(x);
        assert field(cfgs[..last][i]) == Some(x);
      }
    }
  }

  /** The rules of merging: a flag is true when some configuration says so, the blackout is the
      smallest given and the queue the largest; what nobody gives stays absent. */
  lemma MergedMeans(cfgs: seq<Settings>)
    ensures var m := Merged(cfgs);
            && (m.newestFirst == Some(true) <==> Gives(cfgs, NewestFirstOf, true))
            && (m.newestFirst == Some(false) <==>
                  Gives(cfgs, NewestFirstOf, false) && !Gives(cfgs, NewestFirstOf, true))
            && (m.ackRequired == Some(true) <==> Gives(cfgs, AckRequiredOf, true))
            && (m.ackRequired == Some(false) <==>
                  Gives(cfgs, AckRequiredOf, false) && !Gives(cfgs, AckRequiredOf, true))
            && (forall t :: m.blackoutTime == Some(t) <==>
                  Gives(cfgs, BlackoutTimeOf, t) && forall u :: Gives(cfgs, BlackoutTimeOf, u) ==> t <= u)
            && (forall n :: m.maxQueue == Some(n) <==>
                  Gives(cfgs, MaxQueueOf, n) && forall k :: Gives(cfgs, MaxQueueOf, k) ==> k <= n)
  {
    FlagMeans(cfgs, NewestFirstOf);
    FlagMeans(cfgs, AckRequiredOf);
    LeastMeans(cfgs, BlackoutTimeOf);
    GreatestMeans(cfgs, MaxQueueOf);
  }

  lemma FlagMeans(cfgs: seq<Settings>, field: Settings -> Option<bool>)
    ensures var flag := AnyTrue(Given(cfgs, field));
            && (flag == Some(true) <==> Gives(cfgs, field, true))
            && (flag == Some(false) <==> Gives(cfgs, field, false) && !Gives(cfgs, field, true))
  {
    var given := Given(cfgs, field);
    GivenMeans(cfgs, field, true);
    GivenMeans(cfgs, field, false);
    if given != [] {
      if given[0] {
        assert true in given;
      } else {
        assert false in given;
      }
    }
  }

  lemma LeastMeans(cfgs: seq<Settings>, field: Settings -> Option<real>)
    ensures forall t :: Least(Given(cfgs, field)) == Some(t) <==>
              Gives(cfgs, field, t) && forall u :: Gives(cfgs, field, u) ==> t <= u
  {
    var given := Given(cfgs, field);
    forall t ensures t in given <==> Gives(cfgs, field, t) {
      GivenMeans(cfgs, field, t);
    }
    if given != [] {
      var least := Least(given).value;
      assert Gives(cfgs, field, least);
      forall u | Gives(cfgs, field, u) ensures least <= u {
        assert u in given;
      }
    }
  }

  lemma GreatestMeans(cfgs: seq<Settings>, field: Settings -> Option<nat>)
    ensures forall n :: Greatest(Given(cfgs, field)) == Some(n) <==>
              Gives(cfgs, field, n) && forall k :: Gives(cfgs, field, k) ==> k <= n
  {
    var given := Given(cfgs, field);
    forall n: nat ensures n in given <==> Gives(cfgs, field, n) {
      GivenMeans(cfgs, field, n);
    }
    if given != [] {
      var greatest := Greatest(given).value;
      assert Gives(cfgs, field, greatest);
      forall k: nat | Gives(cfgs, field, k) ensures k <= greatest {
        assert k in given;
      }
    }
  }

  /** How many configurations give the field, and the sum of what they give. */
  function CountOf(cfgs: seq<Settings>, field: Settings -> Option<real>): nat
  {
    if cfgs == [] then 0 else (if field(cfgs[0]).Some? then 1 else 0) + CountOf(cfgs[1..], field)
  }

  function TotalOf(cfgs: seq<Settings>, field: Settings -> Option<real>): real
  {
    if cfgs == [] then 0.0 else OrElse(field(cfgs[0]), 0.0) + TotalOf(cfgs[1..], field)
  }

  lemma {:induction false} CountAppend(a: seq<Settings>, b: seq<Settings>, field: Settings -> Option<real>)
    ensures CountOf(a + b, field) == CountOf(a, field) + CountOf(b, field)
    ensures TotalOf(a + b, field) == TotalOf(a, field) + TotalOf(b, field)
  {
    if a == [] {
      assert a + b == b;
    } else {
      assert (a + b)[1..] == a[1..] + b;
      CountAppend(a[1..], b, field);
    }
  }

  lemma {:induction false} GivenTotals(cfgs: seq<Settings>, field: Settings -> Option<real>)
    ensures |Given(cfgs, field)| == CountOf(cfgs, field) && Sum(Given(cfgs, field)) == TotalOf(cfgs, field)
  {
    if cfgs != [] {
      var last := |cfgs| - 1;
      GivenTotals(cfgs[..last], field);
      GivenStep(cfgs, last, field);
      assert cfgs[..last + 1] == cfgs && cfgs == cfgs[..last] + cfgs[last..];
      CountAppend(cfgs[..last], cfgs[last..], field);
      assert cfgs[last..][1..] == [];
    }
  }

  /** ttl and value_base are averaged over the configurations that give them. */
  lemma MergedAverages(cfgs: seq<Settings>)
    ensures var m := Merged(cfgs);
            && Averages(m.ttl, CountOf(cfgs, TtlOf), TotalOf(cfgs, TtlOf))
            && Averages(m.valueBase, CountOf(cfgs, ValueBaseOf), TotalOf(cfgs, ValueBaseOf))
  {
    MeanAverages(cfgs, TtlOf);
    MeanAverages(cfgs, ValueBaseOf);
  }

  lemma MeanAverages(cfgs: seq<Settings>, field: Settings -> Option<real>)
    ensures Averages(Mean(Given(cfgs, field)), CountOf(cfgs, field), TotalOf(cfgs, field))
  {
    GivenTotals(cfgs, field);
    MeanOf(Given(cfgs, field), CountOf(cfgs, field), TotalOf(cfgs, field));
  }

  lemma MeanOf(given: seq<real>, count: nat, total: real)
    requires |given| == count && Sum(given) == total
    ensures Averages(Mean(given), count, total)
  {
    if count > 0 {
      Divided(total, count as real);
    }
  }

  lemma Divided(total: real, count: real)
    requires count > 0.0
    ensures total / count * count == total
  {
  }

  predicate Averages(mean: Option<real>, count: nat, total: real)
  {
    (mean == None <==> count == 0) && (mean.Some? ==> mean.value * count as real == total)
  }

  /** Fields that nobody gives take the defaults of the message; times are cut off to whole microseconds. */
  lemma ResolvedMeans(s: Settings)
    ensures var c := Resolve(s);
            && (s.blackoutTime == None ==> c.blackout == 0) && (s.maxQueue == None ==> c.maxQueue == 1000)
            && (s.newestFirst == None ==> c.newestFirst) && (s.ttl == None ==> c.ttl == 1_800_000_000)
            && (s.valueBase == None ==> c.valueBase == 100.0)
            && (s.blackoutTime.Some? ==> CutOff(s.blackoutTime.value, c.blackout))
            && (s.ttl.Some? ==> CutOff(s.ttl.value, c.ttl))
            && (s.maxQueue.Some? ==> c.maxQueue == s.maxQueue.value)
            && (s.newestFirst.Some? ==> c.newestFirst == s.newestFirst.value)
            && (s.valueBase.Some? ==> c.valueBase == s.valueBase.value)
  {
    if s.blackoutTime.Some? {
      MicrosecondsCutOff(s.blackoutTime.value);
    }
    if s.ttl.Some? {
      MicrosecondsCutOff(s.ttl.value);
    }
  }

  /** The whole number of microseconds next to the time, on the side of zero. */
  predicate CutOff(seconds: real, micros: int)
  {
    if seconds >= 0.0 then micros as real <= seconds * 1000000.0 < micros as real + 1.0
    else micros as real - 1.0 < seconds * 1000000.0 <= micros as real
  }

  lemma MicrosecondsCutOff(seconds: real)
    ensures CutOff(seconds, Microseconds(seconds))
  {
  }

  // ----- what a queue holds

  function Values(entries: seq<Entry>): (r: seq<Value>)
    ensures |r| == |entries|
  {
    seq(|entries|, i requires 0 <= i < |entries| => entries[i].value)
  }

  function Reversed<T>(s: seq<T>): (r: seq<T>)
    ensures |r| == |s|
  {
    seq(|s|, i requires 0 <= i < |s| => s[|s| - 1 - i])
  }

  // ----- what each call does

  predicate Available(e: Entry, reference: int, ackTimeout: int)
  {
    e.sent == ZERO_POINT || e.sent + ackTimeout < reference
  }

  /** The position of the first value that may be (re)sent, or the length of the queue. */
  function FirstAvailable(entries: seq<Entry>, reference: int, ackTimeout: int): (i: nat)
    ensures i <= |entries|
    ensures i < |entries| ==> Available(entries[i], reference, ackTimeout)
    ensures forall j :: 0 <= j < i ==> !Available(entries[j], reference, ackTimeout)
  {
    if entries == [] || Available(entries[0], reference, ackTimeout) then 0
    else 1 + FirstAvailable(entries[1..], reference, ackTimeout)
  }

  function TopValue(q: Queue, reference: int, maxBytes: nat, ackTimeout: int): ValueResult
    requires Proper(q.config)
  {
    var i := FirstAvailable(q.entries, reference, ackTimeout);
    if q.entries == [] then Empty
    else if reference <= q.lastAccess + q.config.blackout then InBlackout
    else if i == |q.entries| then WaitingForAck
    else if |q.entries[i].value.data| > maxBytes then TooLarge
    else Provided(q.config.valueBase * (reference - q.lastAccess) as real / q.config.ttl as real)
  }

  /** top, when it finds a value: the value is marked as sent. */
  function Serve(q: Queue, reference: int, i: nat): Queue
    requires i < |q.entries|
  {
    q.(lastAccess := reference, entries := q.entries[i := q.entries[i].(sent := reference)])
  }

  function Insert(q: Queue, data: Bytes, time: int): seq<Entry>
  {
    var e := Entry(ZERO_POINT, Value(time, data));
    if q.config.newestFirst then [e] + q.entries else q.entries + [e]
  }

  /** push: values beyond max_queue are dropped from the back, last first. */
  function Push(q: Queue, data: Bytes, time: int): (r: (Queue, seq<Value>))
    ensures |r.0.entries| <= q.config.maxQueue
  {
    var all := Insert(q, data, time);
    if |all| <= q.config.maxQueue then (q.(entries := all), [])
    else (q.(entries := all[..q.config.maxQueue]), Reversed(Values(all[q.config.maxQueue..])))
  }

  predicate IsExpired(e: Entry, reference: int, ttl: int)
  {
    reference > e.value.pushTime + ttl
  }

  /** How many entries the scan of expire removes: from the back for newest-first queues, else from the front. */
  function BackRun(entries: seq<Entry>, reference: int, ttl: int): (n: nat)
    ensures n <= |entries|
  {
    if entries != [] && IsExpired(entries[|entries| - 1], reference, ttl)
    then 1 + BackRun(entries[..|entries| - 1], reference, ttl) else 0
  }

  function FrontRun(entries: seq<Entry>, reference: int, ttl: int): (n: nat)
    ensures n <= |entries|
  {
    if entries != [] && IsExpired(entries[0], reference, ttl)
    then 1 + FrontRun(entries[1..], reference, ttl) else 0
  }

  function Expire(q: Queue, reference: int): (r: (Queue, seq<Value>))
    ensures r.0.config == q.config
  {
    if q.config.newestFirst then
      var n := |q.entries| - BackRun(q.entries, reference, q.config.ttl);
      (q.(entries := q.entries[..n]), Reversed(Values(q.entries[n..])))
    else
      var n := FrontRun(q.entries, reference, q.config.ttl);
      (q.(entries := q.entries[n..]), Values(q.entries[..n]))
  }

  /** The early exit of erase. */
  predicate StopsAt(e: Entry, value: Value, newestFirst: bool)
  {
    if newestFirst then e.value.pushTime < value.pushTime else e.value.pushTime > value.pushTime
  }

  /** Where the scan of erase ends: at the value, or at the length of the queue when it gives up. */
  function EraseIndex(entries: seq<Entry>, value: Value, newestFirst: bool, i: nat): (n: nat)
    requires i <= |entries|
    ensures n <= |entries|
    ensures n < |entries| ==> i <= n && entries[n].value == value
    decreases |entries| - i
  {
    if i == |entries| || entries[i].value == value then i
    else if StopsAt(entries[i], value, newestFirst) then |entries|
    else EraseIndex(entries, value, newestFirst, i + 1)
  }

  function Without(entries: seq<Entry>, i: nat): seq<Entry>
    requires i < |entries|
  {
    entries[..i] + entries[i + 1..]
  }

  function Erase(q: Queue, value: Value): (Queue, bool)
  {
    var i := EraseIndex(q.entries, value, q.config.newestFirst, 0);
    if i == |q.entries| then (q, false) else (q.(entries := Without(q.entries, i)), true)
  }

  /** update: the last access moves back, so that the queue does not start in blackout. */
  function Reconfigure(q: Queue, config: Config): Queue
  {
    q.(config := config, lastAccess := q.lastAccess - config.blackout)
  }

  function Created(config: Config, now: int): Queue
  {
    Reconfigure(Queue(config, [], now), config)
  }

  /** The object, with the loops of the original. */
  class DynamicSubBuffer {
    var cfg: Config
    var data: seq<Entry>
    var lastAccess: int

    function View(): Queue
      reads this
    {
      Queue(cfg, data, lastAccess)
    }

    constructor (cfgs: seq<Settings>, now: int)
      requires cfgs != []
      ensures View() == Created(ConfigOf(cfgs), now)
    {
      cfg, data, lastAccess := Resolve(UNSET), [], now;
      new;
      var ok := Update(cfgs);
    }

    /** An empty list of configurations is refused. */
    method Update(cfgs: seq<Settings>) returns (ok: bool)
      modifies this
      ensures ok <==> cfgs != []
      ensures View() == if ok then Reconfigure(old(View()), ConfigOf(cfgs)) else old(View())
    {
      if cfgs == [] {
        return false;
      }
      var config := MergedConfig(cfgs);
      Apply(config);
      return true;
    }

    method Apply(config: Config)
      modifies this
      ensures View() == Reconfigure(old(View()), config)
    {
      cfg := config;
      lastAccess := lastAccess - config.blackout;
    }

    /** top: None is the exception. */
    method Top(reference: int, ackTimeout: int) returns (top: Option<Value>)
      modifies this
      ensures var i := FirstAvailable(old(data), reference, ackTimeout);
              if i < |old(data)| then
                View() == Serve(old(View()), reference, i) && top == Some(old(data)[i].value)
              else View() == old(View()) && top == None
    {
      for i := 0 to |data|
        invariant View() == old(View())
        invariant FirstAvailable(data, reference, ackTimeout) == i + FirstAvailable(data[i..], reference, ackTimeout)
      {
        assert data[i..][0] == data[i] && data[i..][1..] == data[i + 1..];
        if data[i].sent == ZERO_POINT || data[i].sent + ackTimeout < reference {
          lastAccess := reference;
          data := data[i := data[i].(sent := lastAccess)];
          return Some(data[i].value);
        }
      }
      return None;
    }

    method TopSize(reference: int, ackTimeout: int) returns (size: Option<nat>)
      ensures var i := FirstAvailable(data, reference, ackTimeout);
              size == if i < |data| then Some(|data[i].value.data|) else None
    {
      for i := 0 to |data|
        invariant FirstAvailable(data, reference, ackTimeout) == i + FirstAvailable(data[i..], reference, ackTimeout)
      {
        assert data[i..][0] == data[i] && data[i..][1..] == data[i + 1..];
        if data[i].sent == ZERO_POINT || data[i].sent + ackTimeout < reference {
          return Some(|data[i].value.data|);
        }
      }
      return None;
    }

    method AllWaitingForAck(reference: int, ackTimeout: int) returns (waiting: bool)
      ensures waiting <==> forall i :: 0 <= i < |data| ==> !Available(data[i], reference, ackTimeout)
    {
      for i := 0 to |data|
        invariant forall j :: 0 <= j < i ==> !Available(data[j], reference, ackTimeout)
      {
        if data[i].sent == ZERO_POINT || data[i].sent + ackTimeout < reference {
          return false;
        }
      }
      return true;
    }

    method GetTopValue(reference: int, maxBytes: nat, ackTimeout: int) returns (result: ValueResult)
      requires Proper(cfg)
      ensures result == TopValue(View(), reference, maxBytes, ackTimeout)
    {
      if data == [] {
        return Empty;
      }
      if reference <= lastAccess + cfg.blackout {
        return InBlackout;
      }
      var waiting := AllWaitingForAck(reference, ackTimeout);
      if waiting {
        return WaitingForAck;
      }
      var size := TopSize(reference, ackTimeout);
      if size.value > maxBytes {
        return TooLarge;
      }
      return Provided(cfg.valueBase * (reference - lastAccess) as real / cfg.ttl as real);
    }

    method PushValue(t: Bytes, reference: int) returns (exceeded: seq<Value>)
      modifies `data
      ensures (View(), exceeded) == Push(old(View()), t, reference)
    {
      exceeded := [];
      var e := Entry(ZERO_POINT, Value(reference, t));
      if cfg.newestFirst {
        data := [e] + data;
      } else {
        data := data + [e];
      }
      ghost var all := data;
      while |data| > cfg.maxQueue
        invariant if |all| > cfg.maxQueue then |data| >= cfg.maxQueue else |data| == |all|
        invariant |data| <= |all| && data == all[..|data|]
        invariant exceeded == Reversed(Values(all[|data|..]))
        decreases |data|
      {
        DropLast(all, |data|);
        exceeded := exceeded + [data[|data| - 1].value];
        data := data[..|data| - 1];
      }
    }

    method Pop()
      requires data != []
      modifies `data
      ensures View() == old(View()).(entries := old(data)[1..])
    {
      data := data[1..];
    }

    method ExpireValues(reference: int) returns (expired: seq<Value>)
      modifies `data
      ensures (View(), expired) == Expire(old(View()), reference)
    {
      if cfg.newestFirst {
        expired := ExpireFromBack(reference);
      } else {
        expired := ExpireFromFront(reference);
      }
    }

    method ExpireFromBack(reference: int) returns (expired: seq<Value>)
      modifies `data
      ensures var n := |old(data)| - BackRun(old(data), reference, cfg.ttl);
              data == old(data)[..n] && expired == Reversed(Values(old(data)[n..]))
    {
      expired := [];
      ghost var all := data;
      while data != [] && reference > data[|data| - 1].value.pushTime + cfg.ttl
        invariant |data| <= |all| && data == all[..|data|]
        invariant expired == Reversed(Values(all[|data|..]))
        invariant |data| - BackRun(data, reference, cfg.ttl) == |all| - BackRun(all, reference, cfg.ttl)
        decreases |data|
      {
        DropLast(all, |data|);
        expired := expired + [data[|data| - 1].value];
        data := data[..|data| - 1];
      }
    }

    method ExpireFromFront(reference: int) returns (expired: seq<Value>)
      modifies `data
      ensures var n := FrontRun(old(data), reference, cfg.ttl);
              data == old(data)[n..] && expired == Values(old(data)[..n])
    {
      expired := [];
      ghost var all := data;
      while data != [] && reference > data[0].value.pushTime + cfg.ttl
        invariant |data| <= |all| && data == all[|all| - |data|..]
        invariant expired == Values(all[..|all| - |data|])
        invariant |all| - |data| + FrontRun(data, reference, cfg.ttl) == FrontRun(all, reference, cfg.ttl)
        decreases |data|
      {
        expired := expired + [data[0].value];
        data := data[1..];
      }
    }

    method EraseValue(value: Value) returns (found: bool)
      modifies `data
      ensures (View(), found) == Erase(old(View()), value)
    {
      for i := 0 to |data|
        invariant data == old(data)
        invariant EraseIndex(data, value, cfg.newestFirst, i) == EraseIndex(data, value, cfg.newestFirst, 0)
      {
        if data[i].value == value {
          data := data[..i] + data[i + 1..];
          return true;
        }
        if cfg.newestFirst && data[i].value.pushTime < value.pushTime {
          break;
        } else if !cfg.newestFirst && data[i].value.pushTime > value.pushTime {
          break;
        }
      }
      return false;
    }
  }

  /** One more value comes off the back. */
  lemma DropLast(all: seq<Entry>, n: nat)
    requires 0 < n <= |all|
    ensures Reversed(Values(all[n - 1..])) == Reversed(Values(all[n..])) + [all[n - 1].value]
    ensures all[..n][..n - 1] == all[..n - 1]
  {
  }

  // ----- what a subbuffer answers to a contest

  /** Entry i was never sent, or sent so long ago that its acknowledgment is overdue, and no earlier one was. */
  ghost predicate FirstDue(q: Queue, now: int, ackTimeout: int, i: int)
  {
    && 0 <= i < |q.entries| && (q.entries[i].sent == 0 || q.entries[i].sent + ackTimeout < now)
    && forall j :: 0 <= j < i ==> q.entries[j].sent != 0 && now <= q.entries[j].sent + ackTimeout
  }

  /** The blackout is over, and entry i is the first due. */
  ghost predicate Ready(q: Queue, now: int, ackTimeout: int, i: int)
  {
    now > q.lastAccess + q.config.blackout && FirstDue(q, now, ackTimeout, i)
  }

  /** Each answer, by the stored fields alone. */
  ghost predicate Answers(q: Queue, now: int, maxBytes: nat, ackTimeout: int, r: ValueResult)
    requires Proper(q.config)
  {
    && (r.Provided? <==> exists i :: Ready(q, now, ackTimeout, i) && |q.entries[i].value.data| <= maxBytes)
    && (r.Provided? ==> r.priority * q.config.ttl as real == q.config.valueBase * (now - q.lastAccess) as real)
    && (r == Empty <==> |q.entries| == 0)
    && (r == InBlackout <==> |q.entries| > 0 && now <= q.lastAccess + q.config.blackout)
    && (r == WaitingForAck <==>
          && |q.entries| > 0 && now > q.lastAccess + q.config.blackout
          && forall i :: 0 <= i < |q.entries| ==> q.entries[i].sent != 0 && now <= q.entries[i].sent + ackTimeout)
    && (r == TooLarge <==> exists i :: Ready(q, now, ackTimeout, i) && |q.entries[i].value.data| > maxBytes)
  }

  lemma TopValueExactly(q: Queue, now: int, maxBytes: nat, ackTimeout: int)
    requires Proper(q.config)
    ensures Answers(q, now, maxBytes, ackTimeout, TopValue(q, now, maxBytes, ackTimeout))
  {
    var n := FirstAvailable(q.entries, now, ackTimeout);
    if n < |q.entries| {
      assert FirstDue(q, now, ackTimeout, n);
    }
    forall i | FirstDue(q, now, ackTimeout, i) ensures i == n {
      FirstDueIs(q, now, ackTimeout, i);
    }
    if TopValue(q, now, maxBytes, ackTimeout).Provided? {
      PriorityExactly(q, now, maxBytes, ackTimeout);
    }
  }

  lemma PriorityExactly(q: Queue, now: int, maxBytes: nat, ackTimeout: int)
    requires Proper(q.config) && TopValue(q, now, maxBytes, ackTimeout).Provided?
    ensures TopValue(q, now, maxBytes, ackTimeout).priority * q.config.ttl as real
            == q.config.valueBase * (now - q.lastAccess) as real
  {
    Divided(q.config.valueBase * (now - q.lastAccess) as real, q.config.ttl as real);
  }

  lemma FirstDueIs(q: Queue, now: int, ackTimeout: int, i: int)
    requires FirstDue(q, now, ackTimeout, i)
    ensures FirstAvailable(q.entries, now, ackTimeout) == i
  {
    assert Available(q.entries[i], now, ackTimeout);
  }

  /** After a reconfiguration the subbuffer is in blackout only until its last access before, whatever the
      new blackout. */
  lemma ReconfiguredBlackout(q: Queue, config: Config, now: int, maxBytes: nat, ackTimeout: int)
    requires Proper(config) && |q.entries| > 0
    ensures TopValue(Reconfigure(q, config), now, maxBytes, ackTimeout) == InBlackout <==> now <= q.lastAccess
  {
    TopValueExactly(Reconfigure(q, config), now, maxBytes, ackTimeout);
  }

  /** So a value pushed to a new subbuffer may be sent at any time after the creation. */
  lemma ServesFromTheStart(config: Config, created: int, data: Bytes, pushed: int, now: int, maxBytes: nat, ackTimeout: int)
    requires Proper(config) && config.maxQueue >= 1 && created < now && |data| <= maxBytes
    ensures TopValue(Push(Created(config, created), data, pushed).0, now, maxBytes, ackTimeout).Provided?
  {
    var q := Push(Created(config, created), data, pushed).0;
    PushToEmpty(Created(config, created), data, pushed);
    assert Ready(q, now, ackTimeout, 0);
    TopValueExactly(q, now, maxBytes, ackTimeout);
  }

  lemma PushToEmpty(q: Queue, data: Bytes, pushed: int)
    requires |q.entries| == 0 && q.config.maxQueue >= 1
    ensures Push(q, data, pushed).0 == q.(entries := [Entry(0, Value(pushed, data))])
  {
    assert Insert(q, data, pushed) == [Entry(0, Value(pushed, data))];
  }

  /** What push returns comes off the back, last first: position i of it counted from the back, where
      the new value stands in front of a newest-first queue and behind any other. */
  lemma ExceededFromTheBack(q: Queue, data: Bytes, time: int)
    ensures var (r, exceeded) := Push(q, data, time);
            var n, v := |q.entries|, Value(time, data);
            && |r.entries| + |exceeded| == n + 1 && (|exceeded| > 0 ==> |r.entries| == q.config.maxQueue)
            && (forall i :: 0 <= i < |exceeded| ==>
                  exceeded[i] == if q.config.newestFirst then (if i == n then v else q.entries[n - 1 - i].value)
                                 else (if i == 0 then v else q.entries[n - i].value))
            && (forall i :: 0 <= i < |r.entries| ==>
                  r.entries[i] == if q.config.newestFirst then (if i == 0 then Entry(0, v) else q.entries[i - 1])
                                  else (if i == n then Entry(0, v) else q.entries[i]))
  {
    var all, max := Insert(q, data, time), q.config.maxQueue;
    if |all| > max {
      assert forall i :: 0 <= i < |all| - max ==> Reversed(Values(all[max..]))[i] == all[|all| - 1 - i].value;
    }
  }

  /** A full newest-first queue gives up its oldest value; any other full queue refuses the new one. */
  lemma PushWhenFull(q: Queue, data: Bytes, time: int)
    requires |q.entries| == q.config.maxQueue > 0
    ensures var (r, exceeded) := Push(q, data, time);
            if q.config.newestFirst
            then exceeded == [q.entries[|q.entries| - 1].value] && r.entries[1..] == q.entries[..|q.entries| - 1]
            else exceeded == [Value(time, data)] && r.entries == q.entries
  {
    var r, exceeded := Push(q, data, time).0, Push(q, data, time).1;
    ExceededFromTheBack(q, data, time);
    assert exceeded == [exceeded[0]];
    if q.config.newestFirst {
      ShiftedBack(q.entries, r.entries);
    } else {
      SameEntries(q.entries, r.entries);
    }
  }

  lemma ShiftedBack(before: seq<Entry>, after: seq<Entry>)
    requires |before| == |after| > 0 && forall i :: 0 < i < |after| ==> after[i] == before[i - 1]
    ensures after[1..] == before[..|before| - 1]
  {
    assert forall i :: 0 <= i < |after| - 1 ==> after[1..][i] == after[i + 1];
  }

  lemma SameEntries(before: seq<Entry>, after: seq<Entry>)
    requires |before| == |after| && forall i :: 0 <= i < |after| ==> after[i] == before[i]
    ensures after == before
  {
  }

  /** Everything that expire returns has outlived its ttl; on an ordered queue it comes back oldest first, and
      nothing that has outlived its ttl stays. */
  lemma ExpiredOldestFirst(q: Queue, now: int)
    ensures Outlived(Expire(q, now).1, q.config.ttl, now)
    ensures Ordered(q) ==> OldestFirst(Expire(q, now).1) && Alive(Expire(q, now).0.entries, q.config.ttl, now)
  {
    if Ordered(q) {
      KeepsAlive(q, now);
    }
    if q.config.newestFirst {
      BackOldestFirst(q, now, |q.entries| - BackRun(q.entries, now, q.config.ttl));
    } else {
      FrontOldestFirst(q, now, FrontRun(q.entries, now, q.config.ttl));
    }
  }

  predicate Outlived(values: seq<Value>, ttl: int, now: int)
  {
    forall i :: 0 <= i < |values| ==> values[i].pushTime + ttl < now
  }

  predicate Alive(entries: seq<Entry>, ttl: int, now: int)
  {
    forall i :: 0 <= i < |entries| ==> now <= entries[i].value.pushTime + ttl
  }

  lemma KeepsAlive(q: Queue, now: int)
    requires Ordered(q)
    ensures Alive(Expire(q, now).0.entries, q.config.ttl, now)
  {
    ExpireExact(q, now);
    OnlyUnexpired(q.entries, now, q.config.ttl);
  }

  predicate OldestFirst(values: seq<Value>)
  {
    forall i, j :: 0 <= i < j < |values| ==> values[i].pushTime <= values[j].pushTime
  }

  lemma BackOldestFirst(q: Queue, now: int, n: nat)
    requires q.config.newestFirst && n == |q.entries| - BackRun(q.entries, now, q.config.ttl)
    ensures var expired := Reversed(Values(q.entries[n..]));
            Outlived(expired, q.config.ttl, now) && (Ordered(q) ==> OldestFirst(expired))
  {
    BackRunMeaning(q.entries, now, q.config.ttl);
  }

  lemma FrontOldestFirst(q: Queue, now: int, n: nat)
    requires !q.config.newestFirst && n == FrontRun(q.entries, now, q.config.ttl)
    ensures var expired := Values(q.entries[..n]);
            Outlived(expired, q.config.ttl, now) && (Ordered(q) ==> OldestFirst(expired))
  {
    FrontRunMeaning(q.entries, now, q.config.ttl);
  }

  // ----- when the early exits are exact

  ghost predicate Ordered(q: Queue)
  {
    forall i, j :: 0 <= i < j < |q.entries| ==>
      if q.config.newestFirst then q.entries[i].value.pushTime >= q.entries[j].value.pushTime
      else q.entries[i].value.pushTime <= q.entries[j].value.pushTime
  }

  /** A full pass over the queue, for comparison. */
  function Unexpired(entries: seq<Entry>, reference: int, ttl: int): seq<Entry>
  {
    if entries == [] then []
    else (if IsExpired(entries[0], reference, ttl) then [] else [entries[0]]) + Unexpired(entries[1..], reference, ttl)
  }

  /** The expired values stand together at the end at which expire starts. */
  ghost predicate ExpiredTogether(q: Queue, reference: int)
  {
    forall i, j :: 0 <= i < j < |q.entries| ==>
      if q.config.newestFirst
      then IsExpired(q.entries[i], reference, q.config.ttl) ==> IsExpired(q.entries[j], reference, q.config.ttl)
      else IsExpired(q.entries[j], reference, q.config.ttl) ==> IsExpired(q.entries[i], reference, q.config.ttl)
  }

  /** expire keeps exactly the values a full pass would keep if and only if the expired values
      stand together; the others it returns (ExpireConserves). */
  lemma ExpireExactly(q: Queue, reference: int)
    ensures Expire(q, reference).0.entries == Unexpired(q.entries, reference, q.config.ttl)
            <==> ExpiredTogether(q, reference)
  {
    if q.config.newestFirst {
      BackExactly(q, reference);
    } else {
      FrontExactly(q, reference);
    }
  }

  predicate ExpiredFrom(s: seq<Entry>, n: nat, reference: int, ttl: int)
  {
    forall i :: 0 <= i < |s| ==> (IsExpired(s[i], reference, ttl) <==> i >= n)
  }

  predicate ExpiredBelow(s: seq<Entry>, n: nat, reference: int, ttl: int)
  {
    forall i :: 0 <= i < |s| ==> (IsExpired(s[i], reference, ttl) <==> i < n)
  }

  lemma BackExactly(q: Queue, reference: int)
    requires q.config.newestFirst
    ensures Expire(q, reference).0.entries == Unexpired(q.entries, reference, q.config.ttl)
            <==> ExpiredTogether(q, reference)
  {
    var s, ttl := q.entries, q.config.ttl;
    var n := |s| - BackRun(s, reference, ttl);
    BackRunMeaning(s, reference, ttl);
    BackSplit(s, n, reference, ttl);
    BackTogether(q, n, reference);
  }

  lemma BackTogether(q: Queue, n: nat, reference: int)
    requires q.config.newestFirst && n <= |q.entries|
    requires forall i :: n <= i < |q.entries| ==> IsExpired(q.entries[i], reference, q.config.ttl)
    requires n > 0 ==> !IsExpired(q.entries[n - 1], reference, q.config.ttl)
    ensures ExpiredTogether(q, reference) <==> ExpiredFrom(q.entries, n, reference, q.config.ttl)
  {
  }

  lemma FrontExactly(q: Queue, reference: int)
    requires !q.config.newestFirst
    ensures Expire(q, reference).0.entries == Unexpired(q.entries, reference, q.config.ttl)
            <==> ExpiredTogether(q, reference)
  {
    var s, ttl := q.entries, q.config.ttl;
    var n := FrontRun(s, reference, ttl);
    FrontRunMeaning(s, reference, ttl);
    FrontSplit(s, n, reference, ttl);
    FrontTogether(q, n, reference);
  }

  lemma FrontTogether(q: Queue, n: nat, reference: int)
    requires !q.config.newestFirst && n <= |q.entries|
    requires forall i :: 0 <= i < n ==> IsExpired(q.entries[i], reference, q.config.ttl)
    requires n < |q.entries| ==> !IsExpired(q.entries[n], reference, q.config.ttl)
    ensures ExpiredTogether(q, reference) <==> ExpiredBelow(q.entries, n, reference, q.config.ttl)
  {
  }

  predicate NoneExpired(s: seq<Entry>, reference: int, ttl: int)
  {
    forall i :: 0 <= i < |s| ==> !IsExpired(s[i], reference, ttl)
  }

  lemma {:induction false} OnlyUnexpired(s: seq<Entry>, reference: int, ttl: int)
    ensures NoneExpired(Unexpired(s, reference, ttl), reference, ttl)
  {
    if s != [] {
      OnlyUnexpired(s[1..], reference, ttl);
      var rest, r := Unexpired(s[1..], reference, ttl), Unexpired(s, reference, ttl);
      forall i | 0 <= i < |r| ensures !IsExpired(r[i], reference, ttl) {
        if IsExpired(s[0], reference, ttl) {
          assert r == rest;
        } else if i > 0 {
          assert r[i] == rest[i - 1];
        }
      }
    }
  }

  lemma ExpireExact(q: Queue, reference: int)
    requires Ordered(q)
    ensures Expire(q, reference).0.entries == Unexpired(q.entries, reference, q.config.ttl)
  {
    ExpireExactly(q, reference);
  }

  lemma BackSplit(s: seq<Entry>, n: nat, reference: int, ttl: int)
    requires n <= |s| && forall i :: n <= i < |s| ==> IsExpired(s[i], reference, ttl)
    ensures Unexpired(s, reference, ttl) == s[..n] <==> ExpiredFrom(s, n, reference, ttl)
  {
    assert s == s[..n] + s[n..];
    SplitUnexpired(s[..n], s[n..], reference, ttl);
    DropsAll(s[n..], reference, ttl);
    OnlyUnexpired(s, reference, ttl);
    if ExpiredFrom(s, n, reference, ttl) {
      KeepsAll(s[..n], reference, ttl);
    } else {
      var i :| 0 <= i < n && IsExpired(s[i], reference, ttl);
      assert s[..n][i] == s[i];
    }
  }

  lemma FrontSplit(s: seq<Entry>, n: nat, reference: int, ttl: int)
    requires n <= |s| && forall i :: 0 <= i < n ==> IsExpired(s[i], reference, ttl)
    ensures Unexpired(s, reference, ttl) == s[n..] <==> ExpiredBelow(s, n, reference, ttl)
  {
    assert s == s[..n] + s[n..];
    SplitUnexpired(s[..n], s[n..], reference, ttl);
    DropsAll(s[..n], reference, ttl);
    OnlyUnexpired(s, reference, ttl);
    if ExpiredBelow(s, n, reference, ttl) {
      KeepsAll(s[n..], reference, ttl);
    } else {
      var i :| n <= i < |s| && IsExpired(s[i], reference, ttl);
      assert s[n..][i - n] == s[i];
    }
  }

  /** The scan of erase gets as far as i. */
  predicate Reaches(entries: seq<Entry>, value: Value, newestFirst: bool, i: nat)
    requires i <= |entries|
  {
    forall j :: 0 <= j < i ==> !StopsAt(entries[j], value, newestFirst)
  }

  /** erase finds a value if and only if an occurrence stands before every value at which the scan
      gives up, and then removes the first occurrence. */
  lemma EraseExactly(q: Queue, value: Value)
    ensures Erase(q, value).1 <==>
              exists i :: 0 <= i < |q.entries| && q.entries[i].value == value
                          && Reaches(q.entries, value, q.config.newestFirst, i)
    ensures Erase(q, value).1 ==>
              exists i :: 0 <= i < |q.entries| && q.entries[i].value == value && value !in Values(q.entries[..i])
                          && Erase(q, value).0.entries == Without(q.entries, i)
  {
    var s, newestFirst := q.entries, q.config.newestFirst;
    var n := EraseIndex(s, value, newestFirst, 0);
    EraseIndexMeans(s, value, newestFirst, 0);
    if n < |s| {
      assert s[n].value == value && Reaches(s, value, newestFirst, n);
      assert forall j :: 0 <= j < n ==> Values(s[..n])[j] == s[j].value;
    }
  }

  /** From i on, either the first occurrence is found before any stop, or there is none before the first stop. */
  lemma {:induction false} EraseIndexMeans(entries: seq<Entry>, value: Value, newestFirst: bool, i: nat)
    requires i <= |entries|
    ensures var n := EraseIndex(entries, value, newestFirst, i);
            if n < |entries|
            then forall j :: i <= j < n ==> entries[j].value != value && !StopsAt(entries[j], value, newestFirst)
            else forall k :: i <= k < |entries| && entries[k].value == value ==>
                   exists j :: i <= j < k && StopsAt(entries[j], value, newestFirst)
    decreases |entries| - i
  {
    if i < |entries| && entries[i].value != value && !StopsAt(entries[i], value, newestFirst) {
      EraseIndexMeans(entries, value, newestFirst, i + 1);
    }
  }

  /** erase finds a value exactly when it is queued, and removes its first occurrence only. */
  lemma EraseExact(q: Queue, value: Value)
    requires Ordered(q)
    ensures Erase(q, value).1 <==> value in Values(q.entries)
    ensures Erase(q, value).1 ==>
              exists i :: 0 <= i < |q.entries| && q.entries[i].value == value && value !in Values(q.entries[..i])
                          && Erase(q, value).0.entries == Without(q.entries, i)
  {
    EraseExactly(q, value);
    var s := q.entries;
    assert forall i :: 0 <= i < |s| ==> Values(s)[i] == s[i].value;
    if value in Values(s) {
      var i :| 0 <= i < |s| && Values(s)[i] == value;
      assert s[i].value == value;
      assert Reaches(s, value, q.config.newestFirst, i);
    }
  }

  lemma {:induction false} BackRunMeaning(s: seq<Entry>, reference: int, ttl: int)
    ensures var n := |s| - BackRun(s, reference, ttl);
            && (forall i :: n <= i < |s| ==> IsExpired(s[i], reference, ttl))
            && (n > 0 ==> !IsExpired(s[n - 1], reference, ttl))
  {
    if s != [] && IsExpired(s[|s| - 1], reference, ttl) {
      BackRunMeaning(s[..|s| - 1], reference, ttl);
    }
  }

  lemma {:induction false} FrontRunMeaning(s: seq<Entry>, reference: int, ttl: int)
    ensures var n := FrontRun(s, reference, ttl);
            && (forall i :: 0 <= i < n ==> IsExpired(s[i], reference, ttl))
            && (n < |s| ==> !IsExpired(s[n], reference, ttl))
  {
    if s != [] && IsExpired(s[0], reference, ttl) {
      FrontRunMeaning(s[1..], reference, ttl);
    }
  }

  lemma {:induction false} SplitUnexpired(a: seq<Entry>, b: seq<Entry>, reference: int, ttl: int)
    ensures Unexpired(a + b, reference, ttl) == Unexpired(a, reference, ttl) + Unexpired(b, reference, ttl)
  {
    if a == [] {
      assert a + b == b;
    } else {
      assert (a + b)[1..] == a[1..] + b;
      SplitUnexpired(a[1..], b, reference, ttl);
    }
  }

  lemma {:induction false} KeepsAll(s: seq<Entry>, reference: int, ttl: int)
    requires forall i :: 0 <= i < |s| ==> !IsExpired(s[i], reference, ttl)
    ensures Unexpired(s, reference, ttl) == s
  {
    if s != [] {
      KeepsAll(s[1..], reference, ttl);
    }
  }

  lemma {:induction false} DropsAll(s: seq<Entry>, reference: int, ttl: int)
    requires forall i :: 0 <= i < |s| ==> IsExpired(s[i], reference, ttl)
    ensures Unexpired(s, reference, ttl) == []
  {
    if s != [] {
      DropsAll(s[1..], reference, ttl);
    }
  }

  // ----- nothing is lost or made up

  function Contents(q: Queue): multiset<Value>
  {
    multiset(Values(q.entries))
  }

  lemma SplitContents(a: seq<Entry>, b: seq<Entry>)
    ensures multiset(Values(a + b)) == multiset(Values(a)) + multiset(Values(b))
  {
    assert Values(a + b) == Values(a) + Values(b);
  }

  lemma {:induction false} ReversedContents(s: seq<Value>)
    ensures multiset(Reversed(s)) == multiset(s)
  {
    if s != [] {
      var last := |s| - 1;
      ReversedContents(s[..last]);
      assert Reversed(s) == [s[last]] + Reversed(s[..last]);
      assert s == s[..last] + [s[last]];
    }
  }

  lemma PushConserves(q: Queue, data: Bytes, time: int)
    ensures Contents(q) + multiset{Value(time, data)}
            == Contents(Push(q, data, time).0) + multiset(Push(q, data, time).1)
  {
    var all, max := Insert(q, data, time), q.config.maxQueue;
    var e := Entry(ZERO_POINT, Value(time, data));
    SplitContents([e], q.entries);
    SplitContents(q.entries, [e]);
    assert Values([e]) == [Value(time, data)];
    if |all| > max {
      SplitContents(all[..max], all[max..]);
      assert all == all[..max] + all[max..];
      ReversedContents(Values(all[max..]));
    }
  }

  lemma ExpireConserves(q: Queue, reference: int)
    ensures Contents(q) == Contents(Expire(q, reference).0) + multiset(Expire(q, reference).1)
  {
    var s, ttl := q.entries, q.config.ttl;
    var n := if q.config.newestFirst then |s| - BackRun(s, reference, ttl) else FrontRun(s, reference, ttl);
    assert s == s[..n] + s[n..];
    SplitContents(s[..n], s[n..]);
    ReversedContents(Values(s[n..]));
  }

  lemma WithoutConserves(s: seq<Entry>, i: nat)
    requires i < |s|
    ensures multiset(Values(s)) == multiset(Values(Without(s, i))) + multiset{s[i].value}
  {
    assert s == (s[..i] + [s[i]]) + s[i + 1..];
    SplitContents(s[..i] + [s[i]], s[i + 1..]);
    SplitContents(s[..i], [s[i]]);
    SplitContents(s[..i], s[i + 1..]);
    assert Values([s[i]]) == [s[i].value];
  }

  lemma PopConserves(q: Queue)
    requires q.entries != []
    ensures Contents(q) == Contents(q.(entries := q.entries[1..])) + multiset{q.entries[0].value}
  {
    WithoutConserves(q.entries, 0);
    assert Without(q.entries, 0) == q.entries[1..];
  }

  lemma EraseConserves(q: Queue, value: Value)
    ensures Contents(q) == Contents(Erase(q, value).0) + if Erase(q, value).1 then multiset{value} else multiset{}
  {
    var i := EraseIndex(q.entries, value, q.config.newestFirst, 0);
    if i < |q.entries| {
      WithoutConserves(q.entries, i);
    }
  }

  lemma ServeConserves(q: Queue, reference: int, i: nat)
    requires i < |q.entries|
    ensures Contents(Serve(q, reference, i)) == Contents(q)
  {
    assert Values(Serve(q, reference, i).entries) == Values(q.entries);
  }
}
