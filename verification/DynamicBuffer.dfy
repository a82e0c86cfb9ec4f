/** Several subbuffers competing for the channel: DynamicBuffer of
    src/acomms/buffer/dynamic_buffer.h. */
module DynamicBuffers {
  import opened Options
  import opened SubBuffer

  /** Destination modem id and subbuffer id. */
  type Key = (int, string)

  datatype FullValue = FullValue(key: Key, value: Value)

  type Queues = map<Key, Queue>

  const QUERY_DESTINATION_ID := -1

  /** The arguments of top and its one clock reading. */
  datatype Contest = Contest(dest: int, maxBytes: nat, ackTimeout: int, now: int)

  predicate AllProper(qs: Queues)
  {
    forall k :: k in qs ==> Proper(qs[k].config)
  }

  predicate Searched(c: Contest, key: Key)
  {
    c.dest == QUERY_DESTINATION_ID || key.0 == c.dest
  }

  predicate Eligible(qs: Queues, c: Contest, key: Key)
    requires AllProper(qs)
  {
    key in qs && Searched(c, key) && TopValue(qs[key], c.now, c.maxBytes, c.ackTimeout).Provided?
  }

  function Priority(qs: Queues, c: Contest, key: Key): real
    requires AllProper(qs) && Eligible(qs, c, key)
  {
    TopValue(qs[key], c.now, c.maxBytes, c.ackTimeout).priority
  }

  ghost predicate IsWinner(qs: Queues, c: Contest, key: Key)
    requires AllProper(qs)
  {
    && Eligible(qs, c, key)
    && forall k :: Eligible(qs, c, k) ==> Priority(qs, c, k) <= Priority(qs, c, key)
  }

  /** The values of one subbuffer in a list of results. */
  function Of(values: seq<FullValue>, key: Key): seq<Value>
  {
    if values == [] then []
    else (if values[0].key == key then [values[0].value] else []) + Of(values[1..], key)
  }

  function Tagged(key: Key, values: seq<Value>): (r: seq<FullValue>)
    ensures |r| == |values|
  {
    seq(|values|, i requires 0 <= i < |values| => FullValue(key, values[i]))
  }

  class DynamicBuffer {
    /** sub_ maps a destination to a map of subbuffers; `dests` are the keys of the outer map. */
    var dests: set<int>
    var subs: map<Key, DynamicSubBuffer>

    ghost predicate Valid()
      reads this, subs.Values
    {
      && (forall k :: k in subs ==> k.0 in dests)
      && (forall j, k :: j in subs && k in subs && j != k ==> subs[j] != subs[k])
      && AllProper(View())
    }

    ghost function View(): Queues
      reads this, subs.Values
    {
      map k | k in subs :: subs[k].View()
    }

    constructor ()
      ensures Valid() && View() == map[]
    {
      dests, subs := {}, map[];
    }

    /** Fails when the subbuffer exists already, or there is no configuration. */
    method Create(key: Key, cfgs: seq<Settings>, now: int) returns (ok: bool)
      requires Valid() && (cfgs != [] ==> Proper(ConfigOf(cfgs)))
      modifies this
      ensures Valid() && fresh(subs.Values - old(subs.Values))
      ensures ok <==> key !in old(View()) && cfgs != []
      ensures View() == if ok then old(View())[key := Created(ConfigOf(cfgs), now)] else old(View())
    {
      if key in subs {
        return false;
      }
      dests := dests + {key.0};
      if cfgs == [] {
        return false;
      }
      ghost var config := ConfigOf(cfgs);
      var sub := NewSub(cfgs, now, config);
      subs := subs[key := sub];
      OneAdded(key, sub);
      return true;
    }

    method NewSub(cfgs: seq<Settings>, now: int, ghost config: Config) returns (sub: DynamicSubBuffer)
      requires cfgs != [] && config == ConfigOf(cfgs) && Proper(config)
      ensures fresh(sub) && sub.View() == Created(config, now) && Proper(sub.View().config)
    {
      sub := new DynamicSubBuffer(cfgs, now);
    }

    twostate lemma OneAdded(key: Key, new sub: DynamicSubBuffer)
      requires old(Valid()) && key !in old(subs) && subs == old(subs)[key := sub] && dests == old(dests) + {key.0}
      requires sub !in old(subs.Values)
      requires forall k :: k in old(subs) ==> subs[k].View() == old(subs[k].View())
      requires Proper(sub.View().config)
      ensures Valid() && View() == old(View())[key := sub.View()]
    {
      forall k | k in subs ensures Proper(View()[k].config) {
        assert k != key ==> View()[k] == old(View()[k]);
      }
    }

    method Remove(key: Key)
      requires Valid()
      modifies this
      ensures Valid() && subs.Values <= old(subs.Values)
      ensures View() == old(View()) - {key}
    {
      dests := dests + {key.0};
      subs := subs - {key};
      OneRemoved(key);
    }

    twostate lemma OneRemoved(key: Key)
      requires old(Valid()) && subs == old(subs) - {key} && dests == old(dests) + {key.0}
      requires forall k :: k in subs ==> subs[k].View() == old(subs[k].View())
      ensures Valid() && View() == old(View()) - {key} && subs.Values <= old(subs.Values)
    {
      forall k | k in subs ensures Proper(View()[k].config) {
        assert View()[k] == old(View()[k]);
      }
      forall k ensures k in View() <==> k in old(View()) - {key} {
        assert k in subs <==> k in old(subs) && k != key;
      }
      forall sub | sub in subs.Values ensures sub in old(subs.Values) {
        var k :| k in subs && subs[k] == sub;
        assert k in old(subs) && old(subs)[k] == sub;
      }
    }

    /** Without a configuration the old subbuffer is gone and there is no new one. */
    method Replace(key: Key, cfgs: seq<Settings>, now: int) returns (ok: bool)
      requires Valid() && (cfgs != [] ==> Proper(ConfigOf(cfgs)))
      modifies this
      ensures Valid() && fresh(subs.Values - old(subs.Values))
      ensures ok <==> cfgs != []
      ensures View() == if ok then old(View())[key := Created(ConfigOf(cfgs), now)] else old(View()) - {key}
    {
      Remove(key);
      ghost var without := View();
      ok := Create(key, cfgs, now);
      assert without[key := Created(ConfigOf(cfgs), now)] == old(View())[key := Created(ConfigOf(cfgs), now)];
    }

    /** Creates the subbuffer when there is none. */
    method Update(key: Key, cfgs: seq<Settings>, now: int) returns (ok: bool)
      requires Valid() && (cfgs != [] ==> Proper(ConfigOf(cfgs)))
      modifies this, subs.Values
      ensures Valid() && fresh(subs.Values - old(subs.Values))
      ensures ok <==> cfgs != []
      ensures View() == if !ok then old(View())
                        else old(View())[key := if key in old(View()) then Reconfigure(old(View())[key], ConfigOf(cfgs))
                                                else Created(ConfigOf(cfgs), now)]
    {
      if key in subs {
        ok := UpdateOne(key, cfgs);
      } else {
        ok := Create(key, cfgs, now);
      }
    }

    method UpdateOne(key: Key, cfgs: seq<Settings>) returns (ok: bool)
      requires Valid() && key in subs && (cfgs != [] ==> Proper(ConfigOf(cfgs)))
      modifies subs.Values
      ensures Valid() && (ok <==> cfgs != [])
      ensures View() == if ok then old(View())[key := Reconfigure(old(View())[key], ConfigOf(cfgs))] else old(View())
    {
      EntryProper(key);
      ok := subs[key].Update(cfgs);
      OneChanged(key);
    }

    lemma EntryProper(key: Key)
      requires Valid() && key in subs
      ensures View()[key] == subs[key].View() && Proper(subs[key].View().config)
    {
      assert Proper(View()[key].config);
    }

    /** Subbuffers are separate objects: changing one changes its entry and no other. */
    twostate lemma OneChanged(key: Key)
      requires old(Valid()) && subs == old(subs) && dests == old(dests) && key in subs
      requires forall k :: k in subs && subs[k] != subs[key] ==> subs[k].View() == old(subs[k].View())
      requires Proper(subs[key].View().config)
      ensures Valid() && View() == old(View())[key := subs[key].View()]
    {
    }

    /** pop of a subbuffer; the original leaves an empty or missing one undefined. */
    method PopFrom(key: Key)
      requires Valid() && key in View() && View()[key].entries != []
      modifies subs.Values
      ensures Valid()
      ensures View() == old(View())[key := old(View())[key].(entries := old(View())[key].entries[1..])]
    {
      EntryProper(key);
      subs[key].Pop();
      OneChanged(key);
    }

    /** None: there is no such subbuffer. */
    method PushFull(v: FullValue) returns (exceeded: Option<seq<FullValue>>)
      requires Valid()
      modifies subs.Values
      ensures Valid()
      ensures v.key !in old(View()) ==> exceeded == None && View() == old(View())
      ensures v.key in old(View()) ==>
        var (q, values) := Push(old(View())[v.key], v.value.data, v.value.pushTime);
        View() == old(View())[v.key := q] && exceeded == Some(Tagged(v.key, values))
    {
      if v.key !in subs {
        return None;
      }
      EntryProper(v.key);
      var values := subs[v.key].PushValue(v.value.data, v.value.pushTime);
      OneChanged(v.key);
      return Some(Tagged(v.key, values));
    }

    method EraseFull(v: FullValue) returns (found: Option<bool>)
      requires Valid()
      modifies subs.Values
      ensures Valid()
      ensures v.key !in old(View()) ==> found == None && View() == old(View())
      ensures v.key in old(View()) ==>
        var (q, f) := Erase(old(View())[v.key], v.value);
        View() == old(View())[v.key := q] && found == Some(f)
    {
      if v.key !in subs {
        return None;
      }
      EntryProper(v.key);
      var f := subs[v.key].EraseValue(v.value);
      OneChanged(v.key);
      return Some(f);
    }

    /** The priority contest. It fails exactly when no searched subbuffer is eligible; otherwise
        it serves the first available value of one with maximal priority and touches no other. */
    method Top(c: Contest) returns (top: Option<FullValue>)
      requires Valid()
      modifies subs.Values
      ensures Valid()
      ensures top == None <==> forall k :: !Eligible(old(View()), c, k)
      ensures top == None ==> View() == old(View())
      ensures top.Some? ==> ServedBy(old(View()), c, top.value, View())
      ensures Contested(old(View()), c, top, View())
    {
      ghost var before := View();
      if c.dest != QUERY_DESTINATION_ID && c.dest !in dests {
        NobodyThere(before, c);
        WonFairly(before, c, None, before);
        return None;
      }
      var winner := FindWinner(c);
      if winner.None? {
        forall k ensures !Eligible(before, c, k) {
          assert !Eligible(View(), c, k);
        }
        WonFairly(before, c, None, before);
        return None;
      }
      var value := ServeOne(winner.value, c);
      top := Some(FullValue(winner.value, value));
      WonFairly(before, c, top, View());
    }

    lemma NobodyThere(qs: Queues, c: Contest)
      requires Valid() && qs == View() && c.dest != QUERY_DESTINATION_ID && c.dest !in dests
      ensures forall k :: !Eligible(qs, c, k)
    {
      forall k ensures !Eligible(qs, c, k) {
        assert k in qs ==> k in subs;
      }
    }

    /** The inner top of an eligible subbuffer never fails. */
    method ServeOne(key: Key, c: Contest) returns (value: Value)
      requires Valid() && Eligible(View(), c, key)
      modifies subs.Values
      ensures Valid()
      ensures var q := old(View())[key];
              var i := FirstAvailable(q.entries, c.now, c.ackTimeout);
              && i < |q.entries| && value == q.entries[i].value && |value.data| <= c.maxBytes
              && View() == old(View())[key := Serve(q, c.now, i)]
    {
      EntryProper(key);
      var top := subs[key].Top(c.now, c.ackTimeout);
      value := top.value;
      OneChanged(key);
    }

    /** The contest itself, in whatever order the maps are traversed. */
    method FindWinner(c: Contest) returns (winner: Option<Key>)
      requires Valid()
      ensures winner == None <==> forall k :: !Eligible(View(), c, k)
      ensures winner.Some? ==> IsWinner(View(), c, winner.value)
    {
      ghost var qs := View();
      winner := None;
      var winningValue := 0.0;
      var remaining := subs.Keys;
      while remaining != {}
        invariant remaining <= subs.Keys
        invariant Leading(qs, c, winner, winningValue, remaining)
        decreases |remaining|
      {
        var key :| key in remaining;
        EntryProper(key);
        var result := subs[key].GetTopValue(c.now, c.maxBytes, c.ackTimeout);
        LeadingStep(qs, c, winner, winningValue, remaining, key);
        remaining := remaining - {key};
        if (c.dest == QUERY_DESTINATION_ID || key.0 == c.dest)
           && result.Provided? && (winner.None? || result.priority > winningValue) {
          winningValue := result.priority;
          winner := Some(key);
        }
      }
      LeadingToTheEnd(qs, c, winner, winningValue);
    }

    /** Expires every subbuffer; the result holds, for each, what its own expire returns. */
    method ExpireAll(now: int) returns (expired: seq<FullValue>)
      requires Valid()
      modifies subs.Values
      ensures Valid()
      ensures Expiring(old(View()), now, View(), expired, {})
    {
      expired := [];
      var remaining := subs.Keys;
      ghost var before := View();
      ExpiringStart(before, now);
      while remaining != {}
        invariant PartlyExpired(before, now, expired, remaining)
        decreases |remaining|
      {
        var key :| key in remaining;
        var values := ExpireNext(key, now, before, expired, remaining);
        remaining := remaining - {key};
        expired := expired + Tagged(key, values);
      }
    }

    ghost predicate PartlyExpired(before: Queues, now: int, expired: seq<FullValue>, remaining: set<Key>)
      reads this, subs.Values
    {
      && Valid() && remaining <= subs.Keys
      && Expiring(before, now, View(), expired, remaining)
    }

    method ExpireNext(key: Key, now: int, ghost before: Queues, ghost expired: seq<FullValue>, ghost remaining: set<Key>)
      returns (values: seq<Value>)
      requires key in remaining && PartlyExpired(before, now, expired, remaining)
      modifies subs.Values
      ensures PartlyExpired(before, now, expired + Tagged(key, values), remaining - {key})
    {
      ghost var view := View();
      ExpiringStep(before, now, view, expired, remaining, key);
      EntryProper(key);
      values := subs[key].ExpireValues(now);
      OneChanged(key);
      assert View() == view[key := Expire(before[key], now).0] && values == Expire(before[key], now).1;
    }
  }

  /** The winner's first available value was served, and nothing else changed. */
  ghost predicate ServedBy(qs: Queues, c: Contest, top: FullValue, after: Queues)
    requires AllProper(qs)
  {
    && IsWinner(qs, c, top.key)
    && var q := qs[top.key];
       var i := FirstAvailable(q.entries, c.now, c.ackTimeout);
       && i < |q.entries| && top.value == q.entries[i].value
       && |top.value.data| <= c.maxBytes
       && after == qs[top.key := Serve(q, c.now, i)]
  }

  // ----- who may be served, and who is

  /** By the stored fields alone: the subbuffer is asked for, and its entry i may be served now. */
  ghost predicate Servable(qs: Queues, c: Contest, key: Key, i: int)
  {
    && key in qs && (c.dest == -1 || key.0 == c.dest)
    && SubBuffer.Ready(qs[key], c.now, c.ackTimeout, i) && |qs[key].entries[i].value.data| <= c.maxBytes
  }

  /** The priority of j is not above that of k, without dividing by the times to live. */
  predicate NotAbove(c: Contest, j: Queue, k: Queue)
  {
    j.config.valueBase * (c.now - j.lastAccess) as real * k.config.ttl as real
    <= k.config.valueBase * (c.now - k.lastAccess) as real * j.config.ttl as real
  }

  /** What a call of top does: it fails just when nothing may be served; otherwise it serves such a value of a
      subbuffer than which none has a higher priority, and notes when. */
  ghost predicate Contested(qs: Queues, c: Contest, top: Option<FullValue>, after: Queues)
  {
    && (top == None <==> forall k, i :: !Servable(qs, c, k, i))
    && (top == None ==> after == qs)
    && (top.Some? ==> exists i :: Serves(qs, c, top.value, i, after))
  }

  ghost predicate Serves(qs: Queues, c: Contest, top: FullValue, i: int, after: Queues)
  {
    && Servable(qs, c, top.key, i)
    && var q := qs[top.key];
       && top.value == q.entries[i].value
       && (forall k, j :: Servable(qs, c, k, j) ==> NotAbove(c, qs[k], q))
       && after == qs[top.key := Queue(q.config, q.entries[i := Entry(c.now, q.entries[i].value)], c.now)]
  }

  lemma EligibleExactly(qs: Queues, c: Contest, key: Key)
    requires AllProper(qs)
    ensures Eligible(qs, c, key) <==> exists i :: Servable(qs, c, key, i)
  {
    if key in qs {
      TopValueExactly(qs[key], c.now, c.maxBytes, c.ackTimeout);
      if Eligible(qs, c, key) {
        var i :| SubBuffer.Ready(qs[key], c.now, c.ackTimeout, i) && |qs[key].entries[i].value.data| <= c.maxBytes;
        assert Servable(qs, c, key, i);
      }
    }
  }

  lemma PriorityOrder(qs: Queues, c: Contest, j: Key, k: Key)
    requires AllProper(qs) && Eligible(qs, c, j) && Eligible(qs, c, k) && Priority(qs, c, j) <= Priority(qs, c, k)
    ensures NotAbove(c, qs[j], qs[k])
  {
    PriorityMeans(qs, c, j);
    PriorityMeans(qs, c, k);
    CrossMultiply(Priority(qs, c, j), qs[j].config.ttl as real, Priority(qs, c, k), qs[k].config.ttl as real);
  }

  lemma PriorityMeans(qs: Queues, c: Contest, k: Key)
    requires AllProper(qs) && Eligible(qs, c, k)
    ensures Priority(qs, c, k) * qs[k].config.ttl as real == qs[k].config.valueBase * (c.now - qs[k].lastAccess) as real
  {
    SubBuffer.PriorityExactly(qs[k], c.now, c.maxBytes, c.ackTimeout);
  }

  lemma CrossMultiply(x: real, a: real, y: real, b: real)
    requires a > 0.0 && b > 0.0 && x <= y
    ensures (x * a) * b <= (y * b) * a
  {
    assert (y * b) * a - (x * a) * b == (y - x) * (a * b);
  }

  lemma WonFairly(qs: Queues, c: Contest, top: Option<FullValue>, after: Queues)
    requires AllProper(qs)
    requires top == None <==> forall k :: !Eligible(qs, c, k)
    requires top == None ==> after == qs
    requires top.Some? ==> ServedBy(qs, c, top.value, after)
    ensures Contested(qs, c, top, after)
  {
    forall k ensures Eligible(qs, c, k) <==> exists i :: Servable(qs, c, k, i) {
      EligibleExactly(qs, c, k);
    }
    if top.Some? {
      ServedMeans(qs, c, top.value, after);
    } else {
      forall k, i ensures !Servable(qs, c, k, i) {
        assert !Eligible(qs, c, k);
      }
    }
  }

  lemma ServedMeans(qs: Queues, c: Contest, top: FullValue, after: Queues)
    requires AllProper(qs) && ServedBy(qs, c, top, after)
    ensures exists i :: Serves(qs, c, top, i, after)
  {
    EligibleExactly(qs, c, top.key);
    var i :| Servable(qs, c, top.key, i);
    FirstDueIs(qs[top.key], c.now, c.ackTimeout, i);
    forall k, j | Servable(qs, c, k, j) ensures NotAbove(c, qs[k], qs[top.key]) {
      EligibleExactly(qs, c, k);
      PriorityOrder(qs, c, k, top.key);
    }
    assert Serves(qs, c, top, i, after);
  }

  // ----- the contest, step by step

  /** Part way through a contest: no subbuffer seen so far beats the leader. */
  ghost predicate Leading(qs: Queues, c: Contest, winner: Option<Key>, winningValue: real, remaining: set<Key>)
    requires AllProper(qs)
  {
    && (winner.Some? ==> Eligible(qs, c, winner.value) && winningValue == Priority(qs, c, winner.value))
    && forall k :: Eligible(qs, c, k) && k !in remaining ==>
         winner.Some? && Priority(qs, c, k) <= winningValue
  }

  lemma LeadingStep(qs: Queues, c: Contest, winner: Option<Key>, winningValue: real, remaining: set<Key>, key: Key)
    requires AllProper(qs) && Leading(qs, c, winner, winningValue, remaining)
    ensures if Eligible(qs, c, key) && (winner.None? || Priority(qs, c, key) > winningValue)
            then Leading(qs, c, Some(key), Priority(qs, c, key), remaining - {key})
            else Leading(qs, c, winner, winningValue, remaining - {key})
  {
  }

  lemma LeadingToTheEnd(qs: Queues, c: Contest, winner: Option<Key>, winningValue: real)
    requires AllProper(qs) && Leading(qs, c, winner, winningValue, {})
    ensures winner == None <==> forall k :: !Eligible(qs, c, k)
    ensures winner.Some? ==> IsWinner(qs, c, winner.value)
  {
  }

  /** A subbuffer whose turn has not come is untouched and has returned nothing; any other is done. */
  predicate Settled(target: (Queue, seq<Value>), before: Queue, view: Queue, returned: seq<Value>, done: bool)
  {
    (view, returned) == if done then target else (before, [])
  }

  /** Part way through expire. */
  ghost predicate Expiring(before: Queues, now: int, view: Queues, expired: seq<FullValue>, remaining: set<Key>)
  {
    && view.Keys == before.Keys
    && (forall k :: k in before ==>
         Settled(Expire(before[k], now), before[k], view[k], Of(expired, k), k !in remaining))
    && forall k :: k !in before ==> Of(expired, k) == []
  }

  lemma ExpiringStart(before: Queues, now: int)
    ensures Expiring(before, now, before, [], before.Keys)
  {
  }

  /** The same, for given targets. */
  ghost predicate ExpiringTo(target: map<Key, (Queue, seq<Value>)>, before: Queues, view: Queues,
                             expired: seq<FullValue>, remaining: set<Key>)
  {
    && view.Keys == before.Keys == target.Keys
    && (forall k :: k in before ==> Settled(target[k], before[k], view[k], Of(expired, k), k !in remaining))
    && forall k :: k !in before ==> Of(expired, k) == []
  }

  lemma ExpiringAs(target: map<Key, (Queue, seq<Value>)>, before: Queues, now: int, view: Queues,
                   expired: seq<FullValue>, remaining: set<Key>)
    requires target.Keys == before.Keys && forall k :: k in before ==> target[k] == Expire(before[k], now)
    ensures Expiring(before, now, view, expired, remaining) <==> ExpiringTo(target, before, view, expired, remaining)
  {
  }

  lemma ExpiringStep(before: Queues, now: int, view: Queues, expired: seq<FullValue>, remaining: set<Key>, key: Key)
    requires Expiring(before, now, view, expired, remaining) && key in before && key in remaining
    ensures view[key] == before[key]
    ensures var (q, values) := Expire(before[key], now);
            Expiring(before, now, view[key := q], expired + Tagged(key, values), remaining - {key})
  {
    var target := map k | k in before :: Expire(before[k], now);
    ExpiringAs(target, before, now, view, expired, remaining);
    ExpiredNext(target, before, view, expired, remaining, key);
    ExpiringAs(target, before, now, view[key := target[key].0], expired + Tagged(key, target[key].1), remaining - {key});
  }

  lemma ExpiredNext(target: map<Key, (Queue, seq<Value>)>, before: Queues, view: Queues,
                    expired: seq<FullValue>, remaining: set<Key>, key: Key)
    requires ExpiringTo(target, before, view, expired, remaining) && key in before && key in remaining
    ensures view[key] == before[key]
    ensures ExpiringTo(target, before, view[key := target[key].0], expired + Tagged(key, target[key].1), remaining - {key})
  {
    assert Settled(target[key], before[key], view[key], Of(expired, key), false);
    var (q, values) := target[key];
    var more, rest := expired + Tagged(key, values), remaining - {key};
    forall k ensures Of(more, k) == if k == key then values else Of(expired, k) {
      OfMore(expired, key, values, k);
    }
    forall k | k in before ensures Settled(target[k], before[k], view[key := q][k], Of(more, k), k !in rest) {
      assert Settled(target[k], before[k], view[k], Of(expired, k), k !in remaining);
    }
  }

  /** Values of one subbuffer are added to a list in which it had none. */
  lemma OfMore(expired: seq<FullValue>, key: Key, values: seq<Value>, k: Key)
    requires Of(expired, key) == []
    ensures Of(expired + Tagged(key, values), k) == if k == key then values else Of(expired, k)
  {
    OfAppend(expired, Tagged(key, values), k);
    OfTagged(key, values, k);
  }

  lemma {:induction false} OfAppend(a: seq<FullValue>, b: seq<FullValue>, key: Key)
    ensures Of(a + b, key) == Of(a, key) + Of(b, key)
  {
    if a == [] {
      assert a + b == b;
    } else {
      assert (a + b)[1..] == a[1..] + b;
      OfAppend(a[1..], b, key);
    }
  }

  lemma {:induction false} OfTagged(tag: Key, values: seq<Value>, key: Key)
    ensures Of(Tagged(tag, values), key) == if key == tag then values else []
  {
    if values != [] {
      assert Tagged(tag, values)[1..] == Tagged(tag, values[1..]);
      OfTagged(tag, values[1..], key);
    }
  }
}
