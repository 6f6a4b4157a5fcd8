/**
 * One-time verification codes, kept in Redis when it answers and in a process-local map when it does
 * not.  Every Redis call may succeed, fail without effect, or take effect and lose its reply.
 */
module Verification {
  import opened Options

  const NANOS := 1_000_000_000

  datatype Entry = Entry(code: string, time: int)
  datatype Store = Store(redis: map<string, string>, memory: map<string, Entry>)

  /** What became of a Redis call; `Down` stands for Redis not configured, so that no call is made. */
  datatype Call = Down | Replied | Failed | ReplyLost

  predicate TakesEffect(c: Call) {
    c.Replied? || c.ReplyLost?
  }

  /** int(d.Seconds()): whole seconds, truncated toward zero. */
  function WholeSeconds(nanos: int): int {
    if nanos >= 0 then nanos / NANOS else -((-nanos) / NANOS)
  }

  predicate Expired(e: Entry, minutes: int, now: int) {
    WholeSeconds(now - e.time) >= minutes * 60
  }

  /** The entries that are still valid. */
  function Unexpired(memory: map<string, Entry>, minutes: int, now: int): map<string, Entry> {
    map k | k in memory && !Expired(memory[k], minutes, now) :: memory[k]
  }

  const MAX_PAIRS := 10

  function RegisterIn(s: Store, rk: string, code: string, call: Call, minutes: int, now: int): Store {
    var redis := if TakesEffect(call) then s.redis[rk := code] else s.redis;
    if call.Replied? then s.(redis := redis)
    else
      var memory := s.memory[rk := Entry(code, now)];
      Store(redis, if |memory| > MAX_PAIRS then Unexpired(memory, minutes, now) else memory)
  }

  predicate MemoryHolds(s: Store, rk: string, code: string, minutes: int, now: int) {
    rk in s.memory && !Expired(s.memory[rk], minutes, now) && s.memory[rk].code == code
  }

  datatype Consumed = Consumed(store: Store, ok: bool)

  function ConsumeIn(s: Store, rk: string, code: string, call: Call, minutes: int, now: int): Consumed {
    var matched := rk in s.redis && s.redis[rk] == code;
    var redis := if TakesEffect(call) && matched then s.redis - {rk} else s.redis;
    if call.Replied? && rk in s.redis then Consumed(s.(redis := redis), matched)
    else if MemoryHolds(s, rk, code, minutes, now) then Consumed(Store(redis, s.memory - {rk}), true)
    else Consumed(s.(redis := redis), false)
  }

  function VerifyIn(s: Store, rk: string, code: string, call: Call, minutes: int, now: int): bool {
    if call.Replied? && rk in s.redis then s.redis[rk] == code else MemoryHolds(s, rk, code, minutes, now)
  }

  function DeleteIn(s: Store, rk: string, call: Call): Store {
    if call.Down? then s.(memory := s.memory - {rk})
    else if TakesEffect(call) then s.(redis := s.redis - {rk}) else s
  }

  class Codes {
    var redis: map<string, string>
    var memory: map<string, Entry>

    function Value(): Store
      reads this
    {
      Store(redis, memory)
    }

    constructor ()
      ensures Value() == Store(map[], map[])
    {
      redis, memory := map[], map[];
    }

    /** Keys are visited in no particular order; an entry goes exactly when it has expired. */
    method RemoveExpiredPairs(minutes: int, now: int)
      modifies this
      ensures redis == old(redis) && memory == Unexpired(old(memory), minutes, now)
    {
      var pending := memory.Keys;
      while pending != {}
        invariant redis == old(redis)
        invariant pending <= memory.Keys
        invariant forall k :: k in memory <==>
                  k in old(memory) && (k in pending || !Expired(old(memory)[k], minutes, now))
        invariant forall k :: k in memory ==> memory[k] == old(memory)[k]
        decreases |pending|
      {
        var k :| k in pending;
        pending := pending - {k};
        if Expired(memory[k], minutes, now) {
          memory := memory - {k};
        }
      }
    }

    method Register(key: string, code: string, purpose: string, call: Call, minutes: int, now: int)
      modifies this
      ensures Value() == RegisterIn(old(Value()), purpose + key, code, call, minutes, now)
    {
      var rk := purpose + key;
      if !call.Down? {
        if TakesEffect(call) {
          redis := redis[rk := code];
        }
        if call.Replied? { return; }
      }
      memory := memory[rk := Entry(code, now)];
      if |memory| > MAX_PAIRS {
        RemoveExpiredPairs(minutes, now);
      }
    }

    method Consume(key: string, code: string, purpose: string, call: Call, minutes: int, now: int) returns (ok: bool)
      modifies this
      ensures Consumed(Value(), ok) == ConsumeIn(old(Value()), purpose + key, code, call, minutes, now)
    {
      var rk := purpose + key;
      if !call.Down? {
        var found := rk in redis;
        var matched := found && redis[rk] == code;
        if TakesEffect(call) && matched {
          redis := redis - {rk};
        }
        if call.Replied? {
          if matched { return true; }
          if found { return false; }
        }
      }
      if rk !in memory || Expired(memory[rk], minutes, now) { return false; }
      if memory[rk].code != code { return false; }
      memory := memory - {rk};
      return true;
    }

    method Verify(key: string, code: string, purpose: string, call: Call, minutes: int, now: int) returns (ok: bool)
      ensures ok == VerifyIn(Value(), purpose + key, code, call, minutes, now)
    {
      var rk := purpose + key;
      if call.Replied? && rk in redis { return code == redis[rk]; }
      if rk !in memory || Expired(memory[rk], minutes, now) { return false; }
      return code == memory[rk].code;
    }

    method Delete(key: string, purpose: string, call: Call)
      modifies this
      ensures Value() == DeleteIn(old(Value()), purpose + key, call)
    {
      var rk := purpose + key;
      if !call.Down? {
        if TakesEffect(call) { redis := redis - {rk}; }
        return;
      }
      memory := memory - {rk};
    }
  }

  // ----- Runs -----

  datatype Event =
    | Register(purpose: string, key: string, code: string, call: Call, minutes: int, now: int)
    | Consume(purpose: string, key: string, code: string, call: Call, minutes: int, now: int)
    | Delete(purpose: string, key: string, call: Call)
    | RedisExpires(rk: string)

  function Step(s: Store, e: Event): Store {
    match e
    case Register(p, k, c, call, minutes, now) => RegisterIn(s, p + k, c, call, minutes, now)
    case Consume(p, k, c, call, minutes, now) => ConsumeIn(s, p + k, c, call, minutes, now).store
    case Delete(p, k, call) => DeleteIn(s, p + k, call)
    case RedisExpires(rk) => s.(redis := s.redis - {rk})
  }

  function Execute(events: seq<Event>): Store {
    if events == [] then Store(map[], map[])
    else Step(Execute(events[..|events| - 1]), events[|events| - 1])
  }

  function Bit(b: bool): nat {
    if b then 1 else 0
  }

  /** Registrations of this purpose, key and code in the run. */
  function Registrations(events: seq<Event>, p: string, k: string, c: string): nat {
    if events == [] then 0
    else
      var e := events[|events| - 1];
      Registrations(events[..|events| - 1], p, k, c) + Bit(e.Register? && e.purpose == p && e.key == k && e.code == c)
  }

  /** Those among them that Redis carried out without the reply arriving. */
  function LostReplies(events: seq<Event>, p: string, k: string, c: string): nat {
    if events == [] then 0
    else
      var e := events[|events| - 1];
      LostReplies(events[..|events| - 1], p, k, c)
      + Bit(e.Register? && e.purpose == p && e.key == k && e.code == c && e.call.ReplyLost?)
  }

  /** Successful consumptions of this purpose, key and code. */
  function Consumptions(events: seq<Event>, p: string, k: string, c: string): nat {
    if events == [] then 0
    else
      var init, e := events[..|events| - 1], events[|events| - 1];
      Consumptions(init, p, k, c)
      + Bit(e.Consume? && e.purpose == p && e.key == k && e.code == c
            && ConsumeIn(Execute(init), p + k, c, e.call, e.minutes, e.now).ok)
  }

  /** Purposes are one-letter tags, so that purpose and key can be told apart in the stored name. */
  predicate TaggedPurposes(events: seq<Event>) {
    forall i :: 0 <= i < |events| && (events[i].Register? || events[i].Consume?) ==> |events[i].purpose| == 1
  }

  /** How many copies of the code are waiting to be consumed. */
  function Waiting(s: Store, rk: string, code: string): nat {
    Bit(rk in s.redis && s.redis[rk] == code) + Bit(rk in s.memory && s.memory[rk].code == code)
  }

  lemma SameName(p: string, k: string, q: string, j: string)
    requires |p| == 1 && |q| == 1
    ensures p + k == q + j <==> p == q && k == j
  {
    if p + k == q + j {
      assert (p + k)[0] == p[0] && (q + j)[0] == q[0];
      assert (p + k)[1..] == k && (q + j)[1..] == j;
    }
  }

  lemma WaitingStep(s: Store, e: Event, p: string, k: string, c: string)
    requires |p| == 1 && (e.Register? || e.Consume? ==> |e.purpose| == 1)
    ensures var rk := p + k;
            Waiting(Step(s, e), rk, c)
            + Bit(e.Consume? && e.purpose == p && e.key == k && e.code == c &&
                  ConsumeIn(s, rk, c, e.call, e.minutes, e.now).ok)
            <= Waiting(s, rk, c)
               + Bit(e.Register? && e.purpose == p && e.key == k && e.code == c)
               + Bit(e.Register? && e.purpose == p && e.key == k && e.code == c && e.call.ReplyLost?)
  {
    if e.Register? || e.Consume? {
      SameName(p, k, e.purpose, e.key);
    }
  }

  lemma {:induction false} Conservation(events: seq<Event>, p: string, k: string, c: string)
    requires |p| == 1 && TaggedPurposes(events)
    ensures Consumptions(events, p, k, c) + Waiting(Execute(events), p + k, c)
            <= Registrations(events, p, k, c) + LostReplies(events, p, k, c)
  {
    if events != [] {
      var init := events[..|events| - 1];
      Conservation(init, p, k, c);
      WaitingStep(Execute(init), events[|events| - 1], p, k, c);
    }
  }

  /**
   * Over every run with Redis failing at will, a code is consumed at most as often as it was
   * registered, plus one for each registration that Redis carried out although its reply was lost.
   */
  lemma ConsumedAtMostRegistered(events: seq<Event>, p: string, k: string, c: string)
    requires |p| == 1 && TaggedPurposes(events)
    ensures Consumptions(events, p, k, c) <= Registrations(events, p, k, c) + LostReplies(events, p, k, c)
    ensures (forall i :: 0 <= i < |events| && events[i].Register? ==> !events[i].call.ReplyLost?) ==>
              Consumptions(events, p, k, c) <= Registrations(events, p, k, c)
  {
    Conservation(events, p, k, c);
    if forall i :: 0 <= i < |events| && events[i].Register? ==> !events[i].call.ReplyLost? {
      NoLostReplies(events, p, k, c);
    }
  }

  lemma {:induction false} NoLostReplies(events: seq<Event>, p: string, k: string, c: string)
    requires forall i :: 0 <= i < |events| && events[i].Register? ==> !events[i].call.ReplyLost?
    ensures LostReplies(events, p, k, c) == 0
  {
    if events != [] { NoLostReplies(events[..|events| - 1], p, k, c); }
  }

  lemma {:induction false} LostReplyLeavesTwoCopies(rk: string, c: string, minutes: int)
    ensures RegisterIn(Store(map[], map[]), rk, c, ReplyLost, minutes, 0) == Store(map[rk := c], map[rk := Entry(c, 0)])
  {
    var memory := map[rk := Entry(c, 0)];
    assert memory.Keys == {rk};
    assert |memory| == 1;
  }

  /** One registration whose reply is lost can be consumed twice. */
  lemma LostReplyConsumedTwice(p: string, k: string, c: string, minutes: int)
    requires minutes >= 1
    ensures var e1 := Consume(p, k, c, Replied, minutes, 0);
            var events := [Register(p, k, c, ReplyLost, minutes, 0), e1, e1];
            Consumptions(events, p, k, c) == 2 && Registrations(events, p, k, c) == 1
  {
    var e0, e1 := Register(p, k, c, ReplyLost, minutes, 0), Consume(p, k, c, Replied, minutes, 0);
    assert [e0][..0] == [] && [e0, e1][..1] == [e0] && [e0, e1, e1][..2] == [e0, e1];
    LostReplyLeavesTwoCopies(p + k, c, minutes);
    var s0 := Execute([e0]);
    assert Execute([e0][..0]) == Store(map[], map[]);
    assert s0 == Store(map[p + k := c], map[p + k := Entry(c, 0)]);
    var s1 := Execute([e0, e1]);
    assert s1 == Step(s0, e1);
    assert Consumptions([e0], p, k, c) == 0;
    assert Consumptions([e0, e1], p, k, c) == 1;
    assert Registrations([e0], p, k, c) == 1 && Registrations([e0, e1], p, k, c) == 1;
  }

  /** A code held by an answering Redis shields memory: any other code is rejected and nothing changes. */
  lemma {:induction false} MismatchStopsAtRedis(s: Store, rk: string, code: string, minutes: int, now: int)
    requires rk in s.redis && s.redis[rk] != code
    ensures ConsumeIn(s, rk, code, Replied, minutes, now) == Consumed(s, false)
    ensures forall m :: ConsumeIn(s.(memory := m), rk, code, Replied, minutes, now).ok == false
  {
  }

  /** Looking at a code predicts consuming it, and a consumed code is gone from the store that held it. */
  lemma {:induction false} VerifyPredictsConsume(s: Store, rk: string, code: string, call: Call, minutes: int, now: int)
    ensures var r := ConsumeIn(s, rk, code, call, minutes, now);
            && r.ok == VerifyIn(s, rk, code, call, minutes, now)
            && (r.ok ==> Waiting(r.store, rk, code) < Waiting(s, rk, code))
            && (!r.ok && !call.ReplyLost? ==> r.store == s)
  {
  }
}
