/**
 * Which codes are accepted: what a registration makes of every later answer, however many other
 * registrations, consumptions, deletions, sweeps and wrong guesses come in between.
 */
module VerificationRuns {
  import opened Verification

  function From(s: Store, events: seq<Event>): Store {
    if events == [] then s else Step(From(s, events[..|events| - 1]), events[|events| - 1])
  }

  /** The stored name an event is about. */
  function NameOf(e: Event): string {
    if e.RedisExpires? then e.rk else e.purpose + e.key
  }

  /** An event about another name, or a guess at this one with another code. */
  predicate Spares(e: Event, rk: string, code: string) {
    NameOf(e) != rk || (e.Consume? && e.code != code)
  }

  predicate AllSpare(events: seq<Event>, rk: string, code: string) {
    forall i :: 0 <= i < |events| ==> Spares(events[i], rk, code)
  }

  // ----- Answered by Redis -----

  lemma {:induction false} RedisKeeps(s: Store, events: seq<Event>, rk: string, code: string)
    requires AllSpare(events, rk, code) && rk in s.redis && s.redis[rk] == code
    ensures rk in From(s, events).redis && From(s, events).redis[rk] == code
  {
    if events != [] {
      RedisKeeps(s, events[..|events| - 1], rk, code);
      RedisStep(From(s, events[..|events| - 1]), events[|events| - 1], rk, code);
    }
  }

  lemma {:induction false} RedisStep(s: Store, e: Event, rk: string, code: string)
    requires Spares(e, rk, code) && rk in s.redis && s.redis[rk] == code
    ensures rk in Step(s, e).redis && Step(s, e).redis[rk] == code
  {
    if NameOf(e) != rk { OthersUntouched(s, e, rk); }
  }

  /**
   * A registration that Redis carried out replaces whatever was stored: from then on, until it is used,
   * deleted, replaced or expires, Redis accepts that code and no other.
   */
  lemma {:induction false} AnsweredIsAccepted(s: Store, p: string, k: string, code: string, call: Call, minutes: int,
                                              now: int, events: seq<Event>, guess: string, minutes2: int, later: int)
    requires call == Replied || call == ReplyLost
    requires AllSpare(events, p + k, code)
    ensures var t := From(Step(s, Event.Register(p, k, code, call, minutes, now)), events);
            && VerifyIn(t, p + k, guess, Replied, minutes2, later) == (guess == code)
            && ConsumeIn(t, p + k, guess, Replied, minutes2, later).ok == (guess == code)
  {
    RedisKeeps(Step(s, Event.Register(p, k, code, call, minutes, now)), events, p + k, code);
  }

  // ----- Kept in memory -----

  lemma {:induction false} SecondsGrow(a: int, b: int)
    requires a <= b
    ensures WholeSeconds(a) <= WholeSeconds(b)
  {
  }

  /** Expiry in nanoseconds; if the clock has gone back, started seconds do not count. */
  lemma {:induction false} ExpiredExactly(e: Entry, minutes: int, now: int)
    ensures e.time <= now ==> (Expired(e, minutes, now) <==> now - e.time >= minutes * 60_000_000_000)
    ensures e.time > now ==>
              (Expired(e, minutes, now) <==> e.time - now < 1_000_000_000 - minutes * 60_000_000_000)
  {
    var d := if e.time <= now then now - e.time else e.time - now;
    assert d == d / NANOS * NANOS + d % NANOS;
  }

  /** The entry is there, or it was swept away because it had already expired by `until`. */
  predicate KeptOrExpired(memory: map<string, Entry>, rk: string, e: Entry, minutes: int, until: int) {
    if rk in memory then memory[rk] == e else Expired(e, minutes, until)
  }

  predicate WithClock(e: Event, minutes: int, until: int) {
    e.Register? || e.Consume? ==> e.minutes == minutes && e.now <= until
  }

  predicate AllWithClock(events: seq<Event>, minutes: int, until: int) {
    forall i :: 0 <= i < |events| ==> WithClock(events[i], minutes, until)
  }

  lemma {:induction false} SweepKeeps(memory: map<string, Entry>, rk: string, e: Entry, minutes: int, now: int,
                                      until: int)
    requires KeptOrExpired(memory, rk, e, minutes, until) && now <= until
    ensures KeptOrExpired(Unexpired(memory, minutes, now), rk, e, minutes, until)
  {
    SecondsGrow(now - e.time, until - e.time);
  }

  lemma {:induction false} MemoryStep(s: Store, e: Event, rk: string, entry: Entry, minutes: int, until: int)
    requires Spares(e, rk, entry.code) && WithClock(e, minutes, until)
    requires KeptOrExpired(s.memory, rk, entry, minutes, until)
    ensures KeptOrExpired(Step(s, e).memory, rk, entry, minutes, until)
  {
    if e.Register? && !e.call.Replied? {
      SweepKeeps(s.memory[e.purpose + e.key := Entry(e.code, e.now)], rk, entry, minutes, e.now, until);
    }
  }

  lemma {:induction false} MemoryKeeps(s: Store, events: seq<Event>, rk: string, entry: Entry, minutes: int, until: int)
    requires AllSpare(events, rk, entry.code) && AllWithClock(events, minutes, until)
    requires KeptOrExpired(s.memory, rk, entry, minutes, until)
    ensures KeptOrExpired(From(s, events).memory, rk, entry, minutes, until)
  {
    if events != [] {
      var front := events[..|events| - 1];
      MemoryKeeps(s, front, rk, entry, minutes, until);
      MemoryStep(From(s, front), events[|events| - 1], rk, entry, minutes, until);
    }
  }

  lemma {:induction false} AbsentFromRedis(s: Store, events: seq<Event>, rk: string, code: string)
    requires AllSpare(events, rk, code) && rk !in s.redis
    ensures rk !in From(s, events).redis
  {
    if events != [] {
      AbsentFromRedis(s, events[..|events| - 1], rk, code);
      AbsentStep(From(s, events[..|events| - 1]), events[|events| - 1], rk);
    }
  }

  lemma {:induction false} AbsentStep(s: Store, e: Event, rk: string)
    requires !(e.Register? && NameOf(e) == rk)
    ensures rk !in s.redis ==> rk !in Step(s, e).redis
    ensures rk !in s.memory ==> rk !in Step(s, e).memory
  {
  }

  lemma {:induction false} RegisteredInMemory(s: Store, p: string, k: string, code: string, call: Call, minutes: int,
                                              now: int, until: int)
    requires !call.Replied? && now <= until
    ensures var t := Step(s, Event.Register(p, k, code, call, minutes, now));
            KeptOrExpired(t.memory, p + k, Entry(code, now), minutes, until)
  {
    SweepKeeps(s.memory[p + k := Entry(code, now)], p + k, Entry(code, now), minutes, now, until);
  }

  /**
   * A registration that Redis did not answer replaces what memory held: a later request that finds
   * nothing in Redis accepts that code, and no other, if and only if fewer than minutes * 60 whole
   * seconds have passed.
   */
  lemma {:induction false} FallbackIsAccepted(s: Store, p: string, k: string, code: string, call: Call, minutes: int,
                                              now: int, events: seq<Event>, guess: string, call2: Call, later: int)
    requires call == Down || call == Failed || call == ReplyLost
    requires call2 != Replied || (p + k !in s.redis && call != ReplyLost)
    requires AllSpare(events, p + k, code) && AllWithClock(events, minutes, later) && now <= later
    ensures var t := From(Step(s, Event.Register(p, k, code, call, minutes, now)), events);
            var accepted := guess == code && later - now < minutes * 60_000_000_000;
            && VerifyIn(t, p + k, guess, call2, minutes, later) == accepted
            && ConsumeIn(t, p + k, guess, call2, minutes, later).ok == accepted
  {
    var rk, first := p + k, Step(s, Event.Register(p, k, code, call, minutes, now));
    RegisteredInMemory(s, p, k, code, call, minutes, now, later);
    MemoryKeeps(first, events, rk, Entry(code, now), minutes, later);
    if call2 == Replied { AbsentFromRedis(first, events, rk, code); }
    ExpiredExactly(Entry(code, now), minutes, later);
  }

  // ----- Used up and deleted -----

  /** A name that is in neither store is refused until it is registered again. */
  lemma {:induction false} GoneStaysGone(s: Store, events: seq<Event>, rk: string, guess: string, call: Call,
                                         minutes: int, later: int)
    requires rk !in s.redis && rk !in s.memory
    requires forall i :: 0 <= i < |events| ==> !(events[i].Register? && NameOf(events[i]) == rk)
    ensures var t := From(s, events);
            && rk !in t.redis && rk !in t.memory
            && !VerifyIn(t, rk, guess, call, minutes, later) && !ConsumeIn(t, rk, guess, call, minutes, later).ok
  {
    if events != [] {
      GoneStaysGone(s, events[..|events| - 1], rk, guess, call, minutes, later);
      AbsentStep(From(s, events[..|events| - 1]), events[|events| - 1], rk);
    }
  }

  /**
   * What a consumption takes: the copy in Redis whenever the call reached it with the right code, even
   * if the reply was lost; the copy in memory only when memory gave the answer.
   */
  lemma {:induction false} ConsumedFrom(s: Store, rk: string, code: string, call: Call, minutes: int, now: int)
    ensures var r := ConsumeIn(s, rk, code, call, minutes, now);
            var reached := (call == Replied || call == ReplyLost) && rk in s.redis && s.redis[rk] == code;
            && r.store.redis == (if reached then s.redis - {rk} else s.redis)
            && r.store.memory == (if r.ok && !(call == Replied && rk in s.redis) then s.memory - {rk} else s.memory)
  {
  }

  /**
   * What a deletion leaves acceptable: with Redis configured only its copy goes, so that a copy in
   * memory is still accepted; without Redis only the copy in memory goes.
   */
  lemma {:induction false} DeletedExactly(s: Store, rk: string, call: Call, guess: string, call2: Call, minutes: int,
                                          later: int)
    ensures var t := DeleteIn(s, rk, call);
            var inRedis, inMemory :=
              rk in s.redis && s.redis[rk] == guess,
              rk in s.memory && !Expired(s.memory[rk], minutes, later) && s.memory[rk].code == guess;
            VerifyIn(t, rk, guess, call2, minutes, later) ==
              match call
              case Down => call2 == Replied && inRedis
              case Failed => if call2 == Replied && rk in s.redis then inRedis else inMemory
              case _ => inMemory
    ensures forall n :: n != rk ==>
              && (n in DeleteIn(s, rk, call).redis <==> n in s.redis)
              && (n in DeleteIn(s, rk, call).memory <==> n in s.memory)
  {
  }

  /** A code registered while Redis was failing survives being deleted once Redis answers again. */
  lemma {:induction false} DeletedButAccepted(p: string, k: string, code: string, minutes: int, now: int)
    requires minutes >= 1
    ensures var s := Step(Store(map[], map[]), Event.Register(p, k, code, Failed, minutes, now));
            VerifyIn(DeleteIn(s, p + k, Replied), p + k, code, Replied, minutes, now)
  {
    var s := Step(Store(map[], map[]), Event.Register(p, k, code, Failed, minutes, now));
    FallbackIsAccepted(Store(map[], map[]), p, k, code, Failed, minutes, now, [], code, Replied, now);
    assert From(s, []) == s;
    DeletedExactly(s, p + k, Replied, code, Replied, minutes, now);
  }

  // ----- Other names -----

  /** An event leaves every other name alone, but for the sweep of expired entries once there are more than ten. */
  lemma {:induction false} OthersUntouched(s: Store, e: Event, rk: string)
    requires NameOf(e) != rk
    ensures var t := Step(s, e);
            && (rk in t.redis <==> rk in s.redis) && (rk in t.redis ==> t.redis[rk] == s.redis[rk])
            && (rk in t.memory ==> rk in s.memory && t.memory[rk] == s.memory[rk])
            && (rk in s.memory ==>
                (rk !in t.memory <==>
                  && e.Register? && !e.call.Replied? && Expired(s.memory[rk], e.minutes, e.now)
                  && |s.memory.Keys + {NameOf(e)}| > 10))
  {
    if e.Register? { assert s.memory[NameOf(e) := Entry(e.code, e.now)].Keys == s.memory.Keys + {NameOf(e)}; }
  }
}
