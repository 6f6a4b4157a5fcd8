/**
 * The in-memory sliding-window rate limiter.  Each key has a queue of at most `max` timestamps; the
 * reference is a log of all admissions that were not refunded, from which a request is admitted
 * exactly when fewer than `max` of them are younger than `duration`.
 */
module RateLimit {
  import opened Options

  // ----- The queue of one key, as functions -----

  datatype Answer = Answer(queue: Option<seq<int>>, admitted: bool)

  /** With `max` below 1 and an emptied queue the source indexes past the end and panics. */
  function OnRequest(queue: Option<seq<int>>, max: int, duration: int, now: int): Answer
    requires max >= 1 || queue != Some([])
  {
    match queue
    case None => Answer(Some([now]), true)
    case Some(q) =>
      if |q| < max then Answer(Some(q + [now]), true)
      else if now - q[0] >= duration then Answer(Some(q[1..] + [now]), true)
      else Answer(queue, false)
  }

  function OnRefund(queue: Option<seq<int>>): Option<seq<int>> {
    match queue
    case None => None
    case Some(q) => if q == [] then queue else Some(q[..|q| - 1])
  }

  function OnClean(queue: Option<seq<int>>, expiry: int, now: int): Option<seq<int>> {
    match queue
    case None => None
    case Some(q) => if q == [] || now - q[|q| - 1] > expiry then None else queue
  }

  // ----- The limiter object -----

  class Limiter {
    var store: map<string, seq<int>>

    constructor ()
      ensures store == map[]
    {
      store := map[];
    }

    function At(key: string): Option<seq<int>>
      reads this
    {
      if key in store then Some(store[key]) else None
    }

    method Request(key: string, max: int, duration: int, now: int) returns (admitted: bool)
      requires max >= 1 || At(key) != Some([])
      modifies this
      ensures Answer(At(key), admitted) == OnRequest(old(At(key)), max, duration, now)
      ensures forall other :: other != key ==> At(other) == old(At(other))
    {
      if key in store {
        var queue := store[key];
        if |queue| < max {
          store := store[key := queue + [now]];
          return true;
        }
        if now - queue[0] >= duration {
          store := store[key := queue[1..] + [now]];
          return true;
        }
        return false;
      }
      store := store[key := [now]];
      return true;
    }

    method Refund(key: string)
      modifies this
      ensures At(key) == OnRefund(old(At(key)))
      ensures forall other :: other != key ==> At(other) == old(At(other))
    {
      if key !in store || |store[key]| == 0 { return; }
      store := store[key := store[key][..|store[key]| - 1]];
    }

    /** One sweep of the background cleaner; keys are visited in no particular order. */
    method ClearExpired(expiry: int, now: int)
      modifies this
      ensures forall key :: At(key) == OnClean(old(At(key)), expiry, now)
    {
      var pending := store.Keys;
      while pending != {}
        invariant pending <= store.Keys
        invariant forall key :: At(key) == if key in pending then old(At(key)) else OnClean(old(At(key)), expiry, now)
        decreases |pending|
      {
        var key :| key in pending;
        var queue := store[key];
        pending := pending - {key};
        if |queue| == 0 || now - queue[|queue| - 1] > expiry {
          store := store - {key};
        }
      }
    }
  }

  // ----- Runs on one key -----

  datatype Event =
    | Request(now: int)
    | Refund(now: int)
    | Clean(now: int)

  predicate Monotone(events: seq<Event>) {
    forall i, j :: 0 <= i < j < |events| ==> events[i].now <= events[j].now
  }

  /** The reference: a log of admissions, oldest first, and the last clock reading. */
  function Recent(log: seq<int>, duration: int, now: int): nat {
    if log == [] then 0
    else Recent(log[..|log| - 1], duration, now) + if now - log[|log| - 1] < duration then 1 else 0
  }

  /** The limiter beside its log of live admissions; `decisions` records the answers to requests. */
  datatype Run = Run(queue: Option<seq<int>>, log: seq<int>, decisions: seq<bool>)

  function Step(r: Run, e: Event, max: int, duration: int, expiry: int): Run
    requires max >= 1
  {
    match e
    case Request(now) =>
      var a := OnRequest(r.queue, max, duration, now);
      Run(a.queue, if a.admitted then r.log + [now] else r.log, r.decisions + [a.admitted])
    case Refund(_) =>
      var cancels := r.queue.Some? && r.queue.value != [] && r.log != [];
      r.(queue := OnRefund(r.queue), log := if cancels then r.log[..|r.log| - 1] else r.log)
    case Clean(now) => r.(queue := OnClean(r.queue, expiry, now))
  }

  function Execute(events: seq<Event>, max: int, duration: int, expiry: int): Run
    requires max >= 1
  {
    if events == [] then Run(None, [], [])
    else Step(Execute(events[..|events| - 1], max, duration, expiry), events[|events| - 1], max, duration, expiry)
  }

  /** The request event was decided as the reference log says. */
  ghost predicate DecidedRight(r: Run, e: Event, max: int, duration: int)
    requires max >= 1
  {
    e.Request? ==> (OnRequest(r.queue, max, duration, e.now).admitted <==> Recent(r.log, duration, e.now) < max)
  }

  // ----- Refinement -----

  predicate Ordered(log: seq<int>) {
    forall i, j :: 0 <= i < j < |log| ==> log[i] <= log[j]
  }

  function Queue(r: Run): seq<int> {
    if r.queue.Some? then r.queue.value else []
  }

  /** The first `gone` entries have left the window for good; any `max + 1` in a row span `duration`. */
  ghost predicate Paced(log: seq<int>, gone: int, max: int, duration: int, last: int) {
    && 0 <= gone <= |log| <= gone + max
    && Ordered(log)
    && (forall i :: 0 <= i < |log| ==> log[i] <= last)
    && (forall i :: 0 <= i < gone ==> last - log[i] >= duration)
    && (forall i, j :: 0 <= i && j == i + max < |log| ==> log[j] - log[i] >= duration)
  }

  /** The queue is the end of the log. */
  ghost predicate Linked(q: seq<int>, log: seq<int>, max: int, duration: int, last: int) {
    && |q| <= |log|
    && q == log[|log| - |q|..]
    && Paced(log, |log| - |q|, max, duration, last)
  }

  ghost predicate Inv(r: Run, max: int, duration: int, last: int) {
    Linked(Queue(r), r.log, max, duration, last)
  }

  /** The recent entries of an ordered log are a suffix. */
  lemma {:induction false} RecentSuffix(log: seq<int>, duration: int, now: int, k: nat)
    requires Ordered(log) && k <= |log|
    requires forall i :: 0 <= i < k ==> now - log[i] >= duration
    requires forall i :: k <= i < |log| ==> now - log[i] < duration
    ensures Recent(log, duration, now) == |log| - k
  {
    if log != [] {
      var n := |log| - 1;
      RecentSuffix(log[..n], duration, now, if k <= n then k else n);
    }
  }

  lemma FirstRecent(log: seq<int>, duration: int, now: int) returns (k: nat)
    requires Ordered(log)
    ensures k <= |log|
    ensures forall i :: 0 <= i < k ==> now - log[i] >= duration
    ensures forall i :: k <= i < |log| ==> now - log[i] < duration
  {
    k := 0;
    while k < |log| && now - log[k] >= duration
      invariant k <= |log| && forall i :: 0 <= i < k ==> now - log[i] >= duration
    {
      k := k + 1;
    }
  }

  /** The bounded queue answers as the unbounded log would. */
  lemma RequestRefines(r: Run, max: int, duration: int, last: int, now: int)
    requires max >= 1 && Inv(r, max, duration, last) && last <= now
    ensures OnRequest(r.queue, max, duration, now).admitted <==> Recent(r.log, duration, now) < max
  {
    var q := Queue(r);
    var k := FirstRecent(r.log, duration, now);
    RecentSuffix(r.log, duration, now, k);
    var gone := |r.log| - |q|;
    if k < |r.log| { assert now - r.log[k] < duration; }
    assert k >= gone;
    if |q| == max {
      assert q[0] == r.log[gone];
      assert now - q[0] >= duration <==> k > gone;
    }
  }

  lemma {:induction false} PacedPush(log: seq<int>, gone: int, gone': int, max: int, duration: int, last: int, now: int)
    requires max >= 1 && Paced(log, gone, max, duration, last) && last <= now
    requires if |log| < gone + max then gone' == gone else gone' == gone + 1 && now - log[gone] >= duration
    ensures Paced(log + [now], gone', max, duration, now)
  {
    var n := |log|;
    if n >= max {
      assert n - max < gone || n - max == gone;
      assert now - log[n - max] >= duration;
    }
  }

  lemma {:induction false} PushSuffix(log: seq<int>, gone: int, now: int)
    requires 0 <= gone <= |log|
    ensures (log + [now])[gone..] == log[gone..] + [now]
    ensures gone < |log| ==> (log + [now])[gone + 1..] == log[gone..][1..] + [now]
  {
  }

  lemma {:induction false} PacedLater(log: seq<int>, gone: int, max: int, duration: int, last: int, now: int)
    requires Paced(log, gone, max, duration, last) && last <= now
    ensures Paced(log, gone, max, duration, now)
  {
  }

  lemma {:induction false} PacedPop(log: seq<int>, gone: int, max: int, duration: int, last: int, now: int)
    requires Paced(log, gone, max, duration, last) && last <= now && gone < |log|
    ensures Paced(log[..|log| - 1], gone, max, duration, now)
  {
  }

  lemma {:induction false} LinkedLater(q: seq<int>, log: seq<int>, max: int, duration: int, last: int, now: int)
    requires Linked(q, log, max, duration, last) && last <= now
    ensures Linked(q, log, max, duration, now)
  {
    PacedLater(log, |log| - |q|, max, duration, last, now);
  }

  lemma {:induction false} LinkedPush(q: seq<int>, log: seq<int>, max: int, duration: int, last: int, now: int)
    requires max >= 1 && Linked(q, log, max, duration, last) && last <= now && |q| < max
    ensures Linked(q + [now], log + [now], max, duration, now)
  {
    var gone := |log| - |q|;
    PushSuffix(log, gone, now);
    PacedPush(log, gone, gone, max, duration, last, now);
  }

  lemma {:induction false} LinkedShift(q: seq<int>, log: seq<int>, max: int, duration: int, last: int, now: int)
    requires max >= 1 && Linked(q, log, max, duration, last) && last <= now && |q| == max && now - q[0] >= duration
    ensures Linked(q[1..] + [now], log + [now], max, duration, now)
  {
    var gone := |log| - |q|;
    assert q[0] == log[gone];
    PushSuffix(log, gone, now);
    PacedPush(log, gone, gone + 1, max, duration, last, now);
  }

  lemma {:induction false} LinkedPop(q: seq<int>, log: seq<int>, max: int, duration: int, last: int, now: int)
    requires Linked(q, log, max, duration, last) && last <= now && q != []
    ensures log != [] && Linked(q[..|q| - 1], log[..|log| - 1], max, duration, now)
  {
    PacedPop(log, |log| - |q|, max, duration, last, now);
  }

  /** A queue whose newest entry has left the window can be forgotten. */
  lemma {:induction false} LinkedDrop(q: seq<int>, log: seq<int>, max: int, duration: int, last: int, now: int)
    requires max >= 1 && Linked(q, log, max, duration, last) && last <= now
    requires q == [] || now - q[|q| - 1] >= duration
    ensures Linked([], log, max, duration, now)
  {
    if q != [] {
      assert q[|q| - 1] == log[|log| - 1];
      assert forall i :: 0 <= i < |log| ==> log[i] <= log[|log| - 1];
    }
    assert log[|log|..] == [];
  }

  // What each step does to queue and log, without the invariant.

  lemma {:induction false} RequestEffect(r: Run, max: int, duration: int, expiry: int, now: int)
    requires max >= 1
    ensures var q, t := Queue(r), Step(r, Request(now), max, duration, expiry);
            && t.queue.Some?
            && (|q| < max ==> Queue(t) == q + [now] && t.log == r.log + [now])
            && (|q| >= max && now - q[0] >= duration ==> Queue(t) == q[1..] + [now] && t.log == r.log + [now])
            && (|q| >= max && now - q[0] < duration ==> Queue(t) == q && t.log == r.log)
  {
    assert [] + [now] == [now];
  }

  lemma {:induction false} RefundEffect(r: Run, max: int, duration: int, expiry: int, now: int)
    requires max >= 1 && (Queue(r) != [] ==> r.log != [])
    ensures var q, t := Queue(r), Step(r, Refund(now), max, duration, expiry);
            if q == [] then Queue(t) == [] && t.log == r.log
            else Queue(t) == q[..|q| - 1] && t.log == r.log[..|r.log| - 1]
  {
  }

  lemma {:induction false} CleanEffect(r: Run, max: int, duration: int, expiry: int, now: int)
    requires max >= 1
    ensures var q, t := Queue(r), Step(r, Clean(now), max, duration, expiry);
            t.log == r.log && Queue(t) == if q == [] || now - q[|q| - 1] > expiry then [] else q
  {
  }

  lemma {:induction false} RequestKeeps(r: Run, max: int, duration: int, expiry: int, last: int, now: int)
    requires max >= 1 && Inv(r, max, duration, last) && last <= now
    ensures Inv(Step(r, Request(now), max, duration, expiry), max, duration, now)
  {
    var q := Queue(r);
    RequestEffect(r, max, duration, expiry, now);
    if |q| < max {
      LinkedPush(q, r.log, max, duration, last, now);
    } else if now - q[0] >= duration {
      LinkedShift(q, r.log, max, duration, last, now);
    } else {
      LinkedLater(q, r.log, max, duration, last, now);
    }
  }

  lemma {:induction false} RefundKeeps(r: Run, max: int, duration: int, expiry: int, last: int, now: int)
    requires max >= 1 && Inv(r, max, duration, last) && last <= now
    ensures Inv(Step(r, Refund(now), max, duration, expiry), max, duration, now)
  {
    RefundEffect(r, max, duration, expiry, now);
    if Queue(r) == [] {
      LinkedLater(Queue(r), r.log, max, duration, last, now);
    } else {
      LinkedPop(Queue(r), r.log, max, duration, last, now);
    }
  }

  lemma {:induction false} CleanKeeps(r: Run, max: int, duration: int, expiry: int, last: int, now: int)
    requires max >= 1 && Inv(r, max, duration, last) && last <= now && expiry + 1 >= duration
    ensures Inv(Step(r, Clean(now), max, duration, expiry), max, duration, now)
  {
    var q := Queue(r);
    CleanEffect(r, max, duration, expiry, now);
    if q == [] || now - q[|q| - 1] > expiry {
      LinkedDrop(q, r.log, max, duration, last, now);
    } else {
      LinkedLater(q, r.log, max, duration, last, now);
    }
  }

  lemma {:induction false} StepKeeps(r: Run, e: Event, max: int, duration: int, expiry: int, last: int)
    requires max >= 1 && expiry + 1 >= duration && Inv(r, max, duration, last) && last <= e.now
    ensures Inv(Step(r, e, max, duration, expiry), max, duration, e.now)
  {
    match e
    case Request(now) => RequestKeeps(r, max, duration, expiry, last, now);
    case Refund(now) => RefundKeeps(r, max, duration, expiry, last, now);
    case Clean(now) => CleanKeeps(r, max, duration, expiry, last, now);
  }

  function LastClock(events: seq<Event>, before: int): int {
    if events == [] then before else events[|events| - 1].now
  }

  lemma {:induction false} RunInv(events: seq<Event>, max: int, duration: int, expiry: int)
    requires max >= 1 && expiry + 1 >= duration && Monotone(events)
    ensures Inv(Execute(events, max, duration, expiry), max, duration, LastClock(events, 0))
  {
    if events != [] {
      var init, e := events[..|events| - 1], events[|events| - 1];
      RunInv(init, max, duration, expiry);
      var r, last := Execute(init, max, duration, expiry), LastClock(init, e.now);
      assert Inv(r, max, duration, last);
      StepKeeps(r, e, max, duration, expiry, last);
    }
  }

  /**
   * Over every run with a monotone clock, with refunds and cleaning anywhere, each request is admitted
   * exactly when fewer than `max` live admissions fall in the last `duration` seconds.
   */
  lemma AdmitsExactly(events: seq<Event>, max: int, duration: int, expiry: int, e: Event)
    requires max >= 1 && expiry + 1 >= duration && Monotone(events + [e])
    ensures DecidedRight(Execute(events, max, duration, expiry), e, max, duration)
  {
    assert forall i :: 0 <= i < |events| ==> (events + [e])[i] == events[i];
    assert (events + [e])[|events|] == e;
    RunInv(events, max, duration, expiry);
    if e.Request? {
      RequestRefines(Execute(events, max, duration, expiry), max, duration,
                     if events == [] then e.now else LastClock(events, 0), e.now);
    }
  }

  // ----- The window bound -----

  /** Live admissions in [from, from + duration). */
  function InWindow(log: seq<int>, from: int, duration: int): nat {
    if log == [] then 0
    else InWindow(log[..|log| - 1], from, duration)
         + if from <= log[|log| - 1] < from + duration then 1 else 0
  }

  lemma {:induction false} WindowSpan(log: seq<int>, from: int, duration: int, lo: nat)
    requires Ordered(log) && lo <= |log|
    requires forall i :: 0 <= i < lo ==> log[i] < from
    ensures InWindow(log, from, duration) <= |log| - lo
  {
    if |log| > lo {
      WindowSpan(log[..|log| - 1], from, duration, lo);
    } else if log != [] {
      WindowSpan(log[..|log| - 1], from, duration, lo - 1);
    }
  }

  lemma {:induction false} WindowBound(log: seq<int>, from: int, duration: int, max: int)
    requires max >= 1 && Ordered(log)
    requires forall i, j :: 0 <= i && j == i + max < |log| ==> log[j] - log[i] >= duration
    ensures InWindow(log, from, duration) <= max
  {
    if log != [] {
      var n := |log| - 1;
      if from <= log[n] < from + duration {
        var lo := if n < max then 0 else n - max + 1;
        if lo > 0 { assert log[n] - log[n - max] >= duration; }
        WindowSpan(log, from, duration, lo);
      } else {
        WindowBound(log[..n], from, duration, max);
      }
    }
  }

  /** No window of that length ever holds more than `max` live admissions. */
  lemma NeverTooMany(events: seq<Event>, max: int, duration: int, expiry: int, from: int)
    requires max >= 1 && expiry + 1 >= duration && Monotone(events)
    ensures InWindow(Execute(events, max, duration, expiry).log, from, duration) <= max
  {
    RunInv(events, max, duration, expiry);
    WindowBound(Execute(events, max, duration, expiry).log, from, duration, max);
  }

  /** A refund that finds a non-empty queue cancels the newest live admission; any other changes nothing. */
  lemma RefundCancelsNewest(events: seq<Event>, max: int, duration: int, expiry: int, now: int)
    requires max >= 1 && expiry + 1 >= duration && Monotone(events + [Refund(now)])
    ensures var r := Execute(events, max, duration, expiry);
            var t := Execute(events + [Refund(now)], max, duration, expiry);
            if Queue(r) == [] then t.log == r.log && Queue(t) == []
            else r.log != [] && t.log == r.log[..|r.log| - 1] && Queue(r)[|Queue(r)| - 1] == r.log[|r.log| - 1]
                 && Queue(t) == Queue(r)[..|Queue(r)| - 1]
  {
    assert (events + [Refund(now)])[..|events|] == events;
    assert forall i :: 0 <= i < |events| ==> (events + [Refund(now)])[i] == events[i];
    RunInv(events, max, duration, expiry);
    var r := Execute(events, max, duration, expiry);
    LinkedEnds(Queue(r), r.log, max, duration, LastClock(events, 0));
    RefundEffect(r, max, duration, expiry, now);
  }

  lemma {:induction false} LinkedEnds(q: seq<int>, log: seq<int>, max: int, duration: int, last: int)
    requires Linked(q, log, max, duration, last)
    ensures q != [] ==> log != [] && q[|q| - 1] == log[|log| - 1]
  {
  }

  // ----- The cleaner's expiry matters -----

  function Burst(n: nat): seq<Event> {
    seq(n, _ => Request(0))
  }

  function Zeros(n: nat): seq<int> {
    if n == 0 then [] else Zeros(n - 1) + [0]
  }

  lemma {:induction false} ZerosMeaning(n: nat)
    ensures |Zeros(n)| == n && (n >= 1 ==> Zeros(n)[n - 1] == 0 && Zeros(n)[..n - 1] == Zeros(n - 1))
  {
    if n > 0 { ZerosMeaning(n - 1); }
  }

  lemma {:induction false} ExecuteSnoc(events: seq<Event>, e: Event, max: int, duration: int, expiry: int)
    requires max >= 1
    ensures Execute(events + [e], max, duration, expiry)
            == Step(Execute(events, max, duration, expiry), e, max, duration, expiry)
  {
    assert (events + [e])[..|events|] == events;
  }

  /** Queue and log hold the first n admissions of a burst. */
  ghost predicate Filled(r: Run, n: nat) {
    Queue(r) == Zeros(n) && r.log == Zeros(n) && (n >= 1 ==> r.queue.Some?)
  }

  lemma {:induction false} FillStep(r: Run, n: nat, max: int, duration: int, expiry: int)
    requires n < max && Filled(r, n)
    ensures Filled(Step(r, Request(0), max, duration, expiry), n + 1)
  {
    ZerosMeaning(n);
    RequestEffect(r, max, duration, expiry, 0);
  }

  lemma {:induction false} BurstFills(n: nat, max: int, duration: int, expiry: int)
    requires n <= max && max >= 1
    ensures Filled(Execute(Burst(n), max, duration, expiry), n)
  {
    if n > 0 {
      BurstFills(n - 1, max, duration, expiry);
      assert Burst(n) == Burst(n - 1) + [Request(0)];
      ExecuteSnoc(Burst(n - 1), Request(0), max, duration, expiry);
      FillStep(Execute(Burst(n - 1), max, duration, expiry), n - 1, max, duration, expiry);
    }
  }

  lemma {:induction false} RecentZeros(n: nat, duration: int, now: int)
    requires now < duration
    ensures Recent(Zeros(n), duration, now) == n
  {
    ZerosMeaning(n);
    if n > 0 { RecentZeros(n - 1, duration, now); }
  }

  /** With a shorter expiry, for every limit, a full burst, one sweep and one more request break the bound. */
  lemma EagerCleanerAdmitsTooMany(max: int, duration: int, expiry: int)
    requires max >= 1 && 0 <= expiry && expiry + 1 < duration
    ensures var events := Burst(max) + [Clean(expiry + 1)];
            && Monotone(events + [Request(expiry + 1)])
            && !DecidedRight(Execute(events, max, duration, expiry), Request(expiry + 1), max, duration)
  {
    var r := Execute(Burst(max), max, duration, expiry);
    BurstFills(max, max, duration, expiry);
    ExecuteSnoc(Burst(max), Clean(expiry + 1), max, duration, expiry);
    SweepForgets(r, max, duration, expiry);
  }

  lemma {:induction false} SweepForgets(r: Run, max: int, duration: int, expiry: int)
    requires max >= 1 && 0 <= expiry && expiry + 1 < duration && Filled(r, max)
    ensures !DecidedRight(Step(r, Clean(expiry + 1), max, duration, expiry), Request(expiry + 1), max, duration)
  {
    ZerosMeaning(max);
    RecentZeros(max, duration, expiry + 1);
    CleanEffect(r, max, duration, expiry, expiry + 1);
  }

  /** The refinement holds for all runs if and only if the cleaner waits at least `duration - 1` seconds. */
  lemma CleanerCondition(max: int, duration: int, expiry: int)
    requires max >= 1 && expiry >= 0
    ensures expiry + 1 >= duration <==>
            forall events: seq<Event>, e: Event :: Monotone(events + [e]) ==>
              DecidedRight(Execute(events, max, duration, expiry), e, max, duration)
  {
    if expiry + 1 >= duration {
      forall events: seq<Event>, e: Event | Monotone(events + [e])
        ensures DecidedRight(Execute(events, max, duration, expiry), e, max, duration)
      {
        AdmitsExactly(events, max, duration, expiry, e);
      }
    } else {
      EagerCleanerAdmitsTooMany(max, duration, expiry);
    }
  }
}
