/**
 * Concurrent management requests on one channel.  Each request reads a snapshot, takes the channel's
 * lock, reads the row again, edits its copy and writes it back.  Requests interleave freely; the
 * result is the one of serving them one after another in the order they got the lock.
 */
module MultiKeyProtocol {
  import opened Options
  import opened Delimited
  import opened Lists
  import opened MultiKey
  import opened MultiKeyLaws

  datatype Request =
    | Idle
    | Read(snapshot: Row)      // snapshot taken, lock not held
    | Locked(snapshot: Row)    // lock held, row not read again yet
    | Loaded(base: Row)        // lock held, working on a copy of `base`
    | Finished                 // lock held, written or given up
    | Done
    | Refused                  // turned away before the lock

  /** `order` lists the requests in the order they got the lock; `failed` those whose write failed. */
  datatype World = World(row: Row, lock: Option<nat>, requests: seq<Request>, order: seq<nat>, failed: set<nat>)

  datatype Label =
    | TakeSnapshot(p: nat)
    | Refuse(p: nat)
    | Acquire(p: nat)
    | Reread(p: nat)
    | RereadFails(p: nat)
    | WriteBack(p: nat)
    | WriteFails(p: nat)
    | Unlock(p: nat)

  function Start(row: Row, n: nat): World {
    World(row, None, seq(n, _ => Idle), [], {})
  }

  predicate Enabled(w: World, l: Label) {
    && l.p < |w.requests|
    && var r := w.requests[l.p];
       match l
       case TakeSnapshot(_) => r.Idle?
       case Refuse(_) => r.Idle? || r.Read?
       case Acquire(_) => r.Read? && w.lock.None?
       case Reread(_) => r.Locked?
       case RereadFails(_) => r.Locked?
       case WriteBack(_) => r.Loaded?
       case WriteFails(_) => r.Loaded?
       case Unlock(_) => r.Finished?
  }

  /** Writing back an edit that was computed from `base`. */
  function Commit(json: JsonReader, stored: Row, base: Row, action: Action): Row {
    match Edited(json, base, action)
    case None => stored
    case Some(work) => Written(json, stored, work)
  }

  function Next(json: JsonReader, actions: seq<Action>, w: World, l: Label): World
    requires |actions| == |w.requests| && Enabled(w, l)
  {
    var r := w.requests[l.p];
    match l
    case TakeSnapshot(p) => w.(requests := w.requests[p := Read(w.row)])
    case Refuse(p) => w.(requests := w.requests[p := Refused])
    case Acquire(p) => w.(requests := w.requests[p := Locked(r.snapshot)], lock := Some(p), order := w.order + [p])
    case Reread(p) => w.(requests := w.requests[p := Loaded(w.row)])
    case RereadFails(p) => w.(requests := w.requests[p := Loaded(r.snapshot)])
    case WriteBack(p) => w.(requests := w.requests[p := Finished], row := Commit(json, w.row, r.base, actions[p]))
    case WriteFails(p) => w.(requests := w.requests[p := Finished], failed := w.failed + {p})
    case Unlock(p) => w.(requests := w.requests[p := Done], lock := None)
  }

  ghost predicate Schedule(json: JsonReader, actions: seq<Action>, w: World, run: seq<Label>)
    requires |actions| == |w.requests|
    decreases |run|
  {
    run == [] || (Enabled(w, run[0]) && Schedule(json, actions, Next(json, actions, w, run[0]), run[1..]))
  }

  ghost function After(json: JsonReader, actions: seq<Action>, w: World, run: seq<Label>): (v: World)
    requires |actions| == |w.requests| && Schedule(json, actions, w, run)
    ensures |v.requests| == |w.requests|
    decreases |run|
  {
    if run == [] then w else After(json, actions, Next(json, actions, w, run[0]), run[1..])
  }

  predicate RereadsSucceed(run: seq<Label>) {
    forall i :: 0 <= i < |run| ==> !run[i].RereadFails?
  }

  // ----- Serial execution -----

  /** The requests of `order` served one at a time, those in `failed` without effect. */
  function Serial(json: JsonReader, actions: seq<Action>, row: Row, order: seq<nat>, failed: set<nat>): Row
    requires forall i :: 0 <= i < |order| ==> order[i] < |actions|
  {
    if order == [] then row
    else
      var last := order[|order| - 1];
      var before := Serial(json, actions, row, order[..|order| - 1], failed);
      if last in failed then before else Serve(json, before, actions[last])
  }

  lemma {:induction false} SerialIgnores(json: JsonReader, actions: seq<Action>, row: Row, order: seq<nat>,
                                         failed: set<nat>, p: nat)
    requires forall i :: 0 <= i < |order| ==> order[i] < |actions| && order[i] != p
    ensures Serial(json, actions, row, order, failed + {p}) == Serial(json, actions, row, order, failed)
  {
    if order != [] { SerialIgnores(json, actions, row, order[..|order| - 1], failed, p); }
  }

  lemma {:induction false} SerialSnoc(json: JsonReader, actions: seq<Action>, row: Row, order: seq<nat>,
                                      failed: set<nat>, p: nat)
    requires p < |actions| && forall i :: 0 <= i < |order| ==> order[i] < |actions|
    ensures var before := Serial(json, actions, row, order, failed);
            Serial(json, actions, row, order + [p], failed) ==
            if p in failed then before else Serve(json, before, actions[p])
  {
    assert (order + [p])[..|order|] == order;
  }

  // ----- The invariant -----

  predicate InLock(r: Request) {
    r.Locked? || r.Loaded? || r.Finished?
  }

  /** The part of the lock order whose effect is already in the row. */
  function Settled(w: World): seq<nat> {
    if w.lock.Some? && w.lock.value < |w.requests| && !w.requests[w.lock.value].Finished? && w.order != []
    then w.order[..|w.order| - 1] else w.order
  }

  ghost predicate Locking(w: World) {
    && (w.lock.Some? ==> w.lock.value < |w.requests| && InLock(w.requests[w.lock.value])
                         && w.order != [] && w.order[|w.order| - 1] == w.lock.value)
    && (forall p: nat :: p < |w.requests| && InLock(w.requests[p]) ==> w.lock == Some(p))
    && (forall i :: 0 <= i < |w.order| ==> w.order[i] < |w.requests|)
    && (forall i, j :: 0 <= i < j < |w.order| ==> w.order[i] != w.order[j])
    && (forall p: nat :: p < |w.requests| ==> (p in w.order <==> InLock(w.requests[p]) || w.requests[p].Done?))
    && (forall p :: p in w.failed ==> p < |w.requests| && (w.requests[p].Finished? || w.requests[p].Done?))
  }

  /** Whoever works on a copy holds the row as it is stored. */
  ghost predicate Current(w: World) {
    forall p: nat :: p < |w.requests| && w.requests[p].Loaded? ==> w.requests[p].base == w.row
  }

  ghost predicate Inv(json: JsonReader, actions: seq<Action>, init: Row, w: World) {
    && |w.requests| == |actions|
    && Locking(w) && Current(w)
    && w.row == Serial(json, actions, init, Settled(w), w.failed)
  }

  lemma {:induction false} LockingAcquire(json: JsonReader, actions: seq<Action>, w: World, l: Label)
    requires |w.requests| == |actions| && Locking(w) && Enabled(w, l) && l.Acquire?
    ensures Locking(Next(json, actions, w, l))
  {
    var v := Next(json, actions, w, l);
    assert forall p: nat :: p in v.order <==> p in w.order || p == l.p;
  }

  lemma {:induction false} LockingOutside(json: JsonReader, actions: seq<Action>, w: World, l: Label)
    requires |w.requests| == |actions| && Locking(w) && Enabled(w, l) && (l.TakeSnapshot? || l.Refuse?)
    ensures Locking(Next(json, actions, w, l))
  {
  }

  lemma {:induction false} LockingInside(json: JsonReader, actions: seq<Action>, w: World, l: Label)
    requires |w.requests| == |actions| && Locking(w) && Enabled(w, l)
    requires l.Reread? || l.RereadFails? || l.WriteBack? || l.WriteFails? || l.Unlock?
    ensures Locking(Next(json, actions, w, l))
  {
    assert w.lock == Some(l.p);
  }

  lemma {:induction false} LockingStep(json: JsonReader, actions: seq<Action>, w: World, l: Label)
    requires |w.requests| == |actions| && Locking(w) && Enabled(w, l)
    ensures Locking(Next(json, actions, w, l))
  {
    if l.Acquire? {
      LockingAcquire(json, actions, w, l);
    } else if l.TakeSnapshot? || l.Refuse? {
      LockingOutside(json, actions, w, l);
    } else {
      LockingInside(json, actions, w, l);
    }
  }

  lemma {:induction false} CommitIsServe(json: JsonReader, row: Row, action: Action)
    ensures Commit(json, row, row, action) == Serve(json, row, action)
  {
  }

  lemma {:induction false} CurrentStep(json: JsonReader, actions: seq<Action>, w: World, l: Label)
    requires |w.requests| == |actions| && Locking(w) && Current(w) && Enabled(w, l) && !l.RereadFails?
    ensures Current(Next(json, actions, w, l))
  {
    if InLock(w.requests[l.p]) {
      assert w.lock == Some(l.p);
    }
  }

  /** The holder of the lock came last, and is settled once it has finished. */
  lemma {:induction false} SettledByWrite(json: JsonReader, actions: seq<Action>, w: World, l: Label)
    requires |w.requests| == |actions| && Locking(w) && Enabled(w, l) && (l.WriteBack? || l.WriteFails?)
    ensures w.order == Settled(w) + [l.p] && Settled(Next(json, actions, w, l)) == w.order
    ensures forall i :: 0 <= i < |Settled(w)| ==> Settled(w)[i] != l.p && Settled(w)[i] < |actions|
  {
    assert w.lock == Some(l.p);
  }

  lemma {:induction false} WriteBackStep(json: JsonReader, actions: seq<Action>, init: Row, w: World, p: nat)
    requires Inv(json, actions, init, w) && Enabled(w, WriteBack(p))
    ensures Next(json, actions, w, WriteBack(p)).row == Serial(json, actions, init, w.order, w.failed)
  {
    SettledByWrite(json, actions, w, WriteBack(p));
    CommitIsServe(json, w.row, actions[p]);
    SerialSnoc(json, actions, init, Settled(w), w.failed, p);
    assert p !in w.failed;
  }

  lemma {:induction false} WriteFailsStep(json: JsonReader, actions: seq<Action>, init: Row, w: World, p: nat)
    requires Inv(json, actions, init, w) && Enabled(w, WriteFails(p))
    ensures w.row == Serial(json, actions, init, w.order, w.failed + {p})
  {
    SettledByWrite(json, actions, w, WriteFails(p));
    SerialIgnores(json, actions, init, Settled(w), w.failed, p);
    SerialSnoc(json, actions, init, Settled(w), w.failed + {p}, p);
  }

  lemma {:induction false} OtherStep(json: JsonReader, actions: seq<Action>, w: World, l: Label)
    requires |w.requests| == |actions| && Locking(w) && Enabled(w, l) && !l.WriteBack? && !l.WriteFails?
    ensures var v := Next(json, actions, w, l); Settled(v) == Settled(w) && v.row == w.row && v.failed == w.failed
  {
    var v := Next(json, actions, w, l);
    if l.Acquire? {
      assert v.order[..|v.order| - 1] == w.order;
    } else if l.Reread? || l.RereadFails? || l.Unlock? {
      assert w.lock == Some(l.p);
    } else if w.lock.Some? {
      assert w.lock.value != l.p;
    }
  }

  lemma StepInv(json: JsonReader, actions: seq<Action>, init: Row, w: World, l: Label)
    requires Inv(json, actions, init, w) && Enabled(w, l) && !l.RereadFails?
    ensures Inv(json, actions, init, Next(json, actions, w, l))
  {
    LockingStep(json, actions, w, l);
    CurrentStep(json, actions, w, l);
    if l.WriteBack? {
      SettledByWrite(json, actions, w, l);
      WriteBackStep(json, actions, init, w, l.p);
    } else if l.WriteFails? {
      SettledByWrite(json, actions, w, l);
      WriteFailsStep(json, actions, init, w, l.p);
    } else {
      OtherStep(json, actions, w, l);
    }
  }

  lemma {:induction false} RunInv(json: JsonReader, actions: seq<Action>, init: Row, w: World, run: seq<Label>)
    requires Inv(json, actions, init, w) && Schedule(json, actions, w, run) && RereadsSucceed(run)
    ensures Inv(json, actions, init, After(json, actions, w, run))
    decreases |run|
  {
    if run != [] {
      StepInv(json, actions, init, w, run[0]);
      RunInv(json, actions, init, Next(json, actions, w, run[0]), run[1..]);
    }
  }

  // ----- Linearizability -----

  /**
   * Whenever the lock is free the stored row is the serial outcome, in lock order, of the requests
   * that have been through the lock; no snapshot taken before the lock plays any part in it.
   */
  lemma Linearizable(json: JsonReader, actions: seq<Action>, row: Row, run: seq<Label>)
    requires Schedule(json, actions, Start(row, |actions|), run) && RereadsSucceed(run)
    ensures var w := After(json, actions, Start(row, |actions|), run);
            && (forall i :: 0 <= i < |w.order| ==> w.order[i] < |actions|)
            && (forall i, j :: 0 <= i < j < |w.order| ==> w.order[i] != w.order[j])
            && (w.lock.None? ==> w.row == Serial(json, actions, row, w.order, w.failed))
            && (forall p: nat :: p < |actions| && w.requests[p].Done? ==> p in w.order)
  {
    RunInv(json, actions, row, Start(row, |actions|), run);
  }

  // ----- The representation invariant along schedules -----

  lemma {:induction false} ServeKeepsMulti(json: JsonReader, row: Row, action: Action)
    ensures Serve(json, row, action).multi == row.multi
  {
  }

  lemma {:induction false} SerialKeepsMulti(json: JsonReader, actions: seq<Action>, row: Row, order: seq<nat>,
                                            failed: set<nat>)
    requires forall i :: 0 <= i < |order| ==> order[i] < |actions|
    ensures Serial(json, actions, row, order, failed).multi == row.multi
  {
    if order != [] {
      var init, last := order[..|order| - 1], order[|order| - 1];
      SerialKeepsMulti(json, actions, row, init, failed);
      ServeKeepsMulti(json, Serial(json, actions, row, init, failed), actions[last]);
    }
  }

  /** The i-th request through the lock keeps a consistent row consistent, or its write fails. */
  ghost predicate StageFits(json: JsonReader, actions: seq<Action>, row: Row, order: seq<nat>, failed: set<nat>, i: nat)
    requires i < |order| && forall k :: 0 <= k < |order| ==> order[k] < |actions|
  {
    order[i] in failed || StaysConsistent(json, Serial(json, actions, row, order[..i], failed), actions[order[i]])
  }

  lemma {:induction false} StageExactly(json: JsonReader, actions: seq<Action>, row: Row, order: seq<nat>,
                                        failed: set<nat>, i: nat)
    requires row.multi && i < |order| && forall k :: 0 <= k < |order| ==> order[k] < |actions|
    requires Consistent(json, Serial(json, actions, row, order[..i], failed))
    ensures Consistent(json, Serial(json, actions, row, order[..i + 1], failed)) <==>
            StageFits(json, actions, row, order, failed, i)
  {
    assert order[..i + 1] == order[..i] + [order[i]];
    SerialSnoc(json, actions, row, order[..i], failed, order[i]);
    SerialKeepsMulti(json, actions, row, order[..i], failed);
    if order[i] !in failed {
      ConsistentExactly(json, Serial(json, actions, row, order[..i], failed), actions[order[i]]);
    }
  }

  lemma {:induction false} StagesConsistent(json: JsonReader, actions: seq<Action>, row: Row, order: seq<nat>,
                                            failed: set<nat>, i: nat)
    requires row.multi && Consistent(json, row) && i <= |order| && forall k :: 0 <= k < |order| ==> order[k] < |actions|
    requires forall k :: 0 <= k < |order| ==> StageFits(json, actions, row, order, failed, k)
    ensures Consistent(json, Serial(json, actions, row, order[..i], failed))
  {
    if i > 0 {
      StagesConsistent(json, actions, row, order, failed, i - 1);
      StageExactly(json, actions, row, order, failed, i - 1);
    }
  }

  /** The row is consistent after every request in turn if and only if every stage fits. */
  lemma {:induction false} SerialConsistentExactly(json: JsonReader, actions: seq<Action>, row: Row, order: seq<nat>,
                                                   failed: set<nat>)
    requires row.multi && Consistent(json, row) && forall k :: 0 <= k < |order| ==> order[k] < |actions|
    ensures (forall i :: 0 <= i <= |order| ==> Consistent(json, Serial(json, actions, row, order[..i], failed))) <==>
            (forall i :: 0 <= i < |order| ==> StageFits(json, actions, row, order, failed, i))
  {
    if forall i :: 0 <= i < |order| ==> StageFits(json, actions, row, order, failed, i) {
      forall i | 0 <= i <= |order| ensures Consistent(json, Serial(json, actions, row, order[..i], failed)) {
        StagesConsistent(json, actions, row, order, failed, i);
      }
    } else {
      var i :| 0 <= i < |order| && !StageFits(json, actions, row, order, failed, i);
      if Consistent(json, Serial(json, actions, row, order[..i], failed)) {
        StageExactly(json, actions, row, order, failed, i);
      }
      assert !Consistent(json, Serial(json, actions, row, order[..i], failed))
          || !Consistent(json, Serial(json, actions, row, order[..i + 1], failed));
    }
  }

  /** In every schedule, whenever the lock is free, the stored row is consistent if every request so far fitted. */
  lemma {:induction false} ScheduleKeepsConsistent(json: JsonReader, actions: seq<Action>, row: Row, run: seq<Label>)
    requires row.multi && Consistent(json, row)
    requires Schedule(json, actions, Start(row, |actions|), run) && RereadsSucceed(run)
    requires After(json, actions, Start(row, |actions|), run).lock.None?
    ensures var w := After(json, actions, Start(row, |actions|), run);
            && w.row.multi
            && (forall k :: 0 <= k < |w.order| ==> w.order[k] < |actions|)
            && ((forall k :: 0 <= k < |w.order| ==> StageFits(json, actions, row, w.order, w.failed, k)) ==>
                Consistent(json, w.row))
  {
    Linearizable(json, actions, row, run);
    var w := After(json, actions, Start(row, |actions|), run);
    SerialKeepsMulti(json, actions, row, w.order, w.failed);
    if forall k :: 0 <= k < |w.order| ==> StageFits(json, actions, row, w.order, w.failed, k) {
      StagesConsistent(json, actions, row, w.order, w.failed, |w.order|);
      assert w.order[..|w.order|] == w.order;
    }
  }

  // ----- Progress and termination, failed reads and writes included -----

  lemma {:induction false} RunLocking(json: JsonReader, actions: seq<Action>, w: World, run: seq<Label>)
    requires |w.requests| == |actions| && Locking(w) && Schedule(json, actions, w, run)
    ensures Locking(After(json, actions, w, run))
    decreases |run|
  {
    if run != [] {
      LockingStep(json, actions, w, run[0]);
      RunLocking(json, actions, Next(json, actions, w, run[0]), run[1..]);
    }
  }

  predicate Ended(r: Request) {
    r.Done? || r.Refused?
  }

  /** Until every request is done or refused, one of them can move: the lock is always given back. */
  lemma {:induction false} NoDeadlock(w: World)
    requires Locking(w)
    ensures (forall p :: 0 <= p < |w.requests| ==> Ended(w.requests[p]))
            || exists l: Label :: Enabled(w, l) && !l.Refuse? && !l.RereadFails? && !l.WriteFails?
  {
    if p :| 0 <= p < |w.requests| && !Ended(w.requests[p]) {
      var q := if w.lock.Some? then w.lock.value else p;
      var r := w.requests[q];
      var l := if r.Idle? then TakeSnapshot(q) else if r.Read? then Acquire(q) else if r.Locked? then Reread(q)
               else if r.Loaded? then WriteBack(q) else Unlock(q);
      assert Enabled(w, l);
    }
  }

  /** How many labels a request can still take. */
  function Weight(r: Request): nat {
    match r
    case Idle => 5
    case Read(_) => 4
    case Locked(_) => 3
    case Loaded(_) => 2
    case Finished => 1
    case _ => 0
  }

  function Weights(rs: seq<Request>): nat {
    if rs == [] then 0 else Weight(rs[0]) + Weights(rs[1..])
  }

  lemma {:induction false} WeightsUpdate(rs: seq<Request>, p: nat, r: Request)
    requires p < |rs|
    ensures Weights(rs[p := r]) == Weights(rs) - Weight(rs[p]) + Weight(r)
  {
    if p == 0 {
      assert rs[p := r][1..] == rs[1..];
    } else {
      assert rs[p := r][1..] == rs[1..][p - 1 := r];
      WeightsUpdate(rs[1..], p - 1, r);
    }
  }

  lemma {:induction false} WeightsOfIdle(rs: seq<Request>)
    requires forall p :: 0 <= p < |rs| ==> rs[p].Idle?
    ensures Weights(rs) == 5 * |rs|
  {
    if rs != [] { WeightsOfIdle(rs[1..]); }
  }

  lemma {:induction false} RunConsumesWeight(json: JsonReader, actions: seq<Action>, w: World, run: seq<Label>)
    requires |w.requests| == |actions| && Schedule(json, actions, w, run)
    ensures |run| <= Weights(w.requests)
    decreases |run|
  {
    if run != [] {
      var v := Next(json, actions, w, run[0]);
      WeightsUpdate(w.requests, run[0].p, v.requests[run[0].p]);
      RunConsumesWeight(json, actions, v, run[1..]);
    }
  }

  /**
   * Every schedule has at most five steps per request, and one that cannot be extended has ended every
   * request and given the lock back, whatever reads and writes failed.
   */
  lemma {:induction false} Termination(json: JsonReader, actions: seq<Action>, row: Row, run: seq<Label>)
    requires Schedule(json, actions, Start(row, |actions|), run)
    ensures |run| <= 5 * |actions|
    ensures var w := After(json, actions, Start(row, |actions|), run);
            (forall l: Label :: !Enabled(w, l)) ==>
              w.lock.None? && forall p :: 0 <= p < |w.requests| ==> Ended(w.requests[p])
  {
    var start := Start(row, |actions|);
    WeightsOfIdle(start.requests);
    RunConsumesWeight(json, actions, start, run);
    RunLocking(json, actions, start, run);
    NoDeadlock(After(json, actions, start, run));
  }

  // ----- Concurrent additions -----

  predicate OnlyAdditions(actions: seq<Action>) {
    forall p :: 0 <= p < |actions| ==> actions[p].AddKeys?
  }

  /** At each stage the list an addition means to store reads back, or is no new list. */
  ghost predicate StagesReadBack(json: JsonReader, actions: seq<Action>, row: Row, order: seq<nat>, failed: set<nat>)
    requires OnlyAdditions(actions) && forall i :: 0 <= i < |order| ==> order[i] < |actions|
  {
    order == [] ||
    var init, last := order[..|order| - 1], order[|order| - 1];
    var before := Serial(json, actions, row, init, failed);
    && StagesReadBack(json, actions, row, init, failed)
    && (last in failed || Extended(json, before, actions[last].keys) == KeysOf(json, before.text)
        || ReadsBack(json, Extended(json, before, actions[last].keys)))
  }

  ghost predicate Requested(actions: seq<Action>, order: seq<nat>, failed: set<nat>, k: string) {
    exists i :: 0 <= i < |order| && order[i] < |actions| && order[i] !in failed
                && actions[order[i]].AddKeys? && k in Cleaned(actions[order[i]].keys)
  }

  lemma {:induction false} RequestedSnoc(actions: seq<Action>, order: seq<nat>, failed: set<nat>, k: string)
    requires order != [] && forall i :: 0 <= i < |order| ==> order[i] < |actions| && actions[order[i]].AddKeys?
    ensures var init, last := order[..|order| - 1], order[|order| - 1];
            Requested(actions, order, failed, k) <==>
            Requested(actions, init, failed, k) || (last !in failed && k in Cleaned(actions[last].keys))
  {
    var init, last := order[..|order| - 1], order[|order| - 1];
    if Requested(actions, init, failed, k) {
      var i :| 0 <= i < |init| && init[i] < |actions| && init[i] !in failed
               && actions[init[i]].AddKeys? && k in Cleaned(actions[init[i]].keys);
      assert order[i] == init[i];
    }
    if Requested(actions, order, failed, k) {
      var i :| 0 <= i < |order| && order[i] < |actions| && order[i] !in failed
               && actions[order[i]].AddKeys? && k in Cleaned(actions[order[i]].keys);
      assert i < |init| ==> init[i] == order[i];
    }
  }

  /** Serving additions one by one ends with the union, the old keys first and nothing twice. */
  lemma {:induction false} SerialUnion(json: JsonReader, actions: seq<Action>, row: Row, order: seq<nat>,
                                       failed: set<nat>) returns (more: seq<string>)
    requires row.multi && OnlyAdditions(actions)
    requires forall i :: 0 <= i < |order| ==> order[i] < |actions|
    requires StagesReadBack(json, actions, row, order, failed)
    ensures var keys, after := KeysOf(json, row.text), Serial(json, actions, row, order, failed);
            && after.multi && KeysOf(json, after.text) == keys + more
            && Distinct(more)
            && forall k :: k in more <==> k !in keys && Requested(actions, order, failed, k)
  {
    more := [];
    if order != [] {
      var init, last := order[..|order| - 1], order[|order| - 1];
      var before := SerialUnion(json, actions, row, init, failed);
      more := AddStage(json, row, Serial(json, actions, row, init, failed), before, actions[last].keys, last in failed);
      forall k ensures Requested(actions, order, failed, k) <==>
                       Requested(actions, init, failed, k) || (last !in failed && k in Cleaned(actions[last].keys)) {
        RequestedSnoc(actions, order, failed, k);
      }
    }
  }

  /** One stage: `before` has been appended to the keys of `row`, and the addition appends what is new. */
  lemma {:induction false} AddStage(json: JsonReader, row: Row, mid: Row, before: seq<string>, requested: seq<string>,
                                    skipped: bool)
    returns (more: seq<string>)
    requires mid.multi && KeysOf(json, mid.text) == KeysOf(json, row.text) + before
    requires Distinct(before) && forall k :: k in before ==> k !in KeysOf(json, row.text)
    requires skipped || Extended(json, mid, requested) == KeysOf(json, mid.text) ||
             ReadsBack(json, Extended(json, mid, requested))
    ensures var after := if skipped then mid else Serve(json, mid, AddKeys(requested));
            after.multi && KeysOf(json, after.text) == KeysOf(json, row.text) + more
    ensures Distinct(more)
    ensures forall k :: k in more <==>
            k in before || (!skipped && k !in KeysOf(json, row.text) && k in Cleaned(requested))
  {
    more := before;
    if !skipped {
      var keys := KeysOf(json, row.text);
      more := before + Fresh(keys + before, Cleaned(requested));
      FreshAppended(keys, before, Cleaned(requested));
      AddedKeys(json, mid, requested);
    }
  }

  lemma {:induction false} FreshAppended(keys: seq<string>, before: seq<string>, added: seq<string>)
    requires Distinct(before) && forall k :: k in before ==> k !in keys
    ensures var more := before + Fresh(keys + before, added);
            && keys + before + Fresh(keys + before, added) == keys + more
            && Distinct(more)
            && forall k :: k in more <==> k in before || (k !in keys && k in added)
  {
    FreshMeaning(keys + before, added);
    AppendDistinct(before, Fresh(keys + before, added));
  }

  lemma {:induction false} AppendDistinct(a: seq<string>, b: seq<string>)
    requires Distinct(a) && Distinct(b) && forall k :: k in b ==> k !in a
    ensures Distinct(a + b)
    ensures forall k :: k in a + b <==> k in a || k in b
  {
    forall i, j | 0 <= i < j < |a + b| ensures (a + b)[i] != (a + b)[j] {
      if i < |a| <= j { assert b[j - |a|] in b; }
    }
  }

  lemma {:induction false} AllRequested(actions: seq<Action>, order: seq<nat>)
    requires OnlyAdditions(actions)
    requires forall p: nat :: p < |actions| ==> p in order
    ensures forall k :: Requested(actions, order, {}, k) <==>
            exists p :: 0 <= p < |actions| && k in Cleaned(actions[p].keys)
  {
    forall k, p: nat | p < |actions| && k in Cleaned(actions[p].keys) ensures Requested(actions, order, {}, k) {
      assert p in order;
      var i :| 0 <= i < |order| && order[i] == p;
      assert actions[order[i]].AddKeys?;
    }
  }

  /** The keys any of the requests asks for. */
  ghost function Asked(actions: seq<Action>): set<string> {
    set p, k | 0 <= p < |actions| && actions[p].AddKeys? && k in Cleaned(actions[p].keys) :: k
  }

  /** Whatever is appended from `pool`, in whatever order, the list reads back. */
  ghost predicate Appendable(json: JsonReader, keys: seq<string>, pool: set<string>) {
    forall more: seq<string> :: more != [] && (forall k :: k in more ==> k in pool) ==> ReadsBack(json, keys + more)
  }

  /** Then every stage of every order reads back. */
  lemma {:induction false} AppendableStages(json: JsonReader, actions: seq<Action>, row: Row, order: seq<nat>,
                                            failed: set<nat>)
    requires row.multi && OnlyAdditions(actions) && Appendable(json, KeysOf(json, row.text), Asked(actions))
    requires forall i :: 0 <= i < |order| ==> order[i] < |actions|
    ensures StagesReadBack(json, actions, row, order, failed)
  {
    if order != [] {
      var init, last := order[..|order| - 1], order[|order| - 1];
      AppendableStages(json, actions, row, init, failed);
      var before := SerialUnion(json, actions, row, init, failed);
      forall k | k in before ensures k in Asked(actions) {
        assert Requested(actions, init, failed, k);
      }
      assert forall k :: k in Cleaned(actions[last].keys) ==> k in Asked(actions);
      AppendableStage(json, KeysOf(json, row.text), before, Cleaned(actions[last].keys), Asked(actions));
    }
  }

  lemma {:induction false} AppendableStage(json: JsonReader, keys: seq<string>, before: seq<string>, added: seq<string>,
                                           pool: set<string>)
    requires Appendable(json, keys, pool) && Distinct(before)
    requires forall k :: k in before ==> k in pool && k !in keys
    requires forall k :: k in added ==> k in pool
    ensures var list := keys + before + Fresh(keys + before, added);
            list == keys + before || ReadsBack(json, list)
  {
    var news := Fresh(keys + before, added);
    if news == [] {
      assert keys + before + news == keys + before;
    } else {
      FreshAppended(keys, before, added);
      assert ReadsBack(json, keys + (before + news));
    }
  }

  /** Plain keys can be appended to plain keys. */
  lemma {:induction false} PlainAppendable(json: JsonReader, keys: seq<string>, pool: set<string>)
    requires PlainKeys(keys) && forall k :: k in pool ==> PlainKey(k)
    ensures Appendable(json, keys, pool)
  {
    forall more: seq<string> | more != [] && (forall k :: k in more ==> k in pool)
      ensures ReadsBack(json, keys + more)
    {
      forall i | 0 <= i < |keys + more| ensures PlainKey((keys + more)[i]) {
        if i >= |keys| { assert more[i - |keys|] in more; }
      }
      PlainRoundTrip(json, keys + more);
    }
  }

  lemma {:induction false} UnionWhenDone(json: JsonReader, actions: seq<Action>, row: Row, w: World)
    returns (more: seq<string>)
    requires row.multi && OnlyAdditions(actions) && Appendable(json, KeysOf(json, row.text), Asked(actions))
    requires Inv(json, actions, row, w)
    requires w.failed == {} && forall p: nat :: p < |actions| ==> w.requests[p].Done?
    ensures KeysOf(json, w.row.text) == KeysOf(json, row.text) + more && Distinct(more)
    ensures forall k :: k in more <==>
            k !in KeysOf(json, row.text) && exists p :: 0 <= p < |actions| && k in Cleaned(actions[p].keys)
  {
    assert w.lock.None?;
    AppendableStages(json, actions, row, w.order, {});
    more := SerialUnion(json, actions, row, w.order, {});
    AllRequested(actions, w.order);
  }

  /**
   * Any number of concurrent additions lose no key: once all are done the channel holds the old keys
   * followed by exactly the new ones among those requested, each once.
   */
  lemma {:induction false} ConcurrentAddsKeepUnion(json: JsonReader, actions: seq<Action>, row: Row, run: seq<Label>)
    returns (more: seq<string>)
    requires row.multi && OnlyAdditions(actions) && Appendable(json, KeysOf(json, row.text), Asked(actions))
    requires Schedule(json, actions, Start(row, |actions|), run) && RereadsSucceed(run)
    requires var w := After(json, actions, Start(row, |actions|), run);
             w.failed == {} && forall p: nat :: p < |actions| ==> w.requests[p].Done?
    ensures KeysOf(json, After(json, actions, Start(row, |actions|), run).row.text) == KeysOf(json, row.text) + more
    ensures Distinct(more)
    ensures forall k :: k in more <==>
            k !in KeysOf(json, row.text) && exists p :: 0 <= p < |actions| && k in Cleaned(actions[p].keys)
  {
    RunInv(json, actions, row, Start(row, |actions|), run);
    more := UnionWhenDone(json, actions, row, After(json, actions, Start(row, |actions|), run));
  }

  // ----- The in-lock read is needed -----

  lemma {:induction false} Follow(json: JsonReader, actions: seq<Action>, w: World, l: Label, v: World, run: seq<Label>)
    requires |actions| == |w.requests| == |v.requests| && Enabled(w, l) && Schedule(json, actions, v, run)
    requires var n := Next(json, actions, w, l);
             && n.requests == v.requests && n.order == v.order && n.row == v.row
             && n.lock == v.lock && n.failed == v.failed
    ensures Schedule(json, actions, w, [l] + run)
    ensures After(json, actions, w, [l] + run) == After(json, actions, v, run)
  {
    assert ([l] + run)[1..] == run;
    assert Next(json, actions, w, l) == v;
  }

  /** A world of two requests. */
  function Pair(row: Row, lock: Option<nat>, first: Request, second: Request, order: seq<nat>): World {
    World(row, lock, [first, second], order, {})
  }

  lemma StaleTurn(json: JsonReader, actions: seq<Action>, r0: Row, row: Row) returns (run: seq<Label>)
    requires |actions| == 2
    ensures var w := Pair(r0, None, Done, Read(row), [0]);
            && Schedule(json, actions, w, run)
            && After(json, actions, w, run) == Pair(Commit(json, r0, row, actions[1]), None, Done, Done, [0, 1])
  {
    var r1 := Commit(json, r0, row, actions[1]);
    run := [];
    Follow(json, actions, Pair(r1, Some(1), Done, Finished, [0, 1]), Unlock(1), Pair(r1, None, Done, Done, [0, 1]),
           run);
    run := [Unlock(1)] + run;
    Follow(json, actions, Pair(r0, Some(1), Done, Loaded(row), [0, 1]), WriteBack(1),
           Pair(r1, Some(1), Done, Finished, [0, 1]), run);
    run := [WriteBack(1)] + run;
    Follow(json, actions, Pair(r0, Some(1), Done, Locked(row), [0, 1]), RereadFails(1),
           Pair(r0, Some(1), Done, Loaded(row), [0, 1]), run);
    run := [RereadFails(1)] + run;
    Follow(json, actions, Pair(r0, None, Done, Read(row), [0]), Acquire(1),
           Pair(r0, Some(1), Done, Locked(row), [0, 1]), run);
    run := [Acquire(1)] + run;
  }

  lemma FirstTurn(json: JsonReader, actions: seq<Action>, row: Row, rest: seq<Label>) returns (run: seq<Label>)
    requires |actions| == 2
    requires Schedule(json, actions, Pair(Commit(json, row, row, actions[0]), None, Done, Read(row), [0]), rest)
    ensures var w := Pair(row, None, Read(row), Read(row), []);
            && Schedule(json, actions, w, run)
            && After(json, actions, w, run)
               == After(json, actions, Pair(Commit(json, row, row, actions[0]), None, Done, Read(row), [0]), rest)
  {
    var r0 := Commit(json, row, row, actions[0]);
    Follow(json, actions, Pair(r0, Some(0), Finished, Read(row), [0]), Unlock(0), Pair(r0, None, Done, Read(row), [0]),
           rest);
    run := [Unlock(0)] + rest;
    Follow(json, actions, Pair(row, Some(0), Loaded(row), Read(row), [0]), WriteBack(0),
           Pair(r0, Some(0), Finished, Read(row), [0]), run);
    run := [WriteBack(0)] + run;
    Follow(json, actions, Pair(row, Some(0), Locked(row), Read(row), [0]), Reread(0),
           Pair(row, Some(0), Loaded(row), Read(row), [0]), run);
    run := [Reread(0)] + run;
    Follow(json, actions, Pair(row, None, Read(row), Read(row), []), Acquire(0),
           Pair(row, Some(0), Locked(row), Read(row), [0]), run);
    run := [Acquire(0)] + run;
  }

  lemma StaleRun(json: JsonReader, actions: seq<Action>, row: Row) returns (run: seq<Label>)
    requires |actions| == 2
    ensures Schedule(json, actions, Start(row, 2), run)
    ensures After(json, actions, Start(row, 2), run)
         == Pair(Commit(json, Commit(json, row, row, actions[0]), row, actions[1]), None, Done, Done, [0, 1])
  {
    run := StaleTurn(json, actions, Commit(json, row, row, actions[0]), row);
    run := FirstTurn(json, actions, row, run);
    Follow(json, actions, Pair(row, None, Read(row), Idle, []), TakeSnapshot(1),
           Pair(row, None, Read(row), Read(row), []), run);
    run := [TakeSnapshot(1)] + run;
    Follow(json, actions, Start(row, 2), TakeSnapshot(0), Pair(row, None, Read(row), Idle, []), run);
    run := [TakeSnapshot(0)] + run;
  }

  /** When request 1 cannot read the row again, its write from the old snapshot drops the key request 0 added. */
  lemma LostUpdateWithoutReread(json: JsonReader, row: Row, a: string, b: string) returns (run: seq<Label>)
    requires row.multi && Consistent(json, row) && b != "" && TrimSpace(b) == b && b !in KeysOf(json, row.text)
    requires ReadsBack(json, KeysOf(json, row.text) + [b])
    ensures var actions := [AddKeys([a]), AddKeys([b])];
            && Schedule(json, actions, Start(row, 2), run)
            && var w := After(json, actions, Start(row, 2), run);
               && w.failed == {} && w.requests == [Done, Done]
               && KeysOf(json, w.row.text) == KeysOf(json, row.text) + [b]
  {
    var actions := [AddKeys([a]), AddKeys([b])];
    run := StaleRun(json, actions, row);
    StaleWrite(json, Commit(json, row, row, actions[0]), row, b);
  }

  lemma StaleWrite(json: JsonReader, stored: Row, row: Row, b: string)
    requires row.multi && Consistent(json, row) && b != "" && TrimSpace(b) == b && b !in KeysOf(json, row.text)
    requires ReadsBack(json, KeysOf(json, row.text) + [b])
    ensures KeysOf(json, Commit(json, stored, row, AddKeys([b])).text) == KeysOf(json, row.text) + [b]
  {
    var keys := KeysOf(json, row.text);
    OneRequestedKey(keys, b);
    RewrittenRow(json, stored, Edited(json, row, AddKeys([b])).value, keys + [b]);
  }
}
