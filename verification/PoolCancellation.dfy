/** What the worker pool can still start and report once its context is cancelled. */
module PoolCancellation {
  import opened WorkerPool

  /** How many workers have passed their look at ctx.Err() and not yet acted on it. */
  function Passed(ws: seq<Worker>): (n: nat)
    ensures n <= |ws|
  {
    if ws == [] then 0 else Passed(ws[1..]) + Bit(ws[0].Cleared?)
  }

  function Bit(b: bool): nat {
    if b then 1 else 0
  }

  lemma {:induction false} PassedUpdate(ws: seq<Worker>, w: nat, k: Worker)
    requires w < |ws|
    ensures Passed(ws[w := k]) == Passed(ws) - Bit(ws[w].Cleared?) + Bit(k.Cleared?)
  {
    if w == 0 {
      assert ws[w := k][1..] == ws[1..];
    } else {
      assert ws[w := k][1..] == ws[1..][w - 1 := k];
      PassedUpdate(ws[1..], w - 1, k);
    }
  }

  ghost predicate ClearedAt(ws: seq<Worker>, p: nat) {
    exists w :: 0 <= w < |ws| && ws[w] == Cleared(p)
  }

  /** What a cancelled pool can still start and report. */
  ghost predicate WindsDown(s: State, t: State) {
    && t.cancelled
    && s.started <= t.started
    && |t.started| + Passed(t.workers) <= |s.started| + Passed(s.workers)
    && (forall p :: p in t.started ==> p in s.started || ClearedAt(s.workers, p))
    && (forall p :: ClearedAt(t.workers, p) ==> ClearedAt(s.workers, p))
    && s.reports <= t.reports
    && |t.reports| + Bit(t.reducer.Announcing?) <= |s.reports| + Bit(s.reducer.Announcing?)
  }

  lemma {:induction false} ClearedUpdate(ws: seq<Worker>, w: nat, k: Worker, p: nat)
    requires w < |ws| && !k.Cleared? && ClearedAt(ws[w := k], p)
    ensures ClearedAt(ws, p)
  {
    var v :| 0 <= v < |ws| && ws[w := k][v] == Cleared(p);
    assert ws[v] == Cleared(p);
  }

  lemma {:induction false} CancelledWorkerStep(cfg: Config, s: State, l: Label)
    requires s.cancelled && Enabled(cfg, s, l) && ByWorker(l)
    ensures WindsDown(s, Next(cfg, s, l))
  {
    var t := Next(cfg, s, l);
    var k := t.workers[l.w];
    assert t.workers == s.workers[l.w := k] && !k.Cleared?;
    PassedUpdate(s.workers, l.w, k);
    forall p | ClearedAt(t.workers, p) ensures ClearedAt(s.workers, p) {
      ClearedUpdate(s.workers, l.w, k, p);
    }
    if l.StartRun? { assert ClearedAt(s.workers, s.workers[l.w].pos); }
  }

  lemma {:induction false} CancelledStep(cfg: Config, s: State, l: Label)
    requires s.cancelled && Enabled(cfg, s, l)
    ensures WindsDown(s, Next(cfg, s, l))
  {
    if ByWorker(l) {
      CancelledWorkerStep(cfg, s, l);
    } else {
      assert Next(cfg, s, l).workers == s.workers && Next(cfg, s, l).started == s.started;
    }
  }

  /**
   * After a cancellation only workers already past their check start a run, and a report is made only
   * if the reducer was already past its own.
   */
  lemma {:induction false} AfterCancel(cfg: Config, s: State, run: seq<Label>)
    requires s.cancelled && Schedule(cfg, s, run)
    ensures WindsDown(s, After(cfg, s, run))
    decreases |run|
  {
    if run != [] {
      CancelledStep(cfg, s, run[0]);
      AfterCancel(cfg, Next(cfg, s, run[0]), run[1..]);
    }
  }

  /** So at most one more run per worker, and at most one more report. */
  lemma {:induction false} LateStartsBounded(cfg: Config, before: seq<Label>, run: seq<Label>)
    requires Schedule(cfg, Init(cfg), before) && After(cfg, Init(cfg), before).cancelled
    requires Schedule(cfg, After(cfg, Init(cfg), before), run)
    ensures var s := After(cfg, Init(cfg), before);
            var t := After(cfg, s, run);
            |t.started| <= |s.started| + WorkerCount(cfg) && |t.reports| <= |s.reports| + 1
  {
    InitInv(cfg);
    RunInv(cfg, Init(cfg), before);
    AfterCancel(cfg, After(cfg, Init(cfg), before), run);
  }

  /** A position that has started, or will because its worker is past the check. */
  ghost predicate Committed(cfg: Config, s: State, p: nat) {
    p in s.started || (ClearedAt(s.workers, p) && p < |cfg.channels| && Runnable(cfg.channels[p]))
  }

  lemma {:induction false} ClearedStays(ws: seq<Worker>, w: nat, k: Worker, p: nat)
    requires w < |ws| && ClearedAt(ws, p) && ws[w] != Cleared(p)
    ensures ClearedAt(ws[w := k], p)
  {
    var v :| 0 <= v < |ws| && ws[v] == Cleared(p);
    assert ws[w := k][v] == Cleared(p);
  }

  lemma {:induction false} CommittedStays(cfg: Config, s: State, l: Label, p: nat)
    requires Enabled(cfg, s, l) && Committed(cfg, s, p)
    ensures Committed(cfg, Next(cfg, s, l), p)
  {
    var t := Next(cfg, s, l);
    if p !in s.started && ByWorker(l) && s.workers[l.w] != Cleared(p) {
      assert t.workers == s.workers[l.w := t.workers[l.w]];
      ClearedStays(s.workers, l.w, t.workers[l.w], p);
    }
  }

  lemma {:induction false} CommittedBefore(cfg: Config, s: State, l: Label, p: nat)
    requires Inv(cfg, s) && s.cancelled && Enabled(cfg, s, l) && Committed(cfg, Next(cfg, s, l), p)
    ensures Committed(cfg, s, p)
  {
    StepInv(cfg, s, l);
    CancelledStep(cfg, s, l);
  }

  /** Once cancelled, no step commits a position or goes back on one. */
  lemma {:induction false} CommittedRun(cfg: Config, s: State, run: seq<Label>, p: nat)
    requires Inv(cfg, s) && s.cancelled && Schedule(cfg, s, run)
    ensures Committed(cfg, After(cfg, s, run), p) <==> Committed(cfg, s, p)
    decreases |run|
  {
    if run != [] {
      StepInv(cfg, s, run[0]);
      if Committed(cfg, s, p) { CommittedStays(cfg, s, run[0], p); }
      if Committed(cfg, Next(cfg, s, run[0]), p) { CommittedBefore(cfg, s, run[0], p); }
      CommittedRun(cfg, Next(cfg, s, run[0]), run[1..], p);
    }
  }

  /**
   * When the caller returns, exactly these runs have started after the cancellation: those of the
   * workers that were past their check, with a runnable position, when it struck.
   */
  lemma {:induction false} LateStartsExactly(cfg: Config, s: State, run: seq<Label>, p: nat)
    requires Inv(cfg, s) && s.cancelled && Schedule(cfg, s, run) && After(cfg, s, run).reducer.Returned?
    ensures p in After(cfg, s, run).started <==>
            p in s.started || (ClearedAt(s.workers, p) && p < |cfg.channels| && Runnable(cfg.channels[p]))
  {
    RunInv(cfg, s, run);
    CommittedRun(cfg, s, run, p);
    assert !ClearedAt(After(cfg, s, run).workers, p);
  }

  /** A run can start after the cancellation: it falls between a worker's check and its call. */
  lemma {:induction false} RunStartsAfterCancel(cfg: Config)
    requires cfg.channels != [] && Runnable(cfg.channels[0])
    ensures var before, s := [Handover(0), PassCheck(0), Cancel], Init(cfg);
            && Schedule(cfg, s, before) && After(cfg, s, before).cancelled && After(cfg, s, before).started == []
            && Enabled(cfg, After(cfg, s, before), StartRun(0))
            && Next(cfg, After(cfg, s, before), StartRun(0)).started == [0]
  {
    var s := Init(cfg);
    var s1 := Next(cfg, s, Handover(0));
    var s2 := Next(cfg, s1, PassCheck(0));
    var s3 := Next(cfg, s2, Cancel);
    var r2, r1, r0 := [Cancel], [PassCheck(0), Cancel], [Handover(0), PassCheck(0), Cancel];
    assert r0[1..] == r1 && r1[1..] == r2 && r2[1..] == [];
    assert Schedule(cfg, s2, r2) && After(cfg, s2, r2) == s3;
    assert Schedule(cfg, s1, r1) && After(cfg, s1, r1) == s3;
  }
}
