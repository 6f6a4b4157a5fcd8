/**
 * The bounded worker pool that runs channel health checks.
 *
 * One producer, N workers, one closer and the calling goroutine (the reducer) meet over two
 * unbuffered channels, `jobs` and `results`; a context may be cancelled at any moment.  The pool is
 * a labelled transition system: a `State` holds what every goroutine is about to do, and `Next`
 * executes one label.  Sending on a closed channel is part of the system (it sets `panicked`), so
 * its absence is a theorem and not a modelling choice.
 */
module WorkerPool {
  import opened Lists

  const DEFAULT_CONCURRENCY := 1
  const MAX_CONCURRENCY := 32
  const MANUALLY_DISABLED := 2

  datatype Summary = Summary(tested: int, succeeded: int, failed: int, disabled: int, enabled: int)

  const ZERO := Summary(0, 0, 0, 0, 0)

  function Add(a: Summary, b: Summary): Summary {
    Summary(a.tested + b.tested, a.succeeded + b.succeeded, a.failed + b.failed,
            a.disabled + b.disabled, a.enabled + b.enabled)
  }

  /** A list entry: nil, or a channel with the summary its health check would return. */
  datatype Channel = Nil | Channel(status: int, outcome: Summary)

  predicate Runnable(c: Channel) {
    c.Channel? && c.status != MANUALLY_DISABLED
  }

  function ResultOf(c: Channel): Summary {
    if Runnable(c) then c.outcome else ZERO
  }

  datatype Config = Config(channels: seq<Channel>, concurrency: int, reporter: bool, interval: bool)

  function Normalize(concurrency: int): (n: nat)
    ensures 1 <= n <= 32
    ensures 1 <= concurrency <= 32 ==> n == concurrency
    ensures (concurrency < 1 ==> n == 1) && (concurrency > 32 ==> n == 32)
  {
    if concurrency < 1 then DEFAULT_CONCURRENCY
    else if concurrency > MAX_CONCURRENCY then MAX_CONCURRENCY
    else concurrency
  }

  function WorkerCount(cfg: Config): nat {
    var n := Normalize(cfg.concurrency);
    if n < |cfg.channels| then n else |cfg.channels|
  }

  // ----- States -----

  datatype Worker =
    | Selecting                             // in the outer select
    | Received(pos: nat)                    // holds a job, about to look at ctx.Err()
    | Cleared(pos: nat)                     // found ctx.Err() == nil, about to call run or skip it
    | Running(pos: nat)                     // inside run
    | Sending(pos: nat, result: Summary)    // blocked on results <- result
    | Pausing                               // waiting out the request interval
    | Exited

  datatype Producer = Offering | Closing | Ended
  datatype Closer = Waiting | Woken | Gone

  /** Reporting is about to look at ctx.Err(); Announcing has found it nil and is about to call report. */
  datatype Reducer = Receiving | Reporting | Announcing | Returned

  /** The last four fields record history; no transition reads them. */
  datatype State = State(
    cancelled: bool,
    panicked: bool,
    producer: Producer,
    next: nat,
    jobsClosed: bool,
    workers: seq<Worker>,
    closer: Closer,
    resultsClosed: bool,
    reducer: Reducer,
    summary: Summary,
    processed: nat,
    reports: seq<nat>,
    started: seq<nat>,
    delivered: set<nat>,
    dropped: set<nat>)

  function Init(cfg: Config): State {
    var reports := if cfg.reporter then [0] else [];
    if |cfg.channels| == 0 then
      State(false, false, Ended, 0, true, [], Gone, true, Returned, ZERO, 0, reports, [], {}, {})
    else
      State(false, false, Offering, 0, false, seq(WorkerCount(cfg), _ => Selecting), Waiting, false,
            Receiving, ZERO, 0, reports, [], {}, {})
  }

  // ----- Transitions -----

  datatype Label =
    | Cancel
    | Handover(w: nat)            // rendezvous on jobs
    | ProducerCancelled           // the producer's select takes ctx.Done()
    | CloseJobs
    | WorkerCancelled(w: nat)     // a worker's select takes ctx.Done()
    | JobsDrained(w: nat)         // a worker receives from the closed jobs channel
    | DropJob(w: nat)             // ctx.Err() != nil after receiving
    | PassCheck(w: nat)           // ctx.Err() == nil after receiving
    | StartRun(w: nat)
    | SkipRun(w: nat)
    | FinishRun(w: nat)
    | Deliver(w: nat)             // rendezvous on results
    | PauseOver(w: nat)
    | PauseCancelled(w: nat)
    | WaitReturns
    | CloseResults
    | CheckReport                 // the reducer looks at ctx.Err()
    | Report
    | ReturnSummary
    | SendJobPanics
    | SendResultPanics(w: nat)

  predicate Enabled(cfg: Config, s: State, l: Label) {
    !s.panicked &&
    match l
    case Cancel => !s.cancelled
    case Handover(w) => s.producer.Offering? && !s.jobsClosed && s.next < |cfg.channels| && w < |s.workers| &&
                        s.workers[w].Selecting?
    case ProducerCancelled => s.producer.Offering? && s.cancelled
    case CloseJobs => s.producer.Closing?
    case WorkerCancelled(w) => w < |s.workers| && s.workers[w].Selecting? && s.cancelled
    case JobsDrained(w) => w < |s.workers| && s.workers[w].Selecting? && s.jobsClosed
    case DropJob(w) => w < |s.workers| && s.workers[w].Received? && s.cancelled
    case PassCheck(w) => w < |s.workers| && s.workers[w].Received? && !s.cancelled
    case StartRun(w) => w < |s.workers| && s.workers[w].Cleared?
                        && s.workers[w].pos < |cfg.channels| && Runnable(cfg.channels[s.workers[w].pos])
    case SkipRun(w) => w < |s.workers| && s.workers[w].Cleared?
                       && s.workers[w].pos < |cfg.channels| && !Runnable(cfg.channels[s.workers[w].pos])
    case FinishRun(w) => w < |s.workers| && s.workers[w].Running?
                         && s.workers[w].pos < |cfg.channels| && cfg.channels[s.workers[w].pos].Channel?
    case Deliver(w) => w < |s.workers| && s.workers[w].Sending? && s.reducer.Receiving? && !s.resultsClosed
    case PauseOver(w) => w < |s.workers| && s.workers[w].Pausing?
    case PauseCancelled(w) => w < |s.workers| && s.workers[w].Pausing? && s.cancelled
    case WaitReturns => s.closer.Waiting? && AllExited(s.workers)
    case CloseResults => s.closer.Woken?
    case CheckReport => s.reducer.Reporting?
    case Report => s.reducer.Announcing?
    case ReturnSummary => s.reducer.Receiving? && s.resultsClosed
    case SendJobPanics => s.producer.Offering? && s.jobsClosed
    case SendResultPanics(w) => w < |s.workers| && s.workers[w].Sending? && s.resultsClosed
  }

  predicate AllExited(ws: seq<Worker>) {
    forall w :: 0 <= w < |ws| ==> ws[w].Exited?
  }

  function Next(cfg: Config, s: State, l: Label): State
    requires Enabled(cfg, s, l)
  {
    match l
    case Cancel => s.(cancelled := true)
    case Handover(w) =>
      s.(workers := s.workers[w := Received(s.next)], next := s.next + 1,
         producer := if s.next + 1 == |cfg.channels| then Closing else Offering)
    case ProducerCancelled => s.(producer := Closing)
    case CloseJobs => if s.jobsClosed then s.(panicked := true) else s.(producer := Ended, jobsClosed := true)
    case WorkerCancelled(w) => s.(workers := s.workers[w := Exited])
    case JobsDrained(w) => s.(workers := s.workers[w := Exited])
    case DropJob(w) => s.(workers := s.workers[w := Exited], dropped := s.dropped + {s.workers[w].pos})
    case PassCheck(w) => s.(workers := s.workers[w := Cleared(s.workers[w].pos)])
    case StartRun(w) =>
      s.(workers := s.workers[w := Running(s.workers[w].pos)], started := s.started + [s.workers[w].pos])
    case SkipRun(w) => s.(workers := s.workers[w := Sending(s.workers[w].pos, ZERO)])
    case FinishRun(w) =>
      s.(workers := s.workers[w := Sending(s.workers[w].pos, cfg.channels[s.workers[w].pos].outcome)])
    case Deliver(w) =>
      s.(workers := s.workers[w := if cfg.interval then Pausing else Selecting],
         reducer := Reporting,
         summary := Add(s.summary, s.workers[w].result),
         processed := s.processed + 1,
         delivered := s.delivered + {s.workers[w].pos})
    case PauseOver(w) => s.(workers := s.workers[w := Selecting])
    case PauseCancelled(w) => s.(workers := s.workers[w := Exited])
    case WaitReturns => s.(closer := Woken)
    case CloseResults => if s.resultsClosed then s.(panicked := true) else s.(closer := Gone, resultsClosed := true)
    case CheckReport => s.(reducer := if cfg.reporter && !s.cancelled then Announcing else Receiving)
    case Report => s.(reducer := Receiving, reports := s.reports + [s.processed])
    case ReturnSummary => s.(reducer := Returned)
    case SendJobPanics => s.(panicked := true)
    case SendResultPanics(w) => s.(panicked := true)
  }

  /** `run` is a schedule that the pool can follow from `s`. */
  ghost predicate Schedule(cfg: Config, s: State, run: seq<Label>)
    decreases |run|
  {
    run == [] || (Enabled(cfg, s, run[0]) && Schedule(cfg, Next(cfg, s, run[0]), run[1..]))
  }

  ghost function After(cfg: Config, s: State, run: seq<Label>): State
    requires Schedule(cfg, s, run)
    decreases |run|
  {
    if run == [] then s else After(cfg, Next(cfg, s, run[0]), run[1..])
  }

  ghost predicate Final(s: State) {
    s.producer.Ended? && AllExited(s.workers) && s.closer.Gone? && s.reducer.Returned?
  }

  // ----- Reference meaning of the summary -----

  /** The componentwise sum of all results, in list order. */
  function Total(channels: seq<Channel>): Summary {
    if channels == [] then ZERO
    else Add(Total(channels[..|channels| - 1]), ResultOf(channels[|channels| - 1]))
  }

  /** The sum of the results at those of the first `n` positions that belong to `positions`. */
  function SumOver(channels: seq<Channel>, n: nat, positions: set<nat>): Summary
    requires n <= |channels|
  {
    if n == 0 then ZERO
    else if n - 1 in positions then Add(SumOver(channels, n - 1, positions), ResultOf(channels[n - 1]))
    else SumOver(channels, n - 1, positions)
  }

  function Upto(n: nat): (s: seq<nat>)
    ensures |s| == n && forall i :: 0 <= i < n ==> s[i] == i
  {
    seq(n, i => i)
  }

  // ----- The invariant -----

  predicate Holds(k: Worker, p: nat) {
    Busy(k) && k.pos == p
  }

  predicate Busy(k: Worker) {
    k.Received? || k.Cleared? || k.Running? || k.Sending?
  }

  /** Control: which goroutine can be where. */
  ghost predicate Control(cfg: Config, s: State) {
    && !s.panicked
    && |s.workers| == WorkerCount(cfg)
    && s.next <= |cfg.channels|
    && (s.producer.Offering? ==> s.next < |cfg.channels|)
    && s.jobsClosed == s.producer.Ended?
    && s.resultsClosed == s.closer.Gone?
    && (!s.closer.Waiting? ==> AllExited(s.workers))
    && (s.reducer.Returned? ==> s.resultsClosed)
    && (!s.cancelled ==>
          && (!s.producer.Offering? ==> s.next == |cfg.channels|)
          && s.dropped == {}
          && forall w :: 0 <= w < |s.workers| && s.workers[w].Exited? ==> s.jobsClosed)
  }

  ghost predicate Held(ws: seq<Worker>, p: nat) {
    exists w :: 0 <= w < |ws| && Holds(ws[w], p)
  }

  /** Ownership: every position handed out is in exactly one place. */
  ghost predicate Ownership(next: nat, ws: seq<Worker>, delivered: set<nat>, dropped: set<nat>) {
    && (forall w :: 0 <= w < |ws| && Busy(ws[w]) ==>
          ws[w].pos < next && ws[w].pos !in delivered && ws[w].pos !in dropped)
    && (forall v, w :: 0 <= v < w < |ws| && Busy(ws[v]) && Busy(ws[w]) ==> ws[v].pos != ws[w].pos)
    && delivered !! dropped
    && (forall p :: p in delivered || p in dropped ==> p < next)
    && (forall p: nat :: p < next ==> p in delivered || p in dropped || Held(ws, p))
  }

  ghost predicate InRun(ws: seq<Worker>, p: nat) {
    exists w :: 0 <= w < |ws| && (ws[w].Running? || ws[w].Sending?) && ws[w].pos == p
  }

  predicate WorkerFits(channels: seq<Channel>, started: seq<nat>, k: Worker) {
    match k
    case Received(p) => p !in started
    case Cleared(p) => p !in started
    case Running(p) => p < |channels| && Runnable(channels[p]) && p in started
    case Sending(p, r) => p < |channels| && r == ResultOf(channels[p]) && (Runnable(channels[p]) ==> p in started)
    case _ => true
  }

  /** Runs: what has been started, and which results are on their way. */
  ghost predicate Runs(channels: seq<Channel>, ws: seq<Worker>, started: seq<nat>, delivered: set<nat>) {
    && Distinct(started)
    && (forall p :: p in started ==>
          p < |channels| && Runnable(channels[p]) && (p in delivered || InRun(ws, p)))
    && (forall p :: p in delivered ==> p < |channels| && (Runnable(channels[p]) ==> p in started))
    && (forall w :: 0 <= w < |ws| ==> WorkerFits(channels, started, ws[w]))
  }

  /** Reduction: the caller's running totals. */
  ghost predicate Reduction(channels: seq<Channel>, processed: nat, summary: Summary, delivered: set<nat>) {
    processed == |delivered| && summary == SumOver(channels, |channels|, delivered)
  }

  /** Progress: reports count up from 0 without gaps, and are complete until cancellation. */
  ghost predicate Reported(reporter: bool, cancelled: bool, reports: seq<nat>, reducer: Reducer, processed: nat) {
    var due := if reducer.Reporting? || reducer.Announcing? then processed else processed + 1;
    && (!reporter ==> reports == [] && !reducer.Announcing?)
    && (reporter ==> reports == Upto(|reports|) && 1 <= |reports| <= due)
    && (reporter && (!cancelled || reducer.Announcing?) ==> |reports| == due)
    && (reducer.Reporting? || reducer.Announcing? ==> processed > 0)
  }

  ghost predicate Inv(cfg: Config, s: State) {
    && Control(cfg, s)
    && Ownership(s.next, s.workers, s.delivered, s.dropped)
    && Runs(cfg.channels, s.workers, s.started, s.delivered)
    && Reduction(cfg.channels, s.processed, s.summary, s.delivered)
    && Reported(cfg.reporter, s.cancelled, s.reports, s.reducer, s.processed)
  }

  lemma InitInv(cfg: Config)
    ensures Inv(cfg, Init(cfg))
  {
    SumOverNone(cfg.channels, |cfg.channels|);
  }

  lemma {:induction false} SumOverNone(channels: seq<Channel>, n: nat)
    requires n <= |channels|
    ensures SumOver(channels, n, {}) == ZERO
  {
    if n > 0 { SumOverNone(channels, n - 1); }
  }

  lemma {:induction false} SumOverInsert(channels: seq<Channel>, n: nat, ps: set<nat>, p: nat)
    requires n <= |channels| && p < |channels| && p !in ps
    ensures SumOver(channels, n, ps + {p})
         == if p < n then Add(SumOver(channels, n, ps), ResultOf(channels[p])) else SumOver(channels, n, ps)
  {
    if n > 0 { SumOverInsert(channels, n - 1, ps, p); }
  }

  /** A label by which one worker moves. */
  predicate ByWorker(l: Label) {
    MovesWorker(l) || l.DropJob? || l.Deliver? || l.Handover?
  }

  lemma {:induction false} AllExitedMeansNoOther(ws: seq<Worker>, w: nat, k: Worker)
    requires w < |ws| && !ws[w].Exited?
    ensures !AllExited(ws)
    ensures forall v :: 0 <= v < |ws| && ws[w := k][v].Exited? ==> ws[v].Exited? || (v == w && k.Exited?)
  {
  }

  lemma {:induction false} ControlByWorker(cfg: Config, s: State, l: Label)
    requires Control(cfg, s) && Enabled(cfg, s, l) && ByWorker(l)
    ensures Control(cfg, Next(cfg, s, l))
  {
    AllExitedMeansNoOther(s.workers, l.w, Next(cfg, s, l).workers[l.w]);
  }

  lemma {:induction false} ControlByOthers(cfg: Config, s: State, l: Label)
    requires Control(cfg, s) && Enabled(cfg, s, l) && !ByWorker(l)
    ensures Control(cfg, Next(cfg, s, l))
  {
    assert Next(cfg, s, l).workers == s.workers;
  }

  lemma {:induction false} ControlStep(cfg: Config, s: State, l: Label)
    requires Control(cfg, s) && Enabled(cfg, s, l)
    ensures Control(cfg, Next(cfg, s, l))
  {
    if ByWorker(l) { ControlByWorker(cfg, s, l); } else { ControlByOthers(cfg, s, l); }
  }

  // One worker moves on with (or without) the position it had.
  lemma OwnershipMove(next: nat, ws: seq<Worker>, delivered: set<nat>, dropped: set<nat>, w: nat, k: Worker)
    requires Ownership(next, ws, delivered, dropped) && w < |ws|
    requires Busy(k) == Busy(ws[w]) && (Busy(k) ==> k.pos == ws[w].pos)
    ensures Ownership(next, ws[w := k], delivered, dropped)
  {
    forall p: nat | p < next && Held(ws, p) ensures Held(ws[w := k], p) {
      var v :| 0 <= v < |ws| && Holds(ws[v], p);
      assert Holds(ws[w := k][v], p);
    }
  }

  lemma OwnershipTake(next: nat, ws: seq<Worker>, delivered: set<nat>, dropped: set<nat>, w: nat)
    requires Ownership(next, ws, delivered, dropped) && w < |ws| && !Busy(ws[w])
    ensures Ownership(next + 1, ws[w := Received(next)], delivered, dropped)
  {
    var us := ws[w := Received(next)];
    assert Holds(us[w], next);
    forall p: nat | p < next && Held(ws, p) ensures Held(us, p) {
      var v :| 0 <= v < |ws| && Holds(ws[v], p);
      assert Holds(us[v], p);
    }
  }

  lemma OwnershipRelease(next: nat, ws: seq<Worker>, delivered: set<nat>, dropped: set<nat>, w: nat, k: Worker)
    requires Ownership(next, ws, delivered, dropped) && w < |ws| && Busy(ws[w]) && !Busy(k)
    ensures Ownership(next, ws[w := k], delivered + {ws[w].pos}, dropped)
    ensures Ownership(next, ws[w := k], delivered, dropped + {ws[w].pos})
  {
    forall p: nat | p < next && Held(ws, p) && p != ws[w].pos ensures Held(ws[w := k], p) {
      var v :| 0 <= v < |ws| && Holds(ws[v], p);
      assert Holds(ws[w := k][v], p);
    }
  }

  lemma OwnershipStep(cfg: Config, s: State, l: Label)
    requires Ownership(s.next, s.workers, s.delivered, s.dropped) && Enabled(cfg, s, l)
    ensures var t := Next(cfg, s, l); Ownership(t.next, t.workers, t.delivered, t.dropped)
  {
    var t := Next(cfg, s, l);
    if l.Handover? {
      OwnershipTake(s.next, s.workers, s.delivered, s.dropped, l.w);
    } else if l.Deliver? || l.DropJob? {
      OwnershipRelease(s.next, s.workers, s.delivered, s.dropped, l.w, t.workers[l.w]);
    } else if MovesWorker(l) {
      OwnershipMove(s.next, s.workers, s.delivered, s.dropped, l.w, t.workers[l.w]);
    }
  }

  predicate MovesWorker(l: Label) {
    l.WorkerCancelled? || l.JobsDrained? || l.PassCheck? || l.StartRun? || l.SkipRun? || l.FinishRun? ||
      l.PauseOver? || l.PauseCancelled?
  }

  lemma RunsMove(channels: seq<Channel>, ws: seq<Worker>, started: seq<nat>, delivered: set<nat>, w: nat, k: Worker)
    requires Runs(channels, ws, started, delivered) && w < |ws|
    requires WorkerFits(channels, started, k)
    requires ws[w].Running? || ws[w].Sending? ==> (k.Running? || k.Sending?) && k.pos == ws[w].pos
    ensures Runs(channels, ws[w := k], started, delivered)
  {
    forall p | p in started && InRun(ws, p) ensures InRun(ws[w := k], p) {
      var v :| 0 <= v < |ws| && (ws[v].Running? || ws[v].Sending?) && ws[v].pos == p;
      assert (ws[w := k][v].Running? || ws[w := k][v].Sending?) && ws[w := k][v].pos == p;
    }
  }

  lemma RunsStart(channels: seq<Channel>, ws: seq<Worker>, started: seq<nat>, delivered: set<nat>, w: nat)
    requires Runs(channels, ws, started, delivered) && w < |ws| && ws[w].Cleared?
    requires ws[w].pos < |channels| && Runnable(channels[ws[w].pos])
    requires forall v :: 0 <= v < |ws| && v != w && Busy(ws[v]) ==> ws[v].pos != ws[w].pos
    ensures Runs(channels, ws[w := Running(ws[w].pos)], started + [ws[w].pos], delivered)
  {
    var us, q := ws[w := Running(ws[w].pos)], ws[w].pos;
    assert us[w].Running?;
    assert forall p :: p in started + [q] <==> p in started || p == q;
    forall p | p in started && InRun(ws, p) ensures InRun(us, p) {
      var v :| 0 <= v < |ws| && (ws[v].Running? || ws[v].Sending?) && ws[v].pos == p;
      assert (us[v].Running? || us[v].Sending?) && us[v].pos == p;
    }
  }

  lemma RunsDeliver(channels: seq<Channel>, ws: seq<Worker>, started: seq<nat>, delivered: set<nat>, w: nat, k: Worker)
    requires Runs(channels, ws, started, delivered) && w < |ws| && ws[w].Sending? && !Busy(k)
    ensures Runs(channels, ws[w := k], started, delivered + {ws[w].pos})
  {
    assert WorkerFits(channels, started, ws[w]);
    forall p | p in started && InRun(ws, p) && p != ws[w].pos ensures InRun(ws[w := k], p) {
      var v :| 0 <= v < |ws| && (ws[v].Running? || ws[v].Sending?) && ws[v].pos == p;
      assert (ws[w := k][v].Running? || ws[w := k][v].Sending?) && ws[w := k][v].pos == p;
    }
  }

  /** A worker that starts no run and delivers nothing still fits, and keeps a run it is in. */
  lemma {:induction false} StepFits(cfg: Config, s: State, l: Label)
    requires Inv(cfg, s) && Enabled(cfg, s, l) && ByWorker(l) && !l.StartRun? && !l.Deliver?
    ensures var t, k := Next(cfg, s, l), s.workers[l.w];
            && t.workers == s.workers[l.w := t.workers[l.w]] && t.started == s.started && t.delivered == s.delivered
            && WorkerFits(cfg.channels, s.started, t.workers[l.w])
            && (k.Running? || k.Sending? ==>
                (t.workers[l.w].Running? || t.workers[l.w].Sending?) && t.workers[l.w].pos == k.pos)
  {
    assert s.next in s.started ==> InRun(s.workers, s.next);
    assert WorkerFits(cfg.channels, s.started, s.workers[l.w]);
  }

  lemma RunsStep(cfg: Config, s: State, l: Label)
    requires Inv(cfg, s) && Enabled(cfg, s, l)
    ensures var t := Next(cfg, s, l); Runs(cfg.channels, t.workers, t.started, t.delivered)
  {
    var t := Next(cfg, s, l);
    if l.StartRun? {
      RunsStart(cfg.channels, s.workers, s.started, s.delivered, l.w);
    } else if l.Deliver? {
      RunsDeliver(cfg.channels, s.workers, s.started, s.delivered, l.w, t.workers[l.w]);
    } else if ByWorker(l) {
      StepFits(cfg, s, l);
      RunsMove(cfg.channels, s.workers, s.started, s.delivered, l.w, t.workers[l.w]);
    }
  }

  lemma ReductionStep(cfg: Config, s: State, l: Label)
    requires Inv(cfg, s) && Enabled(cfg, s, l)
    ensures var t := Next(cfg, s, l); Reduction(cfg.channels, t.processed, t.summary, t.delivered)
  {
    if l.Deliver? {
      assert WorkerFits(cfg.channels, s.started, s.workers[l.w]) && Busy(s.workers[l.w]);
      SumOverInsert(cfg.channels, |cfg.channels|, s.delivered, s.workers[l.w].pos);
    }
  }

  lemma {:induction false} ReportedStep(cfg: Config, s: State, l: Label)
    requires Reported(cfg.reporter, s.cancelled, s.reports, s.reducer, s.processed) && Enabled(cfg, s, l)
    ensures var t := Next(cfg, s, l); Reported(cfg.reporter, t.cancelled, t.reports, t.reducer, t.processed)
  {
    if l.Report? {
      ReportedMore(s.cancelled, s.reports, s.processed);
    } else if l.Deliver? {
    } else if !l.Cancel? && !l.CheckReport? && !l.ReturnSummary? {
      assert Next(cfg, s, l).reports == s.reports && Next(cfg, s, l).reducer == s.reducer &&
             Next(cfg, s, l).processed == s.processed;
    }
  }

  lemma {:induction false} ReportedMore(cancelled: bool, reports: seq<nat>, processed: nat)
    requires Reported(true, cancelled, reports, Announcing, processed)
    ensures Reported(true, cancelled, reports + [processed], Receiving, processed)
  {
    assert reports + [processed] == Upto(processed + 1);
  }

  lemma StepInv(cfg: Config, s: State, l: Label)
    requires Inv(cfg, s) && Enabled(cfg, s, l)
    ensures Inv(cfg, Next(cfg, s, l))
  {
    ControlStep(cfg, s, l);
    OwnershipStep(cfg, s, l);
    RunsStep(cfg, s, l);
    ReductionStep(cfg, s, l);
    ReportedStep(cfg, s, l);
  }

  lemma {:induction false} RunInv(cfg: Config, s: State, run: seq<Label>)
    requires Inv(cfg, s) && Schedule(cfg, s, run)
    ensures Inv(cfg, After(cfg, s, run))
    decreases |run|
  {
    if run != [] {
      StepInv(cfg, s, run[0]);
      RunInv(cfg, Next(cfg, s, run[0]), run[1..]);
    }
  }

  // ----- Safety -----

  function InFlight(ws: seq<Worker>): (n: nat)
    ensures n <= |ws|
  {
    if ws == [] then 0 else InFlight(ws[1..]) + if ws[0].Running? then 1 else 0
  }

  /** It is the number of workers inside a run. */
  lemma {:induction false} InFlightExactly(ws: seq<Worker>, k: nat)
    requires k <= |ws|
    ensures InFlight(ws[k..]) == |set w: nat | k <= w < |ws| && ws[w].Running?|
    decreases |ws| - k
  {
    var rest := set w: nat | k + 1 <= w < |ws| && ws[w].Running?;
    var all := set w: nat | k <= w < |ws| && ws[w].Running?;
    if k == |ws| {
      assert all == {};
    } else {
      InFlightExactly(ws, k + 1);
      assert ws[k..][1..] == ws[k + 1..];
      assert all == if ws[k].Running? then rest + {k} else rest;
    }
  }

  /**
   * Whatever the interleaving and wherever cancellation strikes: no send on a closed channel (and no
   * second close), no position runs twice, only runnable positions run, and no more runs are in
   * flight than there are workers.
   */
  lemma Safety(cfg: Config, run: seq<Label>)
    requires Schedule(cfg, Init(cfg), run)
    ensures var s := After(cfg, Init(cfg), run);
            && !s.panicked
            && Distinct(s.started)
            && (forall p :: p in s.started ==>
                  p < |cfg.channels| && cfg.channels[p].Channel? && cfg.channels[p].status != 2)
            && InFlight(s.workers) <= |s.workers| == WorkerCount(cfg) <= 32
  {
    InitInv(cfg);
    RunInv(cfg, Init(cfg), run);
  }

  // ----- Progress and termination -----

  /** Some goroutine other than the canceller can move, unless all of them have ended. */
  lemma Progress(cfg: Config, s: State) returns (l: Label)
    requires Inv(cfg, s) && !Final(s)
    ensures Enabled(cfg, s, l) && !l.Cancel?
  {
    if s.reducer.Reporting? { return CheckReport; }
    if s.reducer.Announcing? { return Report; }
    if w :| 0 <= w < |s.workers| && !s.workers[w].Exited? {
      match s.workers[w]
      case Received(_) => return if s.cancelled then DropJob(w) else PassCheck(w);
      case Cleared(p) => return if Runnable(cfg.channels[p]) then StartRun(w) else SkipRun(w);
      case Running(_) => return FinishRun(w);
      case Sending(_, _) => return Deliver(w);
      case Pausing => return PauseOver(w);
      case Selecting =>
        if s.cancelled { return WorkerCancelled(w); }
        return if s.producer.Offering? then Handover(w) else if s.producer.Closing? then CloseJobs else JobsDrained(w);
    }
    if s.closer.Waiting? { return WaitReturns; }
    if s.closer.Woken? { return CloseResults; }
    if s.reducer.Receiving? { return ReturnSummary; }
    if s.producer.Closing? { return CloseJobs; }
    assert s.producer.Offering? && s.workers[0].Exited?;
    return ProducerCancelled;
  }

  function WorkerWeight(k: Worker): nat {
    match k
    case Received(_) => 8
    case Cleared(_) => 7
    case Running(_) => 6
    case Sending(_, _) => 5
    case Pausing => 2
    case Selecting => 1
    case Exited => 0
  }

  function Weights(ws: seq<Worker>): nat {
    if ws == [] then 0 else WorkerWeight(ws[0]) + Weights(ws[1..])
  }

  lemma {:induction false} WeightsUpdate(ws: seq<Worker>, w: nat, k: Worker)
    requires w < |ws|
    ensures Weights(ws[w := k]) == Weights(ws) - WorkerWeight(ws[w]) + WorkerWeight(k)
  {
    if w == 0 {
      assert ws[w := k][1..] == ws[1..];
    } else {
      assert ws[w := k][1..] == ws[1..][w - 1 := k];
      WeightsUpdate(ws[1..], w - 1, k);
    }
  }

  /** How many more labels the pool can still take. */
  ghost function Fuel(cfg: Config, s: State): nat
    requires s.next <= |cfg.channels|
  {
    OtherFuel(cfg, s) + Weights(s.workers)
  }

  /** The part of the fuel that is not the workers'. */
  ghost function OtherFuel(cfg: Config, s: State): nat
    requires s.next <= |cfg.channels|
  {
    8 * (|cfg.channels| - s.next)
    + (match s.producer case Offering => 2 case Closing => 1 case Ended => 0)
    + (match s.closer case Waiting => 2 case Woken => 1 case Gone => 0)
    + (match s.reducer case Reporting => 3 case Announcing => 2 case Receiving => 1 case Returned => 0)
    + (if s.cancelled then 0 else 1)
  }

  /** What a worker's step costs the worker, and what it gives to the others. */
  lemma {:induction false} WorkerStepFuel(cfg: Config, s: State, l: Label)
    requires Control(cfg, s) && Enabled(cfg, s, l) && ByWorker(l)
    ensures var t := Next(cfg, s, l);
            && t.next <= |cfg.channels| && t.workers == s.workers[l.w := t.workers[l.w]]
            && OtherFuel(cfg, t) + WorkerWeight(t.workers[l.w]) < OtherFuel(cfg, s) + WorkerWeight(s.workers[l.w])
  {
  }

  lemma WorkerFuelDecreases(cfg: Config, s: State, l: Label)
    requires Control(cfg, s) && Enabled(cfg, s, l)
    requires ByWorker(l)
    ensures Next(cfg, s, l).next <= |cfg.channels|
    ensures Fuel(cfg, Next(cfg, s, l)) < Fuel(cfg, s)
  {
    WorkerStepFuel(cfg, s, l);
    WeightsUpdate(s.workers, l.w, Next(cfg, s, l).workers[l.w]);
  }

  lemma {:induction false} ControlFuelDecreases(cfg: Config, s: State, l: Label)
    requires Control(cfg, s) && Enabled(cfg, s, l)
    requires !ByWorker(l)
    ensures Next(cfg, s, l).next <= |cfg.channels|
    ensures Fuel(cfg, Next(cfg, s, l)) < Fuel(cfg, s)
  {
    assert Next(cfg, s, l).workers == s.workers && Next(cfg, s, l).next == s.next;
  }

  lemma FuelDecreases(cfg: Config, s: State, l: Label)
    requires Control(cfg, s) && Enabled(cfg, s, l)
    ensures Next(cfg, s, l).next <= |cfg.channels|
    ensures Fuel(cfg, Next(cfg, s, l)) < Fuel(cfg, s)
  {
    if ByWorker(l) {
      WorkerFuelDecreases(cfg, s, l);
    } else {
      ControlFuelDecreases(cfg, s, l);
    }
  }

  lemma {:induction false} RunConsumesFuel(cfg: Config, s: State, run: seq<Label>)
    requires Inv(cfg, s) && Schedule(cfg, s, run)
    ensures |run| <= Fuel(cfg, s)
    decreases |run|
  {
    if run != [] {
      StepInv(cfg, s, run[0]);
      FuelDecreases(cfg, s, run[0]);
      RunConsumesFuel(cfg, Next(cfg, s, run[0]), run[1..]);
    }
  }

  lemma {:induction false} WeightsOfIdle(ws: seq<Worker>)
    requires forall w :: 0 <= w < |ws| ==> ws[w].Selecting?
    ensures Weights(ws) == |ws|
  {
    if ws != [] { WeightsOfIdle(ws[1..]); }
  }

  /**
   * Every schedule is finite, of length at most 8*total + workers + 6, and one that cannot be
   * extended (cancellation aside) has ended every goroutine: the pool neither deadlocks nor diverges.
   */
  lemma Termination(cfg: Config, run: seq<Label>)
    requires Schedule(cfg, Init(cfg), run)
    ensures |run| <= 8 * |cfg.channels| + WorkerCount(cfg) + 6
    ensures var s := After(cfg, Init(cfg), run);
            Final(s) || exists l: Label :: Enabled(cfg, s, l) && !l.Cancel?
  {
    InitInv(cfg);
    RunInv(cfg, Init(cfg), run);
    RunConsumesFuel(cfg, Init(cfg), run);
    var s := After(cfg, Init(cfg), run);
    if |cfg.channels| > 0 { WeightsOfIdle(Init(cfg).workers); }
    if !Final(s) {
      var l := Progress(cfg, s);
    }
  }

  // ----- What is computed -----

  lemma {:induction false} SumOverAgrees(channels: seq<Channel>, n: nat, a: set<nat>, b: set<nat>)
    requires n <= |channels|
    requires forall p: nat :: p < n && Runnable(channels[p]) ==> (p in a <==> p in b)
    ensures SumOver(channels, n, a) == SumOver(channels, n, b)
  {
    if n > 0 { SumOverAgrees(channels, n - 1, a, b); }
  }

  lemma {:induction false} SumOverAll(channels: seq<Channel>, n: nat, ps: set<nat>)
    requires n <= |channels| && forall p: nat :: p < n ==> p in ps
    ensures SumOver(channels, n, ps) == Total(channels[..n])
  {
    if n > 0 {
      SumOverAll(channels, n - 1, ps);
      assert channels[..n][..n - 1] == channels[..n - 1];
    }
  }

  lemma {:induction false} CountBelow(ps: set<nat>, n: nat)
    requires forall p :: p in ps ==> p < n
    ensures |ps| <= n
    ensures (forall p: nat :: p < n ==> p in ps) ==> |ps| == n
  {
    if n == 0 {
      assert ps == {};
    } else {
      CountBelow(ps - {n - 1}, n - 1);
      assert n - 1 in ps ==> ps == (ps - {n - 1}) + {n - 1};
      assert n - 1 !in ps ==> ps == ps - {n - 1};
    }
  }

  /** Once the caller has its summary no worker holds a position any more. */
  lemma {:induction false} ReturnedMeansDelivered(cfg: Config, s: State)
    requires Inv(cfg, s) && s.reducer.Returned?
    ensures forall p: nat :: p < s.next ==> p in s.delivered || p in s.dropped
    ensures forall p: nat :: p < |cfg.channels| && Runnable(cfg.channels[p]) ==> (p in s.started <==> p in s.delivered)
  {
    assert forall p: nat :: !Held(s.workers, p) && !InRun(s.workers, p);
  }

  lemma UncancelledResult(cfg: Config, s: State)
    requires Inv(cfg, s) && s.reducer.Returned? && !s.cancelled
    ensures forall p: nat :: p in s.started <==> p < |cfg.channels| && Runnable(cfg.channels[p])
    ensures s.summary == Total(cfg.channels) && s.processed == |cfg.channels|
  {
    ReturnedMeansDelivered(cfg, s);
    assert s.next == |cfg.channels| by {
      if |cfg.channels| > 0 { assert s.workers[0].Exited?; }
    }
    SumOverAll(cfg.channels, |cfg.channels|, s.delivered);
    assert cfg.channels[..|cfg.channels|] == cfg.channels;
    CountBelow(s.delivered, |cfg.channels|);
  }

  /**
   * Without cancellation, when the caller returns: exactly the runnable positions ran, each once; the
   * summary is the sum of all results, whatever the interleaving; progress was 0, 1, ..., total.
   */
  lemma ExactlyOnce(cfg: Config, run: seq<Label>)
    requires Schedule(cfg, Init(cfg), run)
    requires var s := After(cfg, Init(cfg), run); s.reducer.Returned? && !s.cancelled
    ensures var s := After(cfg, Init(cfg), run);
            && Distinct(s.started)
            && (forall p: nat :: p in s.started <==>
                  p < |cfg.channels| && cfg.channels[p].Channel? && cfg.channels[p].status != 2)
            && s.summary == Total(cfg.channels)
            && s.processed == |cfg.channels|
            && s.reports == if cfg.reporter then Upto(|cfg.channels| + 1) else []
  {
    InitInv(cfg);
    RunInv(cfg, Init(cfg), run);
    UncancelledResult(cfg, After(cfg, Init(cfg), run));
  }

  /**
   * With cancellation at any point, when the caller returns: every run that was started has completed
   * and is in the summary, which sums those runs and nothing else; progress is a prefix of 0, 1, ..., total.
   */
  lemma CancelledSummary(cfg: Config, run: seq<Label>)
    requires Schedule(cfg, Init(cfg), run)
    requires After(cfg, Init(cfg), run).reducer.Returned?
    ensures var s := After(cfg, Init(cfg), run);
            && AllExited(s.workers)
            && s.summary == SumOver(cfg.channels, |cfg.channels|, set p | p in s.started)
            && s.reports <= Upto(|cfg.channels| + 1)
  {
    InitInv(cfg);
    RunInv(cfg, Init(cfg), run);
    var s := After(cfg, Init(cfg), run);
    ReturnedMeansDelivered(cfg, s);
    SumOverAgrees(cfg.channels, |cfg.channels|, s.delivered, set p | p in s.started);
    CountBelow(s.delivered, |cfg.channels|);
  }

  // ----- The summary as plain integer sums -----

  function SumInts(xs: seq<int>): int {
    if xs == [] then 0 else SumInts(xs[..|xs| - 1]) + xs[|xs| - 1]
  }

  /** `xs` lists, position by position, a field of the results of the counted channels with a status other than 2. */
  ghost predicate IsColumn(channels: seq<Channel>, counted: set<nat>, xs: seq<int>, field: Summary -> int) {
    && |xs| == |channels|
    && forall i :: 0 <= i < |xs| ==>
         xs[i] ==
         if i in counted && channels[i].Channel? && channels[i].status != 2 then field(channels[i].outcome) else 0
  }

  /** The five columns of a set of positions. */
  ghost predicate AreColumns(channels: seq<Channel>, counted: set<nat>, tested: seq<int>, succeeded: seq<int>,
                             failed: seq<int>, disabled: seq<int>, enabled: seq<int>)
  {
    && IsColumn(channels, counted, tested, (s: Summary) => s.tested)
    && IsColumn(channels, counted, succeeded, (s: Summary) => s.succeeded)
    && IsColumn(channels, counted, failed, (s: Summary) => s.failed)
    && IsColumn(channels, counted, disabled, (s: Summary) => s.disabled)
    && IsColumn(channels, counted, enabled, (s: Summary) => s.enabled)
  }

  /** A field that adds up summary by summary. */
  ghost predicate Additive(field: Summary -> int) {
    field(ZERO) == 0 && forall a, b :: field(Add(a, b)) == field(a) + field(b)
  }

  lemma {:induction false} SumOverColumn(channels: seq<Channel>, counted: set<nat>, xs: seq<int>, field: Summary -> int,
                                         n: nat)
    requires IsColumn(channels, counted, xs, field) && Additive(field) && n <= |channels|
    ensures field(SumOver(channels, n, counted)) == SumInts(xs[..n])
  {
    if n > 0 {
      SumOverColumn(channels, counted, xs, field, n - 1);
      assert xs[..n][..n - 1] == xs[..n - 1] && xs[..n][n - 1] == xs[n - 1];
      assert field(ResultOf(channels[n - 1])) == if channels[n - 1].Channel? && channels[n - 1].status != 2
                                                 then field(channels[n - 1].outcome) else 0;
    }
  }

  /** A sum over positions is, field by field, the integer sum of the column. */
  lemma {:induction false} SumOverFields(channels: seq<Channel>, counted: set<nat>, tested: seq<int>,
                                         succeeded: seq<int>, failed: seq<int>, disabled: seq<int>, enabled: seq<int>)
    requires AreColumns(channels, counted, tested, succeeded, failed, disabled, enabled)
    ensures SumOver(channels, |channels|, counted)
            == Summary(SumInts(tested), SumInts(succeeded), SumInts(failed), SumInts(disabled), SumInts(enabled))
  {
    var n := |channels|;
    SumOverColumn(channels, counted, tested, (s: Summary) => s.tested, n);
    SumOverColumn(channels, counted, succeeded, (s: Summary) => s.succeeded, n);
    SumOverColumn(channels, counted, failed, (s: Summary) => s.failed, n);
    SumOverColumn(channels, counted, disabled, (s: Summary) => s.disabled, n);
    SumOverColumn(channels, counted, enabled, (s: Summary) => s.enabled, n);
    assert tested[..n] == tested && succeeded[..n] == succeeded && failed[..n] == failed;
    assert disabled[..n] == disabled && enabled[..n] == enabled;
  }

  lemma {:induction false} TotalFields(channels: seq<Channel>, all: set<nat>, tested: seq<int>, succeeded: seq<int>,
                                       failed: seq<int>, disabled: seq<int>, enabled: seq<int>)
    requires forall p: nat :: p < |channels| ==> p in all
    requires AreColumns(channels, all, tested, succeeded, failed, disabled, enabled)
    ensures Total(channels)
            == Summary(SumInts(tested), SumInts(succeeded), SumInts(failed), SumInts(disabled), SumInts(enabled))
  {
    SumOverFields(channels, all, tested, succeeded, failed, disabled, enabled);
    SumOverAll(channels, |channels|, all);
    assert channels[..|channels|] == channels;
  }

  /** Uncancelled, the returned summary is, field by field, the sum over all channels with a status other than 2. */
  lemma {:induction false} SummaryFields(cfg: Config, run: seq<Label>, all: set<nat>, tested: seq<int>,
                                         succeeded: seq<int>, failed: seq<int>, disabled: seq<int>, enabled: seq<int>)
    requires Schedule(cfg, Init(cfg), run)
    requires var s := After(cfg, Init(cfg), run); s.reducer.Returned? && !s.cancelled
    requires forall p: nat :: p < |cfg.channels| ==> p in all
    requires AreColumns(cfg.channels, all, tested, succeeded, failed, disabled, enabled)
    ensures After(cfg, Init(cfg), run).summary
            == Summary(SumInts(tested), SumInts(succeeded), SumInts(failed), SumInts(disabled), SumInts(enabled))
  {
    ExactlyOnce(cfg, run);
    TotalFields(cfg.channels, all, tested, succeeded, failed, disabled, enabled);
  }

  /** Cancelled or not, it is the sum over the runs that were started. */
  lemma {:induction false} StartedFields(cfg: Config, run: seq<Label>, tested: seq<int>, succeeded: seq<int>,
                                         failed: seq<int>, disabled: seq<int>, enabled: seq<int>)
    requires Schedule(cfg, Init(cfg), run) && After(cfg, Init(cfg), run).reducer.Returned?
    requires var started := After(cfg, Init(cfg), run).started;
             AreColumns(cfg.channels, (set p | p in started), tested, succeeded, failed, disabled, enabled)
    ensures After(cfg, Init(cfg), run).summary
            == Summary(SumInts(tested), SumInts(succeeded), SumInts(failed), SumInts(disabled), SumInts(enabled))
  {
    CancelledSummary(cfg, run);
    var started := After(cfg, Init(cfg), run).started;
    SumOverFields(cfg.channels, (set p | p in started), tested, succeeded, failed, disabled, enabled);
  }

  // ----- All workers can run at once -----

  lemma {:induction false} Follow(cfg: Config, s: State, run: seq<Label>, l: Label)
    requires Schedule(cfg, s, run) && Enabled(cfg, After(cfg, s, run), l)
    ensures Schedule(cfg, s, run + [l]) && After(cfg, s, run + [l]) == Next(cfg, After(cfg, s, run), l)
    decreases |run|
  {
    if run == [] {
      assert run + [l] == [l] && [l][1..] == [];
    } else {
      assert (run + [l])[1..] == run[1..] + [l];
      Follow(cfg, Next(cfg, s, run[0]), run[1..], l);
    }
  }

  /** The first `k` workers are in the runs of the first `k` positions, the others wait for a job. */
  ghost predicate Crowded(cfg: Config, s: State, k: nat) {
    && |s.workers| == WorkerCount(cfg) && k <= |s.workers|
    && s.next == k && !s.cancelled && !s.panicked && !s.jobsClosed
    && (k < |cfg.channels| ==> s.producer.Offering?)
    && forall w :: 0 <= w < |s.workers| ==> s.workers[w] == if w < k then Running(w) else Selecting
  }

  lemma {:induction false} CrowdMore(cfg: Config, s: State, k: nat)
    requires Crowded(cfg, s, k) && k < WorkerCount(cfg) && Runnable(cfg.channels[k])
    ensures Enabled(cfg, s, Handover(k))
    ensures Enabled(cfg, Next(cfg, s, Handover(k)), PassCheck(k))
    ensures Enabled(cfg, Next(cfg, Next(cfg, s, Handover(k)), PassCheck(k)), StartRun(k))
    ensures Crowded(cfg, Next(cfg, Next(cfg, Next(cfg, s, Handover(k)), PassCheck(k)), StartRun(k)), k + 1)
  {
  }

  lemma {:induction false} CrowdUp(cfg: Config, k: nat) returns (run: seq<Label>)
    requires cfg.channels != [] && k <= WorkerCount(cfg) && forall p :: 0 <= p < k ==> Runnable(cfg.channels[p])
    ensures Schedule(cfg, Init(cfg), run) && Crowded(cfg, After(cfg, Init(cfg), run), k)
  {
    run := [];
    if k > 0 {
      run := CrowdUp(cfg, k - 1);
      CrowdMore(cfg, After(cfg, Init(cfg), run), k - 1);
      Follow(cfg, Init(cfg), run, Handover(k - 1));
      run := run + [Handover(k - 1)];
      Follow(cfg, Init(cfg), run, PassCheck(k - 1));
      run := run + [PassCheck(k - 1)];
      Follow(cfg, Init(cfg), run, StartRun(k - 1));
      run := run + [StartRun(k - 1)];
    }
  }

  /** The bound on concurrency is reached: min(concurrency forced into 1..32, total) runs can be in flight at once. */
  lemma {:induction false} FullConcurrency(cfg: Config) returns (run: seq<Label>)
    requires cfg.channels != [] && forall p :: 0 <= p < |cfg.channels| ==> Runnable(cfg.channels[p])
    ensures Schedule(cfg, Init(cfg), run)
    ensures var workers := After(cfg, Init(cfg), run).workers;
            && (forall w :: 0 <= w < |workers| ==> workers[w].Running?)
            && |workers| == if cfg.concurrency < 1 then 1
                            else if cfg.concurrency < 32 && cfg.concurrency < |cfg.channels| then cfg.concurrency
                            else if 32 < |cfg.channels| then 32 else |cfg.channels|
  {
    run := CrowdUp(cfg, WorkerCount(cfg));
  }

  /** With a request interval a worker waits before its next job: delivering leaves it unable to take one. */
  lemma {:induction false} IntervalPauses(cfg: Config, s: State, w: nat)
    requires Enabled(cfg, s, Deliver(w))
    ensures cfg.interval <==> !Enabled(cfg, Next(cfg, s, Deliver(w)), Handover(w))
                              && Enabled(cfg, Next(cfg, s, Deliver(w)), PauseOver(w))
  {
  }
}
