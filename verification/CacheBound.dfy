/** How far the usage counter can exceed the configured cap. */
module CacheBound {
  import opened Bytes
  import opened Options
  import opened DiskCache
  import opened DiskCacheLaws
  import opened BodyCreation
  import opened CacheRuns

  function AtLeast0(n: int): nat {
    if n < 0 then 0 else n
  }

  /**
   * What a creation may write beyond what it reserved.  The spill path reserves only threshold + 1
   * bytes; an announced length that is not the real one may be as small as the threshold.
   */
  function Slack(config: Config, limit: int, honest: bool): nat {
    if honest then AtLeast0(limit - config.threshold - 1)
    else AtLeast0(limit - if config.threshold < 1 then 1 else config.threshold)
  }

  function Bound(config: Config, limit: int, honest: bool): int {
    config.maxBytes + Slack(config, limit, honest)
  }

  /** Unknown lengths are announced as zero or less; any other announcement is the real length. */
  predicate Honest(step: Step) {
    step.CreateFromReader? ==> step.contentLength <= 0 || step.contentLength == |step.stream.bytes|
  }

  predicate WithinLimit(step: Step, limit: int) {
    step.CreateFromReader? ==> step.limit <= limit
  }

  /** A file that gets in is at most `slack` longer than its reservation. */
  lemma {:induction false} WritesWithinSlack(config: Config, d: Disk, step: Step, limit: int, honest: bool)
    requires step.CreateFromReader? || step.CreateFromBytes?
    requires WithinLimit(step, limit) && (if honest then Honest(step) else config.threshold >= 0)
    ensures var o := Creation(config, d, step).0;
            o.OnDisk? ==> |o.data| <= Reserved(config, step) + Slack(config, limit, honest)
  {
  }

  lemma CreationBounded(config: Config, d: Disk, step: Step, limit: int, honest: bool)
    requires step.CreateFromReader? || step.CreateFromBytes?
    requires WithinLimit(step, limit) && (if honest then Honest(step) else config.threshold >= 0)
    requires config.maxBytes > 0 && Faithful(d.dir, step.env.scan) && Tracks(d)
    ensures Creation(config, d, step).1.usage <= d.usage ||
            Creation(config, d, step).1.usage <= Bound(config, limit, honest)
  {
    var (o, e) := Creation(config, d, step);
    CreationShape(config, d, step);
    WritesWithinSlack(config, d, step, limit, honest);
    RoomKeeps(config, d, Reserved(config, step), step.env.scan);
  }

  /** A sync keeps the usage under a bound exactly when the bytes really on disk are under it. */
  lemma SyncKeepsBound(d: Disk, scan: Scan, bound: int)
    requires Faithful(d.dir, scan) && d.usage <= bound
    ensures Synced(d, scan).usage <= bound <==> scan.listing.None? || Total(d.dir) <= bound
  {
    if scan.listing.Some? { ListingTotal(d.dir, scan.listing.value); }
  }

  /** What the bound asks of a step: creations within the limit, and no sync that brings in more than the bound. */
  ghost predicate Bounded(config: Config, w: World, step: Step, limit: int, honest: bool) {
    && WithinLimit(step, limit) && (honest ==> Honest(step))
    && (step.Sync? && step.scan.listing.Some? ==> Total(w.disk.dir) <= Bound(config, limit, honest))
  }

  lemma StepBounded(config: Config, w: World, step: Step, limit: int, honest: bool)
    requires config.maxBytes > 0 && (honest || config.threshold >= 0)
    requires Inv(w) && Legal(w, step) && Bounded(config, w, step, limit, honest)
    requires w.disk.usage <= Bound(config, limit, honest)
    ensures Next(config, w, step).disk.usage <= Bound(config, limit, honest)
  {
    match step {
      case Close(h, stuck) => ClosedKeeps(w, h, stuck);
      case Evict(window, reserve, scan) => EnforcedKeeps(config, w.disk, window, reserve, scan);
      case Clean(maxAge, scan) => CleanedKeeps(w.disk, maxAge, scan);
      case Sync(scan) => SyncKeepsBound(w.disk, scan, Bound(config, limit, honest));
      case Reset =>
      case _ => CreationBounded(config, w.disk, step, limit, honest);
    }
  }

  ghost predicate BoundedRun(config: Config, start: World, steps: seq<Step>, limit: int, honest: bool) {
    forall i :: 0 <= i < |steps| ==> Bounded(config, Run(config, start, steps[..i]), steps[i], limit, honest)
  }

  /** A sync over a readable directory that holds more than the bound. */
  ghost predicate Oversync(config: Config, w: World, step: Step, limit: int, honest: bool) {
    step.Sync? && step.scan.listing.Some? && Total(w.disk.dir) > Bound(config, limit, honest)
  }

  lemma {:induction false} RunAt(config: Config, start: World, steps: seq<Step>, i: nat)
    requires i < |steps|
    ensures Run(config, start, steps[..i + 1]) == Next(config, Run(config, start, steps[..i]), steps[i])
    ensures LegalRun(config, start, steps) ==>
              LegalRun(config, start, steps[..i]) && Legal(Run(config, start, steps[..i]), steps[i])
    decreases |steps|
  {
    assert steps[..i + 1][..i] == steps[..i];
    if i + 1 < |steps| {
      var front := steps[..|steps| - 1];
      RunAt(config, start, front, i);
      assert front[..i] == steps[..i] && front[..i + 1] == steps[..i + 1];
    } else {
      assert steps[..i + 1] == steps;
    }
  }

  /**
   * Serialized creations: the usage stays within cap and slack all along a run if and only if no
   * sync finds more than the bound on disk.
   */
  lemma {:induction false} UsageBounded(config: Config, start: World, steps: seq<Step>, limit: int, honest: bool)
    requires config.maxBytes > 0 && (honest || config.threshold >= 0)
    requires Inv(start) && start.disk.usage <= Bound(config, limit, honest) && LegalRun(config, start, steps)
    requires forall i :: 0 <= i < |steps| ==> WithinLimit(steps[i], limit) && (honest ==> Honest(steps[i]))
    ensures (forall i :: 0 <= i <= |steps| ==>
             Run(config, start, steps[..i]).disk.usage <= Bound(config, limit, honest)) <==>
            (forall i :: 0 <= i < |steps| ==>
             !Oversync(config, Run(config, start, steps[..i]), steps[i], limit, honest))
  {
    var bound := Bound(config, limit, honest);
    if i :| 0 <= i < |steps| && Oversync(config, Run(config, start, steps[..i]), steps[i], limit, honest) {
      RunAt(config, start, steps, i);
      SyncedExact(Run(config, start, steps[..i]).disk, steps[i].scan);
      assert Run(config, start, steps[..i + 1]).disk.usage > bound;
    } else {
      forall i | 0 <= i <= |steps| ensures Run(config, start, steps[..i]).disk.usage <= bound {
        BoundedUpTo(config, start, steps, limit, honest, i);
      }
    }
  }

  lemma {:induction false} BoundedUpTo(config: Config, start: World, steps: seq<Step>, limit: int, honest: bool, i: nat)
    requires config.maxBytes > 0 && (honest || config.threshold >= 0)
    requires Inv(start) && start.disk.usage <= Bound(config, limit, honest) && LegalRun(config, start, steps)
    requires BoundedRun(config, start, steps, limit, honest) && i <= |steps|
    ensures Run(config, start, steps[..i]).disk.usage <= Bound(config, limit, honest)
    decreases i
  {
    if i > 0 {
      BoundedUpTo(config, start, steps, limit, honest, i - 1);
      RunAt(config, start, steps, i - 1);
      CountersTrack(config, start, steps[..i - 1]);
      StepBounded(config, Run(config, start, steps[..i - 1]), steps[i - 1], limit, honest);
    }
  }

  /** If nothing drifts, syncs change nothing and need no condition. */
  lemma {:induction false} UsageBoundedWithoutDrift(config: Config, start: World, steps: seq<Step>, limit: int,
                                                    honest: bool)
    requires config.maxBytes > 0 && (honest || config.threshold >= 0)
    requires Inv(start) && Exact(start.disk) && start.disk.usage <= Bound(config, limit, honest)
    requires LegalRun(config, start, steps) && NeverDrifts(config, start, steps)
    requires forall i :: 0 <= i < |steps| ==> WithinLimit(steps[i], limit) && (honest ==> Honest(steps[i]))
    ensures Run(config, start, steps).disk.usage <= Bound(config, limit, honest)
    ensures Total(Run(config, start, steps).disk.dir) <= Bound(config, limit, honest)
  {
    ExactWithoutDrift(config, start, steps);
    if steps != [] {
      var front, last := steps[..|steps| - 1], steps[|steps| - 1];
      PrefixNeverDrifts(config, start, steps);
      UsageBoundedWithoutDrift(config, start, front, limit, honest);
      CountersTrack(config, start, front);
      assert Bounded(config, Run(config, start, front), last, limit, honest);
      StepBounded(config, Run(config, start, front), last, limit, honest);
    }
  }

  /** The bound is reached: a spilled body of the full limit, when just threshold + 1 bytes were free. */
  lemma {:induction false} SpillReachesBound(config: Config, d: Disk, stream: Stream, limit: int, env: Env)
    requires config.enabled && config.maxBytes > 0 && config.threshold >= 0 && limit > config.threshold
    requires d.usage == config.maxBytes - config.threshold - 1
    requires !stream.broken && env.works && |stream.bytes| == limit
    ensures FromReader(config, d, stream, 0, limit, env).1.usage == Bound(config, limit, true)
  {
    var prefix := Take(stream.bytes, config.threshold + 1);
    assert |prefix| == config.threshold + 1 && Rest(stream, |prefix|).bytes == stream.bytes[|prefix|..];
  }

  /** So is the other bound: a body of the full limit announced with the smallest length that goes to disk. */
  lemma {:induction false} ShortAnnouncementReachesBound(config: Config, d: Disk, stream: Stream, limit: int, env: Env)
    requires config.enabled && config.maxBytes > 0 && config.threshold >= 0
    requires !stream.broken && env.works && |stream.bytes| == limit
    requires var announced := if config.threshold < 1 then 1 else config.threshold;
             announced <= limit && d.usage == config.maxBytes - announced
    ensures var announced := if config.threshold < 1 then 1 else config.threshold;
            FromReader(config, d, stream, announced, limit, env).1.usage == Bound(config, limit, false)
  {
    assert [] + stream.bytes == stream.bytes;
  }

  // ----- A sync after a drift -----

  const CONFIG := Config(true, 2, 3)
  const BODY: seq<Byte> := [7, 7, 7]

  function Quiet(name: Name): Env {
    Env(Scan(0, None, {}), name, 0, true, None)
  }

  function BothFiles(): seq<Entry> {
    [Entry(0, 3, 0), Entry(1, 3, 0)]
  }

  function DriftAndSync(): seq<Step> {
    [CreateFromBytes(0, BODY, Quiet(0))] + [Reset] + [CreateFromBytes(1, BODY, Quiet(1))]
    + [Sync(Scan(0, Some(BothFiles()), {}))]
  }

  lemma {:induction false} RunSnoc(config: Config, start: World, steps: seq<Step>, step: Step)
    requires LegalRun(config, start, steps) && Legal(Run(config, start, steps), step)
    ensures LegalRun(config, start, steps + [step])
    ensures Run(config, start, steps + [step]) == Next(config, Run(config, start, steps), step)
  {
    assert (steps + [step])[..|steps|] == steps;
  }

  lemma {:induction false} BothFilesListed(dir: Directory)
    requires dir == map[0 := File(BODY, 0), 1 := File(BODY, 0)]
    ensures Listing(dir, BothFiles()) && SizeFrom(BothFiles(), 0) == 6
  {
    var l := BothFiles();
    assert l[0].name == 0 && l[1].name == 1;
    assert Names(l) == dir.Keys;
    assert SizeFrom(l, 2) == 0 && SizeFrom(l, 1) == 3;
  }

  /** Reset forgets a file, another takes its place, and the sync counts both: twice the cap, with no slack at all. */
  lemma SyncAfterDriftExceedsBound()
    ensures LegalRun(CONFIG, Fresh(map[]), DriftAndSync())
    ensures Run(CONFIG, Fresh(map[]), DriftAndSync()).disk.usage == 6 > Bound(CONFIG, 3, true) == 3
  {
    var start := Fresh(map[]);
    var one := [CreateFromBytes(0, BODY, Quiet(0))];
    RunSnoc(CONFIG, start, [], one[0]);
    assert [] + one == one;
    RunSnoc(CONFIG, start, one, Reset);
    var two := one + [Reset];
    RunSnoc(CONFIG, start, two, CreateFromBytes(1, BODY, Quiet(1)));
    var three := two + [CreateFromBytes(1, BODY, Quiet(1))];
    BothFilesListed(Run(CONFIG, start, three).disk.dir);
    RunSnoc(CONFIG, start, three, Sync(Scan(0, Some(BothFiles()), {})));
  }
}
