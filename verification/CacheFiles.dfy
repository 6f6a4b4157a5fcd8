/** The file counter over runs: exactly which steps make it differ from the number of files in the directory. */
module CacheFiles {
  import opened Bytes
  import opened Options
  import opened DiskCache
  import opened DiskCacheLaws
  import opened BodyCreation
  import opened BodyOutcomes
  import opened CacheRuns

  ghost predicate FilesExact(d: Disk) {
    d.files == |d.dir|
  }

  /**
   * The steps that make an exact file counter inexact: closing a storage whose file stays or is already
   * gone while others are there, a reset with files there, and a refused creation that leaves a file.
   */
  ghost predicate FilesDrift(config: Config, w: World, step: Step) {
    match step
    case Close(h, stuck) =>
      h !in w.memory && h in w.holdings && (stuck || w.holdings[h].name !in w.disk.dir) && |w.disk.dir| > 0
    case Reset => |w.disk.dir| > 0
    case CreateFromReader(_, _, _, _, _) => LeavesAny(config, w.disk, step)
    case CreateFromBytes(_, _, _) => LeavesAny(config, w.disk, step)
    case _ => false
  }

  ghost predicate LeavesAny(config: Config, d: Disk, step: Step)
    requires step.CreateFromReader? || step.CreateFromBytes?
  {
    var (o, e) := Creation(config, d, step);
    !o.OnDisk? && step.env.name in e.dir
  }

  lemma {:induction false} RemovalCountsFiles(d: Disk, victims: seq<Entry>)
    requires Describes(d.dir, victims) && TracksBytes(d) && FilesExact(d)
    ensures FilesExact(RemovedAll(d, victims)) && RemovedAll(d, victims).dir.Keys <= d.dir.Keys
  {
    RemovedAllMeaning(d, victims);
  }

  lemma {:induction false} EvictionCountsFiles(config: Config, d: Disk, window: int, reserve: int, scan: Scan)
    requires Faithful(d.dir, scan) && TracksBytes(d) && FilesExact(d)
    ensures var e := Enforced(config, d, window, reserve, scan); FilesExact(e) && e.dir.Keys <= d.dir.Keys
  {
    VictimsDescribed(d.dir, config, window, reserve, scan);
    RemovalCountsFiles(d, Victims(config, window, reserve, scan));
  }

  lemma {:induction false} CleaningCountsFiles(d: Disk, maxAge: int, scan: Scan)
    requires Faithful(d.dir, scan) && TracksBytes(d) && FilesExact(d)
    ensures FilesExact(Cleaned(d, maxAge, scan))
  {
    if scan.listing.Some? {
      ExpiredAreOld(d.dir, [], scan.listing.value, 0, maxAge, scan.now, scan.stuck);
      RemovalCountsFiles(d, Expired([], scan.listing.value, 0, maxAge, scan.now, scan.stuck));
    }
  }

  /** What a creation does to the disk, with the bytes it asks for. */
  lemma {:induction false} CreationDisk(config: Config, d: Disk, step: Step) returns (asked: Option<int>)
    requires step.CreateFromReader? || step.CreateFromBytes?
    ensures var (o, e) := Creation(config, d, step);
            e == DiskAfter(config, d, asked, o, step.env) && (o.OnDisk? ==> asked.Some?)
  {
    if step.CreateFromReader? {
      CreatedExactly(config, d, step.stream, step.contentLength, step.limit, step.env);
      asked := Asked(config, step.stream, step.contentLength, step.limit);
    } else {
      BytesExactly(config, d, step.data, step.env);
      asked := if config.enabled && |step.data| >= config.threshold then Some(|step.data|) else None;
    }
  }

  lemma {:induction false} DiskAfterCounts(config: Config, d: Disk, asked: int, o: Outcome, env: Env)
    requires Faithful(d.dir, env.scan) && TracksBytes(d) && FilesExact(d) && env.name !in d.dir
    ensures var e := DiskAfter(config, d, Some(asked), o, env); FilesExact(e) <==> o.OnDisk? || env.name !in e.dir
  {
    EvictionCountsFiles(config, d, SAFE_WINDOW, asked, env.scan);
    var room := RoomMade(config, d, asked, env.scan);
    assert FilesExact(room) && env.name !in room.dir;
    if o.OnDisk? { FileAdded(room, env.name, File(o.data, env.time)); }
    if env.leftover.Some? { FileAdded(room, env.name, File(env.leftover.value, env.time)); }
  }

  lemma {:induction false} CreationCountsFiles(config: Config, d: Disk, step: Step)
    requires step.CreateFromReader? || step.CreateFromBytes?
    requires Faithful(d.dir, step.env.scan) && TracksBytes(d) && FilesExact(d) && step.env.name !in d.dir
    ensures FilesExact(Creation(config, d, step).1) <==> !LeavesAny(config, d, step)
  {
    var asked := CreationDisk(config, d, step);
    if asked.Some? { DiskAfterCounts(config, d, asked.value, Creation(config, d, step).0, step.env); }
  }

  lemma {:induction false} CloseCountsFiles(d: Disk, name: Name, size: int, stuck: bool)
    requires FilesExact(d)
    ensures FilesExact(Discarded(d, name, size, stuck)) <==> !((stuck || name !in d.dir) && |d.dir| > 0)
  {
    if name in d.dir {
      CardinalityRemove(d.dir, name);
    } else {
      assert d.dir - {name} == d.dir;
    }
  }

  /** Exactly those steps make an exact file counter inexact. */
  lemma {:induction false} StepCountsFiles(config: Config, w: World, step: Step)
    requires Inv(w) && Legal(w, step) && FilesExact(w.disk)
    ensures FilesExact(Next(config, w, step).disk) <==> !FilesDrift(config, w, step)
  {
    match step {
      case Close(h, stuck) =>
        if h in w.holdings { CloseCountsFiles(w.disk, w.holdings[h].name, w.holdings[h].size, stuck); }
      case Evict(window, reserve, scan) => EvictionCountsFiles(config, w.disk, window, reserve, scan);
      case Clean(maxAge, scan) => CleaningCountsFiles(w.disk, maxAge, scan);
      case Sync(scan) => if scan.listing.Some? { SyncedExact(w.disk, scan); }
      case Reset =>
      case _ => CreationCountsFiles(config, w.disk, step);
    }
  }

  /** Without such a step the counter is the number of files, over every run. */
  lemma {:induction false} FilesCounted(config: Config, start: World, steps: seq<Step>)
    requires Inv(start) && FilesExact(start.disk) && LegalRun(config, start, steps)
    requires forall i :: 0 <= i < |steps| ==> !FilesDrift(config, Run(config, start, steps[..i]), steps[i])
    ensures FilesExact(Run(config, start, steps).disk)
  {
    if steps != [] {
      var front := steps[..|steps| - 1];
      forall i | 0 <= i < |front| ensures !FilesDrift(config, Run(config, start, front[..i]), front[i]) {
        assert front[..i] == steps[..i];
      }
      FilesCounted(config, start, front);
      CountersTrack(config, start, front);
      StepCountsFiles(config, Run(config, start, front), steps[|steps| - 1]);
    }
  }
}
