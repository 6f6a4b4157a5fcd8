/**
 * Runs of body creations, closes, evictions, age cleaning, syncs and resets over one cache: what the
 * counters say about the directory, and how far the usage counter can go.
 */
module CacheRuns {
  import opened Bytes
  import opened Options
  import opened DiskCache
  import opened DiskCacheLaws
  import opened BodyCreation

  type Handle = nat

  datatype Holding = Holding(name: Name, size: nat)

  /** The disk, the open storages of either kind, and the two memory counters. */
  datatype World = World(disk: Disk, memory: map<Handle, nat>, holdings: map<Handle, Holding>, buffers: int, bytes: int)

  datatype Step =
    | CreateFromReader(h: Handle, stream: Stream, contentLength: int, limit: int, env: Env)
    | CreateFromBytes(h: Handle, data: seq<Byte>, env: Env)
    | Close(h: Handle, stuck: bool)
    | Evict(window: int, reserve: int, scan: Scan)
    | Clean(maxAge: int, scan: Scan)
    | Sync(scan: Scan)
    | Reset

  /** A process starts with zero counters, whatever an earlier one left in the directory. */
  function Fresh(dir: Directory): World {
    World(Disk(dir, 0, 0), map[], map[], 0, 0)
  }

  function Opened(w: World, h: Handle, o: Outcome, d: Disk, name: Name): World {
    if o.InMemory? then w.(disk := d, memory := w.memory[h := |o.data|], buffers := w.buffers + 1,
                           bytes := w.bytes + |o.data|)
    else if o.OnDisk? then w.(disk := d, holdings := w.holdings[h := Holding(name, |o.data|)])
    else w.(disk := d)
  }

  /** Only the first Close of a storage has an effect. */
  function Closed(w: World, h: Handle, stuck: bool): World {
    if h in w.memory then w.(memory := w.memory - {h}, buffers := w.buffers - 1, bytes := w.bytes - w.memory[h])
    else if h in w.holdings then
      w.(holdings := w.holdings - {h}, disk := Discarded(w.disk, w.holdings[h].name, w.holdings[h].size, stuck))
    else w
  }

  /** What a creation makes of the disk. */
  function Creation(config: Config, d: Disk, step: Step): (Outcome, Disk)
    requires step.CreateFromReader? || step.CreateFromBytes?
  {
    if step.CreateFromReader? then FromReader(config, d, step.stream, step.contentLength, step.limit, step.env)
    else FromBytes(config, d, step.data, step.env)
  }

  function Next(config: Config, w: World, step: Step): World {
    match step
    case Close(h, stuck) => Closed(w, h, stuck)
    case Evict(window, reserve, scan) => w.(disk := Enforced(config, w.disk, window, reserve, scan))
    case Clean(maxAge, scan) => w.(disk := Cleaned(w.disk, maxAge, scan))
    case Sync(scan) => w.(disk := Synced(w.disk, scan))
    case Reset => w.(disk := w.disk.(usage := 0, files := 0))
    case _ => var (o, d) := Creation(config, w.disk, step); Opened(w, step.h, o, d, step.env.name)
  }

  /** Scans list the directory; a new storage has a new handle and a file name nobody uses. */
  ghost predicate Legal(w: World, step: Step) {
    match step
    case Close(_, _) => true
    case Evict(_, _, scan) => Faithful(w.disk.dir, scan)
    case Clean(_, scan) => Faithful(w.disk.dir, scan)
    case Sync(scan) => Faithful(w.disk.dir, scan)
    case Reset => true
    case _ =>
      && step.h !in w.memory && step.h !in w.holdings
      && Faithful(w.disk.dir, step.env.scan) && step.env.name !in w.disk.dir
      && forall h :: h in w.holdings ==> w.holdings[h].name != step.env.name
  }

  function Run(config: Config, start: World, steps: seq<Step>): World {
    if steps == [] then start else Next(config, Run(config, start, steps[..|steps| - 1]), steps[|steps| - 1])
  }

  ghost predicate LegalRun(config: Config, start: World, steps: seq<Step>) {
    steps == [] || (LegalRun(config, start, steps[..|steps| - 1]) &&
                    Legal(Run(config, start, steps[..|steps| - 1]), steps[|steps| - 1]))
  }

  // ----- The counters against the directory -----

  lemma FileAdded(d: Disk, name: Name, f: File)
    requires name !in d.dir
    ensures var dir := d.dir[name := f]; Total(dir) == Total(d.dir) + |f.data| && |dir| == |d.dir| + 1
  {
    TotalInsert(d.dir, name, f);
    assert d.dir[name := f].Keys == d.dir.Keys + {name};
  }

  /**
   * A creation may evict to make room for `request`, and then adds nothing, a counted file holding
   * the accepted bytes (only if there was room), or an uncounted leftover.
   */
  ghost predicate CreatesWith(config: Config, d: Disk, request: int, env: Env, o: Outcome, e: Disk) {
    var room := RoomMade(config, d, request, env.scan);
    if o.OnDisk? then SpaceEnsured(config, d, request, env.scan) && e == WithFile(room, o.data, env)
    else e == d || e == room || e == Abandoned(room, env)
  }

  /** The bytes a creation asks room for, when it asks. */
  function Reserved(config: Config, step: Step): int
    requires step.CreateFromReader? || step.CreateFromBytes?
  {
    if step.CreateFromBytes? then |step.data|
    else if ToDisk(config, step.contentLength) then step.contentLength
    else if Spills(config, step.contentLength) then |Take(step.stream.bytes, config.threshold + 1)|
    else |Take(step.stream.bytes, step.limit + 1)|
  }

  lemma {:induction false} FromBytesShape(config: Config, d: Disk, data: seq<Byte>, env: Env)
    ensures var (o, e) := FromBytes(config, d, data, env); CreatesWith(config, d, |data|, env, o, e)
  {
  }

  lemma {:induction false} CreationShape(config: Config, d: Disk, step: Step)
    requires step.CreateFromReader? || step.CreateFromBytes?
    ensures var (o, e) := Creation(config, d, step); CreatesWith(config, d, Reserved(config, step), step.env, o, e)
  {
    if step.CreateFromBytes? {
      FromBytesShape(config, d, step.data, step.env);
    } else if ToDisk(config, step.contentLength) {
    } else if Spills(config, step.contentLength) {
    } else {
      FromBytesShape(config, d, Take(step.stream.bytes, step.limit + 1), step.env);
    }
  }

  /** A refused creation leaves a non-empty file behind. */
  ghost predicate LeavesFile(config: Config, d: Disk, step: Step)
    requires step.CreateFromReader? || step.CreateFromBytes?
  {
    var (o, e) := Creation(config, d, step);
    !o.OnDisk? && step.env.name in e.dir && e.dir[step.env.name].data != []
  }

  lemma CreationKeeps(config: Config, d: Disk, step: Step)
    requires step.CreateFromReader? || step.CreateFromBytes?
    requires Faithful(d.dir, step.env.scan) && Tracks(d) && step.env.name !in d.dir
    ensures Tracks(Creation(config, d, step).1)
    ensures Exact(d) ==> (Exact(Creation(config, d, step).1) <==> !LeavesFile(config, d, step))
  {
    CreationShape(config, d, step);
    var (o, e) := Creation(config, d, step);
    CreatedKeeps(config, d, Reserved(config, step), step.env, o, e);
  }

  lemma CreatedKeeps(config: Config, d: Disk, request: int, env: Env, o: Outcome, e: Disk)
    requires Tracks(d) && Faithful(d.dir, env.scan) && env.name !in d.dir && CreatesWith(config, d, request, env, o, e)
    ensures Tracks(e)
    ensures Exact(d) ==> (Exact(e) <==> o.OnDisk? || env.name !in e.dir || e.dir[env.name].data == [])
  {
    RoomKeeps(config, d, request, env.scan);
    AddedKeeps(RoomMade(config, d, request, env.scan), o, env);
  }

  lemma AddedKeeps(room: Disk, o: Outcome, env: Env)
    requires Tracks(room) && env.name !in room.dir
    ensures o.OnDisk? ==> Tracks(WithFile(room, o.data, env)) && (Exact(room) ==> Exact(WithFile(room, o.data, env)))
    ensures Tracks(Abandoned(room, env))
    ensures Exact(room) ==> (Exact(Abandoned(room, env)) <==> env.leftover.None? || env.leftover.value == [])
  {
    if o.OnDisk? { FileAdded(room, env.name, File(o.data, env.time)); }
    if env.leftover.Some? { FileAdded(room, env.name, File(env.leftover.value, env.time)); }
  }

  // ----- Open storages -----

  ghost function MemoryTotal(m: map<Handle, nat>): nat {
    if m == map[] then 0
    else
      var h :| h in m;
      m[h] + MemoryTotal(m - {h})
  }

  lemma {:induction false} MemoryTotalRemove(m: map<Handle, nat>, h: Handle)
    requires h in m
    ensures MemoryTotal(m) == m[h] + MemoryTotal(m - {h})
    decreases |m|
  {
    var k :| k in m && MemoryTotal(m) == m[k] + MemoryTotal(m - {k});
    if k != h {
      MemoryTotalRemove(m - {k}, h);
      MemoryTotalRemove(m - {h}, k);
      assert m - {k} - {h} == m - {h} - {k};
    }
  }

  lemma {:induction false} MemoryCountRemove(m: map<Handle, nat>, h: Handle)
    requires h in m
    ensures |m - {h}| == |m| - 1
  {
    assert (m - {h}).Keys == m.Keys - {h};
  }

  /** The memory counters are the number and the total size of the open memory storages. */
  ghost predicate MemoryCounted(w: World) {
    w.buffers == |w.memory| && w.bytes == MemoryTotal(w.memory)
  }

  /** A storage's file, while it is there, has the size the storage will give back. */
  ghost predicate HoldingsMatch(dir: Directory, holdings: map<Handle, Holding>) {
    forall h :: h in holdings && holdings[h].name in dir ==> |dir[holdings[h].name].data| == holdings[h].size
  }

  ghost predicate Inv(w: World) {
    Tracks(w.disk) && HoldingsMatch(w.disk.dir, w.holdings) && MemoryCounted(w)
  }

  lemma {:induction false} FreshInv(dir: Directory)
    ensures Inv(Fresh(dir)) && (Exact(Fresh(dir).disk) <==> Total(dir) == 0)
  {
  }

  lemma OpenedMemory(m: map<Handle, nat>, h: Handle, size: nat)
    requires h !in m
    ensures MemoryTotal(m[h := size]) == MemoryTotal(m) + size && |m[h := size]| == |m| + 1
  {
    MemoryTotalRemove(m[h := size], h);
    MemoryCountRemove(m[h := size], h);
    assert m[h := size] - {h} == m;
  }

  /** Whether closing `h` would leave an exact counter too low: its bytes are subtracted but no file goes. */
  ghost predicate CloseDrifts(w: World, h: Handle, stuck: bool) {
    && h !in w.memory && h in w.holdings && w.holdings[h].size > 0
    && (stuck || w.holdings[h].name !in w.disk.dir) && Total(w.disk.dir) > 0
  }

  lemma DiscardedKeeps(d: Disk, name: Name, size: nat, stuck: bool)
    requires Tracks(d) && (name in d.dir ==> |d.dir[name].data| == size)
    ensures var e := Discarded(d, name, size, stuck);
            && Tracks(e) && Shrinks(d, e) && e.usage <= d.usage
            && (Exact(d) ==> (Exact(e) <==> !(size > 0 && (stuck || name !in d.dir) && Total(d.dir) > 0)))
  {
    if name in d.dir {
      TotalRemove(d.dir, name);
      CardinalityRemove(d.dir, name);
    } else {
      assert d.dir - {name} == d.dir;
    }
  }

  lemma ClosedKeeps(w: World, h: Handle, stuck: bool)
    requires Inv(w)
    ensures Inv(Closed(w, h, stuck))
    ensures Exact(w.disk) ==> (Exact(Closed(w, h, stuck).disk) <==> !CloseDrifts(w, h, stuck))
    ensures Closed(w, h, stuck).disk.usage <= w.disk.usage
  {
    if h in w.memory {
      MemoryTotalRemove(w.memory, h);
      MemoryCountRemove(w.memory, h);
    } else if h in w.holdings {
      DiscardedKeeps(w.disk, w.holdings[h].name, w.holdings[h].size, stuck);
    }
  }

  /** The directory changes only at the new name, apart from files disappearing. */
  ghost predicate OnlyAdds(d: Disk, e: Disk, o: Outcome, name: Name) {
    && (forall n :: n in e.dir && n != name ==> n in d.dir && e.dir[n] == d.dir[n])
    && (o.OnDisk? ==> name in e.dir && e.dir[name].data == o.data)
  }

  lemma {:induction false} RoomOnlyAdds(d: Disk, room: Disk, o: Outcome, env: Env)
    requires Shrinks(d, room)
    ensures o.OnDisk? ==> OnlyAdds(d, WithFile(room, o.data, env), o, env.name)
    ensures !o.OnDisk? ==>
              && OnlyAdds(d, d, o, env.name) && OnlyAdds(d, room, o, env.name)
              && OnlyAdds(d, Abandoned(room, env), o, env.name)
  {
  }

  lemma {:induction false} CreatedDirectory(config: Config, d: Disk, request: int, env: Env, o: Outcome, e: Disk)
    requires Tracks(d) && Faithful(d.dir, env.scan) && CreatesWith(config, d, request, env, o, e)
    ensures OnlyAdds(d, e, o, env.name)
  {
    RoomKeeps(config, d, request, env.scan);
    RoomOnlyAdds(d, RoomMade(config, d, request, env.scan), o, env);
  }

  lemma CreationDirectory(config: Config, d: Disk, step: Step)
    requires step.CreateFromReader? || step.CreateFromBytes?
    requires Faithful(d.dir, step.env.scan) && Tracks(d)
    ensures OnlyAdds(d, Creation(config, d, step).1, Creation(config, d, step).0, step.env.name)
  {
    CreationShape(config, d, step);
    var (o, e) := Creation(config, d, step);
    CreatedDirectory(config, d, Reserved(config, step), step.env, o, e);
  }

  lemma CreateKeeps(config: Config, w: World, step: Step)
    requires step.CreateFromReader? || step.CreateFromBytes?
    requires Inv(w) && Legal(w, step)
    ensures Inv(Next(config, w, step))
    ensures Exact(w.disk) ==> (Exact(Next(config, w, step).disk) <==> !LeavesFile(config, w.disk, step))
  {
    var (o, e) := Creation(config, w.disk, step);
    CreationKeeps(config, w.disk, step);
    CreationDirectory(config, w.disk, step);
    if o.InMemory? { OpenedMemory(w.memory, step.h, |o.data|); }
  }

  lemma SyncedExact(d: Disk, scan: Scan)
    requires Faithful(d.dir, scan) && scan.listing.Some?
    ensures Exact(Synced(d, scan)) && Synced(d, scan).files == |d.dir|
  {
    ListingTotal(d.dir, scan.listing.value);
  }

  // ----- Every step, every run -----

  /** The steps that make an exact counter inexact. */
  ghost predicate Drifts(config: Config, w: World, step: Step) {
    match step
    case Close(h, stuck) => CloseDrifts(w, h, stuck)
    case Reset => Total(w.disk.dir) > 0
    case CreateFromReader(_, _, _, _, _) => LeavesFile(config, w.disk, step)
    case CreateFromBytes(_, _, _) => LeavesFile(config, w.disk, step)
    case _ => false
  }

  /** Every step keeps the counters between zero and the truth; exactly the drifting ones make them inexact. */
  lemma {:induction false} StepKeeps(config: Config, w: World, step: Step)
    requires Inv(w) && Legal(w, step)
    ensures Inv(Next(config, w, step))
    ensures Exact(w.disk) ==> (Exact(Next(config, w, step).disk) <==> !Drifts(config, w, step))
  {
    match step {
      case Close(h, stuck) => ClosedKeeps(w, h, stuck);
      case Evict(window, reserve, scan) => EnforcedKeeps(config, w.disk, window, reserve, scan);
      case Clean(maxAge, scan) => CleanedKeeps(w.disk, maxAge, scan);
      case Sync(scan) => if scan.listing.Some? { SyncedExact(w.disk, scan); }
      case Reset =>
      case _ => CreateKeeps(config, w, step);
    }
  }

  /** Over every run: 0 <= usage <= bytes on disk, and the memory counters are exact. */
  lemma {:induction false} CountersTrack(config: Config, start: World, steps: seq<Step>)
    requires Inv(start) && LegalRun(config, start, steps)
    ensures Inv(Run(config, start, steps))
  {
    if steps != [] {
      CountersTrack(config, start, steps[..|steps| - 1]);
      StepKeeps(config, Run(config, start, steps[..|steps| - 1]), steps[|steps| - 1]);
    }
  }

  ghost predicate NeverDrifts(config: Config, start: World, steps: seq<Step>) {
    forall i :: 0 <= i < |steps| ==> !Drifts(config, Run(config, start, steps[..i]), steps[i])
  }

  lemma {:induction false} PrefixNeverDrifts(config: Config, start: World, steps: seq<Step>)
    requires steps != [] && NeverDrifts(config, start, steps)
    ensures NeverDrifts(config, start, steps[..|steps| - 1])
    ensures !Drifts(config, Run(config, start, steps[..|steps| - 1]), steps[|steps| - 1])
  {
    var front := steps[..|steps| - 1];
    forall i | 0 <= i < |front| ensures !Drifts(config, Run(config, start, front[..i]), front[i]) {
      assert front[..i] == steps[..i];
    }
  }

  /** Without a drifting step the usage counter is exactly the bytes on disk. */
  lemma {:induction false} ExactWithoutDrift(config: Config, start: World, steps: seq<Step>)
    requires Inv(start) && Exact(start.disk) && LegalRun(config, start, steps) && NeverDrifts(config, start, steps)
    ensures Exact(Run(config, start, steps).disk)
  {
    if steps != [] {
      var front := steps[..|steps| - 1];
      PrefixNeverDrifts(config, start, steps);
      ExactWithoutDrift(config, start, front);
      CountersTrack(config, start, front);
      StepKeeps(config, Run(config, start, front), steps[|steps| - 1]);
    }
  }
}
