/**
 * The disk cache: a directory of body files, counters that are meant to follow it, eviction by age
 * and by capacity, and the check that makes room before a write.  The clock, the directory listing
 * and the files that refuse to be removed are parameters.
 */
module DiskCache {
  import opened Bytes
  import opened Options

  type Name = nat

  datatype File = File(data: seq<Byte>, modTime: int)

  type Directory = map<Name, File>

  datatype Config = Config(enabled: bool, threshold: int, maxBytes: int)

  /** The cache directory and the two counters kept for it. */
  datatype Disk = Disk(dir: Directory, usage: int, files: int)

  /** What a directory scan notes about a file. */
  datatype Entry = Entry(name: Name, size: nat, modTime: int)

  /** Two minutes, in nanoseconds. */
  const SAFE_WINDOW := 120_000_000_000

  /**
   * The surroundings of a scan: the time, the entries oldest first (in any order among equals, as the
   * sort is not stable) or nothing when the directory cannot be read, and the files that will not go.
   */
  datatype Scan = Scan(now: int, listing: Option<seq<Entry>>, stuck: set<Name>)

  // ----- Bytes on disk -----

  ghost function Total(dir: Directory): nat {
    if dir == map[] then 0
    else
      var n :| n in dir;
      |dir[n].data| + Total(dir - {n})
  }

  function SizeFrom(files: seq<Entry>, i: nat): nat
    requires i <= |files|
    decreases |files| - i
  {
    if i == |files| then 0 else files[i].size + SizeFrom(files, i + 1)
  }

  predicate Lists(dir: Directory, e: Entry) {
    e.name in dir && e.size == |dir[e.name].data| && e.modTime == dir[e.name].modTime
  }

  /** Distinct entries, each describing a file of the directory. */
  ghost predicate Describes(dir: Directory, files: seq<Entry>) {
    && (forall i :: 0 <= i < |files| ==> Lists(dir, files[i]))
    && (forall i, j :: 0 <= i < j < |files| ==> files[i].name != files[j].name)
  }

  ghost predicate OldestFirst(files: seq<Entry>) {
    forall i, j :: 0 <= i < j < |files| ==> files[i].modTime <= files[j].modTime
  }

  function Names(files: seq<Entry>): set<Name> {
    set i | 0 <= i < |files| :: files[i].name
  }

  /** A complete scan, sorted. */
  ghost predicate Listing(dir: Directory, files: seq<Entry>) {
    Describes(dir, files) && OldestFirst(files) && Names(files) == dir.Keys
  }

  ghost predicate Faithful(dir: Directory, scan: Scan) {
    scan.listing.Some? ==> Listing(dir, scan.listing.value)
  }

  // ----- The counters -----

  function Clamp(n: int): int {
    if n < 0 then 0 else n
  }

  function Incremented(d: Disk, size: int): Disk {
    d.(files := d.files + 1, usage := d.usage + size)
  }

  function Decremented(d: Disk, size: int): Disk {
    d.(files := Clamp(d.files - 1), usage := Clamp(d.usage - size))
  }

  function Removed(d: Disk, e: Entry): Disk {
    Decremented(d.(dir := d.dir - {e.name}), e.size)
  }

  /** A storage gives up its file: the counters drop whether or not the file could be removed. */
  function Discarded(d: Disk, name: Name, size: int, stuck: bool): Disk {
    Decremented(if stuck then d else d.(dir := d.dir - {name}), size)
  }

  function RemovedAll(d: Disk, victims: seq<Entry>): Disk {
    if victims == [] then d
    else Removed(RemovedAll(d, victims[..|victims| - 1]), victims[|victims| - 1])
  }

  // ----- Which files go -----

  /** The eviction loop from entry `i` on: `gone` so far, `total` bytes left, room for `room`. */
  function Evictees(gone: seq<Entry>, files: seq<Entry>, i: nat, total: int, room: int,
                    window: int, now: int, stuck: set<Name>): seq<Entry>
    requires i <= |files|
    decreases |files| - i
  {
    if i == |files| || total <= room || now - files[i].modTime < window then gone
    else if files[i].name in stuck then Evictees(gone, files, i + 1, total, room, window, now, stuck)
    else Evictees(gone + [files[i]], files, i + 1, total - files[i].size, room, window, now, stuck)
  }

  function Expired(gone: seq<Entry>, files: seq<Entry>, i: nat, maxAge: int, now: int, stuck: set<Name>): seq<Entry>
    requires i <= |files|
    decreases |files| - i
  {
    if i == |files| then gone
    else if now - files[i].modTime > maxAge && files[i].name !in stuck
    then Expired(gone + [files[i]], files, i + 1, maxAge, now, stuck)
    else Expired(gone, files, i + 1, maxAge, now, stuck)
  }

  /** What EnforceDiskCacheCapacity removes: nothing without a cap or a readable directory. */
  function Victims(config: Config, window: int, reserve: int, scan: Scan): seq<Entry> {
    if config.maxBytes <= 0 || scan.listing.None? then []
    else
      var files := scan.listing.value;
      Evictees([], files, 0, SizeFrom(files, 0), config.maxBytes - reserve, window, scan.now, scan.stuck)
  }

  function Enforced(config: Config, d: Disk, window: int, reserve: int, scan: Scan): Disk {
    RemovedAll(d, Victims(config, window, reserve, scan))
  }

  /** CleanupOldDiskCacheFiles */
  function Cleaned(d: Disk, maxAge: int, scan: Scan): Disk {
    if scan.listing.None? then d
    else RemovedAll(d, Expired([], scan.listing.value, 0, maxAge, scan.now, scan.stuck))
  }

  /** SyncDiskCacheStats */
  function Synced(d: Disk, scan: Scan): Disk {
    if scan.listing.None? then d
    else d.(files := |scan.listing.value|, usage := SizeFrom(scan.listing.value, 0))
  }

  predicate Available(config: Config, d: Disk, request: int) {
    config.enabled && d.usage + request <= config.maxBytes
  }

  /** The directory and counters after EnsureDiskCacheSpace has made what room it could. */
  function RoomMade(config: Config, d: Disk, request: int, scan: Scan): Disk {
    if !config.enabled || config.maxBytes <= 0 || d.usage + request <= config.maxBytes then d
    else Enforced(config, d, SAFE_WINDOW, request, scan)
  }

  /** What EnsureDiskCacheSpace answers. */
  predicate SpaceEnsured(config: Config, d: Disk, request: int, scan: Scan) {
    config.enabled && (config.maxBytes <= 0 || Available(config, RoomMade(config, d, request, scan), request))
  }

  // ----- The cache itself -----

  class Cache {
    var config: Config
    var dir: Directory
    var usage: int
    var files: int
    var memoryBuffers: int
    var memoryUsage: int
    var diskHits: int
    var memoryHits: int

    constructor (config: Config)
      ensures this.config == config && OnDisk() == Disk(map[], 0, 0)
      ensures memoryBuffers == memoryUsage == diskHits == memoryHits == 0
    {
      this.config := config;
      dir := map[];
      usage, files, memoryBuffers, memoryUsage, diskHits, memoryHits := 0, 0, 0, 0, 0, 0;
    }

    function OnDisk(): Disk
      reads this
    {
      Disk(dir, usage, files)
    }

    method IncrementDiskFiles(size: int)
      modifies this`usage, this`files
      ensures OnDisk() == Incremented(old(OnDisk()), size)
    {
      files := files + 1;
      usage := usage + size;
    }

    method DecrementDiskFiles(size: int)
      modifies this`usage, this`files
      ensures OnDisk() == Decremented(old(OnDisk()), size)
    {
      files := files - 1;
      if files < 0 { files := 0; }
      usage := usage - size;
      if usage < 0 { usage := 0; }
    }

    method IncrementMemoryBuffers(size: int)
      modifies this`memoryBuffers, this`memoryUsage
      ensures memoryBuffers == old(memoryBuffers) + 1 && memoryUsage == old(memoryUsage) + size
    {
      memoryBuffers := memoryBuffers + 1;
      memoryUsage := memoryUsage + size;
    }

    method DecrementMemoryBuffers(size: int)
      modifies this`memoryBuffers, this`memoryUsage
      ensures memoryBuffers == old(memoryBuffers) - 1 && memoryUsage == old(memoryUsage) - size
    {
      memoryBuffers := memoryBuffers - 1;
      memoryUsage := memoryUsage - size;
    }

    method Remove(e: Entry)
      modifies this`dir, this`usage, this`files
      ensures OnDisk() == Removed(old(OnDisk()), e)
    {
      dir := dir - {e.name};
      DecrementDiskFiles(e.size);
    }

    method EnforceCapacity(window: int, reserve: int, scan: Scan) returns (removed: nat)
      modifies this`dir, this`usage, this`files
      ensures OnDisk() == Enforced(config, old(OnDisk()), window, reserve, scan)
      ensures removed == |Victims(config, window, reserve, scan)|
    {
      removed := 0;
      if config.maxBytes <= 0 || scan.listing.None? { return; }
      var entries := scan.listing.value;
      var total := TotalSize(entries);
      var room := config.maxBytes - reserve;
      ghost var all := Evictees([], entries, 0, total, room, window, scan.now, scan.stuck);
      ghost var gone := [];
      var i := 0;
      while i < |entries| && total > room && scan.now - entries[i].modTime >= window
        invariant 0 <= i <= |entries|
        invariant Evictees(gone, entries, i, total, room, window, scan.now, scan.stuck) == all
        invariant OnDisk() == RemovedAll(old(OnDisk()), gone)
        invariant removed == |gone|
      {
        if entries[i].name !in scan.stuck {
          gone := Snoc(gone, entries[i]);
          Remove(entries[i]);
          total := total - entries[i].size;
          removed := removed + 1;
        }
        i := i + 1;
      }
      assert gone == all;
    }

    method CleanupOldFiles(maxAge: int, scan: Scan)
      modifies this`dir, this`usage, this`files
      ensures OnDisk() == Cleaned(old(OnDisk()), maxAge, scan)
    {
      if scan.listing.None? { return; }
      var entries := scan.listing.value;
      ghost var all := Expired([], entries, 0, maxAge, scan.now, scan.stuck);
      ghost var gone := [];
      for i := 0 to |entries|
        invariant Expired(gone, entries, i, maxAge, scan.now, scan.stuck) == all
        invariant OnDisk() == RemovedAll(old(OnDisk()), gone)
      {
        if scan.now - entries[i].modTime > maxAge && entries[i].name !in scan.stuck {
          gone := Snoc(gone, entries[i]);
          Remove(entries[i]);
        }
      }
      assert gone == all;
    }

    method SyncStats(scan: Scan)
      modifies this`usage, this`files
      ensures OnDisk() == Synced(old(OnDisk()), scan)
    {
      if scan.listing.Some? {
        usage := TotalSize(scan.listing.value);
        files := |scan.listing.value|;
      }
    }

    method ResetUsage()
      modifies this`usage, this`files
      ensures OnDisk() == old(OnDisk()).(usage := 0, files := 0)
    {
      files, usage := 0, 0;
    }

    method EnsureSpace(request: int, scan: Scan) returns (ok: bool)
      modifies this`dir, this`usage, this`files
      ensures ok == SpaceEnsured(config, old(OnDisk()), request, scan)
      ensures OnDisk() == RoomMade(config, old(OnDisk()), request, scan)
    {
      if !config.enabled { return false; }
      if config.maxBytes <= 0 { return true; }
      if usage + request <= config.maxBytes { return true; }
      var _ := EnforceCapacity(SAFE_WINDOW, request, scan);
      ok := usage + request <= config.maxBytes;
    }
  }

  method TotalSize(entries: seq<Entry>) returns (total: nat)
    ensures total == SizeFrom(entries, 0)
  {
    total := 0;
    for i := 0 to |entries|
      invariant total + SizeFrom(entries, i) == SizeFrom(entries, 0)
    {
      total := total + entries[i].size;
    }
  }

  /** The removals so far, extended by one. */
  ghost function Snoc(gone: seq<Entry>, e: Entry): (r: seq<Entry>)
    ensures r == gone + [e] && |r| == |gone| + 1 && r[|gone|] == e && r[..|gone|] == gone
  {
    gone + [e]
  }
}
