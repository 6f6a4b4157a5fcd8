/**
 * Creating a body storage from bytes or from a stream: in memory, on disk, or spilled to disk after
 * a prefix.  The directory scan, the new file's name and time, and any I/O failure are parameters.
 */
module BodyCreation {
  import opened Bytes
  import opened Options
  import opened DiskCache
  import opened BodySpec
  import opened BodyStorage

  /** The bytes a reader yields, and whether it then fails instead of ending. */
  datatype Stream = Stream(bytes: seq<Byte>, broken: bool)

  /**
   * What a creation meets: the scan, a file name no one else uses, the time of writing, whether the
   * file can be written, and what stays behind if an abandoned file cannot be removed.
   */
  datatype Env = Env(scan: Scan, name: Name, time: int, works: bool, leftover: Option<seq<Byte>>)

  datatype Outcome = InMemory(data: seq<Byte>) | OnDisk(data: seq<Byte>) | TooLarge | NoSpace | Failed

  /** Everything a limited reader lets through. */
  function Take(bytes: seq<Byte>, limit: int): seq<Byte> {
    if limit <= 0 then [] else if |bytes| <= limit then bytes else bytes[..limit]
  }

  /** A limited reader passes on the failure only if the limit is not reached first. */
  predicate ReadFails(s: Stream, limit: int) {
    s.broken && |s.bytes| < limit
  }

  function Rest(s: Stream, n: int): Stream {
    if 0 <= n <= |s.bytes| then s.(bytes := s.bytes[n..]) else s.(bytes := [])
  }

  function Abandoned(d: Disk, env: Env): Disk {
    if env.leftover.None? then d else d.(dir := d.dir[env.name := File(env.leftover.value, env.time)])
  }

  function WithFile(d: Disk, data: seq<Byte>, env: Env): Disk {
    Incremented(d.(dir := d.dir[env.name := File(data, env.time)]), |data|)
  }

  /** Copies at most limit + 1 bytes behind `prefix` into a new file, and keeps it if the limit holds. */
  function Copied(d: Disk, prefix: seq<Byte>, s: Stream, limit: int, env: Env): (Outcome, Disk) {
    var data := prefix + Take(s.bytes, limit - |prefix| + 1);
    if !env.works || ReadFails(s, limit - |prefix| + 1) then (Failed, Abandoned(d, env))
    else if |data| > limit then (TooLarge, Abandoned(d, env))
    else (OnDisk(data), WithFile(d, data, env))
  }

  /** CreateBodyStorage */
  function FromBytes(config: Config, d: Disk, data: seq<Byte>, env: Env): (Outcome, Disk) {
    if !config.enabled || |data| < config.threshold then (InMemory(data), d)
    else
      var room := RoomMade(config, d, |data|, env.scan);
      if !SpaceEnsured(config, d, |data|, env.scan) then (NoSpace, room)
      else if !env.works then (Failed, Abandoned(room, env))
      else (OnDisk(data), WithFile(room, data, env))
  }

  /** createBodyStorageSpill */
  function Spilled(config: Config, d: Disk, s: Stream, limit: int, env: Env): (Outcome, Disk) {
    var prefix := Take(s.bytes, config.threshold + 1);
    if ReadFails(s, config.threshold + 1) then (Failed, d)
    else if |prefix| <= config.threshold then (InMemory(prefix), d)
    else
      var room := RoomMade(config, d, |prefix|, env.scan);
      if !SpaceEnsured(config, d, |prefix|, env.scan) then (NoSpace, room)
      else Copied(room, prefix, Rest(s, |prefix|), limit, env)
  }

  predicate ToDisk(config: Config, contentLength: int) {
    config.enabled && contentLength > 0 && contentLength >= config.threshold
  }

  predicate Spills(config: Config, contentLength: int) {
    config.enabled && contentLength <= 0
  }

  /** CreateBodyStorageFromReader */
  function FromReader(config: Config, d: Disk, s: Stream, contentLength: int, limit: int, env: Env): (Outcome, Disk) {
    if ToDisk(config, contentLength) then
      var room := RoomMade(config, d, contentLength, env.scan);
      if !SpaceEnsured(config, d, contentLength, env.scan) then (NoSpace, room)
      else Copied(room, [], s, limit, env)
    else if Spills(config, contentLength) then Spilled(config, d, s, limit, env)
    else if ReadFails(s, limit + 1) then (Failed, d)
    else if |Take(s.bytes, limit + 1)| > limit then (TooLarge, d)
    else FromBytes(config, d, Take(s.bytes, limit + 1), env)
  }

  // ----- The operations -----

  datatype Created = MemoryBody(m: MemoryStorage) | DiskBody(d: DiskStorage) | Refused(why: Outcome)

  /** The storage that came out is the one the outcome describes, rewound and open. */
  ghost predicate Delivers(cache: Cache, r: Created, o: Outcome)
    reads *
  {
    match r
    case MemoryBody(m) => o.InMemory? && m.Valid() && m.State() == Body(Cursor(o.data, 0), false)
    case DiskBody(d) => o.OnDisk? && d.Valid() && d.cache == cache && d.path in cache.dir &&
                        d.State() == Body(Cursor(o.data, 0), false)
    case Refused(why) => o == why && !o.InMemory? && !o.OnDisk?
  }

  method NewMemory(cache: Cache, data: seq<Byte>) returns (r: Created)
    modifies cache`memoryBuffers, cache`memoryUsage
    ensures Delivers(cache, r, InMemory(data))
    ensures cache.memoryBuffers == old(cache.memoryBuffers) + 1 && cache.memoryUsage == old(cache.memoryUsage) + |data|
  {
    var m := new MemoryStorage(data, cache);
    r := MemoryBody(m);
  }

  method Abandon(cache: Cache, env: Env)
    modifies cache`dir
    ensures cache.OnDisk() == Abandoned(old(cache.OnDisk()), env)
  {
    if env.leftover.Some? { cache.dir := cache.dir[env.name := File(env.leftover.value, env.time)]; }
  }

  method NewOnDisk(cache: Cache, data: seq<Byte>, env: Env) returns (r: Created)
    modifies cache`dir, cache`usage, cache`files
    ensures Delivers(cache, r, OnDisk(data))
    ensures cache.OnDisk() == WithFile(old(cache.OnDisk()), data, env)
  {
    cache.dir := cache.dir[env.name := File(data, env.time)];
    cache.IncrementDiskFiles(|data|);
    var d := new DiskStorage(env.name, cache);
    r := DiskBody(d);
  }

  method CopyToDisk(cache: Cache, prefix: seq<Byte>, s: Stream, limit: int, env: Env) returns (r: Created)
    modifies cache`dir, cache`usage, cache`files
    ensures Delivers(cache, r, Copied(old(cache.OnDisk()), prefix, s, limit, env).0)
    ensures cache.OnDisk() == Copied(old(cache.OnDisk()), prefix, s, limit, env).1
  {
    if !env.works || ReadFails(s, limit - |prefix| + 1) {
      Abandon(cache, env);
      return Refused(Failed);
    }
    var data := prefix + Take(s.bytes, limit - |prefix| + 1);
    if |data| > limit {
      Abandon(cache, env);
      return Refused(TooLarge);
    }
    r := NewOnDisk(cache, data, env);
  }

  method Create(cache: Cache, data: seq<Byte>, env: Env) returns (r: Created)
    modifies cache`dir, cache`usage, cache`files, cache`memoryBuffers, cache`memoryUsage
    ensures Delivers(cache, r, FromBytes(cache.config, old(cache.OnDisk()), data, env).0)
    ensures cache.OnDisk() == FromBytes(cache.config, old(cache.OnDisk()), data, env).1
    ensures cache.memoryBuffers == old(cache.memoryBuffers) + (if r.MemoryBody? then 1 else 0)
    ensures cache.memoryUsage == old(cache.memoryUsage) + (if r.MemoryBody? then |data| else 0)
  {
    if !cache.config.enabled || |data| < cache.config.threshold {
      r := NewMemory(cache, data);
      return;
    }
    var ok := cache.EnsureSpace(|data|, env.scan);
    if !ok { return Refused(NoSpace); }
    if !env.works {
      Abandon(cache, env);
      return Refused(Failed);
    }
    r := NewOnDisk(cache, data, env);
  }

  method Spill(cache: Cache, s: Stream, limit: int, env: Env) returns (r: Created)
    modifies cache`dir, cache`usage, cache`files, cache`memoryBuffers, cache`memoryUsage, cache`diskHits
    ensures Delivers(cache, r, Spilled(cache.config, old(cache.OnDisk()), s, limit, env).0)
    ensures cache.OnDisk() == Spilled(cache.config, old(cache.OnDisk()), s, limit, env).1
    ensures cache.diskHits == old(cache.diskHits) + (if r.DiskBody? then 1 else 0)
    ensures cache.memoryBuffers == old(cache.memoryBuffers) + (if r.MemoryBody? then 1 else 0)
    ensures cache.memoryUsage == old(cache.memoryUsage) + (if r.MemoryBody? then |r.m.data| else 0)
  {
    var threshold := cache.config.threshold;
    if ReadFails(s, threshold + 1) { return Refused(Failed); }
    var prefix := Take(s.bytes, threshold + 1);
    if |prefix| <= threshold {
      r := NewMemory(cache, prefix);
      return;
    }
    var ok := cache.EnsureSpace(|prefix|, env.scan);
    if !ok { return Refused(NoSpace); }
    r := CopyToDisk(cache, prefix, Rest(s, |prefix|), limit, env);
    if r.DiskBody? { cache.diskHits := cache.diskHits + 1; }
  }

  /** A body kept in memory by the spill path is not counted as a memory hit. */
  method CreateFromReader(cache: Cache, s: Stream, contentLength: int, limit: int, env: Env) returns (r: Created)
    modifies cache
    ensures cache.config == old(cache.config)
    ensures Delivers(cache, r, FromReader(cache.config, old(cache.OnDisk()), s, contentLength, limit, env).0)
    ensures cache.OnDisk() == FromReader(cache.config, old(cache.OnDisk()), s, contentLength, limit, env).1
    ensures cache.diskHits == old(cache.diskHits) + (if r.DiskBody? then 1 else 0)
    ensures cache.memoryHits
            == old(cache.memoryHits) + (if r.MemoryBody? && !Spills(cache.config, contentLength) then 1 else 0)
    ensures cache.memoryBuffers == old(cache.memoryBuffers) + (if r.MemoryBody? then 1 else 0)
    ensures cache.memoryUsage == old(cache.memoryUsage) + (if r.MemoryBody? then |r.m.data| else 0)
  {
    if ToDisk(cache.config, contentLength) {
      var ok := cache.EnsureSpace(contentLength, env.scan);
      if !ok { return Refused(NoSpace); }
      r := CopyToDisk(cache, [], s, limit, env);
      if r.DiskBody? { cache.diskHits := cache.diskHits + 1; }
      return;
    }
    if Spills(cache.config, contentLength) {
      r := Spill(cache, s, limit, env);
      return;
    }
    if ReadFails(s, limit + 1) { return Refused(Failed); }
    var data := Take(s.bytes, limit + 1);
    if |data| > limit { return Refused(TooLarge); }
    r := Create(cache, data, env);
    if r.MemoryBody? { cache.memoryHits := cache.memoryHits + 1; }
    if r.DiskBody? { cache.diskHits := cache.diskHits + 1; }
  }

  // ----- What is accepted -----

  /** The longest body each path lets in: a spilled body within the threshold is never held against the limit. */
  function Longest(config: Config, contentLength: int, limit: int): int {
    if Spills(config, contentLength) && config.threshold > limit then config.threshold else limit
  }

  predicate Accepted(o: Outcome) {
    o.InMemory? || o.OnDisk?
  }

  /** Exactly the bodies within `longest` get in, with all their bytes; the others are too large. */
  predicate AcceptsUpTo(o: Outcome, bytes: seq<Byte>, longest: int) {
    if |bytes| <= longest then Accepted(o) && o.data == bytes else o == TooLarge
  }

  lemma {:induction false} CopiedExactly(d: Disk, prefix: seq<Byte>, s: Stream, limit: int, env: Env)
    requires !s.broken && env.works
    ensures AcceptsUpTo(Copied(d, prefix, s, limit, env).0, prefix + s.bytes, limit)
  {
  }

  lemma {:induction false} SpilledExactly(config: Config, d: Disk, s: Stream, limit: int, env: Env)
    requires !s.broken && env.works
    ensures var o := Spilled(config, d, s, limit, env).0;
            o == NoSpace || AcceptsUpTo(o, s.bytes, if config.threshold > limit then config.threshold else limit)
  {
    var prefix := Take(s.bytes, config.threshold + 1);
    if |prefix| > config.threshold {
      assert prefix + Rest(s, |prefix|).bytes == s.bytes;
      CopiedExactly(RoomMade(config, d, |prefix|, env.scan), prefix, Rest(s, |prefix|), limit, env);
    }
  }

  /**
   * Whatever the announced length, unless there is no space: every path accepts exactly the streams
   * no longer than the limit (or the threshold, if that is larger, on the spill path) and holds all
   * their bytes.
   */
  lemma {:induction false} AcceptsExactly(config: Config, d: Disk, s: Stream, contentLength: int, limit: int, env: Env)
    requires !s.broken && env.works
    ensures var o := FromReader(config, d, s, contentLength, limit, env).0;
            o == NoSpace || AcceptsUpTo(o, s.bytes, Longest(config, contentLength, limit))
  {
    if ToDisk(config, contentLength) {
      CopiedExactly(RoomMade(config, d, contentLength, env.scan), [], s, limit, env);
      assert [] + s.bytes == s.bytes;
    } else if Spills(config, contentLength) {
      SpilledExactly(config, d, s, limit, env);
    }
  }

  /** With the threshold within the limit, all paths accept the same streams. */
  lemma {:induction false} PathsAgree(config: Config, d: Disk, e: Disk, s: Stream, length1: int, length2: int,
                                      limit: int, env1: Env, env2: Env)
    requires !s.broken && env1.works && env2.works && config.threshold <= limit
    ensures var o1, o2 := FromReader(config, d, s, length1, limit, env1).0,
            FromReader(config, e, s, length2, limit, env2).0;
            o1 == NoSpace || o2 == NoSpace || (Accepted(o1) == Accepted(o2) == (|s.bytes| <= limit))
  {
    AcceptsExactly(config, d, s, length1, limit, env1);
    AcceptsExactly(config, e, s, length2, limit, env2);
  }

  /** Even if the stream breaks or the disk fails, what is accepted is the whole stream. */
  lemma {:induction false} NeverTruncated(config: Config, d: Disk, s: Stream, contentLength: int, limit: int, env: Env)
    requires Accepted(FromReader(config, d, s, contentLength, limit, env).0)
    ensures FromReader(config, d, s, contentLength, limit, env).0.data == s.bytes
  {
    var prefix := Take(s.bytes, config.threshold + 1);
    if Spills(config, contentLength) && |prefix| > config.threshold {
      assert prefix + Rest(s, |prefix|).bytes == s.bytes;
    }
  }
}
