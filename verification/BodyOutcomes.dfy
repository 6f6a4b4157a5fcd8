/**
 * Creating a body storage, spelled out by the length of the stream: what is reserved on disk, what is
 * answered, and what the cache directory and its counters hold afterwards.
 */
module BodyOutcomes {
  import opened Bytes
  import opened Options
  import opened DiskCache
  import opened BodyCreation

  /**
   * The bytes a creation asks room for, or nothing if the body never goes to disk: the announced length
   * once it reaches the threshold; one byte past the threshold if none is announced and the stream is
   * longer; the whole body if less was announced than came.
   */
  function Asked(config: Config, s: Stream, contentLength: int, limit: int): Option<int> {
    var n, threshold := |s.bytes|, config.threshold;
    if !config.enabled then None
    else if contentLength <= 0 then (if n <= threshold then None else Some(if threshold < 0 then 0 else threshold + 1))
    else if contentLength >= threshold then Some(contentLength)
    else if !s.broken && threshold <= n <= limit then Some(n)
    else None
  }

  /** Room is asked for, the cache is capped, and with what eviction leaves the request exceeds the cap. */
  predicate Crowded(config: Config, d: Disk, asked: Option<int>, scan: Scan) {
    && asked.Some? && config.maxBytes > 0
    && RoomMade(config, d, asked.value, scan).usage + asked.value > config.maxBytes
  }

  /** The answer to a stream of n bytes, by comparing n with the threshold and the limit. */
  function Answer(config: Config, d: Disk, s: Stream, contentLength: int, limit: int, env: Env): Outcome {
    var n, asked := |s.bytes|, Asked(config, s, contentLength, limit);
    if config.enabled && contentLength <= 0 && n <= config.threshold then
      if s.broken then Failed else InMemory(s.bytes)
    else if Crowded(config, d, asked, env.scan) then NoSpace
    else if (s.broken && n <= limit) || (asked.Some? && !env.works) then Failed
    else if n > limit then TooLarge
    else if asked.Some? then OnDisk(s.bytes)
    else InMemory(s.bytes)
  }

  /** What becomes of the disk: a counted file for an accepted body, at most an uncounted leftover otherwise. */
  function DiskAfter(config: Config, d: Disk, asked: Option<int>, o: Outcome, env: Env): Disk {
    if asked.None? then d
    else
      var room := RoomMade(config, d, asked.value, env.scan);
      if o.NoSpace? then room
      else if o.OnDisk? then
        Disk(room.dir[env.name := File(o.data, env.time)], room.usage + |o.data|, room.files + 1)
      else if env.leftover.Some? then
        Disk(room.dir[env.name := File(env.leftover.value, env.time)], room.usage, room.files)
      else room
  }

  lemma {:induction false} SpaceExactly(config: Config, d: Disk, request: int, scan: Scan)
    ensures SpaceEnsured(config, d, request, scan) <==> config.enabled && !Crowded(config, d, Some(request), scan)
  {
  }

  lemma {:induction false} CopiedLength(d: Disk, prefix: seq<Byte>, s: Stream, limit: int, env: Env)
    ensures var (o, e) := Copied(d, prefix, s, limit, env);
            var n := |prefix| + |s.bytes|;
            && o == (if !env.works || (s.broken && n <= limit) then Failed
                     else if n > limit then TooLarge else OnDisk(prefix + s.bytes))
            && e == (if o.OnDisk? then
                       Disk(d.dir[env.name := File(o.data, env.time)], d.usage + |o.data|, d.files + 1)
                     else if env.leftover.Some? then
                       Disk(d.dir[env.name := File(env.leftover.value, env.time)], d.usage, d.files)
                     else d)
  {
  }

  lemma {:induction false} SpilledAnswer(config: Config, d: Disk, s: Stream, contentLength: int, limit: int, env: Env)
    requires config.enabled && contentLength <= 0
    ensures var (o, e) := Spilled(config, d, s, limit, env);
            && o == Answer(config, d, s, contentLength, limit, env)
            && e == DiskAfter(config, d, Asked(config, s, contentLength, limit), o, env)
  {
    var prefix := Take(s.bytes, config.threshold + 1);
    if |s.bytes| > config.threshold {
      assert prefix + Rest(s, |prefix|).bytes == s.bytes;
      SpaceExactly(config, d, |prefix|, env.scan);
      CopiedLength(RoomMade(config, d, |prefix|, env.scan), prefix, Rest(s, |prefix|), limit, env);
    }
  }

  lemma {:induction false} AnnouncedAnswer(config: Config, d: Disk, s: Stream, contentLength: int, limit: int, env: Env)
    requires config.enabled && contentLength > 0 && contentLength >= config.threshold
    ensures var (o, e) := FromReader(config, d, s, contentLength, limit, env);
            && o == Answer(config, d, s, contentLength, limit, env)
            && e == DiskAfter(config, d, Asked(config, s, contentLength, limit), o, env)
  {
    SpaceExactly(config, d, contentLength, env.scan);
    CopiedLength(RoomMade(config, d, contentLength, env.scan), [], s, limit, env);
    assert [] + s.bytes == s.bytes;
  }

  /** Every creation from a stream, exactly. */
  lemma {:induction false} CreatedExactly(config: Config, d: Disk, s: Stream, contentLength: int, limit: int, env: Env)
    ensures var (o, e) := FromReader(config, d, s, contentLength, limit, env);
            && o == Answer(config, d, s, contentLength, limit, env)
            && e == DiskAfter(config, d, Asked(config, s, contentLength, limit), o, env)
  {
    if config.enabled && contentLength <= 0 {
      SpilledAnswer(config, d, s, contentLength, limit, env);
    } else if config.enabled && contentLength >= config.threshold {
      AnnouncedAnswer(config, d, s, contentLength, limit, env);
    } else {
      SpaceExactly(config, d, |s.bytes|, env.scan);
    }
  }

  /** Every creation from bytes: only a body from the threshold on goes to disk, and only with the cache enabled. */
  lemma {:induction false} BytesExactly(config: Config, d: Disk, data: seq<Byte>, env: Env)
    ensures var (o, e) := FromBytes(config, d, data, env);
            var asked := if config.enabled && |data| >= config.threshold then Some(|data|) else None;
            && o == (if asked.None? then InMemory(data)
                     else if Crowded(config, d, asked, env.scan) then NoSpace
                     else if !env.works then Failed
                     else OnDisk(data))
            && e == DiskAfter(config, d, asked, o, env)
  {
    SpaceExactly(config, d, |data|, env.scan);
  }

  /** With the cache disabled a body within the limit is kept in memory, whole, and the disk is not touched. */
  lemma {:induction false} DisabledKeepsInMemory(config: Config, d: Disk, s: Stream, contentLength: int, limit: int,
                                                 env: Env)
    requires !config.enabled && !s.broken && |s.bytes| <= limit
    ensures FromReader(config, d, s, contentLength, limit, env) == (InMemory(s.bytes), d)
    ensures FromBytes(config, d, s.bytes, env) == (InMemory(s.bytes), d)
  {
    CreatedExactly(config, d, s, contentLength, limit, env);
    BytesExactly(config, d, s.bytes, env);
  }

  /**
   * A body is refused for lack of space if and only if it is to go to disk, the cache is enabled and
   * capped, and the usage left after eviction plus the bytes asked for exceeds the cap.
   */
  lemma {:induction false} NoSpaceExactly(config: Config, d: Disk, s: Stream, contentLength: int, limit: int, env: Env)
    ensures var asked := Asked(config, s, contentLength, limit);
            FromReader(config, d, s, contentLength, limit, env).0 == NoSpace <==>
              && config.enabled && config.maxBytes > 0 && asked.Some?
              && RoomMade(config, d, asked.value, env.scan).usage + asked.value > config.maxBytes
  {
    CreatedExactly(config, d, s, contentLength, limit, env);
  }

  /**
   * An accepted body is in memory if and only if the cache is disabled, or no length was announced and
   * it is at most the threshold, or a length below the threshold was and so is the body.
   */
  lemma {:induction false} InMemoryExactly(config: Config, d: Disk, s: Stream, contentLength: int, limit: int, env: Env)
    requires Accepted(FromReader(config, d, s, contentLength, limit, env).0)
    ensures FromReader(config, d, s, contentLength, limit, env).0.InMemory? <==>
              || !config.enabled
              || (contentLength <= 0 && |s.bytes| <= config.threshold)
              || (0 < contentLength < config.threshold && |s.bytes| < config.threshold)
  {
    CreatedExactly(config, d, s, contentLength, limit, env);
  }

  // ----- The room asked for -----

  /** When EnsureDiskCacheSpace evicts nothing: the cache is off or has no cap, or the request fits as it is. */
  lemma {:induction false} SpaceWithoutEviction(config: Config, d: Disk, request: int, scan: Scan)
    ensures !config.enabled ==> !SpaceEnsured(config, d, request, scan) && RoomMade(config, d, request, scan) == d
    ensures config.enabled && (config.maxBytes <= 0 || d.usage + request <= config.maxBytes) ==>
              SpaceEnsured(config, d, request, scan) && RoomMade(config, d, request, scan) == d
    ensures config.maxBytes <= 0 || scan.listing.None? ==> RoomMade(config, d, request, scan) == d
  {
    assert RemovedAll(d, []) == d;
  }
}
