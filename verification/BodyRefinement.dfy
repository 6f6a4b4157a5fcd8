/** Any sequence of operations gets the same replies from either storage: those of the abstract object. */
module BodyRefinement {
  import opened BodySpec
  import opened BodyStorage
  import opened DiskCache
  import opened Options

  /** Buffers are non-empty: the two back-ends answer an empty one differently at the end of the data. */
  predicate Buffered(op: Op) {
    (op.Read? ==> op.n > 0) && (op.ReadFrom? ==> op.n > 0)
  }

  predicate AllBuffered(ops: seq<Op>) {
    forall i :: 0 <= i < |ops| ==> Buffered(ops[i])
  }

  lemma StepOnward(s: System, ops: seq<Op>, i: nat)
    requires i < |ops|
    ensures After(s, ops[..i + 1]) == Step(After(s, ops[..i]), ops[i]).0
    ensures Replies(s, ops[..i + 1]) == Replies(s, ops[..i]) + [Step(After(s, ops[..i]), ops[i]).1]
  {
    assert ops[..i + 1][..i] == ops[..i];
  }

  // ----- Memory -----

  /** The readers are distinct objects, none of them the storage's own, and stand where `cursors` says. */
  ghost predicate MemoryReaders(m: MemoryStorage, readers: seq<BytesReader>, cursors: seq<Cursor>)
    reads readers
  {
    && |readers| == |cursors|
    && (forall k :: 0 <= k < |readers| ==> readers[k] != m.reader && readers[k].Cur() == cursors[k])
    && (forall j, k :: 0 <= j < k < |readers| ==> readers[j] != readers[k])
  }

  method MemoryStep(m: MemoryStorage, readers: seq<BytesReader>, op: Op, ghost s: System)
    returns (now: seq<BytesReader>, reply: Reply)
    requires m.Valid() && m.State() == s.body && MemoryReaders(m, readers, s.readers)
    modifies m, m.reader, readers, m.cache`memoryBuffers, m.cache`memoryUsage
    ensures m.State() == Step(s, op).0.body && reply == Step(s, op).1
    ensures MemoryReaders(m, now, Step(s, op).0.readers)
    ensures forall k :: 0 <= k < |now| ==> now[k] in readers || fresh(now[k])
    ensures m.cache.memoryBuffers == old(m.cache.memoryBuffers) - (if m.closed && !s.body.closed then 1 else 0)
    ensures m.cache.memoryUsage == old(m.cache.memoryUsage) - (if m.closed && !s.body.closed then |m.data| else 0)
  {
    now := readers;
    match op {
      case Read(n) => reply := m.Read(n);
      case Seek(offset, whence) => reply := m.Seek(offset, whence);
      case GetBytes => reply := m.GetBytes();
      case Close => reply := m.Close();
      case NewReader =>
        var handle;
        handle, reply := m.NewReader();
        if handle.Some? { now := readers + [handle.value]; }
      case ReadFrom(r, n) =>
        if r >= |readers| { return readers, NoSuchReader; }
        reply := readers[r].Read(n);
    }
  }

  /** A memory storage answers every sequence of operations as the abstract object does, and is uncounted once. */
  method DriveMemory(m: MemoryStorage, ops: seq<Op>) returns (replies: seq<Reply>)
    requires m.Valid()
    modifies m, m.reader, m.cache`memoryBuffers, m.cache`memoryUsage
    ensures replies == Replies(System(old(m.State()), []), ops)
    ensures m.State() == After(System(old(m.State()), []), ops).body
    ensures m.cache.memoryBuffers == old(m.cache.memoryBuffers) - (if m.closed && !old(m.closed) then 1 else 0)
    ensures m.cache.memoryUsage == old(m.cache.memoryUsage) - (if m.closed && !old(m.closed) then |m.data| else 0)
  {
    ghost var start := System(m.State(), []);
    var readers: seq<BytesReader> := [];
    replies := [];
    for i := 0 to |ops|
      invariant m.State() == After(start, ops[..i]).body && replies == Replies(start, ops[..i])
      invariant MemoryReaders(m, readers, After(start, ops[..i]).readers)
      invariant forall k :: 0 <= k < |readers| ==> fresh(readers[k])
      invariant old(m.closed) ==> m.closed
      invariant m.cache.memoryBuffers == old(m.cache.memoryBuffers) - (if m.closed && !old(m.closed) then 1 else 0)
      invariant m.cache.memoryUsage == old(m.cache.memoryUsage) - (if m.closed && !old(m.closed) then |m.data| else 0)
    {
      var reply;
      readers, reply := MemoryStep(m, readers, ops[i], After(start, ops[..i]));
      replies := replies + [reply];
      StepOnward(start, ops, i);
    }
    assert ops[..|ops|] == ops;
  }

  // ----- Disk -----

  ghost predicate DiskReaders(d: DiskStorage, readers: seq<FileHandle>, cursors: seq<Cursor>)
    reads readers
  {
    && |readers| == |cursors|
    && (forall k :: 0 <= k < |readers| ==> readers[k] != d.file && readers[k].Cur() == cursors[k])
    && (forall j, k :: 0 <= j < k < |readers| ==> readers[j] != readers[k])
  }

  method DiskStep(d: DiskStorage, readers: seq<FileHandle>, op: Op, ghost s: System)
    returns (now: seq<FileHandle>, reply: Reply)
    requires d.Valid() && d.State() == s.body && DiskReaders(d, readers, s.readers)
    requires Buffered(op) && (d.closed || d.path in d.cache.dir)
    modifies d, d.file, readers, d.cache`dir, d.cache`usage, d.cache`files
    ensures d.Valid() && d.State() == Step(s, op).0.body && reply == Step(s, op).1
    ensures DiskReaders(d, now, Step(s, op).0.readers)
    ensures forall k :: 0 <= k < |now| ==> now[k] in readers || fresh(now[k])
    ensures d.closed || d.path in d.cache.dir
    ensures d.cache.OnDisk() == if d.closed && !s.body.closed
                                then Discarded(old(d.cache.OnDisk()), d.path, d.size, false)
                                else old(d.cache.OnDisk())
  {
    now := readers;
    match op {
      case Read(n) => reply := d.Read(n);
      case Seek(offset, whence) => reply := d.Seek(offset, whence);
      case GetBytes => reply := d.GetBytes();
      case Close => reply := d.Close(false);
      case NewReader =>
        var handle;
        handle, reply := d.NewReader();
        if handle.Some? { now := readers + [handle.value]; }
      case ReadFrom(r, n) =>
        if r >= |readers| { return readers, NoSuchReader; }
        reply := readers[r].Read(n);
    }
  }

  /** So does a disk storage whose file is not evicted; its file and its count go once. */
  method DriveDisk(d: DiskStorage, ops: seq<Op>) returns (replies: seq<Reply>)
    requires d.Valid() && AllBuffered(ops) && (d.closed || d.path in d.cache.dir)
    modifies d, d.file, d.cache`dir, d.cache`usage, d.cache`files
    ensures replies == Replies(System(old(d.State()), []), ops)
    ensures d.State() == After(System(old(d.State()), []), ops).body
    ensures d.cache.OnDisk() == if d.closed && !old(d.closed)
                                then Discarded(old(d.cache.OnDisk()), d.path, d.size, false)
                                else old(d.cache.OnDisk())
  {
    ghost var start := System(d.State(), []);
    var readers: seq<FileHandle> := [];
    replies := [];
    for i := 0 to |ops|
      invariant d.Valid() && (d.closed || d.path in d.cache.dir)
      invariant d.State() == After(start, ops[..i]).body && replies == Replies(start, ops[..i])
      invariant DiskReaders(d, readers, After(start, ops[..i]).readers)
      invariant forall k :: 0 <= k < |readers| ==> fresh(readers[k])
      invariant old(d.closed) ==> d.closed
      invariant d.cache.OnDisk() == if d.closed && !old(d.closed)
                                    then Discarded(old(d.cache.OnDisk()), d.path, d.size, false)
                                    else old(d.cache.OnDisk())
    {
      var reply;
      readers, reply := DiskStep(d, readers, ops[i], After(start, ops[..i]));
      replies := replies + [reply];
      StepOnward(start, ops, i);
    }
    assert ops[..|ops|] == ops;
  }

  /** Two storages holding the same bytes cannot be told apart. */
  method DriveBoth(m: MemoryStorage, d: DiskStorage, ops: seq<Op>)
    returns (fromMemory: seq<Reply>, fromDisk: seq<Reply>)
    requires m.Valid() && d.Valid() && m.State() == d.State()
    requires AllBuffered(ops) && (d.closed || d.path in d.cache.dir)
    modifies m, m.reader, m.cache, d, d.file, d.cache
    ensures fromMemory == fromDisk && m.State() == d.State()
  {
    fromMemory := DriveMemory(m, ops);
    fromDisk := DriveDisk(d, ops);
  }

  /** The one difference: an empty buffer, exactly at or beyond the end of an open storage. */
  method EmptyBufferDiffers(m: MemoryStorage, d: DiskStorage) returns (same: bool)
    requires m.Valid() && d.Valid() && m.State() == d.State()
    modifies m.reader, d.file
    ensures same <==> m.closed || m.State().cursor.pos < |m.data|
  {
    var fromMemory := m.Read(0);
    var fromDisk := d.Read(0);
    same := fromMemory == fromDisk;
  }
}
