/** The two body storages, each proved to be the abstract object of BodySpec. */
module BodyStorage {
  import opened Bytes
  import opened Options
  import opened BodySpec
  import opened DiskCache

  /** A reader over a byte slice. */
  class BytesReader {
    const bytes: seq<Byte>
    var pos: nat

    constructor (bytes: seq<Byte>)
      ensures Cur() == Cursor(bytes, 0)
    {
      this.bytes := bytes;
      pos := 0;
    }

    function Cur(): Cursor
      reads this
    {
      Cursor(bytes, pos)
    }

    method Read(n: nat) returns (reply: Reply)
      modifies this
      ensures (Cur(), reply) == ReadSome(old(Cur()), n)
    {
      if pos >= |bytes| { return EndOfFile; }
      var next := if pos + n <= |bytes| then pos + n else |bytes|;
      reply := Data(bytes[pos..next]);
      pos := next;
    }

    method Seek(offset: int, whence: Whence) returns (reply: Reply)
      modifies this
      ensures (Cur(), reply) == Moved(old(Cur()), offset, whence)
    {
      var to := match whence case FromStart => offset case FromCurrent => pos + offset case FromEnd => |bytes| + offset;
      if to < 0 { return BadOffset; }
      pos := to;
      reply := At(to);
    }
  }

  /**
   * A descriptor of a cache file.  The file is complete before anyone reads it, and the descriptor
   * keeps its contents alive when the file is unlinked.
   */
  class FileHandle {
    const bytes: seq<Byte>
    var pos: nat

    constructor (bytes: seq<Byte>)
      ensures Cur() == Cursor(bytes, 0)
    {
      this.bytes := bytes;
      pos := 0;
    }

    function Cur(): Cursor
      reads this
    {
      Cursor(bytes, pos)
    }

    /** An empty buffer is answered with no bytes even at the end of the file. */
    method Read(n: nat) returns (reply: Reply)
      modifies this
      ensures (Cur(), reply) == if n == 0 then (old(Cur()), Data([])) else ReadSome(old(Cur()), n)
    {
      if n == 0 { return Data([]); }
      if pos >= |bytes| { return EndOfFile; }
      var next := if pos + n <= |bytes| then pos + n else |bytes|;
      reply := Data(bytes[pos..next]);
      pos := next;
    }

    method Seek(offset: int, whence: Whence) returns (reply: Reply)
      modifies this
      ensures (Cur(), reply) == Moved(old(Cur()), offset, whence)
    {
      var base := match whence case FromStart => 0 case FromCurrent => pos case FromEnd => |bytes|;
      if base + offset < 0 { return BadOffset; }
      pos := base + offset;
      reply := At(pos);
    }

    /** io.ReadFull: reads until `size` bytes have come or the file ends. */
    method ReadFull(size: nat) returns (data: seq<Byte>, full: bool)
      modifies this
      ensures full <==> |data| == size
      ensures old(pos) + size <= |bytes| ==> full && data == bytes[old(pos)..old(pos) + size]
    {
      data := [];
      while |data| < size
        invariant |data| <= size && pos == old(pos) + |data|
        invariant old(pos) <= |bytes| ==> pos <= |bytes| && data == bytes[old(pos)..pos]
      {
        var reply := Read(size - |data|);
        if reply.EndOfFile? { return data, false; }
        data := data + reply.bytes;
      }
      full := true;
    }
  }

  class MemoryStorage {
    const data: seq<Byte>
    const size: int
    const reader: BytesReader
    const cache: Cache
    var closed: bool

    constructor (data: seq<Byte>, cache: Cache)
      modifies cache`memoryBuffers, cache`memoryUsage
      ensures Valid() && State() == Body(Cursor(data, 0), false) && this.cache == cache && fresh(reader)
      ensures cache.memoryBuffers == old(cache.memoryBuffers) + 1
      ensures cache.memoryUsage == old(cache.memoryUsage) + |data|
    {
      this.data := data;
      this.cache := cache;
      size := |data|;
      reader := new BytesReader(data);
      closed := false;
      new;
      cache.IncrementMemoryBuffers(size);
    }

    ghost predicate Valid() {
      reader.bytes == data && size == |data|
    }

    function State(): Body
      reads this, reader
    {
      Body(reader.Cur(), closed)
    }

    method Read(n: nat) returns (reply: Reply)
      requires Valid()
      modifies reader
      ensures (State(), reply) == OnBody(old(State()), Op.Read(n))
    {
      if closed { return StorageClosed; }
      reply := reader.Read(n);
    }

    method Seek(offset: int, whence: Whence) returns (reply: Reply)
      requires Valid()
      modifies reader
      ensures (State(), reply) == OnBody(old(State()), Op.Seek(offset, whence))
    {
      if closed { return StorageClosed; }
      reply := reader.Seek(offset, whence);
    }

    method GetBytes() returns (reply: Reply)
      requires Valid()
      ensures (State(), reply) == OnBody(State(), Op.GetBytes)
    {
      if closed { return StorageClosed; }
      reply := Data(data);
    }

    method NewReader() returns (handle: Option<BytesReader>, reply: Reply)
      requires Valid()
      ensures (State(), reply) == OnBody(State(), Op.NewReader)
      ensures handle.Some? <==> !closed
      ensures handle.Some? ==> fresh(handle.value) && handle.value.Cur() == Cursor(data, 0)
    {
      if closed { return None, StorageClosed; }
      var r := new BytesReader(data);
      return Some(r), Done;
    }

    /** The counters drop by this storage on the first Close and never again. */
    method Close() returns (reply: Reply)
      requires Valid()
      modifies this, cache`memoryBuffers, cache`memoryUsage
      ensures (State(), reply) == OnBody(old(State()), Op.Close)
      ensures cache.memoryBuffers == old(cache.memoryBuffers) - (if old(closed) then 0 else 1)
      ensures cache.memoryUsage == old(cache.memoryUsage) - (if old(closed) then 0 else |data|)
    {
      if !closed {
        closed := true;
        cache.DecrementMemoryBuffers(size);
      }
      reply := Done;
    }
  }

  class DiskStorage {
    const file: FileHandle
    const path: Name
    const size: nat
    const cache: Cache
    var closed: bool

    /** Takes over a file already written to the cache directory. */
    constructor (path: Name, cache: Cache)
      requires path in cache.dir
      ensures Valid() && State() == Body(Cursor(cache.dir[path].data, 0), false) && fresh(file)
      ensures this.cache == cache && this.path == path
    {
      this.path := path;
      this.cache := cache;
      size := |cache.dir[path].data|;
      file := new FileHandle(cache.dir[path].data);
      closed := false;
    }

    /** As long as the file is in the directory it is the one the descriptor shows. */
    ghost predicate Valid()
      reads this, cache
    {
      size == |file.bytes| && (!closed && path in cache.dir ==> cache.dir[path].data == file.bytes)
    }

    function State(): Body
      reads this, file
    {
      Body(file.Cur(), closed)
    }

    method Read(n: nat) returns (reply: Reply)
      requires Valid()
      modifies file
      ensures Valid()
      ensures n > 0 || closed ==> (State(), reply) == OnBody(old(State()), Op.Read(n))
      ensures n == 0 && !closed ==> State() == old(State()) && reply == Data([])
    {
      if closed { return StorageClosed; }
      reply := file.Read(n);
    }

    method Seek(offset: int, whence: Whence) returns (reply: Reply)
      requires Valid()
      modifies file
      ensures Valid() && (State(), reply) == OnBody(old(State()), Op.Seek(offset, whence))
    {
      if closed { return StorageClosed; }
      reply := file.Seek(offset, whence);
    }

    /** Reads the whole file through the shared descriptor and puts the cursor back. */
    method GetBytes() returns (reply: Reply)
      requires Valid()
      modifies file
      ensures Valid() && (State(), reply) == OnBody(old(State()), Op.GetBytes)
    {
      if closed { return StorageClosed; }
      var current := file.Seek(0, FromCurrent);
      if current.BadOffset? { return current; }
      var start := file.Seek(0, FromStart);
      if start.BadOffset? { return start; }
      var data, full := file.ReadFull(size);
      assert file.bytes[0..size] == file.bytes;
      if !full { return EndOfFile; }
      var back := file.Seek(current.pos, FromStart);
      if back.BadOffset? { return back; }
      reply := Data(data);
    }

    /** A descriptor of its own, unless the file has been evicted. */
    method NewReader() returns (handle: Option<FileHandle>, reply: Reply)
      requires Valid()
      ensures closed || path in cache.dir ==> (State(), reply) == OnBody(State(), Op.NewReader)
      ensures handle.Some? <==> !closed && path in cache.dir
      ensures handle.Some? ==> fresh(handle.value) && handle.value.Cur() == Cursor(file.bytes, 0)
      ensures !closed && path !in cache.dir ==> reply == OpenFailed
    {
      if closed { return None, StorageClosed; }
      if path !in cache.dir { return None, OpenFailed; }
      var r := new FileHandle(cache.dir[path].data);
      return Some(r), Done;
    }

    /** The file goes and the counters drop on the first Close only; `stuck` is a removal that fails. */
    method Close(stuck: bool) returns (reply: Reply)
      requires Valid()
      modifies this, cache`dir, cache`usage, cache`files
      ensures Valid() && (State(), reply) == OnBody(old(State()), Op.Close)
      ensures cache.OnDisk() == if old(closed) then old(cache.OnDisk())
              else Discarded(old(cache.OnDisk()), path, size, stuck)
    {
      if !closed {
        closed := true;
        if !stuck { cache.dir := cache.dir - {path}; }
        cache.DecrementDiskFiles(size);
      }
      reply := Done;
    }
  }
}
