/** What eviction removes, what it leaves, and when making room for a request succeeds. */
module DiskCacheLaws {
  import opened Options
  import opened DiskCache

  // ----- Sums over a directory -----

  lemma {:induction false} TotalRemove(dir: Directory, n: Name)
    requires n in dir
    ensures Total(dir) == |dir[n].data| + Total(dir - {n})
  {
    var m :| m in dir && Total(dir) == |dir[m].data| + Total(dir - {m});
    if m != n {
      TotalRemove(dir - {m}, n);
      TotalRemove(dir - {n}, m);
      assert dir - {m} - {n} == dir - {n} - {m};
    }
  }

  lemma TotalInsert(dir: Directory, n: Name, f: File)
    requires n !in dir
    ensures Total(dir[n := f]) == Total(dir) + |f.data|
  {
    TotalRemove(dir[n := f], n);
    assert dir[n := f] - {n} == dir;
  }

  lemma {:induction false} TotalSubmap(small: Directory, big: Directory)
    requires small.Keys <= big.Keys && forall n :: n in small ==> small[n] == big[n]
    ensures Total(small) <= Total(big)
  {
    if small != map[] {
      var n :| n in small;
      TotalRemove(small, n);
      TotalRemove(big, n);
      TotalSubmap(small - {n}, big - {n});
    }
  }

  lemma {:induction false} CardinalityRemove(dir: Directory, n: Name)
    requires n in dir
    ensures |dir - {n}| == |dir| - 1
  {
    assert (dir - {n}).Keys == dir.Keys - {n};
  }

  lemma {:induction false} SizeSnoc(files: seq<Entry>, i: nat)
    requires i < |files|
    ensures SizeFrom(files, i) == SizeFrom(files[..|files| - 1], i) + files[|files| - 1].size
    decreases |files| - i
  {
    if i + 1 < |files| { SizeSnoc(files, i + 1); }
  }

  // ----- Removing a list of files -----

  lemma {:induction false} RemovedAllDirectory(d: Disk, victims: seq<Entry>)
    ensures RemovedAll(d, victims).dir == d.dir - Names(victims)
  {
    if victims != [] {
      var front, e := victims[..|victims| - 1], victims[|victims| - 1];
      RemovedAllDirectory(d, front);
      assert Names(victims) == Names(front) + {e.name};
    }
  }

  lemma {:induction false} RemovedAllCounters(d: Disk, victims: seq<Entry>)
    requires d.usage >= 0 && d.files >= 0
    ensures RemovedAll(d, victims).usage == Clamp(d.usage - SizeFrom(victims, 0))
    ensures RemovedAll(d, victims).files == Clamp(d.files - |victims|)
  {
    if victims != [] {
      RemovedAllCounters(d, victims[..|victims| - 1]);
      SizeSnoc(victims, 0);
    }
  }

  /** The last of the victims is still there when its turn comes. */
  lemma {:induction false} LastIsLeft(dir: Directory, victims: seq<Entry>)
    requires Describes(dir, victims) && victims != []
    ensures var e := victims[|victims| - 1];
            var rest := dir - Names(victims[..|victims| - 1]);
            e.name in rest && |rest[e.name].data| == e.size && dir - Names(victims) == rest - {e.name}
  {
    var front, e := victims[..|victims| - 1], victims[|victims| - 1];
    assert Lists(dir, e);
    assert e.name !in Names(front);
    assert Names(victims) == Names(front) + {e.name};
  }

  lemma {:induction false} TotalMinus(dir: Directory, victims: seq<Entry>)
    requires Describes(dir, victims)
    ensures Total(dir - Names(victims)) == Total(dir) - SizeFrom(victims, 0)
    ensures |dir - Names(victims)| == |dir| - |victims|
  {
    if victims == [] {
      assert dir - Names(victims) == dir;
    } else {
      var front, e := victims[..|victims| - 1], victims[|victims| - 1];
      TotalMinus(dir, front);
      SizeSnoc(victims, 0);
      LastIsLeft(dir, victims);
      TotalRemove(dir - Names(front), e.name);
      CardinalityRemove(dir - Names(front), e.name);
    }
  }

  /** Removing files of the directory takes their bytes off the disk and, down to zero, off the counters. */
  lemma {:induction false} RemovedAllMeaning(d: Disk, victims: seq<Entry>)
    requires Describes(d.dir, victims) && d.usage >= 0 && d.files >= 0
    ensures var r := RemovedAll(d, victims);
            && r.dir == d.dir - Names(victims)
            && Total(r.dir) == Total(d.dir) - SizeFrom(victims, 0) && |r.dir| == |d.dir| - |victims|
            && r.usage == Clamp(d.usage - SizeFrom(victims, 0)) && r.files == Clamp(d.files - |victims|)
  {
    RemovedAllDirectory(d, victims);
    RemovedAllCounters(d, victims);
    TotalMinus(d.dir, victims);
  }

  // ----- Whatever refuses to go, only stale files are removed -----

  /** `gone` and what is still ahead of the loop are files of the directory, each once. */
  ghost predicate Underway(dir: Directory, gone: seq<Entry>, files: seq<Entry>, i: nat) {
    && i <= |files| && Describes(dir, files) && Describes(dir, gone)
    && forall g, k :: 0 <= g < |gone| && i <= k < |files| ==> gone[g].name != files[k].name
  }

  ghost predicate OlderThan(files: seq<Entry>, age: int, now: int) {
    forall i :: 0 <= i < |files| ==> now - files[i].modTime >= age
  }

  lemma {:induction false} UnderwayTake(dir: Directory, gone: seq<Entry>, files: seq<Entry>, i: nat)
    requires Underway(dir, gone, files, i) && i < |files|
    ensures Underway(dir, gone + [files[i]], files, i + 1)
  {
  }

  lemma {:induction false} EvicteesAreStale(dir: Directory, gone: seq<Entry>, files: seq<Entry>, i: nat, total: int,
                                            room: int,
                                            window: int, now: int, stuck: set<Name>)
    requires Underway(dir, gone, files, i) && OlderThan(gone, window, now)
    ensures var es := Evictees(gone, files, i, total, room, window, now, stuck);
            Describes(dir, es) && OlderThan(es, window, now)
    decreases |files| - i
  {
    if i == |files| || total <= room || now - files[i].modTime < window {
    } else if files[i].name in stuck {
      EvicteesAreStale(dir, gone, files, i + 1, total, room, window, now, stuck);
    } else {
      UnderwayTake(dir, gone, files, i);
      EvicteesAreStale(dir, gone + [files[i]], files, i + 1, total - files[i].size, room, window, now, stuck);
    }
  }

  lemma {:induction false} ExpiredAreOld(dir: Directory, gone: seq<Entry>, files: seq<Entry>, i: nat, maxAge: int,
                                         now: int, stuck: set<Name>)
    requires Underway(dir, gone, files, i) && OlderThan(gone, maxAge + 1, now)
    ensures var es := Expired(gone, files, i, maxAge, now, stuck);
            Describes(dir, es) && OlderThan(es, maxAge + 1, now)
    decreases |files| - i
  {
    if i == |files| {
    } else if now - files[i].modTime > maxAge && files[i].name !in stuck {
      UnderwayTake(dir, gone, files, i);
      ExpiredAreOld(dir, gone + [files[i]], files, i + 1, maxAge, now, stuck);
    } else {
      ExpiredAreOld(dir, gone, files, i + 1, maxAge, now, stuck);
    }
  }

  lemma VictimsDescribed(dir: Directory, config: Config, window: int, reserve: int, scan: Scan)
    requires Faithful(dir, scan)
    ensures Describes(dir, Victims(config, window, reserve, scan))
    ensures OlderThan(Victims(config, window, reserve, scan), window, scan.now)
  {
    if config.maxBytes > 0 && scan.listing.Some? {
      var files := scan.listing.value;
      EvicteesAreStale(dir, [], files, 0, SizeFrom(files, 0), config.maxBytes - reserve, window, scan.now, scan.stuck);
    }
  }

  predicate Goes(e: Entry, maxAge: int, now: int, stuck: set<Name>) {
    now - e.modTime > maxAge && e.name !in stuck
  }

  lemma NamesSnoc(files: seq<Entry>, e: Entry)
    ensures Names(files + [e]) == Names(files) + {e.name}
  {
    assert (files + [e])[|files|] == e;
    forall i | 0 <= i < |files| ensures files[i].name in Names(files + [e]) {
      assert (files + [e])[i] == files[i];
    }
  }

  lemma {:induction false} ExpiredNames(gone: seq<Entry>, files: seq<Entry>, i: nat, maxAge: int, now: int,
                                        stuck: set<Name>)
    requires i <= |files|
    ensures forall n :: n in Names(Expired(gone, files, i, maxAge, now, stuck)) <==>
                          || n in Names(gone)
                          || exists k :: i <= k < |files| && files[k].name == n && Goes(files[k], maxAge, now, stuck)
    decreases |files| - i
  {
    if i < |files| {
      if Goes(files[i], maxAge, now, stuck) {
        NamesSnoc(gone, files[i]);
        ExpiredNames(gone + [files[i]], files, i + 1, maxAge, now, stuck);
      } else {
        ExpiredNames(gone, files, i + 1, maxAge, now, stuck);
      }
    }
  }

  /** Age cleaning removes exactly the files older than the limit that can be removed. */
  lemma CleanedExactly(d: Disk, maxAge: int, scan: Scan)
    requires Faithful(d.dir, scan) && scan.listing.Some?
    ensures forall n :: n in d.dir ==>
            (n in Cleaned(d, maxAge, scan).dir <==> scan.now - d.dir[n].modTime <= maxAge || n in scan.stuck)
  {
    var files := scan.listing.value;
    ExpiredNames([], files, 0, maxAge, scan.now, scan.stuck);
    RemovedAllDirectory(d, Expired([], files, 0, maxAge, scan.now, scan.stuck));
    forall n | n in d.dir
      ensures n in Cleaned(d, maxAge, scan).dir <==> scan.now - d.dir[n].modTime <= maxAge || n in scan.stuck
    {
      assert n in Names(files);
      var k :| 0 <= k < |files| && files[k].name == n;
      assert Lists(d.dir, files[k]);
      assert Goes(files[k], maxAge, scan.now, scan.stuck) <==> scan.now - d.dir[n].modTime > maxAge && n !in scan.stuck;
    }
  }

  // ----- The counters against the directory -----

  /** The usage counter never goes negative nor above the bytes really there. */
  ghost predicate TracksBytes(d: Disk) {
    0 <= d.usage <= Total(d.dir) && 0 <= d.files
  }

  /** Nor does the file counter. */
  ghost predicate Tracks(d: Disk) {
    TracksBytes(d) && d.files <= |d.dir|
  }

  ghost predicate Exact(d: Disk) {
    d.usage == Total(d.dir)
  }

  /** From `d` to `e` files only disappear. */
  ghost predicate Shrinks(d: Disk, e: Disk) {
    e.dir.Keys <= d.dir.Keys && forall n :: n in e.dir ==> e.dir[n] == d.dir[n]
  }

  /** From `d` to `e` files disappear and the counters follow. */
  ghost predicate Follows(d: Disk, e: Disk) {
    && TracksBytes(e) && (Tracks(d) ==> Tracks(e)) && Shrinks(d, e)
    && e.usage <= d.usage && (Exact(d) ==> Exact(e))
  }

  lemma {:induction false} RemovalKeeps(d: Disk, victims: seq<Entry>)
    requires Describes(d.dir, victims) && TracksBytes(d)
    ensures Follows(d, RemovedAll(d, victims))
  {
    RemovedAllMeaning(d, victims);
    TotalMinus(d.dir, victims);
    RemovedAllDirectory(d, victims);
    ClampedBelow(d.usage, Total(d.dir), SizeFrom(victims, 0));
    ClampedBelow(d.files, |d.dir|, |victims|);
  }

  /** A counter at or below a total stays so, and equal if it was, when both lose the same. */
  lemma {:induction false} ClampedBelow(counter: int, total: int, loss: int)
    requires 0 <= counter && 0 <= loss <= total
    ensures 0 <= Clamp(counter - loss) <= counter
    ensures counter <= total ==> Clamp(counter - loss) <= total - loss
    ensures counter == total ==> Clamp(counter - loss) == total - loss
  {
  }

  lemma {:induction false} EnforcedKeeps(config: Config, d: Disk, window: int, reserve: int, scan: Scan)
    requires Faithful(d.dir, scan) && TracksBytes(d)
    ensures Follows(d, Enforced(config, d, window, reserve, scan))
  {
    VictimsDescribed(d.dir, config, window, reserve, scan);
    RemovalKeeps(d, Victims(config, window, reserve, scan));
  }

  lemma {:induction false} CleanedKeeps(d: Disk, maxAge: int, scan: Scan)
    requires Faithful(d.dir, scan) && TracksBytes(d)
    ensures Follows(d, Cleaned(d, maxAge, scan))
  {
    if scan.listing.Some? {
      ExpiredAreOld(d.dir, [], scan.listing.value, 0, maxAge, scan.now, scan.stuck);
      RemovalKeeps(d, Expired([], scan.listing.value, 0, maxAge, scan.now, scan.stuck));
    }
  }

  lemma {:induction false} RoomKeeps(config: Config, d: Disk, request: int, scan: Scan)
    requires Faithful(d.dir, scan) && TracksBytes(d)
    ensures Follows(d, RoomMade(config, d, request, scan))
  {
    EnforcedKeeps(config, d, SAFE_WINDOW, request, scan);
  }

  // ----- With every removal succeeding: the shortest oldest-first prefix -----

  /** The loop stops at `k`: nothing left, enough room, or a file inside the safe window. */
  predicate StopsAt(files: seq<Entry>, k: nat, room: int, window: int, now: int)
    requires k <= |files|
  {
    k == |files| || SizeFrom(files, k) <= room || now - files[k].modTime < window
  }

  lemma {:induction false} EvicteesArePrefix(files: seq<Entry>, i: nat, room: int, window: int, now: int)
    returns (k: nat)
    requires i <= |files|
    ensures i <= k <= |files| && StopsAt(files, k, room, window, now)
    ensures forall j :: i <= j < k ==> !StopsAt(files, j, room, window, now)
    ensures Evictees(files[..i], files, i, SizeFrom(files, i), room, window, now, {}) == files[..k]
    decreases |files| - i
  {
    if StopsAt(files, i, room, window, now) {
      k := i;
    } else {
      assert files[..i] + [files[i]] == files[..i + 1];
      k := EvicteesArePrefix(files, i + 1, room, window, now);
    }
  }

  lemma {:induction false} ListingTotal(dir: Directory, files: seq<Entry>)
    requires Describes(dir, files) && Names(files) == dir.Keys
    ensures SizeFrom(files, 0) == Total(dir) && |files| == |dir|
  {
    TotalMinus(dir, files);
    assert dir - Names(files) == map[];
  }

  lemma {:induction false} SizeSplit(files: seq<Entry>, k: nat)
    requires k <= |files|
    ensures SizeFrom(files, 0) == SizeFrom(files[..k], 0) + SizeFrom(files, k)
    decreases |files| - k
  {
    if k == |files| {
      assert files[..k] == files;
    } else {
      SizeSplit(files, k + 1);
      SizeSnoc(files[..k + 1], 0);
      assert files[..k + 1][..k] == files[..k];
    }
  }

  /**
   * Eviction removes exactly the k oldest files, where every shorter prefix leaves too much and no
   * removed file is inside the window, and it stops fitting or with only in-window files left.
   */
  lemma {:induction false} EvictsShortestPrefix(d: Disk, config: Config, window: int, reserve: int, scan: Scan)
    returns (k: nat)
    requires config.maxBytes > 0 && scan.listing.Some? && Faithful(d.dir, scan) && scan.stuck == {}
    ensures var files, left := scan.listing.value, Enforced(config, d, window, reserve, scan).dir;
            && k <= |files| && left == d.dir - Names(files[..k])
            && Total(left) == SizeFrom(files, k)
            && OlderThan(files[..k], window, scan.now)
            && (forall j :: 0 <= j < k ==> SizeFrom(files, j) + reserve > config.maxBytes)
            && (|| Total(left) + reserve <= config.maxBytes
                || forall n :: n in left ==> scan.now - left[n].modTime < window)
  {
    var files, room := scan.listing.value, config.maxBytes - reserve;
    k := EvicteesArePrefix(files, 0, room, window, scan.now);
    assert files[..0] == [];
    RemovedAllDirectory(d, files[..k]);
    PrefixTotal(d.dir, files, k);
    PrefixStale(files, k, room, window, scan.now);
    LeftInWindow(d.dir, files, k, room, window, scan.now);
  }

  lemma PrefixStale(files: seq<Entry>, k: nat, room: int, window: int, now: int)
    requires k <= |files| && forall j :: 0 <= j < k ==> !StopsAt(files, j, room, window, now)
    ensures OlderThan(files[..k], window, now)
    ensures forall j :: 0 <= j < k ==> SizeFrom(files, j) > room
  {
    forall j | 0 <= j < k ensures now - files[..k][j].modTime >= window && SizeFrom(files, j) > room {
      assert !StopsAt(files, j, room, window, now);
    }
  }

  lemma PrefixTotal(dir: Directory, files: seq<Entry>, k: nat)
    requires Listing(dir, files) && k <= |files|
    ensures Total(dir - Names(files[..k])) == SizeFrom(files, k)
  {
    ListingTotal(dir, files);
    SizeSplit(files, k);
    TotalMinus(dir, files[..k]);
  }

  lemma {:induction false} NamesOfPrefix(files: seq<Entry>, k: nat)
    requires k <= |files|
    ensures forall n :: n in Names(files[..k]) <==> exists i :: 0 <= i < k && files[i].name == n
  {
    forall i | 0 <= i < k ensures files[i].name in Names(files[..k]) {
      assert files[..k][i] == files[i];
    }
  }

  /** What a removed prefix leaves is the rest of the listing. */
  lemma {:induction false} LeftAfter(dir: Directory, files: seq<Entry>, k: nat)
    requires Listing(dir, files) && k <= |files|
    ensures forall n :: n in dir - Names(files[..k]) <==> exists i :: k <= i < |files| && files[i].name == n
  {
    NamesOfPrefix(files, k);
    forall n | n in dir - Names(files[..k]) ensures exists i :: k <= i < |files| && files[i].name == n {
      assert n in Names(files);
    }
  }

  lemma {:induction false} LeftInWindow(dir: Directory, files: seq<Entry>, k: nat, room: int, window: int, now: int)
    requires Listing(dir, files) && k <= |files| && StopsAt(files, k, room, window, now)
    ensures SizeFrom(files, k) <= room || forall n :: n in dir - Names(files[..k]) ==> now - dir[n].modTime < window
  {
    LeftAfter(dir, files, k);
    forall n | n in dir - Names(files[..k]) && SizeFrom(files, k) > room ensures now - dir[n].modTime < window {
      var i :| k <= i < |files| && files[i].name == n;
      assert Lists(dir, files[i]);
    }
  }

  // ----- With files that refuse to go -----

  /** The bytes of the first k entries that can be removed. */
  function Freed(files: seq<Entry>, k: nat, stuck: set<Name>): nat
    requires k <= |files|
  {
    if k == 0 then 0 else Freed(files, k - 1, stuck) + if files[k - 1].name in stuck then 0 else files[k - 1].size
  }

  /** The first k entries that can be removed. */
  function Removable(files: seq<Entry>, k: nat, stuck: set<Name>): seq<Entry>
    requires k <= |files|
  {
    if k == 0 then []
    else if files[k - 1].name in stuck then Removable(files, k - 1, stuck)
    else Removable(files, k - 1, stuck) + [files[k - 1]]
  }

  /** The loop goes on at j: too much is left, and the file is outside the window. */
  predicate GoesOn(files: seq<Entry>, j: nat, room: int, window: int, now: int, stuck: set<Name>)
    requires j < |files|
  {
    SizeFrom(files, 0) - Freed(files, j, stuck) > room && now - files[j].modTime >= window
  }

  lemma {:induction false} EvicteesExactly(files: seq<Entry>, i: nat, room: int, window: int, now: int,
                                           stuck: set<Name>) returns (k: nat)
    requires i <= |files|
    ensures i <= k <= |files| && (k < |files| ==> !GoesOn(files, k, room, window, now, stuck))
    ensures forall j :: i <= j < k ==> GoesOn(files, j, room, window, now, stuck)
    ensures Evictees(Removable(files, i, stuck), files, i, SizeFrom(files, 0) - Freed(files, i, stuck),
                     room, window, now, stuck) == Removable(files, k, stuck)
    decreases |files| - i
  {
    if i == |files| || !GoesOn(files, i, room, window, now, stuck) {
      k := i;
    } else {
      k := EvicteesExactly(files, i + 1, room, window, now, stuck);
    }
  }

  lemma {:induction false} RemovableNames(files: seq<Entry>, k: nat, stuck: set<Name>)
    requires k <= |files|
    ensures forall n :: n in Names(Removable(files, k, stuck)) <==>
                          n !in stuck && exists i :: 0 <= i < k && files[i].name == n
  {
    if k > 0 {
      RemovableNames(files, k - 1, stuck);
      NamesSnoc(Removable(files, k - 1, stuck), files[k - 1]);
    }
  }

  /**
   * Eviction in general: it walks the k oldest files, all outside the window, as long as what is left
   * is too much; it removes those that can be removed, and passes over the others.
   */
  lemma {:induction false} EvictsExactly(d: Disk, config: Config, window: int, reserve: int, scan: Scan)
    returns (k: nat)
    requires config.maxBytes > 0 && scan.listing.Some?
    ensures var files, room, stuck := scan.listing.value, config.maxBytes - reserve, scan.stuck;
            && k <= |files| && (k < |files| ==> !GoesOn(files, k, room, window, scan.now, stuck))
            && forall j :: 0 <= j < k ==> GoesOn(files, j, room, window, scan.now, stuck)
    ensures var files, after := scan.listing.value, Enforced(config, d, window, reserve, scan).dir;
            && (forall n :: n in after <==>
                  n in d.dir && (n in scan.stuck || forall i :: 0 <= i < k ==> files[i].name != n))
            && (forall n :: n in after ==> after[n] == d.dir[n])
  {
    var files := scan.listing.value;
    k := EvicteesExactly(files, 0, config.maxBytes - reserve, window, scan.now, scan.stuck);
    RemovableNames(files, k, scan.stuck);
    RemovedAllDirectory(d, Removable(files, k, scan.stuck));
  }

  /** Nothing is evicted, cleaned or counted again when the directory cannot be read, nor evicted without a cap. */
  lemma {:induction false} UnreadableUnchanged(config: Config, d: Disk, window: int, reserve: int, maxAge: int,
                                               scan: Scan)
    ensures scan.listing.None? || config.maxBytes <= 0 ==> Enforced(config, d, window, reserve, scan) == d
    ensures scan.listing.None? ==> Cleaned(d, maxAge, scan) == d && Synced(d, scan) == d
  {
    assert RemovedAll(d, []) == d;
  }

  // ----- Making room -----

  /** The files too recent to be evicted: written less than two minutes ago. */
  function Recent(dir: Directory, now: int): Directory {
    map n | n in dir && now - dir[n].modTime < 120_000_000_000 :: dir[n]
  }

  /** Recent files survive, so after eviction either the rest fits or exactly the recent files are left. */
  lemma EvictionLeaves(d: Disk, config: Config, request: int, scan: Scan)
    requires config.maxBytes > 0 && scan.listing.Some? && Faithful(d.dir, scan) && scan.stuck == {}
    ensures var left, recent := Enforced(config, d, SAFE_WINDOW, request, scan).dir, Recent(d.dir, scan.now);
            && (forall n :: n in recent ==> n in left && left[n] == recent[n]) && Total(recent) <= Total(left)
            && (Total(left) + request <= config.maxBytes || left == recent)
  {
    var k := EvictsShortestPrefix(d, config, SAFE_WINDOW, request, scan);
    var files := scan.listing.value;
    var left, recent := d.dir - Names(files[..k]), Recent(d.dir, scan.now);
    forall n | n in recent ensures n in left {
      forall i | 0 <= i < k ensures files[i].name != n {
        assert Lists(d.dir, files[i]) && files[..k][i] == files[i];
      }
    }
    TotalSubmap(recent, left);
    if Total(left) + request > config.maxBytes {
      assert left.Keys == recent.Keys;
    }
  }

  /** Room is found whenever dropping every stale file would be enough; a yes leaves the request under the cap. */
  lemma RoomWheneverStaleSuffices(config: Config, d: Disk, request: int, scan: Scan)
    requires config.enabled && config.maxBytes > 0
    requires Faithful(d.dir, scan) && scan.listing.Some? && scan.stuck == {}
    requires TracksBytes(d)
    ensures Total(Recent(d.dir, scan.now)) + request <= config.maxBytes ==> SpaceEnsured(config, d, request, scan)
    ensures SpaceEnsured(config, d, request, scan) ==>
              RoomMade(config, d, request, scan).usage + request <= config.maxBytes
  {
    if d.usage + request > config.maxBytes {
      EvictionLeaves(d, config, request, scan);
      EnforcedKeeps(config, d, SAFE_WINDOW, request, scan);
    }
  }

  /** With an exact counter the answer is exactly whether the recent files leave room for the request. */
  lemma RoomExactlyWhenStaleSuffices(config: Config, d: Disk, request: int, scan: Scan)
    requires config.enabled && config.maxBytes > 0
    requires Faithful(d.dir, scan) && scan.listing.Some? && scan.stuck == {}
    requires TracksBytes(d) && Exact(d)
    ensures SpaceEnsured(config, d, request, scan) <==> Total(Recent(d.dir, scan.now)) + request <= config.maxBytes
  {
    RoomWheneverStaleSuffices(config, d, request, scan);
    TotalSubmap(Recent(d.dir, scan.now), d.dir);
    if d.usage + request > config.maxBytes {
      EvictionLeaves(d, config, request, scan);
      EnforcedKeeps(config, d, SAFE_WINDOW, request, scan);
    }
  }
}
