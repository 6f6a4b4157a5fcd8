/**
 * The walk over Ogg pages that finds an Opus file's last granule position.  A page, per section 6
 * of RFC 3533, is a 27-byte header, a segment table and the body whose size the table adds up to.
 */
module OggScan {
  import opened Bytes

  const HEADER := 27
  const SAMPLE_RATE := 48000.0

  // ----- Reading a header -----

  function LittleEndian(b: seq<Byte>): nat {
    if b == [] then 0 else b[0] + 256 * LittleEndian(b[1..])
  }

  /** The bits of a 64-bit word as a signed number. */
  function Signed64(u: nat): int {
    if u < 0x8000_0000_0000_0000 then u else u - 0x1_0000_0000_0000_0000
  }

  predicate CaptureAt(data: seq<Byte>, pos: nat) {
    pos + 4 <= |data| && data[pos] == 'O' as int && data[pos + 1] == 'g' as int
    && data[pos + 2] == 'g' as int && data[pos + 3] == 'S' as int
  }

  function GranuleAt(data: seq<Byte>, pos: nat): int
    requires pos + HEADER <= |data|
  {
    Signed64(LittleEndian(data[pos + 6..pos + 14]))
  }

  function Sum(table: seq<Byte>): nat {
    if table == [] then 0 else Sum(table[..|table| - 1]) + table[|table| - 1]
  }

  /** A page begins with the four bytes of "OggS". */
  lemma {:induction false} CaptureExactly(data: seq<Byte>, pos: nat)
    ensures CaptureAt(data, pos) <==> pos + 4 <= |data| && data[pos..pos + 4] == [0x4F, 0x67, 0x67, 0x53]
  {
    if CaptureAt(data, pos) { assert data[pos..pos + 4] == [0x4F, 0x67, 0x67, 0x53]; }
  }

  /** A granule position: eight bytes, the least significant first, in two's complement. */
  lemma {:induction false} GranuleExactly(b: seq<Byte>)
    requires |b| == 8
    ensures var n: seq<int> := b;
            var unsigned := n[0] + n[1] * 0x100 + n[2] * 0x1_0000 + n[3] * 0x100_0000 + n[4] * 0x1_0000_0000
                            + n[5] * 0x100_0000_0000 + n[6] * 0x1_0000_0000_0000 + n[7] * 0x100_0000_0000_0000;
            Signed64(LittleEndian(b)) == if n[7] >= 128 then unsigned - 0x1_0000_0000_0000_0000 else unsigned
  {
    var n: seq<int> := b;
    assert LittleEndian(b[8..]) == 0;
    assert b[1..][1..] == b[2..] && b[2..][1..] == b[3..] && b[3..][1..] == b[4..];
    assert b[4..][1..] == b[5..] && b[5..][1..] == b[6..] && b[6..][1..] == b[7..] && b[7..][1..] == b[8..];
    assert LittleEndian(b[6..]) == n[6] + n[7] * 0x100;
    assert LittleEndian(b[4..]) == n[4] + n[5] * 0x100 + n[6] * 0x1_0000 + n[7] * 0x100_0000;
    assert LittleEndian(b[2..]) == n[2] + n[3] * 0x100 + 0x1_0000 * LittleEndian(b[4..]);
  }

  /** Segment sizes add up. */
  lemma {:induction false} SumExactly(a: seq<Byte>, b: seq<Byte>)
    ensures Sum(a + b) == Sum(a) + Sum(b) && Sum([]) == 0
    ensures |b| == 1 ==> Sum(b) == b[0]
  {
    if b == [] {
      assert a + b == a;
    } else {
      SumExactly(a, b[..|b| - 1]);
      assert (a + b)[..|a + b| - 1] == a + b[..|b| - 1];
    }
  }

  // ----- The walk as a function -----

  /** What one turn of the loop finds at `pos`. */
  datatype Turn = Stop | Skip | LastPage(granule: int) | Page(granule: int, next: nat)

  function TurnAt(data: seq<Byte>, pos: nat): (t: Turn)
    ensures t.Page? ==> t.next >= pos + HEADER
  {
    if pos + HEADER > |data| then Stop
    else if !CaptureAt(data, pos) then Skip
    else
      var table := pos + HEADER + data[pos + 26];
      if table > |data| then LastPage(GranuleAt(data, pos))
      else Page(GranuleAt(data, pos), table + Sum(data[pos + HEADER..table]))
  }

  function Max(a: int, b: int): int {
    if a < b then b else a
  }

  /** The greatest granule position seen from `pos` on, starting from `best`. */
  function Best(data: seq<Byte>, pos: nat, best: int): int
    decreases |data| - pos
  {
    match TurnAt(data, pos)
    case Stop => best
    case Skip => Best(data, pos + 1, best)
    case LastPage(g) => Max(best, g)
    case Page(g, next) => Best(data, next, Max(best, g))
  }

  /** `seen` and the positions taken for page headers from `pos` on, in order. */
  function Visited(data: seq<Byte>, pos: nat, seen: seq<nat>): seq<nat>
    decreases |data| - pos
  {
    match TurnAt(data, pos)
    case Stop => seen
    case Skip => Visited(data, pos + 1, seen)
    case LastPage(_) => seen + [pos]
    case Page(_, next) => Visited(data, next, seen + [pos])
  }

  // ----- The loop -----

  method SumTable(data: seq<Byte>, from: nat, to: nat) returns (size: nat)
    requires from <= to <= |data|
    ensures size == Sum(data[from..to])
  {
    size := 0;
    for i := from to to
      invariant size == Sum(data[from..i])
    {
      assert data[from..i + 1][..i - from] == data[from..i];
      size := size + data[i];
    }
  }

  /** Terminates on every byte sequence. */
  method OpusDuration(data: seq<Byte>) returns (duration: real)
    ensures duration == Best(data, 0, 0) as real / 48000.0
  {
    var total, pos := 0, 0;
    while true
      invariant Best(data, 0, 0) == Best(data, pos, total)
      decreases |data| - pos
    {
      if pos >= |data| { break; }
      if |data| - pos < HEADER { break; }
      if !CaptureAt(data, pos) {
        pos := pos + HEADER - 26;
        continue;
      }
      var granule := GranuleAt(data, pos);
      var numSegments := data[pos + 26];
      ghost var before := total;
      if granule > total { total := granule; }
      var table := pos + HEADER + numSegments;
      if table > |data| {
        assert Best(data, pos, before) == total;
        break;
      }
      var pageSize := SumTable(data, pos + HEADER, table);
      pos := table + pageSize;
    }
    duration := total as real / SAMPLE_RATE;
  }

  // ----- Well-formed pages -----

  datatype OggPage = OggPage(
    version: Byte, flags: Byte, granule: seq<Byte>, serial: seq<Byte>, number: seq<Byte>, checksum: seq<Byte>,
    table: seq<Byte>, body: seq<Byte>)

  predicate WellFormed(p: OggPage) {
    && |p.granule| == 8 && |p.serial| == 4 && |p.number| == 4 && |p.checksum| == 4
    && |p.table| < 256
    && |p.body| == Sum(p.table)
  }

  function Header(p: OggPage): (h: seq<Byte>)
    requires WellFormed(p)
    ensures |h| == HEADER
  {
    var capture: seq<Byte> := ['O' as int, 'g' as int, 'g' as int, 'S' as int];
    capture + [p.version, p.flags] + p.granule + p.serial + p.number + p.checksum + [|p.table|]
  }

  function PageSize(p: OggPage): nat {
    HEADER + |p.table| + |p.body|
  }

  function Encode(p: OggPage): (bytes: seq<Byte>)
    requires WellFormed(p)
    ensures |bytes| == PageSize(p)
  {
    Header(p) + p.table + p.body
  }

  function EncodeAll(pages: seq<OggPage>): seq<Byte>
    requires forall i :: 0 <= i < |pages| ==> WellFormed(pages[i])
  {
    if pages == [] then [] else Encode(pages[0]) + EncodeAll(pages[1..])
  }

  function Granule(p: OggPage): int {
    Signed64(LittleEndian(p.granule))
  }

  /** The greatest of `best` and all pages' granule positions. */
  function MaxGranule(pages: seq<OggPage>, best: int): int {
    if pages == [] then best else MaxGranule(pages[1..], Max(best, Granule(pages[0])))
  }

  /** `seen` and the positions where the pages begin, the first one at `pos`. */
  function Offsets(pages: seq<OggPage>, pos: nat, seen: seq<nat>): seq<nat> {
    if pages == [] then seen else Offsets(pages[1..], pos + PageSize(pages[0]), seen + [pos])
  }

  function SizeOfAll(pages: seq<OggPage>): nat {
    if pages == [] then 0 else PageSize(pages[0]) + SizeOfAll(pages[1..])
  }

  /** Page k begins behind the k pages before it. */
  lemma {:induction false} OffsetsMeaning(pages: seq<OggPage>, pos: nat, seen: seq<nat>, k: nat)
    ensures |Offsets(pages, pos, seen)| == |seen| + |pages| && seen <= Offsets(pages, pos, seen)
    ensures k < |pages| ==> Offsets(pages, pos, seen)[|seen| + k] == pos + SizeOfAll(pages[..k])
    decreases |pages|
  {
    if pages != [] {
      OffsetsMeaning(pages[1..], pos + PageSize(pages[0]), seen + [pos], if k == 0 then 0 else k - 1);
      if 0 < k < |pages| {
        assert pages[..k][0] == pages[0] && pages[..k][1..] == pages[1..][..k - 1];
      }
    }
  }

  lemma {:induction false} HeaderFields(p: OggPage)
    requires WellFormed(p)
    ensures var h := Header(p);
            CaptureAt(h, 0) && h[6..14] == p.granule && h[26] == |p.table|
  {
  }

  /** At the start of an encoded page the walk reads that page and moves to its end. */
  lemma TurnAtPage(data: seq<Byte>, pos: nat, p: OggPage, rest: seq<Byte>)
    requires WellFormed(p) && pos <= |data| && data[pos..] == Encode(p) + rest
    ensures TurnAt(data, pos) == Page(Granule(p), pos + PageSize(p))
    ensures pos + PageSize(p) <= |data| && data[pos + PageSize(p)..] == rest
  {
    var h, tail := Header(p), data[pos..];
    HeaderFields(p);
    assert tail == h + p.table + p.body + rest;
    assert forall i :: 0 <= i < HEADER ==> data[pos + i] == tail[i] == h[i];
    assert data[pos + 6..pos + 14] == h[6..14];
    var table := pos + HEADER + |p.table|;
    assert data[pos + HEADER..table] == tail[HEADER..HEADER + |p.table|] == p.table;
    assert data[pos + PageSize(p)..] == tail[PageSize(p)..] == rest;
  }

  lemma {:induction false} VisitStep(data: seq<Byte>, pos: nat, granule: int, next: nat, seen: seq<nat>)
    requires TurnAt(data, pos) == Page(granule, next)
    ensures Visited(data, pos, seen) == Visited(data, next, seen + [pos])
  {
  }

  lemma {:induction false} BestStep(data: seq<Byte>, pos: nat, granule: int, next: nat, best: int)
    requires TurnAt(data, pos) == Page(granule, next)
    ensures Best(data, pos, best) == Best(data, next, Max(best, granule))
  {
  }

  lemma {:induction false} WalkEnd(data: seq<Byte>, pos: nat, seen: seq<nat>, best: int)
    requires pos + HEADER > |data|
    ensures Visited(data, pos, seen) == seen && Best(data, pos, best) == best
  {
  }

  lemma {:induction false} EncodeSplits(pages: seq<OggPage>, rest: seq<Byte>)
    requires pages != [] && forall i :: 0 <= i < |pages| ==> WellFormed(pages[i])
    ensures EncodeAll(pages) + rest == Encode(pages[0]) + (EncodeAll(pages[1..]) + rest)
  {
    var first, others := Encode(pages[0]), EncodeAll(pages[1..]);
    assert first + others + rest == first + (others + rest);
  }

  lemma {:induction false} FirstPage(data: seq<Byte>, pos: nat, pages: seq<OggPage>, rest: seq<Byte>)
    requires pages != [] && forall i :: 0 <= i < |pages| ==> WellFormed(pages[i])
    requires pos <= |data| && data[pos..] == EncodeAll(pages) + rest
    ensures var next := pos + PageSize(pages[0]);
            && TurnAt(data, pos) == Page(Granule(pages[0]), next)
            && next <= |data| && data[next..] == EncodeAll(pages[1..]) + rest
  {
    EncodeSplits(pages, rest);
    TurnAtPage(data, pos, pages[0], EncodeAll(pages[1..]) + rest);
  }

  /** From `pos` on the walk finds the pages one behind the other, up to `end`. */
  ghost predicate Laid(data: seq<Byte>, pos: nat, pages: seq<OggPage>, end: nat)
    decreases |pages|
  {
    if pages == [] then pos == end
    else
      && TurnAt(data, pos) == Page(Granule(pages[0]), pos + PageSize(pages[0]))
      && Laid(data, pos + PageSize(pages[0]), pages[1..], end)
  }

  /** Encoded pages are walked over, whatever follows them. */
  lemma {:induction false} EncodedIsLaid(data: seq<Byte>, pos: nat, pages: seq<OggPage>, rest: seq<Byte>)
    returns (end: nat)
    requires forall i :: 0 <= i < |pages| ==> WellFormed(pages[i])
    requires pos <= |data| && data[pos..] == EncodeAll(pages) + rest
    ensures Laid(data, pos, pages, end) && end <= |data| && data[end..] == rest
    decreases |pages|, 0
  {
    if pages == [] {
      end := pos;
      assert EncodeAll(pages) + rest == rest;
    } else {
      FirstPage(data, pos, pages, rest);
      end := RestIsLaid(data, pos, pos + PageSize(pages[0]), pages, rest);
    }
  }

  lemma {:induction false} RestIsLaid(data: seq<Byte>, pos: nat, next: nat, pages: seq<OggPage>, rest: seq<Byte>)
    returns (end: nat)
    requires pages != [] && forall i :: 0 <= i < |pages| ==> WellFormed(pages[i])
    requires next == pos + PageSize(pages[0]) && TurnAt(data, pos) == Page(Granule(pages[0]), next)
    requires next <= |data| && data[next..] == EncodeAll(pages[1..]) + rest
    ensures Laid(data, pos, pages, end) && end <= |data| && data[end..] == rest
    decreases |pages| - 1, 1
  {
    end := EncodedIsLaid(data, next, pages[1..], rest);
  }

  /** The walk visits the pages. */
  lemma {:induction false} WalkVisits(data: seq<Byte>, pos: nat, pages: seq<OggPage>, end: nat, seen: seq<nat>)
    requires Laid(data, pos, pages, end)
    ensures Visited(data, pos, seen) == Visited(data, end, Offsets(pages, pos, seen))
    decreases |pages|
  {
    if pages != [] {
      var next := pos + PageSize(pages[0]);
      VisitStep(data, pos, Granule(pages[0]), next, seen);
      WalkVisits(data, next, pages[1..], end, seen + [pos]);
    }
  }

  /** And keeps the greatest granule position. */
  lemma {:induction false} WalkMaximizes(data: seq<Byte>, pos: nat, pages: seq<OggPage>, end: nat, best: int)
    requires Laid(data, pos, pages, end)
    ensures Best(data, pos, best) == Best(data, end, MaxGranule(pages, best))
    decreases |pages|
  {
    if pages != [] {
      var next, granule := pos + PageSize(pages[0]), Granule(pages[0]);
      BestStep(data, pos, granule, next, best);
      WalkMaximizes(data, next, pages[1..], end, Max(best, granule));
    }
  }

  /** Bytes before the first page that hold no capture pattern are stepped over one at a time. */
  lemma {:induction false} SkipJunk(data: seq<Byte>, pos: nat, start: nat, best: int)
    requires pos <= start && start + HEADER <= |data|
    requires forall i: nat :: pos <= i < start ==> !CaptureAt(data, i)
    ensures Visited(data, pos, []) == Visited(data, start, []) && Best(data, pos, best) == Best(data, start, best)
    decreases start - pos
  {
    if pos < start { SkipJunk(data, pos + 1, start, best); }
  }

  /**
   * On any concatenation of well-formed pages, and with any pattern-free junk in front, the walk
   * visits exactly those pages and yields the maximum of 0 and all signed granule positions.
   */
  lemma {:induction false} ScanFindsAllPages(junk: seq<Byte>, pages: seq<OggPage>)
    requires forall i :: 0 <= i < |pages| ==> WellFormed(pages[i])
    requires junk == [] || pages != []
    requires forall i: nat :: i < |junk| ==> !CaptureAt(junk + EncodeAll(pages), i)
    ensures var data := junk + EncodeAll(pages);
            Visited(data, 0, []) == Offsets(pages, |junk|, []) && Best(data, 0, 0) == MaxGranule(pages, 0)
  {
    var data := junk + EncodeAll(pages);
    assert data[|junk|..] == EncodeAll(pages) + [];
    var end := EncodedIsLaid(data, |junk|, pages, []);
    WalkVisits(data, |junk|, pages, end, []);
    WalkMaximizes(data, |junk|, pages, end, 0);
    WalkEnd(data, end, Offsets(pages, |junk|, []), MaxGranule(pages, 0));
    if junk != [] {
      assert |EncodeAll(pages)| >= PageSize(pages[0]) >= HEADER;
      SkipJunk(data, 0, |junk|, 0);
    }
  }

  // ----- A file that is cut off -----

  /** A page whose header is there counts, wherever the rest of it is cut off; with less than a header it does not. */
  lemma {:induction false} CutPage(data: seq<Byte>, pos: nat, p: OggPage, n: nat, best: int)
    requires WellFormed(p) && n <= PageSize(p)
    requires pos <= |data| && data[pos..] == Encode(p)[..n]
    ensures Best(data, pos, best) == if n < 27 then best else Max(best, Granule(p))
  {
    if n < 27 {
      WalkEnd(data, pos, [], best);
    } else {
      CutTurn(data, pos, p, n);
      if HEADER + |p.table| <= n { WalkEnd(data, pos + PageSize(p), [], Max(best, Granule(p))); }
    }
  }

  lemma {:induction false} SliceBehind(data: seq<Byte>, pos: nat, from: nat, to: nat)
    requires from <= to && pos + to <= |data|
    ensures data[pos + from..pos + to] == data[pos..][from..to]
  {
  }

  lemma {:induction false} TableInFront(h: seq<Byte>, table: seq<Byte>, body: seq<Byte>, n: nat)
    requires |h| + |table| <= n <= |h + table + body|
    ensures (h + table + body)[..n][|h|..|h| + |table|] == table
  {
  }

  lemma {:induction false} CutTurn(data: seq<Byte>, pos: nat, p: OggPage, n: nat)
    requires WellFormed(p) && 27 <= n <= PageSize(p)
    requires pos <= |data| && data[pos..] == Encode(p)[..n]
    ensures |data| == pos + n
    ensures TurnAt(data, pos) ==
            if HEADER + |p.table| <= n then Page(Granule(p), pos + PageSize(p)) else LastPage(Granule(p))
  {
    var h, tail := Header(p), data[pos..];
    HeaderFields(p);
    assert forall i :: 0 <= i < HEADER ==> data[pos + i] == tail[i] == h[i];
    assert data[pos + 6..pos + 14] == h[6..14];
    if HEADER + |p.table| <= n {
      TableInFront(h, p.table, p.body, n);
      SliceBehind(data, pos, HEADER, HEADER + |p.table|);
    }
  }

  /** A file cut off inside a page yields the maximum over the whole pages and, if its header is whole, that page. */
  lemma {:induction false} CutOffFile(pages: seq<OggPage>, p: OggPage, n: nat)
    requires forall i :: 0 <= i < |pages| ==> WellFormed(pages[i])
    requires WellFormed(p) && n <= PageSize(p)
    ensures var whole := MaxGranule(pages, 0);
            Best(EncodeAll(pages) + Encode(p)[..n], 0, 0) == if n < 27 then whole else Max(whole, Granule(p))
  {
    var data := EncodeAll(pages) + Encode(p)[..n];
    assert data[0..] == data;
    var end := EncodedIsLaid(data, 0, pages, Encode(p)[..n]);
    WalkMaximizes(data, 0, pages, end, 0);
    CutPage(data, end, p, n, MaxGranule(pages, 0));
  }

  lemma {:induction false} MaxGranuleIsMax(pages: seq<OggPage>, best: int)
    ensures MaxGranule(pages, best) >= best
    ensures forall i :: 0 <= i < |pages| ==> Granule(pages[i]) <= MaxGranule(pages, best)
    ensures || MaxGranule(pages, best) == best
            || exists i :: 0 <= i < |pages| && MaxGranule(pages, best) == Granule(pages[i])
  {
    if pages != [] {
      MaxGranuleIsMax(pages[1..], Max(best, Granule(pages[0])));
      assert forall i :: 1 <= i < |pages| ==> pages[i] == pages[1..][i - 1];
    }
  }
}
