/**
 * The one abstract object both kinds of body storage implement: fixed bytes, a cursor, a closed
 * flag, and the independent readers opened from it.
 */
module BodySpec {
  import opened Bytes

  datatype Whence = FromStart | FromCurrent | FromEnd

  datatype Cursor = Cursor(bytes: seq<Byte>, pos: nat)

  datatype Body = Body(cursor: Cursor, closed: bool)

  datatype Reply =
    | Data(bytes: seq<Byte>)
    | EndOfFile
    | At(pos: nat)
    | BadOffset
    | Done
    | StorageClosed
    | OpenFailed
    | NoSuchReader

  /** Up to `n` bytes from the cursor on; the end of the data is reported, never an empty read. */
  function ReadSome(c: Cursor, n: nat): (Cursor, Reply) {
    if c.pos >= |c.bytes| then (c, EndOfFile)
    else
      var next := if c.pos + n <= |c.bytes| then c.pos + n else |c.bytes|;
      (c.(pos := next), Data(c.bytes[c.pos..next]))
  }

  function Target(c: Cursor, offset: int, whence: Whence): int {
    offset + match whence case FromStart => 0 case FromCurrent => c.pos case FromEnd => |c.bytes|
  }

  /** A cursor may move beyond the end but not before the start. */
  function Moved(c: Cursor, offset: int, whence: Whence): (Cursor, Reply) {
    var to := Target(c, offset, whence);
    if to < 0 then (c, BadOffset) else (c.(pos := to), At(to))
  }

  /** A read gives the end of the data exactly at or past it, and otherwise what is there, up to n bytes. */
  lemma {:induction false} ReadExactly(c: Cursor, n: nat)
    ensures var (next, reply) := ReadSome(c, n);
            if c.pos >= |c.bytes| then next == c && reply == EndOfFile
            else
              && reply.Data? && next.bytes == c.bytes && next.pos == c.pos + |reply.bytes|
              && (|reply.bytes| == n || (|reply.bytes| < n && next.pos == |c.bytes|))
              && forall i :: 0 <= i < |reply.bytes| ==> reply.bytes[i] == c.bytes[c.pos + i]
  {
  }

  /** A seek from the start, from the cursor or from the end; before the start it is refused and nothing moves. */
  lemma {:induction false} SeekExactly(bytes: seq<Byte>, pos: nat, offset: int)
    ensures var c := Cursor(bytes, pos);
            && Moved(c, offset, FromStart) ==
               (if offset >= 0 then (Cursor(bytes, offset), At(offset)) else (c, BadOffset))
            && Moved(c, offset, FromCurrent) ==
               (if pos + offset >= 0 then (Cursor(bytes, pos + offset), At(pos + offset)) else (c, BadOffset))
            && Moved(c, offset, FromEnd) ==
               (if |bytes| + offset >= 0 then (Cursor(bytes, |bytes| + offset), At(|bytes| + offset))
                else (c, BadOffset))
  {
  }

  // ----- Sequences of operations -----

  datatype Op =
    | Read(n: nat)
    | Seek(offset: int, whence: Whence)
    | GetBytes
    | NewReader
    | Close
    | ReadFrom(r: nat, n: nat)

  datatype System = System(body: Body, readers: seq<Cursor>)

  /** The storage's own operations. */
  function OnBody(b: Body, op: Op): (Body, Reply) {
    if op.Close? then (b.(closed := true), Done)
    else if b.closed then (b, StorageClosed)
    else match op
      case Read(n) => var (c, reply) := ReadSome(b.cursor, n); (b.(cursor := c), reply)
      case Seek(offset, whence) => var (c, reply) := Moved(b.cursor, offset, whence); (b.(cursor := c), reply)
      case GetBytes => (b, Data(b.cursor.bytes))
      case _ => (b, Done)
  }

  function Step(s: System, op: Op): (System, Reply) {
    if op.ReadFrom? then
      if op.r >= |s.readers| then (s, NoSuchReader)
      else
        var (c, reply) := ReadSome(s.readers[op.r], op.n);
        (s.(readers := s.readers[op.r := c]), reply)
    else
      var (b, reply) := OnBody(s.body, op);
      var opens := op.NewReader? && !s.body.closed;
      (System(b, if opens then s.readers + [Cursor(s.body.cursor.bytes, 0)] else s.readers), reply)
  }

  function After(s: System, ops: seq<Op>): System {
    if ops == [] then s else Step(After(s, ops[..|ops| - 1]), ops[|ops| - 1]).0
  }

  function Replies(s: System, ops: seq<Op>): seq<Reply> {
    if ops == [] then []
    else
      var before := ops[..|ops| - 1];
      Replies(s, before) + [Step(After(s, before), ops[|ops| - 1]).1]
  }

  // ----- Reading a cursor on its own -----

  function CursorAfter(c: Cursor, sizes: seq<nat>): Cursor {
    if sizes == [] then c else ReadSome(CursorAfter(c, sizes[..|sizes| - 1]), sizes[|sizes| - 1]).0
  }

  function CursorReplies(c: Cursor, sizes: seq<nat>): seq<Reply> {
    if sizes == [] then []
    else
      var before := sizes[..|sizes| - 1];
      CursorReplies(c, before) + [ReadSome(CursorAfter(c, before), sizes[|sizes| - 1]).1]
  }

  /** The bytes a list of replies delivers. */
  function Delivered(replies: seq<Reply>): seq<Byte> {
    if replies == [] then []
    else
      var last := replies[|replies| - 1];
      var before := Delivered(replies[..|replies| - 1]);
      if last.Data? then before + last.bytes else before
  }

  function SumOf(sizes: seq<nat>): nat {
    if sizes == [] then 0 else SumOf(sizes[..|sizes| - 1]) + sizes[|sizes| - 1]
  }

  function Min(a: nat, b: nat): nat {
    if a <= b then a else b
  }

  lemma {:induction false} CursorSnoc(c: Cursor, sizes: seq<nat>, n: nat)
    ensures CursorAfter(c, sizes + [n]) == ReadSome(CursorAfter(c, sizes), n).0
    ensures CursorReplies(c, sizes + [n]) == CursorReplies(c, sizes) + [ReadSome(CursorAfter(c, sizes), n).1]
  {
    assert (sizes + [n])[..|sizes|] == sizes;
  }

  lemma {:induction false} DeliveredSnoc(replies: seq<Reply>, last: Reply)
    ensures Delivered(replies + [last]) == if last.Data? then Delivered(replies) + last.bytes else Delivered(replies)
  {
    assert (replies + [last])[..|replies|] == replies;
  }

  /** One read extends what has been delivered since `start`. */
  lemma {:induction false} ReadExtends(bytes: seq<Byte>, start: nat, pos: nat, n: nat)
    requires start <= pos <= |bytes|
    ensures var (c, reply) := ReadSome(Cursor(bytes, pos), n);
            && c == Cursor(bytes, Min(pos + n, |bytes|))
            && (if reply.Data? then bytes[start..pos] + reply.bytes else bytes[start..pos]) == bytes[start..c.pos]
  {
  }

  ghost predicate Consecutive(c: Cursor, sizes: seq<nat>) {
    c.pos <= |c.bytes| &&
    var stop := Stop(c, sizes);
    CursorAfter(c, sizes) == Cursor(c.bytes, stop) && Delivered(CursorReplies(c, sizes)) == c.bytes[c.pos..stop]
  }

  lemma {:induction false} SumSnoc(sizes: seq<nat>, n: nat)
    ensures SumOf(sizes + [n]) == SumOf(sizes) + n
  {
    assert (sizes + [n])[..|sizes|] == sizes;
  }

  /** Where the cursor stands after reads of these sizes. */
  function Stop(c: Cursor, sizes: seq<nat>): nat {
    Min(c.pos + SumOf(sizes), |c.bytes|)
  }

  lemma {:induction false} StopSnoc(c: Cursor, sizes: seq<nat>, n: nat)
    ensures Stop(c, sizes + [n]) == Min(Stop(c, sizes) + n, |c.bytes|)
  {
    SumSnoc(sizes, n);
  }

  lemma {:induction false} ConsecutiveStep(c: Cursor, sizes: seq<nat>, n: nat)
    requires Consecutive(c, sizes)
    ensures Consecutive(c, sizes + [n])
  {
    var stop := Stop(c, sizes);
    StopSnoc(c, sizes, n);
    CursorSnoc(c, sizes, n);
    DeliveredSnoc(CursorReplies(c, sizes), ReadSome(Cursor(c.bytes, stop), n).1);
    ReadExtends(c.bytes, c.pos, stop, n);
  }

  /** Reads deliver the stored bytes in order, without gap or repetition, up to the end. */
  lemma {:induction false} ReadsAreConsecutive(c: Cursor, sizes: seq<nat>)
    requires c.pos <= |c.bytes|
    ensures CursorAfter(c, sizes) == c.(pos := Min(c.pos + SumOf(sizes), |c.bytes|))
    ensures Delivered(CursorReplies(c, sizes)) == c.bytes[c.pos..Min(c.pos + SumOf(sizes), |c.bytes|)]
  {
    AllConsecutive(c, sizes);
  }

  lemma {:induction false} AllConsecutive(c: Cursor, sizes: seq<nat>)
    requires c.pos <= |c.bytes|
    ensures Consecutive(c, sizes)
  {
    if sizes != [] {
      var before, n := sizes[..|sizes| - 1], sizes[|sizes| - 1];
      AllConsecutive(c, before);
      ConsecutiveStep(c, before, n);
      assert before + [n] == sizes;
    }
  }

  // ----- Independence of the readers -----

  /** The sizes read from reader `r`. */
  function SizesFor(ops: seq<Op>, r: nat): seq<nat> {
    if ops == [] then []
    else
      var last := ops[|ops| - 1];
      var before := SizesFor(ops[..|ops| - 1], r);
      if last.ReadFrom? && last.r == r then before + [last.n] else before
  }

  /** The replies given to reader `r`. */
  function RepliesFor(s: System, ops: seq<Op>, r: nat): seq<Reply> {
    if ops == [] then []
    else
      var before, last := ops[..|ops| - 1], ops[|ops| - 1];
      if last.ReadFrom? && last.r == r then RepliesFor(s, before, r) + [Step(After(s, before), last).1]
      else RepliesFor(s, before, r)
  }

  /** Whatever else happens, closing included, a reader sees what it would see if it were alone. */
  lemma {:induction false} ReadersAreIndependent(s: System, ops: seq<Op>, r: nat)
    requires r < |s.readers|
    ensures r < |After(s, ops).readers|
    ensures After(s, ops).readers[r] == CursorAfter(s.readers[r], SizesFor(ops, r))
    ensures RepliesFor(s, ops, r) == CursorReplies(s.readers[r], SizesFor(ops, r))
  {
    if ops != [] {
      var before, last := ops[..|ops| - 1], ops[|ops| - 1];
      ReadersAreIndependent(s, before, r);
      if last.ReadFrom? && last.r == r {
        CursorSnoc(s.readers[r], SizesFor(before, r), last.n);
      }
    }
  }

  function OwnOps(ops: seq<Op>): seq<Op> {
    if ops == [] then []
    else
      var last := ops[|ops| - 1];
      var before := OwnOps(ops[..|ops| - 1]);
      if last.ReadFrom? || last.NewReader? then before else before + [last]
  }

  /** Opening and using readers never moves the storage's own cursor nor closes it. */
  lemma {:induction false} ReadersLeaveStorageAlone(s: System, ops: seq<Op>)
    ensures After(s, ops).body == After(s, OwnOps(ops)).body
  {
    if ops != [] {
      var before, last := ops[..|ops| - 1], ops[|ops| - 1];
      ReadersLeaveStorageAlone(s, before);
      var own := OwnOps(before);
      assert (own + [last])[..|own|] == own;
      assert After(s, own + [last]) == Step(After(s, own), last).0;
    }
  }

  // ----- Closing -----

  predicate Closes(ops: seq<Op>) {
    exists i :: 0 <= i < |ops| && ops[i].Close?
  }

  /** The contents never change, and the storage is closed exactly from its first Close on. */
  lemma {:induction false} ContentsAndClosing(s: System, ops: seq<Op>)
    ensures After(s, ops).body.cursor.bytes == s.body.cursor.bytes
    ensures After(s, ops).body.closed <==> s.body.closed || Closes(ops)
  {
    if ops != [] {
      var before, last := ops[..|ops| - 1], ops[|ops| - 1];
      ContentsAndClosing(s, before);
      assert Closes(ops) <==> Closes(before) || last.Close? by {
        if Closes(before) {
          var i :| 0 <= i < |before| && before[i].Close?;
          assert ops[i].Close?;
        }
        if last.Close? { assert ops[|ops| - 1].Close?; }
        if Closes(ops) && !last.Close? {
          var i :| 0 <= i < |ops| && ops[i].Close?;
          assert before[i].Close?;
        }
      }
    }
  }

  /** At any point before a Close, Bytes gives the whole contents and a new reader starts at their beginning. */
  lemma {:induction false} OpenStorageGivesEverything(s: System, ops: seq<Op>)
    requires !s.body.closed && !Closes(ops)
    ensures Step(After(s, ops), GetBytes) == (After(s, ops), Data(s.body.cursor.bytes))
    ensures Step(After(s, ops), NewReader).0.readers == After(s, ops).readers + [Cursor(s.body.cursor.bytes, 0)]
  {
    ContentsAndClosing(s, ops);
  }

  /** Once closed, everything but Close is refused. */
  lemma {:induction false} ClosedStorageRefuses(s: System, ops: seq<Op>, op: Op)
    requires Closes(ops) && !op.Close? && !op.ReadFrom?
    ensures Step(After(s, ops), op) == (After(s, ops), StorageClosed)
  {
    ContentsAndClosing(s, ops);
  }
}
