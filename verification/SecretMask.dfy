/**
 * Masking of upstream API keys in log messages.  A `char` stands for one byte of the message.
 * `MaskFrom` restates the scan from a position on; the laws say what is left in the output.
 */
module SecretMask {
  import opened Options

  const SK_ANT := "sk-ant-"
  const SK := "sk-"
  const AIZA := "AIza"
  const MIN_SECRET := 20

  predicate IsTokenChar(c: char) {
    && c != ' ' && c != '\t' && c != '\n' && c != '\r' && c != '"' && c != '\'' && c != ','
    && c != ';' && c != ')' && c != '>' && c != '`' && c != ']' && c != '}'
  }

  /** Fingerprint of a key; None where the source slices out of range and panics. */
  function MaskKey(key: string): (r: Option<string>)
    ensures r.None? <==> 1 <= |key| < 4
    ensures key == "" ==> r == Some("")
    ensures 4 <= |key| < 12 ==> |r.value| == 8
    ensures |key| >= 12 ==> |r.value| == 12 && r.value[0] == key[0]
  {
    if key == "" then Some("")
    else if |key| < 4 then None
    else if |key| < 12 then Some("****" + key[|key| - 4..])
    else Some(key[..4] + "****" + key[|key| - 4..])
  }

  /** A fingerprint gives away the last four characters, from length 12 on also the first four, and no more. */
  lemma {:induction false} MaskKeyReveals(a: string, b: string)
    requires |a| >= 4 && |b| >= 4
    ensures MaskKey(a) == MaskKey(b) <==>
            && (|a| < 12 <==> |b| < 12)
            && a[|a| - 4..] == b[|b| - 4..]
            && (|a| >= 12 ==> a[..4] == b[..4])
  {
    var x, y := MaskKey(a).value, MaskKey(b).value;
    assert x[|x| - 4..] == a[|a| - 4..] && y[|y| - 4..] == b[|b| - 4..];
    if |a| >= 12 { assert x[..4] == a[..4]; }
    if |b| >= 12 { assert y[..4] == b[..4]; }
  }

  predicate SkAt(s: string, i: nat) {
    i + 3 <= |s| && s[i] == 's' && s[i + 1] == 'k' && s[i + 2] == '-'
  }

  predicate SkAntAt(s: string, i: nat) {
    i + 7 <= |s| && SkAt(s, i) && s[i + 3] == 'a' && s[i + 4] == 'n' && s[i + 5] == 't' && s[i + 6] == '-'
  }

  predicate AizaAt(s: string, i: nat) {
    i + 4 <= |s| && s[i] == 'A' && s[i + 1] == 'I' && s[i + 2] == 'z' && s[i + 3] == 'a'
  }

  /** Length of the known prefix at position i, 0 if none; the longer one is tried first. */
  function PrefixLen(s: string, i: nat): nat {
    if SkAntAt(s, i) then 7 else if SkAt(s, i) then 3 else if AizaAt(s, i) then 4 else 0
  }

  lemma {:induction false} PrefixesSpelledOut(s: string, i: nat)
    requires i <= |s|
    ensures SK_ANT <= s[i..] <==> SkAntAt(s, i)
    ensures SK <= s[i..] <==> SkAt(s, i)
    ensures AIZA <= s[i..] <==> AizaAt(s, i)
  {
    if SkAntAt(s, i) { assert s[i..][..7] == SK_ANT; }
    if SkAt(s, i) { assert s[i..][..3] == SK; }
    if AizaAt(s, i) { assert s[i..][..4] == AIZA; }
  }

  /** The end of the token characters that begin at position i. */
  function RunEnd(s: string, i: nat): (e: nat)
    requires i <= |s|
    ensures i <= e <= |s|
    ensures e < |s| ==> !IsTokenChar(s[e])
    decreases |s| - i
  {
    if i < |s| && IsTokenChar(s[i]) then RunEnd(s, i + 1) else i
  }

  /** A secret starts here: a known prefix whose token run is long enough. */
  predicate LongAt(s: string, i: nat)
    requires i <= |s|
  {
    PrefixLen(s, i) > 0 && RunEnd(s, i) - i >= MIN_SECRET
  }

  lemma {:induction false} PrefixInRun(s: string, i: nat)
    requires i <= |s|
    ensures i + PrefixLen(s, i) <= RunEnd(s, i)
  {
    RunCovers(s, i, PrefixLen(s, i));
  }

  lemma {:induction false} RunCovers(s: string, i: nat, n: nat)
    requires i + n <= |s| && forall j :: i <= j < i + n ==> IsTokenChar(s[j])
    ensures RunEnd(s, i) == RunEnd(s, i + n)
    decreases n
  {
    if n > 0 { RunCovers(s, i + 1, n - 1); }
  }

  /** From inside a run the end is the same. */
  lemma {:induction false} RunShared(s: string, i: nat, j: nat)
    requires i <= j <= |s| && j <= RunEnd(s, i)
    ensures RunEnd(s, j) == RunEnd(s, i)
    decreases j - i
  {
    if i < j { RunShared(s, i + 1, j); }
  }

  /** A run cannot pass a character that is no token character. */
  lemma {:induction false} RunStops(s: string, i: nat, k: nat)
    requires i <= k <= |s| && (k < |s| ==> !IsTokenChar(s[k]))
    ensures RunEnd(s, i) <= k
    decreases k - i
  {
    if i < k { RunStops(s, i + 1, k); }
  }

  /** The characters that end a token. */
  const TERMINATORS := " \t\n\r\"',;)>`]}"

  lemma {:induction false} TerminatorsExactly(c: char)
    ensures IsTokenChar(c) <==> c !in TERMINATORS
  {
    assert c in TERMINATORS <==>
           || c == ' ' || c == '\t' || c == '\n' || c == '\r' || c == '"' || c == '\'' || c == ','
           || c == ';' || c == ')' || c == '>' || c == '`' || c == ']' || c == '}';
  }

  /** The run from i on is the longest stretch free of terminators. */
  lemma {:induction false} RunExactly(s: string, i: nat)
    requires i <= |s|
    ensures var e := RunEnd(s, i);
            (forall j :: i <= j < e ==> s[j] !in TERMINATORS) && (e < |s| ==> s[e] in TERMINATORS)
    decreases |s| - i
  {
    if i < |s| {
      TerminatorsExactly(s[i]);
      if IsTokenChar(s[i]) { RunExactly(s, i + 1); }
    }
  }

  /** A secret starts where "sk-" or "AIza" does, with twenty characters and no terminator among them. */
  lemma {:induction false} SecretExactly(s: string, i: nat)
    requires i <= |s|
    ensures LongAt(s, i) <==>
            && ("sk-" <= s[i..] || "AIza" <= s[i..])
            && i + 20 <= |s| && forall j :: i <= j < i + 20 ==> s[j] !in " \t\n\r\"',;)>`]}"
  {
    PrefixesSpelledOut(s, i);
    RunExactly(s, i);
  }

  /** The fingerprint: the last four characters behind four asterisks, and from length 12 on the first four in front. */
  lemma {:induction false} FingerprintExactly(key: string)
    requires |key| >= 4
    ensures var tail := key[|key| - 4..];
            MaskKey(key) == Some(if |key| < 12 then "****" + tail else key[..4] + "****" + tail)
  {
  }

  function Shown(token: string): (r: string)
    ensures token != "" ==> r != "" && r[0] == token[0]
    ensures |r| <= |token| && |r| < MIN_SECRET
  {
    if |token| >= MIN_SECRET then MaskKey(token).value else token
  }

  /** Where the scan goes on after position i. */
  function NextPos(s: string, i: nat): (n: nat)
    requires i < |s|
    ensures i < n <= |s|
  {
    PrefixInRun(s, i);
    if PrefixLen(s, i) == 0 then i + 1 else RunEnd(s, i)
  }

  function MaskFrom(s: string, i: nat): string
    requires i <= |s|
    decreases |s| - i
  {
    if i == |s| then "" else Shown(s[i..NextPos(s, i)]) + MaskFrom(s, NextPos(s, i))
  }

  function Mask(s: string): string {
    MaskFrom(s, 0)
  }

  // ----- The scanning loop -----

  method MatchPrefix(msg: string, i: nat) returns (len: nat)
    requires i <= |msg|
    ensures len == PrefixLen(msg, i)
  {
    PrefixesSpelledOut(msg, i);
    var prefixes := [SK_ANT, SK, AIZA];
    var k := 0;
    while k < |prefixes|
      invariant 0 <= k <= |prefixes|
      invariant forall j :: 0 <= j < k ==> !(prefixes[j] <= msg[i..])
    {
      if prefixes[k] <= msg[i..] {
        assert k == 0 || (k == 1 && !(prefixes[0] <= msg[i..])) ||
               (k == 2 && !(prefixes[0] <= msg[i..]) && !(prefixes[1] <= msg[i..]));
        return |prefixes[k]|;
      }
      k := k + 1;
    }
    assert !(prefixes[0] <= msg[i..]) && !(prefixes[1] <= msg[i..]) && !(prefixes[2] <= msg[i..]);
    return 0;
  }

  /** One turn of the scan: what it writes and where it goes on. */
  method Advance(msg: string, i: nat) returns (piece: string, next: nat)
    requires i < |msg|
    ensures next == NextPos(msg, i) && piece == Shown(msg[i..next])
  {
    var len := MatchPrefix(msg, i);
    if len == 0 {
      return [msg[i]], i + 1;
    }
    PrefixInRun(msg, i);
    RunShared(msg, i, i + len);
    next := i + len;
    while next < |msg| && IsTokenChar(msg[next])
      invariant i + len <= next <= |msg|
      invariant RunEnd(msg, next) == RunEnd(msg, i)
    {
      next := next + 1;
    }
    piece := msg[i..next];
    if |piece| >= MIN_SECRET {
      piece := MaskKey(piece).value;
    }
  }

  method MaskMessage(msg: string) returns (out: string)
    ensures out == Mask(msg)
  {
    out := "";
    var i := 0;
    while i < |msg|
      invariant 0 <= i <= |msg|
      invariant Mask(msg) == out + MaskFrom(msg, i)
    {
      var piece, next := Advance(msg, i);
      assert MaskFrom(msg, i) == piece + MaskFrom(msg, next);
      out, i := out + piece, next;
    }
  }

  // ----- What is left in the output -----

  /** No position starts a secret. */
  ghost predicate Safe(s: string) {
    forall i: nat :: i < |s| ==> !LongAt(s, i)
  }

  lemma {:induction false} MaskFirst(s: string, i: nat)
    requires i <= |s|
    ensures i == |s| <==> MaskFrom(s, i) == ""
    ensures i < |s| ==> MaskFrom(s, i)[0] == s[i]
  {
  }

  /** Only 's' and 'A' start a prefix; any other character is copied. */
  lemma {:induction false} MaskPlain(s: string, i: nat)
    requires i < |s| && s[i] != 's' && s[i] != 'A'
    ensures MaskFrom(s, i) == [s[i]] + MaskFrom(s, i + 1)
  {
    assert s[i..i + 1] == [s[i]];
  }

  /** Copying a character in front of masked text never completes a prefix that was not there before. */
  lemma {:induction false} NoNewPrefix(s: string, i: nat)
    requires i < |s|
    ensures PrefixLen([s[i]] + MaskFrom(s, i + 1), 0) > 0 ==> PrefixLen(s, i) > 0
  {
    var after := [s[i]] + MaskFrom(s, i + 1);
    if PrefixLen(after, 0) > 0 {
      MaskFirst(s, i + 1);
      MaskPlain(s, i + 1);
      MaskFirst(s, i + 2);
      if AizaAt(after, 0) {
        MaskPlain(s, i + 2);
        MaskFirst(s, i + 3);
      }
    }
  }

  lemma {:induction false} RunShift(a: string, t: string, j: nat)
    requires j <= |t|
    ensures RunEnd(a + t, |a| + j) == |a| + RunEnd(t, j)
    decreases |t| - j
  {
    if j < |t| && IsTokenChar(t[j]) { RunShift(a, t, j + 1); }
  }

  lemma {:induction false} PrefixShift(a: string, t: string, j: nat)
    requires j <= |t|
    ensures PrefixLen(a + t, |a| + j) == PrefixLen(t, j)
  {
    assert forall k :: j <= k < |t| ==> (a + t)[|a| + k] == t[k];
  }

  /** Putting a head in front keeps text safe, if the head is short and closed off or starts no prefix. */
  lemma SafeBehind(head: string, t: string)
    requires Safe(t)
    requires forall j: nat :: j < |head| ==> !LongAt(head + t, j)
    ensures Safe(head + t)
  {
    forall i: nat | i < |head + t| ensures !LongAt(head + t, i) {
      if i >= |head| {
        RunShift(head, t, i - |head|);
        PrefixShift(head, t, i - |head|);
        assert !LongAt(t, i - |head|);
      }
    }
  }

  /** Masked output contains no position that starts a secret. */
  lemma {:induction false} MaskFromIsSafe(s: string, i: nat)
    requires i <= |s|
    ensures Safe(MaskFrom(s, i))
    decreases |s| - i
  {
    if i < |s| {
      var e := NextPos(s, i);
      var head, tail := Shown(s[i..e]), MaskFrom(s, e);
      MaskFromIsSafe(s, e);
      MaskFirst(s, e);
      if PrefixLen(s, i) == 0 {
        assert head == [s[i]];
        NoNewPrefix(s, i);
      } else {
        forall j: nat | j < |head| ensures !LongAt(head + tail, j) {
          RunStops(head + tail, j, |head|);
        }
      }
      SafeBehind(head, tail);
    }
  }

  lemma MaskIsSafe(s: string)
    ensures Safe(Mask(s))
  {
    MaskFromIsSafe(s, 0);
  }

  /** Text without a secret is left alone. */
  lemma {:induction false} SafeIsFixed(s: string, i: nat)
    requires i <= |s| && Safe(s)
    ensures MaskFrom(s, i) == s[i..]
    decreases |s| - i
  {
    if i < |s| {
      var e := NextPos(s, i);
      SafeIsFixed(s, e);
      assert !LongAt(s, i);
      assert s[i..] == s[i..e] + s[e..];
    }
  }

  lemma MaskIdempotent(s: string)
    ensures Mask(Mask(s)) == Mask(s)
  {
    MaskIsSafe(s);
    SafeIsFixed(Mask(s), 0);
  }

  /** Masking changes a message exactly when it holds a secret. */
  lemma MaskFixedIffSafe(s: string)
    ensures Mask(s) == s <==> Safe(s)
  {
    if Safe(s) { SafeIsFixed(s, 0); }
    MaskIsSafe(s);
  }

  lemma {:induction false} MaskNeverLonger(s: string, i: nat)
    requires i <= |s|
    ensures |MaskFrom(s, i)| <= |s| - i
    decreases |s| - i
  {
    if i < |s| { MaskNeverLonger(s, NextPos(s, i)); }
  }

  // ----- Which characters are touched -----

  /** Position j belongs to a secret: some secret starts at or before it and runs past it. */
  ghost predicate Covered(s: string, j: int) {
    exists i: nat :: i <= j && i <= |s| && LongAt(s, i) && j < RunEnd(s, i)
  }

  datatype Piece = Text(text: string) | Secret(text: string)

  function Source(pieces: seq<Piece>): string {
    if pieces == [] then "" else pieces[0].text + Source(pieces[1..])
  }

  function Output(pieces: seq<Piece>): string {
    if pieces == [] then ""
    else (if pieces[0].Secret? && |pieces[0].text| >= 4 then MaskKey(pieces[0].text).value
          else pieces[0].text) + Output(pieces[1..])
  }

  /** The pieces tile `s` from position `from` on; text pieces hold uncovered characters, secrets whole covered runs. */
  ghost predicate Tiles(s: string, from: nat, pieces: seq<Piece>)
    requires from <= |s|
    decreases |pieces|
  {
    if pieces == [] then from == |s|
    else
      var to := from + |pieces[0].text|;
      && from < to <= |s|
      && pieces[0].text == s[from..to]
      && (pieces[0].Text? ==> forall j :: from <= j < to ==> !Covered(s, j))
      && (pieces[0].Secret? ==> LongAt(s, from) && to == RunEnd(s, from))
      && Tiles(s, to, pieces[1..])
  }

  /** The scan stands between tokens: nothing that started earlier reaches this position. */
  ghost predicate Clear(s: string, from: nat)
    requires from <= |s|
  {
    forall i: nat :: i < from && LongAt(s, i) ==> RunEnd(s, i) <= from
  }

  /** Within one turn only the first position can start a secret, unless it does. */
  lemma TurnStarts(s: string, from: nat, i: nat)
    requires from < |s| && from <= i < NextPos(s, from)
    ensures !LongAt(s, from) ==> !LongAt(s, i)
    ensures LongAt(s, i) ==> RunEnd(s, i) <= NextPos(s, from)
  {
    if PrefixLen(s, from) > 0 { RunShared(s, from, i); }
  }

  lemma TurnClears(s: string, from: nat)
    requires from < |s| && Clear(s, from)
    ensures Clear(s, NextPos(s, from))
    ensures !LongAt(s, from) ==> forall j :: from <= j < NextPos(s, from) ==> !Covered(s, j)
  {
    forall i: nat | from <= i < NextPos(s, from)
      ensures !LongAt(s, from) ==> !LongAt(s, i)
      ensures LongAt(s, i) ==> RunEnd(s, i) <= NextPos(s, from)
    {
      TurnStarts(s, from, i);
    }
  }

  /** What one turn of the scan cuts off. */
  function Head(s: string, from: nat): Piece
    requires from < |s|
  {
    var token := s[from..NextPos(s, from)];
    if LongAt(s, from) then Secret(token) else Text(token)
  }

  /** The pieces the scan cuts a message into. */
  function Pieces(s: string, from: nat): seq<Piece>
    requires from <= |s|
    decreases |s| - from
  {
    if from == |s| then [] else [Head(s, from)] + Pieces(s, NextPos(s, from))
  }

  lemma {:induction false} TilesCons(s: string, from: nat, head: Piece, to: nat, tail: seq<Piece>)
    requires from < to <= |s| && head.text == s[from..to] && Tiles(s, to, tail)
    requires head.Text? ==> forall j :: from <= j < to ==> !Covered(s, j)
    requires head.Secret? ==> LongAt(s, from) && to == RunEnd(s, from)
    ensures Tiles(s, from, [head] + tail)
  {
    assert ([head] + tail)[1..] == tail;
  }

  lemma {:induction false} PiecesTile(s: string, from: nat)
    requires from <= |s| && Clear(s, from)
    ensures Tiles(s, from, Pieces(s, from))
    decreases |s| - from
  {
    if from < |s| {
      TurnClears(s, from);
      PiecesTile(s, NextPos(s, from));
      TilesCons(s, from, Head(s, from), NextPos(s, from), Pieces(s, NextPos(s, from)));
    }
  }

  lemma {:induction false} PiecesCons(head: Piece, tail: seq<Piece>)
    ensures Source([head] + tail) == head.text + Source(tail)
    ensures Output([head] + tail)
            == (if head.Secret? && |head.text| >= 4 then MaskKey(head.text).value else head.text) + Output(tail)
  {
    assert ([head] + tail)[1..] == tail;
  }

  lemma {:induction false} TokenShown(s: string, from: nat)
    requires from < |s|
    ensures var token := s[from..NextPos(s, from)];
            Shown(token) == if LongAt(s, from) then MaskKey(token).value else token
  {
  }

  lemma {:induction false} SliceSplits(s: string, from: nat, to: nat)
    requires from <= to <= |s|
    ensures s[from..] == s[from..to] + s[to..]
  {
  }

  lemma {:induction false} PiecesRender(s: string, from: nat)
    requires from <= |s|
    ensures Source(Pieces(s, from)) == s[from..] && Output(Pieces(s, from)) == MaskFrom(s, from)
    decreases |s| - from
  {
    if from < |s| {
      var to := NextPos(s, from);
      PiecesRender(s, to);
      PiecesCons(Head(s, from), Pieces(s, to));
      TokenShown(s, from);
      SliceSplits(s, from, to);
    }
  }

  /**
   * Every message is a row of pieces, whole secrets and text free of secrets; masking renders each
   * secret as its fingerprint and every other character as it is.
   */
  lemma MaskRewritesSecretsOnly(s: string)
    ensures Tiles(s, 0, Pieces(s, 0)) && Source(Pieces(s, 0)) == s && Output(Pieces(s, 0)) == Mask(s)
  {
    PiecesTile(s, 0);
    PiecesRender(s, 0);
  }
}
