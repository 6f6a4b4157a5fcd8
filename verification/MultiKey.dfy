/**
 * Multi-key channels: the key list kept as text, three maps indexed by key position, and the
 * management actions that rewrite them.  `Row` is what the database stores; `Channel` is the
 * in-memory object a request reads the row into, changes field by field and writes back.
 */
module MultiKey {
  import opened Options
  import opened Delimited

  const ENABLED := 1
  const MANUALLY_DISABLED := 2
  const AUTO_DISABLED := 3

  /** `json` decodes a trimmed text that begins with '[' into the raw elements of a JSON array. */
  type JsonReader = string -> Option<seq<string>>

  datatype Row = Row(
    text: string,
    multi: bool,
    size: int,
    status: map<int, int>,
    time: map<int, int>,
    reason: map<int, string>)

  function JsonKeys(json: JsonReader, text: string): Option<seq<string>> {
    var t := TrimSpace(text);
    if t != "" && t[0] == '[' then json(t) else None
  }

  function Lines(text: string): (keys: seq<string>)
    ensures |keys| >= 1
  {
    Split(Trim(text, Only('\n')), '\n')
  }

  /** The key list as every reader of the channel sees it. */
  function KeysOf(json: JsonReader, text: string): seq<string> {
    if text == "" then []
    else match JsonKeys(json, text)
      case Some(keys) => keys
      case None => Lines(text)
  }

  /** The key count as a write records it: an empty JSON array falls back to counting lines. */
  function SizeOf(json: JsonReader, text: string): nat {
    if text == "" then 0
    else match JsonKeys(json, text)
      case Some(keys) => if keys == [] then |Lines(text)| else |keys|
      case None => |Lines(text)|
  }

  // ----- What a key looks like to get_key_status -----

  datatype KeyView = KeyView(status: int, time: int, reason: string)

  function StatusAt(status: map<int, int>, i: int): int {
    if i in status then status[i] else ENABLED
  }

  function ViewOf(status: map<int, int>, time: map<int, int>, reason: map<int, string>, i: int): KeyView {
    var s := StatusAt(status, i);
    if s == ENABLED then KeyView(s, 0, "")
    else KeyView(s, if i in time then time[i] else 0, if i in reason then reason[i] else "")
  }

  function ViewAt(row: Row, i: int): KeyView {
    ViewOf(row.status, row.time, row.reason, i)
  }

  // ----- Re-indexing -----

  /** The positions below `n` that are not dropped, in ascending order. */
  function Kept(n: nat, dropped: set<int>): (idx: seq<nat>)
    ensures forall j :: 0 <= j < |idx| ==> idx[j] < n
  {
    if n == 0 then []
    else if n - 1 in dropped then Kept(n - 1, dropped)
    else Kept(n - 1, dropped) + [n - 1]
  }

  function Pick<T>(s: seq<T>, idx: seq<nat>): (r: seq<T>)
    requires forall j :: 0 <= j < |idx| ==> idx[j] < |s|
    ensures |r| == |idx| && forall j :: 0 <= j < |idx| ==> r[j] == s[idx[j]]
  {
    seq(|idx|, j requires 0 <= j < |idx| => s[idx[j]])
  }

  /** The map seen through the new positions: position j of the result is position idx[j] of `m`. */
  function Reindex<T>(m: map<int, T>, idx: seq<nat>): map<int, T> {
    if idx == [] then map[] else Carry(Reindex(m, idx[..|idx| - 1]), |idx| - 1, m, idx[|idx| - 1])
  }

  /** One entry copied to its new position, if there is one. */
  function Carry<T>(target: map<int, T>, j: int, source: map<int, T>, i: int): map<int, T> {
    if i in source then target[j := source[i]] else target
  }

  lemma {:induction false} ReindexMeaning<T>(m: map<int, T>, idx: seq<nat>)
    ensures forall j: int :: j in Reindex(m, idx) <==> 0 <= j < |idx| && idx[j] in m
    ensures forall j: int :: j in Reindex(m, idx) ==> Reindex(m, idx)[j] == m[idx[j]]
  {
    if idx != [] { ReindexMeaning(m, idx[..|idx| - 1]); }
  }

  function OnlyDisabled(status: map<int, int>): map<int, int> {
    map i | i in status && status[i] != ENABLED :: status[i]
  }

  function Restrict<T>(m: map<int, T>, status: map<int, int>): map<int, T> {
    map i | i in m && StatusAt(status, i) != ENABLED :: m[i]
  }

  /** The survivors are exactly the positions not dropped, in their old order. */
  lemma {:induction false} KeptInOrder(n: nat, dropped: set<int>)
    ensures var idx := Kept(n, dropped);
            && (forall j :: 0 <= j < |idx| ==> idx[j] !in dropped)
            && (forall j, k :: 0 <= j < k < |idx| ==> idx[j] < idx[k])
            && (forall i: nat :: i < n && i !in dropped ==> i in idx)
  {
    if n > 0 { KeptInOrder(n - 1, dropped); }
  }

  lemma {:induction false} NothingDropped(n: nat, dropped: set<int>)
    ensures |Kept(n, dropped)| <= n
    ensures |Kept(n, dropped)| == n <==> forall i :: 0 <= i < n ==> i !in dropped
  {
    if n > 0 { NothingDropped(n - 1, dropped); }
  }

  lemma {:induction false} PickSnoc<T>(s: seq<T>, idx: seq<nat>, i: nat)
    requires i < |s| && forall j :: 0 <= j < |idx| ==> idx[j] < |s|
    ensures Pick(s, idx + [i]) == Pick(s, idx) + [s[i]]
  {
  }

  lemma {:induction false} ReindexSnoc<T>(m: map<int, T>, idx: seq<nat>, i: nat)
    ensures Reindex(m, idx + [i]) == Carry(Reindex(m, idx), |idx|, m, i)
  {
    assert (idx + [i])[..|idx|] == idx;
  }

  lemma {:induction false} CarryRestricted<T>(target: map<int, T>, j: int, m: map<int, T>, status: map<int, int>,
                                              i: int)
    ensures Carry(target, j, Restrict(m, status), i)
         == if StatusAt(status, i) != ENABLED then Carry(target, j, m, i) else target
  {
  }

  lemma {:induction false} CarryDisabled(target: map<int, int>, j: int, status: map<int, int>, i: int)
    ensures Carry(target, j, OnlyDisabled(status), i)
         == if StatusAt(status, i) != ENABLED then target[j := StatusAt(status, i)] else target
  {
  }

  // ----- Actions as functions on the row read inside the lock -----

  datatype Action =
    | DisableKey(index: Option<int>)
    | EnableKey(index: Option<int>)
    | EnableAllKeys
    | DisableAllKeys
    | DeleteKey(index: Option<int>)
    | AddKeys(keys: seq<string>)
    | DeleteDisabledKeys
    | Unsupported

  /** Every enabled position below `n` becomes manually disabled; nothing else changes. */
  function DisableAllStatus(status: map<int, int>, n: int): (r: map<int, int>)
    ensures forall i :: StatusAt(r, i) ==
                        if 0 <= i < n && StatusAt(status, i) == ENABLED then MANUALLY_DISABLED else StatusAt(status, i)
    ensures forall i :: i in r ==> i in status || 0 <= i < n
    decreases if n < 0 then 0 else n
  {
    if n <= 0 then status
    else
      var r := DisableAllStatus(status, n - 1);
      if StatusAt(r, n - 1) == ENABLED then r[n - 1 := MANUALLY_DISABLED] else r
  }

  function WithKeys(row: Row, keys: seq<string>, status: map<int, int>, time: map<int, int>,
                    reason: map<int, string>): Row {
    row.(text := Join(keys, '\n'), size := |keys|, status := status, time := time, reason := reason)
  }

  predicate Deletes(action: Action) {
    action.DeleteKey? || action.DeleteDisabledKeys?
  }

  /** Whether a delete action drops the key at position i. */
  predicate Drops(action: Action, status: map<int, int>, i: int)
    requires action.DeleteKey? ==> action.index.Some?
  {
    if action.DeleteKey? then i == action.index.value else StatusAt(status, i) == AUTO_DISABLED
  }

  function Dropped(action: Action, status: map<int, int>, n: nat): set<int>
    requires action.DeleteKey? ==> action.index.Some?
  {
    set i: int | 0 <= i < n && Drops(action, status, i)
  }

  /** The positions a delete action keeps. */
  function Survivors(action: Action, status: map<int, int>, n: nat): (idx: seq<nat>)
    requires action.DeleteKey? ==> action.index.Some?
    ensures forall j :: 0 <= j < |idx| ==> idx[j] < n
  {
    Kept(n, Dropped(action, status, n))
  }

  /** The times or reasons a delete carries over: all of them, or those of keys that are not enabled. */
  function Carried<T>(action: Action, m: map<int, T>, status: map<int, int>): map<int, T> {
    if action.DeleteKey? then m else Restrict(m, status)
  }

  /** The survivors with their entries at their new positions; refused if none is left, or none was dropped. */
  function DeleteEdited(json: JsonReader, row: Row, action: Action): Option<Row>
    requires action.DeleteKey? ==> action.index.Some?
  {
    var keys := KeysOf(json, row.text);
    var idx := Survivors(action, row.status, |keys|);
    if (if action.DeleteKey? then |idx| == 0 else |idx| == |keys|) then None
    else Some(WithKeys(row, Pick(keys, idx), Reindex(OnlyDisabled(row.status), idx),
                       Reindex(Carried(action, row.time, row.status), idx),
                       Reindex(Carried(action, row.reason, row.status), idx)))
  }

  /** The new keys behind the old ones; refused if there are none. */
  function AddedTo(row: Row, keys: seq<string>, news: seq<string>): Option<Row> {
    if news == [] then None else Some(row.(text := Join(keys + news, '\n'), size := |keys + news|))
  }

  predicate InRange(row: Row, index: Option<int>) {
    index.Some? && 0 <= index.value < row.size
  }

  /** The row after the in-memory changes of an action, or None when the request is turned away unwritten. */
  function Edited(json: JsonReader, row: Row, action: Action): Option<Row> {
    match action
    case DisableKey(index) =>
      if !InRange(row, index) then None
      else Some(row.(status := row.status[index.value := MANUALLY_DISABLED]))
    case EnableKey(index) =>
      if !InRange(row, index) then None
      else Some(row.(status := row.status - {index.value}, time := row.time - {index.value},
                     reason := row.reason - {index.value}))
    case EnableAllKeys => Some(row.(status := map[], time := map[], reason := map[]))
    case DisableAllKeys =>
      if forall i :: 0 <= i < row.size ==> StatusAt(row.status, i) != ENABLED then None
      else Some(row.(status := DisableAllStatus(row.status, row.size)))
    case DeleteKey(index) => if !InRange(row, index) then None else DeleteEdited(json, row, action)
    case AddKeys(requested) =>
      if !row.multi then None
      else AddedTo(row, KeysOf(json, row.text), Fresh(KeysOf(json, row.text), Cleaned(requested)))
    case DeleteDisabledKeys => DeleteEdited(json, row, action)
    case Unsupported => None
  }

  /**
   * Writing an edited row over the stored one.  For a multi-key channel the count is recomputed and
   * statuses past it are cleared; a blank key text is not written, the stored one stays.
   */
  function Written(json: JsonReader, stored: Row, work: Row): Row {
    var text := if work.text == "" then stored.text else work.text;
    if work.multi then
      var size := SizeOf(json, text);
      work.(text := text, size := size, status := map i | i in work.status && i < size :: work.status[i])
    else work.(text := text)
  }

  /** One uninterrupted read, edit and write of the stored row. */
  function Serve(json: JsonReader, stored: Row, action: Action): Row {
    match Edited(json, stored, action)
    case None => stored
    case Some(work) => Written(json, stored, work)
  }

  // ----- The in-memory channel -----

  class Channel {
    var text: string
    var multi: bool
    var size: int
    var status: map<int, int>
    var time: map<int, int>
    var reason: map<int, string>

    function Value(): Row
      reads this
    {
      Row(text, multi, size, status, time, reason)
    }

    constructor (row: Row)
      ensures Value() == row
    {
      text, multi, size, status, time, reason := row.text, row.multi, row.size, row.status, row.time, row.reason;
    }

    method SetStatus(ghost json: JsonReader, action: Action) returns (edited: bool)
      requires action.DisableKey? || action.EnableKey?
      modifies this
      ensures edited == Edited(json, old(Value()), action).Some?
      ensures Value() == if edited then Edited(json, old(Value()), action).value else old(Value())
    {
      if action.index.None? || action.index.value < 0 || action.index.value >= size {
        return false;
      }
      var i := action.index.value;
      if action.DisableKey? {
        status := status[i := MANUALLY_DISABLED];
      } else {
        status, time, reason := status - {i}, time - {i}, reason - {i};
      }
      return true;
    }

    method EnableAll(ghost json: JsonReader)
      modifies this
      ensures Edited(json, old(Value()), EnableAllKeys) == Some(Value())
    {
      status, time, reason := map[], map[], map[];
    }

    method DisableAll(ghost json: JsonReader) returns (edited: bool)
      modifies this
      ensures edited == Edited(json, old(Value()), DisableAllKeys).Some?
      ensures Value() == if edited then Edited(json, old(Value()), DisableAllKeys).value else old(Value())
    {
      var work, count := status, 0;
      var i := 0;
      while i < size
        invariant 0 <= i && (i == 0 || i <= size)
        invariant work == DisableAllStatus(status, i)
        invariant count >= 0 && (count == 0 <==> forall k :: 0 <= k < i ==> StatusAt(status, k) != ENABLED)
      {
        if StatusAt(work, i) == ENABLED {
          work := work[i := MANUALLY_DISABLED];
          count := count + 1;
        }
        i := i + 1;
      }
      if count == 0 { return false; }
      status := work;
      return true;
    }

    method Delete(json: JsonReader, action: Action) returns (edited: bool)
      requires Deletes(action)
      modifies this
      ensures edited == Edited(json, old(Value()), action).Some?
      ensures Value() == if edited then Edited(json, old(Value()), action).value else old(Value())
    {
      if action.DeleteKey? && (action.index.None? || action.index.value < 0 || action.index.value >= size) {
        return false;
      }
      var rest := RemoveKeys(json, Value(), action);
      if rest.None? { return false; }
      var work := rest.value;
      text, size, status, time, reason := work.text, work.size, work.status, work.time, work.reason;
      return true;
    }

    method Add(json: JsonReader, requested: seq<string>) returns (edited: bool)
      modifies this
      ensures edited == Edited(json, old(Value()), AddKeys(requested)).Some?
      ensures Value() == if edited then Edited(json, old(Value()), AddKeys(requested)).value else old(Value())
    {
      if !multi { return false; }
      var added := Clean(requested);
      if |added| == 0 { return false; }
      var existing := KeysOf(json, text);
      var news := SelectFresh(existing, added);
      if |news| == 0 { return false; }
      text, size := Join(existing + news, '\n'), |existing + news|;
      return true;
    }
  }

  /** Both delete actions: one pass over the keys that copies the survivors to new positions. */
  method CopySurvivors(keys: seq<string>, action: Action, status: map<int, int>, time: map<int, int>,
                       reason: map<int, string>)
    returns (remaining: seq<string>, newStatus: map<int, int>, newTime: map<int, int>, newReason: map<int, string>,
             deleted: nat)
    requires action.DeleteDisabledKeys? || (action.DeleteKey? && action.index.Some?)
    ensures var idx := Survivors(action, status, |keys|);
            && remaining == Pick(keys, idx)
            && newStatus == Reindex(OnlyDisabled(status), idx)
            && newTime == Reindex(Carried(action, time, status), idx)
            && newReason == Reindex(Carried(action, reason, status), idx)
    ensures deleted == |keys| - |remaining|
  {
    ghost var dropped := Dropped(action, status, |keys|);
    remaining, newStatus, newTime, newReason, deleted := [], map[], map[], map[], 0;
    for i := 0 to |keys|
      invariant |remaining| == |Kept(i, dropped)| && deleted == i - |remaining|
      invariant remaining == Pick(keys, Kept(i, dropped))
      invariant newStatus == Reindex(OnlyDisabled(status), Kept(i, dropped))
      invariant newTime == Reindex(Carried(action, time, status), Kept(i, dropped))
      invariant newReason == Reindex(Carried(action, reason, status), Kept(i, dropped))
    {
      DropsMeaning(action, status, |keys|, i);
      if Drops(action, status, i) {
        deleted := deleted + 1;
      } else {
        PickAdvances(keys, dropped, i);
        ReindexAdvances(OnlyDisabled(status), dropped, i);
        ReindexAdvances(Carried(action, time, status), dropped, i);
        ReindexAdvances(Carried(action, reason, status), dropped, i);
        var j := |remaining|;
        remaining := remaining + [keys[i]];
        newStatus := CopyStatus(status, i, newStatus, j);
        newTime := CopyEntry(action, status, time, i, newTime, j);
        newReason := CopyEntry(action, status, reason, i, newReason, j);
      }
    }
  }

  /** The row without the deleted keys, unless the action is refused. */
  method RemoveKeys(json: JsonReader, row: Row, action: Action) returns (rest: Option<Row>)
    requires action.DeleteDisabledKeys? || (action.DeleteKey? && action.index.Some?)
    ensures rest == DeleteEdited(json, row, action)
  {
    var keys := KeysOf(json, row.text);
    var remaining, newStatus, newTime, newReason, deleted :=
      CopySurvivors(keys, action, row.status, row.time, row.reason);
    if action.DeleteKey? && |remaining| == 0 { return None; }
    if action.DeleteDisabledKeys? && deleted == 0 { return None; }
    return Some(row.(text := Join(remaining, '\n'), size := |remaining|, status := newStatus, time := newTime,
                     reason := newReason));
  }

  /** Only a status other than enabled is copied. */
  method CopyStatus(status: map<int, int>, i: int, target: map<int, int>, j: int) returns (r: map<int, int>)
    ensures r == Carry(target, j, OnlyDisabled(status), i)
  {
    CarryDisabled(target, j, status, i);
    r := target;
    var s := StatusAt(status, i);
    if s != ENABLED { r := r[j := s]; }
  }

  /** A time or reason is copied if there is one; `delete_disabled_keys` copies none for an enabled key. */
  method CopyEntry<T>(action: Action, status: map<int, int>, m: map<int, T>, i: int, target: map<int, T>, j: int)
    returns (r: map<int, T>)
    ensures r == Carry(target, j, Carried(action, m, status), i)
  {
    CarryRestricted(target, j, m, status, i);
    r := target;
    if (action.DeleteKey? || StatusAt(status, i) != ENABLED) && i in m { r := r[j := m[i]]; }
  }

  lemma {:induction false} DropsMeaning(action: Action, status: map<int, int>, n: nat, i: nat)
    requires i < n && (action.DeleteKey? ==> action.index.Some?)
    ensures i in Dropped(action, status, n) <==> Drops(action, status, i)
  {
  }

  lemma {:induction false} PickAdvances(keys: seq<string>, dropped: set<int>, i: nat)
    requires i < |keys| && i !in dropped
    ensures Pick(keys, Kept(i + 1, dropped)) == Pick(keys, Kept(i, dropped)) + [keys[i]]
  {
    PickSnoc(keys, Kept(i, dropped), i);
  }

  lemma {:induction false} ReindexAdvances<T>(m: map<int, T>, dropped: set<int>, i: nat)
    requires i !in dropped
    ensures Reindex(m, Kept(i + 1, dropped)) == Carry(Reindex(m, Kept(i, dropped)), |Kept(i, dropped)|, m, i)
  {
    ReindexSnoc(m, Kept(i, dropped), i);
  }

  class Store {
    var row: Row

    constructor (row: Row)
      ensures this.row == row
    {
      this.row := row;
    }

    /**
     * The part of a request that runs under the channel's lock.  The row is read again inside the
     * lock; only when that read fails does the request fall back on the snapshot taken before it.
     */
    method Manage(json: JsonReader, snapshot: Row, action: Action, rereadOk: bool, writeOk: bool)
      returns (written: bool)
      modifies this
      ensures var base := if rereadOk then old(row) else snapshot;
              && written == (Edited(json, base, action).Some? && writeOk)
              && row == if written then Written(json, old(row), Edited(json, base, action).value) else old(row)
      ensures rereadOk && writeOk ==> row == Serve(json, old(row), action)
    {
      var channel := new Channel(if rereadOk then row else snapshot);
      var edited := false;
      match action {
        case DisableKey(_) => edited := channel.SetStatus(json, action);
        case EnableKey(_) => edited := channel.SetStatus(json, action);
        case EnableAllKeys =>
          channel.EnableAll(json);
          edited := true;
        case DisableAllKeys => edited := channel.DisableAll(json);
        case DeleteKey(_) => edited := channel.Delete(json, action);
        case AddKeys(keys) => edited := channel.Add(json, keys);
        case DeleteDisabledKeys => edited := channel.Delete(json, action);
        case Unsupported =>
      }
      written := edited && writeOk;
      if written {
        row := Written(json, row, channel.Value());
      }
    }
  }
}
