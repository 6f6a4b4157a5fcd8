/**
 * The multi-key functions spelled out: the keys of a text, what a key shows, when an action is turned
 * away, and what each action does to every entry.  Statuses are written as the numbers that are stored.
 */
module MultiKeyMeaning {
  import opened Options
  import opened Delimited
  import opened MultiKey
  import opened MultiKeyLaws

  // ----- Reading -----

  /** A text that decodes as JSON and whose first visible character is '[' is that list; any other is lines. */
  lemma {:induction false} KeysOfMeaning(json: JsonReader, text: string)
    ensures var t, lines := TrimSpace(text), Split(Trim(text, Only('\n')), '\n');
            var decoded := t != "" && t[0] == '[' && json(t).Some?;
            && (text == "" ==> KeysOf(json, text) == [] && SizeOf(json, text) == 0)
            && (text != "" && decoded ==>
                  && KeysOf(json, text) == json(t).value
                  && SizeOf(json, text) == if json(t).value == [] then |lines| else |json(t).value|)
            && (text != "" && !decoded ==> KeysOf(json, text) == lines && SizeOf(json, text) == |lines|)
  {
  }

  function EntryOr<T>(m: map<int, T>, i: int, none: T): T {
    if i in m then m[i] else none
  }

  /** A key without a status is enabled (1); only one that is not enabled shows a time and a reason. */
  lemma {:induction false} ViewMeaning(row: Row, i: int)
    ensures ViewAt(row, i) ==
            if i in row.status && row.status[i] != 1
            then KeyView(row.status[i], EntryOr(row.time, i, 0), EntryOr(row.reason, i, ""))
            else KeyView(1, 0, "")
  {
  }

  // ----- Refusals -----

  predicate OutOfRange(row: Row, index: Option<int>) {
    index.None? || index.value < 0 || index.value >= row.size
  }

  /** Of n positions none is left besides k. */
  predicate AtMostThis(n: nat, k: int) {
    n == 0 || (n == 1 && k == 0)
  }

  /** When an action is turned away without a write. */
  lemma {:induction false} RefusedExactly(json: JsonReader, row: Row, action: Action)
    ensures Edited(json, row, action).None? <==>
            match action
            case DisableKey(index) => OutOfRange(row, index)
            case EnableKey(index) => OutOfRange(row, index)
            case EnableAllKeys => false
            case DisableAllKeys => forall i :: 0 <= i < row.size ==> i in row.status && row.status[i] != 1
            case DeleteKey(index) =>
              OutOfRange(row, index) || AtMostThis(|KeysOf(json, row.text)|, index.value)
            case AddKeys(requested) =>
              !row.multi || forall k :: k in Cleaned(requested) ==> k in KeysOf(json, row.text)
            case DeleteDisabledKeys =>
              forall i :: 0 <= i < |KeysOf(json, row.text)| ==> !(i in row.status && row.status[i] == 3)
            case Unsupported => true
  {
    match action
    case DeleteKey(index) => if !OutOfRange(row, index) { NoneLeft(json, row, index.value); }
    case AddKeys(requested) => NothingNew(KeysOf(json, row.text), Cleaned(requested));
    case DeleteDisabledKeys => NoneDisabled(json, row);
    case DisableAllKeys =>
      assert forall i :: StatusAt(row.status, i) != ENABLED <==> i in row.status && row.status[i] != 1;
    case _ =>
  }

  lemma {:induction false} NoneDisabled(json: JsonReader, row: Row)
    ensures Edited(json, row, DeleteDisabledKeys).None? <==>
            forall i :: 0 <= i < |KeysOf(json, row.text)| ==> !(i in row.status && row.status[i] == 3)
  {
    DeleteDisabledEdits(json, row);
    assert forall i :: StatusAt(row.status, i) == AUTO_DISABLED <==> i in row.status && row.status[i] == 3;
  }

  lemma {:induction false} NoneLeft(json: JsonReader, row: Row, k: int)
    ensures SurvivorsOf(json, row, DeleteKey(Some(k))) == [] <==> AtMostThis(|KeysOf(json, row.text)|, k)
  {
    var idx, n := SurvivorsOf(json, row, DeleteKey(Some(k))), |KeysOf(json, row.text)|;
    SurvivorsMeaning(json, row, DeleteKey(Some(k)));
    if idx != [] {
      assert idx[0] in idx;
    } else if n > 0 {
      assert 0 !in idx && (n > 1 ==> 1 !in idx);
    }
  }

  lemma {:induction false} NothingNew(existing: seq<string>, added: seq<string>)
    ensures Fresh(existing, added) == [] <==> forall k :: k in added ==> k in existing
  {
    FreshMeaning(existing, added);
    if Fresh(existing, added) != [] { assert Fresh(existing, added)[0] in Fresh(existing, added); }
  }

  // ----- Writing -----

  /** A blank text keeps the stored one; a multi-key row is counted again and loses the statuses past the count. */
  lemma {:induction false} WrittenMeaning(json: JsonReader, stored: Row, work: Row)
    ensures var w := Written(json, stored, work);
            && w.text == (if work.text == "" then stored.text else work.text)
            && w.multi == work.multi && w.time == work.time && w.reason == work.reason
            && w.size == (if work.multi then SizeOf(json, w.text) else work.size)
            && (forall i :: i in w.status <==> i in work.status && (work.multi ==> i < w.size))
            && (forall i :: i in w.status ==> w.status[i] == work.status[i])
  {
  }

  /** A request reads, edits and writes; one that is turned away leaves the row. */
  lemma {:induction false} ServeMeaning(json: JsonReader, row: Row, action: Action)
    ensures Serve(json, row, action) ==
            if Edited(json, row, action).None? then row else Written(json, row, Edited(json, row, action).value)
  {
  }

  // ----- Status actions, entry by entry -----

  /** The same entries, or the same but for position k. */
  ghost predicate SameEntries<T(!new)>(m: map<int, T>, n: map<int, T>) {
    forall j :: (j in n <==> j in m) && (j in m ==> n[j] == m[j])
  }

  ghost predicate WithoutEntry<T(!new)>(m: map<int, T>, n: map<int, T>, k: int) {
    k !in n && forall j :: j != k ==> (j in n <==> j in m) && (j in m ==> n[j] == m[j])
  }

  /** enable_key drops the entry of that key from all three maps and touches no other. */
  lemma {:induction false} EnableKeyEntries(json: JsonReader, row: Row, k: int)
    requires 0 <= k < row.size
    ensures var work := Edited(json, row, EnableKey(Some(k))).value;
            && work.text == row.text && work.size == row.size && work.multi == row.multi
            && WithoutEntry(row.status, work.status, k)
            && WithoutEntry(row.time, work.time, k) && WithoutEntry(row.reason, work.reason, k)
  {
  }

  /** disable_key sets that key's status to 2 and leaves every other status, all times and all reasons. */
  lemma {:induction false} DisableKeyEntries(json: JsonReader, row: Row, k: int)
    requires 0 <= k < row.size
    ensures var work := Edited(json, row, DisableKey(Some(k))).value;
            && work.text == row.text && work.size == row.size && work.multi == row.multi
            && k in work.status && work.status[k] == 2
            && WithoutEntry(row.status, work.status - {k}, k)
            && SameEntries(row.time, work.time) && SameEntries(row.reason, work.reason)
  {
  }

  /** disable_all_keys sets every enabled key below the size to 2 and leaves the rest, all times and all reasons. */
  lemma {:induction false} DisableAllEntries(json: JsonReader, row: Row)
    requires Edited(json, row, DisableAllKeys).Some?
    ensures var work := Edited(json, row, DisableAllKeys).value;
            && work.text == row.text && work.size == row.size && work.multi == row.multi
            && (forall i :: 0 <= i < row.size && (i !in row.status || row.status[i] == 1) ==>
                  i in work.status && work.status[i] == 2)
            && (forall i :: !(0 <= i < row.size && (i !in row.status || row.status[i] == 1)) ==>
                  EntryOr(work.status, i, 1) == EntryOr(row.status, i, 1))
            && SameEntries(row.time, work.time) && SameEntries(row.reason, work.reason)
  {
    var r := DisableAllStatus(row.status, row.size);
    forall i
      ensures EntryOr(r, i, 1) == if 0 <= i < row.size && ShownEnabled(row, i) then 2 else EntryOr(row.status, i, 1)
    {
      DisabledEntry(row.status, row.size, i);
    }
    forall i | 0 <= i < row.size && ShownEnabled(row, i) ensures i in r && r[i] == 2 {
      assert EntryOr(r, i, 1) == 2;
    }
  }

  lemma {:induction false} DisabledEntry(status: map<int, int>, n: int, i: int)
    ensures var was := EntryOr(status, i, 1);
            EntryOr(DisableAllStatus(status, n), i, 1) == if 0 <= i < n && was == 1 then 2 else was
  {
    assert StatusAt(DisableAllStatus(status, n), i) == EntryOr(DisableAllStatus(status, n), i, 1);
  }

  /** enable_all_keys empties all three maps. */
  lemma {:induction false} EnableAllEntries(json: JsonReader, row: Row)
    ensures Edited(json, row, EnableAllKeys) == Some(row.(status := map[], time := map[], reason := map[]))
  {
  }

  /** A key shown as manually disabled, with whatever time and reason are stored for it. */
  function ShownDisabled(row: Row, i: int): KeyView {
    KeyView(2, EntryOr(row.time, i, 0), EntryOr(row.reason, i, ""))
  }

  predicate ShownEnabled(row: Row, i: int) {
    i !in row.status || row.status[i] == 1
  }

  /** What every key shows after a status action. */
  lemma {:induction false} StatusViews(json: JsonReader, row: Row, action: Action, i: int)
    requires row.multi && 0 <= i < row.size && i < SizeOf(json, row.text) && SetsStatus(action)
    ensures ViewAt(Serve(json, row, action), i) ==
            match action
            case DisableKey(index) => if index == Some(i) then ShownDisabled(row, i) else ViewAt(row, i)
            case EnableKey(index) => if index == Some(i) then KeyView(1, 0, "") else ViewAt(row, i)
            case EnableAllKeys => KeyView(1, 0, "")
            case _ => if ShownEnabled(row, i) then ShownDisabled(row, i) else ViewAt(row, i)
  {
    var edited := Edited(json, row, action);
    if edited.Some? {
      EditedStatusText(json, row, action);
      WrittenMeaning(json, row, edited.value);
      ServeMeaning(json, row, action);
      ViewMeaning(Serve(json, row, action), i);
      ViewMeaning(row, i);
      EditedEntries(json, row, action, i);
    } else {
      RefusedExactly(json, row, action);
      ViewMeaning(row, i);
    }
  }

  lemma {:induction false} EditedStatusText(json: JsonReader, row: Row, action: Action)
    requires SetsStatus(action) && Edited(json, row, action).Some?
    ensures Edited(json, row, action).value.text == row.text && Edited(json, row, action).value.multi == row.multi
  {
  }

  /** The edited entries of one position. */
  lemma {:induction false} EditedEntries(json: JsonReader, row: Row, action: Action, i: int)
    requires SetsStatus(action) && Edited(json, row, action).Some? && 0 <= i < row.size
    ensures var work := Edited(json, row, action).value;
            var view := if i in work.status && work.status[i] != 1
                        then KeyView(work.status[i], EntryOr(work.time, i, 0), EntryOr(work.reason, i, ""))
                        else KeyView(1, 0, "");
            view == match action
                    case DisableKey(index) => if index == Some(i) then ShownDisabled(row, i) else ViewAt(row, i)
                    case EnableKey(index) => if index == Some(i) then KeyView(1, 0, "") else ViewAt(row, i)
                    case EnableAllKeys => KeyView(1, 0, "")
                    case _ => if ShownEnabled(row, i) then ShownDisabled(row, i) else ViewAt(row, i)
  {
    ViewMeaning(row, i);
    match action
    case DisableKey(index) => DisableKeyEntries(json, row, index.value);
    case EnableKey(index) => EnableKeyEntries(json, row, index.value);
    case DisableAllKeys => DisableAllEntries(json, row);
    case _ =>
  }

  // ----- Delete actions, entry by entry -----

  /** The survivors: every position but the named one, or every position whose status is not 3, ascending. */
  lemma {:induction false} SurvivorsMeaning(json: JsonReader, row: Row, action: Action)
    requires Deletes(action) && (action.DeleteKey? ==> action.index.Some?)
    ensures var idx, n := SurvivorsOf(json, row, action), |KeysOf(json, row.text)|;
            && (forall j, k :: 0 <= j < k < |idx| ==> idx[j] < idx[k])
            && (forall i: nat :: i in idx <==>
                  && i < n
                  && if action.DeleteKey? then i != action.index.value else !(i in row.status && row.status[i] == 3))
  {
    SurvivorsInOrder(json, row, action);
    forall i: nat | i in SurvivorsOf(json, row, action) ensures i < |KeysOf(json, row.text)| {
    }
  }

  /** Position j of `after` holds what position idx[j] of `before` did, if it is carried over, else nothing. */
  ghost predicate MovedEntry<T>(before: map<int, T>, after: map<int, T>, idx: seq<nat>, j: int, carried: bool) {
    && (j in after <==> 0 <= j < |idx| && idx[j] in before && carried)
    && (j in after ==> after[j] == before[idx[j]])
  }

  /** The entry that comes to position j is that of a key which is not enabled. */
  predicate FromDisabled(row: Row, idx: seq<nat>, j: int) {
    0 <= j < |idx| && !ShownEnabled(row, idx[j])
  }

  lemma {:induction false} StatusMoved(row: Row, idx: seq<nat>, j: int)
    ensures MovedEntry(row.status, Reindex(OnlyDisabled(row.status), idx), idx, j, FromDisabled(row, idx, j))
  {
    ReindexMeaning(OnlyDisabled(row.status), idx);
  }

  lemma {:induction false} EntryMoved<T>(row: Row, action: Action, m: map<int, T>, idx: seq<nat>, j: int)
    ensures MovedEntry(m, Reindex(Carried(action, m, row.status), idx), idx, j,
                       action.DeleteKey? || FromDisabled(row, idx, j))
  {
    ReindexMeaning(Carried(action, m, row.status), idx);
  }

  /**
   * What position j of a delete's result holds: the old position's status unless it is 1; its time and
   * reason, which delete_disabled_keys carries over only for a key that is not enabled.
   */
  lemma {:induction false} DeletedEntries(json: JsonReader, row: Row, action: Action, j: int) returns (work: Row)
    requires Deletes(action) && Edited(json, row, action).Some?
    ensures Edited(json, row, action) == Some(work)
    ensures var idx := SurvivorsOf(json, row, action);
            && MovedEntry(row.status, work.status, idx, j, FromDisabled(row, idx, j))
            && MovedEntry(row.time, work.time, idx, j, action.DeleteKey? || FromDisabled(row, idx, j))
            && MovedEntry(row.reason, work.reason, idx, j, action.DeleteKey? || FromDisabled(row, idx, j))
  {
    var idx := SurvivorsOf(json, row, action);
    work := DeletedMaps(json, row, action);
    StatusMoved(row, idx, j);
    EntryMoved(row, action, row.time, idx, j);
    EntryMoved(row, action, row.reason, idx, j);
  }

  /** The keys of a delete's result: those of the survivors, one per line, and their number. */
  lemma {:induction false} DeletedText(json: JsonReader, row: Row, action: Action) returns (keys: seq<string>)
    requires Deletes(action) && Edited(json, row, action).Some?
    ensures var idx, work := SurvivorsOf(json, row, action), Edited(json, row, action).value;
            && work.text == Join(keys, '\n') && work.size == |keys| == |idx| && work.multi == row.multi
            && forall i :: 0 <= i < |idx| ==> keys[i] == KeysOf(json, row.text)[idx[i]]
  {
    keys := Remaining(json, row, action);
  }

  // ----- Additions -----

  /** add_keys appends, to the text and the count, the requested keys trimmed, not blank, not there yet, each once. */
  lemma {:induction false} AddedEntries(json: JsonReader, row: Row, requested: seq<string>) returns (news: seq<string>)
    requires Edited(json, row, AddKeys(requested)).Some?
    ensures var keys := KeysOf(json, row.text);
            && Edited(json, row, AddKeys(requested)) ==
               Some(row.(text := Join(keys + news, '\n'), size := |keys| + |news|))
            && news != [] && (forall i, j :: 0 <= i < j < |news| ==> news[i] != news[j])
            && (forall k :: k in news <==>
                  k != "" && k !in keys && exists i :: 0 <= i < |requested| && TrimSpace(requested[i]) == k)
  {
    var keys := KeysOf(json, row.text);
    news := Fresh(keys, Cleaned(requested));
    AddEdited(json, row, requested);
    FreshMeaning(keys, Cleaned(requested));
    CleanedMeaning(requested);
    assert |keys + news| == |keys| + |news|;
  }
}
