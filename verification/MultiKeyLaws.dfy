/** What the multi-key actions preserve, and where each key's status goes. */
module MultiKeyLaws {
  import opened Options
  import opened Delimited
  import opened MultiKey

  /** A key that survives being stored as one line of text, in any position. */
  predicate PlainKey(k: string) {
    TrimSpace(k) != "" && TrimSpace(k)[0] != '[' && '\n' !in k
  }

  predicate PlainKeys(keys: seq<string>) {
    forall i :: 0 <= i < |keys| ==> PlainKey(keys[i])
  }

  lemma {:induction false} TrimLeftPrefix(a: string, b: string)
    requires TrimLeft(a, Spaces) != ""
    ensures TrimLeft(a + b, Spaces) == TrimLeft(a, Spaces) + b
  {
    if IsSpace(a[0]) {
      assert (a + b)[1..] == a[1..] + b;
      TrimLeftPrefix(a[1..], b);
    }
  }

  lemma {:induction false} TrimRightKeepsFirst(s: string)
    requires s != "" && !IsSpace(s[0])
    ensures TrimRight(s, Spaces) != "" && TrimRight(s, Spaces)[0] == s[0]
  {
    if IsSpace(s[|s| - 1]) { TrimRightKeepsFirst(s[..|s| - 1]); }
  }

  lemma FirstVisible(a: string, b: string)
    requires TrimSpace(a) != ""
    ensures TrimSpace(a + b) != "" && TrimSpace(a + b)[0] == TrimSpace(a)[0]
  {
    TrimLeftMeaning(a, Spaces);
    TrimLeftPrefix(a, b);
    TrimRightKeepsFirst(TrimLeft(a, Spaces));
    TrimRightKeepsFirst(TrimLeft(a + b, Spaces));
  }

  lemma JoinFirstVisible(keys: seq<string>, sep: char)
    requires keys != [] && TrimSpace(keys[0]) != ""
    ensures TrimSpace(Join(keys, sep)) != "" && TrimSpace(Join(keys, sep))[0] == TrimSpace(keys[0])[0]
  {
    var rest := if |keys| == 1 then "" else [sep] + Join(keys[1..], sep);
    assert Join(keys, sep) == keys[0] + rest;
    FirstVisible(keys[0], rest);
  }

  /** Storing the keys one per line and reading the text gives the same keys. */
  predicate ReadsBack(json: JsonReader, keys: seq<string>) {
    var text := Join(keys, '\n');
    && text != ""
    && match JsonKeys(json, text)
       case Some(decoded) => decoded == keys
       case None => Storable(keys, '\n')
  }

  /** `ReadsBack` is exact: it is the condition for a written list to be the list that is read. */
  lemma {:induction false} ReadBackExactly(json: JsonReader, keys: seq<string>)
    requires Join(keys, '\n') != ""
    ensures KeysOf(json, Join(keys, '\n')) == keys <==> ReadsBack(json, keys)
    ensures ReadsBack(json, keys) ==> SizeOf(json, Join(keys, '\n')) == |keys|
  {
    StoreRoundTrip(keys, '\n');
  }

  /** A nonempty list of plain keys is read back exactly, whatever JSON decoding does. */
  lemma {:induction false} PlainRoundTrip(json: JsonReader, keys: seq<string>)
    requires keys != [] && PlainKeys(keys)
    ensures ReadsBack(json, keys)
    ensures KeysOf(json, Join(keys, '\n')) == keys && SizeOf(json, Join(keys, '\n')) == |keys|
  {
    assert PlainKey(keys[0]);
    assert PlainKey(keys[|keys| - 1]);
    JoinFirstVisible(keys, '\n');
    ReadBackExactly(json, keys);
  }

  // ----- The representation invariant -----

  predicate Below<T>(m: map<int, T>, size: int) {
    forall i :: i in m ==> 0 <= i < size
  }

  /** Recorded size is the number of keys, and no map speaks of a position outside it. */
  predicate Consistent(json: JsonReader, row: Row) {
    && row.size == |KeysOf(json, row.text)|
    && Below(row.status, row.size) && Below(row.time, row.size) && Below(row.reason, row.size)
  }

  /** The written count agrees with the keys that will be read on exactly the texts that are no empty JSON array. */
  lemma {:induction false} CountMatchesKeys(json: JsonReader, text: string)
    ensures SizeOf(json, text) == |KeysOf(json, text)| <==> text == "" || JsonKeys(json, text) != Some([])
  {
  }

  lemma {:induction false} TrimmedStatus(status: map<int, int>, size: int)
    requires Below(status, size)
    ensures (map i | i in status && i < size :: status[i]) == status
  {
  }

  /** A rewritten list that reads back leaves a consistent row with just these keys. */
  lemma {:induction false} RewrittenRow(json: JsonReader, stored: Row, work: Row, keys: seq<string>)
    requires ReadsBack(json, keys) && work.multi && work.text == Join(keys, '\n')
    requires Below(work.status, |keys|) && Below(work.time, |keys|) && Below(work.reason, |keys|)
    ensures var row := Written(json, stored, work);
            Consistent(json, row) && KeysOf(json, row.text) == keys && row == work.(size := |keys|)
  {
    ReadBackExactly(json, keys);
    TrimmedStatus(work.status, |keys|);
  }

  /** An unchanged or blank text leaves the stored one; its keys are counted again. */
  lemma {:induction false} SameTextRow(json: JsonReader, stored: Row, work: Row)
    requires work.multi && (work.text == "" || work.text == stored.text)
    requires Below(work.status, SizeOf(json, stored.text))
    ensures Written(json, stored, work) == work.(text := stored.text, size := SizeOf(json, stored.text))
  {
    TrimmedStatus(work.status, SizeOf(json, stored.text));
  }

  // ----- Where keys and their statuses go -----

  /** The positions a delete action keeps in a row. */
  function SurvivorsOf(json: JsonReader, row: Row, action: Action): (idx: seq<nat>)
    requires action.DeleteKey? ==> action.index.Some?
    ensures forall j :: 0 <= j < |idx| ==> idx[j] < |KeysOf(json, row.text)|
  {
    Survivors(action, row.status, |KeysOf(json, row.text)|)
  }

  /** A copied entry looks at its new position as it did at its old one. */
  lemma {:induction false} ViewFollows(action: Action, status: map<int, int>, time: map<int, int>,
                                       reason: map<int, string>, idx: seq<nat>, j: nat)
    requires j < |idx|
    ensures ViewOf(Reindex(OnlyDisabled(status), idx), Reindex(Carried(action, time, status), idx),
                   Reindex(Carried(action, reason, status), idx), j)
            == ViewOf(status, time, reason, idx[j])
  {
    ReindexMeaning(OnlyDisabled(status), idx);
    ReindexMeaning(Carried(action, time, status), idx);
    ReindexMeaning(Carried(action, reason, status), idx);
  }

  /** Position j of `after` shows what position idx[j] of `row` showed. */
  ghost predicate FollowsTo(row: Row, after: Row, idx: seq<nat>) {
    forall j :: 0 <= j < |idx| ==> ViewAt(after, j) == ViewAt(row, idx[j])
  }

  /** The keys a delete action means to keep. */
  function Remaining(json: JsonReader, row: Row, action: Action): seq<string>
    requires action.DeleteKey? ==> action.index.Some?
  {
    Pick(KeysOf(json, row.text), SurvivorsOf(json, row, action))
  }

  lemma {:induction false} SomeKeyDropped(json: JsonReader, row: Row, action: Action)
    requires Consistent(json, row) && Deletes(action) && Edited(json, row, action).Some?
    ensures |Remaining(json, row, action)| < |KeysOf(json, row.text)|
  {
    var n := |KeysOf(json, row.text)|;
    NothingDropped(n, Dropped(action, row.status, n));
    if action.DeleteKey? { assert action.index.value in Dropped(action, row.status, n); }
  }

  /** The three maps a delete leaves, whatever is written then. */
  lemma {:induction false} DeletedMaps(json: JsonReader, row: Row, action: Action) returns (work: Row)
    requires Deletes(action) && Edited(json, row, action).Some?
    ensures Edited(json, row, action) == Some(work)
    ensures var idx := SurvivorsOf(json, row, action);
            && work.text == Join(Remaining(json, row, action), '\n') && work.multi == row.multi
            && work.status == Reindex(OnlyDisabled(row.status), idx)
            && work.time == Reindex(Carried(action, row.time, row.status), idx)
            && work.reason == Reindex(Carried(action, row.reason, row.status), idx)
  {
    work := Edited(json, row, action).value;
  }

  lemma {:induction false} ReindexBelow<T>(m: map<int, T>, idx: seq<nat>)
    ensures Below(Reindex(m, idx), |idx|)
  {
    ReindexMeaning(m, idx);
  }

  lemma {:induction false} DeletedWork(json: JsonReader, row: Row, action: Action) returns (work: Row)
    requires Deletes(action) && Edited(json, row, action).Some?
    ensures Edited(json, row, action) == Some(work)
    ensures var n := |Remaining(json, row, action)|;
            && work.text == Join(Remaining(json, row, action), '\n') && work.multi == row.multi
            && Below(work.status, n) && Below(work.time, n) && Below(work.reason, n)
  {
    var idx := SurvivorsOf(json, row, action);
    work := DeletedMaps(json, row, action);
    ReindexBelow(OnlyDisabled(row.status), idx);
    ReindexBelow(Carried(action, row.time, row.status), idx);
    ReindexBelow(Carried(action, row.reason, row.status), idx);
  }

  /** A rewritten row with these keys and the entries copied to their new positions. */
  ghost predicate Rewritten(json: JsonReader, action: Action, row: Row, after: Row, keys: seq<string>, idx: seq<nat>) {
    && KeysOf(json, after.text) == keys && Consistent(json, after)
    && after.status == Reindex(OnlyDisabled(row.status), idx)
    && after.time == Reindex(Carried(action, row.time, row.status), idx)
    && after.reason == Reindex(Carried(action, row.reason, row.status), idx)
  }

  lemma {:induction false} DeletedRow(json: JsonReader, row: Row, action: Action)
    requires row.multi && Deletes(action) && Edited(json, row, action).Some?
    requires ReadsBack(json, Remaining(json, row, action))
    ensures Rewritten(json, action, row, Serve(json, row, action), Remaining(json, row, action),
                      SurvivorsOf(json, row, action))
  {
    var work := DeletedWork(json, row, action);
    var same := DeletedMaps(json, row, action);
    RewrittenRow(json, row, work, Remaining(json, row, action));
  }

  lemma {:induction false} RewrittenViews(json: JsonReader, action: Action, row: Row, after: Row, keys: seq<string>,
                                          idx: seq<nat>)
    requires Rewritten(json, action, row, after, keys, idx)
    ensures FollowsTo(row, after, idx)
  {
    forall j: nat | j < |idx| ensures ViewAt(after, j) == ViewAt(row, idx[j]) {
      ViewFollows(action, row.status, row.time, row.reason, idx, j);
    }
  }

  /** After a delete exactly the other keys are read if and only if their list reads back. */
  lemma {:induction false} DeleteExactly(json: JsonReader, row: Row, action: Action)
    requires row.multi && Consistent(json, row) && Deletes(action) && Edited(json, row, action).Some?
    ensures KeysOf(json, Serve(json, row, action).text) == Remaining(json, row, action)
            <==> ReadsBack(json, Remaining(json, row, action))
  {
    var keys := Remaining(json, row, action);
    var work := DeletedWork(json, row, action);
    if Join(keys, '\n') == "" {
      SomeKeyDropped(json, row, action);
    } else {
      ReadBackExactly(json, keys);
    }
  }

  /** Then they are in their old order, and each takes its status, time and reason along. */
  lemma {:induction false} DeleteFollowsKeys(json: JsonReader, row: Row, action: Action)
    requires row.multi && Deletes(action) && Edited(json, row, action).Some?
    requires ReadsBack(json, Remaining(json, row, action))
    ensures var after, idx := Serve(json, row, action), SurvivorsOf(json, row, action);
            && Consistent(json, after)
            && KeysOf(json, after.text) == Pick(KeysOf(json, row.text), idx)
            && FollowsTo(row, after, idx)
  {
    DeletedRow(json, row, action);
    RewrittenViews(json, action, row, Serve(json, row, action), Remaining(json, row, action),
                   SurvivorsOf(json, row, action));
  }

  lemma {:induction false} SurvivorsInOrder(json: JsonReader, row: Row, action: Action)
    requires Deletes(action) && (action.DeleteKey? ==> action.index.Some?)
    ensures var idx, n := SurvivorsOf(json, row, action), |KeysOf(json, row.text)|;
            && (forall j, k :: 0 <= j < k < |idx| ==> idx[j] < idx[k])
            && (forall i: nat :: i < n ==> (i in idx <==> !Drops(action, row.status, i)))
  {
    var n := |KeysOf(json, row.text)|;
    KeptInOrder(n, Dropped(action, row.status, n));
    forall i: nat | i < n && i in SurvivorsOf(json, row, action) ensures !Drops(action, row.status, i) {
      assert i !in Dropped(action, row.status, n);
    }
  }

  lemma {:induction false} SurvivorsEmpty(json: JsonReader, row: Row)
    ensures SurvivorsOf(json, row, DeleteDisabledKeys) == [] <==>
            forall i :: 0 <= i < |KeysOf(json, row.text)| ==> StatusAt(row.status, i) == AUTO_DISABLED
  {
    SurvivorsInOrder(json, row, DeleteDisabledKeys);
    var idx := SurvivorsOf(json, row, DeleteDisabledKeys);
    if idx != [] {
      assert idx[0] in idx && !Drops(DeleteDisabledKeys, row.status, idx[0]);
    } else {
      forall i: nat | i < |KeysOf(json, row.text)| ensures StatusAt(row.status, i) == AUTO_DISABLED {
        assert i !in idx && Drops(DeleteDisabledKeys, row.status, i);
      }
    }
  }

  /** The action is refused exactly if no key is auto-disabled. */
  lemma {:induction false} DeleteDisabledEdits(json: JsonReader, row: Row)
    ensures Edited(json, row, DeleteDisabledKeys).Some? <==>
            exists i :: 0 <= i < |KeysOf(json, row.text)| && StatusAt(row.status, i) == AUTO_DISABLED
  {
    var n := |KeysOf(json, row.text)|;
    var dropped := Dropped(DeleteDisabledKeys, row.status, n);
    NothingDropped(n, dropped);
    assert forall i :: 0 <= i < n ==> (i in dropped <==> StatusAt(row.status, i) == AUTO_DISABLED);
  }

  /**
   * `delete_disabled_keys` removes exactly the auto-disabled keys if and only if the others read back.
   * In particular it does not when every key is auto-disabled: the blank text is not written, all keys
   * stay, and all become enabled.
   */
  lemma {:induction false} DeleteDisabledExact(json: JsonReader, row: Row)
    requires row.multi && Consistent(json, row) && Edited(json, row, DeleteDisabledKeys).Some?
    ensures var keys := KeysOf(json, row.text);
            var rest, after := Remaining(json, row, DeleteDisabledKeys), Serve(json, row, DeleteDisabledKeys);
            && (KeysOf(json, after.text) == rest <==> ReadsBack(json, rest))
            && (rest == [] <==> forall i :: 0 <= i < |keys| ==> StatusAt(row.status, i) == AUTO_DISABLED)
            && (rest == [] ==> after.text == row.text && after.size == row.size
                               && forall i :: ViewAt(after, i) == KeyView(ENABLED, 0, ""))
  {
    DeleteExactly(json, row, DeleteDisabledKeys);
    SurvivorsEmpty(json, row);
    if Remaining(json, row, DeleteDisabledKeys) == [] { AllDisabledRow(json, row); }
  }

  lemma {:induction false} AllDisabledRow(json: JsonReader, row: Row)
    requires row.multi && Consistent(json, row) && Edited(json, row, DeleteDisabledKeys).Some?
    requires Remaining(json, row, DeleteDisabledKeys) == []
    ensures var after := Serve(json, row, DeleteDisabledKeys);
            after.text == row.text && after.size == row.size && forall i :: ViewAt(after, i) == KeyView(ENABLED, 0, "")
  {
    CountMatchesKeys(json, row.text);
    SomeKeyDropped(json, row, DeleteDisabledKeys);
    var work := DeletedWork(json, row, DeleteDisabledKeys);
    SameTextRow(json, row, work);
  }

  /** "b" auto-disabled behind a blank key, as a channel created from "a", " ", "b" stores it. */
  function BlankKeyRow(): Row {
    Row("a\n\nb", true, 3, map[2 := AUTO_DISABLED], map[2 := 7], map[2 := "bad"])
  }

  /**
   * A row the program stores: the middle key is blank.  Deleting the first key leaves a blank one in
   * front, which the next reader trims away; the disabled key "b" is shown enabled, and its time stays
   * at an index past the end.
   */
  lemma {:induction false} BlankKeyBreaksDelete(json: JsonReader)
    ensures var row := BlankKeyRow();
            var after := Serve(json, row, DeleteKey(Some(0)));
            && KeysOf(json, row.text) == ["a", "", "b"] && Consistent(json, row)
            && ViewAt(row, 2) == KeyView(AUTO_DISABLED, 7, "bad")
            && KeysOf(json, after.text) == ["b"] && after.size == 1
            && ViewAt(after, 0) == KeyView(ENABLED, 0, "") && 1 in after.time && !Consistent(json, after)
  {
    BlankKeyRead(json);
    TrimmedKeyRead(json);
    BlankKeyWork(json);
  }

  /** The edited row before it is written. */
  lemma {:induction false} BlankKeyWork(json: JsonReader)
    ensures Edited(json, BlankKeyRow(), DeleteKey(Some(0))).Some?
    ensures var work := Edited(json, BlankKeyRow(), DeleteKey(Some(0))).value;
            work.text == "\nb" && work.multi && 0 !in work.status && 1 in work.time
  {
    BlankKeyRead(json);
    BlankKeySurvivors();
    ReindexMeaning(OnlyDisabled(BlankKeyRow().status), [1, 2]);
    ReindexMeaning(BlankKeyRow().time, [1, 2]);
  }

  lemma {:induction false} BlankKeySurvivors()
    ensures Survivors(DeleteKey(Some(0)), map[2 := AUTO_DISABLED], 3) == [1, 2]
    ensures Pick(["a", "", "b"], [1, 2]) == ["", "b"]
  {
    assert Dropped(DeleteKey(Some(0)), map[2 := AUTO_DISABLED], 3) == {0};
    assert Kept(1, {0}) == [] && Kept(2, {0}) == [1];
  }

  lemma {:induction false} BlankKeyRead(json: JsonReader)
    ensures KeysOf(json, "a\n\nb") == ["a", "", "b"] && Join(["", "b"], '\n') == "\nb"
  {
    var three, two := ["a", "", "b"], ["", "b"];
    assert three[1..] == two && two[1..] == ["b"] && Join(two, '\n') == "" + "\n" + "b" == "\nb";
    assert Join(three, '\n') == "a" + "\n" + "\nb" == "a\n\nb";
    TrimFixed("a", Spaces);
    JoinFirstVisible(three, '\n');
    StoreRoundTrip(three, '\n');
  }

  lemma {:induction false} TrimmedKeyRead(json: JsonReader)
    ensures KeysOf(json, "\nb") == ["b"] && SizeOf(json, "\nb") == 1
  {
    assert "\nb"[1..] == "b";
    assert TrimLeft("\nb", Only('\n')) == "b" && TrimLeft("\nb", Spaces) == "b";
    TrimFixed("b", Only('\n'));
    StoreRoundTrip(["b"], '\n');
  }

  // ----- Adding -----

  lemma {:induction false} JoinBlank(parts: seq<string>, sep: char)
    requires Join(parts, sep) == ""
    ensures forall k :: k in parts ==> k == ""
  {
    if |parts| == 1 {
      assert parts == [parts[0]];
    }
  }

  /** The list an addition means to store. */
  function Extended(json: JsonReader, row: Row, requested: seq<string>): seq<string> {
    var keys := KeysOf(json, row.text);
    keys + Fresh(keys, Cleaned(requested))
  }

  lemma {:induction false} ExtendedVisible(json: JsonReader, row: Row, requested: seq<string>)
    requires Fresh(KeysOf(json, row.text), Cleaned(requested)) != []
    ensures Join(Extended(json, row, requested), '\n') != ""
  {
    var keys := KeysOf(json, row.text);
    var news := Fresh(keys, Cleaned(requested));
    FreshMeaning(keys, Cleaned(requested));
    CleanedNotBlank(requested);
    assert news[0] in news && news[0] in keys + news && news[0] != "";
    if Join(keys + news, '\n') == "" { JoinBlank(keys + news, '\n'); }
  }

  lemma {:induction false} AddEdited(json: JsonReader, row: Row, requested: seq<string>)
    requires row.multi
    ensures Edited(json, row, AddKeys(requested)) ==
            AddedTo(row, KeysOf(json, row.text), Fresh(KeysOf(json, row.text), Cleaned(requested)))
  {
  }

  lemma {:induction false} ServedText(json: JsonReader, row: Row, action: Action, work: Row)
    requires Edited(json, row, action) == Some(work) && work.text != ""
    ensures Serve(json, row, action).text == work.text && Serve(json, row, action).multi == work.multi
  {
  }

  /** The text an edit that appends `news` writes. */
  lemma {:induction false} AppendedText(json: JsonReader, row: Row, action: Action, keys: seq<string>,
                                        news: seq<string>)
    requires row.multi && Edited(json, row, action) == AddedTo(row, keys, news)
    requires news != [] ==> Join(keys + news, '\n') != ""
    ensures var after := Serve(json, row, action);
            after.multi && after.text == if news == [] then row.text else Join(keys + news, '\n')
  {
    if news != [] { ServedText(json, row, action, AddedTo(row, keys, news).value); }
  }

  /** The keys after an addition, from any row of a multi-key channel. */
  lemma {:induction false} AddedKeys(json: JsonReader, row: Row, requested: seq<string>)
    requires row.multi
    ensures var after, list := Serve(json, row, AddKeys(requested)), Extended(json, row, requested);
            && after.multi
            && (KeysOf(json, after.text) == list <==> list == KeysOf(json, row.text) || ReadsBack(json, list))
  {
    var keys := KeysOf(json, row.text);
    var news := Fresh(keys, Cleaned(requested));
    if news != [] { ExtendedVisible(json, row, requested); }
    AddEdited(json, row, requested);
    AppendedText(json, row, AddKeys(requested), keys, news);
    assert news != [] ==> |keys + news| > |keys|;
    if news != [] { ReadBackExactly(json, keys + news); }
  }

  /**
   * An addition stores the old keys followed by the new ones if and only if that list reads back; then
   * the new keys are enabled and every existing key is shown as before.
   */
  lemma {:induction false} AddAppends(json: JsonReader, row: Row, requested: seq<string>)
    requires row.multi && Consistent(json, row)
    ensures var keys, list, after := KeysOf(json, row.text), Extended(json, row, requested),
            Serve(json, row, AddKeys(requested));
            && (KeysOf(json, after.text) == list <==> list == keys || ReadsBack(json, list))
            && (list == keys || ReadsBack(json, list) ==>
                  && Consistent(json, after)
                  && (forall i :: 0 <= i < |keys| ==> ViewAt(after, i) == ViewAt(row, i))
                  && (forall i :: |keys| <= i ==> ViewAt(after, i) == KeyView(ENABLED, 0, "")))
  {
    AddedKeys(json, row, requested);
    AddedMaps(json, row, requested);
  }

  lemma {:induction false} AddedMaps(json: JsonReader, row: Row, requested: seq<string>)
    requires row.multi && Consistent(json, row)
    ensures var list, after := Extended(json, row, requested), Serve(json, row, AddKeys(requested));
            list == KeysOf(json, row.text) || ReadsBack(json, list) ==>
              && Consistent(json, after)
              && after.status == row.status && after.time == row.time && after.reason == row.reason
  {
    var keys, list := KeysOf(json, row.text), Extended(json, row, requested);
    if Fresh(keys, Cleaned(requested)) != [] && ReadsBack(json, list) {
      RewrittenRow(json, row, Edited(json, row, AddKeys(requested)).value, list);
    }
  }

  // ----- All actions: exactly when a row stays consistent -----

  /** The count a write records for this text is the number of keys that will be read. */
  predicate WellCounted(json: JsonReader, text: string) {
    text == "" || JsonKeys(json, text) != Some([])
  }

  predicate NonNegative<T>(m: map<int, T>) {
    forall i :: i in m ==> i >= 0
  }

  /** The text that is stored once an edit is written: a blank one leaves the old one. */
  function TextAfter(row: Row, text: string): string {
    if text == "" then row.text else text
  }

  /** No time and no reason sits at or past the number of keys the text is counted as. */
  predicate EntriesFit(json: JsonReader, text: string, time: map<int, int>, reason: map<int, string>) {
    WellCounted(json, text) && Below(time, SizeOf(json, text)) && Below(reason, SizeOf(json, text))
  }

  lemma {:induction false} WrittenConsistent(json: JsonReader, stored: Row, work: Row)
    requires work.multi && NonNegative(work.status)
    ensures Consistent(json, Written(json, stored, work)) <==>
            EntriesFit(json, TextAfter(stored, work.text), work.time, work.reason)
  {
    CountMatchesKeys(json, TextAfter(stored, work.text));
  }

  lemma {:induction false} EditedStatus(json: JsonReader, row: Row, action: Action)
    ensures var edited := Edited(json, row, action);
            edited.Some? && NonNegative(row.status) ==>
              edited.value.multi == row.multi && NonNegative(edited.value.status)
  {
    if Edited(json, row, action).None? || !NonNegative(row.status) {
    } else if Deletes(action) {
      var work := DeletedWork(json, row, action);
    } else {
    }
  }

  lemma {:induction false} ServeWrites(json: JsonReader, row: Row, action: Action, work: Row)
    requires Edited(json, row, action) == Some(work)
    ensures Serve(json, row, action) == Written(json, row, work)
  {
  }

  /** What an edit leaves is consistent if and only if its times and reasons fit the text that is stored. */
  lemma {:induction false} EditConsistent(json: JsonReader, row: Row, action: Action, work: Row)
    requires row.multi && Consistent(json, row) && Edited(json, row, action) == Some(work)
    ensures Consistent(json, Serve(json, row, action)) <==>
            EntriesFit(json, TextAfter(row, work.text), work.time, work.reason)
  {
    EditedStatus(json, row, action);
    ServeWrites(json, row, action, work);
    WrittenConsistent(json, row, work);
  }

  /** No survivor with an entry in `m` gets a new index at or past `size`. */
  predicate SurvivorsFit<T>(m: map<int, T>, idx: seq<nat>, size: int) {
    forall j :: 0 <= j < |idx| && size <= j ==> idx[j] !in m
  }

  lemma {:induction false} ReindexFits<T>(m: map<int, T>, idx: seq<nat>, size: nat)
    ensures Below(Reindex(m, idx), size) <==> SurvivorsFit(m, idx, size)
  {
    ReindexMeaning(m, idx);
    forall j: nat | j < |idx| && size <= j && idx[j] in m ensures j in Reindex(m, idx) {
    }
  }

  predicate CopiesFit(json: JsonReader, text: string, time: map<int, int>, reason: map<int, string>, idx: seq<nat>) {
    && WellCounted(json, text)
    && SurvivorsFit(time, idx, SizeOf(json, text)) && SurvivorsFit(reason, idx, SizeOf(json, text))
  }

  /** What a delete needs: the rest is well counted, and no survivor's time or reason falls off its end. */
  predicate DeleteFits(json: JsonReader, row: Row, action: Action)
    requires action.DeleteKey? ==> action.index.Some?
  {
    CopiesFit(json, TextAfter(row, Join(Remaining(json, row, action), '\n')),
              Carried(action, row.time, row.status), Carried(action, row.reason, row.status),
              SurvivorsOf(json, row, action))
  }

  lemma {:induction false} DeleteConsistent(json: JsonReader, row: Row, action: Action)
    requires row.multi && Consistent(json, row) && Deletes(action) && Edited(json, row, action).Some?
    ensures Consistent(json, Serve(json, row, action)) <==> DeleteFits(json, row, action)
  {
    var work := DeletedMaps(json, row, action);
    EditConsistent(json, row, action, work);
    DeletedFits(json, row, action, work);
  }

  lemma {:induction false} DeletedFits(json: JsonReader, row: Row, action: Action, work: Row)
    requires Deletes(action) && (action.DeleteKey? ==> action.index.Some?)
    requires work.text == Join(Remaining(json, row, action), '\n')
    requires work.time == Reindex(Carried(action, row.time, row.status), SurvivorsOf(json, row, action))
    requires work.reason == Reindex(Carried(action, row.reason, row.status), SurvivorsOf(json, row, action))
    ensures EntriesFit(json, TextAfter(row, work.text), work.time, work.reason) <==> DeleteFits(json, row, action)
  {
    CopiedEntriesFit(json, row, work, Remaining(json, row, action),
                     Carried(action, row.time, row.status), Carried(action, row.reason, row.status),
                     SurvivorsOf(json, row, action));
  }

  lemma {:induction false} CopiedEntriesFit(json: JsonReader, row: Row, work: Row, keys: seq<string>,
                                            time: map<int, int>, reason: map<int, string>, idx: seq<nat>)
    requires work.text == Join(keys, '\n') && work.time == Reindex(time, idx) && work.reason == Reindex(reason, idx)
    ensures EntriesFit(json, TextAfter(row, work.text), work.time, work.reason) <==>
            CopiesFit(json, TextAfter(row, Join(keys, '\n')), time, reason, idx)
  {
    ReindexFits(time, idx, SizeOf(json, TextAfter(row, work.text)));
    ReindexFits(reason, idx, SizeOf(json, TextAfter(row, work.text)));
  }

  /** What an addition needs: the extended list is well counted, and no time or reason falls off its end. */
  predicate AddFits(json: JsonReader, row: Row, requested: seq<string>) {
    EntriesFit(json, Join(Extended(json, row, requested), '\n'), row.time, row.reason)
  }

  lemma {:induction false} AddConsistent(json: JsonReader, row: Row, requested: seq<string>)
    requires row.multi && Consistent(json, row) && Edited(json, row, AddKeys(requested)).Some?
    ensures Consistent(json, Serve(json, row, AddKeys(requested))) <==> AddFits(json, row, requested)
  {
    EditConsistent(json, row, AddKeys(requested), Edited(json, row, AddKeys(requested)).value);
    AddEdited(json, row, requested);
    ExtendedVisible(json, row, requested);
  }

  predicate SetsStatus(action: Action) {
    action.DisableKey? || action.EnableKey? || action.EnableAllKeys? || action.DisableAllKeys?
  }

  /** A status action keeps a row consistent if and only if its text is no empty JSON array. */
  lemma {:induction false} StatusKeepsConsistent(json: JsonReader, row: Row, action: Action)
    requires row.multi && Consistent(json, row) && Edited(json, row, action).Some? && SetsStatus(action)
    ensures Consistent(json, Serve(json, row, action)) <==> WellCounted(json, row.text)
  {
    EditConsistent(json, row, action, Edited(json, row, action).value);
    CountMatchesKeys(json, row.text);
  }

  /** The condition, action by action; a request that is turned away changes nothing. */
  predicate StaysConsistent(json: JsonReader, row: Row, action: Action) {
    if Edited(json, row, action).None? then true
    else if action.AddKeys? then AddFits(json, row, action.keys)
    else if Deletes(action) then DeleteFits(json, row, action)
    else WellCounted(json, row.text)
  }

  /** Every action keeps size = number of keys and all map domains inside it, if and only if that condition holds. */
  lemma {:induction false} ConsistentExactly(json: JsonReader, row: Row, action: Action)
    requires row.multi && Consistent(json, row)
    ensures Consistent(json, Serve(json, row, action)) <==> StaysConsistent(json, row, action)
  {
    if Edited(json, row, action).Some? {
      if action.AddKeys? {
        AddConsistent(json, row, action.keys);
      } else if Deletes(action) {
        DeleteConsistent(json, row, action);
      } else {
        StatusKeepsConsistent(json, row, action);
      }
    }
  }

  /** A rewritten list that reads back, or an unchanged text that is no empty JSON array. */
  predicate StoredWell(json: JsonReader, row: Row, action: Action) {
    match Edited(json, row, action)
    case None => true
    case Some(work) =>
      if action.AddKeys? then ReadsBack(json, Extended(json, row, action.keys))
      else if Deletes(action) && work.text != "" then ReadsBack(json, Remaining(json, row, action))
      else WellCounted(json, row.text)
  }

  /** That is sufficient: the list is counted as long as it is. */
  lemma {:induction false} ServeKeepsConsistent(json: JsonReader, row: Row, action: Action)
    requires row.multi && Consistent(json, row) && StoredWell(json, row, action)
    ensures StaysConsistent(json, row, action) && Consistent(json, Serve(json, row, action))
  {
    ConsistentExactly(json, row, action);
    if Edited(json, row, action).Some? {
      if action.AddKeys? {
        AddedMaps(json, row, action.keys);
      } else if Deletes(action) && Edited(json, row, action).value.text != "" {
        DeletedRow(json, row, action);
      } else if Deletes(action) {
        BlankDeleteFits(json, row, action);
      }
    }
  }

  /** A delete that leaves only blank keys keeps the old text, which is long enough. */
  lemma {:induction false} BlankDeleteFits(json: JsonReader, row: Row, action: Action)
    requires row.multi && Consistent(json, row) && Deletes(action) && Edited(json, row, action).Some?
    requires Edited(json, row, action).value.text == ""
    ensures DeleteFits(json, row, action)
  {
    var work := DeletedWork(json, row, action);
    SomeKeyDropped(json, row, action);
    CountMatchesKeys(json, row.text);
  }

  /** It is not necessary: an added key with a newline inside is stored as two keys, and the row is consistent. */
  lemma {:induction false} NewlineStaysConsistent(json: JsonReader, row: Row, a: string, b: string)
    requires row.multi && Consistent(json, row) && PlainKeys(KeysOf(json, row.text)) && PlainKey(a) && PlainKey(b)
    requires TrimSpace(a + ['\n'] + b) == a + ['\n'] + b
    ensures !StoredWell(json, row, AddKeys([a + ['\n'] + b]))
    ensures Consistent(json, Serve(json, row, AddKeys([a + ['\n'] + b])))
  {
    var keys, k := KeysOf(json, row.text), a + ['\n'] + b;
    NotAKey(keys, k, |a|);
    OneRequestedKey(keys, k);
    AddEdited(json, row, [k]);
    SplitKeyText(json, keys, a, b);
    ReadBackExactly(json, keys + [k]);
    AddConsistent(json, row, [k]);
    JoinSplitsLast(keys, a, b, '\n');
    PlainPair(keys, a, b);
    PlainRoundTrip(json, keys + [a, b]);
  }

  /** The four status actions change no key, and these statuses only. */
  lemma {:induction false} StatusActions(json: JsonReader, row: Row, action: Action, i: int)
    requires row.multi && 0 <= i < row.size && i < SizeOf(json, row.text)
    requires SetsStatus(action)
    ensures var after := Serve(json, row, action);
            && after.text == row.text
            && ViewAt(after, i).status ==
               (match action
                case DisableKey(index) => if index == Some(i) then MANUALLY_DISABLED else StatusAt(row.status, i)
                case EnableKey(index) => if index == Some(i) then ENABLED else StatusAt(row.status, i)
                case EnableAllKeys => ENABLED
                case _ => if StatusAt(row.status, i) == ENABLED then MANUALLY_DISABLED else StatusAt(row.status, i))
  {
  }

  // ----- Keys with a newline -----

  lemma {:induction false} JoinSplitsLast(keys: seq<string>, a: string, b: string, sep: char)
    ensures Join(keys + [a + [sep] + b], sep) == Join(keys + [a, b], sep)
  {
    if keys == [] {
      assert Join([a, b][1..], sep) == b;
      assert keys + [a + [sep] + b] == [a + [sep] + b] && keys + [a, b] == [a, b];
    } else {
      JoinSplitsLast(keys[1..], a, b, sep);
      assert (keys + [a + [sep] + b])[1..] == keys[1..] + [a + [sep] + b];
      assert (keys + [a, b])[1..] == keys[1..] + [a, b];
    }
  }

  lemma {:induction false} OneRequestedKey(keys: seq<string>, k: string)
    requires k != "" && TrimSpace(k) == k && k !in keys
    ensures Fresh(keys, Cleaned([k])) == [k]
  {
    assert Cleaned([k][..0]) == [] && Cleaned([k]) == [k];
    assert Fresh(keys, [k][..0]) == [];
  }

  lemma {:induction false} PlainPair(keys: seq<string>, a: string, b: string)
    requires PlainKeys(keys) && PlainKey(a) && PlainKey(b)
    ensures PlainKeys(keys + [a, b])
  {
  }

  lemma {:induction false} NotAKey(keys: seq<string>, k: string, i: nat)
    requires PlainKeys(keys) && i < |k| && k[i] == '\n'
    ensures k !in keys
  {
  }

  lemma {:induction false} OneAddedText(json: JsonReader, row: Row, k: string)
    requires row.multi && k != "" && TrimSpace(k) == k && k !in KeysOf(json, row.text)
    requires Join(KeysOf(json, row.text) + [k], '\n') != ""
    ensures Serve(json, row, AddKeys([k])).text == Join(KeysOf(json, row.text) + [k], '\n')
  {
    OneRequestedKey(KeysOf(json, row.text), k);
    AddEdited(json, row, [k]);
    AppendedText(json, row, AddKeys([k]), KeysOf(json, row.text), [k]);
  }

  lemma SplitKeyText(json: JsonReader, keys: seq<string>, a: string, b: string)
    requires PlainKeys(keys) && PlainKey(a) && PlainKey(b)
    ensures var text := Join(keys + [a + ['\n'] + b], '\n'); text != "" && KeysOf(json, text) == keys + [a, b]
  {
    JoinSplitsLast(keys, a, b, '\n');
    PlainPair(keys, a, b);
    PlainRoundTrip(json, keys + [a, b]);
  }

  /** A requested key with a newline inside is stored as two keys, neither of which was checked for duplicates. */
  lemma NewlineBypassesDedup(json: JsonReader, row: Row, a: string, b: string)
    requires row.multi && PlainKeys(KeysOf(json, row.text)) && PlainKey(a) && PlainKey(b)
    requires TrimSpace(a + ['\n'] + b) == a + ['\n'] + b
    ensures KeysOf(json, Serve(json, row, AddKeys([a + ['\n'] + b])).text) == KeysOf(json, row.text) + [a, b]
  {
    var keys, k := KeysOf(json, row.text), a + ['\n'] + b;
    NotAKey(keys, k, |a|);
    SplitKeyText(json, keys, a, b);
    OneAddedText(json, row, k);
  }
}
