/**
 * Reconciling a channel's model list with the upstream's: detection records what could be added or
 * removed, application carries out a selection.  `Row` is the stored channel; the local models are
 * kept as comma-separated text.
 */
module UpstreamModels {
  import opened Options
  import opened Delimited
  import opened ModelNames

  datatype Row = Row(
    models: string,
    ignored: seq<string>,
    detected: seq<string>,
    removed: seq<string>,
    lastCheck: int,
    autoSync: bool)

  /** `matches(pattern, name)`: the pattern compiles and matches. */
  type Matcher = (string, string) -> bool

  const REGEX := "regex:"

  function LocalModels(text: string): seq<string> {
    if text == "" then [] else Split(Trim(text, Only(',')), ',')
  }

  // ----- Detection -----

  predicate Ignores(matches: Matcher, entry: string, name: string) {
    if REGEX <= entry then matches(TrimSpace(entry[|REGEX|..]), name) else entry == name
  }

  predicate IgnoredBy(matches: Matcher, entries: set<string>, name: string) {
    exists e :: e in entries && Ignores(matches, e, name)
  }

  /** Upstream names that are neither local, nor a redirect target, nor ignored. */
  function PendingAdds(matches: Matcher, local: set<string>, upstream: set<string>, ignored: set<string>,
                       mapping: map<string, string>): set<string> {
    set m | m in upstream && m !in local && m !in mapping.Values && !IgnoredBy(matches, ignored, m)
  }

  /** Local names that are neither a redirect source nor offered upstream. */
  function PendingRemoves(local: set<string>, upstream: set<string>, mapping: map<string, string>): set<string> {
    set m | m in local && m !in mapping.Keys && m !in upstream
  }

  function CollectAdds(matches: Matcher, row: Row, upstream: seq<string>, mapping: map<string, string>): seq<string> {
    Normalize(Within(Normalize(upstream),
      PendingAdds(matches, Names(LocalModels(row.models)), Names(upstream), Names(row.ignored), mapping)))
  }

  function CollectRemoves(row: Row, upstream: seq<string>, mapping: map<string, string>): seq<string> {
    var local := LocalModels(row.models);
    Normalize(Within(Normalize(local), PendingRemoves(Names(local), Names(upstream), mapping)))
  }

  /** A check that got the upstream list and applies nothing by itself. */
  function Detected(matches: Matcher, row: Row, upstream: seq<string>, mapping: map<string, string>, now: int): Row {
    row.(detected := CollectAdds(matches, row, upstream, mapping), removed := CollectRemoves(row, upstream, mapping),
         lastCheck := now)
  }

  /** A check that adds what it found at once. */
  function AutoSynced(matches: Matcher, row: Row, upstream: seq<string>, mapping: map<string, string>, now: int): Row {
    var origin := Normalize(LocalModels(row.models));
    var merged := Merge(origin, CollectAdds(matches, row, upstream, mapping));
    row.(models := if |merged| > |origin| then Join(merged, ',') else row.models,
         detected := [], removed := CollectRemoves(row, upstream, mapping), lastCheck := now)
  }

  /** A check that got the upstream list: auto-sync or plain detection. */
  function Found(matches: Matcher, row: Row, upstream: seq<string>, mapping: map<string, string>, allowAuto: bool,
                 now: int): Row {
    if allowAuto && row.autoSync && CollectAdds(matches, row, upstream, mapping) != []
    then AutoSynced(matches, row, upstream, mapping, now)
    else Detected(matches, row, upstream, mapping, now)
  }

  predicate TooSoon(row: Row, force: bool, minInterval: int, now: int) {
    !force && row.lastCheck > 0 && now - row.lastCheck < minInterval
  }

  /** The whole check: too soon, fetch failed (None), or with the upstream list. */
  function Checked(matches: Matcher, row: Row, upstream: Option<seq<string>>, mapping: map<string, string>,
                   force: bool, allowAuto: bool, minInterval: int, now: int): Row
  {
    if TooSoon(row, force, minInterval, now) then row
    else match upstream
      case None => row.(lastCheck := now)
      case Some(names) => Found(matches, row, names, mapping, allowAuto, now)
  }

  // ----- Application -----

  datatype Selection = Selection(add: seq<string>, ignore: seq<string>, remove: seq<string>)

  function ChosenAdds(row: Row, s: Selection): seq<string> {
    Intersect(s.add, Normalize(row.detected))
  }

  function ChosenIgnores(row: Row, s: Selection): seq<string> {
    Intersect(s.ignore, Normalize(row.detected))
  }

  function ChosenRemoves(row: Row, s: Selection): seq<string> {
    Subtract(Intersect(s.remove, Normalize(row.removed)), ChosenAdds(row, s))
  }

  function NextModels(row: Row, s: Selection): seq<string> {
    ApplySelected(Normalize(LocalModels(row.models)), ChosenAdds(row, s), ChosenRemoves(row, s))
  }

  function NextIgnored(row: Row, s: Selection): seq<string> {
    var merged := Merge(row.ignored, ChosenIgnores(row, s));
    if ChosenAdds(row, s) != [] then Subtract(merged, ChosenAdds(row, s)) else merged
  }

  function Applied(row: Row, s: Selection, now: int): Row {
    var next := NextModels(row, s);
    row.(models := if Normalize(LocalModels(row.models)) != next then Join(next, ',') else row.models,
         ignored := NextIgnored(row, s),
         detected := Subtract(Normalize(row.detected), ChosenAdds(row, s) + ChosenIgnores(row, s)),
         removed := Subtract(Normalize(row.removed), ChosenRemoves(row, s)),
         lastCheck := now)
  }

  // ----- The operations -----

  /** New names join the ignored ones; a model that is added is no longer ignored. */
  method UpdateIgnored(ignored: seq<string>, ignore: seq<string>, add: seq<string>) returns (kept: seq<string>)
    ensures kept == if add != [] then Subtract(Merge(ignored, ignore), add) else Merge(ignored, ignore)
  {
    kept := MergeNames(ignored, ignore);
    if |add| > 0 {
      kept := Subtract(kept, add);
    }
  }

  /** The stored list is rewritten only if the models change. */
  method UpdateModels(models: string, add: seq<string>, remove: seq<string>) returns (text: string, changed: bool)
    ensures var origin := Normalize(LocalModels(models));
            var next := ApplySelected(origin, add, remove);
            changed == (origin != next) && text == if changed then Join(next, ',') else models
  {
    var origin := Normalize(LocalModels(models));
    var next := ApplySelected(origin, add, remove);
    changed := origin != next;
    text := if changed then Join(next, ',') else models;
  }

  /** Only what is pending can be selected, and a model to be added is not removed. */
  method Choose(row: Row, s: Selection) returns (add: seq<string>, ignore: seq<string>, remove: seq<string>)
    ensures add == ChosenAdds(row, s) && ignore == ChosenIgnores(row, s) && remove == ChosenRemoves(row, s)
  {
    var pendingAdd, pendingRemove := Normalize(row.detected), Normalize(row.removed);
    add := Intersect(s.add, pendingAdd);
    ignore := Intersect(s.ignore, pendingAdd);
    remove := Subtract(Intersect(s.remove, pendingRemove), add);
  }

  /** The settings and models an application will write. */
  method PlanApply(row: Row, s: Selection, now: int)
    returns (next: Row, add: seq<string>, remove: seq<string>, changed: bool)
    ensures next == Applied(row, s, now) && add == ChosenAdds(row, s) && remove == ChosenRemoves(row, s)
    ensures !changed ==> next.models == row.models
  {
    var ignore;
    add, ignore, remove := Choose(row, s);
    var models;
    models, changed := UpdateModels(row.models, add, remove);
    var ignored := UpdateIgnored(row.ignored, ignore, add);
    next := row.(models := models, ignored := ignored,
                 detected := Subtract(Normalize(row.detected), add + ignore),
                 removed := Subtract(Normalize(row.removed), remove), lastCheck := now);
  }

  /** The models an auto-syncing check will write. */
  method PlanSync(models: string, adds: seq<string>) returns (text: string, added: nat)
    ensures var origin := Normalize(LocalModels(models));
            var merged := Merge(origin, adds);
            && added == (if |merged| > |origin| then |merged| - |origin| else 0)
            && text == if |merged| > |origin| then Join(merged, ',') else models
  {
    var origin := Normalize(LocalModels(models));
    var merged := MergeNames(origin, adds);
    text, added := models, 0;
    if |merged| > |origin| {
      text, added := Join(merged, ','), |merged| - |origin|;
    }
  }

  /** How many models a check that got the upstream list adds by itself. */
  function AutoAdded(matches: Matcher, row: Row, upstream: seq<string>, mapping: map<string, string>,
                     allowAuto: bool): nat {
    var origin, adds := Normalize(LocalModels(row.models)), CollectAdds(matches, row, upstream, mapping);
    if allowAuto && row.autoSync && adds != [] && |Merge(origin, adds)| > |origin|
    then |Merge(origin, adds)| - |origin| else 0
  }

  /** The settings and models a check that got the upstream list will write. */
  method PlanCheck(matches: Matcher, row: Row, upstream: seq<string>, mapping: map<string, string>, allowAuto: bool,
                   now: int)
    returns (next: Row, added: nat)
    ensures next == Found(matches, row, upstream, mapping, allowAuto, now)
    ensures added == AutoAdded(matches, row, upstream, mapping, allowAuto)
    ensures added == 0 ==> next.models == row.models
  {
    var adds := CollectAdds(matches, row, upstream, mapping);
    var removes := CollectRemoves(row, upstream, mapping);
    var models, detected := row.models, adds;
    added := 0;
    if allowAuto && row.autoSync && |adds| > 0 {
      models, added := PlanSync(row.models, adds);
      detected := [];
    }
    next := row.(models := models, detected := detected, removed := removes, lastCheck := now);
  }

  /** The stored channel; a failed write leaves it as it was. */
  class Channel {
    var models: string
    var ignored: seq<string>
    var detected: seq<string>
    var removed: seq<string>
    var lastCheck: int
    var autoSync: bool

    function Value(): Row
      reads this
    {
      Row(models, ignored, detected, removed, lastCheck, autoSync)
    }

    constructor (row: Row)
      ensures Value() == row
    {
      models, ignored, detected := row.models, row.ignored, row.detected;
      removed, lastCheck, autoSync := row.removed, row.lastCheck, row.autoSync;
    }

    method Write(row: Row, withModels: bool)
      requires withModels || row.models == models
      modifies this
      ensures Value() == row
    {
      ignored, detected, removed := row.ignored, row.detected, row.removed;
      lastCheck, autoSync := row.lastCheck, row.autoSync;
      if withModels {
        models := row.models;
      }
    }

    /**
     * `upstream` is None when the list cannot be fetched, which is reported as an error after the
     * check time is written.
     */
    method Check(matches: Matcher, upstream: Option<seq<string>>, mapping: map<string, string>,
                 force: bool, allowAuto: bool, minInterval: int, now: int, writeOk: bool)
      returns (modelsChanged: bool, autoAdded: nat, ok: bool)
      modifies this
      ensures Value() == if !writeOk then old(Value())
                         else Checked(matches, old(Value()), upstream, mapping, force, allowAuto, minInterval, now)
      ensures ok == (TooSoon(old(Value()), force, minInterval, now) || (writeOk && upstream.Some?))
      ensures autoAdded == if TooSoon(old(Value()), force, minInterval, now) || upstream.None? then 0
                           else AutoAdded(matches, old(Value()), upstream.value, mapping, allowAuto)
      ensures modelsChanged == (writeOk && autoAdded > 0)
      ensures !modelsChanged ==> models == old(models)
    {
      if !force && lastCheck > 0 && now - lastCheck < minInterval {
        return false, 0, true;
      }
      if upstream.None? {
        if writeOk { Write(Value().(lastCheck := now), false); }
        return false, 0, false;
      }
      var next, added := PlanCheck(matches, Value(), upstream.value, mapping, allowAuto, now);
      if !writeOk { return false, added, false; }
      Write(next, added > 0);
      return added > 0, added, true;
    }

    method Apply(s: Selection, now: int, writeOk: bool)
      returns (added: seq<string>, gone: seq<string>, ok: bool)
      modifies this
      ensures ok == writeOk
      ensures ok ==> added == ChosenAdds(old(Value()), s) && gone == ChosenRemoves(old(Value()), s)
      ensures Value() == if writeOk then Applied(old(Value()), s, now) else old(Value())
    {
      var next, add, remove, changed := PlanApply(Value(), s, now);
      if !writeOk { return [], [], false; }
      Write(next, changed);
      return add, remove, true;
    }
  }
}
