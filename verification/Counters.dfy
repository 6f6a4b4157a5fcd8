/** Labelled counters with a bounded number of series, the rest counted in an overflow series. */
module Counters {

  const MAX_SERIES := 2000
  const OVERFLOW := "_label_series_overflow_total"

  /** name -> label key -> count */
  type Table = map<string, map<string, int>>

  function SeriesOf(t: Table, name: string): map<string, int> {
    if name in t then t[name] else map[]
  }

  function CountOf(t: Table, name: string, key: string): int {
    var s := SeriesOf(t, name);
    if key in s then s[key] else 0
  }

  function Incremented(t: Table, name: string, key: string, delta: int): Table {
    if delta == 0 then t
    else
      var series := SeriesOf(t, name);
      if key !in series && |series| >= MAX_SERIES then
        var u := t[name := series];
        u[name + OVERFLOW := SeriesOf(u, name + OVERFLOW)["" := CountOf(u, name + OVERFLOW, "") + delta]]
      else t[name := series[key := CountOf(t, name, key) + delta]]
  }

  class Registry {
    var counters: Table

    constructor ()
      ensures counters == map[]
    {
      counters := map[];
    }

    method Inc(name: string, key: string, delta: int)
      modifies this
      ensures counters == Incremented(old(counters), name, key, delta)
    {
      if delta == 0 { return; }
      if name !in counters {
        counters := counters[name := map[]];
      }
      var series := counters[name];
      if key !in series && |series| >= MAX_SERIES {
        var overflowName := name + OVERFLOW;
        if overflowName !in counters {
          counters := counters[overflowName := map[]];
        }
        var overflow := counters[overflowName];
        counters := counters[overflowName := overflow["" := (if "" in overflow then overflow[""] else 0) + delta]];
        return;
      }
      counters := counters[name := series[key := (if key in series then series[key] else 0) + delta]];
    }
  }

  // ----- Runs -----

  datatype Event = Inc(name: string, key: string, delta: int)

  function Execute(events: seq<Event>): Table {
    if events == [] then map[]
    else
      var e := events[|events| - 1];
      Incremented(Execute(events[..|events| - 1]), e.name, e.key, e.delta)
  }

  /** Every metric stays within the cap, the unlabelled overflow series aside. */
  ghost predicate Capped(t: Table) {
    forall name :: name in t ==> |t[name]| <= MAX_SERIES + if "" in t[name] then 1 else 0
  }

  lemma {:induction false} InsertSize(m: map<string, int>, k: string, v: int)
    ensures |m[k := v]| == |m| + if k in m then 0 else 1
  {
    assert m[k := v].Keys == m.Keys + {k};
  }

  lemma {:induction false} CappedStep(t: Table, e: Event)
    requires Capped(t)
    ensures Capped(Incremented(t, e.name, e.key, e.delta))
  {
    var series := SeriesOf(t, e.name);
    InsertSize(series, e.key, CountOf(t, e.name, e.key) + e.delta);
    var u := t[e.name := series];
    var over := SeriesOf(u, e.name + OVERFLOW);
    InsertSize(over, "", CountOf(u, e.name + OVERFLOW, "") + e.delta);
  }

  /** Whatever is incremented, no metric ever holds more than 2001 series. */
  lemma {:induction false} SeriesBounded(events: seq<Event>)
    ensures Capped(Execute(events))
  {
    if events != [] {
      SeriesBounded(events[..|events| - 1]);
      CappedStep(Execute(events[..|events| - 1]), events[|events| - 1]);
    }
  }

  // ----- Runs that leave the overflow names alone -----

  predicate IsOverflowName(name: string) {
    |name| >= |OVERFLOW| && name[|name| - |OVERFLOW|..] == OVERFLOW
  }

  predicate Direct(events: seq<Event>) {
    forall i :: 0 <= i < |events| ==> !IsOverflowName(events[i].name)
  }

  lemma {:induction false} OverflowNames(name: string, other: string)
    ensures IsOverflowName(name + OVERFLOW)
    ensures name + OVERFLOW == other + OVERFLOW <==> name == other
  {
    if name + OVERFLOW == other + OVERFLOW {
      assert (name + OVERFLOW)[..|name|] == name && (other + OVERFLOW)[..|other|] == other;
    }
  }

  /** Overflow metrics hold at most the unlabelled series, ordinary ones at most the cap. */
  ghost predicate Shape(t: Table) {
    forall name :: name in t ==>
      if IsOverflowName(name) then t[name].Keys <= {""} else |t[name]| <= MAX_SERIES
  }

  lemma {:induction false} ShapeStep(t: Table, e: Event)
    requires Shape(t) && !IsOverflowName(e.name)
    ensures Shape(Incremented(t, e.name, e.key, e.delta))
  {
    OverflowNames(e.name, e.name);
    InsertSize(SeriesOf(t, e.name), e.key, CountOf(t, e.name, e.key) + e.delta);
  }

  lemma {:induction false} ShapeHolds(events: seq<Event>)
    requires Direct(events)
    ensures Shape(Execute(events))
  {
    if events != [] {
      ShapeHolds(events[..|events| - 1]);
      ShapeStep(Execute(events[..|events| - 1]), events[|events| - 1]);
    }
  }

  /** If nobody increments an overflow name directly, each metric keeps at most 2000 series. */
  lemma AtMostMaxSeries(events: seq<Event>, name: string)
    requires Direct(events)
    ensures |SeriesOf(Execute(events), name)| <= MAX_SERIES
  {
    ShapeHolds(events);
    var s := SeriesOf(Execute(events), name);
    if IsOverflowName(name) {
      SubsetSize(s.Keys, {""});
      assert |s| == |s.Keys|;
    }
  }

  lemma {:induction false} SubsetSize(a: set<string>, b: set<string>)
    requires a <= b
    ensures |a| <= |b|
  {
    if a != {} {
      var x :| x in a;
      SubsetSize(a - {x}, b - {x});
    }
  }

  // ----- Exactly when the cap fails -----

  /** This increment spills over into a metric that already has all its series, none of them unlabelled. */
  ghost predicate Spills(t: Table, e: Event, name: string) {
    && name == e.name + OVERFLOW && e.delta != 0
    && e.key !in SeriesOf(t, e.name) && |SeriesOf(t, e.name)| >= MAX_SERIES
    && "" !in SeriesOf(t, name) && |SeriesOf(t, name)| >= MAX_SERIES
  }

  lemma {:induction false} StepExceeds(t: Table, e: Event, name: string)
    ensures var after := Incremented(t, e.name, e.key, e.delta);
            |SeriesOf(after, name)| > MAX_SERIES <==> |SeriesOf(t, name)| > MAX_SERIES || Spills(t, e, name)
  {
    InsertSize(SeriesOf(t, e.name), e.key, CountOf(t, e.name, e.key) + e.delta);
    if name == e.name + OVERFLOW {
      InsertSize(SeriesOf(t, name), "", CountOf(t, name, "") + e.delta);
    }
  }

  ghost predicate SpillsAt(events: seq<Event>, i: nat, name: string)
    requires i < |events|
  {
    Spills(Execute(events[..i]), events[i], name)
  }

  lemma {:induction false} SpillsPrefix(events: seq<Event>, name: string)
    requires events != []
    ensures var init := events[..|events| - 1];
            (exists i :: 0 <= i < |events| && SpillsAt(events, i, name)) <==>
            (exists i :: 0 <= i < |init| && SpillsAt(init, i, name)) || SpillsAt(events, |events| - 1, name)
  {
    var init := events[..|events| - 1];
    forall i | 0 <= i < |init| ensures SpillsAt(init, i, name) <==> SpillsAt(events, i, name) {
      assert init[..i] == events[..i];
    }
  }

  /** A metric exceeds 2000 series if and only if at some point of the run an increment spilled over into it so. */
  lemma {:induction false} ExceedsExactly(events: seq<Event>, name: string)
    ensures |SeriesOf(Execute(events), name)| > MAX_SERIES <==>
            exists i :: 0 <= i < |events| && SpillsAt(events, i, name)
  {
    if events != [] {
      var init := events[..|events| - 1];
      ExceedsExactly(init, name);
      StepExceeds(Execute(init), events[|events| - 1], name);
      SpillsPrefix(events, name);
    }
  }

  /** The i-th of distinct labels, none of them blank. */
  function Label(i: nat): (s: string)
    ensures |s| == i + 1
  {
    seq(i + 1, _ => 'x')
  }

  /** Increments of the first `n` labels of a metric. */
  function Labelled(name: string, n: nat): seq<Event> {
    if n == 0 then [] else Labelled(name, n - 1) + [Inc(name, Label(n - 1), 1)]
  }

  lemma {:induction false} ExecuteSnoc(events: seq<Event>, e: Event)
    ensures Execute(events + [e]) == Incremented(Execute(events), e.name, e.key, e.delta)
  {
    assert (events + [e])[..|events|] == events;
  }

  /** A series of so many labels, none of them blank or longer. */
  ghost predicate FirstLabels(series: map<string, int>, n: nat) {
    |series| == n && forall k :: k in series ==> 1 <= |k| <= n
  }

  lemma {:induction false} LabelStep(t: Table, name: string, n: nat, other: string)
    requires n < MAX_SERIES && FirstLabels(SeriesOf(t, name), n) && other != name
    ensures var after := Incremented(t, name, Label(n), 1);
            FirstLabels(SeriesOf(after, name), n + 1) && SeriesOf(after, other) == SeriesOf(t, other)
  {
    var series := SeriesOf(t, name);
    assert Label(n) !in series;
    InsertSize(series, Label(n), 1);
  }

  /** Labelling a fresh metric gives it that many series and leaves the others alone. */
  lemma {:induction false} LabelledSeries(before: seq<Event>, name: string, n: nat, other: string)
    requires n <= MAX_SERIES && SeriesOf(Execute(before), name) == map[] && other != name
    ensures var t := Execute(before + Labelled(name, n));
            FirstLabels(SeriesOf(t, name), n) && SeriesOf(t, other) == SeriesOf(Execute(before), other)
  {
    if n == 0 {
      assert before + Labelled(name, n) == before;
    } else {
      LabelledSeries(before, name, n - 1, other);
      LabelledSnoc(before, name, n - 1);
      LabelStep(Execute(before + Labelled(name, n - 1)), name, n - 1, other);
    }
  }

  lemma {:induction false} LabelledSnoc(before: seq<Event>, name: string, n: nat)
    ensures Execute(before + Labelled(name, n + 1))
            == Incremented(Execute(before + Labelled(name, n)), name, Label(n), 1)
  {
    var e := Inc(name, Label(n), 1);
    assert before + Labelled(name, n + 1) == before + Labelled(name, n) + [e];
    ExecuteSnoc(before + Labelled(name, n), e);
  }

  /** 2000 labels of an overflow metric, then 2001 of the metric it belongs to. */
  function Overfill(name: string): seq<Event> {
    Labelled(name + OVERFLOW, MAX_SERIES) + Labelled(name, MAX_SERIES) + [Inc(name, Label(MAX_SERIES), 1)]
  }

  /** For every metric a run exists that gives its overflow metric 2001 series. */
  lemma {:induction false} OverflowMetricExceedsCap(name: string)
    ensures |SeriesOf(Execute(Overfill(name)), name + OVERFLOW)| == MAX_SERIES + 1
  {
    var over := name + OVERFLOW;
    assert |over| > |name|;
    var first := Labelled(over, MAX_SERIES);
    assert [] + first == first;
    LabelledSeries([], over, MAX_SERIES, name);
    LabelledSeries(first, name, MAX_SERIES, over);
    var both := first + Labelled(name, MAX_SERIES);
    ExecuteSnoc(both, Inc(name, Label(MAX_SERIES), 1));
    InsertSize(SeriesOf(Execute(both), over), "", 1);
  }

  // ----- Each series -----

  /** The series an increment goes to: its own, or the unlabelled overflow once 2000 others exist. */
  predicate GoesTo(t: Table, e: Event, name: string, key: string) {
    if e.key !in SeriesOf(t, e.name) && |SeriesOf(t, e.name)| >= 2000
    then name == e.name + "_label_series_overflow_total" && key == ""
    else name == e.name && key == e.key
  }

  /** An increment adds its delta to that series and leaves every other as it was. */
  lemma {:induction false} SeriesExactly(t: Table, e: Event, name: string, key: string)
    ensures var after := Incremented(t, e.name, e.key, e.delta);
            && CountOf(after, name, key) == CountOf(t, name, key) + (if GoesTo(t, e, name, key) then e.delta else 0)
            && (key in SeriesOf(after, name) <==>
                key in SeriesOf(t, name) || (e.delta != 0 && GoesTo(t, e, name, key)))
  {
    assert |e.name + OVERFLOW| > |e.name|;
  }

  function SeriesSum(events: seq<Event>, name: string, key: string): int {
    if events == [] then 0
    else
      var e := events[|events| - 1];
      SeriesSum(events[..|events| - 1], name, key) + if e.name == name && e.key == key then e.delta else 0
  }

  lemma {:induction false} SeriesNeverShrink(t: Table, e: Event, name: string)
    ensures |SeriesOf(Incremented(t, e.name, e.key, e.delta), name)| >= |SeriesOf(t, name)|
  {
    InsertSize(SeriesOf(t, e.name), e.key, CountOf(t, e.name, e.key) + e.delta);
    if name == e.name + OVERFLOW {
      InsertSize(SeriesOf(t, name), "", CountOf(t, name, "") + e.delta);
    }
  }

  /**
   * Over every run a series of an ordinary metric counts all that was added to it, or nothing: it is
   * missing only if the metric is full or all that was added to it was zero.
   */
  lemma {:induction false} SeriesAllOrNothing(events: seq<Event>, name: string, key: string)
    requires !IsOverflowName(name)
    ensures var t := Execute(events);
            if key in SeriesOf(t, name) then CountOf(t, name, key) == SeriesSum(events, name, key)
            else CountOf(t, name, key) == 0 && (|SeriesOf(t, name)| >= 2000 || SeriesSum(events, name, key) == 0)
  {
    if events != [] {
      var before, e := Execute(events[..|events| - 1]), events[|events| - 1];
      SeriesAllOrNothing(events[..|events| - 1], name, key);
      SeriesExactly(before, e, name, key);
      SeriesNeverShrink(before, e, name);
      OverflowNames(e.name, e.name);
    }
  }

  // ----- Conservation -----

  ghost function Sum(m: map<string, int>): int {
    if m == map[] then 0
    else
      var k :| k in m;
      m[k] + Sum(m - {k})
  }

  lemma {:induction false} SumRemove(m: map<string, int>, k: string)
    requires k in m
    ensures Sum(m) == m[k] + Sum(m - {k})
    decreases |m|
  {
    var j :| j in m && Sum(m) == m[j] + Sum(m - {j});
    if j != k {
      SumRemove(m - {j}, k);
      SumRemove(m - {k}, j);
      assert m - {j} - {k} == m - {k} - {j};
    }
  }

  lemma SumPut(m: map<string, int>, k: string, v: int)
    ensures Sum(m[k := v]) == Sum(m) + v - if k in m then m[k] else 0
  {
    SumRemove(m[k := v], k);
    if k in m {
      SumRemove(m, k);
      assert m[k := v] - {k} == m - {k};
    } else {
      assert m[k := v] - {k} == m;
    }
  }

  function DeltaSum(events: seq<Event>, name: string): int {
    if events == [] then 0
    else
      var e := events[|events| - 1];
      DeltaSum(events[..|events| - 1], name) + if e.name == name then e.delta else 0
  }

  ghost function Accounted(t: Table, name: string): int {
    Sum(SeriesOf(t, name)) + CountOf(t, name + OVERFLOW, "")
  }

  /** An increment of one metric touches that metric and its overflow only. */
  lemma {:induction false} OtherNamesKept(t: Table, e: Event, name: string)
    requires name != e.name && name != e.name + OVERFLOW
    ensures SeriesOf(Incremented(t, e.name, e.key, e.delta), name) == SeriesOf(t, name)
  {
  }

  lemma OwnSeriesStep(t: Table, e: Event)
    requires !IsOverflowName(e.name) && e.delta != 0
    requires e.key in SeriesOf(t, e.name) || |SeriesOf(t, e.name)| < MAX_SERIES
    ensures Accounted(Incremented(t, e.name, e.key, e.delta), e.name) == Accounted(t, e.name) + e.delta
  {
    OverflowNames(e.name, e.name);
    SumPut(SeriesOf(t, e.name), e.key, CountOf(t, e.name, e.key) + e.delta);
  }

  lemma {:induction false} OwnOverflowStep(t: Table, e: Event)
    requires !IsOverflowName(e.name) && e.delta != 0
    requires e.key !in SeriesOf(t, e.name) && |SeriesOf(t, e.name)| >= MAX_SERIES
    ensures Accounted(Incremented(t, e.name, e.key, e.delta), e.name) == Accounted(t, e.name) + e.delta
  {
    OverflowNames(e.name, e.name);
  }

  lemma AccountedStep(t: Table, e: Event, name: string)
    requires !IsOverflowName(name) && !IsOverflowName(e.name)
    ensures Accounted(Incremented(t, e.name, e.key, e.delta), name)
            == Accounted(t, name) + if e.name == name then e.delta else 0
  {
    if e.name == name {
      if e.delta != 0 {
        if e.key in SeriesOf(t, e.name) || |SeriesOf(t, e.name)| < MAX_SERIES {
          OwnSeriesStep(t, e);
        } else {
          OwnOverflowStep(t, e);
        }
      }
    } else {
      OverflowNames(name, e.name);
      OverflowNames(e.name, name);
      OtherNamesKept(t, e, name);
      OtherNamesKept(t, e, name + OVERFLOW);
    }
  }

  /** Nothing is lost: all series of a metric plus its overflow add up to the deltas applied to it. */
  lemma {:induction false} CountsConserved(events: seq<Event>, name: string)
    requires Direct(events) && !IsOverflowName(name)
    ensures Accounted(Execute(events), name) == DeltaSum(events, name)
  {
    if events != [] {
      var init := events[..|events| - 1];
      CountsConserved(init, name);
      AccountedStep(Execute(init), events[|events| - 1], name);
    }
  }
}
