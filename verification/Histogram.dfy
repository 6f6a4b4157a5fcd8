/** Latency histograms: bucket i counts the observations not above bound i. */
module Histogram {

  const BOUNDS: seq<real> := [0.1, 0.25, 0.5, 1.0, 2.5, 5.0, 10.0, 30.0]

  datatype Hist = Hist(buckets: seq<int>, sum: real, n: int)

  const EMPTY := Hist([0, 0, 0, 0, 0, 0, 0, 0, 0], 0.0, 0)

  predicate Ascending(bounds: seq<real>) {
    forall i, j :: 0 <= i < j < |bounds| ==> bounds[i] < bounds[j]
  }

  /** The first bound that is not below `v`. */
  method Search(bounds: seq<real>, v: real) returns (b: nat)
    requires Ascending(bounds)
    ensures b <= |bounds|
    ensures forall i :: 0 <= i < b ==> bounds[i] < v
    ensures forall i :: b <= i < |bounds| ==> v <= bounds[i]
  {
    var lo, hi := 0, |bounds|;
    while lo < hi
      invariant 0 <= lo <= hi <= |bounds|
      invariant forall i :: 0 <= i < lo ==> bounds[i] < v
      invariant forall i :: hi <= i < |bounds| ==> v <= bounds[i]
    {
      var mid := (lo + hi) / 2;
      if bounds[mid] >= v { hi := mid; } else { lo := mid + 1; }
    }
    b := lo;
  }

  function Counted(bounds: seq<real>, v: real, i: nat): int {
    if i >= |bounds| || v <= bounds[i] then 1 else 0
  }

  function Bumped(buckets: seq<int>, v: real): (r: seq<int>)
    ensures |r| == |buckets|
    ensures forall i :: 0 <= i < |r| ==> r[i] == buckets[i] + Counted(BOUNDS, v, i)
  {
    seq(|buckets|, i requires 0 <= i < |buckets| => buckets[i] + Counted(BOUNDS, v, i))
  }

  function Observed(h: Hist, v: real): Hist {
    Hist(Bumped(h.buckets, v), h.sum + v, h.n + 1)
  }

  /** The histogram of one name, created empty when it is first observed. */
  function Recorded(hists: map<string, Hist>, name: string, v: real): map<string, Hist> {
    hists[name := Observed(if name in hists then hists[name] else EMPTY, v)]
  }

  class Histograms {
    var hists: map<string, Hist>

    constructor ()
      ensures hists == map[]
    {
      hists := map[];
    }

    ghost predicate Valid()
      reads this
    {
      forall name :: name in hists ==> |hists[name].buckets| == |BOUNDS| + 1
    }

    method Observe(name: string, v: real)
      requires Valid()
      modifies this
      ensures Valid()
      ensures hists == Recorded(old(hists), name, v)
    {
      if name !in hists { hists := hists[name := EMPTY]; }
      var h := hists[name];
      var buckets := h.buckets;
      var b := Search(BOUNDS, v);
      for i := b to |buckets|
        invariant |buckets| == |h.buckets|
        invariant forall j :: 0 <= j < |buckets| ==> buckets[j] == h.buckets[j] + if b <= j < i then 1 else 0
      {
        buckets := buckets[i := buckets[i] + 1];
      }
      assert buckets == Observed(h, v).buckets;
      hists := hists[name := Hist(buckets, h.sum + v, h.n + 1)];
    }
  }

  // ----- Runs -----

  function Execute(values: seq<real>): (h: Hist)
    ensures |h.buckets| == |BOUNDS| + 1
  {
    if values == [] then EMPTY else Observed(Execute(values[..|values| - 1]), values[|values| - 1])
  }

  function CountAtMost(values: seq<real>, bound: real): nat {
    if values == [] then 0
    else CountAtMost(values[..|values| - 1], bound) + if values[|values| - 1] <= bound then 1 else 0
  }

  function Total(values: seq<real>): real {
    if values == [] then 0.0 else Total(values[..|values| - 1]) + values[|values| - 1]
  }

  /** Each bucket is the number of observations up to its bound, the last one of all; sum and count agree. */
  lemma {:induction false} BucketsAreCumulative(values: seq<real>)
    ensures var h, bounds := Execute(values), [0.1, 0.25, 0.5, 1.0, 2.5, 5.0, 10.0, 30.0];
            && |h.buckets| == 9
            && (forall i :: 0 <= i < 8 ==> h.buckets[i] == CountAtMost(values, bounds[i]))
            && h.buckets[8] == h.n == |values|
            && h.sum == Total(values)
  {
    if values != [] {
      BucketsAreCumulative(values[..|values| - 1]);
    }
  }

  // ----- All histograms -----

  datatype Observation = Observation(name: string, v: real)

  function ExecuteAll(events: seq<Observation>): map<string, Hist> {
    if events == [] then map[]
    else
      var e := events[|events| - 1];
      Recorded(ExecuteAll(events[..|events| - 1]), e.name, e.v)
  }

  function ValuesOf(events: seq<Observation>, name: string): seq<real> {
    if events == [] then []
    else
      var e, before := events[|events| - 1], ValuesOf(events[..|events| - 1], name);
      if e.name == name then before + [e.v] else before
  }

  lemma {:induction false} ExecuteSnoc(values: seq<real>, v: real)
    ensures Execute(values + [v]) == Observed(Execute(values), v)
  {
    assert (values + [v])[..|values|] == values;
  }

  /** Over every run each name has a histogram of exactly its own observations, and none without one. */
  lemma {:induction false} EachNameOnItsOwn(events: seq<Observation>, name: string)
    ensures var hists, values := ExecuteAll(events), ValuesOf(events, name);
            (name in hists <==> values != []) && (name in hists ==> hists[name] == Execute(values))
  {
    if events != [] {
      var before, e := events[..|events| - 1], events[|events| - 1];
      EachNameOnItsOwn(before, name);
      ExecuteSnoc(ValuesOf(before, name), e.v);
    }
  }
}
