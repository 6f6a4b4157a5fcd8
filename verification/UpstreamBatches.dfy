/** When it does not matter how a selection is split into calls. */
module UpstreamBatches {
  import opened Delimited
  import opened ModelNames
  import opened UpstreamModels
  import opened UpstreamLaws

  function AppliedAll(row: Row, batches: seq<Selection>, now: int): Row {
    if batches == [] then row
    else Applied(AppliedAll(row, batches[..|batches| - 1], now), batches[|batches| - 1], now)
  }

  /** The whole selection in one piece. */
  function Together(batches: seq<Selection>): Selection {
    if batches == [] then Selection([], [], [])
    else
      var rest, last := Together(batches[..|batches| - 1]), batches[|batches| - 1];
      Selection(rest.add + last.add, rest.ignore + last.ignore, rest.remove + last.remove)
  }

  /** No pending model is ignored in one batch and added in another. */
  ghost predicate NoCross(batches: seq<Selection>, pending: set<string>) {
    forall i, j, m :: 0 <= i < |batches| && 0 <= j < |batches| && i != j && m in pending ==>
      !(m in Names(batches[i].ignore) && m in Names(batches[j].add))
  }

  // ----- What a split loses -----

  /** The pieces lost so far, when a batch that adds A and removes R follows batches that added B. */
  ghost function LostBy(lost: set<string>, before: set<string>, add: set<string>, remove: set<string>): set<string> {
    (lost + (remove * PiecesOf(before))) - PiecesOf(add)
  }

  /**
   * Models that a later batch removes although an earlier one brought them in as a piece of an added
   * name, and that no batch from then on brings in again.  One call keeps them: there, add wins.
   */
  ghost function Lost(v: View, batches: seq<Selection>): set<string> {
    if batches == [] then {}
    else
      var init, last := batches[..|batches| - 1], batches[|batches| - 1];
      var before, gone := Names(Together(init).add), Names(Together(init).remove);
      LostBy(Lost(v, init), before * v.adds, Names(last.add) * v.adds - before, Names(last.remove) * v.removes - gone)
  }

  lemma {:induction false} LostArePieces(v: View, batches: seq<Selection>)
    ensures Lost(v, batches) <= PiecesOf(Names(Together(batches).add) * v.adds)
  {
    if batches != [] {
      var init, last := batches[..|batches| - 1], batches[|batches| - 1];
      LostArePieces(v, init);
      NamesConcat(Together(init).add, last.add);
      PiecesUnion(Names(Together(init).add) * v.adds, Names(last.add) * v.adds);
      assert Names(Together(batches).add) * v.adds == Names(Together(init).add) * v.adds + Names(last.add) * v.adds;
    }
  }

  // ----- Two steps against one -----

  /** A view that is one step from `v`, but for the lost models. */
  ghost predicate NearStep(v: View, mid: View, a: set<string>, g: set<string>, r: set<string>, lost: set<string>) {
    mid == Step(v, a, g, r).(models := Step(v, a, g, r).models - lost)
  }

  lemma {:induction false} StepsComposePending(v: View, mid: View, a: set<string>, g: set<string>, r: set<string>,
                                               lost: set<string>,
                                               b: set<string>, h: set<string>, s: set<string>)
    requires v.adds !! v.removes && NearStep(v, mid, a, g, r, lost)
    requires forall m :: m in v.adds && m in g ==> m !in b
    requires forall m :: m in v.adds && m in a ==> m !in h
    ensures var one, two := Step(mid, b, h, s), Step(v, a + b, g + h, r + s);
            one.ignored == two.ignored && one.adds == two.adds && one.removes == two.removes
    ensures b * mid.adds == b * v.adds - a && (s * mid.removes) - (b * mid.adds) == s * v.removes - r
  {
  }

  /** On plain sets: keep what is not removed, add pieces; in two steps and in one. */
  lemma {:induction false} ModelsCompose(models: set<string>, r1: set<string>, p1: set<string>, lost: set<string>,
                                         r2: set<string>, p2: set<string>)
    ensures ((((models - r1) + p1) - lost) - r2) + p2
            == (((models - (r1 + r2)) + (p1 + p2)) - ((lost + (r2 * p1)) - p2))
  {
  }

  lemma {:induction false} StepsComposeModels(v: View, mid: View, a: set<string>, g: set<string>, r: set<string>,
                                              lost: set<string>,
                                              b: set<string>, h: set<string>, s: set<string>)
    requires v.adds !! v.removes && NearStep(v, mid, a, g, r, lost)
    requires b * mid.adds == b * v.adds - a && (s * mid.removes) - (b * mid.adds) == s * v.removes - r
    ensures Step(mid, b, h, s).models
            == Step(v, a + b, g + h, r + s).models - LostBy(lost, a * v.adds, b * v.adds - a, s * v.removes - r)
  {
    var A, B, R, S := a * v.adds, b * v.adds - a, r * v.removes, s * v.removes - r;
    assert (a + b) * v.adds == A + B;
    assert (r * v.removes) - A == R;
    assert ((r + s) * v.removes) - (A + B) == R + S;
    PiecesUnion(A, B);
    ModelsCompose(v.models, R, PiecesOf(A), lost, S, PiecesOf(B));
  }

  lemma {:induction false} StepsCompose(v: View, mid: View, a: set<string>, g: set<string>, r: set<string>,
                                        lost: set<string>,
                                        b: set<string>, h: set<string>, s: set<string>)
    requires v.adds !! v.removes && NearStep(v, mid, a, g, r, lost)
    requires forall m :: m in v.adds && m in g ==> m !in b
    requires forall m :: m in v.adds && m in a ==> m !in h
    ensures NearStep(v, Step(mid, b, h, s), a + b, g + h, r + s,
                     LostBy(lost, a * v.adds, b * v.adds - a, s * v.removes - r))
  {
    StepsComposePending(v, mid, a, g, r, lost, b, h, s);
    StepsComposeModels(v, mid, a, g, r, lost, b, h, s);
  }

  // ----- Batches -----

  lemma {:induction false} TogetherMember(batches: seq<Selection>, m: string)
    ensures m in Names(Together(batches).add) ==> exists i :: 0 <= i < |batches| && m in Names(batches[i].add)
    ensures m in Names(Together(batches).ignore) ==> exists i :: 0 <= i < |batches| && m in Names(batches[i].ignore)
  {
    if batches != [] {
      var init, last := batches[..|batches| - 1], batches[|batches| - 1];
      TogetherMember(init, m);
      NamesConcat(Together(init).add, last.add);
      NamesConcat(Together(init).ignore, last.ignore);
      assert batches == init + [last];
      assert forall i :: 0 <= i < |init| ==> batches[i] == init[i];
    } else {
      assert Cleaned([]) == [];
    }
  }

  lemma {:induction false} CrossFree(batches: seq<Selection>, pending: set<string>)
    requires batches != [] && NoCross(batches, pending)
    ensures var rest, last := Together(batches[..|batches| - 1]), batches[|batches| - 1];
            && (forall m :: m in pending && m in Names(rest.ignore) ==> m !in Names(last.add))
            && (forall m :: m in pending && m in Names(rest.add) ==> m !in Names(last.ignore))
            && NoCross(batches[..|batches| - 1], pending)
  {
    var init, n := batches[..|batches| - 1], |batches| - 1;
    forall m | m in pending
      ensures !(m in Names(Together(init).ignore) && m in Names(batches[n].add))
      ensures !(m in Names(Together(init).add) && m in Names(batches[n].ignore))
    {
      TogetherMember(init, m);
      assert forall i :: 0 <= i < n ==> init[i] == batches[i];
    }
  }

  /** `mid` is what the selection `rest` makes of `v`, but for the lost models. */
  ghost predicate Reached(v: View, mid: View, rest: Selection, lost: set<string>) {
    NearStep(v, mid, Names(rest.add), Names(rest.ignore), Names(rest.remove), lost)
  }

  lemma {:induction false} BatchSnoc(v: View, mid: Row, rest: Selection, last: Selection, lost: set<string>, now: int)
    requires v.adds !! v.removes && Reached(v, ViewOf(mid), rest, lost)
    requires forall m :: m in v.adds && m in Names(rest.ignore) ==> m !in Names(last.add)
    requires forall m :: m in v.adds && m in Names(rest.add) ==> m !in Names(last.ignore)
    ensures Reached(v, ViewOf(Applied(mid, last, now)),
                    Selection(rest.add + last.add, rest.ignore + last.ignore, rest.remove + last.remove),
                    LostBy(lost, Names(rest.add) * v.adds, Names(last.add) * v.adds - Names(rest.add),
                           Names(last.remove) * v.removes - Names(rest.remove)))
  {
    AppliedSets(mid, last, now);
    StepsCompose(v, ViewOf(mid), Names(rest.add), Names(rest.ignore), Names(rest.remove), lost, Names(last.add),
                 Names(last.ignore), Names(last.remove));
    NamesConcat(rest.add, last.add);
    NamesConcat(rest.ignore, last.ignore);
    NamesConcat(rest.remove, last.remove);
  }

  lemma {:induction false} BatchesReach(row: Row, batches: seq<Selection>, now: int)
    requires Names(row.detected) !! Names(row.removed) && NoCross(batches, Names(row.detected))
    ensures Reached(ViewOf(row), ViewOf(AppliedAll(row, batches, now)), Together(batches), Lost(ViewOf(row), batches))
  {
    if batches == [] {
      assert Cleaned([]) == [] && Names([]) == {};
      assert PiecesOf({} * ViewOf(row).adds) == {};
    } else {
      var init := batches[..|batches| - 1];
      CrossFree(batches, Names(row.detected));
      BatchesReach(row, init, now);
      BatchSnoc(ViewOf(row), AppliedAll(row, init, now), Together(init), batches[|batches| - 1],
                Lost(ViewOf(row), init), now);
    }
  }

  /**
   * Splitting a selection over any number of calls reaches the same model, ignored and remaining sets
   * as one call with everything, if and only if no model is lost.
   */
  lemma {:induction false} BatchingExactly(row: Row, batches: seq<Selection>, now: int)
    requires Names(row.detected) !! Names(row.removed) && NoCross(batches, Names(row.detected))
    ensures ViewOf(AppliedAll(row, batches, now)) == ViewOf(Applied(row, Together(batches), now)) <==>
            Lost(ViewOf(row), batches) == {}
  {
    BatchesReach(row, batches, now);
    AppliedSets(row, Together(batches), now);
    LostArePieces(ViewOf(row), batches);
    NearIsEqual(ViewOf(row), ViewOf(AppliedAll(row, batches, now)), Names(Together(batches).add),
                Names(Together(batches).ignore),
                Names(Together(batches).remove), Lost(ViewOf(row), batches));
  }

  lemma {:induction false} NearIsEqual(v: View, mid: View, a: set<string>, g: set<string>, r: set<string>,
                                       lost: set<string>)
    requires NearStep(v, mid, a, g, r, lost) && lost <= PiecesOf(a * v.adds)
    ensures mid == Step(v, a, g, r) <==> lost == {}
  {
    var full := Step(v, a, g, r).models;
    assert lost <= full;
    if lost != {} {
      var x :| x in lost;
      assert x in full && x !in full - lost;
    } else {
      assert full - lost == full;
    }
  }

  lemma {:induction false} NothingLost(v: View, batches: seq<Selection>)
    requires v.adds !! v.removes && TidyNames(v.adds) && CommaFree(Names(Together(batches).add) * v.adds)
    ensures Lost(v, batches) == {}
  {
    if batches != [] {
      var init, last := batches[..|batches| - 1], batches[|batches| - 1];
      NamesConcat(Together(init).add, last.add);
      NothingLost(v, init);
      PiecesOfFree(Names(Together(init).add) * v.adds);
    }
  }

  /** In particular when no name that is added contains a comma. */
  lemma {:induction false} BatchingIsIrrelevant(row: Row, batches: seq<Selection>, now: int)
    requires Names(row.detected) !! Names(row.removed) && NoCross(batches, Names(row.detected))
    requires CommaFree(Names(Together(batches).add) * Names(row.detected))
    ensures ViewOf(AppliedAll(row, batches, now)) == ViewOf(Applied(row, Together(batches), now))
  {
    NamesAreTidy(row.detected);
    NothingLost(ViewOf(row), batches);
    BatchingExactly(row, batches, now);
  }

  // ----- Where splitting matters -----

  /** First everything in `add` is added, then everything in `remove` is removed. */
  function AddThenRemove(add: seq<string>, remove: seq<string>): seq<Selection> {
    [Selection(add, [], []), Selection([], [], remove)]
  }

  lemma {:induction false} AddThenRemoveLoses(v: View, add: seq<string>, remove: seq<string>)
    ensures Together(AddThenRemove(add, remove)) == Selection(add, [], remove)
    ensures Lost(v, AddThenRemove(add, remove)) == (Names(remove) * v.removes) * PiecesOf(Names(add) * v.adds)
  {
    var both := AddThenRemove(add, remove);
    var one := both[..1];
    assert one[..0] == [] && both[..|both| - 1] == one && one[..|one| - 1] == [];
    assert Together(one) == Selection(add, [], []);
    assert Cleaned([]) == [] && Names([]) == {};
    assert PiecesOf({}) == {};
    assert Lost(v, one) == {};
    assert {} * v.adds - Names(add) == {};
  }

  /** Adding first and removing later differs from one call exactly if a piece of an added name is removed. */
  lemma {:induction false} AddThenRemoveExactly(row: Row, add: seq<string>, remove: seq<string>, now: int)
    requires Names(row.detected) !! Names(row.removed)
    ensures ViewOf(AppliedAll(row, AddThenRemove(add, remove), now))
            == ViewOf(Applied(row, Selection(add, [], remove), now)) <==>
            (Names(remove) * Names(row.removed)) * PiecesOf(Names(add) * Names(row.detected)) == {}
  {
    assert Cleaned([]) == [] && Names([]) == {};
    AddThenRemoveLoses(ViewOf(row), add, remove);
    BatchingExactly(row, AddThenRemove(add, remove), now);
  }

  lemma {:induction false} CommaDetection(matches: Matcher, now: int)
    ensures var row := Detected(matches, Row("a", [], [], [], 0, false), ["a,b"], map[], now);
            Names(row.detected) == {"a,b"} && Names(row.removed) == {"a"}
  {
    var start := Row("a", [], [], [], 0, false);
    CommaNamesRead();
    DetectedView(matches, start, ["a,b"], map[], now);
    assert Cleaned([]) == [] && Names([]) == {};
    CommaPending(matches);
  }

  lemma {:induction false} CommaPending(matches: Matcher)
    ensures PendingAdds(matches, {"a"}, {"a,b"}, {}, map[]) == {"a,b"} && PendingRemoves({"a"}, {"a,b"}, map[]) == {"a"}
  {
    assert "a" != "a,b" by { assert |"a"| != |"a,b"|; }
  }

  /**
   * A real detection: local model "a", upstream model "a,b".  Adding "a,b" and removing "a" in one call
   * keeps "a"; in two calls it is gone.
   */
  lemma {:induction false} CommaBatchesDiffer(matches: Matcher, now: int)
    ensures var row := Detected(matches, Row("a", [], [], [], 0, false), ["a,b"], map[], now);
            && Names(row.detected) == {"a,b"} && Names(row.removed) == {"a"}
            && ViewOf(AppliedAll(row, AddThenRemove(["a,b"], ["a"]), now))
               != ViewOf(Applied(row, Selection(["a,b"], [], ["a"]), now))
  {
    var row := Detected(matches, Row("a", [], [], [], 0, false), ["a,b"], map[], now);
    CommaDetection(matches, now);
    CommaNamesRead();
    PieceSplitDiffers(row, "a,b", "a", now);
  }

  lemma {:induction false} PieceInBoth(c: string, x: string)
    requires x in PiecesOf({c})
    ensures ({x} * {x}) * PiecesOf({c} * {c}) != {}
  {
    assert {c} * {c} == {c};
    assert x in ({x} * {x}) * PiecesOf({c});
  }

  /** So it is whenever the one name to be removed is a piece of the one to be added. */
  lemma {:induction false} PieceSplitDiffers(row: Row, c: string, x: string, now: int)
    requires Names(row.detected) == {c} == Names([c]) && Names(row.removed) == {x} == Names([x])
    requires x != c && x in PiecesOf({c})
    ensures ViewOf(AppliedAll(row, AddThenRemove([c], [x]), now)) != ViewOf(Applied(row, Selection([c], [], [x]), now))
  {
    AddThenRemoveExactly(row, [c], [x], now);
    PieceInBoth(c, x);
  }

  lemma {:induction false} CommaNamesRead()
    ensures Names(LocalModels("a")) == {"a"} == Names(["a"]) && Names(["a,b"]) == {"a,b"} && "a" in PiecesOf({"a,b"})
  {
    TrimFixed("a", Spaces);
    TrimFixed("b", Spaces);
    TrimFixed("a,b", Spaces);
    TrimFixed("a", Only(','));
    OneName("a");
    OneName("a,b");
    SplitFirst("a", "b", ',');
    SplitFirst("b", "", ',');
    assert "a" + [','] + "b" == "a,b";
    NamesConcat(["a"], ["b"]);
    assert ["a"] + ["b"] == Split("a,b", ',');
  }

  /** A name pending both for adding and for removing is kept by one call and lost by two. */
  lemma {:induction false} BothPendingDiffers(row: Row, x: string, now: int)
    requires x in Names(row.detected) && x in Names(row.removed) && ',' !in x
    ensures x in ViewOf(Applied(row, Selection([x], [], [x]), now)).models
    ensures x !in ViewOf(AppliedAll(row, AddThenRemove([x], [x]), now)).models
  {
    NamesAreTidy(row.detected);
    OneName(x);
    OnePiece(x);
    AddWins(row, Selection([x], [], [x]), now, x);
    var batches := AddThenRemove([x], [x]);
    var mid := Applied(row, batches[0], now);
    assert batches[..1][..0] == [] && AppliedAll(row, batches[..1], now) == mid;
    assert Cleaned([]) == [] && Names([]) == {};
    AppliedSets(row, batches[0], now);
    assert x in ViewOf(mid).removes;
    AppliedSets(mid, batches[1], now);
    assert PiecesOf({} * ViewOf(mid).adds) == {};
  }
}
