/** Convergence of detect/apply, and independence of how a selection is split into calls. */
module UpstreamLaws {
  import opened Delimited
  import opened ModelNames
  import opened UpstreamModels

  /** The stored channel seen as four sets. */
  datatype View = View(models: set<string>, ignored: set<string>, adds: set<string>, removes: set<string>)

  function ViewOf(row: Row): View {
    View(Names(LocalModels(row.models)), Names(row.ignored), Names(row.detected), Names(row.removed))
  }

  predicate CommaFree(names: set<string>) {
    forall m :: m in names ==> ',' !in m
  }

  function CommaNames(names: set<string>): set<string> {
    set m | m in names && ',' in m
  }

  lemma {:induction false} NoCommaNames(names: set<string>)
    ensures CommaNames(names) == {} <==> CommaFree(names)
  {
    assert forall m :: m in names && ',' in m ==> m in CommaNames(names);
  }

  // ----- Storing names as text -----

  lemma {:induction false} CleanedKeepsFree(models: seq<string>)
    requires Free(models, ',')
    ensures CommaFree(Names(models))
  {
    if models != [] {
      var init, last := models[..|models| - 1], models[|models| - 1];
      CleanedKeepsFree(init);
      TrimMeaning(last, Spaces);
      NamesConcat(init, [last]);
      assert models == init + [last];
      assert Cleaned([last][..0]) == [];
      assert Names([last]) <= {TrimSpace(last)};
    }
  }

  /** Local names never contain a comma, whatever the text. */
  lemma LocalCommaFree(text: string)
    ensures CommaFree(Names(LocalModels(text)))
  {
    if text != "" {
      SplitIsFree(Trim(text, Only(',')), ',');
    }
    CleanedKeepsFree(LocalModels(text));
  }

  /** The names that come back for each of `names` from comma-separated text. */
  ghost function PiecesOf(names: set<string>): set<string> {
    set n, p | n in names && p in Names(Split(n, ',')) :: p
  }

  lemma {:induction false} PiecesUnion(a: set<string>, b: set<string>)
    ensures PiecesOf(a + b) == PiecesOf(a) + PiecesOf(b)
  {
  }

  lemma {:induction false} OneName(n: string)
    requires TidyName(n)
    ensures Names([n]) == {n}
  {
    NormalizeFixed([n]);
  }

  /** A tidy name without a comma comes back as itself. */
  lemma {:induction false} OnePiece(n: string)
    requires TidyName(n) && ',' !in n
    ensures Names(Split(n, ',')) == {n}
  {
    SplitFirst(n, "", ',');
    NormalizeFixed([n]);
  }

  ghost predicate TidyNames(names: set<string>) {
    forall n :: n in names ==> TidyName(n)
  }

  lemma {:induction false} NamesAreTidy(models: seq<string>)
    ensures TidyNames(Names(models))
  {
    CleanedAreTidy(models);
  }

  lemma {:induction false} PiecesOfFree(names: set<string>)
    requires TidyNames(names) && CommaFree(names)
    ensures PiecesOf(names) == names
  {
    forall n | n in names ensures Names(Split(n, ',')) == {n} {
      OnePiece(n);
    }
  }

  /** No piece contains a comma. */
  lemma {:induction false} PiecesCommaFree(names: set<string>)
    ensures CommaFree(PiecesOf(names))
  {
    forall n | n in names ensures CommaFree(Names(Split(n, ','))) {
      SplitIsFree(n, ',');
      CleanedKeepsFree(Split(n, ','));
    }
  }

  lemma {:induction false} BlankPart(parts: seq<string>)
    ensures Names([""] + parts) == Names(parts) == Names(parts + [""])
  {
    NamesConcat([""], parts);
    NamesConcat(parts, [""]);
    assert Cleaned([""][..0]) == [] && Names([""]) == {};
  }

  lemma {:induction false} NamesOfTrimLeft(text: string)
    ensures Names(Split(TrimLeft(text, Only(',')), ',')) == Names(Split(text, ','))
  {
    if text != "" && text[0] == ',' {
      NamesOfTrimLeft(text[1..]);
      BlankPart(Split(text[1..], ','));
    }
  }

  lemma {:induction false} TrailingComma(init: string)
    ensures Names(Split(init + [','], ',')) == Names(Split(init, ','))
  {
    assert init + [','] == init + [','] + "";
    SplitConcat(init, "", ',');
    BlankPart(Split(init, ','));
  }

  lemma {:induction false} NamesOfTrimRight(text: string)
    ensures Names(Split(TrimRight(text, Only(',')), ',')) == Names(Split(text, ','))
  {
    if text != "" && text[|text| - 1] == ',' {
      var init := text[..|text| - 1];
      NamesOfTrimRight(init);
      assert text == init + [','];
      TrailingComma(init);
    }
  }

  lemma {:induction false} NamesOfJoin(models: seq<string>)
    requires models != []
    ensures Names(Split(Join(models, ','), ',')) == PiecesOf(Elements(models))
  {
    assert PiecesOf({models[0]}) == Names(Split(models[0], ','));
    if |models| == 1 {
      assert Elements(models) == {models[0]};
    } else {
      var rest := models[1..];
      NamesOfJoin(rest);
      SplitConcat(models[0], Join(rest, ','), ',');
      NamesConcat(Split(models[0], ','), Split(Join(rest, ','), ','));
      assert models == [models[0]] + rest && Elements(models) == {models[0]} + Elements(rest);
      PiecesUnion({models[0]}, Elements(rest));
    }
  }

  /** A stored list is read back as the pieces of its names. */
  lemma {:induction false} StoredNames(models: seq<string>)
    requires Tidy(models)
    ensures Names(LocalModels(Join(models, ','))) == PiecesOf(Elements(models))
  {
    if models == [] {
      assert Elements(models) == {} && Cleaned([]) == [];
    } else {
      JoinEnds(models, ',');
      NamesOfTrimLeft(Join(models, ','));
      NamesOfTrimRight(TrimLeft(Join(models, ','), Only(',')));
      NamesOfJoin(models);
    }
  }

  // ----- One call, on sets -----

  /** What one call does to the four sets when it adds A, ignores G and removes R; added names are stored as text. */
  ghost function Step(v: View, add: set<string>, ignore: set<string>, remove: set<string>): View {
    var A, G := add * v.adds, ignore * v.adds;
    var R := (remove * v.removes) - A;
    View((v.models - R) + PiecesOf(A), (v.ignored + G) - A, v.adds - A - G, v.removes - R)
  }

  lemma ChosenSets(row: Row, s: Selection)
    ensures Tidy(ChosenAdds(row, s))
    ensures Elements(ChosenAdds(row, s)) == Names(ChosenAdds(row, s)) == Names(s.add) * Names(row.detected)
    ensures Names(ChosenIgnores(row, s)) == Names(s.ignore) * Names(row.detected)
    ensures Names(ChosenRemoves(row, s))
            == (Names(s.remove) * Names(row.removed)) - (Names(s.add) * Names(row.detected))
  {
    NormalizeTidy(row.detected);
    NormalizeFixed(Normalize(row.detected));
    NormalizeTidy(row.removed);
    NormalizeFixed(Normalize(row.removed));
    IntersectSets(s.add, Normalize(row.detected));
    NormalizeFixed(ChosenAdds(row, s));
    IntersectSets(s.ignore, Normalize(row.detected));
    NormalizeFixed(ChosenIgnores(row, s));
    var r := Intersect(s.remove, Normalize(row.removed));
    IntersectSets(s.remove, Normalize(row.removed));
    NormalizeFixed(r);
    SubtractSets(r, ChosenAdds(row, s));
    NormalizeFixed(ChosenRemoves(row, s));
  }

  lemma {:induction false} NextModelsSets(row: Row, s: Selection)
    ensures Tidy(NextModels(row, s))
    ensures Elements(NextModels(row, s)) ==
            (Names(LocalModels(row.models)) + Names(ChosenAdds(row, s)))
            - (Names(ChosenRemoves(row, s)) - Names(ChosenAdds(row, s)))
  {
    var origin := Normalize(LocalModels(row.models));
    NormalizeTidy(LocalModels(row.models));
    NormalizeFixed(origin);
    ApplySelectedSets(origin, ChosenAdds(row, s), ChosenRemoves(row, s));
  }

  lemma {:induction false} KeptAndAdded(local: set<string>, add: set<string>, remove: set<string>)
    requires TidyNames(local) && CommaFree(local)
    ensures PiecesOf((local + add) - (remove - add)) == (local - (remove - add)) + PiecesOf(add)
    ensures (local + add) - (remove - add) == local && TidyNames(add) ==>
              (local - (remove - add)) + PiecesOf(add) == local
  {
    assert (local + add) - (remove - add) == (local - (remove - add)) + add;
    PiecesUnion(local - (remove - add), add);
    PiecesOfFree(local - (remove - add));
    if (local + add) - (remove - add) == local && TidyNames(add) {
      assert add <= local;
      PiecesOfFree(add);
    }
  }

  lemma {:induction false} AppliedModels(row: Row, s: Selection, now: int)
    ensures ViewOf(Applied(row, s, now)).models
            == Step(ViewOf(row), Names(s.add), Names(s.ignore), Names(s.remove)).models
  {
    ChosenSets(row, s);
    NextModelsSets(row, s);
    LocalCommaFree(row.models);
    NamesAreTidy(LocalModels(row.models));
    NamesAreTidy(ChosenAdds(row, s));
    KeptAndAdded(Names(LocalModels(row.models)), Names(ChosenAdds(row, s)), Names(ChosenRemoves(row, s)));
    StoredModels(row, s, now);
  }

  lemma {:induction false} StoredModels(row: Row, s: Selection, now: int)
    ensures Names(LocalModels(Applied(row, s, now).models)) ==
            if Normalize(LocalModels(row.models)) == NextModels(row, s) then Elements(NextModels(row, s))
            else PiecesOf(Elements(NextModels(row, s)))
  {
    NextModelsSets(row, s);
    if Normalize(LocalModels(row.models)) == NextModels(row, s) {
      NormalizeTidy(LocalModels(row.models));
    } else {
      StoredNames(NextModels(row, s));
    }
  }

  lemma {:induction false} AppliedIgnored(row: Row, s: Selection, now: int)
    ensures ViewOf(Applied(row, s, now)).ignored
            == Step(ViewOf(row), Names(s.add), Names(s.ignore), Names(s.remove)).ignored
  {
    ChosenSets(row, s);
    var merged := Merge(row.ignored, ChosenIgnores(row, s));
    MergeSets(row.ignored, ChosenIgnores(row, s));
    NormalizeFixed(merged);
    SubtractSets(merged, ChosenAdds(row, s));
    NormalizeFixed(Subtract(merged, ChosenAdds(row, s)));
  }

  lemma {:induction false} AppliedPending(row: Row, s: Selection, now: int)
    ensures ViewOf(Applied(row, s, now)).adds == Step(ViewOf(row), Names(s.add), Names(s.ignore), Names(s.remove)).adds
    ensures ViewOf(Applied(row, s, now)).removes
            == Step(ViewOf(row), Names(s.add), Names(s.ignore), Names(s.remove)).removes
  {
    ChosenSets(row, s);
    var pa, pr, both := Normalize(row.detected), Normalize(row.removed), ChosenAdds(row, s) + ChosenIgnores(row, s);
    NamesConcat(ChosenAdds(row, s), ChosenIgnores(row, s));
    NormalizeTidy(row.detected);
    NormalizeFixed(pa);
    SubtractSets(pa, both);
    NormalizeFixed(Subtract(pa, both));
    NormalizeTidy(row.removed);
    NormalizeFixed(pr);
    SubtractSets(pr, ChosenRemoves(row, s));
    NormalizeFixed(Subtract(pr, ChosenRemoves(row, s)));
  }

  /** One apply call refines its set-level meaning; in it add wins over both ignore and remove. */
  lemma {:induction false} AppliedSets(row: Row, s: Selection, now: int)
    ensures ViewOf(Applied(row, s, now)) == Step(ViewOf(row), Names(s.add), Names(s.ignore), Names(s.remove))
  {
    AppliedModels(row, s, now);
    AppliedIgnored(row, s, now);
    AppliedPending(row, s, now);
  }

  /** An added name is not ignored, and it is a model unless it contains a comma; then its pieces are. */
  lemma {:induction false} AddWins(row: Row, s: Selection, now: int, m: string)
    requires m in Names(s.add) && m in Names(row.detected)
    ensures m !in ViewOf(Applied(row, s, now)).ignored
    ensures m in ViewOf(Applied(row, s, now)).models <==> ',' !in m
    ensures Names(Split(m, ',')) <= ViewOf(Applied(row, s, now)).models
  {
    AppliedSets(row, s, now);
    LocalCommaFree(Applied(row, s, now).models);
    NamesAreTidy(s.add);
    if ',' !in m { OnePiece(m); }
  }

  // ----- Detection, on sets -----

  /** What is pending for a stored channel against an upstream list. */
  ghost function Additions(matches: Matcher, row: Row, upstream: seq<string>,
                           mapping: map<string, string>): set<string> {
    PendingAdds(matches, Names(LocalModels(row.models)), Names(upstream), Names(row.ignored), mapping)
  }

  ghost function Removals(row: Row, upstream: seq<string>, mapping: map<string, string>): set<string> {
    PendingRemoves(Names(LocalModels(row.models)), Names(upstream), mapping)
  }

  lemma {:induction false} EmptyList(models: seq<string>)
    ensures models == [] <==> Elements(models) == {}
  {
    if models != [] { assert models[0] in Elements(models); }
  }

  lemma {:induction false} CollectedSets(names: seq<string>, chosen: set<string>)
    ensures var list := Normalize(Within(Normalize(names), chosen));
            Elements(list) == Names(list) == Names(names) * chosen && (list == [] <==> Names(names) * chosen == {})
  {
    NormalizeTidy(names);
    WithinTidy(Normalize(names), chosen);
    NormalizeFixed(Within(Normalize(names), chosen));
    EmptyList(Within(Normalize(names), chosen));
  }

  /** The detected lists denote the pending sets and are empty exactly when these are. */
  lemma {:induction false} DetectedAdds(matches: Matcher, row: Row, upstream: seq<string>, mapping: map<string, string>)
    ensures var list, adds := CollectAdds(matches, row, upstream, mapping), Additions(matches, row, upstream, mapping);
            Elements(list) == Names(list) == adds && (list == [] <==> adds == {})
  {
    CollectedSets(upstream, Additions(matches, row, upstream, mapping));
    assert Names(upstream) * Additions(matches, row, upstream, mapping) == Additions(matches, row, upstream, mapping);
  }

  lemma {:induction false} DetectedRemoves(row: Row, upstream: seq<string>, mapping: map<string, string>)
    ensures var list, removes := CollectRemoves(row, upstream, mapping), Removals(row, upstream, mapping);
            Elements(list) == Names(list) == removes && (list == [] <==> removes == {})
  {
    CollectedSets(LocalModels(row.models), Removals(row, upstream, mapping));
    assert Names(LocalModels(row.models)) * Removals(row, upstream, mapping) == Removals(row, upstream, mapping);
  }

  /** The stored channel after a plain detection, as sets. */
  lemma {:induction false} DetectedView(matches: Matcher, row: Row, upstream: seq<string>, mapping: map<string, string>,
                                        now: int)
    ensures ViewOf(Detected(matches, row, upstream, mapping, now))
            == View(Names(LocalModels(row.models)), Names(row.ignored), Additions(matches, row, upstream, mapping),
                    Removals(row, upstream, mapping))
  {
    DetectedAdds(matches, row, upstream, mapping);
    DetectedRemoves(row, upstream, mapping);
  }

  /** What detection proposes to add and to remove never overlaps. */
  lemma {:induction false} DetectionIsDisjoint(matches: Matcher, row: Row, upstream: seq<string>,
                                               mapping: map<string, string>, now: int)
    ensures var d := Detected(matches, row, upstream, mapping, now); Names(d.detected) !! Names(d.removed)
  {
    DetectedView(matches, row, upstream, mapping, now);
  }

  // ----- Convergence -----

  /** Detect, then apply everything that was found. */
  function Reconciled(matches: Matcher, row: Row, upstream: seq<string>, mapping: map<string, string>, now: int): Row {
    ApplyAll(Detected(matches, row, upstream, mapping, now), now)
  }

  function ApplyAll(d: Row, now: int): Row {
    Applied(d, Selection(d.detected, [], d.removed), now)
  }

  predicate Quiet(matches: Matcher, row: Row, upstream: seq<string>, mapping: map<string, string>) {
    CollectAdds(matches, row, upstream, mapping) == [] && CollectRemoves(row, upstream, mapping) == []
  }

  lemma {:induction false} QuietSets(matches: Matcher, row: Row, upstream: seq<string>, mapping: map<string, string>)
    ensures Quiet(matches, row, upstream, mapping) <==>
            Additions(matches, row, upstream, mapping) == {} && Removals(row, upstream, mapping) == {}
  {
    DetectedAdds(matches, row, upstream, mapping);
    DetectedRemoves(row, upstream, mapping);
  }

  lemma {:induction false} StepEverything(v: View)
    requires v.adds !! v.removes
    ensures var after := Step(v, v.adds, {}, v.removes);
            after.models == (v.models - v.removes) + PiecesOf(v.adds) && after.ignored == v.ignored - v.adds
  {
    assert v.adds * v.adds == v.adds && v.removes * v.removes - v.adds == v.removes;
  }

  /** Applying everything that is pending, when nothing is pending twice. */
  lemma {:induction false} ApplyAllView(d: Row, now: int, v: View)
    requires ViewOf(d) == v && v.adds !! v.removes
    ensures var after := ViewOf(ApplyAll(d, now));
            after.models == (v.models - v.removes) + PiecesOf(v.adds) && after.ignored == v.ignored - v.adds
  {
    AppliedSets(d, Selection(d.detected, [], d.removed), now);
    assert Cleaned([]) == [] && Names([]) == {};
    StepEverything(v);
  }

  lemma {:induction false} ReconciledView(matches: Matcher, row: Row, upstream: seq<string>,
                                          mapping: map<string, string>, now: int)
    ensures var adds, after := Additions(matches, row, upstream, mapping),
            ViewOf(Reconciled(matches, row, upstream, mapping, now));
            && after.models == (Names(LocalModels(row.models)) - Removals(row, upstream, mapping)) + PiecesOf(adds)
            && after.ignored == Names(row.ignored) - adds
  {
    DetectedView(matches, row, upstream, mapping, now);
    ApplyAllView(Detected(matches, row, upstream, mapping, now), now,
                 View(Names(LocalModels(row.models)), Names(row.ignored), Additions(matches, row, upstream, mapping),
                      Removals(row, upstream, mapping)));
  }

  /** No upstream name that is otherwise eligible loses its last covering ignore entry to the additions. */
  ghost predicate CoverKept(matches: Matcher, local: set<string>, upstream: set<string>, ignored: set<string>,
                            mapping: map<string, string>) {
    var adds := PendingAdds(matches, local, upstream, ignored, mapping);
    forall u :: u in upstream && u !in local && u !in mapping.Values && IgnoredBy(matches, ignored, u) ==>
      IgnoredBy(matches, ignored - adds, u)
  }

  lemma {:induction false} IgnoredByFewer(matches: Matcher, a: set<string>, b: set<string>, u: string)
    requires a <= b && IgnoredBy(matches, a, u)
    ensures IgnoredBy(matches, b, u)
  {
  }

  /**
   * On sets: once everything is applied nothing is to be removed, and nothing to be added exactly
   * if the cover is kept.
   */
  lemma {:induction false} PendingAfter(matches: Matcher, local: set<string>, upstream: set<string>,
                                        ignored: set<string>, mapping: map<string, string>)
    ensures var adds, removes := PendingAdds(matches, local, upstream, ignored, mapping),
            PendingRemoves(local, upstream, mapping);
            var after := (local - removes) + adds;
            && PendingRemoves(after, upstream, mapping) == {}
            && (PendingAdds(matches, after, upstream, ignored - adds, mapping) == {} <==>
                CoverKept(matches, local, upstream, ignored, mapping))
  {
    var adds, removes := PendingAdds(matches, local, upstream, ignored, mapping),
        PendingRemoves(local, upstream, mapping);
    var after := (local - removes) + adds;
    var bad := PendingAdds(matches, after, upstream, ignored - adds, mapping);
    forall u | u in upstream ensures u in bad <==>
      u !in local && u !in mapping.Values && IgnoredBy(matches, ignored, u) && !IgnoredBy(matches, ignored - adds, u)
    {
      assert u in adds <==> u !in local && u !in mapping.Values && !IgnoredBy(matches, ignored, u);
    }
  }

  /** On sets: a name with a comma is still pending after its pieces were stored. */
  lemma {:induction false} CommaPendingAfter(matches: Matcher, local: set<string>, upstream: set<string>,
                                             ignored: set<string>,
                                             mapping: map<string, string>, after: set<string>, c: string)
    requires c in PendingAdds(matches, local, upstream, ignored, mapping) && ',' in c && CommaFree(after)
    ensures c in PendingAdds(matches, after, upstream,
                             ignored - PendingAdds(matches, local, upstream, ignored, mapping), mapping)
  {
    var less := ignored - PendingAdds(matches, local, upstream, ignored, mapping);
    if IgnoredBy(matches, less, c) { IgnoredByFewer(matches, less, ignored, c); }
  }

  /** A pending name with a comma is pending again after being "added". */
  lemma {:induction false} CommaStaysPending(matches: Matcher, row: Row, upstream: seq<string>,
                                             mapping: map<string, string>, now: int, c: string)
    requires c in Additions(matches, row, upstream, mapping) && ',' in c
    ensures c in Additions(matches, Reconciled(matches, row, upstream, mapping, now), upstream, mapping)
  {
    var after := Reconciled(matches, row, upstream, mapping, now);
    ReconciledView(matches, row, upstream, mapping, now);
    LocalCommaFree(after.models);
    CommaPendingAfter(matches, Names(LocalModels(row.models)), Names(upstream), Names(row.ignored), mapping,
                      Names(LocalModels(after.models)), c);
  }

  lemma {:induction false} FreeStillPending(matches: Matcher, row: Row, upstream: seq<string>,
                                            mapping: map<string, string>, now: int)
    requires CommaFree(Additions(matches, row, upstream, mapping))
    ensures var after := Reconciled(matches, row, upstream, mapping, now);
            && Removals(after, upstream, mapping) == {}
            && (Additions(matches, after, upstream, mapping) == {} <==>
                CoverKept(matches, Names(LocalModels(row.models)), Names(upstream), Names(row.ignored), mapping))
  {
    ReconciledView(matches, row, upstream, mapping, now);
    NamesAreTidy(upstream);
    PiecesOfFree(Additions(matches, row, upstream, mapping));
    PendingAfter(matches, Names(LocalModels(row.models)), Names(upstream), Names(row.ignored), mapping);
  }

  /**
   * Detect, apply everything, detect again: nothing is reported if and only if no name to be added
   * contains a comma and no ignored upstream name is left uncovered by the additions.
   */
  lemma {:induction false} ConvergesExactly(matches: Matcher, row: Row, upstream: seq<string>,
                                            mapping: map<string, string>, now: int)
    ensures Quiet(matches, Reconciled(matches, row, upstream, mapping, now), upstream, mapping) <==>
            && CommaFree(Additions(matches, row, upstream, mapping))
            && CoverKept(matches, Names(LocalModels(row.models)), Names(upstream), Names(row.ignored), mapping)
  {
    QuietSets(matches, Reconciled(matches, row, upstream, mapping, now), upstream, mapping);
    if CommaFree(Additions(matches, row, upstream, mapping)) {
      FreeStillPending(matches, row, upstream, mapping, now);
    } else {
      var c :| c in Additions(matches, row, upstream, mapping) && ',' in c;
      CommaStaysPending(matches, row, upstream, mapping, now, c);
    }
  }

  lemma {:induction false} CoverKeptPlain(matches: Matcher, local: set<string>, upstream: set<string>,
                                          ignored: set<string>, mapping: map<string, string>)
    requires forall u :: u in upstream ==> !(REGEX <= u)
    ensures CoverKept(matches, local, upstream, ignored, mapping)
  {
    var adds := PendingAdds(matches, local, upstream, ignored, mapping);
    forall u | u in upstream && u !in adds && IgnoredBy(matches, ignored, u)
      ensures IgnoredBy(matches, ignored - adds, u)
    {
      var e :| e in ignored && Ignores(matches, e, u);
      assert e !in adds;
    }
  }

  /** In particular it converges when model names have no comma and none begins with "regex:". */
  lemma {:induction false} Converges(matches: Matcher, row: Row, upstream: seq<string>, mapping: map<string, string>,
                                     now: int)
    requires forall u :: u in Names(upstream) ==> ',' !in u && !(REGEX <= u)
    ensures Quiet(matches, Reconciled(matches, row, upstream, mapping, now), upstream, mapping)
  {
    ConvergesExactly(matches, row, upstream, mapping, now);
    CoverKeptPlain(matches, Names(LocalModels(row.models)), Names(upstream), Names(row.ignored), mapping);
  }

  // ----- Adding a pattern's own name -----

  const PATTERN := "regex:^x$"

  lemma {:induction false} PatternUncovers(matches: Matcher)
    requires matches("^x$", "x") && !matches("^x$", PATTERN)
    ensures PendingAdds(matches, {}, {PATTERN, "x"}, {PATTERN}, map[]) == {PATTERN}
    ensures !CoverKept(matches, {}, {PATTERN, "x"}, {PATTERN}, map[])
  {
    assert REGEX <= PATTERN && PATTERN[|REGEX|..] == "^x$";
    TrimFixed("^x$", Spaces);
    assert Ignores(matches, PATTERN, "x") && !Ignores(matches, PATTERN, PATTERN);
    assert IgnoredBy(matches, {PATTERN}, "x") && !IgnoredBy(matches, {PATTERN}, PATTERN);
    var adds := PendingAdds(matches, {}, {PATTERN, "x"}, {PATTERN}, map[]);
    assert PATTERN in adds && {PATTERN} - adds == {};
    assert "x" in {PATTERN, "x"} && !IgnoredBy(matches, {PATTERN} - adds, "x");
  }

  lemma {:induction false} TwoNames(m: string, n: string)
    requires TidyName(m) && TidyName(n)
    ensures Names([m, n]) == {m, n}
  {
    OneName(m);
    OneName(n);
    NamesConcat([m], [n]);
    assert [m] + [n] == [m, n];
  }

  /**
   * The other way not to converge: the upstream offers a model named like the ignore pattern that
   * covers "x".  Adding it takes the pattern off the ignore list, and "x" is pending.
   */
  lemma {:induction false} PatternDoesNotConverge(matches: Matcher, now: int)
    requires matches("^x$", "x") && !matches("^x$", PATTERN)
    ensures !Quiet(matches, Reconciled(matches, Row("", [PATTERN], [], [], 0, false), [PATTERN, "x"], map[], now),
                   [PATTERN, "x"], map[])
  {
    var row := Row("", [PATTERN], [], [], 0, false);
    TrimFixed(PATTERN, Spaces);
    TrimFixed("x", Spaces);
    OneName(PATTERN);
    TwoNames(PATTERN, "x");
    PatternUncovers(matches);
    assert Cleaned([]) == [] && Names(LocalModels("")) == {};
    ConvergesExactly(matches, row, [PATTERN, "x"], map[], now);
  }

  // ----- Auto-sync -----

  lemma {:induction false} NothingMerged(origin: seq<string>, adds: seq<string>)
    requires Tidy(origin) && |Merge(origin, adds)| <= |origin|
    ensures Names(adds) <= Elements(origin)
  {
    NormalizeFixed(origin);
    NormalizeTidy(adds);
    FreshMeaning(origin, Normalize(adds));
    EmptyList(Fresh(origin, Normalize(adds)));
  }

  lemma {:induction false} MergedModels(models: string, adds: seq<string>)
    ensures var origin := Normalize(LocalModels(models));
            var text := if |Merge(origin, adds)| > |origin| then Join(Merge(origin, adds), ',') else models;
            Names(LocalModels(text)) == Names(LocalModels(models)) + PiecesOf(Names(adds))
  {
    var local := LocalModels(models);
    var origin := Normalize(local);
    NormalizeTidy(local);
    NormalizeFixed(origin);
    MergeSets(origin, adds);
    LocalCommaFree(models);
    NamesAreTidy(local);
    if |Merge(origin, adds)| > |origin| {
      StoredNames(Merge(origin, adds));
      PiecesUnion(Names(local), Names(adds));
      PiecesOfFree(Names(local));
    } else {
      NothingMerged(origin, adds);
      NamesAreTidy(adds);
      PiecesOfFree(Names(adds));
    }
  }

  /** An auto-syncing check makes the pieces of the found names local. */
  lemma {:induction false} AutoSyncedModels(matches: Matcher, row: Row, upstream: seq<string>,
                                            mapping: map<string, string>, now: int)
    ensures var after := AutoSynced(matches, row, upstream, mapping, now);
            && after.ignored == row.ignored
            && Names(LocalModels(after.models))
               == Names(LocalModels(row.models)) + PiecesOf(Additions(matches, row, upstream, mapping))
  {
    MergedModels(row.models, CollectAdds(matches, row, upstream, mapping));
    DetectedAdds(matches, row, upstream, mapping);
  }

  lemma {:induction false} PendingAfterSync(matches: Matcher, local: set<string>, upstream: set<string>,
                                            ignored: set<string>, mapping: map<string, string>)
    requires TidyNames(upstream) && CommaFree(local)
    ensures var adds := PendingAdds(matches, local, upstream, ignored, mapping);
            PendingAdds(matches, local + PiecesOf(adds), upstream, ignored, mapping) == CommaNames(adds)
  {
    var adds := PendingAdds(matches, local, upstream, ignored, mapping);
    PiecesCommaFree(adds);
    forall m | m in adds && ',' !in m ensures m in PiecesOf(adds) {
      OnePiece(m);
    }
  }

  /** After an auto-syncing check exactly the names with a comma are still to be added. */
  lemma {:induction false} AutoSyncLeaves(matches: Matcher, row: Row, upstream: seq<string>,
                                          mapping: map<string, string>, now: int)
    ensures Additions(matches, AutoSynced(matches, row, upstream, mapping, now), upstream, mapping)
            == CommaNames(Additions(matches, row, upstream, mapping))
  {
    AutoSyncedModels(matches, row, upstream, mapping, now);
    NamesAreTidy(upstream);
    LocalCommaFree(row.models);
    PendingAfterSync(matches, Names(LocalModels(row.models)), Names(upstream), Names(row.ignored), mapping);
  }

  /** An auto-syncing check leaves nothing to add if and only if no name it found contains a comma. */
  lemma {:induction false} AutoSyncSettles(matches: Matcher, row: Row, upstream: seq<string>,
                                           mapping: map<string, string>, now: int)
    ensures CollectAdds(matches, AutoSynced(matches, row, upstream, mapping, now), upstream, mapping) == [] <==>
            CommaFree(Additions(matches, row, upstream, mapping))
  {
    AutoSyncLeaves(matches, row, upstream, mapping, now);
    DetectedAdds(matches, AutoSynced(matches, row, upstream, mapping, now), upstream, mapping);
    NoCommaNames(Additions(matches, row, upstream, mapping));
  }
}
