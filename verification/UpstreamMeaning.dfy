/**
 * Upstream reconciliation spelled out name by name: which names a check proposes, what each kind of
 * check and each application stores, and in which order.
 */
module UpstreamMeaning {
  import opened Options
  import opened Delimited
  import opened Lists
  import opened ModelNames
  import opened UpstreamModels
  import opened UpstreamLaws

  /** Some entry, trimmed, is this name, and the name is not blank. */
  predicate Listed(entries: seq<string>, name: string) {
    name != "" && exists i :: 0 <= i < |entries| && TrimSpace(entries[i]) == name
  }

  lemma {:induction false} ListedExactly(entries: seq<string>, name: string)
    ensures name in Names(entries) <==> Listed(entries, name)
  {
    CleanedMeaning(entries);
  }

  /** The local names are those between the commas of the text. */
  lemma {:induction false} LocalExactly(text: string, name: string)
    ensures name in Names(LocalModels(text)) <==> Listed(Split(text, ','), name)
  {
    if text != "" {
      NamesOfTrimLeft(text);
      NamesOfTrimRight(TrimLeft(text, Only(',')));
      ListedExactly(Split(text, ','), name);
    } else {
      assert Cleaned([]) == [];
      TrimFixed("", Spaces);
    }
  }

  // ----- Detection -----

  /** Proposed for removal: a local name that is no redirect source and not offered upstream; each once. */
  lemma {:induction false} RemovesExactly(row: Row, upstream: seq<string>, mapping: map<string, string>, m: string)
    ensures m in CollectRemoves(row, upstream, mapping) <==>
            Listed(Split(row.models, ','), m) && m !in mapping && !Listed(upstream, m)
    ensures Distinct(CollectRemoves(row, upstream, mapping))
  {
    DetectedRemoves(row, upstream, mapping);
    LocalExactly(row.models, m);
    ListedExactly(upstream, m);
    NormalizeTidy(Within(Normalize(LocalModels(row.models)), Removals(row, upstream, mapping)));
    assert m in Elements(CollectRemoves(row, upstream, mapping)) <==> m in Removals(row, upstream, mapping);
  }

  /** An ignore entry covers a name: as a pattern behind "regex:", or by being that name. */
  predicate Covers(matches: Matcher, entry: string, name: string) {
    if |entry| >= 6 && entry[..6] == "regex:" then matches(TrimSpace(entry[6..]), name) else entry == name
  }

  lemma {:induction false} CoversExactly(matches: Matcher, entry: string, name: string)
    ensures Ignores(matches, entry, name) <==> Covers(matches, entry, name)
  {
    if |entry| >= 6 && entry[..6] == "regex:" { assert REGEX <= entry; }
  }

  lemma {:induction false} IgnoredExactly(matches: Matcher, ignored: seq<string>, name: string)
    ensures IgnoredBy(matches, Names(ignored), name) <==>
            exists e :: Listed(ignored, e) && Covers(matches, e, name)
  {
    forall e ensures (e in Names(ignored) <==> Listed(ignored, e)) &&
                     (Ignores(matches, e, name) <==> Covers(matches, e, name)) {
      ListedExactly(ignored, e);
      CoversExactly(matches, e, name);
    }
  }

  /** Proposed for addition: offered upstream, not local, no redirect target, covered by no ignore entry; each once. */
  lemma {:induction false} AddsExactly(matches: Matcher, row: Row, upstream: seq<string>,
                                       mapping: map<string, string>, m: string)
    ensures m in CollectAdds(matches, row, upstream, mapping) <==>
            && Listed(upstream, m) && !Listed(Split(row.models, ','), m)
            && (forall source :: source in mapping ==> mapping[source] != m)
            && !exists e :: Listed(row.ignored, e) && Covers(matches, e, m)
    ensures Distinct(CollectAdds(matches, row, upstream, mapping))
  {
    DetectedAdds(matches, row, upstream, mapping);
    LocalExactly(row.models, m);
    ListedExactly(upstream, m);
    IgnoredExactly(matches, row.ignored, m);
    NormalizeTidy(Within(Normalize(upstream), Additions(matches, row, upstream, mapping)));
    assert m in Elements(CollectAdds(matches, row, upstream, mapping)) <==>
           m in Additions(matches, row, upstream, mapping);
  }

  // ----- The stored channel after a check -----

  lemma {:induction false} FreshApart(existing: seq<string>, added: seq<string>)
    requires Distinct(added) && forall k :: k in added ==> k !in existing
    ensures Fresh(existing, added) == added
  {
    if added != [] {
      var init, last := added[..|added| - 1], added[|added| - 1];
      FreshApart(existing, init);
      assert last in added && last !in init && added == init + [last];
    }
  }

  /** Names that are not there yet are merged in behind. */
  lemma {:induction false} MergeApart(origin: seq<string>, adds: seq<string>)
    requires Tidy(origin) && Tidy(adds) && forall k :: k in adds ==> k !in origin
    ensures Merge(origin, adds) == origin + adds
  {
    NormalizeFixed(origin);
    NormalizeFixed(adds);
    FreshApart(origin, adds);
  }

  lemma {:induction false} AddsApart(matches: Matcher, row: Row, upstream: seq<string>, mapping: map<string, string>)
    ensures var origin, adds := Normalize(LocalModels(row.models)), CollectAdds(matches, row, upstream, mapping);
            Merge(origin, adds) == origin + adds
  {
    var origin, adds := Normalize(LocalModels(row.models)), CollectAdds(matches, row, upstream, mapping);
    NormalizeTidy(LocalModels(row.models));
    NormalizeTidy(Within(Normalize(upstream), Additions(matches, row, upstream, mapping)));
    DetectedAdds(matches, row, upstream, mapping);
    forall k | k in adds ensures k !in origin {
      assert k in Elements(adds) && k !in Elements(origin);
    }
    MergeApart(origin, adds);
  }

  /**
   * When a check changes what: nothing if it comes too soon; only the time if the list cannot be
   * fetched; the models only if auto-sync is allowed, switched on, and finds something, which is then
   * appended; otherwise what was found is left pending.
   */
  lemma {:induction false} CheckExactly(matches: Matcher, row: Row, upstream: Option<seq<string>>,
                                        mapping: map<string, string>, force: bool, allowAuto: bool,
                                        minInterval: int, now: int)
    ensures var after := Checked(matches, row, upstream, mapping, force, allowAuto, minInterval, now);
            if !force && row.lastCheck > 0 && now - row.lastCheck < minInterval then after == row
            else if upstream.None? then after == row.(lastCheck := now)
            else
              var adds := CollectAdds(matches, row, upstream.value, mapping);
              var auto := allowAuto && row.autoSync && adds != [];
              && after.lastCheck == now && after.ignored == row.ignored && after.autoSync == row.autoSync
              && after.removed == CollectRemoves(row, upstream.value, mapping)
              && after.detected == (if auto then [] else adds)
              && after.models == (if auto then Join(Normalize(LocalModels(row.models)) + adds, ',') else row.models)
              && AutoAdded(matches, row, upstream.value, mapping, allowAuto) == if auto then |adds| else 0
  {
    if upstream.Some? { AddsApart(matches, row, upstream.value, mapping); }
  }

  // ----- Application -----

  /** Selected and pending. */
  predicate Chosen(selected: seq<string>, pending: seq<string>, m: string) {
    Listed(selected, m) && Listed(pending, m)
  }

  /** Selected for removal, pending, and not added by the same call. */
  predicate ChosenGone(row: Row, s: Selection, m: string) {
    Chosen(s.remove, row.removed, m) && !Chosen(s.add, row.detected, m)
  }

  lemma {:induction false} ChosenExactly(selected: seq<string>, pending: seq<string>, m: string)
    ensures m in Names(selected) * Names(pending) <==> Chosen(selected, pending, m)
  {
    ListedExactly(selected, m);
    ListedExactly(pending, m);
  }

  /** Application, name by name, for the lists kept in the settings. */
  lemma {:induction false} AppliedExactly(row: Row, s: Selection, now: int, m: string)
    ensures var after := Applied(row, s, now);
            var added, ignored := Chosen(s.add, row.detected, m), Chosen(s.ignore, row.detected, m);
            && (Listed(after.detected, m) <==> Listed(row.detected, m) && !added && !ignored)
            && (Listed(after.removed, m) <==> Listed(row.removed, m) && !ChosenGone(row, s, m))
            && (Listed(after.ignored, m) <==> (Listed(row.ignored, m) || ignored) && !added)
            && after.lastCheck == now && after.autoSync == row.autoSync
  {
    var after := Applied(row, s, now);
    AppliedSets(row, s, now);
    ChosenExactly(s.add, row.detected, m);
    ChosenExactly(s.ignore, row.detected, m);
    ChosenExactly(s.remove, row.removed, m);
    ListedExactly(after.detected, m);
    ListedExactly(after.removed, m);
    ListedExactly(after.ignored, m);
    ListedExactly(row.ignored, m);
    ListedExactly(row.detected, m);
    ListedExactly(row.removed, m);
  }

  /** Application, name by name, for the models: what is removed goes, what is added comes, split at its commas. */
  lemma {:induction false} AppliedModelsExactly(row: Row, s: Selection, now: int, m: string)
    ensures Listed(Split(Applied(row, s, now).models, ','), m) <==>
            || (Listed(Split(row.models, ','), m) && !ChosenGone(row, s, m))
            || exists n :: Chosen(s.add, row.detected, n) && Listed(Split(n, ','), m)
  {
    AppliedSets(row, s, now);
    LocalExactly(row.models, m);
    LocalExactly(Applied(row, s, now).models, m);
    ChosenExactly(s.add, row.detected, m);
    ChosenExactly(s.remove, row.removed, m);
    AddedPieces(row, s, m);
  }

  lemma {:induction false} AddedPieces(row: Row, s: Selection, m: string)
    ensures m in PiecesOf(Names(s.add) * Names(row.detected)) <==>
            exists n :: Chosen(s.add, row.detected, n) && Listed(Split(n, ','), m)
  {
    forall n ensures (n in Names(s.add) * Names(row.detected) <==> Chosen(s.add, row.detected, n)) &&
                     (m in Names(Split(n, ',')) <==> Listed(Split(n, ','), m)) {
      ChosenExactly(s.add, row.detected, n);
      ListedExactly(Split(n, ','), m);
    }
  }

  // ----- Order -----

  lemma {:induction false} FreshTwice(existing: seq<string>, names: seq<string>)
    ensures Fresh(existing, Fresh([], names)) == Fresh(existing, names)
  {
    if names != [] {
      var init, last := names[..|names| - 1], names[|names| - 1];
      FreshTwice(existing, init);
      assert names == init + [last];
      FreshSnoc([], init, last);
      FreshSnoc(existing, init, last);
      FreshSnoc(existing, Fresh([], init), last);
      FreshMeaning(existing, init);
      FreshMeaning([], init);
    }
  }

  lemma {:induction false} FreshJoined(a: seq<string>, b: seq<string>)
    ensures Fresh([], a + b) == Fresh([], a) + Fresh(Fresh([], a), Fresh([], b))
  {
    FreshConcat([], a, b);
    assert [] + Fresh([], a) == Fresh([], a);
    FreshTwice(Fresh([], a), b);
  }

  /** Merging is normalizing the first list followed by the second: its order is that of first appearance. */
  lemma {:induction false} MergeIsNormalize(base: seq<string>, appended: seq<string>)
    ensures Merge(base, appended) == Normalize(base + appended)
  {
    CleanedConcat(base, appended);
    FreshJoined(Cleaned(base), Cleaned(appended));
  }

  lemma {:induction false} PickSnoc(names: seq<string>, k: string, chosen: set<string>)
    ensures Within(names + [k], chosen) == Within(names, chosen) + if k in chosen then [k] else []
    ensures Without(names + [k], chosen) == Without(names, chosen) + if k in chosen then [] else [k]
  {
    assert (names + [k])[..|names|] == names;
  }

  /** Intersection and subtraction go name by name, in order. */
  lemma {:induction false} PickConcat(a: seq<string>, b: seq<string>, chosen: set<string>)
    ensures Within(a + b, chosen) == Within(a, chosen) + Within(b, chosen)
    ensures Without(a + b, chosen) == Without(a, chosen) + Without(b, chosen)
  {
    if b == [] {
      assert a + b == a;
    } else {
      var init, last := b[..|b| - 1], b[|b| - 1];
      PickConcat(a, init, chosen);
      assert b == init + [last];
      PickStep(a, init, last, chosen);
    }
  }

  lemma {:induction false} PickStep(a: seq<string>, b: seq<string>, k: string, chosen: set<string>)
    requires Within(a + b, chosen) == Within(a, chosen) + Within(b, chosen)
    requires Without(a + b, chosen) == Without(a, chosen) + Without(b, chosen)
    ensures Within(a + (b + [k]), chosen) == Within(a, chosen) + Within(b + [k], chosen)
    ensures Without(a + (b + [k]), chosen) == Without(a, chosen) + Without(b + [k], chosen)
  {
    PickSnoc(a + b, k, chosen);
    PickSnoc(b, k, chosen);
    assert a + (b + [k]) == a + b + [k];
  }

  /** The lists of a check are in the order of the upstream list and of the local list. */
  lemma {:induction false} DetectedInOrder(matches: Matcher, row: Row, upstream: seq<string>,
                                           mapping: map<string, string>)
    ensures var adds := CollectAdds(matches, row, upstream, mapping);
            adds == Within(Normalize(upstream), Elements(adds))
    ensures var removes := CollectRemoves(row, upstream, mapping);
            removes == Within(Normalize(LocalModels(row.models)), Elements(removes))
  {
    DetectedAdds(matches, row, upstream, mapping);
    DetectedRemoves(row, upstream, mapping);
    NormalizeTidy(upstream);
    WithinTidy(Normalize(upstream), Additions(matches, row, upstream, mapping));
    NormalizeFixed(Within(Normalize(upstream), Additions(matches, row, upstream, mapping)));
    NormalizeTidy(LocalModels(row.models));
    WithinTidy(Normalize(LocalModels(row.models)), Removals(row, upstream, mapping));
    NormalizeFixed(Within(Normalize(LocalModels(row.models)), Removals(row, upstream, mapping)));
  }
}
