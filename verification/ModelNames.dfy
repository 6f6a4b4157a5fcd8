/** The list helpers of upstream reconciliation, and the sets they stand for. */
module ModelNames {
  import opened Delimited
  import opened Lists

  /** Trimmed, not blank, no repeats, first occurrences in order. */
  function Normalize(models: seq<string>): (r: seq<string>) {
    Fresh([], Cleaned(models))
  }

  /** The set of names a list denotes. */
  function Names(models: seq<string>): set<string> {
    set k | k in Cleaned(models)
  }

  function Elements(models: seq<string>): set<string> {
    set k | k in models
  }

  function Without(models: seq<string>, removed: set<string>): seq<string> {
    if models == [] then []
    else
      var rest, last := Without(models[..|models| - 1], removed), models[|models| - 1];
      if last in removed then rest else rest + [last]
  }

  function Within(models: seq<string>, allowed: set<string>): seq<string> {
    if models == [] then []
    else
      var rest, last := Within(models[..|models| - 1], allowed), models[|models| - 1];
      if last in allowed then rest + [last] else rest
  }

  function Merge(base: seq<string>, appended: seq<string>): seq<string> {
    Normalize(base) + Fresh(Normalize(base), Normalize(appended))
  }

  function Subtract(base: seq<string>, removed: seq<string>): seq<string> {
    Without(Normalize(base), Names(removed))
  }

  function Intersect(base: seq<string>, allowed: seq<string>): seq<string> {
    Within(Normalize(base), Names(allowed))
  }

  /** Add wins when the same model is selected for both. */
  function ApplySelected(origin: seq<string>, add: seq<string>, remove: seq<string>): seq<string> {
    var normalizedAdd := Normalize(add);
    Subtract(Merge(origin, normalizedAdd), Subtract(Normalize(remove), normalizedAdd))
  }

  method MergeNames(base: seq<string>, appended: seq<string>) returns (merged: seq<string>)
    ensures merged == Merge(base, appended)
  {
    var known := Normalize(base);
    var more := SelectFresh(known, Normalize(appended));
    merged := known + more;
  }

  // ----- Tidy lists: fixed points of normalization -----

  predicate TidyName(k: string) {
    k != "" && TrimSpace(k) == k
  }

  predicate Tidy(models: seq<string>) {
    Distinct(models) && forall i :: 0 <= i < |models| ==> TidyName(models[i])
  }

  lemma {:induction false} CleanedAreTidy(models: seq<string>)
    ensures forall i :: 0 <= i < |Cleaned(models)| ==> TidyName(Cleaned(models)[i])
  {
    if models != [] {
      CleanedAreTidy(models[..|models| - 1]);
      TrimSpaceIdempotent(models[|models| - 1]);
    }
  }

  lemma {:induction false} CleanedSnoc(models: seq<string>, k: string, t: string)
    requires t == TrimSpace(k)
    ensures Cleaned(models + [k]) == if t == "" then Cleaned(models) else Cleaned(models) + [t]
  {
    assert (models + [k])[..|models|] == models;
  }

  lemma {:induction false} TidySnocFixed(models: seq<string>, k: string)
    requires Cleaned(models) == models && TidyName(k)
    ensures Cleaned(models + [k]) == models + [k]
  {
    CleanedSnoc(models, k, k);
  }

  lemma {:induction false} CleanedFixed(models: seq<string>)
    requires forall i :: 0 <= i < |models| ==> TidyName(models[i])
    ensures Cleaned(models) == models
  {
    if models != [] {
      var init, last := models[..|models| - 1], models[|models| - 1];
      CleanedFixed(init);
      assert init + [last] == models;
      TidySnocFixed(init, last);
    }
  }

  lemma {:induction false} FreshFixed(models: seq<string>)
    requires Distinct(models)
    ensures Fresh([], models) == models
  {
    if models != [] {
      var init := models[..|models| - 1];
      FreshFixed(init);
      assert models[|models| - 1] !in init;
    }
  }

  lemma NormalizeFixed(models: seq<string>)
    requires Tidy(models)
    ensures Normalize(models) == models && Names(models) == Elements(models)
  {
    CleanedFixed(models);
    FreshFixed(models);
  }

  lemma NormalizeTidy(models: seq<string>)
    ensures Tidy(Normalize(models)) && Elements(Normalize(models)) == Names(models)
  {
    CleanedAreTidy(models);
    FreshMeaning([], Cleaned(models));
    var r := Normalize(models);
    forall i | 0 <= i < |r| ensures TidyName(r[i]) {
      assert r[i] in r && r[i] in Cleaned(models);
    }
  }

  lemma {:induction false} ElementsSnoc(models: seq<string>, k: string)
    ensures Elements(models + [k]) == Elements(models) + {k}
  {
  }

  lemma {:induction false} LastElement(models: seq<string>)
    requires models != [] && Distinct(models)
    ensures var init, last := models[..|models| - 1], models[|models| - 1];
            last !in init && Elements(models) == Elements(init) + {last}
  {
    assert models == models[..|models| - 1] + [models[|models| - 1]];
  }

  lemma {:induction false} TidySnoc(models: seq<string>, k: string)
    requires Tidy(models) && TidyName(k) && k !in Elements(models)
    ensures Tidy(models + [k])
  {
    assert forall i :: 0 <= i < |models| ==> models[i] in Elements(models);
  }

  lemma {:induction false} WithoutTidy(models: seq<string>, s: set<string>)
    requires Tidy(models)
    ensures Tidy(Without(models, s)) && Elements(Without(models, s)) == Elements(models) - s
  {
    if models != [] {
      var init, last := models[..|models| - 1], models[|models| - 1];
      WithoutTidy(init, s);
      LastElement(models);
      if last !in s {
        TidySnoc(Without(init, s), last);
        ElementsSnoc(Without(init, s), last);
      }
    }
  }

  lemma {:induction false} WithinTidy(models: seq<string>, s: set<string>)
    requires Tidy(models)
    ensures Tidy(Within(models, s)) && Elements(Within(models, s)) == Elements(models) * s
  {
    if models != [] {
      var init, last := models[..|models| - 1], models[|models| - 1];
      WithinTidy(init, s);
      LastElement(models);
      if last in s {
        TidySnoc(Within(init, s), last);
        ElementsSnoc(Within(init, s), last);
      }
    }
  }

  /** Each helper yields a tidy list for the union, difference or intersection of the sets. */
  lemma MergeSets(base: seq<string>, appended: seq<string>)
    ensures Tidy(Merge(base, appended)) && Elements(Merge(base, appended)) == Names(base) + Names(appended)
  {
    NormalizeTidy(base);
    NormalizeTidy(appended);
    var a, b := Normalize(base), Fresh(Normalize(base), Normalize(appended));
    FreshMeaning(a, Normalize(appended));
    forall i, j | 0 <= i < |a| && 0 <= j < |b| ensures a[i] != b[j] {
      assert b[j] in b;
    }
    forall j | 0 <= j < |b| ensures TidyName(b[j]) {
      assert b[j] in b;
    }
    assert forall k :: k in a + b <==> k in Elements(a) || k in Elements(Normalize(appended));
  }

  lemma SubtractSets(base: seq<string>, removed: seq<string>)
    ensures Tidy(Subtract(base, removed)) && Elements(Subtract(base, removed)) == Names(base) - Names(removed)
  {
    NormalizeTidy(base);
    WithoutTidy(Normalize(base), Names(removed));
  }

  lemma IntersectSets(base: seq<string>, allowed: seq<string>)
    ensures Tidy(Intersect(base, allowed)) && Elements(Intersect(base, allowed)) == Names(base) * Names(allowed)
  {
    NormalizeTidy(base);
    WithinTidy(Normalize(base), Names(allowed));
  }

  lemma ApplySelectedSets(origin: seq<string>, add: seq<string>, remove: seq<string>)
    ensures Tidy(ApplySelected(origin, add, remove))
    ensures Elements(ApplySelected(origin, add, remove)) == (Names(origin) + Names(add)) - (Names(remove) - Names(add))
  {
    var a := Normalize(add);
    NormalizeTidy(add);
    NormalizeFixed(a);
    NormalizeTidy(remove);
    NormalizeFixed(Normalize(remove));
    SubtractSets(Normalize(remove), a);
    NormalizeFixed(Subtract(Normalize(remove), a));
    MergeSets(origin, a);
    NormalizeFixed(Merge(origin, a));
    SubtractSets(Merge(origin, a), Subtract(Normalize(remove), a));
  }

  lemma {:induction false} NamesSnoc(models: seq<string>, k: string, t: string)
    requires t == TrimSpace(k)
    ensures Names(models + [k]) == if t == "" then Names(models) else Names(models) + {t}
  {
    CleanedSnoc(models, k, t);
  }

  lemma {:induction false} NamesConcat(a: seq<string>, b: seq<string>)
    ensures Names(a + b) == Names(a) + Names(b)
  {
    if b == [] {
      assert a + b == a;
    } else {
      var init, last := b[..|b| - 1], b[|b| - 1];
      NamesConcat(a, init);
      NamesSnoc(a + init, last, TrimSpace(last));
      NamesSnoc(init, last, TrimSpace(last));
      assert a + init + [last] == a + b && init + [last] == b;
    }
  }
}
