/**
 * Text that stores a list: `strings.Join`, `strings.Split`, `strings.Trim` and `strings.TrimSpace`,
 * and the exact condition under which a list survives being joined, trimmed and split again.
 */
module Delimited {
  import opened Lists

  /** What a trim removes: white space, or one separator character. */
  datatype Cutset = Spaces | Only(sep: char)

  predicate IsSpace(c: char) {
    || c == ' ' || '\t' <= c <= '\r' || c == '\U{0085}' || c == '\U{00A0}' || c == '\U{1680}'
    || '\U{2000}' <= c <= '\U{200A}' || '\U{2028}' <= c <= '\U{2029}' || c == '\U{202F}' || c == '\U{205F}'
    || c == '\U{3000}'
  }

  predicate Cuts(cs: Cutset, c: char) {
    match cs
    case Spaces => IsSpace(c)
    case Only(sep) => c == sep
  }

  function TrimLeft(s: string, cs: Cutset): (t: string) {
    if s != "" && Cuts(cs, s[0]) then TrimLeft(s[1..], cs) else s
  }

  function TrimRight(s: string, cs: Cutset): (t: string) {
    if s != "" && Cuts(cs, s[|s| - 1]) then TrimRight(s[..|s| - 1], cs) else s
  }

  function Trim(s: string, cs: Cutset): string {
    TrimRight(TrimLeft(s, cs), cs)
  }

  function TrimSpace(s: string): string {
    Trim(s, Spaces)
  }

  lemma {:induction false} TrimLeftMeaning(s: string, cs: Cutset)
    ensures var t := TrimLeft(s, cs); (t != "" ==> !Cuts(cs, t[0])) && |t| <= |s| && t == s[|s| - |t|..]
  {
    if s != "" && Cuts(cs, s[0]) { TrimLeftMeaning(s[1..], cs); }
  }

  lemma {:induction false} TrimRightMeaning(s: string, cs: Cutset)
    ensures var t := TrimRight(s, cs); (t != "" ==> !Cuts(cs, t[|t| - 1])) && |t| <= |s| && t == s[..|t|]
  {
    if s != "" && Cuts(cs, s[|s| - 1]) { TrimRightMeaning(s[..|s| - 1], cs); }
  }

  /** A trimmed text is a slice of the original that neither begins nor ends with a cut character. */
  lemma TrimMeaning(s: string, cs: Cutset)
    ensures var t := Trim(s, cs);
            && (t != "" ==> !Cuts(cs, t[0]) && !Cuts(cs, t[|t| - 1]))
            && exists i, j :: 0 <= i <= j <= |s| && t == s[i..j]
  {
    TrimLeftMeaning(s, cs);
    TrimRightMeaning(TrimLeft(s, cs), cs);
    var u, t := TrimLeft(s, cs), Trim(s, cs);
    var i := |s| - |u|;
    assert t == s[i..i + |t|];
  }

  /** Trimming takes off cut characters only, at both ends. */
  lemma {:induction false} TrimExactly(s: string, cs: Cutset) returns (before: string, after: string)
    ensures s == before + Trim(s, cs) + after
    ensures forall i :: 0 <= i < |before| ==> Cuts(cs, before[i])
    ensures forall i :: 0 <= i < |after| ==> Cuts(cs, after[i])
    ensures var t := Trim(s, cs); t != "" ==> !Cuts(cs, t[0]) && !Cuts(cs, t[|t| - 1])
  {
    TrimMeaning(s, cs);
    before := CutLeft(s, cs);
    after := CutRight(TrimLeft(s, cs), cs);
  }

  lemma {:induction false} CutLeft(s: string, cs: Cutset) returns (before: string)
    ensures s == before + TrimLeft(s, cs) && forall i :: 0 <= i < |before| ==> Cuts(cs, before[i])
  {
    before := "";
    if s != "" && Cuts(cs, s[0]) {
      var rest := CutLeft(s[1..], cs);
      before := [s[0]] + rest;
      assert s == [s[0]] + s[1..];
    }
  }

  lemma {:induction false} CutRight(s: string, cs: Cutset) returns (after: string)
    ensures s == TrimRight(s, cs) + after && forall i :: 0 <= i < |after| ==> Cuts(cs, after[i])
  {
    after := "";
    if s != "" && Cuts(cs, s[|s| - 1]) {
      var rest := CutRight(s[..|s| - 1], cs);
      after := rest + [s[|s| - 1]];
      assert s == s[..|s| - 1] + [s[|s| - 1]];
    }
  }

  /** What counts as white space, by code point. */
  lemma {:induction false} SpaceCharacters(c: char)
    ensures IsSpace(c) <==> var n := c as int;
              || 9 <= n <= 13 || n == 32 || n == 0x85 || n == 0xA0 || n == 0x1680 || 0x2000 <= n <= 0x200A
              || n == 0x2028 || n == 0x2029 || n == 0x202F || n == 0x205F || n == 0x3000
    ensures forall sep :: Cuts(Only(sep), c) <==> c == sep
    ensures Cuts(Spaces, c) <==> IsSpace(c)
  {
  }

  lemma {:induction false} TrimFixed(s: string, cs: Cutset)
    requires s == "" || (!Cuts(cs, s[0]) && !Cuts(cs, s[|s| - 1]))
    ensures Trim(s, cs) == s
  {
  }

  lemma TrimSpaceIdempotent(s: string)
    ensures TrimSpace(TrimSpace(s)) == TrimSpace(s)
  {
    TrimMeaning(s, Spaces);
    TrimFixed(TrimSpace(s), Spaces);
  }

  /** One more character in front of split parts. */
  function PutFirst(c: char, parts: seq<string>, sep: char): (r: seq<string>)
    requires |parts| >= 1
    ensures |r| >= 1
  {
    if c == sep then [""] + parts else [[c] + parts[0]] + parts[1..]
  }

  function Split(s: string, sep: char): (parts: seq<string>)
    ensures |parts| >= 1
  {
    if s == "" then [""]
    else
      PutFirst(s[0], Split(s[1..], sep), sep)
  }

  function Join(parts: seq<string>, sep: char): string {
    if parts == [] then ""
    else if |parts| == 1 then parts[0]
    else parts[0] + [sep] + Join(parts[1..], sep)
  }

  predicate Free(parts: seq<string>, sep: char) {
    forall i :: 0 <= i < |parts| ==> sep !in parts[i]
  }

  lemma {:induction false} SplitIsFree(s: string, sep: char)
    ensures Free(Split(s, sep), sep)
  {
    if s != "" { SplitIsFree(s[1..], sep); }
  }

  lemma {:induction false} SplitFirst(p: string, s: string, sep: char)
    requires sep !in p
    ensures Split(p + [sep] + s, sep) == [p] + Split(s, sep)
    ensures Split(p, sep) == [p]
  {
    if p == "" {
      assert p + [sep] + s == [sep] + s;
    } else {
      SplitFirst(p[1..], s, sep);
      assert (p + [sep] + s)[1..] == p[1..] + [sep] + s;
      assert [p[0]] + p[1..] == p;
    }
  }

  lemma {:induction false} SplitStep(c: char, parts: seq<string>, more: seq<string>, sep: char)
    requires |parts| >= 1
    ensures PutFirst(c, parts + more, sep) == PutFirst(c, parts, sep) + more
  {
  }

  /** A separator splits the text into the parts of what is on either side. */
  lemma {:induction false} SplitConcat(a: string, b: string, sep: char)
    ensures Split(a + [sep] + b, sep) == Split(a, sep) + Split(b, sep)
  {
    if a == "" {
      assert a + [sep] + b == [sep] + b;
    } else {
      SplitConcat(a[1..], b, sep);
      assert (a + [sep] + b)[1..] == a[1..] + [sep] + b && (a + [sep] + b)[0] == a[0];
      SplitStep(a[0], Split(a[1..], sep), Split(b, sep), sep);
    }
  }

  /** Splitting undoes joining when no part contains the separator. */
  lemma {:induction false} SplitJoin(parts: seq<string>, sep: char)
    requires parts != [] && Free(parts, sep)
    ensures Split(Join(parts, sep), sep) == parts
  {
    if |parts| == 1 {
      SplitFirst(parts[0], "", sep);
    } else {
      SplitJoin(parts[1..], sep);
      SplitFirst(parts[0], Join(parts[1..], sep), sep);
      assert [parts[0]] + parts[1..] == parts;
    }
  }

  /** Joining undoes splitting, always. */
  lemma {:induction false} JoinSplit(s: string, sep: char)
    ensures Join(Split(s, sep), sep) == s
  {
    if s != "" {
      JoinSplit(s[1..], sep);
      var rest := Split(s[1..], sep);
      if s[0] == sep {
        assert ([""] + rest)[1..] == rest;
        assert "" + [sep] + s[1..] == s;
      } else if |rest| == 1 {
        assert [s[0]] + rest[0] == s;
      } else {
        var parts := [[s[0]] + rest[0]] + rest[1..];
        assert parts[1..] == rest[1..];
        assert Join(parts, sep) == [s[0]] + (rest[0] + [sep] + Join(rest[1..], sep));
      }
    }
  }

  /** Joining puts the separator once between two lists, and nothing around a single part. */
  lemma {:induction false} JoinConcat(a: seq<string>, b: seq<string>, sep: char)
    requires a != [] && b != []
    ensures Join(a + b, sep) == Join(a, sep) + [sep] + Join(b, sep)
    ensures Join(a[..1], sep) == a[0]
  {
    if |a| == 1 {
      assert (a + b)[1..] == b;
    } else {
      JoinConcat(a[1..], b, sep);
      assert (a + b)[1..] == a[1..] + b;
    }
  }

  lemma {:induction false} JoinEnds(parts: seq<string>, sep: char)
    requires parts != []
    ensures parts[0] != "" ==> Join(parts, sep) != "" && Join(parts, sep)[0] == parts[0][0]
    ensures parts[|parts| - 1] != "" ==>
              Join(parts, sep) != "" && Join(parts, sep)[|Join(parts, sep)| - 1]
                == parts[|parts| - 1][|parts[|parts| - 1]| - 1]
    ensures |parts| >= 2 && parts[0] == "" ==> Join(parts, sep) != "" && Join(parts, sep)[0] == sep
    ensures |parts| >= 2 && parts[|parts| - 1] == "" ==>
              Join(parts, sep) != "" && Join(parts, sep)[|Join(parts, sep)| - 1] == sep
  {
    if |parts| >= 2 {
      JoinEnds(parts[1..], sep);
    }
  }

  /** The list comes back from its text: no separator inside a part, and no blank part at either end. */
  predicate Storable(parts: seq<string>, sep: char) {
    && parts != []
    && Free(parts, sep)
    && (|parts| >= 2 ==> parts[0] != "" && parts[|parts| - 1] != "")
  }

  /** Join, trim separators, split: the identity on exactly the storable lists. */
  lemma StoreRoundTrip(parts: seq<string>, sep: char)
    ensures Split(Trim(Join(parts, sep), Only(sep)), sep) == parts <==> Storable(parts, sep)
  {
    var text := Join(parts, sep);
    var trimmed := Trim(text, Only(sep));
    if Storable(parts, sep) {
      SplitJoin(parts, sep);
      JoinEnds(parts, sep);
      assert |parts| == 1 ==> text == parts[0];
      assert text != "" ==> text[0] != sep && text[|text| - 1] != sep;
      TrimFixed(text, Only(sep));
    }
    if Split(trimmed, sep) == parts {
      SplitIsFree(trimmed, sep);
      TrimMeaning(text, Only(sep));
      JoinSplit(trimmed, sep);
      assert text == trimmed;
      JoinEnds(parts, sep);
    }
  }

  // ----- Cleaning and deduplicating lists of names -----

  /** The entries with white space trimmed, blank ones dropped. */
  function Cleaned(keys: seq<string>): seq<string> {
    if keys == [] then []
    else
      var k := TrimSpace(keys[|keys| - 1]);
      if k == "" then Cleaned(keys[..|keys| - 1]) else Cleaned(keys[..|keys| - 1]) + [k]
  }

  /** The members of a cleaned list: the trimmed entries that are not blank. */
  lemma {:induction false} CleanedMeaning(keys: seq<string>)
    ensures forall k :: k in Cleaned(keys) <==> k != "" && exists i :: 0 <= i < |keys| && TrimSpace(keys[i]) == k
  {
    if keys != [] {
      var init, last := keys[..|keys| - 1], keys[|keys| - 1];
      CleanedMeaning(init);
      assert forall i :: 0 <= i < |init| ==> init[i] == keys[i];
    }
  }

  /** A list of the name, unless it is blank. */
  function Visible(name: string): seq<string> {
    if name == "" then [] else [name]
  }

  lemma {:induction false} CleanedSnoc(keys: seq<string>, k: string)
    ensures Cleaned(keys + [k]) == Cleaned(keys) + Visible(TrimSpace(k))
  {
    assert (keys + [k])[..|keys|] == keys;
  }

  lemma {:induction false} CleanedNext(keys: seq<string>, more: seq<string>, last: seq<string>, k: string)
    requires last == Visible(TrimSpace(k))
    ensures Cleaned(keys + (more + [k])) == Cleaned(keys + more) + last
  {
    assert keys + (more + [k]) == keys + more + [k];
    CleanedSnoc(keys + more, k);
  }

  lemma {:induction false} CleanedStep(a: seq<string>, b: seq<string>, k: string)
    requires Cleaned(a + b) == Cleaned(a) + Cleaned(b)
    ensures Cleaned(a + (b + [k])) == Cleaned(a) + Cleaned(b + [k])
  {
    var last := Visible(TrimSpace(k));
    CleanedNext(a, b, last, k);
    CleanedSnoc(b, k);
    assert Cleaned(a) + Cleaned(b) + last == Cleaned(a) + (Cleaned(b) + last);
  }

  /** Cleaning goes entry by entry and keeps the order. */
  lemma {:induction false} CleanedConcat(a: seq<string>, b: seq<string>)
    ensures Cleaned(a + b) == Cleaned(a) + Cleaned(b)
  {
    if b == [] {
      assert a + b == a;
    } else {
      var init, last := b[..|b| - 1], b[|b| - 1];
      CleanedConcat(a, init);
      CleanedStep(a, init, last);
      assert b == init + [last];
    }
  }

  lemma {:induction false} CleanedOne(k: string)
    ensures Cleaned([k]) == Visible(TrimSpace(k))
  {
    CleanedSnoc([], k);
    assert [] + [k] == [k];
  }

  lemma {:induction false} FreshSnoc(existing: seq<string>, keys: seq<string>, k: string)
    ensures var rest := Fresh(existing, keys);
            Fresh(existing, keys + [k]) == if k in existing || k in rest then rest else rest + [k]
  {
    assert (keys + [k])[..|keys|] == keys;
  }

  /** The list with k behind it, unless k is known. */
  function WithKey(list: seq<string>, k: string, known: bool): seq<string> {
    if known then list else list + [k]
  }

  lemma {:induction false} FreshNext(existing: seq<string>, a: seq<string>, b: seq<string>, k: string, known: bool)
    requires known == (k in existing || k in Fresh(existing, a + b))
    ensures Fresh(existing, a + (b + [k])) == WithKey(Fresh(existing, a + b), k, known)
  {
    assert a + (b + [k]) == a + b + [k];
    FreshSnoc(existing, a + b, k);
  }

  lemma {:induction false} WithKeyBehind(first: seq<string>, more: seq<string>, k: string, known: bool)
    ensures WithKey(first + more, k, known) == first + WithKey(more, k, known)
  {
  }

  lemma {:induction false} FreshStep(existing: seq<string>, a: seq<string>, b: seq<string>, first: seq<string>,
                                     more: seq<string>, k: string)
    requires Fresh(existing, a + b) == first + more && Fresh(existing + first, b) == more
    ensures Fresh(existing, a + (b + [k])) == first + Fresh(existing + first, b + [k])
  {
    var known := k in existing + first || k in more;
    FreshNext(existing, a, b, k, known);
    FreshSnoc(existing + first, b, k);
    WithKeyBehind(first, more, k, known);
  }

  /** Selecting new keys goes entry by entry: what was selected counts as there. */
  lemma {:induction false} FreshConcat(existing: seq<string>, a: seq<string>, b: seq<string>)
    ensures Fresh(existing, a + b) == Fresh(existing, a) + Fresh(existing + Fresh(existing, a), b)
  {
    if b == [] {
      assert a + b == a;
    } else {
      var init, last := b[..|b| - 1], b[|b| - 1];
      FreshConcat(existing, a, init);
      FreshStep(existing, a, init, Fresh(existing, a), Fresh(existing + Fresh(existing, a), init), last);
      assert b == init + [last];
    }
  }

  lemma {:induction false} FreshOne(existing: seq<string>, k: string)
    ensures Fresh(existing, [k]) == if k in existing then [] else [k]
  {
    FreshSnoc(existing, [], k);
    assert [] + [k] == [k];
  }

  lemma {:induction false} CleanedNotBlank(keys: seq<string>)
    ensures forall k :: k in Cleaned(keys) ==> k != ""
  {
    if keys != [] { CleanedNotBlank(keys[..|keys| - 1]); }
  }

  /** The keys of `added` not already in `existing`, first occurrences only. */
  function Fresh(existing: seq<string>, added: seq<string>): seq<string> {
    if added == [] then []
    else
      var rest, k := Fresh(existing, added[..|added| - 1]), added[|added| - 1];
      if k in existing || k in rest then rest else rest + [k]
  }

  lemma {:induction false} FreshMeaning(existing: seq<string>, added: seq<string>)
    ensures var r := Fresh(existing, added);
            Distinct(r) && forall k :: k in r <==> k in added && k !in existing
  {
    if added != [] {
      var init, k := added[..|added| - 1], added[|added| - 1];
      FreshMeaning(existing, init);
      assert added == init + [k];
    }
  }

  method Clean(requested: seq<string>) returns (added: seq<string>)
    ensures added == Cleaned(requested)
  {
    added := [];
    for i := 0 to |requested|
      invariant added == Cleaned(requested[..i])
    {
      assert requested[..i + 1][..i] == requested[..i];
      var k := TrimSpace(requested[i]);
      if k != "" { added := added + [k]; }
    }
    assert requested[..|requested|] == requested;
  }

  method SelectFresh(existing: seq<string>, added: seq<string>) returns (news: seq<string>)
    ensures news == Fresh(existing, added)
  {
    var seen := set k | k in existing;
    news := [];
    for i := 0 to |added|
      invariant news == Fresh(existing, added[..i])
      invariant forall k :: k in seen <==> k in existing || k in news
    {
      assert added[..i + 1][..i] == added[..i];
      if added[i] !in seen {
        seen := seen + {added[i]};
        news := news + [added[i]];
      }
    }
    assert added[..|added|] == added;
  }
}
