/** The text key under which a set of metric labels is counted. */
module Metrics {
  import opened Delimited

  // ----- Label keys -----

  /** Byte-wise order of strings. */
  predicate Less(a: string, b: string) {
    b != "" && (a == "" || a[0] < b[0] || (a[0] == b[0] && Less(a[1..], b[1..])))
  }

  /** Two texts are compared at the first place where they differ; a proper prefix comes first. */
  lemma {:induction false} LessExactly(a: string, b: string)
    ensures Less(a, b) <==>
            exists i: nat :: LessAt(a, b, i)
  {
    if a == "" && b != "" {
      assert LessAt(a, b, 0);
    } else if a != "" && b != "" && a[0] != b[0] {
      assert LessAt(a, b, 0) <==> a[0] < b[0];
      forall i: nat | i > 0 ensures !LessAt(a, b, i) {
        assert i <= |a| && i < |b| ==> a[..i][0] == a[0] && b[..i][0] == b[0];
      }
    } else if a != "" && b != "" {
      LessExactly(a[1..], b[1..]);
      LessBehind(a, b);
    }
  }

  /** The texts agree before place i, and there a ends or has the smaller character. */
  predicate LessAt(a: string, b: string, i: nat) {
    i <= |a| && i < |b| && a[..i] == b[..i] && (i == |a| || a[i] < b[i])
  }

  lemma {:induction false} LessBehind(a: string, b: string)
    requires a != "" && b != "" && a[0] == b[0]
    ensures (exists i: nat :: LessAt(a, b, i)) <==> exists i: nat :: LessAt(a[1..], b[1..], i)
  {
    if i: nat :| LessAt(a, b, i) {
      assert a[..i] == [a[0]] + a[1..][..i - 1] && b[..i] == [b[0]] + b[1..][..i - 1];
      assert a[1..][..i - 1] == a[..i][1..] && b[1..][..i - 1] == b[..i][1..];
      assert LessAt(a[1..], b[1..], i - 1);
    }
    if i: nat :| LessAt(a[1..], b[1..], i) {
      assert a[..i + 1] == [a[0]] + a[1..][..i] && b[..i + 1] == [b[0]] + b[1..][..i];
      assert LessAt(a, b, i + 1);
    }
  }

  lemma {:induction false} LessTotal(a: string, b: string)
    ensures Less(a, b) || Less(b, a) || a == b
    ensures !(Less(a, b) && Less(b, a)) && !Less(a, a)
  {
    if a != "" && b != "" && a[0] == b[0] {
      LessTotal(a[1..], b[1..]);
      assert a == [a[0]] + a[1..] && b == [b[0]] + b[1..];
    }
    if a != "" { LessTotal(a[1..], a[1..]); }
  }

  lemma {:induction false} LessTransitive(a: string, b: string, c: string)
    requires Less(a, b) && Less(b, c)
    ensures Less(a, c)
  {
    if a != "" && a[0] == b[0] == c[0] { LessTransitive(a[1..], b[1..], c[1..]); }
  }

  predicate Increasing(keys: seq<string>) {
    forall i, j :: 0 <= i < j < |keys| ==> Less(keys[i], keys[j])
  }

  function Pair(labels: map<string, string>, k: string): string
    requires k in labels
  {
    k + ['='] + labels[k]
  }

  function Pairs(labels: map<string, string>, keys: seq<string>): (r: seq<string>)
    requires forall i :: 0 <= i < |keys| ==> keys[i] in labels
    ensures |r| == |keys| && forall i :: 0 <= i < |keys| ==> r[i] == Pair(labels, keys[i])
  {
    seq(|keys|, i requires 0 <= i < |keys| => Pair(labels, keys[i]))
  }

  /** `keys` are the label names in increasing order and `s` spells the labels in that order. */
  ghost predicate Spells(labels: map<string, string>, keys: seq<string>, s: string) {
    && Increasing(keys)
    && (forall k :: k in keys <==> k in labels)
    && (forall i :: 0 <= i < |keys| ==> keys[i] in labels)
    && s == Join(Pairs(labels, keys), ',')
  }

  /** `s` is the key of these labels. */
  ghost predicate IsLabelKey(labels: map<string, string>, s: string) {
    exists keys :: Spells(labels, keys, s)
  }

  method Insert(sorted: seq<string>, k: string) returns (r: seq<string>)
    requires Increasing(sorted) && k !in sorted
    ensures Increasing(r) && forall x :: x in r <==> x in sorted || x == k
  {
    var i := 0;
    while i < |sorted| && Less(sorted[i], k)
      invariant 0 <= i <= |sorted|
      invariant forall j :: 0 <= j < i ==> Less(sorted[j], k)
    {
      i := i + 1;
    }
    r := sorted[..i] + [k] + sorted[i..];
    forall j | i <= j < |sorted| ensures Less(k, sorted[j]) {
      LessTotal(sorted[i], k);
      assert sorted[i] in sorted;
      if j > i { LessTransitive(k, sorted[i], sorted[j]); }
    }
    InsertedIncreasing(sorted, i, k);
    InsertedMembers(sorted, i, k);
  }

  lemma {:induction false} InsertedIncreasing(sorted: seq<string>, i: nat, k: string)
    requires Increasing(sorted) && i <= |sorted|
    requires forall j :: 0 <= j < i ==> Less(sorted[j], k)
    requires forall j :: i <= j < |sorted| ==> Less(k, sorted[j])
    ensures Increasing(sorted[..i] + [k] + sorted[i..])
  {
    var r := sorted[..i] + [k] + sorted[i..];
    forall a, b | 0 <= a < b < |r| ensures Less(r[a], r[b]) {
      assert a < i ==> r[a] == sorted[a];
      assert b > i ==> r[b] == sorted[b - 1];
    }
  }

  lemma {:induction false} InsertedMembers(sorted: seq<string>, i: nat, k: string)
    requires i <= |sorted|
    ensures forall x :: x in sorted[..i] + [k] + sorted[i..] <==> x in sorted || x == k
  {
    assert sorted == sorted[..i] + sorted[i..];
  }

  method SortedNames(labels: map<string, string>) returns (keys: seq<string>)
    ensures Increasing(keys) && forall k :: k in keys <==> k in labels
  {
    keys := [];
    var pending := labels.Keys;
    while pending != {}
      invariant pending <= labels.Keys
      invariant Increasing(keys) && forall k :: k in keys <==> k in labels && k !in pending
      decreases |pending|
    {
      var k :| k in pending;
      keys := Insert(keys, k);
      pending := pending - {k};
    }
  }

  lemma JoinSnoc(parts: seq<string>, p: string)
    ensures Join(parts + [p], ',') == if parts == [] then p else Join(parts, ',') + [','] + p
    decreases |parts|
  {
    if |parts| == 0 {
      assert parts + [p] == [p];
    } else {
      JoinSnoc(parts[1..], p);
      assert (parts + [p])[1..] == parts[1..] + [p];
      if |parts| == 1 { assert parts[1..] == []; }
    }
  }

  /** One more label on a key under construction. */
  lemma KeyGrows(labels: map<string, string>, keys: seq<string>, i: nat)
    requires i < |keys| && forall j :: 0 <= j < |keys| ==> keys[j] in labels
    ensures var before, pair := Join(Pairs(labels, keys[..i]), ','), Pair(labels, keys[i]);
            Join(Pairs(labels, keys[..i + 1]), ',') == if i == 0 then pair else before + [','] + pair
  {
    assert Pairs(labels, keys[..i + 1]) == Pairs(labels, keys[..i]) + [Pair(labels, keys[i])];
    JoinSnoc(Pairs(labels, keys[..i]), Pair(labels, keys[i]));
  }

  /** Map order plays no part: the labels are visited in any order and then sorted. */
  method LabelKey(labels: map<string, string>) returns (s: string)
    ensures IsLabelKey(labels, s)
  {
    s := "";
    var keys := SortedNames(labels);
    assert forall i :: 0 <= i < |keys| ==> keys[i] in keys;
    for i := 0 to |keys|
      invariant s == Join(Pairs(labels, keys[..i]), ',')
    {
      KeyGrows(labels, keys, i);
      var pair := keys[i] + ['='] + labels[keys[i]];
      if i > 0 { s := s + [','] + pair; } else { s := pair; }
    }
    assert keys[..|keys|] == keys;
    assert Spells(labels, keys, s);
  }

  lemma {:induction false} SameMembersSameOrder(a: seq<string>, b: seq<string>)
    requires Increasing(a) && Increasing(b) && forall k :: k in a <==> k in b
    ensures a == b
  {
    if a == [] {
      assert forall i :: 0 <= i < |b| ==> b[i] in b;
    } else {
      assert a[0] in b;
      var i :| 0 <= i < |b| && b[i] == a[0];
      assert b[0] in a;
      var j :| 0 <= j < |a| && a[j] == b[0];
      LessTotal(a[0], b[0]);
      assert a[0] == b[0];
      forall k ensures k in a[1..] <==> k in b[1..] {
        TailMembers(a, k);
        TailMembers(b, k);
      }
      SameMembersSameOrder(a[1..], b[1..]);
      assert a == [a[0]] + a[1..] && b == [b[0]] + b[1..];
    }
  }

  lemma TailMembers(a: seq<string>, k: string)
    requires a != [] && Increasing(a)
    ensures k in a[1..] <==> k in a && k != a[0]
  {
    LessTotal(a[0], a[0]);
    assert a == [a[0]] + a[1..];
  }

  /** Labels have one key. */
  lemma LabelKeyIsUnique(labels: map<string, string>, s: string, t: string)
    requires IsLabelKey(labels, s) && IsLabelKey(labels, t)
    ensures s == t
  {
    var a :| Spells(labels, a, s);
    var b :| Spells(labels, b, t);
    SameMembersSameOrder(a, b);
  }

  /** Names without '=', values without ','. */
  predicate CleanLabels(labels: map<string, string>) {
    forall k :: k in labels ==> '=' !in k && ',' !in labels[k]
  }

  /** The text up to the first '=' and the text behind it. */
  lemma {:induction false} NameSplits(k: string, u: string, l: string, w: string)
    requires '=' !in k && '=' !in l && k + ['='] + u == l + ['='] + w
    ensures k == l && u == w
  {
    var s, t := k + ['='] + u, l + ['='] + w;
    assert s[|k|] == '=' && t[|l|] == '=';
    assert |k| == |l|;
    assert s[..|k|] == k && t[..|l|] == l;
    assert s[|k| + 1..] == u && t[|l| + 1..] == w;
  }

  /** What follows a value: nothing, or a comma. */
  predicate Follows(rest: string) {
    rest == "" || rest[0] == ','
  }

  function UpToComma(s: string): string {
    if s == "" || s[0] == ',' then "" else [s[0]] + UpToComma(s[1..])
  }

  lemma {:induction false} UpToCommaIsValue(v: string, r: string)
    requires ',' !in v && Follows(r)
    ensures UpToComma(v + r) == v
  {
    if v == "" {
      assert v + r == r;
    } else {
      assert (v + r)[1..] == v[1..] + r;
      UpToCommaIsValue(v[1..], r);
      assert v == [v[0]] + v[1..];
    }
  }

  /** The text up to the first comma and what follows. */
  lemma {:induction false} ValueSplits(v: string, r: string, w: string, q: string)
    requires ',' !in v && ',' !in w && Follows(r) && Follows(q) && v + r == w + q
    ensures v == w && r == q
  {
    UpToCommaIsValue(v, r);
    UpToCommaIsValue(w, q);
    assert (v + r)[|v|..] == r && (w + q)[|w|..] == q;
  }

  /** What follows the first pair of a key. */
  function RestOf(labels: map<string, string>, keys: seq<string>): (r: string)
    requires keys != [] && forall i :: 0 <= i < |keys| ==> keys[i] in labels
    ensures Follows(r) && (r == "" <==> |keys| == 1)
  {
    if |keys| == 1 then "" else [','] + Join(Pairs(labels, keys[1..]), ',')
  }

  lemma {:induction false} FirstPair(labels: map<string, string>, keys: seq<string>)
    requires keys != [] && forall i :: 0 <= i < |keys| ==> keys[i] in labels
    ensures Join(Pairs(labels, keys), ',') == keys[0] + ['='] + (labels[keys[0]] + RestOf(labels, keys))
  {
    var pairs := Pairs(labels, keys);
    assert pairs[1..] == Pairs(labels, keys[1..]);
  }

  /** Spelling the same, two lists of names are the same and name the same values. */
  lemma {:induction false} SameSpelling(a: map<string, string>, ka: seq<string>, b: map<string, string>,
                                        kb: seq<string>)
    requires CleanLabels(a) && (forall i :: 0 <= i < |ka| ==> ka[i] in a)
    requires CleanLabels(b) && (forall i :: 0 <= i < |kb| ==> kb[i] in b)
    requires Join(Pairs(a, ka), ',') == Join(Pairs(b, kb), ',')
    ensures ka == kb && forall i :: 0 <= i < |ka| ==> a[ka[i]] == b[ka[i]]
    decreases |ka|
  {
    if ka != [] { FirstPair(a, ka); }
    if kb != [] { FirstPair(b, kb); }
    if ka != [] && kb != [] {
      SameHead(a, ka, b, kb);
      SameRest(a, ka, b, kb);
      SameSpelling(a, ka[1..], b, kb[1..]);
      SameCons(a, ka, b, kb);
    }
  }

  lemma {:induction false} SameHead(a: map<string, string>, ka: seq<string>, b: map<string, string>, kb: seq<string>)
    requires CleanLabels(a) && ka != [] && (forall i :: 0 <= i < |ka| ==> ka[i] in a)
    requires CleanLabels(b) && kb != [] && (forall i :: 0 <= i < |kb| ==> kb[i] in b)
    requires Join(Pairs(a, ka), ',') == Join(Pairs(b, kb), ',')
    ensures ka[0] == kb[0] && a[ka[0]] == b[kb[0]] && RestOf(a, ka) == RestOf(b, kb)
  {
    FirstPair(a, ka);
    FirstPair(b, kb);
    NameSplits(ka[0], a[ka[0]] + RestOf(a, ka), kb[0], b[kb[0]] + RestOf(b, kb));
    ValueSplits(a[ka[0]], RestOf(a, ka), b[kb[0]], RestOf(b, kb));
  }

  lemma {:induction false} SameCons(a: map<string, string>, ka: seq<string>, b: map<string, string>, kb: seq<string>)
    requires ka != [] && (forall i :: 0 <= i < |ka| ==> ka[i] in a)
    requires kb != [] && (forall i :: 0 <= i < |kb| ==> kb[i] in b)
    requires ka[0] == kb[0] && a[ka[0]] == b[kb[0]] && ka[1..] == kb[1..]
    requires forall i :: 0 <= i < |ka[1..]| ==> a[ka[1..][i]] == b[ka[1..][i]]
    ensures ka == kb && forall i :: 0 <= i < |ka| ==> a[ka[i]] == b[ka[i]]
  {
    assert ka == [ka[0]] + ka[1..] && kb == [kb[0]] + kb[1..];
    assert forall i :: 1 <= i < |ka| ==> ka[i] == ka[1..][i - 1];
  }

  lemma {:induction false} SameRest(a: map<string, string>, ka: seq<string>, b: map<string, string>, kb: seq<string>)
    requires ka != [] && forall i :: 0 <= i < |ka| ==> ka[i] in a
    requires kb != [] && forall i :: 0 <= i < |kb| ==> kb[i] in b
    requires RestOf(a, ka) == RestOf(b, kb)
    ensures Join(Pairs(a, ka[1..]), ',') == Join(Pairs(b, kb[1..]), ',')
  {
    if |ka| > 1 {
      assert RestOf(a, ka)[1..] == Join(Pairs(a, ka[1..]), ',');
      assert RestOf(b, kb)[1..] == Join(Pairs(b, kb[1..]), ',');
    }
  }

  /** Different clean label sets have different keys. */
  lemma {:induction false} LabelKeyInjective(a: map<string, string>, b: map<string, string>, s: string)
    requires CleanLabels(a) && CleanLabels(b) && IsLabelKey(a, s) && IsLabelKey(b, s)
    ensures a == b
  {
    var ka :| Spells(a, ka, s);
    var kb :| Spells(b, kb, s);
    SameSpelling(a, ka, b, kb);
    forall k | k in a ensures k in b && a[k] == b[k] {
      var i :| 0 <= i < |ka| && ka[i] == k;
    }
  }

  /** With '=' in a name two label sets can share a key. */
  lemma {:induction false} EqualsCollision()
    ensures IsLabelKey(map["a=b" := "c"], "a=b=c") && IsLabelKey(map["a" := "b=c"], "a=b=c")
  {
    var one, two := map["a=b" := "c"], map["a" := "b=c"];
    assert Pair(one, "a=b") == "a=b" + "=" + "c" == "a=b=c";
    assert Pair(two, "a") == "a" + "=" + "b=c" == "a=b=c";
    assert Pairs(one, ["a=b"]) == ["a=b=c"] == Pairs(two, ["a"]);
    assert Spells(one, ["a=b"], "a=b=c") && Spells(two, ["a"], "a=b=c");
  }

  /** So they can with ',' in a value. */
  lemma CommaCollision()
    ensures IsLabelKey(map["a" := "1,b=2"], "a=1,b=2") && IsLabelKey(map["a" := "1", "b" := "2"], "a=1,b=2")
  {
    var one, two := map["a" := "1,b=2"], map["a" := "1", "b" := "2"];
    assert Pair(one, "a") == "a" + "=" + "1,b=2" == "a=1,b=2";
    assert Pairs(one, ["a"]) == ["a=1,b=2"];
    assert Spells(one, ["a"], "a=1,b=2");
    assert Pair(two, "a") == "a" + "=" + "1" == "a=1";
    assert Pair(two, "b") == "b" + "=" + "2" == "b=2";
    assert Pairs(two, ["a", "b"]) == ["a=1", "b=2"];
    assert ["a=1", "b=2"][1..] == ["b=2"];
    assert Join(["a=1", "b=2"], ',') == "a=1" + [','] + Join(["b=2"], ',') == "a=1,b=2";
    assert Less("a", "b");
    assert Spells(two, ["a", "b"], "a=1,b=2");
  }
}
