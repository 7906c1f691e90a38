/** Vote counting as `collections.Counter` does it: a tally in order of first
    occurrence, ranked by a stable sort on the count, largest first. */
module Votes {

  type Entry = (string, nat)

  predicate DistinctKeys(t: seq<Entry>)
  {
    forall i, j :: 0 <= i < j < |t| ==> t[i].0 != t[j].0
  }

  predicate HasKey(t: seq<Entry>, c: string)
  {
    exists i :: 0 <= i < |t| && t[i].0 == c
  }

  /** Counts one more occurrence of `c`: its entry goes up by one, or a new
      entry with count 1 is added at the end. */
  function Bump(t: seq<Entry>, c: string): (r: seq<Entry>)
    requires DistinctKeys(t)
    ensures DistinctKeys(r)
    ensures HasKey(t, c) ==> (|r| == |t| &&
      forall i :: 0 <= i < |t| ==> r[i].0 == t[i].0 && r[i].1 == t[i].1 + (if t[i].0 == c then 1 else 0))
    ensures !HasKey(t, c) ==> r == t + [(c, 1)]
  {
    if t == [] then [(c, 1)]
    else if t[0].0 == c then
      BumpHead(t, c);
      [(c, t[0].1 + 1)] + t[1..]
    else
      var rest := Bump(t[1..], c);
      BumpCons(t, c, rest);
      [t[0]] + rest
  }

  /** `r` is `t` with one more occurrence of `c` counted. */
  ghost predicate Bumped(t: seq<Entry>, c: string, r: seq<Entry>)
  {
    DistinctKeys(r) &&
    (HasKey(t, c) ==> (|r| == |t| &&
      forall i :: 0 <= i < |t| ==> r[i].0 == t[i].0 && r[i].1 == t[i].1 + (if t[i].0 == c then 1 else 0))) &&
    (!HasKey(t, c) ==> r == t + [(c, 1)])
  }

  /** Counting the key of the first entry raises that entry. */
  lemma BumpHead(t: seq<Entry>, c: string)
    requires DistinctKeys(t) && t != [] && t[0].0 == c
    ensures Bumped(t, c, [(c, t[0].1 + 1)] + t[1..])
  {
    var r := [(c, t[0].1 + 1)] + t[1..];
    assert HasKey(t, c);
    forall i | 0 <= i < |t| ensures r[i].0 == t[i].0 && r[i].1 == t[i].1 + (if t[i].0 == c then 1 else 0) {
      if i > 0 { assert r[i] == t[i] && t[i].0 != c; }
    }
    ConsDistinct((c, t[0].1 + 1), t[1..]);
  }

  /** Counting another key passes the first entry through. */
  lemma BumpCons(t: seq<Entry>, c: string, rest: seq<Entry>)
    requires DistinctKeys(t) && t != [] && t[0].0 != c && Bumped(t[1..], c, rest)
    ensures Bumped(t, c, [t[0]] + rest)
  {
    var tail := t[1..];
    HasKeyTail(t, c);
    assert forall i :: 0 <= i < |tail| ==> tail[i] == t[i + 1];
    assert forall i :: 0 <= i < |rest| ==> rest[i].0 != t[0].0 by {
      forall i | 0 <= i < |rest| ensures rest[i].0 != t[0].0 {
        if i < |tail| { assert rest[i].0 == tail[i].0; }
      }
    }
    ConsDistinct(t[0], rest);
    var r := [t[0]] + rest;
    if !HasKey(t, c) {
      assert t == [t[0]] + tail;
      assert r == t + [(c, 1)];
    } else {
      forall i | 0 <= i < |t| ensures r[i].0 == t[i].0 && r[i].1 == t[i].1 + (if t[i].0 == c then 1 else 0) {
        if i > 0 { assert r[i] == rest[i - 1] && t[i] == tail[i - 1]; }
      }
    }
  }

  lemma HasKeyTail(t: seq<Entry>, c: string)
    requires t != [] && t[0].0 != c
    ensures HasKey(t, c) <==> HasKey(t[1..], c)
  {
    if HasKey(t, c) {
      var i :| 0 <= i < |t| && t[i].0 == c;
      assert t[1..][i - 1].0 == c;
    }
    if HasKey(t[1..], c) {
      var i :| 0 <= i < |t[1..]| && t[1..][i].0 == c;
      assert t[i + 1].0 == c;
    }
  }

  lemma ConsDistinct(h: Entry, rest: seq<Entry>)
    requires DistinctKeys(rest) && forall i :: 0 <= i < |rest| ==> rest[i].0 != h.0
    ensures DistinctKeys([h] + rest)
  {
    var r := [h] + rest;
    forall i, j | 0 <= i < j < |r| ensures r[i].0 != r[j].0 {
      assert r[j] == rest[j - 1];
      if i > 0 { assert r[i] == rest[i - 1]; }
    }
  }

  /** `Counter(items)`. */
  function Tally(s: seq<string>): (t: seq<Entry>)
    ensures DistinctKeys(t)
  {
    if s == [] then [] else Bump(Tally(s[..|s| - 1]), s[|s| - 1])
  }

  function Occurrences(s: seq<string>, c: string): nat
  {
    multiset(s)[c]
  }

  /** Position of the first occurrence of `c` in `s`. */
  function FirstIndex(s: seq<string>, c: string): (k: nat)
    requires c in s
    ensures k < |s| && s[k] == c && forall j :: 0 <= j < k ==> s[j] != c
  {
    if s[0] == c then 0 else FirstIndex(s[1..], c) + 1
  }

  /** The tally has one entry per distinct item, holding its number of
      occurrences, and the entries come in order of first occurrence. */
  lemma {:induction false} TallyCorrect(s: seq<string>)
    ensures TallyFacts(s, Tally(s))
  {
    if s != [] {
      var p, c := s[..|s| - 1], s[|s| - 1];
      TallyCorrect(p);
      assert s == p + [c];
      StepKeys(p, c, Tally(p));
      StepCounts(p, c, Tally(p));
      StepOrdered(p, c, Tally(p));
    }
  }

  /** The keys of `t` are the items of `s`. */
  ghost predicate TallyKeys(s: seq<string>, t: seq<Entry>)
  {
    forall c :: c in s <==> HasKey(t, c)
  }

  /** Each entry holds the number of occurrences of its key. */
  ghost predicate TallyCounts(s: seq<string>, t: seq<Entry>)
  {
    forall i :: 0 <= i < |t| ==> t[i].0 in s && t[i].1 == Occurrences(s, t[i].0) && t[i].1 >= 1
  }

  /** The entries come in order of first occurrence. */
  ghost predicate TallyOrdered(s: seq<string>, t: seq<Entry>)
  {
    forall i, j :: 0 <= i < j < |t| ==> t[i].0 in s && t[j].0 in s && FirstIndex(s, t[i].0) < FirstIndex(s, t[j].0)
  }

  ghost predicate TallyFacts(s: seq<string>, t: seq<Entry>)
  {
    TallyKeys(s, t) && TallyCounts(s, t) && TallyOrdered(s, t)
  }

  /** Bumping `c` adds `c` to the keys and nothing else. */
  lemma BumpKeys(tp: seq<Entry>, c: string, x: string)
    requires DistinctKeys(tp)
    ensures HasKey(Bump(tp, c), x) <==> HasKey(tp, x) || x == c
  {
    var t := Bump(tp, c);
    if HasKey(tp, x) {
      var i :| 0 <= i < |tp| && tp[i].0 == x;
      assert t[i].0 == x;
    }
    if x == c && !HasKey(tp, c) {
      assert t[|tp|].0 == x;
    }
  }

  lemma StepKeys(p: seq<string>, c: string, tp: seq<Entry>)
    requires DistinctKeys(tp) && TallyKeys(p, tp)
    ensures TallyKeys(p + [c], Bump(tp, c))
  {
    forall x ensures x in p + [c] <==> HasKey(Bump(tp, c), x) {
      BumpKeys(tp, c, x);
    }
  }

  lemma StepCounts(p: seq<string>, c: string, tp: seq<Entry>)
    requires DistinctKeys(tp) && TallyKeys(p, tp) && TallyCounts(p, tp)
    ensures TallyCounts(p + [c], Bump(tp, c))
  {
    var s, t := p + [c], Bump(tp, c);
    assert multiset(s) == multiset(p) + multiset{c};
    forall i | 0 <= i < |t| ensures t[i].0 in s && t[i].1 == Occurrences(s, t[i].0) && t[i].1 >= 1 {
      if HasKey(tp, c) {
        assert t[i].0 == tp[i].0;
      } else if i < |tp| {
        assert t[i] == tp[i] && tp[i].0 != c;
      } else {
        assert t[i] == (c, 1) && c !in p;
      }
    }
  }

  lemma StepOrdered(p: seq<string>, c: string, tp: seq<Entry>)
    requires DistinctKeys(tp) && TallyKeys(p, tp) && TallyCounts(p, tp) && TallyOrdered(p, tp)
    ensures TallyOrdered(p + [c], Bump(tp, c))
  {
    var s, t := p + [c], Bump(tp, c);
    forall i, j | 0 <= i < j < |t|
      ensures t[i].0 in s && t[j].0 in s && FirstIndex(s, t[i].0) < FirstIndex(s, t[j].0)
    {
      assert i < |tp| && t[i].0 == tp[i].0;
      FirstIndexPrefix(p, c, tp[i].0);
      if j < |tp| {
        assert t[j].0 == tp[j].0;
        FirstIndexPrefix(p, c, tp[j].0);
      } else {
        assert t[j].0 == c && c !in p;
        FirstIndexLast(p, c);
      }
    }
  }

  lemma FirstIndexPrefix(p: seq<string>, c: string, x: string)
    requires x in p
    ensures x in p + [c] && FirstIndex(p + [c], x) == FirstIndex(p, x) < |p|
  {
    var k := FirstIndex(p, x);
    var s := p + [c];
    assert s[k] == x;
  }

  lemma FirstIndexLast(p: seq<string>, c: string)
    requires c !in p
    ensures c in p + [c] && FirstIndex(p + [c], c) == |p|
  {
    var s := p + [c];
    assert s[|p|] == c;
  }

  // ---------------------------------------------------------------------------
  // Ranking
  // ---------------------------------------------------------------------------

  predicate NonIncreasing(r: seq<Entry>)
  {
    forall i, j :: 0 <= i < j < |r| ==> r[i].1 >= r[j].1
  }

  /** Places `x` after every entry whose count is at least its own. */
  function InsertByCount(x: Entry, r: seq<Entry>): (q: seq<Entry>)
    requires NonIncreasing(r)
    ensures NonIncreasing(q)
    ensures multiset(q) == multiset(r) + multiset{x} && |q| == |r| + 1
  {
    if r == [] then [x]
    else if r[0].1 < x.1 then
      ConsNonIncreasing(x, r);
      [x] + r
    else
      var tail := InsertByCount(x, r[1..]);
      assert r == [r[0]] + r[1..];
      BoundedAfterInsert(r[0].1, x, r[1..], tail);
      ConsNonIncreasing(r[0], tail);
      [r[0]] + tail
  }

  /** A head whose count bounds every count of a non-increasing list keeps it
      non-increasing. */
  lemma ConsNonIncreasing(h: Entry, r: seq<Entry>)
    requires NonIncreasing(r) && forall j :: 0 <= j < |r| ==> r[j].1 <= h.1
    ensures NonIncreasing([h] + r)
  {
    var q := [h] + r;
    forall i, j | 0 <= i < j < |q| ensures q[i].1 >= q[j].1 {
      assert q[j] == r[j - 1];
      if i > 0 { assert q[i] == r[i - 1]; }
    }
  }

  /** A bound on every count of `rest` and on `x` bounds every count of a list
      holding the entries of `rest` and `x`. */
  lemma BoundedAfterInsert(bound: nat, x: Entry, rest: seq<Entry>, tail: seq<Entry>)
    requires multiset(tail) == multiset(rest) + multiset{x}
    requires x.1 <= bound && forall j :: 0 <= j < |rest| ==> rest[j].1 <= bound
    ensures forall j :: 0 <= j < |tail| ==> tail[j].1 <= bound
  {
    forall j | 0 <= j < |tail| ensures tail[j].1 <= bound {
      assert tail[j] in multiset(tail);
      if tail[j] != x {
        assert tail[j] in multiset(rest);
        var k :| 0 <= k < |rest| && rest[k] == tail[j];
      }
    }
  }

  /** `Counter.most_common()`: the tally sorted by count, largest first; equal
      counts keep their tally order (the sort is stable). */
  function MostCommon(t: seq<Entry>): (r: seq<Entry>)
    ensures NonIncreasing(r)
    ensures multiset(r) == multiset(t) && |r| == |t|
  {
    if t == [] then []
    else
      assert t == t[..|t| - 1] + [t[|t| - 1]];
      InsertByCount(t[|t| - 1], MostCommon(t[..|t| - 1]))
  }

  /** The entries with count `k`, in order. */
  function WithCount(r: seq<Entry>, k: nat): seq<Entry>
  {
    if r == [] then []
    else (if r[0].1 == k then [r[0]] else []) + WithCount(r[1..], k)
  }

  lemma {:induction false} WithCountAppend(a: seq<Entry>, b: seq<Entry>, k: nat)
    ensures WithCount(a + b, k) == WithCount(a, k) + WithCount(b, k)
  {
    if a != [] {
      assert (a + b)[1..] == a[1..] + b;
      WithCountAppend(a[1..], b, k);
    } else {
      assert a + b == b;
    }
  }

  lemma {:induction false} WithCountInsert(x: Entry, r: seq<Entry>, k: nat)
    requires NonIncreasing(r)
    ensures WithCount(InsertByCount(x, r), k) == WithCount(r, k) + (if x.1 == k then [x] else [])
  {
    if r == [] {
      WithCountCons(x, [], k);
      assert [x] + [] == [x];
    } else if r[0].1 < x.1 {
      WithCountInsertFront(x, r, k);
    } else {
      WithCountInsert(x, r[1..], k);
      WithCountInsertBehind(x, r, k);
    }
  }

  /** An entry counted above the head goes in front. */
  lemma WithCountInsertFront(x: Entry, r: seq<Entry>, k: nat)
    requires NonIncreasing(r) && r != [] && r[0].1 < x.1
    ensures WithCount(InsertByCount(x, r), k) == WithCount(r, k) + (if x.1 == k then [x] else [])
  {
    assert InsertByCount(x, r) == [x] + r;
    WithCountCons(x, r, k);
    if x.1 == k {
      WithCountBelow(r, k);
      assert [x] + [] == [] + [x];
    } else {
      assert [] + WithCount(r, k) == WithCount(r, k) + [];
    }
  }

  /** An entry counted at most the head's goes behind it. */
  lemma WithCountInsertBehind(x: Entry, r: seq<Entry>, k: nat)
    requires NonIncreasing(r) && r != [] && r[0].1 >= x.1
    requires WithCount(InsertByCount(x, r[1..]), k) == WithCount(r[1..], k) + (if x.1 == k then [x] else [])
    ensures WithCount(InsertByCount(x, r), k) == WithCount(r, k) + (if x.1 == k then [x] else [])
  {
    var own := if x.1 == k then [x] else [];
    var tail := InsertByCount(x, r[1..]);
    var head := if r[0].1 == k then [r[0]] else [];
    assert InsertByCount(x, r) == [r[0]] + tail;
    WithCountCons(r[0], tail, k);
    WithCountCons(r[0], r[1..], k);
    ConsSplit(r);
    calc {
      WithCount(InsertByCount(x, r), k);
      head + WithCount(tail, k);
      head + (WithCount(r[1..], k) + own);
      { AppendAssoc(head, WithCount(r[1..], k), own); }
      (head + WithCount(r[1..], k)) + own;
      WithCount(r, k) + own;
    }
  }

  lemma ConsSplit(r: seq<Entry>)
    requires r != []
    ensures [r[0]] + r[1..] == r
  {
  }

  lemma AppendAssoc(a: seq<Entry>, b: seq<Entry>, c: seq<Entry>)
    ensures a + (b + c) == (a + b) + c
  {
  }

  lemma WithCountCons(h: Entry, r: seq<Entry>, k: nat)
    ensures WithCount([h] + r, k) == (if h.1 == k then [h] else []) + WithCount(r, k)
  {
    assert ([h] + r)[1..] == r;
  }

  /** No entry of a non-increasing ranking headed by a smaller count has count `k`. */
  lemma {:induction false} WithCountBelow(r: seq<Entry>, k: nat)
    requires NonIncreasing(r) && r != [] && r[0].1 < k
    ensures WithCount(r, k) == []
  {
    if |r| > 1 {
      WithCountBelow(r[1..], k);
    }
  }

  /** Stability: among entries of equal count the ranking keeps tally order. */
  lemma {:induction false} MostCommonStable(t: seq<Entry>, k: nat)
    ensures WithCount(MostCommon(t), k) == WithCount(t, k)
  {
    if t != [] {
      MostCommonStable(t[..|t| - 1], k);
      MostCommonStableStep(t, k);
    }
  }

  /** Ranking one more entry keeps stability. */
  lemma MostCommonStableStep(t: seq<Entry>, k: nat)
    requires t != [] && WithCount(MostCommon(t[..|t| - 1]), k) == WithCount(t[..|t| - 1], k)
    ensures WithCount(MostCommon(t), k) == WithCount(t, k)
  {
    var p, x := t[..|t| - 1], t[|t| - 1];
    assert MostCommon(t) == InsertByCount(x, MostCommon(p));
    WithCountInsert(x, MostCommon(p), k);
    assert t == p + [x];
    WithCountAppend(p, [x], k);
    assert WithCount([x], k) == if x.1 == k then [x] else [] by {
      assert [x][1..] == [];
    }
  }

  /** `most_common(1)[0]` is `most_common()[0]`: the first tally entry with
      the largest count. */
  lemma TopIsFirstMax(t: seq<Entry>)
    requires t != []
    ensures var top := MostCommon(t)[0];
      (forall i :: 0 <= i < |t| ==> t[i].1 <= top.1) &&
      exists i :: 0 <= i < |t| && t[i] == top && (forall j :: 0 <= j < i ==> t[j].1 < top.1)
  {
    var r := MostCommon(t);
    var top := r[0];
    forall i | 0 <= i < |t| ensures t[i].1 <= top.1 {
      assert t[i] in multiset(r);
      var j :| 0 <= j < |r| && r[j] == t[i];
    }
    MostCommonStable(t, top.1);
    assert WithCount(r, top.1) == [top] + WithCount(r[1..], top.1);
    FirstWithCount(t, top.1);
  }

  /** The head of WithCount(t, k) is the first entry of t with count k. */
  lemma {:induction false} FirstWithCount(t: seq<Entry>, k: nat)
    requires WithCount(t, k) != []
    ensures exists i ::
      0 <= i < |t| && t[i] == WithCount(t, k)[0] && t[i].1 == k && (forall j :: 0 <= j < i ==> t[j].1 != k)
  {
    if t[0].1 != k {
      FirstWithCount(t[1..], k);
      var i :| 0 <= i < |t[1..]| && t[1..][i] == WithCount(t[1..], k)[0] && t[1..][i].1 == k &&
        (forall j :: 0 <= j < i ==> t[1..][j].1 != k);
      assert t[i + 1] == WithCount(t, k)[0];
      forall j | 0 <= j < i + 1 ensures t[j].1 != k {
        if j > 0 { assert t[j] == t[1..][j - 1]; }
      }
    } else {
      assert t[0] == WithCount(t, k)[0];
    }
  }

  // ---------------------------------------------------------------------------
  // The ranking of a list of votes
  // ---------------------------------------------------------------------------

  /** An entry of the tally counts an item of `s`. */
  lemma TallyEntry(s: seq<string>, i: nat)
    requires i < |Tally(s)|
    ensures Tally(s)[i].0 in s && Tally(s)[i].1 == Occurrences(s, Tally(s)[i].0)
  {
    TallyCorrect(s);
  }

  /** Every item of `s` has an entry in the tally. */
  lemma TallyHas(s: seq<string>, c: string)
    requires c in s
    ensures exists i :: 0 <= i < |Tally(s)| && Tally(s)[i].0 == c
  {
    TallyCorrect(s);
    assert HasKey(Tally(s), c);
  }

  /** Earlier tally entries occur first in `s`. */
  lemma TallyOrder(s: seq<string>, i: nat, j: nat)
    requires i < j < |Tally(s)|
    ensures Tally(s)[i].0 in s && Tally(s)[j].0 in s && FirstIndex(s, Tally(s)[i].0) < FirstIndex(s, Tally(s)[j].0)
  {
    TallyCorrect(s);
  }

  /** Each ranked entry is an entry of the tally. */
  lemma RankedIsTallied(t: seq<Entry>, k: nat)
    requires k < |MostCommon(t)|
    ensures exists i :: 0 <= i < |t| && t[i] == MostCommon(t)[k]
  {
    var r := MostCommon(t);
    assert r[k] in multiset(r);
    assert r[k] in t;
  }

  /** Each tally entry is ranked. */
  lemma TalliedIsRanked(t: seq<Entry>, i: nat)
    requires i < |t|
    ensures exists k :: 0 <= k < |MostCommon(t)| && t[i] == MostCommon(t)[k]
  {
    var r := MostCommon(t);
    assert t[i] in multiset(t);
    assert t[i] in r;
  }

  /** A ranked entry is an item of `s` with its number of occurrences. */
  lemma RankedEntry(s: seq<string>, k: nat)
    requires k < |MostCommon(Tally(s))|
    ensures var r := MostCommon(Tally(s)); r[k].0 in s && r[k].1 == Occurrences(s, r[k].0)
  {
    RankedIsTallied(Tally(s), k);
    var i :| 0 <= i < |Tally(s)| && Tally(s)[i] == MostCommon(Tally(s))[k];
    TallyEntry(s, i);
  }

  /** Every item of `s` is ranked. */
  lemma RankedHas(s: seq<string>, c: string)
    requires c in s
    ensures exists k :: 0 <= k < |MostCommon(Tally(s))| && MostCommon(Tally(s))[k].0 == c
  {
    TallyHas(s, c);
    var i :| 0 <= i < |Tally(s)| && Tally(s)[i].0 == c;
    TalliedIsRanked(Tally(s), i);
  }

  /** `Counter(s).most_common()` lists every distinct item of `s`, with its
      number of occurrences. */
  lemma RankingCovers(s: seq<string>)
    ensures var r := MostCommon(Tally(s));
      (forall k :: 0 <= k < |r| ==> r[k].0 in s && r[k].1 == Occurrences(s, r[k].0)) &&
      (forall c :: c in s ==> exists k :: 0 <= k < |r| && r[k].0 == c)
  {
    forall k | 0 <= k < |MostCommon(Tally(s))| {
      RankedEntry(s, k);
    }
    forall c | c in s {
      RankedHas(s, c);
    }
  }

  /** `Counter(s).most_common(1)[0][0]`: an item occurring most often, and
      among those the one that occurs first in `s`. */
  lemma Plurality(s: seq<string>)
    requires s != []
    ensures var c := MostCommon(Tally(s))[0].0;
      c in s &&
      (forall x :: x in s ==> Occurrences(s, x) <= Occurrences(s, c)) &&
      (forall x :: x in s && Occurrences(s, x) == Occurrences(s, c) ==> FirstIndex(s, c) <= FirstIndex(s, x))
  {
    assert s[0] in s;
    PluralityAgainst(s, s[0]);
    forall x | x in s
      ensures Occurrences(s, x) <= Occurrences(s, MostCommon(Tally(s))[0].0)
      ensures Occurrences(s, x) == Occurrences(s, MostCommon(Tally(s))[0].0) ==>
        FirstIndex(s, MostCommon(Tally(s))[0].0) <= FirstIndex(s, x)
    {
      PluralityAgainst(s, x);
    }
  }

  /** The top-ranked item against one other item `x` of `s`. */
  lemma PluralityAgainst(s: seq<string>, x: string)
    requires x in s
    ensures Tally(s) != [] && MostCommon(Tally(s))[0].0 in s
    ensures var c := MostCommon(Tally(s))[0].0;
      Occurrences(s, x) <= Occurrences(s, c) &&
      (Occurrences(s, x) == Occurrences(s, c) ==> FirstIndex(s, c) <= FirstIndex(s, x))
  {
    var t := Tally(s);
    TallyHas(s, x);
    var m :| 0 <= m < |t| && t[m].0 == x;
    TopIsFirstMax(t);
    var top := MostCommon(t)[0];
    var i :| 0 <= i < |t| && t[i] == top && (forall j :: 0 <= j < i ==> t[j].1 < top.1);
    assert t[m].1 <= t[i].1;
    PluralityCompare(s, m, i);
  }

  /** Tally entry `i`, the first with the largest count, against entry `m`:
      `m`'s item occurs no more often, and on equal counts occurs later. */
  lemma PluralityCompare(s: seq<string>, m: nat, i: nat)
    requires m < |Tally(s)| && i < |Tally(s)| && Tally(s)[m].1 <= Tally(s)[i].1
    requires forall j :: 0 <= j < i ==> Tally(s)[j].1 < Tally(s)[i].1
    ensures Tally(s)[m].0 in s && Tally(s)[i].0 in s
    ensures Occurrences(s, Tally(s)[m].0) <= Occurrences(s, Tally(s)[i].0)
    ensures Occurrences(s, Tally(s)[m].0) == Occurrences(s, Tally(s)[i].0) ==>
      FirstIndex(s, Tally(s)[i].0) <= FirstIndex(s, Tally(s)[m].0)
  {
    TallyEntry(s, m);
    TallyEntry(s, i);
    if Occurrences(s, Tally(s)[m].0) == Occurrences(s, Tally(s)[i].0) {
      TieOrder(s, m, i);
    }
  }

  /** Equal counts: the first entry with the largest count comes first in `s`. */
  lemma TieOrder(s: seq<string>, m: nat, i: nat)
    requires m < |Tally(s)| && i < |Tally(s)| && Tally(s)[m].1 == Tally(s)[i].1
    requires forall j :: 0 <= j < i ==> Tally(s)[j].1 < Tally(s)[i].1
    ensures Tally(s)[m].0 in s && Tally(s)[i].0 in s
    ensures FirstIndex(s, Tally(s)[i].0) <= FirstIndex(s, Tally(s)[m].0)
  {
    TallyEntry(s, m);
    TallyEntry(s, i);
    assert m >= i;
    if m > i {
      TallyOrder(s, i, m);
    }
  }
}
