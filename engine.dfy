/** The sweep-line merge: every start and end of every source, in increasing
    order, cuts the address space into segments; each segment is decided once,
    at its first address, from what every source holds there; equal
    neighbouring decisions are then merged. */
module Engine {
  import opened Records
  import opened Table
  import opened Coalescing
  import Center
  import Resolver

  /** A source's name with its loaded and finalized table. */
  datatype Source = Source(name: string, table: RangeTable)

  ghost function Tables(ss: seq<Source>): set<RangeTable>
  {
    set i | 0 <= i < |ss| :: ss[i].table
  }

  /** The source names, in table order. */
  function Names(ss: seq<Source>): (names: seq<string>)
    ensures |names| == |ss| && forall i :: 0 <= i < |ss| ==> names[i] == ss[i].name
  {
    seq(|ss|, i requires 0 <= i < |ss| => ss[i].name)
  }

  /** `latlong_name_set`. */
  function LatlongNames(ss: seq<Source>): (names: set<string>)
    ensures forall i :: 0 <= i < |ss| ==> ss[i].name in names
    ensures forall n :: n in names ==> exists i :: 0 <= i < |ss| && ss[i].name == n
  {
    set i | 0 <= i < |ss| :: ss[i].name
  }

  ghost predicate AllValid(ss: seq<Source>)
    reads Tables(ss)
  {
    forall i :: 0 <= i < |ss| ==> ss[i].table.Valid()
  }

  /** Distinct names on distinct tables. */
  predicate Distinct(ss: seq<Source>)
  {
    forall i, j :: 0 <= i < j < |ss| ==> ss[i].table != ss[j].table && ss[i].name != ss[j].name
  }

  /** The tables as the loaders leave them: finalized, never swept. */
  ghost predicate Ready(ss: seq<Source>)
    reads Tables(ss)
  {
    AllValid(ss) && Distinct(ss) &&
    forall i :: 0 <= i < |ss| ==> Sorted(ss[i].table.Records()) && ss[i].table.cursor == 0 && ss[i].table.queries == []
  }

  /** The records of every source, in table order. */
  ghost function RecordsOf(ss: seq<Source>): (rs: seq<seq<Record>>)
    reads Tables(ss)
    requires AllValid(ss)
    ensures |rs| == |ss| && forall i :: 0 <= i < |ss| ==> rs[i] == ss[i].table.Records()
    decreases |ss|
  {
    if ss == [] then []
    else
      assert Tables(ss[1..]) <= Tables(ss) by {
        forall t | t in Tables(ss[1..]) ensures t in Tables(ss) {
          var i :| 0 <= i < |ss[1..]| && ss[1..][i].table == t;
          assert ss[i + 1].table == t;
        }
      }
      [ss[0].table.Records()] + RecordsOf(ss[1..])
  }

  /** Table `t` holds the sorted records `rs` and has been swept at the
      points `qs`, in order. */
  ghost predicate Holds(t: RangeTable, rs: seq<Record>, qs: seq<nat>)
    reads t
  {
    t.Valid() && t.Records() == rs && Sorted(rs) && t.InOrder() && t.queries == qs
  }

  /** `x` is a start or an end of some source's records. */
  ghost predicate IsBound(rs: seq<seq<Record>>, x: nat)
  {
    exists i :: 0 <= i < |rs| && x in Bounds(rs[i])
  }

  /** `all_data` at point `p`: each source's name with the payload of its
      first record containing `p`. */
  function ObsAt(names: seq<string>, rs: seq<seq<Record>>, p: nat): (obs: Resolver.Observations)
    requires |names| == |rs|
    ensures |obs| == |rs|
    ensures forall i :: 0 <= i < |rs| ==> obs[i] == (names[i], Lookup(rs[i], p))
  {
    seq(|rs|, i requires 0 <= i < |rs| => (names[i], Lookup(rs[i], p)))
  }

  /** Observations that agree with every source's lookup at `p` are `ObsAt`. */
  lemma ObsAtUnique(names: seq<string>, rs: seq<seq<Record>>, p: nat, obs: Resolver.Observations)
    requires |names| == |rs| && |obs| == |rs|
    requires forall i :: 0 <= i < |rs| ==> obs[i] == (names[i], Lookup(rs[i], p))
    ensures obs == ObsAt(names, rs, p)
  {
  }

  /** What the merged output is meant to map `p` to: the decision over what
      every source holds at `p`. */
  function Expected(names: seq<string>, rs: seq<seq<Record>>, latlong: set<string>, cfg: Resolver.MergeConfig, dist: Center.Distance, p: nat): Option<Value>
    requires |names| == |rs|
  {
    match Resolver.PickWinner(ObsAt(names, rs, p), latlong, cfg, dist)
    case None => None
    case Some(d) => Some((d.country, d.lat, d.lon))
  }

  predicate StrictlyIncreasing(s: seq<nat>)
  {
    forall i, j :: 0 <= i < j < |s| ==> s[i] < s[j]
  }

  // ---------------------------------------------------------------------------
  // Boundary points
  // ---------------------------------------------------------------------------

  /** `m` is the least element of `s`. */
  predicate IsLeast(s: set<nat>, m: nat)
  {
    m in s && forall y :: y in s ==> m <= y
  }

  lemma {:induction false} MinExists(s: set<nat>)
    requires s != {}
    ensures exists m :: IsLeast(s, m)
    decreases |s|
  {
    var x :| x in s;
    var rest := s - {x};
    if rest == {} {
      assert s == {x} by {
        forall y | y in s ensures y == x || y in rest { }
      }
      assert IsLeast(s, x);
    } else {
      MinExists(rest);
      var m :| IsLeast(rest, m);
      var least := if x < m then x else m;
      forall y | y in s ensures least <= y {
        if y != x {
          assert y in rest;
        }
      }
      assert IsLeast(s, least);
    }
  }

  /** `sorted(s)` for a set of numbers: takes out the least element until
      none is left. */
  method SortSet(s: set<nat>) returns (r: seq<nat>)
    ensures forall x :: x in r <==> x in s
    ensures StrictlyIncreasing(r)
  {
    r := [];
    var rest := s;
    while rest != {}
      invariant forall x :: x in s <==> x in r || x in rest
      invariant forall x :: x in r ==> x !in rest
      invariant StrictlyIncreasing(r)
      invariant forall i, y :: 0 <= i < |r| && y in rest ==> r[i] < y
      decreases |rest|
    {
      MinExists(rest);
      var m :| IsLeast(rest, m);
      r := r + [m];
      rest := rest - {m};
    }
  }

  /** `boundaries`: the union of every table's boundaries, sorted. */
  method CollectBoundaries(ss: seq<Source>, ghost rs: seq<seq<Record>>) returns (bs: seq<nat>)
    requires |rs| == |ss|
    requires forall i :: 0 <= i < |ss| ==> ss[i].table.Valid() && ss[i].table.Records() == rs[i]
    ensures StrictlyIncreasing(bs)
    ensures forall x :: x in bs <==> IsBound(rs, x)
  {
    var boundarySet: set<nat> := {};
    var i := 0;
    while i < |ss|
      invariant 0 <= i <= |ss|
      invariant forall x :: x in boundarySet <==> exists k :: 0 <= k < i && x in Bounds(rs[k])
    {
      var b := ss[i].table.Boundaries();
      boundarySet := boundarySet + b;
      i := i + 1;
    }
    bs := SortSet(boundarySet);
  }

  // ---------------------------------------------------------------------------
  // Querying every source at one point
  // ---------------------------------------------------------------------------

  /** The sweep of table `j` at `point`: its lookup, with the histories of
      the tables up to and including `j` advanced by `point` and the others
      left as they were. */
  method SweepAt(ss: seq<Source>, j: nat, point: nat, ghost rs: seq<seq<Record>>, ghost qs: seq<nat>)
    returns (r: Option<Payload>)
    requires j < |ss| && |rs| == |ss| && Distinct(ss)
    requires qs == [] || qs[|qs| - 1] <= point
    requires forall i :: 0 <= i < |ss| ==> Holds(ss[i].table, rs[i], if i < j then qs + [point] else qs)
    modifies ss[j].table
    ensures forall i :: 0 <= i < |ss| ==> Holds(ss[i].table, rs[i], if i <= j then qs + [point] else qs)
    ensures r == Lookup(rs[j], point)
  {
    var t := ss[j].table;
    assert Holds(t, rs[j], qs);
    r := t.Sweep(point);
    assert Holds(t, rs[j], qs + [point]);
    forall i | 0 <= i < |ss| && i != j
      ensures Holds(ss[i].table, rs[i], if i <= j then qs + [point] else qs)
    {
      assert ss[i].table != t;
    }
  }

  /** The inner loop: sweeps every table at `point`, in order, building
      `all_data` and `any_data`. */
  method QueryAll(ss: seq<Source>, point: nat, ghost rs: seq<seq<Record>>, ghost qs: seq<nat>)
    returns (obs: Resolver.Observations, anyData: bool)
    requires |rs| == |ss| && Distinct(ss)
    requires forall i :: 0 <= i < |ss| ==> Holds(ss[i].table, rs[i], qs)
    requires qs == [] || qs[|qs| - 1] <= point
    modifies Tables(ss)
    ensures forall i :: 0 <= i < |ss| ==> Holds(ss[i].table, rs[i], qs + [point])
    ensures |obs| == |ss| && forall i :: 0 <= i < |ss| ==> obs[i] == (ss[i].name, Lookup(rs[i], point))
    ensures anyData <==> exists i :: 0 <= i < |obs| && obs[i].1.Some?
  {
    obs, anyData := [], false;
    var j := 0;
    while j < |ss|
      invariant 0 <= j <= |ss|
      invariant forall i :: 0 <= i < |ss| ==> Holds(ss[i].table, rs[i], if i < j then qs + [point] else qs)
      invariant Observed(ss, rs, point, obs, anyData, j)
    {
      assert ss[j].table in Tables(ss);
      var val := SweepAt(ss, j, point, rs, qs);
      ObservedStep(ss, rs, point, obs, anyData, j, val);
      obs := obs + [(ss[j].name, val)];
      if val.Some? {
        anyData := true;
      }
      j := j + 1;
    }
  }

  /** `all_data` holds the lookups of the first `j` sources, and `any_data`
      says whether any of them has data. */
  ghost predicate Observed(ss: seq<Source>, rs: seq<seq<Record>>, point: nat, obs: Resolver.Observations, anyData: bool, j: nat)
    requires j <= |ss| == |rs|
  {
    |obs| == j &&
    (forall i :: 0 <= i < j ==> obs[i] == (ss[i].name, Lookup(rs[i], point))) &&
    (anyData <==> exists i :: 0 <= i < j && obs[i].1.Some?)
  }

  lemma ObservedStep(ss: seq<Source>, rs: seq<seq<Record>>, point: nat, obs: Resolver.Observations, anyData: bool, j: nat,
                     val: Option<Payload>)
    requires j < |ss| == |rs| && Observed(ss, rs, point, obs, anyData, j) && val == Lookup(rs[j], point)
    ensures Observed(ss, rs, point, obs + [(ss[j].name, val)], anyData || val.Some?, j + 1)
  {
    var next := obs + [(ss[j].name, val)];
    assert next[j] == (ss[j].name, val) && forall i :: 0 <= i < j ==> next[i] == obs[i];
  }

  // ---------------------------------------------------------------------------
  // The segment loop
  // ---------------------------------------------------------------------------

  /** Inside a segment no source's lookup changes: no boundary lies strictly
      after its first address and at or before `p`. */
  lemma SegmentConstant(names: seq<string>, rs: seq<seq<Record>>, bs: seq<nat>, idx: nat, p: nat)
    requires |names| == |rs| && StrictlyIncreasing(bs)
    requires forall x :: IsBound(rs, x) ==> x in bs
    requires idx + 1 < |bs| && bs[idx] <= p < bs[idx + 1]
    ensures ObsAt(names, rs, p) == ObsAt(names, rs, bs[idx])
  {
    forall i | 0 <= i < |rs| ensures Lookup(rs[i], p) == Lookup(rs[i], bs[idx]) {
      forall x | x in Bounds(rs[i]) ensures !(bs[idx] < x <= p) {
        assert IsBound(rs, x);
        var k :| 0 <= k < |bs| && bs[k] == x;
        if k <= idx {
          assert bs[k] <= bs[idx];
        } else {
          assert bs[idx + 1] <= bs[k];
        }
      }
      LookupConstant(rs[i], bs[idx], p);
    }
  }

  /** Below every boundary, or at or above all of them, no source has data
      and nothing is decided. */
  lemma OutsideNothing(names: seq<string>, rs: seq<seq<Record>>, latlong: set<string>, cfg: Resolver.MergeConfig, dist: Center.Distance, p: nat)
    requires |names| == |rs|
    requires (forall x: nat :: IsBound(rs, x) ==> p < x) || (forall x: nat :: IsBound(rs, x) ==> x <= p)
    ensures Expected(names, rs, latlong, cfg, dist, p) == None
  {
    var obs := ObsAt(names, rs, p);
    forall i | 0 <= i < |rs| ensures obs[i].1.None? {
      assert forall x :: x in Bounds(rs[i]) ==> IsBound(rs, x);
      LookupOutside(rs[i], p);
    }
    Resolver.PickWinnerNone(obs, latlong, cfg, dist);
  }

  /** The decision is one value all over each segment and nothing outside
      the boundaries. */
  lemma ExpectedPerSegment(want: nat -> Option<Value>, names: seq<string>, rs: seq<seq<Record>>, latlong: set<string>,
                           cfg: Resolver.MergeConfig, dist: Center.Distance, bs: seq<nat>)
    requires |names| == |rs| && StrictlyIncreasing(bs)
    requires forall x :: x in bs <==> IsBound(rs, x)
    requires forall p :: want(p) == Expected(names, rs, latlong, cfg, dist, p)
    ensures forall i, p: nat :: 0 <= i < |bs| - 1 && bs[i] <= p < bs[i + 1] ==> want(p) == want(bs[i])
    ensures forall p: nat :: (|bs| == 0 || p < bs[0] || bs[|bs| - 1] <= p) ==> want(p) == None
  {
    forall i, p: nat | 0 <= i < |bs| - 1 && bs[i] <= p < bs[i + 1] ensures want(p) == want(bs[i]) {
      SegmentConstant(names, rs, bs, i, p);
    }
    forall p: nat | |bs| == 0 || p < bs[0] || bs[|bs| - 1] <= p ensures want(p) == None {
      OutsideNothing(names, rs, latlong, cfg, dist, p);
    }
  }

  /** The output entry for the segment [bs[idx], bs[idx + 1]) when it is
      decided as `v`. */
  function SegmentFor(bs: seq<nat>, idx: nat, v: Option<Value>): seq<Segment>
    requires idx + 1 < |bs| && bs[idx] < bs[idx + 1]
  {
    match v
    case None => []
    case Some(x) => [Segment(bs[idx], bs[idx + 1] - 1, x.0, x.1, x.2)]
  }

  /** One turn of the segment loop: if the output maps every point below
      bs[idx] as `want` does (and nothing else), and `want` is `v` all over
      [bs[idx], bs[idx + 1]), then appending the entry for `v` maps every
      point below bs[idx + 1] as `want` does, and keeps the output ascending. */
  lemma SegmentStep(want: nat -> Option<Value>, bs: seq<nat>, idx: nat, before: seq<Segment>, v: Option<Value>)
    requires StrictlyIncreasing(bs) && idx + 1 < |bs|
    requires Ascending(before) && forall k :: 0 <= k < |before| ==> before[k].end < bs[idx]
    requires forall p :: ValueAt(before, p) == if bs[0] <= p < bs[idx] then want(p) else None
    requires forall p: nat :: bs[idx] <= p < bs[idx + 1] ==> want(p) == v
    ensures var after := before + SegmentFor(bs, idx, v);
      Ascending(after) && (forall k :: 0 <= k < |after| ==> after[k].end < bs[idx + 1]) &&
      forall p :: ValueAt(after, p) == if bs[0] <= p < bs[idx + 1] then want(p) else None
  {
    var seg := SegmentFor(bs, idx, v);
    assert bs[0] <= bs[idx] < bs[idx + 1];
    AppendAscending(before, seg, bs[idx], bs[idx + 1]);
    forall p ensures ValueAt(before + seg, p) == if bs[0] <= p < bs[idx + 1] then want(p) else None {
      SegmentStepAt(want, bs, idx, before, v, p);
    }
  }

  /** Appending at most one segment lying in [lo, hi) after segments that all
      end below `lo` keeps them ascending, and all of them end below `hi`. */
  lemma AppendAscending(before: seq<Segment>, seg: seq<Segment>, lo: nat, hi: nat)
    requires lo < hi && Ascending(before) && forall k :: 0 <= k < |before| ==> before[k].end < lo
    requires |seg| <= 1 && forall k :: 0 <= k < |seg| ==> lo <= seg[k].start <= seg[k].end < hi
    ensures Ascending(before + seg) && forall k :: 0 <= k < |before + seg| ==> (before + seg)[k].end < hi
  {
    var after := before + seg;
    forall i, j | 0 <= i < j < |after| ensures after[i].end < after[j].start {
      assert after[i] == before[i];
      if j < |before| {
        assert after[j] == before[j];
      } else {
        assert after[j] == seg[0];
      }
    }
    forall k | 0 <= k < |after| ensures after[k].start <= after[k].end < hi {
      if k < |before| {
        assert after[k] == before[k];
      } else {
        assert after[k] == seg[k - |before|];
      }
    }
  }

  /** SegmentStep at a single address `p`. */
  lemma SegmentStepAt(want: nat -> Option<Value>, bs: seq<nat>, idx: nat, before: seq<Segment>, v: Option<Value>, p: nat)
    requires idx + 1 < |bs| && bs[0] <= bs[idx] < bs[idx + 1]
    requires ValueAt(before, p) == if bs[0] <= p < bs[idx] then want(p) else None
    requires bs[idx] <= p < bs[idx + 1] ==> want(p) == v
    ensures ValueAt(before + SegmentFor(bs, idx, v), p) == if bs[0] <= p < bs[idx + 1] then want(p) else None
  {
    var seg := SegmentFor(bs, idx, v);
    ValueAtAppend(before, seg, p);
    if seg != [] {
      ValueAtOne(seg[0], p);
    }
  }

  /** The decision for the segment [bs[idx], bs[idx + 1]): none when no
      source has data at its first address, else the winner picked from what
      the sources hold there; appended to `output` when there is one. */
  method EmitSegment(obs: Resolver.Observations, anyData: bool, latlong: set<string>, cfg: Resolver.MergeConfig, dist: Center.Distance,
                     ghost names: seq<string>, ghost rs: seq<seq<Record>>, bs: seq<nat>, idx: nat, output: seq<Segment>)
    returns (extended: seq<Segment>)
    requires |names| == |rs| && idx + 1 < |bs| && bs[idx] < bs[idx + 1]
    requires obs == ObsAt(names, rs, bs[idx])
    requires anyData <==> exists i :: 0 <= i < |obs| && obs[i].1.Some?
    ensures extended == output + SegmentFor(bs, idx, Expected(names, rs, latlong, cfg, dist, bs[idx]))
  {
    extended := output;
    if !anyData {
      Resolver.PickWinnerNone(obs, latlong, cfg, dist);
      return;
    }
    var result := Resolver.PickWinner(obs, latlong, cfg, dist);
    if result.Some? {
      var d := result.value;
      extended := output + [Segment(bs[idx], bs[idx + 1] - 1, d.country, d.lat, d.lon)];
    }
  }

  /** One turn of the segment loop: queries every table at the segment's
      first address and appends the segment when a winner is picked. */
  method SegmentTurn(ss: seq<Source>, bs: seq<nat>, idx: nat, latlong: set<string>, cfg: Resolver.MergeConfig, dist: Center.Distance,
                     ghost rs: seq<seq<Record>>, output: seq<Segment>)
    returns (extended: seq<Segment>)
    requires |rs| == |ss| && Distinct(ss)
    requires StrictlyIncreasing(bs) && idx + 1 < |bs|
    requires forall i :: 0 <= i < |ss| ==> Holds(ss[i].table, rs[i], bs[..idx])
    modifies Tables(ss)
    ensures forall i :: 0 <= i < |ss| ==> Holds(ss[i].table, rs[i], bs[..idx + 1])
    ensures extended == output + SegmentFor(bs, idx, Expected(Names(ss), rs, latlong, cfg, dist, bs[idx]))
  {
    assert idx > 0 ==> bs[..idx][idx - 1] == bs[idx - 1];
    var obs, anyData := QueryAll(ss, bs[idx], rs, bs[..idx]);
    assert bs[..idx + 1] == bs[..idx] + [bs[idx]];
    ObsAtUnique(Names(ss), rs, bs[idx], obs);
    extended := EmitSegment(obs, anyData, latlong, cfg, dist, Names(ss), rs, bs, idx, output);
  }

  /** The segment loop: one output entry per segment that some source covers
      and for which a winner is picked. `want` is what the output is meant to
      map each point to: it holds one value per segment, nothing outside the
      boundaries, and the decision over the sources at each boundary. */
  method SweepSegments(ss: seq<Source>, bs: seq<nat>, latlong: set<string>, cfg: Resolver.MergeConfig, dist: Center.Distance,
                       ghost rs: seq<seq<Record>>, ghost want: nat -> Option<Value>)
    returns (output: seq<Segment>)
    requires |rs| == |ss| && Distinct(ss)
    requires forall i :: 0 <= i < |ss| ==> Holds(ss[i].table, rs[i], [])
    requires StrictlyIncreasing(bs)
    requires forall i, p: nat :: 0 <= i < |bs| - 1 && bs[i] <= p < bs[i + 1] ==> want(p) == want(bs[i])
    requires forall p: nat :: (|bs| == 0 || p < bs[0] || bs[|bs| - 1] <= p) ==> want(p) == None
    requires forall i :: 0 <= i < |bs| ==> want(bs[i]) == Expected(Names(ss), rs, latlong, cfg, dist, bs[i])
    modifies Tables(ss)
    ensures forall i :: 0 <= i < |ss| ==> Holds(ss[i].table, rs[i], if |bs| == 0 then [] else bs[..|bs| - 1])
    ensures Ascending(output)
    ensures forall p :: ValueAt(output, p) == want(p)
  {
    output := [];
    if |bs| == 0 {
      return;
    }
    var idx := 0;
    while idx + 1 < |bs|
      invariant 0 <= idx < |bs|
      invariant forall i :: 0 <= i < |ss| ==> Holds(ss[i].table, rs[i], bs[..idx])
      invariant Ascending(output)
      invariant forall k :: 0 <= k < |output| ==> output[k].end < bs[idx]
      invariant forall p :: ValueAt(output, p) == if bs[0] <= p < bs[idx] then want(p) else None
    {
      SegmentStep(want, bs, idx, output, want(bs[idx]));
      output := SegmentTurn(ss, bs, idx, latlong, cfg, dist, rs, output);
      idx := idx + 1;
    }
  }

  /** Every table has been swept at the boundaries `qs`, in increasing
      order: all boundaries of `rs` but the greatest. */
  ghost predicate SweptBounds(qs: seq<nat>, rs: seq<seq<Record>>)
  {
    StrictlyIncreasing(qs) &&
    (forall x :: x in qs ==> IsBound(rs, x)) &&
    (forall x, y :: IsBound(rs, x) && IsBound(rs, y) && x < y ==> x in qs)
  }

  /** Table `t`, the `i`-th of the sources whose records are `rs`, still
      holds its records and has been swept at every boundary but the last. */
  ghost predicate SweptOver(t: RangeTable, rs: seq<seq<Record>>, i: nat)
    reads t
  {
    i < |rs| && t.Valid() && t.Records() == rs[i] && t.InOrder() && SweptBounds(t.queries, rs)
  }

  /** The segment loop queries every boundary but the last, which only
      closes the final segment. */
  lemma LastBoundaryLeftOut(bs: seq<nat>, rs: seq<seq<Record>>)
    requires StrictlyIncreasing(bs) && forall x :: x in bs <==> IsBound(rs, x)
    ensures SweptBounds(if |bs| == 0 then [] else bs[..|bs| - 1], rs)
  {
    if |bs| > 0 {
      var qs := bs[..|bs| - 1];
      forall x, y | IsBound(rs, x) && IsBound(rs, y) && x < y ensures x in qs {
        var i :| 0 <= i < |bs| && bs[i] == x;
        var j :| 0 <= j < |bs| && bs[j] == y;
        assert i < j;
        assert qs[i] == x;
      }
    }
  }

  lemma AllSweptOver(ss: seq<Source>, bs: seq<nat>, rs: seq<seq<Record>>)
    requires |rs| == |ss| && StrictlyIncreasing(bs) && forall x :: x in bs <==> IsBound(rs, x)
    requires forall i :: 0 <= i < |ss| ==> Holds(ss[i].table, rs[i], if |bs| == 0 then [] else bs[..|bs| - 1])
    ensures forall i :: 0 <= i < |ss| ==> SweptOver(ss[i].table, rs, i)
  {
    LastBoundaryLeftOut(bs, rs);
  }

  // ---------------------------------------------------------------------------
  // The merge
  // ---------------------------------------------------------------------------

  /** The merge of `main`: coordinate sources first, then country-only
      sources; the result maps every address to the decision over what every
      source holds there, in ascending segments no two of which could be
      joined. */
  method Merge(latlongSources: seq<Source>, countrySources: seq<Source>, cfg: Resolver.MergeConfig, dist: Center.Distance)
    returns (merged: seq<Segment>)
    requires Ready(latlongSources + countrySources)
    modifies Tables(latlongSources + countrySources)
    ensures forall i :: 0 <= i < |latlongSources + countrySources| ==>
      SweptOver((latlongSources + countrySources)[i].table, old(RecordsOf(latlongSources + countrySources)), i)
    ensures Ascending(merged) && Maximal(merged)
    ensures forall p :: ValueAt(merged, p) == Expected(Names(latlongSources + countrySources),
      old(RecordsOf(latlongSources + countrySources)), LatlongNames(latlongSources), cfg, dist, p)
  {
    var all := latlongSources + countrySources;
    var latlong := LatlongNames(latlongSources);
    ghost var names := Names(all);
    ghost var rs := RecordsOf(all);
    var bs := CollectBoundaries(all, rs);
    ghost var want := (p: nat) => Expected(names, rs, latlong, cfg, dist, p);
    ExpectedPerSegment(want, names, rs, latlong, cfg, dist, bs);
    var output := SweepSegments(all, bs, latlong, cfg, dist, rs, want);
    AllSweptOver(all, bs, rs);
    merged := Coalesce(output);
    CoalescedAscending(output);
    CoalescedMaximal(output);
    forall p ensures ValueAt(merged, p) == ValueAt(output, p) {
      CoalescedValueAt(output, p);
    }
  }
}
