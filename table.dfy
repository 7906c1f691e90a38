/** The range table: three parallel lists of starts, exclusive ends and payloads,
    sorted once by `Finalize`, then read by a forward-only cursor. */
module Table {
  import opened Records

  predicate NonDecreasing(s: seq<nat>)
  {
    forall i, j :: 0 <= i < j < |s| ==> s[i] <= s[j]
  }

  class RangeTable {
    var starts: seq<nat>
    var ends: seq<nat>
    var data: seq<Payload>
    var cursor: nat
    /** Every point given to Sweep so far, oldest first. */
    ghost var queries: seq<nat>

    ghost predicate Valid()
      reads this
    {
      |starts| == |ends| == |data| && cursor <= |starts|
    }

    ghost function Records(): seq<Record>
      reads this
      requires Valid()
    {
      Zip(starts, ends, data)
    }

    /** The caller has kept the sweep contract so far: the points never
        decreased, and every record behind the cursor ended at or before the
        latest point. */
    ghost predicate InOrder()
      reads this
      requires Valid()
    {
      SweptPast(queries, ends, cursor)
    }

    /** `point` may be the next query: it is not below any earlier one. */
    ghost predicate MayQuery(point: nat)
      reads this
    {
      queries == [] || queries[|queries| - 1] <= point
    }

    constructor ()
      ensures Valid() && InOrder()
      ensures starts == [] && ends == [] && data == [] && cursor == 0 && queries == []
    {
      starts, ends, data, cursor := [], [], [], 0;
      queries := [];
    }

    /** Appends one record, unsorted and unchecked. */
    method Add(start: nat, end: nat, value: Payload)
      requires Valid()
      modifies this
      ensures Valid()
      ensures starts == old(starts) + [start] && ends == old(ends) + [end] && data == old(data) + [value]
      ensures Records() == old(Records()) + [Record(start, end, value)]
      ensures cursor == old(cursor) && queries == old(queries)
      ensures old(InOrder()) ==> InOrder()
    {
      ghost var before := ends;
      ghost var ordered := InOrder();
      starts := starts + [start];
      ends := ends + [end];
      data := data + [value];
      if ordered {
        SweptPastAppend(queries, before, cursor, [end]);
      }
    }

    /** Sorts the records by (start, end, payload) and counts, without
        correcting them, the records that start before their predecessor ends. */
    method Finalize() returns (overlaps: nat)
      requires Valid()
      modifies this
      ensures Valid()
      ensures old(starts) == [] ==> starts == old(starts) && ends == old(ends) && data == old(data)
      ensures Records() == SortRecords(old(Records()))
      ensures Sorted(Records()) && multiset(Records()) == multiset(old(Records()))
      ensures overlaps == |OverlapIndices(Records())|
      ensures overlaps == 0 <==> NoOverlap(Records())
      ensures cursor == old(cursor) && queries == old(queries)
      ensures old(cursor) == 0 && old(InOrder()) ==> InOrder()
    {
      if |starts| == 0 {
        overlaps := 0;
        OverlapCountZeroIff(Records());
        OverlapCountIsCardinality(Records());
        return;
      }
      ghost var added := Records();
      var combined := SortRecords(Zip(starts, ends, data));
      starts := Starts(combined);
      ends := Ends(combined);
      data := Payloads(combined);
      ZipUnzip(combined);
      assert Records() == combined && cursor == old(cursor) && queries == old(queries);
      overlaps := CountOverlaps();
      assert Records() == combined && cursor == old(cursor) && queries == old(queries);
      FinalizeFacts(added, combined, overlaps);
    }

    /** The scan that ends finalize: the number of positions i >= 1 whose
        start lies before the end at position i - 1. */
    method CountOverlaps() returns (overlaps: nat)
      requires Valid()
      ensures overlaps == OverlapCount(Records())
    {
      ghost var rs := Records();
      overlaps := 0;
      var i := 1;
      while i < |starts|
        invariant 1 <= i && (|rs| > 0 ==> i <= |rs|)
        invariant i <= |rs| ==> overlaps == OverlapCount(rs[..i])
        invariant |rs| == 0 ==> overlaps == 0
      {
        if starts[i] < ends[i - 1] {
          overlaps := overlaps + 1;
        }
        assert rs[..i + 1][..i] == rs[..i];
        i := i + 1;
      }
      if |rs| > 0 {
        assert rs[..i] == rs;
      }
    }

    /** The payload of the record at or after the cursor that contains `point`,
        moving the cursor past every record that ends at or before it. */
    method Sweep(point: nat) returns (r: Option<Payload>)
      requires Valid()
      modifies this`cursor, this`queries
      ensures Valid()
      ensures queries == old(queries) + [point]
      ensures old(cursor) <= cursor
      ensures forall i :: old(cursor) <= i < cursor ==> ends[i] <= point
      ensures r.Some? ==> cursor < |starts| && r.value == data[cursor] && starts[cursor] <= point < ends[cursor]
      ensures old(InOrder()) && old(MayQuery(point)) ==> InOrder()
      ensures old(InOrder()) && old(MayQuery(point)) && Sorted(Records()) ==> r == Lookup(Records(), point)
    {
      var c := cursor;
      var n := |starts|;
      while c < n && ends[c] <= point
        invariant cursor <= c <= n
        invariant forall i :: cursor <= i < c ==> ends[i] <= point
      {
        c := c + 1;
      }
      ghost var before := cursor;
      ghost var earlier := queries;
      queries := queries + [point];
      cursor := c;
      if c < n && starts[c] <= point {
        r := Some(data[c]);
      } else {
        r := None;
      }
      if old(InOrder()) && old(MayQuery(point)) {
        assert SweptPast(earlier, ends, before);
        SweepKeepsOrder(earlier, ends, before, c, point);
        if Sorted(Records()) {
          SweepLookup(starts, ends, data, c, point);
        }
      }
    }

    /** Every start and every end held by the table. */
    method Boundaries() returns (b: set<nat>)
      requires Valid()
      ensures b == Bounds(Records())
    {
      b := {};
      var i := 0;
      while i < |starts|
        invariant 0 <= i <= |starts|
        invariant b == Bounds(Records()[..i])
      {
        BoundsSnoc(Records(), i);
        b := b + {starts[i]};
        b := b + {ends[i]};
        i := i + 1;
      }
      assert Records()[..i] == Records();
    }
  }

  /** What finalize establishes about the sorted records and the count. */
  lemma FinalizeFacts(added: seq<Record>, combined: seq<Record>, overlaps: nat)
    requires combined == SortRecords(added) && overlaps == OverlapCount(combined)
    ensures Sorted(combined) && multiset(combined) == multiset(added)
    ensures overlaps == |OverlapIndices(combined)|
    ensures overlaps == 0 <==> NoOverlap(combined)
  {
    OverlapCountIsCardinality(combined);
    OverlapCountZeroIff(combined);
  }

  /** The points never decreased, and every end before `cursor` lies at or
      before the latest point. */
  ghost predicate SweptPast(queries: seq<nat>, ends: seq<nat>, cursor: nat)
    requires cursor <= |ends|
  {
    NonDecreasing(queries) &&
    (cursor > 0 ==> queries != [] && forall i :: 0 <= i < cursor ==> ends[i] <= queries[|queries| - 1])
  }

  /** Records added behind the cursor's reach change nothing swept. */
  lemma SweptPastAppend(queries: seq<nat>, ends: seq<nat>, cursor: nat, more: seq<nat>)
    requires cursor <= |ends| && SweptPast(queries, ends, cursor)
    ensures SweptPast(queries, ends + more, cursor)
  {
    if cursor > 0 {
      forall i | 0 <= i < cursor ensures (ends + more)[i] <= queries[|queries| - 1] {
        assert (ends + more)[i] == ends[i];
      }
    }
  }

  /** A sweep that only passed records ending at or before a point not
      below the earlier ones keeps the sweep contract. */
  lemma SweepKeepsOrder(queries: seq<nat>, ends: seq<nat>, before: nat, c: nat, point: nat)
    requires before <= c <= |ends| && SweptPast(queries, ends, before)
    requires queries == [] || queries[|queries| - 1] <= point
    requires forall i :: before <= i < c ==> ends[i] <= point
    ensures forall i :: 0 <= i < c ==> ends[i] <= point
    ensures SweptPast(queries + [point], ends, c)
  {
    var qs := queries + [point];
    forall i, j | 0 <= i < j < |qs| ensures qs[i] <= qs[j] {
      if j < |queries| {
        assert qs[i] == queries[i] && qs[j] == queries[j];
      } else {
        assert qs[i] == queries[i] <= queries[|queries| - 1];
      }
    }
    assert qs[|qs| - 1] == point;
  }

  /** The sweep's answer on the parallel lists, read as records. */
  lemma SweepLookup(starts: seq<nat>, ends: seq<nat>, data: seq<Payload>, c: nat, point: nat)
    requires |starts| == |ends| == |data| && c <= |ends| && Sorted(Zip(starts, ends, data))
    requires forall i :: 0 <= i < c ==> ends[i] <= point
    requires c < |ends| ==> point < ends[c]
    ensures Lookup(Zip(starts, ends, data), point)
         == if c < |starts| && starts[c] <= point then Some(data[c]) else None
  {
    SweepFindsFirst(Zip(starts, ends, data), point, c);
  }

  /** On a table sorted by start, the first record (from the front) whose end
      lies beyond `point` is the first record containing `point`, if any does. */
  lemma SweepFindsFirst(rs: seq<Record>, point: nat, c: nat)
    requires Sorted(rs) && c <= |rs|
    requires forall i :: 0 <= i < c ==> rs[i].end <= point
    requires c < |rs| ==> point < rs[c].end
    ensures Lookup(rs, point) == if c < |rs| && rs[c].start <= point then Some(rs[c].payload) else None
  {
    if c < |rs| && rs[c].start <= point {
      LookupFinds(rs, point, c);
    } else {
      forall j | 0 <= j < |rs| ensures !Contains(rs[j], point) {
        if j >= c { SortedStarts(rs, c, j); }
      }
      LookupNoneIff(rs, point);
    }
  }
}
