/** Observations, interval records and the orders, lookup and boundary notions
    that a range table is built from. */
module Records {

  datatype Option<T> = None | Some(value: T)

  /** What one source reports for an address: a bare country code (country-only
      sources) or a country with latitude and longitude, kept as the file's text. */
  datatype Payload = CountryOnly(cc: string) | WithCoords(cc: string, lat: string, lon: string)

  /** One interval of a range table; `end` is exclusive. */
  datatype Record = Record(start: nat, end: nat, payload: Payload)

  predicate Contains(r: Record, p: nat) {
    r.start <= p < r.end
  }

  // ---------------------------------------------------------------------------
  // The order `sorted` uses on (start, end, payload) tuples
  // ---------------------------------------------------------------------------

  /** Lexicographic comparison of strings by code point, shorter prefix first. */
  predicate StrLe(a: string, b: string)
  {
    if a == [] then true
    else if b == [] then false
    else if a[0] != b[0] then a[0] < b[0]
    else StrLe(a[1..], b[1..])
  }

  lemma {:induction false} StrLeTotal(a: string, b: string)
    ensures StrLe(a, b) || StrLe(b, a)
  {
    if a != [] && b != [] && a[0] == b[0] {
      StrLeTotal(a[1..], b[1..]);
    }
  }

  lemma {:induction false} StrLeTrans(a: string, b: string, c: string)
    requires StrLe(a, b) && StrLe(b, c)
    ensures StrLe(a, c)
  {
    if a != [] && b != [] && c != [] && a[0] == b[0] && b[0] == c[0] {
      StrLeTrans(a[1..], b[1..], c[1..]);
    }
  }

  lemma {:induction false} StrLeAntisym(a: string, b: string)
    requires StrLe(a, b) && StrLe(b, a)
    ensures a == b
  {
    if a != [] && b != [] {
      StrLeAntisym(a[1..], b[1..]);
      assert a == [a[0]] + a[1..] && b == [b[0]] + b[1..];
    }
  }

  /** Tuples are compared at the first component where they differ. Payloads of
      different shapes never meet in one table; CountryOnly is put first. */
  predicate PayloadLe(p: Payload, q: Payload)
  {
    match (p, q)
    case (CountryOnly(a), CountryOnly(b)) => StrLe(a, b)
    case (CountryOnly(_), WithCoords(_, _, _)) => true
    case (WithCoords(_, _, _), CountryOnly(_)) => false
    case (WithCoords(a1, a2, a3), WithCoords(b1, b2, b3)) =>
      if a1 != b1 then StrLe(a1, b1)
      else if a2 != b2 then StrLe(a2, b2)
      else StrLe(a3, b3)
  }

  predicate RecordLe(r: Record, s: Record)
  {
    if r.start != s.start then r.start < s.start
    else if r.end != s.end then r.end < s.end
    else PayloadLe(r.payload, s.payload)
  }

  lemma RecordLeTotal(r: Record, s: Record)
    ensures RecordLe(r, s) || RecordLe(s, r)
  {
    match (r.payload, s.payload)
    case (CountryOnly(a), CountryOnly(b)) => StrLeTotal(a, b);
    case (WithCoords(a1, a2, a3), WithCoords(b1, b2, b3)) =>
      StrLeTotal(a1, b1); StrLeTotal(a2, b2); StrLeTotal(a3, b3);
    case _ =>
  }

  lemma RecordLeTrans(r: Record, s: Record, t: Record)
    requires RecordLe(r, s) && RecordLe(s, t)
    ensures RecordLe(r, t)
  {
    if r.start == s.start == t.start && r.end == s.end == t.end {
      match (r.payload, s.payload, t.payload)
      case (CountryOnly(a), CountryOnly(b), CountryOnly(c)) => StrLeTrans(a, b, c);
      case (WithCoords(a1, a2, a3), WithCoords(b1, b2, b3), WithCoords(c1, c2, c3)) =>
        if a1 != b1 || b1 != c1 {
          if a1 == b1 { } else if b1 == c1 { } else {
            StrLeTrans(a1, b1, c1);
            if a1 == c1 { StrLeAntisym(a1, b1); }
          }
        } else if a2 != b2 || b2 != c2 {
          if a2 == b2 { } else if b2 == c2 { } else {
            StrLeTrans(a2, b2, c2);
            if a2 == c2 { StrLeAntisym(a2, b2); }
          }
        } else {
          StrLeTrans(a3, b3, c3);
        }
      case _ =>
    }
  }

  lemma RecordLeAntisym(r: Record, s: Record)
    requires RecordLe(r, s) && RecordLe(s, r)
    ensures r == s
  {
    match (r.payload, s.payload)
    case (CountryOnly(a), CountryOnly(b)) => StrLeAntisym(a, b);
    case (WithCoords(a1, a2, a3), WithCoords(b1, b2, b3)) =>
      if a1 != b1 { StrLeAntisym(a1, b1); }
      else if a2 != b2 { StrLeAntisym(a2, b2); }
      else { StrLeAntisym(a3, b3); }
    case _ =>
  }

  // ---------------------------------------------------------------------------
  // Sorting
  // ---------------------------------------------------------------------------

  ghost predicate Sorted(rs: seq<Record>)
  {
    forall i, j :: 0 <= i < j < |rs| ==> RecordLe(rs[i], rs[j])
  }

  /** Places `x` in front of the first element it does not follow. */
  function Insert(x: Record, rs: seq<Record>): (r: seq<Record>)
    requires Sorted(rs)
    ensures Sorted(r)
    ensures multiset(r) == multiset(rs) + multiset{x}
  {
    if rs == [] then [x]
    else if RecordLe(x, rs[0]) then
      assert forall j :: 0 < j < |rs| ==> RecordLe(rs[0], rs[j]);
      InsertFront(x, rs);
      [x] + rs
    else
      var tail := Insert(x, rs[1..]);
      InsertBehindHead(x, rs, tail);
      [rs[0]] + tail
  }

  lemma InsertBehindHead(x: Record, rs: seq<Record>, tail: seq<Record>)
    requires Sorted(rs) && rs != [] && !RecordLe(x, rs[0])
    requires Sorted(tail) && multiset(tail) == multiset(rs[1..]) + multiset{x}
    ensures Sorted([rs[0]] + tail)
    ensures multiset([rs[0]] + tail) == multiset(rs) + multiset{x}
  {
    RecordLeTotal(x, rs[0]);
    assert rs == [rs[0]] + rs[1..];
    forall j | 0 <= j < |tail| ensures RecordLe(rs[0], tail[j]) {
      assert tail[j] in multiset(tail);
      if tail[j] != x {
        assert tail[j] in multiset(rs[1..]);
        var k :| 0 <= k < |rs[1..]| && rs[1..][k] == tail[j];
        assert RecordLe(rs[0], rs[k + 1]);
      }
    }
    var r := [rs[0]] + tail;
    forall i, j | 0 <= i < j < |r| ensures RecordLe(r[i], r[j]) {
      if i > 0 { assert r[i] == tail[i - 1] && r[j] == tail[j - 1]; }
    }
  }

  lemma InsertFront(x: Record, rs: seq<Record>)
    requires Sorted(rs) && rs != [] && RecordLe(x, rs[0])
    ensures Sorted([x] + rs)
  {
    forall j | 0 < j < |rs| ensures RecordLe(x, rs[j]) {
      RecordLeTrans(x, rs[0], rs[j]);
    }
  }

  /** The records in ascending (start, end, payload) order. */
  function SortRecords(rs: seq<Record>): (r: seq<Record>)
    ensures Sorted(r)
    ensures multiset(r) == multiset(rs)
  {
    if rs == [] then []
    else
      assert rs == [rs[0]] + rs[1..];
      Insert(rs[0], SortRecords(rs[1..]))
  }

  /** There is only one sorted arrangement of a collection of records, so any
      correct sort of the records yields what SortRecords yields. */
  lemma {:induction false} SortedPermutationUnique(a: seq<Record>, b: seq<Record>)
    requires Sorted(a) && Sorted(b) && multiset(a) == multiset(b)
    ensures a == b
  {
    if a != [] {
      assert |b| == |multiset(b)| == |a| > 0;
      SortedHeadsEqual(a, b);
      assert a == [a[0]] + a[1..] && b == [b[0]] + b[1..];
      assert multiset(a[1..]) == multiset(a) - multiset{a[0]};
      assert multiset(b[1..]) == multiset(b) - multiset{b[0]};
      SortedPermutationUnique(a[1..], b[1..]);
    }
  }

  lemma SortedHeadsEqual(a: seq<Record>, b: seq<Record>)
    requires Sorted(a) && Sorted(b) && multiset(a) == multiset(b) && a != [] && b != []
    ensures a[0] == b[0]
  {
    assert a[0] in multiset(b) && b[0] in multiset(a);
    var i :| 0 <= i < |b| && b[i] == a[0];
    var j :| 0 <= j < |a| && a[j] == b[0];
    assert RecordLe(b[0], a[0]) by { if i > 0 { assert RecordLe(b[0], b[i]); } else { RecordLeTotal(b[0], b[0]); } }
    assert RecordLe(a[0], b[0]) by { if j > 0 { assert RecordLe(a[0], a[j]); } else { RecordLeTotal(a[0], a[0]); } }
    RecordLeAntisym(a[0], b[0]);
  }

  // ---------------------------------------------------------------------------
  // Parallel lists and records
  // ---------------------------------------------------------------------------

  function Zip(starts: seq<nat>, ends: seq<nat>, data: seq<Payload>): (rs: seq<Record>)
    requires |starts| == |ends| == |data|
    ensures |rs| == |starts|
    ensures forall i :: 0 <= i < |rs| ==> rs[i] == Record(starts[i], ends[i], data[i])
  {
    seq(|starts|, i requires 0 <= i < |starts| => Record(starts[i], ends[i], data[i]))
  }

  function Starts(rs: seq<Record>): (s: seq<nat>)
    ensures |s| == |rs| && forall i :: 0 <= i < |rs| ==> s[i] == rs[i].start
  {
    seq(|rs|, i requires 0 <= i < |rs| => rs[i].start)
  }

  function Ends(rs: seq<Record>): (s: seq<nat>)
    ensures |s| == |rs| && forall i :: 0 <= i < |rs| ==> s[i] == rs[i].end
  {
    seq(|rs|, i requires 0 <= i < |rs| => rs[i].end)
  }

  function Payloads(rs: seq<Record>): (s: seq<Payload>)
    ensures |s| == |rs| && forall i :: 0 <= i < |rs| ==> s[i] == rs[i].payload
  {
    seq(|rs|, i requires 0 <= i < |rs| => rs[i].payload)
  }

  lemma ZipUnzip(rs: seq<Record>)
    ensures Zip(Starts(rs), Ends(rs), Payloads(rs)) == rs
  {
  }

  // ---------------------------------------------------------------------------
  // Overlaps
  // ---------------------------------------------------------------------------

  /** Adjacent records never overlap: each starts at or after its predecessor's end. */
  ghost predicate NoOverlap(rs: seq<Record>)
  {
    forall i :: 1 <= i < |rs| ==> rs[i - 1].end <= rs[i].start
  }

  /** Number of positions i >= 1 whose record starts before record i-1 ends,
      counted as the finalize scan counts them, left to right. */
  function OverlapCount(rs: seq<Record>): nat
  {
    if |rs| <= 1 then 0
    else OverlapCount(rs[..|rs| - 1]) + (if rs[|rs| - 1].start < rs[|rs| - 2].end then 1 else 0)
  }

  ghost function OverlapIndices(rs: seq<Record>): set<nat>
  {
    set i: nat | 1 <= i < |rs| && rs[i].start < rs[i - 1].end
  }

  /** The scan's count is the number of overlapping adjacent pairs. */
  lemma {:induction false} OverlapCountIsCardinality(rs: seq<Record>)
    ensures OverlapCount(rs) == |OverlapIndices(rs)|
  {
    if |rs| <= 1 {
      assert OverlapIndices(rs) == {};
    } else {
      var n := |rs|;
      OverlapCountIsCardinality(rs[..n - 1]);
      OverlapIndicesSnoc(rs);
    }
  }

  lemma OverlapIndicesSnoc(rs: seq<Record>)
    requires |rs| >= 2
    ensures var n := |rs|;
      |OverlapIndices(rs)| == |OverlapIndices(rs[..n - 1])| + (if rs[n - 1].start < rs[n - 2].end then 1 else 0)
  {
    var n := |rs|;
    var prefix := rs[..n - 1];
    var extra: set<nat> := if rs[n - 1].start < rs[n - 2].end then {n - 1} else {};
    forall i: nat | i in OverlapIndices(rs) ensures i in OverlapIndices(prefix) + extra {
      if i < n - 1 { assert prefix[i] == rs[i] && prefix[i - 1] == rs[i - 1]; }
    }
    forall i: nat | i in OverlapIndices(prefix) ensures i in OverlapIndices(rs) {
      assert prefix[i] == rs[i] && prefix[i - 1] == rs[i - 1];
    }
    assert OverlapIndices(rs) == OverlapIndices(prefix) + extra;
    assert n - 1 !in OverlapIndices(prefix);
  }

  /** A zero count is exactly the absence of overlap. */
  lemma {:induction false} OverlapCountZeroIff(rs: seq<Record>)
    ensures OverlapCount(rs) == 0 <==> NoOverlap(rs)
  {
    OverlapCountIsCardinality(rs);
    if NoOverlap(rs) {
      assert OverlapIndices(rs) == {};
    } else {
      var i :| 1 <= i < |rs| && rs[i].start < rs[i - 1].end;
      assert i in OverlapIndices(rs);
    }
  }

  // ---------------------------------------------------------------------------
  // Lookup and boundaries
  // ---------------------------------------------------------------------------

  /** The payload of the first record containing `p`, if any. */
  function Lookup(rs: seq<Record>, p: nat): Option<Payload>
  {
    if rs == [] then None
    else if Contains(rs[0], p) then Some(rs[0].payload)
    else Lookup(rs[1..], p)
  }

  lemma {:induction false} LookupNoneIff(rs: seq<Record>, p: nat)
    ensures Lookup(rs, p) == None <==> forall i :: 0 <= i < |rs| ==> !Contains(rs[i], p)
  {
    if rs != [] {
      LookupNoneIff(rs[1..], p);
      assert forall i :: 1 <= i < |rs| ==> rs[i] == rs[1..][i - 1];
    }
  }

  lemma {:induction false} LookupFinds(rs: seq<Record>, p: nat, i: nat)
    requires i < |rs| && Contains(rs[i], p)
    requires forall j :: 0 <= j < i ==> !Contains(rs[j], p)
    ensures Lookup(rs, p) == Some(rs[i].payload)
  {
    if i > 0 {
      LookupFinds(rs[1..], p, i - 1);
    }
  }

  /** Starts never decrease along a sorted table. */
  lemma SortedStarts(rs: seq<Record>, i: nat, j: nat)
    requires Sorted(rs) && i <= j < |rs|
    ensures rs[i].start <= rs[j].start
  {
    if i < j {
      assert RecordLe(rs[i], rs[j]);
    }
  }

  /** On a sorted table without overlap, at most one record contains a point, so
      the lookup returns the payload of THE record containing it. */
  lemma {:induction false} LookupUnique(rs: seq<Record>, p: nat, i: nat)
    requires Sorted(rs) && NoOverlap(rs)
    requires i < |rs| && Contains(rs[i], p)
    ensures forall j :: 0 <= j < |rs| && j != i ==> !Contains(rs[j], p)
    ensures Lookup(rs, p) == Some(rs[i].payload)
  {
    forall j | 0 <= j < |rs| && j != i
      ensures !Contains(rs[j], p)
    {
      if j < i {
        EndBeforeLaterStart(rs, j, i);
      } else {
        EndBeforeLaterStart(rs, i, j);
      }
    }
    LookupFinds(rs, p, i);
  }

  lemma {:induction false} EndBeforeLaterStart(rs: seq<Record>, i: nat, j: nat)
    requires Sorted(rs) && NoOverlap(rs) && i < j < |rs|
    ensures rs[i].end <= rs[j].start
  {
    SortedStarts(rs, i + 1, j);
  }

  ghost function Bounds(rs: seq<Record>): set<nat>
  {
    (set r | r in rs :: r.start) + (set r | r in rs :: r.end)
  }

  lemma BoundsSnoc(rs: seq<Record>, i: nat)
    requires i < |rs|
    ensures Bounds(rs[..i + 1]) == Bounds(rs[..i]) + {rs[i].start} + {rs[i].end}
  {
    assert rs[..i + 1] == rs[..i] + [rs[i]];
  }

  /** Between two points with no start or end strictly after the first and up to
      the second, the set of containing records, hence the lookup, is the same. */
  lemma {:induction false} LookupConstant(rs: seq<Record>, b: nat, p: nat)
    requires b <= p
    requires forall x :: x in Bounds(rs) ==> !(b < x <= p)
    ensures Lookup(rs, p) == Lookup(rs, b)
  {
    if rs != [] {
      assert rs[0].start in Bounds(rs) && rs[0].end in Bounds(rs);
      assert Contains(rs[0], p) == Contains(rs[0], b);
      assert Bounds(rs[1..]) <= Bounds(rs) by {
        forall x | x in Bounds(rs[1..]) ensures x in Bounds(rs) {
          var r :| r in rs[1..] && (x == r.start || x == r.end);
          assert r in rs;
        }
      }
      LookupConstant(rs[1..], b, p);
    }
  }

  /** A point below every boundary or at or above every boundary lies in no record. */
  lemma LookupOutside(rs: seq<Record>, p: nat)
    requires (forall x :: x in Bounds(rs) ==> p < x) || (forall x :: x in Bounds(rs) ==> x <= p)
    ensures Lookup(rs, p) == None
  {
    forall i | 0 <= i < |rs| ensures !Contains(rs[i], p) {
      assert rs[i].start in Bounds(rs) && rs[i].end in Bounds(rs);
    }
    LookupNoneIff(rs, p);
  }
}
