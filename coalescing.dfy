/** Coalescing the output: consecutive segments that carry the same country
    and coordinates and touch (one ends right before the next begins) become
    one segment. */
module Coalescing {
  import opened Records

  /** One output line: the inclusive range [start, end] and what it maps to. */
  datatype Segment = Segment(start: nat, end: nat, country: string, lat: string, lon: string)

  type Value = (string, string, string)

  function ValueOf(s: Segment): Value
  {
    (s.country, s.lat, s.lon)
  }

  /** `merged[-1][2:] == entry[2:] and merged[-1][1] + 1 == entry[0]`. */
  predicate Joins(prev: Segment, next: Segment)
  {
    ValueOf(prev) == ValueOf(next) && prev.end + 1 == next.start
  }

  /** Every segment is a non-empty range and each ends before the next begins. */
  ghost predicate Ascending(s: seq<Segment>)
  {
    (forall i :: 0 <= i < |s| ==> s[i].start <= s[i].end) &&
    (forall i, j :: 0 <= i < j < |s| ==> s[i].end < s[j].start)
  }

  /** No two neighbours could be joined. */
  ghost predicate Maximal(s: seq<Segment>)
  {
    forall i :: 0 < i < |s| ==> !Joins(s[i - 1], s[i])
  }

  /** What the first segment containing `p` maps it to. */
  function ValueAt(s: seq<Segment>, p: nat): Option<Value>
  {
    if s == [] then None
    else if s[0].start <= p <= s[0].end then Some(ValueOf(s[0]))
    else ValueAt(s[1..], p)
  }

  /** One turn of the merge loop: widen the last merged segment over `e`, or
      append `e`. */
  function Step(merged: seq<Segment>, e: Segment): (r: seq<Segment>)
    ensures |r| == |merged| || |r| == |merged| + 1
    ensures r != [] && r[|r| - 1].end == e.end
    ensures merged != [] ==> r[0].start == merged[0].start
  {
    if merged != [] && Joins(merged[|merged| - 1], e) then
      merged[..|merged| - 1] + [merged[|merged| - 1].(end := e.end)]
    else
      merged + [e]
  }

  /** The merged list after the whole of `out`. */
  function Coalesced(out: seq<Segment>): (r: seq<Segment>)
    ensures |r| <= |out|
    ensures out != [] ==> r != [] && r[0].start == out[0].start && r[|r| - 1].end == out[|out| - 1].end
  {
    if out == [] then [] else Step(Coalesced(out[..|out| - 1]), out[|out| - 1])
  }

  /** The merge loop of `main`, over a list it grows and rewrites. */
  method Coalesce(output: seq<Segment>) returns (merged: seq<Segment>)
    ensures merged == Coalesced(output)
  {
    merged := [];
    var i := 0;
    while i < |output|
      invariant 0 <= i <= |output|
      invariant merged == Coalesced(output[..i])
    {
      var entry := output[i];
      CoalescedPrefix(output, i);
      merged := MergeEntry(merged, entry);
      i := i + 1;
    }
    assert output[..i] == output;
  }

  /** The loop body as merge.py writes it: `merged[-1] = ...` rewrites the
      last merged segment in place when the entry joins it (same value, next
      address), otherwise the entry is appended. `Step` is the same turn as a
      function, for the lemmas; this method tests the two conditions the way
      merge.py does and is proved to agree with it. */
  method MergeEntry(merged: seq<Segment>, entry: Segment) returns (r: seq<Segment>)
    ensures r == Step(merged, entry)
  {
    if merged != [] && ValueOf(merged[|merged| - 1]) == ValueOf(entry) && merged[|merged| - 1].end + 1 == entry.start {
      r := merged[..|merged| - 1] + [merged[|merged| - 1].(end := entry.end)];
    } else {
      r := merged + [entry];
    }
  }

  /** One more entry of the output is one more merge step. */
  lemma CoalescedPrefix(output: seq<Segment>, i: nat)
    requires i < |output|
    ensures Coalesced(output[..i + 1]) == Step(Coalesced(output[..i]), output[i])
  {
    assert output[..i + 1][..i] == output[..i];
  }

  // ---------------------------------------------------------------------------
  // Properties
  // ---------------------------------------------------------------------------

  lemma {:induction false} ValueAtAppend(a: seq<Segment>, b: seq<Segment>, p: nat)
    ensures ValueAt(a + b, p) == if ValueAt(a, p).Some? then ValueAt(a, p) else ValueAt(b, p)
  {
    if a != [] {
      assert (a + b)[1..] == a[1..] + b;
      ValueAtAppend(a[1..], b, p);
    } else {
      assert a + b == b;
    }
  }

  lemma ValueAtOne(s: Segment, p: nat)
    ensures ValueAt([s], p) == if s.start <= p <= s.end then Some(ValueOf(s)) else None
  {
    assert [s][1..] == [];
  }

  /** One step keeps the segments ascending. */
  lemma StepAscending(m: seq<Segment>, e: Segment)
    requires Ascending(m) && e.start <= e.end
    requires m != [] ==> m[|m| - 1].end < e.start
    ensures Ascending(Step(m, e))
  {
  }

  /** One step keeps neighbours unjoinable. */
  lemma StepMaximal(m: seq<Segment>, e: Segment)
    requires Maximal(m)
    ensures Maximal(Step(m, e))
  {
    var r := Step(m, e);
    if m != [] && Joins(m[|m| - 1], e) {
      forall i | 0 < i < |r| ensures !Joins(r[i - 1], r[i]) {
        if i == |r| - 1 {
          assert r[i - 1] == m[i - 1] && r[i].start == m[i].start && ValueOf(r[i]) == ValueOf(m[i]);
        } else {
          assert r[i - 1] == m[i - 1] && r[i] == m[i];
        }
      }
    }
  }

  /** One step maps every point as appending the entry would. */
  lemma StepValueAt(m: seq<Segment>, e: Segment, p: nat)
    requires Ascending(m + [e])
    ensures ValueAt(Step(m, e), p) == ValueAt(m + [e], p)
  {
    if m != [] && Joins(m[|m| - 1], e) {
      var n := |m| - 1;
      var last := m[n];
      assert m + [e] == m[..n] + [last, e];
      ValueAtAppend(m[..n], [last.(end := e.end)], p);
      ValueAtAppend(m[..n], [last, e], p);
      ValueAtOne(last.(end := e.end), p);
      assert [last, e][1..] == [e];
      ValueAtOne(e, p);
      assert Step(m, e) == m[..n] + [last.(end := e.end)];
      assert (m + [e])[n] == last && (m + [e])[n + 1] == e;
      assert ValueAt([last, e], p) == if last.start <= p <= last.end then Some(ValueOf(last)) else ValueAt([e], p);
      assert ValueOf(last.(end := e.end)) == ValueOf(last) == ValueOf(e);
    }
  }

  /** Merging keeps the segments ascending. */
  lemma {:induction false} CoalescedAscending(out: seq<Segment>)
    requires Ascending(out)
    ensures Ascending(Coalesced(out))
  {
    if out != [] {
      var p := out[..|out| - 1];
      assert Ascending(p);
      CoalescedAscending(p);
      StepAscending(Coalesced(p), out[|out| - 1]);
    }
  }

  /** After merging no two neighbours could be joined. */
  lemma {:induction false} CoalescedMaximal(out: seq<Segment>)
    ensures Maximal(Coalesced(out))
  {
    if out != [] {
      CoalescedMaximal(out[..|out| - 1]);
      StepMaximal(Coalesced(out[..|out| - 1]), out[|out| - 1]);
    }
  }

  /** Merging maps every point to the same value as before. */
  lemma {:induction false} CoalescedValueAt(out: seq<Segment>, p: nat)
    requires Ascending(out)
    ensures ValueAt(Coalesced(out), p) == ValueAt(out, p)
  {
    if out != [] {
      var q, e := out[..|out| - 1], out[|out| - 1];
      assert out == q + [e];
      assert Ascending(q);
      CoalescedAscending(q);
      var m := Coalesced(q);
      assert Ascending(m + [e]);
      StepValueAt(m, e, p);
      ValueAtAppend(m, [e], p);
      ValueAtAppend(q, [e], p);
      CoalescedValueAt(q, p);
    }
  }

  /** A list with no joinable neighbours is left as it is. */
  lemma {:induction false} CoalescedOfMaximal(s: seq<Segment>)
    requires Maximal(s)
    ensures Coalesced(s) == s
  {
    if s != [] {
      var q := s[..|s| - 1];
      assert Maximal(q);
      CoalescedOfMaximal(q);
      assert s == q + [s[|s| - 1]];
    }
  }

  /** Merging twice is merging once. */
  lemma CoalescedIdempotent(out: seq<Segment>)
    ensures Coalesced(Coalesced(out)) == Coalesced(out)
  {
    CoalescedMaximal(out);
    CoalescedOfMaximal(Coalesced(out));
  }
}
