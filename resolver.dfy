/** The conflict resolver (`pick_winner`): the country and coordinates that
    win at one point, decided by stages tried strictly in order: unanimous
    coordinate sources, override rules, no `coord_priority` coordinates, a
    vote tie broken by priority, the ranked vote, and the no-match fallback. */
module Resolver {
  import opened Records
  import Center
  import Votes

  /** `all_data`: each source's observation at the point, in insertion order
      (coordinate sources first, then country-only sources). */
  type Observations = seq<(string, Option<Payload>)>

  /** The `merge` section of the configuration, defaults already applied:
      `vote_priority` and `overrides` default to empty and the threshold to 2;
      `coord_priority` defaults to the coordinate sources' names, in an order
      merge.py leaves to set iteration, so the model takes it as given. */
  datatype MergeConfig = MergeConfig(
    coordPriority: seq<string>,
    votePriority: seq<string>,
    threshold: real,
    overrides: seq<seq<string>>)

  /** Which stage decided, and which source gave the coordinates. */
  datatype Label =
    | Unanimous(src: string)
    | Override(rule: seq<string>, src: string)
    | Vote(src: string)
    | NoCoords
    | NoMatch

  datatype Decision = Decision(country: string, lat: string, lon: string, via: Label)

  /** A source in `coord_priority` order that reports coordinates. */
  datatype CoordSource = CoordSource(cc: string, lat: string, lon: string, name: string)

  // ---------------------------------------------------------------------------
  // Reading the observations
  // ---------------------------------------------------------------------------

  /** `all_data.get(name)`: the observation of the first entry under `name`,
      and none when no entry has that name. */
  function Get(obs: Observations, name: string): (r: Option<Payload>)
    ensures r.Some? ==> exists i :: 0 <= i < |obs| && obs[i] == (name, r)
    ensures forall i :: 0 <= i < |obs| && obs[i].0 == name && (forall j :: 0 <= j < i ==> obs[j].0 != name) ==> r == obs[i].1
    ensures (forall i :: 0 <= i < |obs| ==> obs[i].0 != name) ==> r.None?
  {
    if obs == [] then None
    else if obs[0].0 == name then obs[0].1
    else
      var r := Get(obs[1..], name);
      assert forall i :: 1 <= i < |obs| ==> obs[i] == obs[1..][i - 1];
      assert r.Some? ==> exists i :: 0 <= i < |obs[1..]| && obs[1..][i] == (name, r);
      r
  }

  /** `countries.get(name)`: the country a present source reports. */
  function CountryOf(obs: Observations, name: string): Option<string>
  {
    match Get(obs, name)
    case Some(p) => Some(p.cc)
    case None => None
  }

  /** `list(countries.values())`: the reported countries, in source order. */
  function Reported(obs: Observations): (cs: seq<string>)
    ensures cs == [] <==> forall i :: 0 <= i < |obs| ==> obs[i].1.None?
  {
    if obs == [] then []
    else
      var rest := Reported(obs[1..]);
      assert (forall i :: 0 <= i < |obs| ==> obs[i].1.None?) <==>
        obs[0].1.None? && forall i :: 0 <= i < |obs[1..]| ==> obs[1..][i].1.None? by {
        if forall i :: 0 <= i < |obs[1..]| ==> obs[1..][i].1.None? {
          assert forall i :: 1 <= i < |obs| ==> obs[i] == obs[1..][i - 1];
        }
      }
      match obs[0].1
      case Some(p) => [p.cc] + rest
      case None => rest
  }

  /** The positions from `lo` on whose element of `s` satisfies `p`,
      ascending: a reference for the order-preserving filters of
      `pick_winner`. */
  ghost function Where<T>(s: seq<T>, p: T -> bool, lo: nat): (ix: seq<nat>)
    requires lo <= |s|
    ensures forall k :: 0 <= k < |ix| ==> lo <= ix[k] < |s| && p(s[ix[k]])
    ensures forall i :: lo <= i < |s| && p(s[i]) ==> i in ix
    ensures forall k, l :: 0 <= k < l < |ix| ==> ix[k] < ix[l]
    decreases |s| - lo
  {
    if lo == |s| then []
    else (if p(s[lo]) then [lo] else []) + Where(s, p, lo + 1)
  }

  /** The observation carries data. */
  predicate HasData(o: (string, Option<Payload>))
  {
    o.1.Some?
  }

  /** `list(countries.values())` holds one country per observation with
      data, in source order: its `k`-th entry is the country of the `k`-th
      observation with data. */
  lemma {:induction false} ReportedInOrder(obs: Observations, lo: nat)
    requires lo <= |obs|
    ensures ReportedFrom(obs, lo)
    ensures |Reported(obs[lo..])| == |Where(obs, HasData, lo)|
    ensures forall k :: 0 <= k < |Where(obs, HasData, lo)| ==>
      Reported(obs[lo..])[k] == obs[Where(obs, HasData, lo)[k]].1.value.cc
    decreases |obs| - lo
  {
    if lo < |obs| {
      ReportedInOrder(obs, lo + 1);
      ReportedStep(obs, lo);
    }
  }

  /** The `k`-th country reported from position `lo` on is that of the
      `k`-th observation with data from there. */
  ghost predicate ReportedFrom(obs: Observations, lo: nat)
    requires lo <= |obs|
  {
    var cs, ix := Reported(obs[lo..]), Where(obs, HasData, lo);
    |cs| == |ix| && forall k :: 0 <= k < |ix| ==> cs[k] == obs[ix[k]].1.value.cc
  }

  lemma ReportedStep(obs: Observations, lo: nat)
    requires lo < |obs| && ReportedFrom(obs, lo + 1)
    ensures ReportedFrom(obs, lo)
  {
    assert obs[lo..][1..] == obs[lo + 1..];
    if obs[lo].1.Some? {
      ReportedTake(obs, lo);
    } else {
      assert Reported(obs[lo..]) == Reported(obs[lo + 1..]);
      assert Where(obs, HasData, lo) == Where(obs, HasData, lo + 1);
    }
  }

  lemma ReportedTake(obs: Observations, lo: nat)
    requires lo < |obs| && obs[lo].1.Some? && ReportedFrom(obs, lo + 1)
    ensures ReportedFrom(obs, lo)
  {
    var rest := Reported(obs[lo + 1..]);
    var ix := Where(obs, HasData, lo + 1);
    assert obs[lo..][1..] == obs[lo + 1..];
    ReportedCons(obs[lo..], rest);
    assert Where(obs, HasData, lo) == [lo] + ix;
    ConsAligned(obs, lo, Reported(obs[lo..]), rest, Where(obs, HasData, lo), ix);
  }

  /** Prepending one observation with data and its country keeps the two
      lists aligned. */
  lemma ConsAligned(obs: Observations, lo: nat, cs: seq<string>, rest: seq<string>, here: seq<nat>, ix: seq<nat>)
    requires lo < |obs| && obs[lo].1.Some?
    requires cs == [obs[lo].1.value.cc] + rest && here == [lo] + ix && |rest| == |ix|
    requires forall k :: 0 <= k < |ix| ==> ix[k] < |obs| && obs[ix[k]].1.Some? && rest[k] == obs[ix[k]].1.value.cc
    ensures |cs| == |here| && forall k :: 0 <= k < |here| ==> cs[k] == obs[here[k]].1.value.cc
  {
    forall k | 0 <= k < |here| ensures cs[k] == obs[here[k]].1.value.cc {
      if k > 0 {
        assert cs[k] == rest[k - 1] && here[k] == ix[k - 1];
      }
    }
  }

  lemma ReportedCons(obs: Observations, rest: seq<string>)
    requires obs != [] && obs[0].1.Some? && rest == Reported(obs[1..])
    ensures Reported(obs) == [obs[0].1.value.cc] + rest
  {
  }

  /** Each reported country is the country of some observation. */
  lemma {:induction false} ReportedBySource(obs: Observations, c: string)
    requires c in Reported(obs)
    ensures exists i :: 0 <= i < |obs| && obs[i].1.Some? && obs[i].1.value.cc == c
  {
    if obs[0].1.Some? && obs[0].1.value.cc == c {
      assert obs[0].1.Some? && obs[0].1.value.cc == c;
    } else {
      ReportedBySource(obs[1..], c);
      var i :| 0 <= i < |obs[1..]| && obs[1..][i].1.Some? && obs[1..][i].1.value.cc == c;
      assert obs[i + 1] == obs[1..][i];
    }
  }

  /** `coord_sources`: the coordinate-priority names whose observation carries
      coordinates, with what they report. */
  function CoordSources(obs: Observations, prio: seq<string>): seq<CoordSource>
  {
    if prio == [] then []
    else
      var here := match Get(obs, prio[0])
        case Some(WithCoords(cc, lat, lon)) => [CoordSource(cc, lat, lon, prio[0])]
        case _ => [];
      here + CoordSources(obs, prio[1..])
  }

  /** The named source reports coordinates for country `c`. */
  predicate HasCoordsFor(obs: Observations, name: string, c: string)
  {
    Get(obs, name).Some? && Get(obs, name).value.WithCoords? && Get(obs, name).value.cc == c
  }

  /** `find_coords`: (lat, lon, source) of the first coordinate source that
      reports exactly country `c`. */
  function FindCoords(cs: seq<CoordSource>, c: string): (r: Option<(string, string, string)>)
    ensures r.None? <==> forall i :: 0 <= i < |cs| ==> cs[i].cc != c
    ensures r.Some? ==> exists i :: (0 <= i < |cs| && cs[i].cc == c &&
      r.value == (cs[i].lat, cs[i].lon, cs[i].name) && (forall j :: 0 <= j < i ==> cs[j].cc != c))
  {
    if cs == [] then None
    else if cs[0].cc == c then Some((cs[0].lat, cs[0].lon, cs[0].name))
    else
      var r := FindCoords(cs[1..], c);
      assert forall i :: 1 <= i < |cs| ==> cs[i] == cs[1..][i - 1];
      assert r.Some? ==> exists i :: (0 <= i < |cs| && cs[i].cc == c &&
        r.value == (cs[i].lat, cs[i].lon, cs[i].name) && (forall j :: 0 <= j < i ==> cs[j].cc != c)) by {
        if r.Some? {
          var i :| 0 <= i < |cs[1..]| && cs[1..][i].cc == c &&
            r.value == (cs[1..][i].lat, cs[1..][i].lon, cs[1..][i].name) && (forall j :: 0 <= j < i ==> cs[1..][j].cc != c);
          FoundShift(cs, c, i);
        }
      }
      r
  }

  /** A first match in the tail, behind a head that does not match, is a
      first match in the whole list. */
  lemma FoundShift(cs: seq<CoordSource>, c: string, i: nat)
    requires cs != [] && cs[0].cc != c && i < |cs| - 1 && forall j :: 0 <= j < i ==> cs[1..][j].cc != c
    ensures cs[i + 1] == cs[1..][i] && forall j :: 0 <= j < i + 1 ==> cs[j].cc != c
  {
    forall j | 0 <= j < i + 1 ensures cs[j].cc != c {
      if j > 0 {
        assert cs[j] == cs[1..][j - 1];
      }
    }
  }

  /** What `find_coords` finds is the first name in coordinate-priority order
      whose observation carries coordinates for exactly that country. */
  lemma FindCoordsByPriority(obs: Observations, prio: seq<string>, c: string)
    ensures FindCoords(CoordSources(obs, prio), c).None? <==>
      forall k :: 0 <= k < |prio| ==> !HasCoordsFor(obs, prio[k], c)
    ensures var found := FindCoords(CoordSources(obs, prio), c);
      found.Some? ==> exists k :: (0 <= k < |prio| && prio[k] == found.value.2 &&
        Get(obs, found.value.2) == Some(WithCoords(c, found.value.0, found.value.1)) &&
        (forall j :: 0 <= j < k ==> !HasCoordsFor(obs, prio[j], c)))
  {
    FindCoordsNone(obs, prio, c);
    var found := FindCoords(CoordSources(obs, prio), c);
    if found.Some? {
      FindCoordsFound(obs, prio, c, found.value.0, found.value.1, found.value.2);
    }
  }

  lemma {:induction false} FindCoordsNone(obs: Observations, prio: seq<string>, c: string)
    ensures FindCoords(CoordSources(obs, prio), c).None? <==>
      forall k :: 0 <= k < |prio| ==> !HasCoordsFor(obs, prio[k], c)
  {
    if prio != [] {
      var rest := prio[1..];
      FindCoordsNone(obs, rest, c);
      FindCoordsHead(obs, prio, c);
      assert forall k :: 1 <= k < |prio| ==> prio[k] == rest[k - 1];
    }
  }

  lemma {:induction false} FindCoordsFound(obs: Observations, prio: seq<string>, c: string, y: string, x: string, name: string)
    requires FindCoords(CoordSources(obs, prio), c) == Some((y, x, name))
    ensures exists k :: (0 <= k < |prio| && prio[k] == name && Get(obs, name) == Some(WithCoords(c, y, x)) &&
      (forall j :: 0 <= j < k ==> !HasCoordsFor(obs, prio[j], c)))
  {
    assert prio != [];
    var rest := prio[1..];
    FindCoordsHead(obs, prio, c);
    if HasCoordsFor(obs, prio[0], c) {
      assert prio[0] == name && Get(obs, name) == Some(WithCoords(c, y, x));
    } else {
      assert FindCoords(CoordSources(obs, rest), c) == Some((y, x, name));
      FindCoordsFound(obs, rest, c, y, x, name);
      var k :| 0 <= k < |rest| && rest[k] == name && Get(obs, name) == Some(WithCoords(c, y, x)) &&
        (forall j :: 0 <= j < k ==> !HasCoordsFor(obs, rest[j], c));
      forall j | 0 <= j < k + 1 ensures !HasCoordsFor(obs, prio[j], c) {
        if j > 0 { assert prio[j] == rest[j - 1]; }
      }
      assert 0 <= k + 1 < |prio| && prio[k + 1] == name;
    }
  }

  /** `find_coords` over the sources of `prio`: the head's coordinates when it
      reports the country, else what the rest give. */
  lemma FindCoordsHead(obs: Observations, prio: seq<string>, c: string)
    requires prio != []
    ensures FindCoords(CoordSources(obs, prio), c) ==
      if HasCoordsFor(obs, prio[0], c) then
        Some((Get(obs, prio[0]).value.lat, Get(obs, prio[0]).value.lon, prio[0]))
      else FindCoords(CoordSources(obs, prio[1..]), c)
  {
    var cs := CoordSources(obs, prio);
    var rest := CoordSources(obs, prio[1..]);
    match Get(obs, prio[0])
    case Some(WithCoords(cc, lat, lon)) =>
      assert cs == [CoordSource(cc, lat, lon, prio[0])] + rest;
      assert cs[1..] == rest;
    case _ =>
      assert cs == rest;
  }

  // ---------------------------------------------------------------------------
  // Stage 1: unanimous coordinate sources
  // ---------------------------------------------------------------------------

  /** `available_ll`: coordinate-priority names that are coordinate sources and
      have an observation here (such sources only ever hold coordinates). */
  function AvailableLatlong(obs: Observations, prio: seq<string>, latlong: set<string>): (r: seq<CoordSource>)
    ensures forall i :: 0 <= i < |r| ==> (r[i].name in latlong && r[i].name in prio &&
      Get(obs, r[i].name) == Some(WithCoords(r[i].cc, r[i].lat, r[i].lon)))
  {
    if prio == [] then []
    else
      var here := if prio[0] in latlong then
        match Get(obs, prio[0])
        case Some(WithCoords(cc, lat, lon)) => [CoordSource(cc, lat, lon, prio[0])]
        case _ => []
      else [];
      here + AvailableLatlong(obs, prio[1..], latlong)
  }

  /** The filter of `available_ll`: a coordinate source whose observation
      here carries coordinates. */
  function Eligible(obs: Observations, latlong: set<string>): string -> bool
  {
    name => name in latlong && HasCoordsAt(obs, name)
  }

  lemma AvailableCons(obs: Observations, prio: seq<string>, latlong: set<string>, rest: seq<CoordSource>)
    requires prio != [] && rest == AvailableLatlong(obs, prio[1..], latlong)
    ensures Eligible(obs, latlong)(prio[0]) ==> (|AvailableLatlong(obs, prio, latlong)| == 1 + |rest| &&
      AvailableLatlong(obs, prio, latlong)[0].name == prio[0] && AvailableLatlong(obs, prio, latlong)[1..] == rest)
    ensures !Eligible(obs, latlong)(prio[0]) ==> AvailableLatlong(obs, prio, latlong) == rest
  {
  }

  /** `available_ll` keeps, in `coord_priority` order, exactly the entries
      from `lo` on that are coordinate sources with coordinates here: its
      `k`-th entry is the `k`-th such entry. */
  lemma {:induction false} AvailableInOrder(obs: Observations, prio: seq<string>, latlong: set<string>, lo: nat)
    requires lo <= |prio|
    ensures |AvailableLatlong(obs, prio[lo..], latlong)| == |Where(prio, Eligible(obs, latlong), lo)|
    ensures forall k :: 0 <= k < |Where(prio, Eligible(obs, latlong), lo)| ==>
      AvailableLatlong(obs, prio[lo..], latlong)[k].name == prio[Where(prio, Eligible(obs, latlong), lo)[k]]
    decreases |prio| - lo
  {
    if lo < |prio| {
      AvailableInOrder(obs, prio, latlong, lo + 1);
      var rest := AvailableLatlong(obs, prio[lo + 1..], latlong);
      var ix := Where(prio, Eligible(obs, latlong), lo + 1);
      assert prio[lo..][1..] == prio[lo + 1..];
      AvailableCons(obs, prio[lo..], latlong, rest);
      var avail := AvailableLatlong(obs, prio[lo..], latlong);
      var here := Where(prio, Eligible(obs, latlong), lo);
      if Eligible(obs, latlong)(prio[lo]) {
        assert here == [lo] + ix;
        forall k | 0 <= k < |here| ensures avail[k].name == prio[here[k]] {
          if k > 0 {
            assert avail[k] == avail[1..][k - 1];
          }
        }
      } else {
        assert here == ix && avail == rest;
      }
    }
  }

  /** No `coord_priority` entry naming a coordinate source with coordinates
      here is missing from `available_ll`. */
  lemma AvailableComplete(obs: Observations, prio: seq<string>, latlong: set<string>, k: nat)
    requires k < |prio| && prio[k] in latlong && HasCoordsAt(obs, prio[k])
    ensures exists i :: 0 <= i < |AvailableLatlong(obs, prio, latlong)| && AvailableLatlong(obs, prio, latlong)[i].name == prio[k]
  {
    AvailableInOrder(obs, prio, latlong, 0);
    assert prio[0..] == prio;
    var ix := Where(prio, Eligible(obs, latlong), 0);
    assert Eligible(obs, latlong)(prio[k]);
    var m :| 0 <= m < |ix| && ix[m] == k;
    assert AvailableLatlong(obs, prio, latlong)[m].name == prio[k];
  }

  ghost predicate SameCountry(avail: seq<CoordSource>)
  {
    forall i :: 0 <= i < |avail| ==> avail[i].cc == avail[0].cc
  }

  /** At least two `coord_priority` entries name a present coordinate source
      (a name listed twice counts twice), and all report one country. */
  ghost predicate UnanimousApplies(obs: Observations, latlong: set<string>, cfg: MergeConfig)
  {
    var avail := AvailableLatlong(obs, cfg.coordPriority, latlong);
    |avail| >= 2 && SameCountry(avail)
  }

  function Candidates(avail: seq<CoordSource>): (cs: seq<Center.Candidate>)
    ensures |cs| == |avail|
    ensures forall i :: 0 <= i < |cs| ==> cs[i] == Center.Candidate(avail[i].name, avail[i].lat, avail[i].lon)
  {
    seq(|avail|, i requires 0 <= i < |avail| => Center.Candidate(avail[i].name, avail[i].lat, avail[i].lon))
  }

  /** The unanimous stage: the agreed country with the center of the
      coordinate sources, which is one of them. */
  function UnanimousStage(obs: Observations, latlong: set<string>, cfg: MergeConfig, dist: Center.Distance): (r: Option<Decision>)
    ensures r.Some? <==> UnanimousApplies(obs, latlong, cfg)
    ensures r.Some? ==> (r.value.via.Unanimous? &&
      r.value.via.src in latlong && r.value.via.src in cfg.coordPriority &&
      Get(obs, r.value.via.src) == Some(WithCoords(r.value.country, r.value.lat, r.value.lon)))
  {
    var avail := AvailableLatlong(obs, cfg.coordPriority, latlong);
    if |avail| >= 2 && forall i :: 0 <= i < |avail| ==> avail[i].cc == avail[0].cc then
      var (lat, lon, src) := Center.PickCenterCoords(Candidates(avail), dist, cfg.threshold);
      var k := Center.CenterIndex(Candidates(avail), dist, cfg.threshold);
      assert (lat, lon, src) == (avail[k].lat, avail[k].lon, avail[k].name);
      Some(Decision(avail[0].cc, lat, lon, Unanimous(src)))
    else None
  }

  // ---------------------------------------------------------------------------
  // Stage 2: override rules
  // ---------------------------------------------------------------------------

  /** Every source of the rule is present and all report one country. */
  predicate RuleMatches(obs: Observations, rule: seq<string>)
  {
    |rule| >= 1 &&
    (forall i :: 0 <= i < |rule| ==> CountryOf(obs, rule[i]).Some?) &&
    (forall i :: 0 <= i < |rule| ==> CountryOf(obs, rule[i]) == CountryOf(obs, rule[0]))
  }

  /** The rule matches and a coordinate source reports its country. */
  predicate RuleFires(obs: Observations, cs: seq<CoordSource>, rule: seq<string>)
  {
    RuleMatches(obs, rule) && FindCoords(cs, CountryOf(obs, rule[0]).value).Some?
  }

  /** The decision a firing rule makes: its country, with the coordinates of
      the first coordinate source reporting that country. */
  function OverrideDecision(obs: Observations, cs: seq<CoordSource>, rule: seq<string>): (d: Decision)
    requires RuleFires(obs, cs, rule)
    ensures Some(d.country) == CountryOf(obs, rule[0])
    ensures d.via.Override? && d.via.rule == rule
    ensures FindCoords(cs, d.country) == Some((d.lat, d.lon, d.via.src))
  {
    var c := CountryOf(obs, rule[0]).value;
    var (lat, lon, src) := FindCoords(cs, c).value;
    Decision(c, lat, lon, Override(rule, src))
  }

  /** Rule `i` fires and no earlier rule does. */
  ghost predicate FirstFiring(obs: Observations, cs: seq<CoordSource>, rules: seq<seq<string>>, i: int)
  {
    0 <= i < |rules| && RuleFires(obs, cs, rules[i]) &&
    forall j :: 0 <= j < i ==> !RuleFires(obs, cs, rules[j])
  }

  /** The first rule, in configured order, that fires decides. */
  function OverrideStage(obs: Observations, cs: seq<CoordSource>, rules: seq<seq<string>>): (r: Option<Decision>)
    ensures r.None? <==> forall i :: 0 <= i < |rules| ==> !RuleFires(obs, cs, rules[i])
    ensures r.Some? ==> exists i :: FirstFiring(obs, cs, rules, i) && r.value == OverrideDecision(obs, cs, rules[i])
    ensures r.Some? ==> r.value.via.Override?
  {
    if rules == [] then None
    else
      var rest := OverrideStage(obs, cs, rules[1..]);
      assert forall i :: 1 <= i < |rules| ==> rules[i] == rules[1..][i - 1];
      if RuleFires(obs, cs, rules[0]) then
        assert FirstFiring(obs, cs, rules, 0);
        Some(OverrideDecision(obs, cs, rules[0]))
      else
        assert rest.Some? ==> exists i :: FirstFiring(obs, cs, rules, i) && rest.value == OverrideDecision(obs, cs, rules[i]) by {
          if rest.Some? {
            var i :| FirstFiring(obs, cs, rules[1..], i) && rest.value == OverrideDecision(obs, cs, rules[1..][i]);
            FirstFiringShift(obs, cs, rules, i);
          }
        }
        rest
  }

  /** A rule that fires first after a non-firing head fires first in the whole list. */
  lemma FirstFiringShift(obs: Observations, cs: seq<CoordSource>, rules: seq<seq<string>>, i: int)
    requires rules != [] && !RuleFires(obs, cs, rules[0]) && FirstFiring(obs, cs, rules[1..], i)
    ensures FirstFiring(obs, cs, rules, i + 1) && rules[i + 1] == rules[1..][i]
  {
    forall j | 0 <= j < i + 1 ensures !RuleFires(obs, cs, rules[j]) {
      if j > 0 {
        assert rules[j] == rules[1..][j - 1];
      }
    }
  }

  // ---------------------------------------------------------------------------
  // Stages 4 and 5: the vote
  // ---------------------------------------------------------------------------

  /** `tied`: the countries whose count equals the top count. */
  function TiedSet(top: seq<Votes.Entry>): set<string>
    requires top != []
  {
    set i | 0 <= i < |top| && top[i].1 == top[0].1 :: top[i].0
  }

  /** The priority source reports a tied country for which coordinates exist. */
  predicate TieEligible(obs: Observations, cs: seq<CoordSource>, tied: set<string>, name: string)
  {
    CountryOf(obs, name).Some? && CountryOf(obs, name).value in tied &&
    FindCoords(cs, CountryOf(obs, name).value).Some?
  }

  /** A vote for country `c`, with the coordinates of the first coordinate
      source reporting it. */
  function VoteDecision(cs: seq<CoordSource>, c: string): (d: Decision)
    requires FindCoords(cs, c).Some?
    ensures d.country == c && d.via.Vote?
    ensures FindCoords(cs, c) == Some((d.lat, d.lon, d.via.src))
  {
    var (lat, lon, src) := FindCoords(cs, c).value;
    Decision(c, lat, lon, Vote(src))
  }

  /** Priority source `i` is eligible and no earlier one is. */
  ghost predicate FirstEligible(obs: Observations, cs: seq<CoordSource>, tied: set<string>, prio: seq<string>, i: int)
  {
    0 <= i < |prio| && TieEligible(obs, cs, tied, prio[i]) &&
    forall j :: 0 <= j < i ==> !TieEligible(obs, cs, tied, prio[j])
  }

  /** The first `vote_priority` source that is eligible decides. */
  function TieStage(obs: Observations, cs: seq<CoordSource>, prio: seq<string>, tied: set<string>): (r: Option<Decision>)
    ensures r.None? <==> forall i :: 0 <= i < |prio| ==> !TieEligible(obs, cs, tied, prio[i])
    ensures r.Some? ==> exists i :: (FirstEligible(obs, cs, tied, prio, i) &&
      r.value == VoteDecision(cs, CountryOf(obs, prio[i]).value))
  {
    if prio == [] then None
    else
      var rest := TieStage(obs, cs, prio[1..], tied);
      assert forall i :: 1 <= i < |prio| ==> prio[i] == prio[1..][i - 1];
      if TieEligible(obs, cs, tied, prio[0]) then
        assert FirstEligible(obs, cs, tied, prio, 0);
        Some(VoteDecision(cs, CountryOf(obs, prio[0]).value))
      else
        assert rest.Some? ==> exists i :: (FirstEligible(obs, cs, tied, prio, i) &&
          rest.value == VoteDecision(cs, CountryOf(obs, prio[i]).value)) by {
          if rest.Some? {
            var i :| FirstEligible(obs, cs, tied, prio[1..], i) &&
              rest.value == VoteDecision(cs, CountryOf(obs, prio[1..][i]).value);
            FirstEligibleShift(obs, cs, tied, prio, i);
          }
        }
        rest
  }

  lemma FirstEligibleShift(obs: Observations, cs: seq<CoordSource>, tied: set<string>, prio: seq<string>, i: int)
    requires prio != [] && !TieEligible(obs, cs, tied, prio[0]) && FirstEligible(obs, cs, tied, prio[1..], i)
    ensures FirstEligible(obs, cs, tied, prio, i + 1) && prio[i + 1] == prio[1..][i]
  {
    forall j | 0 <= j < i + 1 ensures !TieEligible(obs, cs, tied, prio[j]) {
      if j > 0 {
        assert prio[j] == prio[1..][j - 1];
      }
    }
  }

  /** Ranked country `k` has coordinates and no higher-ranked one does. */
  ghost predicate FirstWithCoords(cs: seq<CoordSource>, top: seq<Votes.Entry>, k: int)
  {
    0 <= k < |top| && FindCoords(cs, top[k].0).Some? &&
    forall j :: 0 <= j < k ==> FindCoords(cs, top[j].0).None?
  }

  lemma FirstWithCoordsShift(cs: seq<CoordSource>, top: seq<Votes.Entry>, k: int)
    requires top != [] && FindCoords(cs, top[0].0).None? && FirstWithCoords(cs, top[1..], k)
    ensures FirstWithCoords(cs, top, k + 1) && top[k + 1] == top[1..][k]
  {
    assert top[k + 1] == top[1..][k];
    forall j | 0 <= j < k + 1 ensures FindCoords(cs, top[j].0).None? {
      if j > 0 {
        assert top[j] == top[1..][j - 1] && FindCoords(cs, top[1..][j - 1].0).None?;
      }
    }
  }

  /** Walking the ranking, the first country with coordinates decides. */
  function RankStage(cs: seq<CoordSource>, top: seq<Votes.Entry>): (r: Option<Decision>)
    ensures r.None? <==> forall k :: 0 <= k < |top| ==> FindCoords(cs, top[k].0).None?
    ensures r.Some? ==> exists k :: FirstWithCoords(cs, top, k) && r.value == VoteDecision(cs, top[k].0)
  {
    if top == [] then None
    else
      var rest := RankStage(cs, top[1..]);
      assert forall k :: 1 <= k < |top| ==> top[k] == top[1..][k - 1];
      if FindCoords(cs, top[0].0).Some? then
        assert FirstWithCoords(cs, top, 0);
        Some(VoteDecision(cs, top[0].0))
      else
        assert rest.Some? ==> exists k :: FirstWithCoords(cs, top, k) && rest.value == VoteDecision(cs, top[k].0) by {
          if rest.Some? {
            var k :| FirstWithCoords(cs, top[1..], k) && rest.value == VoteDecision(cs, top[1..][k].0);
            FirstWithCoordsShift(cs, top, k);
          }
        }
        rest
  }


  // ---------------------------------------------------------------------------
  // The whole procedure
  // ---------------------------------------------------------------------------

  /** `votes.most_common()` over the reported countries. */
  function Ranking(obs: Observations): (top: seq<Votes.Entry>)
    ensures |top| == |Votes.Tally(Reported(obs))|
  {
    Votes.MostCommon(Votes.Tally(Reported(obs)))
  }

  /** Two or more entries and the first two counts equal. */
  predicate TopTied(top: seq<Votes.Entry>)
  {
    |top| >= 2 && top[0].1 == top[1].1
  }

  /** The vote: no `coord_sources` at all, a tie broken by vote priority, the
      walk down the ranking, or no match; the country is always a ranked one. */
  function VoteStage(obs: Observations, cs: seq<CoordSource>, prio: seq<string>, top: seq<Votes.Entry>): (d: Decision)
    requires top != []
    ensures d.via.Vote? || d.via.NoCoords? || d.via.NoMatch?
    ensures d.via.NoCoords? <==> cs == []
    ensures d.via.NoMatch? <==> cs != [] && forall k :: 0 <= k < |top| ==> FindCoords(cs, top[k].0).None?
    ensures d.via.NoCoords? || d.via.NoMatch? ==> d.country == top[0].0 && d.lat == "0" && d.lon == "0"
    ensures d.via.Vote? ==> FindCoords(cs, d.country) == Some((d.lat, d.lon, d.via.src))
    ensures exists k :: 0 <= k < |top| && top[k].0 == d.country
  {
    if cs == [] then Decision(top[0].0, "0", "0", NoCoords)
    else
      var tie := if TopTied(top) then TieStage(obs, cs, prio, TiedSet(top)) else None;
      if tie.Some? then
        assert exists k :: 0 <= k < |top| && top[k].0 == tie.value.country by {
          var i :| FirstEligible(obs, cs, TiedSet(top), prio, i) &&
            tie.value == VoteDecision(cs, CountryOf(obs, prio[i]).value);
        }
        tie.value
      else
        var ranked := RankStage(cs, top);
        if ranked.Some? then
          assert exists k :: 0 <= k < |top| && top[k].0 == ranked.value.country by {
            var k :| FirstWithCoords(cs, top, k) && ranked.value == VoteDecision(cs, top[k].0);
          }
          ranked.value
        else
          Decision(top[0].0, "0", "0", NoMatch)
  }

  /** `pick_winner`: nothing when no source has data, otherwise the first
      stage that decides. */
  function PickWinner(obs: Observations, latlong: set<string>, cfg: MergeConfig, dist: Center.Distance): Option<Decision>
  {
    var reported := Reported(obs);
    if reported == [] then None
    else
      var unanimous := UnanimousStage(obs, latlong, cfg, dist);
      if unanimous.Some? then unanimous
      else
        var cs := CoordSources(obs, cfg.coordPriority);
        var overridden := OverrideStage(obs, cs, cfg.overrides);
        if overridden.Some? then overridden
        else
          var top := Ranking(obs);
          assert top != [] by { TallyNonEmpty(reported); }
          Some(VoteStage(obs, cs, cfg.votePriority, top))
  }

  lemma TallyNonEmpty(s: seq<string>)
    requires s != []
    ensures Votes.Tally(s) != []
  {
    Votes.TallyHas(s, s[0]);
  }

  // ---------------------------------------------------------------------------
  // What the decision means
  // ---------------------------------------------------------------------------

  /** The named source reports coordinates. */
  predicate HasCoordsAt(obs: Observations, name: string)
  {
    Get(obs, name).Some? && Get(obs, name).value.WithCoords?
  }

  /** `src` is the first coordinate-priority name reporting coordinates for `c`. */
  ghost predicate FirstCoordsSource(obs: Observations, prio: seq<string>, c: string, src: string)
  {
    exists k :: 0 <= k < |prio| && prio[k] == src && HasCoordsFor(obs, src, c) &&
      forall j :: 0 <= j < k ==> !HasCoordsFor(obs, prio[j], c)
  }

  /** `c` has the most votes among the reported countries `s`, and is the
      earliest reported among those with as many. */
  ghost predicate IsPlurality(s: seq<string>, c: string)
  {
    c in s &&
    (forall x :: x in s ==> Votes.Occurrences(s, x) <= Votes.Occurrences(s, c)) &&
    (forall x :: x in s && Votes.Occurrences(s, x) == Votes.Occurrences(s, c) ==>
      Votes.FirstIndex(s, c) <= Votes.FirstIndex(s, x))
  }

  /** Neither the unanimous stage nor an override decided, and some
      coordinate source reports coordinates: the vote decides. */
  ghost predicate ReachesVote(obs: Observations, latlong: set<string>, cfg: MergeConfig)
  {
    !UnanimousApplies(obs, latlong, cfg) &&
    (forall i :: 0 <= i < |cfg.overrides| ==> !RuleFires(obs, CoordSources(obs, cfg.coordPriority), cfg.overrides[i])) &&
    CoordSources(obs, cfg.coordPriority) != []
  }

  /** A present source's country is among the reported countries. */
  lemma {:induction false} GetReported(obs: Observations, name: string)
    requires Get(obs, name).Some?
    ensures Get(obs, name).value.cc in Reported(obs)
  {
    if obs[0].0 != name {
      GetReported(obs[1..], name);
    }
  }

  /** The coordinate sources are empty exactly when no coordinate-priority
      name reports coordinates. */
  lemma {:induction false} CoordSourcesEmpty(obs: Observations, prio: seq<string>)
    ensures CoordSources(obs, prio) == [] <==> forall k :: 0 <= k < |prio| ==> !HasCoordsAt(obs, prio[k])
  {
    if prio != [] {
      CoordSourcesEmpty(obs, prio[1..]);
      assert forall k :: 1 <= k < |prio| ==> prio[k] == prio[1..][k - 1];
    }
  }

  /** A coordinate source with data means some country is reported. */
  lemma CoordsMeanReported(obs: Observations, prio: seq<string>)
    requires CoordSources(obs, prio) != []
    ensures Reported(obs) != []
  {
    CoordSourcesEmpty(obs, prio);
    var k :| 0 <= k < |prio| && HasCoordsAt(obs, prio[k]);
    GetReported(obs, prio[k]);
  }

  /** A present coordinate source in priority order reports coordinates that
      `find_coords` finds for its country, and that country is reported. */
  lemma AvailableHasCoords(obs: Observations, prio: seq<string>, latlong: set<string>, i: nat)
    requires i < |AvailableLatlong(obs, prio, latlong)|
    ensures var a := AvailableLatlong(obs, prio, latlong)[i];
      FindCoords(CoordSources(obs, prio), a.cc).Some? && a.cc in Reported(obs)
  {
    var a := AvailableLatlong(obs, prio, latlong)[i];
    FindCoordsByPriority(obs, prio, a.cc);
    var k :| 0 <= k < |prio| && prio[k] == a.name;
    assert HasCoordsFor(obs, prio[k], a.cc);
    GetReported(obs, a.name);
  }

  /** No decision exactly when no source has data at the point. */
  lemma PickWinnerNone(obs: Observations, latlong: set<string>, cfg: MergeConfig, dist: Center.Distance)
    ensures PickWinner(obs, latlong, cfg, dist).None? <==> forall i :: 0 <= i < |obs| ==> obs[i].1.None?
  {
  }

  /** The winning country is one that a present source reports. */
  lemma WinnerReported(obs: Observations, latlong: set<string>, cfg: MergeConfig, dist: Center.Distance)
    requires PickWinner(obs, latlong, cfg, dist).Some?
    ensures var d := PickWinner(obs, latlong, cfg, dist).value;
      d.country in Reported(obs) &&
      exists i :: 0 <= i < |obs| && obs[i].1.Some? && obs[i].1.value.cc == d.country
  {
    var d := PickWinner(obs, latlong, cfg, dist).value;
    var cs := CoordSources(obs, cfg.coordPriority);
    if UnanimousStage(obs, latlong, cfg, dist).Some? {
      GetReported(obs, d.via.src);
    } else if OverrideStage(obs, cs, cfg.overrides).Some? {
      var i :| FirstFiring(obs, cs, cfg.overrides, i) && d == OverrideDecision(obs, cs, cfg.overrides[i]);
      GetReported(obs, cfg.overrides[i][0]);
    } else {
      var top := Ranking(obs);
      var k :| 0 <= k < |top| && top[k].0 == d.country;
      Votes.RankedEntry(Reported(obs), k);
    }
    ReportedBySource(obs, d.country);
  }

  /** Where the coordinates come from: a source reporting them for the
      winning country; outside the unanimous stage, the first such source in
      coordinate-priority order. Without one they are "0", "0". */
  lemma CoordsProvenance(obs: Observations, latlong: set<string>, cfg: MergeConfig, dist: Center.Distance)
    requires PickWinner(obs, latlong, cfg, dist).Some?
    ensures var d := PickWinner(obs, latlong, cfg, dist).value;
      (d.via.NoCoords? || d.via.NoMatch? ==> d.lat == "0" && d.lon == "0") &&
      (!d.via.NoCoords? && !d.via.NoMatch? ==> Get(obs, d.via.src) == Some(WithCoords(d.country, d.lat, d.lon))) &&
      (d.via.Unanimous? ==> d.via.src in latlong && d.via.src in cfg.coordPriority) &&
      (d.via.Override? || d.via.Vote? ==> FirstCoordsSource(obs, cfg.coordPriority, d.country, d.via.src))
  {
    var d := PickWinner(obs, latlong, cfg, dist).value;
    var cs := CoordSources(obs, cfg.coordPriority);
    var unanimous := UnanimousStage(obs, latlong, cfg, dist);
    if unanimous.Some? {
      assert d == unanimous.value;
    } else {
      var overridden := OverrideStage(obs, cs, cfg.overrides);
      if overridden.Some? {
        assert d == overridden.value;
        var i :| FirstFiring(obs, cs, cfg.overrides, i) && d == OverrideDecision(obs, cs, cfg.overrides[i]);
        FoundIsFirst(obs, cfg.coordPriority, d.country, d.lat, d.lon, d.via.src);
      } else {
        TallyNonEmpty(Reported(obs));
        assert d == VoteStage(obs, cs, cfg.votePriority, Ranking(obs));
        if d.via.Vote? {
          FoundIsFirst(obs, cfg.coordPriority, d.country, d.lat, d.lon, d.via.src);
        }
      }
    }
  }

  /** What `find_coords` returns names the first coordinate-priority source
      with coordinates for the country, and those are its coordinates. */
  lemma FoundIsFirst(obs: Observations, prio: seq<string>, c: string, lat: string, lon: string, src: string)
    requires FindCoords(CoordSources(obs, prio), c) == Some((lat, lon, src))
    ensures Get(obs, src) == Some(WithCoords(c, lat, lon)) && FirstCoordsSource(obs, prio, c, src)
  {
    FindCoordsByPriority(obs, prio, c);
  }

  /** The unanimous stage decides exactly when at least two `coord_priority`
      entries name present coordinate sources that agree on the country; its decision depends on nothing
      but those sources and the threshold, not on override rules or votes. */
  lemma UnanimousDecides(obs: Observations, latlong: set<string>, cfg: MergeConfig, dist: Center.Distance)
    ensures (PickWinner(obs, latlong, cfg, dist).Some? && PickWinner(obs, latlong, cfg, dist).value.via.Unanimous?) <==>
      UnanimousApplies(obs, latlong, cfg)
    ensures UnanimousApplies(obs, latlong, cfg) ==>
      var avail := AvailableLatlong(obs, cfg.coordPriority, latlong);
      var (lat, lon, src) := Center.PickCenterCoords(Candidates(avail), dist, cfg.threshold);
      PickWinner(obs, latlong, cfg, dist) == Some(Decision(avail[0].cc, lat, lon, Unanimous(src)))
  {
    if UnanimousApplies(obs, latlong, cfg) {
      UnanimousWins(obs, latlong, cfg, dist);
      UnanimousStageValue(obs, latlong, cfg, dist);
    } else {
      NotUnanimous(obs, latlong, cfg, dist);
    }
  }

  lemma UnanimousWins(obs: Observations, latlong: set<string>, cfg: MergeConfig, dist: Center.Distance)
    requires UnanimousApplies(obs, latlong, cfg)
    ensures PickWinner(obs, latlong, cfg, dist) == UnanimousStage(obs, latlong, cfg, dist)
  {
    AvailableHasCoords(obs, cfg.coordPriority, latlong, 0);
    assert Reported(obs) != [];
  }

  lemma UnanimousStageValue(obs: Observations, latlong: set<string>, cfg: MergeConfig, dist: Center.Distance)
    requires UnanimousApplies(obs, latlong, cfg)
    ensures var avail := AvailableLatlong(obs, cfg.coordPriority, latlong);
      var (lat, lon, src) := Center.PickCenterCoords(Candidates(avail), dist, cfg.threshold);
      UnanimousStage(obs, latlong, cfg, dist) == Some(Decision(avail[0].cc, lat, lon, Unanimous(src)))
  {
  }

  lemma NotUnanimous(obs: Observations, latlong: set<string>, cfg: MergeConfig, dist: Center.Distance)
    requires !UnanimousApplies(obs, latlong, cfg)
    ensures PickWinner(obs, latlong, cfg, dist).Some? ==> !PickWinner(obs, latlong, cfg, dist).value.via.Unanimous?
  {
    if Reported(obs) != [] {
      assert UnanimousStage(obs, latlong, cfg, dist).None?;
      var cs := CoordSources(obs, cfg.coordPriority);
      var overridden := OverrideStage(obs, cs, cfg.overrides);
      if overridden.Some? {
        assert PickWinner(obs, latlong, cfg, dist) == overridden;
      } else {
        TallyNonEmpty(Reported(obs));
        assert PickWinner(obs, latlong, cfg, dist) == Some(VoteStage(obs, cs, cfg.votePriority, Ranking(obs)));
      }
    }
  }

  /** Unless the unanimous stage decided, the first override rule that fires
      decides; an override decides only then. */
  lemma OverrideDecides(obs: Observations, latlong: set<string>, cfg: MergeConfig, dist: Center.Distance)
    ensures var cs := CoordSources(obs, cfg.coordPriority);
      (PickWinner(obs, latlong, cfg, dist).Some? && PickWinner(obs, latlong, cfg, dist).value.via.Override?) <==>
      (!UnanimousApplies(obs, latlong, cfg) && exists i :: 0 <= i < |cfg.overrides| && RuleFires(obs, cs, cfg.overrides[i]))
    ensures var cs := CoordSources(obs, cfg.coordPriority);
      forall i :: !UnanimousApplies(obs, latlong, cfg) && FirstFiring(obs, cs, cfg.overrides, i) ==>
        PickWinner(obs, latlong, cfg, dist) == Some(OverrideDecision(obs, cs, cfg.overrides[i]))
  {
    var cs := CoordSources(obs, cfg.coordPriority);
    var r := OverrideStage(obs, cs, cfg.overrides);
    if r.Some? {
      var i :| FirstFiring(obs, cs, cfg.overrides, i) && r.value == OverrideDecision(obs, cs, cfg.overrides[i]);
      GetReported(obs, cfg.overrides[i][0]);
      forall j | FirstFiring(obs, cs, cfg.overrides, j) ensures j == i {
      }
    }
  }

  /** When no `coord_priority` source reports coordinates, and only then, the
      plurality country wins with coordinates "0", "0". */
  lemma NoCoordsDecides(obs: Observations, latlong: set<string>, cfg: MergeConfig, dist: Center.Distance)
    ensures (PickWinner(obs, latlong, cfg, dist).Some? && PickWinner(obs, latlong, cfg, dist).value.via.NoCoords?) <==>
      (Reported(obs) != [] && forall k :: 0 <= k < |cfg.coordPriority| ==> !HasCoordsAt(obs, cfg.coordPriority[k]))
    ensures PickWinner(obs, latlong, cfg, dist).Some? && PickWinner(obs, latlong, cfg, dist).value.via.NoCoords? ==>
      var d := PickWinner(obs, latlong, cfg, dist).value;
      IsPlurality(Reported(obs), d.country) && d.lat == "0" && d.lon == "0"
  {
    if PickWinner(obs, latlong, cfg, dist).Some? && PickWinner(obs, latlong, cfg, dist).value.via.NoCoords? {
      NoCoordsOnly(obs, latlong, cfg, dist);
    }
    if Reported(obs) != [] && forall k :: 0 <= k < |cfg.coordPriority| ==> !HasCoordsAt(obs, cfg.coordPriority[k]) {
      NoCoordsWhen(obs, latlong, cfg, dist);
    }
  }

  lemma NoCoordsOnly(obs: Observations, latlong: set<string>, cfg: MergeConfig, dist: Center.Distance)
    requires PickWinner(obs, latlong, cfg, dist).Some? && PickWinner(obs, latlong, cfg, dist).value.via.NoCoords?
    ensures Reported(obs) != [] && forall k :: 0 <= k < |cfg.coordPriority| ==> !HasCoordsAt(obs, cfg.coordPriority[k])
    ensures var d := PickWinner(obs, latlong, cfg, dist).value;
      IsPlurality(Reported(obs), d.country) && d.lat == "0" && d.lon == "0"
  {
    var cs := CoordSources(obs, cfg.coordPriority);
    assert UnanimousStage(obs, latlong, cfg, dist).None?;
    assert OverrideStage(obs, cs, cfg.overrides).None?;
    assert PickWinner(obs, latlong, cfg, dist).value == VoteStage(obs, cs, cfg.votePriority, Ranking(obs));
    CoordSourcesEmpty(obs, cfg.coordPriority);
    Votes.Plurality(Reported(obs));
  }

  lemma NoCoordsWhen(obs: Observations, latlong: set<string>, cfg: MergeConfig, dist: Center.Distance)
    requires Reported(obs) != [] && forall k :: 0 <= k < |cfg.coordPriority| ==> !HasCoordsAt(obs, cfg.coordPriority[k])
    ensures PickWinner(obs, latlong, cfg, dist).Some? && PickWinner(obs, latlong, cfg, dist).value.via.NoCoords?
  {
    var prio := cfg.coordPriority;
    var cs := CoordSources(obs, prio);
    CoordSourcesEmpty(obs, prio);
    assert cs == [];
    var avail := AvailableLatlong(obs, prio, latlong);
    if |avail| > 0 {
      AvailableHasCoords(obs, prio, latlong, 0);
    }
    assert UnanimousStage(obs, latlong, cfg, dist).None?;
    assert OverrideStage(obs, cs, cfg.overrides).None?;
  }

  /** When coordinate sources report coordinates but none for any reported
      country, and only then, the plurality country wins with coordinates
      "0", "0". */
  lemma NoMatchDecides(obs: Observations, latlong: set<string>, cfg: MergeConfig, dist: Center.Distance)
    ensures (PickWinner(obs, latlong, cfg, dist).Some? && PickWinner(obs, latlong, cfg, dist).value.via.NoMatch?) <==>
      NothingMatches(obs, cfg.coordPriority)
    ensures PickWinner(obs, latlong, cfg, dist).Some? && PickWinner(obs, latlong, cfg, dist).value.via.NoMatch? ==>
      var d := PickWinner(obs, latlong, cfg, dist).value;
      IsPlurality(Reported(obs), d.country) && d.lat == "0" && d.lon == "0"
  {
    if PickWinner(obs, latlong, cfg, dist).Some? && PickWinner(obs, latlong, cfg, dist).value.via.NoMatch? {
      NoMatchOnly(obs, latlong, cfg, dist);
    }
    if NothingMatches(obs, cfg.coordPriority) {
      NoMatchWhen(obs, latlong, cfg, dist);
    }
  }

  /** Some source is reported and some coordinate source reports coordinates,
      but none for a reported country. */
  ghost predicate NothingMatches(obs: Observations, prio: seq<string>)
  {
    Reported(obs) != [] && CoordSources(obs, prio) != [] &&
    forall c, k :: c in Reported(obs) && 0 <= k < |prio| ==> !HasCoordsFor(obs, prio[k], c)
  }

  lemma NoMatchOnly(obs: Observations, latlong: set<string>, cfg: MergeConfig, dist: Center.Distance)
    requires PickWinner(obs, latlong, cfg, dist).Some? && PickWinner(obs, latlong, cfg, dist).value.via.NoMatch?
    ensures NothingMatches(obs, cfg.coordPriority)
    ensures var d := PickWinner(obs, latlong, cfg, dist).value;
      IsPlurality(Reported(obs), d.country) && d.lat == "0" && d.lon == "0"
  {
    var prio := cfg.coordPriority;
    var cs := CoordSources(obs, prio);
    var s := Reported(obs);
    var top := Ranking(obs);
    assert UnanimousStage(obs, latlong, cfg, dist).None?;
    assert OverrideStage(obs, cs, cfg.overrides).None?;
    assert PickWinner(obs, latlong, cfg, dist).value == VoteStage(obs, cs, cfg.votePriority, top);
    forall c, k | c in s && 0 <= k < |prio| ensures !HasCoordsFor(obs, prio[k], c) {
      Votes.RankedHas(s, c);
      FindCoordsByPriority(obs, prio, c);
    }
    Votes.Plurality(s);
  }

  lemma NoMatchWhen(obs: Observations, latlong: set<string>, cfg: MergeConfig, dist: Center.Distance)
    requires NothingMatches(obs, cfg.coordPriority)
    ensures PickWinner(obs, latlong, cfg, dist).Some? && PickWinner(obs, latlong, cfg, dist).value.via.NoMatch?
  {
    var prio := cfg.coordPriority;
    var cs := CoordSources(obs, prio);
    var s := Reported(obs);
    var avail := AvailableLatlong(obs, prio, latlong);
    if |avail| > 0 {
      AvailableHasCoords(obs, prio, latlong, 0);
      FindCoordsByPriority(obs, prio, avail[0].cc);
    }
    assert UnanimousStage(obs, latlong, cfg, dist).None?;
    var r := OverrideStage(obs, cs, cfg.overrides);
    if r.Some? {
      var i :| FirstFiring(obs, cs, cfg.overrides, i) && r.value == OverrideDecision(obs, cs, cfg.overrides[i]);
      GetReported(obs, cfg.overrides[i][0]);
      FindCoordsByPriority(obs, prio, CountryOf(obs, cfg.overrides[i][0]).value);
    }
    var top := Ranking(obs);
    forall k | 0 <= k < |top| ensures FindCoords(cs, top[k].0).None? {
      Votes.RankedEntry(s, k);
      FindCoordsByPriority(obs, prio, top[k].0);
    }
  }

  /** The tied countries are those with the largest number of votes. */
  lemma TiedAreMostVoted(obs: Observations)
    requires Reported(obs) != []
    ensures var s := Reported(obs); var top := Ranking(obs);
      top != [] && top[0].1 == Votes.Occurrences(s, top[0].0) &&
      (forall x :: x in s ==> Votes.Occurrences(s, x) <= top[0].1) &&
      (forall c :: c in TiedSet(top) <==> c in s && Votes.Occurrences(s, c) == top[0].1)
  {
    var s := Reported(obs);
    var top := Ranking(obs);
    TallyNonEmpty(s);
    Votes.Plurality(s);
    Votes.RankedEntry(s, 0);
    forall c ensures c in TiedSet(top) <==> c in s && Votes.Occurrences(s, c) == top[0].1 {
      if c in TiedSet(top) {
        var i :| 0 <= i < |top| && top[i].1 == top[0].1 && top[i].0 == c;
        Votes.RankedEntry(s, i);
      }
      if c in s && Votes.Occurrences(s, c) == top[0].1 {
        Votes.RankedHas(s, c);
        var k :| 0 <= k < |top| && top[k].0 == c;
        Votes.RankedEntry(s, k);
      }
    }
  }

  /** In a tie for the most votes, once the vote is reached, the first
      `vote_priority` source reporting a tied country with coordinates
      decides. */
  lemma TieDecides(obs: Observations, latlong: set<string>, cfg: MergeConfig, dist: Center.Distance, i: nat)
    requires ReachesVote(obs, latlong, cfg) && TopTied(Ranking(obs))
    requires FirstEligible(obs, CoordSources(obs, cfg.coordPriority), TiedSet(Ranking(obs)), cfg.votePriority, i)
    ensures PickWinner(obs, latlong, cfg, dist) ==
      Some(VoteDecision(CoordSources(obs, cfg.coordPriority), CountryOf(obs, cfg.votePriority[i]).value))
  {
    var cs := CoordSources(obs, cfg.coordPriority);
    var top := Ranking(obs);
    var prio := cfg.votePriority;
    ReachesVoteStage(obs, latlong, cfg, dist);
    TieStageFirst(obs, cs, prio, TiedSet(top), i);
    assert VoteStage(obs, cs, prio, top) == VoteDecision(cs, CountryOf(obs, prio[i]).value);
  }

  /** The tie stage returns the vote of the first eligible priority source. */
  lemma TieStageFirst(obs: Observations, cs: seq<CoordSource>, prio: seq<string>, tied: set<string>, i: nat)
    requires FirstEligible(obs, cs, tied, prio, i)
    ensures TieStage(obs, cs, prio, tied) == Some(VoteDecision(cs, CountryOf(obs, prio[i]).value))
  {
    var r := TieStage(obs, cs, prio, tied);
    assert r.Some?;
    var j :| FirstEligible(obs, cs, tied, prio, j) && r.value == VoteDecision(cs, CountryOf(obs, prio[j]).value);
    assert j == i;
  }

  /** Once the earlier stages have not decided, the vote decides. */
  lemma ReachesVoteStage(obs: Observations, latlong: set<string>, cfg: MergeConfig, dist: Center.Distance)
    requires ReachesVote(obs, latlong, cfg)
    ensures Ranking(obs) != []
    ensures PickWinner(obs, latlong, cfg, dist) ==
      Some(VoteStage(obs, CoordSources(obs, cfg.coordPriority), cfg.votePriority, Ranking(obs)))
  {
    CoordsMeanReported(obs, cfg.coordPriority);
    TallyNonEmpty(Reported(obs));
    assert OverrideStage(obs, CoordSources(obs, cfg.coordPriority), cfg.overrides).None?;
  }

  /** Otherwise the highest-ranked country for which a coordinate source
      reports coordinates wins. */
  lemma RankDecides(obs: Observations, latlong: set<string>, cfg: MergeConfig, dist: Center.Distance, k: nat)
    requires ReachesVote(obs, latlong, cfg)
    requires TopTied(Ranking(obs)) ==> forall i :: 0 <= i < |cfg.votePriority| ==>
      !TieEligible(obs, CoordSources(obs, cfg.coordPriority), TiedSet(Ranking(obs)), cfg.votePriority[i])
    requires FirstWithCoords(CoordSources(obs, cfg.coordPriority), Ranking(obs), k)
    ensures PickWinner(obs, latlong, cfg, dist) == Some(VoteDecision(CoordSources(obs, cfg.coordPriority), Ranking(obs)[k].0))
  {
    ReachesVoteStage(obs, latlong, cfg, dist);
    VoteStageRanks(obs, CoordSources(obs, cfg.coordPriority), cfg.votePriority, Ranking(obs), k);
  }

  lemma VoteStageRanks(obs: Observations, cs: seq<CoordSource>, prio: seq<string>, top: seq<Votes.Entry>, k: nat)
    requires cs != [] && FirstWithCoords(cs, top, k)
    requires TopTied(top) ==> forall i :: 0 <= i < |prio| ==> !TieEligible(obs, cs, TiedSet(top), prio[i])
    ensures VoteStage(obs, cs, prio, top) == VoteDecision(cs, top[k].0)
  {
    var r := RankStage(cs, top);
    var m :| FirstWithCoords(cs, top, m) && r.value == VoteDecision(cs, top[m].0);
    assert m == k;
  }

  /** No country ranked above the first with coordinates, and so none with
      more votes than it, has coordinates from any `coord_priority` source. */
  lemma RankedAboveHasNoCoords(obs: Observations, prio: seq<string>, k: nat)
    requires FirstWithCoords(CoordSources(obs, prio), Ranking(obs), k)
    ensures var s := Reported(obs); var w := Ranking(obs)[k].0;
      forall c, j :: c in s && Votes.Occurrences(s, c) > Votes.Occurrences(s, w) && 0 <= j < |prio| ==>
        !HasCoordsFor(obs, prio[j], c)
  {
    var cs := CoordSources(obs, prio);
    var top := Ranking(obs);
    var s := Reported(obs);
    Votes.RankedEntry(s, k);
    forall c, j | c in s && Votes.Occurrences(s, c) > Votes.Occurrences(s, top[k].0) && 0 <= j < |prio|
      ensures !HasCoordsFor(obs, prio[j], c)
    {
      Votes.RankedHas(s, c);
      var n :| 0 <= n < |top| && top[n].0 == c;
      Votes.RankedEntry(s, n);
      RankOrder(top, k, n);
      assert FindCoords(cs, c).None?;
      FindCoordsByPriority(obs, prio, c);
    }
  }

  /** In a non-increasing ranking a larger count comes first. */
  lemma RankOrder(top: seq<Votes.Entry>, k: nat, n: nat)
    requires Votes.NonIncreasing(top) && k < |top| && n < |top| && top[n].1 > top[k].1
    ensures n < k
  {
  }
}
