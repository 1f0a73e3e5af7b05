/**
 Trails through a directed multigraph, and their breadth-first enumeration level by level.

 Both graph analyses of the repository (network reachability and delegation reachability) walk such a
 graph with a queue. A trail records the positions of its arcs, so two parallel arcs give two trails.
 */
module SimplePaths {
  import opened Wrappers

  datatype Arc = Arc(from: string, to: string)

  /** The empty trail, or a trail prolonged by the arc at a position. */
  datatype Trail = Start | Then(prefix: Trail, arc: nat)

  /** What is asked: where to start, which stop ends a trail (if any), and how many arcs are allowed (if limited). */
  datatype Query = Query(start: string, target: Option<string>, depth: Option<int>)

  // ---------------------------------------------------------------- trails

  function Length(t: Trail): nat {
    match t
    case Start => 0
    case Then(prefix, _) => Length(prefix) + 1
  }

  /** The positions of the arcs, first to last. */
  function Arcs(t: Trail): (arcs: seq<nat>)
    ensures |arcs| == Length(t)
  {
    match t
    case Start => []
    case Then(prefix, arc) => Arcs(prefix) + [arc]
  }

  /** The stop where a trail ends: the start, or the head of its last arc. */
  function End(arcs: seq<Arc>, start: string, t: Trail): string {
    if t.Start? || t.arc >= |arcs| then start else arcs[t.arc].to
  }

  /** All stops of a trail, the start first. */
  function Stops(arcs: seq<Arc>, start: string, t: Trail): (stops: seq<string>)
    ensures |stops| == Length(t) + 1
    ensures stops[Length(t)] == End(arcs, start, t)
  {
    match t
    case Start => [start]
    case Then(prefix, _) => Stops(arcs, start, prefix) + [End(arcs, start, t)]
  }

  /** Each arc leaves the stop its predecessor reached; stops may repeat. */
  predicate IsWalk(arcs: seq<Arc>, start: string, t: Trail) {
    match t
    case Start => true
    case Then(prefix, arc) => IsWalk(arcs, start, prefix) && arc < |arcs| && arcs[arc].from == End(arcs, start, prefix)
  }

  /** A walk that never comes back to one of its stops. */
  ghost predicate IsSimple(arcs: seq<Arc>, start: string, t: Trail) {
    IsWalk(arcs, start, t) && Distinct(Stops(arcs, start, t))
  }

  /** Arcs by position, each from one of the stops to the next. */
  ghost predicate IsChain(arcs: seq<Arc>, ks: seq<nat>, stops: seq<string>) {
    && |stops| == |ks| + 1
    && forall i :: 0 <= i < |ks| ==> ks[i] < |arcs| && arcs[ks[i]] == Arc(stops[i], stops[i + 1])
  }

  /** A walk is a chain of arcs from the start. */
  lemma {:induction false} WalkIsChain(arcs: seq<Arc>, start: string, t: Trail)
    ensures IsWalk(arcs, start, t) <==> IsChain(arcs, Arcs(t), Stops(arcs, start, t))
    ensures Stops(arcs, start, t)[0] == start
  {
    if t.Then? {
      WalkIsChain(arcs, start, t.prefix);
      var ks, stops := Arcs(t), Stops(arcs, start, t);
      var before := Stops(arcs, start, t.prefix);
      assert forall i :: 0 <= i < |before| ==> stops[i] == before[i];
      assert forall i :: 0 <= i < |ks| - 1 ==> ks[i] == Arcs(t.prefix)[i];
      assert stops[|ks| - 1] == End(arcs, start, t.prefix) && stops[|ks|] == End(arcs, start, t)
             && ks[|ks| - 1] == t.arc;
      if IsChain(arcs, ks, stops) {
        assert arcs[ks[|ks| - 1]] == Arc(stops[|ks| - 1], stops[|ks|]);
        forall i | 0 <= i < |ks| - 1
          ensures Arcs(t.prefix)[i] < |arcs| && arcs[Arcs(t.prefix)[i]] == Arc(before[i], before[i + 1])
        {
          assert arcs[ks[i]] == Arc(stops[i], stops[i + 1]);
        }
      }
    }
  }

  /** Every chain of arcs is a walk. */
  lemma {:induction false} WalkOfChain(arcs: seq<Arc>, ks: seq<nat>, stops: seq<string>) returns (t: Trail)
    requires IsChain(arcs, ks, stops)
    ensures Arcs(t) == ks && Stops(arcs, stops[0], t) == stops && IsWalk(arcs, stops[0], t)
  {
    if ks == [] {
      t := Start;
      assert stops == [stops[0]];
    } else {
      var n := |ks| - 1;
      var before := WalkOfChain(arcs, ks[..n], stops[..n + 1]);
      t := Then(before, ks[n]);
      assert ks == ks[..n] + [ks[n]] && stops == stops[..n + 1] + [stops[n + 1]];
      assert arcs[ks[n]] == Arc(stops[n], stops[n + 1]);
    }
  }

  lemma {:induction false} SameArcsSameTrail(t: Trail, u: Trail)
    requires Arcs(t) == Arcs(u)
    ensures t == u
  {
    if t.Then? && u.Then? {
      assert Arcs(t)[..|Arcs(t)| - 1] == Arcs(t.prefix) && Arcs(u)[..|Arcs(u)| - 1] == Arcs(u.prefix);
      SameArcsSameTrail(t.prefix, u.prefix);
    }
  }

  /** The arc leads back to a stop of the trail. */
  predicate Returns(arcs: seq<Arc>, start: string, t: Trail, arc: nat) {
    arc < |arcs| && arcs[arc].to in Stops(arcs, start, t)
  }

  lemma SimpleStep(arcs: seq<Arc>, start: string, t: Trail, k: nat)
    ensures IsSimple(arcs, start, Then(t, k)) <==>
            IsSimple(arcs, start, t) && k < |arcs| && arcs[k].from == End(arcs, start, t) && !Returns(arcs, start, t, k)
  {
    var before, after := Stops(arcs, start, t), Stops(arcs, start, Then(t, k));
    if Distinct(after) && k < |arcs| {
      assert forall i :: 0 <= i < |before| ==> after[i] == before[i] && after[i] != after[|before|];
    }
  }

  /** A simple walk uses every arc at most once, so it has no more arcs than the graph. */
  lemma SimpleIsShort(arcs: seq<Arc>, start: string, t: Trail)
    requires IsSimple(arcs, start, t)
    ensures Length(t) <= |arcs|
  {
    ArcsAreDistinct(arcs, start, t);
    PositionCount(|arcs|);
    DistinctIsShort(Arcs(t), Positions(|arcs|));
  }

  lemma {:induction false} ArcsAreDistinct(arcs: seq<Arc>, start: string, t: Trail)
    requires IsSimple(arcs, start, t)
    ensures Distinct(Arcs(t))
    ensures forall k :: k in Arcs(t) ==> k < |arcs| && arcs[k].to in Stops(arcs, start, t)
  {
    if t.Then? {
      SimpleStep(arcs, start, t.prefix, t.arc);
      ArcsAreDistinct(arcs, start, t.prefix);
      assert Stops(arcs, start, t)[Length(t)] in Stops(arcs, start, t);
    }
  }

  function Positions(n: nat): set<nat> {
    set k: int {:trigger} | 0 <= k < n
  }

  lemma {:induction false} PositionCount(n: nat)
    ensures |Positions(n)| == n
  {
    if n > 0 {
      PositionCount(n - 1);
      assert Positions(n) == Positions(n - 1) + {n - 1};
    }
  }

  /** A simple walk through declared zones has fewer arcs than there are zones. */
  lemma SimpleVisitsFew(arcs: seq<Arc>, start: string, t: Trail, zones: set<string>)
    requires IsSimple(arcs, start, t)
    requires start in zones && forall k :: 0 <= k < |arcs| ==> arcs[k].to in zones
    ensures Length(t) < |zones|
  {
    StopsAreDeclared(arcs, start, t, zones);
    DistinctIsShort(Stops(arcs, start, t), zones);
  }

  lemma {:induction false} StopsAreDeclared(arcs: seq<Arc>, start: string, t: Trail, zones: set<string>)
    requires start in zones && forall k :: 0 <= k < |arcs| ==> arcs[k].to in zones
    ensures forall s :: s in Stops(arcs, start, t) ==> s in zones
  {
    if t.Then? {
      StopsAreDeclared(arcs, start, t.prefix, zones);
    }
  }

  /** Any walk, cycles included, can be shortened to a simple walk between the same stops. */
  lemma {:induction false} WalkShortens(arcs: seq<Arc>, start: string, w: Trail) returns (t: Trail)
    requires IsWalk(arcs, start, w)
    ensures IsSimple(arcs, start, t)
    ensures End(arcs, start, t) == End(arcs, start, w)
  {
    if w.Start? {
      t := Start;
    } else {
      t := WalkShortens(arcs, start, w.prefix);
      if Returns(arcs, start, t, w.arc) {
        t := CutBack(arcs, start, t, arcs[w.arc].to);
      } else {
        SimpleStep(arcs, start, t, w.arc);
        t := Then(t, w.arc);
      }
    }
  }

  /** A simple walk has a simple prefix ending at each of its stops. */
  lemma {:induction false} CutBack(arcs: seq<Arc>, start: string, t: Trail, stop: string) returns (cut: Trail)
    requires IsSimple(arcs, start, t) && stop in Stops(arcs, start, t)
    ensures IsSimple(arcs, start, cut) && End(arcs, start, cut) == stop
  {
    if t.Start? || End(arcs, start, t) == stop {
      cut := t;
    } else {
      SimpleStep(arcs, start, t.prefix, t.arc);
      cut := CutBack(arcs, start, t.prefix, stop);
    }
  }

  // ---------------------------------------------------------------- one expansion step

  /** Positions below n of the arcs leaving a stop, in order: the adjacency list of that stop. */
  function Outgoing(arcs: seq<Arc>, at: string, n: nat): seq<nat>
    requires n <= |arcs|
  {
    if n == 0 then [] else Outgoing(arcs, at, n - 1) + if arcs[n - 1].from == at then [n - 1] else []
  }

  lemma {:induction false} OutgoingMembers(arcs: seq<Arc>, at: string, n: nat)
    requires n <= |arcs|
    ensures forall k: nat :: k in Outgoing(arcs, at, n) <==> k < n && arcs[k].from == at
    ensures Distinct(Outgoing(arcs, at, n))
  {
    if n > 0 {
      OutgoingMembers(arcs, at, n - 1);
    }
  }

  /** The trail prolonged by each listed arc that does not lead back to one of its stops. */
  function Prolong(arcs: seq<Arc>, start: string, t: Trail, ks: seq<nat>): seq<Trail> {
    if ks == [] then
      []
    else
      var last := |ks| - 1;
      Prolong(arcs, start, t, ks[..last]) + if Returns(arcs, start, t, ks[last]) then [] else [Then(t, ks[last])]
  }

  predicate DepthReached(q: Query, t: Trail) {
    q.depth.Some? && Length(t) >= q.depth.value
  }

  function Extensions(arcs: seq<Arc>, q: Query, t: Trail): seq<Trail> {
    if DepthReached(q, t) then [] else Prolong(arcs, q.start, t, Outgoing(arcs, End(arcs, q.start, t), |arcs|))
  }

  function Expand(arcs: seq<Arc>, q: Query, ts: seq<Trail>): seq<Trail> {
    if ts == [] then [] else Expand(arcs, q, ts[..|ts| - 1]) + Extensions(arcs, q, ts[|ts| - 1])
  }

  predicate EndsAtTarget(arcs: seq<Arc>, q: Query, t: Trail) {
    q.target.Some? && End(arcs, q.start, t) == q.target.value
  }

  predicate IsHit(arcs: seq<Arc>, q: Query, t: Trail) {
    q.target.None? || EndsAtTarget(arcs, q, t)
  }

  /** Trails that are reported: all of them, or those that end at the target. */
  function Hits(arcs: seq<Arc>, q: Query, ts: seq<Trail>): seq<Trail> {
    if ts == [] then
      []
    else
      Hits(arcs, q, ts[..|ts| - 1]) + if IsHit(arcs, q, ts[|ts| - 1]) then [ts[|ts| - 1]] else []
  }

  /** Trails that are explored further: all of them, or those that do not end at the target. */
  function Open(arcs: seq<Arc>, q: Query, ts: seq<Trail>): seq<Trail> {
    if ts == [] then
      []
    else
      Open(arcs, q, ts[..|ts| - 1]) + if EndsAtTarget(arcs, q, ts[|ts| - 1]) then [] else [ts[|ts| - 1]]
  }

  ghost predicate Prolongs(arcs: seq<Arc>, start: string, t: Trail, ks: seq<nat>, u: Trail) {
    u.Then? && u.prefix == t && u.arc in ks && !Returns(arcs, start, t, u.arc)
  }

  lemma {:induction false} ProlongMembers(arcs: seq<Arc>, start: string, t: Trail, ks: seq<nat>)
    ensures forall u :: u in Prolong(arcs, start, t, ks) <==> Prolongs(arcs, start, t, ks, u)
    ensures Distinct(ks) ==> Distinct(Prolong(arcs, start, t, ks))
  {
    if ks != [] {
      var last := |ks| - 1;
      ProlongMembers(arcs, start, t, ks[..last]);
      assert forall k :: k in ks <==> k in ks[..last] || k == ks[last];
      var before := Prolong(arcs, start, t, ks[..last]);
      if Distinct(ks) {
        forall i | 0 <= i < |before|
          ensures before[i] != Then(t, ks[last])
        {
          assert before[i] in before;
        }
      }
    }
  }

  lemma {:induction false} ExpandMembers(arcs: seq<Arc>, q: Query, ts: seq<Trail>)
    ensures forall u :: u in Expand(arcs, q, ts) <==> exists t :: t in ts && u in Extensions(arcs, q, t)
    ensures Distinct(ts) ==> Distinct(Expand(arcs, q, ts))
  {
    if ts != [] {
      var last := |ts| - 1;
      ExpandMembers(arcs, q, ts[..last]);
      assert forall t :: t in ts <==> t in ts[..last] || t == ts[last];
      if Distinct(ts) {
        ExpandStaysDistinct(arcs, q, ts);
      }
    }
  }

  lemma ExpandStaysDistinct(arcs: seq<Arc>, q: Query, ts: seq<Trail>)
    requires ts != [] && Distinct(ts)
    requires var before := Expand(arcs, q, ts[..|ts| - 1]);
             && Distinct(before)
             && forall u :: u in before <==> exists t :: t in ts[..|ts| - 1] && u in Extensions(arcs, q, t)
    ensures Distinct(Expand(arcs, q, ts))
  {
    var last := |ts| - 1;
    var before, added := Expand(arcs, q, ts[..last]), Extensions(arcs, q, ts[last]);
    OutgoingMembers(arcs, End(arcs, q.start, ts[last]), |arcs|);
    ProlongMembers(arcs, q.start, ts[last], Outgoing(arcs, End(arcs, q.start, ts[last]), |arcs|));
    forall i, j | 0 <= i < |before| && 0 <= j < |added|
      ensures before[i] != added[j]
    {
      assert before[i] in before && added[j] in added;
      var t :| t in ts[..last] && before[i] in Extensions(arcs, q, t);
      ProlongMembers(arcs, q.start, t, Outgoing(arcs, End(arcs, q.start, t), |arcs|));
    }
  }

  lemma {:induction false} HitsMembers(arcs: seq<Arc>, q: Query, ts: seq<Trail>)
    ensures forall u :: u in Hits(arcs, q, ts) <==> u in ts && IsHit(arcs, q, u)
    ensures Distinct(ts) ==> Distinct(Hits(arcs, q, ts))
  {
    if ts != [] {
      HitsMembers(arcs, q, ts[..|ts| - 1]);
      assert forall t :: t in ts <==> t in ts[..|ts| - 1] || t == ts[|ts| - 1];
    }
  }

  lemma {:induction false} OpenMembers(arcs: seq<Arc>, q: Query, ts: seq<Trail>)
    ensures forall u :: u in Open(arcs, q, ts) <==> u in ts && !EndsAtTarget(arcs, q, u)
    ensures Distinct(ts) ==> Distinct(Open(arcs, q, ts))
  {
    if ts != [] {
      OpenMembers(arcs, q, ts[..|ts| - 1]);
      assert forall t :: t in ts <==> t in ts[..|ts| - 1] || t == ts[|ts| - 1];
    }
  }

  lemma {:induction false} HitsConcat(arcs: seq<Arc>, q: Query, a: seq<Trail>, b: seq<Trail>)
    ensures Hits(arcs, q, a + b) == Hits(arcs, q, a) + Hits(arcs, q, b)
  {
    if b == [] {
      assert a + b == a;
    } else {
      assert (a + b)[..|a + b| - 1] == a + b[..|b| - 1];
      HitsConcat(arcs, q, a, b[..|b| - 1]);
    }
  }

  lemma {:induction false} OpenConcat(arcs: seq<Arc>, q: Query, a: seq<Trail>, b: seq<Trail>)
    ensures Open(arcs, q, a + b) == Open(arcs, q, a) + Open(arcs, q, b)
  {
    if b == [] {
      assert a + b == a;
    } else {
      assert (a + b)[..|a + b| - 1] == a + b[..|b| - 1];
      OpenConcat(arcs, q, a, b[..|b| - 1]);
    }
  }

  /** Without a target everything is reported and everything is explored. */
  lemma {:induction false} NoTarget(arcs: seq<Arc>, q: Query, ts: seq<Trail>)
    requires q.target.None?
    ensures Hits(arcs, q, ts) == ts && Open(arcs, q, ts) == ts
  {
    if ts != [] {
      NoTarget(arcs, q, ts[..|ts| - 1]);
      assert ts == ts[..|ts| - 1] + [ts[|ts| - 1]];
    }
  }

  // ---------------------------------------------------------------- levels

  /** The trails of exactly n arcs that are still explored. */
  ghost function Frontier(arcs: seq<Arc>, q: Query, n: nat): seq<Trail> {
    if n == 0 then [Start] else Open(arcs, q, Expand(arcs, q, Frontier(arcs, q, n - 1)))
  }

  /** The trails of 1..n arcs that are reported, level by level. */
  ghost function Found(arcs: seq<Arc>, q: Query, n: nat): seq<Trail> {
    if n == 0 then [] else Found(arcs, q, n - 1) + Hits(arcs, q, Expand(arcs, q, Frontier(arcs, q, n - 1)))
  }

  /** Everything there is to report. */
  ghost function AllFound(arcs: seq<Arc>, q: Query): seq<Trail> {
    Found(arcs, q, |arcs|)
  }

  /** No stop after the start is the target. */
  predicate AvoidsTarget(arcs: seq<Arc>, q: Query, t: Trail) {
    match t
    case Start => true
    case Then(prefix, _) => AvoidsTarget(arcs, q, prefix) && !EndsAtTarget(arcs, q, t)
  }

  predicate WithinDepth(q: Query, t: Trail) {
    t.Then? && q.depth.Some? ==> Length(t) <= q.depth.value
  }

  /** A trail of n arcs that is still explored. */
  ghost predicate Live(arcs: seq<Arc>, q: Query, n: nat, t: Trail) {
    Length(t) == n && IsSimple(arcs, q.start, t) && WithinDepth(q, t) && AvoidsTarget(arcs, q, t)
  }

  /** One expansion step, in terms of simple trails. */
  lemma ExtensionIsSimple(arcs: seq<Arc>, q: Query, t: Trail, u: Trail)
    requires IsSimple(arcs, q.start, t)
    ensures u in Extensions(arcs, q, t) <==> u.Then? && u.prefix == t && IsSimple(arcs, q.start, u) && WithinDepth(q, u)
  {
    OutgoingMembers(arcs, End(arcs, q.start, t), |arcs|);
    ProlongMembers(arcs, q.start, t, Outgoing(arcs, End(arcs, q.start, t), |arcs|));
    if u.Then? && u.prefix == t {
      SimpleStep(arcs, q.start, t, u.arc);
    }
  }

  /** The distinct trails of n arcs that are still explored, and no others. */
  ghost predicate IsLevel(arcs: seq<Arc>, q: Query, n: nat, level: seq<Trail>) {
    Distinct(level) && forall t :: t in level <==> Live(arcs, q, n, t)
  }

  /** The candidates of the next level: simple trails whose prefix is live. */
  lemma CandidateMembers(arcs: seq<Arc>, q: Query, n: nat, level: seq<Trail>, t: Trail)
    requires IsLevel(arcs, q, n, level)
    ensures t in Expand(arcs, q, level) <==>
            t.Then? && Live(arcs, q, n, t.prefix) && IsSimple(arcs, q.start, t) && WithinDepth(q, t)
  {
    ExpandMembers(arcs, q, level);
    if t in Expand(arcs, q, level) {
      var u :| u in level && t in Extensions(arcs, q, u);
      ExtensionIsSimple(arcs, q, u, t);
    }
    if t.Then? && Live(arcs, q, n, t.prefix) {
      ExtensionIsSimple(arcs, q, t.prefix, t);
    }
  }

  lemma LevelStep(arcs: seq<Arc>, q: Query, n: nat, level: seq<Trail>)
    requires IsLevel(arcs, q, n, level)
    ensures IsLevel(arcs, q, n + 1, Open(arcs, q, Expand(arcs, q, level)))
  {
    ExpandMembers(arcs, q, level);
    OpenMembers(arcs, q, Expand(arcs, q, level));
    forall t
      ensures t in Open(arcs, q, Expand(arcs, q, level)) <==> Live(arcs, q, n + 1, t)
    {
      CandidateMembers(arcs, q, n, level, t);
      if t.Then? {
        SimpleStep(arcs, q.start, t.prefix, t.arc);
      }
    }
  }

  lemma {:induction false} FrontierIsLevel(arcs: seq<Arc>, q: Query, n: nat)
    ensures IsLevel(arcs, q, n, Frontier(arcs, q, n))
  {
    hide Expand, Open;
    if n > 0 {
      FrontierIsLevel(arcs, q, n - 1);
      LevelStep(arcs, q, n - 1, Frontier(arcs, q, n - 1));
    }
  }

  /** A reported trail: simple, of at least one arc, within the depth, ending at the target when there is one. */
  ghost predicate Reported(arcs: seq<Arc>, q: Query, t: Trail) {
    t.Then? && IsSimple(arcs, q.start, t) && WithinDepth(q, t) && IsHit(arcs, q, t)
  }

  /** Only the last stop of a simple trail that ends at the target is the target. */
  lemma PrefixIsLive(arcs: seq<Arc>, q: Query, t: Trail)
    requires Reported(arcs, q, t)
    ensures Live(arcs, q, Length(t) - 1, t.prefix)
  {
    SimpleStep(arcs, q.start, t.prefix, t.arc);
    StopsAvoidTarget(arcs, q, t.prefix, End(arcs, q.start, t));
  }

  lemma {:induction false} StopsAvoidTarget(arcs: seq<Arc>, q: Query, t: Trail, stop: string)
    requires stop !in Stops(arcs, q.start, t) && (q.target.Some? ==> stop == q.target.value)
    ensures AvoidsTarget(arcs, q, t)
  {
    if t.Then? {
      StopsAvoidTarget(arcs, q, t.prefix, stop);
      assert Stops(arcs, q.start, t)[Length(t)] in Stops(arcs, q.start, t);
    }
  }

  /** The reported trails of n + 1 arcs come from level n. */
  lemma ReportsOfLevel(arcs: seq<Arc>, q: Query, n: nat, level: seq<Trail>)
    requires IsLevel(arcs, q, n, level)
    ensures Distinct(Hits(arcs, q, Expand(arcs, q, level)))
    ensures forall t :: t in Hits(arcs, q, Expand(arcs, q, level)) <==> Length(t) == n + 1 && Reported(arcs, q, t)
  {
    ExpandMembers(arcs, q, level);
    HitsMembers(arcs, q, Expand(arcs, q, level));
    forall t
      ensures t in Hits(arcs, q, Expand(arcs, q, level)) <==> Length(t) == n + 1 && Reported(arcs, q, t)
    {
      CandidateMembers(arcs, q, n, level, t);
      if Length(t) == n + 1 && Reported(arcs, q, t) {
        PrefixIsLive(arcs, q, t);
      }
    }
  }

  lemma {:induction false} FoundMembers(arcs: seq<Arc>, q: Query, n: nat)
    ensures forall t :: t in Found(arcs, q, n) <==> Length(t) <= n && Reported(arcs, q, t)
    ensures Distinct(Found(arcs, q, n)) && Ascending(Found(arcs, q, n))
  {
    hide Expand, Open, Hits;
    if n > 0 {
      FoundMembers(arcs, q, n - 1);
      FrontierIsLevel(arcs, q, n - 1);
      ReportsOfLevel(arcs, q, n - 1, Frontier(arcs, q, n - 1));
      LevelsInOrder(Found(arcs, q, n - 1), Hits(arcs, q, Expand(arcs, q, Frontier(arcs, q, n - 1))), n);
    }
  }

  /** No trail is longer than a later one. */
  ghost predicate Ascending(ts: seq<Trail>) {
    forall i, j :: 0 <= i < j < |ts| ==> Length(ts[i]) <= Length(ts[j])
  }

  lemma LevelsInOrder(before: seq<Trail>, added: seq<Trail>, n: nat)
    requires Distinct(before) && Ascending(before) && forall t :: t in before ==> Length(t) < n
    requires Distinct(added) && forall t :: t in added ==> Length(t) == n
    ensures Distinct(before + added) && Ascending(before + added)
  {
    assert forall i :: 0 <= i < |added| ==> added[i] in added;
    assert forall i :: 0 <= i < |before| ==> before[i] in before;
  }

  /** The enumeration is exact: each reportable trail once, in non-decreasing length, and nothing else. */
  lemma AllFoundIsExact(arcs: seq<Arc>, q: Query)
    ensures forall t :: t in AllFound(arcs, q) <==> Reported(arcs, q, t)
    ensures Distinct(AllFound(arcs, q)) && Ascending(AllFound(arcs, q))
  {
    FoundMembers(arcs, q, |arcs|);
    forall t | Reported(arcs, q, t)
      ensures Length(t) <= |arcs|
    {
      SimpleIsShort(arcs, q.start, t);
    }
  }

  /** Exploration stops by itself: no trail is longer than the number of arcs. */
  lemma FrontierEnds(arcs: seq<Arc>, q: Query, n: nat)
    requires n > |arcs|
    ensures Frontier(arcs, q, n) == []
  {
    FrontierIsLevel(arcs, q, n);
    var level := Frontier(arcs, q, n);
    if level != [] {
      assert level[0] in level;
      SimpleIsShort(arcs, q.start, level[0]);
    }
  }

  lemma {:induction false} FoundGrows(arcs: seq<Arc>, q: Query, m: nat, n: nat)
    requires m <= n
    ensures |Found(arcs, q, m)| <= |Found(arcs, q, n)|
    decreases n
  {
    hide Expand, Open, Hits;
    if m < n {
      FoundGrows(arcs, q, m, n - 1);
    }
  }

  lemma EmptyLevel(arcs: seq<Arc>, q: Query)
    ensures Open(arcs, q, Expand(arcs, q, [])) == [] && Hits(arcs, q, Expand(arcs, q, [])) == []
  {}

  /** Once a level is empty nothing more is found. */
  lemma {:induction false} FoundSettles(arcs: seq<Arc>, q: Query, m: nat, n: nat)
    requires m <= n && Frontier(arcs, q, m) == []
    ensures Found(arcs, q, n) == Found(arcs, q, m) && Frontier(arcs, q, n) == []
    decreases n
  {
    hide Expand, Open, Hits;
    if m < n {
      FoundSettles(arcs, q, m, n - 1);
      EmptyLevel(arcs, q);
    }
  }

  /** The last level has nothing to report, so one level more changes nothing. */
  lemma LastLevelFindsNothing(arcs: seq<Arc>, q: Query)
    ensures Found(arcs, q, |arcs| + 1) == AllFound(arcs, q)
  {
    var level := Frontier(arcs, q, |arcs|);
    FrontierIsLevel(arcs, q, |arcs|);
    ReportsOfLevel(arcs, q, |arcs|, level);
    var added := Hits(arcs, q, Expand(arcs, q, level));
    if added != [] {
      assert added[0] in added;
      SimpleIsShort(arcs, q.start, added[0]);
    }
  }

  /** A queue that stops at an empty level has found everything. */
  lemma SettledIsAll(arcs: seq<Arc>, q: Query, m: nat)
    requires Frontier(arcs, q, m) == []
    ensures Found(arcs, q, m) == AllFound(arcs, q)
  {
    LastLevelFindsNothing(arcs, q);
    FrontierEnds(arcs, q, |arcs| + 1);
    if m <= |arcs| {
      FoundSettles(arcs, q, m, |arcs|);
    } else {
      FoundSettles(arcs, q, |arcs| + 1, m);
    }
  }

  /** Prefixes of the enumeration never exceed it. */
  lemma PrefixOfAll(arcs: seq<Arc>, q: Query, n: nat)
    ensures |Found(arcs, q, n)| <= |AllFound(arcs, q)|
  {
    if n <= |arcs| {
      FoundGrows(arcs, q, n, |arcs|);
    } else {
      FrontierEnds(arcs, q, n);
      SettledIsAll(arcs, q, n);
    }
  }

  // ---------------------------------------------------------------- the work queue

  /** A breadth-first search in the middle of level n: k of its trails are done, the rest and their offspring wait. */
  ghost predicate Midway(arcs: seq<Arc>, q: Query, n: nat, k: nat, pending: seq<Trail>, found: seq<Trail>) {
    var level := Frontier(arcs, q, n);
    && n <= |arcs|
    && k <= |level|
    && pending == level[k..] + Open(arcs, q, Expand(arcs, q, level[..k]))
    && found == Found(arcs, q, n) + Hits(arcs, q, Expand(arcs, q, level[..k]))
  }

  lemma SearchBegins(arcs: seq<Arc>, q: Query)
    ensures Midway(arcs, q, 0, 0, [Start], [])
  {}

  /** A level that is used up makes way for the next one. */
  lemma NextLevel(arcs: seq<Arc>, q: Query, n: nat, pending: seq<Trail>, found: seq<Trail>)
    requires Midway(arcs, q, n, |Frontier(arcs, q, n)|, pending, found) && pending != []
    ensures Midway(arcs, q, n + 1, 0, pending, found) && Frontier(arcs, q, n + 1) == pending && n < |arcs|
  {
    hide Expand, Open, Hits;
    var level := Frontier(arcs, q, n);
    assert level[..|level|] == level;
    if n == |arcs| {
      FrontierEnds(arcs, q, n + 1);
    }
    EmptyLevel(arcs, q);
  }

  /** Taking the first waiting trail, and queueing and reporting its extensions. */
  lemma SearchStep(arcs: seq<Arc>, q: Query, n: nat, k: nat, pending: seq<Trail>, found: seq<Trail>)
    requires Midway(arcs, q, n, k, pending, found) && k < |Frontier(arcs, q, n)|
    ensures pending != [] && IsSimple(arcs, q.start, pending[0])
    ensures var new_ := Extensions(arcs, q, pending[0]);
            Midway(arcs, q, n, k + 1, pending[1..] + Open(arcs, q, new_), found + Hits(arcs, q, new_))
  {
    hide Expand, Open, Hits, Frontier, Found, Extensions;
    var level := Frontier(arcs, q, n);
    FrontierIsLevel(arcs, q, n);
    assert pending[0] == level[k] && level[k] in level;
    ExpandStep(arcs, q, level, k);
  }

  lemma NothingNew(arcs: seq<Arc>, q: Query, t: Trail)
    ensures Hits(arcs, q, []) == [] && Open(arcs, q, []) == [] && Prolong(arcs, q.start, t, []) == []
  {}

  lemma ExpandStep(arcs: seq<Arc>, q: Query, level: seq<Trail>, k: nat)
    requires k < |level|
    ensures Expand(arcs, q, level[..k + 1]) == Expand(arcs, q, level[..k]) + Extensions(arcs, q, level[k])
    ensures Hits(arcs, q, Expand(arcs, q, level[..k + 1])) ==
            Hits(arcs, q, Expand(arcs, q, level[..k])) + Hits(arcs, q, Extensions(arcs, q, level[k]))
    ensures Open(arcs, q, Expand(arcs, q, level[..k + 1])) ==
            Open(arcs, q, Expand(arcs, q, level[..k])) + Open(arcs, q, Extensions(arcs, q, level[k]))
  {
    assert level[..k + 1][..k] == level[..k];
    HitsConcat(arcs, q, Expand(arcs, q, level[..k]), Extensions(arcs, q, level[k]));
    OpenConcat(arcs, q, Expand(arcs, q, level[..k]), Extensions(arcs, q, level[k]));
  }

  /** An empty queue means that everything has been reported. */
  lemma SearchEnds(arcs: seq<Arc>, q: Query, n: nat, k: nat, found: seq<Trail>)
    requires Midway(arcs, q, n, k, [], found)
    ensures found == AllFound(arcs, q)
  {
    hide Expand, Open, Hits;
    assert Frontier(arcs, q, n)[..k] == Frontier(arcs, q, n);
    SettledIsAll(arcs, q, n + 1);
  }

  /** What was reported so far never exceeds what there is to report. */
  lemma {:induction false} ReportedSoFar(arcs: seq<Arc>, q: Query, n: nat, k: nat, pending: seq<Trail>,
                                         found: seq<Trail>)
    requires Midway(arcs, q, n, k, pending, found)
    ensures |found| <= |AllFound(arcs, q)|
    decreases |Frontier(arcs, q, n)| - k
  {
    hide Expand, Open, Hits, Extensions;
    var level := Frontier(arcs, q, n);
    if k == |level| {
      assert level[..k] == level;
      PrefixOfAll(arcs, q, n + 1);
    } else {
      SearchStep(arcs, q, n, k, pending, found);
      var new_ := Extensions(arcs, q, pending[0]);
      ReportedSoFar(arcs, q, n, k + 1, pending[1..] + Open(arcs, q, new_), found + Hits(arcs, q, new_));
    }
  }

  /** One turn of the loop over the arcs that leave the end of a trail. */
  lemma ProlongStep(arcs: seq<Arc>, q: Query, t: Trail, ks: seq<nat>, j: nat)
    requires j < |ks|
    ensures var next := if Returns(arcs, q.start, t, ks[j]) then [] else [Then(t, ks[j])];
            && Hits(arcs, q, Prolong(arcs, q.start, t, ks[..j + 1])) ==
               Hits(arcs, q, Prolong(arcs, q.start, t, ks[..j])) +
               (if next != [] && IsHit(arcs, q, next[0]) then next else [])
            && Open(arcs, q, Prolong(arcs, q.start, t, ks[..j + 1])) ==
               Open(arcs, q, Prolong(arcs, q.start, t, ks[..j])) +
               (if next != [] && !EndsAtTarget(arcs, q, next[0]) then next else [])
  {
    assert ks[..j + 1][..j] == ks[..j];
    var before := Prolong(arcs, q.start, t, ks[..j]);
    var next := if Returns(arcs, q.start, t, ks[j]) then [] else [Then(t, ks[j])];
    HitsConcat(arcs, q, before, next);
    OpenConcat(arcs, q, before, next);
  }

  lemma {:induction false} HitsOfPrefixProlong(arcs: seq<Arc>, q: Query, t: Trail, ks: seq<nat>, j: nat)
    requires j <= |ks|
    ensures |Hits(arcs, q, Prolong(arcs, q.start, t, ks[..j]))| <= |Hits(arcs, q, Prolong(arcs, q.start, t, ks))|
    decreases |ks| - j
  {
    if j < |ks| {
      ProlongStep(arcs, q, t, ks, j);
      HitsOfPrefixProlong(arcs, q, t, ks, j + 1);
    } else {
      assert ks[..j] == ks;
    }
  }
}
