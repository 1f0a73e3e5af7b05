/** Bounded enumeration of network paths between trust zones (src/core/graph.ts, src/core/reachability.ts). */
module Reachability {
  import opened Wrappers
  import opened SimplePaths
  import Text

  // ---------------------------------------------------------------- the security graph

  datatype SecurityEdgeKind =
    | Contains | PlacedIn | CanReach | CanAccess | DelegatesTo | AuditsTo
    | RunsOn | UsesIdentity | UsesData | PartOf | Calls

  datatype SecurityEdge = SecurityEdge(
    id: string,
    kind: SecurityEdgeKind,
    from: string,
    to: string,
    brokered: Option<bool>,
    sourceId: Option<string>)

  datatype NetworkFlow = NetworkFlow(
    id: string,
    fromZoneId: string,
    toZoneId: string,
    viaZoneIds: seq<string>,
    brokered: bool)

  /** The edges pushed before and after the flows are never of kind can-reach. */
  type NonReachEdges = es: seq<SecurityEdge> | forall e :: e in es ==> !e.kind.CanReach? witness []

  datatype Blueprint = Blueprint(
    trustZones: seq<string>,
    edgesBeforeFlows: NonReachEdges,
    flows: seq<NetworkFlow>,
    edgesAfterFlows: NonReachEdges)

  function Hops(flow: NetworkFlow): (hops: seq<string>)
    ensures |hops| >= 2
  {
    [flow.fromZoneId] + flow.viaZoneIds + [flow.toZoneId]
  }

  function HopEdge(flow: NetworkFlow, index: nat): SecurityEdge
    requires index + 1 < |Hops(flow)|
  {
    SecurityEdge(
      if |Hops(flow)| == 2 then flow.id else flow.id + ":hop-" + Text.Decimal(index + 1),
      CanReach, Hops(flow)[index], Hops(flow)[index + 1], Some(flow.brokered), Some(flow.id))
  }

  function FlowEdges(flow: NetworkFlow): seq<SecurityEdge> {
    seq(|Hops(flow)| - 1, i requires 0 <= i < |Hops(flow)| - 1 => HopEdge(flow, i))
  }

  function AllFlowEdges(flows: seq<NetworkFlow>): seq<SecurityEdge> {
    if flows == [] then [] else AllFlowEdges(flows[..|flows| - 1]) + FlowEdges(flows[|flows| - 1])
  }

  function GraphEdges(blueprint: Blueprint): seq<SecurityEdge> {
    blueprint.edgesBeforeFlows + AllFlowEdges(blueprint.flows) + blueprint.edgesAfterFlows
  }

  lemma AllFlowEdgesStep(flows: seq<NetworkFlow>, f: nat)
    requires f < |flows|
    ensures AllFlowEdges(flows[..f + 1]) == AllFlowEdges(flows[..f]) + FlowEdges(flows[f])
  {
    assert flows[..f + 1][..f] == flows[..f];
  }

  /** The flow-to-hop expansion: every flow becomes one can-reach edge per pair of consecutive hops. */
  method BuildSecurityGraph(blueprint: Blueprint) returns (edges: seq<SecurityEdge>)
    ensures edges == GraphEdges(blueprint)
  {
    hide AllFlowEdges, FlowEdges;
    NoFlowEdges();
    edges := blueprint.edgesBeforeFlows;
    for f := 0 to |blueprint.flows|
      invariant edges == blueprint.edgesBeforeFlows + AllFlowEdges(blueprint.flows[..f])
    {
      var flow := blueprint.flows[f];
      var hops := [flow.fromZoneId] + flow.viaZoneIds + [flow.toZoneId];
      ghost var before := edges;
      FlowEdgesCount(flow);
      for index := 0 to |hops| - 1
        invariant edges == before + FlowEdges(flow)[..index]
      {
        var id := if |hops| == 2 then flow.id else flow.id + ":hop-" + Text.Decimal(index + 1);
        edges := edges + [SecurityEdge(id, CanReach, hops[index], hops[index + 1], Some(flow.brokered), Some(flow.id))];
        FlowEdgesStep(flow, index);
      }
      AllFlowEdgesStep(blueprint.flows, f);
    }
    assert blueprint.flows[..|blueprint.flows|] == blueprint.flows;
    edges := edges + blueprint.edgesAfterFlows;
  }

  lemma NoFlowEdges()
    ensures AllFlowEdges([]) == []
  {}

  lemma FlowEdgesCount(flow: NetworkFlow)
    ensures |FlowEdges(flow)| == |Hops(flow)| - 1
  {}

  lemma FlowEdgesStep(flow: NetworkFlow, index: nat)
    requires index + 1 < |Hops(flow)|
    ensures index < |FlowEdges(flow)|
    ensures FlowEdges(flow)[..index + 1] == FlowEdges(flow)[..index] + [HopEdge(flow, index)]
  {}

  // ---------------------------------------------------------------- adjacency

  function CanReachEdges(edges: seq<SecurityEdge>): seq<SecurityEdge> {
    if edges == [] then
      []
    else
      CanReachEdges(edges[..|edges| - 1]) + if edges[|edges| - 1].kind.CanReach? then [edges[|edges| - 1]] else []
  }

  function ArcsOf(reach: seq<SecurityEdge>): seq<Arc> {
    seq(|reach|, i requires 0 <= i < |reach| => Arc(reach[i].from, reach[i].to))
  }

  /** The network graph of a blueprint. */
  function NetworkArcs(blueprint: Blueprint): seq<Arc> {
    ArcsOf(AllFlowEdges(blueprint.flows))
  }

  lemma {:induction false} CanReachConcat(a: seq<SecurityEdge>, b: seq<SecurityEdge>)
    ensures CanReachEdges(a + b) == CanReachEdges(a) + CanReachEdges(b)
  {
    if b == [] {
      assert a + b == a;
    } else {
      assert (a + b)[..|a + b| - 1] == a + b[..|b| - 1];
      CanReachConcat(a, b[..|b| - 1]);
    }
  }

  lemma {:induction false} CanReachUniform(edges: seq<SecurityEdge>, all: bool)
    requires forall e :: e in edges ==> e.kind.CanReach? == all
    ensures CanReachEdges(edges) == if all then edges else []
  {
    if edges != [] {
      CanReachUniform(edges[..|edges| - 1], all);
    }
  }

  lemma {:induction false} FlowEdgesReach(flows: seq<NetworkFlow>)
    ensures forall e :: e in AllFlowEdges(flows) ==> e.kind.CanReach?
  {
    if flows != [] {
      FlowEdgesReach(flows[..|flows| - 1]);
    }
  }

  /** Only flows contribute can-reach edges. */
  lemma ReachEdgesAreFlowEdges(blueprint: Blueprint)
    ensures CanReachEdges(GraphEdges(blueprint)) == AllFlowEdges(blueprint.flows)
  {
    FlowEdgesReach(blueprint.flows);
    CanReachConcat(blueprint.edgesBeforeFlows + AllFlowEdges(blueprint.flows), blueprint.edgesAfterFlows);
    CanReachConcat(blueprint.edgesBeforeFlows, AllFlowEdges(blueprint.flows));
    CanReachUniform(blueprint.edgesBeforeFlows, false);
    CanReachUniform(AllFlowEdges(blueprint.flows), true);
    CanReachUniform(blueprint.edgesAfterFlows, false);
  }

  // ---------------------------------------------------------------- the search

  datatype NetworkPath = NetworkPath(
    fromZoneId: string,
    toZoneId: string,
    zoneIds: seq<string>,
    edgeIds: seq<string>,
    flowIds: seq<string>,
    brokeredAtSource: bool)

  datatype NetworkPathOptions = NetworkPathOptions(
    toZoneId: Option<string>,
    maxDepth: Option<int>,
    maxPaths: Option<int>)

  datatype SearchError = TooManyPaths(maxPaths: int)

  ghost predicate KnownArcs(reach: seq<SecurityEdge>, arcs: seq<nat>) {
    forall i :: 0 <= i < |arcs| ==> arcs[i] < |reach|
  }

  function EdgesAt(reach: seq<SecurityEdge>, arcs: seq<nat>): seq<SecurityEdge>
    requires KnownArcs(reach, arcs)
  {
    seq(|arcs|, i requires 0 <= i < |arcs| => reach[arcs[i]])
  }

  /** What is reported for a path through the given zones along the given edges. */
  function Describe(fromZoneId: string, zoneIds: seq<string>, edges: seq<SecurityEdge>): NetworkPath
    requires zoneIds != []
  {
    NetworkPath(
      fromZoneId,
      zoneIds[|zoneIds| - 1],
      zoneIds,
      seq(|edges|, i requires 0 <= i < |edges| => edges[i].id),
      Text.Deduplicate(seq(|edges|, i requires 0 <= i < |edges| =>
        if edges[i].sourceId.Some? then edges[i].sourceId.value else edges[i].id)),
      edges != [] && edges[0].brokered == Some(true))
  }

  /** An empty `toZoneId` counts as absent, as it is falsy. */
  function QueryOf(blueprint: Blueprint, fromZoneId: string, options: NetworkPathOptions): Query {
    Query(
      fromZoneId,
      if options.toZoneId == Some("") then None else options.toZoneId,
      Some(if options.maxDepth.Some? then options.maxDepth.value
           else if |blueprint.trustZones| > 1 then |blueprint.trustZones| else 1))
  }

  function PathLimit(options: NetworkPathOptions): int {
    if options.maxPaths.Some? then options.maxPaths.value else 1000
  }

  /** An entry of the work queue; an edge object is denoted by its position among the can-reach edges. */
  datatype Entry = Entry(zoneIds: seq<string>, edges: seq<nat>)

  ghost function EntryOf(arcs: seq<Arc>, start: string, t: Trail): Entry {
    Entry(Stops(arcs, start, t), Arcs(t))
  }

  ghost predicate Mirrors(arcs: seq<Arc>, start: string, queue: seq<Entry>, pending: seq<Trail>) {
    && |queue| == |pending|
    && forall i :: 0 <= i < |queue| ==> queue[i] == EntryOf(arcs, start, pending[i]) && IsWalk(arcs, start, pending[i])
  }

  ghost predicate Reports(reach: seq<SecurityEdge>, start: string, paths: seq<NetworkPath>, found: seq<Trail>) {
    && |paths| == |found|
    && forall i :: 0 <= i < |paths| ==>
         && KnownArcs(reach, Arcs(found[i]))
         && paths[i] == Describe(start, Stops(ArcsOf(reach), start, found[i]), EdgesAt(reach, Arcs(found[i])))
  }

  lemma MirrorsPop(arcs: seq<Arc>, start: string, queue: seq<Entry>, pending: seq<Trail>)
    requires Mirrors(arcs, start, queue, pending) && queue != []
    ensures pending != [] && queue[0] == EntryOf(arcs, start, pending[0]) && IsWalk(arcs, start, pending[0])
    ensures Mirrors(arcs, start, queue[1..], pending[1..])
  {}

  lemma MirrorsPush(arcs: seq<Arc>, start: string, queue: seq<Entry>, pending: seq<Trail>, t: Trail)
    requires Mirrors(arcs, start, queue, pending) && IsWalk(arcs, start, t)
    ensures Mirrors(arcs, start, queue + [EntryOf(arcs, start, t)], pending + [t])
  {}

  lemma ReportsPush(reach: seq<SecurityEdge>, start: string, paths: seq<NetworkPath>, found: seq<Trail>, t: Trail)
    requires Reports(reach, start, paths, found) && IsWalk(ArcsOf(reach), start, t)
    ensures KnownArcs(reach, Arcs(t))
    ensures Reports(reach, start,
                    paths + [Describe(start, Stops(ArcsOf(reach), start, t), EdgesAt(reach, Arcs(t)))], found + [t])
  {
    WalkArcsKnown(reach, start, t);
  }

  lemma {:induction false} WalkArcsKnown(reach: seq<SecurityEdge>, start: string, t: Trail)
    requires IsWalk(ArcsOf(reach), start, t)
    ensures KnownArcs(reach, Arcs(t))
  {
    if t.Then? {
      WalkArcsKnown(reach, start, t.prefix);
    }
  }

  /** Following one more edge: what the entry and the report say of the longer trail. */
  lemma FollowEdge(reach: seq<SecurityEdge>, start: string, t: Trail, k: nat)
    requires IsWalk(ArcsOf(reach), start, t)
    requires k in Outgoing(ArcsOf(reach), End(ArcsOf(reach), start, t), |reach|)
    ensures k < |reach| && IsWalk(ArcsOf(reach), start, Then(t, k))
    ensures EntryOf(ArcsOf(reach), start, Then(t, k)) ==
              Entry(Stops(ArcsOf(reach), start, t) + [reach[k].to], Arcs(t) + [k])
    ensures Returns(ArcsOf(reach), start, t, k) == (reach[k].to in Stops(ArcsOf(reach), start, t))
    ensures End(ArcsOf(reach), start, Then(t, k)) == reach[k].to
  {
    OutgoingMembers(ArcsOf(reach), End(ArcsOf(reach), start, t), |reach|);
  }

  lemma {:induction false} OutgoingPrefix(arcs: seq<Arc>, extra: Arc, at: string, n: nat)
    requires n <= |arcs|
    ensures Outgoing(arcs + [extra], at, n) == Outgoing(arcs, at, n)
  {
    if n > 0 {
      OutgoingPrefix(arcs, extra, at, n - 1);
    }
  }

  lemma OutgoingGrows(arcs: seq<Arc>, extra: Arc, at: string)
    ensures Outgoing(arcs + [extra], at, |arcs| + 1) ==
            Outgoing(arcs, at, |arcs|) + if extra.from == at then [|arcs|] else []
  {
    OutgoingPrefix(arcs, extra, at, |arcs|);
  }

  function Neighbours(adjacency: map<string, seq<nat>>, zone: string): seq<nat> {
    if zone in adjacency then adjacency[zone] else []
  }

  ghost predicate IsAdjacency(reach: seq<SecurityEdge>, adjacency: map<string, seq<nat>>) {
    forall zone :: Neighbours(adjacency, zone) == Outgoing(ArcsOf(reach), zone, |reach|)
  }

  method BuildAdjacency(edges: seq<SecurityEdge>) returns (reach: seq<SecurityEdge>, adjacency: map<string, seq<nat>>)
    ensures reach == CanReachEdges(edges)
    ensures IsAdjacency(reach, adjacency)
  {
    reach, adjacency := [], map[];
    for e := 0 to |edges|
      invariant reach == CanReachEdges(edges[..e])
      invariant IsAdjacency(reach, adjacency)
    {
      var edge := edges[e];
      assert edges[..e + 1][..e] == edges[..e];
      if !edge.kind.CanReach? {
        continue;
      }
      AdjacencyGrows(reach, adjacency, edge);
      adjacency := adjacency[edge.from := Neighbours(adjacency, edge.from) + [|reach|]];
      reach := reach + [edge];
    }
    assert edges[..|edges|] == edges;
  }

  lemma AdjacencyGrows(reach: seq<SecurityEdge>, adjacency: map<string, seq<nat>>, edge: SecurityEdge)
    requires IsAdjacency(reach, adjacency)
    ensures IsAdjacency(reach + [edge], adjacency[edge.from := Neighbours(adjacency, edge.from) + [|reach|]])
  {
    hide Outgoing;
    var after := adjacency[edge.from := Neighbours(adjacency, edge.from) + [|reach|]];
    var arc := Arc(edge.from, edge.to);
    assert ArcsOf(reach + [edge]) == ArcsOf(reach) + [arc];
    forall zone
      ensures Neighbours(after, zone) == Outgoing(ArcsOf(reach + [edge]), zone, |reach| + 1)
    {
      OutgoingGrows(ArcsOf(reach), arc, zone);
      assert Neighbours(adjacency, zone) == Outgoing(ArcsOf(reach), zone, |reach|);
    }
  }

  /** What following one more edge adds to the trails queued and reported before. */
  lemma ProlongedBy(arcs: seq<Arc>, q: Query, t: Trail, ks: seq<nat>, j: nat, pending: seq<Trail>, found: seq<Trail>)
    requires j < |ks|
    ensures var before, after := Prolong(arcs, q.start, t, ks[..j]), Prolong(arcs, q.start, t, ks[..j + 1]);
            var next := Then(t, ks[j]);
            var news := !Returns(arcs, q.start, t, ks[j]);
            && (found + Hits(arcs, q, after) ==
                if news && (q.target.None? || End(arcs, q.start, next) == q.target.value) then
                  found + Hits(arcs, q, before) + [next]
                else
                  found + Hits(arcs, q, before))
            && (pending + Open(arcs, q, after) ==
                if news && (q.target.None? || End(arcs, q.start, next) != q.target.value) then
                  pending + Open(arcs, q, before) + [next]
                else
                  pending + Open(arcs, q, before))
  {
    hide Hits, Open, Prolong, Returns, End;
    ProlongStep(arcs, q, t, ks, j);
  }

  /** The inner loop of the search: report and queue the extensions of the entry taken from the queue. */
  method FollowEdges(reach: seq<SecurityEdge>, fromZoneId: string, ghost q: Query, current: Entry, ks: seq<nat>,
                     toZoneId: Option<string>, maxPaths: int, queueIn: seq<Entry>, pathsIn: seq<NetworkPath>,
                     ghost t: Trail, ghost pendingIn: seq<Trail>, ghost foundIn: seq<Trail>)
    returns (queue: seq<Entry>, paths: seq<NetworkPath>, exceeded: bool, ghost pending: seq<Trail>,
             ghost found: seq<Trail>)
    requires IsWalk(ArcsOf(reach), q.start, t) && current == EntryOf(ArcsOf(reach), q.start, t)
    requires ks == Outgoing(ArcsOf(reach), End(ArcsOf(reach), q.start, t), |reach|)
    requires q.target == toZoneId && q.start == fromZoneId
    requires Mirrors(ArcsOf(reach), q.start, queueIn, pendingIn)
    requires Reports(reach, q.start, pathsIn, foundIn) && |pathsIn| == |foundIn|
             && (pathsIn == [] || |pathsIn| <= maxPaths)
    ensures !exceeded ==>
              && pending == pendingIn + Open(ArcsOf(reach), q, Prolong(ArcsOf(reach), q.start, t, ks))
              && found == foundIn + Hits(ArcsOf(reach), q, Prolong(ArcsOf(reach), q.start, t, ks))
              && Mirrors(ArcsOf(reach), q.start, queue, pending)
              && Reports(reach, q.start, paths, found) && (paths == [] || |paths| <= maxPaths)
    ensures exceeded ==>
              |foundIn + Hits(ArcsOf(reach), q, Prolong(ArcsOf(reach), q.start, t, ks))| > maxPaths &&
              Hits(ArcsOf(reach), q, Prolong(ArcsOf(reach), q.start, t, ks)) != []
  {
    hide Hits, Open, Outgoing, Prolong, Stops, Arcs, IsWalk, Returns, Describe, EdgesAt, Mirrors, Reports, ArcsOf;
    hide IsHit, EndsAtTarget;
    ghost var arcs := ArcsOf(reach);
    queue, paths, exceeded, pending, found := queueIn, pathsIn, false, pendingIn, foundIn;
    assert ks[..0] == [];
    NothingNew(arcs, q, t);
    assert pendingIn + [] == pendingIn && foundIn + [] == foundIn;
    for j := 0 to |ks|
      invariant pending == pendingIn + Open(arcs, q, Prolong(arcs, q.start, t, ks[..j]))
      invariant found == foundIn + Hits(arcs, q, Prolong(arcs, q.start, t, ks[..j]))
      invariant Mirrors(arcs, q.start, queue, pending)
      invariant Reports(reach, q.start, paths, found) && |paths| == |found|
      invariant paths == [] || |paths| <= maxPaths
    {
      ProlongedBy(arcs, q, t, ks, j, pendingIn, foundIn);
      FollowEdge(reach, q.start, t, ks[j]);
      var edge := reach[ks[j]];
      if edge.to in current.zoneIds {
        continue;
      }
      ghost var next := Then(t, ks[j]);
      var zoneIds := current.zoneIds + [edge.to];
      var pathEdges := current.edges + [ks[j]];
      if toZoneId.None? || edge.to == toZoneId.value {
        if |paths| >= maxPaths {
          HitsOfPrefixProlong(arcs, q, t, ks, j + 1);
          return queue, paths, true, pending, found;
        }
        ReportsPush(reach, q.start, paths, found, next);
        paths := paths + [Describe(fromZoneId, zoneIds, EdgesAt(reach, pathEdges))];
        found := found + [next];
      }
      if toZoneId.None? || edge.to != toZoneId.value {
        MirrorsPush(arcs, q.start, queue, pending, next);
        queue := queue + [Entry(zoneIds, pathEdges)];
        pending := pending + [next];
      }
    }
    assert ks[..|ks|] == ks;
  }

  /**
   Every simple path of 1 to `maxDepth` edges from the zone (to the target zone if one is given), each once,
   shortest first; or an error exactly when there are more of them than the limit.
   */
  method FindNetworkPaths(blueprint: Blueprint, fromZoneId: string, options: NetworkPathOptions)
    returns (result: Result<seq<NetworkPath>, SearchError>)
    ensures var all := AllFound(NetworkArcs(blueprint), QueryOf(blueprint, fromZoneId, options));
            if all != [] && |all| > PathLimit(options) then
              result == Err(TooManyPaths(PathLimit(options)))
            else
              result.Ok? && Reports(AllFlowEdges(blueprint.flows), fromZoneId, result.value, all)
  {
    hide Expand, Hits, Open, Outgoing, Prolong, Midway, Stops, Arcs, IsWalk, Frontier, Found, AllFound;
    hide AllFlowEdges, CanReachEdges, GraphEdges, Mirrors;
    var edges := BuildSecurityGraph(blueprint);
    var reach, adjacency := BuildAdjacency(edges);
    ReachEdgesAreFlowEdges(blueprint);
    ghost var arcs, q := ArcsOf(reach), QueryOf(blueprint, fromZoneId, options);

    var toZoneId := if options.toZoneId == Some("") then None else options.toZoneId;
    var maxDepth := if options.maxDepth.Some? then options.maxDepth.value
                    else if |blueprint.trustZones| > 1 then |blueprint.trustZones| else 1;
    var maxPaths := if options.maxPaths.Some? then options.maxPaths.value else 1000;
    var paths: seq<NetworkPath> := [];
    var queue := [Entry([fromZoneId], [])];

    ghost var n, k := 0, 0;              // level being taken from the queue, and how much of it is gone
    ghost var pending := [Start];        // the trails the queue stands for
    ghost var found: seq<Trail> := [];   // the trails reported so far
    SearchBegins(arcs, q);
    FirstEntry(reach, fromZoneId);
    while |queue| > 0
      invariant Midway(arcs, q, n, k, pending, found) && n <= |arcs| && k <= |Frontier(arcs, q, n)|
      invariant Mirrors(arcs, fromZoneId, queue, pending)
      invariant Reports(reach, fromZoneId, paths, found) && |paths| == |found|
      invariant paths == [] || |paths| <= maxPaths
      decreases |arcs| - n, |Frontier(arcs, q, n)| - k
    {
      MirrorsPop(arcs, fromZoneId, queue, pending);
      if k == |Frontier(arcs, q, n)| {
        NextLevel(arcs, q, n, pending, found);
        n, k := n + 1, 0;
      }
      SearchStep(arcs, q, n, k, pending, found);
      ghost var t, rest, reported := pending[0], pending[1..], found;
      var current := queue[0];
      queue, pending := queue[1..], rest;
      k := k + 1;
      NothingNew(arcs, q, t);
      if |current.edges| >= maxDepth {
        assert rest + [] == rest && reported + [] == reported;
        continue;
      }
      var currentZone := current.zoneIds[|current.zoneIds| - 1];
      var ks := Neighbours(adjacency, currentZone);
      var exceeded;
      queue, paths, exceeded, pending, found :=
        FollowEdges(reach, fromZoneId, q, current, ks, toZoneId, maxPaths, queue, paths, t, pending, found);
      ghost var new_ := Extensions(arcs, q, t);
      if exceeded {
        ReportedSoFar(arcs, q, n, k, rest + Open(arcs, q, new_), reported + Hits(arcs, q, new_));
        return Err(TooManyPaths(maxPaths));
      }
    }
    QueueIsEmpty(arcs, fromZoneId, queue, pending);
    SearchEnds(arcs, q, n, k, found);
    result := Ok(paths);
  }

  lemma FirstEntry(reach: seq<SecurityEdge>, start: string)
    ensures Mirrors(ArcsOf(reach), start, [Entry([start], [])], [Start])
    ensures Reports(reach, start, [], [])
  {}

  lemma QueueIsEmpty(arcs: seq<Arc>, start: string, queue: seq<Entry>, pending: seq<Trail>)
    requires Mirrors(arcs, start, queue, pending) && |queue| == 0
    ensures pending == []
  {}

  // ---------------------------------------------------------------- what the search guarantees

  /** The start and every hop of every flow are declared zones. */
  ghost predicate Declared(blueprint: Blueprint, fromZoneId: string) {
    && fromZoneId in blueprint.trustZones
    && forall f :: f in blueprint.flows ==> forall zone :: zone in Hops(f) ==> zone in blueprint.trustZones
  }

  lemma {:induction false} ArcsAreDeclared(flows: seq<NetworkFlow>, zones: seq<string>)
    requires forall f :: f in flows ==> forall zone :: zone in Hops(f) ==> zone in zones
    ensures forall e :: e in AllFlowEdges(flows) ==> e.from in zones && e.to in zones
  {
    if flows != [] {
      ArcsAreDeclared(flows[..|flows| - 1], zones);
      var last := flows[|flows| - 1];
      forall e | e in FlowEdges(last)
        ensures e.from in zones && e.to in zones
      {
        var i :| 0 <= i < |FlowEdges(last)| && e == FlowEdges(last)[i];
        assert Hops(last)[i] in Hops(last) && Hops(last)[i + 1] in Hops(last);
      }
    }
  }

  /** With declared zones the default depth cuts nothing: exactly the simple paths are reported. */
  lemma DefaultDepthCutsNothing(blueprint: Blueprint, fromZoneId: string, options: NetworkPathOptions, t: Trail)
    requires Declared(blueprint, fromZoneId) && options.maxDepth.None?
    ensures var q := QueryOf(blueprint, fromZoneId, options);
            t in AllFound(NetworkArcs(blueprint), q) <==>
            t.Then? && IsSimple(NetworkArcs(blueprint), fromZoneId, t) && IsHit(NetworkArcs(blueprint), q, t)
  {
    var arcs, q := NetworkArcs(blueprint), QueryOf(blueprint, fromZoneId, options);
    AllFoundIsExact(arcs, q);
    if IsSimple(arcs, fromZoneId, t) {
      var zones := set i | 0 <= i < |blueprint.trustZones| :: blueprint.trustZones[i];
      ArcsAreDeclared(blueprint.flows, blueprint.trustZones);
      forall k | 0 <= k < |arcs|
        ensures arcs[k].to in zones
      {
        assert AllFlowEdges(blueprint.flows)[k] in AllFlowEdges(blueprint.flows);
      }
      SimpleVisitsFew(arcs, fromZoneId, t, zones);
      SetOfSequence(blueprint.trustZones);
    }
  }

  lemma {:induction false} SetOfSequence(s: seq<string>)
    ensures |set i | 0 <= i < |s| :: s[i]| <= |s|
  {
    if s != [] {
      var n := |s| - 1;
      SetOfSequence(s[..n]);
      assert (set i | 0 <= i < |s| :: s[i]) == (set i | 0 <= i < n :: s[..n][i]) + {s[n]};
    }
  }

  /** The trail along m consecutive arcs from position `offset`. */
  function Chain(offset: nat, m: nat): Trail {
    if m == 0 then Start else Then(Chain(offset, m - 1), offset + m - 1)
  }

  /** Where the edges of a flow stand among all flow edges. */
  lemma {:induction false} FlowPosition(flows: seq<NetworkFlow>, f: nat) returns (offset: nat)
    requires f < |flows|
    ensures StandsAt(AllFlowEdges(flows), flows[f], offset)
  {
    var last := |flows| - 1;
    if f == last {
      offset := |AllFlowEdges(flows[..last])|;
    } else {
      assert flows[..last][f] == flows[f];
      offset := FlowPosition(flows[..last], f);
    }
  }

  lemma FlowEdgesAt(flow: NetworkFlow, i: nat)
    requires i + 1 < |Hops(flow)|
    ensures |FlowEdges(flow)| + 1 == |Hops(flow)|
    ensures FlowEdges(flow)[i].from == Hops(flow)[i] && FlowEdges(flow)[i].to == Hops(flow)[i + 1]
  {}

  ghost predicate StandsAt(reach: seq<SecurityEdge>, flow: NetworkFlow, offset: nat) {
    && offset + |FlowEdges(flow)| <= |reach|
    && forall i :: 0 <= i < |FlowEdges(flow)| ==> reach[offset + i] == FlowEdges(flow)[i]
  }

  lemma {:induction false} ChainIsWalk(reach: seq<SecurityEdge>, flow: NetworkFlow, offset: nat, m: nat)
    requires StandsAt(reach, flow, offset) && m < |Hops(flow)|
    ensures IsWalk(ArcsOf(reach), flow.fromZoneId, Chain(offset, m))
    ensures Stops(ArcsOf(reach), flow.fromZoneId, Chain(offset, m)) == Hops(flow)[..m + 1]
  {
    if m > 0 {
      ChainIsWalk(reach, flow, offset, m - 1);
      FlowEdgesAt(flow, m - 1);
      assert reach[offset + (m - 1)] == FlowEdges(flow)[m - 1];
      assert Hops(flow)[..m][m - 1] == Hops(flow)[m - 1];
      assert Hops(flow)[..m + 1] == Hops(flow)[..m] + [Hops(flow)[m]];
    }
  }

  lemma {:induction false} ChainEdges(reach: seq<SecurityEdge>, flow: NetworkFlow, offset: nat, m: nat)
    requires StandsAt(reach, flow, offset) && m < |Hops(flow)|
    ensures Length(Chain(offset, m)) == m && KnownArcs(reach, Arcs(Chain(offset, m)))
    ensures EdgesAt(reach, Arcs(Chain(offset, m))) == FlowEdges(flow)[..m]
  {
    hide HopEdge;
    if m > 0 {
      ChainEdges(reach, flow, offset, m - 1);
      FlowEdgesCount(flow);
      assert reach[offset + (m - 1)] == FlowEdges(flow)[m - 1];
      hide FlowEdges;
      assert FlowEdges(flow)[..m] == FlowEdges(flow)[..m - 1] + [FlowEdges(flow)[m - 1]];
      EdgesAtOneMore(reach, Arcs(Chain(offset, m - 1)), offset + m - 1);
    }
  }

  lemma EdgesAtOneMore(reach: seq<SecurityEdge>, arcs: seq<nat>, k: nat)
    requires KnownArcs(reach, arcs) && k < |reach|
    ensures KnownArcs(reach, arcs + [k]) && EdgesAt(reach, arcs + [k]) == EdgesAt(reach, arcs) + [reach[k]]
  {}

  /** Every flow with distinct declared hops is found from its source, hop by hop, along its own edges. */
  lemma FlowChainIsFound(blueprint: Blueprint, f: nat, options: NetworkPathOptions) returns (t: Trail)
    requires f < |blueprint.flows| && Distinct(Hops(blueprint.flows[f]))
    requires Declared(blueprint, blueprint.flows[f].fromZoneId) && options.maxDepth.None?
    requires options.toZoneId.Some? ==> options.toZoneId.value in {"", blueprint.flows[f].toZoneId}
    ensures var flow, arcs := blueprint.flows[f], NetworkArcs(blueprint);
            && t in AllFound(arcs, QueryOf(blueprint, flow.fromZoneId, options))
            && Stops(arcs, flow.fromZoneId, t) == Hops(flow)
            && KnownArcs(AllFlowEdges(blueprint.flows), Arcs(t))
            && EdgesAt(AllFlowEdges(blueprint.flows), Arcs(t)) == FlowEdges(flow)
  {
    var flow, reach := blueprint.flows[f], AllFlowEdges(blueprint.flows);
    var offset := FlowPosition(blueprint.flows, f);
    var m := |Hops(flow)| - 1;
    t := Chain(offset, m);
    ChainIsWalk(reach, flow, offset, m);
    ChainEdges(reach, flow, offset, m);
    assert Hops(flow)[..m + 1] == Hops(flow) && FlowEdges(flow)[..m] == FlowEdges(flow);
    DefaultDepthCutsNothing(blueprint, flow.fromZoneId, options, t);
  }

  // ---------------------------------------------------------------- what a reported path is

  /** The edge of a flow between two consecutive hops. */
  ghost predicate IsHopEdge(flow: NetworkFlow, i: nat, e: SecurityEdge) {
    var last := |flow.viaZoneIds|;
    && i <= last
    && e.from == (if i == 0 then flow.fromZoneId else flow.viaZoneIds[i - 1])
    && e.to == (if i == last then flow.toZoneId else flow.viaZoneIds[i])
    && e.id == (if last == 0 then flow.id else flow.id + ":hop-" + Text.Decimal(i + 1))
    && e.kind == CanReach && e.brokered == Some(flow.brokered) && e.sourceId == Some(flow.id)
  }

  /** The can-reach edges are the hop edges of the flows. */
  lemma {:induction false} EdgesAreHops(flows: seq<NetworkFlow>, e: SecurityEdge)
    ensures e in AllFlowEdges(flows) <==> exists f, i :: f in flows && IsHopEdge(f, i, e)
  {
    if flows != [] {
      var n := |flows| - 1;
      EdgesAreHops(flows[..n], e);
      HopsOfFlow(flows[n], e);
      assert flows == flows[..n] + [flows[n]];
    }
  }

  lemma HopsOfFlow(flow: NetworkFlow, e: SecurityEdge)
    ensures e in FlowEdges(flow) <==> exists i :: IsHopEdge(flow, i, e)
  {
    forall i: nat | i <= |flow.viaZoneIds|
      ensures e == FlowEdges(flow)[i] <==> IsHopEdge(flow, i, e)
    {
      assert Hops(flow)[0] == flow.fromZoneId && Hops(flow)[|flow.viaZoneIds| + 1] == flow.toZoneId;
      assert i > 0 ==> Hops(flow)[i] == flow.viaZoneIds[i - 1];
      assert i < |flow.viaZoneIds| ==> Hops(flow)[i + 1] == flow.viaZoneIds[i];
    }
    if i: nat :| IsHopEdge(flow, i, e) {
      assert FlowEdges(flow)[i] in FlowEdges(flow);
    }
  }

  /** The flow that an edge comes from, or the edge itself. */
  function SourceOf(e: SecurityEdge): string {
    if e.sourceId.Some? then e.sourceId.value else e.id
  }

  function SourcesAlong(reach: seq<SecurityEdge>, ks: seq<nat>): seq<string>
    requires KnownArcs(reach, ks)
  {
    seq(|ks|, i requires 0 <= i < |ks| => SourceOf(reach[ks[i]]))
  }

  /**
   What a path says of the edges it goes along: their ends, identifiers and flows, and whether the first is brokered.
   */
  ghost predicate IsPathAlong(reach: seq<SecurityEdge>, ks: seq<nat>, p: NetworkPath) {
    && |ks| > 0 && |p.zoneIds| == |ks| + 1 && |p.edgeIds| == |ks|
    && (forall i :: 0 <= i < |ks| ==>
          && ks[i] < |reach| && reach[ks[i]].from == p.zoneIds[i] && reach[ks[i]].to == p.zoneIds[i + 1]
          && p.edgeIds[i] == reach[ks[i]].id)
    && p.fromZoneId == p.zoneIds[0] && p.toZoneId == p.zoneIds[|ks|]
    && p.brokeredAtSource == (reach[ks[0]].brokered == Some(true))
    && Distinct(p.flowIds) && (forall id :: id in p.flowIds <==> id in SourcesAlong(reach, ks))
    && Text.InOrderOfFirst(p.flowIds, SourcesAlong(reach, ks))
  }

  /** Edges by position that a search asks for: from the zone, to the target if there is one, no longer than allowed. */
  ghost predicate IsAskedFor(fromZoneId: string, options: NetworkPathOptions, zones: nat, ks: seq<nat>,
                             stops: seq<string>) {
    && stops != [] && stops[0] == fromZoneId && Distinct(stops)
    && |ks| <= (if options.maxDepth.Some? then options.maxDepth.value else if zones > 1 then zones else 1)
    && (options.toZoneId.Some? && options.toZoneId.value != "" ==> stops[|stops| - 1] == options.toZoneId.value)
  }

  lemma DescribedPath(reach: seq<SecurityEdge>, start: string, t: Trail)
    requires IsWalk(ArcsOf(reach), start, t) && t.Then? && KnownArcs(reach, Arcs(t))
    ensures IsPathAlong(reach, Arcs(t), Describe(start, Stops(ArcsOf(reach), start, t), EdgesAt(reach, Arcs(t))))
  {
    hide Text.Deduplicate;
    var ks, stops, edges := Arcs(t), Stops(ArcsOf(reach), start, t), EdgesAt(reach, Arcs(t));
    WalkIsChain(ArcsOf(reach), start, t);
    forall i | 0 <= i < |ks|
      ensures reach[ks[i]].from == stops[i] && reach[ks[i]].to == stops[i + 1]
    {
      assert ArcsOf(reach)[ks[i]] == Arc(stops[i], stops[i + 1]);
    }
    var sources := seq(|edges|, i requires 0 <= i < |edges| =>
      if edges[i].sourceId.Some? then edges[i].sourceId.value else edges[i].id);
    assert sources == SourcesAlong(reach, ks);
    Text.DeduplicateKeepsFirst(sources);
  }

  /** Which trails a search reports, told by their arcs and stops. */
  lemma ReportedIsAskedFor(blueprint: Blueprint, fromZoneId: string, options: NetworkPathOptions, t: Trail)
    ensures var arcs := NetworkArcs(blueprint);
            t in AllFound(arcs, QueryOf(blueprint, fromZoneId, options)) <==>
              && IsChain(arcs, Arcs(t), Stops(arcs, fromZoneId, t)) && Arcs(t) != []
              && IsAskedFor(fromZoneId, options, |blueprint.trustZones|, Arcs(t), Stops(arcs, fromZoneId, t))
  {
    var arcs, q := NetworkArcs(blueprint), QueryOf(blueprint, fromZoneId, options);
    AllFoundIsExact(arcs, q);
    WalkIsChain(arcs, fromZoneId, t);
  }

  /**
   What a search returns, in terms of the edges alone: paths along different edges, shorter ones first, and one for
   every
   repetition-free chain of edges that is asked for.
   */
  ghost predicate ListsRoutes(reach: seq<SecurityEdge>, fromZoneId: string, options: NetworkPathOptions, zones: nat,
                              paths: seq<NetworkPath>, routes: seq<seq<nat>>) {
    && |paths| == |routes| && Distinct(routes)
    && (forall i, j :: 0 <= i < j < |routes| ==> |routes[i]| <= |routes[j]|)
    && (forall i :: 0 <= i < |paths| ==>
          IsPathAlong(reach, routes[i], paths[i])
          && IsAskedFor(fromZoneId, options, zones, routes[i], paths[i].zoneIds))
    && forall ks, stops ::
         ks != [] && IsEdgeChain(reach, ks, stops) && IsAskedFor(fromZoneId, options, zones, ks, stops) ==>
         exists i :: 0 <= i < |routes| && routes[i] == ks && paths[i].zoneIds == stops
  }

  ghost predicate IsEdgeChain(reach: seq<SecurityEdge>, ks: seq<nat>, stops: seq<string>) {
    && |stops| == |ks| + 1
    && forall i :: 0 <= i < |ks| ==> ks[i] < |reach| && reach[ks[i]].from == stops[i] && reach[ks[i]].to == stops[i + 1]
  }

  lemma EdgeChains(reach: seq<SecurityEdge>, ks: seq<nat>, stops: seq<string>)
    ensures IsEdgeChain(reach, ks, stops) <==> IsChain(ArcsOf(reach), ks, stops)
  {
    if IsChain(ArcsOf(reach), ks, stops) {
      forall i | 0 <= i < |ks|
        ensures ks[i] < |reach| && reach[ks[i]].from == stops[i] && reach[ks[i]].to == stops[i + 1]
      {
        assert ArcsOf(reach)[ks[i]] == Arc(stops[i], stops[i + 1]);
      }
    }
  }

  /** The reports of a search are the routes that are asked for. */
  lemma ReportsAreRoutes(blueprint: Blueprint, fromZoneId: string, options: NetworkPathOptions, paths: seq<NetworkPath>)
    returns (routes: seq<seq<nat>>)
    requires Reports(AllFlowEdges(blueprint.flows), fromZoneId, paths,
                     AllFound(NetworkArcs(blueprint), QueryOf(blueprint, fromZoneId, options)))
    ensures ListsRoutes(AllFlowEdges(blueprint.flows), fromZoneId, options, |blueprint.trustZones|, paths, routes)
  {
    hide IsPathAlong, IsAskedFor, AllFlowEdges, AllFound, Stops, Arcs, Describe, IsWalk;
    var reach, arcs, q :=
      AllFlowEdges(blueprint.flows), NetworkArcs(blueprint), QueryOf(blueprint, fromZoneId, options);
    var all := AllFound(arcs, q);
    AllFoundIsExact(arcs, q);
    routes := seq(|all|, i requires 0 <= i < |all| => Arcs(all[i]));
    forall i, j | 0 <= i < j < |routes|
      ensures routes[i] != routes[j]
    {
      if routes[i] == routes[j] {
        SameArcsSameTrail(all[i], all[j]);
      }
    }
    forall i | 0 <= i < |paths|
      ensures IsPathAlong(reach, routes[i], paths[i])
      ensures IsAskedFor(fromZoneId, options, |blueprint.trustZones|, routes[i], paths[i].zoneIds)
    {
      assert all[i] in all;
      ReportedIsAskedFor(blueprint, fromZoneId, options, all[i]);
      WalkIsChain(arcs, fromZoneId, all[i]);
      ChainOfSome(all[i]);
      DescribedPath(reach, fromZoneId, all[i]);
      ZonesOf(fromZoneId, Stops(arcs, fromZoneId, all[i]), EdgesAt(reach, Arcs(all[i])));
    }
    forall ks, stops | ks != [] && IsEdgeChain(reach, ks, stops)
                       && IsAskedFor(fromZoneId, options, |blueprint.trustZones|, ks, stops)
      ensures exists i :: 0 <= i < |routes| && routes[i] == ks && paths[i].zoneIds == stops
    {
      EdgeChains(reach, ks, stops);
      AskedFromStart(fromZoneId, options, |blueprint.trustZones|, ks, stops);
      var t := WalkOfChain(arcs, ks, stops);
      ReportedIsAskedFor(blueprint, fromZoneId, options, t);
      var i :| 0 <= i < |all| && all[i] == t;
      ZonesOf(fromZoneId, Stops(arcs, fromZoneId, all[i]), EdgesAt(reach, Arcs(all[i])));
      assert routes[i] == ks;
    }
  }

  lemma ZonesOf(fromZoneId: string, zoneIds: seq<string>, edges: seq<SecurityEdge>)
    requires zoneIds != []
    ensures Describe(fromZoneId, zoneIds, edges).zoneIds == zoneIds
  {}

  lemma ChainOfSome(t: Trail)
    ensures Arcs(t) != [] ==> t.Then?
  {}

  lemma AskedFromStart(fromZoneId: string, options: NetworkPathOptions, zones: nat, ks: seq<nat>, stops: seq<string>)
    requires IsAskedFor(fromZoneId, options, zones, ks, stops)
    ensures stops != [] && stops[0] == fromZoneId
  {}

  /** A repetition-free chain of edges, by position, that is asked for. */
  ghost predicate IsRoute(reach: seq<SecurityEdge>, fromZoneId: string, options: NetworkPathOptions, zones: nat,
                          ks: seq<nat>) {
    ks != [] && exists stops :: IsEdgeChain(reach, ks, stops) && IsAskedFor(fromZoneId, options, zones, ks, stops)
  }

  /** There are as many reports, before any limit, as there are routes that are asked for. */
  lemma ReportsAreCounted(blueprint: Blueprint, fromZoneId: string, options: NetworkPathOptions)
    returns (routes: seq<seq<nat>>)
    ensures |routes| == |AllFound(NetworkArcs(blueprint), QueryOf(blueprint, fromZoneId, options))| && Distinct(routes)
    ensures forall ks :: ks in routes <==>
              IsRoute(AllFlowEdges(blueprint.flows), fromZoneId, options, |blueprint.trustZones|, ks)
  {
    hide IsAskedFor, AllFlowEdges, AllFound, Stops, Arcs, IsWalk;
    var reach, arcs, q :=
      AllFlowEdges(blueprint.flows), NetworkArcs(blueprint), QueryOf(blueprint, fromZoneId, options);
    var all := AllFound(arcs, q);
    AllFoundIsExact(arcs, q);
    routes := seq(|all|, i requires 0 <= i < |all| => Arcs(all[i]));
    forall i, j | 0 <= i < j < |routes|
      ensures routes[i] != routes[j]
    {
      if routes[i] == routes[j] {
        SameArcsSameTrail(all[i], all[j]);
      }
    }
    forall ks | ks in routes
      ensures IsRoute(reach, fromZoneId, options, |blueprint.trustZones|, ks)
    {
      var i :| 0 <= i < |all| && Arcs(all[i]) == ks;
      ReportedIsAskedFor(blueprint, fromZoneId, options, all[i]);
      EdgeChains(reach, ks, Stops(arcs, fromZoneId, all[i]));
    }
    forall ks, stops | ks != [] && IsEdgeChain(reach, ks, stops)
                       && IsAskedFor(fromZoneId, options, |blueprint.trustZones|, ks, stops)
      ensures ks in routes
    {
      EdgeChains(reach, ks, stops);
      AskedFromStart(fromZoneId, options, |blueprint.trustZones|, ks, stops);
      var t := WalkOfChain(arcs, ks, stops);
      ReportedIsAskedFor(blueprint, fromZoneId, options, t);
      var i :| 0 <= i < |all| && all[i] == t;
      assert routes[i] == ks;
    }
  }

  /** Without a limit of its own a search stops at a thousand paths. */
  lemma LimitMeans(options: NetworkPathOptions, limit: int)
    ensures PathLimit(options) == limit <==>
              options.maxPaths == Some(limit) || (options.maxPaths == None && limit == 1000)
  {}
}
