/** Effective entitlements over identity delegations, with deny override (src/core/entitlements.ts). */
module Entitlements {
  import opened Wrappers
  import opened SimplePaths
  import Text

  type Conditions = map<string, string>

  datatype Effect = Allow | Deny

  datatype Delegation = Delegation(id: string, fromIdentityId: string, toIdentityId: string,
                                   conditions: Option<Conditions>)

  datatype Grant = Grant(
    id: string,
    identityId: string,
    resourceIds: seq<string>,
    actions: seq<string>,
    effect: Effect,
    tenantId: Option<string>,
    conditions: Option<Conditions>)

  datatype Blueprint = Blueprint(identities: seq<string>, delegations: seq<Delegation>, grants: seq<Grant>)

  datatype EffectiveEntitlement = EffectiveEntitlement(
    principalId: string,
    effectiveIdentityId: string,
    viaIdentityIds: seq<string>,
    delegationIds: seq<string>,
    delegationConditions: seq<Conditions>,
    grantId: string,
    resourceId: string,
    action: string,
    tenantId: Option<string>,
    decision: Effect,
    deniedByGrantIds: seq<string>,
    grantConditions: Option<Conditions>)

  datatype ReachableIdentity = ReachableIdentity(
    identityId: string,
    viaIdentityIds: seq<string>,
    delegationIds: seq<string>,
    delegationConditions: seq<Conditions>)

  datatype AnalysisError = TooManyDelegationPaths(principalId: string)

  const MAX_PATHS := 1000

  // ---------------------------------------------------------------- matching

  predicate ResourceMatches(resources: seq<string>, requested: string) {
    "*" in resources || requested in resources
  }

  /** A wildcard, the very action, or a `prefix:*` pattern whose prefix, colon included, starts the action. */
  predicate ActionPatternMatches(pattern: string, requested: string) {
    || pattern == "*" || pattern == "*:*" || pattern == requested
    || (|pattern| >= 2 && pattern[|pattern| - 2..] == ":*" && pattern[..|pattern| - 1] <= requested)
  }

  predicate ActionMatches(actions: seq<string>, requested: string) {
    exists i :: 0 <= i < |actions| && ActionPatternMatches(actions[i], requested)
  }

  predicate DenyApplies(grant: Grant, resource: string, action: string) {
    grant.effect.Deny? && ResourceMatches(grant.resourceIds, resource) && ActionMatches(grant.actions, action)
  }

  // ---------------------------------------------------------------- the delegation graph

  function ArcsOf(delegations: seq<Delegation>): seq<Arc> {
    seq(|delegations|,
        i requires 0 <= i < |delegations| => Arc(delegations[i].fromIdentityId, delegations[i].toIdentityId))
  }

  /** No target and no depth limit. */
  function From(principalId: string): Query {
    Query(principalId, None, None)
  }

  /** The simple delegation paths of a principal: the empty one, then the others, shortest first. */
  ghost function DelegationPaths(delegations: seq<Delegation>, principalId: string): seq<Trail> {
    [Start] + AllFound(ArcsOf(delegations), From(principalId))
  }

  lemma DelegationPathsAreExact(delegations: seq<Delegation>, principalId: string)
    ensures Distinct(DelegationPaths(delegations, principalId))
    ensures forall t :: t in DelegationPaths(delegations, principalId) <==>
              IsSimple(ArcsOf(delegations), principalId, t)
  {
    var found := AllFound(ArcsOf(delegations), From(principalId));
    AllFoundIsExact(ArcsOf(delegations), From(principalId));
    assert forall i :: 0 <= i < |found| ==> found[i] in found;
  }

  function ReachedBy(delegations: seq<Delegation>, principalId: string, t: Trail): ReachableIdentity {
    match t
    case Start => ReachableIdentity(principalId, [principalId], [], [])
    case Then(prefix, k) =>
      var before := ReachedBy(delegations, principalId, prefix);
      if k < |delegations| then Delegate(before, delegations[k]) else before
  }

  function Delegate(current: ReachableIdentity, delegation: Delegation): ReachableIdentity {
    ReachableIdentity(
      delegation.toIdentityId,
      current.viaIdentityIds + [delegation.toIdentityId],
      current.delegationIds + [delegation.id],
      current.delegationConditions + [if delegation.conditions.Some? then delegation.conditions.value else map[]])
  }

  lemma {:induction false} ReachedByFollows(delegations: seq<Delegation>, principalId: string, t: Trail)
    requires IsWalk(ArcsOf(delegations), principalId, t)
    ensures ReachedBy(delegations, principalId, t).identityId == End(ArcsOf(delegations), principalId, t)
    ensures ReachedBy(delegations, principalId, t).viaIdentityIds == Stops(ArcsOf(delegations), principalId, t)
  {
    if t.Then? {
      ReachedByFollows(delegations, principalId, t.prefix);
    }
  }

  /** The delegations an identity makes, in order. */
  function MadeBy(delegations: seq<Delegation>, identityId: string): seq<Delegation> {
    if delegations == [] then
      []
    else
      var last := delegations[|delegations| - 1];
      MadeBy(delegations[..|delegations| - 1], identityId) + if last.fromIdentityId == identityId then [last] else []
  }

  function Bucket<V>(buckets: map<string, seq<V>>, key: string): seq<V> {
    if key in buckets then buckets[key] else []
  }

  method GroupDelegations(delegations: seq<Delegation>) returns (buckets: map<string, seq<Delegation>>)
    ensures forall id :: Bucket(buckets, id) == MadeBy(delegations, id)
  {
    buckets := map[];
    for i := 0 to |delegations|
      invariant forall id :: Bucket(buckets, id) == MadeBy(delegations[..i], id)
    {
      var delegation := delegations[i];
      assert delegations[..i + 1][..i] == delegations[..i];
      buckets := buckets[delegation.fromIdentityId := Bucket(buckets, delegation.fromIdentityId) + [delegation]];
    }
    assert delegations[..|delegations|] == delegations;
  }

  /** The delegations an identity makes are those of the arcs that leave it. */
  lemma {:induction false} MadeByIsOutgoing(delegations: seq<Delegation>, identityId: string, n: nat)
    requires n <= |delegations|
    ensures var made, ks := MadeBy(delegations[..n], identityId), Outgoing(ArcsOf(delegations), identityId, n);
            |made| == |ks| && forall j :: 0 <= j < |ks| ==> ks[j] < n && made[j] == delegations[ks[j]]
  {
    if n > 0 {
      MadeByIsOutgoing(delegations, identityId, n - 1);
      assert delegations[..n][..n - 1] == delegations[..n - 1];
    }
  }

  // ---------------------------------------------------------------- reachable identities

  ghost predicate Mirrors(delegations: seq<Delegation>, principalId: string, queue: seq<ReachableIdentity>,
                          ts: seq<Trail>) {
    && |queue| == |ts|
    && forall i :: 0 <= i < |queue| ==>
         queue[i] == ReachedBy(delegations, principalId, ts[i]) && IsWalk(ArcsOf(delegations), principalId, ts[i])
  }

  /** One turn of the loop over the delegations of the current identity. */
  lemma DelegationStep(delegations: seq<Delegation>, principalId: string, t: Trail, k: nat)
    requires IsWalk(ArcsOf(delegations), principalId, t)
    requires k < |delegations| && delegations[k].fromIdentityId == End(ArcsOf(delegations), principalId, t)
    ensures Returns(ArcsOf(delegations), principalId, t, k) ==
            (delegations[k].toIdentityId in ReachedBy(delegations, principalId, t).viaIdentityIds)
    ensures IsWalk(ArcsOf(delegations), principalId, Then(t, k))
    ensures ReachedBy(delegations, principalId, Then(t, k)) ==
            Delegate(ReachedBy(delegations, principalId, t), delegations[k])
  {
    ReachedByFollows(delegations, principalId, t);
  }

  /** The identities of all simple delegation paths, or an error exactly when there are over a thousand. */
  method ReachableIdentities(principalId: string, buckets: map<string, seq<Delegation>>,
                             ghost delegations: seq<Delegation>)
    returns (result: Result<seq<ReachableIdentity>, AnalysisError>)
    requires forall id :: Bucket(buckets, id) == MadeBy(delegations, id)
    ensures if |DelegationPaths(delegations, principalId)| > MAX_PATHS then
              result == Err(TooManyDelegationPaths(principalId))
            else
              result.Ok? && Mirrors(delegations, principalId, result.value, DelegationPaths(delegations, principalId))
  {
    hide Expand, Hits, Open, Outgoing, Prolong, Midway, IsWalk, Frontier, Found, AllFound, ReachedBy, Returns, MadeBy,
         ArcsOf;
    ghost var arcs, q := ArcsOf(delegations), From(principalId);
    var reachable: seq<ReachableIdentity> := [];
    var queue := [ReachableIdentity(principalId, [principalId], [], [])];

    ghost var n, k := 0, 0;
    ghost var pending, popped, found: seq<Trail> := [Start], [], [];
    SearchBegins(arcs, q);
    assert Mirrors(delegations, principalId, queue, [Start]) by { FirstEntry(delegations, principalId); }
    while |queue| > 0
      invariant Midway(arcs, q, n, k, pending, found) && n <= |arcs| && k <= |Frontier(arcs, q, n)|
      invariant popped + pending == [Start] + found
      invariant Mirrors(delegations, principalId, queue, pending)
      invariant Mirrors(delegations, principalId, reachable, popped)
      invariant |reachable| <= MAX_PATHS
      decreases |arcs| - n, |Frontier(arcs, q, n)| - k
    {
      if k == |Frontier(arcs, q, n)| {
        NextLevel(arcs, q, n, pending, found);
        n, k := n + 1, 0;
      }
      ReportedSoFar(arcs, q, n, k, pending, found);
      SearchStep(arcs, q, n, k, pending, found);
      ghost var t := pending[0];
      var current := queue[0];
      queue := queue[1..];
      if |reachable| >= MAX_PATHS {
        assert |popped + pending| > MAX_PATHS;
        return Err(TooManyDelegationPaths(principalId));
      }
      reachable := reachable + [current];
      ghost var new_ := Extensions(arcs, q, t);
      queue :=
        QueueDelegates(current, Bucket(buckets, current.identityId), queue, delegations, principalId, t, pending[1..]);
      NoTarget(arcs, q, new_);
      assert popped + pending == popped + [t] + pending[1..];
      assert [Start] + (found + new_) == [Start] + found + new_;
      assert popped + [t] + (pending[1..] + new_) == popped + [t] + pending[1..] + new_;
      popped, pending, found, k := popped + [t], pending[1..] + new_, found + new_, k + 1;
    }
    assert pending == [];
    SearchEnds(arcs, q, n, k, found);
    assert popped == DelegationPaths(delegations, principalId);
    result := Ok(reachable);
  }

  lemma FirstEntry(delegations: seq<Delegation>, principalId: string)
    ensures Mirrors(delegations, principalId, [ReachableIdentity(principalId, [principalId], [], [])], [Start])
  {}

  /** The inner loop: queue the delegates of the current identity that are not yet on its path. */
  method QueueDelegates(current: ReachableIdentity, delegates: seq<Delegation>, queueIn: seq<ReachableIdentity>,
                        ghost delegations: seq<Delegation>, ghost principalId: string, ghost t: Trail,
                        ghost pending: seq<Trail>)
    returns (queue: seq<ReachableIdentity>)
    requires IsWalk(ArcsOf(delegations), principalId, t)
    requires current == ReachedBy(delegations, principalId, t)
    requires delegates == MadeBy(delegations, current.identityId)
    requires Mirrors(delegations, principalId, queueIn, pending)
    ensures Mirrors(delegations, principalId, queue, pending + Extensions(ArcsOf(delegations), From(principalId), t))
  {
    hide Outgoing, Prolong, IsWalk, ReachedBy, Returns, MadeBy, Hits, Open, ArcsOf;
    ghost var arcs, q := ArcsOf(delegations), From(principalId);
    ArcsMatch(delegations);
    ReachedByFollows(delegations, principalId, t);
    ghost var ks := Outgoing(arcs, current.identityId, |delegations|);
    OutgoingMembers(arcs, current.identityId, |delegations|);
    assert delegations[..|delegations|] == delegations;
    MadeByIsOutgoing(delegations, current.identityId, |delegations|);
    queue := queueIn;
    NothingNew(arcs, q, t);
    assert ks[..0] == [] && pending + [] == pending;
    for j := 0 to |delegates|
      invariant Mirrors(delegations, principalId, queue, pending + Prolong(arcs, principalId, t, ks[..j]))
    {
      assert ks[j] in ks;
      ghost var before := Prolong(arcs, principalId, t, ks[..j]);
      ProlongOnce(arcs, principalId, t, ks, j);
      DelegationStep(delegations, principalId, t, ks[j]);
      if delegates[j].toIdentityId in current.viaIdentityIds {
        continue;
      }
      assert pending + before + [Then(t, ks[j])] == pending + (before + [Then(t, ks[j])]);
      queue := queue + [Delegate(current, delegates[j])];
    }
    assert ks[..|ks|] == ks;
  }

  lemma ArcsMatch(delegations: seq<Delegation>)
    ensures |ArcsOf(delegations)| == |delegations|
    ensures forall k :: 0 <= k < |delegations| ==>
              ArcsOf(delegations)[k] == Arc(delegations[k].fromIdentityId, delegations[k].toIdentityId)
  {}

  lemma ProlongOnce(arcs: seq<Arc>, start: string, t: Trail, ks: seq<nat>, j: nat)
    requires j < |ks|
    ensures Prolong(arcs, start, t, ks[..j + 1]) ==
            Prolong(arcs, start, t, ks[..j]) + if Returns(arcs, start, t, ks[j]) then [] else [Then(t, ks[j])]
  {
    assert ks[..j + 1][..j] == ks[..j];
  }

  // ---------------------------------------------------------------- grants

  function GrantsOf(grants: seq<Grant>, identityId: string): seq<Grant> {
    if grants == [] then
      []
    else
      var last := grants[|grants| - 1];
      GrantsOf(grants[..|grants| - 1], identityId) + if last.identityId == identityId then [last] else []
  }

  function WithEffect(grants: seq<Grant>, effect: Effect): seq<Grant> {
    if grants == [] then
      []
    else
      var last := grants[|grants| - 1];
      WithEffect(grants[..|grants| - 1], effect) + if last.effect == effect then [last] else []
  }

  lemma {:induction false} GrantsOfMembers(grants: seq<Grant>, identityId: string)
    ensures forall g :: g in GrantsOf(grants, identityId) <==> g in grants && g.identityId == identityId
  {
    if grants != [] {
      GrantsOfMembers(grants[..|grants| - 1], identityId);
      assert forall g :: g in grants <==> g in grants[..|grants| - 1] || g == grants[|grants| - 1];
    }
  }

  lemma {:induction false} WithEffectMembers(grants: seq<Grant>, effect: Effect)
    ensures forall g :: g in WithEffect(grants, effect) <==> g in grants && g.effect == effect
  {
    if grants != [] {
      WithEffectMembers(grants[..|grants| - 1], effect);
      assert forall g :: g in grants <==> g in grants[..|grants| - 1] || g == grants[|grants| - 1];
    }
  }

  method GroupGrants(grants: seq<Grant>) returns (buckets: map<string, seq<Grant>>)
    ensures forall id :: Bucket(buckets, id) == GrantsOf(grants, id)
  {
    buckets := map[];
    for i := 0 to |grants|
      invariant forall id :: Bucket(buckets, id) == GrantsOf(grants[..i], id)
    {
      var grant := grants[i];
      assert grants[..i + 1][..i] == grants[..i];
      buckets := buckets[grant.identityId := Bucket(buckets, grant.identityId) + [grant]];
    }
    assert grants[..|grants|] == grants;
  }

  /** The deny grants of all reachable identities. */
  function AllDenies(reachable: seq<ReachableIdentity>, buckets: map<string, seq<Grant>>): seq<Grant> {
    if reachable == [] then
      []
    else
      var last := reachable[|reachable| - 1];
      AllDenies(reachable[..|reachable| - 1], buckets) + WithEffect(Bucket(buckets, last.identityId), Deny)
  }

  /** Some entry names the identity. */
  ghost predicate IsReached(reachable: seq<ReachableIdentity>, id: string) {
    exists i :: 0 <= i < |reachable| && reachable[i].identityId == id
  }

  lemma {:induction false} AllDeniesMembers(reachable: seq<ReachableIdentity>, buckets: map<string, seq<Grant>>,
                                            grants: seq<Grant>)
    requires forall id :: Bucket(buckets, id) == GrantsOf(grants, id)
    ensures forall g :: g in AllDenies(reachable, buckets) <==>
              g in grants && g.effect.Deny?
              && IsReached(reachable, g.identityId)
  {
    if reachable != [] {
      hide GrantsOf, WithEffect, IsReached;
      var n := |reachable| - 1;
      AllDeniesMembers(reachable[..n], buckets, grants);
      GrantsOfMembers(grants, reachable[n].identityId);
      WithEffectMembers(GrantsOf(grants, reachable[n].identityId), Deny);
      assert Bucket(buckets, reachable[n].identityId) == GrantsOf(grants, reachable[n].identityId);
      hide Bucket;
      forall id
        ensures IsReached(reachable, id) <==> IsReached(reachable[..n], id) || reachable[n].identityId == id
      {
        OneMoreReachable(reachable, id);
      }
    }
  }

  lemma OneMoreReachable(reachable: seq<ReachableIdentity>, id: string)
    requires reachable != []
    ensures var n := |reachable| - 1;
            IsReached(reachable, id) <==> IsReached(reachable[..n], id) || reachable[n].identityId == id
  {
    var n := |reachable| - 1;
    if i :| 0 <= i < n && reachable[i].identityId == id {
      assert reachable[..n][i].identityId == id;
    }
  }

  function ApplicableIds(denies: seq<Grant>, resource: string, action: string): seq<string> {
    if denies == [] then
      []
    else
      var last := denies[|denies| - 1];
      ApplicableIds(denies[..|denies| - 1], resource, action)
        + if DenyApplies(last, resource, action) then [last.id] else []
  }

  lemma {:induction false} ApplicableIdsMembers(denies: seq<Grant>, resource: string, action: string)
    ensures forall id :: id in ApplicableIds(denies, resource, action) <==>
              exists g :: g in denies && DenyApplies(g, resource, action) && g.id == id
  {
    if denies != [] {
      ApplicableIdsMembers(denies[..|denies| - 1], resource, action);
      assert forall g :: g in denies <==> g in denies[..|denies| - 1] || g == denies[|denies| - 1];
    }
  }

  // ---------------------------------------------------------------- deny override

  /** Some chain of delegations, possibly going round in cycles, leads from the principal to the identity. */
  ghost predicate Reaches(delegations: seq<Delegation>, principalId: string, identityId: string) {
    exists w :: IsWalk(ArcsOf(delegations), principalId, w) && End(ArcsOf(delegations), principalId, w) == identityId
  }

  /** A grant that denies the action on the resource to the principal. */
  ghost predicate Denies(blueprint: Blueprint, principalId: string, grant: Grant, resource: string, action: string) {
    && grant in blueprint.grants
    && DenyApplies(grant, resource, action)
    && Reaches(blueprint.delegations, principalId, grant.identityId)
  }

  ghost predicate Denied(blueprint: Blueprint, principalId: string, resource: string, action: string) {
    exists grant :: Denies(blueprint, principalId, grant, resource, action)
  }

  /** The reachable identities are the ends of all walks, cycles included. */
  lemma ReachableMeansWalk(delegations: seq<Delegation>, principalId: string, reachable: seq<ReachableIdentity>,
                           id: string)
    requires Mirrors(delegations, principalId, reachable, DelegationPaths(delegations, principalId))
    ensures (exists i :: 0 <= i < |reachable| && reachable[i].identityId == id) <==>
              Reaches(delegations, principalId, id)
  {
    var paths := DelegationPaths(delegations, principalId);
    DelegationPathsAreExact(delegations, principalId);
    if i :| 0 <= i < |reachable| && reachable[i].identityId == id {
      ReachedByFollows(delegations, principalId, paths[i]);
    }
    if Reaches(delegations, principalId, id) {
      var w :| IsWalk(ArcsOf(delegations), principalId, w) && End(ArcsOf(delegations), principalId, w) == id;
      var t := WalkShortens(ArcsOf(delegations), principalId, w);
      assert t in paths;
      var i :| 0 <= i < |paths| && paths[i] == t;
      ReachedByFollows(delegations, principalId, t);
      assert reachable[i].identityId == id;
    }
  }

  /** More grants and more delegations never lift a denial. */
  lemma DenialIsMonotone(before: Blueprint, after: Blueprint, principalId: string, resource: string, action: string)
    requires forall g :: g in before.grants && g.effect.Deny? ==> g in after.grants
    requires forall d :: d in before.delegations ==> d in after.delegations
    requires Denied(before, principalId, resource, action)
    ensures Denied(after, principalId, resource, action)
  {
    var grant :| Denies(before, principalId, grant, resource, action);
    var w :| IsWalk(ArcsOf(before.delegations), principalId, w)
      && End(ArcsOf(before.delegations), principalId, w) == grant.identityId;
    var w' := WalkSurvives(before.delegations, after.delegations, principalId, w);
    assert Denies(after, principalId, grant, resource, action);
  }

  lemma {:induction false} WalkSurvives(before: seq<Delegation>, after: seq<Delegation>, principalId: string, w: Trail)
    returns (w': Trail)
    requires forall d :: d in before ==> d in after
    requires IsWalk(ArcsOf(before), principalId, w)
    ensures IsWalk(ArcsOf(after), principalId, w')
    ensures End(ArcsOf(after), principalId, w') == End(ArcsOf(before), principalId, w)
  {
    if w.Start? {
      w' := Start;
    } else {
      w' := WalkSurvives(before, after, principalId, w.prefix);
      assert before[w.arc] in after;
      var k :| 0 <= k < |after| && after[k] == before[w.arc];
      w' := Then(w', k);
    }
  }

  // ---------------------------------------------------------------- the analysis

  /**
   What one entitlement stands for: positions of a principal, its path, an allow grant there, a resource and an action.
   */
  datatype Key = Key(principal: nat, path: nat, allow: nat, resource: nat, action: nat)

  ghost function IdentityAt(blueprint: Blueprint, p: nat, i: nat): ReachableIdentity
    requires p < |blueprint.identities| && i < |DelegationPaths(blueprint.delegations, blueprint.identities[p])|
  {
    var principalId := blueprint.identities[p];
    ReachedBy(blueprint.delegations, principalId, DelegationPaths(blueprint.delegations, principalId)[i])
  }

  ghost function AllowsAt(blueprint: Blueprint, p: nat, i: nat): seq<Grant>
    requires p < |blueprint.identities| && i < |DelegationPaths(blueprint.delegations, blueprint.identities[p])|
  {
    WithEffect(GrantsOf(blueprint.grants, IdentityAt(blueprint, p, i).identityId), Allow)
  }

  ghost predicate IsKey(blueprint: Blueprint, key: Key) {
    && key.principal < |blueprint.identities|
    && key.path < |DelegationPaths(blueprint.delegations, blueprint.identities[key.principal])|
    && key.allow < |AllowsAt(blueprint, key.principal, key.path)|
    && key.resource < |AllowsAt(blueprint, key.principal, key.path)[key.allow].resourceIds|
    && key.action < |AllowsAt(blueprint, key.principal, key.path)[key.allow].actions|
  }

  ghost predicate Describes(blueprint: Blueprint, key: Key, e: EffectiveEntitlement)
    requires IsKey(blueprint, key)
  {
    var principalId := blueprint.identities[key.principal];
    var reached := IdentityAt(blueprint, key.principal, key.path);
    var allow := AllowsAt(blueprint, key.principal, key.path)[key.allow];
    && e.principalId == principalId
    && e.effectiveIdentityId == reached.identityId
    && e.viaIdentityIds == reached.viaIdentityIds
    && e.delegationIds == reached.delegationIds
    && e.delegationConditions == reached.delegationConditions
    && e.grantId == allow.id
    && e.resourceId == allow.resourceIds[key.resource]
    && e.action == allow.actions[key.action]
    && e.tenantId == allow.tenantId
    && e.grantConditions == allow.conditions
    && (e.decision.Deny? <==> Denied(blueprint, principalId, e.resourceId, e.action))
    && Distinct(e.deniedByGrantIds)
    && forall id :: id in e.deniedByGrantIds <==>
         exists grant :: Denies(blueprint, principalId, grant, e.resourceId, e.action) && grant.id == id
  }

  predicate Before(key: Key, at: Key) {
    || key.principal < at.principal
    || (key.principal == at.principal && (
      || key.path < at.path
      || (key.path == at.path && (
        || key.allow < at.allow
        || (key.allow == at.allow && (
          || key.resource < at.resource
          || (key.resource == at.resource && key.action < at.action)))))))
  }

  /** The order of the nested loops. */
  ghost predicate InLoopOrder(keys: seq<Key>) {
    forall i, j :: 0 <= i < j < |keys| ==> Before(keys[i], keys[j])
  }

  /** The entitlements of all keys before a position, each once and in order. */
  ghost predicate EmittedUpTo(blueprint: Blueprint, at: Key, keys: seq<Key>, entitlements: seq<EffectiveEntitlement>) {
    && Distinct(keys) && InLoopOrder(keys)
    && (forall key :: key in keys <==> IsKey(blueprint, key) && Before(key, at))
    && |entitlements| == |keys|
    && forall i :: 0 <= i < |keys| ==> IsKey(blueprint, keys[i]) && Describes(blueprint, keys[i], entitlements[i])
  }

  ghost predicate Emitted(blueprint: Blueprint, keys: seq<Key>, entitlements: seq<EffectiveEntitlement>) {
    && Distinct(keys) && InLoopOrder(keys)
    && (forall key :: key in keys <==> IsKey(blueprint, key))
    && |entitlements| == |keys|
    && forall i :: 0 <= i < |keys| ==> Describes(blueprint, keys[i], entitlements[i])
  }

  lemma EmitOne(blueprint: Blueprint, at: Key, keys: seq<Key>, entitlements: seq<EffectiveEntitlement>,
                e: EffectiveEntitlement)
    requires EmittedUpTo(blueprint, at, keys, entitlements)
    requires IsKey(blueprint, at) && Describes(blueprint, at, e)
    ensures EmittedUpTo(blueprint, at.(action := at.action + 1), keys + [at], entitlements + [e])
  {
    hide IsKey, Describes, Before;
    assert forall i :: 0 <= i < |keys| ==> Before(keys[i], at);
    NothingBetween(at);
    var next := at.(action := at.action + 1);
    assert forall key :: key in keys + [at] <==> IsKey(blueprint, key) && Before(key, next);
  }

  lemma NothingBetween(at: Key)
    ensures forall key :: Before(key, at.(action := at.action + 1)) <==> Before(key, at) || key == at
    ensures !Before(at, at)
  {}

  /** Positions that no key separates: carrying over at the end of a loop. */
  lemma Carry(blueprint: Blueprint, at: Key, next: Key, keys: seq<Key>, entitlements: seq<EffectiveEntitlement>)
    requires EmittedUpTo(blueprint, at, keys, entitlements)
    requires forall key :: IsKey(blueprint, key) ==> (Before(key, at) <==> Before(key, next))
    ensures EmittedUpTo(blueprint, next, keys, entitlements)
  {}

  /** Why the key under the cursor is described by the entitlement the loop body builds. */
  lemma BodyDescribes(blueprint: Blueprint, at: Key, reachable: seq<ReachableIdentity>,
                      buckets: map<string, seq<Grant>>, e: EffectiveEntitlement)
    requires IsKey(blueprint, at)
    requires forall id :: Bucket(buckets, id) == GrantsOf(blueprint.grants, id)
    requires var principalId := blueprint.identities[at.principal];
             Mirrors(blueprint.delegations, principalId, reachable, DelegationPaths(blueprint.delegations, principalId))
    requires var r, allow := reachable[at.path], AllowsAt(blueprint, at.principal, at.path)[at.allow];
             var resourceId, action := allow.resourceIds[at.resource], allow.actions[at.action];
             var deniedBy := Text.Deduplicate(ApplicableIds(AllDenies(reachable, buckets), resourceId, action));
             e == EffectiveEntitlement(
                    blueprint.identities[at.principal], r.identityId, r.viaIdentityIds, r.delegationIds,
                    r.delegationConditions, allow.id, resourceId, action, allow.tenantId, if |deniedBy| > 0 then Deny
                      else Allow, deniedBy, allow.conditions)
    ensures Describes(blueprint, at, e)
  {
    var principalId, denies := blueprint.identities[at.principal], AllDenies(reachable, buckets);
    AllDeniesMembers(reachable, buckets, blueprint.grants);
    ApplicableIdsMembers(denies, e.resourceId, e.action);
    forall grant
      ensures Denies(blueprint, principalId, grant, e.resourceId, e.action) <==>
              grant in denies && DenyApplies(grant, e.resourceId, e.action)
    {
      ReachableMeansWalk(blueprint.delegations, principalId, reachable, grant.identityId);
    }
    DeniedIffListed(blueprint, principalId, e.resourceId, e.action, e.deniedByGrantIds);
  }

  lemma DeniedIffListed(blueprint: Blueprint, principalId: string, resource: string, action: string, ids: seq<string>)
    requires forall id :: id in ids <==>
               exists grant :: Denies(blueprint, principalId, grant, resource, action) && grant.id == id
    ensures Denied(blueprint, principalId, resource, action) <==> |ids| > 0
  {
    if grant :| Denies(blueprint, principalId, grant, resource, action) {
      assert grant.id in ids;
    }
    if |ids| > 0 {
      assert ids[0] in ids;
    }
  }

  ghost predicate WithinBudget(blueprint: Blueprint, p: nat) {
    p < |blueprint.identities| ==> |DelegationPaths(blueprint.delegations, blueprint.identities[p])| <= MAX_PATHS
  }

  /**
   One entitlement per principal, simple delegation path, allow grant held at its end, resource entry and action
   entry, in the order of these; or an error naming the first principal with more than a thousand simple delegation
   paths.
   */
  method AnalyzeEntitlements(blueprint: Blueprint)
    returns (result: Result<seq<EffectiveEntitlement>, AnalysisError>, ghost keys: seq<Key>)
    ensures result.Err? ==>
              exists p :: && 0 <= p < |blueprint.identities|
                          && !WithinBudget(blueprint, p)
                          && (forall earlier :: 0 <= earlier < p ==> WithinBudget(blueprint, earlier))
                          && result.error == TooManyDelegationPaths(blueprint.identities[p])
    ensures result.Ok? ==> forall p: nat :: WithinBudget(blueprint, p)
    ensures result.Ok? ==> Emitted(blueprint, keys, result.value)
  {
    hide IsKey, Describes, EmittedUpTo, DelegationPaths, AllDenies, Mirrors, GrantsOf, WithEffect, ApplicableIds,
         MadeBy;
    var delegations := GroupDelegations(blueprint.delegations);
    var grantsByIdentity := GroupGrants(blueprint.grants);
    var entitlements: seq<EffectiveEntitlement> := [];
    keys := [];
    NothingEmitted(blueprint);
    for p := 0 to |blueprint.identities|
      invariant EmittedUpTo(blueprint, Key(p, 0, 0, 0, 0), keys, entitlements)
      invariant forall earlier :: 0 <= earlier < p ==> WithinBudget(blueprint, earlier)
    {
      var principalId := blueprint.identities[p];
      var reached := ReachableIdentities(principalId, delegations, blueprint.delegations);
      if reached.Err? {
        return Err(reached.error), keys;
      }
      var reachable := reached.value;
      entitlements, keys := EmitPrincipal(blueprint, p, reachable, grantsByIdentity, entitlements, keys);
    }
    EmittedAll(blueprint, keys, entitlements);
    result := Ok(entitlements);
  }

  lemma NothingEmitted(blueprint: Blueprint)
    ensures EmittedUpTo(blueprint, Key(0, 0, 0, 0, 0), [], [])
  {}

  lemma EmittedAll(blueprint: Blueprint, keys: seq<Key>, entitlements: seq<EffectiveEntitlement>)
    requires EmittedUpTo(blueprint, Key(|blueprint.identities|, 0, 0, 0, 0), keys, entitlements)
    ensures Emitted(blueprint, keys, entitlements)
  {}

  /** The loops over the reachable identities of one principal, their allow grants, resources and actions. */
  method EmitPrincipal(blueprint: Blueprint, p: nat, reachable: seq<ReachableIdentity>,
                       buckets: map<string, seq<Grant>>, before: seq<EffectiveEntitlement>, ghost keysBefore: seq<Key>)
    returns (entitlements: seq<EffectiveEntitlement>, ghost keys: seq<Key>)
    requires p < |blueprint.identities|
    requires forall id :: Bucket(buckets, id) == GrantsOf(blueprint.grants, id)
    requires Mirrors(blueprint.delegations, blueprint.identities[p], reachable,
                     DelegationPaths(blueprint.delegations, blueprint.identities[p]))
    requires EmittedUpTo(blueprint, Key(p, 0, 0, 0, 0), keysBefore, before)
    ensures EmittedUpTo(blueprint, Key(p + 1, 0, 0, 0, 0), keys, entitlements)
  {
    hide Describes, EmittedUpTo, DelegationPaths, AllDenies, ReachedBy, GrantsOf, WithEffect, ApplicableIds;
    var principalId := blueprint.identities[p];
    var allDenies := AllDenies(reachable, buckets);
    entitlements, keys := before, keysBefore;
    for i := 0 to |reachable|
      invariant EmittedUpTo(blueprint, Key(p, i, 0, 0, 0), keys, entitlements)
    {
      var grants := Bucket(buckets, reachable[i].identityId);
      var allows := WithEffect(grants, Allow);
      assert allows == AllowsAt(blueprint, p, i);
      for g := 0 to |allows|
        invariant EmittedUpTo(blueprint, Key(p, i, g, 0, 0), keys, entitlements)
      {
        var allow := allows[g];
        for r := 0 to |allow.resourceIds|
          invariant EmittedUpTo(blueprint, Key(p, i, g, r, 0), keys, entitlements)
        {
          for a := 0 to |allow.actions|
            invariant EmittedUpTo(blueprint, Key(p, i, g, r, a), keys, entitlements)
          {
            var resourceId, action := allow.resourceIds[r], allow.actions[a];
            var deniedBy := Text.Deduplicate(ApplicableIds(allDenies, resourceId, action));
            var e := EffectiveEntitlement(
              principalId, reachable[i].identityId, reachable[i].viaIdentityIds, reachable[i].delegationIds,
              reachable[i].delegationConditions, allow.id, resourceId, action, allow.tenantId,
              if |deniedBy| > 0 then Deny else Allow, deniedBy, allow.conditions);
            BodyDescribes(blueprint, Key(p, i, g, r, a), reachable, buckets, e);
            EmitOne(blueprint, Key(p, i, g, r, a), keys, entitlements, e);
            entitlements, keys := entitlements + [e], keys + [Key(p, i, g, r, a)];
          }
          Carry(blueprint, Key(p, i, g, r, |allow.actions|), Key(p, i, g, r + 1, 0), keys, entitlements);
        }
        Carry(blueprint, Key(p, i, g, |allow.resourceIds|, 0), Key(p, i, g + 1, 0, 0), keys, entitlements);
      }
      Carry(blueprint, Key(p, i, |allows|, 0, 0), Key(p, i + 1, 0, 0, 0), keys, entitlements);
    }
    Carry(blueprint, Key(p, |reachable|, 0, 0, 0), Key(p + 1, 0, 0, 0, 0), keys, entitlements);
  }

  // ---------------------------------------------------------------- what an entitlement means

  /** A pattern ending in ":*" covers whatever continues its prefix and colon. */
  ghost predicate Covers(pattern: string, action: string) {
    || pattern == "*" || pattern == "*:*" || pattern == action
    || exists prefix, rest :: pattern == prefix + ":*" && action == prefix + ":" + rest
  }

  /** A prefix pattern matches every action of the prefix. */
  lemma PrefixMatches(prefix: string, rest: string)
    ensures ActionPatternMatches(prefix + ":*", prefix + ":" + rest)
  {
    var pattern := prefix + ":*";
    assert pattern[|pattern| - 2..] == ":*" && pattern[..|pattern| - 1] == prefix + ":";
  }

  /** Nothing else matches. */
  lemma MatchesIfCovered(pattern: string, action: string)
    ensures ActionPatternMatches(pattern, action) <==> Covers(pattern, action)
  {
    if |pattern| >= 2 && pattern[|pattern| - 2..] == ":*" && pattern[..|pattern| - 1] <= action {
      var prefix, rest := pattern[..|pattern| - 2], action[|pattern| - 1..];
      assert pattern == prefix + ":*" && pattern[..|pattern| - 1] == prefix + ":";
      assert action == prefix + ":" + rest;
    }
    if prefix, rest :| pattern == prefix + ":*" && action == prefix + ":" + rest {
      PrefixMatches(prefix, rest);
    }
  }

  /** Delegations by position, each from one of the identities to the next. */
  ghost predicate IsDelegationChain(delegations: seq<Delegation>, ks: seq<nat>, ids: seq<string>) {
    && |ids| == |ks| + 1
    && forall i :: 0 <= i < |ks| ==>
         && ks[i] < |delegations| && delegations[ks[i]].fromIdentityId == ids[i]
         && delegations[ks[i]].toIdentityId == ids[i + 1]
  }

  lemma ChainsOfArcs(delegations: seq<Delegation>, ks: seq<nat>, ids: seq<string>)
    ensures IsDelegationChain(delegations, ks, ids) <==> IsChain(ArcsOf(delegations), ks, ids)
  {
    ArcsMatch(delegations);
    hide ArcsOf;
    if IsChain(ArcsOf(delegations), ks, ids) {
      forall i | 0 <= i < |ks|
        ensures ks[i] < |delegations|
        ensures delegations[ks[i]].fromIdentityId == ids[i] && delegations[ks[i]].toIdentityId == ids[i + 1]
      {
        assert ArcsOf(delegations)[ks[i]] == Arc(ids[i], ids[i + 1]);
      }
    }
  }

  /** Some chain of delegations leads from one identity to another. */
  ghost predicate IsDelegatedTo(delegations: seq<Delegation>, from_: string, to_: string) {
    exists ks, ids :: IsDelegationChain(delegations, ks, ids) && ids[0] == from_ && ids[|ks|] == to_
  }

  lemma ReachesByChain(delegations: seq<Delegation>, from_: string, to_: string)
    ensures Reaches(delegations, from_, to_) <==> IsDelegatedTo(delegations, from_, to_)
  {
    var arcs := ArcsOf(delegations);
    if w :| IsWalk(arcs, from_, w) && End(arcs, from_, w) == to_ {
      WalkIsChain(arcs, from_, w);
      ChainsOfArcs(delegations, Arcs(w), Stops(arcs, from_, w));
    }
    if ks, ids :| IsDelegationChain(delegations, ks, ids) && ids[0] == from_ && ids[|ks|] == to_ {
      ChainsOfArcs(delegations, ks, ids);
      var w := WalkOfChain(arcs, ks, ids);
      assert |Stops(arcs, from_, w)| == |ks| + 1;
    }
  }

  /** A deny grant for the action on the resource, held by an identity the principal is delegated to. */
  ghost predicate IsDenyFor(blueprint: Blueprint, principalId: string, resource: string, action: string, g: Grant) {
    && g in blueprint.grants && g.effect == Deny
    && (exists r :: r in g.resourceIds && (r == "*" || r == resource))
    && (exists a :: a in g.actions && Covers(a, action))
    && IsDelegatedTo(blueprint.delegations, principalId, g.identityId)
  }

  lemma DenyMeans(blueprint: Blueprint, principalId: string, resource: string, action: string, g: Grant)
    ensures Denies(blueprint, principalId, g, resource, action) <==>
              IsDenyFor(blueprint, principalId, resource, action, g)
  {
    hide Reaches, IsDelegatedTo, ActionPatternMatches, Covers;
    ReachesByChain(blueprint.delegations, principalId, g.identityId);
    forall a
      ensures ActionPatternMatches(a, action) <==> Covers(a, action)
    {
      MatchesIfCovered(a, action);
    }
    if a :| a in g.actions && Covers(a, action) {
      var i :| 0 <= i < |g.actions| && g.actions[i] == a;
    }
  }

  /**
   Deny overrides: an emitted entitlement is denied exactly if some deny grant for it exists, and lists those grants.
   */
  lemma DenyOverrides(blueprint: Blueprint, keys: seq<Key>, entitlements: seq<EffectiveEntitlement>, i: nat)
    requires Emitted(blueprint, keys, entitlements) && i < |entitlements|
    ensures var e := entitlements[i];
            && (e.decision == Deny <==> exists g :: IsDenyFor(blueprint, e.principalId, e.resourceId, e.action, g))
            && forall id :: id in e.deniedByGrantIds <==>
                 exists g :: IsDenyFor(blueprint, e.principalId, e.resourceId, e.action, g) && g.id == id
  {
    hide IsDenyFor, Denies, IsKey, IdentityAt, AllowsAt, InLoopOrder;
    assert keys[i] in keys;
    var e := entitlements[i];
    forall g
      ensures Denies(blueprint, e.principalId, g, e.resourceId, e.action) <==>
                IsDenyFor(blueprint, e.principalId, e.resourceId, e.action, g)
    {
      DenyMeans(blueprint, e.principalId, e.resourceId, e.action, g);
    }
  }

  /** What the delegations of a chain say. */
  ghost predicate IsRouteOf(delegations: seq<Delegation>, ks: seq<nat>, delegationIds: seq<string>,
                            conditions: seq<Conditions>) {
    && |delegationIds| == |conditions| == |ks|
    && forall i :: 0 <= i < |ks| ==>
         && ks[i] < |delegations| && delegationIds[i] == delegations[ks[i]].id
         && conditions[i] == if delegations[ks[i]].conditions.Some? then delegations[ks[i]].conditions.value else map[]
  }

  /** An allow grant, an entry of each of its lists, and a chain without repetition from a principal to its holder. */
  ghost predicate IsGrantedAlong(blueprint: Blueprint, e: EffectiveEntitlement, g: Grant, ks: seq<nat>) {
    && e.principalId in blueprint.identities
    && g in blueprint.grants && g.effect == Allow && g.identityId == e.effectiveIdentityId && g.id == e.grantId
    && e.resourceId in g.resourceIds && e.action in g.actions && e.tenantId == g.tenantId
    && e.grantConditions == g.conditions
    && IsDelegationChain(blueprint.delegations, ks, e.viaIdentityIds) && Distinct(e.viaIdentityIds)
    && e.viaIdentityIds[0] == e.principalId && e.viaIdentityIds[|ks|] == e.effectiveIdentityId
    && IsRouteOf(blueprint.delegations, ks, e.delegationIds, e.delegationConditions)
  }

  lemma {:induction false} RouteOfTrail(delegations: seq<Delegation>, principalId: string, t: Trail)
    requires IsWalk(ArcsOf(delegations), principalId, t)
    ensures var r := ReachedBy(delegations, principalId, t);
            IsRouteOf(delegations, Arcs(t), r.delegationIds, r.delegationConditions)
  {
    ArcsMatch(delegations);
    if t.Then? {
      RouteOfTrail(delegations, principalId, t.prefix);
    }
  }

  lemma PathIsChain(blueprint: Blueprint, p: nat, i: nat) returns (ks: seq<nat>)
    requires p < |blueprint.identities| && i < |DelegationPaths(blueprint.delegations, blueprint.identities[p])|
    ensures var r, principalId := IdentityAt(blueprint, p, i), blueprint.identities[p];
            && IsDelegationChain(blueprint.delegations, ks, r.viaIdentityIds) && Distinct(r.viaIdentityIds)
            && r.viaIdentityIds[0] == principalId && r.viaIdentityIds[|ks|] == r.identityId
            && IsRouteOf(blueprint.delegations, ks, r.delegationIds, r.delegationConditions)
  {
    hide IsRouteOf, IsWalk, DelegationPaths;
    var principalId, delegations := blueprint.identities[p], blueprint.delegations;
    var t := DelegationPaths(delegations, principalId)[i];
    DelegationPathsAreExact(delegations, principalId);
    assert t in DelegationPaths(delegations, principalId);
    ReachedByFollows(delegations, principalId, t);
    RouteOfTrail(delegations, principalId, t);
    WalkIsChain(ArcsOf(delegations), principalId, t);
    ks := Arcs(t);
    ChainsOfArcs(delegations, ks, Stops(ArcsOf(delegations), principalId, t));
  }

  /** Every entitlement comes from an allow grant at the end of a chain of delegations. */
  lemma EntitlementIsGranted(blueprint: Blueprint, keys: seq<Key>, entitlements: seq<EffectiveEntitlement>, i: nat)
    returns (g: Grant, ks: seq<nat>)
    requires Emitted(blueprint, keys, entitlements) && i < |entitlements|
    ensures IsGrantedAlong(blueprint, entitlements[i], g, ks)
  {
    hide IsRouteOf, IsDelegationChain, IdentityAt, DelegationPaths, InLoopOrder, Denied, Denies, GrantsOf, WithEffect;
    var key := keys[i];
    assert key in keys;
    g := AllowsAt(blueprint, key.principal, key.path)[key.allow];
    AllowsMembers(blueprint, key.principal, key.path, g);
    ks := PathIsChain(blueprint, key.principal, key.path);
  }

  lemma AllowsMembers(blueprint: Blueprint, p: nat, i: nat, g: Grant)
    requires p < |blueprint.identities| && i < |DelegationPaths(blueprint.delegations, blueprint.identities[p])|
    ensures g in AllowsAt(blueprint, p, i) <==>
              g in blueprint.grants && g.effect == Allow && g.identityId == IdentityAt(blueprint, p, i).identityId
  {
    hide IdentityAt;
    var id := IdentityAt(blueprint, p, i).identityId;
    GrantsOfMembers(blueprint.grants, id);
    WithEffectMembers(GrantsOf(blueprint.grants, id), Allow);
  }

  /** Every allow grant at the end of a chain without repetition gives an entitlement for each of its entries. */
  lemma GrantIsEmitted(blueprint: Blueprint, keys: seq<Key>, entitlements: seq<EffectiveEntitlement>, g: Grant,
                       ks: seq<nat>, ids: seq<string>, resource: string, action: string)
    returns (i: nat)
    requires Emitted(blueprint, keys, entitlements) && g in blueprint.grants && g.effect == Allow
    requires IsDelegationChain(blueprint.delegations, ks, ids) && Distinct(ids) && ids[0] in blueprint.identities
    requires ids[|ks|] == g.identityId && resource in g.resourceIds && action in g.actions
    ensures i < |entitlements| && IsGrantedAlong(blueprint, entitlements[i], g, ks)
    ensures entitlements[i].viaIdentityIds == ids && entitlements[i].resourceId == resource
            && entitlements[i].action == action
  {
    hide IsRouteOf, DelegationPaths, InLoopOrder, Denied, Denies, GrantsOf, WithEffect, IsWalk, ReachedBy, AllowsAt;
    var p :| 0 <= p < |blueprint.identities| && blueprint.identities[p] == ids[0];
    var path := PathOfChain(blueprint, p, ks, ids);
    AllowsMembers(blueprint, p, path, g);
    var allows := AllowsAt(blueprint, p, path);
    var a :| 0 <= a < |allows| && allows[a] == g;
    var r :| 0 <= r < |g.resourceIds| && g.resourceIds[r] == resource;
    var c :| 0 <= c < |g.actions| && g.actions[c] == action;
    var key := Key(p, path, a, r, c);
    assert IsKey(blueprint, key);
    i :| 0 <= i < |keys| && keys[i] == key;
  }

  /** The path at which a chain without repetition is listed. */
  lemma PathOfChain(blueprint: Blueprint, p: nat, ks: seq<nat>, ids: seq<string>) returns (path: nat)
    requires p < |blueprint.identities| && IsDelegationChain(blueprint.delegations, ks, ids) && Distinct(ids)
    requires ids[0] == blueprint.identities[p]
    ensures path < |DelegationPaths(blueprint.delegations, blueprint.identities[p])|
    ensures var r := IdentityAt(blueprint, p, path);
            && r.viaIdentityIds == ids && r.identityId == ids[|ks|]
            && IsRouteOf(blueprint.delegations, ks, r.delegationIds, r.delegationConditions)
  {
    hide IsRouteOf, DelegationPaths, IsWalk, ReachedBy;
    var principalId, delegations := blueprint.identities[p], blueprint.delegations;
    ChainsOfArcs(delegations, ks, ids);
    var t := WalkOfChain(ArcsOf(delegations), ks, ids);
    DelegationPathsAreExact(delegations, principalId);
    assert t in DelegationPaths(delegations, principalId);
    path :| 0 <= path < |DelegationPaths(delegations, principalId)|
    && DelegationPaths(delegations, principalId)[path] == t;
    ReachedByFollows(delegations, principalId, t);
    RouteOfTrail(delegations, principalId, t);
    assert |Stops(ArcsOf(delegations), principalId, t)| == |ks| + 1;
  }

  /** The budget of a principal is a thousand repetition-free chains of delegations. */
  lemma BudgetMeans(blueprint: Blueprint, p: nat) returns (chains: seq<seq<nat>>)
    requires p < |blueprint.identities|
    ensures WithinBudget(blueprint, p) <==> |chains| <= 1000
    ensures Distinct(chains)
    ensures forall ks :: ks in chains <==> IsRouteFrom(blueprint.delegations, blueprint.identities[p], ks)
  {
    hide DelegationPaths, IsWalk;
    var principalId, delegations := blueprint.identities[p], blueprint.delegations;
    var paths := DelegationPaths(delegations, principalId);
    DelegationPathsAreExact(delegations, principalId);
    chains := seq(|paths|, i requires 0 <= i < |paths| => Arcs(paths[i]));
    forall i, j | 0 <= i < j < |chains|
      ensures chains[i] != chains[j]
    {
      if chains[i] == chains[j] {
        SameArcsSameTrail(paths[i], paths[j]);
      }
    }
    forall ks | ks in chains
      ensures IsRouteFrom(delegations, principalId, ks)
    {
      var i :| 0 <= i < |paths| && Arcs(paths[i]) == ks;
      assert paths[i] in paths;
      WalkIsChain(ArcsOf(delegations), principalId, paths[i]);
      ChainsOfArcs(delegations, ks, Stops(ArcsOf(delegations), principalId, paths[i]));
    }
    forall ks | IsRouteFrom(delegations, principalId, ks)
      ensures ks in chains
    {
      var ids :| IsDelegationChain(delegations, ks, ids) && Distinct(ids) && ids[0] == principalId;
      ChainsOfArcs(delegations, ks, ids);
      var t := WalkOfChain(ArcsOf(delegations), ks, ids);
      assert t in paths;
      var i :| 0 <= i < |paths| && paths[i] == t;
      assert chains[i] == ks;
    }
  }

  /** Delegations by position that make a repetition-free chain from an identity. */
  ghost predicate IsRouteFrom(delegations: seq<Delegation>, from_: string, ks: seq<nat>) {
    exists ids :: IsDelegationChain(delegations, ks, ids) && Distinct(ids) && ids[0] == from_
  }

  /** A denial of all actions of a service denies each of them. */
  lemma ServiceDenialExample(e: EffectiveEntitlement, blueprint: Blueprint, keys: seq<Key>,
                             entitlements: seq<EffectiveEntitlement>)
    requires Emitted(blueprint, keys, entitlements) && e in entitlements && e.action == "s3:GetObject"
    requires Grant("deny", e.principalId, [e.resourceId], ["s3:*"], Deny, None, None) in blueprint.grants
    ensures e.decision == Deny && "deny" in e.deniedByGrantIds
  {
    hide Emitted;
    var i :| 0 <= i < |entitlements| && entitlements[i] == e;
    var g := Grant("deny", e.principalId, [e.resourceId], ["s3:*"], Deny, None, None);
    assert "s3:*" == "s3" + ":*" && "s3:GetObject" == "s3" + ":" + "GetObject";
    assert Covers("s3:*", "s3:GetObject");
    assert g.resourceIds[0] in g.resourceIds && g.actions[0] in g.actions;
    assert IsDelegationChain(blueprint.delegations, [], [e.principalId]);
    assert IsDenyFor(blueprint, e.principalId, e.resourceId, e.action, g);
    DenyOverrides(blueprint, keys, entitlements, i);
  }
}
