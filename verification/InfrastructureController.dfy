/** The authorisation of infrastructure requests (src/core/infrastructureController.ts). */
module InfrastructureController {
  import opened Wrappers
  import opened Segments
  import Text

  datatype Operation = Plan | Reconcile | Observe | Cancel | Delete

  datatype Action = PlanClaim | ReconcileClaim | ObserveClaim | CancelClaim | DeleteClaim

  datatype Environment = Nonproduction | Preproduction | Production

  datatype AuthenticationMethod = Oidc | Mtls

  datatype Actor = Actor(principalId: string, organizationId: string, tenantId: string,
                         methods: seq<AuthenticationMethod>)

  datatype Claim = Claim(claimId: string, tenantId: string, contextId: string, generation: int,
                         desiredStateDigest: string)

  datatype Permission = Permission(action: Action, resourcePrefix: string)

  datatype Grant = Grant(
    grantId: string, subjectId: string, organizationId: string, tenantId: string,
    actions: seq<Action>, resourcePrefixes: seq<string>, expiresAt: int)

  /** What the platform's URL parser makes of a text. */
  datatype Url = Url(protocol: string, username: string, password: string, search: string, hash: string)

  datatype Capability = Capability(
    capabilityId: string, format: string, issuer: string, issuerUrl: Option<Url>, subjectId: string, audience: string,
    organizationId: string, tenantId: string, action: Action, resource: string, claimGeneration: int,
    desiredStateDigest: string, planDigest: Option<string>, issuedAt: int, notBefore: int, expiresAt: int,
    oneUse: bool, cryptographicallyVerified: bool)

  datatype PlanBinding = PlanBinding(
    planDigest: string, desiredStateDigest: string, controllerVersion: string, providerId: string,
    providerVersion: string, createdAt: int, expiresAt: int, policyChecksPassed: bool, destructive: bool)

  datatype Approval = Approval(approvalId: string, approverPrincipalId: string, planDigest: string, approvedAt: int)

  datatype Sandbox = Sandbox(
    network: string, providerCredentials: bool, pulumiBackendAccess: bool, kubernetesAdminAccess: bool,
    hostAccess: bool, unixSockets: bool)

  datatype Request = Request(
    apiVersion: string, kind: string,
    requestId: string, operation: Operation, environment: Environment, actor: Actor, claim: Claim,
    pluginId: string, pluginKind: string, sandbox: Sandbox, permissions: seq<Permission>, grant: Grant,
    capability: Capability, plan: Option<PlanBinding>, approvals: seq<Approval>, idempotencyKey: Option<string>,
    deadline: int)

  datatype State = State(
    now: int, expectedAudience: string, trustedIssuers: seq<string>, redeemed: set<string>, maxCapabilityTtl: int)

  datatype Reason =
    | AuthenticationInsufficient | OrganizationMismatch | TenantMismatch | PluginManifestDenied
    | RoleGrantDenied | RoleGrantExpired
    | CapabilityUnverified | CapabilityIssuerUntrusted | CapabilityAudienceMismatch | CapabilityBindingMismatch
    | CapabilityTimeInvalid | CapabilityTtlExceeded | CapabilityNotOneUse | CapabilityReplayed
    | IdempotencyKeyMissing | DeadlineInvalid
    | PlanUnexpected | PlanRequired | PlanInvalid | PlanDigestMismatch | PolicyChecksFailed | ApprovalInsufficient
    | RequestInvalid

  datatype Audit = Audit(
    requestId: string, operation: Option<Operation>, subject: Option<Subject>, allowed: bool, evaluatedAt: int,
    reasons: seq<Reason>)

  /** What an audit record says about a parsed request. */
  datatype Subject = Subject(
    actor: string, organization: string, tenant: string, context: string, claim: string, generation: int,
    desiredStateDigest: string, planDigest: Option<string>, capabilityId: string, grantId: string)

  datatype Decision = Decision(allowed: bool, reasons: seq<Reason>, capabilityToRedeem: Option<string>, audit: Audit)

  function ActionOf(operation: Operation): Action {
    match operation
    case Plan => PlanClaim
    case Reconcile => ReconcileClaim
    case Observe => ObserveClaim
    case Cancel => CancelClaim
    case Delete => DeleteClaim
  }

  predicate IsMutation(operation: Operation) {
    operation in {Reconcile, Cancel, Delete}
  }

  predicate NeedsPlan(operation: Operation) {
    operation == Reconcile || operation == Delete
  }

  // ---------------------------------------------------------------- identifiers and resources

  predicate IsAlphanumeric(c: char) {
    'A' <= c <= 'Z' || 'a' <= c <= 'z' || '0' <= c <= '9'
  }

  predicate IsComponentCharacter(c: char) {
    IsAlphanumeric(c) || c in "._:-"
  }

  /** What the resource patterns allow between two slashes. */
  predicate IsComponent(s: string) {
    s != "" && forall k :: 0 <= k < |s| ==> IsComponentCharacter(s[k])
  }

  predicate HasTraversal(s: string) {
    exists k :: 0 <= k < |s| - 1 && s[k] == '.' && s[k + 1] == '.'
  }

  predicate IsIdentifier(s: string) {
    IsComponent(s) && IsAlphanumeric(s[0]) && |s| <= 128 && !HasTraversal(s)
  }

  function ClaimPath(organization: string, tenant: string, context: string, claim: string): string {
    "organization/" + Slash(organization, "tenant/" + Slash(tenant, "context/" + Slash(context, "claim/" + claim)))
  }

  /** The resource of a claim; fails exactly on a malformed identifier. */
  function InfrastructureResource(organization: string, tenant: string, context: string,
                                  claim: string): (r: Option<string>)
    ensures r.Some? <==>
              IsIdentifier(organization) && IsIdentifier(tenant) && IsIdentifier(context) && IsIdentifier(claim)
  {
    if IsIdentifier(organization) && IsIdentifier(tenant) && IsIdentifier(context) && IsIdentifier(claim)
    then Some(ClaimPath(organization, tenant, context, claim))
    else None
  }

  // ---------------------------------------------------------------- the resource patterns

  datatype Matched = Matched(organization: string, tenant: string, context: string, tail: string)

  /** A tag, a component and a slash; what follows is the rest. */
  function MatchSegment(tag: string, s: string): Option<(string, string)> {
    if tag <= s then
      var rest := s[|tag|..];
      var k := UntilSlash(rest);
      if k < |rest| && IsComponent(rest[..k]) then Some((rest[..k], rest[k + 1..])) else None
    else None
  }

  function MatchClaimPath(s: string): Option<Matched> {
    var organization := MatchSegment("organization/", s);
    if organization.None? then None else
      var tenant := MatchSegment("tenant/", organization.value.1);
      if tenant.None? then None else
        var context := MatchSegment("context/", tenant.value.1);
        if context.None? || !("claim/" <= context.value.1) then None
        else Some(Matched(organization.value.0, tenant.value.0, context.value.0, context.value.1[|"claim/"|..]))
  }

  lemma SegmentMatch(tag: string, s: string, a: string, rest: string)
    ensures MatchSegment(tag, s) == Some((a, rest)) <==> IsComponent(a) && s == tag + Slash(a, rest)
  {
    if IsComponent(a) && s == tag + Slash(a, rest) {
      ComponentHasNoSlash(a);
      var after := s[|tag|..];
      assert after == Slash(a, rest);
      FirstSlash(a, rest, after);
      assert after[..|a|] == a && after[|a| + 1..] == rest;
    }
  }

  /** The pattern match finds exactly the parts a path is made of. */
  lemma MatchIsExact(s: string, m: Matched)
    ensures MatchClaimPath(s) == Some(m) <==>
            && IsComponent(m.organization) && IsComponent(m.tenant) && IsComponent(m.context)
            && s == ClaimPath(m.organization, m.tenant, m.context, m.tail)
  {
    hide MatchSegment, Slash, IsComponent;
    var inner := "claim/" + m.tail;
    var middle := "context/" + Slash(m.context, inner);
    var outer := "tenant/" + Slash(m.tenant, middle);
    SegmentMatch("organization/", s, m.organization, outer);
    SegmentMatch("tenant/", outer, m.tenant, middle);
    SegmentMatch("context/", middle, m.context, inner);
    assert inner[|"claim/"|..] == m.tail;
    if MatchClaimPath(s) == Some(m) {
      var organization := MatchSegment("organization/", s).value;
      SegmentMatch("organization/", s, organization.0, organization.1);
      var tenant := MatchSegment("tenant/", organization.1).value;
      SegmentMatch("tenant/", organization.1, tenant.0, tenant.1);
      var context := MatchSegment("context/", tenant.1).value;
      SegmentMatch("context/", tenant.1, context.0, context.1);
      assert context.1 == "claim/" + m.tail;
    }
  }

  /** The prefixes a manifest or a grant may hold: one organisation, tenant and context, and no claim. */
  predicate IsClaimPrefix(prefix: string) {
    MatchClaimPath(prefix).Some? && MatchClaimPath(prefix).value.tail == "" && !HasTraversal(prefix)
  }

  /** The resources a capability may name: one exact claim. */
  predicate IsExactResource(resource: string) {
    MatchClaimPath(resource).Some? && IsComponent(MatchClaimPath(resource).value.tail) && !HasTraversal(resource)
  }

  lemma ComponentHasNoSlash(s: string)
    requires IsComponent(s)
    ensures '/' !in s
  {
    assert forall k :: 0 <= k < |s| ==> s[k] != '/';
  }

  /** A claim path begins another one exactly when organisation, tenant and context are the same. */
  lemma PathPrefix(o: string, t: string, c: string, x: string, p: string, u: string, d: string, y: string)
    requires '/' !in o && '/' !in t && '/' !in c && '/' !in p && '/' !in u && '/' !in d
    ensures ClaimPath(o, t, c, x) <= ClaimPath(p, u, d, y) <==> o == p && t == u && c == d && x <= y
  {
    hide Slash;
    var innerX, innerY := Slash(c, "claim/" + x), Slash(d, "claim/" + y);
    var middleX, middleY := Slash(t, "context/" + innerX), Slash(u, "context/" + innerY);
    var outerX, outerY := Slash(o, "tenant/" + middleX), Slash(p, "tenant/" + middleY);
    AfterTag("organization/", outerX, outerY);
    SameSegment(o, "tenant/" + middleX, p, "tenant/" + middleY);
    AfterTag("tenant/", middleX, middleY);
    SameSegment(t, "context/" + innerX, u, "context/" + innerY);
    AfterTag("context/", innerX, innerY);
    SameSegment(c, "claim/" + x, d, "claim/" + y);
    AfterTag("claim/", x, y);
  }

  /** A prefix check passes exactly for the claims of the prefix's own organisation, tenant and context. */
  lemma PrefixIsExactScope(prefix: string, organization: string, tenant: string, context: string, claim: string)
    requires IsClaimPrefix(prefix)
    requires IsIdentifier(organization) && IsIdentifier(tenant) && IsIdentifier(context) && IsIdentifier(claim)
    ensures prefix <= InfrastructureResource(organization, tenant, context, claim).value <==>
            prefix == ClaimPath(organization, tenant, context, "")
  {
    hide ClaimPath, IsComponent, HasTraversal, MatchClaimPath;
    var m := MatchClaimPath(prefix).value;
    MatchIsExact(prefix, m);
    ComponentHasNoSlash(m.organization); ComponentHasNoSlash(m.tenant); ComponentHasNoSlash(m.context);
    ComponentHasNoSlash(organization); ComponentHasNoSlash(tenant); ComponentHasNoSlash(context);
    PathPrefix(m.organization, m.tenant, m.context, "", organization, tenant, context, claim);
    PathPrefix(organization, tenant, context, "", organization, tenant, context, claim);
  }

  /** Different claims have different resources. */
  lemma ResourceIsInjective(o: string, t: string, c: string, x: string, p: string, u: string, d: string, y: string)
    requires InfrastructureResource(o, t, c, x).Some? && InfrastructureResource(p, u, d, y).Some?
    ensures InfrastructureResource(o, t, c, x) == InfrastructureResource(p, u, d, y) ==>
              o == p && t == u && c == d && x == y
  {
    hide ClaimPath, IsComponent;
    ComponentHasNoSlash(o); ComponentHasNoSlash(t); ComponentHasNoSlash(c);
    ComponentHasNoSlash(p); ComponentHasNoSlash(u); ComponentHasNoSlash(d);
    PathPrefix(o, t, c, x, p, u, d, y);
    PathPrefix(p, u, d, y, o, t, c, x);
  }

  // ---------------------------------------------------------------- well-formed requests

  const MAX_SAFE_INTEGER := 0x1f_ffff_ffff_ffff

  predicate IsPositive(n: int) {
    0 < n <= MAX_SAFE_INTEGER
  }

  predicate IdentifiersValid(q: Request) {
    && IsIdentifier(q.requestId) && IsIdentifier(q.pluginId)
    && IsIdentifier(q.actor.principalId) && IsIdentifier(q.actor.organizationId) && IsIdentifier(q.actor.tenantId)
    && IsIdentifier(q.claim.claimId) && IsIdentifier(q.claim.tenantId) && IsIdentifier(q.claim.contextId)
    && IsIdentifier(q.grant.grantId) && IsIdentifier(q.grant.subjectId)
    && IsIdentifier(q.grant.organizationId) && IsIdentifier(q.grant.tenantId)
    && IsIdentifier(q.capability.capabilityId) && IsIdentifier(q.capability.subjectId)
    && IsIdentifier(q.capability.audience)
    && IsIdentifier(q.capability.organizationId) && IsIdentifier(q.capability.tenantId)
    && (q.idempotencyKey.Some? ==> IsIdentifier(q.idempotencyKey.value))
  }

  predicate TimesAndDigestsValid(q: Request) {
    && IsPositive(q.claim.generation) && IsPositive(q.grant.expiresAt) && IsPositive(q.capability.claimGeneration)
    && IsPositive(q.capability.issuedAt) && IsPositive(q.capability.notBefore) && IsPositive(q.capability.expiresAt)
    && IsPositive(q.deadline) && IsExactResource(q.capability.resource)
    && Text.IsSha256(q.claim.desiredStateDigest) && Text.IsSha256(q.capability.desiredStateDigest)
    && (q.capability.planDigest.Some? ==> Text.IsSha256(q.capability.planDigest.value))
    && (q.plan.Some? ==>
          Text.IsSha256(q.plan.value.planDigest) && Text.IsSha256(q.plan.value.desiredStateDigest)
          && IsPositive(q.plan.value.createdAt) && IsPositive(q.plan.value.expiresAt))
    && forall k :: 0 <= k < |q.approvals| ==>
         IsIdentifier(q.approvals[k].approvalId) && IsIdentifier(q.approvals[k].approverPrincipalId)
         && Text.IsSha256(q.approvals[k].planDigest) && IsPositive(q.approvals[k].approvedAt)
  }

  const API_VERSION := "security.deus.dev/infrastructure-controller/v1alpha1"

  /** The fields that have one value only. */
  predicate LiteralsValid(q: Request) {
    && q.apiVersion == API_VERSION && q.kind == "InfrastructureControllerRequest"
    && q.pluginKind == "infrastructure-request" && q.capability.format == "v2-ed25519"
    && q.sandbox == Sandbox("broker-only", false, false, false, false, false)
  }

  predicate IsVersionSuffix(s: string) {
    s == ""
    || ((s[0] == '-' || s[0] == '+') && |s| > 1 && forall k :: 1 <= k < |s| ==>
          IsAlphanumeric(s[k]) || s[k] == '.' || s[k] == '-')
  }

  /** Three numbers and dots, then at most one suffix. */
  predicate IsVersion(s: string) {
    Text.AfterVersion(s).Some? && IsVersionSuffix(Text.AfterVersion(s).value)
  }

  predicate IsCredentialFree(u: Url) {
    u.protocol == "https:" && u.username == "" && u.password == "" && u.search == "" && u.hash == ""
  }

  /** The issuer is a plain HTTPS URL, and a plan names its provider and versions. */
  predicate OriginsValid(q: Request) {
    && q.capability.issuerUrl.Some? && IsCredentialFree(q.capability.issuerUrl.value)
    && (q.plan.Some? ==>
          IsVersion(q.plan.value.controllerVersion) && IsIdentifier(q.plan.value.providerId)
          && IsVersion(q.plan.value.providerVersion))
  }

  function Approvers(approvals: seq<Approval>): seq<string> {
    seq(|approvals|, k requires 0 <= k < |approvals| => approvals[k].approverPrincipalId)
  }

  predicate PrefixesValid(q: Request) {
    && (forall k :: 0 <= k < |q.permissions| ==> IsClaimPrefix(q.permissions[k].resourcePrefix))
    && (forall k :: 0 <= k < |q.grant.resourcePrefixes| ==> IsClaimPrefix(q.grant.resourcePrefixes[k]))
  }

  /** What the parser lets through; scope patterns of prefixes and the uniqueness of every list. */
  ghost predicate IsWellFormed(q: Request) {
    && LiteralsValid(q) && OriginsValid(q) && IdentifiersValid(q) && TimesAndDigestsValid(q) && PrefixesValid(q)
    && q.actor.methods != [] && q.permissions != [] && q.grant.actions != [] && q.grant.resourcePrefixes != []
    && Distinct(q.actor.methods) && Distinct(q.permissions) && Distinct(q.grant.actions)
    && Distinct(q.grant.resourcePrefixes)
    && Distinct(Approvers(q.approvals))
  }

  /** The parser accepts exactly the well-formed requests. */
  method Parse(q: Request) returns (ok: bool)
    ensures ok <==> IsWellFormed(q)
  {
    hide LiteralsValid, OriginsValid, IdentifiersValid, TimesAndDigestsValid, PrefixesValid;
    if !LiteralsValid(q) || !OriginsValid(q) || !IdentifiersValid(q) || !TimesAndDigestsValid(q) || !PrefixesValid(q) {
      return false;
    }
    if q.actor.methods == [] || q.permissions == [] || q.grant.actions == [] || q.grant.resourcePrefixes == [] {
      return false;
    }
    var unique := AreUnique(q.actor.methods);
    if unique {
      unique := AreUnique(q.permissions);
    }
    if unique {
      unique := AreUnique(q.grant.actions);
    }
    if unique {
      unique := AreUnique(q.grant.resourcePrefixes);
    }
    if unique {
      unique := AreUnique(Approvers(q.approvals));
    }
    return unique;
  }

  // ---------------------------------------------------------------- the reasons for a denial

  function Resource(q: Request): string {
    ClaimPath(q.actor.organizationId, q.claim.tenantId, q.claim.contextId, q.claim.claimId)
  }

  function RequiredApprovals(q: Request): nat {
    if q.operation == Delete then 2 else if q.environment == Production then 1 else 0
  }

  predicate LacksPermission(q: Request) {
    !exists p :: p in q.permissions && p.action == ActionOf(q.operation) && p.resourcePrefix <= Resource(q)
  }

  predicate LacksGrant(q: Request) {
    || q.grant.subjectId != q.actor.principalId || ActionOf(q.operation) !in q.grant.actions
    || !exists p :: p in q.grant.resourcePrefixes && p <= Resource(q)
  }

  predicate BoundElsewhere(q: Request) {
    var c := q.capability;
    || c.subjectId != q.actor.principalId || c.action != ActionOf(q.operation) || c.resource != Resource(q)
    || c.claimGeneration != q.claim.generation || c.desiredStateDigest != q.claim.desiredStateDigest
  }

  predicate OutsideValidity(c: Capability, now: int) {
    c.issuedAt > now || c.notBefore > now || c.expiresAt <= now || c.notBefore < c.issuedAt
  }

  predicate PlanUnusable(q: Request, p: PlanBinding, now: int) {
    || p.desiredStateDigest != q.claim.desiredStateDigest || p.expiresAt <= now || p.createdAt > now
    || p.expiresAt <= p.createdAt || p.destructive != (q.operation == Delete)
  }

  predicate OtherPlanNamed(q: Request, p: PlanBinding) {
    q.capability.planDigest != Some(p.planDigest) || exists a :: a in q.approvals && a.planDigest != p.planDigest
  }

  predicate ApprovalUsable(q: Request, p: PlanBinding, now: int, approval: Approval) {
    approval.approverPrincipalId != q.actor.principalId && p.createdAt <= approval.approvedAt <= now
  }

  predicate SomeApprovalUnusable(q: Request, p: PlanBinding, now: int) {
    exists a :: a in q.approvals && !ApprovalUsable(q, p, now, a)
  }

  /** When each reason is given. */
  predicate IsDenied(q: Request, s: State, reason: Reason) {
    var c, planned, mutation := q.capability, NeedsPlan(q.operation), IsMutation(q.operation);
    match reason
    case AuthenticationInsufficient => Oidc !in q.actor.methods || Mtls !in q.actor.methods
    case OrganizationMismatch =>
      q.actor.organizationId != c.organizationId || q.actor.organizationId != q.grant.organizationId
    case TenantMismatch =>
      q.actor.tenantId != q.claim.tenantId || q.actor.tenantId != c.tenantId || q.actor.tenantId != q.grant.tenantId
    case PluginManifestDenied => LacksPermission(q)
    case RoleGrantDenied => LacksGrant(q)
    case RoleGrantExpired => q.grant.expiresAt <= s.now
    case CapabilityUnverified => !c.cryptographicallyVerified
    case CapabilityIssuerUntrusted => c.issuer !in s.trustedIssuers
    case CapabilityAudienceMismatch => c.audience != s.expectedAudience
    case CapabilityBindingMismatch => BoundElsewhere(q)
    case CapabilityTimeInvalid => OutsideValidity(c, s.now)
    case CapabilityTtlExceeded => c.expiresAt - c.issuedAt > s.maxCapabilityTtl
    case CapabilityNotOneUse => mutation && !c.oneUse
    case CapabilityReplayed => c.capabilityId in s.redeemed
    case IdempotencyKeyMissing => mutation && q.idempotencyKey.None?
    case DeadlineInvalid => q.deadline <= s.now || q.deadline > c.expiresAt
    case PlanUnexpected => !planned && q.plan.Some?
    case PlanRequired => planned && q.plan.None?
    case PlanInvalid => planned && q.plan.Some? && PlanUnusable(q, q.plan.value, s.now)
    case PlanDigestMismatch =>
      (!planned && c.planDigest.Some?) || (planned && q.plan.Some? && OtherPlanNamed(q, q.plan.value))
    case PolicyChecksFailed => planned && q.plan.Some? && !q.plan.value.policyChecksPassed
    case ApprovalInsufficient => planned && q.plan.Some?
      && (SomeApprovalUnusable(q, q.plan.value, s.now) || |q.approvals| < RequiredApprovals(q))
    case RequestInvalid => false
  }

  /** The order in which the reasons are looked at. */
  const ORDER: seq<Reason> := [
    AuthenticationInsufficient, OrganizationMismatch, TenantMismatch, PluginManifestDenied, RoleGrantDenied,
    RoleGrantExpired, CapabilityUnverified, CapabilityIssuerUntrusted, CapabilityAudienceMismatch,
    CapabilityBindingMismatch, CapabilityTimeInvalid, CapabilityTtlExceeded, CapabilityNotOneUse, CapabilityReplayed,
    IdempotencyKeyMissing, DeadlineInvalid, PlanUnexpected, PlanRequired, PlanInvalid, PlanDigestMismatch,
    PolicyChecksFailed, ApprovalInsufficient]

  function Rank(reason: Reason): nat {
    match reason
    case AuthenticationInsufficient => 0
    case OrganizationMismatch => 1
    case TenantMismatch => 2
    case PluginManifestDenied => 3
    case RoleGrantDenied => 4
    case RoleGrantExpired => 5
    case CapabilityUnverified => 6
    case CapabilityIssuerUntrusted => 7
    case CapabilityAudienceMismatch => 8
    case CapabilityBindingMismatch => 9
    case CapabilityTimeInvalid => 10
    case CapabilityTtlExceeded => 11
    case CapabilityNotOneUse => 12
    case CapabilityReplayed => 13
    case IdempotencyKeyMissing => 14
    case DeadlineInvalid => 15
    case PlanUnexpected => 16
    case PlanRequired => 17
    case PlanInvalid => 18
    case PlanDigestMismatch => 19
    case PolicyChecksFailed => 20
    case ApprovalInsufficient => 21
    case RequestInvalid => 22
  }

  /** The reasons that apply among the first n. */
  ghost function Reasons(q: Request, s: State, n: nat): seq<Reason>
    requires n <= |ORDER|
  {
    if n == 0 then [] else Reasons(q, s, n - 1) + if IsDenied(q, s, ORDER[n - 1]) then [ORDER[n - 1]] else []
  }

  lemma {:induction false} ReasonsAreTheDenials(q: Request, s: State, n: nat, reason: Reason)
    requires n <= |ORDER|
    ensures reason in Reasons(q, s, n) <==> Rank(reason) < n && IsDenied(q, s, reason)
  {
    hide IsDenied, Rank;
    OrderOfRank(reason);
    if n > 0 {
      ReasonsAreTheDenials(q, s, n - 1, reason);
      assert Rank(ORDER[n - 1]) == n - 1 by {
        RankOfOrder(n - 1);
      }
    }
  }

  lemma RankOfOrder(n: nat)
    requires n < |ORDER|
    ensures Rank(ORDER[n]) == n
  {}

  lemma OrderOfRank(reason: Reason)
    ensures reason == RequestInvalid ==> Rank(reason) == |ORDER|
    ensures reason != RequestInvalid ==> Rank(reason) < |ORDER| && ORDER[Rank(reason)] == reason
  {}

  // ---------------------------------------------------------------- the authorisation as written

  /** The reasons collected so far. */
  class DenialLog {
    var reasons: seq<Reason>

    constructor ()
      ensures reasons == []
    {
      reasons := [];
    }

    method Deny(reason: Reason)
      modifies this
      ensures reasons == if reason in old(reasons) then old(reasons) else old(reasons) + [reason]
    {
      if reason !in reasons {
        reasons := reasons + [reason];
      }
    }

    /** One check of the list: the next reason in order, given exactly when it applies. */
    method DenyWhen(condition: bool, reason: Reason, ghost q: Request, ghost s: State)
      requires reason != RequestInvalid && (condition <==> IsDenied(q, s, reason))
      requires Rank(reason) < |ORDER| && reasons == Reasons(q, s, Rank(reason))
      modifies this
      ensures reasons == Reasons(q, s, Rank(reason) + 1)
    {
      OrderOfRank(reason);
      ReasonsAreTheDenials(q, s, Rank(reason), reason);
      if condition {
        Deny(reason);
      }
    }

    /** Who asks, for whom, and with which grant. */
    method CheckActorAndGrant(q: Request, s: State)
      requires reasons == []
      modifies this
      ensures reasons == Reasons(q, s, 6)
    {
      hide Reasons, LacksPermission, LacksGrant, BoundElsewhere, OutsideValidity;
      ReasonsBegin(q, s);
      DenyWhen(Oidc !in q.actor.methods || Mtls !in q.actor.methods, AuthenticationInsufficient, q, s);
      DenyWhen(q.actor.organizationId != q.capability.organizationId
               || q.actor.organizationId != q.grant.organizationId, OrganizationMismatch, q, s);
      DenyWhen(q.actor.tenantId != q.claim.tenantId || q.actor.tenantId != q.capability.tenantId
               || q.actor.tenantId != q.grant.tenantId,
               TenantMismatch, q, s);
      DenyWhen(LacksPermission(q), PluginManifestDenied, q, s);
      DenyWhen(LacksGrant(q), RoleGrantDenied, q, s);
      DenyWhen(q.grant.expiresAt <= s.now, RoleGrantExpired, q, s);
    }

    method CheckCapabilityTrust(q: Request, s: State)
      requires reasons == Reasons(q, s, 6)
      modifies this
      ensures reasons == Reasons(q, s, 10)
    {
      hide Reasons, LacksPermission, LacksGrant, BoundElsewhere, OutsideValidity;
      var c := q.capability;
      DenyWhen(!c.cryptographicallyVerified, CapabilityUnverified, q, s);
      DenyWhen(c.issuer !in s.trustedIssuers, CapabilityIssuerUntrusted, q, s);
      DenyWhen(c.audience != s.expectedAudience, CapabilityAudienceMismatch, q, s);
      DenyWhen(BoundElsewhere(q), CapabilityBindingMismatch, q, s);
    }

    /** When and how often the capability may be used, and by when the request must be done. */
    method CheckCapabilityUse(q: Request, s: State)
      requires reasons == Reasons(q, s, 10)
      modifies this
      ensures reasons == Reasons(q, s, 16)
    {
      hide Reasons, OutsideValidity;
      var c := q.capability;
      DenyWhen(OutsideValidity(c, s.now), CapabilityTimeInvalid, q, s);
      DenyWhen(c.expiresAt - c.issuedAt > s.maxCapabilityTtl, CapabilityTtlExceeded, q, s);
      DenyWhen(IsMutation(q.operation) && !c.oneUse, CapabilityNotOneUse, q, s);
      DenyWhen(c.capabilityId in s.redeemed, CapabilityReplayed, q, s);
      DenyWhen(IsMutation(q.operation) && q.idempotencyKey.None?, IdempotencyKeyMissing, q, s);
      DenyWhen(q.deadline <= s.now || q.deadline > c.expiresAt, DeadlineInvalid, q, s);
    }

    method AuthorizePlanAndApprovals(q: Request, s: State)
      requires reasons == Reasons(q, s, 16)
      modifies this
      ensures reasons == Reasons(q, s, 22)
    {
      hide Reasons, IsDenied;
      if !NeedsPlan(q.operation) {
        ReasonsWithoutPlan(q, s);
        DenyWhen(q.plan.Some?, PlanUnexpected, q, s);
        DenyWhen(q.capability.planDigest.Some?, PlanDigestMismatch, q, s);
        return;
      }
      if q.plan.None? {
        ReasonsForMissingPlan(q, s);
        DenyWhen(true, PlanRequired, q, s);
        return;
      }
      ReasonsBeforePlan(q, s);
      CheckPlan(q, s);
    }

    method CheckPlan(q: Request, s: State)
      requires NeedsPlan(q.operation) && q.plan.Some?
      requires reasons == Reasons(q, s, 18)
      modifies this
      ensures reasons == Reasons(q, s, 22)
    {
      hide Reasons, PlanUnusable, OtherPlanNamed, SomeApprovalUnusable;
      var p := q.plan.value;
      DenyWhen(PlanUnusable(q, p, s.now), PlanInvalid, q, s);
      DenyWhen(OtherPlanNamed(q, p), PlanDigestMismatch, q, s);
      DenyWhen(!p.policyChecksPassed, PolicyChecksFailed, q, s);
      ReasonsAreTheDenials(q, s, 21, ApprovalInsufficient);
      ReasonsSkip(q, s, 21, 22);
      if SomeApprovalUnusable(q, p, s.now) {
        Deny(ApprovalInsufficient);
      }
      if |q.approvals| < RequiredApprovals(q) {
        Deny(ApprovalInsufficient);
      }
    }
  }

  lemma ReasonsBegin(q: Request, s: State)
    ensures Reasons(q, s, 0) == []
  {}

  /** The next reasons, as far as they do not apply, and the last one if it does. */
  lemma {:induction false} ReasonsSkip(q: Request, s: State, m: nat, n: nat)
    requires m <= n <= |ORDER|
    ensures (forall k :: m <= k < n ==> !IsDenied(q, s, ORDER[k])) ==> Reasons(q, s, n) == Reasons(q, s, m)
    ensures n == m + 1 && IsDenied(q, s, ORDER[m]) ==> Reasons(q, s, n) == Reasons(q, s, m) + [ORDER[m]]
    decreases n
  {
    hide IsDenied;
    if m < n {
      ReasonsSkip(q, s, m, n - 1);
    }
  }

  function AuditOf(q: Request, s: State, allowed: bool, reasons: seq<Reason>): Audit {
    Audit(q.requestId, Some(q.operation),
          Some(Subject(q.actor.principalId, q.actor.organizationId, q.claim.tenantId, q.claim.contextId,
                       q.claim.claimId, q.claim.generation, q.claim.desiredStateDigest,
                       if q.plan.Some? then Some(q.plan.value.planDigest) else None,
                       q.capability.capabilityId, q.grant.grantId)),
          allowed, s.now, reasons)
  }

  /** Without a need for a plan, only an unexpected plan or plan digest comes into question. */
  lemma ReasonsWithoutPlan(q: Request, s: State)
    requires !NeedsPlan(q.operation)
    ensures Reasons(q, s, 19) == Reasons(q, s, 17) && Reasons(q, s, 22) == Reasons(q, s, 20)
    ensures IsDenied(q, s, PlanUnexpected) <==> q.plan.Some?
    ensures IsDenied(q, s, PlanDigestMismatch) <==> q.capability.planDigest.Some?
  {
    hide Reasons;
    ReasonsSkip(q, s, 17, 19);
    ReasonsSkip(q, s, 20, 22);
  }

  lemma ReasonsForMissingPlan(q: Request, s: State)
    requires NeedsPlan(q.operation) && q.plan.None?
    ensures Reasons(q, s, 17) == Reasons(q, s, 16) && Reasons(q, s, 22) == Reasons(q, s, 18)
    ensures IsDenied(q, s, PlanRequired)
  {
    hide Reasons;
    ReasonsSkip(q, s, 16, 17);
    ReasonsSkip(q, s, 18, 22);
  }

  lemma ReasonsBeforePlan(q: Request, s: State)
    requires NeedsPlan(q.operation) && q.plan.Some?
    ensures Reasons(q, s, 18) == Reasons(q, s, 16)
  {
    hide Reasons;
    ReasonsSkip(q, s, 16, 18);
  }

  /** The decision on a request: allowed exactly when it is well-formed and no reason applies. */
  method Authorize(q: Request, s: State) returns (decision: Decision)
    ensures decision.allowed <==> IsAllowed(q, s)
    ensures decision.reasons == if IsWellFormed(q) then Reasons(q, s, |ORDER|) else [RequestInvalid]
    ensures decision.capabilityToRedeem == Redeems(q, s)
    ensures decision.audit.allowed == decision.allowed && decision.audit.reasons == decision.reasons
    ensures decision.audit.evaluatedAt == s.now
    ensures IsWellFormed(q) ==> decision.audit == AuditOf(q, s, decision.allowed, decision.reasons)
  {
    hide Reasons, IsDenied;
    var parsed := Parse(q);
    if !parsed {
      var reasons := [RequestInvalid];
      return Decision(false, reasons, None, Audit("invalid", None, None, false, s.now, reasons));
    }
    var resource :=
      InfrastructureResource(q.actor.organizationId, q.claim.tenantId, q.claim.contextId, q.claim.claimId);
    assert resource == Some(Resource(q));
    var log := new DenialLog();
    log.CheckActorAndGrant(q, s);
    log.CheckCapabilityTrust(q, s);
    log.CheckCapabilityUse(q, s);
    log.AuthorizePlanAndApprovals(q, s);
    var allowed := |log.reasons| == 0;
    NoReasons(q, s);
    var redeem := if allowed && IsMutation(q.operation) then Some(q.capability.capabilityId) else None;
    decision := Decision(allowed, log.reasons, redeem, AuditOf(q, s, allowed, log.reasons));
  }

  ghost predicate IsAllowed(q: Request, s: State) {
    IsWellFormed(q) && forall reason :: !IsDenied(q, s, reason)
  }

  ghost function Redeems(q: Request, s: State): Option<string> {
    if IsAllowed(q, s) && IsMutation(q.operation) then Some(q.capability.capabilityId) else None
  }

  lemma NoReasons(q: Request, s: State)
    ensures |Reasons(q, s, |ORDER|)| == 0 <==> forall reason :: !IsDenied(q, s, reason)
  {
    hide Reasons;
    forall reason
      ensures reason in Reasons(q, s, |ORDER|) <==> IsDenied(q, s, reason)
    {
      ReasonsAreTheDenials(q, s, |ORDER|, reason);
    }
    if |Reasons(q, s, |ORDER|)| > 0 {
      assert Reasons(q, s, |ORDER|)[0] in Reasons(q, s, |ORDER|);
    }
  }

  // ---------------------------------------------------------------- when a request is allowed

  function Max(a: int, b: int): int {
    if a < b then b else a
  }

  function Min(a: int, b: int): int {
    if a < b then a else b
  }

  function LatestApproval(approvals: seq<Approval>, start: int): int {
    if approvals == [] then start
    else Max(LatestApproval(approvals[..|approvals| - 1], start), approvals[|approvals| - 1].approvedAt)
  }

  /** The first instant at which nothing the request rests on is still to come. */
  function Opens(q: Request): int {
    var capability := Max(q.capability.issuedAt, q.capability.notBefore);
    if NeedsPlan(q.operation) && q.plan.Some?
    then LatestApproval(q.approvals, Max(capability, q.plan.value.createdAt))
    else capability
  }

  /** The first instant at which something the request rests on is over. */
  function Closes(q: Request): int {
    var all := Min(q.deadline, Min(q.capability.expiresAt, q.grant.expiresAt));
    if NeedsPlan(q.operation) && q.plan.Some? then Min(all, q.plan.value.expiresAt) else all
  }

  predicate PlanEligible(q: Request, p: PlanBinding) {
    && p.desiredStateDigest == q.claim.desiredStateDigest && p.createdAt < p.expiresAt
    && p.destructive == (q.operation == Delete) && p.policyChecksPassed && !OtherPlanNamed(q, p)
    && |q.approvals| >= RequiredApprovals(q)
    && forall a :: a in q.approvals ==> a.approverPrincipalId != q.actor.principalId && p.createdAt <= a.approvedAt
  }

  predicate PlanningEligible(q: Request) {
    if NeedsPlan(q.operation) then q.plan.Some? && PlanEligible(q, q.plan.value)
    else q.plan.None? && q.capability.planDigest.None?
  }

  predicate CapabilityEligible(q: Request, s: State) {
    var c := q.capability;
    && c.cryptographicallyVerified && c.issuer in s.trustedIssuers && c.audience == s.expectedAudience
    && !BoundElsewhere(q) && c.issuedAt <= c.notBefore && c.expiresAt - c.issuedAt <= s.maxCapabilityTtl
    && c.capabilityId !in s.redeemed && (IsMutation(q.operation) ==> c.oneUse && q.idempotencyKey.Some?)
    && q.deadline <= c.expiresAt
  }

  predicate ActorEligible(q: Request) {
    && Oidc in q.actor.methods && Mtls in q.actor.methods
    && q.actor.organizationId == q.capability.organizationId == q.grant.organizationId
    && q.actor.tenantId == q.claim.tenantId == q.capability.tenantId == q.grant.tenantId
    && !LacksPermission(q) && !LacksGrant(q)
  }

  /** Everything that is required of a request at whatever time. */
  ghost predicate IsEligible(q: Request, s: State) {
    IsWellFormed(q) && ActorEligible(q) && CapabilityEligible(q, s) && PlanningEligible(q)
  }

  lemma {:induction false} LatestApprovalIsLatest(approvals: seq<Approval>, start: int, now: int)
    ensures LatestApproval(approvals, start) <= now <==>
              start <= now && forall a :: a in approvals ==> a.approvedAt <= now
  {
    if approvals != [] {
      var n := |approvals| - 1;
      LatestApprovalIsLatest(approvals[..n], start, now);
      assert approvals == approvals[..n] + [approvals[n]];
    }
  }

  predicate ActorAndGrantPass(q: Request, s: State) {
    && !IsDenied(q, s, AuthenticationInsufficient) && !IsDenied(q, s, OrganizationMismatch)
    && !IsDenied(q, s, TenantMismatch) && !IsDenied(q, s, PluginManifestDenied)
    && !IsDenied(q, s, RoleGrantDenied) && !IsDenied(q, s, RoleGrantExpired)
  }

  predicate CapabilityPasses(q: Request, s: State) {
    && !IsDenied(q, s, CapabilityUnverified) && !IsDenied(q, s, CapabilityIssuerUntrusted)
    && !IsDenied(q, s, CapabilityAudienceMismatch) && !IsDenied(q, s, CapabilityBindingMismatch)
    && !IsDenied(q, s, CapabilityTimeInvalid) && !IsDenied(q, s, CapabilityTtlExceeded)
    && !IsDenied(q, s, CapabilityNotOneUse) && !IsDenied(q, s, CapabilityReplayed)
    && !IsDenied(q, s, IdempotencyKeyMissing) && !IsDenied(q, s, DeadlineInvalid)
  }

  predicate PlanPasses(q: Request, s: State) {
    && !IsDenied(q, s, PlanUnexpected) && !IsDenied(q, s, PlanRequired) && !IsDenied(q, s, PlanInvalid)
    && !IsDenied(q, s, PlanDigestMismatch) && !IsDenied(q, s, PolicyChecksFailed)
    && !IsDenied(q, s, ApprovalInsufficient)
  }

  lemma NotDeniedInGroups(q: Request, s: State)
    ensures (forall reason :: !IsDenied(q, s, reason)) <==>
              ActorAndGrantPass(q, s) && CapabilityPasses(q, s) && PlanPasses(q, s)
  {
    assert !IsDenied(q, s, RequestInvalid);
    hide IsDenied;
  }

  lemma ActorAndGrantWindow(q: Request, s: State)
    ensures ActorAndGrantPass(q, s) <==> ActorEligible(q) && s.now < q.grant.expiresAt
  {
    hide LacksPermission, LacksGrant;
  }

  lemma CapabilityWindow(q: Request, s: State)
    ensures CapabilityPasses(q, s) <==>
            && CapabilityEligible(q, s) && q.capability.issuedAt <= s.now && q.capability.notBefore <= s.now
            && s.now < q.capability.expiresAt && s.now < q.deadline
  {
    hide BoundElsewhere;
  }

  lemma PlanWindow(q: Request, s: State)
    ensures PlanPasses(q, s) <==>
            && PlanningEligible(q)
            && (NeedsPlan(q.operation) && q.plan.Some? ==>
                  && q.plan.value.createdAt <= s.now < q.plan.value.expiresAt
                  && forall a :: a in q.approvals ==> a.approvedAt <= s.now)
  {
    hide OtherPlanNamed, RequiredApprovals;
  }

  /**
   For a fixed request, trust configuration and redeemed set, the instants at which it is allowed are exactly one
   half-open interval (none at all if the request is not eligible).
   */
  lemma AllowedInstantsAreOneInterval(q: Request, s: State, now: int)
    ensures IsAllowed(q, s.(now := now)) <==> IsEligible(q, s) && Opens(q) <= now < Closes(q)
  {
    hide IsDenied, IsWellFormed, ActorAndGrantPass, CapabilityPasses, PlanPasses, ActorEligible, PlanEligible;
    var t := s.(now := now);
    NotDeniedInGroups(q, t);
    ActorAndGrantWindow(q, t);
    CapabilityWindow(q, t);
    PlanWindow(q, t);
    if q.plan.Some? {
      LatestApprovalIsLatest(
        q.approvals, Max(Max(q.capability.issuedAt, q.capability.notBefore), q.plan.value.createdAt), now);
    }
  }

  /** The interval is no longer than the lifetime a capability may have. */
  lemma IntervalIsShort(q: Request, s: State)
    requires IsEligible(q, s)
    ensures Closes(q) - Opens(q) <= s.maxCapabilityTtl
  {
    hide IsWellFormed, ActorEligible, PlanningEligible, BoundElsewhere, LacksGrant;
    if q.plan.Some? {
      var start := Max(Max(q.capability.issuedAt, q.capability.notBefore), q.plan.value.createdAt);
      LatestApprovalIsLatest(q.approvals, start, LatestApproval(q.approvals, start));
    }
  }

  // ---------------------------------------------------------------- what an allowed request is bound to

  /** Manifest, grant and capability of an allowed request name its own organisation, tenant, context and claim. */
  lemma AllowedIsInScope(q: Request, s: State)
    requires IsAllowed(q, s)
    ensures q.actor.organizationId == q.grant.organizationId == q.capability.organizationId
    ensures q.actor.tenantId == q.claim.tenantId == q.grant.tenantId == q.capability.tenantId
    ensures var scope := ClaimPath(q.actor.organizationId, q.actor.tenantId, q.claim.contextId, "");
            && Permission(ActionOf(q.operation), scope) in q.permissions
            && scope in q.grant.resourcePrefixes && ActionOf(q.operation) in q.grant.actions
            && q.capability.resource == scope + q.claim.claimId && q.capability.action == ActionOf(q.operation)
    ensures q.capability.subjectId == q.grant.subjectId == q.actor.principalId
  {
    hide IsDenied, TimesAndDigestsValid, IsClaimPrefix, IsIdentifier, CapabilityPasses, PlanPasses, ActorAndGrantPass,
         ClaimPath;
    NotDeniedInGroups(q, s);
    ActorAndGrantWindow(q, s);
    CapabilityWindow(q, s);
    assert PrefixesValid(q);
    var permission :| permission in q.permissions && permission.action == ActionOf(q.operation)
      && permission.resourcePrefix <= Resource(q);
    var prefix :| prefix in q.grant.resourcePrefixes && prefix <= Resource(q);
    ScopeOf(q, permission.resourcePrefix);
    ScopeOf(q, prefix);
    PathIsScopeAndClaim(q);
  }

  lemma ScopeOf(q: Request, prefix: string)
    requires IdentifiersValid(q) && IsClaimPrefix(prefix) && prefix <= Resource(q)
    ensures prefix == ClaimPath(q.actor.organizationId, q.claim.tenantId, q.claim.contextId, "")
  {
    hide IsIdentifier, IsClaimPrefix, ClaimPath;
    PrefixIsExactScope(prefix, q.actor.organizationId, q.claim.tenantId, q.claim.contextId, q.claim.claimId);
  }

  lemma PathIsScopeAndClaim(q: Request)
    ensures Resource(q) == ClaimPath(q.actor.organizationId, q.claim.tenantId, q.claim.contextId, "") + q.claim.claimId
  {}

  /**
   An allowed deletion has at least two approvers, none of them the actor, of exactly this plan, since it was made.
   */
  lemma DeletionNeedsTwoApprovers(q: Request, s: State)
    requires IsAllowed(q, s) && q.operation == Delete
    ensures q.plan.Some? && q.plan.value.destructive && q.plan.value.policyChecksPassed
    ensures q.capability.planDigest == Some(q.plan.value.planDigest)
    ensures q.capability.desiredStateDigest == q.plan.value.desiredStateDigest == q.claim.desiredStateDigest
    ensures |set p | p in Approvers(q.approvals)| >= 2
    ensures q.actor.principalId !in Approvers(q.approvals)
    ensures forall a :: a in q.approvals ==>
              a.planDigest == q.plan.value.planDigest && q.plan.value.createdAt <= a.approvedAt <= s.now
  {
    hide IsDenied, IdentifiersValid, TimesAndDigestsValid, PrefixesValid, CapabilityPasses, PlanPasses,
         ActorAndGrantPass;
    NotDeniedInGroups(q, s);
    CapabilityWindow(q, s);
    PlanWindow(q, s);
    DistinctBySize(Approvers(q.approvals));
    forall p | p in Approvers(q.approvals)
      ensures p != q.actor.principalId
    {
      var k :| 0 <= k < |q.approvals| && Approvers(q.approvals)[k] == p;
      assert q.approvals[k] in q.approvals;
    }
  }

  // ---------------------------------------------------------------- runs

  /** A request decided at some time; the state holds the capability identifiers recorded before it. */
  datatype Event = Event(request: Request, state: State)

  /** The identifiers a host has recorded after some decisions: the initial ones and every `capabilityToRedeem`. */
  ghost function Recorded(initial: set<string>, events: seq<Event>): set<string> {
    if events == [] then initial
    else
      var last := events[|events| - 1];
      var redeemed := Redeems(last.request, last.state);
      Recorded(initial, events[..|events| - 1]) + if redeemed.Some? then {redeemed.value} else {}
  }

  ghost predicate IsRun(initial: set<string>, events: seq<Event>) {
    forall k :: 0 <= k < |events| ==> events[k].state.redeemed == Recorded(initial, events[..k])
  }

  lemma {:induction false} RecordedStays(initial: set<string>, events: seq<Event>, i: nat, n: nat)
    requires i < n <= |events| && Redeems(events[i].request, events[i].state).Some?
    ensures events[i].request.capability.capabilityId in Recorded(initial, events[..n])
  {
    hide IsAllowed;
    assert events[..n][..n - 1] == events[..n - 1];
    if i < n - 1 {
      RecordedStays(initial, events, i, n - 1);
    }
  }

  /** After an allowed mutation its capability allows nothing any more, whatever the clock and the requests do. */
  lemma NothingAfterAMutation(initial: set<string>, events: seq<Event>, i: nat, j: nat)
    requires IsRun(initial, events) && i < j < |events|
    requires Redeems(events[i].request, events[i].state).Some?
    requires events[j].request.capability.capabilityId == events[i].request.capability.capabilityId
    ensures !IsAllowed(events[j].request, events[j].state)
  {
    RecordedStays(initial, events, i, j);
    assert IsDenied(events[j].request, events[j].state, CapabilityReplayed);
  }

  /** So a capability authorises at most one mutation in a run, and none if it was recorded before. */
  lemma OneMutationPerCapability(initial: set<string>, events: seq<Event>, i: nat, j: nat)
    requires IsRun(initial, events) && i < |events| && j < |events|
    requires Redeems(events[i].request, events[i].state).Some?
    requires Redeems(events[i].request, events[i].state) == Redeems(events[j].request, events[j].state)
    ensures i == j && Redeems(events[i].request, events[i].state).value !in initial
  {
    hide IsDenied, IsWellFormed;
    if i < j {
      NothingAfterAMutation(initial, events, i, j);
    } else if j < i {
      NothingAfterAMutation(initial, events, j, i);
    }
    InitialStays(initial, events[..i]);
    assert !IsDenied(events[i].request, events[i].state, CapabilityReplayed);
    NotReplayed(events[i].request, events[i].state);
  }

  lemma NotReplayed(q: Request, s: State)
    requires IsAllowed(q, s)
    ensures q.capability.capabilityId !in s.redeemed
  {
    hide IsWellFormed;
    assert !IsDenied(q, s, CapabilityReplayed);
  }

  lemma {:induction false} InitialStays(initial: set<string>, events: seq<Event>)
    ensures initial <= Recorded(initial, events)
  {
    if events != [] {
      InitialStays(initial, events[..|events| - 1]);
    }
  }

  // ---------------------------------------------------------------- an instance

  lemma PathIsPlain()
    ensures !HasTraversal(ClaimPath("a", "a", "a", "a")) && !HasTraversal(ClaimPath("a", "a", "a", ""))
  {
    assert '.' !in "organization/" && '.' !in "tenant/" && '.' !in "context/" && '.' !in "claim/";
    assert '.' !in ClaimPath("a", "a", "a", "a") && '.' !in ClaimPath("a", "a", "a", "");
  }

  lemma PlainPathsMatch()
    ensures IsExactResource(ClaimPath("a", "a", "a", "a")) && IsClaimPrefix(ClaimPath("a", "a", "a", ""))
  {
    hide ClaimPath, MatchClaimPath, HasTraversal;
    PathIsPlain();
    assert IsComponent("a");
    MatchIsExact(ClaimPath("a", "a", "a", "a"), Matched("a", "a", "a", "a"));
    MatchIsExact(ClaimPath("a", "a", "a", ""), Matched("a", "a", "a", ""));
  }

  function ExampleDeletion(): Request {
    var digest := seq(64, i => 'a');
    var prefix, resource := ClaimPath("a", "a", "a", ""), ClaimPath("a", "a", "a", "a");
    Request(
      API_VERSION, "InfrastructureControllerRequest", "a", Delete, Production, Actor("a", "a", "a", [Oidc, Mtls]),
      Claim("a", "a", "a", 1, digest), "a", "infrastructure-request",
      Sandbox("broker-only", false, false, false, false, false), [Permission(DeleteClaim, prefix)],
      Grant("a", "a", "a", "a", [DeleteClaim], [prefix], 9),
      Capability("a", "v2-ed25519", "https://a", Some(Url("https:", "", "", "", "")), "a", "a", "a", "a", DeleteClaim,
                 resource, 1, digest, Some(digest), 1, 1, 9, true, true),
      Some(PlanBinding(digest, digest, "1.0.0", "a", "1.0.0", 1, 9, true, true)),
      [Approval("b", "b", digest, 2), Approval("c", "c", digest, 2)], Some("a"), 8)
  }

  lemma ExampleIsWellFormed()
    ensures IsWellFormed(ExampleDeletion())
  {
    hide ClaimPath, IsExactResource, IsClaimPrefix, Text.AfterVersion;
    PlainPathsMatch();
    Text.PlainVersion();
    assert IsIdentifier("a") && IsIdentifier("b") && IsIdentifier("c");
    assert Approvers(ExampleDeletion().approvals) == ["b", "c"];
  }

  lemma ExampleIsEligible(s: State)
    requires s.expectedAudience == "a" && "https://a" in s.trustedIssuers && "a" !in s.redeemed
             && s.maxCapabilityTtl >= 8
    ensures ActorEligible(ExampleDeletion()) && CapabilityEligible(ExampleDeletion(), s)
            && PlanningEligible(ExampleDeletion())
  {
    hide ClaimPath;
    var q := ExampleDeletion();
    PathPrefix("a", "a", "a", "", "a", "a", "a", "a");
    assert q.permissions[0] in q.permissions && q.grant.resourcePrefixes[0] in q.grant.resourcePrefixes;
  }

  lemma ExampleInterval()
    ensures Opens(ExampleDeletion()) == 2 && Closes(ExampleDeletion()) == 8
  {
    hide ClaimPath;
    var approvals := ExampleDeletion().approvals;
    assert approvals[..1][..0] == [] && approvals[..1] == [approvals[0]];
    assert LatestApproval(approvals[..1], 1) == 2;
  }

  /** A deletion with two approvers that is allowed exactly from 2 up to 8, in any state that fits its capability. */
  lemma ExampleIsAllowed(s: State)
    requires s.expectedAudience == "a" && "https://a" in s.trustedIssuers && "a" !in s.redeemed
             && s.maxCapabilityTtl >= 8
    ensures IsAllowed(ExampleDeletion(), s) <==> 2 <= s.now < 8
  {
    hide ExampleDeletion, IsWellFormed, ActorEligible, CapabilityEligible, PlanningEligible, Opens, Closes, IsAllowed;
    ExampleIsWellFormed();
    ExampleIsEligible(s);
    ExampleInterval();
    AllowedInstantsAreOneInterval(ExampleDeletion(), s, s.now);
    assert s.(now := s.now) == s;
  }

  // ---------------------------------------------------------------- what an allowed request is

  /** The action an operation needs. */
  ghost predicate IsActionFor(operation: Operation, action: Action) {
    match action
    case PlanClaim => operation == Plan
    case ReconcileClaim => operation == Reconcile
    case ObserveClaim => operation == Observe
    case CancelClaim => operation == Cancel
    case DeleteClaim => operation == Delete
  }

  /** The text before a claim: its organisation, tenant and context. */
  function ScopeText(q: Request): string {
    "organization/" + q.actor.organizationId + "/tenant/" + q.claim.tenantId + "/context/" + q.claim.contextId
      + "/claim/"
  }

  ghost predicate IsOneIdentity(q: Request) {
    && Oidc in q.actor.methods && Mtls in q.actor.methods
    && q.actor.organizationId == q.capability.organizationId == q.grant.organizationId
    && q.actor.tenantId == q.claim.tenantId == q.capability.tenantId == q.grant.tenantId
    && q.actor.principalId == q.grant.subjectId == q.capability.subjectId
  }

  /** The plug-in, the role grant and the capability all cover the operation on this claim, as it is desired. */
  ghost predicate IsCovered(q: Request) {
    && (exists p :: p in q.permissions && IsActionFor(q.operation, p.action) && p.resourcePrefix == ScopeText(q))
    && (exists a :: a in q.grant.actions && IsActionFor(q.operation, a))
    && ScopeText(q) in q.grant.resourcePrefixes
    && IsActionFor(q.operation, q.capability.action) && q.capability.resource == ScopeText(q) + q.claim.claimId
    && q.capability.claimGeneration == q.claim.generation
    && q.capability.desiredStateDigest == q.claim.desiredStateDigest
  }

  ghost predicate IsTrustedAndFresh(q: Request, s: State) {
    var c := q.capability;
    && c.cryptographicallyVerified && c.issuer in s.trustedIssuers && c.audience == s.expectedAudience
    && c.capabilityId !in s.redeemed && c.expiresAt <= c.issuedAt + s.maxCapabilityTtl
    && c.issuedAt <= c.notBefore <= s.now < c.expiresAt && s.now < q.grant.expiresAt
    && s.now < q.deadline <= c.expiresAt
    && (q.operation in {Reconcile, Cancel, Delete} ==> c.oneUse && q.idempotencyKey.Some?)
  }

  /** An approval of exactly this plan, by somebody else, since the plan was made. */
  ghost predicate IsApprovalOf(q: Request, s: State, p: PlanBinding, a: Approval) {
    && a.planDigest == p.planDigest && a.approverPrincipalId != q.actor.principalId
    && p.createdAt <= a.approvedAt <= s.now
  }

  /** Reconciling and deleting take a checked plan: approved once in production, and twice for a deletion. */
  ghost predicate IsPlanned(q: Request, s: State) {
    if q.operation == Reconcile || q.operation == Delete then
      && q.plan.Some?
      && var p := q.plan.value;
        && q.capability.planDigest == Some(p.planDigest) && p.desiredStateDigest == q.claim.desiredStateDigest
        && p.policyChecksPassed
        && p.createdAt <= s.now < p.expiresAt && (p.destructive <==> q.operation == Delete)
        && (forall a :: a in q.approvals ==> IsApprovalOf(q, s, p, a))
        && (q.operation == Delete ==> |q.approvals| >= 2)
        && (q.operation == Reconcile && q.environment == Production ==> |q.approvals| >= 1)
    else
      q.plan == None && q.capability.planDigest == None
  }

  lemma ActionForOperation(operation: Operation, action: Action)
    ensures IsActionFor(operation, action) <==> action == ActionOf(operation)
  {}

  lemma ScopeOfClaim(q: Request)
    requires IsWellFormed(q)
    ensures Resource(q) == ScopeText(q) + q.claim.claimId
    ensures forall prefix :: IsClaimPrefix(prefix) ==> (prefix <= Resource(q) <==> prefix == ScopeText(q))
  {
    hide ClaimPath, IsClaimPrefix, IsIdentifier, TimesAndDigestsValid, PrefixesValid, OriginsValid, LiteralsValid;
    var o, t, c, id := q.actor.organizationId, q.claim.tenantId, q.claim.contextId, q.claim.claimId;
    PathText(o, t, c, id);
    PathText(o, t, c, "");
    assert ClaimPath(o, t, c, "") == ScopeText(q) + "" == ScopeText(q);
    forall prefix | IsClaimPrefix(prefix)
      ensures prefix <= Resource(q) <==> prefix == ScopeText(q)
    {
      PrefixIsExactScope(prefix, o, t, c, id);
    }
  }

  lemma PathText(o: string, t: string, c: string, x: string)
    ensures ClaimPath(o, t, c, x) == "organization/" + o + "/tenant/" + t + "/context/" + c + "/claim/" + x
  {
    var inner := Slash(c, "claim/" + x);
    assert inner == c + "/claim/" + x;
    var middle := Slash(t, "context/" + inner);
    assert middle == t + "/context/" + c + "/claim/" + x;
    assert Slash(o, "tenant/" + middle) == o + "/tenant/" + t + "/context/" + c + "/claim/" + x;
  }

  lemma CoverMeans(q: Request)
    requires IsWellFormed(q) && q.actor.principalId == q.grant.subjectId == q.capability.subjectId
    ensures IsCovered(q) <==> !LacksPermission(q) && !LacksGrant(q) && !BoundElsewhere(q)
  {
    hide IsClaimPrefix, IdentifiersValid, TimesAndDigestsValid, OriginsValid, LiteralsValid, IsWellFormed, Resource,
         ScopeText, IsActionFor, ActionOf;
    ScopeOfClaim(q);
    ListedPrefixes(q);
    forall action
      ensures IsActionFor(q.operation, action) <==> action == ActionOf(q.operation)
    {
      ActionForOperation(q.operation, action);
    }
  }

  lemma ListedPrefixes(q: Request)
    requires IsWellFormed(q)
    ensures forall p :: p in q.permissions ==> IsClaimPrefix(p.resourcePrefix)
    ensures forall p :: p in q.grant.resourcePrefixes ==> IsClaimPrefix(p)
  {
    hide IsClaimPrefix, IdentifiersValid, TimesAndDigestsValid, OriginsValid, LiteralsValid;
  }

  lemma PlanMeans(q: Request, s: State)
    requires IsWellFormed(q)
    ensures IsPlanned(q, s) <==>
              && !IsDenied(q, s, PlanUnexpected) && !IsDenied(q, s, PlanRequired) && !IsDenied(q, s, PlanInvalid)
              && !IsDenied(q, s, PlanDigestMismatch) && !IsDenied(q, s, PolicyChecksFailed)
              && !IsDenied(q, s, ApprovalInsufficient)
  {
    hide IsWellFormed, IsDenied, IsPlanned;
    ReasonsMean(q, s, PlanUnexpected);
    ReasonsMean(q, s, PlanRequired);
    ReasonsMean(q, s, PlanInvalid);
    ReasonsMean(q, s, PlanDigestMismatch);
    ReasonsMean(q, s, PolicyChecksFailed);
    ReasonsMean(q, s, ApprovalInsufficient);
    PlanGrounds(q, s);
  }

  ghost predicate HasNoPlanGround(q: Request, s: State) {
    && !IsGroundFor(q, s, PlanUnexpected) && !IsGroundFor(q, s, PlanRequired) && !IsGroundFor(q, s, PlanInvalid)
    && !IsGroundFor(q, s, PlanDigestMismatch) && !IsGroundFor(q, s, PolicyChecksFailed)
    && !IsGroundFor(q, s, ApprovalInsufficient)
  }

  lemma PlanGrounds(q: Request, s: State)
    ensures IsPlanned(q, s) <==> HasNoPlanGround(q, s)
  {
    hide IsGroundFor, IsPlanned, HasNoPlanGround;
    if q.operation != Reconcile && q.operation != Delete {
      GroundsWithoutPlan(q, s);
    } else if q.plan.None? {
      GroundOfMissingPlan(q, s);
    } else {
      GroundsOfPlan(q, s, q.plan.value);
    }
  }

  lemma GroundsWithoutPlan(q: Request, s: State)
    requires q.operation != Reconcile && q.operation != Delete
    ensures IsPlanned(q, s) <==> HasNoPlanGround(q, s)
  {}

  lemma GroundOfMissingPlan(q: Request, s: State)
    requires (q.operation == Reconcile || q.operation == Delete) && q.plan.None?
    ensures !IsPlanned(q, s) && !HasNoPlanGround(q, s)
  {
    assert IsGroundFor(q, s, PlanRequired);
    hide IsGroundFor;
  }

  lemma GroundsOfPlan(q: Request, s: State, p: PlanBinding)
    requires (q.operation == Reconcile || q.operation == Delete) && q.plan == Some(p)
    ensures IsPlanned(q, s) <==> HasNoPlanGround(q, s)
  {
    hide IsGroundFor;
    GroundOfUnusablePlan(q, s, p);
    GroundOfOtherPlan(q, s, p);
    GroundOfApprovals(q, s, p);
  }

  lemma GroundOfUnusablePlan(q: Request, s: State, p: PlanBinding)
    requires (q.operation == Reconcile || q.operation == Delete) && q.plan == Some(p)
    ensures !IsGroundFor(q, s, PlanUnexpected) && !IsGroundFor(q, s, PlanRequired)
    ensures IsGroundFor(q, s, PolicyChecksFailed) <==> !p.policyChecksPassed
    ensures IsGroundFor(q, s, PlanInvalid) <==>
              !(p.desiredStateDigest == q.claim.desiredStateDigest && p.createdAt <= s.now < p.expiresAt
                && (p.destructive <==> q.operation == Delete))
  {}

  lemma GroundOfOtherPlan(q: Request, s: State, p: PlanBinding)
    requires (q.operation == Reconcile || q.operation == Delete) && q.plan == Some(p)
    ensures IsGroundFor(q, s, PlanDigestMismatch) <==>
              q.capability.planDigest != Some(p.planDigest)
              || exists a :: a in q.approvals && a.planDigest != p.planDigest
  {}

  lemma GroundOfApprovals(q: Request, s: State, p: PlanBinding)
    requires (q.operation == Reconcile || q.operation == Delete) && q.plan == Some(p)
    ensures IsGroundFor(q, s, ApprovalInsufficient) <==>
              || (q.operation == Delete && |q.approvals| < 2)
              || (q.operation == Reconcile && q.environment == Production && |q.approvals| < 1)
              || exists a :: a in q.approvals
                   && (a.approverPrincipalId == q.actor.principalId || !(p.createdAt <= a.approvedAt <= s.now))
  {}

  lemma IdentityMeans(q: Request, s: State)
    requires IsWellFormed(q)
    ensures IsOneIdentity(q) && IsCovered(q) <==>
              && !IsDenied(q, s, AuthenticationInsufficient) && !IsDenied(q, s, OrganizationMismatch)
              && !IsDenied(q, s, TenantMismatch) && !IsDenied(q, s, PluginManifestDenied)
              && !IsDenied(q, s, RoleGrantDenied)
              && !IsDenied(q, s, CapabilityBindingMismatch)
  {
    hide IsWellFormed, LacksPermission, IsCovered, Resource;
    SubjectsOfGrant(q);
    if q.actor.principalId == q.grant.subjectId == q.capability.subjectId {
      CoverMeans(q);
    }
  }

  lemma SubjectsOfGrant(q: Request)
    ensures !LacksGrant(q) ==> q.actor.principalId == q.grant.subjectId
    ensures !BoundElsewhere(q) ==> q.actor.principalId == q.capability.subjectId
  {}

  lemma TrustMeans(q: Request, s: State)
    ensures IsTrustedAndFresh(q, s) <==>
              && !IsDenied(q, s, RoleGrantExpired) && !IsDenied(q, s, CapabilityUnverified)
              && !IsDenied(q, s, CapabilityIssuerUntrusted) && !IsDenied(q, s, CapabilityAudienceMismatch)
              && !IsDenied(q, s, CapabilityTimeInvalid) && !IsDenied(q, s, CapabilityTtlExceeded)
              && !IsDenied(q, s, CapabilityNotOneUse) && !IsDenied(q, s, CapabilityReplayed)
              && !IsDenied(q, s, IdempotencyKeyMissing) && !IsDenied(q, s, DeadlineInvalid)
  {}

  /** Which well-formed requests are allowed, in terms of their fields and the state. */
  lemma AllowedMeans(q: Request, s: State)
    ensures IsAllowed(q, s) <==>
              IsWellFormed(q) && IsOneIdentity(q) && IsCovered(q) && IsTrustedAndFresh(q, s) && IsPlanned(q, s)
  {
    hide IsWellFormed, IsDenied, IsOneIdentity, IsCovered, IsTrustedAndFresh, IsPlanned;
    if IsWellFormed(q) {
      IdentityMeans(q, s);
      TrustMeans(q, s);
      PlanMeans(q, s);
      NeverInvalid(q, s);
      if IsOneIdentity(q) && IsCovered(q) && IsTrustedAndFresh(q, s) && IsPlanned(q, s) {
        NotDeniedInGroups(q, s);
      }
    }
  }

  lemma NeverInvalid(q: Request, s: State)
    ensures !IsDenied(q, s, RequestInvalid)
  {}

  /** Reconciling, cancelling and deleting redeem their capability; planning and observing do not. */
  lemma MutationsRedeem(q: Request, s: State)
    requires IsAllowed(q, s)
    ensures q.operation in {Reconcile, Cancel, Delete} ==> Redeems(q, s) == Some(q.capability.capabilityId)
    ensures q.operation in {Plan, Observe} ==> Redeems(q, s) == None
  {}

  /** A production change has an approver other than the actor, of exactly its plan, between its creation and now. */
  lemma ProductionNeedsApproval(q: Request, s: State) returns (a: Approval)
    requires IsAllowed(q, s) && q.operation == Reconcile && q.environment == Production
    ensures a in q.approvals && q.plan.Some? && a.planDigest == q.plan.value.planDigest
    ensures a.approverPrincipalId != q.actor.principalId && q.plan.value.createdAt <= a.approvedAt <= s.now
  {
    hide IsWellFormed, IsDenied, IsOneIdentity, IsCovered, IsTrustedAndFresh;
    AllowedMeans(q, s);
    a := q.approvals[0];
  }

  /** The ground for each reason, in terms of the fields and the state. */
  ghost predicate IsGroundFor(q: Request, s: State, reason: Reason) {
    var c, change := q.capability, q.operation == Reconcile || q.operation == Delete;
    match reason
    case AuthenticationInsufficient => !(Oidc in q.actor.methods && Mtls in q.actor.methods)
    case OrganizationMismatch => !(q.actor.organizationId == c.organizationId == q.grant.organizationId)
    case TenantMismatch => !(q.actor.tenantId == q.claim.tenantId == c.tenantId == q.grant.tenantId)
    case PluginManifestDenied =>
      forall p :: p in q.permissions && IsActionFor(q.operation, p.action) ==> p.resourcePrefix != ScopeText(q)
    case RoleGrantDenied =>
      || q.grant.subjectId != q.actor.principalId || ScopeText(q) !in q.grant.resourcePrefixes
      || forall a :: a in q.grant.actions ==> !IsActionFor(q.operation, a)
    case RoleGrantExpired => s.now >= q.grant.expiresAt
    case CapabilityUnverified => !c.cryptographicallyVerified
    case CapabilityIssuerUntrusted => c.issuer !in s.trustedIssuers
    case CapabilityAudienceMismatch => c.audience != s.expectedAudience
    case CapabilityBindingMismatch =>
      !(c.subjectId == q.actor.principalId && IsActionFor(q.operation, c.action)
        && c.resource == ScopeText(q) + q.claim.claimId
        && c.claimGeneration == q.claim.generation && c.desiredStateDigest == q.claim.desiredStateDigest)
    case CapabilityTimeInvalid => !(c.issuedAt <= c.notBefore <= s.now < c.expiresAt)
    case CapabilityTtlExceeded => c.expiresAt > c.issuedAt + s.maxCapabilityTtl
    case CapabilityNotOneUse => q.operation !in {Plan, Observe} && !c.oneUse
    case CapabilityReplayed => c.capabilityId in s.redeemed
    case IdempotencyKeyMissing => q.operation !in {Plan, Observe} && q.idempotencyKey == None
    case DeadlineInvalid => !(s.now < q.deadline <= c.expiresAt)
    case PlanUnexpected => !change && q.plan != None
    case PlanRequired => change && q.plan == None
    case PlanInvalid =>
      change && q.plan.Some? &&
      var p := q.plan.value;
      !(p.desiredStateDigest == q.claim.desiredStateDigest && p.createdAt <= s.now < p.expiresAt
        && (p.destructive <==> q.operation == Delete))
    case PlanDigestMismatch =>
      if change then
        q.plan.Some? && (c.planDigest != Some(q.plan.value.planDigest)
                         || exists a :: a in q.approvals && a.planDigest != q.plan.value.planDigest)
      else
        c.planDigest != None
    case PolicyChecksFailed => change && q.plan.Some? && !q.plan.value.policyChecksPassed
    case ApprovalInsufficient =>
      change && q.plan.Some? &&
      var p := q.plan.value;
      || (q.operation == Delete && |q.approvals| < 2)
      || (q.operation == Reconcile && q.environment == Production && |q.approvals| < 1)
      || exists a :: a in q.approvals
           && (a.approverPrincipalId == q.actor.principalId || !(p.createdAt <= a.approvedAt <= s.now))
    case RequestInvalid => false
  }

  /** Each reason is given exactly on its ground. */
  lemma ReasonsMean(q: Request, s: State, reason: Reason)
    requires IsWellFormed(q)
    ensures IsDenied(q, s, reason) <==> IsGroundFor(q, s, reason)
  {
    hide IsWellFormed, Resource, ScopeText, IsActionFor, ActionOf, IsClaimPrefix;
    ScopeOfClaim(q);
    ListedPrefixes(q);
    forall action
      ensures IsActionFor(q.operation, action) <==> action == ActionOf(q.operation)
    {
      ActionForOperation(q.operation, action);
    }
  }

  /** The example's deletion as a change without approvals. */
  function ExampleChange(environment: Environment): Request {
    var q := ExampleDeletion();
    var plan := q.plan.value.(destructive := false);
    q.(operation := Reconcile, environment := environment, approvals := [], plan := Some(plan),
       permissions := [q.permissions[0].(action := ReconcileClaim)], grant := q.grant.(actions := [ReconcileClaim]),
       capability := q.capability.(action := ReconcileClaim))
  }

  lemma ChangeIsWellFormed(environment: Environment)
    ensures IsWellFormed(ExampleChange(environment))
  {
    hide ClaimPath, IsExactResource, IsClaimPrefix, Text.AfterVersion;
    ExampleIsWellFormed();
    assert Approvers([]) == [];
  }

  lemma ChangeIsCovered(environment: Environment)
    ensures IsOneIdentity(ExampleChange(environment)) && IsCovered(ExampleChange(environment))
  {
    hide ClaimPath;
    var q := ExampleChange(environment);
    PathText("a", "a", "a", "a");
    PathText("a", "a", "a", "");
    assert ScopeText(q) + "" == ScopeText(q);
    assert q.permissions[0] in q.permissions && q.grant.actions[0] in q.grant.actions;
    assert q.grant.resourcePrefixes[0] in q.grant.resourcePrefixes;
  }

  /** Without approvals the change is allowed outside production, and refused in production for the lack of one. */
  lemma ApprovalDecides(s: State, environment: Environment)
    requires s.expectedAudience == "a" && "https://a" in s.trustedIssuers && "a" !in s.redeemed
             && s.maxCapabilityTtl >= 8
    requires 1 <= s.now < 8
    ensures IsAllowed(ExampleChange(environment), s) <==> environment != Production
    ensures environment == Production ==>
              forall reason :: IsDenied(ExampleChange(environment), s, reason) <==> reason == ApprovalInsufficient
  {
    hide ExampleDeletion, IsOneIdentity, IsCovered, IsWellFormed;
    var q := ExampleChange(environment);
    ChangeIsWellFormed(environment);
    ChangeIsCovered(environment);
    ChangeFields(environment, s);
    AllowedMeans(q, s);
    if environment == Production {
      OnlyApprovalIsMissing(s, environment);
    }
  }

  lemma ChangeFields(environment: Environment, s: State)
    requires s.expectedAudience == "a" && "https://a" in s.trustedIssuers && "a" !in s.redeemed
             && s.maxCapabilityTtl >= 8
    requires 1 <= s.now < 8
    ensures IsTrustedAndFresh(ExampleChange(environment), s)
    ensures IsPlanned(ExampleChange(environment), s) <==> environment != Production
  {
    hide ClaimPath;
  }

  lemma OnlyApprovalIsMissing(s: State, environment: Environment)
    requires s.expectedAudience == "a" && "https://a" in s.trustedIssuers && "a" !in s.redeemed
             && s.maxCapabilityTtl >= 8
    requires 1 <= s.now < 8 && environment == Production
    ensures forall reason :: IsDenied(ExampleChange(environment), s, reason) <==> reason == ApprovalInsufficient
  {
    hide ExampleDeletion, IsOneIdentity, IsCovered, IsWellFormed, IsTrustedAndFresh;
    var q := ExampleChange(environment);
    ChangeIsWellFormed(environment);
    ChangeIsCovered(environment);
    ChangeFields(environment, s);
    IdentityMeans(q, s);
    TrustMeans(q, s);
    ChangePlan(s);
    hide IsDenied;
    forall reason
      ensures IsDenied(q, s, reason) <==> reason == ApprovalInsufficient
    {
      match reason
      case AuthenticationInsufficient => case OrganizationMismatch => case TenantMismatch =>
        case PluginManifestDenied =>
      case RoleGrantDenied => case RoleGrantExpired => case CapabilityUnverified => case CapabilityIssuerUntrusted =>
      case CapabilityAudienceMismatch => case CapabilityBindingMismatch => case CapabilityTimeInvalid =>
      case CapabilityTtlExceeded => case CapabilityNotOneUse => case CapabilityReplayed => case IdempotencyKeyMissing =>
      case DeadlineInvalid => case PlanUnexpected => case PlanRequired => case PlanInvalid => case PlanDigestMismatch =>
      case PolicyChecksFailed => case ApprovalInsufficient => case RequestInvalid =>
    }
  }

  lemma ChangePlan(s: State)
    requires 1 <= s.now < 8
    ensures var q := ExampleChange(Production);
            && !IsDenied(q, s, PlanUnexpected) && !IsDenied(q, s, PlanRequired) && !IsDenied(q, s, PlanInvalid)
            && !IsDenied(q, s, PlanDigestMismatch) && !IsDenied(q, s, PolicyChecksFailed)
            && IsDenied(q, s, ApprovalInsufficient) && !IsDenied(q, s, RequestInvalid)
  {
    hide ClaimPath, ExampleDeletion, IsDenied, IsWellFormed;
    var q := ExampleChange(Production);
    ChangeIsWellFormed(Production);
    ReasonsMean(q, s, PlanUnexpected);
    ReasonsMean(q, s, PlanRequired);
    ReasonsMean(q, s, PlanInvalid);
    ReasonsMean(q, s, PlanDigestMismatch);
    ReasonsMean(q, s, PolicyChecksFailed);
    ReasonsMean(q, s, ApprovalInsufficient);
    NeverInvalid(q, s);
    ExamplePlan();
  }

  lemma ExamplePlan()
    ensures var q := ExampleDeletion();
            && q.plan.Some? && q.plan.value.desiredStateDigest == q.claim.desiredStateDigest
            && q.plan.value.policyChecksPassed
            && q.plan.value.createdAt == 1 && q.plan.value.expiresAt == 9
            && q.capability.planDigest == Some(q.plan.value.planDigest)
  {
    hide ClaimPath;
  }

  /** Identifiers, and what is none. */
  lemma IdentifierExamples()
    ensures IsIdentifier("A") && IsIdentifier("0-a") && IsIdentifier("a.b:c_d") && !IsIdentifier("")
            && !IsIdentifier(".a")
    ensures !IsIdentifier("a/b") && !IsIdentifier("a*") && !IsIdentifier("a..b")
    ensures forall s :: IsIdentifier(s) ==> |s| <= 128
  {
    var slash, star, dots := "a/b", "a*", "a..b";
    assert !IsComponentCharacter(slash[1]) && !IsComponentCharacter(star[1]);
    assert dots[1] == '.' && dots[2] == '.';
    assert HasTraversal(dots);
  }
}
