/**
 Signed observation evidence of a placement: creation, verification and single redemption
 (src/core/cloudContextVerification.ts).
 */
module ObservationEvidence {
  import opened Wrappers
  import opened Segments
  import opened CloudContext
  import opened PlacementDependencies
  import opened Timestamps
  import Text

  datatype Resolution = Resolution(
    requestDigest: Digest, resolverId: string, resolverVersion: string, owner: string,
    providerResourceUid: string, providerResourceVersion: string, outputDigest: string,
    resolvedAt: Stamp, expiresAt: Stamp)

  /** A resolver answers a request at a time, or fails. */
  datatype Resolver = Resolver(descriptor: Descriptor, resolve: (RequestBody, Stamp) -> Option<Resolution>)

  type Registry = map<string, Resolver>

  datatype Observation = Observation(
    key: string, kind: Kind, contextId: string, id: string, generation: int, subject: Digest,
    previous: Option<Digest>, resolutions: seq<Resolution>)

  datatype Unsigned = Unsigned(
    evidenceId: string, selection: Selection, environment: Environment,
    catalogDigest: Digest, placementDigest: Digest, closureDigest: Digest, registryDigest: Digest, policyDigest: Digest,
    issuedAt: Stamp, expiresAt: Stamp, nonce: string, verifierId: string, verifierVersion: string, keyId: string,
    observations: seq<Observation>)

  /** The digest of evidence is, like every digest, its content; so evidence is compared with its content address. */
  datatype Evidence = Evidence(unsigned: Unsigned, signature: string)

  datatype Signer = Signer(verifierId: string, verifierVersion: string, keyId: string, privateKey: string)

  datatype TrustedVerifier = TrustedVerifier(
    verifierId: string, verifierVersion: string, keyId: string, publicKey: string,
    organizations: seq<string>, platformTenants: seq<string>, environments: seq<Environment>, maxTtlSeconds: int)

  predicate IsVersion(s: string) {
    Text.AfterVersion(s) == Some("")
  }

  predicate IsAlphanumeric(c: char) {
    'A' <= c <= 'Z' || 'a' <= c <= 'z' || '0' <= c <= '9'
  }

  predicate IsKeyId(s: string) {
    0 < |s| <= 128 && IsAlphanumeric(s[0]) && forall k :: 0 <= k < |s| ==> IsAlphanumeric(s[k]) || s[k] in "._:-"
  }

  predicate IsBase64Url(s: string) {
    forall k :: 0 <= k < |s| ==> IsAlphanumeric(s[k]) || s[k] == '_' || s[k] == '-'
  }

  predicate IsNonce(s: string) {
    32 <= |s| <= 128 && IsBase64Url(s)
  }

  /** The text of 64 bytes: the last character stands for two bits only. */
  predicate IsSignature(s: string) {
    |s| == 86 && IsBase64Url(s) && s[85] in "AQgw"
  }

  /** Reference URIs, provider authorities, and the signature scheme. */
  datatype World = World(
    uris: Uris, isAuthority: string -> bool,
    publicKey: string -> string,
    sign: (string, Unsigned) -> Option<string>,
    verify: (string, Unsigned, string) -> bool)

  /** What is signed with a private key verifies with its public key. */
  ghost predicate IsLawful(w: World) {
    forall key, m :: w.sign(key, m).Some? ==>
      w.verify(w.publicKey(key), m, w.sign(key, m).value) && IsSignature(w.sign(key, m).value)
  }

  datatype EvidenceFailure =
    | Malformed | Underivable(failure: Failure) | PreviousLink | Unauthorized | ResolutionFailed | SigningKey
    | ContentAddress | VerifierUnknown | Revoked | NotYetValid | Expired | Ttl | SignatureInvalid | SubjectMismatch
    | VerifierScope | DigestMismatch | PolicyMismatch | ObservationMismatch | Replay

  // ---------------------------------------------------------------- resolvers and resolutions

  function RegistryDigest(registry: Registry): Digest {
    RegistryContent(map scheme | scheme in registry :: registry[scheme].descriptor)
  }

  predicate IsAuthorized(registry: Registry, q: RequestBody) {
    && q.scheme in registry
    && var d := registry[q.scheme].descriptor;
       && q.use.purpose in d.purposes && q.use.confidentiality in d.confidentialities
       && q.use.projection in d.projections && q.use.outputType in d.outputTypes
       && q.environment in d.environments && q.selection.organizationId in d.organizations
       && q.selection.platformTenantId in d.platformTenants && q.contextId in d.contextIds
  }

  predicate LifetimeFits(r: Resolution, d: Descriptor, issuedAt: Stamp, expiresAt: Stamp) {
    && r.resolvedAt.instant <= issuedAt.instant && expiresAt.instant <= r.expiresAt.instant
    && r.resolvedAt.instant < r.expiresAt.instant
    && r.expiresAt.instant - r.resolvedAt.instant <= d.maxTtlSeconds * 1000
  }

  /** A resolution that answers a request: by its resolver, and valid during the whole life of the evidence. */
  predicate Answers(r: Resolution, q: RequestBody, registry: Registry, issuedAt: Stamp, expiresAt: Stamp) {
    && IsAuthorized(registry, q)
    && var d := registry[q.scheme].descriptor;
       && r.requestDigest == RequestContent(q)
       && r.resolverId == d.resolverId && r.resolverVersion == d.version && r.owner == d.owner
       && LifetimeFits(r, d, issuedAt, expiresAt)
  }

  predicate ResolutionWellFormed(w: World, r: Resolution) {
    && IsDigest(r.requestDigest) && IsName(r.resolverId) && IsVersion(r.resolverVersion) && IsName(r.owner)
    && w.isAuthority(r.providerResourceUid) && w.isAuthority(r.providerResourceVersion) && Text.IsSha256(r.outputDigest)
    && IsTime(r.resolvedAt) && IsTime(r.expiresAt)
  }

  function Resolve(w: World, registry: Registry, q: RequestBody, issuedAt: Stamp,
                   expiresAt: Stamp): (r: Option<Resolution>)
    ensures r.Some? ==> ResolutionWellFormed(w, r.value) && Answers(r.value, q, registry, issuedAt, expiresAt)
  {
    if !IsAuthorized(registry, q) then None else
      var r := registry[q.scheme].resolve(q, issuedAt);
      if r.Some? && ResolutionWellFormed(w, r.value) && Answers(r.value, q, registry, issuedAt, expiresAt) then r
      else None
  }

  function Resolved(w: World, registry: Registry, requests: seq<RequestBody>, issuedAt: Stamp,
                    expiresAt: Stamp): seq<Resolution> {
    if requests == [] then [] else
      var last := Resolve(w, registry, requests[|requests| - 1], issuedAt, expiresAt);
      Resolved(w, registry, requests[..|requests| - 1], issuedAt, expiresAt) + if last.Some? then [last.value] else []
  }

  predicate AllResolve(w: World, registry: Registry, requests: seq<RequestBody>, issuedAt: Stamp, expiresAt: Stamp) {
    forall q :: q in requests ==> Resolve(w, registry, q, issuedAt, expiresAt).Some?
  }

  // ---------------------------------------------------------------- creation

  datatype Order = Order(
    catalog: Catalog, selection: Selection, registry: Registry, signer: Signer, evidenceId: string, nonce: string,
    issuedAt: Stamp, ttlSeconds: int, policyDigest: Digest, previous: map<string, Option<Digest>>)

  /** The expiry is written as a date always is, with milliseconds. */
  function ExpiryOf(o: Order): Stamp {
    Stamp(o.issuedAt.instant + o.ttlSeconds * 1000, true)
  }

  predicate OrderWellFormed(w: World, o: Order) {
    && IsName(o.evidenceId) && IsNonce(o.nonce) && IsTime(o.issuedAt) && 1 <= o.ttlSeconds <= 3600
    && IsName(o.signer.verifierId) && IsVersion(o.signer.verifierVersion) && IsKeyId(o.signer.keyId)
    && IsDigest(o.policyDigest)
  }

  predicate LinksWellFormed(previous: map<string, Option<Digest>>) {
    forall key :: key in previous && previous[key].Some? ==> IsDigest(previous[key].value)
  }

  ghost predicate IsDerivable(w: World, catalog: Catalog, selection: Selection) {
    && IsAccepted(catalog) && SelectionValid(selection) && Selected(catalog, selection).Some?
    && ReferencesCanonical(w.uris, Inputs(catalog, Selected(catalog, selection).value))
  }

  function Closure(w: World, catalog: Catalog, selection: Selection): seq<Dependency>
    requires Selected(catalog, selection).Some?
  {
    Dependencies(w.uris, catalog, selection, Selected(catalog, selection).value)
  }

  function Keys(dependencies: seq<Dependency>): set<string> {
    set d | d in dependencies :: d.key
  }

  function RequestDigests(d: Dependency): seq<Digest> {
    seq(|d.references|, k requires 0 <= k < |d.references| => RequestContent(d.references[k]))
  }

  function ClosureDigest(dependencies: seq<Dependency>): Digest {
    ClosureContent(seq(|dependencies|, k requires 0 <= k < |dependencies| =>
      ClosureEntry(dependencies[k].key, dependencies[k].subject, RequestDigests(dependencies[k]))))
  }

  function PreviousOf(previous: map<string, Option<Digest>>, key: string): Option<Digest> {
    if key in previous then previous[key] else None
  }

  function ObservationOf(w: World, o: Order, d: Dependency): Observation {
    Observation(d.key, d.kind, d.contextId, d.id, d.generation, d.subject, PreviousOf(o.previous, d.key),
                Resolved(w, o.registry, d.references, o.issuedAt, ExpiryOf(o)))
  }

  function ObservationsOf(w: World, o: Order, dependencies: seq<Dependency>): seq<Observation> {
    seq(|dependencies|, k requires 0 <= k < |dependencies| => ObservationOf(w, o, dependencies[k]))
  }

  function UnsignedOf(w: World, o: Order): Unsigned
    requires Selected(o.catalog, o.selection).Some?
  {
    var closure := Closure(w, o.catalog, o.selection);
    Unsigned(
      o.evidenceId, o.selection, o.catalog.environment,
      DesiredStateDigest(o.catalog), PlacementContent(Selected(o.catalog, o.selection).value), ClosureDigest(closure),
      RegistryDigest(o.registry), o.policyDigest, o.issuedAt, ExpiryOf(o), o.nonce,
      o.signer.verifierId, o.signer.verifierVersion, o.signer.keyId, ObservationsOf(w, o, closure))
  }

  /** All requests of some dependencies are within the authority of their resolvers. */
  predicate AllAuthorized(registry: Registry, dependencies: seq<Dependency>) {
    forall d :: d in dependencies ==> forall q :: q in d.references ==> IsAuthorized(registry, q)
  }

  /** The orders for which evidence is made. */
  ghost predicate IsCreatable(w: World, o: Order) {
    && OrderWellFormed(w, o) && IsDerivable(w, o.catalog, o.selection)
    && var closure := Closure(w, o.catalog, o.selection);
       && o.previous.Keys <= Keys(closure) && LinksWellFormed(o.previous) && AllAuthorized(o.registry, closure)
       && (forall d :: d in closure ==> AllResolve(w, o.registry, d.references, o.issuedAt, ExpiryOf(o)))
       && w.sign(o.signer.privateKey, UnsignedOf(w, o)).Some?
  }

  ghost function EvidenceOf(w: World, o: Order): Evidence
    requires IsCreatable(w, o)
  {
    Evidence(UnsignedOf(w, o), w.sign(o.signer.privateKey, UnsignedOf(w, o)).value)
  }

  lemma NothingResolved(w: World, registry: Registry, issuedAt: Stamp, expiresAt: Stamp)
    ensures Resolved(w, registry, [], issuedAt, expiresAt) == []
  {}

  lemma OneMoreResolved(w: World, registry: Registry, requests: seq<RequestBody>, q: RequestBody, issuedAt: Stamp,
                        expiresAt: Stamp)
    ensures var last := Resolve(w, registry, q, issuedAt, expiresAt);
            Resolved(w, registry, requests + [q], issuedAt, expiresAt) ==
            Resolved(w, registry, requests, issuedAt, expiresAt) + if last.Some? then [last.value] else []
  {
    hide Resolve;
    assert (requests + [q])[..|requests|] == requests;
  }

  /** Resolving one dependency's requests, and the requests that were sent to a resolver for it. */
  method ObserveDependency(w: World, o: Order, d: Dependency)
    returns (ok: bool, observation: Observation, sent: seq<RequestBody>)
    ensures ok <==> AllResolve(w, o.registry, d.references, o.issuedAt, ExpiryOf(o))
    ensures ok ==> observation == ObservationOf(w, o, d) && sent == d.references
  {
    hide Resolve, PreviousOf, Resolved;
    var resolutions: seq<Resolution> := [];
    sent := [];
    NothingResolved(w, o.registry, o.issuedAt, ExpiryOf(o));
    assert d.references[..0] == [];
    observation :=
      Observation(d.key, d.kind, d.contextId, d.id, d.generation, d.subject, PreviousOf(o.previous, d.key), []);
    for k := 0 to |d.references|
      invariant resolutions == Resolved(w, o.registry, d.references[..k], o.issuedAt, ExpiryOf(o))
      invariant forall q :: q in d.references[..k] ==> Resolve(w, o.registry, q, o.issuedAt, ExpiryOf(o)).Some?
      invariant sent == d.references[..k]
    {
      var request := d.references[k];
      assert d.references[..k + 1] == d.references[..k] + [request] && request in d.references;
      OneMoreResolved(w, o.registry, d.references[..k], request, o.issuedAt, ExpiryOf(o));
      sent := sent + [request];
      var resolution := Resolve(w, o.registry, request, o.issuedAt, ExpiryOf(o));
      if resolution.None? {
        return false, observation, sent;
      }
      resolutions := resolutions + [resolution.value];
    }
    assert d.references[..|d.references|] == d.references;
    ok := true;
    observation :=
      Observation(d.key, d.kind, d.contextId, d.id, d.generation, d.subject, PreviousOf(o.previous, d.key),
                  resolutions);
  }

  /**
   Creating evidence: it succeeds exactly for the creatable orders, and no resolver is asked anything unless every
   request of the closure is authorised first.
   */
  method CreateEvidence(w: World, o: Order) returns (result: Result<Evidence, EvidenceFailure>, sent: seq<RequestBody>)
    ensures result.Ok? <==> IsCreatable(w, o)
    ensures result.Ok? ==> result.value == EvidenceOf(w, o)
    ensures sent != [] ==>
              IsDerivable(w, o.catalog, o.selection) && AllAuthorized(o.registry, Closure(w, o.catalog, o.selection))
  {
    hide IsDerivable, Closure, IsAuthorized, AllResolve, ObservationOf, ClosureDigest, DesiredStateDigest,
         RegistryDigest;
    sent := [];
    if !OrderWellFormed(w, o) {
      return Err(Malformed), sent;
    }
    var failure, dependencies := DeriveClosure(w, o.catalog, o.selection);
    if failure.Some? {
      return Err(failure.value), sent;
    }
    if !(o.previous.Keys <= Keys(dependencies)) || !LinksWellFormed(o.previous) {
      return Err(PreviousLink), sent;
    }
    if !AllAuthorized(o.registry, dependencies) {
      return Err(Unauthorized), sent;
    }
    var observations: seq<Observation> := [];
    for k := 0 to |dependencies|
      invariant observations == ObservationsOf(w, o, dependencies[..k])
      invariant forall d :: d in dependencies[..k] ==> AllResolve(w, o.registry, d.references, o.issuedAt, ExpiryOf(o))
    {
      assert dependencies[k] in dependencies;
      assert dependencies[..k + 1] == dependencies[..k] + [dependencies[k]];
      var ok, observation, asked := ObserveDependency(w, o, dependencies[k]);
      sent := sent + asked;
      if !ok {
        return Err(ResolutionFailed), sent;
      }
      observations := observations + [observation];
    }
    assert dependencies[..|dependencies|] == dependencies;
    var unsigned := Unsigned(
      o.evidenceId, o.selection, o.catalog.environment,
      DesiredStateDigest(o.catalog), PlacementContent(Selected(o.catalog, o.selection).value),
      ClosureDigest(dependencies), RegistryDigest(o.registry), o.policyDigest, o.issuedAt, ExpiryOf(o), o.nonce,
      o.signer.verifierId, o.signer.verifierVersion, o.signer.keyId, observations);
    var signature := w.sign(o.signer.privateKey, unsigned);
    if signature.None? {
      return Err(SigningKey), sent;
    }
    result := Ok(Evidence(unsigned, signature.value));
  }

  /** The derivation, with its failure as a failure of the evidence. */
  method DeriveClosure(w: World, catalog: Catalog, selection: Selection)
    returns (failure: Option<EvidenceFailure>, dependencies: seq<Dependency>)
    ensures failure.None? <==> IsDerivable(w, catalog, selection)
    ensures failure.None? ==> Selected(catalog, selection).Some? && dependencies == Closure(w, catalog, selection)
    ensures failure != Some(Replay)
  {
    hide IsAccepted, SelectionValid, Inputs, Dependencies, ReferencesCanonical;
    var derived := Derive(w.uris, catalog, selection);
    if derived.Err? {
      return Some(Underivable(derived.error)), [];
    }
    return None, derived.value;
  }

  // ---------------------------------------------------------------- verification

  /** A dependency key as the parser wants it: name, kind and name. */
  predicate IsKey(s: string) {
    var first := UntilSlash(s);
    && first < |s| && |s| <= 512 && IsNamePattern(s[..first])
    && var rest := s[first + 1..];
       var second := UntilSlash(rest);
       second < |rest| && IsKindText(rest[..second]) && IsNamePattern(rest[second + 1..])
  }

  predicate IsKindText(s: string) {
    s in ["context", "runtime", "network", "registry", "identity", "observability", "dns", "resource-binding"]
  }

  predicate ObservationWellFormed(w: World, o: Observation) {
    && IsKey(o.key) && IsName(o.contextId) && IsName(o.id) && 1 <= o.generation <= 1000000
    && IsDigest(o.subject) && (o.previous.Some? ==> IsDigest(o.previous.value))
    && forall r :: r in o.resolutions ==> ResolutionWellFormed(w, r)
  }

  function ObservationKey(o: Observation): string { o.key }

  predicate DigestsWellFormed(u: Unsigned) {
    && IsDigest(u.catalogDigest) && IsDigest(u.placementDigest) && IsDigest(u.closureDigest)
    && IsDigest(u.registryDigest) && IsDigest(u.policyDigest)
  }

  /** What the parser lets through. */
  ghost predicate EvidenceWellFormed(w: World, e: Evidence) {
    var u := e.unsigned;
    && IsName(u.evidenceId) && SelectionValid(u.selection) && IsTime(u.issuedAt) && IsTime(u.expiresAt)
    && IsNonce(u.nonce)
    && IsName(u.verifierId) && IsVersion(u.verifierVersion) && IsKeyId(u.keyId) && IsSignature(e.signature)
    && DigestsWellFormed(u)
    && (forall o :: o in u.observations ==> ObservationWellFormed(w, o))
    && u.observations != [] && Text.DistinctBy(u.observations, ObservationKey)
  }

  datatype Check = Check(
    catalog: Catalog, selection: Selection, evidence: Evidence, registry: Registry, trusted: seq<TrustedVerifier>,
    revokedEvidence: set<string>, revokedNonces: set<string>, revokedKeys: set<string>,
    contentAddress: Evidence, policyDigest: Digest, previous: map<string, Option<Digest>>, now: Stamp)

  predicate Matches(t: TrustedVerifier, u: Unsigned) {
    t.verifierId == u.verifierId && t.verifierVersion == u.verifierVersion && t.keyId == u.keyId
  }

  function Matching(trusted: seq<TrustedVerifier>, u: Unsigned): seq<TrustedVerifier> {
    if trusted == [] then [] else
      Matching(trusted[..|trusted| - 1], u)
        + if Matches(trusted[|trusted| - 1], u) then [trusted[|trusted| - 1]] else []
  }

  ghost predicate TrustValid(w: World, t: TrustedVerifier) {
    && IsName(t.verifierId) && IsVersion(t.verifierVersion) && IsKeyId(t.keyId)
    && t.environments != [] && Distinct(t.environments) && Distinct(t.organizations) && Distinct(t.platformTenants)
    && (forall o :: o in t.organizations ==> IsName(o)) && (forall p :: p in t.platformTenants ==> IsName(p))
    && 1 <= t.maxTtlSeconds <= 3600
  }

  predicate IsRevoked(c: Check) {
    var u := c.evidence.unsigned;
    u.evidenceId in c.revokedEvidence || u.nonce in c.revokedNonces || u.keyId in c.revokedKeys
  }

  predicate InScope(t: TrustedVerifier, u: Unsigned) {
    && u.selection.organizationId in t.organizations && u.selection.platformTenantId in t.platformTenants
    && u.environment in t.environments
  }

  /** An observation of a dependency, with a fitting resolution set. */
  predicate Observes(o: Observation, d: Dependency, registry: Registry, issuedAt: Stamp, expiresAt: Stamp) {
    && o.key == d.key && o.kind == d.kind && o.contextId == d.contextId && o.id == d.id
    && o.generation == d.generation && o.subject == d.subject
    && |o.resolutions| == |d.references|
    && forall r :: r in o.resolutions ==> exists q :: q in d.references && Answers(r, q, registry, issuedAt, expiresAt)
  }

  predicate ObservationsFit(u: Unsigned, dependencies: seq<Dependency>, registry: Registry) {
    && |u.observations| == |dependencies|
    && forall o :: o in u.observations ==>
         exists d :: d in dependencies && Observes(o, d, registry, u.issuedAt, u.expiresAt)
  }

  /** What the replay store remembers. */
  datatype Redemption = Redemption(evidenceId: string, nonce: string, requestDigest: Digest, contentAddress: Evidence)

  function RedemptionOf(e: Evidence): Redemption {
    Redemption(e.unsigned.evidenceId, e.unsigned.nonce, e.unsigned.selection.requestDigest, e)
  }

  predicate SubjectAgrees(c: Check) {
    c.evidence.unsigned.selection == c.selection && c.evidence.unsigned.environment == c.catalog.environment
  }

  predicate DigestsAgree(c: Check, closure: seq<Dependency>)
    requires Selected(c.catalog, c.selection).Some?
  {
    var u := c.evidence.unsigned;
    && u.catalogDigest == DesiredStateDigest(c.catalog)
    && u.placementDigest == PlacementContent(Selected(c.catalog, c.selection).value)
    && u.closureDigest == ClosureDigest(closure)
    && u.registryDigest == RegistryDigest(c.registry) && u.policyDigest == c.policyDigest
  }

  predicate LineageFits(c: Check, closure: seq<Dependency>) {
    && c.previous.Keys == Keys(closure) && LinksWellFormed(c.previous)
    && forall o :: o in c.evidence.unsigned.observations ==> o.key in c.previous && o.previous == c.previous[o.key]
  }

  predicate TimeFits(u: Unsigned, t: TrustedVerifier, now: Stamp) {
    && u.issuedAt.instant <= now.instant < u.expiresAt.instant
    && u.expiresAt.instant - u.issuedAt.instant <= t.maxTtlSeconds * 1000
  }

  /** Everything that is checked before the redemption. */
  ghost predicate IsVerified(w: World, c: Check) {
    var u := c.evidence.unsigned;
    && IsTime(c.now) && IsDigest(c.policyDigest) && SelectionValid(c.selection) && EvidenceWellFormed(w, c.evidence)
    && IsDerivable(w, c.catalog, c.selection) && c.evidence == c.contentAddress
    && |Matching(c.trusted, u)| == 1 && TrustValid(w, Matching(c.trusted, u)[0]) && !IsRevoked(c)
    && var t, closure := Matching(c.trusted, u)[0], Closure(w, c.catalog, c.selection);
       && TimeFits(u, t, c.now) && w.verify(t.publicKey, u, c.evidence.signature)
       && SubjectAgrees(c) && InScope(t, u) && DigestsAgree(c, closure) && LineageFits(c, closure)
       && ObservationsFit(u, closure, c.registry)
  }

  /** Checks that succeed when some evidence has been redeemed before. */
  ghost predicate Accepts(w: World, c: Check, redeemed: set<Redemption>) {
    IsVerified(w, c) && RedemptionOf(c.evidence) !in redeemed
  }

  datatype Decision = Decision(
    selection: Selection, environment: Environment, placement: Placement, dependencies: seq<Dependency>,
    catalogDigest: Digest, evidence: Evidence, evaluatedAt: Stamp, expiresAt: Stamp)

  ghost predicate IsDecisionOf(w: World, c: Check, d: Decision) {
    && Selected(c.catalog, c.selection).Some?
    && d == Decision(c.selection, c.catalog.environment, Selected(c.catalog, c.selection).value,
                     Closure(w, c.catalog, c.selection), DesiredStateDigest(c.catalog), c.evidence,
                     c.now, c.evidence.unsigned.expiresAt)
  }

  /** Decisions that come from verified checks. */
  ghost predicate AllAuthentic(w: World, decisions: set<Decision>) {
    forall d :: d in decisions ==> IsAuthentic(w, d)
  }

  ghost predicate IsAuthentic(w: World, d: Decision) {
    exists c :: IsVerified(w, c) && IsDecisionOf(w, c, d)
  }

  /** The times of an authentic decision are timestamps of evidence. */
  lemma AuthenticTimes(w: World, d: Decision)
    requires IsAuthentic(w, d)
    ensures IsTime(d.evaluatedAt) && IsTime(d.expiresAt) && d.evaluatedAt.instant < d.expiresAt.instant
  {
    hide IsDerivable, Closure, SelectionValid, ObservationWellFormed, TrustValid, DigestsAgree, LineageFits,
         ObservationsFit;
  }

  // ---------------------------------------------------------------- the verification as written

  function ObservationKeys(observations: seq<Observation>): seq<string> {
    seq(|observations|, k requires 0 <= k < |observations| => observations[k].key)
  }

  method ParseEvidence(w: World, e: Evidence) returns (ok: bool)
    ensures ok <==> EvidenceWellFormed(w, e)
  {
    hide IsName, ObservationWellFormed, SelectionValid;
    var u := e.unsigned;
    if !(IsName(u.evidenceId) && SelectionValid(u.selection) && IsTime(u.issuedAt) && IsTime(u.expiresAt)
         && IsNonce(u.nonce)) {
      return false;
    }
    if !(IsName(u.verifierId) && IsVersion(u.verifierVersion) && IsKeyId(u.keyId) && IsSignature(e.signature)) {
      return false;
    }
    if !DigestsWellFormed(u) {
      return false;
    }
    if exists o :: o in u.observations && !ObservationWellFormed(w, o) {
      return false;
    }
    if u.observations == [] {
      return false;
    }
    var keys := ObservationKeys(u.observations);
    ok := AreUnique(keys);
    KeysOfDistinct(u.observations);
  }

  lemma KeysOfDistinct(observations: seq<Observation>)
    ensures Distinct(ObservationKeys(observations)) <==> Text.DistinctBy(observations, ObservationKey)
  {
    var keys := ObservationKeys(observations);
    if Distinct(keys) {
      forall i, j | 0 <= i < j < |observations|
        ensures ObservationKey(observations[i]) != ObservationKey(observations[j])
      {
        assert keys[i] != keys[j];
      }
    } else {
      var i, j :| 0 <= i < j < |keys| && keys[i] == keys[j];
      assert ObservationKey(observations[i]) == ObservationKey(observations[j]);
    }
  }

  /** The verifier that is trusted for the evidence, if there is exactly one, and it is configured properly. */
  method UniqueTrusted(w: World, trusted: seq<TrustedVerifier>, u: Unsigned) returns (trust: Option<TrustedVerifier>)
    ensures trust.Some? <==> |Matching(trusted, u)| == 1 && TrustValid(w, Matching(trusted, u)[0])
    ensures trust.Some? ==> trust.value == Matching(trusted, u)[0]
  {
    hide IsName;
    var matches: seq<TrustedVerifier> := [];
    for k := 0 to |trusted|
      invariant matches == Matching(trusted[..k], u)
    {
      assert trusted[..k + 1][..k] == trusted[..k];
      if Matches(trusted[k], u) {
        matches := matches + [trusted[k]];
      }
    }
    assert trusted[..|trusted|] == trusted;
    if |matches| != 1 {
      return None;
    }
    var t := matches[0];
    if !(IsName(t.verifierId) && IsVersion(t.verifierVersion) && IsKeyId(t.keyId)) {
      return None;
    }
    var uniqueEnvironments := AreUnique(t.environments);
    var uniqueOrganizations := AreUnique(t.organizations);
    var uniqueTenants := AreUnique(t.platformTenants);
    if t.environments == [] || !uniqueEnvironments || !uniqueOrganizations || !uniqueTenants {
      return None;
    }
    if (exists o :: o in t.organizations && !IsName(o)) || exists p :: p in t.platformTenants && !IsName(p) {
      return None;
    }
    if !(1 <= t.maxTtlSeconds <= 3600) {
      return None;
    }
    trust := Some(t);
  }

  /** The digests of a dependency's requests differ, because their purposes do. */
  ghost predicate RequestsDistinct(d: Dependency) {
    Distinct(d.references)
  }

  lemma DerivedRequestsAreDistinct(w: World, catalog: Catalog, selection: Selection, d: Dependency)
    requires IsDerivable(w, catalog, selection) && d in Closure(w, catalog, selection)
    ensures RequestsDistinct(d)
  {
    hide IsAccepted, Dependencies, Inputs, FirstByKey, ConsumerOf, KeyOf, SubjectOf, ReferencesCanonical;
    var p := Selected(catalog, selection).value;
    ClosureIsSorted(w.uris, catalog, selection, p);
    var consumer := ConsumerOf(catalog, selection, p);
    var x :| x in FirstByKey(Inputs(catalog, p)) && d == DependencyOf(w.uris, consumer, x);
    FirstByKeyMembers(Inputs(catalog, p));
    InputUsesDiffer(catalog, p, x);
  }

  /** The purposes of an input's references are all different. */
  lemma InputUsesDiffer(catalog: Catalog, p: Placement, x: Input)
    requires IsAccepted(catalog) && p in catalog.placements && x in Inputs(catalog, p)
    ensures forall i, j :: 0 <= i < j < |x.uses| ==> x.uses[i].purpose != x.uses[j].purpose
  {
    hide IsAccepted, Inputs, Needs;
    InputsAreTheNeeds(catalog, p, x);
    var c := NeedsShape(catalog, p, x);
  }

  /** One observation against the dependency of its key. */
  method VerifyObservation(o: Observation, d: Dependency, registry: Registry, issuedAt: Stamp, expiresAt: Stamp)
    returns (ok: bool)
    requires o.key == d.key && RequestsDistinct(d)
    ensures ok <==> Observes(o, d, registry, issuedAt, expiresAt)
  {
    hide IsAuthorized, LifetimeFits;
    if o.kind != d.kind || o.contextId != d.contextId || o.id != d.id || o.generation != d.generation
        || o.subject != d.subject {
      return false;
    }
    var requests: map<Digest, RequestBody> := map q | q in d.references :: RequestContent(q) := q;
    RequestMapSize(d, requests);
    if |requests| != |o.resolutions| {
      return false;
    }
    for k := 0 to |o.resolutions|
      invariant forall r :: r in o.resolutions[..k] ==>
                  exists q :: q in d.references && Answers(r, q, registry, issuedAt, expiresAt)
    {
      var resolution := o.resolutions[k];
      assert o.resolutions[..k + 1] == o.resolutions[..k] + [resolution] && resolution in o.resolutions;
      if resolution.requestDigest !in requests {
        return false;
      }
      if !Answers(resolution, requests[resolution.requestDigest], registry, issuedAt, expiresAt) {
        return false;
      }
    }
    assert o.resolutions[..|o.resolutions|] == o.resolutions;
    ok := true;
  }

  lemma RequestMapSize(d: Dependency, requests: map<Digest, RequestBody>)
    requires RequestsDistinct(d)
    requires requests == map q | q in d.references :: RequestContent(q) := q
    ensures |requests| == |d.references|
  {
    DistinctBySize(d.references);
    var bodies := set q | q in d.references;
    SameSizeByDigest(bodies, requests.Keys);
    assert |requests| == |requests.Keys|;
  }

  lemma {:induction false} SameSizeByDigest(bodies: set<RequestBody>, digests: set<Digest>)
    requires forall x :: x in digests <==> exists q :: q in bodies && x == RequestContent(q)
    ensures |bodies| == |digests|
  {
    if bodies != {} {
      var q :| q in bodies;
      assert RequestContent(q) in digests;
      SameSizeByDigest(bodies - {q}, digests - {RequestContent(q)});
    }
  }

  /** The dependencies by key, none lost. */
  ghost predicate IsByKey(dependencies: seq<Dependency>, byKey: map<string, Dependency>) {
    && |byKey| == |dependencies|
    && (forall key :: key in byKey ==> byKey[key] in dependencies && byKey[key].key == key)
    && (forall d :: d in dependencies ==> d.key in byKey && byKey[d.key] == d)
  }

  method ByKey(dependencies: seq<Dependency>) returns (byKey: map<string, Dependency>)
    requires Text.DistinctBy(dependencies, DependencyKey)
    ensures IsByKey(dependencies, byKey)
  {
    hide Find;
    var unique := UniqueMap(dependencies, DependencyKey);
    byKey := unique.value;
    forall d | d in dependencies
      ensures d.key in byKey && byKey[d.key] == d
    {
      FindIsInverse(dependencies, DependencyKey, d);
    }
    assert forall key :: key in byKey ==> Find(dependencies, DependencyKey, key) == Some(byKey[key]);
    KeyCount(dependencies);
    assert byKey.Keys == Keys(dependencies);
    assert |byKey| == |byKey.Keys|;
  }

  lemma KeyCount(dependencies: seq<Dependency>)
    requires Text.DistinctBy(dependencies, DependencyKey)
    ensures |Keys(dependencies)| == |dependencies|
  {
    var keys := seq(|dependencies|, k requires 0 <= k < |dependencies| => dependencies[k].key);
    forall i, j | 0 <= i < j < |keys|
      ensures keys[i] != keys[j]
    {
      assert DependencyKey(dependencies[i]) != DependencyKey(dependencies[j]);
    }
    DistinctBySize(keys);
    forall key
      ensures key in keys <==> key in Keys(dependencies)
    {
      if d :| d in dependencies && d.key == key {
        var k :| 0 <= k < |dependencies| && dependencies[k] == d;
        assert keys[k] == key;
      }
    }
    assert (set key | key in keys) == Keys(dependencies);
  }

  /** All observations against the closure. */
  method VerifyObservations(u: Unsigned, dependencies: seq<Dependency>, registry: Registry) returns (ok: bool)
    requires Text.DistinctBy(dependencies, DependencyKey)
    requires forall d :: d in dependencies ==> RequestsDistinct(d)
    ensures ok <==> ObservationsFit(u, dependencies, registry)
  {
    hide Observes, RequestsDistinct, Text.DistinctBy;
    var expected := ByKey(dependencies);
    if |expected| != |u.observations| {
      return false;
    }
    for k := 0 to |u.observations|
      invariant forall o :: o in u.observations[..k] ==>
                  exists d :: d in dependencies && Observes(o, d, registry, u.issuedAt, u.expiresAt)
    {
      var observation := u.observations[k];
      assert u.observations[..k + 1] == u.observations[..k] + [observation] && observation in u.observations;
      ObservedIsExpected(dependencies, expected, observation, registry, u);
      if observation.key !in expected {
        return false;
      }
      var fits := VerifyObservation(observation, expected[observation.key], registry, u.issuedAt, u.expiresAt);
      if !fits {
        return false;
      }
    }
    assert u.observations[..|u.observations|] == u.observations;
    ok := true;
  }

  lemma ObservedIsExpected(dependencies: seq<Dependency>, expected: map<string, Dependency>, o: Observation,
                           registry: Registry, u: Unsigned)
    requires IsByKey(dependencies, expected)
    ensures (exists d :: d in dependencies && Observes(o, d, registry, u.issuedAt, u.expiresAt)) <==>
            o.key in expected && Observes(o, expected[o.key], registry, u.issuedAt, u.expiresAt)
  {
    hide Answers;
  }

  /** The closure as the verification needs it. */
  lemma ClosureIsProper(w: World, catalog: Catalog, selection: Selection)
    requires IsDerivable(w, catalog, selection)
    ensures Text.DistinctBy(Closure(w, catalog, selection), DependencyKey)
    ensures forall d :: d in Closure(w, catalog, selection) ==> RequestsDistinct(d)
  {
    hide IsAccepted, ReferencesCanonical, Dependencies, RequestsDistinct;
    ClosureIsSorted(w.uris, catalog, selection, Selected(catalog, selection).value);
    forall d | d in Closure(w, catalog, selection)
      ensures RequestsDistinct(d)
    {
      DerivedRequestsAreDistinct(w, catalog, selection, d);
    }
  }

  /** The checks on a decoded evidence against its closure and its trusted verifier, in their order. */
  method CheckEvidence(w: World, c: Check, t: TrustedVerifier, closure: seq<Dependency>)
    returns (failure: Option<EvidenceFailure>)
    requires Selected(c.catalog, c.selection).Some?
    requires Text.DistinctBy(closure, DependencyKey) && forall d :: d in closure ==> RequestsDistinct(d)
    ensures failure.None? <==>
            var u := c.evidence.unsigned;
            && TimeFits(u, t, c.now) && w.verify(t.publicKey, u, c.evidence.signature)
            && SubjectAgrees(c) && InScope(t, u) && DigestsAgree(c, closure) && LineageFits(c, closure)
            && ObservationsFit(u, closure, c.registry)
    ensures failure != Some(Replay)
  {
    hide ObservationsFit, ClosureDigest, RegistryDigest, DesiredStateDigest, RequestsDistinct, Text.DistinctBy;
    var u := c.evidence.unsigned;
    if u.issuedAt.instant > c.now.instant {
      return Some(NotYetValid);
    }
    if u.expiresAt.instant <= c.now.instant {
      return Some(Expired);
    }
    if u.expiresAt.instant <= u.issuedAt.instant || u.expiresAt.instant - u.issuedAt.instant > t.maxTtlSeconds * 1000 {
      return Some(Ttl);
    }
    if !w.verify(t.publicKey, u, c.evidence.signature) {
      return Some(SignatureInvalid);
    }
    if u.selection != c.selection || u.environment != c.catalog.environment {
      return Some(SubjectMismatch);
    }
    if !InScope(t, u) {
      return Some(VerifierScope);
    }
    if u.catalogDigest != DesiredStateDigest(c.catalog)
        || u.placementDigest != PlacementContent(Selected(c.catalog, c.selection).value)
       || u.closureDigest != ClosureDigest(closure) {
      return Some(DigestMismatch);
    }
    if u.registryDigest != RegistryDigest(c.registry) || u.policyDigest != c.policyDigest {
      return Some(PolicyMismatch);
    }
    if c.previous.Keys != Keys(closure) || !LinksWellFormed(c.previous) {
      return Some(PreviousLink);
    }
    if exists o :: o in u.observations && !(o.key in c.previous && o.previous == c.previous[o.key]) {
      return Some(PreviousLink);
    }
    var fits := VerifyObservations(u, closure, c.registry);
    if !fits {
      return Some(ObservationMismatch);
    }
    failure := None;
  }

  /** Everything before the redemption. */
  method VerifyBeforeRedemption(w: World, c: Check) returns (failure: Option<EvidenceFailure>, closure: seq<Dependency>)
    ensures failure.None? <==> IsVerified(w, c)
    ensures failure.None? ==> Selected(c.catalog, c.selection).Some? && closure == Closure(w, c.catalog, c.selection)
    ensures failure != Some(Replay)
  {
    hide EvidenceWellFormed, IsDerivable, TrustValid, TimeFits, SubjectAgrees, InScope, DigestsAgree, LineageFits,
         ObservationsFit, Closure, SelectionValid, Matching, RequestsDistinct, Text.DistinctBy;
    closure := [];
    if !IsTime(c.now) || !IsDigest(c.policyDigest) || !SelectionValid(c.selection) {
      return Some(Malformed), closure;
    }
    var parsed := ParseEvidence(w, c.evidence);
    if !parsed {
      return Some(Malformed), closure;
    }
    failure, closure := DeriveClosure(w, c.catalog, c.selection);
    if failure.Some? {
      return;
    }
    if c.evidence != c.contentAddress {
      return Some(ContentAddress), closure;
    }
    var trust := UniqueTrusted(w, c.trusted, c.evidence.unsigned);
    if trust.None? {
      return Some(VerifierUnknown), closure;
    }
    if IsRevoked(c) {
      return Some(Revoked), closure;
    }
    ClosureIsProper(w, c.catalog, c.selection);
    failure := CheckEvidence(w, c, trust.value, closure);
  }

  /** A verifier with its replay store and the decisions it has made in this process. */
  class Verifier {
    var redeemed: set<Redemption>
    var authentic: set<Decision>

    constructor ()
      ensures redeemed == {} && authentic == {}
    {
      redeemed, authentic := {}, {};
    }

    method Redeem(r: Redemption) returns (first: bool)
      modifies this`redeemed
      ensures first <==> r !in old(redeemed)
      ensures redeemed == old(redeemed) + {r}
    {
      first := r !in redeemed;
      redeemed := redeemed + {r};
    }

    /**
     Accepts exactly the verified evidence that has not been redeemed; acceptance redeems it and records the decision,
     and a rejection changes nothing.
     */
    method AssertDeployable(w: World, c: Check) returns (result: Result<Decision, EvidenceFailure>)
      modifies this
      ensures result.Ok? <==> Accepts(w, c, old(redeemed))
      ensures result.Ok? ==> IsDecisionOf(w, c, result.value)
      ensures redeemed == if result.Ok? then old(redeemed) + {RedemptionOf(c.evidence)} else old(redeemed)
      ensures authentic == if result.Ok? then old(authentic) + {result.value} else old(authentic)
      ensures AllAuthentic(w, old(authentic)) ==> AllAuthentic(w, authentic)
      ensures result == Err(Replay) <==> IsVerified(w, c) && RedemptionOf(c.evidence) in old(redeemed)
    {
      hide IsVerified, Closure, DesiredStateDigest;
      var failure, closure := VerifyBeforeRedemption(w, c);
      if failure.Some? {
        return Err(failure.value);
      }
      VerifiedSubject(w, c);
      var first := Redeem(RedemptionOf(c.evidence));
      if !first {
        assert redeemed == old(redeemed);
        return Err(Replay);
      }
      var decision := Decision(
        c.evidence.unsigned.selection, c.evidence.unsigned.environment, Selected(c.catalog, c.selection).value, closure,
        DesiredStateDigest(c.catalog), c.evidence, c.now, c.evidence.unsigned.expiresAt);
      authentic := authentic + {decision};
      result := Ok(decision);
    }
  }

  lemma VerifiedSubject(w: World, c: Check)
    requires IsVerified(w, c)
    ensures SubjectAgrees(c)
  {}

  // ---------------------------------------------------------------- the round trip

  /** The bounds the catalogue parser puts on names and generations. */
  ghost predicate ContextParsed(c: Context) {
    && IsName(c.id) && c.status.generation <= 1000000
    && (forall v :: v in c.runtimes ==> IsName(v.id)) && (forall v :: v in c.networks ==> IsName(v.id))
    && (forall v :: v in c.registries ==> IsName(v.id)) && (forall v :: v in c.dns ==> IsName(v.id))
    && (forall v :: v in c.identities ==> IsName(v.id)) && (forall v :: v in c.observability ==> IsName(v.id))
    && forall b :: b in c.bindings ==> IsName(b.spec.id) && b.status.generation <= 1000000
  }

  ghost predicate IsParsed(catalog: Catalog) {
    forall c :: c in catalog.contexts ==> ContextParsed(c)
  }

  lemma ParsedIsSlashFree(catalog: Catalog)
    requires IsParsed(catalog)
    ensures SlashFree(catalog)
  {
    hide IsNamePattern;
    forall c | c in catalog.contexts
      ensures '/' !in c.id
    {
      NameHasNoSlash(c.id);
    }
  }

  lemma KeyForIsKey(c: string, kind: Kind, id: string)
    requires IsName(c) && IsName(id)
    ensures IsKey(KeyFor(c, kind, id))
  {
    hide IsNamePattern, KindText;
    NameHasNoSlash(c);
    KindTextIsInjective(kind, kind);
    var key, rest := KeyFor(c, kind, id), Slash(KindText(kind), id);
    FirstSlash(c, rest, key);
    assert key[..|c|] == c && key[|c| + 1..] == rest;
    FirstSlash(KindText(kind), id, rest);
    assert rest[..|KindText(kind)|] == KindText(kind) && rest[|KindText(kind)| + 1..] == id;
    KindTextIsKindText(kind);
  }

  lemma KindTextIsKindText(kind: Kind)
    ensures IsKindText(KindText(kind)) && |KindText(kind)| <= 16
  {
    var texts := ["context", "runtime", "network", "registry", "identity", "observability", "dns", "resource-binding"];
    assert texts[0] == "context" && texts[1] == "runtime" && texts[2] == "network" && texts[3] == "registry"
           && texts[4] == "identity" && texts[5] == "observability" && texts[6] == "dns"
           && texts[7] == "resource-binding";
  }

  lemma CapabilityIsNamed(c: Context, kind: Kind, id: string, x: Input)
    requires ContextParsed(c) && IsCapability(c, kind, id, x)
    ensures IsName(x.id) && x.generation == c.status.generation
  {
    hide IsName;
  }

  lemma NeededInputIsNamed(catalog: Catalog, p: Placement, x: Input)
    requires IsAccepted(catalog) && IsParsed(catalog) && Needs(catalog, p, x)
    ensures IsName(x.contextId) && IsName(x.id) && 1 <= x.generation <= 1000000
  {
    hide IsName, IsCapability, Needs, PlacementValid, Distinct, Text.DistinctBy, UsedIds;
    var c := NeedsShape(catalog, p, x);
    assert ContextValid(c, catalog.environment);
    if IsCapability(c, x.kind, x.id, x) {
      CapabilityIsNamed(c, x.kind, x.id, x);
    } else if x != ContextInput(c) {
      var b :| b in c.bindings && x == BindingInput(c, b);
      PlacedMembers(catalog.contexts, Placed(b, c.id));
      assert BindingValid(Placed(b, c.id).binding);
    }
  }

  lemma {:induction false} ResolvedAreWellFormed(w: World, registry: Registry, requests: seq<RequestBody>,
                                                 issuedAt: Stamp, expiresAt: Stamp)
    ensures forall r :: r in Resolved(w, registry, requests, issuedAt, expiresAt) ==>
              ResolutionWellFormed(w, r) && exists q :: q in requests && Answers(r, q, registry, issuedAt, expiresAt)
  {
    hide ResolutionWellFormed, Answers;
    if requests != [] {
      var n := |requests| - 1;
      ResolvedAreWellFormed(w, registry, requests[..n], issuedAt, expiresAt);
      assert requests == requests[..n] + [requests[n]] && requests[n] in requests;
    }
  }

  lemma {:induction false} ResolvedCount(w: World, registry: Registry, requests: seq<RequestBody>, issuedAt: Stamp,
                                         expiresAt: Stamp)
    requires AllResolve(w, registry, requests, issuedAt, expiresAt)
    ensures |Resolved(w, registry, requests, issuedAt, expiresAt)| == |requests|
  {
    hide Resolve;
    if requests != [] {
      var n := |requests| - 1;
      assert requests[n] in requests;
      ResolvedCount(w, registry, requests[..n], issuedAt, expiresAt);
    }
  }

  lemma LinkIsDigest(w: World, o: Order, d: Dependency)
    requires IsCreatable(w, o)
    ensures PreviousOf(o.previous, d.key).Some? ==> IsDigest(PreviousOf(o.previous, d.key).value)
  {
    hide IsDerivable, Closure, AllAuthorized, AllResolve, UnsignedOf;
  }

  lemma SubjectIsDigest(consumer: Consumer, x: Input)
    ensures IsDigest(SubjectOf(consumer, x))
  {}

  /** The observation that is made of a dependency is well-formed and fits it. */
  lemma ObservationIsGood(w: World, o: Order, d: Dependency)
    requires IsCreatable(w, o) && IsParsed(o.catalog) && d in Closure(w, o.catalog, o.selection)
    ensures ObservationWellFormed(w, ObservationOf(w, o, d))
    ensures Observes(ObservationOf(w, o, d), d, o.registry, o.issuedAt, ExpiryOf(o))
  {
    hide IsAccepted, Dependencies, ReferencesCanonical, IsName, Needs, IsKey, ResolutionWellFormed, Answers,
         AllResolve, ConsumerOf, SubjectOf, KeyFor, IsParsed;
    var p := Selected(o.catalog, o.selection).value;
    ParsedIsSlashFree(o.catalog);
    ClosureIsExact(w.uris, o.catalog, o.selection, p, d);
    var x :| Needs(o.catalog, p, x) && d == DependencyOf(w.uris, ConsumerOf(o.catalog, o.selection, p), x);
    NeededInputIsNamed(o.catalog, p, x);
    LinkIsDigest(w, o, d);
    SubjectIsDigest(ConsumerOf(o.catalog, o.selection, p), x);
    KeyForIsKey(x.contextId, x.kind, x.id);
    ResolvedAreWellFormed(w, o.registry, d.references, o.issuedAt, ExpiryOf(o));
    ResolvedCount(w, o.registry, d.references, o.issuedAt, ExpiryOf(o));
  }

  /** Only the promises of the resolvers matter for an answer, and those the registry digest pins. */
  lemma SameDigestSameAnswers(a: Registry, b: Registry, r: Resolution, q: RequestBody, issuedAt: Stamp,
                              expiresAt: Stamp)
    requires RegistryDigest(a) == RegistryDigest(b)
    ensures Answers(r, q, a, issuedAt, expiresAt) <==> Answers(r, q, b, issuedAt, expiresAt)
  {
    hide LifetimeFits;
    var left := map scheme | scheme in a :: a[scheme].descriptor;
    var right := map scheme | scheme in b :: b[scheme].descriptor;
    assert left == right;
    assert q.scheme in left <==> q.scheme in a;
    assert q.scheme in right <==> q.scheme in b;
    if q.scheme in a {
      assert left[q.scheme] == right[q.scheme];
    }
  }

  /** A verifier that is set up for an order: the same catalogue, selection, resolver promises, policy and lineage. */
  ghost predicate IsSetUpFor(w: World, c: Check, o: Order)
    requires IsCreatable(w, o)
  {
    && c.catalog == o.catalog && c.selection == o.selection && c.evidence == c.contentAddress == EvidenceOf(w, o)
    && RegistryDigest(c.registry) == RegistryDigest(o.registry) && c.policyDigest == o.policyDigest
    && c.previous.Keys == Keys(Closure(w, o.catalog, o.selection))
    && forall key :: key in c.previous ==> c.previous[key] == PreviousOf(o.previous, key)
  }

  /**
   The signer is the one verifier trusted under its name, in scope, for evidence of that lifetime, and not revoked.
   */
  ghost predicate Trusts(w: World, c: Check, o: Order)
    requires IsCreatable(w, o) && IsSetUpFor(w, c, o)
  {
    var u := UnsignedOf(w, o);
    && |Matching(c.trusted, u)| == 1 && TrustValid(w, Matching(c.trusted, u)[0]) && !IsRevoked(c)
    && var t := Matching(c.trusted, u)[0];
       t.publicKey == w.publicKey(o.signer.privateKey) && InScope(t, u) && o.ttlSeconds <= t.maxTtlSeconds
  }

  /**
   Evidence made for a parsed catalogue is accepted by a verifier set up for it at exactly the instants of its
   lifetime, as long as it has not been redeemed.
   */
  lemma EvidenceRoundTrip(w: World, o: Order, c: Check, redeemed: set<Redemption>)
    requires IsLawful(w) && IsParsed(o.catalog) && IsCreatable(w, o) && IsSetUpFor(w, c, o) && Trusts(w, c, o)
    ensures Accepts(w, c, redeemed) <==>
            && IsTime(c.now) && o.issuedAt.instant <= c.now.instant < ExpiryOf(o).instant
            && RedemptionOf(EvidenceOf(w, o)) !in redeemed
  {
    hide IsDerivable, Closure, TrustValid, EvidenceWellFormed, ObservationsFit, LineageFits, DigestsAgree,
         SelectionValid, IsLawful, OrderWellFormed, AllResolve, AllAuthorized, IsRevoked, InScope, Matching;
    CreatedIsWellFormed(w, o);
    assert IsDigest(o.policyDigest) by {
      PolicyIsDigest(w, o);
    }
    CreatedFits(w, o, c.registry);
    CreatedLineage(w, o, c);
    CreatedDigests(w, o, c);
    SignatureHolds(w, o);
    assert SelectionValid(o.selection) by {
      SelectionIsValid(w, o);
    }
  }

  lemma PolicyIsDigest(w: World, o: Order)
    requires IsCreatable(w, o)
    ensures IsDigest(o.policyDigest)
  {
    hide IsDerivable, Closure, AllAuthorized, AllResolve, UnsignedOf;
  }

  lemma DerivableIsSelected(w: World, catalog: Catalog, selection: Selection)
    requires IsDerivable(w, catalog, selection)
    ensures Selected(catalog, selection).Some?
  {}

  lemma SelectionIsValid(w: World, o: Order)
    requires IsDerivable(w, o.catalog, o.selection)
    ensures SelectionValid(o.selection)
  {}

  lemma SignatureHolds(w: World, o: Order)
    requires IsLawful(w) && IsCreatable(w, o)
    ensures w.verify(w.publicKey(o.signer.privateKey), UnsignedOf(w, o), EvidenceOf(w, o).signature)
    ensures IsSignature(EvidenceOf(w, o).signature)
  {
    hide IsDerivable, OrderWellFormed, UnsignedOf, AllResolve, AllAuthorized, Closure;
  }

  lemma CreatedDigests(w: World, o: Order, c: Check)
    requires IsCreatable(w, o) && IsSetUpFor(w, c, o)
    ensures DigestsAgree(c, Closure(w, c.catalog, c.selection))
  {
    hide IsDerivable, Closure, AllResolve, AllAuthorized, RegistryDigest, ClosureDigest, DesiredStateDigest,
         ObservationsOf;
  }

  lemma CreatedLineage(w: World, o: Order, c: Check)
    requires IsCreatable(w, o) && IsSetUpFor(w, c, o)
    ensures LineageFits(c, Closure(w, c.catalog, c.selection))
  {
    hide IsDerivable, Closure, AllResolve, AllAuthorized, RegistryDigest, ClosureDigest, DesiredStateDigest,
         OrderWellFormed;
    DerivableIsSelected(w, o.catalog, o.selection);
    var closure := Closure(w, o.catalog, o.selection);
    var observations := ObservationsOf(w, o, closure);
    forall x | x in observations
      ensures x.key in c.previous && x.previous == c.previous[x.key]
    {
      var k :| 0 <= k < |closure| && observations[k] == x;
      assert x.key == closure[k].key && closure[k] in closure;
      assert x.key in Keys(closure);
    }
  }

  lemma CreatedFits(w: World, o: Order, registry: Registry)
    requires IsCreatable(w, o) && IsParsed(o.catalog) && RegistryDigest(registry) == RegistryDigest(o.registry)
    ensures ObservationsFit(UnsignedOf(w, o), Closure(w, o.catalog, o.selection), registry)
  {
    hide IsDerivable, Closure, AllResolve, AllAuthorized, RegistryDigest, ClosureDigest, DesiredStateDigest,
         OrderWellFormed, ObservationOf, Answers;
    DerivableIsSelected(w, o.catalog, o.selection);
    var closure := Closure(w, o.catalog, o.selection);
    var observations := ObservationsOf(w, o, closure);
    forall x | x in observations
      ensures exists d :: d in closure && Observes(x, d, registry, o.issuedAt, ExpiryOf(o))
    {
      var k :| 0 <= k < |closure| && observations[k] == x;
      var d := closure[k];
      assert d in closure && x == ObservationOf(w, o, d);
      ObservationIsGood(w, o, d);
      forall r, q
        ensures Answers(r, q, registry, o.issuedAt, ExpiryOf(o)) <==> Answers(r, q, o.registry, o.issuedAt, ExpiryOf(o))
      {
        SameDigestSameAnswers(registry, o.registry, r, q, o.issuedAt, ExpiryOf(o));
      }
      assert Observes(x, d, registry, o.issuedAt, ExpiryOf(o));
    }
  }

  lemma CreatedIsWellFormed(w: World, o: Order)
    requires IsLawful(w) && IsCreatable(w, o) && IsParsed(o.catalog)
    ensures EvidenceWellFormed(w, EvidenceOf(w, o))
  {
    hide Closure, AllResolve, AllAuthorized, RegistryDigest, ClosureDigest, DesiredStateDigest, ObservationOf,
         IsAccepted, ObservationWellFormed, Observes, IsName, IsLawful, IsParsed, ReferencesCanonical;
    SignatureHolds(w, o);
    var closure := Closure(w, o.catalog, o.selection);
    var observations := ObservationsOf(w, o, closure);
    forall x | x in observations
      ensures ObservationWellFormed(w, x)
    {
      var k :| 0 <= k < |closure| && observations[k] == x;
      ObservationIsGood(w, o, closure[k]);
    }
    ClosureIsProper(w, o.catalog, o.selection);
    forall i, j | 0 <= i < j < |observations|
      ensures ObservationKey(observations[i]) != ObservationKey(observations[j])
    {
      KeyOfObservation(w, o, closure[i]);
      KeyOfObservation(w, o, closure[j]);
      assert DependencyKey(closure[i]) != DependencyKey(closure[j]);
    }
    ClosureIsNotEmpty(w, o.catalog, o.selection);
    CreatableExpiryIsTime(w, o);
    CreatedDigestsAreDigests(w, o);
  }

  lemma CreatedDigestsAreDigests(w: World, o: Order)
    requires IsCreatable(w, o)
    ensures DigestsWellFormed(UnsignedOf(w, o))
  {
    hide IsDerivable, Closure, AllAuthorized, AllResolve, ObservationsOf;
    PolicyIsDigest(w, o);
  }

  /**
   The resolutions outlive the evidence, and their expiries are timestamps; so the expiry of the evidence is one too.
   */
  lemma CreatableExpiryIsTime(w: World, o: Order)
    requires IsCreatable(w, o)
    ensures IsTime(ExpiryOf(o))
  {
    hide IsDerivable, Closure, IsAuthorized, UnsignedOf, AllAuthorized;
    DerivableIsSelected(w, o.catalog, o.selection);
    ClosureIsNotEmpty(w, o.catalog, o.selection);
    var d := Closure(w, o.catalog, o.selection)[0];
    assert d in Closure(w, o.catalog, o.selection);
    DependencyHasRequests(w, o.catalog, o.selection, d);
    var q := d.references[0];
    assert q in d.references;
    var r := Resolve(w, o.registry, q, o.issuedAt, ExpiryOf(o)).value;
    assert Answers(r, q, o.registry, o.issuedAt, ExpiryOf(o)) && IsTime(r.expiresAt);
  }

  lemma DependencyHasRequests(w: World, catalog: Catalog, selection: Selection, d: Dependency)
    requires IsDerivable(w, catalog, selection) && d in Closure(w, catalog, selection)
    ensures d.references != []
  {
    hide IsAccepted, Dependencies, Inputs, FirstByKey, ConsumerOf, KeyOf, SubjectOf, ReferencesCanonical, HasShape,
         Needs;
    var p := Selected(catalog, selection).value;
    ClosureIsSorted(w.uris, catalog, selection, p);
    var consumer := ConsumerOf(catalog, selection, p);
    var x :| x in FirstByKey(Inputs(catalog, p)) && d == DependencyOf(w.uris, consumer, x);
    FirstByKeyMembers(Inputs(catalog, p));
    InputsAreTheNeeds(catalog, p, x);
    var c := NeedsShape(catalog, p, x);
    ShapeHasUses(c, x);
  }

  lemma KeyOfObservation(w: World, o: Order, d: Dependency)
    ensures ObservationOf(w, o, d).key == d.key
  {}

  lemma ClosureIsNotEmpty(w: World, catalog: Catalog, selection: Selection)
    requires IsDerivable(w, catalog, selection)
    ensures |Closure(w, catalog, selection)| > 0
  {
    hide IsAccepted, Dependencies, ReferencesCanonical, FirstByKey, DependencyOf, CapabilitiesKnown;
    var p := Selected(catalog, selection).value;
    LookupsSucceed(catalog, p);
    var x := ContextInput(Find(catalog.contexts, ContextId, p.contextId).value);
    assert x in Inputs(catalog, p);
    FirstByKeyMembers(Inputs(catalog, p));
    var y :| y in FirstByKey(Inputs(catalog, p)) && KeyOf(y) == KeyOf(x);
    ClosureIsSorted(w.uris, catalog, selection, p);
    assert DependencyOf(w.uris, ConsumerOf(catalog, selection, p), y) in Closure(w, catalog, selection);
  }

  // ---------------------------------------------------------------- what verified evidence observes

  /** Verified evidence observes every dependency of the closure exactly once, as it is, and nothing else. */
  lemma ObservationsAreTheClosure(w: World, c: Check, d: Dependency)
    requires IsVerified(w, c) && d in Closure(w, c.catalog, c.selection)
    ensures var u := c.evidence.unsigned;
            exists k :: 0 <= k < |u.observations| && Observes(u.observations[k], d, c.registry, u.issuedAt, u.expiresAt)
              && forall j :: 0 <= j < |u.observations| && u.observations[j].key == d.key ==> j == k
    ensures forall o :: o in c.evidence.unsigned.observations ==>
              exists e :: e in Closure(w, c.catalog, c.selection)
                && Observes(o, e, c.registry, c.evidence.unsigned.issuedAt, c.evidence.unsigned.expiresAt)
  {
    hide TrustValid, Closure, Answers, ObservationWellFormed, IsName, IsAccepted, ReferencesCanonical, LineageFits,
         DigestsAgree;
    var u, closure := c.evidence.unsigned, Closure(w, c.catalog, c.selection);
    ClosureIsProper(w, c.catalog, c.selection);
    KeyCount(closure);
    KeysOfDistinct(u.observations);
    var keys := ObservationKeys(u.observations);
    DistinctBySize(keys);
    var seen := set key | key in keys;
    forall key | key in keys
      ensures key in Keys(closure)
    {
      var k :| 0 <= k < |keys| && keys[k] == key;
      assert u.observations[k] in u.observations;
    }
    SubsetOfSameSize(seen, Keys(closure));
    assert d.key in seen;
    var k :| 0 <= k < |keys| && keys[k] == d.key;
    var o := u.observations[k];
    assert o in u.observations;
    var e :| e in closure && Observes(o, e, c.registry, u.issuedAt, u.expiresAt);
    SameKeySameDependency(closure, d, e);
    forall j | 0 <= j < |u.observations| && u.observations[j].key == d.key
      ensures j == k
    {
      assert ObservationKey(u.observations[j]) == ObservationKey(u.observations[k]);
    }
  }

  lemma SameKeySameDependency(dependencies: seq<Dependency>, d: Dependency, e: Dependency)
    requires Text.DistinctBy(dependencies, DependencyKey) && d in dependencies && e in dependencies && d.key == e.key
    ensures d == e
  {
    var i :| 0 <= i < |dependencies| && dependencies[i] == d;
    var j :| 0 <= j < |dependencies| && dependencies[j] == e;
    assert DependencyKey(dependencies[i]) == DependencyKey(dependencies[j]);
  }

  function ResolutionDigests(resolutions: seq<Resolution>): seq<Digest> {
    seq(|resolutions|, k requires 0 <= k < |resolutions| => resolutions[k].requestDigest)
  }

  /** The request has a resolution. */
  ghost predicate IsResolved(q: RequestBody, o: Observation) {
    exists r :: r in o.resolutions && r.requestDigest == RequestContent(q)
  }

  lemma ResolvedByDigest(q: RequestBody, o: Observation)
    ensures IsResolved(q, o) <==> RequestContent(q) in ResolutionDigests(o.resolutions)
  {
    var digests := ResolutionDigests(o.resolutions);
    if IsResolved(q, o) {
      var r :| r in o.resolutions && r.requestDigest == RequestContent(q);
      var k :| 0 <= k < |o.resolutions| && o.resolutions[k] == r;
      assert digests[k] == RequestContent(q);
    }
    if RequestContent(q) in digests {
      var k :| 0 <= k < |digests| && digests[k] == RequestContent(q);
      assert o.resolutions[k] in o.resolutions;
    }
  }

  function RequestedDigests(d: Dependency): set<Digest> {
    set q | q in d.references :: RequestContent(q)
  }

  lemma RequestedSize(d: Dependency)
    requires RequestsDistinct(d)
    ensures |RequestedDigests(d)| == |d.references|
  {
    var requests: map<Digest, RequestBody> := map q | q in d.references :: RequestContent(q) := q;
    RequestMapSize(d, requests);
    assert requests.Keys == RequestedDigests(d);
    assert |requests| == |requests.Keys|;
  }

  lemma ResolutionsAreRequested(o: Observation, d: Dependency, registry: Registry, issuedAt: Stamp, expiresAt: Stamp)
    requires Observes(o, d, registry, issuedAt, expiresAt)
    ensures forall x :: x in ResolutionDigests(o.resolutions) ==> x in RequestedDigests(d)
  {
    hide IsAuthorized, LifetimeFits;
    var digests := ResolutionDigests(o.resolutions);
    forall x | x in digests
      ensures x in RequestedDigests(d)
    {
      var k :| 0 <= k < |digests| && digests[k] == x;
      assert o.resolutions[k] in o.resolutions;
    }
  }

  /** The resolutions answer every request of the dependency exactly when no two of them are for the same request. */
  lemma ResolutionsCoverRequests(o: Observation, d: Dependency, registry: Registry, issuedAt: Stamp, expiresAt: Stamp)
    requires RequestsDistinct(d) && Observes(o, d, registry, issuedAt, expiresAt)
    ensures (forall q :: q in d.references ==> IsResolved(q, o)) <==> Distinct(ResolutionDigests(o.resolutions))
  {
    hide Answers, IsResolved, RequestsDistinct;
    var digests := ResolutionDigests(o.resolutions);
    var answered := set x | x in digests;
    DistinctBySize(digests);
    RequestedSize(d);
    ResolutionsAreRequested(o, d, registry, issuedAt, expiresAt);
    SubsetOfSameSize(answered, RequestedDigests(d));
    forall q | q in d.references
      ensures IsResolved(q, o) <==> RequestContent(q) in answered
    {
      ResolvedByDigest(q, o);
    }
    hide Observes;
    assert (forall q :: q in d.references ==> IsResolved(q, o)) <==> RequestedDigests(d) <= answered;
  }

  /** Evidence in which one observation gives its first resolution a second time, instead of the second one. */
  function Repeating(e: Evidence, k: nat, signature: string): Evidence
    requires k < |e.unsigned.observations| && |e.unsigned.observations[k].resolutions| >= 2
  {
    var o := e.unsigned.observations[k];
    var repeated := o.(resolutions := o.resolutions[1 := o.resolutions[0]]);
    Evidence(e.unsigned.(observations := e.unsigned.observations[k := repeated]), signature)
  }

  /** The same check of other evidence. */
  function CheckOf(c: Check, e: Evidence): Check {
    c.(evidence := e, contentAddress := e)
  }

  lemma SameMatching(trusted: seq<TrustedVerifier>, u: Unsigned, v: Unsigned)
    requires u.verifierId == v.verifierId && u.verifierVersion == v.verifierVersion && u.keyId == v.keyId
    ensures Matching(trusted, u) == Matching(trusted, v)
  {}

  lemma RepeatedMembers(resolutions: seq<Resolution>)
    requires |resolutions| >= 2
    ensures forall r :: r in resolutions[1 := resolutions[0]] ==> r in resolutions
  {}

  lemma RepeatingObserves(o: Observation, d: Dependency, registry: Registry, issuedAt: Stamp, expiresAt: Stamp)
    requires Observes(o, d, registry, issuedAt, expiresAt) && |o.resolutions| >= 2
    ensures Observes(o.(resolutions := o.resolutions[1 := o.resolutions[0]]), d, registry, issuedAt, expiresAt)
  {
    hide Answers;
    RepeatedMembers(o.resolutions);
    var repeated := o.(resolutions := o.resolutions[1 := o.resolutions[0]]);
    assert forall r :: r in repeated.resolutions ==> r in o.resolutions;
  }

  lemma RepeatingIsWellFormed(w: World, e: Evidence, k: nat, signature: string)
    requires EvidenceWellFormed(w, e) && k < |e.unsigned.observations| && |e.unsigned.observations[k].resolutions| >= 2
    requires IsSignature(signature)
    ensures EvidenceWellFormed(w, Repeating(e, k, signature))
  {
    hide IsName, ResolutionWellFormed, IsKey, SelectionValid, IsDigest;
    var before, after := e.unsigned.observations, Repeating(e, k, signature).unsigned.observations;
    assert before[k] in before;
    forall i, j | 0 <= i < j < |after|
      ensures ObservationKey(after[i]) != ObservationKey(after[j])
    {
      assert ObservationKey(before[i]) != ObservationKey(before[j]);
    }
    forall o | o in after
      ensures ObservationWellFormed(w, o)
    {
      var i :| 0 <= i < |after| && after[i] == o;
      assert before[i] in before;
      RepeatedMembers(before[k].resolutions);
    }
  }

  /** With its repeated resolution signed by the same verifier, verified evidence stays verified. */
  lemma RepeatingIsVerified(w: World, c: Check, k: nat, signature: string)
    requires IsVerified(w, c) && k < |c.evidence.unsigned.observations|
    requires |c.evidence.unsigned.observations[k].resolutions| >= 2 && IsSignature(signature)
    requires w.verify(Matching(c.trusted, c.evidence.unsigned)[0].publicKey,
                      Repeating(c.evidence, k, signature).unsigned, signature)
    ensures IsVerified(w, CheckOf(c, Repeating(c.evidence, k, signature)))
  {
    hide EvidenceWellFormed, IsDerivable, Closure, TrustValid, SelectionValid, Matching, ClosureDigest,
         DesiredStateDigest, RegistryDigest, Observes;
    var e := Repeating(c.evidence, k, signature);
    DerivableIsSelected(w, c.catalog, c.selection);
    var u, v, closure := c.evidence.unsigned, e.unsigned, Closure(w, c.catalog, c.selection);
    RepeatingIsWellFormed(w, c.evidence, k, signature);
    SameMatching(c.trusted, u, v);
    forall o | o in v.observations
      ensures exists d :: d in closure && Observes(o, d, c.registry, v.issuedAt, v.expiresAt)
      ensures o.key in c.previous && o.previous == c.previous[o.key]
    {
      var i :| 0 <= i < |v.observations| && v.observations[i] == o;
      assert u.observations[i] in u.observations;
      var d :| d in closure && Observes(u.observations[i], d, c.registry, u.issuedAt, u.expiresAt);
      if i == k {
        RepeatingObserves(u.observations[k], d, c.registry, u.issuedAt, u.expiresAt);
      }
    }
  }

  /** An observation of verified evidence that leaves a request of its dependency unanswered. */
  ghost predicate LeavesUnanswered(w: World, c: Check, k: nat, d: Dependency, q: RequestBody) {
    && IsVerified(w, c) && d in Closure(w, c.catalog, c.selection) && k < |c.evidence.unsigned.observations|
    && c.evidence.unsigned.observations[k].key == d.key
    && q in d.references && !IsResolved(q, c.evidence.unsigned.observations[k])
  }

  lemma RepetitionLeavesUnanswered(w: World, c: Check, k: nat, signature: string)
    returns (d: Dependency, q: RequestBody)
    requires IsVerified(w, c) && k < |c.evidence.unsigned.observations|
    requires |c.evidence.unsigned.observations[k].resolutions| >= 2 && IsSignature(signature)
    requires w.verify(Matching(c.trusted, c.evidence.unsigned)[0].publicKey,
                      Repeating(c.evidence, k, signature).unsigned, signature)
    ensures LeavesUnanswered(w, CheckOf(c, Repeating(c.evidence, k, signature)), k, d, q)
  {
    hide IsVerified, IsDerivable, Closure, Answers, IsResolved, RequestsDistinct;
    RepeatingIsVerified(w, c, k, signature);
    var after := CheckOf(c, Repeating(c.evidence, k, signature));
    VerifiedFits(w, after);
    var u := after.evidence.unsigned;
    var o := u.observations[k];
    assert o in u.observations;
    d :| d in Closure(w, c.catalog, c.selection) && Observes(o, d, c.registry, u.issuedAt, u.expiresAt);
    ClosureIsProper(w, c.catalog, c.selection);
    ResolutionsCoverRequests(o, d, c.registry, u.issuedAt, u.expiresAt);
    assert ResolutionDigests(o.resolutions)[0] == ResolutionDigests(o.resolutions)[1];
    q :| q in d.references && !IsResolved(q, o);
  }

  lemma VerifiedFits(w: World, c: Check)
    requires IsVerified(w, c)
    ensures IsDerivable(w, c.catalog, c.selection)
    ensures ObservationsFit(c.evidence.unsigned, Closure(w, c.catalog, c.selection), c.registry)
  {}

  // ---------------------------------------------------------------- what acceptance means

  ghost predicate IsNamedIn(t: TrustedVerifier, u: Unsigned) {
    t.verifierId == u.verifierId && t.verifierVersion == u.verifierVersion && t.keyId == u.keyId
  }

  /** The one trusted verifier that evidence names, for its organisation, tenant, environment and lifetime. */
  ghost predicate IsSignedByTrusted(w: World, c: Check, t: TrustedVerifier) {
    var u := c.evidence.unsigned;
    && (exists i :: 0 <= i < |c.trusted| && c.trusted[i] == t
          && forall j :: 0 <= j < |c.trusted| && IsNamedIn(c.trusted[j], u) ==> j == i)
    && IsNamedIn(t, u)
    && w.verify(t.publicKey, u, c.evidence.signature)
    && u.selection.organizationId in t.organizations && u.selection.platformTenantId in t.platformTenants
    && u.environment in t.environments
    && 1 <= t.maxTtlSeconds <= 3600 && u.expiresAt.instant - u.issuedAt.instant <= 1000 * t.maxTtlSeconds
  }

  /** An answer to a request by the resolver of its scheme, with authority for everything the request is about. */
  ghost predicate IsAuthorityFor(registry: Registry, q: RequestBody, r: Resolution, u: Unsigned) {
    && q.scheme in registry
    && var d := registry[q.scheme].descriptor;
       && r.requestDigest == RequestContent(q)
       && r.resolverId == d.resolverId && r.resolverVersion == d.version && r.owner == d.owner
       && q.use.purpose in d.purposes && q.use.confidentiality in d.confidentialities
       && q.use.projection in d.projections && q.use.outputType in d.outputTypes
       && q.environment in d.environments && q.selection.organizationId in d.organizations
       && q.selection.platformTenantId in d.platformTenants && q.contextId in d.contextIds
       && r.resolvedAt.instant <= u.issuedAt.instant && u.expiresAt.instant <= r.expiresAt.instant
       && r.resolvedAt.instant < r.expiresAt.instant
       && r.expiresAt.instant - r.resolvedAt.instant <= 1000 * d.maxTtlSeconds
  }

  /** The evidence is about this selection, catalogue, placement, closure, set of resolvers, policy and lineage. */
  ghost predicate IsAbout(w: World, c: Check) {
    var u := c.evidence.unsigned;
    && u.selection == c.selection && u.environment == c.catalog.environment && c.evidence == c.contentAddress
    && u.catalogDigest == DesiredState(c.catalog.(contexts := BlankContexts(c.catalog.contexts)))
    && Selected(c.catalog, c.selection).Some?
    && u.placementDigest == PlacementContent(Selected(c.catalog, c.selection).value)
    && u.closureDigest == ClosureDigest(Closure(w, c.catalog, c.selection))
    && u.registryDigest == RegistryDigest(c.registry) && u.policyDigest == c.policyDigest
    && (forall o :: o in u.observations ==> o.key in c.previous && c.previous[o.key] == o.previous)
    && (forall d :: d in Closure(w, c.catalog, c.selection) ==> d.key in c.previous)
  }

  lemma {:induction false} MatchingIsUnique(trusted: seq<TrustedVerifier>, u: Unsigned)
    ensures forall t :: t in Matching(trusted, u) <==> t in trusted && Matches(t, u)
    ensures |Matching(trusted, u)| == 1 ==>
              exists i :: 0 <= i < |trusted| && trusted[i] == Matching(trusted, u)[0]
                && forall j :: 0 <= j < |trusted| && Matches(trusted[j], u) ==> j == i
  {
    if trusted != [] {
      var n := |trusted| - 1;
      var before := trusted[..n];
      MatchingIsUnique(before, u);
      assert trusted == before + [trusted[n]];
      if |Matching(trusted, u)| == 1 {
        if Matches(trusted[n], u) {
          assert Matching(before, u) == [];
          assert forall j :: 0 <= j < n ==> trusted[j] == before[j] && before[j] in before;
          assert forall j :: 0 <= j < n ==> trusted[j] !in Matching(before, u);
        } else {
          var i :| 0 <= i < n && before[i] == Matching(before, u)[0]
                   && forall j :: 0 <= j < n && Matches(before[j], u) ==> j == i;
          assert forall j :: 0 <= j < n ==> trusted[j] == before[j];
        }
      }
    }
  }

  /**
   Accepted evidence is unrevoked, in time, signed by its trusted verifier, about this placement, and properly resolved.
   */
  lemma AcceptanceMeans(w: World, c: Check) returns (t: TrustedVerifier)
    requires IsVerified(w, c)
    ensures var u := c.evidence.unsigned;
            && u.evidenceId !in c.revokedEvidence && u.nonce !in c.revokedNonces && u.keyId !in c.revokedKeys
            && u.issuedAt.instant <= c.now.instant < u.expiresAt.instant
            && IsSignedByTrusted(w, c, t) && IsAbout(w, c)
    ensures forall o, r :: o in c.evidence.unsigned.observations && r in o.resolutions ==>
              exists d, q :: && d in Closure(w, c.catalog, c.selection) && d.key == o.key && q in d.references
                             && IsAuthorityFor(c.registry, q, r, c.evidence.unsigned)
    ensures forall o :: o in c.evidence.unsigned.observations ==>
              exists d :: && d in Closure(w, c.catalog, c.selection) && |o.resolutions| == |d.references|
                          && o ==
                               Observation(d.key, d.kind, d.contextId, d.id, d.generation, d.subject, o.previous,
                                           o.resolutions)
  {
    hide EvidenceWellFormed, IsDerivable, Closure, ClosureDigest, RegistryDigest, IsName, Matching, IsAbout;
    var u := c.evidence.unsigned;
    DerivableIsSelected(w, c.catalog, c.selection);
    VerifiedIsAbout(w, c);
    MatchingIsUnique(c.trusted, u);
    t := Matching(c.trusted, u)[0];
    assert t in Matching(c.trusted, u);
    forall o, r | o in u.observations && r in o.resolutions
      ensures exists d, q :: && d in Closure(w, c.catalog, c.selection) && d.key == o.key && q in d.references
                             && IsAuthorityFor(c.registry, q, r, u)
    {
      var d :| d in Closure(w, c.catalog, c.selection) && Observes(o, d, c.registry, u.issuedAt, u.expiresAt);
      var q :| q in d.references && Answers(r, q, c.registry, u.issuedAt, u.expiresAt);
      AnswerHasAuthority(r, q, c.registry, u);
    }
    TrustedInScope(w, c, t);
  }

  lemma VerifiedIsAbout(w: World, c: Check)
    requires IsVerified(w, c)
    ensures IsAbout(w, c)
  {
    hide EvidenceWellFormed, IsDerivable, Closure, ClosureDigest, RegistryDigest, Matching, TrustValid, ObservationsFit;
    DerivableIsSelected(w, c.catalog, c.selection);
    forall d | d in Closure(w, c.catalog, c.selection)
      ensures d.key in c.previous
    {
      assert d.key in Keys(Closure(w, c.catalog, c.selection));
    }
  }

  lemma AnswerHasAuthority(r: Resolution, q: RequestBody, registry: Registry, u: Unsigned)
    ensures Answers(r, q, registry, u.issuedAt, u.expiresAt) <==> IsAuthorityFor(registry, q, r, u)
  {}

  lemma TrustedInScope(w: World, c: Check, t: TrustedVerifier)
    requires TrustValid(w, t) && InScope(t, c.evidence.unsigned) && TimeFits(c.evidence.unsigned, t, c.now)
    ensures var u := c.evidence.unsigned;
            && u.selection.organizationId in t.organizations && u.selection.platformTenantId in t.platformTenants
            && u.environment in t.environments && 1 <= t.maxTtlSeconds <= 3600
            && u.expiresAt.instant - u.issuedAt.instant <= 1000 * t.maxTtlSeconds
  {}

  /** A closure digest stands for the keys, subjects and requests of its dependencies. */
  lemma ClosureDigestMeans(a: seq<Dependency>, b: seq<Dependency>)
    ensures ClosureDigest(a) == ClosureDigest(b) <==>
              && |a| == |b|
              && forall k :: 0 <= k < |a| ==>
                   a[k].key == b[k].key && a[k].subject == b[k].subject && a[k].references == b[k].references
  {
    if ClosureDigest(a) == ClosureDigest(b) {
      var x, y := ClosureDigest(a).entries, ClosureDigest(b).entries;
      assert |a| == |x| && |b| == |y|;
      forall k | 0 <= k < |a|
        ensures a[k].key == b[k].key && a[k].subject == b[k].subject && a[k].references == b[k].references
      {
        assert x[k] == ClosureEntry(a[k].key, a[k].subject, RequestDigests(a[k]));
        assert y[k] == ClosureEntry(b[k].key, b[k].subject, RequestDigests(b[k]));
        SameRequests(a[k], b[k]);
      }
    }
    if |a| == |b| && forall k :: 0 <= k < |a| ==>
        a[k].key == b[k].key && a[k].subject == b[k].subject && a[k].references == b[k].references {
      assert ClosureDigest(a).entries == ClosureDigest(b).entries;
    }
  }

  lemma SameRequests(a: Dependency, b: Dependency)
    ensures RequestDigests(a) == RequestDigests(b) ==> a.references == b.references
  {
    var x, y := RequestDigests(a), RequestDigests(b);
    if x == y {
      assert |a.references| == |x| && |b.references| == |y|;
      forall k | 0 <= k < |a.references|
        ensures a.references[k] == b.references[k]
      {
        assert x[k] == RequestContent(a.references[k]) && y[k] == RequestContent(b.references[k]);
      }
    }
  }

  /** A registry digest stands for what the resolvers promise, scheme by scheme. */
  lemma RegistryDigestMeans(a: Registry, b: Registry)
    ensures RegistryDigest(a) == RegistryDigest(b) <==>
              a.Keys == b.Keys && forall scheme :: scheme in a ==> a[scheme].descriptor == b[scheme].descriptor
  {
    var x := map scheme | scheme in a :: a[scheme].descriptor;
    var y := map scheme | scheme in b :: b[scheme].descriptor;
    assert x.Keys == a.Keys && y.Keys == b.Keys;
    if x == y {
      forall scheme | scheme in a
        ensures a[scheme].descriptor == b[scheme].descriptor
      {
        assert x[scheme] == y[scheme];
      }
    }
  }

  /** A desired-state digest stands for everything in a catalogue but its statuses. */
  lemma DesiredStateMeans(a: Catalog, b: Catalog)
    ensures DesiredStateDigest(a) == DesiredStateDigest(b) <==>
              && a.name == b.name && a.environment == b.environment && a.placements == b.placements
              && |a.contexts| == |b.contexts|
              && forall k :: 0 <= k < |a.contexts| ==> IsSameDesire(a.contexts[k], b.contexts[k])
  {
    var x, y := BlankContexts(a.contexts), BlankContexts(b.contexts);
    forall k | 0 <= k < |a.contexts| && 0 <= k < |b.contexts|
      ensures x[k] == y[k] <==> IsSameDesire(a.contexts[k], b.contexts[k])
    {
      SameBlank(a.contexts[k], b.contexts[k]);
    }
    hide IsSameDesire;
    assert |x| == |a.contexts| && |y| == |b.contexts|;
    assert x == y <==> |x| == |y| && forall k :: 0 <= k < |x| ==> x[k] == y[k];
  }

  ghost predicate IsSameDesire(a: Context, b: Context) {
    && a.(status := b.status, bindings := b.bindings) == b && |a.bindings| == |b.bindings|
    && forall k :: 0 <= k < |a.bindings| ==> a.bindings[k].spec == b.bindings[k].spec
  }

  lemma SameBlank(a: Context, b: Context)
    ensures IsSameDesire(a, b) <==>
              a.(bindings := BlankBindings(a.bindings), status := BLANK_STATUS) ==
              b.(bindings := BlankBindings(b.bindings), status := BLANK_STATUS)
  {
    var x, y := BlankBindings(a.bindings), BlankBindings(b.bindings);
    assert |x| == |a.bindings| && |y| == |b.bindings|;
    if x == y {
      forall k | 0 <= k < |a.bindings|
        ensures a.bindings[k].spec == b.bindings[k].spec
      {
        assert x[k].spec == y[k].spec;
      }
    }
    if |x| == |y| && forall k :: 0 <= k < |a.bindings| ==> a.bindings[k].spec == b.bindings[k].spec {
      assert x == y;
    }
  }

  /** Names, and what is none. */
  lemma NameExamples()
    ensures IsName("a") && IsName("b-1.c") && !IsName("") && !IsName("A") && !IsName("1a") && !IsName("-a")
    ensures !IsName("a-") && !IsName("a--b") && !IsName("a/b") && !IsName("*")
    ensures forall s :: IsName(s) ==> |s| <= 128
  {
    assert !NamePosition("a-", 1) && !NamePosition("a--b", 1) && !NamePosition("a/b", 1);
    var s := "b-1.c";
    assert NamePosition(s, 0) && NamePosition(s, 1) && NamePosition(s, 2) && NamePosition(s, 3) && NamePosition(s, 4);
  }

  /** Key identifiers and versions, and what is none. */
  lemma FormatExamples()
    ensures IsVersion("1.0.0") && IsKeyId("K.1") && !IsKeyId("") && !IsKeyId(".a") && !IsKeyId("a b")
    ensures forall s :: IsNonce(s) ==> 32 <= |s| <= 128
    ensures forall s :: IsSignature(s) ==> |s| == 86
  {
    hide IsBase64Url;
    Text.PlainVersion();
    hide Text.AfterVersion;
    var bad := "a b";
    assert !(IsAlphanumeric(bad[1]) || bad[1] in "._:-");
  }

  /** Revoking the evidence, its nonce or its key, in any of the three ways, turns an acceptance into a rejection. */
  lemma RevocationRejects(w: World, c: Check, redeemed: set<Redemption>)
    requires Accepts(w, c, redeemed)
    ensures var u := c.evidence.unsigned;
            && !Accepts(w, c.(revokedEvidence := c.revokedEvidence + {u.evidenceId}), redeemed)
            && !Accepts(w, c.(revokedNonces := c.revokedNonces + {u.nonce}), redeemed)
            && !Accepts(w, c.(revokedKeys := c.revokedKeys + {u.keyId}), redeemed)
  {
    hide EvidenceWellFormed, IsDerivable, Closure, TrustValid, ObservationsFit, DigestsAgree, LineageFits, Matching;
  }

  /** Revoking anything else does not. */
  lemma OtherRevocationsAreHarmless(w: World, c: Check, redeemed: set<Redemption>, evidence: set<string>,
                                    nonces: set<string>, keys: set<string>)
    requires Accepts(w, c, redeemed)
    requires var u := c.evidence.unsigned; u.evidenceId !in evidence && u.nonce !in nonces && u.keyId !in keys
    ensures Accepts(w, c.(revokedEvidence := evidence, revokedNonces := nonces, revokedKeys := keys), redeemed)
  {
    hide EvidenceWellFormed, IsDerivable, Closure, TrustValid, ObservationsFit, Matching, ClosureDigest, RegistryDigest,
         DesiredStateDigest;
  }

  // ---------------------------------------------------------------- runs

  /** A verification attempt and what the store remembered before it. */
  datatype Attempt = Attempt(check: Check, redeemed: set<Redemption>)

  /** What the store remembers after some attempts. */
  ghost function Store(w: World, initial: set<Redemption>, attempts: seq<Attempt>): set<Redemption> {
    if attempts == [] then initial else
      var last := attempts[|attempts| - 1];
      Store(w, initial, attempts[..|attempts| - 1])
      + if Accepts(w, last.check, last.redeemed) then {RedemptionOf(last.check.evidence)} else {}
  }

  ghost predicate IsRun(w: World, initial: set<Redemption>, attempts: seq<Attempt>) {
    forall k :: 0 <= k < |attempts| ==> attempts[k].redeemed == Store(w, initial, attempts[..k])
  }

  ghost predicate AcceptedAt(w: World, attempts: seq<Attempt>, k: int) {
    0 <= k < |attempts| && Accepts(w, attempts[k].check, attempts[k].redeemed)
  }

  /** The store remembers exactly what it was given and the accepted evidence; rejected attempts leave no trace. */
  lemma {:induction false} StoreIsTheAccepted(w: World, initial: set<Redemption>, attempts: seq<Attempt>, r: Redemption)
    ensures r in Store(w, initial, attempts) <==>
            r in initial || exists k :: AcceptedAt(w, attempts, k) && RedemptionOf(attempts[k].check.evidence) == r
  {
    hide Accepts, RedemptionOf;
    if attempts != [] {
      var n := |attempts| - 1;
      StoreIsTheAccepted(w, initial, attempts[..n], r);
      forall k | 0 <= k < n
        ensures AcceptedAt(w, attempts[..n], k) <==> AcceptedAt(w, attempts, k)
      {
      }
      assert AcceptedAt(w, attempts, n) <==> Accepts(w, attempts[n].check, attempts[n].redeemed);
    }
  }

  /**
   In every run an attempt with verified evidence is accepted exactly when the store did not know the evidence at the
   start and no earlier attempt with it was accepted, however many were rejected. So evidence is accepted at most once.
   */
  lemma AcceptedExactlyOnce(w: World, initial: set<Redemption>, attempts: seq<Attempt>, j: nat)
    requires IsRun(w, initial, attempts) && j < |attempts| && IsVerified(w, attempts[j].check)
    ensures AcceptedAt(w, attempts, j) <==>
            && RedemptionOf(attempts[j].check.evidence) !in initial
            && forall i :: 0 <= i < j && attempts[i].check.evidence == attempts[j].check.evidence ==>
                 !AcceptedAt(w, attempts, i)
  {
    hide IsVerified;
    var e := attempts[j].check.evidence;
    StoreIsTheAccepted(w, initial, attempts[..j], RedemptionOf(e));
    forall i | 0 <= i < j
      ensures AcceptedAt(w, attempts[..j], i) <==> AcceptedAt(w, attempts, i)
      ensures RedemptionOf(attempts[i].check.evidence) == RedemptionOf(e) <==> attempts[i].check.evidence == e
    {
      assert attempts[..j][i] == attempts[i];
    }
    assert attempts[j].redeemed == Store(w, initial, attempts[..j]);
  }

  // ---------------------------------------------------------------- an instance

  /** A scheme in which a signature repeats the nonce of what it is for. */
  function ExampleSignature(m: Unsigned): string {
    if |m.nonce| <= 86 then m.nonce + seq(86 - |m.nonce|, k => 'A') else ""
  }

  function ExampleWorld(): World {
    World(Uris(u => true, u => "s", x => x), a => true,
          k => "public-" + k,
          (k, m) => if k == "key" && IsSignature(ExampleSignature(m)) then Some(ExampleSignature(m)) else None,
          (k, m, g) => k == "public-key" && g == ExampleSignature(m))
  }

  /** A resolver for everything in context "a", which answers for an hour. */
  function ExampleResolver(): Resolver {
    Resolver(
      Descriptor(
        "s", "r", "1.0.0", "r",
        {ProviderBoundary, RuntimeTarget, NetworkBoundary, RegistryTarget, IdentityBinding, DnsZone, AuditSink,
         LogsSink, MetricsSink, TracesSink, ProviderResource, PostgresEndpoint, PostgresCaBundle,
         PostgresRuntimeIdentity, PostgresMigrationIdentity},
        {PublicMetadata, ConfidentialReference}, {ControlPlaneOnly, WorkloadReference},
        {ProviderBoundaryId, RuntimeTargetReference, NetworkBoundaryId, RegistryReference, WorkloadIdentityReference,
         DnsZoneReference, AuditSinkReference, TelemetrySinkReference, ProviderResourceId, PostgresEndpointReference,
         CaBundleReference},
        {Production}, {"a"}, {"a"}, {"a"}, 3600),
      (q: RequestBody, t: Stamp) => Some(
        Resolution(RequestContent(q), "r", "1.0.0", "r", "u", "v", ExampleText(), t, Stamp(t.instant + 3600000, true))))
  }

  /** A text that looks like a digest. */
  function ExampleText(): string {
    seq(64, k => 'a')
  }

  function ExampleNonce(): string {
    seq(32, k => 'a')
  }

  const EPOCH := Stamp(0, true)

  function ExampleOrder(): Order {
    Order(SmallCatalog(), Selection("a", "a", "a", "a", Other(ExampleText())), map["s" := ExampleResolver()],
          Signer("a", "1.0.0", "k", "key"), "a", ExampleNonce(), EPOCH, 60, Other(ExampleText()), map[])
  }

  ghost function ExampleCheck(now: Stamp): Check
    requires IsCreatable(ExampleWorld(), ExampleOrder())
  {
    var w, o := ExampleWorld(), ExampleOrder();
    var e := EvidenceOf(w, o);
    Check(o.catalog, o.selection, e, o.registry,
          [TrustedVerifier("a", "1.0.0", "k", "public-key", ["a"], ["a"], [Production], 3600)],
          {}, {}, {}, e, o.policyDigest, map key | key in Keys(Closure(w, o.catalog, o.selection)) :: None, now)
  }

  lemma ExampleFormats()
    ensures IsName("a") && IsName("r") && IsVersion("1.0.0") && IsKeyId("k") && Text.IsSha256(ExampleText())
    ensures IsNonce(ExampleNonce()) && |ExampleNonce()| == 32
  {
    Text.PlainVersion();
  }

  lemma ExampleSigns(m: Unsigned)
    requires m.nonce == ExampleNonce()
    ensures IsSignature(ExampleSignature(m)) && ExampleWorld().sign("key", m) == Some(ExampleSignature(m))
  {
    var nonce, padding := ExampleNonce(), seq(54, k => 'A');
    assert ExampleSignature(m) == nonce + padding;
  }

  lemma ExampleIsLawful()
    ensures IsLawful(ExampleWorld())
  {
    hide IsSignature, ExampleSignature;
  }

  lemma ExampleUseIsAuthorized(q: RequestBody)
    requires q.scheme == "s" && q.environment == Production && q.contextId == "a"
    requires q.selection.organizationId == "a" && q.selection.platformTenantId == "a"
    ensures IsAuthorized(ExampleOrder().registry, q)
    ensures Resolve(ExampleWorld(), ExampleOrder().registry, q, EPOCH, Stamp(60000, true)).Some?
  {
    hide SmallCatalog, IsVersion, IsName, Text.IsSha256, ExampleText;
    AllUses(q.use);
    ExampleFormats();
  }

  lemma AllUses(u: Use)
    ensures var d := ExampleResolver().descriptor;
            && u.purpose in d.purposes && u.confidentiality in d.confidentialities
            && u.projection in d.projections && u.outputType in d.outputTypes
  {
    var p, o := u.purpose, u.outputType;
    assert p == ProviderBoundary || p == RuntimeTarget || p == NetworkBoundary || p == RegistryTarget
           || p == IdentityBinding
           || p == DnsZone || p == AuditSink || p == LogsSink || p == MetricsSink || p == TracesSink
           || p == ProviderResource
           || p == PostgresEndpoint || p == PostgresCaBundle || p == PostgresRuntimeIdentity
           || p == PostgresMigrationIdentity;
    assert o == ProviderBoundaryId || o == RuntimeTargetReference || o == NetworkBoundaryId || o == RegistryReference
           || o == WorkloadIdentityReference || o == DnsZoneReference || o == AuditSinkReference
           || o == TelemetrySinkReference
           || o == ProviderResourceId || o == PostgresEndpointReference || o == CaBundleReference;
    assert u.confidentiality == PublicMetadata || u.confidentiality == ConfidentialReference;
    assert u.projection == ControlPlaneOnly || u.projection == WorkloadReference;
  }

  lemma ExampleIsDerivable()
    ensures IsDerivable(ExampleWorld(), SmallCatalog(), ExampleOrder().selection)
    ensures Selected(SmallCatalog(), ExampleOrder().selection) == Some(SmallCatalog().placements[0])
  {
    hide IsAccepted, FirstByKey, Inputs;
    SmallCatalogIsAccepted();
    assert IsName("a");
  }

  lemma ExampleRequest(d: Dependency, q: RequestBody)
    requires IsDerivable(ExampleWorld(), SmallCatalog(), ExampleOrder().selection)
    requires d in Closure(ExampleWorld(), SmallCatalog(), ExampleOrder().selection) && q in d.references
    ensures q.scheme == "s" && q.environment == Production && q.contextId == "a"
            && q.selection == ExampleOrder().selection
  {
    hide IsAccepted, Dependencies, Inputs, FirstByKey, KeyOf, SubjectOf, ReferencesCanonical, Needs,
         DesiredStateDigest, HasShape;
    var w, catalog, selection := ExampleWorld(), SmallCatalog(), ExampleOrder().selection;
    var p := Selected(catalog, selection).value;
    ClosureIsSorted(w.uris, catalog, selection, p);
    var x :| x in FirstByKey(Inputs(catalog, p)) && d == DependencyOf(w.uris, ConsumerOf(catalog, selection, p), x);
    FirstByKeyMembers(Inputs(catalog, p));
    InputsAreTheNeeds(catalog, p, x);
    var c := NeedsShape(catalog, p, x);
  }

  lemma ExampleIsCreatable()
    ensures IsCreatable(ExampleWorld(), ExampleOrder()) && IsParsed(ExampleOrder().catalog) && IsLawful(ExampleWorld())
  {
    hide IsDerivable, Closure, SmallCatalog, ExampleResolver, IsAuthorized, Resolve, ExampleText, ExampleNonce,
         ObservationsOf, IsName, IsVersion, IsKeyId, IsNonce, IsSignature, ExampleSignature, IsLawful, Text.IsSha256,
         ExampleWorld, IsParsed, ClosureDigest, DesiredStateDigest, RegistryDigest;
    ExampleFormats();
    ExampleIsLawful();
    ExampleIsDerivable();
    ExampleSigns(UnsignedOf(ExampleWorld(), ExampleOrder()));
    var w, o := ExampleWorld(), ExampleOrder();
    forall d, q | d in Closure(w, o.catalog, o.selection) && q in d.references
      ensures IsAuthorized(o.registry, q) && Resolve(w, o.registry, q, EPOCH, Stamp(60000, true)).Some?
    {
      ExampleRequest(d, q);
      ExampleUseIsAuthorized(q);
    }
    SmallIsParsed();
  }

  lemma SmallIsParsed()
    ensures IsParsed(SmallCatalog())
  {
    assert IsName("a");
  }

  /** Evidence made for the small catalogue for a minute is accepted during exactly that minute. */
  lemma ExampleRoundTrip(now: Stamp)
    ensures IsCreatable(ExampleWorld(), ExampleOrder())
    ensures Accepts(ExampleWorld(), ExampleCheck(now), {}) <==> IsTime(now) && 0 <= now.instant < 60000
  {
    hide IsDerivable, Closure, SmallCatalog, ExampleResolver, AllAuthorized, AllResolve, Accepts, IsParsed, IsLawful,
         ExampleText, ExampleNonce, ObservationsOf, IsName, IsVersion, IsKeyId, IsSignature, ExampleSignature,
         Text.IsSha256, ClosureDigest, DesiredStateDigest, RegistryDigest, IsCreatable, OrderWellFormed,
         LinksWellFormed;
    ExampleFormats();
    ExampleIsCreatable();
    ExampleIsDerivable();
    var w, o, c := ExampleWorld(), ExampleOrder(), ExampleCheck(now);
    assert c.trusted[..0] == [] && c.trusted[..1] == c.trusted;
    assert Matching(c.trusted, UnsignedOf(w, o)) == c.trusted;
    SmallEnvironment();
    EvidenceRoundTrip(w, o, c, {});
  }

  lemma SmallEnvironment()
    ensures SmallCatalog().environment == Production
  {}

  lemma ExampleObservability() returns (d: Dependency)
    requires IsDerivable(ExampleWorld(), SmallCatalog(), ExampleOrder().selection)
    ensures d in Closure(ExampleWorld(), SmallCatalog(), ExampleOrder().selection) && |d.references| == 4
  {
    hide IsAccepted, Dependencies, ConsumerOf, KeyOf, SubjectOf, DesiredStateDigest, SmallCatalog, ReferencesCanonical;
    var w, catalog, selection := ExampleWorld(), SmallCatalog(), ExampleOrder().selection;
    var p := Selected(catalog, selection).value;
    SmallIsParsed();
    ParsedIsSlashFree(catalog);
    var c, o := SmallNeedsObservability();
    var x := ObservabilityInput(c, o);
    d := DependencyOf(w.uris, ConsumerOf(catalog, selection, p), x);
    ClosureIsExact(w.uris, catalog, selection, p, d);
  }

  lemma SmallNeedsObservability() returns (c: Context, o: Observability)
    ensures var p := Selected(SmallCatalog(), ExampleOrder().selection);
            p.Some? && Needs(SmallCatalog(), p.value, ObservabilityInput(c, o))
  {
    hide ExampleResolver;
    var catalog := SmallCatalog();
    c := catalog.contexts[0];
    o := c.observability[0];
    var p := Selected(catalog, ExampleOrder().selection).value;
    assert c in catalog.contexts && o in c.observability;
    assert IsCapability(c, ObservabilityKind, "a", ObservabilityInput(c, o));
    assert NeedsOfContext(c, p, ObservabilityInput(c, o));
  }

  /** The signature of the example's evidence is also one of the evidence with a repeated resolution. */
  lemma ExampleSignedAgain(k: nat)
    requires IsCreatable(ExampleWorld(), ExampleOrder())
    requires k < |ExampleCheck(EPOCH).evidence.unsigned.observations|
    requires |ExampleCheck(EPOCH).evidence.unsigned.observations[k].resolutions| >= 2
    ensures var e := ExampleCheck(EPOCH).evidence;
            && IsSignature(e.signature) && |Matching(ExampleCheck(EPOCH).trusted, e.unsigned)| == 1
            && ExampleWorld().verify(Matching(ExampleCheck(EPOCH).trusted, e.unsigned)[0].publicKey,
                                     Repeating(e, k, e.signature).unsigned, e.signature)
  {
    hide IsCreatable, ExampleNonce, ObservationsOf, SmallCatalog, ExampleResolver, Closure, IsSignature, ClosureDigest,
         DesiredStateDigest, RegistryDigest, ExampleText;
    var w, o, c := ExampleWorld(), ExampleOrder(), ExampleCheck(EPOCH);
    var u := c.evidence.unsigned;
    ExampleSigns(u);
    assert c.trusted[..0] == [] && c.trusted[..1] == c.trusted;
    assert Matching(c.trusted, u) == c.trusted;
    SameSignature(u, Repeating(c.evidence, k, c.evidence.signature).unsigned);
  }

  lemma SameSignature(m: Unsigned, n: Unsigned)
    requires m.nonce == n.nonce
    ensures ExampleSignature(m) == ExampleSignature(n)
  {}

  /**
   Two resolutions of the same request pass the check of the exact resolution set, as it only counts: evidence made for
   the small catalogue, with one resolution repeated and signed anew, is verified and leaves a request unanswered.
   */
  lemma RepeatedResolutionFits() returns (c: Check, k: nat, d: Dependency, q: RequestBody)
    ensures LeavesUnanswered(ExampleWorld(), c, k, d, q)
  {
    hide IsDerivable, Closure, IsCreatable, IsVerified, LeavesUnanswered, ExampleWorld, ExampleOrder, SmallCatalog,
         Answers, IsSignature, Repeating, Matching;
    ExampleRoundTrip(EPOCH);
    ExampleIsDerivable();
    var w, made := ExampleWorld(), ExampleCheck(EPOCH);
    ExampleSubject();
    var logged := ExampleObservability();
    ObservationsAreTheClosure(w, made, logged);
    var u := made.evidence.unsigned;
    k :| 0 <= k < |u.observations| && Observes(u.observations[k], logged, made.registry, u.issuedAt, u.expiresAt);
    ExampleSignedAgain(k);
    d, q := RepetitionLeavesUnanswered(w, made, k, made.evidence.signature);
    c := CheckOf(made, Repeating(made.evidence, k, made.evidence.signature));
  }

  lemma ExampleSubject()
    ensures ExampleOrder().catalog == SmallCatalog()
  {}
}
