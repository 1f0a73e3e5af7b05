/** The dependency closure of one placement (src/core/cloudContextVerification.ts). */
module PlacementDependencies {
  import opened Wrappers
  import opened Segments
  import opened CloudContext
  import Text

  datatype Kind =
    | ContextKind | RuntimeKind | NetworkKind | RegistryKind | IdentityKind | ObservabilityKind | DnsKind | BindingKind

  datatype Purpose =
    | ProviderBoundary | RuntimeTarget | NetworkBoundary | RegistryTarget | IdentityBinding | DnsZone
    | AuditSink | LogsSink | MetricsSink | TracesSink
    | ProviderResource | PostgresEndpoint | PostgresCaBundle | PostgresRuntimeIdentity | PostgresMigrationIdentity

  datatype Confidentiality = PublicMetadata | ConfidentialReference

  datatype Projection = ControlPlaneOnly | WorkloadReference

  datatype OutputType =
    | ProviderBoundaryId | RuntimeTargetReference | NetworkBoundaryId | RegistryReference | WorkloadIdentityReference
    | DnsZoneReference | AuditSinkReference | TelemetrySinkReference | ProviderResourceId | PostgresEndpointReference
    | CaBundleReference

  datatype Use = Use(
    uri: string, purpose: Purpose, confidentiality: Confidentiality, projection: Projection, outputType: OutputType)

  /** The part of the catalogue an input is about, without any status. */
  datatype Definition =
    | ContextDefinition(environment: Environment, boundaryRef: string, detail: string)
    | RuntimeDefinition(runtime: Runtime)
    | NetworkDefinition(network: Network)
    | RegistryDefinition(registry: Registry)
    | IdentityDefinition(identity: Identity)
    | ObservabilityDefinition(observability: Observability)
    | DnsDefinition(dns: Dns)
    | BindingDefinition(spec: BindingSpec)

  datatype Input = Input(
    kind: Kind, contextId: string, id: string, generation: int, definition: Definition, uses: seq<Use>)

  datatype Selection = Selection(
    organizationId: string, platformTenantId: string, applicationId: string, componentId: string, requestDigest: Digest)

  datatype RequestBody = RequestBody(
    catalogDigest: Digest, placementDigest: Digest, selection: Selection, environment: Environment, contextId: string,
    key: string, kind: Kind, id: string, subject: Digest, generation: int, scheme: string, use: Use)

  datatype ClosureEntry = ClosureEntry(key: string, subject: Digest, requests: seq<Digest>)

  /** What a resolver promises, with its lists as sets. */
  datatype Descriptor = Descriptor(
    scheme: string, resolverId: string, version: string, owner: string,
    purposes: set<Purpose>, confidentialities: set<Confidentiality>, projections: set<Projection>,
    outputTypes: set<OutputType>, environments: set<Environment>,
    organizations: set<string>, platformTenants: set<string>, contextIds: set<string>, maxTtlSeconds: int)

  /** SHA-256 of stable JSON as an injective function: a digest is the content it was made from. */
  datatype Digest =
    | DesiredState(catalog: Catalog)
    | PlacementContent(placement: Placement)
    | Subject(kind: Kind, contextId: string, id: string, generation: int, definition: Definition, consumer: Selection)
    | RequestContent(body: RequestBody)
    | ClosureContent(entries: seq<ClosureEntry>)
    | RegistryContent(resolvers: map<string, Descriptor>)
    | Other(text: string)

  datatype Dependency = Dependency(
    key: string, kind: Kind, contextId: string, id: string, generation: int, subject: Digest,
    references: seq<RequestBody>)

  function DependencyKey(d: Dependency): string { d.key }

  /**
   What the platform says of strings: which references have a canonical body, their schemes, and the collation key that
   `localeCompare` orders a string by.
   */
  datatype Uris = Uris(isCanonical: string -> bool, scheme: string -> string, collationKey: string -> string)

  function Collation(uris: Uris): Dependency -> string {
    (d: Dependency) => uris.collationKey(d.key)
  }

  datatype Failure =
    CatalogRejected | SelectionInvalid | PlacementUnknown | CapabilityUnknown | ContextEscape | ReferenceNotCanonical

  // ---------------------------------------------------------------- names

  predicate IsNameCharacter(c: char) {
    'a' <= c <= 'z' || '0' <= c <= '9'
  }

  predicate IsSeparator(c: char) {
    c == '.' || c == '_' || c == ':' || c == '-'
  }

  predicate NamePosition(s: string, k: nat)
    requires k < |s|
  {
    IsNameCharacter(s[k]) || (IsSeparator(s[k]) && k + 1 < |s| && IsNameCharacter(s[k + 1]))
  }

  /** Lower-case words and numbers joined by single separators, starting with a letter. */
  predicate IsNamePattern(s: string) {
    s != "" && 'a' <= s[0] <= 'z' && forall k :: 0 <= k < |s| ==> NamePosition(s, k)
  }

  predicate IsName(s: string) {
    IsNamePattern(s) && |s| <= 128
  }

  lemma NameHasNoSlash(s: string)
    requires IsNamePattern(s)
    ensures '/' !in s
  {
    forall k | 0 <= k < |s|
      ensures s[k] != '/'
    {
      assert NamePosition(s, k);
    }
  }

  /** A digest made from content is well-formed; any other text has to look like one. */
  predicate IsDigest(d: Digest) {
    d.Other? ==> Text.IsSha256(d.text)
  }

  predicate SelectionValid(s: Selection) {
    && IsName(s.organizationId) && IsName(s.platformTenantId) && IsName(s.applicationId) && IsName(s.componentId)
    && IsDigest(s.requestDigest)
  }

  function KindText(kind: Kind): string {
    match kind
    case ContextKind => "context"
    case RuntimeKind => "runtime"
    case NetworkKind => "network"
    case RegistryKind => "registry"
    case IdentityKind => "identity"
    case ObservabilityKind => "observability"
    case DnsKind => "dns"
    case BindingKind => "resource-binding"
  }

  function KeyFor(contextId: string, kind: Kind, id: string): string {
    Slash(contextId, Slash(KindText(kind), id))
  }

  function KeyOf(x: Input): string {
    KeyFor(x.contextId, x.kind, x.id)
  }

  lemma KindTextIsInjective(a: Kind, b: Kind)
    ensures KindText(a) == KindText(b) ==> a == b
    ensures '/' !in KindText(a)
  {
    assert |KindText(a)| == |KindText(b)| && KindText(a)[0] == KindText(b)[0] ==> a == b;
  }

  /** A key names one context, kind and identifier. */
  lemma KeyIsInjective(c: string, k: Kind, id: string, d: string, l: Kind, jd: string)
    requires '/' !in c && '/' !in d && KeyFor(c, k, id) == KeyFor(d, l, jd)
    ensures c == d && k == l && id == jd
  {
    hide KindText, Slash;
    KindTextIsInjective(k, l);
    KindTextIsInjective(l, k);
    SameSegment(c, Slash(KindText(k), id), d, Slash(KindText(l), jd));
    SameSegment(KindText(k), id, KindText(l), jd);
    SameSegment(KindText(l), jd, KindText(k), id);
    SameSegment(d, Slash(KindText(l), jd), c, Slash(KindText(k), id));
  }

  // ---------------------------------------------------------------- inputs

  function ContextInput(c: Context): Input {
    Input(ContextKind, c.id, c.id, c.status.generation, ContextDefinition(c.environment, c.boundaryRef, c.detail),
          [Use(c.boundaryRef, ProviderBoundary, PublicMetadata, ControlPlaneOnly, ProviderBoundaryId)])
  }

  function RuntimeInput(c: Context, r: Runtime): Input {
    Input(RuntimeKind, c.id, r.id, c.status.generation, RuntimeDefinition(r),
          [Use(r.reference, RuntimeTarget, PublicMetadata, ControlPlaneOnly, RuntimeTargetReference)])
  }

  function NetworkInput(c: Context, n: Network): Input {
    Input(NetworkKind, c.id, n.id, c.status.generation, NetworkDefinition(n),
          [Use(n.reference, NetworkBoundary, PublicMetadata, ControlPlaneOnly, NetworkBoundaryId)])
  }

  function RegistryInput(c: Context, r: Registry): Input {
    Input(RegistryKind, c.id, r.id, c.status.generation, RegistryDefinition(r),
          [Use(r.reference, RegistryTarget, PublicMetadata, WorkloadReference, RegistryReference)])
  }

  function IdentityInput(c: Context, i: Identity): Input {
    Input(IdentityKind, c.id, i.id, c.status.generation, IdentityDefinition(i),
          [Use(i.reference, IdentityBinding, ConfidentialReference, WorkloadReference, WorkloadIdentityReference)])
  }

  function DnsInput(c: Context, d: Dns): Input {
    Input(DnsKind, c.id, d.id, c.status.generation, DnsDefinition(d),
          [Use(d.reference, DnsZone, PublicMetadata, WorkloadReference, DnsZoneReference)])
  }

  function ObservabilityInput(c: Context, o: Observability): Input {
    Input(ObservabilityKind, c.id, o.id, c.status.generation, ObservabilityDefinition(o),
          [Use(o.auditRef, AuditSink, ConfidentialReference, ControlPlaneOnly, AuditSinkReference),
           Use(o.logsRef, LogsSink, ConfidentialReference, WorkloadReference, TelemetrySinkReference),
           Use(o.metricsRef, MetricsSink, ConfidentialReference, WorkloadReference, TelemetrySinkReference),
           Use(o.tracesRef, TracesSink, ConfidentialReference, WorkloadReference, TelemetrySinkReference)])
  }

  function BindingInput(c: Context, b: Binding): Input {
    Input(BindingKind, c.id, b.spec.id, b.status.generation, BindingDefinition(b.spec),
          [Use(b.spec.providerResourceRef, ProviderResource, PublicMetadata, ControlPlaneOnly, ProviderResourceId),
           Use(b.spec.endpointRef, PostgresEndpoint, ConfidentialReference, WorkloadReference,
               PostgresEndpointReference),
           Use(b.spec.caBundleRef, PostgresCaBundle, PublicMetadata, WorkloadReference, CaBundleReference),
           Use(b.spec.runtimeIdentityRef, PostgresRuntimeIdentity, ConfidentialReference, WorkloadReference,
               WorkloadIdentityReference),
           Use(b.spec.migrationIdentityRef, PostgresMigrationIdentity, ConfidentialReference, ControlPlaneOnly,
               WorkloadIdentityReference)])
  }

  /** The capability of a context with a kind and an identifier. */
  function CapabilityInput(c: Context, kind: Kind, id: string): Option<Input> {
    match kind
    case RuntimeKind =>
      var v := Find(c.runtimes, RuntimeId, id);
      if v.Some? then Some(RuntimeInput(c, v.value)) else None
    case NetworkKind =>
      var v := Find(c.networks, NetworkId, id);
      if v.Some? then Some(NetworkInput(c, v.value)) else None
    case RegistryKind =>
      var v := Find(c.registries, RegistryId, id);
      if v.Some? then Some(RegistryInput(c, v.value)) else None
    case IdentityKind =>
      var v := Find(c.identities, IdentityId, id);
      if v.Some? then Some(IdentityInput(c, v.value)) else None
    case ObservabilityKind =>
      var v := Find(c.observability, ObservabilityId, id);
      if v.Some? then Some(ObservabilityInput(c, v.value)) else None
    case DnsKind =>
      var v := Find(c.dns, DnsId, id);
      if v.Some? then Some(DnsInput(c, v.value)) else None
    case ContextKind => None
    case BindingKind => None
  }

  function BindingId(b: Binding): string { b.spec.id }

  /** The first context that lists a binding. */
  function LocateBinding(contexts: seq<Context>, id: string): (r: Option<(Context, Binding)>)
    ensures r.Some? ==> r.value.0 in contexts && r.value.1 in r.value.0.bindings && r.value.1.spec.id == id
    ensures r.None? ==> forall c, b :: c in contexts && b in c.bindings ==> b.spec.id != id
  {
    if contexts == [] then None else
      var binding := Find(contexts[0].bindings, BindingId, id);
      if binding.Some? then Some((contexts[0], binding.value)) else LocateBinding(contexts[1..], id)
  }

  function Listed(x: Option<Input>): seq<Input> {
    if x.Some? then [x.value] else []
  }

  function DnsInputs(c: Context, ids: seq<string>): seq<Input> {
    if ids == [] then [] else DnsInputs(c, ids[..|ids| - 1]) + Listed(CapabilityInput(c, DnsKind, ids[|ids| - 1]))
  }

  function BindingInputs(contexts: seq<Context>, ids: seq<string>): seq<Input> {
    if ids == [] then [] else
      var located := LocateBinding(contexts, ids[|ids| - 1]);
      BindingInputs(contexts, ids[..|ids| - 1]) +
      if located.Some? then [BindingInput(located.value.0, located.value.1)] else []
  }

  function DelegatedInputs(contexts: seq<Context>, delegated: seq<Delegated>): seq<Input> {
    if delegated == [] then [] else
      var last := delegated[|delegated| - 1];
      var context := Find(contexts, ContextId, last.contextId);
      DelegatedInputs(contexts, delegated[..|delegated| - 1]) +
      if context.Some? then [ContextInput(context.value)]
          + Listed(CapabilityInput(context.value, RuntimeKind, last.runtimeId))
      else []
  }

  function PrimaryInputs(c: Context, p: Placement): seq<Input> {
    [ContextInput(c)] + Listed(CapabilityInput(c, RuntimeKind, p.runtimeId))
      + Listed(CapabilityInput(c, NetworkKind, p.networkId))
    + Listed(CapabilityInput(c, RegistryKind, p.registryId)) + Listed(CapabilityInput(c, IdentityKind, p.identityId))
    + Listed(CapabilityInput(c, ObservabilityKind, p.observabilityId))
  }

  /** What a placement needs, in the order in which it is collected. */
  function Inputs(catalog: Catalog, p: Placement): seq<Input> {
    var context := Find(catalog.contexts, ContextId, p.contextId);
    if context.None? then [] else
      PrimaryInputs(context.value, p) + DnsInputs(context.value, p.dnsIds)
        + BindingInputs(catalog.contexts, p.bindingIds)
      + DelegatedInputs(catalog.contexts, p.delegated)
  }

  // ---------------------------------------------------------------- dependencies

  predicate HasKey(inputs: seq<Input>, key: string) {
    exists y :: y in inputs && KeyOf(y) == key
  }

  /** The first input of each key: later ones are skipped. */
  function FirstByKey(inputs: seq<Input>): seq<Input> {
    if inputs == [] then [] else
      var before := FirstByKey(inputs[..|inputs| - 1]);
      var last := inputs[|inputs| - 1];
      if HasKey(before, KeyOf(last)) then before else before + [last]
  }

  lemma {:induction false} FirstByKeyMembers(inputs: seq<Input>)
    ensures forall x :: x in FirstByKey(inputs) ==> x in inputs
    ensures forall x :: x in inputs ==> HasKey(FirstByKey(inputs), KeyOf(x))
  {
    hide KeyOf;
    if inputs != [] {
      var n := |inputs| - 1;
      FirstByKeyMembers(inputs[..n]);
      assert inputs == inputs[..n] + [inputs[n]];
      var before, all := FirstByKey(inputs[..n]), FirstByKey(inputs);
      assert forall y :: y in before ==> y in all;
      forall x | x in inputs
        ensures HasKey(all, KeyOf(x))
      {
        if x in inputs[..n] {
          assert HasKey(before, KeyOf(x));
        }
      }
    }
  }

  lemma {:induction false} FirstByKeyIsDistinct(inputs: seq<Input>)
    ensures Text.DistinctBy(FirstByKey(inputs), KeyOf)
  {
    hide KeyOf;
    if inputs != [] {
      var n := |inputs| - 1;
      FirstByKeyIsDistinct(inputs[..n]);
      var before := FirstByKey(inputs[..n]);
      assert forall k :: 0 <= k < |before| ==> before[k] in before;
    }
  }

  /** What the digests of a dependency are made for. */
  datatype Consumer = Consumer(catalogDigest: Digest, placementDigest: Digest, selection: Selection,
                               environment: Environment)

  const BLANK_STATUS := Status(Planned, 1, 0, None, None)

  function BlankBindings(bindings: seq<Binding>): seq<Binding> {
    seq(|bindings|, k requires 0 <= k < |bindings| => Binding(bindings[k].spec, BLANK_STATUS))
  }

  function BlankContexts(contexts: seq<Context>): seq<Context> {
    seq(|contexts|, k requires 0 <= k < |contexts| =>
      contexts[k].(bindings := BlankBindings(contexts[k].bindings), status := BLANK_STATUS))
  }

  /** The desired state leaves every status out. */
  function DesiredStateDigest(catalog: Catalog): Digest {
    DesiredState(catalog.(contexts := BlankContexts(catalog.contexts)))
  }

  function ConsumerOf(catalog: Catalog, selection: Selection, p: Placement): Consumer {
    Consumer(DesiredStateDigest(catalog), PlacementContent(p), selection, catalog.environment)
  }

  function SubjectOf(consumer: Consumer, x: Input): Digest {
    Subject(x.kind, x.contextId, x.id, x.generation, x.definition, consumer.selection)
  }

  function RequestOf(uris: Uris, consumer: Consumer, x: Input, use: Use): RequestBody {
    RequestBody(consumer.catalogDigest, consumer.placementDigest, consumer.selection, consumer.environment, x.contextId,
                KeyOf(x), x.kind, x.id, SubjectOf(consumer, x), x.generation, uris.scheme(use.uri), use)
  }

  function DependencyOf(uris: Uris, consumer: Consumer, x: Input): Dependency {
    Dependency(KeyOf(x), x.kind, x.contextId, x.id, x.generation, SubjectOf(consumer, x),
               seq(|x.uses|, k requires 0 <= k < |x.uses| => RequestOf(uris, consumer, x, x.uses[k])))
  }

  function DependenciesOf(uris: Uris, consumer: Consumer, inputs: seq<Input>): seq<Dependency> {
    seq(|inputs|, k requires 0 <= k < |inputs| => DependencyOf(uris, consumer, inputs[k]))
  }

  /** The closure of a placement, in the order of its keys. */
  function Dependencies(uris: Uris, catalog: Catalog, selection: Selection, p: Placement): seq<Dependency> {
    Text.Sort(DependenciesOf(uris, ConsumerOf(catalog, selection, p), FirstByKey(Inputs(catalog, p))), Collation(uris))
  }

  predicate ReferencesCanonical(uris: Uris, inputs: seq<Input>) {
    forall x :: x in FirstByKey(inputs) ==> forall u :: u in x.uses ==> uris.isCanonical(u.uri)
  }

  function FindPlacement(placements: seq<Placement>, applicationId: string, componentId: string): (r: Option<Placement>)
    ensures r.Some? ==>
              r.value in placements && r.value.applicationId == applicationId && r.value.componentId == componentId
    ensures r.None? ==> forall p :: p in placements ==> p.applicationId != applicationId || p.componentId != componentId
  {
    if placements == [] then None
    else if placements[0].applicationId == applicationId && placements[0].componentId == componentId
      then Some(placements[0])
    else FindPlacement(placements[1..], applicationId, componentId)
  }

  function Selected(catalog: Catalog, selection: Selection): Option<Placement> {
    FindPlacement(catalog.placements, selection.applicationId, selection.componentId)
  }

  // ---------------------------------------------------------------- the derivation as written

  /** The first context that lists the binding. */
  lemma LocatedInOwnContext(catalog: Catalog, p: Placement, id: string)
    requires IsAccepted(catalog) && p in catalog.placements && id in p.bindingIds
    ensures LocateBinding(catalog.contexts, id).Some? && LocateBinding(catalog.contexts, id).value.0.id == p.contextId
  {
    hide ContextValid, Distinct, Text.DistinctBy, BindingValid, CapabilitiesKnown, DelegationSafe;
    var placed := AllPlaced(catalog.contexts);
    assert PlacementValid(catalog.contexts, placed, p);
    assert OwnsBinding(placed, p, id);
    var b :| b in placed && PlacedId(b) == id;
    PlacedMembers(catalog.contexts, b);
    var located := LocateBinding(catalog.contexts, id);
    var i :| 0 <= i < |catalog.placements| && catalog.placements[i] == p;
    var k :| 0 <= k < |p.bindingIds| && p.bindingIds[k] == id;
    BindingHasOneOwner(catalog, located.value.0, located.value.1);
    assert Consumes(catalog.placements, i, k, id);
  }

  /** Every lookup of the collection succeeds for a placement of an accepted catalogue. */
  lemma LookupsSucceed(catalog: Catalog, p: Placement)
    requires IsAccepted(catalog) && p in catalog.placements
    ensures Find(catalog.contexts, ContextId, p.contextId).Some?
    ensures CapabilitiesKnown(Find(catalog.contexts, ContextId, p.contextId).value, p)
    ensures forall d :: d in p.delegated ==> DelegationSafe(catalog.contexts, d)
  {
    hide ContextValid, Distinct, Text.DistinctBy, BindingValid, CapabilitiesKnown, DelegationSafe, OwnsBinding;
    assert PlacementValid(catalog.contexts, AllPlaced(catalog.contexts), p);
  }

  method AddCapability(inputs: seq<Input>, c: Context, kind: Kind, id: string) returns (ok: bool, added: seq<Input>)
    ensures ok <==> CapabilityInput(c, kind, id).Some?
    ensures added == inputs + Listed(CapabilityInput(c, kind, id))
  {
    var input := CapabilityInput(c, kind, id);
    if input.None? {
      return false, inputs;
    }
    ok, added := true, inputs + [input.value];
  }

  /** The selected context and the six kinds of capability a placement names in it. */
  method AddPrimary(c: Context, p: Placement) returns (ok: bool, inputs: seq<Input>)
    requires CapabilitiesKnown(c, p)
    ensures ok && inputs == PrimaryInputs(c, p) + DnsInputs(c, p.dnsIds)
  {
    hide ContextInput, RuntimeInput, NetworkInput, RegistryInput, IdentityInput, ObservabilityInput, DnsInput;
    inputs := [ContextInput(c)];
    ok, inputs := AddCapability(inputs, c, RuntimeKind, p.runtimeId);
    ok, inputs := AddCapability(inputs, c, NetworkKind, p.networkId);
    ok, inputs := AddCapability(inputs, c, RegistryKind, p.registryId);
    ok, inputs := AddCapability(inputs, c, IdentityKind, p.identityId);
    ok, inputs := AddCapability(inputs, c, ObservabilityKind, p.observabilityId);
    assert inputs == PrimaryInputs(c, p);
    ok, inputs := AddDns(inputs, c, p.dnsIds);
  }

  method AddDns(inputsIn: seq<Input>, c: Context, ids: seq<string>) returns (ok: bool, inputs: seq<Input>)
    requires forall d :: d in ids ==> Find(c.dns, DnsId, d).Some?
    ensures ok && inputs == inputsIn + DnsInputs(c, ids)
  {
    hide DnsInput;
    inputs, ok := inputsIn, true;
    for k := 0 to |ids|
      invariant ok && inputs == inputsIn + DnsInputs(c, ids[..k])
    {
      assert ids[..k + 1][..k] == ids[..k] && ids[k] in ids;
      ok, inputs := AddCapability(inputs, c, DnsKind, ids[k]);
    }
    assert ids[..|ids|] == ids;
  }

  /** The bindings of a placement; none of them escapes its context. */
  method AddBindings(inputsIn: seq<Input>, catalog: Catalog, p: Placement)
    returns (ok: bool, failure: Failure, inputs: seq<Input>)
    requires IsAccepted(catalog) && p in catalog.placements
    ensures ok && inputs == inputsIn + BindingInputs(catalog.contexts, p.bindingIds)
  {
    hide IsAccepted, BindingInput, LocateBinding;
    inputs, failure := inputsIn, ContextEscape;
    var ids := p.bindingIds;
    for k := 0 to |ids|
      invariant inputs == inputsIn + BindingInputs(catalog.contexts, ids[..k])
    {
      assert ids[..k + 1][..k] == ids[..k] && ids[k] in ids;
      LocatedInOwnContext(catalog, p, ids[k]);
      var located := LocateBinding(catalog.contexts, ids[k]);
      if located.None? {
        return false, CapabilityUnknown, inputs;
      }
      if located.value.0.id != p.contextId {
        return false, ContextEscape, inputs;
      }
      inputs := inputs + [BindingInput(located.value.0, located.value.1)];
    }
    assert ids[..|ids|] == ids;
    ok := true;
  }

  method AddDelegated(inputsIn: seq<Input>, contexts: seq<Context>, delegated: seq<Delegated>)
    returns (ok: bool, inputs: seq<Input>)
    requires forall d :: d in delegated ==> DelegationSafe(contexts, d)
    ensures ok && inputs == inputsIn + DelegatedInputs(contexts, delegated)
  {
    hide ContextInput, RuntimeInput;
    inputs, ok := inputsIn, true;
    for k := 0 to |delegated|
      invariant ok && inputs == inputsIn + DelegatedInputs(contexts, delegated[..k])
    {
      assert delegated[..k + 1][..k] == delegated[..k] && delegated[k] in delegated;
      assert DelegationSafe(contexts, delegated[k]);
      var context := Find(contexts, ContextId, delegated[k].contextId);
      inputs := inputs + [ContextInput(context.value)];
      ok, inputs := AddCapability(inputs, context.value, RuntimeKind, delegated[k].runtimeId);
    }
    assert delegated[..|delegated|] == delegated;
  }

  /** The map of dependencies by key, filled in the order of the inputs; later inputs of a key are skipped. */
  method CollectDependencies(uris: Uris, consumer: Consumer, inputs: seq<Input>)
    returns (ok: bool, dependencies: seq<Dependency>)
    ensures ok <==> ReferencesCanonical(uris, inputs)
    ensures ok ==> dependencies == DependenciesOf(uris, consumer, FirstByKey(inputs))
  {
    hide KeyOf, DependencyOf, DependenciesOf, HasKey, FirstByKey, ReferencesCanonical;
    NoInputs(uris, consumer);
    var keys: set<string> := {};
    dependencies := [];
    for n := 0 to |inputs|
      invariant forall key :: key in keys <==> HasKey(FirstByKey(inputs[..n]), key)
      invariant dependencies == DependenciesOf(uris, consumer, FirstByKey(inputs[..n]))
      invariant ReferencesCanonical(uris, inputs[..n])
    {
      var input := inputs[n];
      OneMoreInput(uris, inputs, n);
      OneMoreDependency(uris, consumer, FirstByKey(inputs[..n]), input);
      if KeyOf(input) in keys {
        continue;
      }
      if exists u :: u in input.uses && !uris.isCanonical(u.uri) {
        return false, dependencies;
      }
      dependencies := dependencies + [DependencyOf(uris, consumer, input)];
      keys := keys + {KeyOf(input)};
    }
    assert inputs[..|inputs|] == inputs;
    ok := true;
  }

  lemma NoInputs(uris: Uris, consumer: Consumer)
    ensures FirstByKey([]) == [] && DependenciesOf(uris, consumer, []) == [] && ReferencesCanonical(uris, [])
    ensures forall key :: !HasKey([], key)
  {}

  lemma OneMoreDependency(uris: Uris, consumer: Consumer, inputs: seq<Input>, x: Input)
    ensures DependenciesOf(uris, consumer, inputs + [x]) ==
              DependenciesOf(uris, consumer, inputs) + [DependencyOf(uris, consumer, x)]
  {
    hide DependencyOf;
  }

  lemma OneMoreInput(uris: Uris, inputs: seq<Input>, n: nat)
    requires n < |inputs| && ReferencesCanonical(uris, inputs[..n])
    ensures var before, input := FirstByKey(inputs[..n]), inputs[n];
            && FirstByKey(inputs[..n + 1]) == (if HasKey(before, KeyOf(input)) then before else before + [input])
            && (forall key :: HasKey(before + [input], key) <==> HasKey(before, key) || key == KeyOf(input))
            && (HasKey(before, KeyOf(input)) ==> ReferencesCanonical(uris, inputs[..n + 1]))
            && (!HasKey(before, KeyOf(input)) ==>
                  if exists u :: u in input.uses && !uris.isCanonical(u.uri) then !ReferencesCanonical(uris, inputs)
                  else ReferencesCanonical(uris, inputs[..n + 1]))
  {
    hide KeyOf;
    var before, input := FirstByKey(inputs[..n]), inputs[n];
    assert inputs[..n + 1][..n] == inputs[..n];
    assert input in before + [input] && forall y :: y in before ==> y in before + [input];
    FirstByKeyGrows(inputs, n + 1);
  }

  lemma {:induction false} FirstByKeyGrows(inputs: seq<Input>, n: nat)
    requires n <= |inputs|
    ensures forall x :: x in FirstByKey(inputs[..n]) ==> x in FirstByKey(inputs)
  {
    hide KeyOf;
    if n == |inputs| {
      assert inputs[..n] == inputs;
    } else {
      FirstByKeyGrows(inputs[..|inputs| - 1], n);
      assert inputs[..|inputs| - 1][..n] == inputs[..n];
    }
  }

  /**
   The derivation of a closure. It fails exactly on a rejected catalogue, a malformed or unknown selection, or a
   reference that is not canonical; its two other failures cannot happen.
   */
  method Derive(uris: Uris, catalog: Catalog, selection: Selection) returns (result: Result<seq<Dependency>, Failure>)
    ensures result.Ok? <==> && IsAccepted(catalog) && SelectionValid(selection) && Selected(catalog, selection).Some?
                            && ReferencesCanonical(uris, Inputs(catalog, Selected(catalog, selection).value))
    ensures result.Ok? ==> result.value == Dependencies(uris, catalog, selection, Selected(catalog, selection).value)
    ensures result.Err? ==> result.error != CapabilityUnknown && result.error != ContextEscape
  {
    hide IsAccepted, SelectionValid, PrimaryInputs, CapabilitiesKnown;
    var accepted := AssertCatalog(catalog);
    if !accepted {
      return Err(CatalogRejected);
    }
    if !SelectionValid(selection) {
      return Err(SelectionInvalid);
    }
    var selected := Selected(catalog, selection);
    if selected.None? {
      return Err(PlacementUnknown);
    }
    var p := selected.value;
    LookupsSucceed(catalog, p);
    var context := Find(catalog.contexts, ContextId, p.contextId).value;
    DnsKnown(context, p);
    var ok, inputs := AddPrimary(context, p);
    if !ok {
      return Err(CapabilityUnknown);
    }
    var failure;
    ok, failure, inputs := AddBindings(inputs, catalog, p);
    if !ok {
      return Err(failure);
    }
    ok, inputs := AddDelegated(inputs, catalog.contexts, p.delegated);
    if !ok {
      return Err(CapabilityUnknown);
    }
    assert inputs == Inputs(catalog, p);
    var dependencies;
    ok, dependencies := CollectDependencies(uris, ConsumerOf(catalog, selection, p), inputs);
    if !ok {
      return Err(ReferenceNotCanonical);
    }
    result := Ok(Text.Sort(dependencies, Collation(uris)));
  }

  lemma DnsKnown(c: Context, p: Placement)
    requires CapabilitiesKnown(c, p)
    ensures forall d :: d in p.dnsIds ==> Find(c.dns, DnsId, d).Some?
  {}

  // ---------------------------------------------------------------- what the closure is

  ghost predicate IsCapability(c: Context, kind: Kind, id: string, x: Input) {
    match kind
    case RuntimeKind => exists v :: v in c.runtimes && v.id == id && x == RuntimeInput(c, v)
    case NetworkKind => exists v :: v in c.networks && v.id == id && x == NetworkInput(c, v)
    case RegistryKind => exists v :: v in c.registries && v.id == id && x == RegistryInput(c, v)
    case IdentityKind => exists v :: v in c.identities && v.id == id && x == IdentityInput(c, v)
    case ObservabilityKind => exists v :: v in c.observability && v.id == id && x == ObservabilityInput(c, v)
    case DnsKind => exists v :: v in c.dns && v.id == id && x == DnsInput(c, v)
    case ContextKind => false
    case BindingKind => false
  }

  /** What a placement needs of its own context: the context, the named capabilities, and its bindings. */
  ghost predicate NeedsOfContext(c: Context, p: Placement, x: Input) {
    || x == ContextInput(c)
    || IsCapability(c, RuntimeKind, p.runtimeId, x) || IsCapability(c, NetworkKind, p.networkId, x)
    || IsCapability(c, RegistryKind, p.registryId, x) || IsCapability(c, IdentityKind, p.identityId, x)
    || IsCapability(c, ObservabilityKind, p.observabilityId, x)
    || (exists d :: d in p.dnsIds && IsCapability(c, DnsKind, d, x))
    || (exists b :: b in c.bindings && b.spec.id in p.bindingIds && x == BindingInput(c, b))
  }

  ghost predicate NeedsOfDelegation(c: Context, g: Delegated, x: Input) {
    x == ContextInput(c) || IsCapability(c, RuntimeKind, g.runtimeId, x)
  }

  ghost predicate Needs(catalog: Catalog, p: Placement, x: Input) {
    || (exists c :: c in catalog.contexts && c.id == p.contextId && NeedsOfContext(c, p, x))
    || (exists g, c :: g in p.delegated && c in catalog.contexts && c.id == g.contextId && NeedsOfDelegation(c, g, x))
  }

  lemma CapabilityLookup(c: Context, kind: Kind, id: string, x: Input)
    requires CapabilitiesDistinct(c)
    ensures CapabilityInput(c, kind, id) == Some(x) <==> IsCapability(c, kind, id, x)
  {
    hide RuntimeInput, NetworkInput, RegistryInput, IdentityInput, ObservabilityInput, DnsInput, Text.DistinctBy;
    if IsCapability(c, kind, id, x) {
      match kind
      case RuntimeKind =>
        var v :| v in c.runtimes && v.id == id && x == RuntimeInput(c, v);
        FindIsInverse(c.runtimes, RuntimeId, v);
      case NetworkKind =>
        var v :| v in c.networks && v.id == id && x == NetworkInput(c, v);
        FindIsInverse(c.networks, NetworkId, v);
      case RegistryKind =>
        var v :| v in c.registries && v.id == id && x == RegistryInput(c, v);
        FindIsInverse(c.registries, RegistryId, v);
      case IdentityKind =>
        var v :| v in c.identities && v.id == id && x == IdentityInput(c, v);
        FindIsInverse(c.identities, IdentityId, v);
      case ObservabilityKind =>
        var v :| v in c.observability && v.id == id && x == ObservabilityInput(c, v);
        FindIsInverse(c.observability, ObservabilityId, v);
      case DnsKind =>
        var v :| v in c.dns && v.id == id && x == DnsInput(c, v);
        FindIsInverse(c.dns, DnsId, v);
      case ContextKind =>
      case BindingKind =>
    }
  }

  lemma {:induction false} DnsMembers(c: Context, ids: seq<string>, x: Input)
    ensures x in DnsInputs(c, ids) <==> exists d :: d in ids && CapabilityInput(c, DnsKind, d) == Some(x)
  {
    hide CapabilityInput;
    if ids != [] {
      var n := |ids| - 1;
      DnsMembers(c, ids[..n], x);
      assert ids == ids[..n] + [ids[n]];
    }
  }

  ghost predicate ComesFromBinding(contexts: seq<Context>, id: string, x: Input) {
    var located := LocateBinding(contexts, id);
    located.Some? && x == BindingInput(located.value.0, located.value.1)
  }

  lemma {:induction false} BindingMembers(contexts: seq<Context>, ids: seq<string>, x: Input)
    ensures x in BindingInputs(contexts, ids) <==> exists id :: id in ids && ComesFromBinding(contexts, id, x)
  {
    hide LocateBinding, BindingInput;
    if ids != [] {
      var n := |ids| - 1;
      BindingMembers(contexts, ids[..n], x);
      assert ids == ids[..n] + [ids[n]] && ids[n] in ids;
      assert x in BindingInputs(contexts, ids) <==>
               x in BindingInputs(contexts, ids[..n]) || ComesFromBinding(contexts, ids[n], x);
    }
  }

  ghost predicate ComesFromDelegation(contexts: seq<Context>, g: Delegated, x: Input) {
    var c := Find(contexts, ContextId, g.contextId);
    c.Some? && (x == ContextInput(c.value) || CapabilityInput(c.value, RuntimeKind, g.runtimeId) == Some(x))
  }

  lemma {:induction false} DelegatedMembers(contexts: seq<Context>, delegated: seq<Delegated>, x: Input)
    ensures x in DelegatedInputs(contexts, delegated) <==>
              exists g :: g in delegated && ComesFromDelegation(contexts, g, x)
  {
    hide CapabilityInput, ContextInput, Find;
    if delegated != [] {
      var n := |delegated| - 1;
      DelegatedMembers(contexts, delegated[..n], x);
      assert delegated == delegated[..n] + [delegated[n]] && delegated[n] in delegated;
      assert x in DelegatedInputs(contexts, delegated) <==>
             x in DelegatedInputs(contexts, delegated[..n]) || ComesFromDelegation(contexts, delegated[n], x);
    }
  }

  lemma PrimaryMembers(c: Context, p: Placement, x: Input)
    ensures x in PrimaryInputs(c, p) <==>
            || x == ContextInput(c)
            || CapabilityInput(c, RuntimeKind, p.runtimeId) == Some(x)
            || CapabilityInput(c, NetworkKind, p.networkId) == Some(x)
            || CapabilityInput(c, RegistryKind, p.registryId) == Some(x)
            || CapabilityInput(c, IdentityKind, p.identityId) == Some(x)
            || CapabilityInput(c, ObservabilityKind, p.observabilityId) == Some(x)
  {
    hide CapabilityInput, ContextInput;
  }

  /** Of the contexts only one has an identifier. */
  lemma OneContext(catalog: Catalog, c: Context)
    requires IsAccepted(catalog) && c in catalog.contexts
    ensures Find(catalog.contexts, ContextId, c.id) == Some(c) && CapabilitiesDistinct(c)
  {
    hide Text.DistinctBy, PlacementValid, BindingValid, Distinct, CapabilitiesDistinct;
    assert ContextValid(c, catalog.environment);
    FindIsInverse(catalog.contexts, ContextId, c);
  }

  /** A binding consumed by the placement is the one the lookup finds, in the placement's context. */
  lemma BindingComes(catalog: Catalog, p: Placement, id: string, x: Input)
    requires IsAccepted(catalog) && p in catalog.placements && id in p.bindingIds
    ensures ComesFromBinding(catalog.contexts, id, x) <==>
            exists c, b ::
              c in catalog.contexts && c.id == p.contextId && b in c.bindings && b.spec.id == id
              && x == BindingInput(c, b)
  {
    hide IsAccepted, BindingInput, LocateBinding;
    LocatedInOwnContext(catalog, p, id);
    var located := LocateBinding(catalog.contexts, id).value;
    forall c, b | c in catalog.contexts && c.id == p.contextId && b in c.bindings && b.spec.id == id
      ensures c == located.0 && b == located.1
    {
      OneContext(catalog, c);
      OneContext(catalog, located.0);
      OneBinding(catalog, c, b, located.1);
    }
  }

  lemma OneBinding(catalog: Catalog, c: Context, a: Binding, b: Binding)
    requires IsAccepted(catalog) && c in catalog.contexts && a in c.bindings && b in c.bindings
             && a.spec.id == b.spec.id
    ensures a == b
  {
    hide ContextValid, PlacementValid, BindingValid, Distinct;
    var placed := AllPlaced(catalog.contexts);
    PlacedMembers(catalog.contexts, Placed(a, c.id));
    PlacedMembers(catalog.contexts, Placed(b, c.id));
    var i :| 0 <= i < |placed| && placed[i] == Placed(a, c.id);
    var j :| 0 <= j < |placed| && placed[j] == Placed(b, c.id);
    assert i == j;
  }

  /** The collected inputs are exactly what the placement needs. */
  lemma InputsAreTheNeeds(catalog: Catalog, p: Placement, x: Input)
    requires IsAccepted(catalog) && p in catalog.placements
    ensures x in Inputs(catalog, p) <==> Needs(catalog, p, x)
  {
    hide IsAccepted, ContextInput, CapabilityInput, BindingInput, Find, LocateBinding, IsCapability, CapabilitiesKnown,
         CapabilitiesDistinct, PrimaryInputs, ComesFromBinding, DelegationSafe, DnsInputs, BindingInputs,
         DelegatedInputs;
    LookupsSucceed(catalog, p);
    var c := Find(catalog.contexts, ContextId, p.contextId).value;
    OneContext(catalog, c);
    PrimaryMembers(c, p, x);
    DnsMembers(c, p.dnsIds, x);
    BindingMembers(catalog.contexts, p.bindingIds, x);
    DelegatedMembers(catalog.contexts, p.delegated, x);
    forall kind, id
      ensures CapabilityInput(c, kind, id) == Some(x) <==> IsCapability(c, kind, id, x)
    {
      CapabilityLookup(c, kind, id, x);
    }
    OwnContextNeeds(catalog, p, c, x);
    DelegatedNeeds(catalog, p, x);
  }

  lemma OwnContextNeeds(catalog: Catalog, p: Placement, c: Context, x: Input)
    requires IsAccepted(catalog) && p in catalog.placements && c in catalog.contexts && c.id == p.contextId
    ensures (exists id :: id in p.bindingIds && ComesFromBinding(catalog.contexts, id, x)) <==>
            exists b :: b in c.bindings && b.spec.id in p.bindingIds && x == BindingInput(c, b)
    ensures forall d :: d in catalog.contexts && d.id == p.contextId ==> d == c
  {
    hide IsAccepted, BindingInput, ComesFromBinding;
    forall d | d in catalog.contexts && d.id == p.contextId
      ensures d == c
    {
      OneContext(catalog, c);
      OneContext(catalog, d);
    }
    forall id | id in p.bindingIds
      ensures ComesFromBinding(catalog.contexts, id, x) <==>
                exists b :: b in c.bindings && b.spec.id == id && x == BindingInput(c, b)
    {
      BindingComes(catalog, p, id, x);
    }
  }

  lemma DelegatedNeeds(catalog: Catalog, p: Placement, x: Input)
    requires IsAccepted(catalog) && p in catalog.placements
    ensures (exists g :: g in p.delegated && ComesFromDelegation(catalog.contexts, g, x)) <==>
            exists g, c ::
              g in p.delegated && c in catalog.contexts && c.id == g.contextId && NeedsOfDelegation(c, g, x)
  {
    hide IsAccepted, ContextInput, CapabilityInput, IsCapability;
    forall g | g in p.delegated
      ensures ComesFromDelegation(catalog.contexts, g, x) <==>
              exists c :: c in catalog.contexts && c.id == g.contextId && NeedsOfDelegation(c, g, x)
    {
      forall c | c in catalog.contexts && c.id == g.contextId
        ensures Find(catalog.contexts, ContextId, g.contextId) == Some(c)
        ensures CapabilityInput(c, RuntimeKind, g.runtimeId) == Some(x) <==>
                  IsCapability(c, RuntimeKind, g.runtimeId, x)
      {
        OneContext(catalog, c);
        CapabilityLookup(c, RuntimeKind, g.runtimeId, x);
      }
    }
  }

  ghost predicate HasShape(c: Context, x: Input) {
    || x == ContextInput(c)
    || IsCapability(c, x.kind, x.id, x)
    || exists b :: b in c.bindings && x == BindingInput(c, b)
  }

  lemma CapabilityShape(c: Context, kind: Kind, id: string, x: Input)
    requires IsCapability(c, kind, id, x)
    ensures x.contextId == c.id && x.kind == kind && x.id == id
  {}

  lemma NeedsShape(catalog: Catalog, p: Placement, x: Input) returns (c: Context)
    requires Needs(catalog, p, x)
    ensures c in catalog.contexts && c.id == x.contextId && HasShape(c, x)
    ensures x.kind == BindingKind ==> c.id == p.contextId && x.id in p.bindingIds
  {
    if d :| d in catalog.contexts && d.id == p.contextId && NeedsOfContext(d, p, x) {
      c := d;
      ShapeOfNeed(c, p, x);
    } else {
      var g, d :| g in p.delegated && d in catalog.contexts && d.id == g.contextId && NeedsOfDelegation(d, g, x);
      c := d;
      if x != ContextInput(c) {
        CapabilityShape(c, RuntimeKind, g.runtimeId, x);
      }
    }
  }

  lemma ShapeOfNeed(c: Context, p: Placement, x: Input)
    requires NeedsOfContext(c, p, x)
    ensures HasShape(c, x) && c.id == x.contextId && (x.kind == BindingKind ==> x.id in p.bindingIds)
  {
    hide IsCapability;
    if kind, id :| IsCapability(c, kind, id, x) {
      CapabilityShape(c, kind, id, x);
      NoBindingCapability(c, id, x);
    }
  }

  lemma NoBindingCapability(c: Context, id: string, x: Input)
    ensures !IsCapability(c, BindingKind, id, x) && !IsCapability(c, ContextKind, id, x)
  {}

  lemma ShapeHasUses(c: Context, x: Input)
    requires HasShape(c, x)
    ensures x.uses != []
  {}

  lemma SameShape(c: Context, x: Input, y: Input)
    requires CapabilitiesDistinct(c) && HasShape(c, x) && HasShape(c, y) && x.kind == y.kind && x.id == y.id
    requires forall a, b :: a in c.bindings && b in c.bindings && a.spec.id == b.spec.id ==> a == b
    ensures x == y
  {
    hide IsCapability, CapabilityInput;
    CapabilityLookup(c, x.kind, x.id, x);
    CapabilityLookup(c, y.kind, y.id, y);
    NoBindingCapability(c, x.id, x);
    NoBindingCapability(c, y.id, y);
  }

  ghost predicate SlashFree(catalog: Catalog) {
    forall c :: c in catalog.contexts ==> '/' !in c.id
  }

  /** Two needed inputs with the same key are the same input: skipping repeated keys loses nothing. */
  lemma KeyIdentifiesInput(catalog: Catalog, p: Placement, x: Input, y: Input)
    requires IsAccepted(catalog) && SlashFree(catalog)
    requires Needs(catalog, p, x) && Needs(catalog, p, y) && KeyOf(x) == KeyOf(y)
    ensures x == y
  {
    hide IsAccepted, Needs, HasShape, KeyFor;
    var c := NeedsShape(catalog, p, x);
    var d := NeedsShape(catalog, p, y);
    KeyIsInjective(c.id, x.kind, x.id, d.id, y.kind, y.id);
    OneContext(catalog, c);
    OneContext(catalog, d);
    forall a, b | a in c.bindings && b in c.bindings && a.spec.id == b.spec.id
      ensures a == b
    {
      OneBinding(catalog, c, a, b);
    }
    SameShape(c, x, y);
  }

  /** The closure lists one dependency per key, in the order of the platform's collation. */
  lemma ClosureIsSorted(uris: Uris, catalog: Catalog, selection: Selection, p: Placement)
    ensures Text.SortedBy(Dependencies(uris, catalog, selection, p), Collation(uris))
    ensures Text.DistinctBy(Dependencies(uris, catalog, selection, p), DependencyKey)
    ensures forall d :: d in Dependencies(uris, catalog, selection, p) <==>
              exists x ::
                x in FirstByKey(Inputs(catalog, p)) && d == DependencyOf(uris, ConsumerOf(catalog, selection, p), x)
  {
    hide Inputs, FirstByKey, KeyOf, ConsumerOf, Text.SortedBy, Text.Sort, Collation;
    var first := FirstByKey(Inputs(catalog, p));
    var consumer := ConsumerOf(catalog, selection, p);
    var unsorted := DependenciesOf(uris, consumer, first);
    FirstByKeyIsDistinct(Inputs(catalog, p));
    assert Text.DistinctBy(unsorted, DependencyKey) by {
      forall i, j | 0 <= i < j < |unsorted|
        ensures DependencyKey(unsorted[i]) != DependencyKey(unsorted[j])
      {
        assert KeyOf(first[i]) != KeyOf(first[j]);
      }
    }
    Text.SortKeepsDistinct(unsorted, Collation(uris), DependencyKey);
    forall d
      ensures d in unsorted <==> exists x :: x in first && d == DependencyOf(uris, consumer, x)
    {
      if x :| x in first && d == DependencyOf(uris, consumer, x) {
        var k :| 0 <= k < |first| && first[k] == x;
        assert unsorted[k] == d;
      }
      if d in unsorted {
        var k :| 0 <= k < |unsorted| && unsorted[k] == d;
        assert first[k] in first;
      }
    }
  }

  /** The derived closure is exactly what the placement needs. */
  lemma ClosureIsExact(uris: Uris, catalog: Catalog, selection: Selection, p: Placement, d: Dependency)
    requires IsAccepted(catalog) && SlashFree(catalog) && p in catalog.placements
    ensures d in Dependencies(uris, catalog, selection, p) <==>
            exists x :: Needs(catalog, p, x) && d == DependencyOf(uris, ConsumerOf(catalog, selection, p), x)
  {
    hide IsAccepted, SlashFree, Needs, Inputs, FirstByKey, DependencyOf, ConsumerOf, Dependencies, KeyOf;
    ClosureIsSorted(uris, catalog, selection, p);
    var inputs := Inputs(catalog, p);
    FirstByKeyMembers(inputs);
    forall x
      ensures x in FirstByKey(inputs) <==> Needs(catalog, p, x)
    {
      InputsAreTheNeeds(catalog, p, x);
      if Needs(catalog, p, x) {
        var y :| y in FirstByKey(inputs) && KeyOf(y) == KeyOf(x);
        InputsAreTheNeeds(catalog, p, y);
        KeyIdentifiesInput(catalog, p, x, y);
      }
    }
  }

  // ---------------------------------------------------------------- the bindings of the closure

  /** The identifiers of the resource bindings among some dependencies. */
  function BindingIdsIn(dependencies: seq<Dependency>): seq<string> {
    if dependencies == [] then [] else
      var last := dependencies[|dependencies| - 1];
      BindingIdsIn(dependencies[..|dependencies| - 1]) + if last.kind == BindingKind then [last.id] else []
  }

  lemma {:induction false} BindingIdMembers(dependencies: seq<Dependency>, id: string)
    ensures id in BindingIdsIn(dependencies) <==> exists d :: d in dependencies && d.kind == BindingKind && d.id == id
  {
    if dependencies != [] {
      var n := |dependencies| - 1;
      BindingIdMembers(dependencies[..n], id);
      assert dependencies == dependencies[..n] + [dependencies[n]];
    }
  }

  lemma {:induction false} BindingIdsAreDistinct(dependencies: seq<Dependency>)
    requires forall i, j ::
               0 <= i < j < |dependencies| && dependencies[i].kind == BindingKind
               && dependencies[j].kind == BindingKind ==>
               dependencies[i].id != dependencies[j].id
    ensures Distinct(BindingIdsIn(dependencies))
  {
    hide Distinct;
    if dependencies == [] {
      DistinctNothing<string>();
    } else {
      var n := |dependencies| - 1;
      var before := dependencies[..n];
      BindingIdsAreDistinct(before);
      BindingIdMembers(before, dependencies[n].id);
      if d :| d in before && d.kind == BindingKind && d.id == dependencies[n].id {
        var k :| 0 <= k < n && dependencies[k] == d;
      }
      DistinctParts(BindingIdsIn(before), [dependencies[n].id]);
      DistinctSingle(dependencies[n].id);
      assert BindingIdsIn(before) + [] == BindingIdsIn(before);
    }
  }

  lemma DistinctSingle(x: string)
    ensures Distinct([x])
  {}

  /** The resource bindings of the closure are exactly those the placement lists, each once. */
  lemma ClosureBindings(uris: Uris, catalog: Catalog, selection: Selection, p: Placement)
    requires IsAccepted(catalog) && SlashFree(catalog) && p in catalog.placements
    ensures Distinct(BindingIdsIn(Dependencies(uris, catalog, selection, p)))
    ensures forall id :: id in BindingIdsIn(Dependencies(uris, catalog, selection, p)) <==> id in p.bindingIds
  {
    hide IsAccepted, SlashFree, Dependencies, Inputs, FirstByKey, ConsumerOf, Needs, KeyFor, Text.Less;
    var closure := Dependencies(uris, catalog, selection, p);
    var consumer := ConsumerOf(catalog, selection, p);
    ClosureIsSorted(uris, catalog, selection, p);
    FirstByKeyMembers(Inputs(catalog, p));
    forall d | d in closure && d.kind == BindingKind
      ensures d.id in p.bindingIds && d.key == KeyFor(p.contextId, BindingKind, d.id)
    {
      var x :| x in FirstByKey(Inputs(catalog, p)) && d == DependencyOf(uris, consumer, x);
      InputsAreTheNeeds(catalog, p, x);
      var c := NeedsShape(catalog, p, x);
    }
    forall i, j | 0 <= i < j < |closure| && closure[i].kind == BindingKind && closure[j].kind == BindingKind
      ensures closure[i].id != closure[j].id
    {
      assert closure[i] in closure && closure[j] in closure;
      assert DependencyKey(closure[i]) != DependencyKey(closure[j]);
    }
    BindingIdsAreDistinct(closure);
    forall id
      ensures id in BindingIdsIn(closure) <==> id in p.bindingIds
    {
      BindingIdMembers(closure, id);
      if id in p.bindingIds {
        BindingIsInClosure(uris, catalog, selection, p, id);
      }
    }
  }

  lemma BindingIsInClosure(uris: Uris, catalog: Catalog, selection: Selection, p: Placement, id: string)
    requires IsAccepted(catalog) && SlashFree(catalog) && p in catalog.placements && id in p.bindingIds
    ensures exists d :: d in Dependencies(uris, catalog, selection, p) && d.kind == BindingKind && d.id == id
  {
    hide IsAccepted, SlashFree, Dependencies, ConsumerOf, KeyFor, LocateBinding;
    LocatedInOwnContext(catalog, p, id);
    var located := LocateBinding(catalog.contexts, id).value;
    var x := BindingInput(located.0, located.1);
    assert NeedsOfContext(located.0, p, x);
    var d := DependencyOf(uris, ConsumerOf(catalog, selection, p), x);
    ClosureIsExact(uris, catalog, selection, p, d);
    assert d.kind == BindingKind && d.id == id;
  }

  // ---------------------------------------------------------------- what the closure asks

  /** What a placement depends on: its context and what it names there, its bindings, and its delegated runtimes. */
  ghost predicate DependsOn(p: Placement, contextId: string, kind: Kind, id: string) {
    || (contextId == p.contextId &&
        match kind
        case ContextKind => id == contextId
        case RuntimeKind => id == p.runtimeId
        case NetworkKind => id == p.networkId
        case RegistryKind => id == p.registryId
        case IdentityKind => id == p.identityId
        case ObservabilityKind => id == p.observabilityId
        case DnsKind => id in p.dnsIds
        case BindingKind => id in p.bindingIds)
    || exists g :: g in p.delegated && g.contextId == contextId
         && ((kind == ContextKind && id == contextId) || (kind == RuntimeKind && id == g.runtimeId))
  }

  lemma NeedsAreDependedOn(catalog: Catalog, p: Placement, x: Input)
    requires Needs(catalog, p, x)
    ensures DependsOn(p, x.contextId, x.kind, x.id)
  {
    hide IsCapability, BindingInput;
    if c :| c in catalog.contexts && c.id == p.contextId && NeedsOfContext(c, p, x) {
      forall kind, id | IsCapability(c, kind, id, x)
        ensures x.contextId == c.id && x.kind == kind && x.id == id
      {
        CapabilityShape(c, kind, id, x);
      }
      BindingShape(c, x);
    } else {
      var g, c :| g in p.delegated && c in catalog.contexts && c.id == g.contextId && NeedsOfDelegation(c, g, x);
      if x != ContextInput(c) {
        CapabilityShape(c, RuntimeKind, g.runtimeId, x);
      }
    }
  }

  lemma BindingShape(c: Context, x: Input)
    ensures forall b :: x == BindingInput(c, b) ==> x.kind == BindingKind && x.id == b.spec.id && x.contextId == c.id
  {}

  /** For everything depended on there is an input. */
  lemma DependedOnIsNeeded(catalog: Catalog, p: Placement, contextId: string, kind: Kind, id: string) returns (x: Input)
    requires IsAccepted(catalog) && p in catalog.placements && DependsOn(p, contextId, kind, id)
    ensures Needs(catalog, p, x) && x.contextId == contextId && x.kind == kind && x.id == id
  {
    hide IsAccepted, IsCapability, LocateBinding, CapabilitiesKnown, DelegationSafe;
    LookupsSucceed(catalog, p);
    var c := Find(catalog.contexts, ContextId, p.contextId).value;
    if contextId == p.contextId && kind == ContextKind {
      x := ContextInput(c);
      assert NeedsOfContext(c, p, x);
    } else if contextId == p.contextId && kind == BindingKind {
      LocatedInOwnContext(catalog, p, id);
      var located := LocateBinding(catalog.contexts, id).value;
      x := BindingInput(located.0, located.1);
      assert NeedsOfContext(located.0, p, x);
    } else if contextId == p.contextId
    && !(exists g :: g in p.delegated && g.contextId == contextId && kind == RuntimeKind && id == g.runtimeId) {
      x := CapabilityOfContext(catalog, p, c, kind, id);
    } else {
      var g :| g in p.delegated && g.contextId == contextId
               && ((kind == ContextKind && id == contextId) || (kind == RuntimeKind && id == g.runtimeId));
      x := DelegatedInput(catalog, p, g, kind, id);
    }
  }

  lemma CapabilityOfContext(catalog: Catalog, p: Placement, c: Context, kind: Kind, id: string) returns (x: Input)
    requires IsAccepted(catalog) && p in catalog.placements && c in catalog.contexts && c.id == p.contextId
    requires CapabilitiesKnown(c, p) && kind != ContextKind && kind != BindingKind
    requires DependsOn(p.(delegated := []), c.id, kind, id)
    ensures Needs(catalog, p, x) && x.contextId == c.id && x.kind == kind && x.id == id
  {
    hide IsAccepted, Find;
    assert CapabilityInput(c, kind, id).Some?;
    x := CapabilityInput(c, kind, id).value;
    OneContext(catalog, c);
    CapabilityLookup(c, kind, id, x);
    CapabilityShape(c, kind, id, x);
    hide IsCapability;
    assert NeedsOfContext(c, p, x);
  }

  lemma DelegatedInput(catalog: Catalog, p: Placement, g: Delegated, kind: Kind, id: string) returns (x: Input)
    requires IsAccepted(catalog) && p in catalog.placements && g in p.delegated
    requires (kind == ContextKind && id == g.contextId) || (kind == RuntimeKind && id == g.runtimeId)
    ensures Needs(catalog, p, x) && x.contextId == g.contextId && x.kind == kind && x.id == id
  {
    hide IsAccepted;
    LookupsSucceed(catalog, p);
    assert DelegationSafe(catalog.contexts, g);
    var c := Find(catalog.contexts, ContextId, g.contextId).value;
    if kind == ContextKind {
      x := ContextInput(c);
    } else {
      x := RuntimeInput(c, Find(c.runtimes, RuntimeId, id).value);
      assert IsCapability(c, RuntimeKind, id, x);
    }
    hide IsCapability;
    assert NeedsOfDelegation(c, g, x);
  }

  /** The closure has a dependency exactly for what the placement depends on. */
  lemma ClosureIsDependedOn(uris: Uris, catalog: Catalog, selection: Selection, p: Placement, contextId: string,
                            kind: Kind, id: string)
    requires IsAccepted(catalog) && SlashFree(catalog) && p in catalog.placements
    ensures (exists d ::
               d in Dependencies(uris, catalog, selection, p) && d.contextId == contextId && d.kind == kind
               && d.id == id)
            <==> DependsOn(p, contextId, kind, id)
  {
    hide IsAccepted, SlashFree, Dependencies, ConsumerOf, Needs, DependsOn, KeyOf, SubjectOf;
    var consumer := ConsumerOf(catalog, selection, p);
    if d :| d in Dependencies(uris, catalog, selection, p) && d.contextId == contextId && d.kind == kind && d.id == id {
      ClosureIsExact(uris, catalog, selection, p, d);
      var x :| Needs(catalog, p, x) && d == DependencyOf(uris, consumer, x);
      NeedsAreDependedOn(catalog, p, x);
    }
    if DependsOn(p, contextId, kind, id) {
      var x := DependedOnIsNeeded(catalog, p, contextId, kind, id);
      ClosureIsExact(uris, catalog, selection, p, DependencyOf(uris, consumer, x));
    }
  }

  /** The references of the part of a context that a kind and an identifier name, and what each is resolved for. */
  ghost predicate IsReferenceOf(c: Context, kind: Kind, id: string, u: Use) {
    match kind
    case ContextKind =>
      u == Use(c.boundaryRef, ProviderBoundary, PublicMetadata, ControlPlaneOnly, ProviderBoundaryId)
    case RuntimeKind =>
      exists v :: v in c.runtimes && v.id == id
        && u == Use(v.reference, RuntimeTarget, PublicMetadata, ControlPlaneOnly, RuntimeTargetReference)
    case NetworkKind =>
      exists v :: v in c.networks && v.id == id
        && u == Use(v.reference, NetworkBoundary, PublicMetadata, ControlPlaneOnly, NetworkBoundaryId)
    case RegistryKind =>
      exists v :: v in c.registries && v.id == id
        && u == Use(v.reference, RegistryTarget, PublicMetadata, WorkloadReference, RegistryReference)
    case IdentityKind =>
      exists v :: v in c.identities && v.id == id
        && u == Use(v.reference, IdentityBinding, ConfidentialReference, WorkloadReference, WorkloadIdentityReference)
    case DnsKind =>
      exists v :: v in c.dns && v.id == id
        && u == Use(v.reference, DnsZone, PublicMetadata, WorkloadReference, DnsZoneReference)
    case ObservabilityKind =>
      exists v :: v in c.observability && v.id == id && IsSinkOf(v, u)
    case BindingKind =>
      exists b :: b in c.bindings && b.spec.id == id && IsDatabaseReferenceOf(b.spec, u)
  }

  ghost predicate IsSinkOf(v: Observability, u: Use) {
    && u.confidentiality == ConfidentialReference
    && match u.purpose
       case AuditSink => u.uri == v.auditRef && u.projection == ControlPlaneOnly && u.outputType == AuditSinkReference
       case LogsSink =>
         u.uri == v.logsRef && u.projection == WorkloadReference && u.outputType == TelemetrySinkReference
       case MetricsSink =>
         u.uri == v.metricsRef && u.projection == WorkloadReference && u.outputType == TelemetrySinkReference
       case TracesSink =>
         u.uri == v.tracesRef && u.projection == WorkloadReference && u.outputType == TelemetrySinkReference
       case _ => false
  }

  ghost predicate IsDatabaseReferenceOf(spec: BindingSpec, u: Use) {
    match u.purpose
    case ProviderResource =>
      u.uri == spec.providerResourceRef && u.confidentiality == PublicMetadata && u.projection == ControlPlaneOnly
      && u.outputType == ProviderResourceId
    case PostgresEndpoint =>
      u.uri == spec.endpointRef && u.confidentiality == ConfidentialReference && u.projection == WorkloadReference
      && u.outputType == PostgresEndpointReference
    case PostgresCaBundle =>
      u.uri == spec.caBundleRef && u.confidentiality == PublicMetadata && u.projection == WorkloadReference
      && u.outputType == CaBundleReference
    case PostgresRuntimeIdentity =>
      u.uri == spec.runtimeIdentityRef && u.confidentiality == ConfidentialReference
      && u.projection == WorkloadReference
      && u.outputType == WorkloadIdentityReference
    case PostgresMigrationIdentity =>
      u.uri == spec.migrationIdentityRef && u.confidentiality == ConfidentialReference
      && u.projection == ControlPlaneOnly
      && u.outputType == WorkloadIdentityReference
    case _ => false
  }

  /** The definition that the subject digest covers: the part of the desired state, without any status. */
  ghost predicate IsDefinitionOf(c: Context, kind: Kind, id: string, definition: Definition) {
    match definition
    case ContextDefinition(environment, boundaryRef, detail) =>
      kind == ContextKind && environment == c.environment && boundaryRef == c.boundaryRef && detail == c.detail
    case RuntimeDefinition(v) => kind == RuntimeKind && v in c.runtimes && v.id == id
    case NetworkDefinition(v) => kind == NetworkKind && v in c.networks && v.id == id
    case RegistryDefinition(v) => kind == RegistryKind && v in c.registries && v.id == id
    case IdentityDefinition(v) => kind == IdentityKind && v in c.identities && v.id == id
    case ObservabilityDefinition(v) => kind == ObservabilityKind && v in c.observability && v.id == id
    case DnsDefinition(v) => kind == DnsKind && v in c.dns && v.id == id
    case BindingDefinition(spec) =>
      kind == BindingKind && spec.id == id && exists b :: b in c.bindings && b.spec == spec
  }

  ghost predicate IsGenerationOf(c: Context, kind: Kind, id: string, generation: int) {
    if kind == BindingKind then exists b :: b in c.bindings && b.spec.id == id && b.status.generation == generation
    else generation == c.status.generation
  }

  /** An input describes the part of the context it names. */
  lemma ShapeMeans(c: Context, x: Input)
    requires HasShape(c, x) && CapabilitiesDistinct(c)
    requires forall a, b :: a in c.bindings && b in c.bindings && a.spec.id == b.spec.id ==> a == b
    ensures forall u :: u in x.uses <==> IsReferenceOf(c, x.kind, x.id, u)
    ensures IsDefinitionOf(c, x.kind, x.id, x.definition) && IsGenerationOf(c, x.kind, x.id, x.generation)
  {
    if b :| b in c.bindings && x == BindingInput(c, b) {
      DatabaseReferences(c, b);
    } else if x != ContextInput(c) {
      CapabilityMeans(c, x);
    }
  }

  lemma DatabaseReferences(c: Context, b: Binding)
    ensures forall u :: u in BindingInput(c, b).uses <==> IsDatabaseReferenceOf(b.spec, u)
  {}

  lemma CapabilityMeans(c: Context, x: Input)
    requires IsCapability(c, x.kind, x.id, x) && CapabilitiesDistinct(c)
    ensures forall u :: u in x.uses <==> IsReferenceOf(c, x.kind, x.id, u)
    ensures IsDefinitionOf(c, x.kind, x.id, x.definition) && IsGenerationOf(c, x.kind, x.id, x.generation)
  {
    match x.kind
    case RuntimeKind => OneOfEach(c.runtimes, RuntimeId);
    case NetworkKind => OneOfEach(c.networks, NetworkId);
    case RegistryKind => OneOfEach(c.registries, RegistryId);
    case IdentityKind => OneOfEach(c.identities, IdentityId);
    case DnsKind => OneOfEach(c.dns, DnsId);
    case ObservabilityKind => OneOfEach(c.observability, ObservabilityId);
    case ContextKind =>
    case BindingKind =>
  }

  lemma OneOfEach<T>(values: seq<T>, id: T -> string)
    requires Text.DistinctBy(values, id)
    ensures forall v, w :: v in values && w in values && id(v) == id(w) ==> v == w
  {
    forall v, w | v in values && w in values && id(v) == id(w)
      ensures v == w
    {
      var i :| 0 <= i < |values| && values[i] == v;
      var j :| 0 <= j < |values| && values[j] == w;
      assert i == j;
    }
  }

  /** A request is about its dependency, its consumer and one use. */
  ghost predicate IsRequestAbout(uris: Uris, catalog: Catalog, selection: Selection, p: Placement, d: Dependency,
                                 q: RequestBody) {
    && q.catalogDigest == DesiredState(catalog.(contexts := BlankContexts(catalog.contexts)))
    && q.placementDigest == PlacementContent(p) && q.selection == selection && q.environment == catalog.environment
    && q.contextId == d.contextId && q.key == d.key && q.kind == d.kind && q.id == d.id && q.subject == d.subject
    && q.generation == d.generation && q.scheme == uris.scheme(q.use.uri)
  }

  /** What a dependency of the closure says and asks. */
  lemma ClosureAsks(uris: Uris, catalog: Catalog, selection: Selection, p: Placement, d: Dependency)
    returns (c: Context, definition: Definition)
    requires IsAccepted(catalog) && SlashFree(catalog) && p in catalog.placements
             && d in Dependencies(uris, catalog, selection, p)
    ensures c in catalog.contexts && c.id == d.contextId && d.key == d.contextId + "/" + KindText(d.kind) + "/" + d.id
    ensures d.subject == Subject(d.kind, d.contextId, d.id, d.generation, definition, selection)
    ensures IsDefinitionOf(c, d.kind, d.id, definition) && IsGenerationOf(c, d.kind, d.id, d.generation)
    ensures forall q :: q in d.references ==>
              IsRequestAbout(uris, catalog, selection, p, d, q) && IsReferenceOf(c, d.kind, d.id, q.use)
    ensures forall u :: IsReferenceOf(c, d.kind, d.id, u) ==> exists q :: q in d.references && q.use == u
  {
    hide IsAccepted, SlashFree, Dependencies, Needs, HasShape, IsReferenceOf, IsDefinitionOf, IsGenerationOf, KindText;
    ClosureIsExact(uris, catalog, selection, p, d);
    var x :| Needs(catalog, p, x) && d == DependencyOf(uris, ConsumerOf(catalog, selection, p), x);
    c := NeedsShape(catalog, p, x);
    definition := x.definition;
    OneContext(catalog, c);
    forall a, b | a in c.bindings && b in c.bindings && a.spec.id == b.spec.id
      ensures a == b
    {
      OneBinding(catalog, c, a, b);
    }
    ShapeMeans(c, x);
    forall u | IsReferenceOf(c, d.kind, d.id, u)
      ensures exists q :: q in d.references && q.use == u
    {
      var k :| 0 <= k < |x.uses| && x.uses[k] == u;
      assert d.references[k] in d.references && d.references[k].use == u;
    }
    KeyTextOf(x.contextId, x.kind, x.id);
  }

  lemma KeyTextOf(contextId: string, kind: Kind, id: string)
    ensures KeyFor(contextId, kind, id) == contextId + "/" + KindText(kind) + "/" + id
  {
    hide KindText;
  }

  /** The kinds by their names. */
  lemma KindNames()
    ensures KindText(ContextKind) == "context" && KindText(RuntimeKind) == "runtime"
            && KindText(NetworkKind) == "network"
    ensures KindText(RegistryKind) == "registry" && KindText(IdentityKind) == "identity" && KindText(DnsKind) == "dns"
    ensures KindText(ObservabilityKind) == "observability" && KindText(BindingKind) == "resource-binding"
  {}
}
