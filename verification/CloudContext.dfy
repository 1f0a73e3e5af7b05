/** The catalogue of cloud contexts, resource bindings and placements (src/core/cloudContext.ts). */
module CloudContext {
  import opened Wrappers
  import Text

  datatype Environment = Development | Staging | Production

  datatype Phase = Planned | Ready | Degraded | Unavailable

  /** A text, and whether it has the format of its field: a timestamp or a reference. */
  datatype Formatted = Formatted(text: string, wellFormed: bool)

  datatype Status = Status(
    phase: Phase, generation: int, observedGeneration: int, verifiedAt: Option<Formatted>,
    evidenceRef: Option<Formatted>)

  datatype Trust = Trusted | SemiTrusted | Untrusted

  datatype Isolation = Process | Container | Microvm | DedicatedVm

  datatype CredentialMode = WorkloadIdentity | Brokered

  /** `detail` stands for the descriptive fields that no check and no reference uses. */
  datatype Runtime = Runtime(
    id: string, trust: Trust, isolation: Isolation, credentials: CredentialMode, reference: string, detail: string)

  datatype Network = Network(id: string, reference: string, detail: string)

  datatype Registry = Registry(id: string, reference: string, detail: string)

  datatype Dns = Dns(id: string, reference: string, detail: string)

  datatype Identity = Identity(id: string, administrator: bool, reference: string, detail: string)

  datatype Observability = Observability(
    id: string, auditRef: string, logsRef: string, metricsRef: string, tracesRef: string, detail: string)

  /** A managed PostgreSQL binding without its status. */
  datatype BindingSpec = BindingSpec(
    id: string, applicationId: string, componentId: string,
    runtimeBoundaryId: string, migrationBoundaryId: string, runtimeIdentityId: string, migrationIdentityId: string,
    providerResourceRef: string, endpointRef: string, caBundleRef: string,
    runtimeIdentityRef: string, migrationIdentityRef: string, detail: string)

  datatype Binding = Binding(spec: BindingSpec, status: Status)

  datatype Context = Context(
    id: string, environment: Environment, boundaryRef: string, detail: string,
    runtimes: seq<Runtime>, networks: seq<Network>, registries: seq<Registry>, dns: seq<Dns>,
    identities: seq<Identity>, observability: seq<Observability>, bindings: seq<Binding>, status: Status)

  datatype Delegated = Delegated(contextId: string, runtimeId: string)

  datatype Placement = Placement(
    applicationId: string, componentId: string, contextId: string, runtimeId: string, networkId: string,
    registryId: string, identityId: string, observabilityId: string,
    dnsIds: seq<string>, bindingIds: seq<string>, delegated: seq<Delegated>)

  datatype Catalog = Catalog(name: string, environment: Environment, contexts: seq<Context>, placements: seq<Placement>)

  function ContextId(c: Context): string { c.id }
  function RuntimeId(r: Runtime): string { r.id }
  function NetworkId(n: Network): string { n.id }
  function RegistryId(r: Registry): string { r.id }
  function DnsId(d: Dns): string { d.id }
  function IdentityId(i: Identity): string { i.id }
  function ObservabilityId(o: Observability): string { o.id }

  /** A binding together with the context that lists it. */
  datatype Placed = Placed(binding: Binding, contextId: string)

  function PlacedId(p: Placed): string { p.binding.spec.id }

  function PlacementKey(p: Placement): string { p.applicationId + "/" + p.componentId }

  // ---------------------------------------------------------------- lookups

  /** The first value with an identifier: `Array.prototype.find`. */
  function Find<T>(values: seq<T>, id: T -> string, wanted: string): (r: Option<T>)
    ensures r.Some? ==> r.value in values && id(r.value) == wanted
    ensures r.None? ==> forall v :: v in values ==> id(v) != wanted
  {
    if values == [] then None
    else if id(values[0]) == wanted then Some(values[0])
    else Find(values[1..], id, wanted)
  }

  /** Among distinct identifiers the lookup finds every value again. */
  lemma {:induction false} FindIsInverse<T>(values: seq<T>, id: T -> string, v: T)
    requires Text.DistinctBy(values, id) && v in values
    ensures Find(values, id, id(v)) == Some(v)
  {
    if values[0] != v {
      assert v in values[1..];
      var k :| 0 < k < |values| && values[k] == v;
      FindIsInverse(values[1..], id, v);
    }
  }

  /** The map of values by identifier, unless an identifier repeats. */
  method UniqueMap<T>(values: seq<T>, id: T -> string) returns (result: Option<map<string, T>>)
    ensures result.Some? <==> Text.DistinctBy(values, id)
    ensures result.Some? ==> forall key :: key in result.value <==> Find(values, id, key).Some?
    ensures result.Some? ==> forall key :: key in result.value ==> Find(values, id, key) == Some(result.value[key])
  {
    var byId: map<string, T> := map[];
    for k := 0 to |values|
      invariant Text.DistinctBy(values[..k], id)
      invariant forall key :: key in byId ==> byId[key] in values[..k] && id(byId[key]) == key
      invariant forall v :: v in values[..k] ==> id(v) in byId
    {
      var value := values[k];
      assert values[..k + 1] == values[..k] + [value];
      if id(value) in byId {
        assert byId[id(value)] in values[..k];
        return None;
      }
      byId := byId[id(value) := value];
    }
    assert values[..|values|] == values;
    forall key | key in byId
      ensures Find(values, id, key) == Some(byId[key])
    {
      FindIsInverse(values, id, byId[key]);
    }
    result := Some(byId);
  }

  // ---------------------------------------------------------------- contexts

  predicate IsSet(o: Option<Formatted>) {
    o.Some? && o.value.text != "" && o.value.wellFormed
  }

  predicate StatusValid(s: Status) {
    && 1 <= s.generation && 0 <= s.observedGeneration <= s.generation
    && if s.phase.Planned? then s.observedGeneration == 0 && s.verifiedAt.None? && s.evidenceRef.None?
       else s.observedGeneration >= 1 && IsSet(s.verifiedAt) && IsSet(s.evidenceRef)
  }

  predicate IsolatesStrongly(r: Runtime) {
    r.isolation.Microvm? || r.isolation.DedicatedVm?
  }

  predicate RuntimeSafe(r: Runtime) {
    r.trust.Untrusted? ==> r.credentials.Brokered? && IsolatesStrongly(r)
  }

  predicate BindingValid(b: Binding) {
    && StatusValid(b.status)
    && b.spec.runtimeIdentityId != b.spec.migrationIdentityId
    && b.spec.runtimeBoundaryId != b.spec.migrationBoundaryId
  }

  ghost predicate CapabilitiesDistinct(c: Context) {
    && Text.DistinctBy(c.runtimes, RuntimeId) && Text.DistinctBy(c.networks, NetworkId)
    && Text.DistinctBy(c.registries, RegistryId) && Text.DistinctBy(c.dns, DnsId)
    && Text.DistinctBy(c.identities, IdentityId) && Text.DistinctBy(c.observability, ObservabilityId)
  }

  ghost predicate ContextValid(c: Context, environment: Environment) {
    && c.environment == environment && StatusValid(c.status)
    && c.runtimes != [] && c.networks != [] && c.registries != [] && c.dns != [] && c.identities != []
    && c.observability != []
    && CapabilitiesDistinct(c)
    && forall r :: r in c.runtimes ==> RuntimeSafe(r)
  }

  function Tagged(contextId: string, bindings: seq<Binding>): seq<Placed> {
    seq(|bindings|, k requires 0 <= k < |bindings| => Placed(bindings[k], contextId))
  }

  /** All bindings in catalogue order. */
  function AllPlaced(contexts: seq<Context>): seq<Placed> {
    if contexts == [] then [] else
      AllPlaced(contexts[..|contexts| - 1]) + Tagged(contexts[|contexts| - 1].id, contexts[|contexts| - 1].bindings)
  }

  lemma {:induction false} PlacedMembers(contexts: seq<Context>, p: Placed)
    ensures p in AllPlaced(contexts) <==> exists c :: c in contexts && p.binding in c.bindings && p.contextId == c.id
  {
    if contexts != [] {
      var n := |contexts| - 1;
      var last := contexts[n];
      PlacedMembers(contexts[..n], p);
      assert contexts == contexts[..n] + [last];
      var tagged := Tagged(last.id, last.bindings);
      if p.binding in last.bindings && p.contextId == last.id {
        var k :| 0 <= k < |last.bindings| && last.bindings[k] == p.binding;
        assert tagged[k] == p;
      }
      assert p in tagged <==> p.binding in last.bindings && p.contextId == last.id;
    }
  }

  // ---------------------------------------------------------------- placements

  predicate OwnsBinding(placed: seq<Placed>, p: Placement, bindingId: string) {
    exists b :: b in placed && PlacedId(b) == bindingId
      && b.binding.spec.applicationId == p.applicationId && b.binding.spec.componentId == p.componentId
      && b.contextId == p.contextId
  }

  predicate DelegationSafe(contexts: seq<Context>, d: Delegated) {
    var context := Find(contexts, ContextId, d.contextId);
    && context.Some?
    && var runtime := Find(context.value.runtimes, RuntimeId, d.runtimeId);
       runtime.Some? && runtime.value.trust.Untrusted? && runtime.value.credentials.Brokered?
       && IsolatesStrongly(runtime.value)
  }

  predicate CapabilitiesKnown(c: Context, p: Placement) {
    && Find(c.runtimes, RuntimeId, p.runtimeId).Some? && Find(c.networks, NetworkId, p.networkId).Some?
    && Find(c.registries, RegistryId, p.registryId).Some? && Find(c.identities, IdentityId, p.identityId).Some?
    && Find(c.observability, ObservabilityId, p.observabilityId).Some?
    && forall d :: d in p.dnsIds ==> Find(c.dns, DnsId, d).Some?
  }

  predicate PlacementValid(contexts: seq<Context>, placed: seq<Placed>, p: Placement) {
    var context := Find(contexts, ContextId, p.contextId);
    && context.Some? && CapabilitiesKnown(context.value, p)
    && !Find(context.value.runtimes, RuntimeId, p.runtimeId).value.trust.Untrusted?
    && !Find(context.value.identities, IdentityId, p.identityId).value.administrator
    && (forall b :: b in p.bindingIds ==> OwnsBinding(placed, p, b))
    && (forall d :: d in p.delegated ==> DelegationSafe(contexts, d))
  }

  /** The binding identifiers of all placements, in order. */
  function UsedIds(placements: seq<Placement>): seq<string> {
    if placements == [] then [] else UsedIds(placements[..|placements| - 1]) + placements[|placements| - 1].bindingIds
  }

  /** The catalogues the assertion lets through. */
  ghost predicate IsAccepted(catalog: Catalog) {
    var placed, used := AllPlaced(catalog.contexts), UsedIds(catalog.placements);
    && catalog.contexts != [] && Text.DistinctBy(catalog.contexts, ContextId)
    && (forall c :: c in catalog.contexts ==> ContextValid(c, catalog.environment))
    && Text.DistinctBy(placed, PlacedId) && (forall b :: b in placed ==> BindingValid(b.binding))
    && Text.DistinctBy(catalog.placements, PlacementKey)
    && (forall p :: p in catalog.placements ==> PlacementValid(catalog.contexts, placed, p))
    && Distinct(used)
    && forall b :: b in placed ==> PlacedId(b) in used
  }

  // ---------------------------------------------------------------- the assertion as written

  method CheckContext(c: Context, environment: Environment) returns (ok: bool)
    ensures ok <==> ContextValid(c, environment)
  {
    if c.environment != environment || !StatusValid(c.status) {
      return false;
    }
    if c.runtimes == [] || c.networks == [] || c.registries == [] || c.dns == [] || c.identities == []
        || c.observability == [] {
      return false;
    }
    var runtimes := UniqueMap(c.runtimes, RuntimeId);
    var networks := UniqueMap(c.networks, NetworkId);
    var registries := UniqueMap(c.registries, RegistryId);
    var dns := UniqueMap(c.dns, DnsId);
    var identities := UniqueMap(c.identities, IdentityId);
    var observability := UniqueMap(c.observability, ObservabilityId);
    if runtimes.None? || networks.None? || registries.None? || dns.None? || identities.None? || observability.None? {
      return false;
    }
    ok := forall r :: r in c.runtimes ==> RuntimeSafe(r);
  }

  /** The two maps of the assertion hold exactly the bindings seen so far, each valid and with its own identifier. */
  ghost predicate HoldsBindings(placed: seq<Placed>, all: map<string, Binding>, contextOf: map<string, string>) {
    && Text.DistinctBy(placed, PlacedId) && (forall b :: b in placed ==> BindingValid(b.binding))
    && all.Keys == contextOf.Keys
    && (forall id :: id in all ==> Placed(all[id], contextOf[id]) in placed && all[id].spec.id == id)
    && (forall b :: b in placed ==> PlacedId(b) in all)
  }

  lemma OneMoreBinding(placed: seq<Placed>, all: map<string, Binding>, contextOf: map<string, string>, p: Placed)
    requires HoldsBindings(placed, all, contextOf)
    ensures PlacedId(p) in all || !BindingValid(p.binding) ==>
              !(Text.DistinctBy(placed + [p], PlacedId) && forall b :: b in placed + [p] ==> BindingValid(b.binding))
    ensures PlacedId(p) !in all && BindingValid(p.binding) ==>
              HoldsBindings(placed + [p], all[PlacedId(p) := p.binding], contextOf[PlacedId(p) := p.contextId])
  {
    hide BindingValid, Text.DistinctBy;
    Text.DistinctByOneMore(placed, PlacedId, p);
    assert forall b :: b in placed + [p] <==> b in placed || b == p;
  }

  /** The bindings of one context, after those of the contexts before it. */
  method AddBindings(c: Context, allIn: map<string, Binding>, contextOfIn: map<string, string>,
                     ghost placed: seq<Placed>)
    returns (ok: bool, all: map<string, Binding>, contextOf: map<string, string>)
    requires HoldsBindings(placed, allIn, contextOfIn)
    ensures ok ==> HoldsBindings(placed + Tagged(c.id, c.bindings), all, contextOf)
    ensures !ok ==> !BindingsFine(placed + Tagged(c.id, c.bindings))
  {
    hide HoldsBindings, BindingValid;
    all, contextOf := allIn, contextOfIn;
    ghost var tagged := Tagged(c.id, c.bindings);
    assert placed + tagged[..0] == placed;
    for k := 0 to |c.bindings|
      invariant HoldsBindings(placed + tagged[..k], all, contextOf)
    {
      var binding := c.bindings[k];
      OneMoreBinding(placed + tagged[..k], all, contextOf, Placed(binding, c.id));
      assert placed + tagged[..k + 1] == placed + tagged[..k] + [Placed(binding, c.id)];
      assert placed + tagged == placed + tagged[..k + 1] + tagged[k + 1..];
      if binding.spec.id in all || !BindingValid(binding) {
        FineStaysFine(placed + tagged[..k + 1], tagged[k + 1..]);
        return false, all, contextOf;
      }
      all := all[binding.spec.id := binding];
      contextOf := contextOf[binding.spec.id := c.id];
    }
    assert tagged[..|c.bindings|] == tagged;
    ok := true;
  }

  ghost predicate BindingsFine(placed: seq<Placed>) {
    Text.DistinctBy(placed, PlacedId) && forall b :: b in placed ==> BindingValid(b.binding)
  }

  lemma FineStaysFine(placed: seq<Placed>, more: seq<Placed>)
    ensures BindingsFine(placed + more) ==> BindingsFine(placed)
  {
    hide BindingValid;
    var all := placed + more;
    assert forall k :: 0 <= k < |placed| ==> all[k] == placed[k];
    assert forall b :: b in placed ==> b in all;
  }

  lemma {:induction false} PlacedGrows(contexts: seq<Context>, n: nat)
    requires n <= |contexts|
    ensures exists more :: AllPlaced(contexts) == AllPlaced(contexts[..n]) + more
    decreases |contexts|
  {
    if n == |contexts| {
      assert contexts[..n] == contexts;
      assert AllPlaced(contexts) == AllPlaced(contexts[..n]) + [];
    } else {
      var last := |contexts| - 1;
      PlacedGrows(contexts[..last], n);
      assert contexts[..last][..n] == contexts[..n];
      var more :| AllPlaced(contexts[..last]) == AllPlaced(contexts[..n]) + more;
      assert AllPlaced(contexts) ==
               AllPlaced(contexts[..n]) + (more + Tagged(contexts[last].id, contexts[last].bindings));
    }
  }

  /** The loop over the contexts. */
  method CheckContexts(contexts: seq<Context>, environment: Environment)
    returns (ok: bool, all: map<string, Binding>, contextOf: map<string, string>)
    ensures ok <==> (forall c :: c in contexts ==> ContextValid(c, environment)) && BindingsFine(AllPlaced(contexts))
    ensures ok ==> HoldsBindings(AllPlaced(contexts), all, contextOf)
  {
    hide HoldsBindings, ContextValid;
    all, contextOf := map[], map[];
    NothingHeld();
    for k := 0 to |contexts|
      invariant forall c :: c in contexts[..k] ==> ContextValid(c, environment)
      invariant HoldsBindings(AllPlaced(contexts[..k]), all, contextOf)
    {
      var context := contexts[k];
      assert contexts[..k + 1] == contexts[..k] + [context] && contexts[..k + 1][..k] == contexts[..k];
      var valid := CheckContext(context, environment);
      if !valid {
        assert context in contexts;
        return false, all, contextOf;
      }
      ok, all, contextOf := AddBindings(context, all, contextOf, AllPlaced(contexts[..k]));
      if !ok {
        PlacedGrows(contexts, k + 1);
        ghost var more :| AllPlaced(contexts) == AllPlaced(contexts[..k + 1]) + more;
        FineStaysFine(AllPlaced(contexts[..k + 1]), more);
        return false, all, contextOf;
      }
    }
    assert contexts[..|contexts|] == contexts;
    HeldIsFine(AllPlaced(contexts), all, contextOf);
    ok := true;
  }

  lemma NothingHeld()
    ensures HoldsBindings([], map[], map[])
  {}

  lemma HeldIsFine(placed: seq<Placed>, all: map<string, Binding>, contextOf: map<string, string>)
    requires HoldsBindings(placed, all, contextOf)
    ensures BindingsFine(placed)
  {}

  lemma DistinctParts<T>(a: seq<T>, b: seq<T>)
    ensures Distinct(a + b) <==> Distinct(a) && Distinct(b) && forall x :: x in b ==> x !in a
  {
    if Distinct(a) && Distinct(b) && forall x :: x in b ==> x !in a {
      forall i, j | 0 <= i < j < |a + b|
        ensures (a + b)[i] != (a + b)[j]
      {
        if i < |a| <= j {
          assert (a + b)[i] in a && b[j - |a|] in b;
        } else if |a| <= i {
          assert b[i - |a|] != b[j - |a|];
        }
      }
    }
    if Distinct(a + b) {
      DistinctPartsOnly(a, b);
    }
  }

  lemma DistinctPartsOnly<T>(a: seq<T>, b: seq<T>)
    requires Distinct(a + b)
    ensures Distinct(a) && Distinct(b) && forall x :: x in b ==> x !in a
  {
    var all := a + b;
    forall i, j | 0 <= i < j < |a|
      ensures a[i] != a[j]
    {
      assert all[i] != all[j];
    }
    forall i, j | 0 <= i < j < |b|
      ensures b[i] != b[j]
    {
      assert all[|a| + i] != all[|a| + j];
    }
    forall i, j | 0 <= i < |a| && 0 <= j < |b|
      ensures a[i] != b[j]
    {
      assert all[i] != all[|a| + j];
    }
  }

  lemma OwnedByMaps(placed: seq<Placed>, all: map<string, Binding>, contextOf: map<string, string>, p: Placement,
                    id: string)
    requires HoldsBindings(placed, all, contextOf)
    ensures OwnsBinding(placed, p, id) <==>
            && id in all && all[id].spec.applicationId == p.applicationId && all[id].spec.componentId == p.componentId
            && contextOf[id] == p.contextId
  {
    hide BindingValid;
    if OwnsBinding(placed, p, id) {
      var b :| b in placed && PlacedId(b) == id
               && b.binding.spec.applicationId == p.applicationId && b.binding.spec.componentId == p.componentId
               && b.contextId == p.contextId;
      var i :| 0 <= i < |placed| && placed[i] == b;
      var j :| 0 <= j < |placed| && placed[j] == Placed(all[id], contextOf[id]);
      assert i == j;
    }
  }

  /** The bindings of one placement: known, owned, in its context, and not used before. */
  method ConsumeBindings(p: Placement, all: map<string, Binding>, contextOf: map<string, string>, usedIn: set<string>,
                         ghost placed: seq<Placed>)
    returns (ok: bool, used: set<string>)
    requires HoldsBindings(placed, all, contextOf)
    ensures ok <==>
              (forall b :: b in p.bindingIds ==> OwnsBinding(placed, p, b) && b !in usedIn) && Distinct(p.bindingIds)
    ensures ok ==> used == usedIn + set b | b in p.bindingIds
  {
    hide HoldsBindings, OwnsBinding;
    used := usedIn;
    for k := 0 to |p.bindingIds|
      invariant forall b :: b in p.bindingIds[..k] ==> OwnsBinding(placed, p, b) && b !in usedIn
      invariant Distinct(p.bindingIds[..k])
      invariant used == usedIn + set b | b in p.bindingIds[..k]
    {
      var id := p.bindingIds[k];
      assert p.bindingIds[..k + 1] == p.bindingIds[..k] + [id];
      assert id in p.bindingIds;
      HeldTogether(placed, all, contextOf);
      OwnedByMaps(placed, all, contextOf, p, id);
      DistinctParts(p.bindingIds[..k + 1], p.bindingIds[k + 1..]);
      assert p.bindingIds == p.bindingIds[..k + 1] + p.bindingIds[k + 1..];
      if id !in all || all[id].spec.applicationId != p.applicationId || all[id].spec.componentId != p.componentId {
        return false, used;
      }
      if contextOf[id] != p.contextId {
        return false, used;
      }
      if id in used {
        return false, used;
      }
      used := used + {id};
    }
    assert p.bindingIds[..|p.bindingIds|] == p.bindingIds;
    ok := true;
  }

  lemma HeldTogether(placed: seq<Placed>, all: map<string, Binding>, contextOf: map<string, string>)
    requires HoldsBindings(placed, all, contextOf)
    ensures all.Keys == contextOf.Keys
  {}

  method CheckPlacement(contexts: seq<Context>, byId: map<string, Context>, p: Placement,
                        all: map<string, Binding>, contextOf: map<string, string>, usedIn: set<string>,
                        ghost placed: seq<Placed>)
    returns (ok: bool, used: set<string>)
    requires HoldsBindings(placed, all, contextOf)
    requires forall key :: key in byId <==> Find(contexts, ContextId, key).Some?
    requires forall key :: key in byId ==> Find(contexts, ContextId, key) == Some(byId[key])
    ensures ok <==> && PlacementValid(contexts, placed, p) && Distinct(p.bindingIds)
                    && (forall b :: b in p.bindingIds ==> b !in usedIn)
    ensures ok ==> used == usedIn + set b | b in p.bindingIds
  {
    hide HoldsBindings, OwnsBinding, DelegationSafe, Distinct;
    used := usedIn;
    if p.contextId !in byId {
      return false, used;
    }
    var context := byId[p.contextId];
    if !CapabilitiesKnown(context, p) {
      return false, used;
    }
    ok, used := ConsumeBindings(p, all, contextOf, usedIn, placed);
    if !ok {
      return;
    }
    if exists d :: d in p.delegated && !DelegationSafe(contexts, d) {
      return false, used;
    }
    var runtime := Find(context.runtimes, RuntimeId, p.runtimeId);
    var identity := Find(context.identities, IdentityId, p.identityId);
    ok := !runtime.value.trust.Untrusted? && !identity.value.administrator;
  }

  /** The loop over the placements. */
  method CheckPlacements(contexts: seq<Context>, byId: map<string, Context>, placements: seq<Placement>,
                         all: map<string, Binding>, contextOf: map<string, string>, ghost placed: seq<Placed>)
    returns (ok: bool, used: set<string>)
    requires HoldsBindings(placed, all, contextOf)
    requires forall key :: key in byId <==> Find(contexts, ContextId, key).Some?
    requires forall key :: key in byId ==> Find(contexts, ContextId, key) == Some(byId[key])
    ensures ok <==> && Text.DistinctBy(placements, PlacementKey) && Distinct(UsedIds(placements))
                    && (forall p :: p in placements ==> PlacementValid(contexts, placed, p))
    ensures ok ==> used == set b | b in UsedIds(placements)
  {
    hide HoldsBindings, PlacementValid, Distinct, PlacementKey, Find, UsedIds;
    var keys: set<string> := {};
    used := {};
    NothingUsed();
    for k := 0 to |placements|
      invariant Text.DistinctBy(placements[..k], PlacementKey)
      invariant forall key :: key in keys <==> exists j :: 0 <= j < k && PlacementKey(placements[j]) == key
      invariant forall p :: p in placements[..k] ==> PlacementValid(contexts, placed, p)
      invariant Distinct(UsedIds(placements[..k])) && used == set b | b in UsedIds(placements[..k])
    {
      var placement := placements[k];
      assert placement in placements;
      assert placements[..k + 1] == placements[..k] + [placement] && placements[..k + 1][..k] == placements[..k];
      DistinctParts(UsedIds(placements[..k]), placement.bindingIds);
      UsedGrows(placements, k + 1);
      UsedStep(placements, k);
      if PlacementKey(placement) in keys {
        return false, used;
      }
      keys := keys + {PlacementKey(placement)};
      ok, used := CheckPlacement(contexts, byId, placement, all, contextOf, used, placed);
      if !ok {
        return;
      }
    }
    assert placements[..|placements|] == placements;
    ok := true;
  }

  lemma NothingUsed()
    ensures UsedIds([]) == [] && Distinct(UsedIds([]))
  {}

  lemma UsedStep(placements: seq<Placement>, k: nat)
    requires k < |placements|
    ensures UsedIds(placements[..k + 1]) == UsedIds(placements[..k]) + placements[k].bindingIds
  {
    assert placements[..k + 1][..k] == placements[..k];
  }

  lemma DistinctNothing<T>()
    ensures Distinct<T>([])
  {}

  lemma {:induction false} UsedGrows(placements: seq<Placement>, n: nat)
    requires n <= |placements|
    ensures Distinct(UsedIds(placements)) ==> Distinct(UsedIds(placements[..n]))
  {
    hide Distinct;
    if n == |placements| {
      assert placements[..n] == placements;
    } else {
      var last := |placements| - 1;
      UsedGrows(placements[..last], n);
      assert placements[..last][..n] == placements[..n];
      DistinctParts(UsedIds(placements[..last]), placements[last].bindingIds);
    }
  }

  /** The assertion lets through exactly the accepted catalogues. */
  method AssertCatalog(catalog: Catalog) returns (ok: bool)
    ensures ok <==> IsAccepted(catalog)
  {
    hide ContextValid, PlacementValid, HoldsBindings, Distinct, BindingValid;
    if |catalog.contexts| == 0 {
      return false;
    }
    var byId := UniqueMap(catalog.contexts, ContextId);
    if byId.None? {
      return false;
    }
    var all, contextOf;
    ok, all, contextOf := CheckContexts(catalog.contexts, catalog.environment);
    if !ok {
      return;
    }
    ghost var placed := AllPlaced(catalog.contexts);
    var used;
    ok, used := CheckPlacements(catalog.contexts, byId.value, catalog.placements, all, contextOf, placed);
    if !ok {
      return;
    }
    AllUsed(catalog, all, contextOf, used);
    ok := |used| == |all|;
  }

  /** Every used identifier is a binding, so comparing the sizes tells whether every binding is used. */
  lemma AllUsed(catalog: Catalog, all: map<string, Binding>, contextOf: map<string, string>, used: set<string>)
    requires HoldsBindings(AllPlaced(catalog.contexts), all, contextOf)
    requires used == set b | b in UsedIds(catalog.placements)
    requires forall p :: p in catalog.placements ==> PlacementValid(catalog.contexts, AllPlaced(catalog.contexts), p)
    ensures |used| == |all| <==>
              forall b :: b in AllPlaced(catalog.contexts) ==> PlacedId(b) in UsedIds(catalog.placements)
  {
    hide PlacementValid, HoldsBindings, PlacedId;
    var placed := AllPlaced(catalog.contexts);
    forall id | id in used
      ensures id in all
    {
      UsedMembers(catalog.placements, id);
      var p :| p in catalog.placements && id in p.bindingIds;
      UsedIsHeld(catalog.contexts, placed, p, id, all, contextOf);
    }
    KeysAreIds(placed, all, contextOf);
    assert |all| == |all.Keys|;
    assert (forall b :: b in placed ==> PlacedId(b) in used) ==> all.Keys <= used;
    if |used| == |all| {
      SubsetOfSameSize(used, all.Keys);
    }
    if all.Keys <= used {
      assert all.Keys == used;
    }
  }

  lemma UsedIsHeld(contexts: seq<Context>, placed: seq<Placed>, p: Placement, id: string,
                   all: map<string, Binding>, contextOf: map<string, string>)
    requires HoldsBindings(placed, all, contextOf) && PlacementValid(contexts, placed, p) && id in p.bindingIds
    ensures id in all
  {
    hide HoldsBindings, OwnsBinding, CapabilitiesKnown, DelegationSafe;
    OwnedByMaps(placed, all, contextOf, p, id);
  }

  lemma KeysAreIds(placed: seq<Placed>, all: map<string, Binding>, contextOf: map<string, string>)
    requires HoldsBindings(placed, all, contextOf)
    ensures forall b :: b in placed ==> PlacedId(b) in all
    ensures forall id :: id in all ==> exists b :: b in placed && PlacedId(b) == id
  {
    hide BindingValid;
    forall id | id in all
      ensures exists b :: b in placed && PlacedId(b) == id
    {
      assert PlacedId(Placed(all[id], contextOf[id])) == id;
    }
  }

  lemma {:induction false} UsedMembers(placements: seq<Placement>, id: string)
    ensures id in UsedIds(placements) <==> exists p :: p in placements && id in p.bindingIds
  {
    if placements != [] {
      var n := |placements| - 1;
      UsedMembers(placements[..n], id);
      assert placements == placements[..n] + [placements[n]];
    }
  }

  // ---------------------------------------------------------------- what acceptance means for the bindings

  /** A placement position consumes a binding identifier. */
  ghost predicate Consumes(placements: seq<Placement>, i: int, k: int, id: string) {
    0 <= i < |placements| && 0 <= k < |placements[i].bindingIds| && placements[i].bindingIds[k] == id
  }

  lemma WhereConsumed(placements: seq<Placement>, i: int, k: int, id: string)
    requires Consumes(placements, i, k, id)
    ensures var n := |placements| - 1;
            && (i < n ==> Consumes(placements[..n], i, k, id) && id in UsedIds(placements[..n]))
            && (i == n ==> id in placements[n].bindingIds)
  {
    var n := |placements| - 1;
    if i < n {
      assert placements[..n][i] == placements[i];
      assert placements[..n][i].bindingIds[k] in placements[..n][i].bindingIds;
      UsedMembers(placements[..n], id);
    }
  }

  lemma {:induction false} ConsumedOnce(placements: seq<Placement>, i: int, k: int, j: int, l: int, id: string)
    requires Distinct(UsedIds(placements))
    requires Consumes(placements, i, k, id) && Consumes(placements, j, l, id)
    ensures i == j && k == l
  {
    hide Distinct;
    var n := |placements| - 1;
    DistinctParts(UsedIds(placements[..n]), placements[n].bindingIds);
    WhereConsumed(placements, i, k, id);
    WhereConsumed(placements, j, l, id);
    if i == n && j == n {
      DistinctPositions(placements[n].bindingIds, k, l);
    } else if i < n && j < n {
      ConsumedOnce(placements[..n], i, k, j, l, id);
    }
  }

  lemma DistinctPositions<T>(s: seq<T>, i: nat, j: nat)
    requires Distinct(s) && i < |s| && j < |s| && s[i] == s[j]
    ensures i == j
  {}

  /**
   Every binding of an accepted catalogue is consumed at exactly one position of exactly one placement: that of its
   owner, in the context that lists the binding.
   */
  lemma BindingHasOneOwner(catalog: Catalog, c: Context, b: Binding)
    requires IsAccepted(catalog) && c in catalog.contexts && b in c.bindings
    ensures exists i, k :: Consumes(catalog.placements, i, k, b.spec.id)
    ensures forall i, k, j, l ::
              Consumes(catalog.placements, i, k, b.spec.id) && Consumes(catalog.placements, j, l, b.spec.id) ==>
              i == j && k == l
    ensures forall i, k :: Consumes(catalog.placements, i, k, b.spec.id) ==>
              var p := catalog.placements[i];
              && p.applicationId == b.spec.applicationId && p.componentId == b.spec.componentId && p.contextId == c.id
  {
    hide ContextValid, BindingValid, Distinct, Text.DistinctBy, CapabilitiesKnown, DelegationSafe, OwnsBinding;
    var placed := AllPlaced(catalog.contexts);
    var tagged := Placed(b, c.id);
    PlacedMembers(catalog.contexts, tagged);
    UsedMembers(catalog.placements, b.spec.id);
    var p :| p in catalog.placements && b.spec.id in p.bindingIds;
    var i :| 0 <= i < |catalog.placements| && catalog.placements[i] == p;
    var k :| 0 <= k < |p.bindingIds| && p.bindingIds[k] == b.spec.id;
    assert Consumes(catalog.placements, i, k, b.spec.id);
    forall i, k, j, l | Consumes(catalog.placements, i, k, b.spec.id) && Consumes(catalog.placements, j, l, b.spec.id)
      ensures i == j && k == l
    {
      ConsumedOnce(catalog.placements, i, k, j, l, b.spec.id);
    }
    forall i, k | Consumes(catalog.placements, i, k, b.spec.id)
      ensures var p := catalog.placements[i];
              && p.applicationId == b.spec.applicationId && p.componentId == b.spec.componentId && p.contextId == c.id
    {
      var q := catalog.placements[i];
      assert q in catalog.placements && b.spec.id in q.bindingIds;
      OwnerIsThatOf(placed, q, tagged);
    }
  }

  /** Only one binding has an identifier, so owning the identifier is owning that binding. */
  lemma OwnerIsThatOf(placed: seq<Placed>, p: Placement, b: Placed)
    requires Text.DistinctBy(placed, PlacedId) && b in placed && OwnsBinding(placed, p, PlacedId(b))
    ensures p.applicationId == b.binding.spec.applicationId && p.componentId == b.binding.spec.componentId
    ensures p.contextId == b.contextId
  {
    var o :| o in placed && PlacedId(o) == PlacedId(b)
             && o.binding.spec.applicationId == p.applicationId && o.binding.spec.componentId == p.componentId
             && o.contextId == p.contextId;
    var i :| 0 <= i < |placed| && placed[i] == o;
    var j :| 0 <= j < |placed| && placed[j] == b;
    assert i == j;
  }

  // ---------------------------------------------------------------- an instance

  /** One context with one capability of each kind and one binding, and the placement that owns it. */
  function SmallCatalog(): Catalog {
    var status := Status(Ready, 1, 1, Some(Formatted("2026-01-01T00:00:00Z", true)), Some(Formatted("s://e", true)));
    var spec := BindingSpec("a", "a", "a", "a", "b", "a", "b", "s://a", "s://b", "s://c", "s://d", "s://e", "");
    var context := Context(
      "a", Production, "s://a", "",
      [Runtime("a", Trusted, Container, WorkloadIdentity, "s://a", "")], [Network("a", "s://a", "")],
      [Registry("a", "s://a", "")], [Dns("a", "s://a", "")], [Identity("a", false, "s://a", "")],
      [Observability("a", "s://a", "s://b", "s://c", "s://d", "")], [Binding(spec, status)], status);
    Catalog("small", Production, [context], [Placement("a", "a", "a", "a", "a", "a", "a", "a", ["a"], ["a"], [])])
  }

  lemma SmallPlaced()
    ensures var context := SmallCatalog().contexts[0];
            AllPlaced(SmallCatalog().contexts) == [Placed(context.bindings[0], "a")]
            && UsedIds(SmallCatalog().placements) == ["a"]
  {
    var catalog := SmallCatalog();
    assert catalog.contexts[..0] == [] && catalog.placements[..0] == [];
    assert AllPlaced([]) == [] && UsedIds([]) == [];
  }

  lemma SmallContextIsValid()
    ensures ContextValid(SmallCatalog().contexts[0], Production) && BindingValid(SmallCatalog().contexts[0].bindings[0])
  {}

  lemma SmallPlacementIsValid()
    ensures PlacementValid(SmallCatalog().contexts, AllPlaced(SmallCatalog().contexts), SmallCatalog().placements[0])
  {
    hide AllPlaced;
    SmallPlaced();
    var placed := AllPlaced(SmallCatalog().contexts);
    assert placed[0] in placed;
    assert OwnsBinding(placed, SmallCatalog().placements[0], "a");
  }

  lemma SmallCatalogIsAccepted()
    ensures IsAccepted(SmallCatalog())
  {
    hide ContextValid, PlacementValid, BindingValid, AllPlaced, UsedIds;
    SmallPlaced();
    SmallContextIsValid();
    SmallPlacementIsValid();
  }

  // ---------------------------------------------------------------- what an accepted catalogue is

  /** A planned status claims nothing; any other has been observed and says when and by what evidence. */
  ghost predicate IsStatus(s: Status) {
    && 1 <= s.generation && 0 <= s.observedGeneration <= s.generation
    && if s.phase == Planned then
         s.observedGeneration == 0 && s.verifiedAt == None && s.evidenceRef == None
       else
         && s.observedGeneration > 0
         && (exists t :: s.verifiedAt == Some(t) && t.text != "" && t.wellFormed)
         && exists r :: s.evidenceRef == Some(r) && r.text != "" && r.wellFormed
  }

  /** Customer code runs without credentials of its own, in a virtual machine. */
  ghost predicate IsForUntrusted(r: Runtime) {
    r.credentials == Brokered && (r.isolation == Microvm || r.isolation == DedicatedVm)
  }

  /** The context a placement or a delegation names. */
  ghost predicate IsContextOf(catalog: Catalog, id: string, c: Context) {
    c in catalog.contexts && c.id == id
  }

  /** Everything a placement names is in its context, its runtime and identity are fit, and its bindings are its own. */
  ghost predicate IsPlaceable(catalog: Catalog, p: Placement) {
    exists c :: IsContextOf(catalog, p.contextId, c)
      && (exists r :: r in c.runtimes && r.id == p.runtimeId && r.trust != Untrusted)
      && (exists n :: n in c.networks && n.id == p.networkId) && (exists r :: r in c.registries && r.id == p.registryId)
      && (exists i :: i in c.identities && i.id == p.identityId && !i.administrator)
      && (exists o :: o in c.observability && o.id == p.observabilityId)
      && (forall d :: d in p.dnsIds ==> exists z :: z in c.dns && z.id == d)
      && (forall b :: b in p.bindingIds ==> IsOwnBinding(c, p, b))
      && forall g :: g in p.delegated ==> IsSafeDelegation(catalog, g)
  }

  /** A binding of the context that belongs to the placement's component. */
  ghost predicate IsOwnBinding(c: Context, p: Placement, id: string) {
    exists v :: && v in c.bindings && v.spec.id == id
                && v.spec.applicationId == p.applicationId && v.spec.componentId == p.componentId
  }

  /** A delegated runtime is one for untrusted code. */
  ghost predicate IsSafeDelegation(catalog: Catalog, g: Delegated) {
    exists c, r :: IsContextOf(catalog, g.contextId, c) && r in c.runtimes && r.id == g.runtimeId
      && r.trust == Untrusted && IsForUntrusted(r)
  }

  lemma StatusMeans(s: Status)
    ensures StatusValid(s) <==> IsStatus(s)
  {}

  lemma RuntimeMeans(r: Runtime)
    ensures RuntimeSafe(r) <==> (r.trust == Untrusted ==> IsForUntrusted(r))
  {}

  lemma FoundById<T>(values: seq<T>, id: T -> string, wanted: string)
    requires Text.DistinctBy(values, id)
    ensures forall v :: v in values && id(v) == wanted ==> Find(values, id, wanted) == Some(v)
  {
    forall v | v in values && id(v) == wanted
      ensures Find(values, id, wanted) == Some(v)
    {
      FindIsInverse(values, id, v);
    }
  }

  lemma ContextById(catalog: Catalog, id: string)
    requires Text.DistinctBy(catalog.contexts, ContextId)
    ensures forall c :: IsContextOf(catalog, id, c) <==> Find(catalog.contexts, ContextId, id) == Some(c)
  {
    FoundById(catalog.contexts, ContextId, id);
  }

  lemma DelegationMeans(catalog: Catalog, g: Delegated)
    requires Text.DistinctBy(catalog.contexts, ContextId)
    requires forall c :: c in catalog.contexts ==> Text.DistinctBy(c.runtimes, RuntimeId)
    ensures DelegationSafe(catalog.contexts, g) <==> IsSafeDelegation(catalog, g)
  {
    hide Find, Text.DistinctBy;
    ContextById(catalog, g.contextId);
    var found := Find(catalog.contexts, ContextId, g.contextId);
    if found.Some? {
      FoundById(found.value.runtimes, RuntimeId, g.runtimeId);
    }
  }

  lemma BindingsMean(catalog: Catalog, p: Placement, c: Context, id: string)
    requires Text.DistinctBy(catalog.contexts, ContextId) && IsContextOf(catalog, p.contextId, c)
    ensures OwnsBinding(AllPlaced(catalog.contexts), p, id) <==> IsOwnBinding(c, p, id)
  {
    hide Find, Text.DistinctBy, AllPlaced;
    ContextById(catalog, p.contextId);
    var placed := AllPlaced(catalog.contexts);
    if b :| b in placed && PlacedId(b) == id && b.binding.spec.applicationId == p.applicationId
            && b.binding.spec.componentId == p.componentId && b.contextId == p.contextId {
      PlacedMembers(catalog.contexts, b);
      var d :| d in catalog.contexts && b.binding in d.bindings && b.contextId == d.id;
      assert IsContextOf(catalog, p.contextId, d);
    }
    if v :| v in c.bindings && v.spec.id == id && v.spec.applicationId == p.applicationId
            && v.spec.componentId == p.componentId {
      PlacedMembers(catalog.contexts, Placed(v, c.id));
      assert Placed(v, c.id) in placed;
    }
  }

  lemma CapabilitiesMean(c: Context, p: Placement)
    requires CapabilitiesDistinct(c)
    ensures && CapabilitiesKnown(c, p) && !Find(c.runtimes, RuntimeId, p.runtimeId).value.trust.Untrusted?
            && !Find(c.identities, IdentityId, p.identityId).value.administrator
            <==>
            && (exists r :: r in c.runtimes && r.id == p.runtimeId && r.trust != Untrusted)
            && (exists n :: n in c.networks && n.id == p.networkId)
            && (exists r :: r in c.registries && r.id == p.registryId)
            && (exists i :: i in c.identities && i.id == p.identityId && !i.administrator)
            && (exists o :: o in c.observability && o.id == p.observabilityId)
            && (forall d :: d in p.dnsIds ==> exists z :: z in c.dns && z.id == d)
  {
    hide Find, Text.DistinctBy;
    FoundById(c.runtimes, RuntimeId, p.runtimeId);
    FoundById(c.identities, IdentityId, p.identityId);
  }

  lemma PlacementMeans(catalog: Catalog, p: Placement)
    requires Text.DistinctBy(catalog.contexts, ContextId)
    requires forall c :: c in catalog.contexts ==> CapabilitiesDistinct(c)
    ensures PlacementValid(catalog.contexts, AllPlaced(catalog.contexts), p) <==> IsPlaceable(catalog, p)
  {
    hide Find, Text.DistinctBy, AllPlaced, CapabilitiesKnown, OwnsBinding, DelegationSafe, IsSafeDelegation;
    ContextById(catalog, p.contextId);
    forall g
      ensures DelegationSafe(catalog.contexts, g) <==> IsSafeDelegation(catalog, g)
    {
      DelegationMeans(catalog, g);
    }
    var found := Find(catalog.contexts, ContextId, p.contextId);
    if found.Some? {
      CapabilitiesMean(found.value, p);
      assert IsContextOf(catalog, p.contextId, found.value);
      forall id
        ensures OwnsBinding(AllPlaced(catalog.contexts), p, id) <==> IsOwnBinding(found.value, p, id)
      {
        BindingsMean(catalog, p, found.value, id);
      }
    }
  }

  /** The catalogues that are accepted, in terms of their parts. */
  lemma AcceptedMeans(catalog: Catalog)
    requires Text.DistinctBy(catalog.contexts, ContextId)
    requires forall c :: c in catalog.contexts ==> CapabilitiesDistinct(c)
    ensures IsAccepted(catalog) <==>
              && catalog.contexts != []
              && (forall c :: c in catalog.contexts ==>
                    && c.environment == catalog.environment && IsStatus(c.status)
                    && c.runtimes != [] && c.networks != [] && c.registries != [] && c.dns != [] && c.identities != []
                    && c.observability != []
                    && forall r :: r in c.runtimes ==> r.trust == Untrusted ==> IsForUntrusted(r))
              && Text.DistinctBy(AllPlaced(catalog.contexts), PlacedId)
              && (forall c, b :: c in catalog.contexts && b in c.bindings ==>
                    && IsStatus(b.status) && b.spec.runtimeIdentityId != b.spec.migrationIdentityId
                    && b.spec.runtimeBoundaryId != b.spec.migrationBoundaryId)
              && (forall p :: p in catalog.placements ==> IsPlaceable(catalog, p))
              && Text.DistinctBy(catalog.placements, PlacementKey) && Distinct(UsedIds(catalog.placements))
              && forall c, b :: c in catalog.contexts && b in c.bindings ==>
                   exists p :: p in catalog.placements && b.spec.id in p.bindingIds
  {
    hide PlacementValid, IsPlaceable, StatusValid, IsStatus, RuntimeSafe, IsForUntrusted, Text.DistinctBy, Distinct,
         AllPlaced;
    forall s
      ensures StatusValid(s) <==> IsStatus(s)
    {
      StatusMeans(s);
    }
    forall r
      ensures RuntimeSafe(r) <==> (r.trust == Untrusted ==> IsForUntrusted(r))
    {
      RuntimeMeans(r);
    }
    forall p
      ensures PlacementValid(catalog.contexts, AllPlaced(catalog.contexts), p) <==> IsPlaceable(catalog, p)
    {
      PlacementMeans(catalog, p);
    }
    forall b
      ensures b in AllPlaced(catalog.contexts) <==>
                exists c :: c in catalog.contexts && b.binding in c.bindings && b.contextId == c.id
      ensures PlacedId(b) in UsedIds(catalog.placements) <==>
                exists p :: p in catalog.placements && b.binding.spec.id in p.bindingIds
    {
      PlacedMembers(catalog.contexts, b);
      UsedMembers(catalog.placements, b.binding.spec.id);
    }
    forall c, b | c in catalog.contexts && b in c.bindings
      ensures Placed(b, c.id) in AllPlaced(catalog.contexts)
    {
    }
  }
}
