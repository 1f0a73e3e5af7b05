/** The admission of a runtime deployment (src/core/runtimeDeploymentAdmission.ts). */
module RuntimeAdmission {
  import opened Wrappers
  import opened CloudContext
  import opened PlacementDependencies
  import opened ObservationEvidence
  import opened Timestamps
  import Text

  datatype AccessClass = RuntimeAccess | MigrationAccess | OtherAccess

  /** The readiness of one PostgreSQL binding, decided elsewhere; `detail` stands for its digests. */
  datatype PostgresDecision = PostgresDecision(
    bindingId: string, accessClass: AccessClass, evaluatedAt: Stamp, expiresAt: Stamp, detail: string)

  /**
   Which PostgreSQL decisions are authentic. Their times are timestamps of evidence, checked like those of the
   cloud-context evidence (src/core/postgresAccessObservation.ts:382-383, 892, 1202-1217).
   */
  type Authority = f: PostgresDecision -> bool | forall d :: f(d) ==> IsTime(d.evaluatedAt) && IsTime(d.expiresAt)
    witness _ => false

  datatype Resource = Resource(bindingId: string, detail: string)

  datatype Admission = Admission(cloud: Decision, resources: seq<Resource>, evaluatedAt: string, expiresAt: string)

  datatype AdmissionFailure =
    | Time | CloudUntrusted | PostgresUntrusted | FutureDecision | ExpiredDecision | CloudBindingMismatch
    | AccessClassDenied | DuplicateResource | ResourceSetMismatch

  function Identity(s: string): string { s }

  function SortedTexts(s: seq<string>): seq<string> {
    Text.Sort(s, Identity)
  }

  function BindingOf(d: PostgresDecision): string { d.bindingId }

  /** Both texts are canonical, and now is not before the first and before the second. */
  predicate TextsActive(evaluatedAt: string, expiresAt: string, now: Moment)
    requires IsCalendar(now)
  {
    && Canonical(evaluatedAt).Some? && Canonical(expiresAt).Some?
    && Epoch(Canonical(evaluatedAt).value) <= Epoch(now) < Epoch(Canonical(expiresAt).value)
  }

  /** Evaluated by then and not yet expired, and written with milliseconds. */
  predicate IsActive(evaluatedAt: Stamp, expiresAt: Stamp, now: Moment)
    requires IsCalendar(now)
  {
    evaluatedAt.milliseconds && expiresAt.milliseconds && evaluatedAt.instant <= Epoch(now) < expiresAt.instant
  }

  /**
   The activity check of a decision that is evaluated and unexpired passes exactly if both of its timestamps show their
   milliseconds; the verifier of evidence takes either form.
   */
  lemma ActiveTexts(evaluatedAt: Stamp, expiresAt: Stamp, now: Moment)
    requires IsTime(evaluatedAt) && IsTime(expiresAt) && IsCalendar(now)
    ensures TextsActive(StampText(evaluatedAt), StampText(expiresAt), now) <==> IsActive(evaluatedAt, expiresAt, now)
  {
    hide Epoch, Canonical, StampText, MomentOf;
    CanonicalStamp(evaluatedAt);
    CanonicalStamp(expiresAt);
    MomentIsExact(evaluatedAt.instant);
    MomentIsExact(expiresAt.instant);
  }

  /** Two inventories agree: both without repetition, and with the same members. */
  ghost predicate SameInventory(a: seq<string>, b: seq<string>) {
    Distinct(a) && Distinct(b) && forall x :: x in a <==> x in b
  }

  function PostgresBindings(postgres: seq<PostgresDecision>): seq<string> {
    seq(|postgres|, k requires 0 <= k < |postgres| => postgres[k].bindingId)
  }

  /** The deployments that are admitted. */
  ghost predicate IsAdmitted(cloud: Decision, authentic: set<Decision>, postgres: seq<PostgresDecision>,
                             isAuthentic: Authority, now: string)
  {
    && Canonical(now).Some? && cloud in authentic
    && var at := Canonical(now).value;
       && IsActive(cloud.evaluatedAt, cloud.expiresAt, at)
       && SameInventory(BindingIdsIn(cloud.dependencies), cloud.placement.bindingIds)
       && (forall d :: d in postgres ==> PostgresUsable(isAuthentic, at, d))
       && SameInventory(PostgresBindings(postgres), BindingIdsIn(cloud.dependencies))
  }

  predicate PostgresUsable(isAuthentic: Authority, now: Moment, d: PostgresDecision)
    requires IsCalendar(now)
  {
    isAuthentic(d) && IsActive(d.evaluatedAt, d.expiresAt, now) && d.accessClass.RuntimeAccess?
  }

  // ---------------------------------------------------------------- inventories

  lemma SortedInventory(s: seq<string>)
    ensures forall x :: x in SortedTexts(s) <==> x in s
    ensures Distinct(SortedTexts(s)) <==> Distinct(s)
    ensures Distinct(s) ==> Text.StrictlySorted(SortedTexts(s))
  {
    hide Text.Sort, Text.Less;
    Text.SortKeepsMembers(s, Identity);
    DistinctBySize(s);
    DistinctBySize(SortedTexts(s));
    assert (set x | x in SortedTexts(s)) == set x | x in s;
    if Distinct(s) {
      assert Text.DistinctBy(s, Identity);
      Text.SortIsStrict(s, Identity);
      var r := SortedTexts(s);
      forall i, j | 0 <= i < j < |r|
        ensures Text.Less(r[i], r[j])
      {
        assert Text.Less(Identity(r[i]), Identity(r[j]));
      }
    }
  }

  /** Sorted inventories without repetition are equal exactly when they have the same members. */
  lemma SameSortedInventory(a: seq<string>, b: seq<string>)
    ensures SameInventory(a, b) <==>
              Distinct(SortedTexts(a)) && Distinct(SortedTexts(b)) && SortedTexts(a) == SortedTexts(b)
  {
    hide SortedTexts, Text.StrictlySorted, Distinct;
    SortedInventory(a);
    SortedInventory(b);
    if SameInventory(a, b) {
      Text.SortedListingIsUnique(SortedTexts(a), SortedTexts(b));
    }
    if SortedTexts(a) == SortedTexts(b) {
      assert forall x :: x in SortedTexts(a) <==> x in SortedTexts(b);
    }
  }

  method AssertExactInventory(actual: seq<string>, expected: seq<string>) returns (ok: bool)
    ensures ok <==> Distinct(actual) && Distinct(expected) && actual == expected
  {
    var uniqueActual := AreUnique(actual);
    var uniqueExpected := AreUnique(expected);
    ok := uniqueActual && uniqueExpected && actual == expected;
  }

  /** The decision of a verified check passes the first inventory comparison of the admission. */
  lemma AuthenticInventoryMatches(w: World, c: Check, d: Decision)
    requires IsVerified(w, c) && IsDecisionOf(w, c, d) && SlashFree(c.catalog)
    ensures SameInventory(BindingIdsIn(d.dependencies), d.placement.bindingIds)
  {
    hide EvidenceWellFormed, TrustValid, ObservationsFit, LineageFits, DigestsAgree, Dependencies,
         ReferencesCanonical, SlashFree, ContextValid, PlacementValid, BindingValid, Distinct, Text.DistinctBy;
    var p := Selected(c.catalog, c.selection).value;
    ClosureBindings(w.uris, c.catalog, c.selection, p);
    UsedOnceInPlacement(c.catalog.placements, p);
  }

  lemma {:induction false} UsedOnceInPlacement(placements: seq<Placement>, p: Placement)
    requires Distinct(UsedIds(placements)) && p in placements
    ensures Distinct(p.bindingIds)
  {
    hide Distinct;
    var n := |placements| - 1;
    DistinctParts(UsedIds(placements[..n]), placements[n].bindingIds);
    assert placements == placements[..n] + [placements[n]];
    if p != placements[n] {
      UsedOnceInPlacement(placements[..n], p);
    }
  }

  // ---------------------------------------------------------------- the admission as written

  /** The expiries of all decisions. */
  function Expiries(cloud: Decision, postgres: seq<PostgresDecision>): seq<Stamp> {
    [cloud.expiresAt] + seq(|postgres|, k requires 0 <= k < |postgres| => postgres[k].expiresAt)
  }

  function Texts(stamps: seq<Stamp>): seq<string>
    requires forall s :: s in stamps ==> IsTime(s)
  {
    seq(|stamps|, k requires 0 <= k < |stamps| => StampText(stamps[k]))
  }

  /** The text of the earliest of some timestamps. */
  ghost predicate IsEarliest(text: string, stamps: seq<Stamp>) {
    exists first :: first in stamps && IsTime(first) && text == StampText(first) && forall s :: s in stamps ==>
      first.instant <= s.instant
  }

  lemma SortedIsNotEmpty(texts: seq<string>)
    requires texts != []
    ensures SortedTexts(texts) != [] && SortedTexts(texts)[0] in texts
    ensures forall t :: t in texts ==> !Text.Less(t, SortedTexts(texts)[0])
  {
    hide Text.Sort, Text.Less;
    Text.SortKeepsMembers(texts, Identity);
    var sorted := SortedTexts(texts);
    assert sorted[0] in sorted;
    Text.LessIsTotal(sorted[0], sorted[0]);
    forall t | t in texts
      ensures !Text.Less(t, sorted[0])
    {
      var k :| 0 <= k < |sorted| && sorted[k] == t;
      assert k > 0 ==> !Text.Less(Identity(sorted[k]), Identity(sorted[0]));
    }
  }

  method AssertActive(evaluatedAt: string, expiresAt: string, now: Moment) returns (failure: Option<AdmissionFailure>)
    requires IsCalendar(now)
    ensures failure.None? <==> TextsActive(evaluatedAt, expiresAt, now)
    ensures failure != Some(CloudBindingMismatch)
  {
    hide Epoch, Format, ReadMoment;
    var evaluated, expiry := Canonical(evaluatedAt), Canonical(expiresAt);
    if evaluated.None? || expiry.None? {
      return Some(Time);
    }
    if Epoch(evaluated.value) > Epoch(now) {
      return Some(FutureDecision);
    }
    if Epoch(expiry.value) <= Epoch(now) {
      return Some(ExpiredDecision);
    }
    failure := None;
  }

  /** The map of readiness decisions by binding; every decision must be usable and no binding may come twice. */
  method CollectPostgres(postgres: seq<PostgresDecision>, isAuthentic: Authority, now: Moment)
    returns (failure: Option<AdmissionFailure>, byBinding: map<string, PostgresDecision>)
    requires IsCalendar(now)
    ensures failure.None? <==>
            (forall d :: d in postgres ==> PostgresUsable(isAuthentic, now, d)) && Text.DistinctBy(postgres, BindingOf)
    ensures failure != Some(CloudBindingMismatch)
    ensures failure.None? ==>
              forall id :: id in byBinding ==> byBinding[id] in postgres && byBinding[id].bindingId == id
    ensures failure.None? ==> forall d :: d in postgres ==> d.bindingId in byBinding && byBinding[d.bindingId] == d
  {
    hide IsActive, TextsActive, StampText;
    byBinding := map[];
    for k := 0 to |postgres|
      invariant forall d :: d in postgres[..k] ==> PostgresUsable(isAuthentic, now, d)
      invariant Text.DistinctBy(postgres[..k], BindingOf)
      invariant forall id :: id in byBinding ==> byBinding[id] in postgres[..k] && byBinding[id].bindingId == id
      invariant forall d :: d in postgres[..k] ==> d.bindingId in byBinding && byBinding[d.bindingId] == d
    {
      var decision := postgres[k];
      assert decision in postgres && postgres[..k + 1] == postgres[..k] + [decision];
      if !isAuthentic(decision) {
        return Some(PostgresUntrusted), byBinding;
      }
      ActiveTexts(decision.evaluatedAt, decision.expiresAt, now);
      failure := AssertActive(StampText(decision.evaluatedAt), StampText(decision.expiresAt), now);
      if failure.Some? {
        return;
      }
      if decision.accessClass != RuntimeAccess {
        return Some(AccessClassDenied), byBinding;
      }
      if decision.bindingId in byBinding {
        ghost var j :| 0 <= j < k && postgres[j] == byBinding[decision.bindingId];
        assert BindingOf(postgres[j]) == BindingOf(postgres[k]);
        return Some(DuplicateResource), byBinding;
      }
      assert forall j :: 0 <= j < k ==> postgres[j] in postgres[..k];
      byBinding := byBinding[decision.bindingId := decision];
    }
    assert postgres[..|postgres|] == postgres;
    failure := None;
  }

  lemma DistinctBindings(postgres: seq<PostgresDecision>)
    ensures Text.DistinctBy(postgres, BindingOf) <==> Distinct(PostgresBindings(postgres))
  {
    var ids := PostgresBindings(postgres);
    forall i, j | 0 <= i < j < |postgres|
      ensures BindingOf(postgres[i]) == ids[i] && BindingOf(postgres[j]) == ids[j]
    {
    }
  }

  /** One resource per selected binding, in order, with what its readiness decision says. */
  ghost predicate ResourcesCover(resources: seq<Resource>, bindings: seq<string>, postgres: seq<PostgresDecision>) {
    && |resources| == |bindings|
    && forall k :: 0 <= k < |bindings| ==>
         resources[k].bindingId == bindings[k] && IsReadiness(resources[k], postgres)
  }

  ghost predicate IsReadiness(r: Resource, postgres: seq<PostgresDecision>) {
    exists d :: d in postgres && d.bindingId == r.bindingId && d.detail == r.detail
  }

  /**
   A deployment is admitted exactly if its decisions are authentic, active and cover its bindings, and then until the
   first of them expires, which is after now.
   */
  method Admit(ghost w: World, cloud: Decision, authentic: set<Decision>, postgres: seq<PostgresDecision>,
               isAuthentic: Authority, now: string)
    returns (result: Result<Admission, AdmissionFailure>)
    requires AllAuthentic(w, authentic)
    ensures result.Ok? <==> IsAdmitted(cloud, authentic, postgres, isAuthentic, now)
    ensures result.Ok? ==>
              && result.value.cloud == cloud && result.value.evaluatedAt == now
              && (forall s :: s in Expiries(cloud, postgres) ==> IsTime(s) && Epoch(Canonical(now).value) < s.instant)
              && IsEarliest(result.value.expiresAt, Expiries(cloud, postgres))
              && ResourcesCover(result.value.resources, SortedTexts(BindingIdsIn(cloud.dependencies)), postgres)
    ensures result == Err(CloudBindingMismatch) ==>
              !SameInventory(BindingIdsIn(cloud.dependencies), cloud.placement.bindingIds)
  {
    hide IsActive, SortedTexts, SameInventory, Distinct, BindingIdsIn, Text.DistinctBy, Canonical, TextsActive,
         StampText, Texts, IsEarliest, Expiries, IsAuthentic, Epoch;
    var at := Canonical(now);
    if at.None? {
      return Err(Time);
    }
    if cloud !in authentic {
      return Err(CloudUntrusted);
    }
    AuthenticTimes(w, cloud);
    ActiveTexts(cloud.evaluatedAt, cloud.expiresAt, at.value);
    var inactive := AssertActive(StampText(cloud.evaluatedAt), StampText(cloud.expiresAt), at.value);
    if inactive.Some? {
      return Err(inactive.value);
    }
    var bindings, listed := BindingIdsIn(cloud.dependencies), cloud.placement.bindingIds;
    var selected := SortedTexts(bindings);
    SameSortedInventory(bindings, listed);
    var ok := AssertExactInventory(selected, SortedTexts(listed));
    if !ok {
      return Err(CloudBindingMismatch);
    }
    var failure, byBinding := CollectPostgres(postgres, isAuthentic, at.value);
    DistinctBindings(postgres);
    if failure.Some? {
      DistinctNeeded(postgres, bindings);
      return Err(failure.value);
    }
    SameSortedInventory(PostgresBindings(postgres), bindings);
    ok := AssertExactInventory(SortedTexts(PostgresBindings(postgres)), selected);
    if !ok {
      return Err(ResourceSetMismatch);
    }
    var resources := BuildResources(postgres, bindings, byBinding);
    ActiveExpiries(cloud, postgres, isAuthentic, at.value);
    var expiries := Texts(Expiries(cloud, postgres));
    ExpiryIsEarliest(Expiries(cloud, postgres));
    result := Ok(Admission(cloud, resources, now, SortedTexts(expiries)[0]));
  }

  lemma DistinctNeeded(postgres: seq<PostgresDecision>, bindings: seq<string>)
    ensures SameInventory(PostgresBindings(postgres), bindings) ==> Distinct(PostgresBindings(postgres))
  {}

  method BuildResources(postgres: seq<PostgresDecision>, bindings: seq<string>,
                        byBinding: map<string, PostgresDecision>)
    returns (resources: seq<Resource>)
    requires SameInventory(PostgresBindings(postgres), bindings)
    requires forall id :: id in byBinding ==> byBinding[id] in postgres && byBinding[id].bindingId == id
    requires forall d :: d in postgres ==> d.bindingId in byBinding && byBinding[d.bindingId] == d
    ensures ResourcesCover(resources, SortedTexts(bindings), postgres)
  {
    hide SortedTexts, Distinct, Text.StrictlySorted;
    var selected := SortedTexts(bindings);
    SortedInventory(bindings);
    forall k | 0 <= k < |selected|
      ensures selected[k] in byBinding
    {
      assert selected[k] in selected;
      var j :| 0 <= j < |postgres| && PostgresBindings(postgres)[j] == selected[k];
      assert postgres[j] in postgres;
    }
    resources :=
      seq(|selected|, k requires 0 <= k < |selected| => Resource(selected[k], byBinding[selected[k]].detail));
    forall k | 0 <= k < |selected|
      ensures resources[k].bindingId == selected[k] && IsReadiness(resources[k], postgres)
    {
      assert resources[k] == Resource(selected[k], byBinding[selected[k]].detail);
      assert byBinding[selected[k]] in postgres;
    }
  }

  // ---------------------------------------------------------------- the expiry

  /** Every expiry of usable decisions is a timestamp with milliseconds, after now. */
  lemma ActiveExpiries(cloud: Decision, postgres: seq<PostgresDecision>, isAuthentic: Authority, now: Moment)
    requires IsCalendar(now) && IsTime(cloud.expiresAt) && IsActive(cloud.evaluatedAt, cloud.expiresAt, now)
    requires forall d :: d in postgres ==> PostgresUsable(isAuthentic, now, d)
    ensures Expiries(cloud, postgres) != []
    ensures forall s :: s in Expiries(cloud, postgres) ==> IsTime(s) && s.milliseconds && Epoch(now) < s.instant
  {
    hide Epoch, IsTime;
    var expiries := Expiries(cloud, postgres);
    forall s | s in expiries
      ensures IsTime(s) && s.milliseconds && Epoch(now) < s.instant
    {
      var k :| 0 <= k < |expiries| && expiries[k] == s;
      if k > 0 {
        assert PostgresUsable(isAuthentic, now, postgres[k - 1]);
      }
    }
  }

  /**
   The first of the sorted texts is the chronologically earliest timestamp: the order of the texts is that of time.
   */
  lemma ExpiryIsEarliest(stamps: seq<Stamp>)
    requires stamps != [] && forall s :: s in stamps ==> IsTime(s) && s.milliseconds
    ensures SortedTexts(Texts(stamps)) != [] && IsEarliest(SortedTexts(Texts(stamps))[0], stamps)
  {
    hide StampText, SortedTexts, Text.Less;
    var texts := Texts(stamps);
    SortedIsNotEmpty(texts);
    var text := SortedTexts(texts)[0];
    var k :| 0 <= k < |texts| && texts[k] == text;
    var first := stamps[k];
    forall s | s in stamps
      ensures first.instant <= s.instant
    {
      var i :| 0 <= i < |stamps| && stamps[i] == s;
      assert texts[i] in texts;
      StampOrder(s, first);
    }
  }

  // ---------------------------------------------------------------- the whole chain

  /**
   What an admission rests on: evidence that was verified no later than now and has not expired, and whose closure has
   exactly the bindings for which PostgreSQL is ready now.
   */
  lemma AdmissionRestsOnEvidence(w: World, cloud: Decision, authentic: set<Decision>, postgres: seq<PostgresDecision>,
                                 isAuthentic: Authority, now: string)
    returns (c: Check)
    requires AllAuthentic(w, authentic) && IsAdmitted(cloud, authentic, postgres, isAuthentic, now)
    ensures IsVerified(w, c) && IsDecisionOf(w, c, cloud)
    ensures c.now.instant <= Epoch(Canonical(now).value) < c.evidence.unsigned.expiresAt.instant
    ensures c.evidence.unsigned.issuedAt.instant <= Epoch(Canonical(now).value)
    ensures forall id :: id in BindingIdsIn(Closure(w, c.catalog, c.selection)) <==>
              exists d :: d in postgres && d.bindingId == id && PostgresUsable(isAuthentic, Canonical(now).value, d)
  {
    hide IsDerivable, Closure, EvidenceWellFormed, TrustValid, DigestsAgree, LineageFits, ObservationsFit, Epoch,
         Canonical, SelectionValid, BindingIdsIn;
    assert IsAuthentic(w, cloud);
    c :| IsVerified(w, c) && IsDecisionOf(w, c, cloud);
    var ids := PostgresBindings(postgres);
    forall id
      ensures id in ids <==> exists d :: d in postgres && d.bindingId == id
    {
      if d :| d in postgres && d.bindingId == id {
        var k :| 0 <= k < |postgres| && postgres[k] == d;
        assert ids[k] == id;
      }
      if id in ids {
        var k :| 0 <= k < |ids| && ids[k] == id;
        assert postgres[k] in postgres;
      }
    }
  }

  // ---------------------------------------------------------------- instances

  ghost function ExampleDecision(now: Stamp): Decision
    requires IsCreatable(ExampleWorld(), ExampleOrder())
    requires Selected(SmallCatalog(), ExampleOrder().selection).Some?
  {
    var c := ExampleCheck(now);
    Decision(c.selection, c.catalog.environment, Selected(c.catalog, c.selection).value,
             Closure(ExampleWorld(), c.catalog, c.selection), DesiredStateDigest(c.catalog), c.evidence,
             c.now, c.evidence.unsigned.expiresAt)
  }

  lemma ExampleIsAuthentic(now: Stamp)
    requires IsTime(now) && 0 <= now.instant < 60000
    ensures IsCreatable(ExampleWorld(), ExampleOrder()) && Selected(SmallCatalog(), ExampleOrder().selection).Some?
    ensures var d := ExampleDecision(now);
            && IsAuthentic(ExampleWorld(), d) && d.evaluatedAt == now && d.expiresAt == Stamp(60000, true)
            && SameInventory(BindingIdsIn(d.dependencies), d.placement.bindingIds) && d.placement.bindingIds == ["a"]
  {
    hide IsDerivable, Closure, ExampleResolver, IsVerified, IsCreatable, IsParsed, SameInventory, BindingIdsIn,
         SmallCatalog;
    ExampleRoundTrip(now);
    ExampleIsDerivable();
    var w, c, d := ExampleWorld(), ExampleCheck(now), ExampleDecision(now);
    assert IsVerified(w, c) && IsDecisionOf(w, c, d);
    SmallIsParsed();
    ParsedIsSlashFree(SmallCatalog());
    AuthenticInventoryMatches(w, c, d);
    SmallBindings();
  }

  lemma SmallBindings()
    ensures SmallCatalog().placements != [] && SmallCatalog().placements[0].bindingIds == ["a"]
  {}

  lemma OneReadyDatabase(cloud: Decision, ready: PostgresDecision, isAuthentic: Authority, now: Stamp)
    requires SameInventory(BindingIdsIn(cloud.dependencies), cloud.placement.bindingIds)
    requires cloud.placement.bindingIds == [ready.bindingId] && ready.accessClass == RuntimeAccess && isAuthentic(ready)
    requires cloud.evaluatedAt == ready.evaluatedAt == now && IsTime(now) && now.milliseconds
    requires cloud.expiresAt.milliseconds && ready.expiresAt.milliseconds
    requires now.instant < cloud.expiresAt.instant && now.instant < ready.expiresAt.instant
    ensures IsAdmitted(cloud, {cloud}, [ready], isAuthentic, StampText(now))
  {
    hide BindingIdsIn, StampText, Canonical, Epoch, MomentOf;
    CanonicalStamp(now);
    MomentIsExact(now.instant);
    assert PostgresBindings([ready]) == [ready.bindingId];
  }

  lemma EarlierOfTwo(cloud: Decision, ready: PostgresDecision)
    requires IsTime(cloud.expiresAt) && IsTime(ready.expiresAt) && ready.expiresAt.instant <= cloud.expiresAt.instant
    ensures IsEarliest(StampText(ready.expiresAt), Expiries(cloud, [ready]))
  {
    hide StampText;
    assert Expiries(cloud, [ready]) == [cloud.expiresAt, ready.expiresAt];
    assert ready.expiresAt in Expiries(cloud, [ready]);
  }

  /** Admitted at one time until another. */
  ghost predicate IsAdmittedFor(cloud: Decision, postgres: seq<PostgresDecision>, isAuthentic: Authority, now: Stamp,
                                end: Stamp) {
    && IsTime(now) && IsTime(end) && IsAdmitted(cloud, {cloud}, postgres, isAuthentic, StampText(now))
    && IsEarliest(StampText(end), Expiries(cloud, postgres))
  }

  /** One deployment that is admitted for the half minute for which its database is ready. */
  lemma ExampleIsAdmitted() returns (cloud: Decision, postgres: seq<PostgresDecision>, isAuthentic: Authority)
    ensures IsAuthentic(ExampleWorld(), cloud)
    ensures IsAdmittedFor(cloud, postgres, isAuthentic, EPOCH, Stamp(30000, true))
  {
    hide BindingIdsIn, StampText, Canonical, Epoch, ExampleDecision, IsCreatable, IsAuthentic, IsAdmitted, IsEarliest,
         Expiries, SameInventory, ExampleWorld, ExampleOrder;
    ExampleIsAuthentic(EPOCH);
    cloud := ExampleDecision(EPOCH);
    var ready := PostgresDecision("a", RuntimeAccess, EPOCH, Stamp(30000, true), "");
    postgres := [ready];
    isAuthentic := d => d == ready;
    OneReadyDatabase(cloud, ready, isAuthentic, EPOCH);
    EarlierOfTwo(cloud, ready);
  }

  /** Evidence verified at a timestamp without milliseconds is accepted, and its decision is never admitted. */
  lemma BriefTimeIsRefused() returns (c: Check, cloud: Decision)
    ensures Accepts(ExampleWorld(), c, {}) && IsDecisionOf(ExampleWorld(), c, cloud)
    ensures forall authentic, postgres, isAuthentic: Authority, now ::
              !IsAdmitted(cloud, authentic, postgres, isAuthentic, now)
  {
    hide Closure, IsVerified, IsCreatable, SmallCatalog, IsDerivable, ExampleResolver, Canonical, Epoch;
    var now := Stamp(0, false);
    ExampleRoundTrip(now);
    ExampleIsDerivable();
    c, cloud := ExampleCheck(now), ExampleDecision(now);
  }

  // ---------------------------------------------------------------- what an admission demands

  /** A ready database: authentic, for the runtime, evaluated by now and not expired, with timestamps in full. */
  ghost predicate IsReady(isAuthentic: Authority, now: int, d: PostgresDecision) {
    && isAuthentic(d) && d.accessClass == RuntimeAccess && d.evaluatedAt.instant <= now < d.expiresAt.instant
    && d.evaluatedAt.milliseconds && d.expiresAt.milliseconds
  }

  /** A recorded decision, in time, for exactly the bindings its placement lists, each with one ready database. */
  lemma AdmittedMeans(cloud: Decision, authentic: set<Decision>, postgres: seq<PostgresDecision>,
                      isAuthentic: Authority, now: string)
    ensures IsAdmitted(cloud, authentic, postgres, isAuthentic, now) <==>
              exists m :: Canonical(now) == Some(m)
                && cloud in authentic && cloud.evaluatedAt.instant <= Epoch(m) < cloud.expiresAt.instant
                && cloud.evaluatedAt.milliseconds && cloud.expiresAt.milliseconds
                && Distinct(cloud.placement.bindingIds) && Distinct(BindingIdsIn(cloud.dependencies))
                && (forall id :: id in cloud.placement.bindingIds <==> id in BindingIdsIn(cloud.dependencies))
                && (forall d :: d in postgres ==> IsReady(isAuthentic, Epoch(m), d))
                && (forall i, j :: 0 <= i < j < |postgres| ==> postgres[i].bindingId != postgres[j].bindingId)
                && forall id :: id in cloud.placement.bindingIds <==> exists d :: d in postgres && d.bindingId == id
  {
    hide Canonical, Epoch, BindingIdsIn;
    var ids := PostgresBindings(postgres);
    assert Distinct(ids) <==>
             forall i, j :: 0 <= i < j < |postgres| ==> postgres[i].bindingId != postgres[j].bindingId by {
      assert forall i :: 0 <= i < |postgres| ==> ids[i] == postgres[i].bindingId;
    }
    forall id
      ensures id in ids <==> exists d :: d in postgres && d.bindingId == id
    {
      if d :| d in postgres && d.bindingId == id {
        var k :| 0 <= k < |postgres| && postgres[k] == d;
        assert ids[k] == id;
      }
      if id in ids {
        var k :| 0 <= k < |ids| && ids[k] == id;
        assert postgres[k] in postgres;
      }
    }
  }
}
