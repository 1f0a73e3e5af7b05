/** Account creation in three lanes and the policy attachment quotas of an organisation (src/organization.ts). */
module Organization {
  import opened Wrappers

  datatype Account = Account(name: string, ou: string, create: bool)

  /** An account resource and the position of the one it depends on. */
  datatype Creation = Creation(name: string, ou: string, dependsOn: Option<nat>)

  /** The last but two of the accounts created so far. */
  function BoundedPredecessor(created: seq<Creation>): Option<nat> {
    if |created| >= 3 then Some(|created| - 3) else None
  }

  function Created(accounts: seq<Account>): seq<Account> {
    if accounts == [] then [] else
      Created(accounts[..|accounts| - 1]) + if accounts[|accounts| - 1].create then [accounts[|accounts| - 1]] else []
  }

  /** One creation per account to create, in order, each after the third before it. */
  ghost predicate InThreeLanes(accounts: seq<Account>, creations: seq<Creation>) {
    && |creations| == |accounts|
    && forall k :: 0 <= k < |creations| ==>
         && creations[k].name == accounts[k].name && creations[k].ou == accounts[k].ou
         && creations[k].dependsOn == if k >= 3 then Some(k - 3) else None
  }

  /** The account loop; fails exactly if an account to create is in an unknown unit. */
  method PlanAccounts(accounts: seq<Account>, units: set<string>) returns (result: Option<seq<Creation>>)
    ensures result.Some? <==> forall a :: a in accounts && a.create ==> a.ou in units
    ensures result.Some? ==> InThreeLanes(Created(accounts), result.value)
  {
    var lanes: seq<Creation> := [];
    for k := 0 to |accounts|
      invariant forall a :: a in accounts[..k] && a.create ==> a.ou in units
      invariant InThreeLanes(Created(accounts[..k]), lanes)
    {
      var account := accounts[k];
      assert accounts[..k + 1] == accounts[..k] + [account] && accounts[..k + 1][..k] == accounts[..k];
      assert account in accounts;
      if account.create {
        if account.ou !in units {
          return None;
        }
        var predecessor := BoundedPredecessor(lanes);
        lanes := lanes + [Creation(account.name, account.ou, predecessor)];
      }
    }
    assert accounts[..|accounts|] == accounts;
    result := Some(lanes);
  }

  // ---------------------------------------------------------------- schedules

  datatype Event = Start(k: nat) | Finish(k: nat)

  datatype Progress = Progress(started: set<nat>, finished: set<nat>)

  /** A creation starts once, after what it depends on has finished, and finishes once after it started. */
  predicate IsEnabled(creations: seq<Creation>, s: Progress, e: Event) {
    match e
    case Start(k) =>
      && k < |creations| && k !in s.started
      && (creations[k].dependsOn.Some? ==> creations[k].dependsOn.value in s.finished)
    case Finish(k) => k in s.started && k !in s.finished
  }

  function Step(s: Progress, e: Event): Progress {
    match e
    case Start(k) => Progress(s.started + {k}, s.finished)
    case Finish(k) => Progress(s.started, s.finished + {k})
  }

  ghost function After(events: seq<Event>): Progress {
    if events == [] then Progress({}, {}) else Step(After(events[..|events| - 1]), events[|events| - 1])
  }

  /** Any schedule that respects the dependencies, in whatever order the engine picks. */
  ghost predicate IsSchedule(creations: seq<Creation>, events: seq<Event>) {
    forall k :: 0 <= k < |events| ==> IsEnabled(creations, After(events[..k]), events[k])
  }

  /** What has started is preceded in its lane by finished creations only. */
  ghost predicate LanesInOrder(s: Progress, n: nat) {
    && s.finished <= s.started
    && (forall k :: k in s.started ==> k < n)
    && (forall k :: k in s.started && k >= 3 ==> k - 3 in s.finished)
  }

  lemma {:induction false} SchedulesKeepLanes(accounts: seq<Account>, creations: seq<Creation>, events: seq<Event>)
    requires InThreeLanes(accounts, creations) && IsSchedule(creations, events)
    ensures LanesInOrder(After(events), |creations|)
  {
    if events != [] {
      var n := |events| - 1;
      assert IsSchedule(creations, events[..n]) by {
        forall k | 0 <= k < n
          ensures IsEnabled(creations, After(events[..n][..k]), events[..n][k])
        {
          assert events[..n][..k] == events[..k];
        }
      }
      SchedulesKeepLanes(accounts, creations, events[..n]);
      assert IsEnabled(creations, After(events[..n]), events[n]);
    }
  }

  lemma {:induction false} EarlierInLaneIsFinished(s: Progress, n: nat, j: nat, k: nat)
    requires LanesInOrder(s, n) && k in s.started && j < k && j % 3 == k % 3
    ensures j in s.finished
    decreases k
  {
    assert k - 3 in s.finished;
    if j < k - 3 {
      EarlierInLaneIsFinished(s, n, j, k - 3);
    }
  }

  ghost function InFlight(s: Progress): set<nat> {
    s.started - s.finished
  }

  /** At most three creations are in flight at any point of any schedule. */
  lemma AtMostThreeInFlight(accounts: seq<Account>, creations: seq<Creation>, events: seq<Event>)
    requires InThreeLanes(accounts, creations) && IsSchedule(creations, events)
    ensures |InFlight(After(events))| <= 3
  {
    var s := After(events);
    SchedulesKeepLanes(accounts, creations, events);
    forall j, k | j in InFlight(s) && k in InFlight(s) && j % 3 == k % 3
      ensures j == k
    {
      if j < k {
        EarlierInLaneIsFinished(s, |creations|, j, k);
      } else if k < j {
        EarlierInLaneIsFinished(s, |creations|, k, j);
      }
    }
    OnePerLane(InFlight(s));
  }

  lemma OnePerLane(running: set<nat>)
    requires forall j, k :: j in running && k in running && j % 3 == k % 3 ==> j == k
    ensures |running| <= 3
  {
    var zero, one := set k | k in running && k % 3 == 0, set k | k in running && k % 3 == 1;
    var two := set k | k in running && k % 3 == 2;
    assert running == zero + one + two;
    AtMostOne(zero);
    AtMostOne(one);
    AtMostOne(two);
    assert |zero + one| <= |zero| + |one| && |zero + one + two| <= |zero + one| + |two|;
  }

  lemma AtMostOne(s: set<nat>)
    requires forall j, k :: j in s && k in s ==> j == k
    ensures |s| <= 1
  {
    if s != {} {
      var k :| k in s;
      assert s == {k};
    }
  }

  /** No schedule gets stuck: until every creation has finished, some event is enabled. */
  lemma NoScheduleIsStuck(accounts: seq<Account>, creations: seq<Creation>, events: seq<Event>)
    requires InThreeLanes(accounts, creations) && IsSchedule(creations, events)
    requires exists k :: 0 <= k < |creations| && k !in After(events).finished
    ensures exists e :: IsEnabled(creations, After(events), e)
  {
    var s := After(events);
    SchedulesKeepLanes(accounts, creations, events);
    var k := FirstUnfinished(s.finished, |creations|);
    if k in s.started {
      assert IsEnabled(creations, s, Finish(k));
    } else {
      assert IsEnabled(creations, s, Start(k));
    }
  }

  lemma {:induction false} FirstUnfinished(finished: set<nat>, n: nat) returns (k: nat)
    requires exists j :: 0 <= j < n && j !in finished
    ensures k < n && k !in finished && forall j :: 0 <= j < k ==> j in finished
  {
    if exists j :: 0 <= j < n - 1 && j !in finished {
      k := FirstUnfinished(finished, n - 1);
    } else {
      k := n - 1;
    }
  }

  /** The bound is reached: three creations can be in flight together. */
  lemma ThreeCanBeInFlight(accounts: seq<Account>, creations: seq<Creation>) returns (events: seq<Event>)
    requires InThreeLanes(accounts, creations) && |creations| >= 3
    ensures IsSchedule(creations, events) && |InFlight(After(events))| == 3
  {
    events := [Start(0), Start(1), Start(2)];
    assert events[..0] == [] && events[..1] == [Start(0)] && events[..2] == [Start(0), Start(1)];
    assert [Start(0)][..0] == [] && [Start(0), Start(1)][..1] == [Start(0)];
    assert After([Start(0)]) == Progress({0}, {});
    assert After([Start(0), Start(1)]) == Progress({0, 1}, {});
    assert After(events) == Progress({0, 1, 2}, {});
    assert InFlight(After(events)) == {0, 1, 2};
  }

  // ---------------------------------------------------------------- policy attachments

  datatype PolicyType = ServiceControl | S3

  datatype Attachment = Attachment(target: string, policyType: PolicyType)

  function Cap(p: PolicyType): nat {
    match p
    case ServiceControl => 5
    case S3 => 10
  }

  /** Service control policies leave room for the managed full-access policy. */
  function Reserve(p: PolicyType): nat {
    if p == ServiceControl then 1 else 0
  }

  /** The counts of the attachments, by target and type, within the quotas. */
  method AssertQuotas(attachments: seq<Attachment>) returns (ok: bool)
    ensures ok <==>
              forall a :: a in attachments ==>
                multiset(attachments)[a] <= if a.policyType == ServiceControl then 4 else 10
  {
    var counts: map<Attachment, nat> := map[];
    for k := 0 to |attachments|
      invariant forall a :: a in counts <==> a in attachments[..k]
      invariant forall a :: a in counts ==> counts[a] == multiset(attachments[..k])[a]
    {
      var a := attachments[k];
      assert attachments[..k + 1] == attachments[..k] + [a];
      assert a !in counts ==> multiset(attachments[..k])[a] == 0;
      counts := counts[a := (if a in counts then counts[a] else 0) + 1];
    }
    assert attachments[..|attachments|] == attachments;
    ok := forall a :: a in counts ==> counts[a] + Reserve(a.policyType) <= Cap(a.policyType);
  }

  function Guardrails(units: seq<string>): seq<Attachment> {
    seq(|units|, k requires 0 <= k < |units| => Attachment(units[k], ServiceControl))
  }

  /** What the seed guardrails attach. */
  function PlannedAttachments(units: seq<string>): seq<Attachment> {
    Guardrails(units) + [Attachment("Root", S3), Attachment("Suspended", ServiceControl)]
  }

  lemma {:induction false} GuardrailCount(units: seq<string>, target: string)
    ensures multiset(Guardrails(units))[Attachment(target, ServiceControl)] == multiset(units)[target]
    ensures multiset(Guardrails(units))[Attachment(target, S3)] == 0
  {
    if units != [] {
      var n := |units| - 1;
      GuardrailCount(units[..n], target);
      assert units == units[..n] + [units[n]];
      assert Guardrails(units) == Guardrails(units[..n]) + [Attachment(units[n], ServiceControl)];
    }
  }

  lemma PlanCount(units: seq<string>, target: string)
    ensures multiset(PlannedAttachments(units))[Attachment(target, ServiceControl)] ==
              multiset(units + ["Suspended"])[target]
    ensures multiset(PlannedAttachments(units))[Attachment(target, S3)] == if target == "Root" then 1 else 0
  {
    hide Guardrails;
    GuardrailCount(units, target);
  }

  /** The planned attachments are within the quotas exactly if no unit gets more than four policies. */
  lemma PlanWithinQuotas(units: seq<string>)
    ensures (forall a :: a in PlannedAttachments(units) ==>
               multiset(PlannedAttachments(units))[a] + Reserve(a.policyType) <= Cap(a.policyType))
            <==> forall unit :: multiset(units + ["Suspended"])[unit] <= 4
  {
    hide PlannedAttachments;
    var plan, all := multiset(PlannedAttachments(units)), multiset(units + ["Suspended"]);
    forall a | a in PlannedAttachments(units)
      ensures plan[a] + Reserve(a.policyType) <= Cap(a.policyType) <==> a.policyType == S3 || all[a.target] <= 4
    {
      PlanCount(units, a.target);
      assert a == Attachment(a.target, a.policyType);
    }
    forall unit | all[unit] > 4
      ensures Attachment(unit, ServiceControl) in PlannedAttachments(units)
    {
      PlanCount(units, unit);
      assert Attachment(unit, ServiceControl) in plan;
    }
  }

  /** Increasing positions that pick some accounts, and all those to create. */
  ghost predicate Picks(accounts: seq<Account>, positions: seq<nat>, picked: seq<Account>) {
    && |positions| == |picked| && (forall i, j :: 0 <= i < j < |positions| ==> positions[i] < positions[j])
    && (forall i :: 0 <= i < |positions| ==> positions[i] < |accounts| && accounts[positions[i]] == picked[i])
    && forall k: nat :: k in positions <==> k < |accounts| && accounts[k].create
  }

  /** The accounts to create are those marked so, in their order. */
  lemma {:induction false} CreatedMeans(accounts: seq<Account>) returns (positions: seq<nat>)
    ensures Picks(accounts, positions, Created(accounts))
  {
    if accounts == [] {
      positions := [];
    } else {
      var n := |accounts| - 1;
      positions := CreatedMeans(accounts[..n]);
      PicksOneMore(accounts, positions, Created(accounts[..n]));
      if accounts[n].create {
        positions := positions + [n];
      }
    }
  }

  lemma PicksOneMore(accounts: seq<Account>, positions: seq<nat>, picked: seq<Account>)
    requires accounts != [] && Picks(accounts[..|accounts| - 1], positions, picked)
    ensures var n := |accounts| - 1;
            if accounts[n].create then Picks(accounts, positions + [n], picked + [accounts[n]])
                else Picks(accounts, positions, picked)
  {
    var n := |accounts| - 1;
    assert forall k: nat :: k < n ==> accounts[..n][k] == accounts[k];
    assert forall k: nat :: k in positions ==> k < n;
    forall k: nat
      ensures k in positions + [n] <==> k in positions || k == n
    {
    }
  }

  /** At most four service control policies and ten S3 policies of ours per target. */
  lemma QuotasMean(p: PolicyType)
    ensures Cap(p) - Reserve(p) == match p case ServiceControl => 4 case S3 => 10
  {}
}
