/** What holds after reconciling a repository resource, and what it depends on. */
module RepositoryConvergence {
  import opened Text
  import opened RepositorySpecs
  import opened GarbageCollection
  import opened CronJobNames
  import opened KeyOrder
  import opened RepositoryReconciler

  // ---- Ready means converged ----

  /** The CronJob is the derived one, controlled by the resource; labels of others may stand beside the operator's. */
  predicate JobMatches(w: World, r: Repository, p: Policy) {
    var k := JobKey(r);
    && k in w.cronJobs
    && w.cronJobs[k].spec == Derived(r, p) && w.cronJobs[k].controller == Owner(r)
    && (forall l :: l in GcLabels(r, p) ==> l in w.cronJobs[k].labels && w.cronJobs[k].labels[l] == GcLabels(r, p)[l])
  }

  /** The lakeFS repository a resource stands for: its endpoint without slashes at the end, and the name given or its own. */
  predicate StandsFor(r: Repository, t: Target) {
    t.repository == (if r.spec.repository != "" then r.spec.repository else r.name) &&
    t.server <= r.spec.endpoint && (forall i :: |t.server| <= i < |r.spec.endpoint| ==> r.spec.endpoint[i] == '/') &&
    (t.server != "" ==> t.server[|t.server| - 1] != '/')
  }

  lemma HomeStands(r: Repository)
    ensures StandsFor(r, Home(r))
  {
    TrimRightCuts(r.spec.endpoint, Slash);
  }

  /** The policy a resource selects: in its namespace, the one named or the default one. */
  predicate SelectsPolicy(r: Repository, k: Key) {
    k.namespace == r.namespace && k.name == if r.spec.policy != "" then r.spec.policy else "default"
  }

  /** The CronJob runs the policy's collection for the repository and belongs to the resource; foreign labels may stand there. */
  ghost predicate JobFollows(j: CronJob, r: Repository, p: Policy) {
    SpecFollows(j.spec, r, p) && j.controller == Some(("LakeFSRepository", r.name)) &&
    exists own :: LabelsFollow(own, r, p) && forall l :: l in own ==> l in j.labels && j.labels[l] == own[l]
  }

  /** lakeFS and the cluster are as asked, for this repository in lakeFS and this policy. */
  ghost predicate ConvergedAt(w: World, r: Repository, t: Target, k: Key) {
    t in w.lakes &&
    if r.spec.gcEnabled == Some(false) then Key(r.namespace, GcCronJobName(r.name)) !in w.cronJobs
    else
      k in w.policies && w.lakes[t].rules.Some? && RulesFollow(w.lakes[t].rules.value, w.policies[k]) &&
      Key(r.namespace, GcCronJobName(r.name)) in w.cronJobs &&
      JobFollows(w.cronJobs[Key(r.namespace, GcCronJobName(r.name))], r, w.policies[k])
  }

  /**
   lakeFS and the cluster are as the resource and its policy ask, field by field: the lakeFS repository exists; if
   collection is off there is no CronJob; otherwise the selected policy is stored, lakeFS has its rules, and the CronJob
   runs it.
  */
  ghost predicate Converged(w: World, r: Repository) {
    exists t, k :: StandsFor(r, t) && SelectsPolicy(r, k) && ConvergedAt(w, r, t, k)
  }

  lemma MatchFollows(w: World, r: Repository, p: Policy)
    requires JobMatches(w, r, p)
    ensures JobKey(r) in w.cronJobs && JobFollows(w.cronJobs[JobKey(r)], r, p)
  {
    DerivedFollows(r, p);
    LabelsDo(r, p);
  }

  lemma RulesDo(p: Policy)
    ensures RulesFollow(RulesOf(p), p)
  {
  }

  /** With collection on, what converging takes in terms of the derived rules and CronJob. */
  lemma ConvergedOn(w: World, r: Repository, p: Policy)
    requires GCEnabled(r.spec) && Home(r) in w.lakes && PolicyKey(r) in w.policies && w.policies[PolicyKey(r)] == p
    requires w.lakes[Home(r)].rules == Some(RulesOf(p)) && JobMatches(w, r, p)
    ensures Converged(w, r)
  {
    HomeStands(r);
    RulesDo(p);
    MatchFollows(w, r, p);
    assert ConvergedAt(w, r, Home(r), PolicyKey(r));
    assert SelectsPolicy(r, PolicyKey(r));
  }

  lemma OnlyFalseDisables(r: Repository)
    ensures GCEnabled(r.spec) <==> r.spec.gcEnabled != Some(false)
  {
    match r.spec.gcEnabled
    case None =>
    case Some(enabled) => assert enabled || !enabled;
  }

  lemma ConvergedOff(w: World, r: Repository)
    requires !GCEnabled(r.spec) && Home(r) in w.lakes && JobKey(r) !in w.cronJobs
    ensures Converged(w, r)
  {
    HomeStands(r);
    OnlyFalseDisables(r);
    assert ConvergedAt(w, r, Home(r), PolicyKey(r));
    assert SelectsPolicy(r, PolicyKey(r));
  }

  lemma EnsuredLakeExists(w: World, r: Repository, f: Fates)
    requires EnsureLake(w, r, f).ok
    ensures Home(r) in EnsureLake(w, r, f).world.lakes
  {
  }

  predicate SameResources(v: World, w: World) { v.repositories == w.repositories && v.secrets == w.secrets }

  lemma LakeFrame(w: World, r: Repository, f: Fates)
    ensures var v := EnsureLake(w, r, f).world; v == w.(lakes := v.lakes, calls := v.calls)
  {
  }

  lemma SelectFrame(w: World, r: Repository, f: Fates)
    ensures var a := SelectPolicy(w, r, f);
            a.world == w.(policies := a.world.policies) &&
            (a.policy.Some? ==> PolicyKey(r) in a.world.policies && a.world.policies[PolicyKey(r)] == a.policy.value)
  {
  }

  lemma RulesFrame(w: World, t: Target, rules: Rules, f: Fates)
    ensures var a := SetRules(w, t, rules, f);
            a.world == w.(lakes := a.world.lakes, calls := a.world.calls) && a.world.lakes.Keys == w.lakes.Keys &&
            (a.ok ==> t in a.world.lakes && a.world.lakes[t].rules == Some(rules))
  {
  }

  lemma MergedMatches(w: World, r: Repository, p: Policy)
    ensures JobMatches(w.(cronJobs := w.cronJobs[JobKey(r) := MergedJob(w, r, p)]), r, p)
  {
  }

  lemma JobFrame(w: World, r: Repository, p: Policy, f: Fates)
    ensures var a := WriteJob(w, r, p, f);
            a.world == w.(cronJobs := a.world.cronJobs) && (a.ok ==> JobMatches(a.world, r, p))
  {
    MergedMatches(w, r, p);
  }

  lemma ApplyConverges(w: World, r: Repository, p: Policy, f: Fates)
    ensures var a := ApplyPolicy(w, r, p, f);
            SameResources(a.world, w) && a.world.policies == w.policies && a.world.lakes.Keys == w.lakes.Keys &&
            (a.ready ==> Home(r) in a.world.lakes && a.world.lakes[Home(r)].rules == Some(RulesOf(p)) && JobMatches(a.world, r, p))
  {
    RulesFrame(w, Home(r), RulesOf(p), f);
    JobFrame(SetRules(w, Home(r), RulesOf(p), f).world, r, p, f);
  }

  lemma ManagedConverges(w: World, r: Repository, f: Fates)
    requires Home(r) in w.lakes && Manage(w, r, f).ready
    ensures Converged(Manage(w, r, f).world, r)
  {
    if GCEnabled(r.spec) {
      SelectFrame(w, r, f);
      var selected := SelectPolicy(w, r, f);
      ApplyConverges(selected.world, r, selected.policy.value, f);
      ConvergedOn(Manage(w, r, f).world, r, selected.policy.value);
    } else {
      ConvergedOff(Manage(w, r, f).world, r);
    }
  }

  lemma ReadyIsManaged(w: World, r: Repository, f: Fates)
    requires EnsureRepository(w, r, f).ready
    ensures EnsureLake(w, r, f).ok && EnsureRepository(w, r, f) == Manage(EnsureLake(w, r, f).world, r, f)
  {
  }

  lemma ReadyIsNoFailure(w: World, r: Repository, f: Fates)
    requires Manage(w, r, f).ready
    ensures !Manage(w, r, f).failed
  {
  }

  /** When ensuring a repository reports Ready, whatever else failed on other calls, everything is as asked. */
  lemma ReadyMeansConverged(w: World, r: Repository, f: Fates)
    requires EnsureRepository(w, r, f).ready
    ensures Converged(EnsureRepository(w, r, f).world, r)
    ensures !EnsureRepository(w, r, f).failed
  {
    ReadyIsManaged(w, r, f);
    EnsuredLakeExists(w, r, f);
    ManagedConverges(EnsureLake(w, r, f).world, r, f);
    ReadyIsNoFailure(EnsureLake(w, r, f).world, r, f);
  }

  // ---- A second run changes nothing ----

  /** The world without the resources themselves and the record of calls. */
  function Quiet(w: World): World { w.(calls := [], repositories := map[]) }

  /** All that ensuring a repository reads or writes is the same. */
  predicate SameState(v: World, w: World) { Quiet(v) == Quiet(w) }

  /** Two versions of a resource that ask for the same. */
  predicate SameSpec(r: Repository, s: Repository) {
    r.namespace == s.namespace && r.name == s.name && r.spec == s.spec
  }

  lemma EnsureLakeAgain(w: World, r: Repository)
    requires Home(r) in w.lakes
    ensures var a := EnsureLake(w, r, ALL_WELL); a.ok && SameState(a.world, w)
  {
  }

  lemma RulesAgain(w: World, t: Target, rules: Rules)
    requires t in w.lakes && w.lakes[t].rules == Some(rules)
    ensures var a := SetRules(w, t, rules, ALL_WELL); a.ok && SameState(a.world, w)
  {
    assert w.lakes[t := w.lakes[t].(rules := Some(rules))] == w.lakes;
  }

  /** The CronJob is what writing it makes of it. */
  lemma JobAgain(w: World, r: Repository, p: Policy)
    ensures var once := WriteJob(w, r, p, ALL_WELL);
            var twice := WriteJob(once.world, r, p, ALL_WELL);
            twice.ok == once.ok && twice.world == once.world
  {
    if CredentialsNamespace(r.namespace, r.spec) == r.namespace && !JobTaken(w, r) {
      var k, job := JobKey(r), MergedJob(w, r, p);
      var once := w.(cronJobs := w.cronJobs[k := job]);
      assert job.labels + GcLabels(r, p) == job.labels;
      assert MergedJob(once, r, p) == job;
      assert once.cronJobs[k := job] == once.cronJobs;
    }
  }

  lemma ApplyAgain(w: World, r: Repository, p: Policy)
    requires Home(r) in w.lakes
    ensures var once := ApplyPolicy(w, r, p, ALL_WELL);
            var twice := ApplyPolicy(once.world, r, p, ALL_WELL);
            SameState(twice.world, once.world) && twice.ready == once.ready
  {
    var t, rules := Home(r), RulesOf(p);
    var first := SetRules(w, t, rules, ALL_WELL).world;
    RulesFrame(w, t, rules, ALL_WELL);
    JobFrame(first, r, p, ALL_WELL);
    var once := WriteJob(first, r, p, ALL_WELL).world;
    RulesAgain(once, t, rules);
    var second := SetRules(once, t, rules, ALL_WELL).world;
    WriteJobDepends(second, once, r, r, p, ALL_WELL);
    JobAgain(first, r, p);
  }

  lemma SelectAgain(w: World, v: World, r: Repository)
    requires SelectPolicy(w, r, ALL_WELL).policy.Some? && v.policies == SelectPolicy(w, r, ALL_WELL).world.policies
    ensures var a := SelectPolicy(v, r, ALL_WELL); a.world == v && a.policy == SelectPolicy(w, r, ALL_WELL).policy
  {
    SelectFrame(w, r, ALL_WELL);
  }

  lemma ManageAgain(w: World, r: Repository)
    requires Home(r) in w.lakes
    ensures var once := Manage(w, r, ALL_WELL);
            var twice := Manage(once.world, r, ALL_WELL);
            SameState(twice.world, once.world) && twice.ready == once.ready && Home(r) in once.world.lakes
  {
    if !GCEnabled(r.spec) {
      DropAgain(w, r);
    } else {
      SelectFrame(w, r, ALL_WELL);
      var selected := SelectPolicy(w, r, ALL_WELL);
      if selected.policy.Some? {
        var p := selected.policy.value;
        ApplyConverges(selected.world, r, p, ALL_WELL);
        var once := ApplyPolicy(selected.world, r, p, ALL_WELL).world;
        SelectAgain(w, once, r);
        ApplyAgain(selected.world, r, p);
      }
    }
  }

  lemma DropAgain(w: World, r: Repository)
    ensures var once := DropJob(w, r, ALL_WELL).world; DropJob(once, r, ALL_WELL).world == once
  {
    var jobs := w.cronJobs - {JobKey(r)};
    assert jobs - {JobKey(r)} == jobs;
  }

  /** What the steps do depends on state and spec only: not on calls made before, nor on status or finalizer. */
  lemma ApplyDepends(v: World, w: World, r: Repository, s: Repository, p: Policy, f: Fates)
    requires SameState(v, w) && SameSpec(r, s)
    ensures var a, b := ApplyPolicy(v, r, p, f), ApplyPolicy(w, s, p, f);
            SameState(a.world, b.world) && a.ready == b.ready
  {
    var x, y := SetRules(v, Home(r), RulesOf(p), f), SetRules(w, Home(s), RulesOf(p), f);
    StateParts(v, w);
    assert SameState(x.world, y.world) && x.ok == y.ok;
    WriteJobDepends(x.world, y.world, r, s, p, f);
  }

  lemma WriteJobDepends(v: World, w: World, r: Repository, s: Repository, p: Policy, f: Fates)
    requires SameState(v, w) && SameSpec(r, s)
    ensures var a, b := WriteJob(v, r, p, f), WriteJob(w, s, p, f);
            SameState(a.world, b.world) && a.ok == b.ok
  {
    StateParts(v, w);
    assert Derived(r, p) == Derived(s, p) && GcLabels(r, p) == GcLabels(s, p);
    assert MergedJob(v, r, p) == MergedJob(w, s, p);
  }

  lemma StateParts(v: World, w: World)
    requires SameState(v, w)
    ensures v.lakes == w.lakes && v.cronJobs == w.cronJobs && v.policies == w.policies && v.secrets == w.secrets
  {
    assert Quiet(v).lakes == Quiet(w).lakes && Quiet(v).cronJobs == Quiet(w).cronJobs;
    assert Quiet(v).policies == Quiet(w).policies && Quiet(v).secrets == Quiet(w).secrets;
  }

  lemma SelectDepends(v: World, w: World, r: Repository, s: Repository, f: Fates)
    requires SameState(v, w) && SameSpec(r, s)
    ensures var a, b := SelectPolicy(v, r, f), SelectPolicy(w, s, f); SameState(a.world, b.world) && a.policy == b.policy
  {
    StateParts(v, w);
  }

  lemma DropDepends(v: World, w: World, r: Repository, s: Repository, f: Fates)
    requires SameState(v, w) && SameSpec(r, s)
    ensures var a, b := DropJob(v, r, f), DropJob(w, s, f); SameState(a.world, b.world) && a.ok == b.ok
  {
    StateParts(v, w);
  }

  lemma ManageDepends(v: World, w: World, r: Repository, s: Repository, f: Fates)
    requires SameState(v, w) && SameSpec(r, s)
    ensures var a, b := Manage(v, r, f), Manage(w, s, f);
            SameState(a.world, b.world) && a.ready == b.ready
  {
    if GCEnabled(r.spec) {
      SelectDepends(v, w, r, s, f);
      var a, b := SelectPolicy(v, r, f), SelectPolicy(w, s, f);
      if a.policy.Some? { ApplyDepends(a.world, b.world, r, s, a.policy.value, f); }
    } else {
      DropDepends(v, w, r, s, f);
    }
  }

  lemma EnsureDepends(v: World, w: World, r: Repository, s: Repository, f: Fates)
    requires SameState(v, w) && SameSpec(r, s)
    ensures var a, b := EnsureRepository(v, r, f), EnsureRepository(w, s, f);
            SameState(a.world, b.world) && a.ready == b.ready
  {
    CredentialsDepend(v, w, r, s, f);
    if Creatable(r.name, r.spec) && HasCredentials(v, r, f) {
      LakeDepends(v, w, r, s, f);
      var a, b := EnsureLake(v, r, f), EnsureLake(w, s, f);
      if a.ok { ManageDepends(a.world, b.world, r, s, f); }
    }
  }

  lemma CredentialsDepend(v: World, w: World, r: Repository, s: Repository, f: Fates)
    requires SameState(v, w) && SameSpec(r, s)
    ensures HasCredentials(v, r, f) == HasCredentials(w, s, f)
  {
    StateParts(v, w);
  }

  lemma LakeDepends(v: World, w: World, r: Repository, s: Repository, f: Fates)
    requires SameState(v, w) && SameSpec(r, s)
    ensures var a, b := EnsureLake(v, r, f), EnsureLake(w, s, f);
            SameState(a.world, b.world) && a.ok == b.ok
  {
    StateParts(v, w);
    var x, y := Called(v, Lookup(Home(r))), Called(w, Lookup(Home(s)));
    assert SameState(x, y);
    StateParts(x, y);
    assert SameState(Created(x, Home(r), r.spec, f.create), Created(y, Home(s), s.spec, f.create));
  }

  lemma ManageKeepsResources(w: World, r: Repository, f: Fates)
    ensures SameResources(Manage(w, r, f).world, w)
  {
    if GCEnabled(r.spec) {
      SelectFrame(w, r, f);
      var selected := SelectPolicy(w, r, f);
      if selected.policy.Some? { ApplyConverges(selected.world, r, selected.policy.value, f); }
    }
  }

  lemma EnsureKeepsResources(w: World, r: Repository, f: Fates)
    ensures SameResources(EnsureRepository(w, r, f).world, w)
  {
    LakeFrame(w, r, f);
    ManageKeepsResources(EnsureLake(w, r, f).world, r, f);
  }

  lemma EnsureAgain(w: World, r: Repository)
    ensures var once := EnsureRepository(w, r, ALL_WELL);
            var twice := EnsureRepository(once.world, r, ALL_WELL);
            SameState(twice.world, once.world) && twice.ready == once.ready
  {
    if Creatable(r.name, r.spec) && HasCredentials(w, r, ALL_WELL) {
      var lake := EnsureLake(w, r, ALL_WELL);
      assert lake.ok && Home(r) in lake.world.lakes;
      ManageAgain(lake.world, r);
      var once := Manage(lake.world, r, ALL_WELL).world;
      EnsureKeepsResources(w, r, ALL_WELL);
      assert HasCredentials(once, r, ALL_WELL);
      EnsureLakeAgain(once, r);
      ManageDepends(EnsureLake(once, r, ALL_WELL).world, once, r, r, ALL_WELL);
    }
  }

  /** A world in which every resource is stored under its own key. */
  predicate Keyed(w: World) { forall k :: k in w.repositories ==> KeyOf(w.repositories[k]) == k }

  lemma LiveAgain(w: World, r: Repository)
    requires r.finalizer && !r.deleting
    ensures var once := ReconcileLive(w, r, ALL_WELL);
            && KeyOf(r) in once.repositories
            && var s := once.repositories[KeyOf(r)];
               && s.finalizer && !s.deleting && KeyOf(s) == KeyOf(r)
               && SameState(ReconcileLive(once, s, ALL_WELL), once)
               && ReconcileLive(once, s, ALL_WELL).repositories == once.repositories
  {
    var first := EnsureRepository(w, r, ALL_WELL);
    var s := r.(status := StatusOf(r, first.ready));
    var once := ReconcileLive(w, r, ALL_WELL);
    assert once == Put(first.world, s);
    EnsureAgain(w, r);
    EnsureDepends(once, first.world, s, r, ALL_WELL);
    EnsureKeepsResources(once, s, ALL_WELL);
    var second := EnsureRepository(once, s, ALL_WELL);
    assert s.(status := StatusOf(s, second.ready)) == s;
    assert once.repositories[KeyOf(s) := s] == once.repositories;
  }

  /**
   With stable inputs and no failing call, a second reconcile changes nothing: not the CronJob, not the rules in
   lakeFS, not the policies, not the resource with its finalizer and status.
  */
  lemma SecondReconcileChangesNothing(w: World, k: Key)
    requires Keyed(w)
    ensures var once := Reconcile(w, k, ALL_WELL);
            var twice := Reconcile(once, k, ALL_WELL);
            && twice.cronJobs == once.cronJobs && twice.lakes == once.lakes && twice.policies == once.policies
            && twice.secrets == once.secrets && twice.repositories == once.repositories
  {
    if k in w.repositories && !w.repositories[k].deleting {
      var r := w.repositories[k].(finalizer := true);
      var v := if w.repositories[k].finalizer then w else Put(w, r);
      assert w.repositories[k].finalizer ==> w.repositories[k] == r;
      assert Reconcile(w, k, ALL_WELL) == ReconcileLive(v, r, ALL_WELL);
      LiveAgain(v, r);
      var once := ReconcileLive(v, r, ALL_WELL);
      StateParts(ReconcileLive(once, once.repositories[k], ALL_WELL), once);
    } else if k in w.repositories && w.repositories[k].finalizer {
      FinalizeAgain(w, w.repositories[k]);
    }
  }

  lemma FinalizeAgain(w: World, r: Repository)
    requires KeyOf(r) in w.repositories && w.repositories[KeyOf(r)] == r && r.deleting && r.finalizer
    ensures var once := Finalize(w, r, ALL_WELL);
            KeyOf(r) in once.repositories ==> once == w
  {
  }

  // ---- Which policies matter to which repositories ----

  /** The request the watch on policies derives from a repository. */
  predicate Selects(r: Repository, policy: Key) {
    r.namespace == policy.namespace && GCEnabled(r.spec) && PolicyName(r.spec) == policy.name
  }

  function RequestsFor(items: seq<Repository>, policy: Key): seq<Key> {
    if items == [] then []
    else (if Selects(items[0], policy) then [KeyOf(items[0])] else []) + RequestsFor(items[1..], policy)
  }

  /** The requests made when a policy changes, from the listed repositories of its namespace. */
  method RepositoriesForPolicy(items: seq<Repository>, policy: Key) returns (requests: seq<Key>)
    requires forall i :: 0 <= i < |items| ==> items[i].namespace == policy.namespace
    ensures requests == RequestsFor(items, policy)
  {
    requests := [];
    for i := 0 to |items|
      invariant requests + RequestsFor(items[i..], policy) == RequestsFor(items, policy)
    {
      var r := items[i];
      assert items[i..][1..] == items[i + 1..];
      if GCEnabled(r.spec) && PolicyName(r.spec) == policy.name {
        requests := requests + [Key(r.namespace, r.name)];
      }
    }
  }

  lemma SelectsExactly(r: Repository, policy: Key)
    ensures Selects(r, policy) <==> r.spec.gcEnabled != Some(false) && SelectsPolicy(r, policy)
  {
    OnlyFalseDisables(r);
  }

  /** The resource is the one of this key, and its collection goes by the policy. */
  predicate GoesBy(r: Repository, policy: Key, k: Key) {
    k == Key(r.namespace, r.name) && r.spec.gcEnabled != Some(false) && SelectsPolicy(r, policy)
  }

  lemma {:induction false} RequestedExactly(items: seq<Repository>, policy: Key, k: Key)
    ensures k in RequestsFor(items, policy) <==> exists i :: 0 <= i < |items| && GoesBy(items[i], policy, k)
  {
    if items != [] {
      RequestedExactly(items[1..], policy, k);
      SelectsExactly(items[0], policy);
      if i :| 0 <= i < |items| && GoesBy(items[i], policy, k) {
        if i > 0 { assert items[1..][i - 1] == items[i]; }
      }
      if k in RequestsFor(items[1..], policy) {
        var j :| 0 <= j < |items| - 1 && GoesBy(items[1..][j], policy, k);
        assert items[j + 1] == items[1..][j];
      }
    }
  }

  /** Two worlds that may differ in one policy and in nothing else. */
  predicate EqualBut(v: World, w: World, policy: Key) {
    && v.repositories == w.repositories && v.cronJobs == w.cronJobs && v.secrets == w.secrets
    && v.lakes == w.lakes && v.calls == w.calls
    && v.policies - {policy} == w.policies - {policy}
  }

  lemma OtherPolicy(v: World, w: World, policy: Key, k: Key)
    requires EqualBut(v, w, policy) && k != policy
    ensures (k in v.policies <==> k in w.policies) && (k in v.policies ==> v.policies[k] == w.policies[k])
  {
    assert k in v.policies <==> k in v.policies - {policy};
    assert k in w.policies <==> k in w.policies - {policy};
    if k in v.policies {
      assert (v.policies - {policy})[k] == v.policies[k];
      assert (w.policies - {policy})[k] == w.policies[k];
    }
  }

  lemma SelectEqual(v: World, w: World, r: Repository, f: Fates, policy: Key)
    requires EqualBut(v, w, policy) && PolicyKey(r) != policy
    ensures var a, b := SelectPolicy(v, r, f), SelectPolicy(w, r, f);
            EqualBut(a.world, b.world, policy) && a.policy == b.policy && a.failed == b.failed
  {
    var k := PolicyKey(r);
    OtherPolicy(v, w, policy, k);
    assert v.policies[k := DefaultPolicy()] - {policy} == (v.policies - {policy})[k := DefaultPolicy()];
    assert w.policies[k := DefaultPolicy()] - {policy} == (w.policies - {policy})[k := DefaultPolicy()];
  }

  lemma ApplyEqual(v: World, w: World, r: Repository, p: Policy, f: Fates, policy: Key)
    requires EqualBut(v, w, policy)
    ensures var a, b := ApplyPolicy(v, r, p, f), ApplyPolicy(w, r, p, f);
            EqualBut(a.world, b.world, policy) && a.ready == b.ready && a.failed == b.failed
  {
    RulesEqual(v, w, Home(r), RulesOf(p), f, policy);
    WriteJobEqual(SetRules(v, Home(r), RulesOf(p), f).world, SetRules(w, Home(r), RulesOf(p), f).world, r, p, f, policy);
  }

  lemma RulesEqual(v: World, w: World, t: Target, rules: Rules, f: Fates, policy: Key)
    requires EqualBut(v, w, policy)
    ensures var a, b := SetRules(v, t, rules, f), SetRules(w, t, rules, f); EqualBut(a.world, b.world, policy) && a.ok == b.ok
  {
  }

  lemma WriteJobEqual(v: World, w: World, r: Repository, p: Policy, f: Fates, policy: Key)
    requires EqualBut(v, w, policy)
    ensures var a, b := WriteJob(v, r, p, f), WriteJob(w, r, p, f); EqualBut(a.world, b.world, policy) && a.ok == b.ok
  {
    assert MergedJob(v, r, p) == MergedJob(w, r, p);
  }

  lemma EnsureEqual(v: World, w: World, r: Repository, f: Fates, policy: Key)
    requires EqualBut(v, w, policy) && !Selects(r, policy)
    ensures var a, b := EnsureRepository(v, r, f), EnsureRepository(w, r, f);
            EqualBut(a.world, b.world, policy) && a.ready == b.ready && a.failed == b.failed
  {
    if Creatable(r.name, r.spec) && HasCredentials(v, r, f) {
      LakeEqual(v, w, r, f, policy);
      var a, b := EnsureLake(v, r, f), EnsureLake(w, r, f);
      if a.ok { ManageEqual(a.world, b.world, r, f, policy); }
    }
  }

  lemma CalledEqual(v: World, w: World, call: RemoteCall, policy: Key)
    requires EqualBut(v, w, policy)
    ensures EqualBut(Called(v, call), Called(w, call), policy)
  {
  }

  lemma CreatedEqual(v: World, w: World, t: Target, s: Spec, o: Outcome, policy: Key)
    requires EqualBut(v, w, policy)
    ensures EqualBut(Created(v, t, s, o), Created(w, t, s, o), policy)
  {
    CalledEqual(v, w, CreateLake(t, s.storage, BranchName(s), s.sampleData), policy);
  }

  lemma LakeEqual(v: World, w: World, r: Repository, f: Fates, policy: Key)
    requires EqualBut(v, w, policy)
    ensures var a, b := EnsureLake(v, r, f), EnsureLake(w, r, f); EqualBut(a.world, b.world, policy) && a.ok == b.ok
  {
    var t := Home(r);
    CalledEqual(v, w, Lookup(t), policy);
    CreatedEqual(Called(v, Lookup(t)), Called(w, Lookup(t)), t, r.spec, f.create, policy);
  }

  lemma ManageEqual(v: World, w: World, r: Repository, f: Fates, policy: Key)
    requires EqualBut(v, w, policy) && !Selects(r, policy)
    ensures var a, b := Manage(v, r, f), Manage(w, r, f);
            EqualBut(a.world, b.world, policy) && a.ready == b.ready && a.failed == b.failed
  {
    if GCEnabled(r.spec) {
      SelectEqual(v, w, r, f, policy);
      var p, q := SelectPolicy(v, r, f), SelectPolicy(w, r, f);
      if p.policy.Some? { ApplyEqual(p.world, q.world, r, p.policy.value, f, policy); }
    }
  }

  lemma LiveEqual(v: World, w: World, r: Repository, f: Fates, policy: Key)
    requires EqualBut(v, w, policy) && !Selects(r, policy)
    ensures EqualBut(ReconcileLive(v, r, f), ReconcileLive(w, r, f), policy)
  {
    EnsureEqual(v, w, r, f, policy);
  }

  lemma FinalizeEqual(v: World, w: World, r: Repository, f: Fates, policy: Key)
    requires EqualBut(v, w, policy)
    ensures EqualBut(Finalize(v, r, f), Finalize(w, r, f), policy)
  {
    CredentialsEqual(v, w, r, f, policy);
    if Reachable(r.name, r.spec) && HasCredentials(v, r, f) { DeleteEqual(v, w, Home(r), f, policy); }
  }

  lemma CredentialsEqual(v: World, w: World, r: Repository, f: Fates, policy: Key)
    requires EqualBut(v, w, policy)
    ensures HasCredentials(v, r, f) == HasCredentials(w, r, f)
  {
  }

  lemma DeleteEqual(v: World, w: World, t: Target, f: Fates, policy: Key)
    requires EqualBut(v, w, policy)
    ensures var a, b := DeleteRemote(v, t, f), DeleteRemote(w, t, f); EqualBut(a.world, b.world, policy) && a.ok == b.ok
  {
  }

  /**
   The watch on policies misses nothing: if two worlds differ in one policy only and no request is derived from a
   repository for it, reconciling the repository makes the same calls to lakeFS and leaves the same CronJobs, resources,
   statuses and lakeFS state in both, whatever calls fail.
  */
  lemma UnwatchedPolicyDoesNotMatter(v: World, w: World, k: Key, f: Fates, policy: Key)
    requires EqualBut(v, w, policy)
    requires k in v.repositories ==> !Selects(v.repositories[k], policy)
    ensures EqualBut(Reconcile(v, k, f), Reconcile(w, k, f), policy)
  {
    if k in v.repositories {
      var r := v.repositories[k];
      if r.deleting {
        FinalizeEqual(v, w, r, f, policy);
      } else if r.finalizer {
        LiveEqual(v, w, r, f, policy);
      } else {
        var r' := r.(finalizer := true);
        LiveEqual(Put(v, r'), Put(w, r'), r', f, policy);
      }
    }
  }
}
