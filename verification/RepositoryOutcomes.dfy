/** What one reconcile may and may not leave behind, whatever calls fail. */
module RepositoryOutcomes {
  import opened Text
  import opened RepositorySpecs
  import opened GarbageCollection
  import opened CronJobNames
  import opened KeyOrder
  import opened RepositoryReconciler
  import opened RepositoryConvergence

  /** The Secret the resource refers to is read, and holds both keys. */
  predicate CredentialsRead(w: World, r: Repository, f: Fates) {
    var at := Key(if r.spec.credentials.namespace != "" then r.spec.credentials.namespace else r.namespace, r.spec.credentials.name);
    var id := if r.spec.credentials.accessKeyKey != "" then r.spec.credentials.accessKeyKey else "accessKeyId";
    var secret := if r.spec.credentials.secretKeyKey != "" then r.spec.credentials.secretKeyKey else "secretAccessKey";
    f.readSecret.Done? && at in w.secrets && id in w.secrets[at] && secret in w.secrets[at] &&
    w.secrets[at][id] != "" && w.secrets[at][secret] != ""
  }

  lemma CredentialsExactly(w: World, r: Repository, f: Fates)
    ensures HasCredentials(w, r, f) <==> CredentialsRead(w, r, f)
  {
  }

  /** The resource says all that deleting takes: an endpoint, and a name of its own or of the lakeFS repository. */
  predicate CanDelete(r: Repository) { (r.spec.repository != "" || r.name != "") && r.spec.endpoint != "" }

  // ---- When a resource is let go ----

  lemma FinalizeOutcome(w: World, r: Repository, f: Fates)
    requires KeyOf(r) in w.repositories
    ensures KeyOf(r) !in Finalize(w, r, f).repositories <==>
            CanDelete(r) && CredentialsRead(w, r, f) && f.delete.Done? && (f.update.Done? || f.update.ReplyLost?)
    ensures KeyOf(r) !in Finalize(w, r, f).repositories ==>
            var v, t := Finalize(w, r, f), Home(r);
            v == w.(lakes := w.lakes - {t}, calls := w.calls + [DeleteLake(t)], repositories := w.repositories - {KeyOf(r)})
  {
    CredentialsExactly(w, r, f);
  }

  lemma LiveKeeps(w: World, r: Repository, f: Fates)
    ensures w.repositories.Keys <= ReconcileLive(w, r, f).repositories.Keys
  {
    EnsureKeepsResources(w, r, f);
  }

  lemma NotDeletingKeeps(w: World, k: Key, f: Fates)
    requires k in w.repositories && !(w.repositories[k].deleting && w.repositories[k].finalizer)
    ensures k in Reconcile(w, k, f).repositories
  {
    var r := w.repositories[k];
    if !r.deleting {
      var s := r.(finalizer := true);
      LiveKeeps(w, r, f);
      LiveKeeps(Put(w, s), s, f);
    }
  }

  /**
   A reconcile lets the resource go exactly if it is being deleted and carries the finalizer, lakeFS could be reached and
   answered the delete call, and the update that drops the finalizer took effect.
  */
  lemma LetGoExactly(w: World, k: Key, f: Fates)
    requires k in w.repositories && KeyOf(w.repositories[k]) == k
    ensures var r := w.repositories[k];
            k !in Reconcile(w, k, f).repositories <==>
            r.deleting && r.finalizer && CanDelete(r) && CredentialsRead(w, r, f) && f.delete.Done? && (f.update.Done? || f.update.ReplyLost?)
  {
    var r := w.repositories[k];
    if r.deleting && r.finalizer { FinalizeOutcome(w, r, f); } else { NotDeletingKeeps(w, k, f); }
  }

  /** And then its lakeFS repository is gone, after exactly one call, the delete call for it. */
  lemma LetGoAfterDelete(w: World, k: Key, f: Fates)
    requires k in w.repositories && KeyOf(w.repositories[k]) == k && k !in Reconcile(w, k, f).repositories
    ensures var t := Home(w.repositories[k]);
            StandsFor(w.repositories[k], t) &&
            Reconcile(w, k, f) == w.(lakes := w.lakes - {t}, calls := w.calls + [DeleteLake(t)], repositories := w.repositories - {k})
  {
    var r := w.repositories[k];
    HomeStands(r);
    if r.deleting && r.finalizer { FinalizeOutcome(w, r, f); } else { NotDeletingKeeps(w, k, f); }
  }

  // ---- What is created in lakeFS ----

  /** A lakeFS repository as the resource asks for it: storage, default branch, sample data. */
  predicate CreatedFor(l: Lake, r: Repository) {
    l.storage == r.spec.storage && l.branch == (if r.spec.branch != "" then r.spec.branch else "main") && l.sampleData == r.spec.sampleData
  }

  lemma EnsureLakeOutcome(w: World, r: Repository, f: Fates)
    ensures var v, t := EnsureLake(w, r, f).world, Home(r);
            v.lakes - {t} == w.lakes - {t} && (t in w.lakes ==> v.lakes == w.lakes) &&
            (t in v.lakes && t !in w.lakes ==> CreatedFor(v.lakes[t], r) && v.lakes[t].rules == None)
  {
  }

  lemma RulesOutcome(w: World, t: Target, rules: Rules, f: Fates)
    ensures var v := SetRules(w, t, rules, f).world;
            v.lakes.Keys == w.lakes.Keys && v.lakes - {t} == w.lakes - {t} &&
            (t in w.lakes ==> v.lakes[t] == w.lakes[t].(rules := v.lakes[t].rules))
  {
  }

  /** Managing collection neither makes nor removes a repository, and changes nothing of it but the rules. */
  lemma ManageOutcome(w: World, r: Repository, f: Fates)
    ensures var v, t := Manage(w, r, f).world, Home(r);
            v.repositories == w.repositories && v.lakes.Keys == w.lakes.Keys && v.lakes - {t} == w.lakes - {t} &&
            (t in w.lakes ==> v.lakes[t] == w.lakes[t].(rules := v.lakes[t].rules))
  {
    ManageKeepsResources(w, r, f);
    if GCEnabled(r.spec) {
      SelectFrame(w, r, f);
      var selected := SelectPolicy(w, r, f);
      if selected.policy.Some? {
        var p := selected.policy.value;
        RulesOutcome(selected.world, Home(r), RulesOf(p), f);
        JobFrame(SetRules(selected.world, Home(r), RulesOf(p), f).world, r, p, f);
      }
    }
  }

  lemma EnsureOutcome(w: World, r: Repository, f: Fates)
    ensures var v, t := EnsureRepository(w, r, f).world, Home(r);
            v.repositories == w.repositories && v.lakes - {t} == w.lakes - {t} && (t in w.lakes ==> t in v.lakes) &&
            (t in v.lakes && t !in w.lakes ==> CreatedFor(v.lakes[t], r)) &&
            (t in w.lakes ==> v.lakes[t] == w.lakes[t].(rules := v.lakes[t].rules))
  {
    LakeFrame(w, r, f);
    EnsureLakeOutcome(w, r, f);
    ManageOutcome(EnsureLake(w, r, f).world, r, f);
  }

  /** What a reconcile may do to lakeFS. */
  predicate TouchesOwn(w: World, v: World, r: Repository, k: Key, t: Target) {
    v.lakes - {t} == w.lakes - {t} &&
    (t in w.lakes && t !in v.lakes ==> r.deleting && r.finalizer) &&
    (t in v.lakes && t !in w.lakes ==> CreatedFor(v.lakes[t], r) && k in v.repositories && v.repositories[k].finalizer && !r.deleting) &&
    (t in v.lakes && t in w.lakes ==> v.lakes[t] == w.lakes[t].(rules := v.lakes[t].rules))
  }

  lemma FinalizeTouches(w: World, r: Repository, f: Fates)
    requires r.deleting && r.finalizer
    ensures TouchesOwn(w, Finalize(w, r, f), r, KeyOf(r), Home(r))
  {
  }

  lemma LiveTouches(w: World, r: Repository, f: Fates)
    requires r.finalizer && !r.deleting && KeyOf(r) in w.repositories && w.repositories[KeyOf(r)] == r
    ensures TouchesOwn(w, ReconcileLive(w, r, f), r, KeyOf(r), Home(r))
  {
    EnsureOutcome(w, r, f);
  }

  /**
   A reconcile touches one lakeFS repository, the one the resource stands for: it removes it only for a resource under
   deletion, creates it only as asked for and with the finalizer stored in the resource, and otherwise changes no more
   than its rules.
  */
  lemma ReconcileTouchesOwn(w: World, k: Key, f: Fates)
    requires k in w.repositories && KeyOf(w.repositories[k]) == k
    ensures StandsFor(w.repositories[k], Home(w.repositories[k]))
    ensures TouchesOwn(w, Reconcile(w, k, f), w.repositories[k], k, Home(w.repositories[k]))
  {
    var r := w.repositories[k];
    HomeStands(r);
    if r.deleting {
      if r.finalizer { FinalizeTouches(w, r, f); }
    } else if r.finalizer {
      LiveTouches(w, r, f);
    } else {
      var s := r.(finalizer := true);
      LiveTouches(Put(w, s), s, f);
    }
  }

  // ---- What lakeFS is asked ----

  /** A lookup found no repository, or said so. */
  predicate LookedMissing(w: World, t: Target, f: Fates) { f.lookup.Missing? || (f.lookup.Done? && t !in w.lakes) }

  /** A call the resource has reason to make: nothing is created that a lookup found, and rules are those of the stored policy. */
  predicate CallAsked(c: RemoteCall, w: World, v: World, r: Repository, f: Fates) {
    match c
    case Lookup(t) => t == Home(r) && !r.deleting
    case CreateLake(t, storage, branch, sampleData) =>
      t == Home(r) && !r.deleting && LookedMissing(w, t, f) &&
      storage == r.spec.storage && branch == (if r.spec.branch != "" then r.spec.branch else "main") && sampleData == r.spec.sampleData
    case PutRules(t, rules) =>
      t == Home(r) && !r.deleting && r.spec.gcEnabled != Some(false) &&
      PolicyKey(r) in v.policies && RulesFollow(rules, v.policies[PolicyKey(r)])
    case DeleteLake(t) => t == Home(r) && r.deleting && r.finalizer
  }

  predicate AllAsked(cs: seq<RemoteCall>, w: World, v: World, r: Repository, f: Fates) {
    forall c :: c in cs ==> CallAsked(c, w, v, r, f)
  }

  predicate CallsAsked(w: World, v: World, r: Repository, f: Fates) {
    w.calls <= v.calls && AllAsked(v.calls[|w.calls|..], w, v, r, f)
  }

  function CreateCall(r: Repository): RemoteCall { CreateLake(Home(r), r.spec.storage, BranchName(r.spec), r.spec.sampleData) }

  lemma LakeCalls(w: World, r: Repository, f: Fates)
    ensures var v, t := EnsureLake(w, r, f).world, Home(r);
            v.policies == w.policies &&
            (v.calls == w.calls + [Lookup(t)] || (v.calls == w.calls + [Lookup(t)] + [CreateCall(r)] && LookedMissing(w, t, f)))
  {
  }

  lemma ManageCalls(w: World, r: Repository, f: Fates)
    ensures var v := Manage(w, r, f).world;
            v.calls == w.calls ||
            (GCEnabled(r.spec) && PolicyKey(r) in v.policies && v.calls == w.calls + [PutRules(Home(r), RulesOf(v.policies[PolicyKey(r)]))])
  {
    if GCEnabled(r.spec) {
      SelectFrame(w, r, f);
      var selected := SelectPolicy(w, r, f);
      if selected.policy.Some? { ApplyCalls(selected.world, r, selected.policy.value, f); }
    }
  }

  lemma ApplyCalls(w: World, r: Repository, p: Policy, f: Fates)
    ensures var v := ApplyPolicy(w, r, p, f).world; v.policies == w.policies && v.calls == w.calls + [PutRules(Home(r), RulesOf(p))]
  {
    JobFrame(SetRules(w, Home(r), RulesOf(p), f).world, r, p, f);
  }

  lemma CreateIsAsked(w: World, v: World, r: Repository, f: Fates)
    requires !r.deleting && LookedMissing(w, Home(r), f)
    ensures CallAsked(CreateCall(r), w, v, r, f)
  {
  }

  lemma RulesAreAsked(w: World, v: World, r: Repository, f: Fates)
    requires !r.deleting && GCEnabled(r.spec) && PolicyKey(r) in v.policies
    ensures CallAsked(PutRules(Home(r), RulesOf(v.policies[PolicyKey(r)])), w, v, r, f)
  {
    OnlyFalseDisables(r);
    RulesDo(v.policies[PolicyKey(r)]);
  }

  lemma LakeAsked(w: World, v: World, r: Repository, f: Fates) returns (cs: seq<RemoteCall>)
    requires !r.deleting
    ensures EnsureLake(w, r, f).world.calls == w.calls + cs && AllAsked(cs, w, v, r, f)
  {
    LakeCalls(w, r, f);
    if LookedMissing(w, Home(r), f) { CreateIsAsked(w, v, r, f); }
    cs := EnsureLake(w, r, f).world.calls[|w.calls|..];
  }

  lemma ManageAsked(u: World, w: World, r: Repository, f: Fates) returns (cs: seq<RemoteCall>)
    requires !r.deleting
    ensures var v := Manage(w, r, f).world; v.calls == w.calls + cs && AllAsked(cs, u, v, r, f)
  {
    var v := Manage(w, r, f).world;
    ManageCalls(w, r, f);
    if GCEnabled(r.spec) && PolicyKey(r) in v.policies { RulesAreAsked(u, v, r, f); }
    cs := v.calls[|w.calls|..];
  }

  lemma AskedParts(w: World, v: World, r: Repository, f: Fates, xs: seq<RemoteCall>, ys: seq<RemoteCall>)
    requires v.calls == w.calls + xs + ys && AllAsked(xs, w, v, r, f) && AllAsked(ys, w, v, r, f)
    ensures CallsAsked(w, v, r, f)
  {
    assert v.calls[|w.calls|..] == xs + ys;
  }

  lemma EnsureCalls(w: World, r: Repository, f: Fates)
    requires !r.deleting
    ensures CallsAsked(w, EnsureRepository(w, r, f).world, r, f)
  {
    var v := EnsureRepository(w, r, f).world;
    if v == w {
      AskedParts(w, v, r, f, [], []);
    } else {
      var xs := LakeAsked(w, v, r, f);
      var lake := EnsureLake(w, r, f);
      if lake.ok {
        var ys := ManageAsked(w, lake.world, r, f);
        AskedParts(w, v, r, f, xs, ys);
      } else {
        AskedParts(w, v, r, f, xs, []);
      }
    }
  }

  lemma SameSpecAsked(c: RemoteCall, w: World, v: World, u: World, x: World, r: Repository, s: Repository, f: Fates)
    requires CallAsked(c, w, v, r, f) && s.deleting == r.deleting && s.finalizer == r.finalizer && SameSpec(r, s)
    requires u.lakes == w.lakes && x.policies == v.policies
    ensures CallAsked(c, u, x, s, f)
  {
  }

  lemma LiveCalls(w: World, r: Repository, f: Fates)
    requires !r.deleting
    ensures CallsAsked(w, ReconcileLive(w, r, f), r, f)
  {
    EnsureCalls(w, r, f);
    var v, x := EnsureRepository(w, r, f).world, ReconcileLive(w, r, f);
    assert x.calls == v.calls && x.policies == v.policies;
    forall c | c in v.calls[|w.calls|..] ensures CallAsked(c, w, x, r, f) { SameSpecAsked(c, w, v, w, x, r, r, f); }
  }

  lemma FinalizeCalls(w: World, r: Repository, f: Fates)
    ensures var v := Finalize(w, r, f); v.calls == w.calls || v.calls == w.calls + [DeleteLake(Home(r))]
  {
  }

  lemma DeletingCalls(w: World, r: Repository, f: Fates)
    requires r.deleting && r.finalizer
    ensures CallsAsked(w, Finalize(w, r, f), r, f)
  {
    var v := Finalize(w, r, f);
    FinalizeCalls(w, r, f);
    AskedParts(w, v, r, f, v.calls[|w.calls|..], []);
  }

  lemma AddingCalls(w: World, s: Repository, f: Fates)
    requires !s.deleting
    ensures CallsAsked(w, ReconcileLive(Put(w, s), s, f), s, f)
  {
    var u, v := Put(w, s), ReconcileLive(Put(w, s), s, f);
    LiveCalls(u, s, f);
    forall c | c in v.calls[|w.calls|..] ensures CallAsked(c, w, v, s, f) { SameSpecAsked(c, u, v, w, v, s, s, f); }
  }

  /** Whatever fails, every call a reconcile makes to lakeFS is one the resource asks for. */
  lemma ReconcileCalls(w: World, k: Key, f: Fates)
    requires k in w.repositories && KeyOf(w.repositories[k]) == k
    ensures CallsAsked(w, Reconcile(w, k, f), w.repositories[k].(finalizer := true), f)
  {
    var r, v := w.repositories[k], Reconcile(w, k, f);
    var s := r.(finalizer := true);
    if r.finalizer { assert r == s; }
    if r.deleting && r.finalizer {
      DeletingCalls(w, r, f);
    } else if r.finalizer {
      LiveCalls(w, s, f);
    } else if !r.deleting && f.update.Done? {
      AddingCalls(w, s, f);
    } else {
      assert v.calls == w.calls;
    }
  }

  // ---- What happens to CronJobs ----

  /** A CronJob written for the resource: its credentials are near, nobody else controlled it, and foreign labels and fields stay. */
  ghost predicate JobWritten(w: World, v: World, r: Repository, k: Key)
    requires k in v.cronJobs
  {
    r.spec.gcEnabled != Some(false) && (r.spec.credentials.namespace == "" || r.spec.credentials.namespace == r.namespace) &&
    PolicyKey(r) in v.policies && JobFollows(v.cronJobs[k], r, v.policies[PolicyKey(r)]) &&
    (k in w.cronJobs ==> Adopted(w.cronJobs[k], v.cronJobs[k], r))
  }

  predicate Adopted(was: CronJob, j: CronJob, r: Repository) {
    (was.controller == None || was.controller == Some(("LakeFSRepository", r.name))) && j.others == was.others &&
    forall l :: l in was.labels && !GcLabel(l) ==> l in j.labels && j.labels[l] == was.labels[l]
  }

  predicate GcLabel(l: string) {
    l == "app.kubernetes.io/name" || l == "app.kubernetes.io/component" ||
    l == "lakefs.versioneer.at/repo-cr" || l == "lakefs.versioneer.at/gc-policy"
  }

  /** What a reconcile may do to CronJobs. */
  ghost predicate TouchesOwnJob(w: World, v: World, r: Repository) {
    var k := Key(r.namespace, GcCronJobName(r.name));
    v.cronJobs - {k} == w.cronJobs - {k} && (r.deleting ==> v.cronJobs == w.cronJobs) &&
    (k in w.cronJobs && k !in v.cronJobs ==> r.spec.gcEnabled == Some(false)) &&
    (k in v.cronJobs && !(k in w.cronJobs && w.cronJobs[k] == v.cronJobs[k]) ==> JobWritten(w, v, r, k))
  }

  lemma GcLabelsAre(r: Repository, p: Policy, l: string)
    ensures l in GcLabels(r, p) <==> GcLabel(l)
  {
  }

  lemma MergedAdopts(w: World, r: Repository, p: Policy)
    requires JobKey(r) in w.cronJobs && !JobTaken(w, r)
    ensures Adopted(w.cronJobs[JobKey(r)], MergedJob(w, r, p), r)
  {
    var was := w.cronJobs[JobKey(r)];
    forall l | l in was.labels && !GcLabel(l) ensures l !in GcLabels(r, p) { GcLabelsAre(r, p, l); }
  }

  lemma MergedFollows(w: World, r: Repository, p: Policy)
    ensures JobFollows(MergedJob(w, r, p), r, p)
  {
    var v := w.(cronJobs := w.cronJobs[JobKey(r) := MergedJob(w, r, p)]);
    MergedMatches(w, r, p);
    MatchFollows(v, r, p);
    assert v.cronJobs[JobKey(r)] == MergedJob(w, r, p);
  }

  lemma WriteTouches(w: World, r: Repository, p: Policy, f: Fates)
    requires !r.deleting && GCEnabled(r.spec) && PolicyKey(r) in w.policies && w.policies[PolicyKey(r)] == p
    ensures TouchesOwnJob(w, WriteJob(w, r, p, f).world, r)
  {
    if !JobTaken(w, r) && CredentialsNamespace(r.namespace, r.spec) == r.namespace { MergedTouches(w, r, p); }
  }

  lemma MergedTouches(w: World, r: Repository, p: Policy)
    requires !r.deleting && GCEnabled(r.spec) && PolicyKey(r) in w.policies && w.policies[PolicyKey(r)] == p
    requires !JobTaken(w, r) && CredentialsNamespace(r.namespace, r.spec) == r.namespace
    ensures TouchesOwnJob(w, w.(cronJobs := w.cronJobs[JobKey(r) := MergedJob(w, r, p)]), r)
  {
    OnlyFalseDisables(r);
    MergedFollows(w, r, p);
    if JobKey(r) in w.cronJobs { MergedAdopts(w, r, p); }
  }

  /** The CronJobs before and after, and the policies after, are all that counts. */
  lemma SameJobs(w: World, v: World, x: World, y: World, r: Repository)
    requires TouchesOwnJob(w, v, r) && x.cronJobs == w.cronJobs && y.cronJobs == v.cronJobs && y.policies == v.policies
    ensures TouchesOwnJob(x, y, r)
  {
  }

  lemma ManageTouchesJob(w: World, r: Repository, f: Fates)
    requires !r.deleting
    ensures TouchesOwnJob(w, Manage(w, r, f).world, r)
  {
    if GCEnabled(r.spec) {
      SelectFrame(w, r, f);
      var selected := SelectPolicy(w, r, f);
      if selected.policy.Some? {
        var p := selected.policy.value;
        ApplyTouchesJob(selected.world, r, p, f);
        SameJobs(selected.world, Manage(w, r, f).world, w, Manage(w, r, f).world, r);
      }
    } else {
      OnlyFalseDisables(r);
    }
  }

  lemma ApplyTouchesJob(w: World, r: Repository, p: Policy, f: Fates)
    requires !r.deleting && GCEnabled(r.spec) && PolicyKey(r) in w.policies && w.policies[PolicyKey(r)] == p
    ensures TouchesOwnJob(w, ApplyPolicy(w, r, p, f).world, r)
  {
    var ruled := SetRules(w, Home(r), RulesOf(p), f).world;
    RulesFrame(w, Home(r), RulesOf(p), f);
    WriteTouches(ruled, r, p, f);
    SameJobs(ruled, WriteJob(ruled, r, p, f).world, w, WriteJob(ruled, r, p, f).world, r);
  }

  lemma LiveTouchesJob(w: World, r: Repository, f: Fates)
    requires !r.deleting
    ensures TouchesOwnJob(w, ReconcileLive(w, r, f), r)
  {
    LakeFrame(w, r, f);
    var lake := EnsureLake(w, r, f).world;
    ManageTouchesJob(lake, r, f);
    var v := EnsureRepository(w, r, f).world;
    if v == Manage(lake, r, f).world { SameJobs(lake, v, w, ReconcileLive(w, r, f), r); }
  }

  /**
   A reconcile touches one CronJob, the resource's own: it removes it only if collection is off, and writes it only for the
   stored policy, from credentials in the resource's namespace, over no CronJob that another object controls.
  */
  lemma ReconcileTouchesOwnJob(w: World, k: Key, f: Fates)
    requires k in w.repositories && KeyOf(w.repositories[k]) == k
    ensures TouchesOwnJob(w, Reconcile(w, k, f), w.repositories[k].(finalizer := true))
  {
    var r, s := w.repositories[k], w.repositories[k].(finalizer := true);
    if r.finalizer { assert r == s; }
    if r.deleting {
      FinalizeKeepsJobs(w, r, f);
    } else if r.finalizer {
      LiveTouchesJob(w, s, f);
    } else if f.update.Done? {
      AddingTouchesJob(w, s, f);
    } else {
      assert Reconcile(w, k, f).cronJobs == w.cronJobs;
    }
  }

  lemma FinalizeKeepsJobs(w: World, r: Repository, f: Fates)
    ensures Finalize(w, r, f).cronJobs == w.cronJobs
  {
  }

  lemma AddingTouchesJob(w: World, s: Repository, f: Fates)
    requires !s.deleting
    ensures TouchesOwnJob(w, ReconcileLive(Put(w, s), s, f), s)
  {
    var u, v := Put(w, s), ReconcileLive(Put(w, s), s, f);
    LiveTouchesJob(u, s, f);
    SameJobs(u, v, w, v, s);
  }

  // ---- What is done without credentials ----

  predicate CanCreate(r: Repository) { CanDelete(r) && r.spec.storage != "" }

  /** Without credentials, endpoint, name or storage lakeFS is not called and nothing outside the resource changes; it is not Ready. */
  lemma NothingWithoutCredentials(w: World, r: Repository, f: Fates)
    requires !CanCreate(r) || !CredentialsRead(w, r, f)
    ensures EnsureRepository(w, r, f) == Result(w, false, false)
  {
    CredentialsExactly(w, r, f);
  }

  // ---- When a resource is Ready ----

  /** lakeFS says the repository is there, or takes the call that creates it. */
  predicate LakeEnsured(w: World, r: Repository, f: Fates) {
    (f.lookup.Done? && Home(r) in w.lakes) || (LookedMissing(w, Home(r), f) && f.create.Done?)
  }

  predicate NamesDefault(r: Repository) { r.spec.policy == "" || r.spec.policy == "default" }

  /** The selected policy is read, or it is the default one and made because it is not there. */
  predicate PolicyAt(w: World, r: Repository, f: Fates) {
    if f.readPolicy.Done? && PolicyKey(r) in w.policies then true
    else
      (f.readPolicy.Done? || f.readPolicy.Missing?) && NamesDefault(r) && PolicyKey(r) !in w.policies && f.createPolicy.Done?
  }

  /** No policy to go by, and no error: a named one is not there, or a stale read did not show the default one. */
  predicate PolicyPending(w: World, r: Repository, f: Fates) {
    (f.readPolicy.Missing? || (f.readPolicy.Done? && PolicyKey(r) !in w.policies)) &&
    (NamesDefault(r) ==> PolicyKey(r) in w.policies && f.createPolicy.Done?)
  }

  /** The CronJob can be the resource's: its credentials are near, and no other object controls it. */
  predicate JobOpen(w: World, r: Repository) {
    var k := Key(r.namespace, GcCronJobName(r.name));
    (r.spec.credentials.namespace == "" || r.spec.credentials.namespace == r.namespace) &&
    (k in w.cronJobs ==> w.cronJobs[k].controller == None || w.cronJobs[k].controller == Some(("LakeFSRepository", r.name)))
  }

  lemma LakeExactly(w: World, r: Repository, f: Fates)
    ensures EnsureLake(w, r, f).ok <==> LakeEnsured(w, r, f)
  {
  }

  lemma SelectExactly(w: World, r: Repository, f: Fates)
    ensures var a := SelectPolicy(w, r, f);
            (a.policy.Some? <==> PolicyAt(w, r, f)) && (a.policy.None? && !a.failed <==> PolicyPending(w, r, f))
  {
  }

  lemma JobExactly(w: World, r: Repository, p: Policy, f: Fates)
    ensures WriteJob(w, r, p, f).ok <==> JobOpen(w, r) && f.writeJob.Done?
  {
  }

  lemma ApplyExactly(w: World, r: Repository, p: Policy, f: Fates)
    requires Home(r) in w.lakes
    ensures var a := ApplyPolicy(w, r, p, f);
            (a.ready <==> f.putRules.Done? && JobOpen(w, r) && f.writeJob.Done?) && a.failed == !a.ready
  {
    var ruled := SetRules(w, Home(r), RulesOf(p), f);
    RulesFrame(w, Home(r), RulesOf(p), f);
    assert ruled.ok <==> f.putRules.Done?;
    JobExactly(ruled.world, r, p, f);
  }

  predicate ManagedReady(w: World, r: Repository, f: Fates) {
    if r.spec.gcEnabled == Some(false) then f.deleteJob.Done?
    else PolicyAt(w, r, f) && f.putRules.Done? && JobOpen(w, r) && f.writeJob.Done?
  }

  lemma ManageExactly(w: World, r: Repository, f: Fates)
    requires Home(r) in w.lakes
    ensures var a := Manage(w, r, f);
            (a.ready <==> ManagedReady(w, r, f)) &&
            (!a.ready && !a.failed <==> r.spec.gcEnabled != Some(false) && PolicyPending(w, r, f))
  {
    OnlyFalseDisables(r);
    if GCEnabled(r.spec) {
      SelectExactly(w, r, f);
      SelectFrame(w, r, f);
      var selected := SelectPolicy(w, r, f);
      if selected.policy.Some? { ApplyExactly(selected.world, r, selected.policy.value, f); }
    }
  }

  lemma SameParts(w: World, v: World, r: Repository, f: Fates)
    requires v.policies == w.policies && v.cronJobs == w.cronJobs
    ensures ManagedReady(v, r, f) == ManagedReady(w, r, f) && PolicyPending(v, r, f) == PolicyPending(w, r, f)
  {
  }

  predicate ReadyWith(w: World, r: Repository, f: Fates) {
    CanCreate(r) && CredentialsRead(w, r, f) && LakeEnsured(w, r, f) && ManagedReady(w, r, f)
  }

  /**
   Ensuring a repository reports Ready exactly if the resource is complete, its credentials can be read, and every call it
   takes goes through; it neither reports Ready nor returns an error exactly if it has to wait for the resource, its
   credentials or its policy.
  */
  lemma ReadyExactly(w: World, r: Repository, f: Fates)
    ensures var a := EnsureRepository(w, r, f);
            (a.ready <==> ReadyWith(w, r, f)) &&
            (!a.ready && !a.failed <==>
             !CanCreate(r) || !CredentialsRead(w, r, f) ||
             (LakeEnsured(w, r, f) && r.spec.gcEnabled != Some(false) && PolicyPending(w, r, f)))
  {
    CredentialsExactly(w, r, f);
    if CanCreate(r) && CredentialsRead(w, r, f) {
      LakeExactly(w, r, f);
      var lake := EnsureLake(w, r, f);
      if lake.ok {
        EnsuredLakeExists(w, r, f);
        LakeFrame(w, r, f);
        ManageExactly(lake.world, r, f);
        SameParts(w, lake.world, r, f);
      }
    }
  }

  // ---- What the status says ----

  predicate StatusNames(st: Status, r: Repository) {
    st.repository == (if r.spec.repository != "" then r.spec.repository else r.name) &&
    if r.spec.gcEnabled == Some(false) then st.policy == "" && st.cronJob == ""
    else st.policy == (if r.spec.policy != "" then r.spec.policy else "default") && st.cronJob == GcCronJobName(r.name)
  }

  lemma LiveStatus(w: World, r: Repository, f: Fates)
    requires f.status.Done? || f.status.ReplyLost?
    ensures var v, result := ReconcileLive(w, r, f), EnsureRepository(w, r, f);
            v == Put(result.world, r.(status := StatusOf(r, result.ready)))
  {
  }

  lemma StatusOfNames(r: Repository, ready: bool)
    ensures StatusNames(StatusOf(r, ready), r) && StatusOf(r, ready).ready == ready
  {
    OnlyFalseDisables(r);
  }

  lemma LiveIsHonest(w: World, r: Repository, f: Fates)
    requires f.status.Done? || f.status.ReplyLost?
    ensures var v := ReconcileLive(w, r, f);
            KeyOf(r) in v.repositories &&
            var s := v.repositories[KeyOf(r)];
            s == r.(status := s.status) && StatusNames(s.status, r) && (s.status.ready ==> Converged(v, r))
  {
    LiveStatus(w, r, f);
    var result := EnsureRepository(w, r, f);
    StatusOfNames(r, result.ready);
    if result.ready {
      ReadyMeansConverged(w, r, f);
      ConvergedElsewhere(result.world, ReconcileLive(w, r, f), r, r);
    }
  }

  /** A status written by a reconcile names what the resource selects, and if it says Ready everything is as asked. */
  lemma StatusIsHonest(w: World, k: Key, f: Fates)
    requires k in w.repositories && KeyOf(w.repositories[k]) == k && !w.repositories[k].deleting
    requires (f.status.Done? || f.status.ReplyLost?) && (w.repositories[k].finalizer || f.update.Done?)
    ensures var v, r := Reconcile(w, k, f), w.repositories[k];
            k in v.repositories && v.repositories[k] == r.(finalizer := true, status := v.repositories[k].status) &&
            StatusNames(v.repositories[k].status, r) && (v.repositories[k].status.ready ==> Converged(v, r))
  {
    var r := w.repositories[k].(finalizer := true);
    var u := if w.repositories[k].finalizer then w else Put(w, r);
    assert w.repositories[k].finalizer ==> w.repositories[k] == r;
    LiveIsHonest(u, r, f);
    var v := Reconcile(w, k, f);
    assert v == ReconcileLive(u, r, f);
    if v.repositories[k].status.ready { ConvergedElsewhere(v, v, r, w.repositories[k]); }
  }

  /** Status and finalizer play no role. */
  lemma ConvergedElsewhere(w: World, v: World, r: Repository, s: Repository)
    requires Converged(w, r) && v.lakes == w.lakes && v.cronJobs == w.cronJobs && v.policies == w.policies
    requires s.namespace == r.namespace && s.name == r.name && s.spec == r.spec
    ensures Converged(v, s)
  {
    var t, p :| StandsFor(r, t) && SelectsPolicy(r, p) && ConvergedAt(w, r, t, p);
    assert StandsFor(s, t) && SelectsPolicy(s, p);
    if r.spec.gcEnabled != Some(false) {
      SameFollows(w.cronJobs[Key(r.namespace, GcCronJobName(r.name))], r, s, w.policies[p]);
    }
    assert ConvergedAt(v, s, t, p);
  }

  lemma SameFollows(j: CronJob, r: Repository, s: Repository, p: Policy)
    requires JobFollows(j, r, p) && s.namespace == r.namespace && s.name == r.name && s.spec == r.spec
    ensures JobFollows(j, s, p)
  {
    assert AllConf(r, p) == AllConf(s, p);
    assert SpecFollows(j.spec, s, p);
    var own :| LabelsFollow(own, r, p) && forall l :: l in own ==> l in j.labels && j.labels[l] == own[l];
    assert LabelsFollow(own, s, p);
  }
}
