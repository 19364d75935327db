/** The two views of the reconciler agree: a reconcile as a whole is a run of the machine's worker, call by call. */
module RepositoryRefinement {
  import opened Text
  import opened KeyOrder
  import opened CronJobNames
  import opened RepositorySpecs
  import opened GarbageCollection
  import opened RepositoryReconciler
  import opened RepositoryConvergence
  import M = RepositoryMachine

  predicate ResourceAgrees(a: M.Resource, r: Repository) {
    a.name == r.name && a.spec == r.spec && a.deleting == r.deleting && a.finalizer == r.finalizer && !a.others && a.ready == r.status.ready
  }

  predicate Stored(m: M.World, w: World, k: Key) {
    m.log != [] && m.seen < |m.log| && m.name == k.name && (M.Latest(m).Some? <==> k in w.repositories) &&
    (k in w.repositories ==> KeyOf(w.repositories[k]) == k && ResourceAgrees(M.Latest(m).value, w.repositories[k]))
  }

  predicate OwnerAgrees(owner: Option<string>, controller: Option<(string, string)>, name: string) {
    (owner.None? <==> controller.None?) && (owner == Some(name) <==> controller == Some((REPOSITORY_KIND, name)))
  }

  predicate JobAgrees(m: M.World, w: World, k: Key, job: string) {
    (job in m.cronJobs <==> Key(k.namespace, job) in w.cronJobs) &&
    (job in m.cronJobs ==> OwnerAgrees(m.cronJobs[job], w.cronJobs[Key(k.namespace, job)].controller, k.name))
  }

  /** The machine knows of the resource, of the repositories in lakeFS, and of policies and CronJobs in its namespace what is there. */
  ghost predicate Agrees(m: M.World, w: World, k: Key) {
    Stored(m, w, k) && m.remote == w.lakes.Keys && (forall job :: JobAgrees(m, w, k, job)) &&
    (forall n :: n in m.policies <==> Key(k.namespace, n) in w.policies)
  }

  /** The worker holds the current version. */
  ghost predicate Holding(m: M.World, w: World, r: Repository) {
    Agrees(m, w, KeyOf(r)) && KeyOf(r) in w.repositories && w.repositories[KeyOf(r)] == r && !m.pc.Idle? && m.pc.at == |m.log| - 1
  }

  predicate OnlyWork(events: seq<M.Event>) { forall e :: e in events ==> e.Work? }

  /** The worker makes calls with some outcomes and reaches a place. */
  ghost predicate Reaches(m: M.World, events: seq<M.Event>, w: World, r: Repository, pc: M.Pc)
    requires m.log != []
  {
    OnlyWork(events) && Holding(M.Run(m, events), w, r) && M.Run(m, events).pc == pc && M.Run(m, events).log == m.log
  }

  lemma OneCall(m: M.World, o: Outcome)
    requires m.log != []
    ensures M.Run(m, [M.Work(o)]) == M.WorkStep(m, o) && OnlyWork([M.Work(o)])
  {
    assert M.Run(M.Step(m, M.Work(o)), []) == M.Step(m, M.Work(o));
    assert [M.Work(o)][1..] == [];
  }

  lemma Then(m: M.World, es: seq<M.Event>, fs: seq<M.Event>, v: World, r: Repository, pc: M.Pc)
    requires m.log != [] && OnlyWork(es) && M.Run(m, es).log == m.log && Reaches(M.Run(m, es), fs, v, r, pc)
    ensures Reaches(m, es + fs, v, r, pc)
  {
    M.RunAppend(m, es, fs);
  }

  lemma Snap(m: M.World, w: World, r: Repository)
    requires Holding(m, w, r)
    ensures M.Current(m, m.pc.at) && M.Snapshot(m, m.pc.at) == M.Latest(m).value && M.Home(M.Latest(m).value) == Home(r)
    ensures ResourceAgrees(M.Latest(m).value, r)
  {
  }

  // ---- lakeFS ----

  lemma LookOnce(m: M.World, w: World, r: Repository, f: Fates)
    requires Holding(m, w, r) && m.pc.Looking?
    ensures var n, status := M.WorkStep(m, f.lookup), LookupStatus(w, Home(r), f.lookup);
            n == m.(pc := n.pc) &&
            n.pc == if status == 200 then M.Ensured(M.Latest(m).value, m.pc.at)
                    else if status == 404 then M.Creating(m.pc.at) else M.Reporting(m.pc.at, false)
  {
    Snap(m, w, r);
  }

  lemma CreateOnce(m: M.World, w: World, r: Repository, f: Fates)
    requires Holding(m, w, r) && m.pc.Creating?
    ensures var n := M.WorkStep(m, f.create);
            n == m.(pc := n.pc, remote := n.remote, ours := n.ours) &&
            n.remote == Created(w, Home(r), r.spec, f.create).lakes.Keys &&
            n.pc == if CreateStatus(w, Home(r), f.create) in {200, 201, 409} then M.Ensured(M.Latest(m).value, m.pc.at)
                    else M.Reporting(m.pc.at, false)
  {
    Snap(m, w, r);
  }

  /** Calls and rules are not in the machine's view. */
  lemma HoldingMoves(m: M.World, n: M.World, w: World, v: World, r: Repository)
    requires Holding(m, w, r) && n == m.(pc := n.pc, remote := n.remote, ours := n.ours) && !n.pc.Idle? && n.pc.at == m.pc.at
    requires v == w.(lakes := v.lakes, calls := v.calls) && n.remote == v.lakes.Keys
    ensures Holding(n, v, r)
  {
    assert forall job :: JobAgrees(m, w, KeyOf(r), job) ==> JobAgrees(n, v, KeyOf(r), job);
  }

  /** Where the worker stands after the lakeFS part. */
  function AfterLake(m: M.World, ok: bool): M.Pc
    requires m.log != [] && M.Latest(m).Some? && !m.pc.Idle?
  {
    if ok then M.Ensured(M.Latest(m).value, m.pc.at) else M.Reporting(m.pc.at, false)
  }

  lemma LakeRun(m: M.World, w: World, r: Repository, f: Fates) returns (es: seq<M.Event>)
    requires Holding(m, w, r) && m.pc.Looking?
    ensures Reaches(m, es, EnsureLake(w, r, f).world, r, AfterLake(m, EnsureLake(w, r, f).ok))
  {
    var n, looked := M.WorkStep(m, f.lookup), Called(w, Lookup(Home(r)));
    LookOnce(m, w, r, f);
    HoldingMoves(m, n, w, looked, r);
    OneCall(m, f.lookup);
    es := [M.Work(f.lookup)];
    if LookupStatus(w, Home(r), f.lookup) == 404 {
      var x, v := M.WorkStep(n, f.create), Created(looked, Home(r), r.spec, f.create);
      CreateOnce(n, looked, r, f);
      HoldingMoves(n, x, looked, v, r);
      OneCall(n, f.create);
      Then(m, es, [M.Work(f.create)], v, r, x.pc);
      es := es + [M.Work(f.create)];
    }
  }

  // ---- Collection ----

  lemma DropRun(m: M.World, w: World, r: Repository, f: Fates) returns (es: seq<M.Event>)
    requires Holding(m, w, r) && m.pc.DroppingCronJob?
    ensures Reaches(m, es, DropJob(w, r, f).world, r, M.Reporting(m.pc.at, DropJob(w, r, f).ok))
  {
    Snap(m, w, r);
    OneCall(m, f.deleteJob);
    es := [M.Work(f.deleteJob)];
    var n, v := M.WorkStep(m, f.deleteJob), DropJob(w, r, f).world;
    assert n == m.(pc := n.pc, cronJobs := n.cronJobs);
    forall job ensures JobAgrees(n, v, KeyOf(r), job) { assert JobAgrees(m, w, KeyOf(r), job); }
  }

  /** Where the worker stands after the policy is read. */
  function AfterPolicy(m: M.World, selected: Selected): M.Pc
    requires !m.pc.Idle?
  {
    if selected.policy.Some? then M.SettingRules(m.pc.at) else M.Reporting(m.pc.at, false)
  }

  /** The outcome of reading a policy as the machine has it: a read that finds nothing is a missing one. */
  function ReadOutcome(w: World, r: Repository, f: Fates): Outcome {
    if f.readPolicy.Done? && PolicyKey(r) !in w.policies then Missing else f.readPolicy
  }

  lemma ReadOnce(m: M.World, w: World, r: Repository, f: Fates)
    requires Holding(m, w, r) && m.pc.ReadingPolicy?
    ensures var n, o := M.WorkStep(m, ReadOutcome(w, r, f)), ReadOutcome(w, r, f);
            n == m.(pc := n.pc) &&
            n.pc == if o.Done? then M.SettingRules(m.pc.at)
                    else if o.Missing? && PolicyName(r.spec) == DEFAULT_POLICY_NAME then M.CreatingPolicy(m.pc.at)
                    else M.Reporting(m.pc.at, false)
  {
    Snap(m, w, r);
  }

  lemma CreatePolicyStep(m: M.World, w: World, r: Repository, o: Outcome)
    requires Holding(m, w, r) && m.pc.CreatingPolicy?
    ensures var n := M.WorkStep(m, o);
            n == if Applied(o) && DEFAULT_POLICY_NAME !in m.policies
                 then m.(policies := m.policies + {DEFAULT_POLICY_NAME},
                         pc := if o.Done? then M.SettingRules(m.pc.at) else M.Reporting(m.pc.at, false))
                 else m.(pc := M.Reporting(m.pc.at, false))
  {
    Snap(m, w, r);
  }

  lemma CreatePolicyOnce(m: M.World, w: World, r: Repository, f: Fates)
    requires Holding(m, w, r) && m.pc.CreatingPolicy? && PolicyName(r.spec) == DEFAULT_POLICY_NAME
    ensures var n, a := M.WorkStep(m, f.createPolicy), CreatePolicy(w, PolicyKey(r), f.createPolicy);
            Holding(n, a.world, r) && n.log == m.log && n.pc == AfterPolicy(m, a)
  {
    CreatePolicyStep(m, w, r, f.createPolicy);
    JobsCarry(m, M.WorkStep(m, f.createPolicy), w, CreatePolicy(w, PolicyKey(r), f.createPolicy).world, KeyOf(r));
  }

  lemma PolicyRun(m: M.World, w: World, r: Repository, f: Fates) returns (es: seq<M.Event>)
    requires Holding(m, w, r) && m.pc.ReadingPolicy?
    ensures Reaches(m, es, SelectPolicy(w, r, f).world, r, AfterPolicy(m, SelectPolicy(w, r, f)))
  {
    var o := ReadOutcome(w, r, f);
    var n := M.WorkStep(m, o);
    ReadOnce(m, w, r, f);
    HoldingMoves(m, n, w, w, r);
    OneCall(m, o);
    es := [M.Work(o)];
    if n.pc.CreatingPolicy? {
      CreatePolicyOnce(n, w, r, f);
      OneCall(n, f.createPolicy);
      var a := CreatePolicy(w, PolicyKey(r), f.createPolicy);
      Then(m, es, [M.Work(f.createPolicy)], a.world, r, AfterPolicy(n, a));
      es := es + [M.Work(f.createPolicy)];
    }
  }

  lemma RulesOnce(m: M.World, w: World, r: Repository, rules: Rules, f: Fates)
    requires Holding(m, w, r) && m.pc.SettingRules?
    ensures var n, a := M.WorkStep(m, f.putRules), SetRules(w, Home(r), rules, f);
            Holding(n, a.world, r) && n == m.(pc := n.pc) &&
            n.pc == if a.ok then M.WritingCronJob(m.pc.at) else M.Reporting(m.pc.at, false)
  {
    Snap(m, w, r);
    RulesFrame(w, Home(r), rules, f);
    HoldingMoves(m, M.WorkStep(m, f.putRules), w, SetRules(w, Home(r), rules, f).world, r);
  }

  /** Writing the CronJob as the machine has it: refusing to is a call that is not made. */
  function WriteOutcome(r: Repository, f: Fates): Outcome {
    if CredentialsNamespace(r.namespace, r.spec) == r.namespace then f.writeJob else Dropped
  }

  /** The CronJob can be written: it is not there, or nobody or the resource itself controls it. */
  predicate Writable(m: M.World, job: string) { job in m.cronJobs && m.cronJobs[job].Some? ==> m.cronJobs[job] == Some(m.name) }

  lemma WriteStep(m: M.World, w: World, r: Repository, o: Outcome)
    requires Holding(m, w, r) && m.pc.WritingCronJob?
    ensures var n, job := M.WorkStep(m, o), GcCronJobName(r.name);
            if Applied(o) && Writable(m, job) then n == m.(cronJobs := m.cronJobs[job := Some(r.name)], pc := M.Reporting(m.pc.at, o.Done?))
            else n == m.(pc := M.Reporting(m.pc.at, false))
  {
    Snap(m, w, r);
  }

  lemma WritableIsFree(m: M.World, w: World, r: Repository)
    requires Holding(m, w, r)
    ensures Writable(m, GcCronJobName(r.name)) <==> !JobTaken(w, r)
  {
    assert JobAgrees(m, w, KeyOf(r), GcCronJobName(r.name));
  }

  lemma JobWritten(m: M.World, n: M.World, w: World, r: Repository, j: CronJob)
    requires Holding(m, w, r) && j.controller == Owner(r)
    requires n == m.(cronJobs := m.cronJobs[GcCronJobName(r.name) := Some(r.name)], pc := n.pc) && !n.pc.Idle? && n.pc.at == m.pc.at
    ensures Holding(n, w.(cronJobs := w.cronJobs[JobKey(r) := j]), r)
  {
    var v := w.(cronJobs := w.cronJobs[JobKey(r) := j]);
    forall job ensures JobAgrees(n, v, KeyOf(r), job) {
      assert JobAgrees(m, w, KeyOf(r), job);
    }
  }

  lemma WriteOnce(m: M.World, w: World, r: Repository, p: Policy, f: Fates)
    requires Holding(m, w, r) && m.pc.WritingCronJob?
    ensures var n, a := M.WorkStep(m, WriteOutcome(r, f)), WriteJob(w, r, p, f);
            Holding(n, a.world, r) && n.log == m.log && n.pc == M.Reporting(m.pc.at, a.ok)
  {
    var o, n := WriteOutcome(r, f), M.WorkStep(m, WriteOutcome(r, f));
    WriteStep(m, w, r, o);
    WritableIsFree(m, w, r);
    if Applied(o) && !JobTaken(w, r) {
      JobWritten(m, n, w, r, MergedJob(w, r, p));
    } else {
      HoldingMoves(m, n, w, w, r);
    }
  }

  lemma ApplyRun(m: M.World, w: World, r: Repository, p: Policy, f: Fates) returns (es: seq<M.Event>)
    requires Holding(m, w, r) && m.pc.SettingRules?
    ensures Reaches(m, es, ApplyPolicy(w, r, p, f).world, r, M.Reporting(m.pc.at, ApplyPolicy(w, r, p, f).ready))
  {
    var n, a := M.WorkStep(m, f.putRules), SetRules(w, Home(r), RulesOf(p), f);
    RulesOnce(m, w, r, RulesOf(p), f);
    OneCall(m, f.putRules);
    es := [M.Work(f.putRules)];
    if a.ok {
      var o, b := WriteOutcome(r, f), WriteJob(a.world, r, p, f);
      WriteOnce(n, a.world, r, p, f);
      OneCall(n, o);
      Then(m, es, [M.Work(o)], b.world, r, M.Reporting(m.pc.at, b.ok));
      es := es + [M.Work(o)];
    }
  }

  lemma PolicyAndRulesRun(m: M.World, w: World, r: Repository, f: Fates) returns (es: seq<M.Event>)
    requires Holding(m, w, r) && m.pc.ReadingPolicy? && GCEnabled(r.spec)
    ensures Reaches(m, es, Manage(w, r, f).world, r, M.Reporting(m.pc.at, Manage(w, r, f).ready))
  {
    es := PolicyRun(m, w, r, f);
    var selected := SelectPolicy(w, r, f);
    if selected.policy.Some? {
      var p := selected.policy.value;
      var fs := ApplyRun(M.Run(m, es), selected.world, r, p, f);
      var a := ApplyPolicy(selected.world, r, p, f);
      Then(m, es, fs, a.world, r, M.Reporting(m.pc.at, a.ready));
      es := es + fs;
    }
  }

  lemma ManageRun(m: M.World, w: World, r: Repository, f: Fates) returns (es: seq<M.Event>)
    requires Holding(m, w, r) && m.pc == M.Ensured(M.Latest(m).value, m.pc.at)
    ensures Reaches(m, es, Manage(w, r, f).world, r, M.Reporting(m.pc.at, Manage(w, r, f).ready))
  {
    Snap(m, w, r);
    if GCEnabled(r.spec) { es := PolicyAndRulesRun(m, w, r, f); } else { es := DropRun(m, w, r, f); }
  }

  // ---- A live resource ----

  lemma WithoutCredentials(m: M.World, w: World, r: Repository)
    requires Holding(m, w, r) && m.pc.Looking?
    ensures Reaches(m, [M.Work(Dropped)], w, r, M.Reporting(m.pc.at, false))
  {
    Snap(m, w, r);
    OneCall(m, Dropped);
    HoldingMoves(m, M.WorkStep(m, Dropped), w, w, r);
  }

  lemma LakeAndRestRun(m: M.World, w: World, r: Repository, f: Fates) returns (es: seq<M.Event>)
    requires Holding(m, w, r) && m.pc.Looking? && Creatable(r.name, r.spec) && HasCredentials(w, r, f)
    ensures Reaches(m, es, EnsureRepository(w, r, f).world, r, M.Reporting(m.pc.at, EnsureRepository(w, r, f).ready))
  {
    es := LakeRun(m, w, r, f);
    var lake := EnsureLake(w, r, f);
    if lake.ok {
      var n := M.Run(m, es);
      var fs := ManageRun(n, lake.world, r, f);
      var a := Manage(lake.world, r, f);
      Then(m, es, fs, a.world, r, M.Reporting(m.pc.at, a.ready));
      es := es + fs;
    }
  }

  lemma EnsureRun(m: M.World, w: World, r: Repository, f: Fates) returns (es: seq<M.Event>)
    requires Holding(m, w, r) && m.pc == M.Validate(M.Latest(m).value, m.pc.at)
    ensures Reaches(m, es, EnsureRepository(w, r, f).world, r, M.Reporting(m.pc.at, EnsureRepository(w, r, f).ready))
  {
    Snap(m, w, r);
    if !Creatable(r.name, r.spec) {
      es := [];
      assert M.Run(m, es) == m;
    } else if !HasCredentials(w, r, f) {
      WithoutCredentials(m, w, r);
      es := [M.Work(Dropped)];
    } else {
      es := LakeAndRestRun(m, w, r, f);
    }
  }

  lemma ReportOnce(m: M.World, w: World, r: Repository, ready: bool, f: Fates)
    requires Holding(m, w, r) && m.pc == M.Reporting(m.pc.at, ready)
    ensures var n, v := M.WorkStep(m, f.status), if Applied(f.status) then Put(w, r.(status := StatusOf(r, ready))) else w;
            Agrees(n, v, KeyOf(r)) && n.pc.Idle?
  {
    Snap(m, w, r);
    var n, a := M.WorkStep(m, f.status), M.Latest(m).value.(ready := ready);
    if Applied(f.status) {
      NewVersion(m, n, w, r, a, r.(status := StatusOf(r, ready)));
    } else {
      JobsCarry(m, n, w, w, KeyOf(r));
    }
  }

  lemma LiveRun(m: M.World, w: World, r: Repository, f: Fates) returns (es: seq<M.Event>)
    requires Holding(m, w, r) && m.pc == M.Validate(M.Latest(m).value, m.pc.at)
    ensures OnlyWork(es) && Agrees(M.Run(m, es), ReconcileLive(w, r, f), KeyOf(r)) && M.Run(m, es).pc.Idle?
  {
    es := EnsureRun(m, w, r, f);
    var a := EnsureRepository(w, r, f);
    ReportOnce(M.Run(m, es), a.world, r, a.ready, f);
    OneCall(M.Run(m, es), f.status);
    M.RunAppend(m, es, [M.Work(f.status)]);
    es := es + [M.Work(f.status)];
  }

  // ---- Finalizers ----

  lemma AddStep(m: M.World, w: World, r: Repository, o: Outcome)
    requires Holding(m, w, r) && m.pc.Adding?
    ensures var n, a := M.WorkStep(m, o), M.Latest(m).value.(finalizer := true);
            n == if Applied(o) then M.Append(m, Some(a)).(pc := if o.Done? then M.Validate(a, m.pc.at + 1) else M.Idle)
                 else m.(pc := M.Idle)
  {
    Snap(m, w, r);
  }

  /** The resource gets a new version; nothing else moves. */
  lemma NewVersion(m: M.World, n: M.World, w: World, r: Repository, a: M.Resource, s: Repository)
    requires Agrees(m, w, KeyOf(r)) && KeyOf(s) == KeyOf(r) && ResourceAgrees(a, s)
    requires n == M.Append(m, Some(a)).(pc := n.pc)
    ensures Agrees(n, Put(w, s), KeyOf(r))
  {
    var v := Put(w, s);
    assert M.Latest(n) == Some(a);
    JobsCarry(m, n, w, v, KeyOf(r));
  }

  lemma JobsCarry(m: M.World, n: M.World, w: World, v: World, k: Key)
    requires n.cronJobs == m.cronJobs && v.cronJobs == w.cronJobs
    requires forall job :: JobAgrees(m, w, k, job)
    ensures forall job :: JobAgrees(n, v, k, job)
  {
    forall job ensures JobAgrees(n, v, k, job) { assert JobAgrees(m, w, k, job); }
  }

  lemma AddOnce(m: M.World, w: World, r: Repository, f: Fates)
    requires Holding(m, w, r) && m.pc.Adding?
    ensures var n, s := M.WorkStep(m, f.update), r.(finalizer := true);
            var v := if Applied(f.update) then Put(w, s) else w;
            Agrees(n, v, KeyOf(r)) &&
            if f.update.Done? then Holding(n, v, s) && n.pc == M.Validate(M.Latest(n).value, n.pc.at) else n.pc.Idle?
  {
    AddStep(m, w, r, f.update);
    var n := M.WorkStep(m, f.update);
    if Applied(f.update) {
      NewVersion(m, n, w, r, M.Latest(m).value.(finalizer := true), r.(finalizer := true));
    } else {
      JobsCarry(m, n, w, w, KeyOf(r));
    }
  }

  lemma AddRun(m: M.World, w: World, r: Repository, f: Fates) returns (es: seq<M.Event>)
    requires Holding(m, w, r) && m.pc.Adding? && !r.deleting && !r.finalizer
    ensures OnlyWork(es) && Agrees(M.Run(m, es), Reconcile(w, KeyOf(r), f), KeyOf(r)) && M.Run(m, es).pc.Idle?
  {
    AddOnce(m, w, r, f);
    OneCall(m, f.update);
    es := [M.Work(f.update)];
    if f.update.Done? {
      var s := r.(finalizer := true);
      var fs := LiveRun(M.Run(m, es), Put(w, s), s, f);
      M.RunAppend(m, es, fs);
      es := es + fs;
    }
  }

  lemma DeleteStep(m: M.World, w: World, r: Repository, o: Outcome)
    requires Holding(m, w, r) && m.pc.Deleting?
    ensures var n := M.WorkStep(m, o);
            n == m.(pc := if o.Done? then M.Deleted(m.pc.at) else M.Idle, remote := n.remote, ours := n.ours, confirmed := n.confirmed) &&
            n.remote == if Applied(o) then m.remote - {Home(r)} else m.remote
  {
    Snap(m, w, r);
  }

  lemma DeleteOnce(m: M.World, w: World, r: Repository, f: Fates)
    requires Holding(m, w, r) && m.pc.Deleting?
    ensures var n, a := M.WorkStep(m, f.delete), DeleteRemote(w, Home(r), f);
            Agrees(n, a.world, KeyOf(r)) && n.log == m.log &&
            if a.ok then Holding(n, a.world, r) && n.pc == M.Deleted(m.pc.at) else n.pc.Idle?
  {
    DeleteStep(m, w, r, f.delete);
    JobsCarry(m, M.WorkStep(m, f.delete), w, DeleteRemote(w, Home(r), f).world, KeyOf(r));
  }

  lemma ReleaseOnce(m: M.World, w: World, r: Repository, f: Fates)
    requires Holding(m, w, r) && m.pc.Deleted?
    ensures var n, v := M.WorkStep(m, f.update), if Applied(f.update) then w.(repositories := w.repositories - {KeyOf(r)}) else w;
            Agrees(n, v, KeyOf(r)) && n.pc.Idle?
  {
    Snap(m, w, r);
    var n, v := M.WorkStep(m, f.update), if Applied(f.update) then w.(repositories := w.repositories - {KeyOf(r)}) else w;
    assert n == m.(pc := M.Idle, log := n.log);
    forall job ensures JobAgrees(n, v, KeyOf(r), job) { assert JobAgrees(m, w, KeyOf(r), job); }
  }

  lemma NoDelete(m: M.World, w: World, r: Repository)
    requires Holding(m, w, r) && m.pc.Deleting?
    ensures var n := M.WorkStep(m, Dropped); Agrees(n, w, KeyOf(r)) && n.pc.Idle?
  {
    Snap(m, w, r);
    var n := M.WorkStep(m, Dropped);
    assert n == m.(pc := M.Idle);
    forall job ensures JobAgrees(n, w, KeyOf(r), job) { assert JobAgrees(m, w, KeyOf(r), job); }
  }

  lemma FinalizeRun(m: M.World, w: World, r: Repository, f: Fates) returns (es: seq<M.Event>)
    requires Holding(m, w, r) && m.pc.Deleting? && Reachable(r.name, r.spec)
    ensures OnlyWork(es) && Agrees(M.Run(m, es), Finalize(w, r, f), KeyOf(r)) && M.Run(m, es).pc.Idle?
  {
    if !HasCredentials(w, r, f) {
      NoDelete(m, w, r);
      OneCall(m, Dropped);
      es := [M.Work(Dropped)];
    } else {
      DeleteOnce(m, w, r, f);
      OneCall(m, f.delete);
      es := [M.Work(f.delete)];
      var gone := DeleteRemote(w, Home(r), f);
      if gone.ok {
        var n := M.Run(m, es);
        ReleaseOnce(n, gone.world, r, f);
        OneCall(n, f.update);
        M.RunAppend(m, es, [M.Work(f.update)]);
        es := es + [M.Work(f.update)];
      }
    }
  }

  // ---- One reconcile ----

  lemma Starts(m: M.World, w: World, k: Key)
    requires Agrees(m, w, k) && m.pc.Idle?
    ensures var n := M.Step(m, M.Get(|m.log| - 1));
            Agrees(n, w, k) && n.log == m.log && n.pc == M.Start(m, |m.log| - 1) &&
            (!n.pc.Idle? ==> k in w.repositories && Holding(n, w, w.repositories[k]))
  {
    var n := M.Step(m, M.Get(|m.log| - 1));
    assert n == m.(seen := |m.log| - 1, pc := n.pc);
    forall job ensures JobAgrees(n, w, k, job) { assert JobAgrees(m, w, k, job); }
  }

  lemma WorkRun(m: M.World, w: World, r: Repository, f: Fates) returns (es: seq<M.Event>)
    requires Holding(m, w, r) && m.pc == M.Start(m, m.pc.at)
    ensures OnlyWork(es) && Agrees(M.Run(m, es), Reconcile(w, KeyOf(r), f), KeyOf(r)) && M.Run(m, es).pc.Idle?
  {
    Snap(m, w, r);
    if r.deleting { es := FinalizeRun(m, w, r, f); }
    else if r.finalizer { es := LiveRun(m, w, r, f); }
    else { es := AddRun(m, w, r, f); }
  }

  lemma IdleMeans(m: M.World, w: World, k: Key)
    requires Agrees(m, w, k) && M.Start(m, |m.log| - 1).Idle? && k in w.repositories
    ensures var r := w.repositories[k]; r.deleting && (!r.finalizer || !Reachable(r.name, r.spec))
  {
  }

  lemma NothingToDo(w: World, k: Key, f: Fates)
    requires k in w.repositories ==> var r := w.repositories[k]; r.deleting && (!r.finalizer || !Reachable(r.name, r.spec))
    ensures Reconcile(w, k, f) == w
  {
    if k in w.repositories && w.repositories[k].finalizer { assert Finalize(w, w.repositories[k], f) == w; }
  }

  /**
   A reconcile, with any outcome of its calls, is a run of the machine in which the worker reads the current version and
   makes its calls with nobody moving between them: what the machine can never do, no reconcile does.
  */
  lemma ReconcileIsRun(m: M.World, w: World, k: Key, f: Fates) returns (es: seq<M.Event>)
    requires Agrees(m, w, k) && m.pc.Idle?
    ensures es != [] && es[0] == M.Get(|m.log| - 1) && OnlyWork(es[1..])
    ensures Agrees(M.Run(m, es), Reconcile(w, k, f), k) && M.Run(m, es).pc.Idle?
  {
    var get := M.Get(|m.log| - 1);
    var n := M.Step(m, get);
    Starts(m, w, k);
    var fs: seq<M.Event> := [];
    if n.pc.Idle? {
      if k in w.repositories { IdleMeans(m, w, k); }
      NothingToDo(w, k, f);
      assert M.Run(n, fs) == n;
    } else {
      fs := WorkRun(n, w, w.repositories[k], f);
    }
    es := [get] + fs;
    assert es[1..] == fs;
  }

  // ---- The machine's view of a world ----

  /** Who controls a CronJob, as far as the machine tells controllers apart: any other than the resource gets another name. */
  function OwnerOf(controller: Option<(string, string)>, name: string): Option<string> {
    if controller.None? then None else if controller == Some((REPOSITORY_KIND, name)) then Some(name) else Some(name + "'")
  }

  function ResourceOf(r: Repository): M.Resource { M.Resource(r.name, 0, r.spec, r.deleting, r.finalizer, false, r.status.ready) }

  /** The machine at rest on a world, with no history. */
  function MachineOf(w: World, k: Key): M.World {
    M.World(k.name, [if k in w.repositories then Some(ResourceOf(w.repositories[k])) else None], 0, w.lakes.Keys, {},
            map j | j in w.cronJobs && j.namespace == k.namespace :: j.name := OwnerOf(w.cronJobs[j].controller, k.name),
            set p | p in w.policies && p.namespace == k.namespace :: p.name, {}, M.Idle)
  }

  /** Every world is one the machine can stand for. */
  lemma MachineAgrees(w: World, k: Key)
    requires k in w.repositories ==> KeyOf(w.repositories[k]) == k
    ensures Agrees(MachineOf(w, k), w, k) && MachineOf(w, k).pc.Idle?
  {
    var m := MachineOf(w, k);
    forall job ensures JobAgrees(m, w, k, job) {
      var at := Key(k.namespace, job);
      if at in w.cronJobs { assert at.name in m.cronJobs; }
      assert k.name + "'" != k.name;
    }
    forall n ensures n in m.policies <==> Key(k.namespace, n) in w.policies {
      if Key(k.namespace, n) in w.policies { assert Key(k.namespace, n).name in m.policies; }
    }
  }

  /** The lakeFS repositories the controller created and that still exist are guarded by the stored resource. */
  predicate Guarded(ours: set<Target>, w: World, k: Key) {
    forall t :: t in ours ==> t in w.lakes && k in w.repositories && w.repositories[k].finalizer && Home(w.repositories[k]) == t
  }

  /** What the machine keeps through every run, reconciles as a whole keep: none leaks a lakeFS repository, whatever fails. */
  lemma NoReconcileLeaks(m: M.World, w: World, k: Key, f: Fates) returns (es: seq<M.Event>)
    requires M.Safe(m) && Agrees(m, w, k) && m.pc.Idle?
    ensures es != [] && es[0] == M.Get(|m.log| - 1) && OnlyWork(es[1..])
    ensures var n, v := M.Run(m, es), Reconcile(w, k, f); M.Safe(n) && Agrees(n, v, k) && n.pc.Idle? && Guarded(n.ours, v, k)
  {
    es := ReconcileIsRun(m, w, k, f);
    assert forall e :: e in es ==> e == es[0] || e in es[1..];
    M.NoEdits(m, es);
    M.RunSafe(m, es);
    SafeIsGuarded(M.Run(m, es), Reconcile(w, k, f), k);
  }

  lemma SafeIsGuarded(m: M.World, w: World, k: Key)
    requires M.Safe(m) && Agrees(m, w, k)
    ensures Guarded(m.ours, w, k)
  {
    forall t | t in m.ours ensures t in w.lakes && k in w.repositories && w.repositories[k].finalizer && Home(w.repositories[k]) == t {
      assert M.Guards(m, t);
    }
  }
}
