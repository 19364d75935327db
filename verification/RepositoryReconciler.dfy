/**
 Reconciling a repository resource without interference: which calls are made to the API server and to lakeFS, what
 they leave behind, and what a Ready condition says about it. Every call may still fail.
*/
module RepositoryReconciler {
  import opened Text
  import opened RepositorySpecs
  import opened GarbageCollection
  import opened CronJobNames
  import opened KeyOrder

  /** A repository in lakeFS. */
  datatype Lake = Lake(storage: string, branch: string, sampleData: bool, rules: Option<Rules>)

  datatype RemoteCall =
    | Lookup(target: Target)
    | CreateLake(target: Target, storage: string, branch: string, sampleData: bool)
    | PutRules(target: Target, rules: Rules)
    | DeleteLake(target: Target)

  datatype World = World(
    repositories: map<Key, Repository>, policies: map<Key, Policy>, cronJobs: map<Key, CronJob>,
    secrets: map<Key, map<string, string>>, lakes: map<Target, Lake>, calls: seq<RemoteCall>)

  /** The outcome of every call one reconcile can make. */
  datatype Fates = Fates(
    update: Outcome, readSecret: Outcome, lookup: Outcome, create: Outcome, deleteJob: Outcome, readPolicy: Outcome,
    createPolicy: Outcome, putRules: Outcome, writeJob: Outcome, status: Outcome, delete: Outcome)

  const ALL_WELL := Fates(Done, Done, Done, Done, Done, Done, Done, Done, Done, Done, Done)

  const REPOSITORY_KIND := "LakeFSRepository"

  function KeyOf(r: Repository): Key { Key(r.namespace, r.name) }

  function Home(r: Repository): Target { TargetOf(r.name, r.spec) }

  function JobKey(r: Repository): Key { Key(r.namespace, GcCronJobName(r.name)) }

  function PolicyKey(r: Repository): Key { Key(r.namespace, PolicyName(r.spec)) }

  function Owner(r: Repository): Option<(string, string)> { Some((REPOSITORY_KIND, r.name)) }

  function Entry(t: map<string, string>, k: string): string { if k in t then t[k] else "" }

  // ---- lakeFS, by status code ----

  /** A lookup may find nothing although the repository is there by the time of the next call. */
  function LookupStatus(w: World, t: Target, o: Outcome): int {
    if o.Missing? then 404 else if !o.Done? then 500 else if t in w.lakes then 200 else 404
  }

  function CreateStatus(w: World, t: Target, o: Outcome): int {
    if !o.Done? then 500 else if t in w.lakes then 409 else 201
  }

  function RulesStatus(w: World, t: Target, o: Outcome): int {
    if !o.Done? then 500 else if t in w.lakes then 204 else 404
  }

  function DeleteStatus(w: World, t: Target, o: Outcome): int {
    if !o.Done? then 500 else if t in w.lakes then 204 else 404
  }

  function Called(w: World, call: RemoteCall): World { w.(calls := w.calls + [call]) }

  /** Creating an existing repository is a conflict and changes nothing. */
  function Created(w: World, t: Target, s: Spec, o: Outcome): World {
    var w' := Called(w, CreateLake(t, s.storage, BranchName(s), s.sampleData));
    if Applied(o) && t !in w.lakes then w'.(lakes := w.lakes[t := Lake(s.storage, BranchName(s), s.sampleData, None)]) else w'
  }

  function RulesPut(w: World, t: Target, rules: Rules, o: Outcome): World {
    var w' := Called(w, PutRules(t, rules));
    if Applied(o) && t in w.lakes then w'.(lakes := w.lakes[t := w.lakes[t].(rules := Some(rules))]) else w'
  }

  function LakeDeleted(w: World, t: Target, o: Outcome): World {
    var w' := Called(w, DeleteLake(t));
    if Applied(o) then w'.(lakes := w.lakes - {t}) else w'
  }

  /** A world and whether the step succeeded. */
  datatype Attempt = Attempt(world: World, ok: bool)

  function EnsureLake(w: World, r: Repository, f: Fates): Attempt {
    var t := Home(r);
    var found := LookupStatus(w, t, f.lookup);
    var looked := Called(w, Lookup(t));
    if found == 200 then Attempt(looked, true)
    else if found != 404 then Attempt(looked, false)
    else Attempt(Created(looked, t, r.spec, f.create), CreateStatus(looked, t, f.create) in {200, 201, 409})
  }

  function SetRules(w: World, t: Target, rules: Rules, f: Fates): Attempt {
    Attempt(RulesPut(w, t, rules, f.putRules), RulesStatus(w, t, f.putRules) in {200, 204})
  }

  function DeleteRemote(w: World, t: Target, f: Fates): Attempt {
    Attempt(LakeDeleted(w, t, f.delete), DeleteStatus(w, t, f.delete) in {204, 404})
  }

  // ---- The reconciler's steps ----

  predicate HasCredentials(w: World, r: Repository, f: Fates) {
    var k := Key(CredentialsNamespace(r.namespace, r.spec), r.spec.credentials.name);
    && f.readSecret.Done? && k in w.secrets
    && Entry(w.secrets[k], AccessKeyKey(r.spec)) != "" && Entry(w.secrets[k], SecretKeyKey(r.spec)) != ""
  }

  function DropJob(w: World, r: Repository, f: Fates): Attempt {
    Attempt(if Applied(f.deleteJob) then w.(cronJobs := w.cronJobs - {JobKey(r)}) else w, f.deleteJob.Done?)
  }

  /** The policy a repository selects, created if it is the default one; None with `failed` for a failed call. */
  datatype Selected = Selected(world: World, policy: Option<Policy>, failed: bool)

  function SelectPolicy(w: World, r: Repository, f: Fates): Selected {
    var k := PolicyKey(r);
    if f.readPolicy.Dropped? || f.readPolicy.ReplyLost? then Selected(w, None, true)
    else if f.readPolicy.Done? && k in w.policies then Selected(w, Some(w.policies[k]), false)
    else if PolicyName(r.spec) != DEFAULT_POLICY_NAME then Selected(w, None, false)
    else CreatePolicy(w, k, f.createPolicy)
  }

  /** Creating the default policy fails if it is there already, which a stale read may not have shown; that is no error. */
  function CreatePolicy(w: World, k: Key, o: Outcome): Selected {
    if k in w.policies then Selected(w, None, !o.Done?)
    else
      var w' := if Applied(o) then w.(policies := w.policies[k := DefaultPolicy()]) else w;
      if o.Done? then Selected(w', Some(DefaultPolicy()), false) else Selected(w', None, true)
  }

  /** The CronJob as it is written: labels already there stay unless the operator sets them, and so do fields it never sets. */
  function MergedJob(w: World, r: Repository, p: Policy): CronJob {
    var k := JobKey(r);
    var was := if k in w.cronJobs then w.cronJobs[k] else NEW_CRON_JOB;
    was.(labels := was.labels + GcLabels(r, p), controller := Owner(r), spec := Derived(r, p))
  }

  /** Another object controls the CronJob of that name. */
  predicate JobTaken(w: World, r: Repository) {
    var k := JobKey(r);
    k in w.cronJobs && w.cronJobs[k].controller.Some? && w.cronJobs[k].controller != Owner(r)
  }

  function WriteJob(w: World, r: Repository, p: Policy, f: Fates): Attempt {
    if CredentialsNamespace(r.namespace, r.spec) != r.namespace || JobTaken(w, r) then Attempt(w, false)
    else
      Attempt(if Applied(f.writeJob) then w.(cronJobs := w.cronJobs[JobKey(r) := MergedJob(w, r, p)]) else w, f.writeJob.Done?)
  }

  /** What ensuring leaves, the condition it reports, and whether it returns an error. */
  datatype Result = Result(world: World, ready: bool, failed: bool)

  function ApplyPolicy(w: World, r: Repository, p: Policy, f: Fates): Result {
    var rules := SetRules(w, Home(r), RulesOf(p), f);
    if !rules.ok then Result(rules.world, false, true)
    else
      var job := WriteJob(rules.world, r, p, f);
      Result(job.world, job.ok, !job.ok)
  }

  function Manage(w: World, r: Repository, f: Fates): Result {
    if !GCEnabled(r.spec) then
      var drop := DropJob(w, r, f);
      Result(drop.world, drop.ok, !drop.ok)
    else
      var selected := SelectPolicy(w, r, f);
      if selected.policy.None? then Result(selected.world, false, selected.failed)
      else ApplyPolicy(selected.world, r, selected.policy.value, f)
  }

  function EnsureRepository(w: World, r: Repository, f: Fates): Result {
    if !Creatable(r.name, r.spec) || !HasCredentials(w, r, f) then Result(w, false, false)
    else
      var lake := EnsureLake(w, r, f);
      if !lake.ok then Result(lake.world, false, true) else Manage(lake.world, r, f)
  }

  function StatusOf(r: Repository, ready: bool): Status {
    if GCEnabled(r.spec) then Status(RepositoryName(r.name, r.spec), PolicyName(r.spec), GcCronJobName(r.name), ready)
    else Status(RepositoryName(r.name, r.spec), "", "", ready)
  }

  function Put(w: World, r: Repository): World { w.(repositories := w.repositories[KeyOf(r) := r]) }

  /** Deleting what a deleted resource stands for, then the resource. */
  function Finalize(w: World, r: Repository, f: Fates): World {
    if !Reachable(r.name, r.spec) || !HasCredentials(w, r, f) then w
    else
      var gone := DeleteRemote(w, Home(r), f);
      if gone.ok && Applied(f.update) then gone.world.(repositories := gone.world.repositories - {KeyOf(r)}) else gone.world
  }

  function ReconcileLive(w: World, r: Repository, f: Fates): World {
    var result := EnsureRepository(w, r, f);
    if Applied(f.status) then Put(result.world, r.(status := StatusOf(r, result.ready))) else result.world
  }

  function Reconcile(w: World, k: Key, f: Fates): World {
    if k !in w.repositories then w
    else
      var r := w.repositories[k];
      if r.deleting then (if r.finalizer then Finalize(w, r, f) else w)
      else if r.finalizer then ReconcileLive(w, r, f)
      else
        var r' := r.(finalizer := true);
        if f.update.Done? then ReconcileLive(Put(w, r'), r', f)
        else if f.update.ReplyLost? then Put(w, r')
        else w
  }
}
