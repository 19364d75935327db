/** The repository controller and its lakeFS client as code that changes the cluster and lakeFS step by step. */
module RepositoryController {
  import opened Text
  import opened RepositorySpecs
  import opened GarbageCollection
  import opened CronJobNames
  import opened KeyOrder
  import opened RepositoryReconciler

  class Cluster {
    var repositories: map<Key, Repository>
    var policies: map<Key, Policy>
    var cronJobs: map<Key, CronJob>
    var secrets: map<Key, map<string, string>>
    var lakes: map<Target, Lake>
    var calls: seq<RemoteCall>

    constructor (w: World)
      ensures View() == w
    {
      repositories, policies, cronJobs, secrets, lakes, calls :=
        w.repositories, w.policies, w.cronJobs, w.secrets, w.lakes, w.calls;
    }

    function View(): World
      reads this
    {
      World(repositories, policies, cronJobs, secrets, lakes, calls)
    }

    // ---- The lakeFS client ----

    /** After success the repository is there; one that was there is not touched, and no other is. */
    method EnsureLakeRepository(r: Repository, f: Fates) returns (ok: bool)
      modifies `lakes, `calls
      ensures Attempt(View(), ok) == EnsureLake(old(View()), r, f)
      ensures ok ==> Home(r) in lakes
      ensures Home(r) in old(lakes) ==> lakes == old(lakes)
      ensures lakes - {Home(r)} == old(lakes) - {Home(r)}
    {
      var t := Home(r);
      calls := calls + [Lookup(t)];
      var code := LookupStatus(View(), t, f.lookup);
      if code == 200 { return true; }
      if code != 404 { return false; }
      calls := calls + [CreateLake(t, r.spec.storage, BranchName(r.spec), r.spec.sampleData)];
      code := CreateStatus(View(), t, f.create);
      if Applied(f.create) && t !in lakes {
        lakes := lakes[t := Lake(r.spec.storage, BranchName(r.spec), r.spec.sampleData, None)];
      }
      ok := code == 200 || code == 201 || code == 409;
    }

    /** After success the repository has these rules; its other settings stay, and all other repositories. */
    method SetGCRules(t: Target, rules: Rules, f: Fates) returns (ok: bool)
      modifies `lakes, `calls
      ensures Attempt(View(), ok) == SetRules(old(View()), t, rules, f)
      ensures ok ==> t in lakes && lakes[t].rules == Some(rules)
      ensures lakes.Keys == old(lakes.Keys) && lakes - {t} == old(lakes) - {t}
      ensures t in lakes ==> lakes[t].(rules := None) == old(lakes)[t].(rules := None)
    {
      calls := calls + [PutRules(t, rules)];
      var code := RulesStatus(View(), t, f.putRules);
      if Applied(f.putRules) && t in lakes {
        lakes := lakes[t := lakes[t].(rules := Some(rules))];
      }
      ok := code == 200 || code == 204;
    }

    /** After success the repository is gone, and no other is. */
    method DeleteLakeRepository(t: Target, f: Fates) returns (ok: bool)
      modifies `lakes, `calls
      ensures Attempt(View(), ok) == DeleteRemote(old(View()), t, f)
      ensures (ok <==> f.delete.Done?) && (ok ==> t !in lakes)
      ensures lakes - {t} == old(lakes) - {t}
    {
      calls := calls + [DeleteLake(t)];
      var code := DeleteStatus(View(), t, f.delete);
      if Applied(f.delete) {
        lakes := lakes - {t};
      }
      ok := code == 204 || code == 404;
    }

    // ---- The CronJob ----

    /** After success the CronJob of the resource is gone, whether or not it was there, and no other is. */
    method DeleteGCCronJob(r: Repository, f: Fates) returns (ok: bool)
      modifies `cronJobs
      ensures View() == DropJob(old(View()), r, f).world && ok == DropJob(old(View()), r, f).ok
      ensures ok ==> JobKey(r) !in cronJobs
      ensures cronJobs - {JobKey(r)} == old(cronJobs) - {JobKey(r)}
    {
      if Applied(f.deleteJob) {
        cronJobs := cronJobs - {JobKey(r)};
      }
      ok := f.deleteJob.Done?;
    }

    /** The CronJob that is there, or a new one, edited in place; none if another object controls it. */
    method EditedJob(r: Repository, p: Policy) returns (edited: Option<CronJob>)
      ensures edited == if JobTaken(View(), r) then None else Some(MergedJob(View(), r, p))
    {
      var k := JobKey(r);
      var job := new CronJobObject(if k in cronJobs then cronJobs[k] else NEW_CRON_JOB);
      var mine := job.SetController((REPOSITORY_KIND, r.name));
      if !mine { return None; }
      job.Fill(r, p);
      edited := Some(job.View());
    }

    /** Creates the job or updates it in place, keeping the labels and the fields that are not the operator's. */
    method EnsureGCCronJob(r: Repository, p: Policy, f: Fates) returns (ok: bool)
      modifies `cronJobs
      ensures Attempt(View(), ok) == WriteJob(old(View()), r, p, f)
      ensures ok ==> JobKey(r) in cronJobs && cronJobs[JobKey(r)].spec == Derived(r, p) && cronJobs[JobKey(r)].controller == Owner(r)
      ensures cronJobs - {JobKey(r)} == old(cronJobs) - {JobKey(r)}
    {
      if CredentialsNamespace(r.namespace, r.spec) != r.namespace { return false; }
      var job := EditedJob(r, p);
      if job.None? { return false; }
      if Applied(f.writeJob) {
        cronJobs := cronJobs[JobKey(r) := job.value];
      }
      ok := f.writeJob.Done?;
    }

    // ---- The reconciler ----

    /**
     Reads the selected policy and creates the default one when it is missing. A policy returned is the stored one; no
     stored policy changes, and the only one ever added is the default of the namespace.
    */
    method ReadPolicy(r: Repository, f: Fates) returns (policy: Option<Policy>, failed: bool)
      modifies `policies
      ensures Selected(View(), policy, failed) == SelectPolicy(old(View()), r, f)
      ensures policy.Some? ==> !failed && PolicyKey(r) in policies && policies[PolicyKey(r)] == policy.value
      ensures forall k :: k in old(policies) ==> k in policies && policies[k] == old(policies)[k]
      ensures forall k :: k in policies && k !in old(policies) ==> k == Key(r.namespace, DEFAULT_POLICY_NAME) && policies[k] == DefaultPolicy()
    {
      var k := PolicyKey(r);
      if f.readPolicy.Done? && k in policies { return Some(policies[k]), false; }
      if f.readPolicy.Dropped? || f.readPolicy.ReplyLost? { return None, true; }
      if PolicyName(r.spec) != DEFAULT_POLICY_NAME { return None, false; }
      var present := k in policies;
      if !present && Applied(f.createPolicy) {
        policies := policies[k := DefaultPolicy()];
      }
      if !f.createPolicy.Done? { return None, true; }
      if present { return None, false; }
      return Some(DefaultPolicy()), false;
    }

    /** Retention rules and CronJob, once the repository exists in lakeFS. */
    method ManageGC(r: Repository, f: Fates) returns (ready: bool, failed: bool)
      modifies `policies, `cronJobs, `lakes, `calls
      ensures Result(View(), ready, failed) == Manage(old(View()), r, f)
    {
      if !GCEnabled(r.spec) {
        var dropped := DeleteGCCronJob(r, f);
        return dropped, !dropped;
      }
      var policy, unread := ReadPolicy(r, f);
      if policy.None? { return false, unread; }
      ghost var selected := View();
      var rules := BuildRules(policy.value);
      var ok := SetGCRules(Home(r), rules, f);
      if !ok { return false, true; }
      ok := EnsureGCCronJob(r, policy.value, f);
      assert Result(View(), ok, !ok) == ApplyPolicy(selected, r, policy.value, f);
      return ok, !ok;
    }

    method Ensure(r: Repository, f: Fates) returns (ready: bool, failed: bool)
      modifies `policies, `cronJobs, `lakes, `calls
      ensures Result(View(), ready, failed) == EnsureRepository(old(View()), r, f)
    {
      if !Creatable(r.name, r.spec) || !HasCredentials(View(), r, f) { return false, false; }
      var ok := EnsureLakeRepository(r, f);
      if !ok { return false, true; }
      ready, failed := ManageGC(r, f);
    }

    /** Ensures a live resource and records the outcome in its status. */
    method EnsureAndReport(r: Repository, f: Fates)
      modifies this
      ensures View() == ReconcileLive(old(View()), r, f)
      ensures old(repositories).Keys <= repositories.Keys
    {
      var ready, failed := Ensure(r, f);
      if Applied(f.status) {
        repositories := repositories[KeyOf(r) := r.(status := StatusOf(r, ready))];
      }
    }

    /** One reconcile of the resource stored under `k`. It is let go only after lakeFS answered that its repository is gone. */
    method ReconcileKey(k: Key, f: Fates)
      modifies this
      ensures View() == Reconcile(old(View()), k, f)
      ensures k in old(repositories) && k !in repositories ==>
              old(repositories)[k].deleting && old(repositories)[k].finalizer && f.delete.Done? && Home(old(repositories)[k]) !in lakes
    {
      if k !in repositories { return; }
      var r := repositories[k];
      if r.deleting {
        if !r.finalizer || !Reachable(r.name, r.spec) || !HasCredentials(View(), r, f) { return; }
        var gone := DeleteLakeRepository(Home(r), f);
        if gone && Applied(f.update) {
          repositories := repositories - {KeyOf(r)};
        }
        return;
      }
      if !r.finalizer {
        r := r.(finalizer := true);
        if Applied(f.update) {
          repositories := repositories[KeyOf(r) := r];
        }
        if !f.update.Done? { return; }
      }
      EnsureAndReport(r, f);
    }
  }
}
