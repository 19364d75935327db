/**
 The reconciler of one LakeFSRepository resource as a machine with a program counter, with everybody else moving
 between its calls and every call free to fail, before or after it took effect.

 Reads of the resource come from a cache that never goes back: a read returns some version not older than the last one
 read. Writes are checked against the version they started from. There is one worker for the resource.
*/
module RepositoryMachine {
  import opened Text
  import opened CronJobNames
  import opened RepositorySpecs

  /** A version of the resource. `others` stands for finalizers of other controllers. */
  datatype Resource = Resource(name: string, uid: nat, spec: Spec, deleting: bool, finalizer: bool, others: bool, ready: bool)

  /** The lakeFS repository a version of the resource stands for. */
  function Home(r: Resource): Target { TargetOf(r.name, r.spec) }

  /** Where the worker stands; every place but Idle names the version it works on. */
  datatype Pc =
    | Idle
    | Deleting(at: nat)              // about to delete the lakeFS repository
    | Deleted(at: nat)               // told that it is gone; about to drop the finalizer
    | Adding(at: nat)                // about to add the finalizer
    | Looking(at: nat)               // about to ask whether the lakeFS repository exists
    | Creating(at: nat)              // told that it does not; about to create it
    | DroppingCronJob(at: nat)       // collection disabled; about to delete the CronJob
    | ReadingPolicy(at: nat)
    | CreatingPolicy(at: nat)        // default policy not found; about to create it
    | SettingRules(at: nat)
    | WritingCronJob(at: nat)
    | Reporting(at: nat, ready: bool) // about to update the status

  datatype Event =
    | Get(version: nat)            // the worker starts on a cached version
    | Work(outcome: Outcome)       // the worker's next call
    | Edit(spec: Spec)             // somebody edits the resource
    | Delete                       // somebody deletes it
    | Create(spec: Spec, others: bool)
    | OtherFinalizers(others: bool)
    | Remote(target: Target, present: bool)         // somebody creates or deletes a lakeFS repository
    | Policy(policy: string, present: bool)         // somebody creates or deletes a policy
    | ForeignCronJob(job: string, owner: Option<string>) // somebody creates or deletes a CronJob this resource does not own

  /**
   log: every version the resource went through, None where it is absent. seen: the last version read.
   remote: lakeFS repositories that exist. ours: those of them this controller created. cronJobs: CronJobs of the
   namespace with the repository resource that controls them, if one does. confirmed: for which incarnation of the
   resource the deletion of which lakeFS repository was confirmed.
  */
  datatype World = World(
    name: string, log: seq<Option<Resource>>, seen: nat, remote: set<Target>, ours: set<Target>,
    cronJobs: map<string, Option<string>>, policies: set<string>, confirmed: set<(nat, Target)>, pc: Pc)

  function Latest(w: World): Option<Resource>
    requires w.log != []
  {
    w.log[|w.log| - 1]
  }

  function Append(w: World, r: Option<Resource>): World { w.(log := w.log + [r]) }

  /** The version the worker holds is the current one, so that its write is accepted. */
  predicate Current(w: World, at: nat) { at + 1 == |w.log| }

  function Snapshot(w: World, at: nat): Resource
    requires at < |w.log| && w.log[at].Some?
  {
    w.log[at].value
  }

  /** The reconciler's first decisions about what it read. */
  function Start(w: World, at: nat): Pc
    requires at < |w.log|
  {
    if w.log[at].None? then Idle
    else
      var r := w.log[at].value;
      if r.deleting then
        if !r.finalizer || !Reachable(r.name, r.spec) then Idle else Deleting(at)
      else if r.finalizer then Validate(r, at)
      else Adding(at)
  }

  function Validate(r: Resource, at: nat): Pc {
    if Creatable(r.name, r.spec) then Looking(at) else Reporting(at, false)
  }

  /** Where the worker goes once the lakeFS repository exists. */
  function Ensured(r: Resource, at: nat): Pc {
    if GCEnabled(r.spec) then ReadingPolicy(at) else DroppingCronJob(at)
  }

  /** The resource without this controller's finalizer: gone, unless other finalizers keep it. */
  function Released(r: Resource): Option<Resource> {
    if r.others then Some(r.(finalizer := false)) else None
  }

  /** One call of the worker. */
  function WorkStep(w: World, o: Outcome): World
    requires w.log != []
  {
    if w.pc.Idle? || !(w.pc.at < |w.log| && w.log[w.pc.at].Some?) then w
    else
      var at := w.pc.at;
      var r := Snapshot(w, at);
      var t := Home(r);
      var failed := w.(pc := Reporting(at, false));
      match w.pc
      case Deleting(_) =>
        if Applied(o) then
          var w' := w.(remote := w.remote - {t}, ours := w.ours - {t});
          if o.Done? then w'.(pc := Deleted(at), confirmed := w.confirmed + {(r.uid, t)}) else w'.(pc := Idle)
        else w.(pc := Idle)
      case Deleted(_) =>
        (if Applied(o) && Current(w, at) then Append(w, Released(r)) else w).(pc := Idle)
      case Adding(_) =>
        if Applied(o) && Current(w, at) then
          var r' := r.(finalizer := true);
          Append(w, Some(r')).(pc := if o.Done? then Validate(r', at + 1) else Idle)
        else w.(pc := Idle)
      case Looking(_) =>
        if o.Missing? then w.(pc := Creating(at))
        else if !o.Done? then failed
        else if t in w.remote then w.(pc := Ensured(r, at))
        else w.(pc := Creating(at))
      case Creating(_) =>
        var created := if Applied(o) && t !in w.remote then w.(remote := w.remote + {t}, ours := w.ours + {t}) else w;
        created.(pc := if o.Done? then Ensured(r, at) else Reporting(at, false))
      case DroppingCronJob(_) =>
        var job := GcCronJobName(r.name);
        var w' := if Applied(o) then w.(cronJobs := w.cronJobs - {job}) else w;
        w'.(pc := Reporting(at, o.Done?))
      case ReadingPolicy(_) =>
        if o.Done? then w.(pc := SettingRules(at))
        else if o.Missing? && PolicyName(r.spec) == DEFAULT_POLICY_NAME then w.(pc := CreatingPolicy(at))
        else failed
      case CreatingPolicy(_) =>
        if Applied(o) && DEFAULT_POLICY_NAME !in w.policies then
          w.(policies := w.policies + {DEFAULT_POLICY_NAME}, pc := if o.Done? then SettingRules(at) else Reporting(at, false))
        else failed
      case SettingRules(_) =>
        if o.Done? && t in w.remote then w.(pc := WritingCronJob(at)) else failed
      case WritingCronJob(_) =>
        var job := GcCronJobName(r.name);
        if Applied(o) && (job in w.cronJobs && w.cronJobs[job].Some? ==> w.cronJobs[job] == Some(r.name)) then
          w.(cronJobs := w.cronJobs[job := Some(r.name)], pc := Reporting(at, o.Done?))
        else failed
      case Reporting(_, ready) =>
        (if Applied(o) && Current(w, at) then Append(w, Some(r.(ready := ready))) else w).(pc := Idle)
  }

  function Step(w: World, e: Event): World
    requires w.log != []
    ensures Step(w, e).log != []
  {
    match e
    case Get(version) =>
      if w.pc.Idle? && w.seen <= version < |w.log| then w.(seen := version, pc := Start(w, version)) else w
    case Work(o) => WorkStep(w, o)
    case Edit(spec) =>
      if Latest(w).Some? then Append(w, Some(Latest(w).value.(spec := spec))) else w
    case Delete =>
      if Latest(w).None? || Latest(w).value.deleting then w
      else if Latest(w).value.finalizer || Latest(w).value.others then Append(w, Some(Latest(w).value.(deleting := true)))
      else Append(w, None)
    case Create(spec, others) =>
      if Latest(w).None? then Append(w, Some(Resource(w.name, |w.log|, spec, false, false, others, false))) else w
    case OtherFinalizers(others) =>
      if Latest(w).None? || (Latest(w).value.deleting && others) then w
      else
        var r := Latest(w).value.(others := others);
        if r.deleting && !r.finalizer && !others then Append(w, None) else Append(w, Some(r))
    case Remote(t, present) =>
      if present then w.(remote := w.remote + {t}) else w.(remote := w.remote - {t}, ours := w.ours - {t})
    case Policy(n, present) => w.(policies := if present then w.policies + {n} else w.policies - {n})
    case ForeignCronJob(n, owner) =>
      if n in w.cronJobs then (if w.cronJobs[n] != Some(w.name) then w.(cronJobs := w.cronJobs - {n}) else w)
      else if owner == Some(w.name) then w
      else w.(cronJobs := w.cronJobs[n := owner])
  }

  function Run(w: World, events: seq<Event>): (r: World)
    requires w.log != []
    ensures r.log != []
    decreases |events|
  {
    if events == [] then w else Run(Step(w, events[0]), events[1..])
  }

  /** Somebody edits the resource so that it stands for another lakeFS repository. */
  predicate Retargets(w: World, e: Event)
    requires w.log != []
  {
    e.Edit? && Latest(w).Some? && Home(Latest(w).value.(spec := e.spec)) != Home(Latest(w).value)
  }

  predicate NeverRetargets(w: World, events: seq<Event>)
    requires w.log != []
    decreases |events|
  {
    events != [] ==> !Retargets(w, events[0]) && NeverRetargets(Step(w, events[0]), events[1..])
  }

  /** The resource is there, carries this controller's finalizer and stands for this lakeFS repository. */
  predicate Guards(w: World, t: Target)
    requires w.log != []
  {
    Latest(w).Some? && Latest(w).value.finalizer && Home(Latest(w).value) == t
  }

  /** A version on which the worker would create. */
  predicate LiveAndFinalized(r: Option<Resource>) {
    r.Some? && r.value.finalizer && !r.value.deleting
  }

  /** The versions the cache may still return: one with the finalizer and not deleted means the resource still has it. */
  predicate CacheSafe(w: World)
    requires w.log != []
  {
    forall i :: w.seen <= i < |w.log| && LiveAndFinalized(w.log[i]) ==> Guards(w, Home(w.log[i].value))
  }

  /** The version the worker holds has the form its place in the program promises. */
  predicate PcSafe(w: World)
    requires w.log != []
  {
    w.pc.Idle? ||
    (&& w.seen <= w.pc.at < |w.log| && w.log[w.pc.at].Some?
     && match w.pc
        case Deleting(at) => at == w.seen && w.log[at].value.deleting && w.log[at].value.finalizer
        case Deleted(at) =>
          && at == w.seen && w.log[at].value.deleting && w.log[at].value.finalizer
          && Home(w.log[at].value) !in w.ours
          && (w.log[at].value.uid, Home(w.log[at].value)) in w.confirmed
        case Adding(at) => !w.log[at].value.deleting && !w.log[at].value.finalizer
        case Reporting(_, _) => true
        case _ => LiveAndFinalized(w.log[w.pc.at]))
  }

  /** Every lakeFS repository this controller created and that still exists is guarded. */
  predicate NoLeak(w: World)
    requires w.log != []
  {
    w.ours <= w.remote && forall t :: t in w.ours ==> Guards(w, t)
  }

  /** An incarnation that ever carried the finalizer still does, or the deletion of its lakeFS repository was confirmed. */
  predicate FinalizerKept(w: World)
    requires w.log != []
  {
    forall i :: 0 <= i < |w.log| && w.log[i].Some? && w.log[i].value.finalizer ==>
      var r := w.log[i].value;
      || (r.uid, Home(r)) in w.confirmed
      || (Latest(w).Some? && Latest(w).value.uid == r.uid && Latest(w).value.finalizer && Home(Latest(w).value) == Home(r))
  }

  /** CronJobs this resource controls all have the one name derived from its own. */
  predicate OneCronJob(w: World) {
    forall job :: job in w.cronJobs && w.cronJobs[job] == Some(w.name) ==> job == GcCronJobName(w.name)
  }

  predicate Named(w: World) {
    forall i :: 0 <= i < |w.log| && w.log[i].Some? ==> w.log[i].value.name == w.name
  }

  predicate Safe(w: World) {
    w.log != [] && w.seen < |w.log| && CacheSafe(w) && PcSafe(w) && NoLeak(w) && FinalizerKept(w) && OneCronJob(w) && Named(w)
  }

  /** A new version of the same incarnation that stands for the same repository and keeps the finalizer. */
  predicate Carries(w: World, r: Option<Resource>)
    requires w.log != []
  {
    && Latest(w).Some? && r.Some? && r.value.name == w.name && r.value.uid == Latest(w).value.uid
    && Home(r.value) == Home(Latest(w).value) && (Latest(w).value.finalizer ==> r.value.finalizer)
  }

  lemma CarrySafe(w: World, r: Option<Resource>)
    requires Safe(w) && Carries(w, r)
    ensures Safe(Append(w, r))
  {
    var w' := Append(w, r);
    assert Latest(w') == r;
    assert forall i :: 0 <= i < |w.log| ==> w'.log[i] == w.log[i];
  }

  /** Nothing carries the finalizer, so anything without it may follow. */
  lemma UnguardedSafe(w: World, r: Option<Resource>)
    requires Safe(w) && (Latest(w).Some? ==> !Latest(w).value.finalizer)
    requires r.Some? ==> r.value.name == w.name && !r.value.finalizer
    ensures Safe(Append(w, r))
  {
    var w' := Append(w, r);
    assert Latest(w') == r;
    assert forall i :: 0 <= i < |w.log| ==> w'.log[i] == w.log[i];
    forall t ensures t !in w.ours { assert t in w.ours ==> Guards(w, t); }
  }

  /** The finalizer is dropped from the current version after its repository was confirmed gone. */
  lemma ReleaseSafe(w: World, at: nat)
    requires Safe(w) && w.pc == Deleted(at) && Current(w, at)
    ensures Safe(Append(w, Released(Snapshot(w, at))).(pc := Idle))
  {
    var w' := Append(w, Released(Snapshot(w, at))).(pc := Idle);
    assert Latest(w) == w.log[at];
    assert Latest(w') == Released(Snapshot(w, at));
    assert forall i :: 0 <= i < |w.log| ==> w'.log[i] == w.log[i];
    forall t ensures t !in w.ours { assert t in w.ours ==> Guards(w, t); }
  }

  /** Moving the program counter to a place whose promise holds. */
  lemma MoveSafe(w: World, pc: Pc)
    requires Safe(w) && PcSafe(w.(pc := pc))
    ensures Safe(w.(pc := pc))
  {
  }

  /** Removing a repository. */
  lemma RemoveSafe(w: World, t: Target)
    requires Safe(w)
    ensures Safe(w.(remote := w.remote - {t}, ours := w.ours - {t}))
  {
    var w' := w.(remote := w.remote - {t}, ours := w.ours - {t});
    forall u | u in w'.ours ensures Guards(w', u) { assert Guards(w, u); }
  }

  /** Creating a repository of our own while the resource guards it. */
  lemma CreateSafe(w: World, t: Target)
    requires Safe(w) && Guards(w, t) && !w.pc.Deleted?
    ensures Safe(w.(remote := w.remote + {t}, ours := w.ours + {t}))
  {
    var w' := w.(remote := w.remote + {t}, ours := w.ours + {t});
    forall u | u in w'.ours ensures Guards(w', u) { if u in w.ours { assert Guards(w, u); } }
  }

  lemma JobsSafe(w: World, jobs: map<string, Option<string>>)
    requires Safe(w) && OneCronJob(w.(cronJobs := jobs))
    ensures Safe(w.(cronJobs := jobs))
  {
  }

  lemma EditingSafe(w: World, e: Event)
    requires Safe(w) && (e.Edit? || e.Delete?) && !Retargets(w, e)
    ensures Safe(Step(w, e))
  {
    if Latest(w).Some? {
      var r := Latest(w).value;
      if e.Edit? {
        CarrySafe(w, Some(r.(spec := e.spec)));
      } else if !r.deleting {
        if r.finalizer || r.others { CarrySafe(w, Some(r.(deleting := true))); } else { UnguardedSafe(w, None); }
      }
    }
  }

  lemma LifetimeSafe(w: World, e: Event)
    requires Safe(w) && (e.Create? || e.OtherFinalizers?)
    ensures Safe(Step(w, e))
  {
    if e.Create? {
      if Latest(w).None? { UnguardedSafe(w, Some(Resource(w.name, |w.log|, e.spec, false, false, e.others, false))); }
    } else if Latest(w).Some? && !(Latest(w).value.deleting && e.others) {
      var r := Latest(w).value.(others := e.others);
      if r.deleting && !r.finalizer && !e.others { UnguardedSafe(w, None); } else { CarrySafe(w, Some(r)); }
    }
  }

  lemma OutsideSafe(w: World, e: Event)
    requires Safe(w) && (e.Remote? || e.Policy? || e.ForeignCronJob?)
    ensures Safe(Step(w, e))
  {
    if e.Remote? {
      if !e.present { RemoveSafe(w, e.target); }
    } else if e.ForeignCronJob? {
      JobsSafe(w, Step(w, e).cronJobs);
    }
  }

  lemma EnvironmentSafe(w: World, e: Event)
    requires Safe(w) && !e.Work? && !e.Get? && !Retargets(w, e)
    ensures Safe(Step(w, e))
  {
    if e.Edit? || e.Delete? { EditingSafe(w, e); }
    else if e.Create? || e.OtherFinalizers? { LifetimeSafe(w, e); }
    else { OutsideSafe(w, e); }
  }

  lemma GetSafe(w: World, version: nat)
    requires Safe(w)
    ensures Safe(Step(w, Get(version)))
  {
  }

  /** The worker's version is live and finalized, so the resource guards its repository now. */
  lemma HeldGuards(w: World)
    requires Safe(w) && !w.pc.Idle? && LiveAndFinalized(w.log[w.pc.at])
    ensures Guards(w, Home(Snapshot(w, w.pc.at)))
  {
  }

  lemma DeletingSafe(w: World, o: Outcome)
    requires Safe(w) && w.pc.Deleting?
    ensures Safe(WorkStep(w, o))
  {
    var at := w.pc.at;
    var t := Home(Snapshot(w, at));
    RemoveSafe(w, t);
    var w' := w.(remote := w.remote - {t}, ours := w.ours - {t});
    if !Applied(o) {
      MoveSafe(w, Idle);
    } else if o.ReplyLost? {
      MoveSafe(w', Idle);
    } else {
      var done := (Snapshot(w, at).uid, t);
      ConfirmSafe(w', done);
      MoveSafe(w'.(confirmed := w'.confirmed + {done}), Deleted(at));
    }
  }

  lemma ConfirmSafe(w: World, done: (nat, Target))
    requires Safe(w)
    ensures Safe(w.(confirmed := w.confirmed + {done}))
  {
  }

  /** The finalizer was added, whether or not the worker was told so. */
  lemma AddedSafe(w: World, at: nat, told: bool)
    requires Safe(w) && w.pc == Adding(at) && Current(w, at)
    ensures var r := Snapshot(w, at).(finalizer := true);
            Safe(Append(w, Some(r)).(pc := if told then Validate(r, at + 1) else Idle))
  {
    var r := Snapshot(w, at).(finalizer := true);
    assert Latest(w) == w.log[at];
    CarrySafe(w, Some(r));
    var w' := Append(w, Some(r));
    assert w'.log[at + 1] == Some(r);
    MoveSafe(w', if told then Validate(r, at + 1) else Idle);
  }

  lemma AddingSafe(w: World, o: Outcome)
    requires Safe(w) && w.pc.Adding?
    ensures Safe(WorkStep(w, o))
  {
    if Current(w, w.pc.at) { AddedSafe(w, w.pc.at, o.Done?); }
    MoveSafe(w, Idle);
  }

  lemma CreatingSafe(w: World, o: Outcome)
    requires Safe(w) && w.pc.Creating?
    ensures Safe(WorkStep(w, o))
  {
    var at := w.pc.at;
    var r := Snapshot(w, at);
    var t := Home(r);
    HeldGuards(w);
    CreateSafe(w, t);
    var w' := if Applied(o) && t !in w.remote then w.(remote := w.remote + {t}, ours := w.ours + {t}) else w;
    MoveSafe(w', if o.Done? then Ensured(r, at) else Reporting(at, false));
  }

  lemma ReportingSafe(w: World, o: Outcome)
    requires Safe(w) && w.pc.Reporting?
    ensures Safe(WorkStep(w, o))
  {
    var at := w.pc.at;
    var r := Snapshot(w, at);
    MoveSafe(w, Idle);
    if Current(w, at) {
      var r' := Some(r.(ready := w.pc.ready));
      assert Latest(w) == Some(r);
      CarrySafe(w, r');
      MoveSafe(Append(w, r'), Idle);
    }
  }

  lemma JobSafe(w: World, o: Outcome)
    requires Safe(w) && (w.pc.DroppingCronJob? || w.pc.WritingCronJob?)
    ensures Safe(WorkStep(w, o))
  {
    var w' := WorkStep(w, o);
    assert Snapshot(w, w.pc.at).name == w.name;
    JobsSafe(w, w'.cronJobs);
    MoveSafe(w.(cronJobs := w'.cronJobs), w'.pc);
  }

  /** The version held keeps its form while the worker moves on to report or to the next call on it. */
  lemma MoveOnSafe(w: World, pc: Pc)
    requires Safe(w) && !w.pc.Idle? && LiveAndFinalized(w.log[w.pc.at]) && !pc.Idle? && pc.at == w.pc.at
    requires !pc.Deleting? && !pc.Deleted? && !pc.Adding?
    ensures Safe(w.(pc := pc))
  {
    MoveSafe(w, pc);
  }

  /** Calls that leave the world as it is and only move the worker on. */
  lemma LookingSafe(w: World, o: Outcome)
    requires Safe(w) && w.pc.Looking?
    ensures Safe(WorkStep(w, o))
  {
    var pc := WorkStep(w, o).pc;
    assert WorkStep(w, o) == w.(pc := pc);
    MoveOnSafe(w, pc);
  }

  lemma ReadingSafe(w: World, o: Outcome)
    requires Safe(w) && (w.pc.ReadingPolicy? || w.pc.SettingRules?)
    ensures Safe(WorkStep(w, o))
  {
    var pc := WorkStep(w, o).pc;
    assert WorkStep(w, o) == w.(pc := pc);
    MoveOnSafe(w, pc);
  }

  lemma PoliciesSafe(w: World, policies: set<string>)
    requires Safe(w)
    ensures Safe(w.(policies := policies))
  {
  }

  lemma CreatingPolicySafe(w: World, o: Outcome)
    requires Safe(w) && w.pc.CreatingPolicy?
    ensures Safe(WorkStep(w, o))
  {
    var w' := WorkStep(w, o);
    PoliciesSafe(w, w'.policies);
    MoveSafe(w.(policies := w'.policies), w'.pc);
  }

  lemma DeletedSafe(w: World, o: Outcome)
    requires Safe(w) && w.pc.Deleted?
    ensures Safe(WorkStep(w, o))
  {
    MoveSafe(w, Idle);
    if Current(w, w.pc.at) { ReleaseSafe(w, w.pc.at); }
  }

  lemma WorkSafe(w: World, o: Outcome)
    requires Safe(w)
    ensures Safe(WorkStep(w, o))
  {
    if w.pc.Deleting? { DeletingSafe(w, o); }
    else if w.pc.Deleted? { DeletedSafe(w, o); }
    else if w.pc.Adding? { AddingSafe(w, o); }
    else if w.pc.Creating? { CreatingSafe(w, o); }
    else if w.pc.Reporting? { ReportingSafe(w, o); }
    else if w.pc.DroppingCronJob? || w.pc.WritingCronJob? { JobSafe(w, o); }
    else if w.pc.CreatingPolicy? { CreatingPolicySafe(w, o); }
    else if w.pc.Looking? { LookingSafe(w, o); }
    else if !w.pc.Idle? { ReadingSafe(w, o); }
  }

  lemma StepSafe(w: World, e: Event)
    requires Safe(w) && !Retargets(w, e)
    ensures Safe(Step(w, e))
  {
    match e
    case Work(o) => WorkSafe(w, o);
    case Get(version) => GetSafe(w, version);
    case _ => EnvironmentSafe(w, e);
  }

  lemma {:induction false} RunSafe(w: World, events: seq<Event>)
    requires Safe(w) && NeverRetargets(w, events)
    ensures Safe(Run(w, events))
    decreases |events|
  {
    if events != [] {
      StepSafe(w, events[0]);
      RunSafe(Step(w, events[0]), events[1..]);
    }
  }

  lemma WorkLeavesResource(w: World, o: Outcome)
    requires w.log != [] && !w.pc.Deleted? && Latest(w).Some?
    ensures Latest(WorkStep(w, o)).Some?
  {
  }

  lemma WorkVanishes(w: World, o: Outcome)
    requires Safe(w) && Latest(w).Some? && Latest(WorkStep(w, o)).None?
    ensures var r := Latest(w).value; r.deleting && r.finalizer && !r.others && w.pc == Deleted(|w.log| - 1)
  {
    if !w.pc.Deleted? { WorkLeavesResource(w, o); }
  }

  /**
   The resource vanishes only when its last finalizer is dropped: this controller's by the worker once it was told that the
   lakeFS repository is gone, and another's by somebody else.
  */
  lemma VanishesFinalized(w: World, e: Event)
    requires Safe(w) && Latest(w).Some? && Latest(Step(w, e)).None?
    ensures var r := Latest(w).value;
            (r.finalizer ==> e.Work? && r.deleting && w.pc == Deleted(|w.log| - 1)) && (r.others ==> e.OtherFinalizers? && !e.others)
  {
    if e.Work? { WorkVanishes(w, e.outcome); }
  }

  /** The resource does not exist, nothing was created or confirmed for it and it controls no CronJob. */
  predicate Initial(w: World) {
    && w.log == [None] && w.seen == 0 && w.ours == {} && w.confirmed == {} && w.pc == Idle
    && forall job :: job in w.cronJobs ==> w.cronJobs[job] != Some(w.name)
  }

  /**
   No leaked repository over any run: a lakeFS repository this controller created and that still exists has its
   resource, and the resource carries the finalizer.
  */
  lemma NoLeakedRepository(w: World, events: seq<Event>, t: Target)
    requires Initial(w) && NeverRetargets(w, events)
    ensures var w' := Run(w, events); t in w'.ours ==> t in w'.remote && Guards(w', t)
  {
    RunSafe(w, events);
  }

  /** At this point of the run a delete call was answered for the incarnation, and its lakeFS repository was gone. */
  predicate ConfirmsAt(w: World, events: seq<Event>, i: nat, done: (nat, Target))
    requires w.log != [] && i < |events|
  {
    var v := Run(w, events[..i]);
    && events[i] == Work(Done) && v.pc.Deleting? && v.pc.at < |v.log| && v.log[v.pc.at].Some?
    && done == (v.log[v.pc.at].value.uid, Home(v.log[v.pc.at].value)) && done.1 !in Step(v, events[i]).remote
  }

  /** An entry in the confirmations comes from a delete call that was answered, at a moment when the repository was gone. */
  lemma ConfirmedByDelete(w: World, e: Event, done: (nat, Target))
    requires w.log != [] && done !in w.confirmed && done in Step(w, e).confirmed
    ensures e == Work(Done) && w.pc.Deleting? && w.pc.at < |w.log| && w.log[w.pc.at].Some?
    ensures done == (w.log[w.pc.at].value.uid, Home(w.log[w.pc.at].value)) && done.1 !in Step(w, e).remote
  {
  }

  lemma {:induction false} ConfirmedInRun(w: World, events: seq<Event>, done: (nat, Target))
    requires w.log != [] && done !in w.confirmed && done in Run(w, events).confirmed
    ensures exists i :: 0 <= i < |events| && ConfirmsAt(w, events, i, done)
    decreases |events|
  {
    var e, rest := events[0], events[1..];
    if done in Step(w, e).confirmed {
      ConfirmedByDelete(w, e, done);
      assert events[..0] == [];
      assert ConfirmsAt(w, events, 0, done);
    } else {
      ConfirmedInRun(Step(w, e), rest, done);
      var i :| 0 <= i < |rest| && ConfirmsAt(Step(w, e), rest, i, done);
      assert events[..i + 1] == [e] + rest[..i];
      assert ConfirmsAt(w, events, i + 1, done);
    }
  }

  /**
   Over any run, an incarnation of the resource that ever carried the finalizer still carries it, or this controller
   was told in this run, for that incarnation, that its lakeFS repository is gone. A resource never disappears before.
  */
  lemma GoneOnlyAfterDelete(w: World, events: seq<Event>, i: nat)
    requires Initial(w) && NeverRetargets(w, events)
    requires var log := Run(w, events).log; i < |log| && log[i].Some? && log[i].value.finalizer
    ensures var w' := Run(w, events);
            var r := w'.log[i].value;
            || (exists j :: 0 <= j < |events| && ConfirmsAt(w, events, j, (r.uid, Home(r))))
            || (Latest(w').Some? && Latest(w').value.uid == r.uid && Latest(w').value.finalizer)
  {
    RunSafe(w, events);
    var w' := Run(w, events);
    var r := w'.log[i].value;
    if (r.uid, Home(r)) in w'.confirmed { ConfirmedInRun(w, events, (r.uid, Home(r))); }
  }

  // ---- One CronJob ----

  /** CronJobs of this resource have its one name, and every version has its name: kept by every step, edits of any kind included. */
  predicate Tidy(w: World) { w.log != [] && OneCronJob(w) && Named(w) }

  lemma AppendTidy(w: World, r: Option<Resource>)
    requires Tidy(w) && (r.Some? ==> r.value.name == w.name)
    ensures Tidy(Append(w, r))
  {
    var w' := Append(w, r);
    assert forall i :: 0 <= i < |w.log| ==> w'.log[i] == w.log[i];
  }

  lemma EnvironmentTidy(w: World, e: Event)
    requires Tidy(w) && !e.Work?
    ensures Tidy(Step(w, e))
  {
    var w' := Step(w, e);
    if w'.log != w.log {
      assert Latest(w).Some? ==> w.log[|w.log| - 1].value.name == w.name;
      AppendTidy(w, Latest(w'));
    }
  }

  lemma WorkTidy(w: World, o: Outcome)
    requires Tidy(w)
    ensures Tidy(WorkStep(w, o))
  {
    var w' := WorkStep(w, o);
    if !w.pc.Idle? && w.pc.at < |w.log| && w.log[w.pc.at].Some? {
      assert Snapshot(w, w.pc.at).name == w.name;
      if w'.log != w.log { AppendTidy(w, Latest(w')); }
    }
  }

  lemma StepTidy(w: World, e: Event)
    requires Tidy(w)
    ensures Tidy(Step(w, e)) && Step(w, e).name == w.name
  {
    if e.Work? { WorkTidy(w, e.outcome); } else { EnvironmentTidy(w, e); }
  }

  lemma {:induction false} RunTidy(w: World, events: seq<Event>)
    requires Tidy(w)
    ensures Tidy(Run(w, events)) && Run(w, events).name == w.name
    decreases |events|
  {
    if events != [] {
      StepTidy(w, events[0]);
      RunTidy(Step(w, events[0]), events[1..]);
    }
  }

  /** Over any run, through any edits, whatever they turn on, off or rename, the resource controls at most one CronJob. */
  lemma AtMostOneCronJob(w: World, events: seq<Event>, job: string, other: string)
    requires Initial(w)
    requires var jobs := Run(w, events).cronJobs;
             job in jobs && other in jobs && jobs[job] == Some(w.name) && jobs[other] == Some(w.name)
    ensures job == other == GcCronJobName(w.name)
  {
    RunTidy(w, events);
  }

  // ---- Why the resolved repository must not change ----

  /** An edit breaks the promise exactly when this controller created a repository and the edit names another one. */
  lemma EditLeaks(w: World, spec: Spec)
    requires Safe(w) && Latest(w).Some?
    ensures NoLeak(Step(w, Edit(spec))) <==> w.ours == {} || !Retargets(w, Edit(spec))
  {
    var w' := Step(w, Edit(spec));
    assert Latest(w') == Some(Latest(w).value.(spec := spec));
    if w.ours != {} {
      var t :| t in w.ours;
      assert Guards(w, t);
      if NoLeak(w') { assert Guards(w', t); }
    }
    if !Retargets(w, Edit(spec)) {
      forall t | t in w'.ours ensures Guards(w', t) { assert Guards(w, t); }
    }
  }

  function RetargetAndDelete(n: nat, spec: Spec): seq<Event> {
    [Edit(spec), Delete, Get(n + 1), Work(Done), Work(Done)]
  }

  /** Edit and deletion, up to the worker about to delete what the resource stands for now. */
  lemma RetargetSteps(w: World, spec: Spec)
    requires w.log != [] && w.seen < |w.log| && w.pc == Idle && Latest(w).Some?
    requires var r := Latest(w).value; r.finalizer && !r.deleting && Reachable(r.name, spec)
    ensures var n := |w.log|;
            var v := Step(Step(Step(w, Edit(spec)), Delete), Get(n + 1));
            v == w.(log := v.log, seen := n + 1, pc := Deleting(n + 1)) && |v.log| == n + 2 &&
            v.log[n + 1] == Some(Latest(w).value.(spec := spec, deleting := true))
  {
    var n, r := |w.log|, Latest(w).value;
    var w1 := Step(w, Edit(spec));
    assert Latest(w1) == Some(r.(spec := spec));
    var w2 := Step(w1, Delete);
    assert w2.log == w.log + [Some(r.(spec := spec)), Some(r.(spec := spec, deleting := true))];
  }

  /** Deletion of the lakeFS repository, then of the resource, when all goes well. */
  lemma DeleteSteps(w: World, at: nat)
    requires w.pc == Deleting(at) && at + 1 == |w.log| && w.log[at].Some? && !w.log[at].value.others
    ensures var v := Step(Step(w, Work(Done)), Work(Done));
            Latest(v).None? && v.remote == w.remote - {Home(w.log[at].value)} && v.ours == w.ours - {Home(w.log[at].value)}
  {
  }

  /**
   From any safe state in which the worker is idle and a repository of ours is guarded, letting the resource stand for
   another repository or endpoint and then deleting it leaves the first one behind.
  */
  lemma RenameLeaks(w: World, t: Target, spec: Spec)
    requires Safe(w) && w.pc == Idle && t in w.ours
    requires var r := Latest(w);
             r.Some? && !r.value.deleting && !r.value.others && Reachable(w.name, spec) && Retargets(w, Edit(spec))
    ensures var w' := Run(w, RetargetAndDelete(|w.log|, spec)); t in w'.ours && t in w'.remote && Latest(w').None?
  {
    assert Guards(w, t);
    var n := |w.log|;
    assert w.log[n - 1].value.name == w.name;
    RetargetSteps(w, spec);
    assert Home(Latest(w).value) == t;
    var v := Step(Step(Step(w, Edit(spec)), Delete), Get(n + 1));
    assert Home(v.log[n + 1].value) == Home(Latest(w).value.(spec := spec));
    DeleteSteps(v, n + 1);
    RunRetarget(w, n, spec);
  }

  lemma RunRetarget(w: World, n: nat, spec: Spec)
    requires w.log != []
    ensures Run(w, RetargetAndDelete(n, spec)) ==
            Step(Step(Step(Step(Step(w, Edit(spec)), Delete), Get(n + 1)), Work(Done)), Work(Done))
  {
    RunFive(w, RetargetAndDelete(n, spec));
  }

  function CreateAndFail(spec: Spec): seq<Event> {
    [Create(spec, false), Get(1), Work(Done), Work(Done), Work(ReplyLost), Work(Dropped)]
  }

  lemma CreateSteps(w: World, spec: Spec)
    requires Initial(w) && Creatable(w.name, spec) && TargetOf(w.name, spec) !in w.remote
    ensures var v, t := Run(w, CreateAndFail(spec)[..5]), TargetOf(w.name, spec);
            v.pc == Reporting(2, false) && v.ours == {t} && v.name == w.name && |v.log| == 3 &&
            v.log[2] == Some(Resource(w.name, 1, spec, false, true, false, false))
  {
    var es := CreateAndFail(spec);
    var r := Resource(w.name, 1, spec, false, false, false, false);
    var w1 := Step(w, es[0]);
    assert w1.log == [None, Some(r)];
    var w2 := Step(w1, es[1]);
    assert w2.pc == Adding(1);
    var w3 := Step(w2, es[2]);
    assert w3.log == [None, Some(r), Some(r.(finalizer := true))] && w3.pc == Looking(2);
    var w4 := Step(w3, es[3]);
    assert w4.pc == Creating(2);
    RunFive(w, es[..5]);
  }

  /** Such a state is reached from the start: the resource is created, and the reply to creating its repository is lost. */
  lemma CreatedAndIdle(w: World, spec: Spec)
    requires Initial(w) && Creatable(w.name, spec) && TargetOf(w.name, spec) !in w.remote
    ensures var w' := Run(w, CreateAndFail(spec));
            Safe(w') && w'.pc == Idle && w'.ours == {TargetOf(w.name, spec)} && |w'.log| == 3 && w'.name == w.name &&
            w'.log[2] == Some(Resource(w.name, 1, spec, false, true, false, false))
  {
    var es := CreateAndFail(spec);
    CreateSteps(w, spec);
    assert es == es[..5] + [es[5]];
    RunAppend(w, es[..5], [es[5]]);
    var v := Run(w, es[..5]);
    assert Run(v, [es[5]]) == Step(v, es[5]);
    NoEdits(w, es);
    RunSafe(w, es);
  }

  lemma {:induction false} NoEdits(w: World, events: seq<Event>)
    requires w.log != [] && forall e :: e in events ==> !e.Edit?
    ensures NeverRetargets(w, events)
    decreases |events|
  {
    if events != [] { NoEdits(Step(w, events[0]), events[1..]); }
  }

  lemma {:induction false} RunAppend(w: World, a: seq<Event>, b: seq<Event>)
    requires w.log != []
    ensures Run(w, a + b) == Run(Run(w, a), b)
    decreases |a|
  {
    if a == [] {
      assert a + b == b;
    } else {
      assert (a + b)[0] == a[0] && (a + b)[1..] == a[1..] + b;
      RunAppend(Step(w, a[0]), a[1..], b);
    }
  }

  /** So from every start, for every two specs that stand for different repositories, there is a run that leaks the first. */
  lemma RetargetingLeaks(w: World, first: Spec, second: Spec)
    requires Initial(w) && Creatable(w.name, first) && Reachable(w.name, second)
    requires TargetOf(w.name, first) !in w.remote && TargetOf(w.name, first) != TargetOf(w.name, second)
    ensures var t, w' := TargetOf(w.name, first), Run(w, CreateAndFail(first) + RetargetAndDelete(3, second));
            t in w'.ours && t in w'.remote && Latest(w').None?
  {
    CreatedAndIdle(w, first);
    var v := Run(w, CreateAndFail(first));
    RunAppend(w, CreateAndFail(first), RetargetAndDelete(3, second));
    RenameLeaks(v, TargetOf(w.name, first), second);
  }

  lemma RunFive(w: World, es: seq<Event>)
    requires w.log != [] && |es| == 5
    ensures Run(w, es) == Step(Step(Step(Step(Step(w, es[0]), es[1]), es[2]), es[3]), es[4])
  {
    var w1 := Step(w, es[0]);
    var es1 := es[1..];
    var w2 := Step(w1, es1[0]);
    var es2 := es1[1..];
    var w3 := Step(w2, es2[0]);
    var es3 := es2[1..];
    var w4 := Step(w3, es3[0]);
    var es4 := es3[1..];
    assert Run(w, es) == Run(w1, es1);
    assert Run(w1, es1) == Run(w2, es2);
    assert Run(w2, es2) == Run(w3, es3);
    assert Run(w3, es3) == Run(w4, es4);
    assert es4[1..] == [];
  }
}
