/** What a repository resource and its policy make of a garbage-collection CronJob and of the retention rules in lakeFS. */
module GarbageCollection {
  import opened Text
  import opened RepositorySpecs

  const DEFAULT_SCHEDULE := "0 3 * * *"
  const DEFAULT_RETENTION: int := 14
  const DEFAULT_IMAGE := "ghcr.io/versioneer-tech/lakefs-oss-contrib/gc-spark:latest"
  const DEFAULT_COMMAND := "/opt/spark/bin/spark-submit"
  const DEFAULT_JAR := "/opt/lakefs-gc/lakefs-spark-client.jar"
  const DEFAULT_CLASS := "io.treeverse.gc.GarbageCollection"
  const DEFAULT_IVY_DIR := "/tmp/.ivy2"
  const DEFAULT_SUCCESSFUL: int := 1
  const DEFAULT_FAILED: int := 3
  const DEFAULT_BACKOFF: int := 1
  const DEFAULT_TTL: int := 86400

  type Labels = map<string, string>

  // ---- Policies ----

  datatype Branch = Branch(id: string, days: int)
  datatype Rules = Rules(days: int, branches: seq<Branch>)
  datatype Conf = Conf(name: string, value: string)
  datatype EnvVar = Literal(name: string, value: string) | FromSecret(name: string, secret: string, key: string)
  datatype Volume = Volume(name: string, emptyDir: Option<string>)
  datatype InitContainer = InitContainer(
    name: string, image: string, pullPolicy: string, command: seq<string>, args: seq<string>, env: seq<EnvVar>, mounts: seq<string>)
  datatype Spark = Spark(className: string, jar: string, packages: seq<string>, conf: seq<Conf>, args: seq<string>)
  datatype Job = Job(
    image: string, command: seq<string>, pullPolicy: string, serviceAccount: string, initContainers: seq<InitContainer>,
    env: seq<EnvVar>, envFrom: seq<string>, resources: string, mounts: seq<string>, volumes: seq<Volume>,
    successful: Option<int>, failed: Option<int>, backoff: Option<int>, ttl: Option<int>)
  datatype Policy = Policy(
    name: string, schedule: string, suspend: Option<bool>, retention: int, branches: seq<Branch>, spark: Spark, job: Job)

  function OrInt(v: Option<int>, fallback: int): int { if v.Some? then v.value else fallback }

  function DefaultPolicy(): Policy {
    Policy(DEFAULT_POLICY_NAME, DEFAULT_SCHEDULE, None, DEFAULT_RETENTION, [],
           Spark("", "", [], [], []), Job("", [], "", "", [], [], [], "", [], [], None, None, None, None))
  }

  function RulesOf(p: Policy): Rules {
    Rules(if p.retention > 0 then p.retention else DEFAULT_RETENTION, p.branches)
  }

  /** The rules are the policy's: its days if it says how many, 14 if not, and every branch with its own days, in order. */
  predicate RulesFollow(q: Rules, p: Policy) {
    q.days == (if p.retention > 0 then p.retention else 14) && |q.branches| == |p.branches| &&
    forall i :: 0 <= i < |p.branches| ==> q.branches[i].id == p.branches[i].id && q.branches[i].days == p.branches[i].days
  }

  datatype Status = Status(repository: string, policy: string, cronJob: string, ready: bool)

  datatype Repository = Repository(
    namespace: string, name: string, spec: Spec, finalizer: bool, deleting: bool, status: Status)

  // ---- The CronJob ----

  datatype Container = Container(
    image: string, pullPolicy: string, command: seq<string>, args: seq<string>, env: seq<EnvVar>,
    envFrom: seq<string>, resources: string, mounts: seq<string>)
  datatype CronJobSpec = CronJobSpec(
    schedule: string, suspend: Option<bool>, concurrency: string, successful: int, failed: int, jobLabels: Labels,
    backoff: int, ttl: int, podLabels: Labels, restart: string, serviceAccount: string,
    initContainers: seq<InitContainer>, volumes: seq<Volume>, container: Container)

  /**
   A CronJob with the kind and name of the object that controls it, if one does; `others` are the fields the operator
   never sets: annotations, time zone, deadlines and the like.
  */
  datatype CronJob = CronJob(labels: Labels, controller: Option<(string, string)>, spec: CronJobSpec, others: map<string, string>)

  const EMPTY_SPEC := CronJobSpec("", None, "", 0, 0, map[], 0, 0, map[], "", "", [], [], Container("", "", [], [], [], [], "", []))
  const NEW_CRON_JOB := CronJob(map[], None, EMPTY_SPEC, map[])

  function GcLabels(r: Repository, p: Policy): Labels {
    map["app.kubernetes.io/name" := "lakefs-oss-contrib", "app.kubernetes.io/component" := "gc",
        "lakefs.versioneer.at/repo-cr" := r.name, "lakefs.versioneer.at/gc-policy" := p.name]
  }

  function JoinComma(parts: seq<string>): string {
    if parts == [] then "" else if |parts| == 1 then parts[0] else parts[0] + "," + JoinComma(parts[1..])
  }

  /** Every setting as two arguments. */
  function ConfArgs(conf: seq<Conf>): seq<string> {
    if conf == [] then [] else ["-c", conf[0].name + "=" + conf[0].value] + ConfArgs(conf[1..])
  }

  /** The settings of a job: the Ivy directory if packages are fetched, the lakeFS API, and the policy's own, which come last. */
  function AllConf(r: Repository, p: Policy): seq<Conf> {
    (if p.spark.packages != [] then [Conf("spark.jars.ivy", DEFAULT_IVY_DIR)] else []) +
    [Conf("spark.hadoop.lakefs.api.url", TrimRight(r.spec.endpoint, Slash) + "/api/v1"),
     Conf("spark.hadoop.lakefs.api.access_key", "$(LAKEFS_ACCESS_KEY)"),
     Conf("spark.hadoop.lakefs.api.secret_key", "$(LAKEFS_SECRET_ACCESS_KEY)")] + p.spark.conf
  }

  function SparkArgs(r: Repository, p: Policy): seq<string> {
    ["--class", Or(p.spark.className, DEFAULT_CLASS)] +
    (if p.spark.packages != [] then ["--packages", JoinComma(p.spark.packages)] else []) +
    ConfArgs(AllConf(r, p)) + [Or(p.spark.jar, DEFAULT_JAR), RepositoryName(r.name, r.spec)] + p.spark.args
  }

  function LakeFSEnv(r: Repository): seq<EnvVar> {
    [FromSecret("LAKEFS_ACCESS_KEY", r.spec.credentials.name, AccessKeyKey(r.spec)),
     FromSecret("LAKEFS_SECRET_ACCESS_KEY", r.spec.credentials.name, SecretKeyKey(r.spec))]
  }

  function GcContainer(r: Repository, p: Policy): Container {
    Container(Or(p.job.image, DEFAULT_IMAGE), p.job.pullPolicy, if p.job.command != [] then p.job.command else [DEFAULT_COMMAND],
              SparkArgs(r, p), LakeFSEnv(r) + p.job.env, p.job.envFrom, p.job.resources, p.job.mounts)
  }

  function SpecOf(p: Policy, own: Labels, container: Container): CronJobSpec {
    CronJobSpec(
      Or(p.schedule, DEFAULT_SCHEDULE), p.suspend, "Forbid", OrInt(p.job.successful, DEFAULT_SUCCESSFUL),
      OrInt(p.job.failed, DEFAULT_FAILED), own, OrInt(p.job.backoff, DEFAULT_BACKOFF), OrInt(p.job.ttl, DEFAULT_TTL),
      own, "OnFailure", p.job.serviceAccount, p.job.initContainers, p.job.volumes, container)
  }

  /** The CronJob a repository and its policy call for. */
  function Derived(r: Repository, p: Policy): CronJobSpec { SpecOf(p, GcLabels(r, p), GcContainer(r, p)) }

  /** The settings as arguments, appended one by one. */
  method BuildSparkArgs(r: Repository, p: Policy) returns (args: seq<string>)
    ensures args == SparkArgs(r, p)
  {
    args := ["--class", Or(p.spark.className, DEFAULT_CLASS)];
    if |p.spark.packages| > 0 {
      args := args + ["--packages", JoinComma(p.spark.packages)];
    }
    var conf := [];
    if |p.spark.packages| > 0 {
      conf := conf + [Conf("spark.jars.ivy", DEFAULT_IVY_DIR)];
    }
    var url := TrimRight(r.spec.endpoint, Slash) + "/api/v1";
    conf := conf + [Conf("spark.hadoop.lakefs.api.url", url),
                    Conf("spark.hadoop.lakefs.api.access_key", "$(LAKEFS_ACCESS_KEY)"),
                    Conf("spark.hadoop.lakefs.api.secret_key", "$(LAKEFS_SECRET_ACCESS_KEY)")];
    conf := conf + p.spark.conf;
    assert conf == AllConf(r, p);
    ghost var head := args;
    for i := 0 to |conf|
      invariant head + ConfArgs(conf) == args + ConfArgs(conf[i..])
    {
      assert conf[i..][1..] == conf[i + 1..];
      var pair := ["-c", conf[i].name + "=" + conf[i].value];
      assert args + ConfArgs(conf[i..]) == args + pair + ConfArgs(conf[i + 1..]);
      args := args + pair;
    }
    assert args == head + ConfArgs(conf);
    args := args + [Or(p.spark.jar, DEFAULT_JAR), RepositoryName(r.name, r.spec)];
    args := args + p.spark.args;
  }

  /** The retention rules of a policy, branch by branch. */
  method BuildRules(p: Policy) returns (rules: Rules)
    ensures rules == RulesOf(p) && RulesFollow(rules, p)
  {
    var branches := [];
    for i := 0 to |p.branches|
      invariant branches == p.branches[..i]
    {
      branches := branches + [Branch(p.branches[i].id, p.branches[i].days)];
    }
    rules := Rules(if p.retention > 0 then p.retention else DEFAULT_RETENTION, branches);
  }

  method BuildVolumes(p: Policy) returns (volumes: seq<Volume>)
    ensures volumes == p.job.volumes
  {
    volumes := [];
    for i := 0 to |p.job.volumes|
      invariant volumes == p.job.volumes[..i]
    {
      var item := p.job.volumes[i];
      var volume := Volume(item.name, None);
      if item.emptyDir.Some? { volume := volume.(emptyDir := item.emptyDir); }
      volumes := volumes + [volume];
    }
  }

  method BuildInitContainers(p: Policy) returns (containers: seq<InitContainer>)
    ensures containers == p.job.initContainers
  {
    containers := [];
    for i := 0 to |p.job.initContainers|
      invariant containers == p.job.initContainers[..i]
    {
      var item := p.job.initContainers[i];
      containers := containers + [InitContainer(item.name, item.image, item.pullPolicy, item.command, item.args, item.env, item.mounts)];
    }
  }

  /** The base with those entries of the overlay that are not left to do. */
  function Overlaid(base: Labels, overlay: Labels, left: set<string>): Labels {
    map k | k in base.Keys + (overlay.Keys - left) :: if k in overlay && k !in left then overlay[k] else base[k]
  }

  lemma OverlaidStep(base: Labels, overlay: Labels, left: set<string>, k: string)
    requires k in left && left <= overlay.Keys
    ensures Overlaid(base, overlay, left)[k := overlay[k]] == Overlaid(base, overlay, left - {k})
  {
  }

  lemma OverlaidEnds(base: Labels, overlay: Labels)
    ensures Overlaid(base, overlay, overlay.Keys) == base && Overlaid(base, overlay, {}) == base + overlay
  {
  }

  /** Overlays one table on another, entry by entry in no particular order. */
  method MergeStringMap(base: Labels, overlay: Labels) returns (r: Labels)
    ensures r == base + overlay
  {
    OverlaidEnds(base, overlay);
    r := base;
    var left := overlay.Keys;
    while left != {}
      invariant left <= overlay.Keys
      invariant r == Overlaid(base, overlay, left)
      decreases |left|
    {
      var k :| k in left;
      OverlaidStep(base, overlay, left, k);
      r := r[k := overlay[k]];
      left := left - {k};
    }
  }

  /** A CronJob as it is edited between reading it, or starting a new one, and writing it back. */
  class CronJobObject {
    var labels: Labels
    var controller: Option<(string, string)>
    var schedule: string
    var suspend: Option<bool>
    var concurrency: string
    var successful: int
    var failed: int
    var jobLabels: Labels
    var backoff: int
    var ttl: int
    var podLabels: Labels
    var restart: string
    var serviceAccount: string
    var initContainers: seq<InitContainer>
    var volumes: seq<Volume>
    var container: Container
    var others: map<string, string>

    constructor (j: CronJob)
      ensures View() == j
    {
      labels, controller, others := j.labels, j.controller, j.others;
      schedule, suspend, concurrency := j.spec.schedule, j.spec.suspend, j.spec.concurrency;
      successful, failed, jobLabels := j.spec.successful, j.spec.failed, j.spec.jobLabels;
      backoff, ttl, podLabels, restart := j.spec.backoff, j.spec.ttl, j.spec.podLabels, j.spec.restart;
      serviceAccount, initContainers := j.spec.serviceAccount, j.spec.initContainers;
      volumes, container := j.spec.volumes, j.spec.container;
    }

    function View(): CronJob
      reads this
    {
      CronJob(labels, controller,
              CronJobSpec(schedule, suspend, concurrency, successful, failed, jobLabels, backoff, ttl, podLabels, restart,
                          serviceAccount, initContainers, volumes, container),
              others)
    }

    /** Becomes the controller, unless another object is. */
    method SetController(owner: (string, string)) returns (ok: bool)
      modifies `controller
      ensures ok <==> old(controller) == None || old(controller) == Some(owner)
      ensures controller == if ok then Some(owner) else old(controller)
    {
      if controller.Some? && controller.value != owner { return false; }
      controller := Some(owner);
      return true;
    }

    method FillSchedule(p: Policy)
      modifies `schedule, `suspend, `concurrency, `successful, `failed
      ensures schedule == Or(p.schedule, DEFAULT_SCHEDULE) && suspend == p.suspend && concurrency == "Forbid"
      ensures successful == OrInt(p.job.successful, DEFAULT_SUCCESSFUL) && failed == OrInt(p.job.failed, DEFAULT_FAILED)
    {
      schedule := Or(p.schedule, DEFAULT_SCHEDULE);
      suspend := p.suspend;
      concurrency := "Forbid";
      successful := OrInt(p.job.successful, DEFAULT_SUCCESSFUL);
      failed := OrInt(p.job.failed, DEFAULT_FAILED);
    }

    method FillTemplate(p: Policy, own: Labels)
      modifies `jobLabels, `backoff, `ttl, `podLabels, `restart, `serviceAccount
      ensures jobLabels == podLabels == own && restart == "OnFailure" && serviceAccount == p.job.serviceAccount
      ensures backoff == OrInt(p.job.backoff, DEFAULT_BACKOFF) && ttl == OrInt(p.job.ttl, DEFAULT_TTL)
    {
      jobLabels := own;
      backoff := OrInt(p.job.backoff, DEFAULT_BACKOFF);
      ttl := OrInt(p.job.ttl, DEFAULT_TTL);
      podLabels := own;
      restart := "OnFailure";
      serviceAccount := p.job.serviceAccount;
    }

    method FillPod(p: Policy, c: Container)
      modifies `initContainers, `volumes, `container
      ensures initContainers == p.job.initContainers && volumes == p.job.volumes && container == c
    {
      initContainers := BuildInitContainers(p);
      volumes := BuildVolumes(p);
      container := c;
    }

    method FillSpec(p: Policy, own: Labels, c: Container)
      modifies this
      ensures View() == old(View()).(spec := SpecOf(p, own, c))
    {
      FillSchedule(p);
      FillTemplate(p, own);
      FillPod(p, c);
    }

    /** Sets every field that a repository and its policy determine; all others stay. */
    method Fill(r: Repository, p: Policy)
      modifies this
      ensures View() == old(View()).(labels := old(labels) + GcLabels(r, p), spec := Derived(r, p))
    {
      var own := GcLabels(r, p);
      labels := MergeStringMap(labels, own);
      var c := BuildContainer(r, p);
      FillSpec(p, own, c);
    }
  }

  method BuildContainer(r: Repository, p: Policy) returns (c: Container)
    ensures c == GcContainer(r, p)
  {
    var args := BuildSparkArgs(r, p);
    var command := if |p.job.command| > 0 then p.job.command else [DEFAULT_COMMAND];
    c := Container(Or(p.job.image, DEFAULT_IMAGE), p.job.pullPolicy, command, args, LakeFSEnv(r) + p.job.env,
                   p.job.envFrom, p.job.resources, p.job.mounts);
  }

  // ---- The CronJob, field by field ----

  predicate LabelsFollow(labels: Labels, r: Repository, p: Policy) {
    labels.Keys == {"app.kubernetes.io/name", "app.kubernetes.io/component", "lakefs.versioneer.at/repo-cr", "lakefs.versioneer.at/gc-policy"} &&
    labels["lakefs.versioneer.at/repo-cr"] == r.name && labels["lakefs.versioneer.at/gc-policy"] == p.name &&
    labels["app.kubernetes.io/name"] == "lakefs-oss-contrib" && labels["app.kubernetes.io/component"] == "gc"
  }

  lemma LabelsDo(r: Repository, p: Policy)
    ensures LabelsFollow(GcLabels(r, p), r, p)
  {
    var a, b, c, d :=
      "app.kubernetes.io/name", "app.kubernetes.io/component", "lakefs.versioneer.at/repo-cr", "lakefs.versioneer.at/gc-policy";
    assert a[18] == 'n' && b[18] == 'c' && c[21] == 'r' && d[21] == 'g' && a[0] == 'a' && b[0] == 'a' && c[0] == 'l' && d[0] == 'l';
  }

  /** Each setting is one argument `-c` and one with name and value. */
  predicate PairsOf(args: seq<string>, conf: seq<Conf>) {
    |args| == 2 * |conf| && forall i :: 0 <= i < |conf| ==> PairAt(args, conf, i)
  }

  predicate PairAt(args: seq<string>, conf: seq<Conf>, i: nat)
    requires |args| == 2 * |conf| && i < |conf|
  {
    args[2 * i] == "-c" && args[2 * i + 1] == conf[i].name + "=" + conf[i].value
  }

  lemma {:induction false} ConfArgsPairs(conf: seq<Conf>)
    ensures PairsOf(ConfArgs(conf), conf)
  {
    if conf != [] {
      var rest, args := conf[1..], ConfArgs(conf);
      ConfArgsPairs(rest);
      forall i | 0 <= i < |conf| ensures PairAt(args, conf, i) {
        if i > 0 {
          assert PairAt(ConfArgs(rest), rest, i - 1);
          assert args[2 * i] == ConfArgs(rest)[2 * (i - 1)] && args[2 * i + 1] == ConfArgs(rest)[2 * (i - 1) + 1];
        }
      }
    }
  }

  /** The lakeFS API of the resource's server: its endpoint without slashes at the end, and the version path. */
  predicate ApiOf(url: string, endpoint: string) {
    var n := |url| - 7;
    n >= 0 && url[n..] == "/api/v1" && url[..n] <= endpoint && (forall i :: n <= i < |endpoint| ==> endpoint[i] == '/') &&
    (n > 0 ==> url[n - 1] != '/')
  }

  /** The Ivy directory if packages are fetched, the API with its keys taken from the environment, then the policy's settings. */
  predicate SettingsFollow(conf: seq<Conf>, url: string, p: Policy) {
    conf == (if p.spark.packages != [] then [Conf("spark.jars.ivy", DEFAULT_IVY_DIR)] else []) +
            [Conf("spark.hadoop.lakefs.api.url", url),
             Conf("spark.hadoop.lakefs.api.access_key", "$(LAKEFS_ACCESS_KEY)"),
             Conf("spark.hadoop.lakefs.api.secret_key", "$(LAKEFS_SECRET_ACCESS_KEY)")] + p.spark.conf
  }

  lemma ApiDoes(endpoint: string)
    ensures ApiOf(TrimRight(endpoint, Slash) + "/api/v1", endpoint)
  {
    TrimRightCuts(endpoint, Slash);
    var server := TrimRight(endpoint, Slash);
    assert (server + "/api/v1")[..|server|] == server;
  }

  lemma SettingsDo(r: Repository, p: Policy)
    ensures SettingsFollow(AllConf(r, p), TrimRight(r.spec.endpoint, Slash) + "/api/v1", p)
  {
  }

  /** Class, packages if there are any, the settings, the jar, the repository, and the policy's own arguments. */
  ghost predicate ArgsFollow(args: seq<string>, r: Repository, p: Policy) {
    exists url, conf, settings ::
      ApiOf(url, r.spec.endpoint) && SettingsFollow(conf, url, p) && PairsOf(settings, conf) && ArgsAround(args, settings, r, p)
  }

  predicate ArgsAround(args: seq<string>, settings: seq<string>, r: Repository, p: Policy) {
    var sparkClass := if p.spark.className != "" then p.spark.className else DEFAULT_CLASS;
    var jar := if p.spark.jar != "" then p.spark.jar else DEFAULT_JAR;
    var repository := if r.spec.repository != "" then r.spec.repository else r.name;
    var packages := if p.spark.packages != [] then ["--packages", JoinComma(p.spark.packages)] else [];
    args == ["--class", sparkClass] + packages + settings + [jar, repository] + p.spark.args
  }

  lemma ArgsAroundDo(r: Repository, p: Policy)
    ensures ArgsAround(SparkArgs(r, p), ConfArgs(AllConf(r, p)), r, p)
  {
  }

  lemma ArgsParts(args: seq<string>, url: string, conf: seq<Conf>, settings: seq<string>, r: Repository, p: Policy)
    requires ApiOf(url, r.spec.endpoint) && SettingsFollow(conf, url, p) && PairsOf(settings, conf) && ArgsAround(args, settings, r, p)
    ensures ArgsFollow(args, r, p)
  {
  }

  lemma ArgsDo(r: Repository, p: Policy)
    ensures ArgsFollow(SparkArgs(r, p), r, p)
  {
    var conf := AllConf(r, p);
    ApiDoes(r.spec.endpoint);
    SettingsDo(r, p);
    ConfArgsPairs(conf);
    ArgsAroundDo(r, p);
    ArgsParts(SparkArgs(r, p), TrimRight(r.spec.endpoint, Slash) + "/api/v1", conf, ConfArgs(conf), r, p);
  }

  /** Joining lists of packages joins their texts with a comma. */
  lemma {:induction false} JoinedLists(a: seq<string>, b: seq<string>)
    requires a != [] && b != []
    ensures JoinComma(a + b) == JoinComma(a) + "," + JoinComma(b)
  {
    assert (a + b)[1..] == a[1..] + b && (a + b)[0] == a[0];
    if |a| > 1 {
      JoinedLists(a[1..], b);
      assert JoinComma(a + b) == a[0] + "," + (JoinComma(a[1..]) + "," + JoinComma(b));
    } else {
      assert a[1..] + b == b;
    }
  }

  /** The keys of the repository's Secret come first in the environment, then the policy's own variables. */
  predicate EnvFollows(env: seq<EnvVar>, r: Repository, p: Policy) {
    |env| == 2 + |p.job.env| && env[2..] == p.job.env &&
    env[0] == FromSecret("LAKEFS_ACCESS_KEY", r.spec.credentials.name,
                         if r.spec.credentials.accessKeyKey != "" then r.spec.credentials.accessKeyKey else "accessKeyId") &&
    env[1] == FromSecret("LAKEFS_SECRET_ACCESS_KEY", r.spec.credentials.name,
                         if r.spec.credentials.secretKeyKey != "" then r.spec.credentials.secretKeyKey else "secretAccessKey")
  }

  lemma EnvDoes(r: Repository, p: Policy)
    ensures EnvFollows(LakeFSEnv(r) + p.job.env, r, p)
  {
  }

  ghost predicate ContainerFollows(c: Container, r: Repository, p: Policy) {
    c.image == (if p.job.image != "" then p.job.image else DEFAULT_IMAGE) && c.pullPolicy == p.job.pullPolicy &&
    c.command == (if p.job.command != [] then p.job.command else [DEFAULT_COMMAND]) && ArgsFollow(c.args, r, p) &&
    EnvFollows(c.env, r, p) && c.envFrom == p.job.envFrom && c.resources == p.job.resources && c.mounts == p.job.mounts
  }

  lemma ContainerDoes(r: Repository, p: Policy)
    ensures ContainerFollows(GcContainer(r, p), r, p)
  {
    ArgsDo(r, p);
    EnvDoes(r, p);
  }

  function Given(v: Option<int>, otherwise: int): int { match v case Some(n) => n case None => otherwise }

  /** The CronJob is the policy's: its schedule and limits, or the defaults, one job at a time, and a pod for the container. */
  ghost predicate SpecFollows(s: CronJobSpec, r: Repository, p: Policy) {
    s.schedule == (if p.schedule != "" then p.schedule else DEFAULT_SCHEDULE) && s.suspend == p.suspend &&
    s.concurrency == "Forbid" && s.restart == "OnFailure" &&
    s.successful == Given(p.job.successful, 1) && s.failed == Given(p.job.failed, 3) &&
    s.backoff == Given(p.job.backoff, 1) && s.ttl == Given(p.job.ttl, 86400) &&
    LabelsFollow(s.jobLabels, r, p) && LabelsFollow(s.podLabels, r, p) && s.serviceAccount == p.job.serviceAccount &&
    s.initContainers == p.job.initContainers && s.volumes == p.job.volumes && ContainerFollows(s.container, r, p)
  }

  lemma SpecParts(p: Policy, own: Labels, c: Container, r: Repository)
    requires LabelsFollow(own, r, p) && ContainerFollows(c, r, p)
    ensures SpecFollows(SpecOf(p, own, c), r, p)
  {
  }

  lemma DerivedFollows(r: Repository, p: Policy)
    ensures SpecFollows(Derived(r, p), r, p)
  {
    LabelsDo(r, p);
    ContainerDoes(r, p);
    SpecParts(p, GcLabels(r, p), GcContainer(r, p), r);
  }

  /** A policy that says nothing. */
  predicate Silent(p: Policy) {
    p.name == "default" && p.schedule == "" && p.suspend == None && p.retention == 0 && p.branches == [] &&
    p.spark.className == "" && p.spark.jar == "" && p.spark.packages == [] && p.spark.conf == [] && p.spark.args == [] && SilentJob(p.job)
  }

  predicate SilentJob(j: Job) {
    j.image == "" && j.command == [] && j.pullPolicy == "" && j.serviceAccount == "" && j.initContainers == [] && j.env == [] &&
    j.envFrom == [] && j.resources == "" && j.mounts == [] && j.volumes == [] &&
    j.successful == None && j.failed == None && j.backoff == None && j.ttl == None
  }

  /** The policy that is made when none is there asks for the same as one that says nothing: the defaults throughout. */
  lemma DefaultPolicyIsSilent(r: Repository, p: Policy)
    requires Silent(p)
    ensures RulesOf(DefaultPolicy()) == RulesOf(p) && Derived(r, DefaultPolicy()) == Derived(r, p)
  {
    assert DefaultPolicy() == p.(schedule := DEFAULT_SCHEDULE, retention := DEFAULT_RETENTION);
    assert GcContainer(r, DefaultPolicy()) == GcContainer(r, p);
  }

  // ---- What Spark makes of the settings ----

  /** The value spark-submit ends up with for a setting: the last one given. */
  function LastSetting(conf: seq<Conf>, name: string): Option<string> {
    if conf == [] then None
    else if conf[|conf| - 1].name == name then Some(conf[|conf| - 1].value)
    else LastSetting(conf[..|conf| - 1], name)
  }

  lemma {:induction false} LaterSettingsWin(own: seq<Conf>, policy: seq<Conf>, name: string)
    ensures LastSetting(own + policy, name) ==
            if LastSetting(policy, name).Some? then LastSetting(policy, name) else LastSetting(own, name)
  {
    if policy == [] {
      assert own + policy == own;
    } else {
      var n := |policy| - 1;
      assert (own + policy)[..|own + policy| - 1] == own + policy[..n];
      LaterSettingsWin(own, policy[..n], name);
    }
  }

  const IVY := "spark.jars.ivy"
  const API_URL := "spark.hadoop.lakefs.api.url"
  const API_ACCESS_KEY := "spark.hadoop.lakefs.api.access_key"
  const API_SECRET_KEY := "spark.hadoop.lakefs.api.secret_key"

  /** The operator's own value of a setting: there are four, one of them only if packages are fetched. */
  function OwnSetting(r: Repository, p: Policy, name: string): Option<string> {
    if name == API_SECRET_KEY then Some("$(LAKEFS_SECRET_ACCESS_KEY)")
    else if name == API_ACCESS_KEY then Some("$(LAKEFS_ACCESS_KEY)")
    else if name == API_URL then Some(TrimRight(r.spec.endpoint, Slash) + "/api/v1")
    else if name == IVY && p.spark.packages != [] then Some(DEFAULT_IVY_DIR)
    else None
  }

  lemma SettingNames()
    ensures API_URL != API_ACCESS_KEY && API_URL != API_SECRET_KEY && API_ACCESS_KEY != API_SECRET_KEY
    ensures IVY != API_URL && IVY != API_ACCESS_KEY && IVY != API_SECRET_KEY
  {
    assert API_URL[24] == 'u' && API_ACCESS_KEY[24] == 'a' && API_SECRET_KEY[24] == 's' && |IVY| == 14;
  }

  /** The settings a job starts with, as a list of names and values. */
  lemma OwnSettings(r: Repository, p: Policy, name: string)
    ensures var first := if p.spark.packages != [] then [Conf(IVY, DEFAULT_IVY_DIR)] else [];
            LastSetting(first + [Conf(API_URL, TrimRight(r.spec.endpoint, Slash) + "/api/v1"),
                                 Conf(API_ACCESS_KEY, "$(LAKEFS_ACCESS_KEY)"),
                                 Conf(API_SECRET_KEY, "$(LAKEFS_SECRET_ACCESS_KEY)")], name) == OwnSetting(r, p, name)
  {
    SettingNames();
    var first := if p.spark.packages != [] then [Conf(IVY, DEFAULT_IVY_DIR)] else [];
    var url := Conf(API_URL, TrimRight(r.spec.endpoint, Slash) + "/api/v1");
    var accessKey := Conf(API_ACCESS_KEY, "$(LAKEFS_ACCESS_KEY)");
    var secretKey := Conf(API_SECRET_KEY, "$(LAKEFS_SECRET_ACCESS_KEY)");
    assert first + [url, accessKey, secretKey] == first + [url] + [accessKey] + [secretKey];
    LastAppend(first + [url] + [accessKey], secretKey, name);
    LastAppend(first + [url], accessKey, name);
    LastAppend(first, url, name);
    if p.spark.packages != [] { LastAppend([], Conf(IVY, DEFAULT_IVY_DIR), name); }
  }

  lemma LastAppend(conf: seq<Conf>, c: Conf, name: string)
    ensures LastSetting(conf + [c], name) == if c.name == name then Some(c.value) else LastSetting(conf, name)
  {
    assert (conf + [c])[..|conf|] == conf;
  }

  /** A job's settings are the policy's own, and the operator's four only as far as the policy does not set them. */
  lemma PolicySettingsWin(r: Repository, p: Policy, name: string)
    ensures LastSetting(AllConf(r, p), name) ==
            if LastSetting(p.spark.conf, name).Some? then LastSetting(p.spark.conf, name) else OwnSetting(r, p, name)
  {
    OwnSettings(r, p, name);
    var first := if p.spark.packages != [] then [Conf(IVY, DEFAULT_IVY_DIR)] else [];
    LaterSettingsWin(first + [Conf(API_URL, TrimRight(r.spec.endpoint, Slash) + "/api/v1"),
                              Conf(API_ACCESS_KEY, "$(LAKEFS_ACCESS_KEY)"),
                              Conf(API_SECRET_KEY, "$(LAKEFS_SECRET_ACCESS_KEY)")], p.spark.conf, name);
  }
}
