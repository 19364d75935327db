# A model of lakefs-oss-contrib, with proofs

This project models the parts of the repository in which several pieces of code change shared state: the auth server
over the objects it stores, the operator and the auth server editing the same Secrets, the reconciler of repositories
against a lakeFS server, and the script that keeps copyright headers in source files. `dafny verify dfyconfig.toml`
checks everything.

| files | what they are about |
|---|---|
| `Text`, `KeyOrder` | trimming; object keys and the order of lists |
| `Naming`, `Rendering`, `Fnv`, `CronJobNames` | object names, policy templates, user ids, CronJob names |
| `Secrets`, `SecretProtocol` | one Secret, two kinds of writers, every interleaving of their reads and writes |
| `RepositorySpecs`, `RepositoryMachine` | one repository resource: a worker with a program counter, failing calls, an environment that moves between them |
| `GarbageCollection`, `RepositoryReconciler`, `RepositoryController` | one reconcile as a whole, as a function of the world and of how every call ends; the controller and client as code |
| `RepositoryConvergence`, `RepositoryOutcomes`, `RepositoryRefinement` | what a reconcile depends on, what Ready means, what it may touch and ask; that it is a run of the worker |
| `AuthStore`, `AuthHandlers`, `AuthServer` | the objects of the auth API, lookups, handlers; the server as a class whose methods are proved equal to them |
| `AuthLookups`, `AuthReferences`, `AuthIdentity`, `AuthGroups`, `EffectivePolicies`, `AuthDeletion`, `AuthBindings`, `AuthPolicies`, `AuthCredentials` | properties of the auth API, over single requests and over runs |
| `HeaderMatchers`, `CommentHeaders`, `GoHeader`, `HashHeader` | the header script: its regular expressions as matchers, its two paths as loops, when they reach a fixpoint |

Code that changes things in place is a method over fields, arrays or loops (`AuthServer`, `RepositoryController`,
`SecretObject`, the loops of the script) with an `ensures` that equates its result or new state with a function; the
lemmas are about these functions. Handlers are modelled after parsing: their arguments are the decoded fields, their
answers are status codes and the decisive part of the payload.

## What turned out not to hold as one might expect

Each of these is a lemma with an exact condition or a concrete family of inputs.

- A second run of the header script on a Go file is clean exactly for recognised headers, files that do not start with
  white space and legible build constraints; on a file with `#` comments exactly when `HashHeader.Settles` holds. A file
  that holds this header and another one, and nothing else, is reported as changed on every run and never written; a
  shebang without a body gets the header twice; a notice whose first line is just "Copyright" is never recognised again.
- User names stay distinct, except that a user created with a blank external id can get the name another user has as
  its external id (`AuthIdentity.CreateUserKeepsNames`, `AuthIdentity.BlankIdsCollide`).
- Attaching a policy looks for roles in all namespaces, the binding refers to its own: it dangles exactly when no role
  of that name is next to the subject (`AuthReferences.AttachReferences`).
- Binding names join their parts by hyphens, so names with hyphens collide (`Naming.HyphensCollide`), and attaching one
  policy can undo attaching another to another subject (`AuthBindings.AttachTakesOver`): exactly when the place for the
  new binding holds a different one (`AuthBindings.AttachKeepsBindings`, `AuthBindings.AttachSparesOthers`).
- Object names of credentials ignore case, access keys do not: creating the second of two such access keys is answered
  with success, is never served, and replaces the secret of the first (`AuthCredentials.CaseCollides`,
  `AuthCredentials.CollidingKeyOverwrites`).
- A role that comes earlier in the list hides a policy written under the same name (`AuthPolicies.EarlierRoleHides`).
- After a stale read the auth server can report a secret key as stored while another one is
  (`SecretProtocol.UnchangedWhenStale`), exactly when a different one was written since the version it read was current
  (`SecretProtocol.SuccessStays`).
- A credential whose Secret keeps the secret key in the field of the access key loses it to the operator
  (`Secrets.OperatorKeepsSecretKey`).
- Renaming the lakeFS repository in a resource, or changing its endpoint, leaves the old one behind exactly when this
  controller created it (`RepositoryMachine.EditLeaks`, `RepositoryMachine.RetargetingLeaks`).

## Model

| member | source | states |
|---|---|---|
| SecretProtocol.SuccessStays | internal/authserver/server.go:910-964 | what the auth server reports as a success, with or without a write, holds in every later state of any interleaving until the next explicit write of that data key, exactly if the write reached the store, or the last explicit write since the version it read was current, if any, wrote the same secret key |
| SecretProtocol.ExplicitWriteStays | internal/authserver/server.go:910-964 | in particular, after an accepted explicit write the Secret holds that secret key in every state any interleaving of operators and servers reaches, until the same data key is written explicitly again |
| SecretProtocol.AddedWasCurrent | internal/authserver/server.go:910-915 | every version a run adds, so every one a stale read can return, was the current one at some point of the run |
| SecretProtocol.OperatorsKeepValues | internal/controller/lakefscredential_controller.go:91-154 | with only operators running, with stale reads and any interleaving, a non-empty entry never changes |
| SecretProtocol.ControlledSecretIsLeftAlone | internal/controller/lakefscredential_controller.go:137-146 | once a credential controls a Secret it does for good, and reconciling another credential never writes it |
| SecretProtocol.ReportedValue | internal/authserver/server.go:960-963 | at a report of success without a write, what is held is what the version read held, or what was explicitly written last since it was current |
| SecretProtocol.UnchangedWhenStale | internal/authserver/server.go:960-963 | for any two secret keys, a run in which such a report is false: two writes and a stale read; `SecretProtocol.SuccessStays` has the exact condition |
| SecretProtocol.StepConsistent | internal/controller/lakefscredential_controller.go:91-154 | every step keeps versions, reads and pending updates of the Secrets consistent |
| SecretProtocol.WritesKeepPromises | internal/controller/lakefscredential_controller.go:91-154 | every call that succeeds, of either writer, leaves the Secret with both labels, the access key, a secret key (the given one, for the server), and its owner: the credential after the operator, whoever it was after the server |
| SecretProtocol.SettledIsLeftAlone | internal/controller/lakefscredential_controller.go:147-153 | after its call succeeded the same writer reads the Secret and sends nothing more, if the two keys have a field each |
| Secrets.SecretObject.OperatorFill | internal/controller/lakefscredential_controller.go:112-153 | the edit in place is the operator's edit, fails exactly when another object controls the Secret, and its `changed` flag is true exactly when the Secret changed or the one field both keys share was set to and fro |
| Secrets.SecretObject.ServerWrite | internal/authserver/server.go:933-963 | the edit in place is the auth server's edit, and its `changed` flag is true exactly when the Secret changed or the one field both keys share was set to and fro |
| Secrets.SecretObject.PutLabels | internal/authserver/server.go:948-959 | both labels are set, others stay, and the flag says whether anything changed |
| Secrets.OperatorKeepsValues | internal/controller/lakefscredential_controller.go:112-127 | the operator replaces no entry but the access key |
| Secrets.OperatorKeepsSecretKey | internal/controller/lakefscredential_controller.go:112-127 | a secret key survives the operator exactly when it is not kept in the field of the access key |
| Secrets.OperatorFills | internal/controller/lakefscredential_controller.go:112-127 | what the operator leaves as access key and secret key: the old secret key, or a token where there was none, and what becomes of both when they share a field |
| Secrets.ServerSets | internal/authserver/server.go:933-947 | the server sets the secret key, corrects the access key if that has a field of its own, and touches neither other data nor the owner |
| Secrets.OperatorSettles | internal/controller/lakefscredential_controller.go:112-153 | repeated with another token the operator's edit changes nothing, exactly unless both keys share a field and the access key is empty |
| Secrets.EditsLabel | internal/authserver/server.go:948-959 | both edits carry the two labels next to all foreign ones; the operator's makes the credential the owner |
| Secrets.FreshHolds | internal/controller/lakefscredential_controller.go:97-110 | a new Secret holds the two keys and the two labels, and nothing else |
| RepositoryMachine.StepSafe | internal/controller/lakefsrepository_controller.go:45-174 | every call of the worker, with any outcome, and every environment step keep the safety invariant |
| RepositoryMachine.NoLeakedRepository | internal/controller/lakefsrepository_controller.go:54-72 | over any run a lakeFS repository this controller created and that exists has its resource, with the finalizer |
| RepositoryMachine.GoneOnlyAfterDelete | internal/controller/lakefsrepository_controller.go:54-64 | a resource that carried the finalizer still carries it, or at some point of the run a delete call was answered for it and its lakeFS repository was gone |
| RepositoryMachine.ConfirmedByDelete | internal/lakefs/client.go:91-110 | a confirmation comes only from an answered delete call, when the lakeFS repository was gone |
| RepositoryMachine.VanishesFinalized | internal/controller/lakefsrepository_controller.go:54-64 | the resource vanishes only when its last finalizer is dropped: this controller's by the worker after it was told that the lakeFS repository is gone, any other by somebody else |
| RepositoryMachine.AtMostOneCronJob | internal/controller/lakefsrepository_controller.go:203-259 | over every run, whatever is edited, a resource controls at most one CronJob |
| RepositoryMachine.EditLeaks | internal/controller/lakefsrepository_controller.go:96-110 | in a safe state an edit breaks the promise exactly when this controller created a repository and the edit names another one, by name or by endpoint |
| RepositoryMachine.RenameLeaks | internal/controller/lakefsrepository_controller.go:54-64 | such an edit and a deletion leave the first lakeFS repository behind |
| RepositoryMachine.RetargetingLeaks | internal/controller/lakefsrepository_controller.go:45-110 | from every start, for any two specs that stand for different repositories, a run that leaks the first |
| RepositoryRefinement.ReconcileIsRun | internal/controller/lakefsrepository_controller.go:45-94 | a reconcile as a whole, with any outcome of any call, is a run of the machine: its worker reads the current version, makes its calls with nobody in between, and ends idle in a state that agrees with what the reconcile leaves |
| RepositoryRefinement.MachineAgrees | internal/controller/lakefsrepository_controller.go:45-52 | every world is one the machine can stand for |
| RepositoryRefinement.NoReconcileLeaks | internal/controller/lakefsrepository_controller.go:54-72 | so, from a safe state, no reconcile leaks a lakeFS repository, whatever fails: what the controller created and still exists is guarded by the stored resource with its finalizer |
| RepositoryConvergence.ReadyMeansConverged | internal/controller/lakefsrepository_controller.go:112-174 | Ready means, field by field: the lakeFS repository exists; if collection is off there is no CronJob; otherwise the selected policy is stored, lakeFS has its retention (14 days if it says none) and each of its branches with its days, and the CronJob has its schedule, limits, labels, container, arguments and environment, and is controlled by the resource |
| RepositoryOutcomes.LetGoExactly | internal/controller/lakefsrepository_controller.go:54-64 | a reconcile lets the resource go exactly if it is under deletion with the finalizer, names repository and endpoint, its credentials are read, the delete call is answered, and the update that drops the finalizer takes effect |
| RepositoryOutcomes.LetGoAfterDelete | internal/controller/lakefsrepository_controller.go:54-64 | and then one call was made, the delete call for its lakeFS repository, which is gone; everything else is as it was |
| RepositoryOutcomes.ReconcileTouchesOwn | internal/controller/lakefsrepository_controller.go:112-135 | a reconcile touches the one lakeFS repository the resource stands for: removes it only under deletion, creates it only with storage, branch and sample data as asked and the finalizer stored, and otherwise changes no more than its rules |
| RepositoryOutcomes.ReconcileCalls | internal/controller/lakefsrepository_controller.go:112-170 | whatever fails, every call to lakeFS is for that repository and one the resource asks for: a creation only after a lookup found nothing, rules only of the stored policy, a deletion only under deletion |
| RepositoryOutcomes.ReconcileTouchesOwnJob | internal/controller/lakefsrepository_controller.go:203-259 | a reconcile touches one CronJob: removes it only if collection is off, writes it only for the stored policy, with credentials in the resource's namespace, over none that another object controls, keeping foreign labels and fields |
| RepositoryOutcomes.ReadyExactly | internal/controller/lakefsrepository_controller.go:112-174 | it is Ready exactly if the resource is complete, credentials are read and every call it takes goes through; it waits without an error exactly for the resource, its credentials or its policy |
| RepositoryOutcomes.NothingWithoutCredentials | internal/controller/lakefsrepository_controller.go:112-127 | without endpoint, name, storage or credentials lakeFS is not called and nothing changes |
| RepositoryOutcomes.StatusIsHonest | internal/controller/lakefsrepository_controller.go:74-86 | a status that was written names repository, policy and CronJob the resource selects, and if it says Ready lakeFS and cluster are as asked |
| RepositoryConvergence.SecondReconcileChangesNothing | internal/controller/lakefsrepository_controller.go:45-94 | with stable inputs and no failures a second reconcile leaves CronJobs, rules, policies, Secrets, finalizers and statuses as they are |
| RepositoryConvergence.UnwatchedPolicyDoesNotMatter | internal/controller/lakefsrepository_controller.go:403-421 | worlds that differ in a policy that maps to no request for a repository are reconciled to the same calls, CronJobs and statuses, whatever fails |
| RepositoryConvergence.RepositoriesForPolicy | internal/controller/lakefsrepository_controller.go:403-421 | the loop requests what `RequestsFor` lists |
| RepositoryConvergence.RequestedExactly | internal/controller/lakefsrepository_controller.go:403-421 | requested are exactly the listed repositories of the policy's namespace that have collection on and name the policy, or none if it is the default one |
| RepositoryController.Cluster.EnsureLakeRepository | internal/lakefs/client.go:53-62 | after success the repository is there; one that is there is not touched, also if the lookup missed it and creation answers with a conflict, and no other repository changes |
| RepositoryController.Cluster.SetGCRules | internal/lakefs/client.go:64-89 | after success the repository has exactly these rules; its other settings and all other repositories stay |
| RepositoryController.Cluster.DeleteLakeRepository | internal/lakefs/client.go:91-110 | after success the repository is gone, whether or not it was there, and no other changes |
| RepositoryController.Cluster.DeleteGCCronJob | internal/controller/lakefsrepository_controller.go:251-259 | after success the CronJob of the resource is gone, whether or not it was there, and no other changes |
| RepositoryController.Cluster.EnsureGCCronJob | internal/controller/lakefsrepository_controller.go:203-249 | after success the CronJob is the derived one and controlled by the resource, with foreign labels and every field the operator never sets as they were; a CronJob another object controls is refused, and so is a Secret in another namespace; no other CronJob changes |
| GarbageCollection.CronJobObject.Fill | internal/controller/lakefsrepository_controller.go:218-246 | the fields assigned one by one on the object that was read make the derived spec and leave every other field |
| GarbageCollection.CronJobObject.SetController | internal/controller/lakefsrepository_controller.go:215-217 | succeeds exactly if no other object controls the CronJob, and changes the controller only then |
| GarbageCollection.BuildRules | internal/controller/lakefsrepository_controller.go:261-274 | the rules have the policy's retention, 14 days if it says none, and all its branches in order, each with its days |
| GarbageCollection.DerivedFollows | internal/controller/lakefsrepository_controller.go:217-246 | the derived CronJob field by field: schedule, suspension, limits and their defaults, labels, pod, and a container whose arguments name the API of the resource's endpoint, the repository and the policy's settings, with both keys from the Secret |
| GarbageCollection.DefaultPolicyIsSilent | internal/controller/lakefsrepository_controller.go:275-285 | the policy that is made when none is there asks for the same rules and CronJob as one that says nothing |
| GarbageCollection.JoinedLists | internal/controller/lakefsrepository_controller.go:340-342 | package lists are joined by commas |
| RepositoryController.Cluster.ReadPolicy | internal/controller/lakefsrepository_controller.go:138-158 | a policy it returns is the stored one; no stored policy changes, the only one ever added is the default of the namespace, and if that exists although it was not found nothing is returned |
| RepositoryController.Cluster.ManageGC | internal/controller/lakefsrepository_controller.go:131-173 | drops the CronJob, or applies the policy to lakeFS and then to the CronJob, stopping at the first failure; what the rules and the CronJob then are field by field is `RepositoryConvergence.ReadyMeansConverged` |
| RepositoryController.Cluster.ReconcileKey | internal/controller/lakefsrepository_controller.go:45-94 | one reconcile of a key, with any outcome of every call, leaves the world `Reconcile` describes; directly: the resource is let go only under deletion with its finalizer, after the delete call was answered and with the lakeFS repository gone |
| GarbageCollection.BuildSparkArgs | internal/controller/lakefsrepository_controller.go:338-363 | the arguments appended in the loop are the class, packages, settings, jar, repository and the policy's own arguments, in that order |
| GarbageCollection.MergeStringMap | internal/controller/lakefsrepository_controller.go:386-394 | the merge is the overlay on the base, in whatever order entries are copied |
| GarbageCollection.PolicySettingsWin | internal/controller/lakefsrepository_controller.go:343-359 | of a job's settings the policy's own come last, so the operator's four (Ivy directory, API address, access key, secret key) count only as far as the policy does not set them |
| CronJobNames.NameShape | internal/controller/lakefsrepository_controller.go:365-375 | at most 52 characters; a truncated name ends in eight hexadecimal digits |
| CronJobNames.NamesCollide | internal/controller/lakefsrepository_controller.go:365-375 | names are equal exactly for equal resources, or for two truncated ones that agree in the kept part and the hash |
| Fnv.CompatibilityUserID | internal/authserver/server.go:1429-1436 | the loop computes the user id, which lies below 2^63 |
| Fnv.UserIdIsHash63 | internal/authserver/server.go:1429-1436 | the masked 64-bit hash is the recurrence carried out modulo 2^63 |
| Fnv.StepInjective | internal/authserver/server.go:1431-1434 | one step tells states and bytes apart |
| Fnv.FoldInjective | internal/authserver/server.go:1431-1434 | states that differ differ after any common suffix |
| Fnv.OneByteApart | internal/authserver/server.go:1429-1436 | names of equal length that differ in one byte have different ids |
| Fnv.KnownHashes | internal/authserver/server.go:1430-1434 | both variants on the empty text and on one byte, with offset basis and prime written out |
| Fnv.XorPair | internal/authserver/server.go:1432 | exclusive or works bit by bit |
| Naming.ObjectNameValid | internal/authserver/server.go:1446-1458 | every input gives a name of 1 to 63 safe characters with no hyphen or dot at the ends |
| Naming.ObjectNameFixpoints | internal/authserver/server.go:1446-1458 | exactly the valid names stay as they are |
| Naming.ObjectNameIdempotent | internal/authserver/server.go:1446-1458 | normalising again changes nothing |
| Naming.PlainNames | internal/authserver/server.go:1446-1458 | letters, digits, hyphens and dots, none of the last two at the ends: the name is the text in lower case, cut at 63 characters and at the hyphens and dots in front of the cut |
| Naming.ObjectNameIsPart | internal/authserver/server.go:1446-1458 | every object name can be a part of a binding name |
| Naming.CollapseIsolated | internal/authserver/server.go:1447-1448 | unsafe characters on their own become hyphens in place |
| Naming.RunsCollapse | internal/authserver/server.go:1447-1448 | a run of unsafe characters becomes one hyphen, however long it is |
| Naming.AlphaNumericNames | internal/authserver/server.go:1274-1276 | for lower-case letters and digits that fit the binding name is the parts as they are, joined by hyphens |
| Naming.BindingNamesInjective | internal/authserver/server.go:1274-1276 | kind, subject, role and repository can be read off a binding name that is not cut, for any subject if the role is one the policy API writes for a policy of one word, and for plain subjects and roles of one word |
| Naming.WordNamesInjective | internal/authserver/server.go:1274-1276 | and likewise if all parts are words without hyphens |
| Naming.ApiNames | internal/authserver/server.go:1345-1358 | the object names the API makes for policies and groups of one word are the prefix and the word, and of the readable kind |
| Naming.HyphensCollide | internal/authserver/server.go:1274-1276 | with hyphens in the parts different bindings share a name |
| Rendering.RenderComplete | internal/authserver/server.go:1408-1413 | no placeholder is left, and rendering again changes nothing |
| Rendering.RenderInjective | internal/authserver/server.go:1408-1413 | a template with a placeholder renders alike only for equal repositories |
| Rendering.RenderFixpoints | internal/authserver/server.go:1408-1413 | for all repositories, exactly the texts without a placeholder render as themselves |
| Rendering.RenderFillsIn | internal/authserver/server.go:1408-1413 | the repository, or the star where none is given, stands in place of each placeholder, and all text around it stays |
| AuthServer.Server.ResolveUser | internal/authserver/server.go:1026-1051 | index, spelled key, scan: the three loops find the user `AuthStore.ResolveUser` names |
| AuthServer.Server.ResolveGroup | internal/authserver/server.go:1053-1078 | the same for groups, whose scan also tries the generated object name |
| AuthLookups.ResolveUserFindsBest | internal/authserver/server.go:1026-1051 | a user is found exactly if one goes by the identifier, and then the best: by external id before the spelled key before any name, and the first by key among equals |
| AuthLookups.ResolveGroupFindsBest | internal/authserver/server.go:1053-1078 | the same for groups, which also go by the object name made from the identifier |
| AuthLookups.SpelledExactly | internal/authserver/server.go:1036-1040 | an identifier spells a key exactly if it is namespace, colon and name, with no colon in the namespace |
| AuthServer.Server.ResolveRoleForPolicy | internal/authserver/server.go:1118-1131 | the nested loops find the first role of all namespaces that shows a policy of that name |
| AuthServer.Server.ResolvePolicy | internal/authserver/server.go:1105-1116 | the first policy of that name in that role |
| AuthServer.Server.GroupsForUser | internal/authserver/server.go:1133-1148 | lists each group of the namespace that lists the user, once and in order |
| AuthServer.Server.EffectivePoliciesForSubject | internal/authserver/server.go:1170-1193 | concatenates what the subject's bindings grant, passing over bindings whose role is missing |
| AuthServer.Server.EffectivePoliciesForUser | internal/authserver/server.go:1150-1168 | the user's own policies, then those of its groups; which these are, field by field, is `EffectivePolicies.EffectiveIsExact` |
| AuthServer.BuildPolicies | internal/authserver/server.go:1388-1406 | every template of the role once and in order: its name and the resource of each statement rendered for the repository, effects and actions as they are |
| AuthServer.FilterMembers | internal/authserver/server.go:1263-1269 | filtering into the array that is being read leaves exactly the other members, in order |
| AuthServer.Server.RemoveUserFromGroups | internal/authserver/server.go:1257-1272 | exactly the groups of the user change, each to its members without the user |
| AuthServer.Server.DeleteCredentialsForUser | internal/authserver/server.go:431-439 | exactly the user's credentials go |
| AuthServer.Server.DeleteRoleBindingsForSubject | internal/authserver/server.go:1233-1243 | exactly the subject's bindings go |
| AuthServer.Server.DeleteRoleBindingsForRole | internal/authserver/server.go:1245-1255 | exactly the role's bindings of its namespace go |
| AuthServer.Server.CreateUser | internal/authserver/server.go:356-404 | status, answered user and new state in every branch: blank name, known id, taken name, conflict, created; which branch when is `AuthIdentity.CreateUserAnswers` |
| AuthServer.Server.DeleteUser | internal/authserver/server.go:415-429 | the user goes with credentials, memberships and bindings |
| AuthServer.Server.CreateGroup | internal/authserver/server.go:555-577 | status, answered group and new state |
| AuthServer.Server.DeleteGroup | internal/authserver/server.go:610-622 | the group goes with its bindings |
| AuthServer.Server.AddGroupMembership | internal/authserver/server.go:624-647 | status and new state; that exactly this membership is added is `AuthGroups.AddMemberAdds` |
| AuthServer.Server.RemoveGroupMembership | internal/authserver/server.go:649-672 | status and new state; that exactly this membership goes is `AuthGroups.RemoveMemberRemoves` |
| AuthGroups.AddMemberAdds | internal/authserver/server.go:624-647 | if group and user are found in one namespace the user is appended to the members, once, or was there; the user's groups grow by this one, everybody else's and all else stays; 404 and no change otherwise |
| AuthGroups.RemoveMemberRemoves | internal/authserver/server.go:649-672 | all mentions of the user go and the other members keep their order; the user's groups lose this one, everybody else's and all else stays |
| AuthGroups.JoiningGrants | internal/authserver/server.go:1150-1168 | who joins a group has its policies on top of the old ones; everybody else has the same policies as before |
| AuthGroups.LeavingRevokes | internal/authserver/server.go:1150-1168 | who leaves a group loses its policies and keeps the rest |
| AuthGroups.CreateGroupAnswers | internal/authserver/server.go:555-577 | 400 for a blank name; else 201 with a group that is found by what was asked for, created with the fields asked for only if none was |
| AuthGroups.DeleteGroupIsClean | internal/authserver/server.go:610-622 | exactly the group and its bindings go |
| AuthServer.Server.AttachPolicy | internal/authserver/server.go:473-490 | the binding of the resolved subject and role is created or overwritten; 404 without either |
| AuthServer.Server.EnsureRoleBinding | internal/authserver/server.go:1195-1221 | the binding of that name is the new one, whether it existed or not; no other changes |
| AuthServer.Server.DetachPolicy | internal/authserver/server.go:693-707 | the binding of that name goes |
| AuthServer.Server.WritePolicy | internal/authserver/server.go:745-778 | the role under the policy's name is created, or overwritten if it is there, and then holds this policy alone; every other role stays; without a name nothing changes |
| AuthServer.Server.DeletePolicy | internal/authserver/server.go:780-792 | the resolved role goes with its bindings |
| AuthServer.Server.EnsureCredentialSecret | internal/authserver/server.go:910-964 | the Secret is created, or edited in place and written only if it changed |
| AuthServer.Server.CreateUserCredential | internal/authserver/server.go:842-908 | status, payload and new state, with an object of that name there or not, with a secret key given or not; the access key is the one asked for, or the prefix and the random text |
| AuthServer.Server.GetCredentialByAccessKey | internal/authserver/server.go:803-840 | served exactly if live, its user exists and is the expected one, and its Secret holds a key |
| AuthServer.Server.ListUserCredentials | internal/authserver/server.go:441-471 | the access keys of the user's live credentials, in order |
| AuthServer.Server.RevokeUserCredential | internal/authserver/server.go:996-1013 | revokes for the owner only |
| AuthServer.Server.Serve | internal/authserver/server.go:177-330 | each request goes to its handler and leaves the store `Handle` describes, the step of every run below |
| AuthReferences.StepKeepsReferences | internal/authserver/server.go:415-439 | each of the twelve kinds of requests, cascades included, leaves no binding without subject or role, no group with a missing member, no credential without its user |
| AuthReferences.RunKeepsReferences | internal/authserver/server.go:610-707 | so does any run of requests within one namespace |
| AuthReferences.AttachReferences | internal/authserver/server.go:1118-1131 | attaching keeps references exactly when a role of the resolved name is in the subject's namespace |
| AuthIdentity.LookupIffDistinct | internal/authserver/server.go:1026-1051 | every user is found by its name, whichever of the three paths answers, exactly when names are distinct |
| AuthIdentity.CreateUserKeepsNames | internal/authserver/server.go:356-404 | creating a user keeps names distinct, except exactly for a blank external id whose name is another's external id |
| AuthIdentity.BlankIdsCollide | internal/authserver/server.go:368-382 | a concrete such request |
| AuthIdentity.CreatedUserIsFound | internal/authserver/server.go:368-404 | a created user is found under its external id |
| AuthIdentity.CreateUserAnswers | internal/authserver/server.go:368-404 | 400 exactly for a blank name, with nothing stored; 409 exactly if no user is found by the id and the one stored under the object name goes by neither name nor id, with nothing changed; else 201 with the user found, the one that goes by name or id, or a new one with the fields asked for |
| AuthIdentity.CreatedGoesByRequest | internal/authserver/server.go:390-404 | a user answered with 201 goes by the id or the name asked for |
| AuthIdentity.NameIsTrimmed | internal/authserver/server.go:363-368 | white space around a name is dropped, and only that |
| AuthIdentity.CreateUserTwice | internal/authserver/server.go:368-404 | the same request again gives the same answer and changes nothing |
| AuthIdentity.RunKeepsNames | internal/authserver/server.go:1415-1423 | over any run of such requests names stay distinct and lookup by name finds every user |
| EffectivePolicies.EffectiveIsExact | internal/authserver/server.go:1133-1193 | the listed policies are exactly the user's grants (a binding for it or one of its groups, with a template of the existing role), each once, ordered own before groups, by group, binding and template; each has the template's effects and actions, and its name and resources rendered for the binding's repository |
| EffectivePolicies.SubjectIsExact | internal/authserver/server.go:1170-1193 | the same for one subject, a user or a group |
| EffectivePolicies.ShownApart | internal/authserver/server.go:1388-1413 | a template with the placeholder in a resource shows different resources for different repositories |
| EffectivePolicies.EffectiveIsLocal | internal/authserver/server.go:1170-1193 | nothing in another namespace plays a role |
| AuthDeletion.DeleteUserIsClean | internal/authserver/server.go:415-439 | nothing of a deleted user is left and nothing else goes; every other user and every group keeps its memberships and its sequence of policies |
| AuthDeletion.CredentialsKept | internal/authserver/server.go:431-439 | other users keep their credentials |
| AuthDeletion.RemoveUserTakesOwn | internal/authserver/server.go:415-439 | exactly the user's bindings and credentials go, and groups keep all but their members |
| AuthDeletion.MembersAfter | internal/authserver/server.go:1257-1272 | a group the user was in keeps its other members in their order; other groups keep all |
| AuthBindings.AttachKeepsBindings | internal/authserver/server.go:1195-1221 | attaching changes no stored binding exactly when the place for the new one is free or holds that very binding |
| AuthBindings.AttachSparesOthers | internal/authserver/server.go:1195-1221 | attaching to one subject leaves the policies of another as they are exactly when the place does not hold a binding of that other subject that grants something |
| AuthBindings.BindAddsOne | internal/authserver/server.go:1195-1221 | under a readable name attaching adds that binding, or nothing if it is there, and changes no other |
| AuthBindings.AttachBinds | internal/authserver/server.go:473-490 | with subject and role found the binding next to the subject has that kind, subject, role and repository, the star for none given, and nothing else changes; else 404 and no change |
| AuthBindings.DetachUnbinds | internal/authserver/server.go:492-506 | detaching removes that binding, if subject and role are found, and nothing else |
| AuthBindings.AttachedForRepository | internal/authserver/server.go:473-490 | an attached policy is in effect rendered for the repository it was attached for |
| AuthBindings.ApiBindingReadable | internal/authserver/server.go:1345-1369 | a policy of one word written by the API is attached to any subject under a readable name, if it fits |
| AuthBindings.RunKeepsOwnNames | internal/authserver/server.go:1195-1221 | over any run every binding is stored under its name |
| AuthBindings.RunKeepsReadable | internal/authserver/server.go:1195-1221 | a name stays readable over any run that attaches readable bindings under it, whatever is attached under other names |
| AuthBindings.DetachUndoesAttach | internal/authserver/server.go:1223-1231 | detaching after attaching restores the store exactly when no binding of that name was there |
| AuthBindings.DetachUndoesNewAttach | internal/authserver/server.go:674-707 | under a readable name: exactly when the subject was not bound to that role for that repository |
| AuthBindings.AttachTakesOver | internal/authserver/server.go:1206-1219 | when names with hyphens clash the second attachment leaves the store as if the first had never happened |
| AuthBindings.AttachedIsInEffect | internal/authserver/server.go:674-691 | a policy attached to a subject next to the role is among its effective policies |
| AuthBindings.BindDisturbsNoOther | internal/authserver/server.go:1195-1221 | under a readable name no other subject's policies change |
| AuthPolicies.WriteThenGet | internal/authserver/server.go:745-801 | a written policy is read back exactly when it has no placeholder, unless an earlier role shows its name |
| AuthPolicies.EarlierRoleHides | internal/authserver/server.go:1118-1131 | if one does, that one is read, as before |
| AuthPolicies.OtherPoliciesStay | internal/authserver/server.go:745-778 | policies the written role shows neither before nor after are read as before |
| AuthPolicies.PolicyFound | internal/authserver/server.go:1105-1116 | a policy is found exactly when some role shows it, and has the name asked for |
| AuthPolicies.HoldsExactly | internal/authserver/server.go:1118-1131 | a role holds a policy exactly if one of its templates renders to that name for that repository |
| AuthPolicies.FirstRoleFound | internal/authserver/server.go:1118-1131 | the role found is the first one by key that holds the policy |
| AuthPolicies.FirstNamedIsFirst | internal/authserver/server.go:1105-1116 | and the policy the first of that name in it |
| AuthPolicies.DeleteThenGet | internal/authserver/server.go:780-792 | a deleted policy is gone exactly when no other role shows its name |
| AuthPolicies.DeletePolicyIsClean | internal/authserver/server.go:780-792 | exactly the role and its bindings go |
| AuthCredentials.CreateThenGet | internal/authserver/server.go:842-893 | lookup returns the given secret and user exactly when the object name was free or its holder is a live credential with that access key for a user of that name |
| AuthCredentials.ServedExactly | internal/authserver/server.go:803-840 | what lookup serves, field by field: the first credential with that access key, not revoked, not at or past its time, of an existing user that goes by the name answered and expected, with the secret key its Secret holds |
| AuthCredentials.CreateAnswers | internal/authserver/server.go:842-908 | 404 without the user; else the given secret key with 201, or the one the Secret holds, or 202 if it holds none yet |
| AuthCredentials.CreateTouchesOwn | internal/authserver/server.go:842-877 | only that credential and its Secret can change; a new one has the user, access key and Secret name it should and is live |
| AuthCredentials.GivenSecretStored | internal/authserver/server.go:910-964 | a given secret key is in the Secret, with both labels; who controlled it still does, and a new Secret is free for the operator |
| AuthCredentials.CaseCollides | internal/authserver/server.go:855-857 | access keys that differ in case share an object name |
| AuthCredentials.CollidingKeyOverwrites | internal/authserver/server.go:867-893 | then the second creation, by any user of the namespace, replaces the secret of the first one's owner and is never served itself |
| AuthCredentials.ListedExactly | internal/authserver/server.go:441-471 | nothing is listed exactly if there is no such user; else listed are exactly the access keys of its credentials in its namespace that are neither revoked nor at or past their time |
| AuthCredentials.RunKeepsKeysUnique | internal/authserver/server.go:842-877 | over any run within one namespace no two credentials share an access key |
| AuthCredentials.RevokeThenGet | internal/authserver/server.go:996-1013 | the owner's revocation sets that one flag and works at once; anybody else's is refused and changes nothing |
| AuthCredentials.RevokeUnknown | internal/authserver/server.go:996-1013 | revoking an unknown access key answers 204 and changes nothing |
| AuthCredentials.RevocationIsPermanent | internal/authserver/server.go:803-908 | once revoked an access key is never served or listed again, over any run, until its object is deleted |
| HeaderMatchers.RunEndIsGreedy | scripts/copyright.py:13-14 | the matcher for the repeated lines of a header is the longest stretch in front of a blank line |
| HeaderMatchers.StarConsumesLines | scripts/copyright.py:13-14 | what the repeated group can consume |
| HeaderMatchers.HeaderEndIsGreedy | scripts/copyright.py:13-14 | the header matcher returns the longest match of the expression, opening and doubled prefix included, if there is one |
| HeaderMatchers.FindHeaderIsLeftmost | scripts/copyright.py:13 | the search returns the match at the leftmost line start that has one |
| HeaderMatchers.ApacheExactly | scripts/copyright.py:15 | the Apache comment is found exactly if it is there: opening, four digits, a blank line, everything up to the first end of a comment, and all newlines behind |
| HeaderMatchers.BuildMatchExactly | scripts/copyright.py:16 | build constraints are found exactly if a line with the newer form is in front: that line, one with the older form behind it if there is one, and all newlines |
| HeaderMatchers.ShebangExactly | scripts/copyright.py:17 | a shebang is a first line that starts with "#!", up to and with its newline |
| CommentHeaders.CommentHeaderShape | scripts/copyright.py:31-32 | a valid notice becomes a comment that opens with the prefix and "Copyright", has no blank line and ends in ink |
| CommentHeaders.NoticeReadBack | scripts/copyright.py:31-32 | a notice whose lines end in ink is read back from its header by taking the prefix off every line |
| CommentHeaders.OwnHeaderMatch | scripts/copyright.py:13-14 | the script's own header is matched exactly when it is recognised, with at most one newline more |
| GoHeader.AddGoCopyrightHeader | scripts/copyright.py:43-69 | the loop of removals computes the stripped body, the written text and the report |
| GoHeader.StripGoLeaves | scripts/copyright.py:54-63 | after the loop no header is in front, and white space only if nothing was removed |
| GoHeader.StripGoKeepsTail | scripts/copyright.py:54-63 | the loop takes text off the front only |
| GoHeader.PlainFileGetsHeader | scripts/copyright.py:43-69 | without a header in front all text is kept: build constraints first, the header, and the rest |
| GoHeader.GoSecondRun | scripts/copyright.py:43-69 | the second run is clean exactly for a recognised header, a file without leading white space and a legible build constraint |
| HashHeader.RemoveHeaders | scripts/copyright.py:86-93 | the loop of removals, which shortens the text every time |
| HashHeader.AddCopyrightHeader | scripts/copyright.py:72-106 | the written text and the report, in every branch |
| HashHeader.StripAllLeaves | scripts/copyright.py:86-94 | no header and no run of blank lines is left |
| HashHeader.InkIsText | scripts/copyright.py:96 | comparing with the header leaves white space at both ends of the text aside, and nothing else |
| HashHeader.HeaderInFront | scripts/copyright.py:96-106 | after a run the header is in front, behind a shebang at most, unless the file holds just the header already |
| HashHeader.PlainFileGetsHeader | scripts/copyright.py:72-106 | a file with text and no header keeps its text behind the header, but for blank lines in a row |
| HashHeader.CollapseFixpoints | scripts/copyright.py:18 | exactly the texts without two blank lines in a row stay as they are |
| HashHeader.CollapseDropsOne | scripts/copyright.py:94 | and one of two in a row makes no difference, wherever it stands |
| HashHeader.HashSecondRun | scripts/copyright.py:72-106 | the second run is clean exactly when the file settles |
| HashHeader.CopiesExactly | scripts/copyright.py:86-94 | for white space in front, that is read off the text: copies of the header with blank lines between them, and no blank line behind the last |
| HashHeader.HashSecondRunClean | scripts/copyright.py:72-106 | a file with a shebang or no white space in front that holds more than headers settles, if the header is recognised |

## Left out

- HTTP, JSON, routing, paging and list filters: handlers start from decoded arguments. `PUT` under `/auth/users/` is
  not routed, so attaching to a user is reachable as a function only; user and group attachment are one model operation
  with the kind of subject as a parameter.
- Lists: returned in the order of keys, namespace first; the store's own order is not modelled.
- Access by time: the clock is a parameter, expiry compares with it; creation dates are not modelled.
- AuthServer.Server.CreateUserCredential: looks for an operator-made secret once; the polling of up to ten seconds
  around that look is not modelled.
- Random tokens: arbitrary strings.
- Failing calls in the auth server, partial cascades and concurrent replicas: the handlers run one after another
  without client errors. `SecretProtocol` has conflicts, stale reads and interleavings for Secrets.
- User ids in credential payloads: the name of the user is; the id is a function of it, see `Fnv`.
- UTF-8: user ids are computed from bytes, CronJob names from ASCII resource names.
- Lower case: `Naming.LowerChar` is exact for every character whose lower case is a safe character; all others are
  replaced by a hyphen anyway.
- The digit class of the header expressions is a parameter, for all its Unicode members.
- File access of the script: text in, text and report out; the template of the notice and its year are not modelled.
- Defaulting by the API server, schemas, admission: not modelled.
- RepositoryMachine.NoLeakedRepository: for resources whose repository name and endpoint do not change; `RepositoryMachine.EditLeaks` says exactly when an edit breaks it.
- HashHeader.HashSecondRun: for a notice that is the one word "Copyright", in a file with white space in front and nothing a run can find, the condition is what the removal loop leaves; for all other notices it is read off the text.
- RepositoryRefinement.ReconcileIsRun: for a resource without finalizers of other controllers; the machine has them, a reconcile as a whole does not.
- AuthReferences.RunKeepsReferences: for one namespace; `AuthReferences.AttachReferences` says exactly when attaching across namespaces is safe.
- SecretProtocol.SuccessStays: Secrets are not deleted from outside, and the secret key has a field of its own; `Secrets.OperatorKeepsSecretKey` says exactly when it matters.
- Reconcilers of users, roles, groups and policies, status conditions' reasons and messages: one-branch facts.
- Group identity over runs: group names are looked up like user names, but are not kept distinct by the code.
