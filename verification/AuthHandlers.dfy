/** The handlers of the auth API: what each makes of the stored objects, and what it answers. */
module AuthHandlers {
  import opened Text
  import opened KeyOrder
  import opened Naming
  import Secrets
  import opened AuthStore

  datatype Answer = Answer(store: Store, status: int, subject: Option<Key>)

  function Done(s: Store, status: int): Answer { Answer(s, status, None) }

  /** White space as Unicode defines it. */
  predicate Space(c: char) {
    '\t' <= c <= '\r' || c == ' ' || c == '\U{85}' || c == '\U{a0}' || c == '\U{1680}' || '\U{2000}' <= c <= '\U{200a}' ||
    c == '\U{2028}' || c == '\U{2029}' || c == '\U{202f}' || c == '\U{205f}' || c == '\U{3000}'
  }

  function TrimSpace(s: string): string { Trim(s, Space) }

  // ---- Users ----

  /** A request to create a user: body fields and query parameters, each the first of its spellings that is not empty. */
  datatype UserRequest = UserRequest(username: string, externalId: string, friendlyName: string, namespace: string)

  function RequestedName(r: UserRequest): string { TrimSpace(r.username) }

  function RequestedId(r: UserRequest): string { TrimSpace(Or(r.externalId, RequestedName(r))) }

  function RequestedKey(home: string, r: UserRequest): Key { Key(Or(r.namespace, home), ObjectName(RequestedName(r))) }

  function AddUser(s: Store, k: Key, u: User): Store { s.(users := s.users[k := u]) }

  function CreateUser(s: Store, home: string, r: UserRequest): Answer {
    var id := RequestedId(r);
    var k := RequestedKey(home, r);
    if RequestedName(r) == "" then Done(s, 400)
    else if ResolveUser(s, id).Some? then Answer(s, 201, ResolveUser(s, id))
    else if k !in s.users then
      Answer(AddUser(s, k, User(id, Or(r.friendlyName, RequestedName(r)))), 201, Some(k))
    else if Username(k, s.users[k]) != RequestedName(r) && Username(k, s.users[k]) != id then Done(s, 409)
    else Answer(s, 201, Some(k))
  }

  /** Some groups without a user; the others stay. */
  function LeaveGroups(s: Store, user: Key, left: set<Key>): map<Key, Group> {
    map g | g in s.groups ::
      if g in left then s.groups[g].(members := Without(s.groups[g].members, user.name)) else s.groups[g]
  }

  /** Deleting a user takes its credentials, memberships and bindings with it. */
  function RemoveUser(s: Store, k: Key): Store {
    s.(users := s.users - {k},
       credentials := s.credentials - UserCredentials(s, k),
       groups := LeaveGroups(s, k, GroupsOf(s, k)),
       bindings := s.bindings - SubjectBindings(s, k.namespace, UserSubject, k.name))
  }

  function DeleteUser(s: Store, id: string): Answer {
    var u := ResolveUser(s, id);
    if u.None? then Done(s, 204) else Done(RemoveUser(s, u.value), 204)
  }

  // ---- Groups ----

  datatype GroupRequest = GroupRequest(id: string, name: string, description: string)

  function RequestedGroup(r: GroupRequest): string { TrimSpace(Or(r.id, r.name)) }

  function AddGroup(s: Store, k: Key, g: Group): Store { s.(groups := s.groups[k := g]) }

  function CreateGroup(s: Store, home: string, r: GroupRequest): Answer {
    var id := RequestedGroup(r);
    var k := Key(home, GroupObject(id));
    if id == "" then Done(s, 400)
    else if ResolveGroup(s, id).Some? then Answer(s, 201, ResolveGroup(s, id))
    else if k in s.groups then Answer(s, 201, Some(k))
    else Answer(AddGroup(s, k, Group(id, Or(r.description, Or(r.name, id)), [])), 201, Some(k))
  }

  function RemoveGroup(s: Store, k: Key): Store {
    s.(groups := s.groups - {k}, bindings := s.bindings - SubjectBindings(s, k.namespace, GroupSubject, k.name))
  }

  function DeleteGroup(s: Store, id: string): Answer {
    var g := ResolveGroup(s, id);
    if g.None? then Done(s, 204) else Done(RemoveGroup(s, g.value), 204)
  }

  function AddMember(s: Store, groupId: string, userId: string): Answer {
    var g, u := ResolveGroup(s, groupId), ResolveUser(s, userId);
    if g.None? || g.value !in s.groups then Done(s, 404)
    else if u.None? || u.value.namespace != g.value.namespace then Done(s, 404)
    else if u.value.name in s.groups[g.value].members then Done(s, 201)
    else
      var group := s.groups[g.value];
      Done(s.(groups := s.groups[g.value := group.(members := group.members + [u.value.name])]), 201)
  }

  function RemoveMember(s: Store, groupId: string, userId: string): Answer {
    var g, u := ResolveGroup(s, groupId), ResolveUser(s, userId);
    if g.None? || g.value !in s.groups || u.None? || u.value.namespace != g.value.namespace then Done(s, 204)
    else
      var group := s.groups[g.value];
      Done(s.(groups := s.groups[g.value := group.(members := Without(group.members, u.value.name))]), 204)
  }

  // ---- Attaching policies ----

  function ResolveSubject(s: Store, kind: Kind, id: string): Option<Key> {
    if kind.UserSubject? then ResolveUser(s, id) else ResolveGroup(s, id)
  }

  /** The binding of a subject to a role sits in the namespace of the subject. */
  function BindingKey(kind: Kind, subject: Key, role: Key, repository: string): Key {
    Key(subject.namespace, RoleBindingName(kind, subject.name, role.name, repository))
  }

  /** An existing binding of that name is overwritten. */
  function Bind(s: Store, kind: Kind, subject: Key, role: Key, repository: string): Store {
    s.(bindings := s.bindings[BindingKey(kind, subject, role, repository) := Binding(kind, subject.name, role.name, repository)])
  }

  function Unbind(s: Store, kind: Kind, subject: Key, role: Key, repository: string): Store {
    s.(bindings := s.bindings - {BindingKey(kind, subject, role, repository)})
  }

  /** Without a repository the policy is attached for all. */
  function RepositoryScope(requested: string): string { Or(requested, "*") }

  function AttachPolicy(s: Store, kind: Kind, id: string, policy: string, repository: string): Answer {
    var x := ResolveSubject(s, kind, id);
    var role := ResolveRole(s, policy, RepositoryScope(repository));
    if x.None? || role.None? then Done(s, 404)
    else Done(Bind(s, kind, x.value, role.value, RepositoryScope(repository)), 201)
  }

  function DetachPolicy(s: Store, kind: Kind, id: string, policy: string, repository: string): Answer {
    var x := ResolveSubject(s, kind, id);
    var role := ResolveRole(s, policy, RepositoryScope(repository));
    if x.None? || role.None? then Done(s, 204)
    else Done(Unbind(s, kind, x.value, role.value, RepositoryScope(repository)), 204)
  }

  // ---- Policies ----

  function PolicyKey(home: string, name: string): Key { Key(home, ObjectName("lakefs-policy-" + name)) }

  function PolicyRole(p: Policy): Role { Role("lakeFS setup policy " + p.name, [p]) }

  /** Creates or overwrites the role of the policy; the name in the path counts if the body has none. */
  function WritePolicy(s: Store, home: string, p: Policy, fallback: string, status: int): Answer {
    var named := p.(name := Or(p.name, fallback));
    if named.name == "" then Done(s, 400)
    else Done(s.(roles := s.roles[PolicyKey(home, named.name) := PolicyRole(named)]), status)
  }

  function RemoveRole(s: Store, k: Key): Store {
    s.(roles := s.roles - {k}, bindings := s.bindings - RoleBindings(s, k))
  }

  function DeletePolicy(s: Store, id: string): Answer {
    var k := ResolveRole(s, id, "*");
    if k.None? then Done(s, 204) else Done(RemoveRole(s, k.value), 204)
  }

  // ---- Credentials ----

  datatype CredentialAnswer = CredentialAnswer(store: Store, status: int, served: Option<Served>)

  /** The access key: the one asked for, or a random one. */
  function AccessKeyId(requested: string, random: string): string { Or(requested, "lakefs_ak_" + random) }

  function CredentialKey(user: Key, accessKeyId: string): Key { Key(user.namespace, ObjectName("lakefs-cred-" + accessKeyId)) }

  function NewCredential(user: Key, accessKeyId: string): Credential {
    Credential(user.name, accessKeyId, CredentialKey(user, accessKeyId).name, "secretAccessKey", false, None)
  }

  /** An object of that name that is there already is used as it is. */
  function AddCredential(s: Store, k: Key, c: Credential): Store {
    if k in s.credentials then s else s.(credentials := s.credentials[k := c])
  }

  /** The Secret of a credential after it was given a secret key. */
  function SecretWith(s: Store, k: Key, c: Credential, secretKey: string): Secrets.Secret {
    var at := Key(k.namespace, c.secretName);
    if at in s.secrets then Secrets.ServerEdit(s.secrets[at], SecretSpec(k, c), secretKey)
    else Secrets.Fresh(SecretSpec(k, c), secretKey, None)
  }

  function PutSecret(s: Store, at: Key, secret: Secrets.Secret): Store { s.(secrets := s.secrets[at := secret]) }

  function WithSecret(s: Store, k: Key, secretKey: string): Store {
    if k !in s.credentials then s else
      var c := s.credentials[k];
      PutSecret(s, Key(k.namespace, c.secretName), SecretWith(s, k, c, secretKey))
  }

  function Issue(s: Store, k: Key, c: Credential, secretKey: string): Store {
    if secretKey == "" then AddCredential(s, k, c) else WithSecret(AddCredential(s, k, c), k, secretKey)
  }

  /** The secret key the answer shows: the given one, or the one the operator has made by the time it is looked for. */
  function ShownSecret(s: Store, k: Key, secretKey: string): string {
    if secretKey != "" then secretKey else if k in s.credentials then StoredSecret(s, k, s.credentials[k]) else ""
  }

  function CreateCredential(s: Store, id: string, accessKeyId: string, secretKey: string): CredentialAnswer {
    var u := ResolveUser(s, id);
    if u.None? || u.value !in s.users then CredentialAnswer(s, 404, None) else
      var k := CredentialKey(u.value, accessKeyId);
      var t := Issue(s, k, NewCredential(u.value, accessKeyId), secretKey);
      var shown := ShownSecret(t, k, secretKey);
      if shown == "" then CredentialAnswer(t, 202, None)
      else CredentialAnswer(t, 201, Some(Served(accessKeyId, shown, Username(u.value, s.users[u.value]))))
  }

  function Revoked(s: Store, k: Key): Store
    requires k in s.credentials
  {
    s.(credentials := s.credentials[k := s.credentials[k].(revoked := true)])
  }

  function RevokeCredential(s: Store, id: string, accessKeyId: string): Answer {
    var k := ResolveCredential(s, accessKeyId);
    var u := ResolveUser(s, id);
    if k.None? || k.value !in s.credentials then Done(s, 204)
    else if u.None? || u.value != Key(k.value.namespace, s.credentials[k.value].user) then Done(s, 404)
    else Done(Revoked(s, k.value), 204)
  }

  // ---- What a handler leaves alone ----

  lemma AddFrame(s: Store, k: Key, u: User, g: Group)
    ensures AddUser(s, k, u) == s.(users := AddUser(s, k, u).users) && AddGroup(s, k, g) == s.(groups := AddGroup(s, k, g).groups)
  {
  }

  lemma CreateUserFrame(s: Store, home: string, r: UserRequest)
    ensures var t := CreateUser(s, home, r).store; t == s.(users := t.users)
  {
    var u := User(RequestedId(r), Or(r.friendlyName, RequestedName(r)));
    assert CreateUser(s, home, r).store in {s, AddUser(s, RequestedKey(home, r), u)};
    AddFrame(s, RequestedKey(home, r), u, Group("", "", []));
  }

  lemma CreateGroupFrame(s: Store, home: string, r: GroupRequest)
    ensures var t := CreateGroup(s, home, r).store; t == s.(groups := t.groups)
  {
    var id := RequestedGroup(r);
    var k, g := Key(home, GroupObject(id)), Group(id, Or(r.description, Or(r.name, id)), []);
    assert CreateGroup(s, home, r).store in {s, AddGroup(s, k, g)};
    AddFrame(s, k, User("", ""), g);
  }

  lemma WritePolicyFrame(s: Store, home: string, p: Policy, fallback: string, status: int)
    ensures var t := WritePolicy(s, home, p, fallback, status).store; t == s.(roles := t.roles)
  {
  }

  lemma PutSecretFrame(s: Store, at: Key, secret: Secrets.Secret)
    ensures var t := PutSecret(s, at, secret); t == s.(secrets := t.secrets)
  {
  }

  lemma WithSecretFrame(s: Store, k: Key, secretKey: string)
    ensures var t := WithSecret(s, k, secretKey); t == s.(secrets := t.secrets)
  {
    if k in s.credentials {
      var c := s.credentials[k];
      PutSecretFrame(s, Key(k.namespace, c.secretName), SecretWith(s, k, c, secretKey));
    }
  }

  /** A new credential and its Secret: nothing else changes. */
  lemma IssueFrame(s: Store, k: Key, c: Credential, secretKey: string)
    ensures var t := Issue(s, k, c, secretKey); t == s.(credentials := t.credentials, secrets := t.secrets)
  {
    WithSecretFrame(AddCredential(s, k, c), k, secretKey);
  }

  // ---- Runs ----

  /** A request that may change what is stored. */
  datatype Request =
    | PostUser(user: UserRequest)
    | DropUser(id: string)
    | PostGroup(group: GroupRequest)
    | DropGroup(id: string)
    | PutMember(groupId: string, userId: string)
    | DropMember(groupId: string, userId: string)
    | Attach(kind: Kind, id: string, policyId: string, repository: string)
    | Detach(kind: Kind, id: string, policyId: string, repository: string)
    | PutPolicy(policy: Policy, fallback: string, status: int)
    | DropPolicy(id: string)
    | PostCredential(id: string, requested: string, secretKey: string, random: string)
    | DropCredential(id: string, accessKeyId: string)

  function Handle(s: Store, home: string, q: Request): Store {
    match q
    case PostUser(r) => CreateUser(s, home, r).store
    case DropUser(id) => DeleteUser(s, id).store
    case PostGroup(r) => CreateGroup(s, home, r).store
    case DropGroup(id) => DeleteGroup(s, id).store
    case PutMember(g, u) => AddMember(s, g, u).store
    case DropMember(g, u) => RemoveMember(s, g, u).store
    case Attach(kind, id, p, repository) => AttachPolicy(s, kind, id, p, repository).store
    case Detach(kind, id, p, repository) => DetachPolicy(s, kind, id, p, repository).store
    case PutPolicy(p, fallback, status) => WritePolicy(s, home, p, fallback, status).store
    case DropPolicy(id) => DeletePolicy(s, id).store
    case PostCredential(id, requested, secretKey, random) =>
      CreateCredential(s, id, AccessKeyId(requested, random), secretKey).store
    case DropCredential(id, accessKeyId) => RevokeCredential(s, id, accessKeyId).store
  }

  function Run(s: Store, home: string, qs: seq<Request>): Store
    decreases |qs|
  {
    if qs == [] then s else Run(Handle(s, home, qs[0]), home, qs[1..])
  }
}
