/** No dangling references: what bindings, groups and credentials refer to exists, over any run of requests. */
module AuthReferences {
  import opened Text
  import opened KeyOrder
  import opened Naming
  import Secrets
  import opened AuthStore
  import opened AuthHandlers

  predicate SubjectExists(s: Store, namespace: string, b: Binding) {
    if b.kind.UserSubject? then Key(namespace, b.subject) in s.users else Key(namespace, b.subject) in s.groups
  }

  predicate BindingFine(s: Store, k: Key) {
    k in s.bindings ==> SubjectExists(s, k.namespace, s.bindings[k]) && Key(k.namespace, s.bindings[k].role) in s.roles
  }

  predicate BindingsFine(s: Store) { forall k :: k in s.bindings ==> BindingFine(s, k) }

  predicate GroupFine(s: Store, g: Key) {
    g in s.groups ==> forall m :: m in s.groups[g].members ==> Key(g.namespace, m) in s.users
  }

  predicate GroupsFine(s: Store) { forall g :: g in s.groups ==> GroupFine(s, g) }

  predicate CredentialsFine(s: Store) {
    forall k :: k in s.credentials ==> Key(k.namespace, s.credentials[k].user) in s.users
  }

  /** Every binding has its subject and its role, every group its members, every credential its user. */
  predicate References(s: Store) { BindingsFine(s) && GroupsFine(s) && CredentialsFine(s) }

  /** Everything bindings tie together lives in one namespace. */
  predicate InOne(s: Store, home: string) {
    (forall k :: k in s.users ==> k.namespace == home) &&
    (forall k :: k in s.groups ==> k.namespace == home) &&
    (forall k :: k in s.roles ==> k.namespace == home)
  }

  /** The one request that can name another namespace does not. */
  predicate StaysHome(home: string, q: Request) {
    q.PostUser? ==> q.user.namespace == "" || q.user.namespace == home
  }

  lemma {:induction false} WithoutMember(members: seq<string>, name: string, m: string)
    ensures m in Without(members, name) <==> m in members && m != name
  {
    if members != [] {
      WithoutMember(members[1..], name, m);
      assert members == [members[0]] + members[1..];
    }
  }

  lemma AddUserKeeps(s: Store, k: Key, u: User)
    requires References(s)
    ensures References(s.(users := s.users[k := u]))
  {
    var t := s.(users := s.users[k := u]);
    BindingsGrow(s, t);
    forall g | g in t.groups ensures GroupFine(t, g) { assert GroupFine(s, g); }
  }

  lemma CreateUserKeeps(s: Store, home: string, r: UserRequest)
    requires References(s)
    ensures References(CreateUser(s, home, r).store)
  {
    AddUserKeeps(s, RequestedKey(home, r), User(RequestedId(r), Or(r.friendlyName, RequestedName(r))));
  }

  lemma BindingsGrow(s: Store, t: Store)
    requires BindingsFine(s) && t.bindings == s.bindings
    requires s.users.Keys <= t.users.Keys && s.groups.Keys <= t.groups.Keys && s.roles.Keys <= t.roles.Keys
    ensures BindingsFine(t)
  {
    forall k | k in t.bindings ensures BindingFine(t, k) { assert BindingFine(s, k); }
  }

  lemma RemoveUserBindings(s: Store, u: Key)
    requires BindingsFine(s)
    ensures BindingsFine(RemoveUser(s, u))
  {
    var t := RemoveUser(s, u);
    forall k | k in t.bindings ensures BindingFine(t, k) {
      assert BindingFine(s, k);
      assert k !in SubjectBindings(s, u.namespace, UserSubject, u.name);
    }
  }

  lemma RemoveUserGroups(s: Store, u: Key)
    requires GroupsFine(s)
    ensures GroupsFine(RemoveUser(s, u))
  {
    var t := RemoveUser(s, u);
    forall g | g in t.groups ensures GroupFine(t, g) {
      assert GroupFine(s, g);
      forall m | m in t.groups[g].members ensures Key(g.namespace, m) in t.users {
        WithoutMember(s.groups[g].members, u.name, m);
      }
    }
  }

  lemma RemoveUserKeeps(s: Store, u: Key)
    requires References(s)
    ensures References(RemoveUser(s, u))
  {
    RemoveUserBindings(s, u);
    RemoveUserGroups(s, u);
  }

  lemma GroupsKeep(s: Store, t: Store)
    requires GroupsFine(s) && t.users == s.users && t.credentials == s.credentials && CredentialsFine(s)
    requires forall g :: g in t.groups ==> g in s.groups && t.groups[g] == s.groups[g]
    ensures GroupsFine(t) && CredentialsFine(t)
  {
    forall g | g in t.groups ensures GroupFine(t, g) { assert GroupFine(s, g); }
  }

  lemma AddGroupKeeps(s: Store, k: Key, id: string, description: string)
    requires References(s)
    ensures References(s.(groups := s.groups[k := Group(id, description, [])]))
  {
    var t := s.(groups := s.groups[k := Group(id, description, [])]);
    BindingsGrow(s, t);
    forall g | g in t.groups ensures GroupFine(t, g) { assert g in s.groups ==> GroupFine(s, g); }
  }

  lemma CreateGroupKeeps(s: Store, home: string, r: GroupRequest)
    requires References(s)
    ensures References(CreateGroup(s, home, r).store)
  {
    var id := RequestedGroup(r);
    AddGroupKeeps(s, Key(home, GroupObject(id)), id, Or(r.description, Or(r.name, id)));
  }

  lemma RemoveGroupKeeps(s: Store, g: Key)
    requires References(s)
    ensures References(RemoveGroup(s, g))
  {
    var t := RemoveGroup(s, g);
    forall k | k in t.bindings ensures BindingFine(t, k) {
      assert BindingFine(s, k);
      assert k !in SubjectBindings(s, g.namespace, GroupSubject, g.name);
    }
    GroupsKeep(s, t);
  }

  /** A group's members may change as long as they exist. */
  lemma MembersKeep(s: Store, g: Key, members: seq<string>)
    requires References(s) && g in s.groups
    requires forall m :: m in members ==> Key(g.namespace, m) in s.users
    ensures References(s.(groups := s.groups[g := s.groups[g].(members := members)]))
  {
    var t := s.(groups := s.groups[g := s.groups[g].(members := members)]);
    BindingsGrow(s, t);
    forall h | h in t.groups ensures GroupFine(t, h) { assert GroupFine(s, h); }
  }

  lemma AddMemberKeeps(s: Store, groupId: string, userId: string)
    requires References(s)
    ensures References(AddMember(s, groupId, userId).store)
  {
    var g, u := ResolveGroup(s, groupId), ResolveUser(s, userId);
    ResolvedUserExists(s, userId);
    if g.Some? && g.value in s.groups && u.Some? && u.value.namespace == g.value.namespace {
      assert GroupFine(s, g.value);
      assert u.value == Key(g.value.namespace, u.value.name);
      MembersKeep(s, g.value, s.groups[g.value].members + [u.value.name]);
    }
  }

  lemma RemoveMemberKeeps(s: Store, groupId: string, userId: string)
    requires References(s)
    ensures References(RemoveMember(s, groupId, userId).store)
  {
    var g, u := ResolveGroup(s, groupId), ResolveUser(s, userId);
    if g.Some? && g.value in s.groups && u.Some? {
      assert GroupFine(s, g.value);
      var members := s.groups[g.value].members;
      forall m | m in Without(members, u.value.name) ensures Key(g.value.namespace, m) in s.users {
        WithoutMember(members, u.value.name, m);
      }
      MembersKeep(s, g.value, Without(members, u.value.name));
    }
  }

  /** A new binding leaves no dangling reference exactly when the role is in the namespace of the subject. */
  lemma BindReferences(s: Store, kind: Kind, subject: Key, role: Key, repository: string)
    requires References(s) && SubjectExists(s, subject.namespace, Binding(kind, subject.name, role.name, repository))
    ensures References(Bind(s, kind, subject, role, repository)) <==> Key(subject.namespace, role.name) in s.roles
  {
    var t := Bind(s, kind, subject, role, repository);
    var k := BindingKey(kind, subject, role, repository);
    GroupsKeep(s, t);
    if Key(subject.namespace, role.name) in s.roles {
      forall l | l in t.bindings ensures BindingFine(t, l) { assert l != k ==> BindingFine(s, l); }
    } else {
      assert k in t.bindings && !BindingFine(t, k);
    }
  }

  /** Attaching finds roles in all namespaces, but a binding refers to its own: this is when the two agree. */
  lemma AttachReferences(s: Store, kind: Kind, id: string, policy: string, repository: string)
    requires References(s) && AttachPolicy(s, kind, id, policy, repository).status == 201
    ensures References(AttachPolicy(s, kind, id, policy, repository).store) <==>
            Key(ResolveSubject(s, kind, id).value.namespace,
                ResolveRole(s, policy, RepositoryScope(repository)).value.name) in s.roles
  {
    ResolvedUserExists(s, id);
    ResolvedGroupExists(s, id);
    var x := ResolveSubject(s, kind, id).value;
    assert x == Key(x.namespace, x.name);
    BindReferences(s, kind, x, ResolveRole(s, policy, RepositoryScope(repository)).value, RepositoryScope(repository));
  }

  lemma AttachKeeps(s: Store, home: string, kind: Kind, id: string, policy: string, repository: string)
    requires References(s) && InOne(s, home)
    ensures References(AttachPolicy(s, kind, id, policy, repository).store)
  {
    if AttachPolicy(s, kind, id, policy, repository).status == 201 {
      ResolvedUserExists(s, id);
      ResolvedGroupExists(s, id);
      ResolvedRoleExists(s, policy, RepositoryScope(repository));
      var role := ResolveRole(s, policy, RepositoryScope(repository)).value;
      assert role == Key(home, role.name);
      AttachReferences(s, kind, id, policy, repository);
    }
  }

  lemma FewerBindings(s: Store, t: Store)
    requires References(s) && t.users == s.users && t.groups == s.groups && t.credentials == s.credentials
    requires forall k :: k in t.bindings ==> k in s.bindings && t.bindings[k] == s.bindings[k]
    requires forall k :: k in t.bindings ==> Key(k.namespace, t.bindings[k].role) in t.roles
    ensures References(t)
  {
    forall k | k in t.bindings ensures BindingFine(t, k) { assert BindingFine(s, k); }
    GroupsKeep(s, t);
  }

  lemma UnbindKeeps(s: Store, k: Key)
    requires References(s)
    ensures References(s.(bindings := s.bindings - {k}))
  {
    assert forall l :: l in s.bindings ==> BindingFine(s, l);
    FewerBindings(s, s.(bindings := s.bindings - {k}));
  }

  lemma DetachKeeps(s: Store, kind: Kind, id: string, policy: string, repository: string)
    requires References(s)
    ensures References(DetachPolicy(s, kind, id, policy, repository).store)
  {
    var x := ResolveSubject(s, kind, id);
    var role := ResolveRole(s, policy, RepositoryScope(repository));
    if x.Some? && role.Some? { UnbindKeeps(s, BindingKey(kind, x.value, role.value, RepositoryScope(repository))); }
  }

  lemma WritePolicyKeeps(s: Store, home: string, p: Policy, fallback: string, status: int)
    requires References(s)
    ensures References(WritePolicy(s, home, p, fallback, status).store)
  {
    var t := WritePolicy(s, home, p, fallback, status).store;
    BindingsGrow(s, t);
    GroupsKeep(s, t);
  }

  lemma RemoveRoleKeeps(s: Store, role: Key)
    requires References(s)
    ensures References(RemoveRole(s, role))
  {
    var t := RemoveRole(s, role);
    forall k | k in t.bindings ensures Key(k.namespace, t.bindings[k].role) in t.roles {
      assert BindingFine(s, k);
      assert k !in RoleBindings(s, role);
    }
    FewerBindings(s, t);
  }

  lemma CredentialsKeep(s: Store, t: Store)
    requires References(s) && t.users == s.users && t.groups == s.groups && t.bindings == s.bindings && t.roles == s.roles
    requires CredentialsFine(t)
    ensures References(t)
  {
    BindingsGrow(s, t);
    forall g | g in t.groups ensures GroupFine(t, g) { assert GroupFine(s, g); }
  }

  lemma IssueKeeps(s: Store, k: Key, c: Credential, secretKey: string)
    requires References(s) && Key(k.namespace, c.user) in s.users
    ensures References(Issue(s, k, c, secretKey))
  {
    CredentialsKeep(s, AddCredential(s, k, c));
    CredentialsKeep(s, Issue(s, k, c, secretKey));
  }

  lemma CreateCredentialKeeps(s: Store, id: string, accessKeyId: string, secretKey: string)
    requires References(s)
    ensures References(CreateCredential(s, id, accessKeyId, secretKey).store)
  {
    var u := ResolveUser(s, id);
    if u.Some? && u.value in s.users {
      assert u.value == Key(u.value.namespace, u.value.name);
      IssueKeeps(s, CredentialKey(u.value, accessKeyId), NewCredential(u.value, accessKeyId), secretKey);
    }
  }

  lemma RevokeKeeps(s: Store, id: string, accessKeyId: string)
    requires References(s)
    ensures References(RevokeCredential(s, id, accessKeyId).store)
  {
    CredentialsKeep(s, RevokeCredential(s, id, accessKeyId).store);
  }

  lemma UserStaysHome(s: Store, home: string, r: UserRequest)
    requires InOne(s, home) && (r.namespace == "" || r.namespace == home)
    ensures InOne(CreateUser(s, home, r).store, home)
  {
    assert RequestedKey(home, r).namespace == home;
  }

  lemma GroupStaysHome(s: Store, home: string, r: GroupRequest)
    requires InOne(s, home)
    ensures InOne(CreateGroup(s, home, r).store, home)
  {
  }

  predicate NoNewKeys(s: Store, t: Store) {
    t.users.Keys <= s.users.Keys && t.groups.Keys <= s.groups.Keys && t.roles.Keys <= s.roles.Keys
  }

  lemma NothingNew(s: Store, home: string, q: Request)
    requires !q.PostUser? && !q.PostGroup? && !q.PutPolicy? && !q.PostCredential?
    ensures NoNewKeys(s, Handle(s, home, q))
  {
  }

  lemma NothingNewWithCredential(s: Store, id: string, accessKeyId: string, secretKey: string)
    ensures NoNewKeys(s, CreateCredential(s, id, accessKeyId, secretKey).store)
  {
    var u := ResolveUser(s, id);
    if u.Some? && u.value in s.users {
      IssueFrame(s, CredentialKey(u.value, accessKeyId), NewCredential(u.value, accessKeyId), secretKey);
    }
  }

  lemma StepKeepsHome(s: Store, home: string, q: Request)
    requires InOne(s, home) && StaysHome(home, q)
    ensures InOne(Handle(s, home, q), home)
  {
    match q
    case PostUser(r) => UserStaysHome(s, home, r);
    case PostGroup(g) => GroupStaysHome(s, home, g);
    case PutPolicy(p, fallback, status) =>
    case PostCredential(id, requested, secretKey, random) =>
      NothingNewWithCredential(s, id, AccessKeyId(requested, random), secretKey);
    case _ => NothingNew(s, home, q);
  }

  /** Every request keeps the references. */
  lemma StepKeepsReferences(s: Store, home: string, q: Request)
    requires References(s) && InOne(s, home)
    ensures References(Handle(s, home, q))
  {
    match q
    case PostUser(r) => CreateUserKeeps(s, home, r);
    case DropUser(id) => if ResolveUser(s, id).Some? { RemoveUserKeeps(s, ResolveUser(s, id).value); }
    case PostGroup(r) => CreateGroupKeeps(s, home, r);
    case DropGroup(id) => if ResolveGroup(s, id).Some? { RemoveGroupKeeps(s, ResolveGroup(s, id).value); }
    case PutMember(g, u) => AddMemberKeeps(s, g, u);
    case DropMember(g, u) => RemoveMemberKeeps(s, g, u);
    case Attach(kind, id, p, repository) => AttachKeeps(s, home, kind, id, p, repository);
    case Detach(kind, id, p, repository) => DetachKeeps(s, kind, id, p, repository);
    case PutPolicy(p, fallback, status) => WritePolicyKeeps(s, home, p, fallback, status);
    case DropPolicy(id) => if ResolveRole(s, id, "*").Some? { RemoveRoleKeeps(s, ResolveRole(s, id, "*").value); }
    case PostCredential(id, requested, secretKey, random) =>
      CreateCredentialKeeps(s, id, AccessKeyId(requested, random), secretKey);
    case DropCredential(id, accessKeyId) => RevokeKeeps(s, id, accessKeyId);
  }

  /** Over any run within one namespace there are no dangling references. */
  lemma {:induction false} RunKeepsReferences(s: Store, home: string, qs: seq<Request>)
    requires References(s) && InOne(s, home) && forall q :: q in qs ==> StaysHome(home, q)
    ensures References(Run(s, home, qs)) && InOne(Run(s, home, qs), home)
    decreases |qs|
  {
    if qs != [] {
      StepKeepsReferences(s, home, qs[0]);
      StepKeepsHome(s, home, qs[0]);
      RunKeepsReferences(Handle(s, home, qs[0]), home, qs[1..]);
    }
  }
}
