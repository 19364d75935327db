/** The auth server as code that searches, builds and changes the stored objects step by step. */
module AuthServer {
  import opened Text
  import opened KeyOrder
  import opened Naming
  import Secrets
  import Rendering
  import opened AuthStore
  import opened AuthHandlers

  /** Keeps the members of other names, moving them to the front of the array they are read from. */
  method FilterMembers(a: array<string>, name: string) returns (n: nat)
    modifies a
    ensures n <= a.Length && a[..n] == Without(old(a[..]), name)
  {
    ghost var was := a[..];
    n := 0;
    for i := 0 to a.Length
      invariant n <= i && a[i..] == was[i..]
      invariant a[..n] == Without(was[..i], name)
    {
      assert a[i] == was[i] && was[..i + 1] == was[..i] + [was[i]];
      WithoutAppend(was[..i], was[i], name);
      if a[i] != name {
        a[n] := a[i];
        n := n + 1;
      }
    }
    assert was[..a.Length] == was;
  }

  /** A group that was read is a copy; filtering it in place does not touch the stored one. */
  method FilterCopy(members: seq<string>, name: string) returns (r: seq<string>)
    ensures r == Without(members, name)
  {
    var a := new string[|members|](i requires 0 <= i < |members| => members[i]);
    assert a[..] == members;
    var n := FilterMembers(a, name);
    r := a[..n];
  }

  method Contains(members: seq<string>, name: string) returns (found: bool)
    ensures found <==> name in members
  {
    for i := 0 to |members|
      invariant name !in members[..i]
    {
      if members[i] == name { return true; }
    }
    return false;
  }

  /** The policies of a role, rendered template by template and statement by statement. */
  method BuildPolicies(r: Role, repository: string) returns (ps: seq<Policy>)
    ensures ps == PoliciesFromRole(r, repository)
    ensures ShowsAll(ps, r, repository)
  {
    ps := [];
    for i := 0 to |r.policies|
      invariant ps == PoliciesFromRole(r, repository)[..i]
    {
      var ts := r.policies[i].statements;
      var rendered: seq<Statement> := [];
      for j := 0 to |ts|
        invariant rendered == RenderStatements(ts, repository)[..j]
      {
        rendered := rendered + [RenderStatement(ts[j], repository)];
      }
      assert rendered == RenderStatements(ts, repository);
      ps := ps + [Policy(Rendering.Render(r.policies[i].name, repository), rendered)];
    }
  }

  /** Whether one of the role's policies goes by this name. */
  method ShowsPolicy(r: Role, id: string, repository: string) returns (found: bool)
    ensures found <==> Holds(r, id, repository)
  {
    var ps := BuildPolicies(r, repository);
    for i := 0 to |ps|
      invariant forall j :: 0 <= j < i ==> ps[j].name != id
    {
      if ps[i].name == id { return true; }
    }
    return false;
  }

  class Server {
    const home: string
    var users: map<Key, User>
    var groups: map<Key, Group>
    var roles: map<Key, Role>
    var bindings: map<Key, Binding>
    var credentials: map<Key, Credential>
    var secrets: map<Key, Secrets.Secret>

    constructor (home: string, s: Store)
      ensures View() == s && this.home == home
    {
      this.home := home;
      users, groups, roles, bindings, credentials, secrets := s.users, s.groups, s.roles, s.bindings, s.credentials, s.secrets;
    }

    function View(): Store
      reads this
    {
      Store(users, groups, roles, bindings, credentials, secrets)
    }

    /** Every request that may change something goes to its handler. */
    method Serve(q: Request)
      modifies this
      ensures View() == Handle(old(View()), home, q)
    {
      if q.PostUser? || q.DropUser? || q.PostCredential? || q.DropCredential? {
        ServeUsers(q);
      } else if q.PostGroup? || q.DropGroup? || q.PutMember? || q.DropMember? {
        ServeGroups(q);
      } else if q.Attach? || q.Detach? {
        ServeAttachments(q);
      } else {
        ServePolicies(q);
      }
    }

    method ServeUsers(q: Request)
      requires q.PostUser? || q.DropUser? || q.PostCredential? || q.DropCredential?
      modifies this
      ensures View() == Handle(old(View()), home, q)
    {
      var status, subject, served;
      if q.PostUser? { status, subject := CreateUser(q.user); }
      else if q.DropUser? { status := DeleteUser(q.id); }
      else if q.PostCredential? { status, served := CreateUserCredential(q.id, q.requested, q.secretKey, q.random); }
      else { status := RevokeUserCredential(q.id, q.accessKeyId); }
    }

    method ServeGroups(q: Request)
      requires q.PostGroup? || q.DropGroup? || q.PutMember? || q.DropMember?
      modifies this
      ensures View() == Handle(old(View()), home, q)
    {
      var status, subject;
      if q.PostGroup? { status, subject := CreateGroup(q.group); }
      else if q.DropGroup? { status := DeleteGroup(q.id); }
      else if q.PutMember? { status := AddGroupMembership(q.groupId, q.userId); }
      else { status := RemoveGroupMembership(q.groupId, q.userId); }
    }

    method ServeAttachments(q: Request)
      requires q.Attach? || q.Detach?
      modifies this
      ensures View() == Handle(old(View()), home, q)
    {
      var status;
      if q.Attach? {
        ghost var t := AuthHandlers.AttachPolicy(View(), q.kind, q.id, q.policyId, q.repository).store;
        assert Handle(View(), home, q) == t;
        status := AttachPolicy(q.kind, q.id, q.policyId, q.repository);
        assert View() == t;
      } else {
        ghost var t := AuthHandlers.DetachPolicy(View(), q.kind, q.id, q.policyId, q.repository).store;
        assert Handle(View(), home, q) == t;
        status := DetachPolicy(q.kind, q.id, q.policyId, q.repository);
        assert View() == t;
      }
    }

    method ServePolicies(q: Request)
      requires q.PutPolicy? || q.DropPolicy?
      modifies this
      ensures View() == Handle(old(View()), home, q)
    {
      var status;
      if q.PutPolicy? { status := WritePolicy(q.policy, q.fallback, q.status); } else { status := DeletePolicy(q.id); }
    }

    // ---- Lookups ----

    method ResolveUser(id: string) returns (r: Option<Key>)
      ensures r == AuthStore.ResolveUser(View(), id)
    {
      var indexed := Sorted(IndexedUsers(View(), id));
      for i := 0 to |indexed|
        invariant forall j :: 0 <= j < i ==> indexed[j] in users && Username(indexed[j], users[indexed[j]]) != id
      {
        assert indexed[i] in IndexedUsers(View(), id);
        if Username(indexed[i], users[indexed[i]]) == id { return Some(indexed[i]); }
      }
      var spelled := SpelledKey(id);
      if spelled.Some? && spelled.value in users { return spelled; }
      r := ScanUsers(id);
    }

    method ScanUsers(id: string) returns (r: Option<Key>)
      ensures r == LeastOf(NamedUsers(View(), id))
    {
      var all := Sorted(users.Keys);
      ghost var named := NamedUsers(View(), id);
      for i := 0 to |all|
        invariant forall k :: k in all[..i] ==> k !in named
      {
        if Username(all[i], users[all[i]]) == id || all[i].name == id {
          FirstIsLeast(users.Keys, named, i);
          return Some(all[i]);
        }
      }
      assert forall k :: k in named ==> k in all[..|all|];
      return None;
    }

    method ResolveGroup(id: string) returns (r: Option<Key>)
      ensures r == AuthStore.ResolveGroup(View(), id)
    {
      var indexed := Sorted(IndexedGroups(View(), id));
      for i := 0 to |indexed|
        invariant forall j :: 0 <= j < i ==> indexed[j] in groups && GroupName(indexed[j], groups[indexed[j]]) != id
      {
        assert indexed[i] in IndexedGroups(View(), id);
        if GroupName(indexed[i], groups[indexed[i]]) == id { return Some(indexed[i]); }
      }
      var spelled := SpelledKey(id);
      if spelled.Some? && spelled.value in groups { return spelled; }
      r := ScanGroups(id);
    }

    method ScanGroups(id: string) returns (r: Option<Key>)
      ensures r == LeastOf(NamedGroups(View(), id))
    {
      var all := Sorted(groups.Keys);
      ghost var named := NamedGroups(View(), id);
      for i := 0 to |all|
        invariant forall k :: k in all[..i] ==> k !in named
      {
        if GroupName(all[i], groups[all[i]]) == id || all[i].name == id || all[i].name == GroupObject(id) {
          FirstIsLeast(groups.Keys, named, i);
          return Some(all[i]);
        }
      }
      assert forall k :: k in named ==> k in all[..|all|];
      return None;
    }

    /** The first role of all namespaces that shows a policy of that name. */
    method ResolveRoleForPolicy(id: string, repository: string) returns (r: Option<Key>)
      ensures r == ResolveRole(View(), id, repository)
    {
      var all := Sorted(roles.Keys);
      for i := 0 to |all|
        invariant forall k :: k in all[..i] ==> k !in RolesHolding(View(), id, repository)
      {
        var shown := ShowsPolicy(roles[all[i]], id, repository);
        if shown {
          FirstIsLeast(roles.Keys, RolesHolding(View(), id, repository), i);
          return Some(all[i]);
        }
      }
      return None;
    }

    method ResolvePolicy(id: string) returns (r: Option<Policy>)
      ensures r == GetPolicy(View(), id)
    {
      var k := ResolveRoleForPolicy(id, "*");
      if k.None? { return None; }
      var ps := BuildPolicies(roles[k.value], "*");
      for i := 0 to |ps|
        invariant FirstNamed(ps, id) == FirstNamed(ps[i..], id)
      {
        if ps[i].name == id { return Some(ps[i]); }
      }
      return None;
    }

    method ResolveCredential(accessKeyId: string) returns (r: Option<Key>)
      ensures r == AuthStore.ResolveCredential(View(), accessKeyId)
    {
      var found := Sorted(KeyHolders(View(), accessKeyId));
      r := if |found| == 0 then None else Some(found[0]);
    }

    // ---- Groups and policies of a user ----

    method GroupsForUser(u: Key) returns (r: seq<Key>)
      ensures r == Sorted(GroupsOf(View(), u))
    {
      var all := Sorted(InNamespace(groups.Keys, u.namespace));
      r := PickGroups(all, u);
      PickSorted(InNamespace(groups.Keys, u.namespace), GroupsOf(View(), u));
    }

    /** The loop over the listed groups. */
    method PickGroups(all: seq<Key>, u: Key) returns (r: seq<Key>)
      requires forall k :: k in all ==> k in groups && k.namespace == u.namespace
      ensures r == Pick(all, GroupsOf(View(), u))
    {
      r := [];
      ghost var mine := GroupsOf(View(), u);
      for i := 0 to |all|
        invariant r + Pick(all[i..], mine) == Pick(all, mine)
      {
        PickStep(all, i, mine);
        var listed := Contains(groups[all[i]].members, u.name);
        if listed { r := r + [all[i]]; }
      }
    }

    method EffectivePoliciesForSubject(namespace: string, kind: Kind, name: string) returns (ps: seq<Policy>)
      ensures ps == EffectiveForSubject(View(), namespace, kind, name)
    {
      var all := Sorted(InNamespace(bindings.Keys, namespace));
      ps := CollectPolicies(all, namespace, kind, name);
      PickSorted(InNamespace(bindings.Keys, namespace), SubjectBindings(View(), namespace, kind, name));
    }

    /** The loop over the listed bindings. */
    method CollectPolicies(all: seq<Key>, namespace: string, kind: Kind, name: string) returns (ps: seq<Policy>)
      requires forall k :: k in all ==> k in bindings && k.namespace == namespace
      ensures ps == Granted(View(), Pick(all, SubjectBindings(View(), namespace, kind, name)))
    {
      ps := [];
      ghost var own := SubjectBindings(View(), namespace, kind, name);
      for i := 0 to |all|
        invariant ps == Collected(View(), all, own, i)
      {
        if bindings[all[i]].kind != kind || bindings[all[i]].subject != name { continue; }
        var more := PoliciesOfBinding(all[i]);
        ps := ps + more;
      }
      CollectedIsGranted(View(), all, own, |all|);
      assert all[..|all|] == all;
    }

    /** A binding whose role does not exist is passed over. */
    method PoliciesOfBinding(k: Key) returns (ps: seq<Policy>)
      requires k in bindings
      ensures ps == GrantedBy(View(), k)
    {
      var role := Key(k.namespace, bindings[k].role);
      if role !in roles { return []; }
      ps := BuildPolicies(roles[role], bindings[k].repository);
    }

    method EffectivePoliciesForUser(u: Key) returns (ps: seq<Policy>)
      ensures ps == EffectiveForUser(View(), u)
    {
      ps := EffectivePoliciesForSubject(u.namespace, UserSubject, u.name);
      var listed := GroupsForUser(u);
      for i := 0 to |listed|
        invariant ps + EffectiveForGroups(View(), u.namespace, listed[i..]) == EffectiveForUser(View(), u)
      {
        var more := EffectivePoliciesForSubject(u.namespace, GroupSubject, listed[i].name);
        assert listed[i..][1..] == listed[i + 1..];
        ps := ps + more;
      }
    }

    // ---- Cascades ----

    method DeleteCredentialsForUser(u: Key)
      modifies `credentials
      ensures credentials == old(credentials) - UserCredentials(old(View()), u)
    {
      var listed := Sorted(UserCredentials(View(), u));
      for i := 0 to |listed|
        invariant credentials == old(credentials) - Keys(listed[..i])
      {
        credentials := credentials - {listed[i]};
        assert Keys(listed[..i + 1]) == Keys(listed[..i]) + {listed[i]};
      }
      assert Keys(listed) == UserCredentials(old(View()), u) && listed[..|listed|] == listed;
    }

    method DeleteRoleBindingsForSubject(namespace: string, kind: Kind, name: string)
      modifies `bindings
      ensures bindings == old(bindings) - SubjectBindings(old(View()), namespace, kind, name)
    {
      var snapshot := bindings;
      var all := Sorted(InNamespace(snapshot.Keys, namespace));
      ghost var own := SubjectBindings(View(), namespace, kind, name);
      for i := 0 to |all|
        invariant bindings == snapshot - Among(all[..i], own)
      {
        SortedAt(InNamespace(snapshot.Keys, namespace), i);
        DropStep(snapshot, all, i, own);
        if snapshot[all[i]].kind == kind && snapshot[all[i]].subject == name {
          bindings := bindings - {all[i]};
        }
      }
      assert all[..|all|] == all && Among(all, own) == own;
    }

    method DeleteRoleBindingsForRole(role: Key)
      modifies `bindings
      ensures bindings == old(bindings) - RoleBindings(old(View()), role)
    {
      var snapshot := bindings;
      var all := Sorted(InNamespace(snapshot.Keys, role.namespace));
      ghost var own := RoleBindings(View(), role);
      for i := 0 to |all|
        invariant bindings == snapshot - Among(all[..i], own)
      {
        SortedAt(InNamespace(snapshot.Keys, role.namespace), i);
        DropStep(snapshot, all, i, own);
        if snapshot[all[i]].role == role.name {
          bindings := bindings - {all[i]};
        }
      }
      assert all[..|all|] == all && Among(all, own) == own;
    }

    /** The groups of the user are read once; each is filtered in place and written back. */
    method RemoveUserFromGroups(u: Key)
      modifies `groups
      ensures groups == LeaveGroups(old(View()), u, GroupsOf(old(View()), u))
    {
      ghost var s := View();
      var snapshot := groups;
      var listed := GroupsForUser(u);
      for i := 0 to |listed|
        invariant groups == LeaveGroups(s, u, Keys(listed[..i]))
      {
        SortedAt(GroupsOf(s, u), i);
        var g := listed[i];
        var members := FilterCopy(snapshot[g].members, u.name);
        LeaveStep(s, u, Keys(listed[..i]), g);
        groups := groups[g := snapshot[g].(members := members)];
        assert Keys(listed[..i + 1]) == Keys(listed[..i]) + {g};
      }
      assert listed[..|listed|] == listed && Keys(listed) == GroupsOf(s, u);
    }

    // ---- Handlers ----

    method CreateUser(r: UserRequest) returns (status: int, subject: Option<Key>)
      modifies `users
      ensures Answer(View(), status, subject) == AuthHandlers.CreateUser(old(View()), home, r)
    {
      var username := TrimSpace(r.username);
      if username == "" { return 400, None; }
      var externalId := TrimSpace(Or(r.externalId, username));
      var found := ResolveUser(externalId);
      if found.Some? { return 201, found; }
      var k := Key(Or(r.namespace, home), ObjectName(username));
      if k in users {
        if Username(k, users[k]) != username && Username(k, users[k]) != externalId { return 409, None; }
        return 201, Some(k);
      }
      users := users[k := User(externalId, Or(r.friendlyName, username))];
      return 201, Some(k);
    }

    method DeleteUser(id: string) returns (status: int)
      modifies this
      ensures Done(View(), status) == AuthHandlers.DeleteUser(old(View()), id)
      ensures status == 204
    {
      var u := ResolveUser(id);
      if u.None? { return 204; }
      users := users - {u.value};
      DeleteCredentialsForUser(u.value);
      RemoveUserFromGroups(u.value);
      DeleteRoleBindingsForSubject(u.value.namespace, UserSubject, u.value.name);
      return 204;
    }

    method CreateGroup(r: GroupRequest) returns (status: int, subject: Option<Key>)
      modifies `groups
      ensures Answer(View(), status, subject) == AuthHandlers.CreateGroup(old(View()), home, r)
      ensures status == 400 <==> TrimSpace(if r.id != "" then r.id else r.name) == ""
      ensures status != 400 ==> status == 201 && subject.Some? && subject.value in groups
    {
      var id := TrimSpace(Or(r.id, r.name));
      if id == "" { return 400, None; }
      var found := ResolveGroup(id);
      if found.Some? { return 201, found; }
      var k := Key(home, GroupObject(id));
      if k !in groups { groups := groups[k := Group(id, Or(r.description, Or(r.name, id)), [])]; }
      return 201, Some(k);
    }

    method DeleteGroup(id: string) returns (status: int)
      modifies `groups, `bindings
      ensures Done(View(), status) == AuthHandlers.DeleteGroup(old(View()), id)
      ensures status == 204
    {
      var g := ResolveGroup(id);
      if g.None? { return 204; }
      groups := groups - {g.value};
      DeleteRoleBindingsForSubject(g.value.namespace, GroupSubject, g.value.name);
      return 204;
    }

    method AddGroupMembership(groupId: string, userId: string) returns (status: int)
      modifies `groups
      ensures Done(View(), status) == AddMember(old(View()), groupId, userId)
      ensures status == 201 || (status == 404 && groups == old(groups))
    {
      var g := ResolveGroup(groupId);
      if g.None? { return 404; }
      var u := ResolveUser(userId);
      if u.None? || u.value.namespace != g.value.namespace { return 404; }
      var group := groups[g.value];
      var listed := Contains(group.members, u.value.name);
      if listed { return 201; }
      groups := groups[g.value := group.(members := group.members + [u.value.name])];
      return 201;
    }

    method RemoveGroupMembership(groupId: string, userId: string) returns (status: int)
      modifies `groups
      ensures Done(View(), status) == RemoveMember(old(View()), groupId, userId)
      ensures status == 204
    {
      var g := ResolveGroup(groupId);
      if g.None? { return 204; }
      var u := ResolveUser(userId);
      if u.None? || u.value.namespace != g.value.namespace { return 204; }
      var group := groups[g.value];
      var members := FilterCopy(group.members, u.value.name);
      groups := groups[g.value := group.(members := members)];
      return 204;
    }

    method ResolveSubject(kind: Kind, id: string) returns (r: Option<Key>)
      ensures r == AuthHandlers.ResolveSubject(View(), kind, id)
    {
      if kind.UserSubject? { r := ResolveUser(id); } else { r := ResolveGroup(id); }
    }

    method AttachPolicy(kind: Kind, id: string, policy: string, repository: string) returns (status: int)
      modifies `bindings
      ensures Done(View(), status) == AuthHandlers.AttachPolicy(old(View()), kind, id, policy, repository)
      ensures status == 201 || (status == 404 && bindings == old(bindings))
    {
      var x := ResolveSubject(kind, id);
      if x.None? { return 404; }
      var scope := RepositoryScope(repository);
      var role := ResolveRoleForPolicy(policy, scope);
      if role.None? { return 404; }
      EnsureRoleBinding(x.value.namespace, kind, x.value.name, role.value.name, scope);
      return 201;
    }

    /** Creates the binding, or overwrites what is there under its name. */
    method EnsureRoleBinding(namespace: string, kind: Kind, subject: string, role: string, repository: string)
      modifies `bindings
      ensures bindings == old(bindings)[Key(namespace, RoleBindingName(kind, subject, role, repository)) :=
                                        Binding(kind, subject, role, repository)]
    {
      var k := Key(namespace, RoleBindingName(kind, subject, role, repository));
      var binding := Binding(kind, subject, role, repository);
      if k !in bindings {
        bindings := bindings[k := binding];
      } else {
        var existing := bindings[k];
        existing := binding;
        bindings := bindings[k := existing];
      }
    }

    method DetachPolicy(kind: Kind, id: string, policy: string, repository: string) returns (status: int)
      modifies `bindings
      ensures Done(View(), status) == AuthHandlers.DetachPolicy(old(View()), kind, id, policy, repository)
      ensures status == 204
    {
      var x := ResolveSubject(kind, id);
      if x.None? { return 204; }
      var scope := RepositoryScope(repository);
      var role := ResolveRoleForPolicy(policy, scope);
      if role.None? { return 204; }
      bindings := bindings - {Key(x.value.namespace, RoleBindingName(kind, x.value.name, role.value.name, scope))};
      return 204;
    }

    /**
     Creates the role of the policy, or overwrites what is there under its name. Afterwards the role holds this policy and
     no other; every other role is as it was.
    */
    method WritePolicy(p: Policy, fallback: string, success: int) returns (status: int)
      modifies `roles
      ensures Done(View(), status) == AuthHandlers.WritePolicy(old(View()), home, p, fallback, success)
      ensures var name := Or(p.name, fallback);
              if name == "" then status == 400 && roles == old(roles)
              else status == success && PolicyKey(home, name) in roles &&
                   roles[PolicyKey(home, name)].policies == [p.(name := name)] &&
                   roles - {PolicyKey(home, name)} == old(roles) - {PolicyKey(home, name)}
    {
      var named := if p.name == "" then p.(name := fallback) else p;
      if named.name == "" { return 400; }
      var role := PolicyRole(named);
      var k := PolicyKey(home, named.name);
      if k !in roles {
        roles := roles[k := role];
      } else {
        var existing := roles[k];
        existing := existing.(description := role.description, policies := role.policies);
        roles := roles[k := existing];
      }
      return success;
    }

    method DeletePolicy(id: string) returns (status: int)
      modifies `roles, `bindings
      ensures Done(View(), status) == AuthHandlers.DeletePolicy(old(View()), id)
      ensures status == 204
    {
      var k := ResolveRoleForPolicy(id, "*");
      if k.None? { return 204; }
      roles := roles - {k.value};
      DeleteRoleBindingsForRole(k.value);
      return 204;
    }

    // ---- Credentials ----

    /** Puts the secret key into the Secret of the credential, which is created if it is not there. */
    method EnsureCredentialSecret(k: Key, secretKey: string)
      requires k in credentials
      modifies `secrets
      ensures View() == WithSecret(old(View()), k, secretKey)
    {
      var c := credentials[k];
      var spec := SecretSpec(k, c);
      var at := Key(k.namespace, c.secretName);
      if at !in secrets {
        secrets := secrets[at := Secrets.Fresh(spec, secretKey, None)];
        return;
      }
      var secret := new Secrets.SecretObject(secrets[at]);
      var changed := secret.ServerWrite(spec, secretKey);
      if changed {
        secrets := secrets[at := secret.View()];
      } else {
        assert secrets == secrets[at := secret.View()];
      }
    }

    method CreateUserCredential(id: string, requested: string, secretKey: string, random: string)
      returns (status: int, served: Option<Served>)
      modifies `credentials, `secrets
      ensures CredentialAnswer(View(), status, served) ==
              CreateCredential(old(View()), id, AccessKeyId(requested, random), secretKey)
      ensures served.Some? ==> served.value.accessKeyId == (if requested != "" then requested else "lakefs_ak_" + random)
      ensures if served.Some? then status == 201 else status == 202 || status == 404
      ensures status == 404 <==> AuthStore.ResolveUser(old(View()), id).None?
      ensures secretKey != "" ==> status != 202 && (served.Some? ==> served.value.secretKey == secretKey)
    {
      var u := ResolveUser(id);
      if u.None? { return 404, None; }
      var accessKeyId := AccessKeyId(requested, random);
      var k := CredentialKey(u.value, accessKeyId);
      var username := Username(u.value, users[u.value]);
      if k !in credentials { credentials := credentials[k := NewCredential(u.value, accessKeyId)]; }
      if secretKey != "" {
        EnsureCredentialSecret(k, secretKey);
        return 201, Some(Served(accessKeyId, secretKey, username));
      }
      var generated := StoredSecret(View(), k, credentials[k]);
      if generated == "" { return 202, None; }
      return 201, Some(Served(accessKeyId, generated, username));
    }

    method GetCredentialByAccessKey(accessKeyId: string, expected: string, now: int) returns (served: Option<Served>)
      ensures served == GetCredential(View(), now, accessKeyId, expected)
    {
      var k := ResolveCredential(accessKeyId);
      if k.None? { return None; }
      var c := credentials[k.value];
      if c.revoked || Expired(c, now) { return None; }
      var u := Key(k.value.namespace, c.user);
      if u !in users { return None; }
      if expected != "" && Username(u, users[u]) != expected { return None; }
      var secretKey := StoredSecret(View(), k.value, c);
      if secretKey == "" { return None; }
      return Some(Served(c.accessKeyId, secretKey, Username(u, users[u])));
    }

    method ListUserCredentials(id: string, now: int) returns (r: Option<seq<string>>)
      ensures r == ListCredentials(View(), now, id)
    {
      var u := ResolveUser(id);
      if u.None? { return None; }
      var listed := Sorted(UserCredentials(View(), u.value));
      var shown: seq<string> := [];
      for i := 0 to |listed|
        invariant shown == AccessKeys(View(), now, listed[..i])
      {
        SortedAt(UserCredentials(View(), u.value), i);
        assert listed[..i + 1] == listed[..i] + [listed[i]];
        AccessKeysAppend(View(), now, listed[..i], listed[i]);
        var c := credentials[listed[i]];
        if c.revoked || Expired(c, now) { continue; }
        shown := shown + [c.accessKeyId];
      }
      assert listed[..|listed|] == listed;
      return Some(shown);
    }

    method RevokeUserCredential(id: string, accessKeyId: string) returns (status: int)
      modifies `credentials
      ensures Done(View(), status) == RevokeCredential(old(View()), id, accessKeyId)
      ensures status == 204 || (status == 404 && credentials == old(credentials))
    {
      var k := ResolveCredential(accessKeyId);
      if k.None? { return 204; }
      var c := credentials[k.value];
      var u := ResolveUser(id);
      if u.None? || u.value.namespace != k.value.namespace || u.value.name != c.user { return 404; }
      credentials := credentials[k.value := c.(revoked := true)];
      return 204;
    }
  }

  function Keys(ks: seq<Key>): set<Key> { set k | k in ks }

  function Among(ks: seq<Key>, s: set<Key>): set<Key> { set k | k in ks && k in s }

  lemma AmongStep(ks: seq<Key>, i: nat, s: set<Key>)
    requires i < |ks|
    ensures Among(ks[..i + 1], s) == Among(ks[..i], s) + if ks[i] in s then {ks[i]} else {}
  {
    assert ks[..i + 1] == ks[..i] + [ks[i]];
  }

  lemma DropStep(m: map<Key, Binding>, ks: seq<Key>, i: nat, s: set<Key>)
    requires i < |ks|
    ensures m - Among(ks[..i + 1], s) == if ks[i] in s then m - Among(ks[..i], s) - {ks[i]} else m - Among(ks[..i], s)
  {
    AmongStep(ks, i, s);
  }

  lemma LeaveStep(s: Store, u: Key, left: set<Key>, g: Key)
    requires g in s.groups
    ensures LeaveGroups(s, u, left)[g := s.groups[g].(members := Without(s.groups[g].members, u.name))] ==
            LeaveGroups(s, u, left + {g})
  {
  }
}
