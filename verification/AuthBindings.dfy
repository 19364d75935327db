/** Attaching and detaching policies: which bindings change, what is granted, and when detaching undoes attaching. */
module AuthBindings {
  import opened Text
  import opened KeyOrder
  import opened Naming
  import opened AuthStore
  import opened AuthHandlers
  import opened EffectivePolicies

  function KeyOf(namespace: string, b: Binding): Key {
    Key(namespace, RoleBindingName(b.kind, b.subject, b.role, b.repository))
  }

  function NewBinding(kind: Kind, subject: Key, role: Key, repository: string): Binding {
    Binding(kind, subject.name, role.name, repository)
  }

  /** The subject is bound to the role for the repository. */
  predicate Bound(s: Store, namespace: string, b: Binding) {
    exists k :: k in s.bindings && k.namespace == namespace && s.bindings[k] == b
  }

  function Put(s: Store, k: Key, b: Binding): Store { s.(bindings := s.bindings[k := b]) }

  lemma BindPuts(s: Store, kind: Kind, subject: Key, role: Key, repository: string)
    ensures Bind(s, kind, subject, role, repository) ==
            Put(s, KeyOf(subject.namespace, NewBinding(kind, subject, role, repository)), NewBinding(kind, subject, role, repository))
  {
  }

  /**
   Attaching binds the subject and the role that were found, for the repository asked for or for all: that binding is
   there afterwards and nothing else is different. Without either nothing changes.
  */
  lemma AttachBinds(s: Store, kind: Kind, id: string, policy: string, repository: string)
    ensures var scope := if repository != "" then repository else "*";
            var x := if kind.UserSubject? then ResolveUser(s, id) else ResolveGroup(s, id);
            var a, role := AttachPolicy(s, kind, id, policy, repository), ResolveRole(s, policy, scope);
            if x.None? || role.None? then a.status == 404 && a.store == s
            else
              var k := Key(x.value.namespace, RoleBindingName(kind, x.value.name, role.value.name, scope));
              a.status == 201 && k in a.store.bindings && a.store.bindings[k] == Binding(kind, x.value.name, role.value.name, scope) &&
              a.store.bindings - {k} == s.bindings - {k} && a.store == s.(bindings := a.store.bindings)
  {
  }

  /** Detaching takes away that binding and nothing else. */
  lemma DetachUnbinds(s: Store, kind: Kind, id: string, policy: string, repository: string)
    ensures var scope := if repository != "" then repository else "*";
            var x := if kind.UserSubject? then ResolveUser(s, id) else ResolveGroup(s, id);
            var a, role := DetachPolicy(s, kind, id, policy, repository), ResolveRole(s, policy, scope);
            a.status == 204 &&
            if x.None? || role.None? then a.store == s
            else
              var k := Key(x.value.namespace, RoleBindingName(kind, x.value.name, role.value.name, scope));
              k !in a.store.bindings && a.store.bindings == s.bindings - {k} && a.store == s.(bindings := a.store.bindings)
  {
  }

  // ---- When attaching leaves the bindings of others alone ----

  /** The place under this key is free, or holds this very binding. */
  predicate FreeFor(s: Store, k: Key, b: Binding) { k in s.bindings ==> s.bindings[k] == b }

  predicate KeepsBindings(s: Store, t: Store) {
    forall k :: k in s.bindings ==> k in t.bindings && t.bindings[k] == s.bindings[k]
  }

  lemma PutKeeps(s: Store, k: Key, b: Binding)
    ensures KeepsBindings(s, Put(s, k, b)) <==> FreeFor(s, k, b)
  {
    assert Put(s, k, b).bindings[k] == b;
  }

  /** Attaching changes no stored binding exactly when the place for the new one is free or holds that very binding. */
  lemma AttachKeepsBindings(s: Store, kind: Kind, id: string, policy: string, repository: string)
    requires AttachPolicy(s, kind, id, policy, repository).status == 201
    ensures var x, role := ResolveSubject(s, kind, id).value, ResolveRole(s, policy, RepositoryScope(repository)).value;
            var b := NewBinding(kind, x, role, RepositoryScope(repository));
            KeepsBindings(s, AttachPolicy(s, kind, id, policy, repository).store) <==> FreeFor(s, KeyOf(x.namespace, b), b)
  {
    var x, role := ResolveSubject(s, kind, id).value, ResolveRole(s, policy, RepositoryScope(repository)).value;
    var b := NewBinding(kind, x, role, RepositoryScope(repository));
    BindPuts(s, kind, x, role, RepositoryScope(repository));
    PutKeeps(s, KeyOf(x.namespace, b), b);
  }

  lemma {:induction false} GrantedWithout(s: Store, ks: seq<Key>, own: set<Key>, k: Key)
    requires Distinct(ks) && k in ks && forall l :: l in ks ==> l in own
    ensures |Granted(s, Pick(ks, own - {k}))| == |Granted(s, ks)| - |GrantedBy(s, k)|
    ensures GrantedBy(s, k) == [] ==> Granted(s, Pick(ks, own - {k})) == Granted(s, ks)
  {
    var rest := ks[1..];
    assert ks == [ks[0]] + rest;
    DistinctTail(ks);
    if ks[0] == k {
      PickAll(rest, own - {k}, own);
      PickEverything(rest, own);
      assert Pick(ks, own - {k}) == rest;
    } else {
      GrantedWithout(s, rest, own, k);
      assert Pick(ks, own - {k}) == [ks[0]] + Pick(rest, own - {k});
      GrantedCons(s, ks[0], Pick(rest, own - {k}));
    }
  }

  lemma GrantedCons(s: Store, k: Key, ks: seq<Key>)
    ensures Granted(s, [k] + ks) == GrantedBy(s, k) + Granted(s, ks)
  {
    assert ([k] + ks)[1..] == ks;
  }

  lemma LosesOne(s: Store, own: set<Key>, k: Key)
    requires k in own
    ensures Granted(s, Sorted(own - {k})) == Granted(s, Sorted(own)) <==> GrantedBy(s, k) == []
  {
    SortedDistinct(own);
    GrantedWithout(s, Sorted(own), own, k);
    PickSorted(own, own - {k});
  }

  /** The place under this key holds a binding of that subject that grants something. */
  predicate Loses(s: Store, k: Key, namespace: string, kind: Kind, name: string) {
    k in SubjectBindings(s, namespace, kind, name) && GrantedBy(s, k) != []
  }

  lemma PutOthers(s: Store, k: Key, b: Binding, namespace: string, kind: Kind, name: string)
    requires !(kind == b.kind && namespace == k.namespace && name == b.subject)
    ensures EffectiveForSubject(Put(s, k, b), namespace, kind, name) == EffectiveForSubject(s, namespace, kind, name) <==>
            !Loses(s, k, namespace, kind, name)
  {
    var t, own := Put(s, k, b), SubjectBindings(s, namespace, kind, name);
    assert SubjectBindings(t, namespace, kind, name) == own - {k};
    var left := Sorted(own - {k});
    forall l | l in left ensures GrantedBy(t, l) == GrantedBy(s, l) { assert t.bindings[l] == s.bindings[l]; }
    GrantedSame(t, s, left);
    if k in own { LosesOne(s, own, k); } else { assert own - {k} == own; }
  }

  /** Attaching to one subject leaves another one's policies as they are exactly when it takes no granting binding of its. */
  lemma AttachSparesOthers(s: Store, kind: Kind, id: string, policy: string, repository: string, other: Key, l: Kind)
    requires AttachPolicy(s, kind, id, policy, repository).status == 201
    requires !(l == kind && other == ResolveSubject(s, kind, id).value)
    ensures var x, role := ResolveSubject(s, kind, id).value, ResolveRole(s, policy, RepositoryScope(repository)).value;
            EffectiveForSubject(AttachPolicy(s, kind, id, policy, repository).store, other.namespace, l, other.name) ==
            EffectiveForSubject(s, other.namespace, l, other.name) <==>
            !Loses(s, BindingKey(kind, x, role, RepositoryScope(repository)), other.namespace, l, other.name)
  {
    var x, role := ResolveSubject(s, kind, id).value, ResolveRole(s, policy, RepositoryScope(repository)).value;
    var b := NewBinding(kind, x, role, RepositoryScope(repository));
    assert x == Key(x.namespace, x.name) && other == Key(other.namespace, other.name);
    BindPuts(s, kind, x, role, RepositoryScope(repository));
    PutOthers(s, KeyOf(x.namespace, b), b, other.namespace, l, other.name);
  }

  /** Names with hyphens clash: attaching to one subject undoes attaching to the other, as if it had never happened. */
  lemma AttachTakesOver(s: Store, kind: Kind, namespace: string, a: string, b: string, c: string, repository: string)
    ensures var first := Bind(s, kind, Key(namespace, a), Key(namespace, b + "-" + c), repository);
            Bind(first, kind, Key(namespace, a + "-" + b), Key(namespace, c), repository) ==
            Bind(s, kind, Key(namespace, a + "-" + b), Key(namespace, c), repository)
  {
    HyphensCollide(kind, a, b, c, repository);
  }

  // ---- Names that can be read ----

  /** What the binding is for can be read off its name. */
  predicate ReadableBinding(b: Binding) { Readable(b.kind, b.subject, b.role, b.repository) }

  /** The binding under this key, if there is one, has that name, and can be read off it. */
  predicate ReadableAt(s: Store, k: Key) { k in s.bindings ==> OwnName(k, s.bindings[k]) && ReadableBinding(s.bindings[k]) }

  predicate OwnName(k: Key, b: Binding) { k == KeyOf(k.namespace, b) }

  /** Every stored binding is stored under its name. */
  predicate OwnNames(s: Store) { forall k :: k in s.bindings ==> OwnName(k, s.bindings[k]) }

  /** A policy of the API, named by a word, can be attached to any subject under a readable name, if it fits. */
  lemma ApiBindingReadable(kind: Kind, subject: string, w: string, repository: string)
    requires Part(subject) && Word(w) && Naming.Scope(repository) && Fits(kind, subject, POLICY_PREFIX + w, repository)
    requires |w| + |POLICY_PREFIX| <= MAX_NAME
    ensures Readable(kind, subject, PolicyKey("", w).name, repository)
  {
    ApiNames(w);
    assert "lakefs-policy-" + w == POLICY_PREFIX + w;
  }

  /** A readable name is free for its binding. */
  lemma ReadableIsFree(s: Store, namespace: string, b: Binding)
    requires ReadableBinding(b) && ReadableAt(s, KeyOf(namespace, b))
    ensures FreeFor(s, KeyOf(namespace, b), b)
  {
    var k := KeyOf(namespace, b);
    if k in s.bindings {
      var c := s.bindings[k];
      assert OwnName(k, c);
      BindingNamesInjective(b.kind, b.subject, b.role, b.repository, c.kind, c.subject, c.role, c.repository);
    }
  }

  /** It is taken exactly when that very binding exists. */
  lemma NameTaken(s: Store, namespace: string, b: Binding)
    requires OwnNames(s) && ReadableBinding(b) && ReadableAt(s, KeyOf(namespace, b))
    ensures KeyOf(namespace, b) in s.bindings <==> Bound(s, namespace, b)
  {
    ReadableIsFree(s, namespace, b);
    if Bound(s, namespace, b) {
      var k :| k in s.bindings && k.namespace == namespace && s.bindings[k] == b;
      assert OwnName(k, b);
    }
  }

  lemma PutBinds(s: Store, k: Key, b: Binding)
    ensures Bound(Put(s, k, b), k.namespace, b) && (k in s.bindings && FreeFor(s, k, b) ==> Put(s, k, b) == s)
  {
    var t := Put(s, k, b);
    assert k in t.bindings && t.bindings[k] == b;
    if k in s.bindings && FreeFor(s, k, b) { assert t.bindings == s.bindings; }
  }

  /** Under a readable name attaching adds that binding, or changes nothing if it is there; every other binding stays. */
  lemma BindAddsOne(s: Store, kind: Kind, subject: Key, role: Key, repository: string)
    requires OwnNames(s) && ReadableBinding(NewBinding(kind, subject, role, repository))
    requires ReadableAt(s, BindingKey(kind, subject, role, repository))
    ensures var t := Bind(s, kind, subject, role, repository);
            KeepsBindings(s, t) && Bound(t, subject.namespace, NewBinding(kind, subject, role, repository)) &&
            (Bound(s, subject.namespace, NewBinding(kind, subject, role, repository)) ==> t == s)
  {
    var b := NewBinding(kind, subject, role, repository);
    var k := KeyOf(subject.namespace, b);
    BindPuts(s, kind, subject, role, repository);
    ReadableIsFree(s, subject.namespace, b);
    NameTaken(s, subject.namespace, b);
    PutKeeps(s, k, b);
    PutBinds(s, k, b);
  }

  /** And it changes the policies of no other subject. */
  lemma BindDisturbsNoOther(s: Store, kind: Kind, subject: Key, role: Key, repository: string, namespace: string, l: Kind, name: string)
    requires ReadableBinding(NewBinding(kind, subject, role, repository))
    requires ReadableAt(s, BindingKey(kind, subject, role, repository))
    requires !(l == kind && Key(namespace, name) == subject)
    ensures EffectiveForSubject(Bind(s, kind, subject, role, repository), namespace, l, name) ==
            EffectiveForSubject(s, namespace, l, name)
  {
    var b := NewBinding(kind, subject, role, repository);
    assert subject == Key(subject.namespace, subject.name);
    BindPuts(s, kind, subject, role, repository);
    ReadableIsFree(s, subject.namespace, b);
    PutOthers(s, KeyOf(subject.namespace, b), b, namespace, l, name);
  }

  /** The role attaching looks up does not depend on bindings. */
  lemma SameLookups(s: Store, t: Store, kind: Kind, id: string, policy: string, repository: string)
    requires t.users == s.users && t.groups == s.groups && t.roles == s.roles
    ensures ResolveSubject(t, kind, id) == ResolveSubject(s, kind, id)
    ensures ResolveRole(t, policy, repository) == ResolveRole(s, policy, repository)
  {
    assert IndexedUsers(t, id) == IndexedUsers(s, id) && NamedUsers(t, id) == NamedUsers(s, id);
    assert IndexedGroups(t, id) == IndexedGroups(s, id) && NamedGroups(t, id) == NamedGroups(s, id);
    assert RolesHolding(t, policy, repository) == RolesHolding(s, policy, repository);
  }

  lemma BindUnbind(s: Store, kind: Kind, subject: Key, role: Key, repository: string)
    ensures var t := Unbind(Bind(s, kind, subject, role, repository), kind, subject, role, repository);
            t == s <==> BindingKey(kind, subject, role, repository) !in s.bindings
  {
    var t := Unbind(Bind(s, kind, subject, role, repository), kind, subject, role, repository);
    if BindingKey(kind, subject, role, repository) !in s.bindings { assert t.bindings == s.bindings; }
  }

  /** Detaching after attaching restores the store exactly when no binding of that name was there. */
  lemma DetachUndoesAttach(s: Store, kind: Kind, id: string, policy: string, repository: string)
    requires AttachPolicy(s, kind, id, policy, repository).status == 201
    ensures var t := DetachPolicy(AttachPolicy(s, kind, id, policy, repository).store, kind, id, policy, repository).store;
            var subject, role := ResolveSubject(s, kind, id).value, ResolveRole(s, policy, RepositoryScope(repository)).value;
            t == s <==> BindingKey(kind, subject, role, RepositoryScope(repository)) !in s.bindings
  {
    var t := AttachPolicy(s, kind, id, policy, repository).store;
    SameLookups(s, t, kind, id, policy, RepositoryScope(repository));
    BindUnbind(s, kind, ResolveSubject(s, kind, id).value, ResolveRole(s, policy, RepositoryScope(repository)).value,
               RepositoryScope(repository));
  }

  /** Under a readable name that is: exactly when the subject was not bound to the role for that repository before. */
  lemma DetachUndoesNewAttach(s: Store, kind: Kind, id: string, policy: string, repository: string)
    requires OwnNames(s) && AttachPolicy(s, kind, id, policy, repository).status == 201
    requires var x, role := ResolveSubject(s, kind, id).value, ResolveRole(s, policy, RepositoryScope(repository)).value;
             ReadableBinding(NewBinding(kind, x, role, RepositoryScope(repository))) &&
             ReadableAt(s, BindingKey(kind, x, role, RepositoryScope(repository)))
    ensures var t := DetachPolicy(AttachPolicy(s, kind, id, policy, repository).store, kind, id, policy, repository).store;
            var x, role := ResolveSubject(s, kind, id).value, ResolveRole(s, policy, RepositoryScope(repository)).value;
            t == s <==> !Bound(s, x.namespace, NewBinding(kind, x, role, RepositoryScope(repository)))
  {
    DetachUndoesAttach(s, kind, id, policy, repository);
    var x, role := ResolveSubject(s, kind, id).value, ResolveRole(s, policy, RepositoryScope(repository)).value;
    NameTaken(s, x.namespace, NewBinding(kind, x, role, RepositoryScope(repository)));
  }

  // ---- Names over runs ----

  /** The binding a request writes. */
  function WrittenBy(s: Store, q: Request): Option<Key> {
    if q.Attach? then
      var x, role := ResolveSubject(s, q.kind, q.id), ResolveRole(s, q.policyId, RepositoryScope(q.repository));
      if x.None? || role.None? then None
      else Some(BindingKey(q.kind, x.value, role.value, RepositoryScope(q.repository)))
    else None
  }

  /** After a request every binding is one that was there, or the one written, under its name. */
  predicate BindingsFollow(s: Store, t: Store, written: Option<Key>) {
    forall k :: k in t.bindings ==>
      if written == Some(k) then OwnName(k, t.bindings[k]) else k in s.bindings && t.bindings[k] == s.bindings[k]
  }

  lemma FewerFollow(s: Store, t: Store)
    requires forall k :: k in t.bindings ==> k in s.bindings && t.bindings[k] == s.bindings[k]
    ensures BindingsFollow(s, t, None)
  {
  }

  lemma BindFollows(s: Store, kind: Kind, subject: Key, role: Key, repository: string)
    ensures BindingsFollow(s, Bind(s, kind, subject, role, repository), Some(BindingKey(kind, subject, role, repository)))
  {
    BindPuts(s, kind, subject, role, repository);
  }

  lemma DropsFollow(s: Store, home: string, q: Request)
    requires q.DropUser? || q.DropGroup? || q.DropMember? || q.PutMember? || q.Detach? || q.DropPolicy? || q.DropCredential?
    ensures BindingsFollow(s, Handle(s, home, q), None)
  {
    FewerFollow(s, Handle(s, home, q));
  }

  lemma PostsFollow(s: Store, home: string, q: Request)
    requires q.PostUser? || q.PostGroup? || q.PutPolicy? || q.PostCredential?
    ensures Handle(s, home, q).bindings == s.bindings
  {
    match q
    case PostUser(r) => CreateUserFrame(s, home, r);
    case PostGroup(r) => CreateGroupFrame(s, home, r);
    case PutPolicy(p, fallback, status) => WritePolicyFrame(s, home, p, fallback, status);
    case PostCredential(id, requested, secretKey, random) =>
      var u, a := ResolveUser(s, id), AccessKeyId(requested, random);
      if u.Some? { IssueFrame(s, CredentialKey(u.value, a), NewCredential(u.value, a), secretKey); }
  }

  lemma StepFollows(s: Store, home: string, q: Request)
    ensures BindingsFollow(s, Handle(s, home, q), WrittenBy(s, q))
  {
    match q
    case Attach(kind, id, p, repository) =>
      var x, role := ResolveSubject(s, kind, id), ResolveRole(s, p, RepositoryScope(repository));
      if x.Some? && role.Some? { BindFollows(s, kind, x.value, role.value, RepositoryScope(repository)); }
    case _ =>
      if q.PostUser? || q.PostGroup? || q.PutPolicy? || q.PostCredential? { PostsFollow(s, home, q); } else { DropsFollow(s, home, q); }
  }

  lemma FollowKeepsNames(s: Store, t: Store, written: Option<Key>)
    requires OwnNames(s) && BindingsFollow(s, t, written)
    ensures OwnNames(t)
  {
    forall k | k in t.bindings ensures OwnName(k, t.bindings[k]) { assert written != Some(k) ==> OwnName(k, s.bindings[k]); }
  }

  /** Over any run every binding is stored under its name. */
  lemma {:induction false} RunKeepsOwnNames(s: Store, home: string, qs: seq<Request>)
    requires OwnNames(s)
    ensures OwnNames(Run(s, home, qs))
    decreases |qs|
  {
    if qs != [] {
      StepFollows(s, home, qs[0]);
      FollowKeepsNames(s, Handle(s, home, qs[0]), WrittenBy(s, qs[0]));
      RunKeepsOwnNames(Handle(s, home, qs[0]), home, qs[1..]);
    }
  }

  /** Whatever the run attaches under this key can be read off it; nothing is asked of what it attaches under others. */
  predicate ReadableWrites(s: Store, home: string, qs: seq<Request>, k: Key)
    decreases |qs|
  {
    qs != [] ==>
      (WrittenBy(s, qs[0]) == Some(k) ==> ReadableAt(Handle(s, home, qs[0]), k)) &&
      ReadableWrites(Handle(s, home, qs[0]), home, qs[1..], k)
  }

  /** So a name stays readable over any run that attaches under it, if at all, readable bindings only. */
  lemma {:induction false} RunKeepsReadable(s: Store, home: string, qs: seq<Request>, k: Key)
    requires ReadableAt(s, k) && ReadableWrites(s, home, qs, k)
    ensures ReadableAt(Run(s, home, qs), k)
    decreases |qs|
  {
    if qs != [] {
      StepFollows(s, home, qs[0]);
      RunKeepsReadable(Handle(s, home, qs[0]), home, qs[1..], k);
    }
  }

  // ---- What attaching grants ----

  lemma {:induction false} GrantedContains(s: Store, ks: seq<Key>, k: Key, p: Policy)
    requires k in ks && p in GrantedBy(s, k)
    ensures p in Granted(s, ks)
  {
    if ks[0] != k { GrantedContains(s, ks[1..], k, p); }
  }

  predicate Grants(ps: seq<Policy>, name: string) { exists i :: 0 <= i < |ps| && ps[i].name == name }

  /** The new binding grants the attached policy exactly when the role of that name next to the subject holds it. */
  lemma BindGrants(s: Store, kind: Kind, subject: Key, role: Key, repository: string, policy: string)
    ensures var t, k := Bind(s, kind, subject, role, repository), BindingKey(kind, subject, role, repository);
            Grants(GrantedBy(t, k), policy) <==>
            Key(subject.namespace, role.name) in s.roles && Holds(s.roles[Key(subject.namespace, role.name)], policy, repository)
  {
  }

  lemma BindShows(s: Store, kind: Kind, subject: Key, role: Key, repository: string, policy: string)
    requires Grants(GrantedBy(Bind(s, kind, subject, role, repository), BindingKey(kind, subject, role, repository)), policy)
    ensures Grants(EffectiveForSubject(Bind(s, kind, subject, role, repository), subject.namespace, kind, subject.name), policy)
  {
    var t, k := Bind(s, kind, subject, role, repository), BindingKey(kind, subject, role, repository);
    var i :| 0 <= i < |GrantedBy(t, k)| && GrantedBy(t, k)[i].name == policy;
    assert k in SubjectBindings(t, subject.namespace, kind, subject.name);
    var ks := Sorted(SubjectBindings(t, subject.namespace, kind, subject.name));
    GrantedContains(t, ks, k, GrantedBy(t, k)[i]);
    var j :| 0 <= j < |Granted(t, ks)| && Granted(t, ks)[j] == GrantedBy(t, k)[i];
  }

  /** One of the policies shows a template of the role for the repository, under this name. */
  predicate ShownAmong(ps: seq<Policy>, r: Role, repository: string, name: string) {
    exists i, j :: 0 <= i < |ps| && 0 <= j < |r.policies| && ps[i].name == name && Shows(ps[i], r.policies[j], repository)
  }

  /** What is in effect is the role's policy with its resources for the repository asked for, and for that only. */
  lemma AttachedForRepository(s: Store, kind: Kind, id: string, policy: string, repository: string)
    requires AttachPolicy(s, kind, id, policy, repository).status == 201
    requires ResolveSubject(s, kind, id).value.namespace == ResolveRole(s, policy, RepositoryScope(repository)).value.namespace
    ensures var scope := if repository != "" then repository else "*";
            var x, t := ResolveSubject(s, kind, id).value, AttachPolicy(s, kind, id, policy, repository).store;
            var role := ResolveRole(s, policy, scope);
            role.Some? && role.value in s.roles &&
            ShownAmong(EffectiveForSubject(t, x.namespace, kind, x.name), s.roles[role.value], scope, policy)
  {
    var scope := RepositoryScope(repository);
    var x, role := ResolveSubject(s, kind, id).value, ResolveRole(s, policy, scope).value;
    ResolvedRoleExists(s, policy, scope);
    assert role == Key(x.namespace, role.name);
    var t, k := Bind(s, kind, x, role, scope), BindingKey(kind, x, role, scope);
    BindPuts(s, kind, x, role, scope);
    BoundShows(t, k, x, kind, s.roles[role], scope, policy);
  }

  lemma BoundShows(t: Store, k: Key, x: Key, kind: Kind, r: Role, scope: string, policy: string)
    requires k in t.bindings && k.namespace == x.namespace && t.bindings[k].kind == kind && t.bindings[k].subject == x.name
    requires t.bindings[k].repository == scope
    requires Key(k.namespace, t.bindings[k].role) in t.roles && t.roles[Key(k.namespace, t.bindings[k].role)] == r
    requires Holds(r, policy, scope)
    ensures ShownAmong(EffectiveForSubject(t, x.namespace, kind, x.name), r, scope, policy)
  {
    var shown := PoliciesFromRole(r, scope);
    var j :| 0 <= j < |r.policies| && shown[j].name == policy;
    assert GrantedBy(t, k) == shown && Shows(shown[j], r.policies[j], scope);
    var ks := Sorted(SubjectBindings(t, x.namespace, kind, x.name));
    assert k in SubjectBindings(t, x.namespace, kind, x.name);
    GrantedContains(t, ks, k, shown[j]);
    var i :| 0 <= i < |Granted(t, ks)| && Granted(t, ks)[i] == shown[j];
  }

  /** A policy attached to a subject next to the role is in effect for it. */
  lemma AttachedIsInEffect(s: Store, kind: Kind, id: string, policy: string, repository: string)
    requires AttachPolicy(s, kind, id, policy, repository).status == 201
    requires ResolveSubject(s, kind, id).value.namespace == ResolveRole(s, policy, RepositoryScope(repository)).value.namespace
    ensures var x, t := ResolveSubject(s, kind, id).value, AttachPolicy(s, kind, id, policy, repository).store;
            Grants(EffectiveForSubject(t, x.namespace, kind, x.name), policy)
  {
    var x, role := ResolveSubject(s, kind, id).value, ResolveRole(s, policy, RepositoryScope(repository)).value;
    ResolvedRoleExists(s, policy, RepositoryScope(repository));
    assert role == Key(x.namespace, role.name);
    BindGrants(s, kind, x, role, RepositoryScope(repository), policy);
    BindShows(s, kind, x, role, RepositoryScope(repository), policy);
  }
}
