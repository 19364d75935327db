/** Deleting a user leaves nothing of it behind and is not felt by anyone else. */
module AuthDeletion {
  import opened Text
  import opened KeyOrder
  import opened Naming
  import opened AuthStore
  import opened AuthHandlers
  import opened AuthReferences
  import opened AuthGroups
  import opened EffectivePolicies

  /** No user, credential, membership or binding of that name in that namespace. */
  predicate Gone(s: Store, u: Key) {
    u !in s.users && UserCredentials(s, u) == {} && GroupsOf(s, u) == {} &&
    SubjectBindings(s, u.namespace, UserSubject, u.name) == {}
  }

  lemma NoMembershipLeft(s: Store, u: Key)
    ensures GroupsOf(RemoveUser(s, u), u) == {}
  {
    var t := RemoveUser(s, u);
    forall g | g in t.groups ensures g !in GroupsOf(t, u) {
      if g in GroupsOf(s, u) { WithoutMember(s.groups[g].members, u.name, u.name); }
    }
  }

  lemma MembershipKept(s: Store, u: Key, v: Key)
    requires v != u
    ensures GroupsOf(RemoveUser(s, u), v) == GroupsOf(s, v)
  {
    var t := RemoveUser(s, u);
    forall g | g in s.groups ensures g in GroupsOf(t, v) <==> g in GroupsOf(s, v) {
      if g in GroupsOf(s, u) && g.namespace == v.namespace {
        assert v == Key(u.namespace, v.name) && u == Key(u.namespace, u.name);
        WithoutMember(s.groups[g].members, u.name, v.name);
      }
    }
  }

  predicate SameSubject(u: Key, namespace: string, kind: Kind, name: string) {
    kind.UserSubject? && u == Key(namespace, name)
  }

  lemma SubjectUndisturbed(s: Store, u: Key, namespace: string, kind: Kind, name: string)
    requires !SameSubject(u, namespace, kind, name)
    ensures EffectiveForSubject(RemoveUser(s, u), namespace, kind, name) == EffectiveForSubject(s, namespace, kind, name)
  {
    var t := RemoveUser(s, u);
    assert u == Key(u.namespace, u.name);
    assert SubjectBindings(t, namespace, kind, name) == SubjectBindings(s, namespace, kind, name);
    SubjectSame(t, s, namespace, kind, name);
  }

  lemma UserUndisturbed(s: Store, u: Key, v: Key)
    requires v != u
    ensures EffectiveForUser(RemoveUser(s, u), v) == EffectiveForUser(s, v)
  {
    var t := RemoveUser(s, u);
    assert v == Key(v.namespace, v.name);
    SubjectUndisturbed(s, u, v.namespace, UserSubject, v.name);
    MembershipKept(s, u, v);
    forall g | g in GroupsOf(s, v)
      ensures EffectiveForSubject(t, v.namespace, GroupSubject, g.name) == EffectiveForSubject(s, v.namespace, GroupSubject, g.name)
    {
      SubjectUndisturbed(s, u, v.namespace, GroupSubject, g.name);
    }
    GroupsSame(t, s, v.namespace, Sorted(GroupsOf(s, v)));
  }

  /** Another user keeps its credentials. */
  lemma CredentialsKept(s: Store, u: Key, v: Key)
    requires v != u
    ensures var t := RemoveUser(s, u);
            UserCredentials(t, v) == UserCredentials(s, v) &&
            forall k :: k in UserCredentials(s, v) ==> k in t.credentials && t.credentials[k] == s.credentials[k]
  {
    assert v == Key(v.namespace, v.name) && u == Key(u.namespace, u.name);
  }

  /** The binding is of this user. */
  predicate OfUser(k: Key, b: Binding, u: Key) { b.kind.UserSubject? && k.namespace == u.namespace && b.subject == u.name }

  /** Exactly the user's bindings and credentials go; groups keep all but their members. */
  lemma RemoveUserTakesOwn(s: Store, u: Key)
    ensures var t := RemoveUser(s, u);
            (forall k :: k in t.bindings <==> k in s.bindings && !OfUser(k, s.bindings[k], u)) &&
            (forall k :: k in t.bindings ==> t.bindings[k] == s.bindings[k])
    ensures var t := RemoveUser(s, u);
            (forall k :: k in t.credentials <==>
               k in s.credentials && !(k.namespace == u.namespace && s.credentials[k].user == u.name)) &&
            (forall k :: k in t.credentials ==> t.credentials[k] == s.credentials[k])
    ensures var t := RemoveUser(s, u);
            t.groups.Keys == s.groups.Keys &&
            forall g :: g in s.groups ==> t.groups[g] == s.groups[g].(members := t.groups[g].members)
  {
  }

  /** A group the user was in keeps its other members, in their order; all other groups keep all of them. */
  lemma MembersAfter(s: Store, u: Key, g: Key)
    requires g in s.groups
    ensures var was, left := s.groups[g].members, RemoveUser(s, u).groups[g].members;
            if g.namespace == u.namespace && u.name in was then exists at :: LeftBehind(was, left, u.name, at) else left == was
  {
    WithoutLeaves(s.groups[g].members, u.name);
  }

  /**
   After deleting a user nothing of it is left. Every other user is in the same groups and has the same policies, in
   the same order; so has every group; users, roles and Secrets are otherwise as they were.
  */
  lemma DeleteUserIsClean(s: Store, id: string)
    requires ResolveUser(s, id).Some?
    ensures var u, t := ResolveUser(s, id).value, DeleteUser(s, id).store;
            Gone(t, u) && t.users == s.users - {u} && t.roles == s.roles && t.secrets == s.secrets &&
            (forall k :: k in t.bindings <==> k in s.bindings && !OfUser(k, s.bindings[k], u)) &&
            (forall v :: v != u ==> EffectiveForUser(t, v) == EffectiveForUser(s, v)) &&
            (forall v :: v != u ==> GroupsOf(t, v) == GroupsOf(s, v)) &&
            (forall g: Key :: EffectiveForSubject(t, g.namespace, GroupSubject, g.name) ==
                              EffectiveForSubject(s, g.namespace, GroupSubject, g.name))
  {
    var u := ResolveUser(s, id).value;
    NoMembershipLeft(s, u);
    RemoveUserTakesOwn(s, u);
    forall v | v != u ensures EffectiveForUser(RemoveUser(s, u), v) == EffectiveForUser(s, v) { UserUndisturbed(s, u, v); }
    forall v | v != u ensures GroupsOf(RemoveUser(s, u), v) == GroupsOf(s, v) { MembershipKept(s, u, v); }
    forall g: Key ensures EffectiveForSubject(RemoveUser(s, u), g.namespace, GroupSubject, g.name) ==
                          EffectiveForSubject(s, g.namespace, GroupSubject, g.name)
    {
      SubjectUndisturbed(s, u, g.namespace, GroupSubject, g.name);
    }
  }
}
