/** Groups: creating and deleting them, who joins and leaves, and what that does to policies. */
module AuthGroups {
  import opened Text
  import opened KeyOrder
  import opened Naming
  import opened AuthStore
  import opened AuthHandlers
  import opened AuthReferences
  import opened EffectivePolicies

  // ---- Joining ----

  /** Group and user are found, in one namespace. */
  predicate Together(s: Store, groupId: string, userId: string) {
    ResolveGroup(s, groupId).Some? && ResolveUser(s, userId).Some? &&
    ResolveUser(s, userId).value.namespace == ResolveGroup(s, groupId).value.namespace
  }

  /** Only this group differs, and only in its members. */
  predicate OnlyMembersOf(s: Store, t: Store, g: Key) {
    g in s.groups && g in t.groups && t == s.(groups := t.groups) && t.groups - {g} == s.groups - {g} &&
    t.groups[g].externalId == s.groups[g].externalId && t.groups[g].description == s.groups[g].description
  }

  lemma OtherGroupSame(s: Store, t: Store, g: Key, h: Key)
    requires OnlyMembersOf(s, t, g) && h != g
    ensures (h in t.groups <==> h in s.groups) && (h in s.groups ==> t.groups[h] == s.groups[h])
  {
    assert h in t.groups <==> h in t.groups - {g};
    assert h in s.groups <==> h in s.groups - {g};
    if h in s.groups { assert (t.groups - {g})[h] == (s.groups - {g})[h]; }
  }

  /** Whose groups change is told by who is in the members before and after. */
  lemma MembershipFollows(s: Store, t: Store, g: Key, v: Key)
    requires OnlyMembersOf(s, t, g)
    ensures GroupsOf(t, v) - {g} == GroupsOf(s, v) - {g}
    ensures g in GroupsOf(t, v) <==> g.namespace == v.namespace && v.name in t.groups[g].members
  {
    forall h | h != g ensures h in GroupsOf(t, v) <==> h in GroupsOf(s, v) { OtherGroupSame(s, t, g, h); }
  }

  /**
   Adding a member: refused, with nothing changed, unless group and user are found in one namespace; otherwise the user
   stands behind the old members, once, and is in its old groups and this one. Nobody else's groups change.
  */
  lemma AddMemberAdds(s: Store, groupId: string, userId: string)
    ensures var a := AddMember(s, groupId, userId);
            if !Together(s, groupId, userId) then a.status == 404 && a.store == s
            else
              var g, u, t := ResolveGroup(s, groupId).value, ResolveUser(s, userId).value, a.store;
              a.status == 201 && OnlyMembersOf(s, t, g) &&
              t.groups[g].members == s.groups[g].members + (if u.name in s.groups[g].members then [] else [u.name]) &&
              GroupsOf(t, u) == GroupsOf(s, u) + {g} &&
              forall v :: v != u ==> GroupsOf(t, v) == GroupsOf(s, v)
  {
    if Together(s, groupId, userId) {
      ResolvedGroupExists(s, groupId);
      var g, u, t := ResolveGroup(s, groupId).value, ResolveUser(s, userId).value, AddMember(s, groupId, userId).store;
      if u.name in s.groups[g].members {
        assert t == s && s.groups[g].members + [] == s.groups[g].members;
        assert g in GroupsOf(s, u);
      } else {
        JoinedOnly(s, t, g, u);
      }
    }
  }

  lemma JoinedOnly(s: Store, t: Store, g: Key, u: Key)
    requires g in s.groups && u.namespace == g.namespace
    requires t == s.(groups := s.groups[g := s.groups[g].(members := s.groups[g].members + [u.name])])
    ensures OnlyMembersOf(s, t, g) && GroupsOf(t, u) == GroupsOf(s, u) + {g}
    ensures forall v :: v != u ==> GroupsOf(t, v) == GroupsOf(s, v)
  {
    assert t.groups - {g} == s.groups - {g};
    MembershipFollows(s, t, g, u);
    forall v | v != u ensures GroupsOf(t, v) == GroupsOf(s, v) {
      MembershipFollows(s, t, g, v);
      assert v == Key(v.namespace, v.name) && u == Key(u.namespace, u.name);
    }
  }

  // ---- Leaving ----

  predicate Increasing(at: seq<nat>) { forall i, j :: 0 <= i < j < |at| ==> at[i] < at[j] }

  /** What is left are the members of other names, all of them, in their order; `at` says where they stood. */
  predicate LeftBehind(was: seq<string>, left: seq<string>, name: string, at: seq<nat>) {
    |at| == |left| && Increasing(at) &&
    (forall i :: 0 <= i < |at| ==> at[i] < |was| && left[i] == was[at[i]] && left[i] != name) &&
    forall j :: 0 <= j < |was| && was[j] != name ==> j in at
  }

  lemma {:induction false} WithoutLeaves(members: seq<string>, name: string)
    ensures exists at :: LeftBehind(members, Without(members, name), name, at)
  {
    if members == [] {
      var none: seq<nat> := [];
      assert LeftBehind(members, Without(members, name), name, none);
    } else {
      var n := |members| - 1;
      var front := members[..n];
      assert members == front + [members[n]];
      WithoutLeaves(front, name);
      WithoutAppend(front, members[n], name);
      var at :| LeftBehind(front, Without(front, name), name, at);
      var all := if members[n] != name then at + [n] else at;
      LeftExtended(front, members[n], name, at);
      assert LeftBehind(members, Without(members, name), name, all);
    }
  }

  lemma LeftExtended(front: seq<string>, m: string, name: string, at: seq<nat>)
    requires LeftBehind(front, Without(front, name), name, at)
    ensures LeftBehind(front + [m], Without(front, name) + (if m != name then [m] else []), name, if m != name then at + [|front|] else at)
  {
    var was, all := front + [m], if m != name then at + [|front|] else at;
    forall j | 0 <= j < |was| && was[j] != name ensures j in all {
      if j < |front| { assert front[j] != name && j in at; } else { assert all[|at|] == j; }
    }
  }

  /** Removing a member: all its mentions go, the other members keep their order, and nobody else's groups change. */
  lemma RemoveMemberRemoves(s: Store, groupId: string, userId: string)
    ensures var a := RemoveMember(s, groupId, userId);
            a.status == 204 &&
            if !Together(s, groupId, userId) then a.store == s
            else
              var g, u, t := ResolveGroup(s, groupId).value, ResolveUser(s, userId).value, a.store;
              OnlyMembersOf(s, t, g) && (exists at :: LeftBehind(s.groups[g].members, t.groups[g].members, u.name, at)) &&
              GroupsOf(t, u) == GroupsOf(s, u) - {g} &&
              forall v :: v != u ==> GroupsOf(t, v) == GroupsOf(s, v)
  {
    if Together(s, groupId, userId) {
      ResolvedGroupExists(s, groupId);
      var g, u, t := ResolveGroup(s, groupId).value, ResolveUser(s, userId).value, RemoveMember(s, groupId, userId).store;
      WithoutLeaves(s.groups[g].members, u.name);
      LeftOnly(s, t, g, u);
    }
  }

  lemma LeftOnly(s: Store, t: Store, g: Key, u: Key)
    requires g in s.groups && u.namespace == g.namespace
    requires t == s.(groups := s.groups[g := s.groups[g].(members := Without(s.groups[g].members, u.name))])
    ensures OnlyMembersOf(s, t, g) && GroupsOf(t, u) == GroupsOf(s, u) - {g}
    ensures forall v :: v != u ==> GroupsOf(t, v) == GroupsOf(s, v)
  {
    assert t.groups - {g} == s.groups - {g};
    MembershipFollows(s, t, g, u);
    WithoutMember(s.groups[g].members, u.name, u.name);
    forall v | v != u ensures GroupsOf(t, v) == GroupsOf(s, v) {
      MembershipFollows(s, t, g, v);
      WithoutMember(s.groups[g].members, u.name, v.name);
      assert v == Key(v.namespace, v.name) && u == Key(u.namespace, u.name);
    }
  }

  // ---- What membership is worth ----

  lemma {:induction false} GroupShareIn(s: Store, namespace: string, ks: seq<Key>, own: set<Key>, g: Key)
    requires Distinct(ks) && g in ks && forall l :: l in ks ==> l in own
    ensures multiset(EffectiveForGroups(s, namespace, ks)) ==
            multiset(EffectiveForGroups(s, namespace, Pick(ks, own - {g}))) +
            multiset(EffectiveForSubject(s, namespace, GroupSubject, g.name))
  {
    var rest := ks[1..];
    assert ks == [ks[0]] + rest;
    DistinctTail(ks);
    if ks[0] == g {
      PickAll(rest, own - {g}, own);
      PickEverything(rest, own);
      assert Pick(ks, own - {g}) == rest;
    } else {
      GroupShareIn(s, namespace, rest, own, g);
      assert Pick(ks, own - {g}) == [ks[0]] + Pick(rest, own - {g});
      assert ([ks[0]] + Pick(rest, own - {g}))[1..] == Pick(rest, own - {g});
    }
  }

  /** One group's share of the policies of all groups. */
  lemma GroupShare(s: Store, namespace: string, own: set<Key>, g: Key)
    requires g in own
    ensures multiset(EffectiveForGroups(s, namespace, Sorted(own))) ==
            multiset(EffectiveForGroups(s, namespace, Sorted(own - {g}))) +
            multiset(EffectiveForSubject(s, namespace, GroupSubject, g.name))
  {
    SortedDistinct(own);
    GroupShareIn(s, namespace, Sorted(own), own, g);
    PickSorted(own, own - {g});
  }

  lemma SameBindings(s: Store, t: Store, namespace: string, kind: Kind, name: string)
    requires t.bindings == s.bindings && t.roles == s.roles
    ensures EffectiveForSubject(t, namespace, kind, name) == EffectiveForSubject(s, namespace, kind, name)
  {
    assert SubjectBindings(t, namespace, kind, name) == SubjectBindings(s, namespace, kind, name);
    SubjectSame(t, s, namespace, kind, name);
  }

  lemma SameGroups(s: Store, t: Store, u: Key)
    requires t.bindings == s.bindings && t.roles == s.roles
    ensures EffectiveForUser(t, u) ==
            EffectiveForSubject(s, u.namespace, UserSubject, u.name) + EffectiveForGroups(s, u.namespace, Sorted(GroupsOf(t, u)))
  {
    SameBindings(s, t, u.namespace, UserSubject, u.name);
    var groups := Sorted(GroupsOf(t, u));
    forall g | g in groups
      ensures EffectiveForSubject(t, u.namespace, GroupSubject, g.name) == EffectiveForSubject(s, u.namespace, GroupSubject, g.name)
    {
      SameBindings(s, t, u.namespace, GroupSubject, g.name);
    }
    GroupsSame(t, s, u.namespace, groups);
  }

  /** Who joins a group gets its policies on top of the old ones; everybody else has the same policies as before. */
  lemma JoiningGrants(s: Store, groupId: string, userId: string)
    requires Together(s, groupId, userId) && ResolveGroup(s, groupId).value !in GroupsOf(s, ResolveUser(s, userId).value)
    ensures var g, u, t := ResolveGroup(s, groupId).value, ResolveUser(s, userId).value, AddMember(s, groupId, userId).store;
            multiset(EffectiveForUser(t, u)) ==
            multiset(EffectiveForUser(s, u)) + multiset(EffectiveForSubject(s, g.namespace, GroupSubject, g.name)) &&
            forall v :: v != u ==> EffectiveForUser(t, v) == EffectiveForUser(s, v)
  {
    var g, u, t := ResolveGroup(s, groupId).value, ResolveUser(s, userId).value, AddMember(s, groupId, userId).store;
    AddMemberAdds(s, groupId, userId);
    SameGroups(s, t, u);
    GroupShare(s, u.namespace, GroupsOf(t, u), g);
    assert GroupsOf(t, u) - {g} == GroupsOf(s, u);
    forall v | v != u ensures EffectiveForUser(t, v) == EffectiveForUser(s, v) { SameGroups(s, t, v); }
  }

  /** Who leaves a group loses its policies and keeps the rest. */
  lemma LeavingRevokes(s: Store, groupId: string, userId: string)
    requires Together(s, groupId, userId) && ResolveGroup(s, groupId).value in GroupsOf(s, ResolveUser(s, userId).value)
    ensures var g, u, t := ResolveGroup(s, groupId).value, ResolveUser(s, userId).value, RemoveMember(s, groupId, userId).store;
            multiset(EffectiveForUser(s, u)) ==
            multiset(EffectiveForUser(t, u)) + multiset(EffectiveForSubject(s, g.namespace, GroupSubject, g.name)) &&
            forall v :: v != u ==> EffectiveForUser(t, v) == EffectiveForUser(s, v)
  {
    var g, u, t := ResolveGroup(s, groupId).value, ResolveUser(s, userId).value, RemoveMember(s, groupId, userId).store;
    RemoveMemberRemoves(s, groupId, userId);
    SameGroups(s, t, u);
    GroupShare(s, u.namespace, GroupsOf(s, u), g);
    forall v | v != u ensures EffectiveForUser(t, v) == EffectiveForUser(s, v) { SameGroups(s, t, v); }
  }

  // ---- Creating and deleting ----

  /** The group a request asks for, field by field. */
  predicate AskedFor(g: Group, r: GroupRequest) {
    var asked := if r.id != "" then r.id else r.name;
    g.externalId == TrimSpace(asked) && g.members == [] &&
    g.description == if r.description != "" then r.description else if r.name != "" then r.name else TrimSpace(asked)
  }

  /**
   Creating a group: refused for a blank id, the old group if one goes by the id, otherwise a new one without members in
   the server's namespace, found under its id from then on.
  */
  lemma CreateGroupAnswers(s: Store, home: string, r: GroupRequest)
    ensures var a, id := CreateGroup(s, home, r), TrimSpace(if r.id != "" then r.id else r.name);
            if id == "" then a == Answer(s, 400, None)
            else if ResolveGroup(s, id).Some? then a == Answer(s, 201, ResolveGroup(s, id))
            else
              var k := Key(home, ObjectName("group-" + id));
              a.status == 201 && a.subject == Some(k) && k !in s.groups && k in a.store.groups &&
              AskedFor(a.store.groups[k], r) && a.store.groups - {k} == s.groups && a.store == s.(groups := a.store.groups) &&
              ResolveGroup(a.store, id) == Some(k)
  {
    var id := RequestedGroup(r);
    if id != "" && ResolveGroup(s, id).None? {
      var k := Key(home, GroupObject(id));
      assert k in s.groups ==> k in NamedGroups(s, id);
      CreatedGroupFound(s, k, Group(id, Or(r.description, Or(r.name, id)), []));
    }
  }

  lemma CreatedGroupFound(s: Store, k: Key, g: Group)
    requires g.externalId != "" && k !in s.groups && ResolveGroup(s, g.externalId).None?
    ensures var t := AddGroup(s, k, g); ResolveGroup(t, g.externalId) == Some(k) && t.groups - {k} == s.groups
  {
    var t := AddGroup(s, k, g);
    assert IndexedGroups(s, g.externalId) == {};
    forall l | l in IndexedGroups(t, g.externalId) ensures l == k { assert l != k ==> l in IndexedGroups(s, g.externalId); }
    assert IndexedGroups(t, g.externalId) == {k};
    assert Least({k}) == k;
  }

  /** The binding is of this group. */
  predicate OfGroup(k: Key, b: Binding, g: Key) { b.kind.GroupSubject? && k.namespace == g.namespace && b.subject == g.name }

  /** Deleting a group takes exactly its bindings with it. */
  lemma DeleteGroupIsClean(s: Store, id: string)
    requires ResolveGroup(s, id).Some?
    ensures var g, t := ResolveGroup(s, id).value, DeleteGroup(s, id).store;
            t.groups == s.groups - {g} && t == s.(groups := t.groups, bindings := t.bindings) &&
            (forall k :: k in t.bindings <==> k in s.bindings && !OfGroup(k, s.bindings[k], g)) &&
            (forall k :: k in t.bindings ==> t.bindings[k] == s.bindings[k])
  {
  }
}
