/** The policies in effect for a user are exactly those its bindings and those of its groups stand for. */
module EffectivePolicies {
  import opened Text
  import opened KeyOrder
  import opened Naming
  import Rendering
  import opened AuthStore

  // ---- The reference: which grants there are ----

  /** A binding together with one template of the role it refers to. */
  datatype Grant = Grant(binding: Key, template: nat)

  /** The binding is for the user, or for a group of its namespace that lists it. */
  predicate Concerns(s: Store, u: Key, b: Binding) {
    if b.kind.UserSubject? then b.subject == u.name
    else Key(u.namespace, b.subject) in s.groups && u.name in s.groups[Key(u.namespace, b.subject)].members
  }

  function RoleOf(k: Key, b: Binding): Key { Key(k.namespace, b.role) }

  predicate Entitled(s: Store, u: Key, g: Grant) {
    g.binding in s.bindings && g.binding.namespace == u.namespace && Concerns(s, u, s.bindings[g.binding]) &&
    RoleOf(g.binding, s.bindings[g.binding]) in s.roles &&
    g.template < |s.roles[RoleOf(g.binding, s.bindings[g.binding])].policies|
  }

  function TemplateOf(s: Store, u: Key, g: Grant): Policy
    requires Entitled(s, u, g)
  {
    s.roles[RoleOf(g.binding, s.bindings[g.binding])].policies[g.template]
  }

  predicate Distinct<T(==)>(xs: seq<T>) { forall i, j :: 0 <= i < j < |xs| ==> xs[i] != xs[j] }

  /** Own bindings before those of groups, groups by key, bindings of one subject by key, templates as in the role. */
  predicate Precedes(s: Store, g: Grant, h: Grant) {
    g.binding in s.bindings && h.binding in s.bindings &&
    var b, c := s.bindings[g.binding], s.bindings[h.binding];
    if g.binding == h.binding then g.template < h.template
    else if b.kind != c.kind then b.kind.UserSubject?
    else if b.subject == c.subject then KeyBefore(g.binding, h.binding)
    else KeyBefore(Key(g.binding.namespace, b.subject), Key(h.binding.namespace, c.subject))
  }

  predicate Ordered(s: Store, gs: seq<Grant>) { forall i, j :: 0 <= i < j < |gs| ==> Precedes(s, gs[i], gs[j]) }

  /** The list names every grant of the user once, in this order, and each policy shows its template for the binding's repository. */
  ghost predicate Enumerates(s: Store, u: Key, gs: seq<Grant>, ps: seq<Policy>) {
    Distinct(gs) && Ordered(s, gs) && |ps| == |gs| &&
    (forall i :: 0 <= i < |gs| ==>
       Entitled(s, u, gs[i]) && Shows(ps[i], TemplateOf(s, u, gs[i]), s.bindings[gs[i].binding].repository)) &&
    forall g :: Entitled(s, u, g) ==> g in gs
  }

  // ---- The loops, with a grant for every policy ----

  function GrantsBy(s: Store, k: Key): (gs: seq<Grant>)
    ensures |gs| == |GrantedBy(s, k)| && forall i :: 0 <= i < |gs| ==> gs[i] == Grant(k, i)
  {
    seq(|GrantedBy(s, k)|, i requires 0 <= i => Grant(k, i))
  }

  function GrantsIn(s: Store, ks: seq<Key>): seq<Grant> {
    if ks == [] then [] else GrantsBy(s, ks[0]) + GrantsIn(s, ks[1..])
  }

  function SubjectGrants(s: Store, namespace: string, kind: Kind, name: string): seq<Grant> {
    GrantsIn(s, Sorted(SubjectBindings(s, namespace, kind, name)))
  }

  function GroupGrants(s: Store, namespace: string, groups: seq<Key>): seq<Grant> {
    if groups == [] then []
    else SubjectGrants(s, namespace, GroupSubject, groups[0].name) + GroupGrants(s, namespace, groups[1..])
  }

  function UserGrants(s: Store, u: Key): seq<Grant> {
    SubjectGrants(s, u.namespace, UserSubject, u.name) + GroupGrants(s, u.namespace, Sorted(GroupsOf(s, u)))
  }

  /** Policy by policy, what is listed is what the grants stand for. */
  predicate Matches(s: Store, gs: seq<Grant>, ps: seq<Policy>) {
    |ps| == |gs| && forall i :: 0 <= i < |gs| ==> MatchesAt(s, gs[i], ps[i])
  }

  predicate MatchesAt(s: Store, g: Grant, p: Policy) {
    g.template < |GrantedBy(s, g.binding)| && p == GrantedBy(s, g.binding)[g.template]
  }

  lemma MatchesAppend(s: Store, gs: seq<Grant>, ps: seq<Policy>, hs: seq<Grant>, qs: seq<Policy>)
    requires Matches(s, gs, ps) && Matches(s, hs, qs)
    ensures Matches(s, gs + hs, ps + qs)
  {
  }

  lemma {:induction false} GrantsMatch(s: Store, ks: seq<Key>)
    ensures Matches(s, GrantsIn(s, ks), Granted(s, ks))
  {
    if ks != [] {
      GrantsMatch(s, ks[1..]);
      assert Matches(s, GrantsBy(s, ks[0]), GrantedBy(s, ks[0]));
      MatchesAppend(s, GrantsBy(s, ks[0]), GrantedBy(s, ks[0]), GrantsIn(s, ks[1..]), Granted(s, ks[1..]));
    }
  }

  lemma {:induction false} GroupGrantsMatch(s: Store, namespace: string, groups: seq<Key>)
    ensures Matches(s, GroupGrants(s, namespace, groups), EffectiveForGroups(s, namespace, groups))
  {
    if groups != [] {
      var first := Sorted(SubjectBindings(s, namespace, GroupSubject, groups[0].name));
      GrantsMatch(s, first);
      GroupGrantsMatch(s, namespace, groups[1..]);
      MatchesAppend(s, GrantsIn(s, first), Granted(s, first),
                    GroupGrants(s, namespace, groups[1..]), EffectiveForGroups(s, namespace, groups[1..]));
    }
  }

  lemma UserGrantsMatch(s: Store, u: Key)
    ensures Matches(s, UserGrants(s, u), EffectiveForUser(s, u))
  {
    var own := Sorted(SubjectBindings(s, u.namespace, UserSubject, u.name));
    var groups := Sorted(GroupsOf(s, u));
    GrantsMatch(s, own);
    GroupGrantsMatch(s, u.namespace, groups);
    MatchesAppend(s, GrantsIn(s, own), Granted(s, own), GroupGrants(s, u.namespace, groups), EffectiveForGroups(s, u.namespace, groups));
  }

  // ---- Which grants the loops reach ----

  predicate Real(s: Store, g: Grant) { g.template < |GrantedBy(s, g.binding)| }

  lemma {:induction false} InGrants(s: Store, ks: seq<Key>, g: Grant)
    ensures g in GrantsIn(s, ks) <==> g.binding in ks && Real(s, g)
  {
    if ks != [] {
      InGrants(s, ks[1..], g);
      var first := GrantsBy(s, ks[0]);
      if g.binding == ks[0] && Real(s, g) { assert first[g.template] == g; }
      assert g in first <==> g.binding == ks[0] && Real(s, g);
      assert ks == [ks[0]] + ks[1..];
    }
  }

  lemma InSubjectGrants(s: Store, namespace: string, kind: Kind, name: string, g: Grant)
    ensures g in SubjectGrants(s, namespace, kind, name) <==> g.binding in SubjectBindings(s, namespace, kind, name) && Real(s, g)
  {
    InGrants(s, Sorted(SubjectBindings(s, namespace, kind, name)), g);
  }

  /** The binding is for one of the groups. */
  predicate ForGroup(s: Store, namespace: string, groups: seq<Key>, k: Key) {
    k in s.bindings && k.namespace == namespace && s.bindings[k].kind.GroupSubject? &&
    Key(namespace, s.bindings[k].subject) in groups
  }

  lemma {:induction false} InGroupGrants(s: Store, namespace: string, groups: seq<Key>, g: Grant)
    requires forall h :: h in groups ==> h.namespace == namespace
    ensures g in GroupGrants(s, namespace, groups) <==> ForGroup(s, namespace, groups, g.binding) && Real(s, g)
  {
    if groups != [] {
      InSubjectGrants(s, namespace, GroupSubject, groups[0].name, g);
      InGroupGrants(s, namespace, groups[1..], g);
      assert groups == [groups[0]] + groups[1..];
      assert groups[0] == Key(namespace, groups[0].name);
    }
  }

  lemma InUserGrants(s: Store, u: Key, g: Grant)
    ensures g in UserGrants(s, u) <==> Entitled(s, u, g)
  {
    InSubjectGrants(s, u.namespace, UserSubject, u.name, g);
    InGroupGrants(s, u.namespace, Sorted(GroupsOf(s, u)), g);
    assert g in UserGrants(s, u) <==> g in SubjectGrants(s, u.namespace, UserSubject, u.name) ||
                                      g in GroupGrants(s, u.namespace, Sorted(GroupsOf(s, u)));
  }

  // ---- And that they reach each once ----

  lemma DistinctTail(ks: seq<Key>)
    requires Distinct(ks) && ks != []
    ensures Distinct(ks[1..]) && ks[0] !in ks[1..]
  {
    assert forall i :: 0 <= i < |ks| - 1 ==> ks[1..][i] == ks[i + 1];
  }

  lemma AppendOrdered(s: Store, xs: seq<Grant>, ys: seq<Grant>)
    requires Ordered(s, xs) && Ordered(s, ys) && forall x, y :: x in xs && y in ys ==> Precedes(s, x, y)
    ensures Ordered(s, xs + ys)
  {
    forall i, j | 0 <= i < j < |xs + ys| ensures Precedes(s, (xs + ys)[i], (xs + ys)[j]) {
      if i < |xs| <= j { assert xs[i] in xs && ys[j - |xs|] in ys; }
    }
  }

  lemma OrderedDistinct(s: Store, gs: seq<Grant>)
    requires Ordered(s, gs)
    ensures Distinct(gs)
  {
    forall i, j | 0 <= i < j < |gs| ensures gs[i] != gs[j] { assert Precedes(s, gs[i], gs[j]); }
  }

  lemma AscendingTail(ks: seq<Key>)
    requires ks != [] && Ascending(ks)
    ensures Ascending(ks[1..]) && forall k :: k in ks[1..] ==> KeyBefore(ks[0], k) && k != ks[0]
  {
    forall i, j | 0 <= i < j < |ks| - 1 ensures KeyBefore(ks[1..][i], ks[1..][j]) { assert ks[1..][i] == ks[i + 1] && ks[1..][j] == ks[j + 1]; }
    forall k | k in ks[1..] ensures KeyBefore(ks[0], k) && k != ks[0] {
      var i :| 0 <= i < |ks| - 1 && ks[1..][i] == k;
      assert k == ks[i + 1];
      KeyBeforeTotal(ks[0], k);
    }
  }

  lemma OneBindingOrdered(s: Store, k: Key)
    requires k in s.bindings
    ensures Ordered(s, GrantsBy(s, k))
  {
  }

  lemma SubjectOrder(s: Store, namespace: string, kind: Kind, name: string, g: Grant, h: Grant)
    requires g.binding in SubjectBindings(s, namespace, kind, name) && h.binding in SubjectBindings(s, namespace, kind, name)
    requires KeyBefore(g.binding, h.binding) && g.binding != h.binding
    ensures Precedes(s, g, h)
  {
  }

  lemma {:induction false} GrantsOrdered(s: Store, ks: seq<Key>, namespace: string, kind: Kind, name: string)
    requires Ascending(ks) && forall k :: k in ks ==> k in SubjectBindings(s, namespace, kind, name)
    ensures Ordered(s, GrantsIn(s, ks))
  {
    if ks != [] {
      AscendingTail(ks);
      assert ks[0] in ks && forall k :: k in ks[1..] ==> k in ks;
      GrantsOrdered(s, ks[1..], namespace, kind, name);
      OneBindingOrdered(s, ks[0]);
      forall g, h | g in GrantsBy(s, ks[0]) && h in GrantsIn(s, ks[1..]) ensures Precedes(s, g, h) {
        InGrants(s, ks[1..], h);
        SubjectOrder(s, namespace, kind, name, g, h);
      }
      AppendOrdered(s, GrantsBy(s, ks[0]), GrantsIn(s, ks[1..]));
    }
  }

  lemma SubjectGrantsOrdered(s: Store, namespace: string, kind: Kind, name: string)
    ensures Ordered(s, SubjectGrants(s, namespace, kind, name))
  {
    SortedAscending(SubjectBindings(s, namespace, kind, name));
    GrantsOrdered(s, Sorted(SubjectBindings(s, namespace, kind, name)), namespace, kind, name);
  }

  lemma {:induction false} GroupGrantsOrdered(s: Store, namespace: string, groups: seq<Key>)
    requires Ascending(groups) && forall h :: h in groups ==> h.namespace == namespace
    ensures Ordered(s, GroupGrants(s, namespace, groups))
  {
    if groups != [] {
      AscendingTail(groups);
      GroupGrantsOrdered(s, namespace, groups[1..]);
      SubjectGrantsOrdered(s, namespace, GroupSubject, groups[0].name);
      var first := SubjectGrants(s, namespace, GroupSubject, groups[0].name);
      assert groups[0] == Key(namespace, groups[0].name);
      forall g, h | g in first && h in GroupGrants(s, namespace, groups[1..]) ensures Precedes(s, g, h) {
        InSubjectGrants(s, namespace, GroupSubject, groups[0].name, g);
        InGroupGrants(s, namespace, groups[1..], h);
      }
      AppendOrdered(s, first, GroupGrants(s, namespace, groups[1..]));
    }
  }

  lemma UserGrantsOrdered(s: Store, u: Key)
    ensures Ordered(s, UserGrants(s, u))
  {
    SubjectGrantsOrdered(s, u.namespace, UserSubject, u.name);
    SortedAscending(GroupsOf(s, u));
    GroupGrantsOrdered(s, u.namespace, Sorted(GroupsOf(s, u)));
    var own, others := SubjectGrants(s, u.namespace, UserSubject, u.name), GroupGrants(s, u.namespace, Sorted(GroupsOf(s, u)));
    forall g, h | g in own && h in others ensures Precedes(s, g, h) {
      InSubjectGrants(s, u.namespace, UserSubject, u.name, g);
      InGroupGrants(s, u.namespace, Sorted(GroupsOf(s, u)), h);
    }
    AppendOrdered(s, own, others);
  }

  lemma GrantShown(s: Store, u: Key, g: Grant, p: Policy)
    requires Entitled(s, u, g) && MatchesAt(s, g, p)
    ensures Shows(p, TemplateOf(s, u, g), s.bindings[g.binding].repository)
  {
  }

  /**
   The listed policies are the user's grants, each once and in the order of the lists, each with its template's names,
   effects, actions and resources for the repository of its binding: nothing more, nothing less.
  */
  lemma EffectiveIsExact(s: Store, u: Key)
    ensures exists gs :: Enumerates(s, u, gs, EffectiveForUser(s, u))
  {
    var gs, ps := UserGrants(s, u), EffectiveForUser(s, u);
    UserGrantsMatch(s, u);
    UserGrantsOrdered(s, u);
    OrderedDistinct(s, gs);
    forall g ensures g in gs <==> Entitled(s, u, g) { InUserGrants(s, u, g); }
    forall i | 0 <= i < |gs| ensures Entitled(s, u, gs[i]) && Shows(ps[i], TemplateOf(s, u, gs[i]), s.bindings[gs[i].binding].repository) {
      assert gs[i] in gs;
      assert MatchesAt(s, gs[i], ps[i]);
      GrantShown(s, u, gs[i], ps[i]);
    }
    assert Enumerates(s, u, gs, ps);
  }

  /** The binding is of this subject, in this namespace. */
  predicate OfSubject(s: Store, namespace: string, kind: Kind, name: string, g: Grant) {
    g.binding in s.bindings && g.binding.namespace == namespace &&
    s.bindings[g.binding].kind == kind && s.bindings[g.binding].subject == name &&
    RoleOf(g.binding, s.bindings[g.binding]) in s.roles &&
    g.template < |s.roles[RoleOf(g.binding, s.bindings[g.binding])].policies|
  }

  ghost predicate EnumeratesSubject(s: Store, namespace: string, kind: Kind, name: string, gs: seq<Grant>, ps: seq<Policy>) {
    Distinct(gs) && Ordered(s, gs) && |ps| == |gs| &&
    (forall i :: 0 <= i < |gs| ==>
       OfSubject(s, namespace, kind, name, gs[i]) &&
       Shows(ps[i], s.roles[RoleOf(gs[i].binding, s.bindings[gs[i].binding])].policies[gs[i].template],
             s.bindings[gs[i].binding].repository)) &&
    forall g :: OfSubject(s, namespace, kind, name, g) ==> g in gs
  }

  /** So are the policies of a single subject, a group for example. */
  lemma SubjectIsExact(s: Store, namespace: string, kind: Kind, name: string)
    ensures exists gs :: EnumeratesSubject(s, namespace, kind, name, gs, EffectiveForSubject(s, namespace, kind, name))
  {
    var gs, ps := SubjectGrants(s, namespace, kind, name), EffectiveForSubject(s, namespace, kind, name);
    GrantsMatch(s, Sorted(SubjectBindings(s, namespace, kind, name)));
    SubjectGrantsOrdered(s, namespace, kind, name);
    OrderedDistinct(s, gs);
    forall g ensures g in gs <==> OfSubject(s, namespace, kind, name, g) { InSubjectGrants(s, namespace, kind, name, g); }
    forall i | 0 <= i < |gs|
      ensures OfSubject(s, namespace, kind, name, gs[i])
      ensures Shows(ps[i], s.roles[RoleOf(gs[i].binding, s.bindings[gs[i].binding])].policies[gs[i].template],
                    s.bindings[gs[i].binding].repository)
    {
      assert gs[i] in gs;
      assert MatchesAt(s, gs[i], ps[i]);
    }
    assert EnumeratesSubject(s, namespace, kind, name, gs, ps);
  }

  /** One template shown for two repositories has two resources wherever it holds the placeholder. */
  lemma ShownApart(t: Policy, p: Policy, q: Policy, a: string, b: string, j: nat)
    requires Shows(p, t, a) && Shows(q, t, b) && a != "" && b != "" && a != b
    requires j < |t.statements| && Rendering.Contains(t.statements[j].resource, Rendering.PLACEHOLDER)
    ensures p.statements[j].resource != q.statements[j].resource
  {
    Rendering.RenderInjective(t.statements[j].resource, a, b);
  }

  // ---- What the policies of a subject depend on ----

  lemma {:induction false} GrantedSame(s: Store, t: Store, ks: seq<Key>)
    requires forall k :: k in ks ==> GrantedBy(s, k) == GrantedBy(t, k)
    ensures Granted(s, ks) == Granted(t, ks)
  {
    if ks != [] {
      assert ks[0] in ks;
      GrantedSame(s, t, ks[1..]);
    }
  }

  /** A binding and its role are the same in both stores. */
  predicate SameBinding(s: Store, t: Store, k: Key) {
    k in s.bindings && k in t.bindings && s.bindings[k] == t.bindings[k] && SameRole(s, t, RoleOf(k, s.bindings[k]))
  }

  predicate SameRole(s: Store, t: Store, r: Key) {
    (r in s.roles <==> r in t.roles) && (r in s.roles && r in t.roles ==> s.roles[r] == t.roles[r])
  }

  lemma SubjectSame(s: Store, t: Store, namespace: string, kind: Kind, name: string)
    requires SubjectBindings(s, namespace, kind, name) == SubjectBindings(t, namespace, kind, name)
    requires forall k :: k in SubjectBindings(s, namespace, kind, name) ==> SameBinding(s, t, k)
    ensures EffectiveForSubject(s, namespace, kind, name) == EffectiveForSubject(t, namespace, kind, name)
  {
    var ks := Sorted(SubjectBindings(s, namespace, kind, name));
    forall k | k in ks ensures GrantedBy(s, k) == GrantedBy(t, k) { assert SameBinding(s, t, k); }
    GrantedSame(s, t, ks);
  }

  lemma {:induction false} GroupsSame(s: Store, t: Store, namespace: string, groups: seq<Key>)
    requires forall g :: g in groups ==> EffectiveForSubject(s, namespace, GroupSubject, g.name) ==
                                         EffectiveForSubject(t, namespace, GroupSubject, g.name)
    ensures EffectiveForGroups(s, namespace, groups) == EffectiveForGroups(t, namespace, groups)
  {
    if groups != [] {
      assert groups[0] in groups;
      GroupsSame(s, t, namespace, groups[1..]);
    }
  }

  /** The stores hold the same groups, roles and bindings in one namespace. */
  ghost predicate AgreeIn(s: Store, t: Store, namespace: string) {
    forall k: Key {:trigger SameAt(s, t, k)} :: k.namespace == namespace ==> SameAt(s, t, k)
  }

  predicate SameAt(s: Store, t: Store, k: Key) {
    (k in s.bindings <==> k in t.bindings) && (k in s.bindings && k in t.bindings ==> s.bindings[k] == t.bindings[k]) &&
    (k in s.groups <==> k in t.groups) && (k in s.groups && k in t.groups ==> s.groups[k] == t.groups[k]) &&
    SameRole(s, t, k)
  }

  lemma SubjectLocal(s: Store, t: Store, namespace: string, kind: Kind, name: string)
    requires AgreeIn(s, t, namespace)
    ensures EffectiveForSubject(s, namespace, kind, name) == EffectiveForSubject(t, namespace, kind, name)
  {
    assert forall k :: k in SubjectBindings(s, namespace, kind, name) || k in SubjectBindings(t, namespace, kind, name) ==> SameAt(s, t, k);
    assert SubjectBindings(s, namespace, kind, name) == SubjectBindings(t, namespace, kind, name);
    forall k | k in SubjectBindings(s, namespace, kind, name) ensures SameBinding(s, t, k) {
      assert SameAt(s, t, k) && SameAt(s, t, RoleOf(k, s.bindings[k]));
    }
    SubjectSame(s, t, namespace, kind, name);
  }

  /** Nothing outside the user's namespace plays a role. */
  lemma EffectiveIsLocal(s: Store, t: Store, u: Key)
    requires AgreeIn(s, t, u.namespace)
    ensures EffectiveForUser(s, u) == EffectiveForUser(t, u)
  {
    SubjectLocal(s, t, u.namespace, UserSubject, u.name);
    assert forall g :: g in GroupsOf(s, u) || g in GroupsOf(t, u) ==> SameAt(s, t, g);
    assert GroupsOf(s, u) == GroupsOf(t, u);
    forall g | g in GroupsOf(s, u)
      ensures EffectiveForSubject(s, u.namespace, GroupSubject, g.name) == EffectiveForSubject(t, u.namespace, GroupSubject, g.name)
    {
      SubjectLocal(s, t, u.namespace, GroupSubject, g.name);
    }
    GroupsSame(s, t, u.namespace, Sorted(GroupsOf(s, u)));
  }
}
