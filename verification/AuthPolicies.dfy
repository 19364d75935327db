/** Writing a policy and reading it back, and what writing does to other policies. */
module AuthPolicies {
  import opened Text
  import opened KeyOrder
  import Rendering
  import opened AuthStore
  import opened AuthHandlers

  predicate PlainText(s: string) { !Rendering.Contains(s, Rendering.PLACEHOLDER) }

  predicate PlainResources(ts: seq<Statement>) { forall i :: 0 <= i < |ts| ==> PlainText(ts[i].resource) }

  /** No placeholder in the name or in a resource. */
  predicate Plain(p: Policy) { PlainText(p.name) && PlainResources(p.statements) }

  /** Exactly the policies without a placeholder are shown as they were written. */
  lemma ShownAsWritten(p: Policy)
    ensures RenderPolicy(p, "*") == p <==> Plain(p)
  {
    Rendering.RenderFixpoints(p.name);
    var ts := p.statements;
    var rs := RenderStatements(ts, "*");
    forall i | 0 <= i < |ts| ensures rs[i] == ts[i] <==> PlainText(ts[i].resource) {
      Rendering.RenderFixpoints(ts[i].resource);
      assert rs[i] == RenderStatement(ts[i], "*");
    }
    if PlainResources(ts) { assert rs == ts; }
    if rs == ts { assert forall i :: 0 <= i < |ts| ==> rs[i] == ts[i]; }
  }

  /** A shown name never holds the placeholder. */
  lemma ShownNamesArePlain(r: Role, id: string)
    requires Holds(r, id, "*")
    ensures PlainText(id)
  {
    var i :| 0 <= i < |r.policies| && PoliciesFromRole(r, "*")[i].name == id;
    Rendering.StarApart();
    Rendering.RenderComplete(r.policies[i].name, "*", "*");
  }

  lemma {:induction false} FirstNamedFinds(ps: seq<Policy>, id: string)
    ensures FirstNamed(ps, id).Some? <==> exists i :: 0 <= i < |ps| && ps[i].name == id
    ensures FirstNamed(ps, id).Some? ==> FirstNamed(ps, id).value in ps && FirstNamed(ps, id).value.name == id
  {
    if ps != [] {
      FirstNamedFinds(ps[1..], id);
      if exists i :: 0 <= i < |ps| && ps[i].name == id {
        var i :| 0 <= i < |ps| && ps[i].name == id;
        if i > 0 { assert ps[1..][i - 1].name == id; }
      }
      if FirstNamed(ps[1..], id).Some? {
        var i :| 0 <= i < |ps[1..]| && ps[1..][i].name == id;
        assert ps[i + 1].name == id;
      }
    }
  }

  /** A policy is found exactly when some role holds it, and it has the name asked for. */
  lemma PolicyFound(s: Store, id: string)
    ensures GetPolicy(s, id).Some? <==> RolesHolding(s, id, "*") != {}
    ensures GetPolicy(s, id).Some? ==> GetPolicy(s, id).value.name == id
  {
    if RolesHolding(s, id, "*") != {} {
      ResolvedRoleExists(s, id, "*");
      FirstNamedFinds(PoliciesFromRole(s.roles[ResolveRole(s, id, "*").value], "*"), id);
    }
  }

  /** The store after a policy was written under a key. */
  function Written(s: Store, k: Key, p: Policy): Store { s.(roles := s.roles[k := PolicyRole(p)]) }

  lemma OwnRole(p: Policy, id: string)
    ensures Holds(PolicyRole(p), id, "*") <==> RenderPolicy(p, "*").name == id
    ensures PoliciesFromRole(PolicyRole(p), "*") == [RenderPolicy(p, "*")]
  {
    assert PoliciesFromRole(PolicyRole(p), "*")[0] == RenderPolicy(p, "*");
  }

  /** A role that comes before this key in the list shows a policy of that name. */
  predicate HeldBefore(s: Store, k: Key, id: string) {
    exists l :: l in s.roles && KeyBefore(l, k) && Holds(s.roles[l], id, "*")
  }

  lemma OwnIsFirst(s: Store, k: Key, p: Policy)
    requires !HeldBefore(s, k, p.name) && PlainText(p.name)
    ensures ResolveRole(Written(s, k, p), p.name, "*") == Some(k)
  {
    var t := Written(s, k, p);
    Rendering.RenderFixpoints(p.name);
    OwnRole(p, p.name);
    var holding := RolesHolding(t, p.name, "*");
    assert k in holding;
    var l := Least(holding);
    assert l == k || KeyBefore(l, k);
    KeyBeforeTotal(k, l);
  }

  lemma NameWithPlaceholderIsLost(s: Store, id: string)
    requires !PlainText(id)
    ensures GetPolicy(s, id) == None
  {
    forall k | k in s.roles && Holds(s.roles[k], id, "*") ensures false { ShownNamesArePlain(s.roles[k], id); }
    assert RolesHolding(s, id, "*") == {};
  }

  /** Reading a written policy gives it back exactly when it has no placeholder, if no earlier role shows its name. */
  lemma WriteThenGet(s: Store, home: string, p: Policy, fallback: string, status: int)
    requires Or(p.name, fallback) != "" && !HeldBefore(s, PolicyKey(home, Or(p.name, fallback)), Or(p.name, fallback))
    ensures var named, t := p.(name := Or(p.name, fallback)), WritePolicy(s, home, p, fallback, status).store;
            GetPolicy(t, named.name) == Some(named) <==> Plain(named)
  {
    var named := p.(name := Or(p.name, fallback));
    WrittenThenGet(s, PolicyKey(home, named.name), named);
  }

  lemma WrittenThenGet(s: Store, k: Key, p: Policy)
    requires !HeldBefore(s, k, p.name)
    ensures GetPolicy(Written(s, k, p), p.name) == Some(p) <==> Plain(p)
  {
    ShownAsWritten(p);
    if PlainText(p.name) {
      OwnIsFirst(s, k, p);
      OwnRole(p, p.name);
      Rendering.RenderFixpoints(p.name);
      assert GetPolicy(Written(s, k, p), p.name) == Some(RenderPolicy(p, "*"));
    } else {
      NameWithPlaceholderIsLost(Written(s, k, p), p.name);
    }
  }

  lemma SameLeast(a: set<Key>, b: set<Key>, k: Key)
    requires k in a && IsLeast(k, a) && IsLeast(k, b)
    ensures LeastOf(a) == LeastOf(b) == Some(k)
  {
    LeastUnique(k, Least(a), a);
    LeastUnique(k, Least(b), b);
  }

  /** If an earlier role shows the name, that one is read, and writing makes no difference. */
  lemma EarlierRoleHides(s: Store, k: Key, p: Policy, id: string)
    requires HeldBefore(s, k, id)
    ensures GetPolicy(Written(s, k, p), id) == GetPolicy(s, id)
  {
    var t := Written(s, k, p);
    var l :| l in s.roles && KeyBefore(l, k) && Holds(s.roles[l], id, "*");
    KeyBeforeTotal(k, l);
    var a, b := RolesHolding(s, id, "*"), RolesHolding(t, id, "*");
    assert l in a && l in b;
    var m := Least(a);
    if m != l { KeyBeforeTransitive(m, l, k); }
    KeyBeforeTotal(k, m);
    assert KeyBefore(m, k) && m != k && m in b;
    forall n | n in b ensures n == m || KeyBefore(m, n) { if n != k { assert n in a; } }
    SameLeast(a, b, m);
  }

  /** A policy whose name the written role shows neither before nor after is read as before. */
  lemma OtherPoliciesStay(s: Store, home: string, p: Policy, fallback: string, status: int, id: string)
    requires var named := p.(name := Or(p.name, fallback));
             var k := PolicyKey(home, named.name);
             !Holds(PolicyRole(named), id, "*") && (k in s.roles ==> !Holds(s.roles[k], id, "*"))
    ensures GetPolicy(WritePolicy(s, home, p, fallback, status).store, id) == GetPolicy(s, id)
  {
    var named := p.(name := Or(p.name, fallback));
    WrittenElsewhere(s, PolicyKey(home, named.name), named, id);
  }

  lemma WrittenElsewhere(s: Store, k: Key, p: Policy, id: string)
    requires !Holds(PolicyRole(p), id, "*") && (k in s.roles ==> !Holds(s.roles[k], id, "*"))
    ensures GetPolicy(Written(s, k, p), id) == GetPolicy(s, id)
  {
    var t := Written(s, k, p);
    assert t.roles[k] == PolicyRole(p);
    assert RolesHolding(t, id, "*") == RolesHolding(s, id, "*");
    ResolvedRoleExists(s, id, "*");
  }

  /** Deleting a policy takes its role and exactly the bindings to that role in its namespace. */
  lemma DeletePolicyIsClean(s: Store, id: string)
    requires ResolveRole(s, id, "*").Some?
    ensures var r, t := ResolveRole(s, id, "*").value, DeletePolicy(s, id).store;
            t.roles == s.roles - {r} && t == s.(roles := t.roles, bindings := t.bindings) &&
            (forall k :: k in t.bindings <==> k in s.bindings && !(k.namespace == r.namespace && s.bindings[k].role == r.name)) &&
            (forall k :: k in t.bindings ==> t.bindings[k] == s.bindings[k])
  {
  }

  /** A role holds a policy when one of its templates shows that name for the repository. */
  lemma HoldsExactly(r: Role, id: string, repository: string)
    ensures Holds(r, id, repository) <==> exists i :: 0 <= i < |r.policies| && Rendering.Render(r.policies[i].name, repository) == id
  {
    assert forall i :: 0 <= i < |r.policies| ==> PoliciesFromRole(r, repository)[i].name == Rendering.Render(r.policies[i].name, repository);
  }

  /** The role found is the first in the list that shows the name, in whatever namespace. */
  lemma FirstRoleFound(s: Store, id: string, repository: string)
    ensures var r := ResolveRole(s, id, repository);
            if r.Some?
            then r.value in s.roles && Holds(s.roles[r.value], id, repository) &&
                 forall k :: k in s.roles && Holds(s.roles[k], id, repository) ==> k == r.value || KeyBefore(r.value, k)
            else forall k :: k in s.roles ==> !Holds(s.roles[k], id, repository)
  {
    if ResolveRole(s, id, repository).None? {
      forall k | k in s.roles && Holds(s.roles[k], id, repository) ensures k in RolesHolding(s, id, repository) {}
    }
  }

  predicate FirstOf(ps: seq<Policy>, id: string, p: Policy) {
    exists i :: 0 <= i < |ps| && ps[i] == p && p.name == id && forall j :: 0 <= j < i ==> ps[j].name != id
  }

  /** Of several policies of one name the first counts. */
  lemma {:induction false} FirstNamedIsFirst(ps: seq<Policy>, id: string)
    ensures FirstNamed(ps, id).Some? ==> FirstOf(ps, id, FirstNamed(ps, id).value)
  {
    if ps != [] {
      if ps[0].name == id {
        assert FirstOf(ps, id, ps[0]);
      } else {
        FirstNamedIsFirst(ps[1..], id);
        if FirstNamed(ps, id).Some? {
          var i :| 0 <= i < |ps| - 1 && ps[1..][i] == FirstNamed(ps, id).value && forall j :: 0 <= j < i ==> ps[1..][j].name != id;
          assert ps[i + 1] == ps[1..][i];
          forall j | 0 <= j < i + 1 ensures ps[j].name != id { if j > 0 { assert ps[j] == ps[1..][j - 1]; } }
        }
      }
    }
  }

  /** A deleted policy is gone exactly when no other role shows its name. */
  lemma DeleteThenGet(s: Store, id: string)
    requires ResolveRole(s, id, "*").Some?
    ensures GetPolicy(DeletePolicy(s, id).store, id) == None <==>
            RolesHolding(s, id, "*") == {ResolveRole(s, id, "*").value}
  {
    var k, t := ResolveRole(s, id, "*").value, DeletePolicy(s, id).store;
    assert RolesHolding(t, id, "*") == RolesHolding(s, id, "*") - {k};
    PolicyFound(t, id);
  }
}
