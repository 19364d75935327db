/** The objects behind the auth API, and how the server looks them up. */
module AuthStore {
  import opened Text
  import opened KeyOrder
  import opened Naming
  import Rendering
  import Secrets

  datatype User = User(externalId: string, friendlyName: string)

  datatype Group = Group(externalId: string, description: string, members: seq<string>)

  datatype Statement = Statement(effect: string, resource: string, action: seq<string>)

  /** A policy, and also the template of one: then names and resources may hold the placeholder. */
  datatype Policy = Policy(name: string, statements: seq<Statement>)

  datatype Role = Role(description: string, policies: seq<Policy>)

  datatype Binding = Binding(kind: Kind, subject: string, role: string, repository: string)

  datatype Credential = Credential(
    user: string, accessKeyId: string, secretName: string, key: string, revoked: bool, expires: Option<int>)

  datatype Store = Store(
    users: map<Key, User>, groups: map<Key, Group>, roles: map<Key, Role>, bindings: map<Key, Binding>,
    credentials: map<Key, Credential>, secrets: map<Key, Secrets.Secret>)

  // ---- Users and groups ----

  /** The name a user or group goes by outside the cluster. */
  function PublicName(k: Key, externalId: string): string {
    if externalId != "" then externalId
    else if k.namespace == "" then k.name
    else k.namespace + ":" + k.name
  }

  function Username(k: Key, u: User): string { PublicName(k, u.externalId) }

  function GroupName(k: Key, g: Group): string { PublicName(k, g.externalId) }

  function FirstColon(s: string): (n: nat)
    ensures n <= |s|
    ensures n < |s| ==> s[n] == ':'
    ensures forall i :: 0 <= i < n ==> s[i] != ':'
  {
    if s == "" || s[0] == ':' then 0 else 1 + FirstColon(s[1..])
  }

  /** The key an identifier spells out, if it has a colon. */
  function SpelledKey(id: string): Option<Key> {
    var n := FirstColon(id);
    if n < |id| then Some(Key(id[..n], id[n + 1..])) else None
  }

  /** The users the index returns; users without an external id are not in it. */
  function IndexedUsers(s: Store, id: string): set<Key> {
    set k | k in s.users && id != "" && s.users[k].externalId == id
  }

  function NamedUsers(s: Store, id: string): set<Key> {
    set k | k in s.users && (Username(k, s.users[k]) == id || k.name == id)
  }

  /** Index, then the key spelled out, then a scan of all users. */
  function ResolveUser(s: Store, id: string): Option<Key> {
    var indexed := LeastOf(IndexedUsers(s, id));
    var spelled := SpelledKey(id);
    if indexed.Some? then indexed
    else if spelled.Some? && spelled.value in s.users then spelled
    else LeastOf(NamedUsers(s, id))
  }

  function GroupObject(id: string): string { ObjectName("group-" + id) }

  function IndexedGroups(s: Store, id: string): set<Key> {
    set k | k in s.groups && id != "" && s.groups[k].externalId == id
  }

  function NamedGroups(s: Store, id: string): set<Key> {
    set k | k in s.groups && (GroupName(k, s.groups[k]) == id || k.name == id || k.name == GroupObject(id))
  }

  function ResolveGroup(s: Store, id: string): Option<Key> {
    var indexed := LeastOf(IndexedGroups(s, id));
    var spelled := SpelledKey(id);
    if indexed.Some? then indexed
    else if spelled.Some? && spelled.value in s.groups then spelled
    else LeastOf(NamedGroups(s, id))
  }

  /** The groups that list a user, in its namespace. */
  function GroupsOf(s: Store, k: Key): set<Key> {
    set g | g in s.groups && g.namespace == k.namespace && k.name in s.groups[g].members
  }

  function Without(members: seq<string>, name: string): seq<string> {
    if members == [] then []
    else (if members[0] != name then [members[0]] else []) + Without(members[1..], name)
  }

  lemma {:induction false} WithoutAppend(members: seq<string>, m: string, name: string)
    ensures Without(members + [m], name) == Without(members, name) + if m != name then [m] else []
  {
    if members == [] {
      assert members + [m] == [m] && Without([m][1..], name) == [];
    } else {
      assert (members + [m])[1..] == members[1..] + [m];
      WithoutAppend(members[1..], m, name);
    }
  }

  // ---- Policies ----

  function RenderStatement(t: Statement, repository: string): Statement {
    t.(resource := Rendering.Render(t.resource, repository))
  }

  function RenderStatements(ts: seq<Statement>, repository: string): seq<Statement> {
    seq(|ts|, i requires 0 <= i < |ts| => RenderStatement(ts[i], repository))
  }

  /** A policy as it is shown for a repository: name and resources rendered, effects and actions as in the template. */
  predicate Shows(p: Policy, t: Policy, repository: string) {
    p.name == Rendering.Render(t.name, repository) && |p.statements| == |t.statements| &&
    forall j :: 0 <= j < |t.statements| ==>
      p.statements[j].effect == t.statements[j].effect && p.statements[j].action == t.statements[j].action &&
      p.statements[j].resource == Rendering.Render(t.statements[j].resource, repository)
  }

  predicate ShowsAll(ps: seq<Policy>, r: Role, repository: string) {
    |ps| == |r.policies| && forall i :: 0 <= i < |ps| ==> Shows(ps[i], r.policies[i], repository)
  }

  function RenderPolicy(t: Policy, repository: string): Policy {
    Policy(Rendering.Render(t.name, repository), RenderStatements(t.statements, repository))
  }

  function PoliciesFromRole(r: Role, repository: string): (ps: seq<Policy>)
    ensures |ps| == |r.policies|
  {
    seq(|r.policies|, i requires 0 <= i < |r.policies| => RenderPolicy(r.policies[i], repository))
  }

  /** The role holds a policy of that name for the repository. */
  predicate Holds(r: Role, id: string, repository: string) {
    exists i :: 0 <= i < |r.policies| && PoliciesFromRole(r, repository)[i].name == id
  }

  function RolesHolding(s: Store, id: string, repository: string): set<Key> {
    set k | k in s.roles && Holds(s.roles[k], id, repository)
  }

  /** Roles are searched in all namespaces. */
  function ResolveRole(s: Store, id: string, repository: string): Option<Key> {
    LeastOf(RolesHolding(s, id, repository))
  }

  function FirstNamed(ps: seq<Policy>, id: string): Option<Policy> {
    if ps == [] then None else if ps[0].name == id then Some(ps[0]) else FirstNamed(ps[1..], id)
  }

  function GetPolicy(s: Store, id: string): Option<Policy> {
    var k := ResolveRole(s, id, "*");
    if k.None? || k.value !in s.roles then None else FirstNamed(PoliciesFromRole(s.roles[k.value], "*"), id)
  }

  function SubjectBindings(s: Store, namespace: string, kind: Kind, name: string): set<Key> {
    set k | k in s.bindings && k.namespace == namespace && s.bindings[k].kind == kind && s.bindings[k].subject == name
  }

  function RoleBindings(s: Store, role: Key): set<Key> {
    set k | k in s.bindings && k.namespace == role.namespace && s.bindings[k].role == role.name
  }

  /** What one binding grants: the role is looked up in the namespace of the binding only. */
  function GrantedBy(s: Store, k: Key): seq<Policy> {
    if k in s.bindings && Key(k.namespace, s.bindings[k].role) in s.roles
    then PoliciesFromRole(s.roles[Key(k.namespace, s.bindings[k].role)], s.bindings[k].repository)
    else []
  }

  function Granted(s: Store, ks: seq<Key>): seq<Policy> {
    if ks == [] then [] else GrantedBy(s, ks[0]) + Granted(s, ks[1..])
  }

  function EffectiveForSubject(s: Store, namespace: string, kind: Kind, name: string): seq<Policy> {
    Granted(s, Sorted(SubjectBindings(s, namespace, kind, name)))
  }

  function EffectiveForGroups(s: Store, namespace: string, gs: seq<Key>): seq<Policy> {
    if gs == [] then []
    else EffectiveForSubject(s, namespace, GroupSubject, gs[0].name) + EffectiveForGroups(s, namespace, gs[1..])
  }

  function EffectiveForUser(s: Store, k: Key): seq<Policy> {
    EffectiveForSubject(s, k.namespace, UserSubject, k.name) +
    EffectiveForGroups(s, k.namespace, Sorted(GroupsOf(s, k)))
  }

  // ---- Credentials ----

  function UserCredentials(s: Store, user: Key): set<Key> {
    set k | k in s.credentials && k.namespace == user.namespace && s.credentials[k].user == user.name
  }

  function KeyHolders(s: Store, accessKeyId: string): set<Key> {
    set k | k in s.credentials && accessKeyId != "" && s.credentials[k].accessKeyId == accessKeyId
  }

  function ResolveCredential(s: Store, accessKeyId: string): Option<Key> { LeastOf(KeyHolders(s, accessKeyId)) }

  predicate Expired(c: Credential, now: int) { c.expires.Some? && c.expires.value <= now }

  predicate Usable(c: Credential, now: int) { !c.revoked && !Expired(c, now) }

  /** The credential as the writers of its Secret see it; its uid plays no role for them here. */
  function SecretSpec(k: Key, c: Credential): Secrets.Credential {
    Secrets.Credential(k.name, "", c.user, c.accessKeyId, c.secretName, c.key)
  }

  /** The secret key a credential's Secret holds; empty if there is none. */
  function StoredSecret(s: Store, k: Key, c: Credential): string {
    var at := Key(k.namespace, c.secretName);
    if at in s.secrets then Secrets.Value(s.secrets[at], Secrets.SecretKey(SecretSpec(k, c))) else ""
  }

  /** The part of a credential a caller gets to see. */
  datatype Served = Served(accessKeyId: string, secretKey: string, username: string)

  /** An access key with its secret, unless anything is missing; with an expected user, only if it is that user's. */
  function GetCredential(s: Store, now: int, accessKeyId: string, expected: string): Option<Served> {
    var r := ResolveCredential(s, accessKeyId);
    if r.None? || r.value !in s.credentials || !Usable(s.credentials[r.value], now) then None else
      var c := s.credentials[r.value];
      var u := Key(r.value.namespace, c.user);
      if u !in s.users || (expected != "" && Username(u, s.users[u]) != expected) || StoredSecret(s, r.value, c) == ""
      then None
      else Some(Served(c.accessKeyId, StoredSecret(s, r.value, c), Username(u, s.users[u])))
  }

  function AccessKeys(s: Store, now: int, ks: seq<Key>): seq<string> {
    if ks == [] then []
    else (if ks[0] in s.credentials && Usable(s.credentials[ks[0]], now) then [s.credentials[ks[0]].accessKeyId] else []) +
         AccessKeys(s, now, ks[1..])
  }

  lemma {:induction false} AccessKeysAppend(s: Store, now: int, ks: seq<Key>, k: Key)
    requires k in s.credentials
    ensures AccessKeys(s, now, ks + [k]) ==
            AccessKeys(s, now, ks) + if Usable(s.credentials[k], now) then [s.credentials[k].accessKeyId] else []
  {
    if ks == [] {
      assert ks + [k] == [k] && AccessKeys(s, now, [k][1..]) == [];
    } else {
      assert (ks + [k])[1..] == ks[1..] + [k];
      AccessKeysAppend(s, now, ks[1..], k);
    }
  }

  function ListCredentials(s: Store, now: int, id: string): Option<seq<string>> {
    var u := ResolveUser(s, id);
    if u.None? then None else Some(AccessKeys(s, now, Sorted(UserCredentials(s, u.value))))
  }

  /** The policies collected from the first bindings of a list, passing over those that are not in a set. */
  function Collected(s: Store, ks: seq<Key>, own: set<Key>, i: nat): seq<Policy>
    requires i <= |ks|
  {
    if i == 0 then []
    else Collected(s, ks, own, i - 1) + (if ks[i - 1] in own then GrantedBy(s, ks[i - 1]) else [])
  }

  lemma {:induction false} GrantedAppend(s: Store, ks: seq<Key>, k: Key)
    ensures Granted(s, ks + [k]) == Granted(s, ks) + GrantedBy(s, k)
  {
    if ks == [] {
      assert ks + [k] == [k] && Granted(s, [k][1..]) == [];
    } else {
      assert (ks + [k])[1..] == ks[1..] + [k];
      GrantedAppend(s, ks[1..], k);
    }
  }

  lemma {:induction false} CollectedIsGranted(s: Store, ks: seq<Key>, own: set<Key>, i: nat)
    requires i <= |ks|
    ensures Collected(s, ks, own, i) == Granted(s, Pick(ks[..i], own))
  {
    if i > 0 {
      CollectedIsGranted(s, ks, own, i - 1);
      assert ks[..i] == ks[..i - 1] + [ks[i - 1]];
      PickAppend(ks[..i - 1], ks[i - 1], own);
      if ks[i - 1] in own {
        GrantedAppend(s, Pick(ks[..i - 1], own), ks[i - 1]);
      } else {
        assert Pick(ks[..i], own) == Pick(ks[..i - 1], own);
      }
    }
  }

  // ---- What a lookup returns exists ----

  lemma ResolvedUserExists(s: Store, id: string)
    ensures var r := ResolveUser(s, id); r.Some? ==> r.value in s.users
  {
  }

  lemma ResolvedGroupExists(s: Store, id: string)
    ensures var r := ResolveGroup(s, id); r.Some? ==> r.value in s.groups
  {
  }

  lemma ResolvedRoleExists(s: Store, id: string, repository: string)
    ensures var r := ResolveRole(s, id, repository); r.Some? ==> r.value in s.roles && Holds(s.roles[r.value], id, repository)
  {
  }

  lemma ResolvedCredentialExists(s: Store, accessKeyId: string)
    ensures var r := ResolveCredential(s, accessKeyId);
            r.Some? ==> r.value in s.credentials && s.credentials[r.value].accessKeyId == accessKeyId
  {
  }
}
