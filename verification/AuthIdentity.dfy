/** Users are told apart by their names, and looking a user up by its name finds it. */
module AuthIdentity {
  import opened Text
  import opened KeyOrder
  import opened Naming
  import opened AuthStore
  import opened AuthHandlers

  predicate SameName(s: Store, k: Key, l: Key)
    requires k in s.users && l in s.users
  {
    Username(k, s.users[k]) == Username(l, s.users[l])
  }

  /** No two users have the same name. */
  predicate NamesDistinct(s: Store) { forall k, l :: k in s.users && l in s.users && SameName(s, k, l) ==> k == l }

  /** A namespace as the cluster allows it, as far as it matters here. */
  predicate PlainNamespace(namespace: string) { namespace != "" && ':' !in namespace }

  predicate PlainUsers(s: Store) { forall k :: k in s.users ==> PlainNamespace(k.namespace) && k.name != "" }

  /** Looking up any user by its name finds that user. */
  predicate LookupAgrees(s: Store) {
    forall k :: k in s.users ==> ResolveUser(s, Username(k, s.users[k])) == Some(k)
  }

  lemma OnlyOne(k: Key)
    ensures LeastOf({k}) == Some(k)
  {
  }

  lemma SpelledKeyOf(k: Key)
    requires ':' !in k.namespace
    ensures SpelledKey(k.namespace + ":" + k.name) == Some(k)
  {
    var id := k.namespace + ":" + k.name;
    var n := FirstColon(id);
    assert id[|k.namespace|] == ':';
    assert forall i :: 0 <= i < |k.namespace| ==> id[i] == k.namespace[i];
    assert id[..n] == k.namespace && id[n + 1..] == k.name;
  }

  /** With an external id, the index finds the user; without one, the key its name spells out does. */
  lemma NameResolves(s: Store, k: Key)
    requires NamesDistinct(s) && PlainUsers(s) && k in s.users
    ensures ResolveUser(s, Username(k, s.users[k])) == Some(k)
  {
    var id := Username(k, s.users[k]);
    forall l | l in IndexedUsers(s, id) ensures l == k { assert SameName(s, l, k); }
    if s.users[k].externalId != "" {
      assert IndexedUsers(s, id) == {k};
      OnlyOne(k);
    } else {
      assert k !in IndexedUsers(s, id);
      assert IndexedUsers(s, id) == {};
      SpelledKeyOf(k);
    }
  }

  /** Lookup by name agrees with the users exactly when their names are distinct. */
  lemma LookupIffDistinct(s: Store)
    requires PlainUsers(s)
    ensures LookupAgrees(s) <==> NamesDistinct(s)
  {
    if NamesDistinct(s) {
      forall k | k in s.users ensures ResolveUser(s, Username(k, s.users[k])) == Some(k) { NameResolves(s, k); }
    }
    if LookupAgrees(s) {
      forall k, l | k in s.users && l in s.users && SameName(s, k, l) ensures k == l {
        assert ResolveUser(s, Username(k, s.users[k])) == Some(k);
        assert ResolveUser(s, Username(l, s.users[l])) == Some(l);
      }
    }
  }

  /** An identifier that is some user's name always resolves. */
  lemma TakenNameResolves(s: Store, k: Key)
    requires k in s.users
    ensures ResolveUser(s, Username(k, s.users[k])).Some?
  {
    assert k in NamedUsers(s, Username(k, s.users[k]));
  }

  /** Some user has, as its external id, the name a user at this key without an external id goes by. */
  predicate Shadowed(s: Store, k: Key) {
    exists l :: l in s.users && s.users[l].externalId == k.namespace + ":" + k.name
  }

  function Stored(home: string, r: UserRequest): User { User(RequestedId(r), Or(r.friendlyName, RequestedName(r))) }

  /** Whether the request stores a new user. */
  predicate Creates(s: Store, home: string, r: UserRequest) {
    RequestedName(r) != "" && ResolveUser(s, RequestedId(r)).None? && RequestedKey(home, r) !in s.users
  }

  lemma CreateUserStores(s: Store, home: string, r: UserRequest)
    ensures CreateUser(s, home, r).store ==
            if Creates(s, home, r) then s.(users := s.users[RequestedKey(home, r) := Stored(home, r)]) else s
  {
  }

  lemma PlainNamesSplit(k: Key, l: Key)
    requires ':' !in k.namespace && ':' !in l.namespace && k.namespace + ":" + k.name == l.namespace + ":" + l.name
    ensures k == l
  {
    SpelledKeyOf(k);
    SpelledKeyOf(l);
  }

  /** A user without an external id clashes only with the external id of another. */
  lemma AddUnnamed(s: Store, k: Key, u: User)
    requires NamesDistinct(s) && PlainUsers(s) && PlainNamespace(k.namespace) && k !in s.users && u.externalId == ""
    ensures NamesDistinct(s.(users := s.users[k := u])) <==> !Shadowed(s, k)
  {
    var t := s.(users := s.users[k := u]);
    assert Username(k, u) == k.namespace + ":" + k.name;
    if Shadowed(s, k) {
      var l :| l in s.users && s.users[l].externalId == k.namespace + ":" + k.name;
      assert SameName(t, k, l);
    } else {
      forall l | l in s.users ensures !SameName(t, k, l) {
        if s.users[l].externalId == "" && SameName(t, k, l) { PlainNamesSplit(k, l); }
      }
      OneMore(s, k, u);
    }
  }

  lemma OneMore(s: Store, k: Key, u: User)
    requires NamesDistinct(s) && k !in s.users
    requires forall l :: l in s.users ==> Username(l, s.users[l]) != Username(k, u)
    ensures NamesDistinct(s.(users := s.users[k := u]))
  {
    var t := s.(users := s.users[k := u]);
    forall l, m | l in t.users && m in t.users && SameName(t, l, m) ensures l == m {
      if l != k && m != k { assert SameName(s, l, m); }
    }
  }

  /** A user with an external id that did not resolve clashes with none. */
  lemma AddNamed(s: Store, k: Key, u: User)
    requires NamesDistinct(s) && k !in s.users && u.externalId != "" && ResolveUser(s, u.externalId).None?
    ensures NamesDistinct(s.(users := s.users[k := u]))
  {
    forall l | l in s.users ensures Username(l, s.users[l]) != Username(k, u) { TakenNameResolves(s, l); }
    OneMore(s, k, u);
  }

  /** Creating a user keeps names distinct, except one with a blank external id whose name another has as external id. */
  lemma CreateUserKeepsNames(s: Store, home: string, r: UserRequest)
    requires NamesDistinct(s) && PlainUsers(s) && PlainNamespace(Or(r.namespace, home))
    ensures NamesDistinct(CreateUser(s, home, r).store) <==>
            !(Creates(s, home, r) && RequestedId(r) == "" && Shadowed(s, RequestedKey(home, r)))
  {
    CreateUserStores(s, home, r);
    if Creates(s, home, r) {
      if RequestedId(r) == "" {
        AddUnnamed(s, RequestedKey(home, r), Stored(home, r));
      } else {
        AddNamed(s, RequestedKey(home, r), Stored(home, r));
      }
    }
  }

  /** A user `a` with the external id "n:b", and a request for "b" with a blank external id. */
  const SHADOW_STORE := Store(map[Key("n", "a") := User("n:b", "")], map[], map[], map[], map[], map[])
  const BLANK_REQUEST := UserRequest("b", " ", "", "")

  lemma BlankIdIsTrimmed()
    ensures RequestedName(BLANK_REQUEST) == "b" && RequestedId(BLANK_REQUEST) == ""
  {
    TrimRightDone("b", Space);
    TrimLeftAll(" ", "", Space);
    assert " " + "" == " ";
  }

  /** The exception is real. */
  lemma BlankIdsCollide()
    ensures NamesDistinct(SHADOW_STORE) && !NamesDistinct(CreateUser(SHADOW_STORE, "n", BLANK_REQUEST).store)
  {
    var s := SHADOW_STORE;
    BlankIdIsTrimmed();
    SafeFullName("b");
    assert RequestedKey("n", BLANK_REQUEST) == Key("n", "b");
    assert s.users[Key("n", "a")].externalId == "n" + ":" + "b";
    assert IndexedUsers(s, "") == {} && NamedUsers(s, "") == {};
    CreateUserKeepsNames(s, "n", BLANK_REQUEST);
  }

  lemma CreateUserKeepsPlain(s: Store, home: string, r: UserRequest)
    requires PlainUsers(s) && PlainNamespace(Or(r.namespace, home))
    ensures PlainUsers(CreateUser(s, home, r).store)
  {
    CreateUserStores(s, home, r);
    ObjectNameValid(RequestedName(r));
    assert RequestedKey(home, r).name != "";
  }

  /** A created user is found under the external id it was created with. */
  lemma CreatedUserIsFound(s: Store, home: string, r: UserRequest)
    requires NamesDistinct(s) && PlainUsers(s) && PlainNamespace(Or(r.namespace, home))
    requires Creates(s, home, r) && RequestedId(r) != ""
    ensures var a := CreateUser(s, home, r); a.subject.Some? && ResolveUser(a.store, RequestedId(r)) == a.subject
  {
    var t := CreateUser(s, home, r).store;
    CreateUserKeepsNames(s, home, r);
    CreateUserKeepsPlain(s, home, r);
    CreateUserStores(s, home, r);
    NameResolves(t, RequestedKey(home, r));
  }

  /** Asking for the same user again gives the same answer and changes nothing. */
  lemma CreateUserTwice(s: Store, home: string, r: UserRequest)
    requires NamesDistinct(s) && PlainUsers(s) && PlainNamespace(Or(r.namespace, home)) && RequestedId(r) != ""
    ensures var a := CreateUser(s, home, r); CreateUser(a.store, home, r) == a
  {
    CreateUserStores(s, home, r);
    if Creates(s, home, r) { CreatedUserIsFound(s, home, r); }
  }

  // ---- What a request to create a user is answered ----

  /** The user a request asks for, field by field. */
  predicate AskedFor(k: Key, u: User, home: string, r: UserRequest) {
    k.namespace == (if r.namespace != "" then r.namespace else home) && k.name == ObjectName(TrimSpace(r.username)) &&
    u.externalId == (if r.externalId != "" then TrimSpace(r.externalId) else TrimSpace(r.username)) &&
    u.friendlyName == if r.friendlyName != "" then r.friendlyName else TrimSpace(r.username)
  }

  lemma StoredAsAsked(home: string, r: UserRequest)
    ensures AskedFor(RequestedKey(home, r), Stored(home, r), home, r)
  {
    TrimTwice(r.username, Space);
  }

  /** White space around a name is dropped, and only that. */
  lemma NameIsTrimmed(front: string, name: string, end: string)
    requires name != "" && !Space(name[0]) && !Space(name[|name| - 1])
    requires (forall i :: 0 <= i < |front| ==> Space(front[i])) && forall i :: 0 <= i < |end| ==> Space(end[i])
    ensures TrimSpace(front + name + end) == name && TrimSpace(end) == ""
  {
    TrimExactly(front, name, end, Space);
    TrimLeftAll(end, "", Space);
    assert end + "" == end;
  }

  lemma NewIdResolves(s: Store, k: Key, u: User)
    requires u.externalId != "" && ResolveUser(s, u.externalId).None?
    ensures ResolveUser(AddUser(s, k, u), u.externalId) == Some(k)
  {
    var t := AddUser(s, k, u);
    assert IndexedUsers(s, u.externalId) == {};
    forall l | l in IndexedUsers(t, u.externalId) ensures l == k { assert l != k ==> l in IndexedUsers(s, u.externalId); }
    assert IndexedUsers(t, u.externalId) == {k};
    OnlyOne(k);
  }

  /** The object name is taken by a user that goes neither by the name nor by the id asked for, and nobody goes by the id. */
  predicate Conflicts(s: Store, home: string, r: UserRequest) {
    TrimSpace(r.username) != "" && ResolveUser(s, RequestedId(r)).None? && RequestedKey(home, r) in s.users &&
    Username(RequestedKey(home, r), s.users[RequestedKey(home, r)]) !in {TrimSpace(r.username), RequestedId(r)}
  }

  /**
   A request is refused with 400 exactly for a blank name and with 409 exactly for a conflict, and then nothing changes;
   otherwise the answer is 201. A user is added exactly if nobody goes by the id and the object name is free, and then as
   asked for.
  */
  lemma CreateUserAnswers(s: Store, home: string, r: UserRequest)
    ensures var a := CreateUser(s, home, r);
            (a.status == 400 <==> TrimSpace(r.username) == "") && (a.status == 409 <==> Conflicts(s, home, r)) &&
            (a.status in {400, 409} ==> a.store == s && a.subject == None) && a.status in {201, 400, 409}
    ensures var a, k := CreateUser(s, home, r), RequestedKey(home, r);
            if TrimSpace(r.username) != "" && ResolveUser(s, RequestedId(r)).None? && k !in s.users
            then a.subject == Some(k) && k in a.store.users && AskedFor(k, a.store.users[k], home, r) &&
                 a.store.users - {k} == s.users && a.store == s.(users := a.store.users)
            else a.store == s
  {
    StoredAsAsked(home, r);
    CreateUserStores(s, home, r);
  }

  /** The user answered with 201 is stored and goes by what was asked for: by the id when looked up, or by the name. */
  lemma CreatedGoesByRequest(s: Store, home: string, r: UserRequest)
    requires CreateUser(s, home, r).status == 201 && (Creates(s, home, r) ==> RequestedId(r) != "")
    ensures var a := CreateUser(s, home, r);
            a.subject.Some? && a.subject.value in a.store.users &&
            (ResolveUser(a.store, RequestedId(r)) == a.subject ||
             Username(a.subject.value, a.store.users[a.subject.value]) == RequestedName(r))
  {
    ResolvedUserExists(s, RequestedId(r));
    CreateUserStores(s, home, r);
    var k := RequestedKey(home, r);
    if Creates(s, home, r) {
      NewIdResolves(s, k, Stored(home, r));
    } else if ResolveUser(s, RequestedId(r)).None? {
      TakenNameResolves(s, k);
    }
  }

  /** A request without white space for an external id, into a namespace the cluster can have. */
  predicate Sound(home: string, q: Request) {
    q.PostUser? ==> RequestedId(q.user) != "" && PlainNamespace(Or(q.user.namespace, home))
  }

  predicate FewerUsers(s: Store, t: Store) { forall k :: k in t.users ==> k in s.users && t.users[k] == s.users[k] }

  lemma FewerKeepsNames(s: Store, t: Store)
    requires FewerUsers(s, t) && NamesDistinct(s) && PlainUsers(s)
    ensures NamesDistinct(t) && PlainUsers(t)
  {
    forall k, l | k in t.users && l in t.users && SameName(t, k, l) ensures k == l { assert SameName(s, k, l); }
  }

  lemma OthersAddNoUser(s: Store, home: string, q: Request)
    requires !q.PostUser? && !q.PostCredential? && !q.PostGroup? && !q.PutPolicy?
    ensures FewerUsers(s, Handle(s, home, q))
  {
  }

  lemma CredentialAddsNoUser(s: Store, id: string, accessKeyId: string, secretKey: string)
    ensures CreateCredential(s, id, accessKeyId, secretKey).store.users == s.users
  {
    var u := ResolveUser(s, id);
    if u.Some? { IssueFrame(s, CredentialKey(u.value, accessKeyId), NewCredential(u.value, accessKeyId), secretKey); }
  }

  lemma StepKeepsNames(s: Store, home: string, q: Request)
    requires NamesDistinct(s) && PlainUsers(s) && Sound(home, q)
    ensures var t := Handle(s, home, q); NamesDistinct(t) && PlainUsers(t)
  {
    match q
    case PostUser(r) =>
      CreateUserKeepsNames(s, home, r);
      CreateUserKeepsPlain(s, home, r);
    case PostGroup(g) =>
      CreateGroupFrame(s, home, g);
      FewerKeepsNames(s, Handle(s, home, q));
    case PutPolicy(p, fallback, status) =>
      WritePolicyFrame(s, home, p, fallback, status);
      FewerKeepsNames(s, Handle(s, home, q));
    case PostCredential(id, requested, secretKey, random) =>
      CredentialAddsNoUser(s, id, AccessKeyId(requested, random), secretKey);
      FewerKeepsNames(s, Handle(s, home, q));
    case _ =>
      OthersAddNoUser(s, home, q);
      FewerKeepsNames(s, Handle(s, home, q));
  }

  /** Over any run of such requests every stored user is found by its name, whichever way of looking it up answers. */
  lemma {:induction false} RunKeepsNames(s: Store, home: string, qs: seq<Request>)
    requires NamesDistinct(s) && PlainUsers(s) && forall q :: q in qs ==> Sound(home, q)
    ensures NamesDistinct(Run(s, home, qs)) && PlainUsers(Run(s, home, qs)) && LookupAgrees(Run(s, home, qs))
    decreases |qs|
  {
    if qs == [] {
      LookupIffDistinct(s);
    } else {
      StepKeepsNames(s, home, qs[0]);
      RunKeepsNames(Handle(s, home, qs[0]), home, qs[1..]);
    }
  }
}
