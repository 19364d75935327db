/** Credentials: what is created is served, access keys stay unique, and what is revoked stays revoked. */
module AuthCredentials {
  import opened Text
  import opened KeyOrder
  import opened Naming
  import Secrets
  import opened AuthStore
  import opened AuthLookups
  import opened AuthHandlers
  import opened AuthReferences

  // ---- Create, then look up ----

  /** The object that carries the name of a new credential: the one that is there, or the new one. */
  function Carrier(s: Store, k: Key, c: Credential): Credential { if k in s.credentials then s.credentials[k] else c }

  /** No credential but the one at this key has the access key. */
  predicate OnlyAt(s: Store, k: Key, accessKeyId: string) {
    forall l :: l in s.credentials && s.credentials[l].accessKeyId == accessKeyId ==> l == k
  }

  /** The credential can be used, with that access key, by a user of that name. */
  predicate Serves(s: Store, k: Key, c: Credential, now: int, accessKeyId: string, username: string) {
    c.accessKeyId == accessKeyId && Usable(c, now) &&
    Key(k.namespace, c.user) in s.users && Username(Key(k.namespace, c.user), s.users[Key(k.namespace, c.user)]) == username
  }

  lemma IssuedSecret(s: Store, k: Key, c: Credential, secretKey: string)
    requires secretKey != ""
    ensures var t := Issue(s, k, c, secretKey);
            k in t.credentials && t.credentials[k] == Carrier(s, k, c) &&
            t.credentials == s.credentials[k := Carrier(s, k, c)] && StoredSecret(t, k, Carrier(s, k, c)) == secretKey
  {
    var made, e := AddCredential(s, k, c), Carrier(s, k, c);
    var at := Key(k.namespace, e.secretName);
    if at in s.secrets { Secrets.ServerSets(s.secrets[at], SecretSpec(k, e), secretKey, ""); }
    assert made.credentials == s.credentials[k := e];
    assert Issue(s, k, c, secretKey).secrets[at] == SecretWith(made, k, e, secretKey);
  }

  lemma HoldersAfter(s: Store, k: Key, c: Credential, secretKey: string, accessKeyId: string)
    requires secretKey != "" && accessKeyId != "" && OnlyAt(s, k, accessKeyId)
    ensures KeyHolders(Issue(s, k, c, secretKey), accessKeyId) ==
            if Carrier(s, k, c).accessKeyId == accessKeyId then {k} else {}
  {
    IssuedSecret(s, k, c, secretKey);
  }

  lemma ServedByCarrier(t: Store, k: Key, e: Credential, secretKey: string, now: int, accessKeyId: string, name: string, expected: string)
    requires k in t.credentials && t.credentials[k] == e && secretKey != "" && StoredSecret(t, k, e) == secretKey
    requires KeyHolders(t, accessKeyId) == if e.accessKeyId == accessKeyId then {k} else {}
    ensures GetCredential(t, now, accessKeyId, expected) == Some(Served(accessKeyId, secretKey, name)) <==>
            (expected == "" || expected == name) && Serves(t, k, e, now, accessKeyId, name)
  {
    if e.accessKeyId == accessKeyId { assert Least({k}) == k; }
  }

  lemma IssueThenGet(s: Store, k: Key, c: Credential, secretKey: string, now: int, accessKeyId: string, name: string, expected: string)
    requires secretKey != "" && accessKeyId != "" && OnlyAt(s, k, accessKeyId)
    ensures GetCredential(Issue(s, k, c, secretKey), now, accessKeyId, expected) == Some(Served(accessKeyId, secretKey, name)) <==>
            (expected == "" || expected == name) && Serves(s, k, Carrier(s, k, c), now, accessKeyId, name)
  {
    IssuedSecret(s, k, c, secretKey);
    HoldersAfter(s, k, c, secretKey, accessKeyId);
    IssueFrame(s, k, c, secretKey);
    ServedByCarrier(Issue(s, k, c, secretKey), k, Carrier(s, k, c), secretKey, now, accessKeyId, name, expected);
  }

  /**
   After creating a credential with a given secret, looking up the access key returns that secret and that user exactly
   when the object name was free, or its holder is a live credential with the same access key, for a user of that name.
  */
  lemma CreateThenGet(s: Store, id: string, accessKeyId: string, secretKey: string, now: int, expected: string)
    requires ResolveUser(s, id).Some? && secretKey != "" && accessKeyId != ""
    requires OnlyAt(s, CredentialKey(ResolveUser(s, id).value, accessKeyId), accessKeyId)
    ensures var u := ResolveUser(s, id).value;
            var k, answer := CredentialKey(u, accessKeyId), CreateCredential(s, id, accessKeyId, secretKey);
            answer.status == 201 && answer.served.Some? &&
            (GetCredential(answer.store, now, accessKeyId, expected) == answer.served <==>
             (expected == "" || expected == Username(u, s.users[u])) &&
             (k !in s.credentials || Serves(s, k, s.credentials[k], now, accessKeyId, Username(u, s.users[u]))))
  {
    ResolvedUserExists(s, id);
    var u := ResolveUser(s, id).value;
    NewServes(s, u, accessKeyId, now);
    IssueThenGet(s, CredentialKey(u, accessKeyId), NewCredential(u, accessKeyId), secretKey, now, accessKeyId, Username(u, s.users[u]), expected);
  }

  lemma NewServes(s: Store, u: Key, accessKeyId: string, now: int)
    requires u in s.users
    ensures Serves(s, CredentialKey(u, accessKeyId), NewCredential(u, accessKeyId), now, accessKeyId, Username(u, s.users[u]))
  {
    assert u == Key(u.namespace, u.name);
  }

  /** Upper and lower case make no difference to object names, but they do to access keys. */
  lemma CaseCollides(u: Key, accessKeyId: string)
    ensures CredentialKey(u, Lower(accessKeyId)) == CredentialKey(u, accessKeyId)
  {
    var a, b := "lakefs-cred-" + accessKeyId, "lakefs-cred-" + Lower(accessKeyId);
    assert Lower(a) == Lower(b) by {
      forall i | 0 <= i < |a| ensures Lower(a)[i] == Lower(b)[i] {
        if i >= 12 { LowerTwice(accessKeyId[i - 12]); }
      }
    }
  }

  lemma LowerTwice(c: char)
    ensures LowerChar(LowerChar(c)) == LowerChar(c)
  {
  }

  /**
   Where two access keys share an object name, creating the second one replaces the secret of the first, whoever of the
   namespace it belongs to, and the second one is not served.
  */
  lemma CollidingKeyOverwrites(s: Store, id: string, a: string, b: string, secretKey: string, now: int, owner: string)
    requires ResolveUser(s, id).Some? && secretKey != "" && a != b && a != "" && b != ""
    requires CredentialKey(ResolveUser(s, id).value, a) == CredentialKey(ResolveUser(s, id).value, b)
    requires OnlyAt(s, CredentialKey(ResolveUser(s, id).value, a), a) && KeyHolders(s, b) == {}
    requires var k := CredentialKey(ResolveUser(s, id).value, a);
             k in s.credentials && Serves(s, k, s.credentials[k], now, a, owner)
    ensures var answer := CreateCredential(s, id, b, secretKey);
            var name := Username(ResolveUser(s, id).value, s.users[ResolveUser(s, id).value]);
            answer.served == Some(Served(b, secretKey, name)) && GetCredential(answer.store, now, b, "") == None &&
            GetCredential(answer.store, now, a, "") == Some(Served(a, secretKey, owner))
  {
    var u := ResolveUser(s, id).value;
    var k, c := CredentialKey(u, a), NewCredential(u, b);
    IssueThenGet(s, k, c, secretKey, now, a, owner, "");
    assert forall l :: l in s.credentials && s.credentials[l].accessKeyId == b ==> l in KeyHolders(s, b);
    HoldersAfter(s, k, c, secretKey, b);
  }

  // ---- What is listed ----

  lemma {:induction false} ListedKeys(s: Store, now: int, ks: seq<Key>, a: string)
    ensures a in AccessKeys(s, now, ks) <==>
            exists k :: k in ks && k in s.credentials && Usable(s.credentials[k], now) && s.credentials[k].accessKeyId == a
  {
    if ks != [] {
      ListedKeys(s, now, ks[1..], a);
      assert ks == [ks[0]] + ks[1..];
    }
  }

  /** The credential is the user's, and neither revoked nor past its time. */
  predicate OwnLive(s: Store, k: Key, u: Key, now: int) {
    k in s.credentials && k.namespace == u.namespace && s.credentials[k].user == u.name && !s.credentials[k].revoked &&
    (s.credentials[k].expires.None? || now < s.credentials[k].expires.value)
  }

  /** A user's list shows the access keys of its credentials that are neither revoked nor expired. */
  lemma ListedExactly(s: Store, now: int, id: string, a: string)
    ensures ListCredentials(s, now, id).None? <==> ResolveUser(s, id).None?
    ensures ResolveUser(s, id).Some? ==>
            (a in ListCredentials(s, now, id).value <==>
             exists k :: OwnLive(s, k, ResolveUser(s, id).value, now) && s.credentials[k].accessKeyId == a)
  {
    if ResolveUser(s, id).Some? { ListedForUser(s, now, id, a); }
  }

  lemma ListedForUser(s: Store, now: int, id: string, a: string)
    requires ResolveUser(s, id).Some?
    ensures a in ListCredentials(s, now, id).value <==>
            exists k :: OwnLive(s, k, ResolveUser(s, id).value, now) && s.credentials[k].accessKeyId == a
  {
    var ks := Sorted(UserCredentials(s, ResolveUser(s, id).value));
    ListedKeys(s, now, ks, a);
    if a in AccessKeys(s, now, ks) {
      var k :| k in ks && k in s.credentials && Usable(s.credentials[k], now) && s.credentials[k].accessKeyId == a;
      assert k in UserCredentials(s, ResolveUser(s, id).value);
    }
  }

  // ---- Access keys stay unique ----

  /** The credential is as this API makes it: named after its access key. */
  predicate OwnCredential(home: string, k: Key, c: Credential) {
    c.accessKeyId != "" && k == CredentialKey(Key(home, c.user), c.accessKeyId) && c.secretName == k.name && c.key == "secretAccessKey"
  }

  predicate AllOwn(s: Store, home: string) { forall k :: k in s.credentials ==> OwnCredential(home, k, s.credentials[k]) }

  predicate KeysUnique(s: Store) {
    forall k, l :: k in s.credentials && l in s.credentials && s.credentials[k].accessKeyId == s.credentials[l].accessKeyId ==> k == l
  }

  lemma OwnKeysUnique(s: Store, home: string)
    requires AllOwn(s, home)
    ensures KeysUnique(s)
  {
    forall k, l | k in s.credentials && l in s.credentials && s.credentials[k].accessKeyId == s.credentials[l].accessKeyId
      ensures k == l
    {
      assert OwnCredential(home, k, s.credentials[k]) && OwnCredential(home, l, s.credentials[l]);
    }
  }

  /** A credential after a request: as it was, or revoked. */
  predicate Follows(c: Credential, d: Credential) { d == c || d == c.(revoked := true) }

  /** Credentials after a request: each followed its earlier self, or is new and made by this API. */
  predicate Evolves(s: Store, t: Store, home: string) {
    forall k :: k in t.credentials ==> EvolvesAt(s, t, home, k)
  }

  predicate EvolvesAt(s: Store, t: Store, home: string, k: Key)
    requires k in t.credentials
  {
    if k in s.credentials then Follows(s.credentials[k], t.credentials[k]) else OwnCredential(home, k, t.credentials[k])
  }

  lemma FollowsOwn(home: string, k: Key, c: Credential, d: Credential)
    requires OwnCredential(home, k, c) && Follows(c, d)
    ensures OwnCredential(home, k, d)
  {
  }

  lemma EvolvesKeepsOwn(s: Store, t: Store, home: string)
    requires AllOwn(s, home) && Evolves(s, t, home)
    ensures AllOwn(t, home)
  {
    forall k | k in t.credentials ensures OwnCredential(home, k, t.credentials[k]) {
      assert EvolvesAt(s, t, home, k);
      if k in s.credentials { FollowsOwn(home, k, s.credentials[k], t.credentials[k]); }
    }
  }

  lemma FewerEvolves(s: Store, t: Store, home: string)
    requires forall k :: k in t.credentials ==> k in s.credentials && t.credentials[k] == s.credentials[k]
    ensures Evolves(s, t, home)
  {
  }

  lemma NewIsOwn(home: string, u: Key, accessKeyId: string)
    requires u.namespace == home && accessKeyId != ""
    ensures OwnCredential(home, CredentialKey(u, accessKeyId), NewCredential(u, accessKeyId))
  {
  }

  lemma IssueCredentials(s: Store, k: Key, c: Credential, secretKey: string)
    ensures Issue(s, k, c, secretKey).credentials == s.credentials[k := Carrier(s, k, c)]
  {
    if secretKey != "" { IssuedSecret(s, k, c, secretKey); }
  }

  lemma CreateEvolves(s: Store, home: string, id: string, accessKeyId: string, secretKey: string)
    requires InOne(s, home) && accessKeyId != ""
    ensures Evolves(s, CreateCredential(s, id, accessKeyId, secretKey).store, home)
  {
    var u := ResolveUser(s, id);
    ResolvedUserExists(s, id);
    if u.Some? {
      NewIsOwn(home, u.value, accessKeyId);
      IssueEvolves(s, home, CredentialKey(u.value, accessKeyId), NewCredential(u.value, accessKeyId), secretKey);
    } else {
      FewerEvolves(s, s, home);
    }
  }

  lemma IssueEvolves(s: Store, home: string, k: Key, c: Credential, secretKey: string)
    requires OwnCredential(home, k, c)
    ensures Evolves(s, Issue(s, k, c, secretKey), home)
  {
    var t := Issue(s, k, c, secretKey);
    IssueCredentials(s, k, c, secretKey);
    forall l | l in t.credentials ensures EvolvesAt(s, t, home, l) {
      assert t.credentials[l] == if l == k then Carrier(s, k, c) else s.credentials[l];
    }
  }

  lemma RevokeEvolves(s: Store, home: string, id: string, accessKeyId: string)
    ensures Evolves(s, RevokeCredential(s, id, accessKeyId).store, home)
  {
  }

  lemma OthersOnlyDrop(s: Store, home: string, q: Request)
    requires !q.PostCredential? && !q.DropCredential? && !q.PostUser? && !q.PostGroup? && !q.PutPolicy?
    ensures var t := Handle(s, home, q); forall k :: k in t.credentials ==> k in s.credentials && t.credentials[k] == s.credentials[k]
  {
  }

  lemma PostsDropNothing(s: Store, home: string, q: Request)
    requires q.PostUser? || q.PostGroup? || q.PutPolicy?
    ensures Handle(s, home, q).credentials == s.credentials
  {
    match q
    case PostUser(r) => CreateUserFrame(s, home, r);
    case PostGroup(r) => CreateGroupFrame(s, home, r);
    case PutPolicy(p, fallback, status) => WritePolicyFrame(s, home, p, fallback, status);
  }

  lemma StepEvolves(s: Store, home: string, q: Request)
    requires InOne(s, home)
    ensures Evolves(s, Handle(s, home, q), home)
  {
    match q
    case PostCredential(id, requested, secretKey, random) =>
      assert AccessKeyId(requested, random) != "";
      CreateEvolves(s, home, id, AccessKeyId(requested, random), secretKey);
    case DropCredential(id, accessKeyId) => RevokeEvolves(s, home, id, accessKeyId);
    case _ =>
      if q.PostUser? || q.PostGroup? || q.PutPolicy? { PostsDropNothing(s, home, q); } else { OthersOnlyDrop(s, home, q); }
      FewerEvolves(s, Handle(s, home, q), home);
  }

  /** Over any run within one namespace no two credentials have the same access key. */
  lemma {:induction false} RunKeepsKeysUnique(s: Store, home: string, qs: seq<Request>)
    requires AllOwn(s, home) && InOne(s, home) && forall q :: q in qs ==> StaysHome(home, q)
    ensures AllOwn(Run(s, home, qs), home) && InOne(Run(s, home, qs), home) && KeysUnique(Run(s, home, qs))
    decreases |qs|
  {
    if qs == [] {
      OwnKeysUnique(s, home);
    } else {
      StepEvolves(s, home, qs[0]);
      EvolvesKeepsOwn(s, Handle(s, home, qs[0]), home);
      StepKeepsHome(s, home, qs[0]);
      RunKeepsKeysUnique(Handle(s, home, qs[0]), home, qs[1..]);
    }
  }

  // ---- Revocation is permanent ----

  /** The credential object exists in every state of the run. */
  predicate Survives(s: Store, home: string, qs: seq<Request>, k: Key)
    decreases |qs|
  {
    k in s.credentials && (qs != [] ==> Survives(Handle(s, home, qs[0]), home, qs[1..], k))
  }

  predicate RevokedAt(s: Store, k: Key, a: string) {
    k in s.credentials && s.credentials[k].accessKeyId == a && s.credentials[k].revoked
  }

  lemma {:induction false} RevokedStays(s: Store, home: string, qs: seq<Request>, k: Key, a: string)
    requires InOne(s, home) && forall q :: q in qs ==> StaysHome(home, q)
    requires Survives(s, home, qs, k) && RevokedAt(s, k, a)
    ensures RevokedAt(Run(s, home, qs), k, a)
    decreases |qs|
  {
    if qs != [] {
      var t := Handle(s, home, qs[0]);
      StepEvolves(s, home, qs[0]);
      assert EvolvesAt(s, t, home, k);
      StepKeepsHome(s, home, qs[0]);
      RevokedStays(t, home, qs[1..], k, a);
    }
  }

  /** A revoked access key is neither served nor listed. */
  lemma RevokedIsDead(s: Store, k: Key, a: string, now: int, id: string)
    requires KeysUnique(s) && RevokedAt(s, k, a)
    ensures GetCredential(s, now, a, id) == None
    ensures ListCredentials(s, now, id).Some? ==> a !in ListCredentials(s, now, id).value
  {
    ResolvedCredentialExists(s, a);
    if ResolveUser(s, id).Some? { ListedExactly(s, now, id, a); }
  }

  /** Once revoked, an access key is never served or listed again, whatever is requested, until its object is deleted. */
  lemma RevocationIsPermanent(s: Store, home: string, qs: seq<Request>, k: Key, a: string, now: int, id: string)
    requires AllOwn(s, home) && InOne(s, home) && forall q :: q in qs ==> StaysHome(home, q)
    requires Survives(s, home, qs, k) && RevokedAt(s, k, a)
    ensures var t := Run(s, home, qs);
            GetCredential(t, now, a, id) == None && (ListCredentials(t, now, id).Some? ==> a !in ListCredentials(t, now, id).value)
  {
    RunKeepsKeysUnique(s, home, qs);
    RevokedStays(s, home, qs, k, a);
    RevokedIsDead(Run(s, home, qs), k, a, now, id);
  }

  /** Revoking works for the credential's own user only; it sets that one flag and nothing else, and the access key is dead at once. */
  lemma RevokeThenGet(s: Store, id: string, a: string, now: int, expected: string)
    requires KeysUnique(s) && ResolveCredential(s, a).Some?
    ensures var k, answer := ResolveCredential(s, a).value, RevokeCredential(s, id, a);
            if ResolveUser(s, id) == Some(Key(k.namespace, s.credentials[k].user))
            then answer.status == 204 && RevokedAt(answer.store, k, a) && GetCredential(answer.store, now, a, expected) == None &&
                 answer.store == s.(credentials := s.credentials[k := s.credentials[k].(revoked := true)])
            else answer.status == 404 && answer.store == s
  {
    var k, t := ResolveCredential(s, a).value, RevokeCredential(s, id, a).store;
    ResolvedCredentialExists(s, a);
    if ResolveUser(s, id) == Some(Key(k.namespace, s.credentials[k].user)) {
      assert KeysUnique(t);
      RevokedIsDead(t, k, a, now, expected);
    }
  }

  /** Revoking an access key nobody has is no error and changes nothing. */
  lemma RevokeUnknown(s: Store, id: string, a: string)
    requires a == "" || forall k :: k in s.credentials ==> s.credentials[k].accessKeyId != a
    ensures var answer := RevokeCredential(s, id, a); answer.status == 204 && answer.store == s
  {
    assert KeyHolders(s, a) == {};
  }

  // ---- What is served, field by field ----

  /** The first credential in the list that has the access key. */
  predicate FirstHolder(s: Store, k: Key, a: string) {
    k in s.credentials && s.credentials[k].accessKeyId == a &&
    forall l :: l in s.credentials && s.credentials[l].accessKeyId == a ==> l == k || KeyBefore(k, l)
  }

  /** What a Secret holds under the data key of a credential. */
  predicate SecretHolds(s: Store, k: Key, c: Credential, value: string) {
    var at, field := Key(k.namespace, c.secretName), if c.key != "" then c.key else "secretAccessKey";
    at in s.secrets && s.secrets[at].data.Some? && field in s.secrets[at].data.value && s.secrets[at].data.value[field] == value
  }

  /** The credential is not revoked, not past its time, and its user exists, is the expected one and goes by this name. */
  predicate LiveFor(s: Store, k: Key, now: int, expected: string, name: string)
    requires k in s.credentials
  {
    var c := s.credentials[k];
    !c.revoked && (c.expires.None? || now < c.expires.value) && Key(k.namespace, c.user) in s.users &&
    GoesBy(Key(k.namespace, c.user), s.users[Key(k.namespace, c.user)].externalId, name) && (expected == "" || expected == name)
  }

  lemma HolderIsFirst(s: Store, k: Key, a: string)
    requires a != ""
    ensures ResolveCredential(s, a) == Some(k) <==> FirstHolder(s, k, a)
  {
    if FirstHolder(s, k, a) {
      assert k in KeyHolders(s, a);
      LeastUnique(k, Least(KeyHolders(s, a)), KeyHolders(s, a));
    }
  }

  lemma StoredIsHeld(s: Store, k: Key, c: Credential, value: string)
    requires value != ""
    ensures StoredSecret(s, k, c) == value <==> SecretHolds(s, k, c, value)
  {
  }

  /**
   Served is a key with its secret exactly if the first credential that has the access key is live for the expected user,
   and its Secret holds that secret, which is not empty. An empty access key is never served.
  */
  lemma ServedExactly(s: Store, now: int, a: string, expected: string, served: Served)
    ensures GetCredential(s, now, a, expected) == Some(served) <==>
            a != "" && served.accessKeyId == a && served.secretKey != "" &&
            exists k :: FirstHolder(s, k, a) && LiveFor(s, k, now, expected, served.username) &&
                        SecretHolds(s, k, s.credentials[k], served.secretKey)
  {
    if a == "" {
      assert KeyHolders(s, a) == {};
    } else {
      var r := ResolveCredential(s, a);
      forall k ensures r == Some(k) <==> FirstHolder(s, k, a) { HolderIsFirst(s, k, a); }
      if r.Some? {
        ResolvedCredentialExists(s, a);
        if served.secretKey != "" { StoredIsHeld(s, r.value, s.credentials[r.value], served.secretKey); }
      }
    }
  }

  /** A new credential, field by field: of that user, with that access key, live, and pointing at a Secret of its own name. */
  predicate NewFor(c: Credential, k: Key, user: Key, a: string) {
    c.user == user.name && c.accessKeyId == a && c.secretName == k.name && c.key == "secretAccessKey" && !c.revoked && c.expires == None &&
    k.namespace == user.namespace && k.name == ObjectName("lakefs-cred-" + a)
  }

  /** Creating a credential adds at most that one and its Secret; every other credential and Secret is as it was. */
  lemma CreateTouchesOwn(s: Store, id: string, a: string, secretKey: string)
    requires ResolveUser(s, id).Some?
    ensures var u, t := ResolveUser(s, id).value, CreateCredential(s, id, a, secretKey).store;
            var k := CredentialKey(u, a);
            k in t.credentials && t.credentials - {k} == s.credentials - {k} &&
            (if k in s.credentials then t.credentials[k] == s.credentials[k] else NewFor(t.credentials[k], k, u, a)) &&
            var at := Key(k.namespace, t.credentials[k].secretName);
            t.secrets - {at} == s.secrets - {at} && (secretKey == "" ==> t.secrets == s.secrets) &&
            t == s.(credentials := t.credentials, secrets := t.secrets)
  {
    ResolvedUserExists(s, id);
    var u := ResolveUser(s, id).value;
    var k, c := CredentialKey(u, a), NewCredential(u, a);
    IssueFrame(s, k, c, secretKey);
    IssueTouches(s, k, c, secretKey);
  }

  lemma IssueTouches(s: Store, k: Key, c: Credential, secretKey: string)
    ensures var t := Issue(s, k, c, secretKey);
            k in t.credentials && t.credentials - {k} == s.credentials - {k} && t.credentials[k] == Carrier(s, k, c) &&
            var at := Key(k.namespace, t.credentials[k].secretName);
            t.secrets - {at} == s.secrets - {at} && (secretKey == "" ==> t.secrets == s.secrets)
  {
    IssueCredentials(s, k, c, secretKey);
    var made := AddCredential(s, k, c);
    var at := Key(k.namespace, Carrier(s, k, c).secretName);
    if secretKey != "" {
      assert Issue(s, k, c, secretKey) == PutSecret(made, at, SecretWith(made, k, Carrier(s, k, c), secretKey));
    }
  }

  // ---- What creating answers ----

  /** The answer to creating a credential `k`: its secret key, the given one or else the one the Secret holds, or none yet. */
  predicate Answers(t: Store, k: Key, a: string, secretKey: string, r: CredentialAnswer)
    requires k in t.credentials
  {
    if r.served.None? then r.status == 202 && secretKey == "" && NothingHeld(t, k, t.credentials[k])
    else
      r.status == 201 && r.served.value.accessKeyId == a && r.served.value.secretKey != "" &&
      (secretKey != "" ==> r.served.value.secretKey == secretKey) &&
      (secretKey == "" ==> SecretHolds(t, k, t.credentials[k], r.served.value.secretKey))
  }

  predicate NothingHeld(t: Store, k: Key, c: Credential) {
    var at, field := Key(k.namespace, c.secretName), if c.key != "" then c.key else "secretAccessKey";
    at in t.secrets && t.secrets[at].data.Some? && field in t.secrets[at].data.value ==> t.secrets[at].data.value[field] == ""
  }

  lemma NoneIsHeld(s: Store, k: Key, c: Credential)
    ensures StoredSecret(s, k, c) == "" <==> NothingHeld(s, k, c)
  {
  }

  /** Creating a credential answers 404 without the user, and else with the secret key if there is one, 202 if not yet. */
  lemma CreateAnswers(s: Store, id: string, a: string, secretKey: string)
    ensures var r, u := CreateCredential(s, id, a, secretKey), ResolveUser(s, id);
            if u.None? then r == CredentialAnswer(s, 404, None)
            else
              CredentialKey(u.value, a) in r.store.credentials && Answers(r.store, CredentialKey(u.value, a), a, secretKey, r) &&
              (r.served.Some? ==> u.value in s.users && GoesBy(u.value, s.users[u.value].externalId, r.served.value.username))
  {
    ResolvedUserExists(s, id);
    var u := ResolveUser(s, id);
    if u.Some? {
      var k, c := CredentialKey(u.value, a), NewCredential(u.value, a);
      var t := Issue(s, k, c, secretKey);
      IssueTouches(s, k, c, secretKey);
      var held := StoredSecret(t, k, t.credentials[k]);
      if held != "" { StoredIsHeld(t, k, t.credentials[k], held); }
      NoneIsHeld(t, k, t.credentials[k]);
    }
  }

  /** The Secret a given secret key is written to, with its labels; whoever controls it stays, and a new one is free for the operator. */
  lemma GivenSecretStored(s: Store, id: string, a: string, secretKey: string)
    requires ResolveUser(s, id).Some? && secretKey != ""
    ensures var u, t := ResolveUser(s, id).value, CreateCredential(s, id, a, secretKey).store;
            var k := CredentialKey(u, a);
            k in t.credentials && SecretHolds(t, k, t.credentials[k], secretKey) &&
            var at := Key(k.namespace, t.credentials[k].secretName);
            var was := if at in s.secrets then s.secrets[at] else Secrets.Secret(None, None, None);
            t.secrets[at].controller == was.controller && Secrets.Labelled(was.labels, t.secrets[at].labels, SecretSpec(k, t.credentials[k]))
  {
    ResolvedUserExists(s, id);
    var u := ResolveUser(s, id).value;
    var k, c := CredentialKey(u, a), NewCredential(u, a);
    IssueTouches(s, k, c, secretKey);
    GivenSecretIssued(s, k, c, secretKey);
  }

  lemma GivenSecretIssued(s: Store, k: Key, c: Credential, secretKey: string)
    requires secretKey != ""
    ensures var t, d := Issue(s, k, c, secretKey), Carrier(s, k, c);
            var at := Key(k.namespace, d.secretName);
            SecretHolds(t, k, d, secretKey) &&
            var was := if at in s.secrets then s.secrets[at] else Secrets.Secret(None, None, None);
            t.secrets[at].controller == was.controller && Secrets.Labelled(was.labels, t.secrets[at].labels, SecretSpec(k, d))
  {
    var made, d := AddCredential(s, k, c), Carrier(s, k, c);
    var at := Key(k.namespace, d.secretName);
    var t := Issue(s, k, c, secretKey);
    assert t == PutSecret(made, at, SecretWith(made, k, d, secretKey)) && made.secrets == s.secrets;
    SecretWithHolds(s, k, d, secretKey);
    assert t.secrets[at] == SecretWith(s, k, d, secretKey);
    StoredIsHeld(t, k, d, secretKey);
  }

  lemma SecretWithHolds(s: Store, k: Key, d: Credential, secretKey: string)
    ensures var at := Key(k.namespace, d.secretName);
            var was := if at in s.secrets then s.secrets[at] else Secrets.Secret(None, None, None);
            var w := SecretWith(s, k, d, secretKey);
            Secrets.Value(w, Secrets.SecretKey(SecretSpec(k, d))) == secretKey && w.controller == was.controller &&
            Secrets.Labelled(was.labels, w.labels, SecretSpec(k, d))
  {
    var at, spec := Key(k.namespace, d.secretName), SecretSpec(k, d);
    if at in s.secrets {
      Secrets.ServerSets(s.secrets[at], spec, secretKey, "");
      Secrets.EditsLabel(s.secrets[at], spec, "", secretKey);
    } else {
      Secrets.FreshHolds(spec, secretKey, None);
    }
  }
}
