/**
 The Secret of a credential and the two pieces of code that edit it: the operator fills in what is missing, the auth
 server writes the secret key it was given.
 */
module Secrets {
  import opened Text

  const ACCESS_KEY_FIELD := "accessKeyId"
  const CREDENTIAL_LABEL := "lakefs.versioneer.at/credential"
  const USER_LABEL := "lakefs.versioneer.at/user"
  const CREDENTIAL_KIND := "LakeFSCredential"
  const TOKEN_PREFIX := "lakefs_sk_"

  type Table = Option<map<string, string>>

  datatype Owner = Owner(kind: string, name: string, uid: string)

  /** Data and labels may be missing altogether, which is not the same as empty. */
  datatype Secret = Secret(data: Table, labels: Table, controller: Option<Owner>)

  datatype Credential = Credential(name: string, uid: string, user: string, accessKeyId: string, secretName: string, key: string)

  function SecretKey(c: Credential): string {
    if c.key == "" then "secretAccessKey" else c.key
  }

  function CredentialOwner(c: Credential): Owner { Owner(CREDENTIAL_KIND, c.name, c.uid) }

  function Entries(t: Table): map<string, string> { if t.Some? then t.value else map[] }

  /** A missing entry reads as empty. */
  function Entry(t: map<string, string>, k: string): string {
    if k in t then t[k] else ""
  }

  /** What a Secret holds under a data key. */
  function Value(s: Secret, k: string): string { Entry(Entries(s.data), k) }

  /** Writes an entry only if it does not read so already. */
  function Ensure(t: map<string, string>, k: string, v: string): map<string, string> {
    if Entry(t, k) != v then t[k := v] else t
  }

  /** An owner reference can be set unless another object already controls the Secret; the uid does not matter. */
  predicate MayControl(s: Secret, c: Credential) {
    s.controller.Some? ==> s.controller.value.kind == CREDENTIAL_KIND && s.controller.value.name == c.name
  }

  function OwnLabels(t: Table, c: Credential): Table {
    Some(Ensure(Ensure(Entries(t), CREDENTIAL_LABEL, "true"), USER_LABEL, c.user))
  }

  /** The operator's edit: the access key, a token where no secret key is, its labels, and the owner reference. */
  function OperatorEdit(s: Secret, c: Credential, random: string): Secret {
    var d := Ensure(Entries(s.data), ACCESS_KEY_FIELD, c.accessKeyId);
    var filled := if Entry(d, SecretKey(c)) == "" then d[SecretKey(c) := TOKEN_PREFIX + random] else d;
    Secret(Some(filled), OwnLabels(s.labels, c), Some(CredentialOwner(c)))
  }

  /** The auth server's edit: the access key, the secret key it was given, and the same labels. */
  function ServerEdit(s: Secret, c: Credential, secretKey: string): Secret {
    var d := Ensure(Entries(s.data), ACCESS_KEY_FIELD, c.accessKeyId);
    Secret(Some(Ensure(d, SecretKey(c), secretKey)), OwnLabels(s.labels, c), s.controller)
  }

  /** The Secret a writer creates where it found none. */
  function Fresh(c: Credential, secretKey: string, controller: Option<Owner>): Secret {
    Secret(Some(map[ACCESS_KEY_FIELD := c.accessKeyId, SecretKey(c) := secretKey]),
           Some(map[CREDENTIAL_LABEL := "true", USER_LABEL := c.user]), controller)
  }

  /** The shared field of access key and secret key is set to the one and back to the other: a write that changes nothing. */
  predicate WritesTwice(s: Secret, c: Credential, secretKey: string) {
    SecretKey(c) == ACCESS_KEY_FIELD && Value(s, ACCESS_KEY_FIELD) == secretKey && secretKey != c.accessKeyId
  }

  predicate FillsTwice(s: Secret, c: Credential, random: string) {
    SecretKey(c) == ACCESS_KEY_FIELD && c.accessKeyId == "" && Value(s, ACCESS_KEY_FIELD) == TOKEN_PREFIX + random
  }

  /** A Secret object as the writers hold it between reading and updating it. */
  class SecretObject {
    var data: Table
    var labels: Table
    var controller: Option<Owner>

    constructor (s: Secret)
      ensures View() == s
    {
      data, labels, controller := s.data, s.labels, s.controller;
    }

    function View(): Secret
      reads this
    {
      Secret(data, labels, controller)
    }

    /** The label part both writers share. */
    method PutLabels(c: Credential) returns (changed: bool)
      modifies `labels
      ensures labels == OwnLabels(old(labels), c)
      ensures labels.Some? && Entry(labels.value, CREDENTIAL_LABEL) == "true" && Entry(labels.value, USER_LABEL) == c.user
      ensures changed <==> labels != old(labels)
    {
      changed := false;
      if labels.None? {
        labels := Some(map[]);
        changed := true;
      }
      if Entry(labels.value, CREDENTIAL_LABEL) != "true" {
        labels := Some(labels.value[CREDENTIAL_LABEL := "true"]);
        changed := true;
      }
      if Entry(labels.value, USER_LABEL) != c.user {
        labels := Some(labels.value[USER_LABEL := c.user]);
        changed := true;
      }
    }

    /** The operator fills in what is missing. It fails, and nothing is sent, when another object controls the Secret. */
    method OperatorFill(c: Credential, random: string) returns (changed: bool, failed: bool)
      modifies this
      ensures failed <==> !MayControl(old(View()), c)
      ensures !failed ==> View() == OperatorEdit(old(View()), c, random)
      ensures !failed ==> (changed <==> View() != old(View()) || FillsTwice(old(View()), c, random))
    {
      ghost var was := View();
      changed := false;
      if data.None? {
        data := Some(map[]);
        changed := true;
      }
      if Entry(data.value, ACCESS_KEY_FIELD) != c.accessKeyId {
        data := Some(data.value[ACCESS_KEY_FIELD := c.accessKeyId]);
        changed := true;
      }
      if Entry(data.value, SecretKey(c)) == "" {
        data := Some(data.value[SecretKey(c) := TOKEN_PREFIX + random]);
        changed := true;
      }
      var relabelled := PutLabels(c);
      changed := changed || relabelled;
      var owned := controller.Some? && controller.value.uid == c.uid;
      if controller.Some? && !(controller.value.kind == CREDENTIAL_KIND && controller.value.name == c.name) {
        return changed, true;
      }
      controller := Some(CredentialOwner(c));
      changed := changed || !owned;
      failed := false;
      assert Entry(data.value, ACCESS_KEY_FIELD) == c.accessKeyId || SecretKey(c) == ACCESS_KEY_FIELD;
      assert Entry(data.value, SecretKey(c)) != "";
    }

    /** The auth server writes the secret key it was given. */
    method ServerWrite(c: Credential, secretKey: string) returns (changed: bool)
      modifies this
      ensures View() == ServerEdit(old(View()), c, secretKey)
      ensures changed <==> View() != old(View()) || WritesTwice(old(View()), c, secretKey)
    {
      changed := false;
      if data.None? {
        data := Some(map[]);
        changed := true;
      }
      if Entry(data.value, ACCESS_KEY_FIELD) != c.accessKeyId {
        data := Some(data.value[ACCESS_KEY_FIELD := c.accessKeyId]);
        changed := true;
      }
      if Entry(data.value, SecretKey(c)) != secretKey {
        data := Some(data.value[SecretKey(c) := secretKey]);
        changed := true;
      }
      var relabelled := PutLabels(c);
      changed := changed || relabelled;
      assert Entry(data.value, ACCESS_KEY_FIELD) == c.accessKeyId || SecretKey(c) == ACCESS_KEY_FIELD;
      assert Entry(data.value, SecretKey(c)) == secretKey;
    }
  }

  /** The operator never replaces a value: whatever is not empty stays, except the access key, which it corrects. */
  lemma OperatorKeepsValues(s: Secret, c: Credential, random: string, k: string)
    requires k != ACCESS_KEY_FIELD && Value(s, k) != ""
    ensures Value(OperatorEdit(s, c, random), k) == Value(s, k)
  {
  }

  /** A secret key survives the operator's edit exactly when it is not kept in the field of the access key. */
  lemma OperatorKeepsSecretKey(s: Secret, c: Credential, random: string)
    requires Value(s, SecretKey(c)) != "" && c.accessKeyId != ""
    ensures Value(OperatorEdit(s, c, random), SecretKey(c)) == Value(s, SecretKey(c)) <==>
            SecretKey(c) != ACCESS_KEY_FIELD || Value(s, SecretKey(c)) == c.accessKeyId
  {
    var d := Ensure(Entries(s.data), ACCESS_KEY_FIELD, c.accessKeyId);
    assert Entry(d, ACCESS_KEY_FIELD) == c.accessKeyId;
  }

  /**
   After the operator's edit the secret key is the one that was there, or the token where there was none; if it shares
   the field of the access key it is the access key, unless that is empty. The access key is right but in that case.
  */
  lemma OperatorFills(s: Secret, c: Credential, random: string)
    ensures var t := OperatorEdit(s, c, random);
            var kept := if SecretKey(c) == ACCESS_KEY_FIELD then c.accessKeyId else Value(s, SecretKey(c));
            Value(t, SecretKey(c)) == (if kept != "" then kept else TOKEN_PREFIX + random) &&
            (Value(t, ACCESS_KEY_FIELD) == c.accessKeyId <==> SecretKey(c) != ACCESS_KEY_FIELD || c.accessKeyId != "")
  {
    var d := Ensure(Entries(s.data), ACCESS_KEY_FIELD, c.accessKeyId);
    assert Entry(d, ACCESS_KEY_FIELD) == c.accessKeyId;
    assert TOKEN_PREFIX + random != "";
  }

  /** The operator's edit is done once: repeated, with another token, it changes nothing, but for one empty field that is to hold both keys. */
  lemma OperatorSettles(s: Secret, c: Credential, first: string, second: string)
    ensures OperatorEdit(OperatorEdit(s, c, first), c, second) == OperatorEdit(s, c, first) <==>
            SecretKey(c) != ACCESS_KEY_FIELD || c.accessKeyId != "" || first == second
  {
    var t := OperatorEdit(s, c, first);
    OperatorFills(s, c, first);
    OperatorFills(t, c, second);
    assert TOKEN_PREFIX + first != "" && TOKEN_PREFIX + second != "";
    assert OwnLabels(t.labels, c) == t.labels;
    if SecretKey(c) == ACCESS_KEY_FIELD && c.accessKeyId == "" {
      assert Value(t, ACCESS_KEY_FIELD) == TOKEN_PREFIX + first && Value(OperatorEdit(t, c, second), ACCESS_KEY_FIELD) == TOKEN_PREFIX + second;
      assert (TOKEN_PREFIX + first)[|TOKEN_PREFIX|..] == first && (TOKEN_PREFIX + second)[|TOKEN_PREFIX|..] == second;
      var d := Entries(t.data);
      assert d[ACCESS_KEY_FIELD := c.accessKeyId][ACCESS_KEY_FIELD := TOKEN_PREFIX + first] == d;
    }
  }

  lemma ServerSettles(s: Secret, c: Credential, secretKey: string)
    ensures ServerEdit(ServerEdit(s, c, secretKey), c, secretKey) == ServerEdit(s, c, secretKey)
  {
    var t := ServerEdit(s, c, secretKey);
    assert OwnLabels(t.labels, c) == t.labels;
    var d := Entries(t.data);
    if SecretKey(c) == ACCESS_KEY_FIELD && ACCESS_KEY_FIELD in d { assert d[ACCESS_KEY_FIELD := c.accessKeyId][ACCESS_KEY_FIELD := secretKey] == d; }
  }

  /** Neither edit has anything to add to a new Secret with a secret key and a field for each key. */
  lemma FreshSettles(c: Credential, secretKey: string, controller: Option<Owner>)
    requires SecretKey(c) != ACCESS_KEY_FIELD
    ensures var s := Fresh(c, secretKey, controller);
            ServerEdit(s, c, secretKey) == s &&
            (secretKey != "" && controller == Some(CredentialOwner(c)) ==> forall random :: OperatorEdit(s, c, random) == s)
  {
    var s := Fresh(c, secretKey, controller);
    assert OwnLabels(s.labels, c) == s.labels;
  }

  /** The auth server's edit sets the secret key, corrects the access key if it has a field of its own, and touches no other data. */
  lemma ServerSets(s: Secret, c: Credential, secretKey: string, k: string)
    ensures Value(ServerEdit(s, c, secretKey), SecretKey(c)) == secretKey
    ensures SecretKey(c) != ACCESS_KEY_FIELD ==> Value(ServerEdit(s, c, secretKey), ACCESS_KEY_FIELD) == c.accessKeyId
    ensures k != ACCESS_KEY_FIELD && k != SecretKey(c) ==> Value(ServerEdit(s, c, secretKey), k) == Value(s, k)
    ensures ServerEdit(s, c, secretKey).controller == s.controller
  {
  }

  /** The labels both edits set, next to whatever labels others have set. */
  predicate Labelled(was: Table, t: Table, c: Credential) {
    t.Some? &&
    (c.user != "" ==> "lakefs.versioneer.at/user" in t.value) &&
    Entry(t.value, "lakefs.versioneer.at/credential") == "true" && Entry(t.value, "lakefs.versioneer.at/user") == c.user &&
    forall k :: k in t.value.Keys + Entries(was).Keys && k != "lakefs.versioneer.at/credential" && k != "lakefs.versioneer.at/user" ==>
      k in t.value && k in Entries(was) && t.value[k] == Entries(was)[k]
  }

  lemma OwnLabelsLabel(t: Table, c: Credential)
    ensures Labelled(t, OwnLabels(t, c), c)
  {
  }

  /** Both edits and a new Secret carry the labels by which credentials are found; the operator's is owned by its resource. */
  lemma EditsLabel(s: Secret, c: Credential, random: string, secretKey: string)
    ensures Labelled(s.labels, OperatorEdit(s, c, random).labels, c) && Labelled(s.labels, ServerEdit(s, c, secretKey).labels, c)
    ensures OperatorEdit(s, c, random).controller == Some(Owner("LakeFSCredential", c.name, c.uid))
  {
    OwnLabelsLabel(s.labels, c);
  }

  /** A new Secret holds the two keys and the two labels, and nothing else. */
  lemma FreshHolds(c: Credential, secretKey: string, controller: Option<Owner>)
    ensures var s := Fresh(c, secretKey, controller);
            Value(s, SecretKey(c)) == secretKey && (SecretKey(c) != "accessKeyId" ==> Value(s, "accessKeyId") == c.accessKeyId) &&
            Labelled(None, s.labels, c) && s.controller == controller &&
            forall k :: k in Entries(s.data) ==> k == SecretKey(c) || k == "accessKeyId"
  {
  }
}
