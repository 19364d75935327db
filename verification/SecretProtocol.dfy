/**
 Operator and auth server working on the same Secrets, every call to the API server a step of its own.

 The store keeps every version a Secret ever had, because reads go through a cache and may return an old one. A read
 decides what its writer sends next; the create or update reaches the store in a later step, after any number of steps
 of others. A create fails if the Secret is there, an update fails unless it was computed from the current version.
*/
module SecretProtocol {
  import opened Text
  import opened Secrets

  /** Who writes: the operator reconciling a credential, with the token it drew, or the auth server with a given secret key. */
  datatype Writer =
    | Operator(credential: Credential, random: string)
    | Server(credential: Credential, secretKey: string)

  /** A version of a Secret; its index in the history is its resource version. */
  datatype Version = Version(name: string, secret: Secret)

  /** A call on its way to the API server. */
  datatype Call =
    | Create(writer: Writer, secret: Secret)
    | Update(writer: Writer, secret: Secret, base: nat)

  datatype State = State(history: seq<Version>, current: map<string, nat>, calls: seq<Call>)

  datatype Event =
    | Read(writer: Writer, version: Option<nat>) // the writer's Get returns this version, or nothing
    | Send(call: nat)                            // the call reaches the API server

  function SecretName(w: Writer): string { w.credential.secretName }

  function Edit(w: Writer, s: Secret): Secret {
    match w
    case Operator(c, random) => OperatorEdit(s, c, random)
    case Server(c, secretKey) => ServerEdit(s, c, secretKey)
  }

  function New(w: Writer): Secret {
    match w
    case Operator(c, random) => Fresh(c, TOKEN_PREFIX + random, Some(CredentialOwner(c)))
    case Server(c, secretKey) => Fresh(c, secretKey, None)
  }

  /** Whether the writer goes on after reading `s`: the operator stops at a Secret that another object controls. */
  predicate Allowed(w: Writer, s: Secret) { w.Operator? ==> MayControl(s, w.credential) }

  /** What a writer sends after its Get: a create, an update when its edit changes something, or nothing. */
  function Decide(history: seq<Version>, w: Writer, version: Option<nat>): Option<Call> {
    if version.None? then Some(Create(w, New(w)))
    else if version.value < |history| && history[version.value].name == SecretName(w) then
      var s := history[version.value].secret;
      if Allowed(w, s) && Edit(w, s) != s then Some(Update(w, Edit(w, s), version.value)) else None
    else None // not a version of this Secret: no such read
  }

  /** Whether the API server accepts a call. */
  predicate Accepted(st: State, call: Call) {
    var name := SecretName(call.writer);
    match call
    case Create(_, _) => name !in st.current
    case Update(_, _, base) => name in st.current && st.current[name] == base
  }

  function Step(st: State, e: Event): State {
    match e
    case Read(w, version) =>
      var call := Decide(st.history, w, version);
      if call.Some? then st.(calls := st.calls + [call.value]) else st
    case Send(i) =>
      if i < |st.calls| then
        var call := st.calls[i];
        var rest := st.calls[..i] + st.calls[i + 1..];
        if Accepted(st, call) then
          var name := SecretName(call.writer);
          State(st.history + [Version(name, call.secret)], st.current[name := |st.history|], rest)
        else st.(calls := rest)
      else st
  }

  function Run(st: State, events: seq<Event>): State
    decreases |events|
  {
    if events == [] then st else Run(Step(st, events[0]), events[1..])
  }

  /** The writer whose call an event brings to success, if it does. */
  function Written(st: State, e: Event): Option<Writer> {
    if e.Send? && e.call < |st.calls| && Accepted(st, st.calls[e.call]) then Some(st.calls[e.call].writer) else None
  }

  /** The store holds `v` under data key `k` of the Secret. */
  predicate Holds(st: State, name: string, k: string, v: string) {
    && name in st.current && st.current[name] < |st.history|
    && Value(st.history[st.current[name]].secret, k) == v
  }

  /** Calls were computed from the versions they name, and current versions are versions of their Secret. */
  predicate Consistent(st: State) {
    && (forall name :: name in st.current ==> st.current[name] < |st.history| && st.history[st.current[name]].name == name)
    && (forall i :: 0 <= i < |st.calls| ==> Computed(st.history, st.calls[i]))
  }

  predicate Computed(history: seq<Version>, call: Call) {
    match call
    case Create(w, s) => s == New(w)
    case Update(w, s, base) =>
      && base < |history| && history[base].name == SecretName(w)
      && Allowed(w, history[base].secret) && s == Edit(w, history[base].secret)
  }

  /** A store at rest: some Secrets, each in its first recorded version, and no call under way. */
  predicate Initial(st: State) {
    st.calls == [] && forall name :: name in st.current ==> st.current[name] < |st.history| && st.history[st.current[name]].name == name
  }

  /** An explicit write of the data key: a call of the auth server for that key of that Secret succeeds. */
  predicate ExplicitWrite(st: State, e: Event, name: string, k: string) {
    var w := Written(st, e);
    w.Some? && w.value.Server? && SecretName(w.value) == name && SecretKey(w.value.credential) == k
  }

  predicate NoExplicitWrite(st: State, events: seq<Event>, name: string, k: string)
    decreases |events|
  {
    events != [] ==> !ExplicitWrite(st, events[0], name, k) && NoExplicitWrite(Step(st, events[0]), events[1..], name, k)
  }

  lemma ReadConsistent(st: State, e: Event)
    requires Consistent(st) && e.Read?
    ensures Consistent(Step(st, e))
  {
    var st' := Step(st, e);
    forall i | 0 <= i < |st'.calls| ensures Computed(st'.history, st'.calls[i]) {
      if i < |st.calls| { assert st'.calls[i] == st.calls[i]; }
    }
  }

  lemma ComputedGrows(history: seq<Version>, more: seq<Version>, call: Call)
    requires Computed(history, call)
    ensures Computed(history + more, call)
  {
  }

  lemma SendCalls(st: State, e: Event)
    requires Consistent(st) && e.Send? && e.call < |st.calls|
    ensures var st' := Step(st, e);
            st.history <= st'.history && forall i :: 0 <= i < |st'.calls| ==> Computed(st'.history, st'.calls[i])
  {
    var st' := Step(st, e);
    var more := st'.history[|st.history|..];
    assert st'.history == st.history + more && st'.calls == st.calls[..e.call] + st.calls[e.call + 1..];
    forall i | 0 <= i < |st'.calls| ensures Computed(st'.history, st'.calls[i]) {
      ComputedGrows(st.history, more, st.calls[if i < e.call then i else i + 1]);
    }
  }

  lemma SendConsistent(st: State, e: Event)
    requires Consistent(st) && e.Send? && e.call < |st.calls|
    ensures Consistent(Step(st, e))
  {
    SendCalls(st, e);
  }

  lemma StepConsistent(st: State, e: Event)
    requires Consistent(st)
    ensures Consistent(Step(st, e))
  {
    if e.Read? {
      ReadConsistent(st, e);
    } else if e.call < |st.calls| {
      SendConsistent(st, e);
    }
  }

  lemma {:induction false} RunConsistent(st: State, events: seq<Event>)
    requires Consistent(st)
    ensures Consistent(Run(st, events))
    decreases |events|
  {
    if events != [] {
      StepConsistent(st, events[0]);
      RunConsistent(Step(st, events[0]), events[1..]);
    }
  }

  /** An accepted update edits the current version; an accepted create starts the Secret. */
  lemma AcceptedEffect(st: State, e: Event)
    requires Consistent(st) && Written(st, e).Some?
    ensures var w := Written(st, e).value;
            var name := SecretName(w);
            var st' := Step(st, e);
            && name in st'.current && st'.current[name] == |st.history|
            && st'.history == st.history + [Version(name, st'.history[|st.history|].secret)]
            && (name !in st.current ==> st'.history[|st.history|].secret == New(w))
            && (name in st.current ==> var s := st.history[st.current[name]].secret;
                                       Allowed(w, s) && st'.history[|st.history|].secret == Edit(w, s))
            && (forall other :: other != name ==> (other in st'.current <==> other in st.current))
            && (forall other :: other != name && other in st.current ==> st'.current[other] == st.current[other])
  {
    assert Computed(st.history, st.calls[e.call]);
  }

  /** What a writer promises of the Secret it wrote, given who controlled it before. */
  predicate Promised(w: Writer, s: Secret, before: Option<Owner>) {
    var c := w.credential;
    var field := if c.key != "" then c.key else "secretAccessKey";
    var value := Value(s, field);
    s.labels.Some? && Entry(s.labels.value, "lakefs.versioneer.at/credential") == "true" &&
    Entry(s.labels.value, "lakefs.versioneer.at/user") == c.user &&
    (field != "accessKeyId" ==> Value(s, "accessKeyId") == c.accessKeyId) &&
    match w
    case Operator(_, _) => value != "" && s.controller == Some(Owner("LakeFSCredential", c.name, c.uid))
    case Server(_, secretKey) => value == secretKey && s.controller == before
  }

  lemma NewIsPromised(w: Writer)
    ensures Promised(w, New(w), None)
  {
    match w
    case Operator(c, random) =>
      FreshHolds(c, TOKEN_PREFIX + random, Some(CredentialOwner(c)));
      assert TOKEN_PREFIX + random != "";
    case Server(c, secretKey) => FreshHolds(c, secretKey, None);
  }

  lemma EditIsPromised(w: Writer, s: Secret)
    ensures Promised(w, Edit(w, s), s.controller)
  {
    match w
    case Operator(c, random) =>
      OperatorFills(s, c, random);
      EditsLabel(s, c, random, "");
      assert TOKEN_PREFIX + random != "";
    case Server(c, secretKey) =>
      ServerSets(s, c, secretKey, "");
      EditsLabel(s, c, "", secretKey);
  }

  /** A call that succeeds leaves the Secret with what its writer promises: labels, access key, a secret key, and its owner. */
  lemma WritesKeepPromises(st: State, e: Event)
    requires Consistent(st) && Written(st, e).Some?
    ensures var w, st' := Written(st, e).value, Step(st, e);
            var name := SecretName(w);
            name in st'.current && st'.current[name] < |st'.history| &&
            Promised(w, st'.history[st'.current[name]].secret,
                     if name in st.current then st.history[st.current[name]].secret.controller else None)
  {
    AcceptedEffect(st, e);
    var w := Written(st, e).value;
    var name := SecretName(w);
    if name in st.current { EditIsPromised(w, st.history[st.current[name]].secret); } else { NewIsPromised(w); }
  }

  /** After a call succeeded, the same writer reading the Secret sends nothing more, if the keys have a field each. */
  lemma SettledIsLeftAlone(st: State, e: Event, again: Writer)
    requires Consistent(st) && Written(st, e).Some? && Repeats(Written(st, e).value, again)
    requires SecretKey(again.credential) != ACCESS_KEY_FIELD
    ensures var st' := Step(st, e); Step(st', Read(again, Some(|st.history|))) == st'
  {
    AcceptedEffect(st, e);
    var w, st' := Written(st, e).value, Step(st, e);
    var s := st'.history[|st.history|].secret;
    assert st'.history[|st.history|].name == SecretName(again);
    if SecretName(w) in st.current { EditSettles(st.history[st.current[SecretName(w)]].secret, w, again); } else { NewSettles(w, again); }
    assert Edit(again, s) == s;
  }

  /** The same credential, and for the server the same secret key; the operator draws another token. */
  predicate Repeats(w: Writer, again: Writer) {
    w.credential == again.credential && (w.Operator? <==> again.Operator?) && (w.Server? && again.Server? ==> w.secretKey == again.secretKey)
  }

  lemma EditSettles(s: Secret, w: Writer, again: Writer)
    requires Repeats(w, again) && SecretKey(w.credential) != ACCESS_KEY_FIELD
    ensures Edit(again, Edit(w, s)) == Edit(w, s)
  {
    match w
    case Operator(c, random) => OperatorSettles(s, c, random, again.random);
    case Server(c, secretKey) => ServerSettles(s, c, secretKey);
  }

  lemma NewSettles(w: Writer, again: Writer)
    requires Repeats(w, again) && SecretKey(w.credential) != ACCESS_KEY_FIELD
    ensures Edit(again, New(w)) == New(w)
  {
    match w
    case Operator(c, random) =>
      assert TOKEN_PREFIX + random != "";
      FreshSettles(c, TOKEN_PREFIX + random, Some(CredentialOwner(c)));
    case Server(c, secretKey) => FreshSettles(c, secretKey, None);
  }

  /** A step that writes nothing changes no Secret. */
  lemma NoEffect(st: State, e: Event)
    requires Written(st, e).None?
    ensures Step(st, e).history == st.history && Step(st, e).current == st.current
  {
  }

  /** A value survives every step that is not an explicit write of it. */
  lemma StepKeeps(st: State, e: Event, name: string, k: string, v: string)
    requires Consistent(st) && v != "" && k != ACCESS_KEY_FIELD && Holds(st, name, k, v)
    requires !ExplicitWrite(st, e, name, k)
    ensures Holds(Step(st, e), name, k, v)
  {
    if Written(st, e).None? {
      NoEffect(st, e);
    } else {
      AcceptedEffect(st, e);
      var w := Written(st, e).value;
      if SecretName(w) == name {
        var s := st.history[st.current[name]].secret;
        match w
        case Operator(c, random) => OperatorKeepsValues(s, c, random, k);
        case Server(c, secretKey) => ServerSets(s, c, secretKey, k);
      }
    }
  }

  lemma {:induction false} RunKeeps(st: State, events: seq<Event>, name: string, k: string, v: string)
    requires Consistent(st) && v != "" && k != ACCESS_KEY_FIELD && Holds(st, name, k, v)
    requires NoExplicitWrite(st, events, name, k)
    ensures Holds(Run(st, events), name, k, v)
    decreases |events|
  {
    if events != [] {
      StepKeeps(st, events[0], name, k, v);
      StepConsistent(st, events[0]);
      RunKeeps(Step(st, events[0]), events[1..], name, k, v);
    }
  }

  /**
   Whatever ran before, once an explicit write of a secret key succeeds the Secret holds that key in every later state,
   whatever operators and other writers do in between, until the same data key is explicitly written again.
  */
  lemma ExplicitWriteStays(init: State, before: seq<Event>, e: Event, after: seq<Event>)
    requires Initial(init)
    requires var st := Run(init, before);
             var w := Written(st, e);
             && w.Some? && w.value.Server? && w.value.secretKey != "" && SecretKey(w.value.credential) != ACCESS_KEY_FIELD
             && NoExplicitWrite(Step(st, e), after, SecretName(w.value), SecretKey(w.value.credential))
    ensures var st := Run(init, before);
            var w := Written(st, e).value;
            Holds(Run(Step(st, e), after), SecretName(w), SecretKey(w.credential), w.secretKey)
  {
    var st := Run(init, before);
    var w := Written(st, e).value;
    RunConsistent(init, before);
    AcceptedEffect(st, e);
    StepConsistent(st, e);
    RunKeeps(Step(st, e), after, SecretName(w), SecretKey(w.credential), w.secretKey);
  }

  /** Operators reconciling, and nobody else. */
  predicate OperatorsOnly(events: seq<Event>) {
    forall i :: 0 <= i < |events| && events[i].Read? ==> events[i].writer.Operator?
  }

  predicate OperatorCalls(st: State) {
    forall i :: 0 <= i < |st.calls| ==> st.calls[i].writer.Operator?
  }

  lemma StepOperatorCalls(st: State, e: Event)
    requires OperatorCalls(st) && (e.Read? ==> e.writer.Operator?)
    ensures OperatorCalls(Step(st, e))
  {
    var st' := Step(st, e);
    forall i | 0 <= i < |st'.calls| ensures st'.calls[i].writer.Operator? {
      if e.Send? && e.call < |st.calls| {
        assert st'.calls[i] == st.calls[if i < e.call then i else i + 1];
      } else if i < |st.calls| {
        assert st'.calls[i] == st.calls[i];
      }
    }
  }

  lemma {:induction false} RunOperatorCalls(st: State, events: seq<Event>)
    requires OperatorsOnly(events) && OperatorCalls(st)
    ensures OperatorCalls(Run(st, events))
    decreases |events|
  {
    if events != [] {
      StepOperatorCalls(st, events[0]);
      RunOperatorCalls(Step(st, events[0]), events[1..]);
    }
  }

  lemma {:induction false} OperatorsWriteNothingExplicit(st: State, events: seq<Event>, name: string, k: string)
    requires OperatorsOnly(events) && OperatorCalls(st)
    ensures NoExplicitWrite(st, events, name, k)
    decreases |events|
  {
    if events != [] {
      StepOperatorCalls(st, events[0]);
      OperatorsWriteNothingExplicit(Step(st, events[0]), events[1..], name, k);
    }
  }

  /** In operator-only runs, data that is not empty never changes, in any Secret and from any point of the run on. */
  lemma OperatorsKeepValues(init: State, before: seq<Event>, after: seq<Event>, name: string, k: string, v: string)
    requires Initial(init) && OperatorsOnly(before) && OperatorsOnly(after)
    requires v != "" && k != ACCESS_KEY_FIELD && Holds(Run(init, before), name, k, v)
    ensures Holds(Run(Run(init, before), after), name, k, v)
  {
    RunConsistent(init, before);
    RunOperatorCalls(init, before);
    OperatorsWriteNothingExplicit(Run(init, before), after, name, k);
    RunKeeps(Run(init, before), after, name, k, v);
  }

  /** The Secret is controlled by the credential of this name. */
  predicate ControlledBy(st: State, name: string, owner: string) {
    && name in st.current && st.current[name] < |st.history|
    && var controller := st.history[st.current[name]].secret.controller;
       controller.Some? && controller.value.kind == CREDENTIAL_KIND && controller.value.name == owner
  }

  lemma StepKeepsController(st: State, e: Event, name: string, owner: string)
    requires Consistent(st) && ControlledBy(st, name, owner)
    ensures ControlledBy(Step(st, e), name, owner)
    ensures var w := Written(st, e);
            w.Some? && w.value.Operator? && SecretName(w.value) == name ==> w.value.credential.name == owner
  {
    if Written(st, e).None? {
      NoEffect(st, e);
    } else {
      AcceptedEffect(st, e);
    }
  }

  lemma {:induction false} RunKeepsController(st: State, events: seq<Event>, name: string, owner: string)
    requires Consistent(st) && ControlledBy(st, name, owner)
    ensures ControlledBy(Run(st, events), name, owner)
    decreases |events|
  {
    if events != [] {
      StepKeepsController(st, events[0], name, owner);
      StepConsistent(st, events[0]);
      RunKeepsController(Step(st, events[0]), events[1..], name, owner);
    }
  }

  /**
   From the point on where a credential controls a Secret it controls it for good, and no step of the operator
   reconciling another credential writes that Secret.
  */
  lemma ControlledSecretIsLeftAlone(init: State, before: seq<Event>, after: seq<Event>, e: Event, name: string, owner: string)
    requires Initial(init) && ControlledBy(Run(init, before), name, owner)
    ensures var st := Run(Run(init, before), after);
            var w := Written(st, e);
            && ControlledBy(st, name, owner)
            && (w.Some? && w.value.Operator? && w.value.credential.name != owner
                ==> name in st.current && name in Step(st, e).current && Step(st, e).current[name] == st.current[name])
  {
    RunConsistent(init, before);
    RunKeepsController(Run(init, before), after, name, owner);
    RunConsistent(Run(init, before), after);
    var st := Run(Run(init, before), after);
    StepKeepsController(st, e, name, owner);
    if Written(st, e).Some? { AcceptedEffect(st, e); }
  }

  /** The auth server reports success without writing: what it read is what it would have written. */
  predicate ReportsUnchanged(st: State, e: Event) {
    && e.Read? && e.writer.Server? && e.version.Some?
    && e.version.value < |st.history| && st.history[e.version.value].name == SecretName(e.writer)
    && Edit(e.writer, st.history[e.version.value].secret) == st.history[e.version.value].secret
  }

  /** This version of the Secret was the current one. */
  predicate CurrentAt(st: State, name: string, version: nat) {
    name in st.current && st.current[name] == version && version < |st.history|
  }

  /** What the last explicit write of the data key in a run wrote, if there was one. */
  function LastWrite(st: State, events: seq<Event>, name: string, k: string): Option<string>
    decreases |events|
  {
    if events == [] then None
    else
      var later := LastWrite(Step(st, events[0]), events[1..], name, k);
      if later.Some? then later
      else if ExplicitWrite(st, events[0], name, k) then Some(Written(st, events[0]).value.secretKey)
      else None
  }

  predicate Given(w: Writer) { w.Server? ==> w.secretKey != "" }

  /** The auth server writes a Secret only when it was given a secret key. */
  predicate GivenKeys(st: State, events: seq<Event>) {
    (forall i :: 0 <= i < |st.calls| ==> Given(st.calls[i].writer)) &&
    (forall e :: e in events && e.Read? ==> Given(e.writer))
  }

  lemma StepGiven(st: State, events: seq<Event>)
    requires events != [] && GivenKeys(st, events)
    ensures GivenKeys(Step(st, events[0]), events[1..])
  {
    var e, st' := events[0], Step(st, events[0]);
    forall i | 0 <= i < |st'.calls| ensures Given(st'.calls[i].writer) {
      if e.Send? && e.call < |st.calls| {
        assert st'.calls[i] == st.calls[if i < e.call then i else i + 1];
      } else if i < |st.calls| {
        assert st'.calls[i] == st.calls[i];
      }
    }
    assert forall d :: d in events[1..] ==> d in events;
  }

  lemma {:induction false} RunGiven(st: State, events: seq<Event>, more: seq<Event>)
    requires GivenKeys(st, events + more)
    ensures GivenKeys(Run(st, events), more)
    decreases |events|
  {
    if events == [] {
      assert events + more == more;
    } else {
      assert (events + more)[0] == events[0] && (events + more)[1..] == events[1..] + more;
      StepGiven(st, events + more);
      RunGiven(Step(st, events[0]), events[1..], more);
    }
  }

  lemma WriteHolds(st: State, e: Event, name: string, k: string)
    requires Consistent(st) && ExplicitWrite(st, e, name, k)
    ensures Holds(Step(st, e), name, k, Written(st, e).value.secretKey)
  {
    AcceptedEffect(st, e);
    var w := Written(st, e).value;
    if name in st.current { ServerSets(st.history[st.current[name]].secret, w.credential, w.secretKey, ""); }
  }

  /** A value that is held stays until the data key is explicitly written, and then what was written last is held. */
  lemma {:induction false} HeldAfter(st: State, events: seq<Event>, name: string, k: string, v: string)
    requires Consistent(st) && GivenKeys(st, events) && v != "" && k != ACCESS_KEY_FIELD && Holds(st, name, k, v)
    ensures var last := LastWrite(st, events, name, k);
            var held := if last.Some? then last.value else v;
            held != "" && Holds(Run(st, events), name, k, held)
    decreases |events|
  {
    if events != [] {
      var e, rest := events[0], events[1..];
      StepConsistent(st, e);
      StepGiven(st, events);
      if ExplicitWrite(st, e, name, k) {
        WriteHolds(st, e, name, k);
        HeldAfter(Step(st, e), rest, name, k, Written(st, e).value.secretKey);
      } else {
        StepKeeps(st, e, name, k, v);
        HeldAfter(Step(st, e), rest, name, k, v);
      }
    }
  }

  lemma StepHistory(st: State, e: Event)
    requires Consistent(st)
    ensures st.history <= Step(st, e).history
  {
    if Written(st, e).Some? { AcceptedEffect(st, e); } else { NoEffect(st, e); }
  }

  /** Versions are never lost. */
  lemma {:induction false} RunHistory(st: State, events: seq<Event>)
    requires Consistent(st)
    ensures st.history <= Run(st, events).history
    decreases |events|
  {
    if events != [] {
      StepHistory(st, events[0]);
      StepConsistent(st, events[0]);
      RunHistory(Step(st, events[0]), events[1..]);
    }
  }

  predicate CurrentAfter(st: State, events: seq<Event>, n: nat, version: nat)
    requires n <= |events|
  {
    var t := Run(st, events[..n]);
    version < |t.history| && CurrentAt(t, t.history[version].name, version)
  }

  /** Every version a run adds, and so every one a stale read can return, was the current one at some point of the run. */
  lemma {:induction false} AddedWasCurrent(st: State, events: seq<Event>, version: nat)
    requires Consistent(st) && |st.history| <= version < |Run(st, events).history|
    ensures exists n :: 0 <= n <= |events| && CurrentAfter(st, events, n, version)
    decreases |events|
  {
    if events != [] {
      var st', rest := Step(st, events[0]), events[1..];
      StepConsistent(st, events[0]);
      if version < |st'.history| {
        if Written(st, events[0]).Some? { AcceptedEffect(st, events[0]); } else { NoEffect(st, events[0]); }
        assert events[..1] == [events[0]];
        assert Run(st, events[..1]) == Run(st', []);
        assert CurrentAfter(st, events, 1, version);
      } else {
        AddedWasCurrent(st', rest, version);
        var n :| 0 <= n <= |rest| && CurrentAfter(st', rest, n, version);
        assert events[..n + 1] == [events[0]] + rest[..n];
        assert CurrentAfter(st, events, n + 1, version);
      }
    }
  }

  /** The write is reported as a success: it reached the store, or the version read, current `since`, made it needless. */
  predicate Succeeds(st: State, since: seq<Event>, e: Event, w: Writer) {
    var t := Run(st, since);
    Written(t, e) == Some(w) || (ReportsUnchanged(t, e) && e.writer == w && CurrentAt(st, SecretName(w), e.version.value))
  }

  /** What was read was held when it was read, and what is held at the report is that, or what was written since. */
  lemma ReportedValue(st: State, since: seq<Event>, e: Event, w: Writer)
    requires Consistent(st) && GivenKeys(st, since) && w.Server? && w.secretKey != "" && SecretKey(w.credential) != ACCESS_KEY_FIELD
    requires Succeeds(st, since, e, w) && Written(Run(st, since), e).None?
    ensures var last := LastWrite(st, since, SecretName(w), SecretKey(w.credential));
            var held := if last.Some? then last.value else w.secretKey;
            held != "" && Holds(Step(Run(st, since), e), SecretName(w), SecretKey(w.credential), held)
  {
    var t := Run(st, since);
    RunHistory(st, since);
    var read := st.history[e.version.value].secret;
    assert t.history[e.version.value] == st.history[e.version.value];
    ServerSets(read, w.credential, w.secretKey, "");
    HeldAfter(st, since, SecretName(w), SecretKey(w.credential), w.secretKey);
    NoEffect(t, e);
  }

  /**
   Whatever the auth server reports as a success holds in every later state, until the data key is explicitly written
   again, exactly if the write reached the store, or the last explicit write since the version it read was current, if
   there was one, wrote the same secret key.
  */
  lemma SuccessStays(init: State, before: seq<Event>, since: seq<Event>, e: Event, w: Writer, after: seq<Event>)
    requires Initial(init) && GivenKeys(init, before + since)
    requires w.Server? && w.secretKey != "" && SecretKey(w.credential) != ACCESS_KEY_FIELD
    requires var st := Run(init, before);
             Succeeds(st, since, e, w) &&
             NoExplicitWrite(Step(Run(st, since), e), after, SecretName(w), SecretKey(w.credential))
    ensures var st := Run(init, before);
            var last := LastWrite(st, since, SecretName(w), SecretKey(w.credential));
            Holds(Run(Step(Run(st, since), e), after), SecretName(w), SecretKey(w.credential), w.secretKey) <==>
            Written(Run(st, since), e).Some? || last.None? || last.value == w.secretKey
  {
    var st := Run(init, before);
    var t := Run(st, since);
    RunConsistent(init, before);
    RunConsistent(st, since);
    RunGiven(init, before, since);
    StepConsistent(t, e);
    if Written(t, e).Some? {
      WriteHolds(t, e, SecretName(w), SecretKey(w.credential));
      RunKeeps(Step(t, e), after, SecretName(w), SecretKey(w.credential), w.secretKey);
    } else {
      ReportedValue(st, since, e, w);
      var last := LastWrite(st, since, SecretName(w), SecretKey(w.credential));
      RunKeeps(Step(t, e), after, SecretName(w), SecretKey(w.credential), if last.Some? then last.value else w.secretKey);
    }
  }

  lemma RunFour(st: State, es: seq<Event>)
    requires |es| == 4
    ensures Run(st, es) == Step(Step(Step(Step(st, es[0]), es[1]), es[2]), es[3])
  {
    var s1, es1 := Step(st, es[0]), es[1..];
    var s2, es2 := Step(s1, es1[0]), es1[1..];
    var s3, es3 := Step(s2, es2[0]), es2[1..];
    assert Run(st, es) == Run(s1, es1);
    assert Run(s1, es1) == Run(s2, es2);
    assert Run(s2, es2) == Run(s3, es3);
    assert es3[1..] == [];
    assert Run(s3, es3) == Step(s3, es3[0]);
  }

  lemma WritesTwice(c: Credential, first: string, second: string)
    requires first != second && SecretKey(c) != ACCESS_KEY_FIELD
    ensures var a, b := Server(c, first), Server(c, second);
            var v := New(a);
            Run(State([], map[], []), [Read(a, None), Send(0), Read(b, Some(0)), Send(0)]) ==
            State([Version(c.secretName, v), Version(c.secretName, Edit(b, v))], map[c.secretName := 1], [])
  {
    var a, b := Server(c, first), Server(c, second);
    var v := New(a);
    ServerSets(v, c, second, "");
    assert Value(v, SecretKey(c)) == first;
    assert Edit(b, v) != v;
    var s0 := State([], map[], []);
    var s2 := Step(Step(s0, Read(a, None)), Send(0));
    assert s2 == State([Version(c.secretName, v)], map[c.secretName := 0], []);
    var s3 := Step(s2, Read(b, Some(0)));
    assert s3.calls == [Update(b, Edit(b, v), 0)];
    RunFour(s0, [Read(a, None), Send(0), Read(b, Some(0)), Send(0)]);
  }

  /** After a stale read the report can be false: the first of two written keys is reported as held while the second is. */
  lemma UnchangedWhenStale(c: Credential, first: string, second: string)
    requires first != second && SecretKey(c) != ACCESS_KEY_FIELD
    ensures var events := [Read(Server(c, first), None), Send(0), Read(Server(c, second), Some(0)), Send(0)];
            var st := Run(State([], map[], []), events);
            && ReportsUnchanged(st, Read(Server(c, first), Some(0)))
            && Holds(st, c.secretName, SecretKey(c), second)
  {
    var v := New(Server(c, first));
    WritesTwice(c, first, second);
    ServerSets(v, c, second, "");
    assert Edit(Server(c, first), v) == v;
  }
}
