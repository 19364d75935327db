/** Kubernetes object names made from arbitrary identifiers, and the names of role bindings. */
module Naming {
  import opened Text

  const MAX_NAME := 63
  const FALLBACK_NAME := "lakefs-resource"

  predicate SafeChar(c: char) { 'a' <= c <= 'z' || '0' <= c <= '9' || c == '.' || c == '-' }

  predicate EdgeChar(c: char) { c == '-' || c == '.' }

  /**
   Lower case of one character, as far as it matters for names: all characters whose lower case is a safe character.
   Any other character is replaced below, whatever its lower case is.
  */
  function LowerChar(c: char): char {
    if 'A' <= c <= 'Z' then ((c as int) + 32) as char
    else if c == '\U{130}' then 'i'
    else if c == '\U{212a}' then 'k'
    else c
  }

  function Lower(s: string): (r: string)
    ensures |r| == |s|
  {
    seq(|s|, i requires 0 <= i < |s| => LowerChar(s[i]))
  }

  function UnsafeRun(s: string): (n: nat)
    ensures n <= |s|
    ensures s != "" && !SafeChar(s[0]) ==> n > 0
  {
    if s != "" && !SafeChar(s[0]) then 1 + UnsafeRun(s[1..]) else 0
  }

  /** Every maximal run of unsafe characters becomes one hyphen. */
  function Collapse(s: string): string
    decreases |s|
  {
    if s == "" then ""
    else if SafeChar(s[0]) then [s[0]] + Collapse(s[1..])
    else "-" + Collapse(s[UnsafeRun(s)..])
  }

  function TrimEdges(s: string): string { Trim(s, EdgeChar) }

  /** The name before it is cut to length. */
  function FullName(s: string): string { TrimEdges(Collapse(Lower(s))) }

  function ObjectName(s: string): string {
    var full := FullName(s);
    var cut := if |full| > MAX_NAME then TrimEdges(full[..MAX_NAME]) else full;
    if cut == "" then FALLBACK_NAME else cut
  }

  predicate AllSafe(s: string) { forall i :: 0 <= i < |s| ==> SafeChar(s[i]) }

  /** Safe characters with no hyphen or dot at either end. */
  predicate Trimmed(s: string) { s != "" ==> s[0] != '-' && s[0] != '.' && s[|s| - 1] != '-' && s[|s| - 1] != '.' }

  /** The names the API accepts from this code. */
  predicate IsObjectName(s: string) { 0 < |s| <= 63 && AllSafe(s) && Trimmed(s) }

  lemma {:induction false} CollapseSafe(s: string)
    ensures AllSafe(Collapse(s))
    decreases |s|
  {
    if s != "" {
      var rest := if SafeChar(s[0]) then s[1..] else s[UnsafeRun(s)..];
      CollapseSafe(rest);
      var c := Collapse(s);
      forall i | 0 <= i < |c| ensures SafeChar(c[i]) { if i > 0 { assert c[i] == Collapse(rest)[i - 1]; } }
    }
  }

  lemma {:induction false} CollapseSafeText(s: string, t: string)
    requires AllSafe(s)
    ensures Collapse(s + t) == s + Collapse(t)
    decreases |s|
  {
    if s == "" {
      assert s + t == t;
    } else {
      assert (s + t)[1..] == s[1..] + t;
      assert AllSafe(s[1..]) by { assert forall i :: 0 <= i < |s| - 1 ==> s[1..][i] == s[i + 1]; }
      CollapseSafeText(s[1..], t);
    }
  }

  lemma LowerSafe(s: string)
    requires AllSafe(s)
    ensures Lower(s) == s
  {
  }

  lemma TrimLeftSafe(s: string)
    requires AllSafe(s)
    ensures AllSafe(TrimLeft(s, EdgeChar))
  {
    var left := TrimLeft(s, EdgeChar);
    TrimLeftEnd(s, EdgeChar);
    forall i | 0 <= i < |left| ensures SafeChar(left[i]) { assert left[i] == s[|s| - |left| + i]; }
  }

  lemma TrimRightShape(left: string)
    requires AllSafe(left) && (left != "" ==> !EdgeChar(left[0]))
    ensures var t := TrimRight(left, EdgeChar); AllSafe(t) && Trimmed(t) && |t| <= |left|
  {
    var t := TrimRight(left, EdgeChar);
    assert t == left[..|t|];
    assert t != "" ==> t[0] == left[0];
  }

  /** Trimming keeps safe characters and leaves no edge character at the ends. */
  lemma TrimEdgesShape(s: string)
    requires AllSafe(s)
    ensures var t := TrimEdges(s); AllSafe(t) && Trimmed(t) && |t| <= |s|
  {
    TrimLeftSafe(s);
    TrimRightShape(TrimLeft(s, EdgeChar));
  }

  lemma TrimEdgesNothing(s: string)
    requires Trimmed(s)
    ensures TrimEdges(s) == s
  {
    TrimLeftDone(s, EdgeChar);
    TrimRightDone(s, EdgeChar);
  }

  /** Every input gives a valid name. */
  lemma ObjectNameValid(s: string)
    ensures IsObjectName(ObjectName(s))
  {
    CollapseSafe(Lower(s));
    TrimEdgesShape(Collapse(Lower(s)));
    var full := FullName(s);
    if |full| > MAX_NAME {
      assert AllSafe(full[..MAX_NAME]);
      TrimEdgesShape(full[..MAX_NAME]);
    }
    FallbackValid();
  }

  lemma FallbackValid()
    ensures IsObjectName(FALLBACK_NAME)
  {
  }

  lemma SafeFullName(s: string)
    requires AllSafe(s) && Trimmed(s)
    ensures FullName(s) == s
  {
    LowerSafe(s);
    CollapseSafeText(s, "");
    assert s + "" == s;
    TrimEdgesNothing(s);
  }

  /** The valid names are exactly the inputs that stay as they are. */
  lemma ObjectNameFixpoints(s: string)
    ensures ObjectName(s) == s <==> IsObjectName(s)
  {
    ObjectNameValid(s);
    if IsObjectName(s) { SafeFullName(s); }
  }

  /** Normalising is idempotent. */
  lemma ObjectNameIdempotent(s: string)
    ensures ObjectName(ObjectName(s)) == ObjectName(s)
  {
    ObjectNameValid(s);
    ObjectNameFixpoints(ObjectName(s));
  }

  // ---- Names that need no replacement ----

  /** A safe character once it is in lower case. */
  predicate PlainChar(c: char) { SafeChar(c) || 'A' <= c <= 'Z' || c == '\U{130}' || c == '\U{212a}' }

  /** The second character is the first in lower case: the capital dotted i and the Kelvin sign become i and k. */
  predicate Lowered(c: char, d: char) {
    if 'A' <= c <= 'Z' then d as int - 'a' as int == c as int - 'A' as int
    else if c == '\U{130}' then d == 'i'
    else if c == '\U{212a}' then d == 'k'
    else d == c
  }

  /** The text in lower case up to 63 characters; if that cut leaves hyphens or dots at the end they go too. */
  predicate CutName(s: string, r: string) {
    |r| <= |s| && (forall i :: 0 <= i < |r| ==> Lowered(s[i], r[i])) &&
    if |s| <= 63 then |r| == |s| else |r| <= 63 && forall i :: |r| <= i < 63 ==> EdgeChar(s[i])
  }

  lemma LowerPlain(s: string)
    requires forall i :: 0 <= i < |s| ==> PlainChar(s[i])
    ensures AllSafe(Lower(s)) && forall i :: 0 <= i < |s| ==> Lowered(s[i], Lower(s)[i]) && (EdgeChar(Lower(s)[i]) <==> EdgeChar(s[i]))
  {
  }

  /** A text of letters, digits, hyphens and dots with none of the last two at its ends is its own name but for case and length. */
  lemma PlainNames(s: string)
    requires s != "" && (forall i :: 0 <= i < |s| ==> PlainChar(s[i])) && !EdgeChar(s[0]) && !EdgeChar(s[|s| - 1])
    ensures CutName(s, ObjectName(s))
  {
    var low := Lower(s);
    LowerPlain(s);
    SafeFullName(low);
    LowerSafe(low);
    assert FullName(s) == low;
    if |s| > 63 { CutAtEnd(low); }
  }

  lemma CutAtEnd(low: string)
    requires |low| > 63 && !EdgeChar(low[0])
    ensures var t := TrimEdges(low[..63]); t != "" && t <= low && forall i :: |t| <= i < 63 ==> EdgeChar(low[i])
  {
    var cut := low[..63];
    TrimLeftDone(cut, EdgeChar);
    TrimRightCuts(cut, EdgeChar);
    forall i | |TrimRight(cut, EdgeChar)| <= i < 63 ensures EdgeChar(low[i]) { assert cut[i] == low[i]; }
  }

  // ---- What the replacement does to single characters ----

  /** No two unsafe characters in a row. */
  predicate Isolated(s: string) { forall i :: 0 <= i < |s| - 1 ==> IsolatedAt(s, i) }

  predicate IsolatedAt(s: string, i: nat)
    requires i < |s| - 1
  {
    SafeChar(s[i]) || SafeChar(s[i + 1])
  }

  function Replaced(s: string): (r: string)
    ensures |r| == |s|
  {
    seq(|s|, i requires 0 <= i < |s| => if SafeChar(s[i]) then s[i] else '-')
  }

  /** Unsafe characters on their own are replaced in place; nothing else moves. */
  lemma {:induction false} CollapseIsolated(s: string)
    requires Isolated(s)
    ensures Collapse(s) == Replaced(s)
    decreases |s|
  {
    if s != "" {
      var tail := s[1..];
      forall i | 0 <= i < |tail| - 1 ensures IsolatedAt(tail, i) { assert IsolatedAt(s, i + 1); }
      if |s| > 1 { assert IsolatedAt(s, 0); }
      assert UnsafeRun(tail) == 0 || SafeChar(s[0]);
      CollapseIsolated(tail);
      assert Replaced(s) == [if SafeChar(s[0]) then s[0] else '-'] + Replaced(tail);
    }
  }

  /** A run of unsafe characters shrinks to one hyphen: two texts that differ in the length of a run have the same name. */
  lemma RunsCollapse(s: string, c: char, d: char, t: string)
    requires AllSafe(s) && !SafeChar(c) && !SafeChar(d)
    ensures Collapse(s + [c, d] + t) == Collapse(s + [d] + t)
  {
    assert s + [c, d] + t == s + ([c] + ([d] + t));
    assert s + [d] + t == s + ([d] + t);
    CollapseSafeText(s, [c] + ([d] + t));
    CollapseSafeText(s, [d] + t);
    var u := [d] + t;
    var v := [c] + u;
    assert v[1..] == u;
    assert UnsafeRun(v) == 1 + UnsafeRun(u);
    assert v[UnsafeRun(v)..] == u[UnsafeRun(u)..];
  }

  // ---- Role bindings ----

  datatype Kind = UserSubject | GroupSubject

  function KindName(k: Kind): string { if k.UserSubject? then "lakefsuser" else "lakefsgroup" }

  function Head(k: Kind): string { "lakefs-rb-" + KindName(k) + "-" }

  function JoinedName(k: Kind, subject: string, role: string, repository: string): string {
    Head(k) + subject + "-" + role + "-" + repository
  }

  function RoleBindingName(k: Kind, subject: string, role: string, repository: string): string {
    ObjectName(JoinedName(k, subject, role, repository))
  }

  /** A part of a joined name that normalising leaves alone; every object name is one. */
  predicate Part(s: string) { s != "" && AllSafe(s) && Trimmed(s) }

  predicate NoHyphen(s: string) { forall i :: 0 <= i < |s| ==> s[i] != '-' }

  predicate Word(s: string) { Part(s) && NoHyphen(s) }

  /** A repository in a binding: a word, or the star that means all of them. */
  predicate Scope(s: string) { s == "*" || Word(s) }

  /** The name keeps all parts: it is not cut. */
  predicate Fits(k: Kind, subject: string, role: string, repository: string) {
    |FullName(JoinedName(k, subject, role, repository))| <= MAX_NAME
  }

  /** The part in front of the repository. */
  function Stem(k: Kind, subject: string, role: string): string {
    Head(k) + subject + "-" + role
  }

  lemma SafeAppend(s: string, t: string)
    requires AllSafe(s) && AllSafe(t)
    ensures AllSafe(s + t)
  {
  }

  lemma KindWord(k: Kind)
    ensures AllSafe(Head(k)) && Head(k) != "" && !EdgeChar(Head(k)[0])
  {
  }

  lemma StemShape(k: Kind, subject: string, role: string)
    requires Part(subject) && Part(role)
    ensures AllSafe(Stem(k, subject, role)) && Trimmed(Stem(k, subject, role)) && Stem(k, subject, role) != ""
  {
    KindWord(k);
    var head := Head(k);
    SafeAppend(head, subject);
    SafeAppend(head + subject, "-");
    SafeAppend(head + subject + "-", role);
    var stem := Stem(k, subject, role);
    assert stem == head + subject + "-" + role;
    assert stem[0] == head[0] && stem[|stem| - 1] == role[|role| - 1];
  }

  /** A name with a repository is the joined name as it is; one with the star ends behind the role. */
  lemma BindingFullName(k: Kind, subject: string, role: string, repository: string)
    requires Part(subject) && Part(role) && Scope(repository)
    ensures FullName(JoinedName(k, subject, role, repository)) ==
            if repository == "*" then Stem(k, subject, role) else Stem(k, subject, role) + "-" + repository
  {
    var stem := Stem(k, subject, role);
    StemShape(k, subject, role);
    assert JoinedName(k, subject, role, repository) == stem + "-" + repository;
    if repository == "*" {
      StarName(stem);
    } else {
      SafeAppend(stem, "-");
      SafeAppend(stem + "-", repository);
      SafeFullName(stem + "-" + repository);
    }
  }

  lemma StarName(stem: string)
    requires AllSafe(stem) && Trimmed(stem) && stem != ""
    ensures FullName(stem + "-" + "*") == stem
  {
    var s := stem + "-";
    SafeAppend(stem, "-");
    assert Lower(s + "*") == s + "*";
    CollapseSafeText(s, "*");
    assert UnsafeRun("*") == 1 && "*"[1..] == "";
    assert Collapse("*") == "-";
    assert s + "-" == stem + "--";
    TrimLeftDone(stem + "--", EdgeChar);
    TrimRightKeepsPrefix(stem, "--", EdgeChar);
    TrimRightAll("--", EdgeChar);
  }

  /** The first hyphen separates a word from the rest. */
  lemma WordsSplit(a: string, x: string, b: string, y: string)
    requires NoHyphen(a) && NoHyphen(b) && a + "-" + x == b + "-" + y
    ensures a == b && x == y
  {
    var s, t := a + "-" + x, b + "-" + y;
    assert s[|a|] == '-' && t[|b|] == '-';
    assert forall i :: 0 <= i < |a| ==> s[i] == a[i];
    assert forall i :: 0 <= i < |b| ==> t[i] == b[i];
    assert a == s[..|a|] && b == t[..|b|];
    assert x == s[|a| + 1..] && y == t[|b| + 1..];
  }

  lemma DropHead(k: Kind, x: string)
    ensures |Head(k) + x| >= 10 && (Head(k) + x)[10..] == KindName(k) + "-" + x
  {
    var head := "lakefs-rb-";
    assert Head(k) + x == head + (KindName(k) + "-" + x);
  }

  /** Kinds, too, are told apart by their names. */
  lemma KindsSplit(k: Kind, x: string, l: Kind, y: string)
    requires Head(k) + x == Head(l) + y
    ensures k == l && x == y
  {
    DropHead(k, x);
    DropHead(l, y);
    KindNames();
    WordsSplit(KindName(k), x, KindName(l), y);
  }

  lemma KindNames()
    ensures NoHyphen(KindName(UserSubject)) && NoHyphen(KindName(GroupSubject)) && KindName(UserSubject) != KindName(GroupSubject)
  {
    assert KindName(UserSubject)[6] == 'u' && KindName(GroupSubject)[6] == 'g';
  }

  /** The part of a binding's name behind the kind. */
  function Tail(subject: string, role: string, repository: string): string {
    if repository == "*" then subject + "-" + role else subject + "-" + role + "-" + repository
  }

  lemma BindingName(k: Kind, subject: string, role: string, repository: string)
    requires Part(subject) && Part(role) && Scope(repository) && Fits(k, subject, role, repository)
    ensures RoleBindingName(k, subject, role, repository) == Head(k) + Tail(subject, role, repository)
  {
    BindingFullName(k, subject, role, repository);
    StemShape(k, subject, role);
    NameNotCut(JoinedName(k, subject, role, repository));
    Regroup(Head(k), subject, role, repository);
  }

  lemma NameNotCut(s: string)
    requires 0 < |FullName(s)| <= MAX_NAME
    ensures ObjectName(s) == FullName(s)
  {
  }

  lemma Regroup(head: string, a: string, r: string, x: string)
    ensures head + a + "-" + r == head + (a + "-" + r)
    ensures head + a + "-" + r + "-" + x == head + (a + "-" + r + "-" + x)
  {
  }

  // ---- Reading a binding name ----

  const POLICY_PREFIX := "lakefs-policy-"
  const GROUP_PREFIX := "group-"

  /** The name of a role the policy API writes, for a policy named by a word. */
  predicate PolicyRoleName(r: string) { POLICY_PREFIX <= r && Word(r[|POLICY_PREFIX|..]) }

  /** A subject of one word, or a group the group API makes for an id of one word. */
  predicate PlainSubject(k: Kind, s: string) {
    (Word(s) && (k.GroupSubject? ==> s != "group")) ||
    (k.GroupSubject? && GROUP_PREFIX <= s && Word(s[|GROUP_PREFIX|..]))
  }

  /** What a binding is for can be read off its name: the role is one of the policy API, or subject and role are plain. */
  predicate Readable(k: Kind, subject: string, role: string, repository: string) {
    Part(subject) && Scope(repository) && Fits(k, subject, role, repository) &&
    (PolicyRoleName(role) || (Word(role) && PlainSubject(k, subject) && !(role == "policy" && subject == "group-lakefs")))
  }

  /** The words between the hyphens. */
  function Split(s: string): (ws: seq<string>)
    ensures |ws| > 0
  {
    if s == "" then [""]
    else if s[0] == '-' then [""] + Split(s[1..])
    else var ws := Split(s[1..]); [[s[0]] + ws[0]] + ws[1..]
  }

  lemma {:induction false} SplitJoined(a: string, b: string)
    ensures Split(a + "-" + b) == Split(a) + Split(b)
    decreases |a|
  {
    var s := a + "-" + b;
    if a == "" {
      assert s[0] == '-' && s[1..] == b;
    } else {
      assert s[0] == a[0] && s[1..] == a[1..] + "-" + b;
      SplitJoined(a[1..], b);
    }
  }

  lemma {:induction false} SplitWord(a: string)
    requires NoHyphen(a)
    ensures Split(a) == [a]
  {
    if a != "" {
      assert a[0] != '-' && forall i :: 0 <= i < |a| - 1 ==> a[1..][i] == a[i + 1];
      SplitWord(a[1..]);
      assert a == [a[0]] + a[1..];
    }
  }

  lemma PrefixedPart(p: string, w: string)
    requires p != "" && AllSafe(p) && !EdgeChar(p[0]) && Part(w)
    ensures Part(p + w)
  {
    SafeAppend(p, w);
    assert (p + w)[|p + w| - 1] == w[|w| - 1];
  }

  lemma PrefixShapes()
    ensures AllSafe(POLICY_PREFIX) && !EdgeChar(POLICY_PREFIX[0]) && AllSafe(GROUP_PREFIX) && !EdgeChar(GROUP_PREFIX[0])
  {
  }

  lemma PolicyRolePart(r: string)
    requires PolicyRoleName(r)
    ensures Part(r)
  {
    PrefixShapes();
    PrefixedPart(POLICY_PREFIX, r[|POLICY_PREFIX|..]);
    assert r == POLICY_PREFIX + r[|POLICY_PREFIX|..];
  }

  lemma SplitThree(a: string, b: string, w: string)
    requires NoHyphen(a) && NoHyphen(b) && NoHyphen(w)
    ensures Split(a + "-" + b + "-" + w) == [a, b, w]
  {
    SplitJoined(a + "-" + b, w);
    SplitJoined(a, b);
    SplitWord(a);
    SplitWord(b);
    SplitWord(w);
  }

  lemma SplitPolicyRole(r: string)
    requires PolicyRoleName(r)
    ensures Split(r) == ["lakefs", "policy", r[|POLICY_PREFIX|..]]
  {
    var w := r[|POLICY_PREFIX|..];
    assert POLICY_PREFIX == "lakefs" + "-" + "policy" + "-";
    assert r == "lakefs" + "-" + "policy" + "-" + w;
    SplitThree("lakefs", "policy", w);
  }

  lemma SplitGroup(s: string)
    requires GROUP_PREFIX <= s && Word(s[|GROUP_PREFIX|..])
    ensures Split(s) == ["group", s[|GROUP_PREFIX|..]]
  {
    var w := s[|GROUP_PREFIX|..];
    assert s == "group" + "-" + w;
    SplitJoined("group", w);
    SplitWord("group");
    SplitWord(w);
  }

  predicate RoleWords(ws: seq<string>, plain: bool) {
    if plain then |ws| == 1 else |ws| == 3 && ws[0] == "lakefs" && ws[1] == "policy"
  }

  lemma SplitRole(r: string)
    requires PolicyRoleName(r) || Word(r)
    ensures RoleWords(Split(r), Word(r)) && Part(r)
  {
    if PolicyRoleName(r) {
      SplitPolicyRole(r);
      PolicyRolePart(r);
      PolicyNotPlain(r);
    } else {
      SplitWord(r);
    }
  }

  /** The words of a plain subject. */
  predicate SubjectWords(k: Kind, ws: seq<string>) {
    ws != [] && |ws| == if k.GroupSubject? && ws[0] == "group" then 2 else 1
  }

  lemma SplitSubject(k: Kind, s: string)
    requires PlainSubject(k, s)
    ensures SubjectWords(k, Split(s))
  {
    if Word(s) { SplitWord(s); } else { SplitGroup(s); }
  }

  /** The words behind the subject. */
  function Behind(role: string, repository: string): seq<string> {
    Split(role) + if repository == "*" then [] else [repository]
  }

  lemma SplitTail(subject: string, role: string, repository: string)
    requires Scope(repository)
    ensures Split(Tail(subject, role, repository)) == Split(subject) + Behind(role, repository)
  {
    if repository == "*" {
      SplitJoined(subject, role);
    } else {
      SplitJoined(subject + "-" + role, repository);
      SplitJoined(subject, role);
      SplitWord(repository);
    }
  }

  /** The words behind the subject of a readable name: of a plain role or one of the policy API, then the repository. */
  predicate BehindWords(ws: seq<string>, plain: bool) {
    if plain then 1 <= |ws| <= 2
    else 3 <= |ws| <= 4 && ws[0] == "lakefs" && ws[1] == "policy"
  }

  /** Two policy roles: three words behind the subject or four, told apart by where "lakefs" stands. */
  lemma PolicyRolesAlign(s: seq<string>, u: seq<string>, t: seq<string>, v: seq<string>)
    requires BehindWords(u, false) && BehindWords(v, false) && s + u == t + v
    ensures |u| == |v|
  {
    var ws := s + u;
    assert ws[|s|] == u[0] && ws[|s| + 1] == u[1] && ws[|t|] == v[0] && ws[|t| + 1] == v[1];
  }

  lemma PlainRolesAlign(k: Kind, s: seq<string>, u: seq<string>, t: seq<string>, v: seq<string>)
    requires SubjectWords(k, s) && SubjectWords(k, t) && s + u == t + v
    ensures |u| == |v|
  {
    assert (s + u)[0] == s[0] && (t + v)[0] == t[0];
  }

  /** A plain role does not read like one of the policy API. */
  lemma RolesDiffer(k: Kind, s: seq<string>, u: seq<string>, t: seq<string>, v: seq<string>)
    requires SubjectWords(k, s) && |t| > 0 && BehindWords(u, true) && BehindWords(v, false)
    requires !(|s| == 2 && s[1] == "lakefs" && u[0] == "policy")
    ensures s + u != t + v
  {
    if |s| == 2 && |t| == 1 {
      assert (s + u)[1] == s[1] && (t + v)[1] == v[0];
      assert (s + u)[2] == u[0] && (t + v)[2] == v[1];
    }
  }

  lemma SecondWord(k: Kind, a: string)
    requires PlainSubject(k, a) && a != "group-lakefs"
    ensures |Split(a)| == 2 ==> Split(a)[1] != "lakefs"
  {
    if Word(a) {
      SplitWord(a);
    } else {
      SplitGroup(a);
      if a[|GROUP_PREFIX|..] == "lakefs" { GroupText(a, "lakefs"); }
    }
  }

  /** The one plain name that reads like one of a policy role is left out. */
  lemma NotGroupLakefs(k: Kind, a: string, r: string, x: string)
    requires Word(r) && PlainSubject(k, a) && !(r == "policy" && a == "group-lakefs")
    ensures var s, u := Split(a), Behind(r, x); !(|s| == 2 && s[1] == "lakefs" && u[0] == "policy")
  {
    SplitWord(r);
    if r != "policy" { assert Behind(r, x)[0] == r; } else { SecondWord(k, a); }
  }

  lemma GroupText(a: string, w: string)
    requires GROUP_PREFIX <= a && a[|GROUP_PREFIX|..] == w
    ensures a == "group-" + w
  {
    assert a == a[..|GROUP_PREFIX|] + a[|GROUP_PREFIX|..];
  }

  lemma BehindShape(role: string, repository: string)
    requires (PolicyRoleName(role) || Word(role)) && Scope(repository)
    ensures BehindWords(Behind(role, repository), Word(role))
    ensures |Behind(role, repository)| == |Split(role)| + if repository == "*" then 0 else 1
  {
    SplitRole(role);
  }

  lemma PolicyNotPlain(r: string)
    requires PolicyRoleName(r)
    ensures !Word(r)
  {
    assert POLICY_PREFIX[6] == '-' && r[6] == '-';
  }

  /** Role and repository can be read off the words behind the subject. */
  lemma BehindInjective(r: string, x: string, q: string, y: string)
    requires (PolicyRoleName(r) || Word(r)) && Scope(x) && (PolicyRoleName(q) || Word(q)) && Scope(y)
    requires Behind(r, x) == Behind(q, y)
    ensures r == q && x == y
  {
    SplitRole(r);
    SplitRole(q);
    BehindShape(r, x);
    BehindShape(q, y);
    assert Split(r) == Behind(r, x)[..|Split(r)|] && Split(q) == Behind(q, y)[..|Split(q)|];
    assert |Split(r)| == |Split(q)|;
    SameSplit(r, q);
    if x != "*" { assert x == Behind(r, x)[|Split(r)|] && y == Behind(q, y)[|Split(q)|]; }
  }

  lemma SameSplit(r: string, q: string)
    requires (PolicyRoleName(r) || Word(r)) && (PolicyRoleName(q) || Word(q)) && Split(r) == Split(q)
    ensures r == q
  {
    SplitRole(r);
    SplitRole(q);
    if PolicyRoleName(r) {
      PolicyNotPlain(r);
      SplitPolicyRole(r);
      SplitPolicyRole(q);
      assert r == POLICY_PREFIX + r[|POLICY_PREFIX|..] && q == POLICY_PREFIX + q[|POLICY_PREFIX|..];
    } else {
      SplitWord(r);
      SplitWord(q);
    }
  }

  lemma TailsAlign(k: Kind, a: string, r: string, x: string, b: string, q: string, y: string)
    requires Readable(k, a, r, x) && Readable(k, b, q, y) && Tail(a, r, x) == Tail(b, q, y)
    ensures Behind(r, x) == Behind(q, y)
  {
    SplitTail(a, r, x);
    SplitTail(b, q, y);
    BehindShape(r, x);
    BehindShape(q, y);
    var s, u, t, v := Split(a), Behind(r, x), Split(b), Behind(q, y);
    if Word(r) { PlainNotPolicy(r); SplitSubject(k, a); } else { assert PolicyRoleName(r); }
    if Word(q) { PlainNotPolicy(q); SplitSubject(k, b); } else { assert PolicyRoleName(q); }
    if Word(r) && Word(q) { PlainRolesAlign(k, s, u, t, v); }
    else if Word(r) { NotGroupLakefs(k, a, r, x); RolesDiffer(k, s, u, t, v); }
    else if Word(q) { NotGroupLakefs(k, b, q, y); RolesDiffer(k, t, v, s, u); }
    else { PolicyRolesAlign(s, u, t, v); }
    assert u == (s + u)[|s|..] && v == (t + v)[|t|..];
  }

  lemma PlainNotPolicy(r: string)
    requires Word(r)
    ensures !PolicyRoleName(r)
  {
    if PolicyRoleName(r) { PolicyNotPlain(r); }
  }

  lemma TailsSplit(k: Kind, a: string, r: string, x: string, b: string, q: string, y: string)
    requires Readable(k, a, r, x) && Readable(k, b, q, y) && Tail(a, r, x) == Tail(b, q, y)
    ensures a == b && r == q && x == y
  {
    TailsAlign(k, a, r, x, b, q, y);
    BehindInjective(r, x, q, y);
    SubjectRead(a, b, r, x);
  }

  lemma SubjectRead(a: string, b: string, r: string, x: string)
    requires Tail(a, r, x) == Tail(b, r, x)
    ensures a == b
  {
    var short, long := "-" + r, "-" + r + "-" + x;
    if x == "*" {
      assert Tail(a, r, x) == a + short && Tail(b, r, x) == b + short;
      SameFront(a, b, short);
    } else {
      assert Tail(a, r, x) == a + long && Tail(b, r, x) == b + long;
      SameFront(a, b, long);
    }
  }

  lemma SameFront(a: string, b: string, end: string)
    requires a + end == b + end
    ensures a == b
  {
    assert |a| == |b| && a == (a + end)[..|a|] && b == (b + end)[..|b|];
  }

  /** Readable binding names tell bindings apart: kind, subject, role and repository can be read off the name. */
  lemma BindingNamesInjective(k: Kind, subject: string, role: string, repository: string,
                              l: Kind, subject': string, role': string, repository': string)
    requires Readable(k, subject, role, repository) && Readable(l, subject', role', repository')
    ensures RoleBindingName(k, subject, role, repository) == RoleBindingName(l, subject', role', repository')
            <==> k == l && subject == subject' && role == role' && repository == repository'
  {
    SplitRole(role);
    SplitRole(role');
    BindingName(k, subject, role, repository);
    BindingName(l, subject', role', repository');
    var x, y := Tail(subject, role, repository), Tail(subject', role', repository');
    if Head(k) + x == Head(l) + y {
      KindsSplit(k, x, l, y);
      TailsSplit(k, subject, role, repository, subject', role', repository');
    }
  }

  lemma WordTailsSplit(a: string, r: string, x: string, b: string, q: string, y: string)
    requires Word(a) && Word(r) && Scope(x) && Word(b) && Word(q) && Scope(y) && Tail(a, r, x) == Tail(b, q, y)
    ensures a == b && r == q && x == y
  {
    SplitTail(a, r, x);
    SplitTail(b, q, y);
    SplitWord(a);
    SplitWord(b);
    SplitWord(r);
    SplitWord(q);
    var u, v := Behind(r, x), Behind(q, y);
    assert ([a] + u)[0] == a && ([b] + v)[0] == b && ([a] + u)[1..] == u && ([b] + v)[1..] == v;
    BehindInjective(r, x, q, y);
  }

  /** So are they if all parts are words: subject and role without hyphens, whatever they are. */
  lemma WordNamesInjective(k: Kind, subject: string, role: string, repository: string,
                           l: Kind, subject': string, role': string, repository': string)
    requires Word(subject) && Word(role) && Scope(repository) && Fits(k, subject, role, repository)
    requires Word(subject') && Word(role') && Scope(repository') && Fits(l, subject', role', repository')
    ensures RoleBindingName(k, subject, role, repository) == RoleBindingName(l, subject', role', repository')
            <==> k == l && subject == subject' && role == role' && repository == repository'
  {
    BindingName(k, subject, role, repository);
    BindingName(l, subject', role', repository');
    var x, y := Tail(subject, role, repository), Tail(subject', role', repository');
    if Head(k) + x == Head(l) + y {
      KindsSplit(k, x, l, y);
      WordTailsSplit(subject, role, repository, subject', role', repository');
    }
  }

  predicate AlphaNumeric(s: string) { s != "" && forall i :: 0 <= i < |s| ==> 'a' <= s[i] <= 'z' || '0' <= s[i] <= '9' }

  /** For lower-case letters and digits only the binding name is the parts as they are, if they fit. */
  lemma AlphaNumericNames(k: Kind, subject: string, role: string, repository: string)
    requires AlphaNumeric(subject) && AlphaNumeric(role) && AlphaNumeric(repository)
    requires |JoinedName(k, subject, role, repository)| <= MAX_NAME
    ensures RoleBindingName(k, subject, role, repository) == JoinedName(k, subject, role, repository)
  {
    BindingFullName(k, subject, role, repository);
    assert Stem(k, subject, role) + "-" + repository == JoinedName(k, subject, role, repository);
    NameNotCut(JoinedName(k, subject, role, repository));
  }

  lemma PrefixedName(p: string, w: string)
    requires p != "" && AllSafe(p) && !EdgeChar(p[0]) && Part(w) && |p| + |w| <= MAX_NAME
    ensures ObjectName(p + w) == p + w && (p + w)[|p|..] == w
  {
    PrefixedPart(p, w);
    ObjectNameFixpoints(p + w);
  }

  /** The names the API gives to groups and to the roles of policies, for ids of one word, are of the readable kind. */
  lemma ApiNames(w: string)
    requires Word(w) && |w| + |POLICY_PREFIX| <= MAX_NAME
    ensures ObjectName(POLICY_PREFIX + w) == POLICY_PREFIX + w && PolicyRoleName(POLICY_PREFIX + w)
    ensures ObjectName(GROUP_PREFIX + w) == GROUP_PREFIX + w && PlainSubject(GroupSubject, GROUP_PREFIX + w)
  {
    PrefixShapes();
    PrefixedName(POLICY_PREFIX, w);
    PrefixedName(GROUP_PREFIX, w);
  }

  /** Every object name is a part, so every stored subject is. */
  lemma ObjectNameIsPart(s: string)
    ensures Part(ObjectName(s))
  {
    ObjectNameValid(s);
  }

  lemma MoveHyphen(head: string, a: string, b: string, c: string, x: string)
    ensures head + (a + "-" + b) + "-" + c + "-" + x == head + a + "-" + (b + "-" + c) + "-" + x
  {
    assert head + (a + "-" + b) == head + a + "-" + b;
  }

  /** With hyphens in the parts it is no longer so: the hyphen may belong to the subject or to the role. */
  lemma HyphensCollide(k: Kind, a: string, b: string, c: string, repository: string)
    ensures RoleBindingName(k, a + "-" + b, c, repository) == RoleBindingName(k, a, b + "-" + c, repository)
  {
    MoveHyphen(Head(k), a, b, c, repository);
  }
}
