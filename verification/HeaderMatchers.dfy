/**
 The regular expressions of scripts/copyright.py as matcher functions on suffixes of the text.
 A matcher gets the text from the position where the match is tried and returns where the match ends.
 */
module HeaderMatchers {
  import opened Text

  /** Python's `str.isspace` on one character. */
  predicate IsSpace(c: char) {
    || '\t' <= c <= '\r'
    || '\U{1c}' <= c <= ' '
    || c == '\U{85}' || c == '\U{a0}' || c == '\U{1680}'
    || '\U{2000}' <= c <= '\U{200a}'
    || c == '\U{2028}' || c == '\U{2029}' || c == '\U{202f}' || c == '\U{205f}' || c == '\U{3000}'
  }

  predicate IsNewline(c: char) { c == '\n' }

  /** The text has no white space to strip on its left. */
  predicate Flush(s: string) { s == "" || !IsSpace(s[0]) }

  /** Offset of the first newline, or the length when there is none: where a greedy `.*` stops. */
  function LineEnd(s: string): (e: nat)
    ensures e <= |s|
    ensures e < |s| ==> s[e] == '\n'
  {
    if s == "" || s[0] == '\n' then 0 else 1 + LineEnd(s[1..])
  }

  lemma {:induction false} LineEndFirst(s: string)
    ensures forall i :: 0 <= i < LineEnd(s) ==> s[i] != '\n'
  {
    if s != "" && s[0] != '\n' {
      LineEndFirst(s[1..]);
      forall i | 0 <= i < LineEnd(s) ensures s[i] != '\n' { if i > 0 { assert s[i] == s[1..][i - 1]; } }
    }
  }

  /** The line ends at the first newline. */
  lemma {:induction false} LineEndIs(s: string, e: nat)
    requires e <= |s| && (e < |s| ==> s[e] == '\n')
    requires forall i :: 0 <= i < e ==> s[i] != '\n'
    ensures LineEnd(s) == e
  {
    if e > 0 {
      assert forall i :: 0 <= i < e - 1 ==> s[1..][i] == s[i + 1];
      LineEndIs(s[1..], e - 1);
    }
  }

  /** Length of the leading run of newlines: where a greedy `\n*` stops. */
  function NewlineRun(s: string): (n: nat)
    ensures n <= |s|
  {
    if s != "" && s[0] == '\n' then 1 + NewlineRun(s[1..]) else 0
  }

  lemma {:induction false} NewlineRunAll(s: string)
    ensures forall i :: 0 <= i < NewlineRun(s) ==> s[i] == '\n'
  {
    if s != "" && s[0] == '\n' {
      NewlineRunAll(s[1..]);
      forall i | 0 <= i < NewlineRun(s) ensures s[i] == '\n' { if i > 0 { assert s[i] == s[1..][i - 1]; } }
    }
  }

  /** A blank line starts here: two newlines in a row. */
  predicate BlankAt(s: string, i: int) {
    0 <= i && i + 1 < |s| && s[i] == '\n' && s[i + 1] == '\n'
  }

  /** Offset of the first blank line. */
  function FirstBlank(s: string): (r: Option<nat>)
    ensures r.Some? ==> BlankAt(s, r.value) && forall i :: 0 <= i < r.value ==> !BlankAt(s, i)
    ensures r.None? ==> forall i :: !BlankAt(s, i)
  {
    if BlankAt(s, 0) then Some(0)
    else if s == "" then None
    else
      var r := FirstBlank(s[1..]);
      assert forall i :: 0 < i ==> BlankAt(s, i) == BlankAt(s[1..], i - 1);
      if r.Some? then Some(1 + r.value) else None
  }

  /** Offset of the first end of a block comment. */
  function FirstClose(s: string): (r: Option<nat>)
    ensures r.Some? ==> r.value + 2 <= |s|
  {
    if "*/" <= s then Some(0)
    else if s == "" then None
    else
      var r := FirstClose(s[1..]);
      if r.Some? then Some(1 + r.value) else None
  }

  /** The run `(.\n?)*(?=\n\n)`: lines without a blank one between, up to the last point that two newlines follow. */
  function RunEnd(s: string): (r: Option<nat>)
    ensures r.Some? ==> BlankAt(s, r.value)
  {
    if BlankAt(s, 0) then Some(0)
    else if s == "" || s[0] == '\n' then None
    else
      var blank := FirstBlank(s);
      if blank.Some? && BlankAt(s, blank.value + 1) then Some(blank.value + 1) else blank
  }

  /** The reference reading of `(.\n?)*`: `s[..e]` is a sequence of characters, none a newline, each with an optional newline. */
  predicate Star(s: string, e: nat)
    requires e <= |s|
    decreases e
  {
    e == 0 ||
    (s[0] != '\n' &&
     (Star(s[1..], e - 1) || (2 <= e && s[1] == '\n' && Star(s[2..], e - 2))))
  }

  /** Nothing, or text that starts with a character and holds no blank line. */
  predicate Lines(s: string, e: nat) {
    e == 0 || (e <= |s| && s[0] != '\n' && forall i :: 0 <= i < e - 1 ==> !BlankAt(s, i))
  }

  lemma LinesStep(s: string, e: nat)
    requires 0 < e <= |s| && s[0] != '\n'
    ensures Lines(s, e) <==> Lines(s[1..], e - 1) || (2 <= e && s[1] == '\n' && Lines(s[2..], e - 2))
  {
    forall i | 0 <= i ensures BlankAt(s[1..], i) == BlankAt(s, i + 1) {}
    forall i | 0 <= i && 2 <= |s| ensures BlankAt(s[2..], i) == BlankAt(s, i + 2) {}
    if Lines(s[1..], e - 1) {
      forall i | 0 <= i < e - 1 ensures !BlankAt(s, i) { if i > 0 { assert !BlankAt(s[1..], i - 1); } }
    }
    if 2 <= e && s[1] == '\n' && Lines(s[2..], e - 2) {
      forall i | 0 <= i < e - 1 ensures !BlankAt(s, i) { if i > 1 { assert !BlankAt(s[2..], i - 2); } }
    }
    if Lines(s, e) && e > 1 {
      if s[1] == '\n' && e > 2 { assert !BlankAt(s, 1); }
    }
  }

  /** What the star can consume. */
  lemma {:induction false} StarConsumesLines(s: string, e: nat)
    requires e <= |s|
    ensures Star(s, e) <==> Lines(s, e)
    decreases e
  {
    if e != 0 && s[0] != '\n' {
      LinesStep(s, e);
      StarConsumesLines(s[1..], e - 1);
      if 2 <= e { StarConsumesLines(s[2..], e - 2); }
    }
  }

  /** `RunEnd` is the greedy match: the longest stretch the star consumes in front of a blank line, if there is one. */
  lemma RunEndIsGreedy(s: string)
    ensures RunEnd(s).Some? ==> Star(s, RunEnd(s).value)
    ensures forall e :: 0 <= e <= |s| && Star(s, e) && BlankAt(s, e) ==> RunEnd(s).Some? && e <= RunEnd(s).value
  {
    var r := RunEnd(s);
    if r.Some? { StarConsumesLines(s, r.value); }
    forall e | 0 <= e <= |s| && Star(s, e) && BlankAt(s, e) ensures r.Some? && e <= r.value {
      StarConsumesLines(s, e);
      if e != 0 {
        var b := FirstBlank(s).value;
        assert e - 1 <= b <= e;
      }
    }
  }

  /** A match of the run on a suffix, read as an offset into the whole text. */
  function RunAfter(s: string, n: nat): (r: Option<nat>)
    requires n <= |s|
    ensures r.Some? ==> n <= r.value && BlankAt(s, r.value)
  {
    var run := RunEnd(s[n..]);
    if run.Some? then Some(n + run.value) else None
  }

  /** `<prefix> (?:# )?Copyright(.\n?)*(?=\n\n)` at the start of `s`. */
  function HeaderEnd(s: string, prefix: string): (r: Option<nat>)
    ensures r.Some? ==> |prefix| + 10 <= r.value && BlankAt(s, r.value)
  {
    var bare := prefix + " Copyright";
    var doubled := prefix + " # Copyright";
    if doubled <= s then RunAfter(s, |doubled|)
    else if bare <= s then RunAfter(s, |bare|)
    else None
  }

  datatype Span = Span(start: nat, end: nat)

  /** The leftmost match of the header expression, which `^` allows at line starts only. */
  function FindHeader(s: string, prefix: string, lineStart: bool): (r: Option<Span>)
    ensures r.Some? ==> r.value.start + |prefix| + 10 <= r.value.end && BlankAt(s, r.value.end)
  {
    var here := if lineStart then HeaderEnd(s, prefix) else None;
    if here.Some? then Some(Span(0, here.value))
    else if s == "" then None
    else
      var r := FindHeader(s[1..], prefix, s[0] == '\n');
      if r.Some? then Some(Span(r.value.start + 1, r.value.end + 1)) else None
  }

  // The Apache block comment at the start of `s`: opening line, "Copyright dddd.", a blank line, then the shortest
  // text up to the end of the comment and all newlines after it. `digit` is the regular expression's digit class.
  function ApacheEnd(s: string, digit: char -> bool): (r: Option<nat>)
    ensures r.Some? ==> 22 <= r.value <= |s| && "/*" <= s
  {
    var opening := "/*\nCopyright ";
    if opening <= s && |s| >= 20 && (forall i :: 13 <= i < 17 ==> digit(s[i])) && ".\n\n" <= s[17..] then
      assert "/*" <= opening;
      var close := FirstClose(s[20..]);
      if close.Some? then Some(22 + close.value + NewlineRun(s[22 + close.value..])) else None
    else None
  }

  /** A build constraint block: where the last constraint's expression starts, where its line ends, where the match ends. */
  datatype Build = Build(payload: nat, line: nat, end: nat)

  const GO_BUILD := "//go:build "
  const PLUS_BUILD := "// +build "

  /** `<opening>.+\n` at the start of `s`: the offset of the newline. */
  function Constraint(s: string, opening: string): (r: Option<nat>)
    ensures r.Some? ==> |opening| < r.value < |s| && s[r.value] == '\n' && opening <= s
  {
    if opening <= s then
      var e := LineEnd(s[|opening|..]);
      if 0 < e && |opening| + e < |s| then Some(|opening| + e) else None
    else None
  }

  /** A constraint is one line. */
  lemma ConstraintLine(s: string, opening: string)
    requires Constraint(s, opening).Some?
    ensures forall i :: |opening| <= i < Constraint(s, opening).value ==> s[i] != '\n'
  {
    var rest := s[|opening|..];
    LineEndFirst(rest);
    forall i | |opening| <= i < Constraint(s, opening).value ensures s[i] != '\n' { assert s[i] == rest[i - |opening|]; }
  }

  lemma ConstraintIs(s: string, opening: string, e: nat)
    requires opening <= s && |opening| < e < |s| && s[e] == '\n'
    requires forall i :: |opening| <= i < e ==> s[i] != '\n'
    ensures Constraint(s, opening) == Some(e)
  {
    var rest := s[|opening|..];
    assert forall i :: 0 <= i < e - |opening| ==> rest[i] == s[i + |opening|];
    LineEndIs(rest, e - |opening|);
  }

  /** `//go:build .+\n(?:// \+build .+\n)?\n*` at the start of `s`. */
  function BuildMatch(s: string): (r: Option<Build>)
    ensures r.Some? ==> 11 <= r.value.payload < r.value.line < r.value.end <= |s|
    ensures r.Some? <==> Constraint(s, GO_BUILD).Some?
  {
    var first := Constraint(s, GO_BUILD);
    if first.None? then None
    else
      var second := Constraint(s[first.value + 1..], PLUS_BUILD);
      if second.Some? then Some(BlockAt(s, first.value + 1 + |PLUS_BUILD|, first.value + 1 + second.value))
      else Some(BlockAt(s, |GO_BUILD|, first.value))
  }

  /** A block whose last line ends at `line`, with the newlines behind it. */
  function BlockAt(s: string, payload: nat, line: nat): Build
    requires line < |s|
  {
    Build(payload, line, line + 1 + NewlineRun(s[line + 1..]))
  }

  /** A constraint block ends in the newline of its last line and all newlines after it. */
  lemma BuildMatchEnd(s: string)
    requires BuildMatch(s).Some?
    ensures var m := BuildMatch(s).value; forall i :: m.line <= i < m.end ==> s[i] == '\n'
  {
    var m := BuildMatch(s).value;
    BuildMatchLine(s);
    BuildEnds(s);
    NewlinesBehind(s, m.line + 1);
  }

  lemma BuildEnds(s: string)
    requires BuildMatch(s).Some?
    ensures var m := BuildMatch(s).value; m.end == m.line + 1 + NewlineRun(s[m.line + 1..])
  {
  }

  lemma NewlinesBehind(s: string, n: nat)
    requires n <= |s|
    ensures forall i :: n <= i < n + NewlineRun(s[n..]) ==> s[i] == '\n'
  {
    var after := s[n..];
    NewlineRunAll(after);
    forall i | n <= i < n + NewlineRun(after) ensures s[i] == '\n' { assert s[i] == after[i - n]; }
  }

  lemma BuildMatchLine(s: string)
    requires BuildMatch(s).Some?
    ensures s[BuildMatch(s).value.line] == '\n'
  {
    var first := Constraint(s, GO_BUILD).value;
    var rest := s[first + 1..];
    var second := Constraint(rest, PLUS_BUILD);
    if second.Some? { assert s[first + 1 + second.value] == rest[second.value]; }
  }

  /** `^#!.*\n` at the start of the text. */
  function ShebangEnd(s: string): (r: Option<nat>)
    ensures r.Some? ==> 3 <= r.value <= |s| && "#!" <= s && s[r.value - 1] == '\n'
  {
    if "#!" <= s then
      var e := LineEnd(s[2..]);
      if 2 + e < |s| then Some(3 + e) else None
    else None
  }

  /** `\n{3,}` replaced by two newlines throughout. */
  function CollapseBlank(s: string): (r: string)
    ensures |r| <= |s|
  {
    if BlankAt(s, 0) && BlankAt(s, 1) then CollapseBlank(s[1..])
    else if s == "" then ""
    else [s[0]] + CollapseBlank(s[1..])
  }

  // ---- What the matchers match ----

  /** `<prefix> (?:# )?Copyright(.\n?)*(?=\n\n)` can match the text up to `e`. */
  predicate HeaderMatch(s: string, prefix: string, e: nat) {
    MatchBehind(s, prefix + " Copyright", e) || MatchBehind(s, prefix + " # Copyright", e)
  }

  predicate MatchBehind(s: string, opening: string, e: nat) {
    opening <= s && |opening| <= e <= |s| && Star(s[|opening|..], e - |opening|) && BlankAt(s, e)
  }

  lemma MatchBehindGreedy(s: string, opening: string)
    requires opening <= s
    ensures var r := RunAfter(s, |opening|);
            (r.Some? ==> MatchBehind(s, opening, r.value)) &&
            forall e: nat :: MatchBehind(s, opening, e) ==> r.Some? && e <= r.value
  {
    var n, rest, r := |opening|, s[|opening|..], RunAfter(s, |opening|);
    RunEndIsGreedy(rest);
    forall e: nat | MatchBehind(s, opening, e) ensures r.Some? && e <= r.value { assert BlankAt(rest, e - n); }
  }

  lemma OneOpening(s: string, prefix: string)
    ensures !(prefix + " Copyright" <= s && prefix + " # Copyright" <= s)
  {
    var bare, doubled := prefix + " Copyright", prefix + " # Copyright";
    assert bare[|prefix| + 1] == 'C' && doubled[|prefix| + 1] == '#';
  }

  /** The matcher for a header finds the longest match, if there is one. */
  lemma HeaderEndIsGreedy(s: string, prefix: string)
    ensures var r := HeaderEnd(s, prefix);
            (r.Some? ==> HeaderMatch(s, prefix, r.value)) && forall e: nat :: HeaderMatch(s, prefix, e) ==> r.Some? && e <= r.value
  {
    OneOpening(s, prefix);
    if prefix + " # Copyright" <= s { MatchBehindGreedy(s, prefix + " # Copyright"); }
    if prefix + " Copyright" <= s { MatchBehindGreedy(s, prefix + " Copyright"); }
  }

  /** A header can be matched at this offset, which begins a line. */
  predicate HeaderAt(s: string, prefix: string, lineStart: bool, i: nat) {
    i <= |s| && (if i == 0 then lineStart else s[i - 1] == '\n') && HeaderEnd(s[i..], prefix).Some?
  }

  lemma HeaderAtTail(s: string, prefix: string, lineStart: bool, i: nat)
    requires s != ""
    ensures HeaderAt(s, prefix, lineStart, i + 1) <==> HeaderAt(s[1..], prefix, s[0] == '\n', i)
  {
    if i + 1 <= |s| { assert s[1..][i..] == s[i + 1..]; }
  }

  /** The match is at the leftmost offset at which there is one, and none is found if there is none. */
  ghost predicate Leftmost(s: string, prefix: string, lineStart: bool, r: Option<Span>) {
    (r.Some? ==> HeaderAt(s, prefix, lineStart, r.value.start) &&
                 r.value.start + HeaderEnd(s[r.value.start..], prefix).value == r.value.end) &&
    forall i: nat :: HeaderAt(s, prefix, lineStart, i) ==> r.Some? && r.value.start <= i
  }

  lemma LeftmostStep(s: string, prefix: string, lineStart: bool, q: Option<Span>, r: Option<Span>)
    requires s != "" && !HeaderAt(s, prefix, lineStart, 0) && Leftmost(s[1..], prefix, s[0] == '\n', q)
    requires r == if q.Some? then Some(Span(q.value.start + 1, q.value.end + 1)) else None
    ensures Leftmost(s, prefix, lineStart, r)
  {
    forall i: nat | HeaderAt(s, prefix, lineStart, i) ensures r.Some? && r.value.start <= i {
      HeaderAtTail(s, prefix, lineStart, i - 1);
    }
    if q.Some? {
      HeaderAtTail(s, prefix, lineStart, q.value.start);
      assert s[1..][q.value.start..] == s[q.value.start + 1..];
    }
  }

  lemma NoneAtEnd(prefix: string, lineStart: bool)
    ensures !HeaderAt("", prefix, lineStart, 0)
  {
  }

  /** The search for a header finds the leftmost match. */
  lemma {:induction false} FindHeaderIsLeftmost(s: string, prefix: string, lineStart: bool)
    ensures Leftmost(s, prefix, lineStart, FindHeader(s, prefix, lineStart))
    decreases |s|
  {
    assert s[0..] == s;
    if s == "" {
      NoneAtEnd(prefix, lineStart);
    } else if !HeaderAt(s, prefix, lineStart, 0) {
      FindHeaderIsLeftmost(s[1..], prefix, s[0] == '\n');
      LeftmostStep(s, prefix, lineStart, FindHeader(s[1..], prefix, s[0] == '\n'), FindHeader(s, prefix, lineStart));
    }
  }

  predicate CloseAt(s: string, i: nat) { i <= |s| && "*/" <= s[i..] }

  lemma {:induction false} FirstCloseIsFirst(s: string)
    ensures FirstClose(s).Some? ==> CloseAt(s, FirstClose(s).value)
    ensures forall i: nat :: CloseAt(s, i) ==> FirstClose(s).Some? && FirstClose(s).value <= i
  {
    assert s[0..] == s;
    if !("*/" <= s) && s != "" {
      FirstCloseIsFirst(s[1..]);
      forall i: nat | CloseAt(s, i) ensures FirstClose(s).Some? && FirstClose(s).value <= i {
        assert s[i..] == s[1..][i - 1..];
        assert CloseAt(s[1..], i - 1);
      }
      if FirstClose(s).Some? { assert s[1..][FirstClose(s).value - 1..] == s[FirstClose(s).value..]; }
    }
  }

  lemma {:induction false} NewlineRunIsLongest(s: string)
    ensures NewlineRun(s) < |s| ==> s[NewlineRun(s)] != '\n'
  {
    if s != "" && s[0] == '\n' { NewlineRunIsLongest(s[1..]); }
  }

  /** The Apache comment ends in the first end of a comment behind its opening lines, and all newlines behind that. */
  predicate ApacheMatch(s: string, digit: char -> bool, close: nat, e: nat) {
    "/*\nCopyright " <= s && |s| >= 20 && digit(s[13]) && digit(s[14]) && digit(s[15]) && digit(s[16]) &&
    s[17] == '.' && s[18] == '\n' && s[19] == '\n' &&
    20 <= close && CloseAt(s, close) && (forall i :: 20 <= i < close ==> !CloseAt(s, i)) &&
    close + 2 <= e <= |s| && (forall i :: close + 2 <= i < e ==> s[i] == '\n') && (e < |s| ==> s[e] != '\n')
  }

  predicate ApacheOpening(s: string, digit: char -> bool) {
    "/*\nCopyright " <= s && |s| >= 20 && (forall i :: 13 <= i < 17 ==> digit(s[i])) && ".\n\n" <= s[17..]
  }

  lemma ApacheOpens(s: string, digit: char -> bool)
    requires |s| >= 20
    ensures ApacheOpening(s, digit) <==>
            "/*\nCopyright " <= s && digit(s[13]) && digit(s[14]) && digit(s[15]) && digit(s[16]) &&
            s[17] == '.' && s[18] == '\n' && s[19] == '\n'
  {
    var rest := s[17..];
    assert rest[0] == s[17] && rest[1] == s[18] && rest[2] == s[19];
  }

  lemma CloseBehind(s: string, i: nat)
    requires |s| >= 20 && i >= 20
    ensures CloseAt(s, i) <==> CloseAt(s[20..], i - 20)
  {
    if i <= |s| { assert s[20..][i - 20..] == s[i..]; }
  }

  lemma ApacheEnds(s: string, digit: char -> bool, close: nat, e: nat)
    requires ApacheOpening(s, digit) && FirstClose(s[20..]) == Some(close) && e == 22 + close + NewlineRun(s[22 + close..])
    ensures ApacheMatch(s, digit, 20 + close, e)
  {
    var after := s[22 + close..];
    ApacheOpens(s, digit);
    FirstCloseIsFirst(s[20..]);
    forall i | 20 <= i <= 20 + close ensures CloseAt(s, i) <==> i == 20 + close { CloseBehind(s, i); }
    NewlineRunAll(after);
    NewlineRunIsLongest(after);
    forall i | 22 + close <= i < e ensures s[i] == '\n' { assert s[i] == after[i - 22 - close]; }
    if e < |s| { assert s[e] == after[e - 22 - close]; }
  }

  /** The matcher for the Apache comment finds it exactly if it is there. */
  lemma ApacheExactly(s: string, digit: char -> bool, e: nat)
    ensures ApacheEnd(s, digit) == Some(e) <==> exists close: nat :: ApacheMatch(s, digit, close, e)
  {
    if ApacheEnd(s, digit) == Some(e) {
      assert ApacheOpening(s, digit);
      ApacheEnds(s, digit, FirstClose(s[20..]).value, e);
    }
    if close: nat :| ApacheMatch(s, digit, close, e) {
      ApacheFound(s, digit, close, e);
    }
  }

  lemma ApacheFound(s: string, digit: char -> bool, close: nat, e: nat)
    requires ApacheMatch(s, digit, close, e)
    ensures ApacheEnd(s, digit) == Some(e)
  {
    ApacheOpens(s, digit);
    FirstCloseIsFirst(s[20..]);
    CloseBehind(s, close);
    var first := FirstClose(s[20..]).value;
    CloseBehind(s, 20 + first);
    assert close == 20 + first;
    ApacheEnds(s, digit, first, 22 + first + NewlineRun(s[22 + first..]));
    SameRunEnd(s, close + 2, e, 22 + first + NewlineRun(s[22 + first..]));
  }

  /** A run of newlines has one end. */
  lemma SameRunEnd(s: string, n: nat, d: nat, e: nat)
    requires n <= d <= |s| && n <= e <= |s|
    requires (forall i :: n <= i < d ==> s[i] == '\n') && (d < |s| ==> s[d] != '\n')
    requires (forall i :: n <= i < e ==> s[i] == '\n') && (e < |s| ==> s[e] != '\n')
    ensures d == e
  {
  }

  /** One line that starts with the opening and says something more; `e` is its newline. */
  predicate ConstraintAt(s: string, n: nat, opening: string, e: nat) {
    n + |opening| < e < |s| && opening <= s[n..] && s[e] == '\n' && forall i :: n + |opening| <= i < e ==> s[i] != '\n'
  }

  lemma ConstraintExactly(s: string, n: nat, opening: string, e: nat)
    requires n <= e <= |s|
    ensures Constraint(s[n..], opening) == Some(e - n) <==> ConstraintAt(s, n, opening, e)
  {
    var t := s[n..];
    if ConstraintAt(s, n, opening, e) { ConstraintIs(t, opening, e - n); }
    if Constraint(t, opening) == Some(e - n) {
      ConstraintLine(t, opening);
      forall i | n + |opening| <= i < e ensures s[i] != '\n' { assert s[i] == t[i - n]; }
    }
  }

  ghost predicate NoConstraint(s: string, n: nat, opening: string) { forall e: nat :: !ConstraintAt(s, n, opening, e) }

  /** The constraint in the older form is on the next line if it is there; the last of both gives payload and line. */
  ghost predicate SecondAt(s: string, first: nat, payload: nat, line: nat) {
    if line == first then payload == |GO_BUILD| && NoConstraint(s, first + 1, PLUS_BUILD)
    else payload == first + 1 + |PLUS_BUILD| && ConstraintAt(s, first + 1, PLUS_BUILD, line)
  }

  /** Behind the newline at `line` come newlines up to `e`, and no more. */
  predicate NewlinesTo(s: string, line: nat, e: nat) {
    line < e <= |s| && (forall i :: line < i < e ==> s[i] == '\n') && (e < |s| ==> s[e] != '\n')
  }

  lemma ConstraintAbsent(s: string, n: nat, opening: string)
    requires n <= |s| && Constraint(s[n..], opening).None?
    ensures NoConstraint(s, n, opening)
  {
    forall e: nat ensures !ConstraintAt(s, n, opening, e) { if n <= e <= |s| { ConstraintExactly(s, n, opening, e); } }
  }

  lemma SecondFound(s: string, first: nat, second: Option<nat>)
    requires first < |s| && second == Constraint(s[first + 1..], PLUS_BUILD)
    ensures if second.None? then SecondAt(s, first, |GO_BUILD|, first) else SecondAt(s, first, first + 1 + |PLUS_BUILD|, first + 1 + second.value)
  {
    if second.None? {
      ConstraintAbsent(s, first + 1, PLUS_BUILD);
    } else {
      ConstraintExactly(s, first + 1, PLUS_BUILD, first + 1 + second.value);
    }
  }

  /** The block with a first constraint and a second one, if there is one. */
  function BlockWith(s: string, first: nat, second: Option<nat>): Build
    requires first < |s| && (second.Some? ==> first + 1 + second.value < |s|)
  {
    if second.Some? then BlockAt(s, first + 1 + |PLUS_BUILD|, first + 1 + second.value) else BlockAt(s, |GO_BUILD|, first)
  }

  lemma BlockRuns(s: string, payload: nat, line: nat)
    requires line < |s|
    ensures var m := BlockAt(s, payload, line); m.payload == payload && m.line == line && NewlinesTo(s, line, m.end)
  {
    var after := s[line + 1..];
    NewlinesBehind(s, line + 1);
    NewlineRunIsLongest(after);
    var e := line + 1 + NewlineRun(after);
    if e < |s| { assert s[e] == after[e - line - 1]; }
  }

  ghost predicate BuiltAt(s: string, first: nat, m: Build) { SecondAt(s, first, m.payload, m.line) && NewlinesTo(s, m.line, m.end) }

  lemma BuildFound(s: string, first: nat, second: Option<nat>)
    requires first < |s| && second == Constraint(s[first + 1..], PLUS_BUILD)
    ensures BuiltAt(s, first, BlockWith(s, first, second))
  {
    SecondFound(s, first, second);
    if second.Some? { BlockRuns(s, first + 1 + |PLUS_BUILD|, first + 1 + second.value); } else { BlockRuns(s, |GO_BUILD|, first); }
  }

  /**
   A block of build constraints is found exactly if a line with the newer form is in front: that line, one with the older form
   behind it if there is one, and all newlines.
  */
  lemma BuildMatchExactly(s: string)
    ensures forall first: nat :: ConstraintAt(s, 0, GO_BUILD, first) ==> BuildMatch(s).Some? && BuiltAt(s, first, BuildMatch(s).value)
    ensures BuildMatch(s).Some? ==> exists first: nat :: ConstraintAt(s, 0, GO_BUILD, first)
  {
    FirstFound(s);
    var r := Constraint(s, GO_BUILD);
    if r.Some? {
      var first, second := r.value, Constraint(s[r.value + 1..], PLUS_BUILD);
      BuildFound(s, first, second);
      assert ConstraintAt(s, 0, GO_BUILD, first);
      BuildIs(s, first, second);
    }
  }

  lemma BuildIs(s: string, first: nat, second: Option<nat>)
    requires Constraint(s, GO_BUILD) == Some(first) && second == Constraint(s[first + 1..], PLUS_BUILD)
    ensures BuildMatch(s) == Some(BlockWith(s, first, second))
  {
  }

  lemma FirstFound(s: string)
    ensures forall e: nat :: ConstraintAt(s, 0, GO_BUILD, e) <==> Constraint(s, GO_BUILD) == Some(e)
  {
    assert s[0..] == s;
    forall e: nat ensures ConstraintAt(s, 0, GO_BUILD, e) <==> Constraint(s, GO_BUILD) == Some(e) {
      if e <= |s| { ConstraintExactly(s, 0, GO_BUILD, e); }
    }
  }

  /** A first line that starts with "#!" ends where its newline is. */
  lemma ShebangExactly(s: string, e: nat)
    ensures ShebangEnd(s) == Some(e) <==>
            3 <= e <= |s| && "#!" <= s && s[e - 1] == '\n' && forall i :: 2 <= i < e - 1 ==> s[i] != '\n'
  {
    if "#!" <= s {
      var rest := s[2..];
      LineEndFirst(rest);
      forall i | 2 <= i < 2 + LineEnd(rest) ensures s[i] != '\n' { assert s[i] == rest[i - 2]; }
      if 2 + LineEnd(rest) < |s| { assert s[2 + LineEnd(rest)] == rest[LineEnd(rest)]; }
    }
  }
}
