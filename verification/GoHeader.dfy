/** scripts/copyright.py on Go files: strip old headers, keep build constraints first, put the header back. */
module GoHeader {
  import opened Text
  import opened HeaderMatchers
  import opened CommentHeaders

  function StripGo(body: string, header: string, digit: char -> bool, changed: bool): Stripped
    decreases |body|
  {
    var apache := ApacheEnd(body, digit);
    if apache.Some? then StripGo(TrimLeft(body[apache.value..], IsSpace), header, digit, true)
    else
      var own := HeaderEnd(body, "//");
      if own.Some? then StripGo(TrimLeft(body[own.value..], IsSpace), header, digit, changed || body[..own.value] != header)
      else Stripped(body, changed)
  }

  function GoTags(file: string): string {
    var m := BuildMatch(file);
    if m.Some? then Trim(file[..m.value.end], IsSpace) + "\n\n" else ""
  }

  function GoBody(file: string): string {
    var m := BuildMatch(file);
    if m.Some? then TrimLeft(file[m.value.end..], IsSpace) else file
  }

  /** The text a run leaves in the file. */
  function GoContent(file: string, header: string, digit: char -> bool): string {
    GoTags(file) + Joined(header, StripGo(GoBody(file), header, digit, false).body)
  }

  /** Whether a run reports the file as changed. */
  predicate GoReport(file: string, header: string, digit: char -> bool) {
    GoContent(file, header, digit) != file || StripGo(GoBody(file), header, digit, false).changed
  }

  method AddGoCopyrightHeader(file: string, copyright: string, digit: char -> bool) returns (text: string, reported: bool)
    ensures text == GoContent(file, CommentHeader(copyright, "//"), digit)
    ensures reported <==> GoReport(file, CommentHeader(copyright, "//"), digit)
  {
    var header := CommentHeader(copyright, "//");
    var tags, body := "", file;
    var build := BuildMatch(file);
    if build.Some? {
      tags := Trim(file[..build.value.end], IsSpace) + "\n\n";
      body := TrimLeft(file[build.value.end..], IsSpace);
    }
    var changed := false;
    while true
      invariant StripGo(body, header, digit, changed) == StripGo(GoBody(file), header, digit, false)
      decreases |body|
    {
      var apache := ApacheEnd(body, digit);
      if apache.Some? {
        body := TrimLeft(body[apache.value..], IsSpace);
        changed := true;
      } else {
        var own := HeaderEnd(body, "//");
        if own.None? { break; }
        var existing := body[..own.value];
        body := TrimLeft(body[own.value..], IsSpace);
        changed := changed || existing != header;
      }
    }
    var content := tags + Joined(header, body);
    if content == file && !changed {
      return file, false;
    }
    return content, true;
  }

  /** A file without a header in front keeps all of its text: build constraints first, the header, and the rest. */
  lemma PlainFileGetsHeader(file: string, h: string, digit: char -> bool)
    requires ApacheEnd(GoBody(file), digit).None? && HeaderEnd(GoBody(file), "//").None?
    ensures GoContent(file, h, digit) == GoTags(file) + h + "\n\n" + GoBody(file)
  {
    assert StripGo(GoBody(file), h, digit, false).body == GoBody(file);
    assert GoTags(file) + Joined(h, GoBody(file)) == GoTags(file) + h + "\n\n" + GoBody(file);
  }

  /** What the removal loop leaves: no header in front, and no white space in front unless nothing was removed. */
  lemma {:induction false} StripGoLeaves(body: string, header: string, digit: char -> bool, changed: bool)
    ensures var r := StripGo(body, header, digit, changed);
            && ApacheEnd(r.body, digit).None? && HeaderEnd(r.body, "//").None?
            && |r.body| <= |body| && (r.body == body || Flush(r.body))
    decreases |body|
  {
    var apache := ApacheEnd(body, digit);
    var own := HeaderEnd(body, "//");
    if apache.Some? {
      StripGoLeaves(TrimLeft(body[apache.value..], IsSpace), header, digit, true);
    } else if own.Some? {
      StripGoLeaves(TrimLeft(body[own.value..], IsSpace), header, digit, changed || body[..own.value] != header);
    }
  }

  /** The removal loop only takes text off the front. */
  lemma {:induction false} StripGoKeepsTail(body: string, header: string, digit: char -> bool, changed: bool)
    ensures Tail(StripGo(body, header, digit, changed).body, body)
    decreases |body|
  {
    var apache := ApacheEnd(body, digit);
    var own := HeaderEnd(body, "//");
    if apache.Some? {
      var rest := TrimLeft(body[apache.value..], IsSpace);
      StripGoKeepsTail(rest, header, digit, true);
      CutKeepsTail(body, apache.value, StripGo(rest, header, digit, true).body);
    } else if own.Some? {
      var rest := TrimLeft(body[own.value..], IsSpace);
      var other := changed || body[..own.value] != header;
      StripGoKeepsTail(rest, header, digit, other);
      CutKeepsTail(body, own.value, StripGo(rest, header, digit, other).body);
    }
  }

  predicate Tail(t: string, s: string) { |t| <= |s| && t == s[|s| - |t|..] }

  lemma CutKeepsTail(s: string, n: nat, t: string)
    requires n <= |s| && Tail(t, TrimLeft(s[n..], IsSpace))
    ensures Tail(t, s)
  {
    TrimLeftEnd(s[n..], IsSpace);
  }

  /** The last build constraint has an expression: it is not just blanks. */
  predicate BuildLegible(file: string) {
    var m := BuildMatch(file);
    m.Some? ==> exists i :: m.value.payload <= i < m.value.line && !IsSpace(file[i])
  }

  /** Trimming text that ends in newlines behind a line with ink. */
  lemma CutAtInk(g: string, ink: nat, line: nat) returns (k: nat)
    requires ink < line <= |g| && !IsSpace(g[ink])
    requires forall i :: line <= i < |g| ==> g[i] == '\n'
    ensures ink < k <= line && !IsSpace(g[k - 1]) && TrimRight(g, IsSpace) == g[..k]
  {
    TrimRightCuts(g, IsSpace);
    k := |TrimRight(g, IsSpace)|;
    assert forall i :: line <= i < |g| ==> IsSpace(g[i]);
  }

  /** Where the kept part of a legible constraint block ends. */
  lemma TagsCut(file: string) returns (k: nat)
    requires BuildMatch(file).Some? && BuildLegible(file)
    ensures var m := BuildMatch(file).value;
            m.payload < k <= m.line && !IsSpace(file[k - 1]) && Trim(file[..m.end], IsSpace) == file[..k]
  {
    var m := BuildMatch(file).value;
    var g := file[..m.end];
    BuildMatchEnd(file);
    StartsWithSlash(file);
    TrimLeftDone(g, IsSpace);
    var i :| m.payload <= i < m.line && !IsSpace(file[i]);
    assert g[i] == file[i] && forall j :: m.line <= j < m.end ==> g[j] == file[j];
    k := CutAtInk(g, i, m.line);
    assert g[..k] == file[..k] && g[k - 1] == file[k - 1];
  }

  lemma StartsWithSlash(file: string)
    requires GO_BUILD <= file
    ensures file[0] == '/' && !IsSpace(file[0])
  {
    assert file[0] == GO_BUILD[0];
  }

  /** The constraint block cut off at `k` and followed by a blank line matches up to there. */
  lemma BlockReread(file: string, k: nat, rest: string)
    requires BuildMatch(file).Some? && rest != "" && rest[0] == '/'
    requires BuildMatch(file).value.payload < k <= BuildMatch(file).value.line
    ensures var m := BuildMatch(file[..k] + "\n\n" + rest); m.Some? && m.value.end == k + 2
  {
    var first := Constraint(file, GO_BUILD).value;
    if HasPlus(file) {
      PlusReread(file, first, Constraint(file[first + 1..], PLUS_BUILD).value, k, rest);
    } else {
      GoReread(file, k, rest);
    }
  }

  lemma PlusReread(file: string, first: nat, second: nat, k: nat, rest: string)
    requires Constraint(file, GO_BUILD) == Some(first) && Constraint(file[first + 1..], PLUS_BUILD) == Some(second)
    requires rest != "" && rest[0] == '/' && first + 1 + |PLUS_BUILD| < k <= first + 1 + second
    ensures var m := BuildMatch(file[..k] + "\n\n" + rest); m.Some? && m.value.end == k + 2
  {
    var t := file[..k] + "\n\n" + rest;
    assert t[..first + 1] == file[..first + 1] && t[k + 1..] == "\n" + rest;
    BlockRereadFirst(file, first, t);
    BlockRereadPlus(file, first, k, rest);
    OneNewline(rest);
    BlockEndPlus(t, first, k - first - 1);
  }

  lemma GoReread(file: string, k: nat, rest: string)
    requires Constraint(file, GO_BUILD).Some? && rest != "" && rest[0] == '/'
    requires |GO_BUILD| < k <= Constraint(file, GO_BUILD).value
    ensures var m := BuildMatch(file[..k] + "\n\n" + rest); m.Some? && m.value.end == k + 2
  {
    var t := file[..k] + "\n\n" + rest;
    assert t[..k] == file[..k] && t[k] == '\n' && t[k + 1..] == "\n" + rest;
    BlockRereadGo(file, k, t);
    BlockEndGo(t, k, rest);
  }

  /** Whether a second constraint line follows the first. */
  predicate HasPlus(file: string)
    requires BuildMatch(file).Some?
  {
    Constraint(file[Constraint(file, GO_BUILD).value + 1..], PLUS_BUILD).Some?
  }

  /** The first constraint cut at `k`. */
  lemma BlockRereadGo(file: string, k: nat, t: string)
    requires Constraint(file, GO_BUILD).Some? && |GO_BUILD| < k <= Constraint(file, GO_BUILD).value
    requires k < |t| && t[..k] == file[..k] && t[k] == '\n'
    ensures Constraint(t, GO_BUILD) == Some(k)
  {
    ConstraintLine(file, GO_BUILD);
    SamePrefix(file, k, t);
    ConstraintIs(t, GO_BUILD, k);
  }

  lemma SamePrefix(file: string, k: nat, t: string)
    requires |GO_BUILD| < k <= |file| && k <= |t| && t[..k] == file[..k]
    ensures GO_BUILD <= file ==> GO_BUILD <= t
    ensures forall i :: 0 <= i < k ==> t[i] == file[i]
  {
    assert forall i :: 0 <= i < k ==> t[i] == t[..k][i] && file[i] == file[..k][i];
  }

  /** The first constraint left whole. */
  lemma BlockRereadFirst(file: string, first: nat, t: string)
    requires Constraint(file, GO_BUILD) == Some(first)
    requires first + 1 <= |t| && t[..first + 1] == file[..first + 1]
    ensures Constraint(t, GO_BUILD) == Some(first)
  {
    ConstraintLine(file, GO_BUILD);
    SamePrefix(file, first + 1, t);
    ConstraintIs(t, GO_BUILD, first);
  }

  lemma BlockRereadPlus(file: string, first: nat, k: nat, rest: string)
    requires first < |file| && Constraint(file[first + 1..], PLUS_BUILD).Some?
    requires first + 1 + |PLUS_BUILD| < k <= first + 1 + Constraint(file[first + 1..], PLUS_BUILD).value
    ensures Constraint((file[..k] + "\n\n" + rest)[first + 1..], PLUS_BUILD) == Some(k - first - 1)
  {
    var after := (file[..k] + "\n\n" + rest)[first + 1..];
    var before := file[first + 1..];
    ConstraintLine(before, PLUS_BUILD);
    assert forall i :: 0 <= i < k - first - 1 ==> after[i] == before[i];
    assert after[k - first - 1] == '\n';
    assert PLUS_BUILD <= after;
    ConstraintIs(after, PLUS_BUILD, k - first - 1);
  }

  /** A block of one constraint ends behind the blank line that follows it. */
  lemma BlockEndGo(t: string, k: nat, rest: string)
    requires rest != "" && rest[0] == '/' && k + 2 <= |t| && t[k + 1..] == "\n" + rest
    requires Constraint(t, GO_BUILD) == Some(k)
    ensures BuildMatch(t).Some? && BuildMatch(t).value.end == k + 2
  {
    OneNewline(rest);
    NoPlus("\n" + rest);
  }

  /** A block of two constraints ends behind the blank line that follows the second. */
  lemma BlockEndPlus(t: string, first: nat, second: nat)
    requires Constraint(t, GO_BUILD) == Some(first) && Constraint(t[first + 1..], PLUS_BUILD) == Some(second)
    requires NewlineRun(t[first + 1 + second + 1..]) == 1
    ensures BuildMatch(t).Some? && BuildMatch(t).value.end == first + second + 3
  {
    BuildIs(t, first, Some(second));
  }

  lemma NoPlus(s: string)
    requires s != "" && s[0] != '/'
    ensures Constraint(s, PLUS_BUILD).None?
  {
    assert PLUS_BUILD[0] == '/';
  }

  lemma OneNewline(rest: string)
    requires rest == "" || rest[0] != '\n'
    ensures NewlineRun("\n" + rest) == 1
  {
    assert ("\n" + rest)[1..] == rest;
  }

  lemma TrimBlankLine(kept: string)
    requires kept != "" && !IsSpace(kept[0]) && !IsSpace(kept[|kept| - 1])
    ensures Trim(kept + "\n\n", IsSpace) == kept
  {
    TrimLeftDone(kept + "\n\n", IsSpace);
    TrimRightKeepsPrefix(kept, "\n\n", IsSpace);
    TrimRightAll("\n\n", IsSpace);
  }

  /** A legible constraint block is read back as written, with its blank line, when a header follows it. */
  lemma TagsReread(file: string, rest: string)
    requires BuildMatch(file).Some? && BuildLegible(file)
    requires rest != "" && rest[0] == '/'
    ensures GoTags(GoTags(file) + rest) == GoTags(file)
    ensures GoBody(GoTags(file) + rest) == rest
  {
    StartsWithSlash(file);
    var k := TagsCut(file);
    var kept := file[..k];
    assert kept[0] == file[0] && kept[k - 1] == file[k - 1];
    BlockReread(file, k, rest);
    TrimBlankLine(kept);
    TrimLeftDone(rest, IsSpace);
    RereadParts(kept, rest);
  }

  lemma RereadParts(kept: string, rest: string)
    ensures (kept + "\n\n" + rest)[..|kept| + 2] == kept + "\n\n"
    ensures (kept + "\n\n" + rest)[|kept| + 2..] == rest
    ensures (kept + "\n\n") + rest == kept + "\n\n" + rest
  {
  }

  /** Text that opens with a line comment other than a build constraint has no constraint block and no block comment. */
  lemma LineCommentOpens(t: string, digit: char -> bool)
    requires |t| >= 3 && t[..3] == "// "
    ensures BuildMatch(t).None? && ApacheEnd(t, digit).None?
  {
    assert t[2] == t[..3][2] && t[1] == t[..3][1];
    assert GO_BUILD[2] == 'g';
  }

  lemma HeaderOpens(h: string, b: string, digit: char -> bool)
    requires HeaderText(h, "//")
    ensures BuildMatch(Joined(h, b)).None? && ApacheEnd(Joined(h, b), digit).None?
    ensures h[0] == '/'
  {
    var t := Joined(h, b);
    assert t[..3] == ("// Copyright")[..3];
    LineCommentOpens(t, digit);
    assert h[0] == ("// Copyright")[0];
  }

  /** One step of the loop that takes off the header itself and leaves nothing to remove. */
  lemma StripOnce(u: string, m: nat, h: string, b: string, digit: char -> bool)
    requires ApacheEnd(u, digit).None? && HeaderEnd(u, "//") == Some(m) && u[..m] == h && TrimLeft(u[m..], IsSpace) == b
    requires ApacheEnd(b, digit).None? && HeaderEnd(b, "//").None?
    ensures StripGo(u, h, digit, false) == Stripped(b, false)
  {
  }

  /** One header in front of stripped text: the loop removes exactly the header. */
  lemma StripOwnHeader(h: string, b: string, digit: char -> bool)
    requires HeaderText(h, "//") && Recognised(h, "//") && Flush(b)
    requires ApacheEnd(b, digit).None? && HeaderEnd(b, "//").None?
    ensures StripGo(Joined(h, b), h, digit, false) == Stripped(b, false)
  {
    var t := Joined(h, b);
    HeaderOpens(h, b, digit);
    OwnHeaderMatch(h, "//", b);
    TrimAfterHeader(h, b, |h|);
    TrimLeftDone(b, IsSpace);
    assert t[..|h|] == h;
    StripOnce(t, |h|, h, b, digit);
  }

  /** A header the expression does not recognise stays. */
  lemma StripUnrecognised(h: string, b: string, digit: char -> bool)
    requires HeaderText(h, "//") && !Recognised(h, "//")
    ensures StripGo(Joined(h, b), h, digit, false) == Stripped(Joined(h, b), false)
  {
    HeaderOpens(h, b, digit);
    OwnHeaderMatch(h, "//", b);
  }

  lemma TrimAfterHeader(h: string, b: string, m: nat)
    requires m == |h| || (m == |h| + 1 && b != "" && b[0] == '\n')
    ensures TrimLeft(Joined(h, b)[m..], IsSpace) == TrimLeft(b, IsSpace)
  {
    var t := Joined(h, b);
    if m == |h| {
      assert t[m..] == "\n\n" + b;
      TrimLeftAll("\n\n", b, IsSpace);
    } else {
      assert t[m..] == "\n" + b;
      TrimLeftAll("\n", b, IsSpace);
    }
  }

  /** White space behind the header does not survive the next run. */
  lemma StripShortens(h: string, b: string, digit: char -> bool)
    requires HeaderText(h, "//") && Recognised(h, "//") && !Flush(b)
    ensures |StripGo(Joined(h, b), h, digit, false).body| < |b|
  {
    var t := Joined(h, b);
    HeaderOpens(h, b, digit);
    OwnHeaderMatch(h, "//", b);
    var m := HeaderEnd(t, "//").value;
    TrimAfterHeader(h, b, m);
    assert |TrimLeft(b, IsSpace)| < |b|;
    StripGoLeaves(TrimLeft(b, IsSpace), h, digit, t[..m] != h);
  }

  /** Text that starts with white space is left as it is. */
  lemma StripNothing(file: string, h: string, digit: char -> bool)
    requires !Flush(file)
    ensures BuildMatch(file).None? && StripGo(file, h, digit, false) == Stripped(file, false)
  {
    assert "/*"[0] == '/' && GO_BUILD[0] == '/';
    assert ("//" + " # Copyright")[0] == '/' && ("//" + " Copyright")[0] == '/';
    assert !IsSpace('/');
  }

  /** What a run reports, from the parts it reads and what the loop leaves of the body. */
  lemma ReportFrom(t: string, tags: string, body: string, h: string, digit: char -> bool, r: Stripped)
    requires GoTags(t) == tags && GoBody(t) == body && StripGo(body, h, digit, false) == r
    ensures GoReport(t, h, digit) <==> tags + Joined(h, r.body) != t || r.changed
  {
  }

  /** A run over its own output: clean exactly when the header is recognised and the body was stripped in front. */
  lemma RunOverOutput(tags: string, h: string, b: string, digit: char -> bool)
    requires HeaderText(h, "//") && ApacheEnd(b, digit).None? && HeaderEnd(b, "//").None?
    requires GoTags(tags + Joined(h, b)) == tags && GoBody(tags + Joined(h, b)) == Joined(h, b)
    ensures !GoReport(tags + Joined(h, b), h, digit) <==> Recognised(h, "//") && Flush(b)
  {
    var rest := Joined(h, b);
    var t := tags + rest;
    var r := StripGo(rest, h, digit, false);
    if !Recognised(h, "//") {
      StripUnrecognised(h, b, digit);
    } else if Flush(b) {
      StripOwnHeader(h, b, digit);
    } else {
      StripShortens(h, b, digit);
    }
    ReportFrom(t, tags, rest, h, digit, r);
    assert |tags + Joined(h, r.body)| == |tags| + |h| + 2 + |r.body|;
    assert |t| == |tags| + |h| + 2 + |b|;
    if r.body == b { assert tags + Joined(h, b) == t; }
  }

  lemma UntaggedParts(file: string, h: string, digit: char -> bool)
    requires HeaderText(h, "//") && BuildMatch(file).None?
    ensures var rest := Joined(h, StripGo(file, h, digit, false).body);
            GoContent(file, h, digit) == rest && GoTags(rest) == "" && GoBody(rest) == rest
  {
    HeaderOpens(h, StripGo(file, h, digit, false).body, digit);
  }

  /** A second run, for a file without build constraints. */
  lemma SecondRunUntagged(file: string, h: string, digit: char -> bool)
    requires HeaderText(h, "//") && BuildMatch(file).None?
    ensures !GoReport(GoContent(file, h, digit), h, digit) <==> Recognised(h, "//") && Flush(file)
  {
    var b := StripGo(file, h, digit, false).body;
    UntaggedParts(file, h, digit);
    StripGoLeaves(file, h, digit, false);
    if !Flush(file) { StripNothing(file, h, digit); }
    assert "" + (Joined(h, b)) == Joined(h, b);
    RunOverOutput("", h, b, digit);
  }

  lemma TaggedParts(file: string, h: string, digit: char -> bool)
    requires HeaderText(h, "//") && BuildMatch(file).Some? && BuildLegible(file)
    ensures var rest := Joined(h, StripGo(GoBody(file), h, digit, false).body);
            && GoContent(file, h, digit) == GoTags(file) + rest
            && GoTags(GoTags(file) + rest) == GoTags(file) && GoBody(GoTags(file) + rest) == rest
  {
    var b := StripGo(GoBody(file), h, digit, false).body;
    HeaderOpens(h, b, digit);
    TagsReread(file, Joined(h, b));
  }

  /** A second run, for a file whose last build constraint has an expression. */
  lemma SecondRunTagged(file: string, h: string, digit: char -> bool)
    requires HeaderText(h, "//") && BuildMatch(file).Some? && BuildLegible(file)
    ensures !GoReport(GoContent(file, h, digit), h, digit) <==> Recognised(h, "//")
  {
    TaggedParts(file, h, digit);
    var body := GoBody(file);
    StripGoLeaves(body, h, digit, false);
    RunOverOutput(GoTags(file), h, StripGo(body, h, digit, false).body, digit);
  }

  /** A constraint block whose last expression is blank is cut down to its bare opening. */
  lemma IllegibleCut(file: string)
    requires BuildMatch(file).Some? && !BuildLegible(file)
    ensures var m := BuildMatch(file).value;
            Trim(file[..m.end], IsSpace) == file[..m.payload - 1]
  {
    var m := BuildMatch(file).value;
    var g := file[..m.end];
    var kept := file[..m.payload - 1];
    StartsWithSlash(file);
    TrimLeftDone(g, IsSpace);
    PayloadBoundary(file);
    BuildMatchEnd(file);
    var tail := file[m.payload - 1..m.end];
    assert g == kept + tail;
    assert forall i :: 0 <= i < |tail| ==> IsSpace(tail[i]);
    TrimRightKeepsPrefix(kept, tail, IsSpace);
    TrimRightAll(tail, IsSpace);
  }

  /** In front of a constraint's expression stand a blank and, before it, the last letter of the opening. */
  lemma PayloadBoundary(file: string)
    requires BuildMatch(file).Some?
    ensures var p := BuildMatch(file).value.payload; file[p - 1] == ' ' && file[p - 2] == 'd'
  {
    var first := Constraint(file, GO_BUILD).value;
    var after := file[first + 1..];
    assert GO_BUILD[10] == ' ' && GO_BUILD[9] == 'd' && PLUS_BUILD[9] == ' ' && PLUS_BUILD[8] == 'd';
    if Constraint(after, PLUS_BUILD).Some? {
      assert after[9] == file[first + 10] && after[8] == file[first + 9];
      assert after[9] == PLUS_BUILD[9] && after[8] == PLUS_BUILD[8];
    } else {
      assert file[10] == GO_BUILD[10] && file[9] == GO_BUILD[9];
    }
  }

  /** Text that opens neither a block comment nor a line comment with a blank stays as it is. */
  lemma StripNotAHeader(body: string, h: string, digit: char -> bool)
    requires |body| >= 4 && body[0] == '/' && body[1] == '/' && (body[2] != ' ' || body[3] == '+')
    ensures StripGo(body, h, digit, false) == Stripped(body, false)
  {
    assert "/*"[1] == '*';
    assert ("//" + " # Copyright")[2] == ' ' && ("//" + " Copyright")[2] == ' ';
    assert ("//" + " # Copyright")[3] == '#' && ("//" + " Copyright")[3] == 'C';
  }

  /** A bare `//go:build` is no constraint for the next run, which puts a header in front of it. */
  lemma BareGoBuild(opening: string, rest: string, h: string, digit: char -> bool)
    requires h != "" && |opening| == 10 && opening[0] == '/' && opening[1] == '/' && opening[2] == 'g'
    ensures GoReport(opening + ("\n\n" + rest), h, digit)
  {
    var t := opening + ("\n\n" + rest);
    assert GO_BUILD[10] == ' ' && t[10] == '\n';
    assert t[0] == '/' && t[1] == '/' && t[2] == 'g';
    StripNotAHeader(t, h, digit);
    ReportFrom(t, "", t, h, digit, Stripped(t, false));
    assert |Joined(h, t)| > |t|;
  }

  /** A comment line where the second constraint's blank is missing: the constraint block ends before it. */
  lemma BarePlusMatch(t: string, first: nat)
    requires Constraint(t, GO_BUILD) == Some(first)
    requires |t| > first + 10 && t[first + 1] == '/' && t[first + 10] == '\n'
    ensures BuildMatch(t).Some? && BuildMatch(t).value.end == first + 1
  {
    var u := t[first + 1..];
    assert u[9] == '\n' && PLUS_BUILD[9] == ' ';
    assert u[0] == '/';
    assert Constraint(u, PLUS_BUILD).None?;
  }

  /** A text cut where its constraint block ends, in front of a line comment. */
  lemma PartsAt(block: string, u: string)
    requires BuildMatch(block + u).Some? && BuildMatch(block + u).value.end == |block|
    requires u != "" && !IsSpace(u[0])
    ensures GoTags(block + u) == Trim(block, IsSpace) + "\n\n" && GoBody(block + u) == u
  {
    assert (block + u)[..|block|] == block && (block + u)[|block|..] == u;
    TrimLeftDone(u, IsSpace);
  }

  lemma BarePlusBlock(file: string, first: nat, u: string)
    requires Constraint(file, GO_BUILD) == Some(first)
    requires |u| > 9 && u[0] == '/' && u[9] == '\n'
    ensures var m := BuildMatch(file[..first + 1] + u); m.Some? && m.value.end == first + 1
  {
    var t := file[..first + 1] + u;
    BlockRereadFirst(file, first, t);
    assert t[first + 1] == u[0] && t[first + 10] == u[9];
    BarePlusMatch(t, first);
  }

  lemma BarePlusParts(file: string, first: nat, u: string)
    requires Constraint(file, GO_BUILD) == Some(first)
    requires |u| > 9 && u[0] == '/' && u[9] == '\n'
    ensures GoTags(file[..first + 1] + u) == Trim(file[..first + 1], IsSpace) + "\n\n"
    ensures GoBody(file[..first + 1] + u) == u
  {
    BarePlusBlock(file, first, u);
    assert !IsSpace('/');
    PartsAt(file[..first + 1], u);
  }

  /** Two texts that part where one has a blank line. */
  lemma PartAtBlankLine(x: string, rest: string, file: string, first: nat, u: string)
    requires |x| <= first < |file| && file[first] == '\n' && (|x| < first ==> file[|x|] != '\n')
    requires u != "" && u[0] != '\n'
    ensures x + "\n\n" + rest != file[..first + 1] + u
  {
    var c := x + "\n\n" + rest;
    var t := file[..first + 1] + u;
    assert c[|x|] == '\n' && c[|x| + 1] == '\n';
    assert t[first + 1] == u[0];
    assert t[|x|] == file[|x|];
  }

  lemma BarePlusBuild(file: string, first: nat, u: string, h: string, digit: char -> bool)
    requires Constraint(file, GO_BUILD) == Some(first)
    requires |u| > 9 && u[0] == '/' && u[1] == '/' && u[2] == ' ' && u[3] == '+' && u[9] == '\n'
    ensures GoReport(file[..first + 1] + u, h, digit)
  {
    var x := Trim(file[..first + 1], IsSpace);
    BarePlusParts(file, first, u);
    StripNotAHeader(u, h, digit);
    ReportFrom(file[..first + 1] + u, x + "\n\n", u, h, digit, Stripped(u, false));
    TrimmedLine(file, first);
    PartAtBlankLine(x, Joined(h, u), file, first, u);
  }

  lemma TrimmedLine(file: string, first: nat)
    requires Constraint(file, GO_BUILD) == Some(first)
    ensures var x := Trim(file[..first + 1], IsSpace);
            |x| <= first && (|x| < first ==> file[|x|] != '\n')
  {
    var g := file[..first + 1];
    StartsWithSlash(file);
    TrimLeftDone(g, IsSpace);
    var x := TrimRight(g, IsSpace);
    ConstraintLine(file, GO_BUILD);
    assert g[first] == '\n';
    assert x != "" ==> !IsSpace(x[|x| - 1]) && x[|x| - 1] == g[|x| - 1];
    assert forall i :: 0 <= i < 11 ==> file[i] == GO_BUILD[i] && GO_BUILD[i] != '\n';
  }

  /** What the first run writes over a blank constraint. */
  lemma IllegibleContent(file: string, h: string, digit: char -> bool)
    requires BuildMatch(file).Some? && !BuildLegible(file)
    ensures var m := BuildMatch(file).value;
            var rest := Joined(h, StripGo(GoBody(file), h, digit, false).body);
            GoContent(file, h, digit) == file[..m.payload - 1] + ("\n\n" + rest)
  {
    IllegibleCut(file);
  }

  lemma BareFirst(file: string, p: nat, rest: string, h: string, digit: char -> bool)
    requires h != "" && GO_BUILD <= file && p == 10
    ensures GoReport(file[..p] + ("\n\n" + rest), h, digit)
  {
    GoBuildOpening(file);
    BareGoBuild(file[..p], rest, h, digit);
  }

  lemma BareSecond(file: string, first: nat, p: nat, rest: string, h: string, digit: char -> bool)
    requires Constraint(file, GO_BUILD) == Some(first) && PLUS_BUILD <= file[first + 1..] && p == first + 10
    ensures p <= |file| && GoReport(file[..p] + ("\n\n" + rest), h, digit)
  {
    PlusBuildOpening(file, first);
    BareCut(file, first, p, "\n\n" + rest, h, digit);
  }

  lemma BareCut(file: string, first: nat, p: nat, rest: string, h: string, digit: char -> bool)
    requires Constraint(file, GO_BUILD) == Some(first) && p < |file| && p == first + 10
    requires file[first + 1] == '/' && file[first + 2] == '/' && file[first + 3] == ' ' && file[first + 4] == '+'
    requires rest != "" && rest[0] == '\n'
    ensures GoReport(file[..p] + rest, h, digit)
  {
    var u := file[first + 1..p] + rest;
    assert u[0] == file[first + 1] && u[1] == file[first + 2] && u[2] == file[first + 3] && u[3] == file[first + 4] && u[9] == rest[0];
    assert file[..p] + rest == file[..first + 1] + u;
    BarePlusBuild(file, first, u, h, digit);
  }

  lemma PayloadOf(file: string)
    requires BuildMatch(file).Some?
    ensures BuildMatch(file).value.payload == if HasPlus(file) then Constraint(file, GO_BUILD).value + 11 else 11
  {
  }

  lemma IllegibleReported(file: string, p: nat, rest: string, h: string, digit: char -> bool)
    requires h != "" && BuildMatch(file).Some? && p == BuildMatch(file).value.payload - 1
    ensures GoReport(file[..p] + ("\n\n" + rest), h, digit)
  {
    PayloadOf(file);
    if HasPlus(file) {
      BareSecond(file, Constraint(file, GO_BUILD).value, p, rest, h, digit);
    } else {
      BareFirst(file, p, rest, h, digit);
    }
  }

  /** A second run, for a file whose last build constraint is blank: it always changes the file again. */
  lemma SecondRunIllegible(file: string, h: string, digit: char -> bool)
    requires h != "" && BuildMatch(file).Some? && !BuildLegible(file)
    ensures GoReport(GoContent(file, h, digit), h, digit)
  {
    var rest := Joined(h, StripGo(GoBody(file), h, digit, false).body);
    var p := BuildMatch(file).value.payload - 1;
    IllegibleContent(file, h, digit);
    IllegibleReported(file, p, rest, h, digit);
  }

  lemma GoBuildOpening(file: string)
    requires GO_BUILD <= file
    ensures file[0] == '/' && file[1] == '/' && file[2] == 'g'
  {
    assert file[0] == GO_BUILD[0] && file[1] == GO_BUILD[1] && file[2] == GO_BUILD[2];
  }

  lemma PlusBuildOpening(file: string, first: nat)
    requires first < |file| && PLUS_BUILD <= file[first + 1..]
    ensures first + 11 <= |file|
    ensures file[first + 1] == '/' && file[first + 2] == '/' && file[first + 3] == ' ' && file[first + 4] == '+'
  {
    var after := file[first + 1..];
    assert PLUS_BUILD[0] == '/' && PLUS_BUILD[1] == '/' && PLUS_BUILD[2] == ' ' && PLUS_BUILD[3] == '+';
    assert forall i :: 0 <= i < 4 ==> after[i] == PLUS_BUILD[i] && after[i] == file[first + 1 + i];
  }

  /**
   The Go path reaches a fixpoint in one run exactly when the header is recognised by the expression that looks for
   headers, the file does not start with white space and its last build constraint is not blank.
   */
  lemma GoSecondRun(file: string, copyright: string, digit: char -> bool)
    requires "Copyright" <= copyright
    ensures var h := CommentHeader(copyright, "//");
            && HeaderText(h, "//")
            && (!GoReport(GoContent(file, h, digit), h, digit)
                <==> Recognised(h, "//") && Flush(file) && BuildLegible(file))
  {
    var h := CommentHeader(copyright, "//");
    CommentHeaderShape(copyright, "//");
    if BuildMatch(file).None? {
      SecondRunUntagged(file, h, digit);
    } else {
      StartsWithSlash(file);
      if BuildLegible(file) {
        SecondRunTagged(file, h, digit);
      } else {
        SecondRunIllegible(file, h, digit);
      }
    }
  }
}
