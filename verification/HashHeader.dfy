/** scripts/copyright.py on files with `#` comments: headers are found anywhere in the file, a shebang stays in front. */
module HashHeader {
  import opened Text
  import opened HeaderMatchers
  import opened CommentHeaders

  /** The text without a match, the parts around it joined by one blank line. */
  function RemoveMatch(text: string, m: Span): (r: string)
    requires m.start + 11 <= m.end && BlankAt(text, m.end)
    ensures |r| < |text|
  {
    var before := TrimRight(text[..m.start], IsNewline);
    var rest := text[m.end..];
    assert rest[0] == '\n' && rest[1] == '\n';
    var after := TrimLeft(rest, IsNewline);
    assert IsNewline(rest[0]) && IsNewline(rest[1..][0]);
    assert after == TrimLeft(rest[1..], IsNewline) == TrimLeft(rest[1..][1..], IsNewline);
    if before != "" && after != "" then before + "\n\n" + after
    else if before != "" then before
    else after
  }

  function StripHash(body: string, header: string, changed: bool): Stripped
    decreases |body|
  {
    var m := FindHeader(body, "#", true);
    if m.Some? then
      StripHash(TrimLeft(RemoveMatch(body, m.value), IsSpace), header, changed || body[m.value.start..m.value.end] != header)
    else Stripped(body, changed)
  }

  function Shebang(file: string): string {
    var e := ShebangEnd(file);
    if e.Some? then TrimRight(file[..e.value], IsSpace) + "\n" else ""
  }

  function HashBody(file: string): string {
    var e := ShebangEnd(file);
    if e.Some? then TrimLeft(file[e.value..], IsSpace) else file
  }

  /** Removal of all headers, then at most one blank line in a row. */
  function StripAll(body: string, header: string): Stripped {
    var r := StripHash(body, header, false);
    Stripped(CollapseBlank(r.body), r.changed)
  }

  function Ink(s: string): string { Trim(s, IsSpace) }

  /** The text a run leaves in the file, and whether it reports the file as changed. */
  datatype Run = Run(text: string, reported: bool)

  function Outcome(file: string, shebang: string, r: Stripped, header: string): Run {
    if Ink(r.body) == "" then Run(shebang + header + "\n", true)
    else if Ink(r.body) == header && shebang == "" then Run(file, r.changed)
    else Run(shebang + Joined(header, r.body), shebang + Joined(header, r.body) != file || r.changed)
  }

  function HashRun(file: string, header: string): Run {
    Outcome(file, Shebang(file), StripAll(HashBody(file), header), header)
  }

  method RemoveHeaders(text: string, header: string) returns (body: string, changed: bool)
    ensures Stripped(body, changed) == StripHash(text, header, false)
  {
    body, changed := text, false;
    while true
      invariant StripHash(body, header, changed) == StripHash(text, header, false)
      decreases |body|
    {
      var m := FindHeader(body, "#", true);
      if m.None? { break; }
      var existing := body[m.value.start..m.value.end];
      body := TrimLeft(RemoveMatch(body, m.value), IsSpace);
      changed := changed || existing != header;
    }
  }

  method AddCopyrightHeader(file: string, copyright: string) returns (text: string, reported: bool)
    ensures Run(text, reported) == HashRun(file, CommentHeader(copyright, "#"))
  {
    var header := CommentHeader(copyright, "#");
    var shebang, body := "", file;
    var e := ShebangEnd(body);
    if e.Some? {
      shebang := TrimRight(body[..e.value], IsSpace) + "\n";
      body := TrimLeft(body[e.value..], IsSpace);
    }
    assert shebang == Shebang(file) && body == HashBody(file);
    var changed;
    body, changed := RemoveHeaders(body, header);
    body := CollapseBlank(body);
    assert Stripped(body, changed) == StripAll(HashBody(file), header);
    var ink := Ink(body);
    if ink == "" {
      return shebang + header + "\n", true;
    } else if ink == header && shebang == "" {
      return file, changed;
    }
    var content := shebang + Joined(header, body);
    if content == file && !changed {
      return file, false;
    }
    return content, true;
  }

  /** White space at both ends is no ink, and nothing else is taken away. */
  lemma InkIsText(front: string, s: string, end: string)
    requires (forall i :: 0 <= i < |front| ==> IsSpace(front[i])) && forall i :: 0 <= i < |end| ==> IsSpace(end[i])
    requires s != "" && !IsSpace(s[0]) && !IsSpace(s[|s| - 1])
    ensures Ink(front + s + end) == s
  {
    TrimExactly(front, s, end, IsSpace);
  }

  // ---- What a run writes ----

  /** The header is in front, behind a shebang at most, unless the file holds just the header already. */
  lemma HeaderInFront(file: string, h: string)
    ensures var r := HashRun(file, h);
            Shebang(file) + h <= r.text || (r.text == file && Ink(StripAll(HashBody(file), h).body) == h)
  {
    var body := StripAll(HashBody(file), h).body;
    assert Shebang(file) + Joined(h, body) == Shebang(file) + h + ("\n\n" + body);
  }

  /** A file with text and no header in it keeps all of its text behind the header, but for blank lines in a row. */
  lemma PlainFileGetsHeader(file: string, h: string)
    requires FindHeader(HashBody(file), "#", true).None? && Ink(CollapseBlank(HashBody(file))) !in {"", h}
    ensures HashRun(file, h).text == Shebang(file) + h + "\n\n" + CollapseBlank(HashBody(file))
  {
    var body := CollapseBlank(HashBody(file));
    assert StripAll(HashBody(file), h).body == body;
    assert Shebang(file) + Joined(h, body) == Shebang(file) + h + "\n\n" + body;
  }

  // ---- One blank line in a row ----

  lemma CollapseStart(s: string)
    ensures CollapseBlank(s) == "" <==> s == ""
    ensures s != "" ==> CollapseBlank(s)[0] == s[0]
    ensures BlankAt(CollapseBlank(s), 0) ==> BlankAt(s, 0)
  {
    if BlankAt(s, 0) && BlankAt(s, 1) {
      CollapseStart(s[1..]);
    } else if s != "" {
      CollapseStart(s[1..]);
    }
  }

  lemma CollapseIdempotent(s: string)
    ensures CollapseBlank(CollapseBlank(s)) == CollapseBlank(s)
  {
    if BlankAt(s, 0) && BlankAt(s, 1) {
      CollapseIdempotent(s[1..]);
    } else if s != "" {
      var c := CollapseBlank(s[1..]);
      CollapseIdempotent(s[1..]);
      CollapseStart(s[1..]);
      var r := [s[0]] + c;
      assert r[1..] == c;
      assert BlankAt(r, 1) ==> BlankAt(c, 0);
      assert BlankAt(s[1..], 0) ==> BlankAt(s, 1);
    }
  }

  /** Two blank lines in a row. */
  predicate TwoBlanks(s: string) { exists i :: 0 <= i < |s| && BlankAt(s, i) && BlankAt(s, i + 1) }

  lemma TwoBlanksTail(s: string)
    requires s != ""
    ensures TwoBlanks(s) <==> (BlankAt(s, 0) && BlankAt(s, 1)) || TwoBlanks(s[1..])
  {
    if i :| 0 <= i < |s| && BlankAt(s, i) && BlankAt(s, i + 1) {
      if i > 0 { assert BlankAt(s[1..], i - 1) && BlankAt(s[1..], i - 1 + 1); }
    }
    if j :| 0 <= j < |s| - 1 && BlankAt(s[1..], j) && BlankAt(s[1..], j + 1) {
      assert BlankAt(s, j + 1) && BlankAt(s, j + 1 + 1);
    }
  }

  /** Exactly the texts without two blank lines in a row stay as they are. */
  lemma {:induction false} CollapseFixpoints(s: string)
    ensures CollapseBlank(s) == s <==> !TwoBlanks(s)
  {
    if s != "" {
      TwoBlanksTail(s);
      CollapseFixpoints(s[1..]);
      if !(BlankAt(s, 0) && BlankAt(s, 1)) && CollapseBlank(s) == s { assert CollapseBlank(s[1..]) == s[1..]; }
    }
  }

  /** A second blank line in a row makes no difference, wherever it stands. */
  lemma {:induction false} CollapseDropsOne(a: string, b: string)
    ensures CollapseBlank(a + "\n\n\n" + b) == CollapseBlank(a + "\n\n" + b)
    decreases |a|
  {
    var long, short := a + "\n\n\n" + b, a + "\n\n" + b;
    if a == "" {
      assert BlankAt(long, 0) && BlankAt(long, 1) && long[1..] == short;
    } else {
      CollapseDropsOne(a[1..], b);
      assert long[1..] == a[1..] + "\n\n\n" + b && short[1..] == a[1..] + "\n\n" + b;
      assert BlankAt(long, 0) == BlankAt(short, 0);
      assert BlankAt(long, 1) == BlankAt(short, 1);
    }
  }

  lemma CollapseNothing(s: string)
    requires FirstBlank(s).None?
    ensures CollapseBlank(s) == s
  {
    if s != "" {
      assert !BlankAt(s, 0);
      forall i ensures !BlankAt(s[1..], i) { if 0 <= i { assert BlankAt(s[1..], i) == BlankAt(s, i + 1); } }
      CollapseNothing(s[1..]);
    }
  }

  /** Blank lines do not matter to a pattern without newlines. */
  lemma CollapsePrefix(s: string, pat: string)
    requires pat <= CollapseBlank(s) && forall i :: 0 <= i < |pat| ==> pat[i] != '\n'
    ensures pat <= s && CollapseBlank(s)[|pat|..] == CollapseBlank(s[|pat|..])
  {
    if pat != "" {
      CollapseStart(s);
      assert pat[0] == s[0];
      var c := CollapseBlank(s[1..]);
      assert CollapseBlank(s) == [s[0]] + c;
      assert CollapseBlank(s)[1..] == c;
      assert pat[1..] <= c;
      CollapsePrefix(s[1..], pat[1..]);
      assert s[1..][|pat| - 1..] == s[|pat|..];
      assert c[|pat| - 1..] == CollapseBlank(s)[|pat|..];
    }
  }

  /** When the run that follows "Copyright" finds a blank line. */
  lemma RunFound(s: string)
    ensures RunEnd(s).Some? <==> BlankAt(s, 0) || (s != "" && s[0] != '\n' && FirstBlank(s).Some?)
  {
  }

  lemma CollapseKeepsRun(s: string)
    requires RunEnd(CollapseBlank(s)).Some?
    ensures RunEnd(s).Some?
  {
    RunFound(s);
    RunFound(CollapseBlank(s));
    CollapseStart(s);
    if FirstBlank(s).None? { CollapseNothing(s); }
  }

  lemma CollapseKeepsOpening(s: string, opening: string)
    requires opening <= CollapseBlank(s) && forall i :: 0 <= i < |opening| ==> opening[i] != '\n'
    requires RunAfter(CollapseBlank(s), |opening|).Some?
    ensures opening <= s && RunAfter(s, |opening|).Some?
  {
    CollapsePrefix(s, opening);
    CollapseKeepsRun(s[|opening|..]);
  }

  lemma CollapseKeepsHeader(s: string)
    requires HeaderEnd(CollapseBlank(s), "#").Some?
    ensures HeaderEnd(s, "#").Some?
  {
    var c := CollapseBlank(s);
    var doubled := "#" + " # Copyright";
    var bare := "#" + " Copyright";
    if doubled <= c {
      CollapseKeepsOpening(s, doubled);
    } else {
      CollapseKeepsOpening(s, bare);
      assert bare[2] == 'C' && doubled[2] == '#';
    }
  }

  lemma FindAtLineStart(s: string)
    requires FindHeader(s, "#", false).Some?
    ensures FindHeader(s, "#", true).Some?
  {
  }

  /** Collapsing blank lines makes no new header. */
  lemma {:induction false} CollapseMakesNoHeader(s: string, lineStart: bool)
    requires FindHeader(CollapseBlank(s), "#", lineStart).Some?
    ensures FindHeader(s, "#", lineStart).Some?
    decreases |s|
  {
    var c := CollapseBlank(s);
    if BlankAt(s, 0) && BlankAt(s, 1) {
      CollapseMakesNoHeader(s[1..], lineStart);
      if !lineStart { FindAtLineStart(s[1..]); }
    } else if lineStart && HeaderEnd(c, "#").Some? {
      CollapseKeepsHeader(s);
    } else {
      assert c[1..] == CollapseBlank(s[1..]);
      CollapseMakesNoHeader(s[1..], s[0] == '\n');
    }
  }

  // ---- The removal loop ----

  /** The loop removes the same text whatever was removed before, and only adds to what it has seen. */
  lemma {:induction false} StripHashChanged(body: string, h: string, changed: bool)
    ensures var r := StripHash(body, h, changed);
            var r0 := StripHash(body, h, false);
            r.body == r0.body && (r.changed <==> changed || r0.changed)
    decreases |body|
  {
    var m := FindHeader(body, "#", true);
    if m.Some? {
      var other := body[m.value.start..m.value.end] != h;
      var rest := TrimLeft(RemoveMatch(body, m.value), IsSpace);
      StripHashChanged(rest, h, changed || other);
      StripHashChanged(rest, h, other);
    }
  }

  lemma {:induction false} StripHashLeaves(body: string, h: string, changed: bool)
    ensures var r := StripHash(body, h, changed);
            && FindHeader(r.body, "#", true).None? && |r.body| <= |body|
            && (r.body == body || Flush(r.body))
            && (FindHeader(body, "#", true).None? ==> r == Stripped(body, changed))
            && (FindHeader(body, "#", true).Some? ==> Flush(r.body))
    decreases |body|
  {
    var m := FindHeader(body, "#", true);
    if m.Some? {
      StripHashLeaves(TrimLeft(RemoveMatch(body, m.value), IsSpace), h, changed || body[m.value.start..m.value.end] != h);
    }
  }

  /** What is left after removal: no header, no run of blank lines, and white space in front only if nothing was removed. */
  lemma StripAllLeaves(body: string, h: string)
    ensures var c := StripAll(body, h).body;
            && FindHeader(c, "#", true).None? && CollapseBlank(c) == c
            && (Flush(c) <==> Flush(body) || FindHeader(body, "#", true).Some?)
  {
    var r := StripHash(body, h, false);
    StripHashLeaves(body, h, false);
    CollapseIdempotent(r.body);
    CollapseStart(r.body);
    if FindHeader(CollapseBlank(r.body), "#", true).Some? {
      CollapseMakesNoHeader(r.body, true);
    }
  }

  /** Without a header to find, only blank lines are collapsed. */
  lemma StripAllNothing(c: string, h: string)
    requires FindHeader(c, "#", true).None? && CollapseBlank(c) == c
    ensures StripAll(c, h) == Stripped(c, false)
  {
  }

  lemma {:induction false} NewlinesThenSpaces(s: string)
    ensures TrimLeft(TrimLeft(s, IsNewline), IsSpace) == TrimLeft(s, IsSpace)
  {
    if s != "" && s[0] == '\n' { NewlinesThenSpaces(s[1..]); }
  }

  /** Cutting a header off the front leaves the text behind the blank line. */
  lemma CutFront(h: string, c: string, m: nat)
    requires m == |h| || (m == |h| + 1 && c != "" && c[0] == '\n')
    ensures m <= |Joined(h, c)|
    ensures TrimLeft(Joined(h, c)[m..], IsNewline) == TrimLeft(c, IsNewline)
  {
    var u := Joined(h, c);
    if m == |h| {
      assert u[m..] == "\n\n" + c;
      TrimLeftAll("\n\n", c, IsNewline);
    } else {
      assert u[m..] == "\n" + c;
      TrimLeftAll("\n", c, IsNewline);
    }
  }

  lemma RemoveFront(u: string, m: nat)
    requires 11 <= m && BlankAt(u, m)
    ensures RemoveMatch(u, Span(0, m)) == TrimLeft(u[m..], IsNewline)
  {
    assert u[..0] == "";
  }

  lemma FoundInFront(u: string, m: nat)
    requires HeaderEnd(u, "#") == Some(m)
    ensures FindHeader(u, "#", true) == Some(Span(0, m))
  {
  }

  /** How far the match of the header in front reaches. */
  function FrontEnd(h: string, c: string): (m: nat)
    requires HeaderText(h, "#") && Recognised(h, "#")
    ensures HeaderEnd(Joined(h, c), "#") == Some(m)
    ensures m == if 11 < |h| && c != "" && c[0] == '\n' then |h| + 1 else |h|
  {
    OwnHeaderMatch(h, "#", c);
    HeaderEnd(Joined(h, c), "#").value
  }

  /** One step of the loop takes the header in front off; what it took is the header unless more newlines followed it. */
  lemma StripHeaderInFront(h: string, c: string)
    requires HeaderText(h, "#") && Recognised(h, "#")
    ensures StripHash(Joined(h, c), h, false) == StripHash(TrimLeft(c, IsSpace), h, FrontEnd(h, c) != |h|)
  {
    var u := Joined(h, c);
    var m := FrontEnd(h, c);
    FoundInFront(u, m);
    RemoveFront(u, m);
    CutFront(h, c, m);
    NewlinesThenSpaces(c);
    FrontText(h, c, m);
  }

  lemma FrontText(h: string, c: string, m: nat)
    requires m == |h| || m == |h| + 1
    ensures Joined(h, c)[0..m] == h <==> m == |h|
  {
    assert Joined(h, c)[0..|h|] == h;
  }

  // ---- Running again ----

  /** A header text is not a shebang, has ink only at its ends, and starts a comment. */
  lemma HeaderIsInk(h: string, rest: string)
    requires HeaderText(h, "#")
    ensures h[0] == '#' && |h| >= 11 && ShebangEnd(h + rest).None? && !IsSpace(h[0])
  {
    var opening := "#" + " Copyright";
    assert opening <= h;
    assert h[0] == opening[0] && h[1] == opening[1];
    assert (h + rest)[1] == ' ' && "#!"[1] == '!';
  }

  /** The shebang line written in front of anything else is read back as it was. */
  lemma ShebangReread(file: string, rest: string)
    requires ShebangEnd(file).Some? && rest != "" && !IsSpace(rest[0])
    ensures Shebang(Shebang(file) + rest) == Shebang(file) && HashBody(Shebang(file) + rest) == rest
  {
    ShebangLine(file);
    var x := TrimRight(file[..ShebangEnd(file).value], IsSpace);
    ShebangParts(x, rest);
    assert (x + "\n") + rest == x + ("\n" + rest);
  }

  /** The shebang without trailing blanks is one line that still opens with `#!`. */
  lemma ShebangLine(file: string)
    requires ShebangEnd(file).Some?
    ensures var x := TrimRight(file[..ShebangEnd(file).value], IsSpace);
            && "#!" <= x && !IsSpace(x[|x| - 1]) && forall i :: 2 <= i < |x| ==> x[i] != '\n'
  {
    var e := ShebangEnd(file).value;
    var line := file[..e];
    var after := file[2..];
    LineEndFirst(after);
    assert forall i :: 2 <= i < e - 1 ==> file[i] == after[i - 2];
    assert line == file[..2] + file[2..e];
    assert file[..2] == "#!";
    TrimRightKeepsPrefix(file[..2], file[2..e], IsSpace);
    var x := TrimRight(line, IsSpace);
    assert forall i :: 2 <= i < |x| ==> x[i] == file[i];
    assert line[e - 1] == '\n' && (|x| == e ==> x == line);
  }

  lemma ShebangParts(x: string, rest: string)
    requires "#!" <= x && !IsSpace(x[|x| - 1]) && forall i :: 2 <= i < |x| ==> x[i] != '\n'
    requires rest != "" && !IsSpace(rest[0])
    ensures Shebang(x + ("\n" + rest)) == x + "\n" && HashBody(x + ("\n" + rest)) == rest
  {
    var t := x + ("\n" + rest);
    var tail := t[2..];
    assert tail[|x| - 2] == '\n' && forall i :: 0 <= i < |x| - 2 ==> tail[i] == x[i + 2];
    LineEndIs(tail, |x| - 2);
    assert ShebangEnd(t) == Some(|x| + 1);
    assert t[..|x| + 1] == x + "\n" && t[|x| + 1..] == rest;
    TrimRightKeepsPrefix(x, "\n", IsSpace);
    TrimRightAll("\n", IsSpace);
    TrimLeftDone(rest, IsSpace);
  }

  /** What the next run reads: the shebang that was written and, behind it, the header and the rest. */
  lemma Reread(file: string, h: string, rest: string)
    requires HeaderText(h, "#")
    ensures Shebang(Shebang(file) + (h + rest)) == Shebang(file) && HashBody(Shebang(file) + (h + rest)) == h + rest
  {
    HeaderIsInk(h, rest);
    if ShebangEnd(file).None? {
      assert "" + (h + rest) == h + rest;
    } else {
      ShebangReread(file, h + rest);
    }
  }

  /** A header alone in a file holds no header the expression can find, since no blank line follows. */
  lemma HeaderAlone(h: string)
    requires HeaderText(h, "#")
    ensures StripAll(h + "\n", h) == Stripped(h + "\n", false) && Ink(h + "\n") == h
  {
    var t := h + "\n";
    assert h[|h| - 1] != '\n';
    forall i ensures !BlankAt(t, i) {
      if 0 <= i < |h| - 1 { assert BlankAt(t, i) == BlankAt(h, i); }
    }
    CollapseNothing(t);
    HeaderIsInk(h, "\n");
    TrimLeftDone(t, IsSpace);
    TrimRightKeepsPrefix(h, "\n", IsSpace);
    TrimRightAll("\n", IsSpace);
  }

  /**
   What decides whether the next run is clean. Nothing but a shebang: the header is written twice. Nothing but this
   header: only if no other header was removed, because that case is reported and not written. Otherwise: the header is
   recognised, and the text behind it does not start with white space unless all it holds is copies of this header.
  */
  predicate Settles(file: string, h: string)
    requires HeaderText(h, "#")
  {
    var r := StripAll(HashBody(file), h);
    if Ink(r.body) == "" then Shebang(file) == ""
    else if Ink(r.body) == h && Shebang(file) == "" then !r.changed
    else
      && Recognised(h, "#")
      && (Shebang(file) != "" || Flush(file) || FindHeader(file, "#", true).Some? || OnlyCopies(r.body, h))
  }

  /**
   Text that holds, behind white space, nothing but copies of the header with blank lines between them. For a notice of
   the one word "Copyright", whose copies need no blank line to be taken apart, it is what the loop leaves that counts.
  */
  predicate OnlyCopies(c: string, h: string)
    requires h != ""
  {
    if |h| == 11 then OneIsLeft(c, h) else (c != "" ==> c[0] != '\n') && CopiesOf(TrimLeft(c, IsSpace), h)
  }

  predicate OneIsLeft(c: string, h: string) {
    var r := StripAll(TrimLeft(c, IsSpace), h);
    && (11 < |h| && c != "" ==> c[0] != '\n')
    && Ink(r.body) == h && !r.changed
  }

  predicate AllSpace(s: string) { forall i :: 0 <= i < |s| ==> IsSpace(s[i]) }

  /** The header, then white space without a blank line, or a blank line, more white space, and copies again. */
  predicate CopiesOf(t: string, h: string)
    requires h != ""
    decreases |t|
  {
    h <= t &&
    var rest := t[|h|..];
    (AllSpace(rest) && FirstBlank(rest).None?) || (BlankAt(rest, 0) && CopiesOf(TrimLeft(rest, IsSpace), h))
  }

  // ---- Nothing but copies of the header ----

  /** No two blank lines in a row. */
  ghost predicate NoTriple(s: string) { forall i :: BlankAt(s, i) ==> !BlankAt(s, i + 1) }

  lemma {:induction false} CollapsedNoTriple(s: string)
    requires CollapseBlank(s) == s
    ensures NoTriple(s)
  {
    if s != "" {
      CollapseShorter(s);
      var tail := s[1..];
      assert CollapseBlank(tail) == tail by { assert CollapseBlank(s)[1..] == CollapseBlank(tail); }
      CollapsedNoTriple(tail);
      forall i | BlankAt(s, i) ensures !BlankAt(s, i + 1) {
        if i > 0 { assert BlankAt(tail, i - 1) && BlankAt(tail, i) == BlankAt(s, i + 1); }
      }
    }
  }

  lemma {:induction false} CollapseShorter(s: string)
    ensures |CollapseBlank(s)| <= |s|
    ensures BlankAt(s, 0) && BlankAt(s, 1) ==> CollapseBlank(s) != s
  {
    if s != "" { CollapseShorter(s[1..]); }
  }

  lemma DropNoTriple(s: string, n: nat)
    requires NoTriple(s) && n <= |s|
    ensures NoTriple(s[n..])
  {
    var tail := s[n..];
    forall i | BlankAt(tail, i) ensures !BlankAt(tail, i + 1) { assert BlankAt(s, i + n) && BlankAt(tail, i + 1) == BlankAt(s, i + 1 + n); }
  }

  lemma TrimNoTriple(s: string)
    requires NoTriple(s)
    ensures NoTriple(TrimLeft(s, IsSpace))
  {
    TrimLeftEnd(s, IsSpace);
    DropNoTriple(s, |s| - |TrimLeft(s, IsSpace)|);
  }

  /** A header followed by text without a blank line holds none. */
  lemma NoBlankBehind(h: string, rest: string)
    requires HeaderText(h, "#") && FirstBlank(rest).None?
    ensures FirstBlank(h + rest).None?
  {
    var t := h + rest;
    assert h[|h| - 1] != '\n';
    forall i ensures !BlankAt(t, i) {
      if 0 <= i < |h| - 1 { assert BlankAt(t, i) == BlankAt(h, i); }
      else if |h| <= i { assert BlankAt(t, i) == BlankAt(rest, i - |h|); }
    }
  }

  lemma InkBeforeSpace(h: string, rest: string)
    requires HeaderText(h, "#")
    ensures Ink(h + rest) == h <==> AllSpace(rest)
  {
    HeaderIsInk(h, rest);
    TrimLeftDone(h + rest, IsSpace);
    TrimRightKeepsPrefix(h, rest, IsSpace);
    if AllSpace(rest) {
      TrimRightAll(rest, IsSpace);
    } else if Ink(h + rest) == h {
      TrimRightCuts(rest, IsSpace);
    }
  }

  /** From inside the header's first line the run reaches any blank line behind it. */
  lemma HeaderReaches(h: string, t: string)
    requires HeaderText(h, "#") && Recognised(h, "#") && 11 < |h| && h <= t && FirstBlank(t).Some?
    ensures HeaderEnd(t, "#").Some?
  {
    var opening := "#" + " Copyright";
    HeaderEndOpening(t, "#");
    var tail, b := t[11..], FirstBlank(t).value;
    OpeningIsOneLine(h, t);
    assert tail[0] == h[11];
    assert BlankAt(tail, b - 11);
    RunFound(tail);
  }

  lemma OpeningIsOneLine(h: string, t: string)
    requires HeaderText(h, "#") && h <= t && FirstBlank(t).Some?
    ensures FirstBlank(t).value >= 11
  {
    var opening := "#" + " Copyright";
    assert forall i :: 0 <= i < 11 ==> t[i] == opening[i] && opening[i] != '\n';
  }

  /** What the loop makes of copies: one header. */
  lemma {:induction false} CopiesStripped(t: string, h: string)
    requires HeaderText(h, "#") && Recognised(h, "#") && 11 < |h| && NoTriple(t) && CopiesOf(t, h)
    ensures var r := StripHash(t, h, false); !r.changed && Ink(CollapseBlank(r.body)) == h
    decreases |t|
  {
    var rest := t[|h|..];
    assert t == h + rest;
    if AllSpace(rest) && FirstBlank(rest).None? {
      NoBlankBehind(h, rest);
      CollapseNothing(t);
      InkBeforeSpace(h, rest);
    } else {
      var b := rest[2..];
      FrontCopy(t, h, b);
      TrimNoTriple(rest);
      CopiesStripped(TrimLeft(rest, IsSpace), h);
    }
  }

  /** A copy in front of a blank line is taken off, and counts as no change. */
  lemma FrontCopy(t: string, h: string, b: string)
    requires HeaderText(h, "#") && Recognised(h, "#") && NoTriple(t) && t == Joined(h, b)
    ensures TrimLeft(t[|h|..], IsSpace) == TrimLeft(b, IsSpace) && NoTriple(t[|h|..])
    ensures StripHash(t, h, false) == StripHash(TrimLeft(b, IsSpace), h, false)
  {
    assert t[|h|..] == "\n\n" + b;
    TrimLeftAll("\n\n", b, IsSpace);
    DropNoTriple(t, |h|);
    assert BlankAt(t, |h|) && !BlankAt(t, |h| + 1);
    SecondNewline(h, b);
    StripHeaderInFront(h, b);
  }

  /** A text without a blank line in it and ink at its end stands in front of a blank line, if it stands there at all. */
  lemma PrefixInFront(h: string, before: string, after: string)
    requires h != "" && h[|h| - 1] != '\n' && FirstBlank(h).None? && h <= before + "\n\n" + after
    ensures h <= before
  {
    var u, n := before + "\n\n" + after, |before|;
    assert u[n] == '\n' && u[n + 1] == '\n';
    if n + 1 < |h| { assert BlankAt(h, n); }
    assert |h| <= n;
  }

  lemma {:induction false} CollapsedPrefix(s: string, h: string)
    requires h <= CollapseBlank(s) && FirstBlank(h).None? && (h != "" ==> h[|h| - 1] != '\n')
    ensures h <= s
    decreases |s|
  {
    if BlankAt(s, 0) && BlankAt(s, 1) {
      CollapsedPrefix(s[1..], h);
      assert !BlankAt(h, 0);
    } else if s != "" && h != "" {
      var c := CollapseBlank(s[1..]);
      assert CollapseBlank(s) == [s[0]] + c;
      assert h[0] == s[0] && h[1..] <= c;
      NoBlankInTail(h, 1);
      CollapsedPrefix(s[1..], h[1..]);
      assert s == [s[0]] + s[1..];
    }
  }

  lemma InkIsPrefix(t: string, h: string)
    requires HeaderText(h, "#") && Flush(t) && Ink(CollapseBlank(t)) == h
    ensures h <= t
  {
    CollapseStart(t);
    TrimLeftDone(CollapseBlank(t), IsSpace);
    HeaderIsInk(h, "");
    CollapsedPrefix(t, h);
  }

  /** Removing a match that is not in front leaves the front. */
  lemma RemoveBehind(t: string, m: Span, h: string)
    requires HeaderText(h, "#") && Flush(t) && !(h <= t) && 0 < m.start && m.start + 11 <= m.end && BlankAt(t, m.end)
    ensures var u := RemoveMatch(t, m); u != "" && Flush(u) && TrimLeft(u, IsSpace) == u && !(h <= u)
  {
    var front := t[..m.start];
    var before := TrimRight(front, IsNewline);
    HeaderIsInk(h, "");
    assert front[0] == t[0] && !IsNewline(t[0]);
    FrontStays(front);
    var after := TrimLeft(t[m.end..], IsNewline);
    assert before[0] == front[0] && before <= t;
    if after != "" && h <= before + "\n\n" + after { PrefixInFront(h, before, after); }
  }

  lemma FrontStays(front: string)
    requires front != "" && !IsNewline(front[0])
    ensures TrimRight(front, IsNewline) != ""
  {
    TrimRightKeepsPrefix(front[..1], front[1..], IsNewline);
    assert front == front[..1] + front[1..];
  }

  /** Text that does not start with the header is not stripped to it without a change. */
  lemma {:induction false} OtherNotStripped(t: string, h: string)
    requires HeaderText(h, "#") && Flush(t) && !(h <= t)
    ensures var r := StripHash(t, h, false); r.changed || Ink(CollapseBlank(r.body)) != h
    decreases |t|
  {
    var m := FindHeader(t, "#", true);
    if m.None? {
      if Ink(CollapseBlank(t)) == h { InkIsPrefix(t, h); }
    } else {
      var u := RemoveMatch(t, m.value);
      StripHashChanged(TrimLeft(u, IsSpace), h, t[m.value.start..m.value.end] != h);
      if m.value.start == 0 {
        assert t[0..m.value.end] == t[..m.value.end];
      } else {
        RemoveBehind(t, m.value, h);
        OtherNotStripped(u, h);
      }
    }
  }

  /** What the loop reduces to one header without a change is copies of it. */
  lemma {:induction false} StrippedCopies(t: string, h: string)
    requires HeaderText(h, "#") && Recognised(h, "#") && 11 < |h| && Flush(t) && NoTriple(t)
    requires var r := StripHash(t, h, false); !r.changed && Ink(CollapseBlank(r.body)) == h
    ensures CopiesOf(t, h)
    decreases |t|
  {
    if !(h <= t) { OtherNotStripped(t, h); }
    var rest := t[|h|..];
    assert t == h + rest;
    if FirstBlank(rest).None? {
      NoBlankBehind(h, rest);
      CollapseNothing(t);
      InkBeforeSpace(h, rest);
    } else {
      FrontIsCopy(t, h);
      TrimNoTriple(rest);
      StrippedCopies(TrimLeft(rest, IsSpace), h);
    }
  }

  lemma FrontIsCopy(t: string, h: string)
    requires HeaderText(h, "#") && Recognised(h, "#") && 11 < |h| && NoTriple(t) && h <= t
    requires FirstBlank(t[|h|..]).Some? && !StripHash(t, h, false).changed
    ensures var rest := t[|h|..];
            BlankAt(rest, 0) && NoTriple(rest) && StripHash(t, h, false) == StripHash(TrimLeft(rest, IsSpace), h, false)
  {
    assert BlankAt(t, |h| + FirstBlank(t[|h|..]).value);
    HeaderReaches(h, t);
    FrontIsHeader(t, h);
    BlankBehind(t, h);
    FrontCopy(t, h, t[|h|..][2..]);
  }

  lemma BlankBehind(t: string, h: string)
    requires h <= t && BlankAt(t[|h|..], 0)
    ensures t == Joined(h, t[|h|..][2..])
  {
    var rest := t[|h|..];
    assert rest == "\n\n" + rest[2..] && t == h + rest;
  }

  /** A match in front that counts as no change is the header, followed by a blank line. */
  lemma FrontIsHeader(t: string, h: string)
    requires h <= t && HeaderEnd(t, "#").Some? && !StripHash(t, h, false).changed
    ensures BlankAt(t[|h|..], 0)
  {
    var m := HeaderEnd(t, "#").value;
    FoundInFront(t, m);
    StripHashChanged(TrimLeft(RemoveMatch(t, Span(0, m)), IsSpace), h, t[0..m] != h);
    assert t[0..m] == h;
    assert BlankAt(t, |h|);
  }

  /** The closed form is what the loop of a second run decides. */
  lemma CopiesExactly(c: string, h: string)
    requires HeaderText(h, "#") && Recognised(h, "#") && CollapseBlank(c) == c
    ensures OnlyCopies(c, h) <==> OneIsLeft(c, h)
  {
    var t := TrimLeft(c, IsSpace);
    HeaderIsInk(h, "");
    CollapsedNoTriple(c);
    TrimNoTriple(c);
    if 11 < |h| {
      if CopiesOf(t, h) { CopiesStripped(t, h); }
      if OneIsLeft(c, h) { StrippedCopies(t, h); }
    }
  }

  /** Text without ink behind the header: clean without a shebang, the header doubled with one. */
  lemma AgainWithoutInk(file: string, h: string)
    requires HeaderText(h, "#") && Ink(StripAll(HashBody(file), h).body) == ""
    ensures !HashRun(HashRun(file, h).text, h).reported <==> Shebang(file) == ""
  {
    var t := Shebang(file) + (h + "\n");
    assert HashRun(file, h).text == Shebang(file) + h + "\n" == t;
    Reread(file, h, "\n");
    HeaderAlone(h);
    assert HashRun(t, h) == Outcome(t, Shebang(file), Stripped(h + "\n", false), h);
    OutcomeAlone(Shebang(file), h);
  }

  lemma OutcomeAlone(shebang: string, h: string)
    requires h != "" && Ink(h + "\n") == h
    ensures !Outcome(shebang + (h + "\n"), shebang, Stripped(h + "\n", false), h).reported <==> shebang == ""
  {
    WrittenTwice(shebang, h);
  }

  lemma WrittenTwice(shebang: string, h: string)
    ensures shebang + Joined(h, h + "\n") != shebang + (h + "\n")
  {
    assert |shebang + Joined(h, h + "\n")| > |shebang + (h + "\n")|;
  }

  /** A second run over a shebang, a header and the rest, from what the loop leaves of the rest. */
  lemma AgainOverOutput(shebang: string, h: string, c: string, r: Stripped)
    requires HeaderText(h, "#") && Recognised(h, "#")
    requires Shebang(shebang + Joined(h, c)) == shebang && HashBody(shebang + Joined(h, c)) == Joined(h, c)
    requires r == StripAll(TrimLeft(c, IsSpace), h)
    ensures HashRun(shebang + Joined(h, c), h) == Outcome(shebang + Joined(h, c), shebang, r.(changed := FrontEnd(h, c) != |h| || r.changed), h)
  {
    StripHeaderInFront(h, c);
    StripHashChanged(TrimLeft(c, IsSpace), h, FrontEnd(h, c) != |h|);
  }

  lemma ShorterRest(shebang: string, h: string, c: string, d: string)
    requires |d| < |c|
    ensures shebang + Joined(h, d) != shebang + Joined(h, c)
  {
    assert |shebang + Joined(h, d)| < |shebang + Joined(h, c)|;
  }

  /** The header and the rest are read back as they were written. */
  lemma RestReread(file: string, h: string, c: string)
    requires HeaderText(h, "#")
    ensures var t := Shebang(file) + Joined(h, c);
            Shebang(t) == Shebang(file) && HashBody(t) == Joined(h, c)
  {
    assert Joined(h, c) == h + ("\n\n" + c);
    Reread(file, h, "\n\n" + c);
  }

  /** A second run with text behind the header that does not start with white space. */
  lemma AgainFlush(file: string, h: string, c: string)
    requires HeaderText(h, "#") && Recognised(h, "#")
    requires FindHeader(c, "#", true).None? && CollapseBlank(c) == c && Flush(c)
    requires Ink(c) != "" && !(Ink(c) == h && Shebang(file) == "")
    ensures !HashRun(Shebang(file) + Joined(h, c), h).reported
  {
    TrimLeftDone(c, IsSpace);
    StripAllNothing(c, h);
    RestReread(file, h, c);
    AgainOverOutput(Shebang(file), h, c, Stripped(c, false));
  }

  /** What is reported when less text is left than was there. */
  lemma OutcomeShorter(h: string, c: string, r: Stripped)
    requires h != "" && |r.body| < |c|
    ensures !Outcome("" + Joined(h, c), "", r, h).reported <==> Ink(r.body) == h && !r.changed
  {
    ShorterRest("", h, c, r.body);
  }

  /** A second run with white space behind the header, which it strips. */
  lemma AgainBlank(file: string, h: string, c: string)
    requires HeaderText(h, "#") && Recognised(h, "#") && !Flush(c) && Shebang(file) == "" && CollapseBlank(c) == c
    ensures !HashRun(Shebang(file) + Joined(h, c), h).reported <==> OnlyCopies(c, h)
  {
    var x := TrimLeft(c, IsSpace);
    var r := StripAll(x, h);
    StripHashLeaves(x, h, false);
    assert |r.body| < |c|;
    RestReread(file, h, c);
    AgainOverOutput("", h, c, r);
    OutcomeShorter(h, c, r.(changed := FrontEnd(h, c) != |h| || r.changed));
    CopiesExactly(c, h);
  }

  /** A second run where the rest holds more than the header alone. */
  lemma AgainWithRest(file: string, h: string)
    requires HeaderText(h, "#") && Recognised(h, "#")
    requires var c := StripAll(HashBody(file), h).body; Ink(c) != "" && !(Ink(c) == h && Shebang(file) == "")
    ensures var c := StripAll(HashBody(file), h).body;
            !HashRun(HashRun(file, h).text, h).reported <==> Shebang(file) != "" || Flush(file) || FindHeader(file, "#", true).Some? || OnlyCopies(c, h)
  {
    var c := StripAll(HashBody(file), h).body;
    StripAllLeaves(HashBody(file), h);
    if Flush(c) {
      AgainFlush(file, h, c);
    } else {
      AgainBlank(file, h, c);
    }
  }

  // ---- Headers the expression does not recognise ----

  /** Behind `start` characters stands a match of the header expression of this length. */
  predicate MatchedAt(s: string, prefix: string, start: nat, length: int)
    decreases start
  {
    if start == 0 then HeaderEnd(s, prefix).Some? && HeaderEnd(s, prefix).value == length
    else s != "" && MatchedAt(s[1..], prefix, start - 1, length)
  }

  /** A match found in a text is a match of the header expression where it was found. */
  lemma {:induction false} FoundIsHeader(s: string, prefix: string, lineStart: bool)
    requires FindHeader(s, prefix, lineStart).Some?
    ensures var m := FindHeader(s, prefix, lineStart).value; MatchedAt(s, prefix, m.start, m.end - m.start)
    decreases |s|
  {
    if !(lineStart && HeaderEnd(s, prefix).Some?) { FoundIsHeader(s[1..], prefix, s[0] == '\n'); }
  }

  lemma {:induction false} MatchedText(s: string, prefix: string, start: nat, length: int)
    requires MatchedAt(s, prefix, start, length)
    ensures start <= |s| && HeaderEnd(s[start..], prefix) == Some(length)
    decreases start
  {
    if start == 0 {
      assert s[0..] == s;
    } else {
      MatchedText(s[1..], prefix, start - 1, length);
      assert s[1..][start - 1..] == s[start..];
    }
  }

  /** A match opens with one of the two openings, and the run behind it starts with a character or a blank line. */
  lemma MatchOpening(x: string)
    requires HeaderEnd(x, "#").Some?
    ensures var m := HeaderEnd(x, "#").value;
            |x| > 11 && (x[2] == '#' || (x[2] == 'C' && (x[11] == '\n' ==> m == 11)))
  {
    var bare := "#" + " Copyright";
    var doubled := "#" + " # Copyright";
    assert bare[2] == 'C' && doubled[2] == '#';
    if !(doubled <= x) {
      assert x[11..][0] == x[11];
    }
  }

  /** No match of the expression is the text of a header it does not recognise. */
  lemma MatchIsRecognised(x: string, h: string)
    requires HeaderEnd(x, "#").Some? && HeaderText(h, "#") && !Recognised(h, "#")
    ensures x[..HeaderEnd(x, "#").value] != h
  {
    var m := HeaderEnd(x, "#").value;
    MatchOpening(x);
    var bare := "#" + " Copyright";
    assert h[2] == bare[2] == 'C';
    assert m > 11 ==> x[..m][2] == x[2] && x[..m][11] == x[11];
  }

  /** Collapsing blank lines behind a header leaves the header alone. */
  lemma {:induction false} CollapseBehind(h: string, c: string)
    requires h != "" && FirstBlank(h).None? && h[|h| - 1] != '\n'
    ensures CollapseBlank(Joined(h, c)) == h + CollapseBlank("\n\n" + c)
    decreases |h|
  {
    var u := Joined(h, c);
    assert !BlankAt(u, 0) by { assert BlankAt(u, 0) ==> BlankAt(h, 0) || |h| == 1; }
    assert u[0] == h[0];
    JoinedDrop(h, 1, c);
    if |h| == 1 {
      assert u[1..] == "\n\n" + c;
    } else {
      NoBlankInTail(h, 1);
      CollapseBehind(h[1..], c);
      assert [h[0]] + h[1..] == h;
    }
  }

  lemma {:induction false} CollapseStep(s: string)
    requires s != ""
    ensures |CollapseBlank(s)| >= |CollapseBlank(s[1..])|
  {
  }

  lemma CollapseTwo(c: string)
    requires CollapseBlank(c) == c
    ensures |CollapseBlank("\n\n" + c)| >= |c|
  {
    var u := "\n\n" + c;
    assert u[1..] == "\n" + c && u[1..][1..] == c;
    CollapseStep(u);
    CollapseStep(u[1..]);
  }

  predicate Blank(s: string) { forall i :: 0 <= i < |s| ==> IsSpace(s[i]) }

  /** Collapsing drops newlines only. */
  lemma {:induction false} CollapseKeepsInk(s: string)
    requires Blank(CollapseBlank(s))
    ensures Blank(s)
    decreases |s|
  {
    if s != "" {
      CollapseStart(s);
      var c := CollapseBlank(s);
      if !(BlankAt(s, 0) && BlankAt(s, 1)) {
        assert c == [s[0]] + CollapseBlank(s[1..]);
        assert c[1..] == CollapseBlank(s[1..]);
        assert forall i :: 0 <= i < |c| - 1 ==> c[1..][i] == c[i + 1];
      }
      CollapseKeepsInk(s[1..]);
      assert IsSpace(c[0]);
      forall i | 0 <= i < |s| ensures IsSpace(s[i]) { if i > 0 { assert s[i] == s[1..][i - 1]; } }
    }
  }

  lemma BlankHasNoInk(c: string)
    requires Blank(c)
    ensures Ink(c) == ""
  {
    TrimLeftAll(c, "", IsSpace);
    assert c + "" == c;
  }

  /** Text with ink behind a header is more than the header. */
  lemma InkBehindHeader(h: string, c: string)
    requires HeaderText(h, "#") && Ink(c) != ""
    ensures Ink(h + CollapseBlank("\n\n" + c)) != h
  {
    var y := CollapseBlank("\n\n" + c);
    HeaderIsInk(h, "");
    TrimLeftDone(h + y, IsSpace);
    TrimRightKeepsPrefix(h, y, IsSpace);
    if TrimRight(y, IsSpace) == "" {
      TrimRightCuts(y, IsSpace);
      CollapseKeepsInk("\n\n" + c);
      assert forall i :: 0 <= i < |c| ==> c[i] == ("\n\n" + c)[i + 2];
      BlankHasNoInk(c);
      assert false;
    }
  }

  /** What is reported when the header is written once more in front of everything. */
  lemma DoubledHeader(shebang: string, h: string, c: string, d: string)
    requires h != "" && |d| >= |h| + |c| && Ink(d) != h
    ensures Outcome(shebang + Joined(h, c), shebang, Stripped(d, false), h).reported
  {
    assert |shebang + Joined(h, d)| > |shebang + Joined(h, c)|;
  }

  /** A step of the loop that removes something other than the header is reported. */
  lemma StripOther(u: string, h: string)
    requires FindHeader(u, "#", true).Some? && HeaderText(h, "#") && !Recognised(h, "#")
    ensures StripHash(u, h, false).changed
  {
    var m := FindHeader(u, "#", true).value;
    FoundIsHeader(u, "#", true);
    MatchedIsOther(u, h, m.start, m.end);
    StripHashChanged(TrimLeft(RemoveMatch(u, m), IsSpace), h, true);
  }

  lemma MatchedIsOther(u: string, h: string, start: nat, end: nat)
    requires start <= end <= |u| && MatchedAt(u, "#", start, end - start) && HeaderText(h, "#") && !Recognised(h, "#")
    ensures u[start..end] != h
  {
    MatchedText(u, "#", start, end - start);
    MatchIsRecognised(u[start..], h);
    assert u[start..][..end - start] == u[start..end];
  }

  /** With a header that is not recognised, a second run removes a part of it or puts another one in front. */
  lemma AgainUnrecognised(file: string, h: string, c: string)
    requires HeaderText(h, "#") && !Recognised(h, "#") && CollapseBlank(c) == c && Ink(c) != ""
    ensures HashRun(Shebang(file) + Joined(h, c), h).reported
  {
    var u := Joined(h, c);
    RestReread(file, h, c);
    if FindHeader(u, "#", true).Some? {
      StripOther(u, h);
    } else {
      CollapseBehind(h, c);
      CollapseTwo(c);
      InkBehindHeader(h, c);
      DoubledHeader(Shebang(file), h, c, CollapseBlank(u));
    }
  }

  /**
   The `#` path reaches a fixpoint in one run exactly when the file settles.
  */
  lemma HashSecondRun(file: string, copyright: string)
    requires "Copyright" <= copyright
    ensures var h := CommentHeader(copyright, "#");
            && HeaderText(h, "#")
            && (!HashRun(HashRun(file, h).text, h).reported <==> Settles(file, h))
  {
    var h := CommentHeader(copyright, "#");
    CommentHeaderShape(copyright, "#");
    var c := StripAll(HashBody(file), h).body;
    if Ink(c) == "" {
      AgainWithoutInk(file, h);
    } else if !(Ink(c) == h && Shebang(file) == "") {
      if Recognised(h, "#") {
        AgainWithRest(file, h);
      } else {
        StripAllLeaves(HashBody(file), h);
        AgainUnrecognised(file, h, c);
      }
    }
  }

  /**
   For most files: the second run is clean if the header is recognised, the file has a shebang or no white space in
   front, and it holds more than headers.
  */
  lemma HashSecondRunClean(file: string, copyright: string)
    requires "Copyright" <= copyright && (Shebang(file) != "" || Flush(file))
    requires var h := CommentHeader(copyright, "#");
             HeaderText(h, "#") && Recognised(h, "#") && Ink(StripAll(HashBody(file), h).body) !in {"", h}
    ensures var h := CommentHeader(copyright, "#"); !HashRun(HashRun(file, h).text, h).reported
  {
    HashSecondRun(file, copyright);
  }
}
