/** The header scripts/copyright.py writes: the notice as comment lines, and how the header expression reads it back. */
module CommentHeaders {
  import opened Text
  import opened HeaderMatchers

  /** Every line of the notice behind the comment prefix, without trailing blanks. */
  function CommentLines(text: string, prefix: string): string {
    var e := LineEnd(text);
    var line := CommentLine(text[..e], prefix);
    if e == |text| then line else line + "\n" + CommentLines(text[e + 1..], prefix)
  }

  function CommentLine(x: string, prefix: string): string {
    TrimRight(prefix + " " + x, IsSpace)
  }

  function CommentHeader(copyright: string, prefix: string): string {
    TrimRight(CommentLines(TrimRight(copyright, IsSpace), prefix), IsSpace)
  }

  predicate CommentPrefix(prefix: string) { prefix == "#" || prefix == "//" }

  /** The shape of a commented notice: it opens with the prefix and "Copyright", holds no blank line, ends in ink. */
  predicate HeaderText(h: string, prefix: string) {
    prefix + " Copyright" <= h && !IsSpace(h[|h| - 1]) && FirstBlank(h).None?
  }

  /** The header is recognised by the expression that looks for headers: its first line says more than "Copyright", or is all of it. */
  predicate Recognised(h: string, prefix: string)
    requires HeaderText(h, prefix)
  {
    |h| == |prefix| + 10 || h[|prefix| + 10] != '\n'
  }

  predicate OneLine(s: string) { forall i :: 0 <= i < |s| ==> s[i] != '\n' }

  /** One commented line: it keeps the prefix, ends in ink and is one line. */
  lemma CommentLineShape(x: string, prefix: string)
    requires CommentPrefix(prefix) && OneLine(x)
    ensures var line := CommentLine(x, prefix); prefix <= line && !IsSpace(line[|line| - 1]) && OneLine(line)
  {
    RawLine(x, prefix);
    PrefixLetter(prefix);
    TrimRightKeepsPrefix(prefix, " " + x, IsSpace);
    OneLinePrefix(CommentLine(x, prefix), prefix + " " + x);
  }

  lemma RawLine(x: string, prefix: string)
    requires CommentPrefix(prefix) && OneLine(x)
    ensures prefix + " " + x == prefix + (" " + x) && OneLine(prefix + " " + x)
  {
  }

  lemma PrefixLetter(prefix: string)
    requires CommentPrefix(prefix)
    ensures prefix != "" && !IsSpace(prefix[|prefix| - 1]) && prefix[0] != '\n'
  {
  }

  lemma OneLinePrefix(s: string, t: string)
    requires s <= t && OneLine(t)
    ensures OneLine(s)
  {
    assert forall i :: 0 <= i < |s| ==> s[i] == t[i];
  }

  /** Lines that are not empty join without a blank line. */
  lemma JoinHasNoBlank(line: string, rest: string)
    requires OneLine(line) && line != ""
    requires rest != "" && rest[0] != '\n' && FirstBlank(rest).None?
    ensures FirstBlank(line + "\n" + rest).None?
  {
    var h := line + "\n" + rest;
    forall i ensures !BlankAt(h, i) {
      if |line| < i { assert BlankAt(h, i) == BlankAt(rest, i - |line| - 1); }
    }
  }

  lemma OneLineHasNoBlank(line: string)
    requires OneLine(line)
    ensures FirstBlank(line).None?
  {
  }

  /** Lines without a blank one between, the last one ending in ink. */
  predicate Comment(h: string) {
    h != "" && h[0] != '\n' && !IsSpace(h[|h| - 1]) && FirstBlank(h).None?
  }

  /** A last line, or a line in front of a comment, makes a comment. */
  lemma CommentStep(line: string, rest: string)
    requires OneLine(line) && line != "" && !IsSpace(line[|line| - 1])
    ensures Comment(line)
    ensures Comment(rest) ==> Comment(line + "\n" + rest)
  {
    OneLineHasNoBlank(line);
    if Comment(rest) { JoinHasNoBlank(line, rest); }
  }

  lemma {:induction false} CommentLinesShape(text: string, prefix: string)
    requires CommentPrefix(prefix)
    ensures Comment(CommentLines(text, prefix))
    ensures CommentLine(text[..LineEnd(text)], prefix) <= CommentLines(text, prefix)
    decreases |text|
  {
    var e := LineEnd(text);
    var line := CommentLine(text[..e], prefix);
    LineEndFirst(text);
    PrefixLetter(prefix);
    CommentLineShape(text[..e], prefix);
    if e < |text| {
      CommentLinesShape(text[e + 1..], prefix);
      CommentStep(line, CommentLines(text[e + 1..], prefix));
    } else {
      CommentStep(line, "");
    }
  }

  lemma NoticeShape(text: string, prefix: string)
    requires CommentPrefix(prefix) && "Copyright" <= text
    ensures HeaderText(CommentLines(text, prefix), prefix)
  {
    var word := "Copyright";
    var e := LineEnd(text);
    assert forall i :: 0 <= i < 9 ==> text[i] == word[i] && word[i] != '\n';
    assert 9 <= e;
    CommentLinesShape(text, prefix);
    FirstLineKeepsWord(text[9..e], prefix);
    assert text[..e] == word + text[9..e];
  }

  lemma NoticeKept(copyright: string)
    requires "Copyright" <= copyright
    ensures "Copyright" <= TrimRight(copyright, IsSpace)
  {
    var word := "Copyright";
    assert copyright == word + copyright[9..];
    TrimRightKeepsPrefix(word, copyright[9..], IsSpace);
  }

  /** A valid notice yields a header of the expected shape. */
  lemma CommentHeaderShape(copyright: string, prefix: string)
    requires CommentPrefix(prefix) && "Copyright" <= copyright
    ensures HeaderText(CommentHeader(copyright, prefix), prefix)
  {
    var text := TrimRight(copyright, IsSpace);
    NoticeKept(copyright);
    NoticeShape(text, prefix);
    TrimRightDone(CommentLines(text, prefix), IsSpace);
  }

  // ---- The notice can be read back ----

  /** A commented line without its prefix and the blank behind it. */
  function Uncommented(line: string, prefix: string): string {
    if prefix + " " <= line then line[|prefix| + 1..] else if prefix <= line then line[|prefix|..] else line
  }

  function UncommentedLines(h: string, prefix: string): string {
    var e := LineEnd(h);
    var line := Uncommented(h[..e], prefix);
    if e == |h| then line else line + "\n" + UncommentedLines(h[e + 1..], prefix)
  }

  /** No line ends in white space other than its newline. */
  predicate Tidy(text: string) {
    forall i :: 0 <= i < |text| && IsSpace(text[i]) && text[i] != '\n' ==> i + 1 < |text| && text[i + 1] != '\n'
  }

  lemma UncommentLine(x: string, prefix: string)
    requires CommentPrefix(prefix) && (x != "" ==> !IsSpace(x[|x| - 1]))
    ensures Uncommented(CommentLine(x, prefix), prefix) == x
  {
    PrefixLetter(prefix);
    if x == "" {
      assert prefix + " " + x == prefix + " ";
      TrimRightKeepsPrefix(prefix, " ", IsSpace);
      TrimRightAll(" ", IsSpace);
      assert CommentLine(x, prefix) == prefix;
    } else {
      TrimRightDone(prefix + " " + x, IsSpace);
    }
  }

  lemma JoinedLine(line: string, rest: string)
    requires OneLine(line)
    ensures LineEnd(line + "\n" + rest) == |line| && (line + "\n" + rest)[..|line|] == line
    ensures (line + "\n" + rest)[|line| + 1..] == rest && LineEnd(line) == |line|
  {
    LineEndIs(line + "\n" + rest, |line|);
    LineEndIs(line, |line|);
  }

  lemma TidyParts(text: string, e: nat)
    requires Tidy(text) && e == LineEnd(text)
    ensures OneLine(text[..e]) && (e > 0 ==> !IsSpace(text[..e][e - 1]))
    ensures e < |text| ==> Tidy(text[e + 1..])
  {
    LineEndFirst(text);
    if e < |text| {
      var rest := text[e + 1..];
      forall i | 0 <= i < |rest| && IsSpace(rest[i]) && rest[i] != '\n' ensures i + 1 < |rest| && rest[i + 1] != '\n' {
        assert rest[i] == text[e + 1 + i];
        assert text[e + 1 + i + 1] == rest[i + 1];
      }
    }
  }

  lemma ReadBackLast(line: string, x: string, prefix: string)
    requires OneLine(line) && Uncommented(line, prefix) == x
    ensures UncommentedLines(line, prefix) == x
  {
    JoinedLine(line, "");
    assert line[..|line|] == line;
  }

  lemma ReadBackMore(line: string, rest: string, x: string, more: string, prefix: string)
    requires OneLine(line) && Uncommented(line, prefix) == x && UncommentedLines(rest, prefix) == more
    ensures UncommentedLines(line + "\n" + rest, prefix) == x + "\n" + more
  {
    JoinedLine(line, rest);
    assert |line| < |line + "\n" + rest|;
  }

  lemma FirstOfLines(text: string, e: nat, prefix: string)
    requires e == LineEnd(text) && e < |text|
    ensures CommentLines(text, prefix) == CommentLine(text[..e], prefix) + "\n" + CommentLines(text[e + 1..], prefix)
    ensures text == text[..e] + "\n" + text[e + 1..]
  {
  }

  lemma OnlyLine(text: string, prefix: string)
    requires LineEnd(text) == |text|
    ensures CommentLines(text, prefix) == CommentLine(text, prefix) && text[..|text|] == text
  {
    assert text[..|text|] == text;
  }

  lemma {:induction false} LinesReadBack(text: string, prefix: string)
    requires CommentPrefix(prefix) && Tidy(text)
    ensures UncommentedLines(CommentLines(text, prefix), prefix) == text
    decreases |text|
  {
    var e := LineEnd(text);
    var x, line := text[..e], CommentLine(text[..e], prefix);
    TidyParts(text, e);
    CommentLineShape(x, prefix);
    UncommentLine(x, prefix);
    if e < |text| {
      var rest := text[e + 1..];
      LinesReadBack(rest, prefix);
      ReadBackMore(line, CommentLines(rest, prefix), x, rest, prefix);
      FirstOfLines(text, e, prefix);
    } else {
      ReadBackLast(line, x, prefix);
      OnlyLine(text, prefix);
    }
  }

  /** Every line of the notice is in the header: without the comment prefix it reads as the notice did. */
  lemma NoticeReadBack(copyright: string, prefix: string)
    requires CommentPrefix(prefix) && Tidy(copyright) && (copyright != "" ==> !IsSpace(copyright[|copyright| - 1]))
    ensures UncommentedLines(CommentHeader(copyright, prefix), prefix) == copyright
  {
    TrimRightDone(copyright, IsSpace);
    CommentLinesShape(copyright, prefix);
    TrimRightDone(CommentLines(copyright, prefix), IsSpace);
    LinesReadBack(copyright, prefix);
  }

  lemma FirstLineKeepsWord(x: string, prefix: string)
    requires CommentPrefix(prefix)
    ensures prefix + " Copyright" <= CommentLine("Copyright" + x, prefix)
  {
    var opening := prefix + " Copyright";
    assert prefix + " " + ("Copyright" + x) == opening + x;
    assert opening[|opening| - 1] == 't';
    TrimRightKeepsPrefix(opening, x, IsSpace);
  }

  /** What a removal loop leaves: the rest of the text, and whether something other than the header itself was removed. */
  datatype Stripped = Stripped(body: string, changed: bool)

  /** A header, a blank line and the body. */
  function Joined(header: string, body: string): string { header + "\n\n" + body }

  lemma FirstBlankAfter(h: string, b: string)
    requires FirstBlank(h).None? && h != "" && h[|h| - 1] != '\n'
    ensures FirstBlank(Joined(h, b)) == Some(|h|)
  {
    var t := Joined(h, b);
    assert BlankAt(t, |h|);
    forall i | 0 <= i < |h| ensures !BlankAt(t, i) { assert !BlankAt(h, i); }
  }

  /** The expression reads the opening of a header and goes on with the run after it. */
  lemma HeaderEndOpening(t: string, prefix: string)
    requires prefix + " Copyright" <= t
    ensures HeaderEnd(t, prefix) == RunAfter(t, |prefix| + 10)
  {
    var bare := prefix + " Copyright";
    var doubled := prefix + " # Copyright";
    assert bare[|prefix| + 1] == 'C' && doubled[|prefix| + 1] == '#';
    assert t[|prefix| + 1] == bare[|prefix| + 1];
    assert !(doubled <= t);
  }

  /** A run that starts inside a header: where it ends, and that it needs a character to start with. */
  lemma RunInHeader(tail: string, b: string)
    requires FirstBlank(tail).None? && tail != "" && tail[|tail| - 1] != '\n'
    ensures RunEnd(Joined(tail, b)) ==
            if tail[0] == '\n' then None
            else if b != "" && b[0] == '\n' then Some(|tail| + 1)
            else Some(|tail|)
  {
    var t := Joined(tail, b);
    FirstBlankAfter(tail, b);
    SecondNewline(tail, b);
    assert t[0] == tail[0] && !BlankAt(t, 0);
  }

  lemma JoinedDrop(h: string, n: nat, b: string)
    requires n <= |h|
    ensures n <= |Joined(h, b)| && Joined(h, b)[n..] == Joined(h[n..], b)
  {
  }

  lemma RunAtBlank(tail: string, b: string)
    requires tail == ""
    ensures RunEnd(Joined(tail, b)) == Some(0)
  {
  }

  lemma NoBlankInTail(h: string, n: nat)
    requires FirstBlank(h).None? && n <= |h|
    ensures FirstBlank(h[n..]).None?
  {
    var tail := h[n..];
    forall i ensures !BlankAt(tail, i) { if 0 <= i { assert BlankAt(tail, i) == BlankAt(h, i + n); } }
  }

  /** The run from inside a header up to the blank line behind it. */
  lemma RunToBlank(h: string, n: nat, b: string)
    requires FirstBlank(h).None? && h != "" && h[|h| - 1] != '\n' && n <= |h|
    ensures RunAfter(Joined(h, b), n) ==
            if n == |h| then Some(|h|)
            else if h[n] == '\n' then None
            else if b != "" && b[0] == '\n' then Some(|h| + 1)
            else Some(|h|)
  {
    var tail := h[n..];
    JoinedDrop(h, n, b);
    if n == |h| {
      RunAtBlank(tail, b);
    } else {
      NoBlankInTail(h, n);
      RunInHeader(tail, b);
    }
  }

  lemma SecondNewline(h: string, b: string)
    ensures BlankAt(Joined(h, b), |h| + 1) <==> b != "" && b[0] == '\n'
  {
    var t := Joined(h, b);
    assert t[|h| + 1] == '\n';
    assert b != "" ==> t[|h| + 2] == b[0];
  }

  /** A header in front of a blank line is matched exactly when it is recognised; newlines after the blank line may add one more to the match. */
  lemma OwnHeaderMatch(h: string, prefix: string, b: string)
    requires CommentPrefix(prefix) && HeaderText(h, prefix)
    ensures HeaderEnd(Joined(h, b), prefix).Some? <==> Recognised(h, prefix)
    ensures var m := HeaderEnd(Joined(h, b), prefix);
            m.Some? ==> m.value == if |prefix| + 10 < |h| && b != "" && b[0] == '\n' then |h| + 1 else |h|
  {
    HeaderEndOpening(Joined(h, b), prefix);
    RunToBlank(h, |prefix| + 10, b);
  }
}
