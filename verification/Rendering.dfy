/** Filling the repository into policy templates. */
module Rendering {

  const PLACEHOLDER := "<REPOSITORY>"

  /** Every occurrence of the pattern replaced, from left to right. */
  function Replace(s: string, pat: string, fill: string): string
    requires pat != ""
    decreases |s|
  {
    if pat <= s then fill + Replace(s[|pat|..], pat, fill)
    else if s == "" then ""
    else [s[0]] + Replace(s[1..], pat, fill)
  }

  /** A repository that is not given stands for all. */
  function Scope(repository: string): string { if repository == "" then "*" else repository }

  function Render(template: string, repository: string): string {
    Replace(template, PLACEHOLDER, Scope(repository))
  }

  predicate Contains(s: string, pat: string) { exists i :: 0 <= i <= |s| && pat <= s[i..] }

  /** The characters of the pattern do not occur in the text that replaces it. */
  predicate Apart(fill: string, pat: string) { forall c :: c in fill ==> c !in pat }

  lemma ContainsTail(s: string, pat: string)
    requires s != ""
    ensures Contains(s, pat) <==> pat <= s || Contains(s[1..], pat)
  {
    if Contains(s[1..], pat) {
      var i :| 0 <= i <= |s| - 1 && pat <= s[1..][i..];
      assert s[1..][i..] == s[i + 1..];
    }
    if Contains(s, pat) {
      var i :| 0 <= i <= |s| && pat <= s[i..];
      if i == 0 { assert s[0..] == s; } else { assert s[1..][i - 1..] == s[i..]; }
    }
    if pat <= s { assert s[0..] == s; }
  }

  lemma FillFirst(s: string, pat: string, fill: string)
    requires pat != "" && fill != "" && pat <= s
    ensures Replace(s, pat, fill) != "" && Replace(s, pat, fill)[0] in fill
  {
    assert Replace(s, pat, fill)[0] == fill[0];
  }

  /** What was there before replacement and uses characters of the pattern only stands there still. */
  lemma {:induction false} KeptPrefix(s: string, pat: string, fill: string, q: string)
    requires pat != "" && fill != "" && Apart(fill, pat)
    requires q <= Replace(s, pat, fill) && forall i :: 0 <= i < |q| ==> q[i] in pat
    ensures q <= s
    decreases |q|
  {
    if q != "" {
      var r := Replace(s, pat, fill);
      assert q[0] == r[0] && q[0] in pat;
      if pat <= s {
        FillFirst(s, pat, fill);
        assert false;
      }
      assert r[1..] == Replace(s[1..], pat, fill);
      assert q[1..] <= r[1..];
      KeptPrefix(s[1..], pat, fill, q[1..]);
      assert q == [q[0]] + q[1..] && s == [s[0]] + s[1..];
    }
  }

  lemma SkipText(fill: string, rest: string, pat: string)
    requires pat != "" && Apart(fill, pat) && !Contains(rest, pat)
    ensures !Contains(fill + rest, pat)
    decreases |fill|
  {
    if fill == "" {
      assert fill + rest == rest;
    } else {
      assert (fill + rest)[1..] == fill[1..] + rest;
      SkipText(fill[1..], rest, pat);
      assert (fill + rest)[0] == fill[0] && fill[0] in fill && pat[0] in pat;
      ContainsTail(fill + rest, pat);
    }
  }

  /** Replacement by text that shares no character with the pattern leaves no occurrence, also none across its borders. */
  lemma {:induction false} ReplaceComplete(s: string, pat: string, fill: string)
    requires pat != "" && fill != "" && Apart(fill, pat)
    ensures !Contains(Replace(s, pat, fill), pat)
    decreases |s|
  {
    var r := Replace(s, pat, fill);
    if pat <= s {
      ReplaceComplete(s[|pat|..], pat, fill);
      SkipText(fill, Replace(s[|pat|..], pat, fill), pat);
    } else if s != "" {
      ReplaceComplete(s[1..], pat, fill);
      assert r[1..] == Replace(s[1..], pat, fill);
      ContainsTail(r, pat);
      if pat <= r { KeptPrefix(s, pat, fill, pat); }
    }
  }

  /** Where the pattern does not occur nothing is replaced. */
  lemma {:induction false} ReplaceNothing(s: string, pat: string, fill: string)
    requires pat != "" && !Contains(s, pat)
    ensures Replace(s, pat, fill) == s
    decreases |s|
  {
    if s != "" {
      ContainsTail(s, pat);
      ReplaceNothing(s[1..], pat, fill);
    } else {
      assert s[0..] == s;
    }
  }

  /** Rendering is complete, and rendering again, for any repository, changes nothing. */
  lemma RenderComplete(template: string, repository: string, again: string)
    requires Apart(repository, PLACEHOLDER)
    ensures !Contains(Render(template, repository), PLACEHOLDER)
    ensures Render(Render(template, repository), again) == Render(template, repository)
  {
    StarApart();
    ReplaceComplete(template, PLACEHOLDER, Scope(repository));
    ReplaceNothing(Render(template, repository), PLACEHOLDER, Scope(again));
  }

  lemma StarApart()
    ensures Apart("*", PLACEHOLDER)
  {
  }

  /** Without a placeholder a text renders as itself. */
  lemma RenderPlain(template: string, repository: string)
    requires !Contains(template, PLACEHOLDER)
    ensures Render(template, repository) == template
  {
    ReplaceNothing(template, PLACEHOLDER, Scope(repository));
  }

  /** A longer text in place of every occurrence makes a longer result. */
  lemma {:induction false} LongerFill(s: string, pat: string, short: string, long: string)
    requires pat != "" && |short| < |long|
    ensures |Replace(s, pat, short)| <= |Replace(s, pat, long)|
    ensures Contains(s, pat) ==> |Replace(s, pat, short)| < |Replace(s, pat, long)|
    decreases |s|
  {
    if pat <= s {
      LongerFill(s[|pat|..], pat, short, long);
    } else if s != "" {
      ContainsTail(s, pat);
      LongerFill(s[1..], pat, short, long);
    }
  }

  lemma {:induction false} SameLengthInjective(s: string, pat: string, a: string, b: string)
    requires pat != "" && Contains(s, pat) && |a| == |b| && Replace(s, pat, a) == Replace(s, pat, b)
    ensures a == b
    decreases |s|
  {
    if pat <= s {
      var x, y := Replace(s[|pat|..], pat, a), Replace(s[|pat|..], pat, b);
      assert a == (a + x)[..|a|] && b == (b + y)[..|b|];
    } else {
      ContainsTail(s, pat);
      assert Replace(s, pat, a)[1..] == Replace(s[1..], pat, a);
      assert Replace(s, pat, b)[1..] == Replace(s[1..], pat, b);
      SameLengthInjective(s[1..], pat, a, b);
    }
  }

  /** A template with a placeholder renders differently for different repositories, whatever characters they use. */
  lemma RenderInjective(template: string, a: string, b: string)
    requires Contains(template, PLACEHOLDER) && a != "" && b != ""
    ensures Render(template, a) == Render(template, b) <==> a == b
  {
    if Render(template, a) == Render(template, b) {
      if |a| < |b| { LongerFill(template, PLACEHOLDER, a, b); }
      if |b| < |a| { LongerFill(template, PLACEHOLDER, b, a); }
      SameLengthInjective(template, PLACEHOLDER, a, b);
    }
  }

  lemma {:induction false} ReplaceItself(s: string, pat: string)
    requires pat != ""
    ensures Replace(s, pat, pat) == s
    decreases |s|
  {
    if pat <= s {
      ReplaceItself(s[|pat|..], pat);
      assert s == pat + s[|pat|..];
    } else if s != "" {
      ReplaceItself(s[1..], pat);
    }
  }

  /** For all repositories at once, exactly the texts without a placeholder render as themselves. */
  lemma RenderFixpoints(template: string)
    ensures Render(template, "*") == template <==> !Contains(template, PLACEHOLDER)
  {
    if Contains(template, PLACEHOLDER) {
      LongerFill(template, PLACEHOLDER, "*", PLACEHOLDER);
      ReplaceItself(template, PLACEHOLDER);
    } else {
      RenderPlain(template, "*");
    }
  }

  /** A pattern whose first character comes once does not overlap itself. */
  predicate NoOverlap(pat: string) { pat != "" && forall i :: 1 <= i < |pat| ==> pat[i] != pat[0] }

  lemma NotInFront(a: string, pat: string, b: string)
    requires NoOverlap(pat) && a != "" && pat <= a + pat + b
    ensures pat <= a
  {
    var s := a + pat + b;
    assert s[..|pat|] == pat && s[|a|] == pat[0];
    if |a| < |pat| { assert false; }
    assert a == s[..|a|];
  }

  lemma {:induction false} ReplaceFirst(a: string, pat: string, b: string, fill: string)
    requires NoOverlap(pat) && !Contains(a, pat)
    ensures Replace(a + pat + b, pat, fill) == a + fill + Replace(b, pat, fill)
    decreases |a|
  {
    if a == "" {
      assert a + pat + b == pat + b && (pat + b)[|pat|..] == b;
    } else {
      ContainsTail(a, pat);
      if pat <= a + pat + b { NotInFront(a, pat, b); }
      ReplaceFirst(a[1..], pat, b, fill);
      ReplaceStep(a, a + pat + b, a[1..] + pat + b, pat, fill);
      FrontBack(a, fill, Replace(b, pat, fill));
    }
  }

  lemma FrontBack(a: string, fill: string, rest: string)
    requires a != ""
    ensures [a[0]] + (a[1..] + fill + rest) == a + fill + rest
  {
  }

  lemma ReplaceStep(a: string, s: string, t: string, pat: string, fill: string)
    requires pat != "" && a != "" && a <= s && !(pat <= s) && t == s[1..]
    ensures Replace(s, pat, fill) == [a[0]] + Replace(t, pat, fill)
  {
  }

  /** Rendering puts the repository, or the star where none is given, in place of the placeholder and keeps all text around it. */
  lemma RenderFillsIn(a: string, b: string, repository: string)
    requires !Contains(a, "<REPOSITORY>")
    ensures Render(a + "<REPOSITORY>" + b, repository) == a + (if repository != "" then repository else "*") + Render(b, repository)
  {
    ReplaceFirst(a, PLACEHOLDER, b, Scope(repository));
  }
}
