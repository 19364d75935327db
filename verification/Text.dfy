/** String helpers shared by the models: optional values, trimming, prefixes. */
module Text {

  datatype Option<+T> = None | Some(value: T)

  function Or(s: string, fallback: string): string { if s != "" then s else fallback }

  /** Drops the longest prefix whose characters all satisfy `cut`. */
  function TrimLeft(s: string, cut: char -> bool): (r: string)
    ensures |r| <= |s|
    ensures r != "" ==> !cut(r[0])
  {
    if s != "" && cut(s[0]) then TrimLeft(s[1..], cut) else s
  }

  /** Drops the longest suffix whose characters all satisfy `cut`. */
  function TrimRight(s: string, cut: char -> bool): (r: string)
    ensures r <= s
    ensures r != "" ==> !cut(r[|r| - 1])
  {
    if s != "" && cut(s[|s| - 1]) then TrimRight(s[..|s| - 1], cut) else s
  }

  function Trim(s: string, cut: char -> bool): string {
    TrimRight(TrimLeft(s, cut), cut)
  }

  /** What is left of trimming is the end of the text. */
  lemma {:induction false} TrimLeftEnd(s: string, cut: char -> bool)
    ensures TrimLeft(s, cut) == s[|s| - |TrimLeft(s, cut)|..]
  {
    if s != "" && cut(s[0]) {
      TrimLeftEnd(s[1..], cut);
    }
  }

  /** A prefix that ends in a kept character survives trimming on the right, and only what follows it is trimmed. */
  lemma {:induction false} TrimRightKeepsPrefix(x: string, y: string, cut: char -> bool)
    requires x != "" && !cut(x[|x| - 1])
    ensures TrimRight(x + y, cut) == x + TrimRight(y, cut)
  {
    if y == "" {
      assert x + y == x;
    } else if cut(y[|y| - 1]) {
      assert (x + y)[..|x + y| - 1] == x + y[..|y| - 1];
      TrimRightKeepsPrefix(x, y[..|y| - 1], cut);
    }
  }

  /** Only characters of the cut set are trimmed. */
  lemma {:induction false} TrimRightCuts(s: string, cut: char -> bool)
    ensures forall i :: |TrimRight(s, cut)| <= i < |s| ==> cut(s[i])
  {
    if s != "" && cut(s[|s| - 1]) {
      var front := s[..|s| - 1];
      TrimRightCuts(front, cut);
      forall i | |TrimRight(s, cut)| <= i < |s| ensures cut(s[i]) { if i < |s| - 1 { assert s[i] == front[i]; } }
    }
  }

  lemma {:induction false} TrimRightDone(s: string, cut: char -> bool)
    requires s != "" ==> !cut(s[|s| - 1])
    ensures TrimRight(s, cut) == s
  {
  }

  lemma {:induction false} TrimLeftDone(s: string, cut: char -> bool)
    requires s != "" ==> !cut(s[0])
    ensures TrimLeft(s, cut) == s
  {
  }

  /** A string made of cut characters only is trimmed away. */
  lemma {:induction false} TrimRightAll(y: string, cut: char -> bool)
    requires forall i :: 0 <= i < |y| ==> cut(y[i])
    ensures TrimRight(y, cut) == ""
  {
    if y != "" { TrimRightAll(y[..|y| - 1], cut); }
  }

  lemma {:induction false} TrimLeftAll(y: string, z: string, cut: char -> bool)
    requires forall i :: 0 <= i < |y| ==> cut(y[i])
    ensures TrimLeft(y + z, cut) == TrimLeft(z, cut)
  {
    if y == "" {
      assert y + z == z;
    } else {
      assert (y + z)[1..] == y[1..] + z;
      TrimLeftAll(y[1..], z, cut);
    }
  }

  /** Trimming takes exactly the cut characters at both ends. */
  lemma TrimExactly(front: string, s: string, end: string, cut: char -> bool)
    requires forall i :: 0 <= i < |front| ==> cut(front[i])
    requires forall i :: 0 <= i < |end| ==> cut(end[i])
    requires s != "" && !cut(s[0]) && !cut(s[|s| - 1])
    ensures Trim(front + s + end, cut) == s
  {
    assert front + s + end == front + (s + end);
    TrimLeftAll(front, s + end, cut);
    TrimLeftDone(s + end, cut);
    TrimRightKeepsPrefix(s, end, cut);
    TrimRightAll(end, cut);
  }

  lemma TrimTwice(s: string, cut: char -> bool)
    ensures Trim(Trim(s, cut), cut) == Trim(s, cut)
  {
    var t := Trim(s, cut);
    assert t != "" ==> t[0] == TrimLeft(s, cut)[0];
    TrimLeftDone(t, cut);
    TrimRightDone(t, cut);
  }
}
