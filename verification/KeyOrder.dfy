/** Keys of cluster objects and the order in which lists return them. */
module KeyOrder {
  import opened Text

  datatype Key = Key(namespace: string, name: string)

  /** Lexicographic order. */
  predicate Before(a: string, b: string) {
    b != "" && (a == "" || a[0] < b[0] || (a[0] == b[0] && Before(a[1..], b[1..])))
  }

  predicate KeyBefore(k: Key, l: Key) {
    Before(k.namespace, l.namespace) || (k.namespace == l.namespace && Before(k.name, l.name))
  }

  /** The texts agree up to here, and then the first ends or has the smaller character. */
  predicate DiffersAt(a: string, b: string, i: nat) {
    i <= |a| && i < |b| && (forall j :: 0 <= j < i ==> a[j] == b[j]) && (i == |a| || a[i] < b[i])
  }

  lemma {:induction false} BeforeExactly(a: string, b: string)
    ensures Before(a, b) <==> exists i: nat :: DiffersAt(a, b, i)
    decreases |a|
  {
    if a != "" && b != "" && a[0] == b[0] {
      BeforeExactly(a[1..], b[1..]);
      if i: nat :| DiffersAt(a[1..], b[1..], i) { assert DiffersAt(a, b, i + 1); }
      if i: nat :| DiffersAt(a, b, i) {
        assert DiffersAt(a[1..], b[1..], i - 1);
      }
    } else {
      if Before(a, b) { assert DiffersAt(a, b, 0); }
    }
  }

  lemma {:induction false} BeforeTotal(a: string, b: string)
    ensures a == b || Before(a, b) || Before(b, a)
    ensures !(Before(a, b) && Before(b, a))
    ensures !Before(a, a)
    decreases |a|
  {
    if a != "" {
      BeforeTotal(a[1..], if b == "" then "" else b[1..]);
      if b != "" && a[0] == b[0] && a[1..] == b[1..] {
        assert a == [a[0]] + a[1..] && b == [b[0]] + b[1..];
      }
    }
  }

  lemma {:induction false} BeforeTransitive(a: string, b: string, c: string)
    requires Before(a, b) && Before(b, c)
    ensures Before(a, c)
    decreases |a|
  {
    if a != "" && a[0] == b[0] && b[0] == c[0] { BeforeTransitive(a[1..], b[1..], c[1..]); }
  }

  lemma KeyBeforeTotal(k: Key, l: Key)
    ensures k == l || KeyBefore(k, l) || KeyBefore(l, k)
    ensures !(KeyBefore(k, l) && KeyBefore(l, k))
  {
    BeforeTotal(k.namespace, l.namespace);
    BeforeTotal(k.name, l.name);
  }

  lemma KeyBeforeTransitive(k: Key, l: Key, m: Key)
    requires KeyBefore(k, l) && KeyBefore(l, m)
    ensures KeyBefore(k, m)
  {
    if k.namespace == l.namespace == m.namespace {
      BeforeTotal(k.namespace, k.namespace);
      BeforeTransitive(k.name, l.name, m.name);
    } else if k.namespace != l.namespace && l.namespace != m.namespace {
      BeforeTransitive(k.namespace, l.namespace, m.namespace);
    }
  }

  predicate IsLeast(k: Key, s: set<Key>) { k in s && forall l :: l in s ==> l == k || KeyBefore(k, l) }

  lemma LeastExists(s: set<Key>)
    requires s != {}
    ensures exists k :: IsLeast(k, s)
    decreases |s|
  {
    var k :| k in s;
    var rest := s - {k};
    if rest == {} {
      assert s == {k};
      assert IsLeast(k, s);
    } else {
      LeastExists(rest);
      var l :| IsLeast(l, rest);
      KeyBeforeTotal(k, l);
      if KeyBefore(l, k) {
        assert IsLeast(l, s);
      } else {
        forall m | m in s ensures m == k || KeyBefore(k, m) {
          if m != k && m != l { KeyBeforeTransitive(k, l, m); }
        }
        assert IsLeast(k, s);
      }
    }
  }

  lemma LeastUnique(k: Key, l: Key, s: set<Key>)
    requires IsLeast(k, s) && IsLeast(l, s)
    ensures k == l
  {
    KeyBeforeTotal(k, l);
  }

  function Least(s: set<Key>): (k: Key)
    requires s != {}
    ensures IsLeast(k, s)
  {
    LeastExists(s);
    assert forall k, l :: IsLeast(k, s) && IsLeast(l, s) ==> k == l by {
      forall k, l | IsLeast(k, s) && IsLeast(l, s) ensures k == l { LeastUnique(k, l, s); }
    }
    var k :| k in s && IsLeast(k, s);
    k
  }

  /** The keys in list order. */
  function Sorted(s: set<Key>): (r: seq<Key>)
    ensures forall k :: k in r <==> k in s
  {
    if s == {} then [] else var k := Least(s); [k] + Sorted(s - {k})
  }

  lemma SortedAt(s: set<Key>, i: nat)
    requires i < |Sorted(s)|
    ensures Sorted(s)[i] in s
  {
    assert Sorted(s)[i] in Sorted(s);
  }

  predicate Ascending(ks: seq<Key>) { forall i, j :: 0 <= i < j < |ks| ==> KeyBefore(ks[i], ks[j]) }

  /** Lists are in the order of keys. */
  lemma {:induction false} SortedAscending(s: set<Key>)
    ensures Ascending(Sorted(s))
    decreases |s|
  {
    if s != {} {
      var k := Least(s);
      var rest := Sorted(s - {k});
      SortedAscending(s - {k});
      forall i, j | 0 <= i < j < |Sorted(s)| ensures KeyBefore(Sorted(s)[i], Sorted(s)[j]) {
        assert Sorted(s)[j] == rest[j - 1] && rest[j - 1] in rest;
        if i > 0 { assert Sorted(s)[i] == rest[i - 1]; }
      }
    }
  }

  lemma {:induction false} SortedDistinct(s: set<Key>)
    ensures forall i, j :: 0 <= i < j < |Sorted(s)| ==> Sorted(s)[i] != Sorted(s)[j]
    decreases |s|
  {
    if s != {} {
      var k := Least(s);
      var rest := Sorted(s - {k});
      SortedDistinct(s - {k});
      forall i, j | 0 <= i < j < |Sorted(s)| ensures Sorted(s)[i] != Sorted(s)[j] {
        assert Sorted(s)[j] == rest[j - 1] && rest[j - 1] in rest;
        if i > 0 { assert Sorted(s)[i] == rest[i - 1]; }
      }
    }
  }

  function InNamespace(s: set<Key>, namespace: string): set<Key> { set k | k in s && k.namespace == namespace }

  /** The least of a set, if there is one. */
  function LeastOf(s: set<Key>): Option<Key> { if s == {} then None else Some(Least(s)) }

  /** The keys of a list that are in a set, in the order of the list. */
  function Pick(ks: seq<Key>, s: set<Key>): seq<Key> {
    if ks == [] then [] else (if ks[0] in s then [ks[0]] else []) + Pick(ks[1..], s)
  }

  lemma {:induction false} PickAppend(ks: seq<Key>, k: Key, s: set<Key>)
    ensures Pick(ks + [k], s) == Pick(ks, s) + if k in s then [k] else []
  {
    if ks == [] {
      assert ks + [k] == [k] && Pick([k][1..], s) == [];
    } else {
      assert (ks + [k])[1..] == ks[1..] + [k];
      PickAppend(ks[1..], k, s);
    }
  }

  lemma PickStep(ks: seq<Key>, i: nat, s: set<Key>)
    requires i < |ks|
    ensures Pick(ks[i..], s) == (if ks[i] in s then [ks[i]] else []) + Pick(ks[i + 1..], s)
  {
    assert ks[i..][1..] == ks[i + 1..];
  }

  lemma {:induction false} PickAll(ks: seq<Key>, s: set<Key>, t: set<Key>)
    requires forall k :: k in ks ==> (k in s <==> k in t)
    ensures Pick(ks, s) == Pick(ks, t)
  {
    if ks != [] { PickAll(ks[1..], s, t); }
  }

  lemma {:induction false} PickEverything(ks: seq<Key>, own: set<Key>)
    requires forall l :: l in ks ==> l in own
    ensures Pick(ks, own) == ks
  {
    if ks != [] { PickEverything(ks[1..], own); }
  }

  /** Listing everything and picking what matches is listing what matches. */
  lemma {:induction false} PickSorted(all: set<Key>, s: set<Key>)
    requires s <= all
    ensures Pick(Sorted(all), s) == Sorted(s)
    decreases |all|
  {
    if all != {} {
      var k := Least(all);
      assert Sorted(all)[1..] == Sorted(all - {k});
      PickAll(Sorted(all - {k}), s, s - {k});
      PickSorted(all - {k}, s - {k});
      if k in s {
        LeastUnique(k, Least(s), s);
      } else {
        assert s - {k} == s;
      }
    }
  }

  lemma {:induction false} PickAt(ks: seq<Key>, s: set<Key>, i: nat)
    requires i < |ks| && ks[i] in s && forall k :: k in ks[..i] ==> k !in s
    ensures Pick(ks, s) != [] && Pick(ks, s)[0] == ks[i]
  {
    if i > 0 {
      assert ks[0] in ks[..i];
      assert ks[1..][..i - 1] == ks[..i][1..];
      PickAt(ks[1..], s, i - 1);
    }
  }

  /** A search that stops at the first match of a list finds the least of all that match. */
  lemma FirstIsLeast(all: set<Key>, s: set<Key>, i: nat)
    requires s <= all && i < |Sorted(all)| && Sorted(all)[i] in s && forall k :: k in Sorted(all)[..i] ==> k !in s
    ensures LeastOf(s) == Some(Sorted(all)[i])
  {
    PickAt(Sorted(all), s, i);
    PickSorted(all, s);
  }
}
