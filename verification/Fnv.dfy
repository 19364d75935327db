/**
 The FNV-1a hash, section 2 of draft-eastlake-fnv, on unsigned words: the 64-bit variant behind the user ids of the
 auth server, the 32-bit variant behind truncated CronJob names.
*/
module Fnv {
  type Byte = b: int | 0 <= b < 256

  const P63: nat := 0x8000_0000_0000_0000
  const P64: nat := 0x1_0000_0000_0000_0000
  const P32: nat := 0x1_0000_0000
  const PRIME_64: nat := 1099511628211
  const OFFSET_64: nat := 14695981039346656037
  const PRIME_32: nat := 16777619
  const OFFSET_32: nat := 2166136261

  /** Exclusive or, bit by bit. */
  function Xor(a: nat, b: nat): nat {
    if a == 0 && b == 0 then 0 else 2 * Xor(a / 2, b / 2) + (a + b) % 2
  }

  function Pow2(k: nat): (p: nat)
    ensures p > 0
  {
    if k == 0 then 1 else 2 * Pow2(k - 1)
  }

  lemma XorStep(a: nat, b: nat)
    ensures Xor(a, b) == 2 * Xor(a / 2, b / 2) + (a + b) % 2
    ensures Xor(a, b) / 2 == Xor(a / 2, b / 2)
    ensures Xor(a, b) % 2 == (a + b) % 2
  {
  }

  lemma ParityUndone(a: nat, b: nat, x: nat)
    requires x % 2 == (a + b) % 2
    ensures (x + b) % 2 == a % 2
  {
  }

  lemma XorUndoneStep(a: nat, b: nat, x: nat)
    requires x % 2 == (a + b) % 2 && Xor(x / 2, b / 2) == a / 2
    ensures Xor(x, b) == a
  {
    XorStep(x, b);
    ParityUndone(a, b, x);
  }

  lemma {:induction false} XorUndone(a: nat, b: nat)
    ensures Xor(Xor(a, b), b) == a
  {
    if a != 0 || b != 0 {
      XorUndone(a / 2, b / 2);
      XorStep(a, b);
      XorUndoneStep(a, b, Xor(a, b));
    }
  }

  lemma {:induction false} XorCommutes(a: nat, b: nat)
    ensures Xor(a, b) == Xor(b, a)
  {
    if a != 0 || b != 0 { XorCommutes(a / 2, b / 2); }
  }

  lemma {:induction false} XorBounded(a: nat, b: nat, k: nat)
    requires a < Pow2(k) && b < Pow2(k)
    ensures Xor(a, b) < Pow2(k)
  {
    if a != 0 || b != 0 { XorBounded(a / 2, b / 2, k - 1); }
  }

  /** Only zero is a multiple of m strictly between -m and m. */
  lemma NoMultipleBetween(m: int, k: int, d: int)
    requires 0 < m && -m < d < m && m * k == d
    ensures k == 0 && d == 0
  {
    MulBound(m, k);
  }

  lemma MulBound(m: int, k: int)
    requires 0 < m
    ensures k >= 1 ==> m * k >= m
    ensures k <= -1 ==> m * k <= -m
  {
  }

  lemma ModuloOf(m: nat, q: nat, r: nat)
    requires r < m
    ensures (m * q + r) % m == r
  {
    var x := m * q + r;
    assert x == m * (x / m) + x % m;
    assert m * (x / m - q) == m * (x / m) - m * q;
    NoMultipleBetween(m, x / m - q, r - x % m);
  }

  lemma Parts(a: nat, n: nat)
    requires n > 0
    ensures a == n * (a / n) + a % n && 0 <= a % n < n && 0 <= a / n
  {
  }

  lemma Doubled(m: nat, n: nat, q: nat)
    requires n == 2 * m
    ensures n * q == 2 * (m * q)
  {
    assert (2 * m) * q == 2 * (m * q);
  }

  lemma HalfOfParts(a: nat, x: int, r: nat)
    requires a == 2 * x + r
    ensures a / 2 == x + r / 2 && r % 2 == a % 2
  {
  }

  lemma HalfOfRest(a: nat, m: nat, n: nat, q: nat, r: nat)
    requires m > 0 && n == 2 * m && a == n * q + r && r < n
    ensures r / 2 == (a / 2) % m && r % 2 == a % 2
  {
    Doubled(m, n, q);
    HalfOfParts(a, m * q, r);
    ModuloOf(m, q, r / 2);
  }

  /** Halving a remainder. */
  lemma HalfModulo(a: nat, m: nat, n: nat)
    requires m > 0 && n == 2 * m
    ensures (a % n) / 2 == (a / 2) % m && (a % n) % 2 == a % 2
  {
    Parts(a, n);
    HalfOfRest(a, m, n, a / n, a % n);
  }

  /** Reducing to the low bits commutes with exclusive or when the other operand has no high bits. */
  lemma {:induction false} XorModulo(a: nat, b: nat, k: nat)
    requires b < Pow2(k)
    ensures Xor(a % Pow2(k), b) == Xor(a, b) % Pow2(k)
  {
    if k == 0 {
      assert Pow2(0) == 1 && a % 1 == 0;
    } else {
      XorModulo(a / 2, b / 2, k - 1);
      XorModuloStep(a, b, Pow2(k - 1));
    }
  }

  lemma XorModuloStep(a: nat, b: nat, m: nat)
    requires m > 0 && Xor((a / 2) % m, b / 2) == Xor(a / 2, b / 2) % m
    ensures Xor(a % (2 * m), b) == Xor(a, b) % (2 * m)
  {
    var r, x := a % (2 * m), Xor(a, b);
    HalfModulo(a, m, 2 * m);
    HalfModulo(x, m, 2 * m);
    XorStep(a, b);
    XorStep(r, b);
    SameParity(r, a, b);
    assert Xor(r, b) == 2 * ((x / 2) % m) + x % 2;
    var y := x % (2 * m);
    assert y == 2 * (y / 2) + y % 2;
  }

  lemma SameParity(r: nat, a: nat, b: nat)
    requires r % 2 == a % 2
    ensures (r + b) % 2 == (a + b) % 2
  {
  }

  function Step(h: nat, c: Byte, prime: nat, modulus: nat): nat
    requires modulus > 0
  {
    (Xor(h, c) * prime) % modulus
  }

  /** The hash recurrence over a byte string, in words of the given modulus. */
  function Fold(h: nat, s: seq<Byte>, prime: nat, modulus: nat): nat
    requires modulus > 0
    decreases |s|
  {
    if s == [] then h else Fold(Step(h, s[0], prime, modulus), s[1..], prime, modulus)
  }

  function Hash64(s: seq<Byte>): nat { Fold(OFFSET_64, s, PRIME_64, P64) }

  function Hash32(s: seq<Byte>): nat { Fold(OFFSET_32, s, PRIME_32, P32) }

  /** The user id: the low 63 bits of the hash, so that it is not negative as a signed word. */
  function UserId(s: seq<Byte>): nat { Hash64(s) % P63 }

  method CompatibilityUserID(username: seq<Byte>) returns (id: nat)
    ensures id == UserId(username)
    ensures id < P63
  {
    var hash: nat := OFFSET_64;
    for i := 0 to |username|
      invariant Fold(hash, username[i..], PRIME_64, P64) == Hash64(username)
    {
      assert username[i..][1..] == username[i + 1..];
      hash := Xor(hash, username[i]);
      hash := (hash * PRIME_64) % P64;
    }
    id := hash % P63;
  }

  lemma {:induction false} FoldBounded(h: nat, s: seq<Byte>, prime: nat, modulus: nat)
    requires h < modulus
    ensures Fold(h, s, prime, modulus) < modulus
    decreases |s|
  {
    if s != [] { FoldBounded(Step(h, s[0], prime, modulus), s[1..], prime, modulus); }
  }

  lemma {:induction false} FoldAppend(h: nat, s: seq<Byte>, t: seq<Byte>, prime: nat, modulus: nat)
    requires modulus > 0
    ensures Fold(h, s + t, prime, modulus) == Fold(Fold(h, s, prime, modulus), t, prime, modulus)
    decreases |s|
  {
    if s == [] {
      assert s + t == t;
    } else {
      assert (s + t)[1..] == s[1..] + t;
      FoldAppend(Step(h, s[0], prime, modulus), s[1..], t, prime, modulus);
    }
  }

  // ---- The id is the hash carried out modulo 2^63 ----

  lemma Pow2Byte(k: nat)
    ensures Pow2(k + 8) == 256 * Pow2(k)
  {
    assert Pow2(k + 2) == 4 * Pow2(k);
    assert Pow2(k + 4) == 4 * Pow2(k + 2);
    assert Pow2(k + 6) == 4 * Pow2(k + 4);
    assert Pow2(k + 8) == 4 * Pow2(k + 6);
  }

  lemma LowWords()
    ensures Pow2(31) == 0x8000_0000
  {
    assert Pow2(3) == 8 && Pow2(5) == 32 && Pow2(7) == 128;
    Pow2Byte(7);
    Pow2Byte(15);
    Pow2Byte(23);
  }

  lemma Words()
    ensures Pow2(63) == P63 && P64 == 2 * P63
  {
    LowWords();
    Pow2Byte(31);
    Pow2Byte(39);
    Pow2Byte(47);
    Pow2Byte(55);
  }

  /** Halving the modulus once at the end or in every multiplication is the same. */
  lemma ProductModulo(x: nat)
    ensures ((x % P63) * PRIME_64) % P63 == ((x * PRIME_64) % P64) % P63
  {
    var a, r := x / P63, x % P63;
    assert x == P63 * a + r;
    var y := x * PRIME_64;
    var b, z := y / P64, y % P64;
    assert y == P64 * b + z;
    var c, u := z / P63, z % P63;
    assert z == P63 * c + u;
    assert r * PRIME_64 == P63 * (2 * b + c - a * PRIME_64) + u;
    var v := (r * PRIME_64) % P63;
    var d := (r * PRIME_64) / P63;
    assert r * PRIME_64 == P63 * d + v;
  }

  lemma {:induction false} FoldModulo(h: nat, s: seq<Byte>)
    ensures Fold(h % P63, s, PRIME_64, P63) == Fold(h, s, PRIME_64, P64) % P63
    decreases |s|
  {
    if s != [] {
      Words();
      assert s[0] < Pow2(63);
      XorModulo(h, s[0], 63);
      ProductModulo(Xor(h, s[0]));
      FoldModulo(Step(h, s[0], PRIME_64, P64), s[1..]);
    }
  }

  /** The id is the same recurrence in 63-bit words throughout. */
  lemma UserIdIsHash63(s: seq<Byte>)
    ensures UserId(s) == Fold(OFFSET_64 % P63, s, PRIME_64, P63)
    ensures UserId(s) < P63
  {
    FoldModulo(OFFSET_64, s);
  }

  // ---- Names that differ in one byte ----

  /** The inverse of the prime modulo 2^63. */
  const INVERSE: nat := 5662801919009527163

  lemma PrimeCancels(x: nat, y: nat)
    requires x < P63 && y < P63 && (x * PRIME_64) % P63 == (y * PRIME_64) % P63
    ensures x == y
  {
    assert PRIME_64 * INVERSE == 675058593899 * P63 + 1;
    var z := (x * PRIME_64) % P63;
    var a, b := (x * PRIME_64) / P63, (y * PRIME_64) / P63;
    assert x * PRIME_64 == P63 * a + z && y * PRIME_64 == P63 * b + z;
    assert (x - y) * PRIME_64 == P63 * (a - b);
    assert (x - y) * PRIME_64 * INVERSE == P63 * (a - b) * INVERSE;
    assert (x - y) == P63 * ((a - b) * INVERSE - (x - y) * 675058593899);
  }

  lemma StepInjective(h: nat, k: nat, c: Byte, d: Byte)
    requires h < P63 && k < P63 && Step(h, c, PRIME_64, P63) == Step(k, d, PRIME_64, P63)
    ensures c == d ==> h == k
    ensures h == k ==> c == d
  {
    Words();
    XorBounded(h, c, 63);
    XorBounded(k, d, 63);
    PrimeCancels(Xor(h, c), Xor(k, d));
    XorUndone(h, c);
    XorUndone(k, d);
    XorCommutes(h, c);
    XorCommutes(k, d);
    XorUndone(c, h);
    XorUndone(d, k);
  }

  lemma {:induction false} FoldInjective(h: nat, k: nat, s: seq<Byte>)
    requires h < P63 && k < P63 && Fold(h, s, PRIME_64, P63) == Fold(k, s, PRIME_64, P63)
    ensures h == k
    decreases |s|
  {
    if s != [] {
      FoldInjective(Step(h, s[0], PRIME_64, P63), Step(k, s[0], PRIME_64, P63), s[1..]);
      StepInjective(h, k, s[0], s[0]);
    }
  }

  predicate DifferAt(s: seq<Byte>, t: seq<Byte>, i: nat) {
    |s| == |t| && i < |s| && s[i] != t[i] && s[..i] == t[..i] && s[i + 1..] == t[i + 1..]
  }

  /** Two usernames that differ in exactly one byte have different ids. */
  lemma OneByteApart(s: seq<Byte>, t: seq<Byte>, i: nat)
    requires DifferAt(s, t, i)
    ensures UserId(s) != UserId(t)
  {
    var h0 := OFFSET_64 % P63;
    var h := Fold(h0, s[..i], PRIME_64, P63);
    FoldBounded(h0, s[..i], PRIME_64, P63);
    UserIdSplit(s, i);
    UserIdSplit(t, i);
    var a, b := Step(h, s[i], PRIME_64, P63), Step(h, t[i], PRIME_64, P63);
    if UserId(s) == UserId(t) {
      FoldInjective(a, b, s[i + 1..]);
      StepInjective(h, h, s[i], t[i]);
    }
  }

  lemma UserIdSplit(s: seq<Byte>, i: nat)
    requires i < |s|
    ensures UserId(s) == Fold(Step(Fold(OFFSET_64 % P63, s[..i], PRIME_64, P63), s[i], PRIME_64, P63), s[i + 1..], PRIME_64, P63)
  {
    UserIdIsHash63(s);
    assert s == s[..i] + s[i..];
    FoldAppend(OFFSET_64 % P63, s[..i], s[i..], PRIME_64, P63);
    assert s[i..][1..] == s[i + 1..];
  }

  // ---- Known values ----

  function Shifted(q: nat, k: nat): nat {
    if k == 0 then q else 2 * Shifted(q, k - 1)
  }

  lemma Halves(a: nat, i: nat)
    requires i < 2
    ensures (2 * a + i) / 2 == a && (2 * a + i) % 2 == i
  {
  }

  lemma XorPair(a: nat, b: nat, i: nat, j: nat)
    requires i < 2 && j < 2
    ensures Xor(2 * a + i, 2 * b + j) == 2 * Xor(a, b) + (i + j) % 2
  {
    Halves(a, i);
    Halves(b, j);
    XorStep(2 * a + i, 2 * b + j);
  }

  lemma XorStepUp(h: nat, a: nat, b: nat, i: nat, j: nat)
    requires i < 2 && j < 2 && Xor(h + a, b) == h + Xor(a, b)
    ensures Xor(2 * (h + a) + i, 2 * b + j) == 2 * h + Xor(2 * a + i, 2 * b + j)
  {
    XorPair(h + a, b, i, j);
    XorPair(a, b, i, j);
  }

  lemma SumOfHalves(h: nat, r: nat)
    ensures 2 * (h + r / 2) + r % 2 == 2 * h + r && 2 * (r / 2) + r % 2 == r
  {
  }

  lemma HalfBelow(r: nat, m: nat)
    requires r < 2 * m
    ensures r / 2 < m
  {
  }

  /** Exclusive or with a few low bits leaves the bits above them alone. */
  lemma {:induction false} XorLow(q: nat, r: nat, b: nat, k: nat)
    requires r < Pow2(k) && b < Pow2(k)
    ensures Xor(Shifted(q, k) + r, b) == Shifted(q, k) + Xor(r, b)
  {
    if k == 0 {
      XorZero(q);
    } else {
      HalfBelow(r, Pow2(k - 1));
      HalfBelow(b, Pow2(k - 1));
      XorLow(q, r / 2, b / 2, k - 1);
      XorStepUp(Shifted(q, k - 1), r / 2, b / 2, r % 2, b % 2);
      SumOfHalves(Shifted(q, k - 1), r);
      SumOfHalves(0, b);
    }
  }

  lemma {:induction false} XorZero(q: nat)
    ensures Xor(q, 0) == q
  {
    if q != 0 { XorZero(q / 2); }
  }

  lemma ShiftedByte(q: nat)
    ensures Shifted(q, 8) == 256 * q && Pow2(8) == 256
  {
    assert Pow2(2) == 4 && Pow2(4) == 16 && Pow2(6) == 64;
    ShiftedTwice(q, 0);
    ShiftedTwice(q, 2);
    ShiftedTwice(q, 4);
    ShiftedTwice(q, 6);
  }

  lemma ShiftedTwice(q: nat, k: nat)
    ensures Shifted(q, 0) == q && Shifted(q, k + 2) == 4 * Shifted(q, k)
  {
    assert Shifted(q, k + 1) == 2 * Shifted(q, k);
  }

  lemma FirstByte(h: nat, q: nat, r: nat, b: Byte, x: nat, prime: nat, modulus: nat)
    requires h == 256 * q + r && r < 256 && modulus > 0 && Xor(r, b) == x
    ensures Fold(h, [b], prime, modulus) == ((256 * q + x) * prime) % modulus
  {
    ShiftedByte(q);
    XorLow(q, r, b, 8);
    assert Fold(h, [b], prime, modulus) == Step(h, b, prime, modulus);
  }

  /**
   Both variants on the empty text and on one byte, with the offset basis and the prime written out: the byte meets the
   low byte of the offset basis, and the product with the prime is cut to the word.
  */
  lemma KnownHashes(b: Byte)
    ensures Hash64([]) == 0xcbf2_9ce4_8422_2325 && Hash32([]) == 0x811c_9dc5
    ensures Hash64([b]) == ((0xcbf2_9ce4_8422_2300 + Xor(0x25, b)) * 0x100_0000_01b3) % 0x1_0000_0000_0000_0000
    ensures Hash32([b]) == ((0x811c_9d00 + Xor(0xc5, b)) * 0x100_0193) % 0x1_0000_0000
  {
    FirstByte(OFFSET_64, 0xcb_f29c_e484_2223, 0x25, b, Xor(0x25, b), PRIME_64, P64);
    FirstByte(OFFSET_32, 0x81_1c9d, 0xc5, b, Xor(0xc5, b), PRIME_32, P32);
  }
}
