/** The name of the garbage-collection CronJob of a repository resource. Resource names are ASCII, one byte a character. */
module CronJobNames {
  import opened Fnv

  const MAX_LENGTH := 52
  const SUFFIX := "-gc"

  function Bytes(s: string): (b: seq<Byte>)
    ensures |b| == |s|
  {
    seq(|s|, i requires 0 <= i < |s| => (s[i] as int % 256) as Byte)
  }

  function HexDigit(d: nat): char
    requires d < 16
  {
    "0123456789abcdef"[d]
  }

  predicate IsHexDigit(c: char) { '0' <= c <= '9' || 'a' <= c <= 'f' }

  /** The last `width` hexadecimal digits of a number, with leading zeros. */
  function Hex(n: nat, width: nat): (r: string)
    ensures |r| == width
  {
    if width == 0 then "" else Hex(n / 16, width - 1) + [HexDigit(n % 16)]
  }

  function Truncated(name: string): bool { MAX_LENGTH < |name + SUFFIX| }

  function GcCronJobName(name: string): string {
    var full := name + SUFFIX;
    if |full| <= MAX_LENGTH then full
    else full[..MAX_LENGTH - 9] + "-" + Hex(Hash32(Bytes(full)), 8)
  }

  lemma {:induction false} HexDigits(n: nat, width: nat)
    ensures forall i :: 0 <= i < width ==> IsHexDigit(Hex(n, width)[i])
  {
    if width > 0 {
      HexDigits(n / 16, width - 1);
      var r := Hex(n, width);
      forall i | 0 <= i < width ensures IsHexDigit(r[i]) {
        if i < width - 1 { assert r[i] == Hex(n / 16, width - 1)[i]; } else { assert r[i] == HexDigit(n % 16); }
      }
    }
  }

  function Pow16(k: nat): (p: nat)
    ensures p > 0
  {
    if k == 0 then 1 else 16 * Pow16(k - 1)
  }

  /** Eight hexadecimal digits determine a 32-bit number. */
  lemma {:induction false} HexInjective(m: nat, n: nat, width: nat)
    requires m < Pow16(width) && n < Pow16(width) && Hex(m, width) == Hex(n, width)
    ensures m == n
  {
    if width > 0 {
      var a, b := Hex(m, width), Hex(n, width);
      assert a[..width - 1] == Hex(m / 16, width - 1) && b[..width - 1] == Hex(n / 16, width - 1);
      HexInjective(m / 16, n / 16, width - 1);
      assert a[width - 1] == HexDigit(m % 16) && b[width - 1] == HexDigit(n % 16);
      DigitInjective(m % 16, n % 16);
    }
  }

  lemma DigitInjective(d: nat, e: nat)
    requires d < 16 && e < 16 && HexDigit(d) == HexDigit(e)
    ensures d == e
  {
    DigitValue(d);
    DigitValue(e);
  }

  lemma DigitValue(d: nat)
    requires d < 16
    ensures var c := HexDigit(d); d == if c <= '9' then c as int - '0' as int else c as int - 'a' as int + 10
    ensures IsHexDigit(HexDigit(d))
  {
  }

  /** Every name fits the limit of a CronJob, and a truncated one ends in eight hexadecimal digits. */
  lemma NameShape(name: string)
    ensures |GcCronJobName(name)| <= MAX_LENGTH
    ensures Truncated(name) ==>
              && |GcCronJobName(name)| == MAX_LENGTH
              && forall i :: MAX_LENGTH - 8 <= i < MAX_LENGTH ==> IsHexDigit(GcCronJobName(name)[i])
    ensures !Truncated(name) ==> GcCronJobName(name) == name + SUFFIX
  {
    if Truncated(name) {
      var full := name + SUFFIX;
      var hex := Hex(Hash32(Bytes(full)), 8);
      HexDigits(Hash32(Bytes(full)), 8);
      assert forall i :: MAX_LENGTH - 8 <= i < MAX_LENGTH ==> GcCronJobName(name)[i] == hex[i - (MAX_LENGTH - 8)];
    }
  }

  /**
   Two resources share a CronJob name only if they are the same resource, or if both names are too long and agree in
   the part that is kept and in the hash.
  */
  lemma NamesCollide(a: string, b: string)
    ensures GcCronJobName(a) == GcCronJobName(b)
            <==> a == b || (Truncated(a) && Truncated(b)
                            && (a + SUFFIX)[..MAX_LENGTH - 9] == (b + SUFFIX)[..MAX_LENGTH - 9]
                            && Hash32(Bytes(a + SUFFIX)) == Hash32(Bytes(b + SUFFIX)))
  {
    NameShape(a);
    NameShape(b);
    if GcCronJobName(a) == GcCronJobName(b) {
      if Truncated(a) && Truncated(b) {
        TruncatedParts(a);
        TruncatedParts(b);
        Hash32Bounded(a + SUFFIX);
        Hash32Bounded(b + SUFFIX);
        HexInjective(Hash32(Bytes(a + SUFFIX)), Hash32(Bytes(b + SUFFIX)), 8);
      } else if !Truncated(a) && !Truncated(b) {
        assert (a + SUFFIX)[..|a|] == a && (b + SUFFIX)[..|b|] == b;
      } else {
        WholeIsNotHex(if Truncated(a) then b else a);
      }
    }
  }

  lemma TruncatedParts(name: string)
    requires Truncated(name)
    ensures var n := GcCronJobName(name);
            n[..MAX_LENGTH - 9] == (name + SUFFIX)[..MAX_LENGTH - 9] && n[MAX_LENGTH - 8..] == Hex(Hash32(Bytes(name + SUFFIX)), 8)
  {
  }

  lemma Hash32Bounded(s: string)
    ensures Hash32(Bytes(s)) < Pow16(8)
  {
    FoldBounded(OFFSET_32, Bytes(s), PRIME_32, P32);
    assert Pow16(2) == 256 && Pow16(4) == 256 * Pow16(2) && Pow16(6) == 256 * Pow16(4) && Pow16(8) == 256 * Pow16(6);
  }

  /** A name that was not truncated ends in a letter that is no hexadecimal digit, two places before its end. */
  lemma WholeIsNotHex(name: string)
    requires !Truncated(name)
    ensures var n := GcCronJobName(name); !IsHexDigit(n[|n| - 2])
  {
    assert (name + SUFFIX)[|name| + 1] == SUFFIX[1];
  }
}
