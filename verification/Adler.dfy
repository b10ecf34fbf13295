/** The ADLER32 checksum of RFC 1950, section 2.2, and what it detects. */
module Adler {
  import opened Bytes

  /** The largest prime below 65536. */
  const BASE: int := 65521

  datatype Sums = Sums(a: nat, b: nat)

  /** The two running sums after `s`, both kept modulo BASE, starting from 1 and 0. */
  function Roll(s: bytes): (r: Sums)
    ensures r.a < BASE && r.b < BASE
  {
    if s == [] then Sums(1, 0)
    else
      var p := Roll(s[..|s| - 1]);
      var a := (p.a + s[|s| - 1]) % BASE;
      Sums(a, (p.b + a) % BASE)
  }

  function Adler32(s: bytes): (r: uint32) {
    Roll(s).b * 0x1_0000 + Roll(s).a
  }

  // ---- Closed form -------------------------------------------------------

  function Sum(s: bytes): nat {
    if s == [] then 0 else Sum(s[..|s| - 1]) + s[|s| - 1]
  }

  /** Byte i of a string of length n counts n - i times. */
  function Weighted(s: bytes): nat {
    if s == [] then 0 else Weighted(s[..|s| - 1]) + Sum(s)
  }

  /** The modular rolling sums equal the unreduced closed form of RFC 1950, section 8.2, reduced once. */
  lemma {:induction false} ClosedForm(s: bytes)
    ensures Roll(s).a == (1 + Sum(s)) % BASE
    ensures Roll(s).b == (|s| + Weighted(s)) % BASE
  {
    if s != [] {
      var t := s[..|s| - 1];
      ClosedForm(t);
      AddResidue(1 + Sum(t), s[|s| - 1]);
      AddResidue(|t| + Weighted(t), Roll(s).a);
      AddResidue(1 + Sum(s), |t| + Weighted(t));
    }
  }

  /** The checksum word of RFC 1950: the weighted sum in the upper half, the plain sum in the lower. */
  lemma ChecksumWord(s: bytes)
    ensures Adler32(s) % 0x1_0000 == (1 + Sum(s)) % 65521
    ensures Adler32(s) / 0x1_0000 == (|s| + Weighted(s)) % 65521
  {
    ClosedForm(s);
    Halves(Roll(s).b, Roll(s).a);
  }

  lemma Halves(b: nat, a: nat)
    requires a < 0x1_0000
    ensures (b * 0x1_0000 + a) % 0x1_0000 == a && (b * 0x1_0000 + a) / 0x1_0000 == b
  {
  }

  /** Known values: of nothing, of "a" and of "abc". */
  lemma KnownValues()
    ensures Adler32([]) == 1
    ensures Adler32([97]) == 0x0062_0062
    ensures Adler32([97, 98, 99]) == 0x024d_0127
  {
    assert [97, 98, 99][..2] == [97, 98] && [97, 98][..1] == [97] && [97][..0] == [];
    assert Roll([97]) == Sums(98, 98);
    assert Roll([97, 98]) == Sums(196, 294);
    assert Roll([97, 98, 99]) == Sums(295, 589);
  }

  lemma AddResidue(x: int, y: int)
    ensures (x % BASE + y) % BASE == (x + y) % BASE
  {
    assert x + y == x % BASE + y + x / BASE * BASE;
    ShiftResidue(x % BASE + y, x / BASE);
  }

  lemma ShiftResidue(x: int, k: int)
    ensures (x + k * BASE) % BASE == x % BASE
  {
  }

  lemma EqualIffSumsEqual(s: bytes, t: bytes)
    ensures Adler32(s) == Adler32(t) <==> Roll(s) == Roll(t)
  {
    EqualDigits(Roll(s), Roll(t));
  }

  lemma EqualDigits(x: Sums, y: Sums)
    requires x.a < BASE && y.a < BASE
    ensures x.b * 0x1_0000 + x.a == y.b * 0x1_0000 + y.a <==> x == y
  {
  }

  /** Replacing byte i by v moves the plain sum by the difference, the weighted one by n - i times it. */
  lemma {:induction false} Update(s: bytes, i: nat, v: byte)
    requires i < |s|
    ensures Sum(s[i := v]) == Sum(s) + v - s[i]
    ensures Weighted(s[i := v]) == Weighted(s) + (|s| - i) * (v - s[i])
  {
    var n := |s| - 1;
    var t := s[i := v];
    if i == n {
      assert t[..n] == s[..n];
    } else {
      assert t[..n] == s[..n][i := v];
      Update(s[..n], i, v);
      assert (n + 1 - i) * (v - s[i]) == (n - i) * (v - s[i]) + (v - s[i]);
    }
  }

  // ---- Arithmetic modulo the prime ---------------------------------------

  /** d is a multiple of BASE. */
  ghost predicate Multiple(d: int) { exists k: int :: d == k * BASE }

  lemma SameResidue(x: int, y: int)
    ensures x % BASE == y % BASE <==> Multiple(y - x)
  {
    if x % BASE == y % BASE {
      assert y - x == (y / BASE - x / BASE) * BASE;
    }
    if Multiple(y - x) {
      var k :| y - x == k * BASE;
      ShiftResidue(x, k);
    }
  }

  lemma SmallMultiple(d: int)
    requires Multiple(d) && -BASE < d < BASE
    ensures d == 0
  {
  }

  /** Trial division up to the square root of BASE: no factor, so BASE is prime. */
  lemma BaseIsPrime(x: int, q: int)
    requires 2 <= x <= 255
    ensures x * q != 65521
  {
  }

  /** Euclid's lemma for a factor below 256, by descent on the factor. */
  lemma {:induction false} Euclid(d: int, x: nat)
    requires 1 <= x <= 255 && Multiple(d * x)
    ensures Multiple(d)
    decreases x
  {
    if x == 1 {
      assert d * x == d;
    } else {
      var q, r := BASE / x, BASE % x;
      BaseIsPrime(x, q);
      var k :| d * x == k * BASE;
      calc {
        d * r;
        d * (BASE - q * x);
        d * BASE - q * (d * x);
        d * BASE - q * (k * BASE);
        (d - q * k) * BASE;
      }
      Euclid(d, r);
    }
  }

  // ---- Error detection ---------------------------------------------------

  /** Any change of one byte changes the checksum. */
  lemma SingleByteDetected(s: bytes, i: nat, v: byte)
    requires i < |s| && v != s[i]
    ensures Adler32(s[i := v]) != Adler32(s)
  {
    var t := s[i := v];
    ClosedForm(s);
    ClosedForm(t);
    Update(s, i, v);
    if Adler32(t) == Adler32(s) {
      EqualIffSumsEqual(s, t);
      SameResidue(1 + Sum(s), 1 + Sum(t));
      SmallMultiple(v - s[i]);
      assert false;
    }
  }

  /** Strings of the same length have the same checksum exactly when both sums differ by multiples of BASE. */
  lemma SameChecksum(s: bytes, t: bytes)
    requires |s| == |t|
    ensures Adler32(t) == Adler32(s) <==> Multiple(Sum(t) - Sum(s)) && Multiple(Weighted(t) - Weighted(s))
  {
    ClosedForm(s);
    ClosedForm(t);
    EqualIffSumsEqual(s, t);
    SameResidue(1 + Sum(s), 1 + Sum(t));
    SameResidue(|s| + Weighted(s), |s| + Weighted(t));
  }

  /** A change of two bytes escapes exactly when it is balanced and spans a multiple of BASE. */
  lemma TwoBytesDetected(s: bytes, i: nat, j: nat, v: byte, w: byte)
    requires i < j < |s| && v != s[i] && w != s[j]
    ensures Adler32(s[i := v][j := w]) == Adler32(s)
       <==> v - s[i] == s[j] - w && Multiple(j - i)
  {
    var x: int, y: int := v - s[i], w - s[j];
    Update(s, i, v);
    Update(s[i := v], j, w);
    SameChecksum(s, s[i := v][j := w]);
    BalancedPair(|s|, i, j, x, y);
  }

  lemma BalancedPair(n: int, i: int, j: int, x: int, y: int)
    requires -255 <= x <= 255 && -255 <= y <= 255 && x != 0
    ensures Multiple(x + y) && Multiple((n - i) * x + (n - j) * y) <==> x == -y && Multiple(j - i)
  {
    if Multiple(x + y) {
      SmallMultiple(x + y);
    }
    if x == -y {
      assert x + y == 0 * BASE;
      PairWeight(n, i, j, x);
      if Multiple((j - i) * x) {
        MultipleOfFactor(j - i, x);
      }
      if Multiple(j - i) {
        var k :| j - i == k * BASE;
        assert (j - i) * x == (k * x) * BASE by { assert (k * BASE) * x == (k * x) * BASE; }
      }
    }
  }

  lemma PairWeight(n: int, i: int, j: int, x: int)
    ensures (n - i) * x + (n - j) * -x == (j - i) * x
  {
  }

  lemma MultipleOfFactor(d: int, x: int)
    requires Multiple(d * x) && x != 0 && -255 <= x <= 255
    ensures Multiple(d)
  {
    if x > 0 {
      Euclid(d, x);
    } else {
      var k :| d * x == k * BASE;
      assert d * -x == -k * BASE;
      Euclid(d, -x);
    }
  }

  /** In particular no pair of changes less than 65521 positions apart escapes. */
  lemma NearbyPairDetected(s: bytes, i: nat, j: nat, v: byte, w: byte)
    requires i < j < |s| && j - i < BASE && v != s[i] && w != s[j]
    ensures Adler32(s[i := v][j := w]) != Adler32(s)
  {
    TwoBytesDetected(s, i, j, v, w);
    if Multiple(j - i) {
      SmallMultiple(j - i);
      assert false;
    }
  }
}
