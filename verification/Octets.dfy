/** Octets, octet strings and the integer encodings every other module is written in.
    C's `uint8_t` is the subset type `Octet`; a pointer-and-length pair is a `Bytes`. */
module Octets {
  type Octet = x: int | 0 <= x < 256
  type Bytes = seq<Octet>

  datatype Option<+T> = None | Some(value: T)

  const CR: Octet := 13
  const LF: Octet := 10
  const CRLF: Bytes := [CR, LF]

  // --- exclusive or, bit by bit ---

  function XorBits(a: nat, b: nat, n: nat): (r: nat)
  {
    if n == 0 then 0 else (a % 2 + b % 2) % 2 + 2 * XorBits(a / 2, b / 2, n - 1)
  }

  function Pow2(n: nat): (r: nat)
    ensures r >= 1
  {
    if n == 0 then 1 else 2 * Pow2(n - 1)
  }

  lemma {:induction false} XorBitsBound(a: nat, b: nat, n: nat)
    ensures XorBits(a, b, n) < Pow2(n)
  {
    if n > 0 {
      XorBitsBound(a / 2, b / 2, n - 1);
    }
  }

  lemma {:induction false} XorBitsInvolution(a: nat, b: nat, n: nat)
    requires a < Pow2(n)
    ensures XorBits(XorBits(a, b, n), b, n) == a
  {
    if n > 0 {
      var h := XorBits(a / 2, b / 2, n - 1);
      XorBitsInvolution(a / 2, b / 2, n - 1);
      LastBit((a % 2 + b % 2) % 2, h);
      AddTwice(a % 2, b % 2);
    }
  }

  lemma AddTwice(x: nat, y: nat)
    requires x < 2 && y < 2
    ensures ((x + y) % 2 + y) % 2 == x
  {
  }

  lemma LastBit(bit: nat, h: nat)
    requires bit < 2
    ensures (bit + 2 * h) % 2 == bit && (bit + 2 * h) / 2 == h
  {
  }

  /** C's `^` on two octets. */
  function Xor(a: Octet, b: Octet): Octet
  {
    XorBitsBound(a, b, 8);
    assert Pow2(8) == 256 by { assert Pow2(5) == 32; }
    XorBits(a, b, 8)
  }

  lemma XorInvolution(a: Octet, b: Octet)
    ensures Xor(Xor(a, b), b) == a
  {
    assert Pow2(8) == 256 by { assert Pow2(5) == 32; }
    XorBitsInvolution(a, b, 8);
  }

  /** Halving `k + 1` times is halving once and then `k` times. */
  lemma HalveThenDivide(n: nat, p: nat)
    requires p > 0
    ensures n / 2 / p == n / (2 * p)
  {
    var q, r := n / 2, n % 2;
    var k, m := q / p, q % p;
    assert (2 * p) * k == 2 * (p * k);
    RemainderUnique(n, 2 * p, k, 2 * m + r);
  }

  function Bit(n: nat, k: nat): (r: nat)
    ensures r < 2
  {
    if k == 0 then n % 2 else Bit(n / 2, k - 1)
  }

  lemma {:induction false} BitAt(n: nat, k: nat)
    ensures Bit(n, k) == n / Pow2(k) % 2
  {
    if k > 0 {
      BitAt(n / 2, k - 1);
      HalveThenDivide(n, Pow2(k - 1));
    }
  }

  lemma {:induction false} XorBitsAt(a: nat, b: nat, n: nat, k: nat)
    requires k < n
    ensures Bit(XorBits(a, b, n), k) == (Bit(a, k) + Bit(b, k)) % 2
  {
    LastBit((a % 2 + b % 2) % 2, XorBits(a / 2, b / 2, n - 1));
    if k > 0 {
      XorBitsAt(a / 2, b / 2, n - 1, k - 1);
    }
  }

  /** Every bit of an exclusive or is set exactly where the two octets differ. */
  lemma XorBit(a: Octet, b: Octet, k: nat)
    requires k < 8
    ensures Xor(a, b) / Pow2(k) % 2 == 1 <==> a / Pow2(k) % 2 != b / Pow2(k) % 2
  {
    hide XorBits, Pow2, Bit;
    XorBitsAt(a, b, 8, k);
    BitAt(Xor(a, b), k);
    BitAt(a, k);
    BitAt(b, k);
  }

  lemma {:induction false} XorBitsLaws(a: nat, b: nat, n: nat)
    requires a < Pow2(n)
    ensures XorBits(a, 0, n) == a && XorBits(a, a, n) == 0 && XorBits(a, b, n) == XorBits(b, a, n)
  {
    if n > 0 {
      XorBitsLaws(a / 2, b / 2, n - 1);
    }
  }

  lemma XorLaws(a: Octet, b: Octet)
    ensures Xor(a, 0) == a && Xor(a, a) == 0 && Xor(a, b) == Xor(b, a)
  {
    assert Pow2(8) == 256 by { assert Pow2(5) == 32; }
    XorBitsLaws(a, b, 8);
  }

  lemma OctetPowers()
    ensures Pow2(0) == 1 && Pow2(1) == 2 && Pow2(2) == 4 && Pow2(3) == 8
    ensures Pow2(4) == 16 && Pow2(5) == 32 && Pow2(6) == 64 && Pow2(7) == 128 && Pow2(8) == 256
  {
    assert Pow2(4) == 16;
  }

  // --- big-endian integers: pgp_write_scalar, STORE32BE, ru16, ru32 ---

  /** The low `len` octets of `n`, most significant first. */
  function BigEndian(n: nat, len: nat): (r: Bytes)
    ensures |r| == len
    decreases len
  {
    if len == 0 then [] else BigEndian(n / 256, len - 1) + [n % 256]
  }

  function FromBigEndian(s: Bytes): (n: nat)
  {
    if s == [] then 0 else 256 * FromBigEndian(s[..|s| - 1]) + s[|s| - 1]
  }

  function Pow256(n: nat): (r: nat)
    ensures r >= 1
  {
    if n == 0 then 1 else 256 * Pow256(n - 1)
  }

  /** Writing `len` octets keeps exactly the value modulo 256^len: C's silent truncation. */
  lemma {:induction false} BigEndianValue(n: nat, len: nat)
    ensures FromBigEndian(BigEndian(n, len)) == n % Pow256(len)
    decreases len
  {
    if len > 0 {
      var q := n / 256;
      BigEndianValue(q, len - 1);
      var s := BigEndian(n, len);
      assert s[..|s| - 1] == BigEndian(q, len - 1);
      ModOfDigits(n, Pow256(len - 1));
    }
  }

  lemma {:induction false} BigEndianDigit(n: nat, len: nat, k: nat)
    requires k < len
    ensures BigEndian(n, len)[k] == n / Pow256(len - 1 - k) % 256
  {
    if k < len - 1 {
      BigEndianDigit(n / 256, len - 1, k);
      DivTwice(n, Pow256(len - 2 - k));
    }
  }

  lemma DivTwice(n: nat, p: nat)
    requires p >= 1
    ensures n / 256 / p == n / (256 * p)
  {
    var q, r := n / 256, n % 256;
    var k, m := q / p, q % p;
    assert (256 * p) * k == 256 * (p * k);
    assert n == (256 * p) * k + (256 * m + r);
    assert 256 * m + r < 256 * p;
    RemainderUnique(n, 256 * p, k, 256 * m + r);
  }

  /** Two and four octets, most significant first, digit by digit. */
  function Big2(n: nat): (r: Bytes)
  {
    [n / 0x100 % 256, n % 256]
  }

  function Big4(n: nat): (r: Bytes)
  {
    [n / 0x100_0000 % 256, n / 0x1_0000 % 256, n / 0x100 % 256, n % 256]
  }

  lemma InOctets(n: nat)
    ensures BigEndian(n, 2) == Big2(n) && BigEndian(n, 4) == Big4(n)
  {
    hide BigEndian;
    Pow256Values();
    assert Pow256(3) == 0x100_0000 && Pow256(0) == 1;
    BigEndianDigit(n, 2, 0);
    BigEndianDigit(n, 2, 1);
    BigEndianDigit(n, 4, 0);
    BigEndianDigit(n, 4, 1);
    BigEndianDigit(n, 4, 2);
    BigEndianDigit(n, 4, 3);
  }

  lemma ModOfDigits(n: nat, p: nat)
    requires p >= 1
    ensures 256 * ((n / 256) % p) + n % 256 == n % (256 * p)
  {
    var q, r := n / 256, n % 256;
    var k, m := q / p, q % p;
    assert n == 256 * q + r && q == p * k + m;
    assert n == (256 * p) * k + (256 * m + r) by {
      assert 256 * (p * k) == (256 * p) * k;
    }
    assert 256 * m + r < 256 * p;
    RemainderUnique(n, 256 * p, k, 256 * m + r);
  }

  lemma SmallMultiple(d: int, m: int, x: int)
    requires d > 0 && -d < x < d && d * m == x
    ensures m == 0
  {
  }

  lemma RemainderUnique(n: nat, d: nat, k: nat, r: nat)
    requires d > 0 && r < d && n == d * k + r
    ensures n % d == r && n / d == k
  {
    var k', r' := n / d, n % d;
    assert d * (k - k') == r' - r;
    SmallMultiple(d, k - k', r' - r);
  }

  lemma TwoOctets(s: Bytes)
    requires |s| == 2
    ensures FromBigEndian(s) < 0x1_0000
  {
    var a := s[..1];
    assert a[..0] == [] && FromBigEndian(a) == a[0];
    assert s[..|s| - 1] == a;
  }

  function Pair(a: int, b: int): int
  {
    a * 0x100 + b
  }

  function Quad(a: int, b: int, c: int, d: int): int
  {
    a * 0x100_0000 + b * 0x1_0000 + c * 0x100 + d
  }

  /** What two and four octets read as. */
  lemma FromOctets(s: Bytes)
    ensures |s| == 2 ==> FromBigEndian(s) == Pair(s[0], s[1])
    ensures |s| == 4 ==> FromBigEndian(s) == Quad(s[0], s[1], s[2], s[3])
  {
    if |s| == 2 || |s| == 4 {
      var a: Bytes, b: Bytes := s[..1], s[..2];
      assert a[..0] == [] && FromBigEndian(a) == a[0];
      assert b[..1] == a && FromBigEndian(b) == 256 * FromBigEndian(a) + b[1];
      if |s| == 4 {
        var c: Bytes := s[..3];
        assert c[..2] == b && FromBigEndian(c) == 256 * FromBigEndian(b) + c[2];
        assert s[..3] == c;
      } else {
        assert b == s;
      }
    }
  }

  lemma Pow256Values()
    ensures Pow256(1) == 0x100 && Pow256(2) == 0x1_0000 && Pow256(4) == 0x1_0000_0000
  {
    assert Pow256(3) == 256 * Pow256(2);
  }

  // --- sequence algebra ---

  lemma TakeSnoc<T>(s: seq<T>, k: nat)
    requires k < |s|
    ensures s[..k + 1] == s[..k] + [s[k]] && s[..k + 1][..k] == s[..k]
  {
  }

  lemma TakeSlice<T>(s: seq<T>, i: nat, j: nat)
    requires i <= j <= |s|
    ensures s[..j] == s[..i] + s[i..j]
  {
  }

  lemma SliceOfConcat<T>(a: seq<T>, b: seq<T>, i: nat, j: nat)
    requires i <= j <= |a|
    ensures (a + b)[i..j] == a[i..j] && (a + b)[j..] == a[j..] + b
  {
  }

  lemma PrefixAndRest<T>(a: seq<T>, b: seq<T>)
    ensures (a + b)[..|a|] == a && (a + b)[|a|..] == b
  {
  }

  lemma MiddleAndRest<T>(a: seq<T>, b: seq<T>, c: seq<T>)
    ensures (a + b + c)[|a|..|a| + |b|] == b && (a + b + c)[|a| + |b|..] == c
    ensures a + b + c == a + (b + c)
  {
  }

  lemma Assoc<T>(a: seq<T>, b: seq<T>, c: seq<T>)
    ensures a + (b + c) == a + b + c
  {
  }

  lemma Assoc4<T>(a: seq<T>, b: seq<T>, c: seq<T>, d: seq<T>)
    ensures a + (b + c + d) == a + b + c + d
  {
  }

  lemma DropSlice<T>(s: seq<T>, i: nat, j: nat)
    requires i <= j <= |s|
    ensures s[i..][..j - i] == s[i..j] && s[i..][j - i..] == s[j..]
  {
  }

  lemma Listed<T>(s: seq<T>)
    ensures |s| == 1 ==> s == [s[0]]
    ensures |s| == 2 ==> s == [s[0], s[1]]
    ensures |s| == 3 ==> s == [s[0], s[1], s[2]]
  {
  }

  lemma Join<T>(s: seq<T>, n: nat)
    requires n <= |s|
    ensures s[..n] + s[n..] == s
  {
  }

  function Sum(s: seq<nat>): (r: nat)
  {
    if s == [] then 0 else Sum(s[..|s| - 1]) + s[|s| - 1]
  }

  // --- concatenation of a run of writes ---

  function Flatten(parts: seq<Bytes>): (r: Bytes)
  {
    if parts == [] then [] else Flatten(parts[..|parts| - 1]) + parts[|parts| - 1]
  }

  lemma {:induction false} FlattenConcat(a: seq<Bytes>, b: seq<Bytes>)
    ensures Flatten(a + b) == Flatten(a) + Flatten(b)
  {
    if b == [] {
      assert a + b == a;
    } else {
      var ab := a + b;
      assert ab[..|ab| - 1] == a + b[..|b| - 1];
      FlattenConcat(a, b[..|b| - 1]);
    }
  }

  lemma FlattenFirst(xs: seq<Bytes>)
    requires xs != []
    ensures Flatten(xs) == xs[0] + Flatten(xs[1..])
  {
    FlattenConcat([xs[0]], xs[1..]);
    assert [xs[0]] + xs[1..] == xs;
    var first, none: Bytes := [xs[0]], [];
    assert first[..0] == [] && none + xs[0] == xs[0];
  }

  // --- memory ---

  /** `memcpy(a + at, s, |s|)`. */
  method Store(a: array<Octet>, at: nat, s: Bytes)
    requires at + |s| <= a.Length
    modifies a
    ensures a[..] == old(a[..at]) + s + old(a[at + |s|..])
  {
    forall i | 0 <= i < |s| {
      a[at + i] := s[i];
    }
  }
}
