/** The secret part of a key packet: multiprecision integers, iteration counts, the checked and the
    encrypted form, and the reader of both (src/lib/packet-create.c, src/librepgp/packet-parse.c,
    section 5.5.3 of RFC 4880). */
module SecretPacket {
  import opened Octets
  import opened Cfb
  import opened SeIp
  import opened G10
  import opened Framing

  // --- multiprecision integers ---

  function Bits(n: nat): (r: nat)
  {
    if n == 0 then 0 else 1 + Bits(n / 2)
  }

  /** What `pgp_write_mpi` accepts and `limread_mpi` can read back. */
  predicate GoodMpi(n: nat)
  {
    n > 0 && Bits(n) <= 65535
  }

  predicate AllGood(ms: seq<nat>)
  {
    forall i :: 0 <= i < |ms| ==> GoodMpi(ms[i])
  }

  function Mpi(n: nat): (r: Bytes)
  {
    BigEndian(Bits(n), 2) + MinBytes(n)
  }

  function Mpis(ms: seq<nat>): (r: Bytes)
  {
    if ms == [] then [] else Mpi(ms[0]) + Mpis(ms[1..])
  }

  /** `limread_mpi`: the top octet must have exactly the bits the count announces. */
  function ReadMpi(s: Bytes): (r: Option<(nat, Bytes)>)
    ensures r.Some? ==> |r.value.1| < |s|
  {
    if |s| < 2 then None
    else
      var bits := FromBigEndian(s[..2]);
      var nonzero := if bits % 8 == 0 then 8 else bits % 8;
      var length := (bits + 7) / 8;
      if length == 0 || length > 8192 || |s| < 2 + length then None
      else if s[2] / Pow2(nonzero) != 0 || s[2] / Pow2(nonzero - 1) % 2 == 0 then None
      else Some((FromBigEndian(s[2..2 + length]), s[2 + length..]))
  }

  function ReadMpis(s: Bytes, count: nat): (r: Option<(seq<nat>, Bytes)>)
    ensures r.Some? ==> |r.value.1| <= |s|
    decreases count
  {
    if count == 0 then Some(([], s))
    else
      match ReadMpi(s)
      case None => None
      case Some((m, rest)) =>
        match ReadMpis(rest, count - 1)
        case None => None
        case Some((ms, after)) => Some(([m] + ms, after))
  }

  lemma {:induction false} BitsBounds(n: nat)
    requires n > 0
    ensures Bits(n) > 0 && Pow2(Bits(n) - 1) <= n < Pow2(Bits(n))
  {
    if n > 1 {
      BitsBounds(n / 2);
    }
  }

  lemma {:induction false} BitsShift(n: nat, k: nat)
    requires n / Pow2(k) > 0
    ensures Bits(n) == k + Bits(n / Pow2(k))
  {
    if k > 0 {
      var p := Pow2(k - 1);
      HalveThenDivide(n, p);
      SmallQuotient(n, Pow2(k));
      BitsShift(n / 2, k - 1);
    }
  }

  lemma SmallQuotient(n: nat, p: nat)
    requires p > 0 && n / p > 0
    ensures n > 0
  {
  }

  /** The length and the top octet of the shortest form, in terms of the bit count. */
  lemma {:induction false} MinBytesBits(n: nat)
    requires n > 0
    ensures |MinBytes(n)| == (Bits(n) + 7) / 8
    ensures MinBytes(n)[0] > 0 && Bits(MinBytes(n)[0]) == Bits(n) - 8 * (|MinBytes(n)| - 1)
  {
    if n < 256 {
      assert MinBytes(n / 256) == [];
      OctetBits(n);
    } else {
      MinBytesBits(n / 256);
      assert Pow2(8) == 256 by { assert Pow2(5) == 32; }
      BitsShift(n, 8);
      assert MinBytes(n)[0] == MinBytes(n / 256)[0];
    }
  }

  lemma OctetBits(n: nat)
    requires 0 < n < 256
    ensures 1 <= Bits(n) <= 8
  {
    hide Bits;
    BitsBounds(n);
    assert Pow2(8) == 256 by { assert Pow2(5) == 32; }
    Pow2AtLeast(8, Bits(n));
  }

  lemma Pow2AtLeast(a: nat, b: nat)
    requires b > 0
    ensures a < b ==> Pow2(a) <= Pow2(b - 1)
  {
    hide Pow2;
    if a < b - 1 {
      Pow2Monotone(a, b - 1);
    }
  }

  lemma TopOctet(t: Octet, b: nat)
    requires t > 0 && Bits(t) == b
    ensures 1 <= b <= 8 && t / Pow2(b) == 0 && t / Pow2(b - 1) % 2 == 1
  {
    OctetBits(t);
    BitsBounds(t);
    var p := Pow2(b - 1);
    assert Pow2(b) == 2 * p;
    RemainderUnique(t, 2 * p, 0, t);
    RemainderUnique(t, p, 1, t - p);
  }

  lemma TopBits(bits: nat)
    requires bits > 0
    ensures bits - 8 * ((bits + 7) / 8 - 1) == if bits % 8 == 0 then 8 else bits % 8
  {
  }

  lemma CutMpi(count: Bytes, body: Bytes, t: Bytes)
    requires |count| == 2 && body != []
    ensures var s := count + body + t;
            s[..2] == count && s[2..2 + |body|] == body && s[2 + |body|..] == t && s[2] == body[0]
  {
  }

  /** The reader on a count and so many octets, the first of which has exactly the bits left for it. */
  lemma ReadMpiOf(s: Bytes, bits: nat, body: Bytes, t: Bytes)
    requires |s| >= 2 && FromBigEndian(s[..2]) == bits && 0 < bits < 0x1_0000 && |body| == (bits + 7) / 8
    requires 2 + |body| <= |s| && s[2..2 + |body|] == body && s[2 + |body|..] == t && s[2] == body[0]
    requires var top := if bits % 8 == 0 then 8 else bits % 8;
             body[0] / Pow2(top) == 0 && body[0] / Pow2(top - 1) % 2 == 1
    ensures ReadMpi(s) == Some((FromBigEndian(body), t))
  {
    hide FromBigEndian, Pow2;
  }

  lemma MpiReads(n: nat, t: Bytes)
    requires GoodMpi(n)
    ensures ReadMpi(Mpi(n) + t) == Some((n, t))
  {
    hide MinBytes, BigEndian, FromBigEndian, Pow2, Bits, ReadMpi;
    var bits, body := Bits(n), MinBytes(n);
    MinBytesBits(n);
    MinBytesValue(n);
    TopBits(bits);
    TopOctet(body[0], Bits(body[0]));
    BigEndianValue(bits, 2);
    Pow256Values();
    CutMpi(BigEndian(bits, 2), body, t);
    ReadMpiOf(Mpi(n) + t, bits, body, t);
  }

  lemma {:induction false} MpisRead(ms: seq<nat>, t: Bytes)
    requires AllGood(ms)
    ensures ReadMpis(Mpis(ms) + t, |ms|) == Some((ms, t))
  {
    hide Mpi, ReadMpi;
    if ms == [] {
      assert Mpis(ms) + t == t;
    } else {
      var rest := Mpis(ms[1..]) + t;
      Assoc(Mpi(ms[0]), Mpis(ms[1..]), t);
      MpiReads(ms[0], rest);
      MpisRead(ms[1..], t);
      assert [ms[0]] + ms[1..] == ms;
    }
  }

  // --- iteration counts ---

  /** `pgp_s2k_decode_iterations`. */
  function DecodeIterations(c: Octet): (r: nat)
  {
    (16 + c % 16) * Pow2(c / 16 + 6)
  }

  function FirstAtLeast(n: nat, c: Octet): (r: Octet)
    decreases 255 - c
  {
    if DecodeIterations(c) >= n || c == 255 then c else FirstAtLeast(n, c + 1)
  }

  /** `pgp_s2k_encode_iterations`: the first code that is large enough, or 255. */
  function EncodeIterations(n: nat): (r: Octet)
  {
    FirstAtLeast(n, 0)
  }

  /** `pgp_s2k_round_iterations`. */
  function RoundIterations(n: nat): (r: nat)
  {
    DecodeIterations(EncodeIterations(n))
  }

  lemma NextDigits(c: nat)
    ensures if c % 16 == 15 then (c + 1) % 16 == 0 && (c + 1) / 16 == c / 16 + 1
            else (c + 1) % 16 == c % 16 + 1 && (c + 1) / 16 == c / 16
  {
  }

  lemma NextIterations(c: Octet)
    requires c < 255
    ensures DecodeIterations(c) < DecodeIterations(c + 1)
  {
    hide Pow2;
    NextDigits(c);
    Pow2Step(c / 16 + 6);
    Scaled(16 + c % 16, Pow2(c / 16 + 6));
  }

  lemma Scaled(m: nat, p: nat)
    requires p > 0
    ensures m * p < (m + 1) * p && 31 * p < 16 * (2 * p)
  {
  }

  lemma {:induction false} FirstIsExact(c: Octet, from: Octet)
    requires from <= c
    ensures FirstAtLeast(DecodeIterations(c), from) == c
    decreases c - from
  {
    hide DecodeIterations;
    if from < c {
      IterationsGrow(from, c);
      FirstIsExact(c, from + 1);
    }
  }

  lemma {:induction false} IterationsGrow(a: Octet, b: Octet)
    requires a < b
    ensures DecodeIterations(a) < DecodeIterations(b)
    decreases b - a
  {
    hide DecodeIterations;
    NextIterations(b - 1);
    if a + 1 < b {
      IterationsGrow(a, b - 1);
    }
  }

  /** A rounded count survives its one-octet encoding. */
  lemma RoundedSurvives(n: nat)
    ensures DecodeIterations(EncodeIterations(RoundIterations(n))) == RoundIterations(n)
  {
    hide DecodeIterations, FirstAtLeast;
    FirstIsExact(EncodeIterations(n), 0);
  }

  /** The table of section 3.7.1.3 of RFC 4880: from 1024 in steps of 64, and twice that every 16 codes. */
  lemma IterationTable(c: Octet)
    ensures c < 16 ==> DecodeIterations(c) == 1024 + 64 * c as int
    ensures c < 240 ==> DecodeIterations(c + 16) == 2 * DecodeIterations(c)
  {
    OctetPowers();
    if c < 240 {
      hide Pow2;
      assert (c + 16) % 16 == c % 16 && (c + 16) / 16 == c / 16 + 1;
      Pow2Step(c / 16 + 7);
      assert (16 + c % 16) * (2 * Pow2(c / 16 + 6)) == 2 * ((16 + c % 16) * Pow2(c / 16 + 6));
    }
  }

  const MAX_ITERATIONS: nat := 65011712

  lemma LargestCount()
    ensures DecodeIterations(255) == MAX_ITERATIONS
  {
    assert Pow2(21) == 0x20_0000 by {
      assert Pow2(7) == 128 && Pow2(14) == 128 * Pow2(7);
      assert Pow2(21) == 128 * Pow2(14);
    }
  }

  lemma {:induction false} FirstIsFirst(n: nat, from: Octet, c: Octet)
    requires from <= c && DecodeIterations(c) >= n
    ensures FirstAtLeast(n, from) <= c && DecodeIterations(FirstAtLeast(n, from)) >= n
    decreases c - from
  {
    hide DecodeIterations;
    if DecodeIterations(from) < n && from < c {
      FirstIsFirst(n, from + 1, c);
    }
  }

  /** Rounding gives the least count of the table that is not below what was asked for, and the largest
      one when that is not enough. */
  lemma RoundsUp(n: nat, c: Octet)
    ensures n <= MAX_ITERATIONS ==> RoundIterations(n) >= n
    ensures n <= MAX_ITERATIONS && DecodeIterations(c) >= n ==> RoundIterations(n) <= DecodeIterations(c)
    ensures n > MAX_ITERATIONS ==> RoundIterations(n) == MAX_ITERATIONS
  {
    hide DecodeIterations;
    LargestCount();
    var r := EncodeIterations(n);
    if n <= MAX_ITERATIONS {
      FirstIsFirst(n, 0, 255);
      if DecodeIterations(c) >= n {
        FirstIsFirst(n, 0, c);
        if r < c {
          IterationsGrow(r, c);
        }
      }
    } else {
      NoneIsEnough(n, 0);
    }
  }

  lemma {:induction false} NoneIsEnough(n: nat, from: Octet)
    requires n > MAX_ITERATIONS
    ensures FirstAtLeast(n, from) == 255
    decreases 255 - from
  {
    hide DecodeIterations;
    LargestCount();
    if from < 255 {
      IterationsGrow(from, 255);
      NoneIsEnough(n, from + 1);
    }
  }

  // --- the packet body ---

  /** Everything the session key depends on. */
  datatype KeySpec = KeySpec(password: Bytes, hashAlg: Octet, salt: Bytes, iterations: nat, symm: Octet)

  /** Key derivation and block cipher together, SHA-1, and the hash algorithms from which a key can
      be derived; any functions are allowed. */
  datatype Crypto = Crypto(keyed: (KeySpec, Bytes, nat) -> Octet, sha1: Sha1, hashKnown: Octet -> bool)

  /** `pgp_block_size`. */
  function BlockSize(symm: Octet): (r: nat)
    ensures r == 0 || r == 8 || r == 16
  {
    if 1 <= symm <= 4 then 8 else if 7 <= symm <= 13 || symm == 105 then 16 else 0
  }

  lemma BlockSizes(symm: Octet)
    ensures BlockSize(symm) == 8 <==> symm in {1, 2, 3, 4}
    ensures BlockSize(symm) == 16 <==> symm in {7, 8, 9, 10, 11, 12, 13, 105}
  {
  }

  function KeyCipher(cr: Crypto, spec: KeySpec): (r: Cipher)
    ensures r.blsize == BlockSize(spec.symm)
  {
    Cipher(BlockSize(spec.symm), (b: Bytes, i: nat) => cr.keyed(spec, b, i))
  }

  const S2K_NONE: Octet := 0
  const S2K_HASHED: Octet := 254
  const ITERATED: Octet := 3
  const SALT: nat := 8

  function PlainTail(ms: seq<nat>): (r: Bytes)
  {
    [S2K_NONE] + Mpis(ms) + BigEndian(Sum(Mpis(ms)) % 0x1_0000, 2)
  }

  function CheckedSecret(h: Sha1, ms: seq<nat>): (r: Bytes)
  {
    Mpis(ms) + Digest(h, Mpis(ms))
  }

  /** `secret` read as integers and a check value over them, with nothing left. */
  function OpenSecret(secret: Bytes, count: nat, check: Bytes -> Bytes): (r: Option<seq<nat>>)
  {
    match ReadMpis(secret, count)
    case None => None
    case Some((ms, rest)) =>
      if rest == check(secret[..|secret| - |rest|]) then Some(ms) else None
  }

  function SumCheck(s: Bytes): Bytes
  {
    BigEndian(Sum(s) % 0x1_0000, 2)
  }

  /** `parse_seckey` from the usage octet on, for the usages 0 and 254. */
  function DecodeTail(cr: Crypto, count: nat, tail: Bytes, password: Bytes): (r: Option<seq<nat>>)
  {
    if tail == [] then None
    else if tail[0] == S2K_NONE then OpenSecret(tail[1..], count, SumCheck)
    else if tail[0] != S2K_HASHED || |tail| < 4 || (tail[2] != 0 && tail[2] != 1 && tail[2] != ITERATED) then None
    else
      var symm, spec, hashAlg := tail[1], tail[2], tail[3];
      var saltLen := if spec == 0 then 0 else SALT;
      var iterLen := if spec == ITERATED then 1 else 0;
      var ivAt := 4 + saltLen + iterLen;
      var bl := BlockSize(symm);
      if bl == 0 || |tail| < ivAt + bl || !cr.hashKnown(hashAlg) then None
      else
        var iterations := if spec == ITERATED then DecodeIterations(tail[4 + saltLen]) else 1;
        var c := KeyCipher(cr, KeySpec(password, hashAlg, tail[4..4 + saltLen], iterations, symm));
        var plain := Cfb.Cfb(c, Decrypting, CfbState(tail[ivAt..ivAt + bl], 0), tail[ivAt + bl..]).out;
        OpenSecret(plain, count, (s: Bytes) => Digest(cr.sha1, s))
  }

  lemma OpensWithCheck(ms: seq<nat>, check: Bytes -> Bytes)
    requires AllGood(ms)
    ensures OpenSecret(Mpis(ms) + check(Mpis(ms)), |ms|, check) == Some(ms)
  {
    hide Mpis;
    var m := Mpis(ms);
    MpisRead(ms, check(m));
    PrefixAndRest(m, check(m));
  }

  lemma PlainTailDecodes(cr: Crypto, ms: seq<nat>, password: Bytes)
    requires AllGood(ms)
    ensures DecodeTail(cr, |ms|, PlainTail(ms), password) == Some(ms)
  {
    hide OpenSecret, Mpis, BigEndian, Sum;
    OpensWithCheck(ms, SumCheck);
    var tail := PlainTail(ms);
    assert tail[1..] == Mpis(ms) + SumCheck(Mpis(ms));
  }

  /** What `write_protected_seckey_body` leaves, for a block cipher keyed by `spec`. */
  function SealedTail(cr: Crypto, spec: KeySpec, iv: Bytes, ms: seq<nat>): (r: Bytes)
    requires BlockSize(spec.symm) > 0 && |iv| == BlockSize(spec.symm)
  {
    var ct := Cfb.Cfb(KeyCipher(cr, spec), Encrypting, CfbState(iv, 0), CheckedSecret(cr.sha1, ms)).out;
    [S2K_HASHED, spec.symm, ITERATED, spec.hashAlg] + spec.salt + [EncodeIterations(spec.iterations)] + iv + ct
  }

  lemma SealedPieces(head: Bytes, salt: Bytes, it: Octet, iv: Bytes, ct: Bytes)
    requires |head| == 4 && |salt| == SALT
    ensures var tail := head + salt + [it] + iv + ct;
            tail[0] == head[0] && tail[1] == head[1] && tail[2] == head[2] && tail[3] == head[3]
            && |tail| == 13 + |iv| + |ct| && tail[4..12] == salt && tail[12] == it
            && tail[13..13 + |iv|] == iv && tail[13 + |iv|..] == ct
  {
  }

  lemma SealedTailDecodes(cr: Crypto, spec: KeySpec, iv: Bytes, ms: seq<nat>)
    requires AllGood(ms) && |spec.salt| == SALT
    requires BlockSize(spec.symm) > 0 && |iv| == BlockSize(spec.symm) && cr.hashKnown(spec.hashAlg)
    requires DecodeIterations(EncodeIterations(spec.iterations)) == spec.iterations
    ensures DecodeTail(cr, |ms|, SealedTail(cr, spec, iv, ms), spec.password) == Some(ms)
  {
    hide Cfb.Cfb, OpenSecret, Mpis, Digest, DecodeIterations, EncodeIterations;
    var c, st := KeyCipher(cr, spec), CfbState(iv, 0);
    DecryptInverts(c, st, CheckedSecret(cr.sha1, ms));
    OpensWithCheck(ms, (s: Bytes) => Digest(cr.sha1, s));
    var ct := Cfb.Cfb(c, Encrypting, st, CheckedSecret(cr.sha1, ms)).out;
    SealedPieces([S2K_HASHED, spec.symm, ITERATED, spec.hashAlg], spec.salt, EncodeIterations(spec.iterations), iv, ct);
  }

  /** The other specifiers, which the writer does not choose: 0 has no salt, 1 has one, and neither has
      a count. */
  lemma OtherSpecifiersRead(cr: Crypto, spec: KeySpec, kind: Octet, iv: Bytes, ms: seq<nat>)
    requires AllGood(ms) && spec.iterations == 1
    requires (kind == 0 && spec.salt == []) || (kind == 1 && |spec.salt| == 8)
    requires BlockSize(spec.symm) > 0 && |iv| == BlockSize(spec.symm) && cr.hashKnown(spec.hashAlg)
    ensures var ct := Cfb.Cfb(KeyCipher(cr, spec), Encrypting, CfbState(iv, 0), CheckedSecret(cr.sha1, ms)).out;
            var tail := [254, spec.symm, kind, spec.hashAlg] + spec.salt + iv + ct;
            DecodeTail(cr, |ms|, tail, spec.password) == Some(ms)
  {
    hide Cfb.Cfb, OpenSecret, Mpis, Digest, DecodeIterations, EncodeIterations;
    var c, st := KeyCipher(cr, spec), CfbState(iv, 0);
    DecryptInverts(c, st, CheckedSecret(cr.sha1, ms));
    OpensWithCheck(ms, (s: Bytes) => Digest(cr.sha1, s));
    var ct := Cfb.Cfb(c, Encrypting, st, CheckedSecret(cr.sha1, ms)).out;
    UncountedPieces([254, spec.symm, kind, spec.hashAlg], spec.salt, iv, ct);
  }

  lemma UncountedPieces(head: Bytes, salt: Bytes, iv: Bytes, ct: Bytes)
    requires |head| == 4
    ensures var tail, n := head + salt + iv + ct, 4 + |salt|;
            tail[0] == head[0] && tail[1] == head[1] && tail[2] == head[2] && tail[3] == head[3]
            && |tail| == n + |iv| + |ct| && tail[4..n] == salt && tail[n..n + |iv|] == iv && tail[n + |iv|..] == ct
  {
  }

  // --- the octets of the secret part ---

  /** An integer: its number of bits in two octets, and as many octets as that takes. */
  lemma MpiInOctets(n: nat)
    requires n > 0 && Bits(n) <= 65535
    ensures var s, bits := Mpi(n), Bits(n);
            |s| == 2 + (bits + 7) / 8 && s[..2] == Big2(bits) && FromBigEndian(s[2..]) == n
            && Pow2(bits - 1) <= n < Pow2(bits)
  {
    hide MinBytes, BigEndian, FromBigEndian, Bits, Pow2, Big2;
    MinBytesBits(n);
    MinBytesValue(n);
    BitsBounds(n);
    InOctets(Bits(n));
    PrefixAndRest(BigEndian(Bits(n), 2), MinBytes(n));
  }

  /** An unprotected tail: usage zero, the integers, and the sum of their octets in two. */
  lemma PlainTailInOctets(ms: seq<nat>)
    ensures var tail, m := PlainTail(ms), Mpis(ms);
            |tail| == |m| + 3 && tail[0] == 0 && tail[1..1 + |m|] == m && tail[1 + |m|..] == Big2(Sum(m))
  {
    hide Mpis, BigEndian, Sum, Big2;
    var m := Mpis(ms);
    var sum := BigEndian(Sum(m) % 0x1_0000, 2);
    InOctets(Sum(m) % 0x1_0000);
    LowDigits(Sum(m));
    MiddleAndRest([S2K_NONE], m, sum);
  }

  lemma LowDigits(n: nat)
    ensures Big2(n % 0x1_0000) == Big2(n)
  {
    var k, r := n / 0x1_0000, n % 0x1_0000;
    assert n == 256 * (256 * k + r / 256) + r % 256;
    RemainderUnique(n, 256, 256 * k + r / 256, r % 256);
  }

  /** Integers and the hash of their octets. */
  predicate Checked(h: Sha1, m: Bytes, x: Bytes)
  {
    |x| == |m| + 20 && x[..|m|] == m && var check := x[|m|..]; forall i :: 0 <= i < 20 ==> check[i] == h(m, i)
  }

  /** `ct` is `x` under the key derived by `spec`: every octet is combined with the image of the block
      before its own, the initial vector for the first. */
  predicate EncryptedUnder(cr: Crypto, spec: KeySpec, iv: Bytes, x: Bytes, ct: Bytes)
    requires |iv| == 8 || |iv| == 16
  {
    |ct| == |x| && forall j :: 0 <= j < |x| ==>
      ct[j] == Xor(x[j], cr.keyed(spec, Before(iv, ct, j), j - BlockStart(|iv|, j)))
  }

  function Before(iv: Bytes, ct: Bytes, j: nat): (r: Bytes)
    requires (|iv| == 8 || |iv| == 16) && j < |ct|
  {
    (iv + ct)[BlockStart(|iv|, j)..BlockStart(|iv|, j) + |iv|]
  }

  lemma NextBlock(b: nat, j: nat)
    requires b == 8 || b == 16
    ensures BlockStart(b, b + j) == b + BlockStart(b, j)
  {
  }

  lemma KeyBefore(cr: Crypto, spec: KeySpec, iv: Bytes, ct: Bytes, j: nat)
    requires BlockSize(spec.symm) == |iv| > 0 && j < |ct|
    ensures KeyOctet(KeyCipher(cr, spec), CfbState(iv, 0), ct, j)
            == cr.keyed(spec, Before(iv, ct, j), j - BlockStart(|iv|, j))
  {
    hide BlockSize, BlockStart;
    NextBlock(|iv|, j);
    assert iv[..|iv|] == iv;
  }

  lemma CipherFormula(cr: Crypto, spec: KeySpec, iv: Bytes, x: Bytes)
    requires BlockSize(spec.symm) == |iv| > 0
    ensures EncryptedUnder(cr, spec, iv, x, Cfb.Cfb(KeyCipher(cr, spec), Encrypting, CfbState(iv, 0), x).out)
  {
    hide Cfb.Cfb, Xor, BlockStart, BlockSize;
    var c, st := KeyCipher(cr, spec), CfbState(iv, 0);
    CfbFormula(c, Encrypting, st, x);
    forall j | 0 <= j < |x|
      ensures BlockStart(|iv|, |iv| + j) == |iv| + BlockStart(|iv|, j)
    {
      NextBlock(|iv|, j);
    }
    assert iv[..|iv|] == iv;
  }

  /** The whole tail: usage, cipher, specifier, hash algorithm, salt, count, initial vector, and the
      checked integers under a key derived from password, hash algorithm, salt and count. */
  ghost predicate TailInOctets(cr: Crypto, spec: KeySpec, iv: Bytes, ms: seq<nat>, tail: Bytes)
    requires |iv| == 8 || |iv| == 16
  {
    var at := 13 + |iv|;
    |tail| == at + |Mpis(ms)| + 20
    && tail[..4] == [254, spec.symm, 3, spec.hashAlg] && tail[4..12] == spec.salt
    && DecodeIterations(tail[12]) == spec.iterations && tail[13..at] == iv
    && exists x :: Checked(cr.sha1, Mpis(ms), x) && EncryptedUnder(cr, spec, iv, x, tail[at..])
  }

  lemma SealedTailInOctets(cr: Crypto, spec: KeySpec, iv: Bytes, ms: seq<nat>)
    requires BlockSize(spec.symm) == |iv| > 0 && |spec.salt| == SALT
    requires DecodeIterations(EncodeIterations(spec.iterations)) == spec.iterations
    ensures TailInOctets(cr, spec, iv, ms, SealedTail(cr, spec, iv, ms))
  {
    hide Cfb.Cfb, Mpis, DecodeIterations, EncodeIterations, EncryptedUnder;
    var x := CheckedSecret(cr.sha1, ms);
    var ct := Cfb.Cfb(KeyCipher(cr, spec), Encrypting, CfbState(iv, 0), x).out;
    PrefixAndRest(Mpis(ms), Digest(cr.sha1, Mpis(ms)));
    assert Checked(cr.sha1, Mpis(ms), x);
    CipherFormula(cr, spec, iv, x);
    SealedPieces([S2K_HASHED, spec.symm, ITERATED, spec.hashAlg], spec.salt, EncodeIterations(spec.iterations), iv, ct);
  }

  /** Ciphers under which the password `other` gives itself away: its key turns the first two octets of
      `m` into zeros. */
  function Telling(m: Bytes, other: Bytes): (r: Crypto)
    requires |m| >= 2
  {
    Crypto((spec: KeySpec, b: Bytes, i: nat) => if spec.password == other && i < 2 then m[i] else 0,
           (s: Bytes, i: nat) => 0, (hash: Octet) => true)
  }

  lemma MpisNotEmpty(ms: seq<nat>)
    requires ms != []
    ensures |Mpis(ms)| >= 2
  {
  }

  /** No two passwords are one: under some ciphers, what was written with the first does not open with
      the second. */
  lemma OtherPasswordFails(spec: KeySpec, iv: Bytes, ms: seq<nat>, other: Bytes)
    requires ms != [] && other != spec.password && BlockSize(spec.symm) == |iv| > 0 && |spec.salt| == SALT
    ensures |Mpis(ms)| >= 2
    ensures var cr := Telling(Mpis(ms), other);
            DecodeTail(cr, |ms|, SealedTail(cr, spec, iv, ms), other) == None
  {
    hide Cfb.Cfb, Mpis, DecodeIterations, EncodeIterations, OpenSecret, CheckedSecret, BlockSize, Xor;
    MpisNotEmpty(ms);
    var cr := Telling(Mpis(ms), other);
    var x := CheckedSecret(cr.sha1, ms);
    var ct := Cfb.Cfb(KeyCipher(cr, spec), Encrypting, CfbState(iv, 0), x).out;
    SealedPieces([S2K_HASHED, spec.symm, ITERATED, spec.hashAlg], spec.salt, EncodeIterations(spec.iterations), iv, ct);
    var iterations := DecodeIterations(EncodeIterations(spec.iterations));
    var spec' := KeySpec(other, spec.hashAlg, spec.salt, iterations, spec.symm);
    var plain := Cfb.Cfb(KeyCipher(cr, spec'), Decrypting, CfbState(iv, 0), ct).out;
    CheckedStarts(cr.sha1, ms);
    forall j | 0 <= j < 2
      ensures plain[j] == 0
    {
      FirstSealed(cr, spec, iv, x, j);
      FirstOpened(cr, spec', iv, ct, j);
      XorLaws(x[j], x[j]);
    }
    NoBits(plain);
    NothingOpens(plain, |ms|, (s: Bytes) => Digest(cr.sha1, s));
  }

  lemma CheckedStarts(h: Sha1, ms: seq<nat>)
    requires |Mpis(ms)| >= 2
    ensures |CheckedSecret(h, ms)| >= 2
    ensures CheckedSecret(h, ms)[0] == Mpis(ms)[0] && CheckedSecret(h, ms)[1] == Mpis(ms)[1]
  {
  }

  lemma FirstBlock(b: nat, j: nat)
    requires (b == 8 || b == 16) && j < b
    ensures BlockStart(b, j) == 0 && BlockStart(b, b + j) == b
  {
  }

  /** In the first block the key comes from the initial vector alone. */
  lemma FirstSealed(cr: Crypto, spec: KeySpec, iv: Bytes, x: Bytes, j: nat)
    requires BlockSize(spec.symm) == |iv| > 0 && j < |x| && j < |iv|
    ensures var ct := Cfb.Cfb(KeyCipher(cr, spec), Encrypting, CfbState(iv, 0), x).out;
            ct[j] == Xor(x[j], cr.keyed(spec, iv, j))
  {
    hide Cfb.Cfb, Xor, BlockSize, BlockStart, KeyCipher, Before;
    CipherFormula(cr, spec, iv, x);
    var ct := Cfb.Cfb(KeyCipher(cr, spec), Encrypting, CfbState(iv, 0), x).out;
    FirstBlock(|iv|, j);
    BeforeFirst(iv, ct, j);
  }

  lemma BeforeFirst(iv: Bytes, ct: Bytes, j: nat)
    requires (|iv| == 8 || |iv| == 16) && j < |ct| && j < |iv|
    ensures Before(iv, ct, j) == iv
  {
    FirstBlock(|iv|, j);
    PrefixAndRest(iv, ct);
  }

  lemma FirstOpened(cr: Crypto, spec: KeySpec, iv: Bytes, ct: Bytes, j: nat)
    requires BlockSize(spec.symm) == |iv| > 0 && j < |ct| && j < |iv|
    ensures var plain := Cfb.Cfb(KeyCipher(cr, spec), Decrypting, CfbState(iv, 0), ct).out;
            plain[j] == Xor(ct[j], cr.keyed(spec, iv, j))
  {
    hide Cfb.Cfb, Xor, BlockSize, BlockStart, KeyCipher, KeyOctet;
    CfbFormula(KeyCipher(cr, spec), Decrypting, CfbState(iv, 0), ct);
    FirstKey(cr, spec, iv, ct, j);
  }

  lemma FirstKey(cr: Crypto, spec: KeySpec, iv: Bytes, ct: Bytes, j: nat)
    requires BlockSize(spec.symm) == |iv| > 0 && j < |ct| && j < |iv|
    ensures KeyOctet(KeyCipher(cr, spec), CfbState(iv, 0), ct, j) == cr.keyed(spec, iv, j)
  {
    hide BlockSize, KeyOctet, KeyCipher, Before;
    KeyBefore(cr, spec, iv, ct, j);
    BeforeFirst(iv, ct, j);
    FirstBlock(|iv|, j);
  }

  lemma NoBits(s: Bytes)
    requires |s| >= 2 && s[0] == 0 && s[1] == 0
    ensures ReadMpi(s) == None
  {
    FromOctets(s[..2]);
  }

  lemma NothingOpens(s: Bytes, count: nat, check: Bytes -> Bytes)
    requires count > 0 && ReadMpi(s) == None
    ensures OpenSecret(s, count, check) == None
  {
  }

  // --- what is cut short does not decode ---

  lemma ReadMpiExtends(a: Bytes, b: Bytes)
    requires ReadMpi(a).Some?
    ensures ReadMpi(a + b) == Some((ReadMpi(a).value.0, ReadMpi(a).value.1 + b))
  {
    hide Pow2, FromBigEndian;
    var s := a + b;
    assert s[..2] == a[..2];
    var length := (FromBigEndian(a[..2]) + 7) / 8;
    SliceOfConcat(a, b, 2, 2 + length);
  }

  lemma {:induction false} ReadMpisExtends(a: Bytes, b: Bytes, count: nat)
    requires ReadMpis(a, count).Some?
    ensures ReadMpis(a + b, count) == Some((ReadMpis(a, count).value.0, ReadMpis(a, count).value.1 + b))
    decreases count
  {
    hide ReadMpi;
    if count > 0 {
      ReadMpiExtends(a, b);
      ReadMpisExtends(ReadMpi(a).value.1, b, count - 1);
    }
  }

  /** Integers and a check value, cut anywhere, are refused: the integers take all they took before,
      and the check value is too short. */
  lemma CutDoesNotOpen(ms: seq<nat>, check: Bytes -> Bytes, size: nat, n: nat)
    requires AllGood(ms) && (forall s :: |check(s)| == size) && n < |Mpis(ms)| + size
    ensures OpenSecret((Mpis(ms) + check(Mpis(ms)))[..n], |ms|, check) == None
  {
    hide Mpis, ReadMpis;
    var secret := Mpis(ms) + check(Mpis(ms));
    MpisRead(ms, check(Mpis(ms)));
    if ReadMpis(secret[..n], |ms|).Some? {
      ReadMpisExtends(secret[..n], secret[n..], |ms|);
      Join(secret, n);
    }
  }

  lemma CutPlainTail(cr: Crypto, ms: seq<nat>, n: nat, password: Bytes)
    requires AllGood(ms) && n < |PlainTail(ms)|
    ensures DecodeTail(cr, |ms|, PlainTail(ms)[..n], password) == None
  {
    hide OpenSecret, Mpis, BigEndian, Sum;
    if n > 0 {
      var tail, secret := PlainTail(ms), Mpis(ms) + SumCheck(Mpis(ms));
      assert tail[1..] == secret;
      assert tail[..n][1..] == secret[..n - 1];
      CutDoesNotOpen(ms, SumCheck, 2, n - 1);
    }
  }

  lemma CfbPrefix(c: Cipher, dir: Direction, st: CfbState, s: Bytes, n: nat)
    requires ValidState(c, st) && n <= |s|
    ensures Cfb.Cfb(c, dir, st, s[..n]).out == Cfb.Cfb(c, dir, st, s).out[..n]
  {
    hide Cfb.Cfb;
    CfbConcat(c, dir, st, s[..n], s[n..]);
    Join(s, n);
  }

  lemma CutPieces(head: Bytes, salt: Bytes, it: Octet, iv: Bytes, ct: Bytes, n: nat)
    requires |head| == 4 && |salt| == SALT && 13 + |iv| <= n <= 13 + |iv| + |ct|
    ensures (head + salt + [it] + iv + ct)[..n] == head + salt + [it] + iv + ct[..n - 13 - |iv|]
  {
  }

  /** Under its own password a protected tail cut anywhere is refused; another password may still
      pass the check value of what is left. */
  lemma CutSealedTail(cr: Crypto, spec: KeySpec, iv: Bytes, ms: seq<nat>, n: nat)
    requires AllGood(ms) && |spec.salt| == SALT
    requires BlockSize(spec.symm) > 0 && |iv| == BlockSize(spec.symm)
    requires DecodeIterations(EncodeIterations(spec.iterations)) == spec.iterations
    requires n < |SealedTail(cr, spec, iv, ms)|
    ensures DecodeTail(cr, |ms|, SealedTail(cr, spec, iv, ms)[..n], spec.password) == None
  {
    hide Cfb.Cfb, OpenSecret, Mpis, Digest, DecodeIterations, EncodeIterations, BlockSize;
    var c, st, plain := KeyCipher(cr, spec), CfbState(iv, 0), CheckedSecret(cr.sha1, ms);
    var ct := Cfb.Cfb(c, Encrypting, st, plain).out;
    var head, it := [S2K_HASHED, spec.symm, ITERATED, spec.hashAlg], EncodeIterations(spec.iterations);
    SealedPieces(head, spec.salt, it, iv, ct);
    if 13 + |iv| <= n {
      var k := n - 13 - |iv|;
      CutPieces(head, spec.salt, it, iv, ct, n);
      SealedPieces(head, spec.salt, it, iv, ct[..k]);
      DecryptInverts(c, st, plain);
      CfbPrefix(c, Decrypting, st, ct, k);
      CutDoesNotOpen(ms, (s: Bytes) => Digest(cr.sha1, s), 20, k);
    }
  }

  // --- what decodes can be written again ---

  lemma {:induction false} LeadingBits(s: Bytes)
    requires s != [] && s[0] > 0
    ensures FromBigEndian(s) > 0 && Bits(FromBigEndian(s)) == Bits(s[0]) + 8 * (|s| - 1)
  {
    if |s| == 1 {
      assert s[..0] == [];
    } else {
      var init, n := s[..|s| - 1], FromBigEndian(s);
      LeadingBits(init);
      RemainderUnique(n, 256, FromBigEndian(init), s[|s| - 1]);
      assert Pow2(8) == 256 by { assert Pow2(5) == 32; }
      BitsShift(n, 8);
    }
  }

  lemma FewBits(t: nat, b: nat)
    requires b > 0 && t / Pow2(b) == 0 && t / Pow2(b - 1) % 2 == 1
    ensures t > 0 && Bits(t) <= b
  {
    hide Bits, Pow2;
    Pow2Step(b);
    Pow2Step(b - 1);
    var p := Pow2(b);
    assert t < p by {
      if t >= p {
        AtLeastOnce(t, p);
      }
    }
    if t == 0 {
      ZeroQuotient(Pow2(b - 1));
    }
    BitsBounds(t);
    Pow2AtLeast(b, Bits(t));
  }

  lemma AtLeastOnce(t: nat, p: nat)
    requires p > 0 && t >= p
    ensures t / p >= 1
  {
  }

  lemma ZeroQuotient(p: nat)
    requires p > 0
    ensures 0 / p == 0
  {
  }

  lemma ReadMpiGood(s: Bytes)
    requires ReadMpi(s).Some?
    ensures GoodMpi(ReadMpi(s).value.0)
  {
    hide Bits, Pow2, FromBigEndian;
    var bits := FromBigEndian(s[..2]);
    var nonzero := if bits % 8 == 0 then 8 else bits % 8;
    var length := (bits + 7) / 8;
    var body := s[2..2 + length];
    FewBits(body[0], nonzero);
    LeadingBits(body);
    TwoOctets(s[..2]);
    if bits > 0 {
      TopBits(bits);
    }
  }

  lemma {:induction false} ReadMpisGood(s: Bytes, count: nat)
    requires ReadMpis(s, count).Some?
    ensures AllGood(ReadMpis(s, count).value.0) && |ReadMpis(s, count).value.0| == count
    decreases count
  {
    hide ReadMpi, GoodMpi;
    if count > 0 {
      ReadMpiGood(s);
      ReadMpisGood(ReadMpi(s).value.1, count - 1);
    }
  }

  predicate Storable(ms: seq<nat>)
  {
    forall i :: 0 <= i < |ms| ==> Bits(ms[i]) <= 65535
  }

  lemma GoodIsStorable(ms: seq<nat>)
    requires AllGood(ms)
    ensures Storable(ms)
  {
  }

  lemma {:induction false} ShortMpis(ms: seq<nat>)
    requires Storable(ms)
    ensures |Mpis(ms)| <= 8194 * |ms|
  {
    hide Mpi, Bits;
    if ms != [] {
      MpiIsShort(ms[0]);
      ShortMpis(ms[1..]);
    }
  }

  lemma MpiIsShort(n: nat)
    requires Bits(n) <= 65535
    ensures |Mpi(n)| <= 8194
  {
    hide Bits, BigEndian;
    if n > 0 {
      MinBytesBits(n);
    }
  }
}
