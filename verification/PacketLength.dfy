/** The length a key packet declares and the body that follows it (src/lib/packet-create.c). */
module PacketLength {
  import opened Octets
  import opened Framing
  import opened Cfb
  import opened SeIp
  import opened G10
  import opened SecretPacket

  const RSA: Octet := 1
  const RSA_ENCRYPT_ONLY: Octet := 2
  const RSA_SIGN_ONLY: Octet := 3
  const ELGAMAL: Octet := 16
  const DSA: Octet := 17
  const ECDH: Octet := 18
  const ECDSA: Octet := 19
  const EDDSA: Octet := 22
  const SM2: Octet := 99

  /** Key material: public integers in packet order, and the curve and KDF fields of the elliptic
      algorithms.  `oid` is `None` for a curve without a descriptor. */
  datatype PublicKey = PublicKey(version: Octet, birthtime: nat, daysValid: nat, alg: Octet, mpis: seq<nat>,
                                 oid: Option<Bytes>, kdfHash: Octet, wrapAlg: Octet)

  datatype SecretKey = SecretKey(pub: PublicKey, secret: seq<nat>)

  /** `pgp_key_protection_params_t` on writing, with the random salt and the initial vector. */
  datatype S2k = S2k(usage: Octet, specifier: Octet, spec: KeySpec, iv: Bytes)

  predicate Elliptic(alg: Octet)
  {
    alg == ECDH || alg == ECDSA || alg == EDDSA || alg == SM2
  }

  /** The algorithms whose length is computed. */
  predicate Measured(alg: Octet)
  {
    alg == DSA || alg == RSA || Elliptic(alg)
  }

  /** The C union has one member for each algorithm. */
  predicate WellShaped(k: PublicKey)
  {
    |k.mpis| == (if k.alg == DSA then 4 else if Elliptic(k.alg) then 1 else if k.alg == ELGAMAL then 3 else 2)
    && (k.oid.Some? ==> |k.oid.value| < 256)
  }

  /** How many secret integers an algorithm has. */
  function SecretCount(alg: Octet): (r: nat)
  {
    if alg == RSA || alg == RSA_ENCRYPT_ONLY || alg == RSA_SIGN_ONLY then 4 else 1
  }

  lemma SecretCounts(alg: Octet)
    ensures SecretCount(alg) == 4 <==> alg in {1, 2, 3}
    ensures SecretCount(alg) == 1 <==> alg !in {1, 2, 3}
  {
  }

  predicate WellShapedSecret(k: SecretKey)
  {
    WellShaped(k.pub) && |k.secret| == SecretCount(k.pub.alg)
  }

  // --- what is declared ---

  /** `mpi_length`. */
  function MpiLength(n: nat): (r: nat)
  {
    2 + (Bits(n) + 7) / 8
  }

  function MpiLengths(ms: seq<nat>): (r: nat)
  {
    if ms == [] then 0 else MpiLength(ms[0]) + MpiLengths(ms[1..])
  }

  /** `pubkey_length`: the algorithms it does not know count for nothing. */
  function PubkeyLength(k: PublicKey): (r: nat)
  {
    if k.alg == DSA || k.alg == RSA then MpiLengths(k.mpis)
    else if !Elliptic(k.alg) || k.oid.None? then 0
    else 1 + |k.oid.value| + MpiLengths(k.mpis) + if k.alg == ECDH then 4 else 0
  }

  /** `seckey_length`. */
  function SeckeyLength(k: SecretKey): (r: nat)
  {
    if Measured(k.pub.alg) then MpiLengths(k.secret) + PubkeyLength(k.pub) else 0
  }

  /** The length `pgp_write_struct_pubkey` writes. */
  function DeclaredPublic(k: PublicKey): (r: nat)
  {
    1 + 4 + 1 + PubkeyLength(k)
  }

  /** The length `pgp_write_struct_seckey` writes, unless it refuses. */
  function DeclaredSecret(k: SecretKey, p: S2k): (r: Option<nat>)
  {
    if k.pub.version != 4 then None
    else if p.usage == 0 then Some(1 + 4 + 1 + 1 + 2 + SeckeyLength(k))
    else if (p.usage != 254 && p.usage != 255) || p.specifier !in {0, 1, 3} then None
    else
      var s2k := if p.specifier == 0 then 1 else if p.specifier == 1 then 1 + 8 else 1 + 8 + 1;
      Some(1 + 4 + 1 + 1 + 1 + 1 + s2k + BlockSize(p.spec.symm) + (if p.usage == 255 then 2 else 20) + SeckeyLength(k))
  }

  // --- what is written ---

  /** `pgp_write_mpi` one after the other; a number over 65535 bits stops the writer. */
  function WrittenMpis(ms: seq<nat>): (r: Option<Bytes>)
  {
    if Storable(ms) then Some(Mpis(ms)) else None
  }

  function PubkeyHead(k: PublicKey): (r: Bytes)
    ensures |r| == if k.version == 4 then 6 else 8
  {
    [k.version] + BigEndian(k.birthtime, 4) + (if k.version == 4 then [] else BigEndian(k.daysValid, 2)) + [k.alg]
  }

  /** `ec_serialize_pubkey`, and what ECDH adds to it. */
  function EllipticBody(k: PublicKey, oid: Bytes, mpis: Bytes): (r: Bytes)
    requires |oid| < 256
    ensures |r| == 1 + |oid| + |mpis| + if k.alg == ECDH then 4 else 0
  {
    var size: Octet := |oid|;
    var kdf: Bytes := if k.alg == ECDH then [3, 1, k.kdfHash, k.wrapAlg] else [];
    [size] + oid + mpis + kdf
  }

  /** `write_pubkey_body`. */
  function PubkeyBody(k: PublicKey): (r: Option<Bytes>)
    requires WellShaped(k)
  {
    var mpis := WrittenMpis(k.mpis);
    if (k.version != 2 && k.version != 3 && k.version != 4) || mpis.None? then None
    else if k.alg in {DSA, RSA, RSA_ENCRYPT_ONLY, RSA_SIGN_ONLY, ELGAMAL} then Some(PubkeyHead(k) + mpis.value)
    else if !Elliptic(k.alg) || k.oid.None? then None
    else Some(PubkeyHead(k) + EllipticBody(k, k.oid.value, mpis.value))
  }

  /** `write_protected_seckey_body`, after the usage octet. */
  function ProtectedBody(cr: Crypto, p: S2k, ms: seq<nat>): (r: Bytes)
    requires BlockSize(p.spec.symm) == |p.iv| > 0
  {
    var salt := if p.specifier == 0 then [] else p.spec.salt;
    var count := if p.specifier == ITERATED then [EncodeIterations(p.spec.iterations)] else [];
    var ct := Cfb.Cfb(KeyCipher(cr, p.spec), Encrypting, CfbState(p.iv, 0), CheckedSecret(cr.sha1, ms)).out;
    [p.spec.symm, p.specifier, p.spec.hashAlg] + salt + count + p.iv + ct
  }

  /** `write_seckey_body`. */
  function SeckeyBody(cr: Crypto, k: SecretKey, p: S2k): (r: Option<Bytes>)
    requires WellShapedSecret(k) && |p.iv| == BlockSize(p.spec.symm)
  {
    var front := PubkeyBody(k.pub);
    if front.None? || WrittenMpis(k.secret).None? then None
    else if p.usage == 0 then Some(front.value + PlainTail(k.secret))
    else if p.usage != 254 || p.specifier !in {0, 1, 3} || BlockSize(p.spec.symm) == 0 then None
    else if !cr.hashKnown(p.spec.hashAlg) then None
    else Some(front.value + ([p.usage] + ProtectedBody(cr, p, k.secret)))
  }

  // --- the public part, octet by octet ---

  /** Version, creation time, before version 4 the days of validity, and the algorithm. */
  lemma HeadInOctets(k: PublicKey)
    ensures var h := PubkeyHead(k);
            h[0] == k.version && h[1..5] == Big4(k.birthtime)
            && if k.version == 4 then |h| == 6 && h[5] == k.alg
               else |h| == 8 && h[5..7] == Big2(k.daysValid) && h[7] == k.alg
  {
    hide BigEndian, Big2, Big4;
    InOctets(k.birthtime);
    InOctets(k.daysValid);
  }

  /** Behind that the integers in order, or the curve's identifier behind its size, the point, and for
      ECDH the four octets of its key derivation. */
  lemma PublicInOctets(k: PublicKey)
    requires WellShaped(k) && PubkeyBody(k).Some?
    ensures var body, n := PubkeyBody(k).value, |PubkeyHead(k)|;
            n <= |body| && body[..n] == PubkeyHead(k)
            && if k.alg in {1, 2, 3, 16, 17} then body[n..] == Mpis(k.mpis)
               else k.oid.Some? && |k.mpis| == 1
                    && var oid, point := k.oid.value, Mpi(k.mpis[0]);
                    |body| >= n + 1 + |oid| + |point| && body[n] == |oid| && body[n + 1..n + 1 + |oid|] == oid
                    && body[n + 1 + |oid|..n + 1 + |oid| + |point|] == point
                    && body[n + 1 + |oid| + |point|..] == if k.alg == 18 then [3, 1, k.kdfHash, k.wrapAlg] else []
  {
    hide PubkeyHead, Mpi;
    var body, head := PubkeyBody(k).value, PubkeyHead(k);
    if k.alg in {1, 2, 3, 16, 17} {
      PrefixAndRest(head, Mpis(k.mpis));
    } else {
      var oid, point := k.oid.value, Mpi(k.mpis[0]);
      assert Mpis(k.mpis) == point by {
        assert Mpis(k.mpis[1..]) == [] && point + [] == point;
      }
      PrefixAndRest(head, EllipticBody(k, oid, point));
      EllipticInOctets(k, oid, point);
    }
  }

  lemma EllipticInOctets(k: PublicKey, oid: Bytes, point: Bytes)
    requires |oid| < 256
    ensures var e := EllipticBody(k, oid, point);
            |e| >= 1 + |oid| + |point| && e[0] == |oid| && e[1..1 + |oid|] == oid
            && e[1 + |oid|..1 + |oid| + |point|] == point
            && e[1 + |oid| + |point|..] == if k.alg == ECDH then [3, 1, k.kdfHash, k.wrapAlg] else []
  {
  }

  // --- the two agree exactly for the measured algorithms ---

  lemma {:induction false} MpisSize(ms: seq<nat>)
    ensures |Mpis(ms)| == MpiLengths(ms) && |Mpis(ms)| >= 2 * |ms|
  {
    hide MinBytes, Bits;
    if ms != [] {
      MpiSize(ms[0]);
      MpisSize(ms[1..]);
    }
  }

  lemma MpiSize(n: nat)
    ensures |Mpi(n)| == MpiLength(n) >= 2
  {
    if n > 0 {
      MinBytesBits(n);
    }
  }

  /** A version 4 public key packet of a measured algorithm has the length it declares, and no
      other key packet that gets written has. */
  lemma PublicLengthExact(k: PublicKey)
    requires WellShaped(k) && PubkeyBody(k).Some?
    ensures DeclaredPublic(k) == |PubkeyBody(k).value| <==> k.version == 4 && Measured(k.alg)
    ensures Measured(k.alg) <==> k.alg in {1, 17, 18, 19, 22, 99}
    ensures DeclaredPublic(k) <= |PubkeyBody(k).value|
  {
    hide Mpis, MpiLengths, Bits, BigEndian;
    MpisSize(k.mpis);
  }

  lemma ProtectedSize(cr: Crypto, p: S2k, ms: seq<nat>)
    requires BlockSize(p.spec.symm) == |p.iv| > 0 && |p.spec.salt| == SALT && p.specifier in {0, 1, 3}
    ensures |ProtectedBody(cr, p, ms)|
            == 3 + (if p.specifier == 0 then 0 else if p.specifier == 1 then 8 else 9) + |p.iv| + MpiLengths(ms) + 20
  {
    hide Mpis, MpiLengths, Cfb.Cfb, Digest, EncodeIterations;
    MpisSize(ms);
  }

  lemma SecretLengthExact(cr: Crypto, k: SecretKey, p: S2k)
    requires WellShapedSecret(k) && |p.iv| == BlockSize(p.spec.symm) && |p.spec.salt| == SALT
    requires DeclaredSecret(k, p).Some? && SeckeyBody(cr, k, p).Some?
    ensures DeclaredSecret(k, p).value == |SeckeyBody(cr, k, p).value| <==> Measured(k.pub.alg)
    ensures DeclaredSecret(k, p).value <= |SeckeyBody(cr, k, p).value|
  {
    hide Mpis, MpiLengths, Bits, BigEndian, ProtectedBody, PubkeyBody, Sum;
    PublicLengthExact(k.pub);
    MpisSize(k.secret);
    if p.usage != 0 {
      ProtectedSize(cr, p, k.secret);
    }
  }

  /** What is declared for a protected key of a measured algorithm: public part, usage, cipher, specifier and
      hash, then salt and count as the specifier has them, initial vector, integers, and a hash of 20 octets
      under usage 254 or a sum of two under usage 255, which is declared but never written. */
  lemma DeclaredProtected(k: SecretKey, p: S2k)
    requires WellShapedSecret(k) && k.pub.version == 4 && Measured(k.pub.alg) && PubkeyBody(k.pub).Some?
    requires p.usage in {254, 255}
    ensures DeclaredSecret(k, p).Some? <==> p.specifier in {0, 1, 3}
    ensures DeclaredSecret(k, p).Some? ==>
              DeclaredSecret(k, p).value
              == |PubkeyBody(k.pub).value| + 4 + (if p.specifier == 0 then 0 else if p.specifier == 1 then 8 else 9)
                 + BlockSize(p.spec.symm) + |Mpis(k.secret)| + if p.usage == 254 then 20 else 2
  {
    hide Mpis, MpiLengths, Bits, BigEndian, PubkeyBody;
    PublicLengthExact(k.pub);
    MpisSize(k.secret);
  }

  /** What is declared for something written fits the 32 bits it is written in. */
  lemma PublicFits(k: PublicKey)
    requires WellShaped(k) && PubkeyBody(k).Some?
    ensures DeclaredPublic(k) < 0x1_0000
  {
    hide Mpis, MpiLengths, Storable;
    ShortMpis(k.mpis);
    MpisSize(k.mpis);
  }

  lemma SecretFits(cr: Crypto, k: SecretKey, p: S2k)
    requires WellShapedSecret(k) && |p.iv| == BlockSize(p.spec.symm)
    requires DeclaredSecret(k, p).Some? && SeckeyBody(cr, k, p).Some?
    ensures DeclaredSecret(k, p).value < 0x1_0000_0000
  {
    hide Mpis, MpiLengths, PubkeyBody, ProtectedBody, Sum, Storable;
    PublicFits(k.pub);
    ShortMpis(k.secret);
    MpisSize(k.secret);
  }

  // --- what a reader of the packet gets ---

  /** A reader of a body behind a header that declares `len` octets gets that many of it. */
  lemma ReadsDeclared(len: nat, body: Bytes, t: Bytes)
    requires len <= |body| && len < 0x1_0000_0000
    ensures ReadBody(LengthHeader(len) + body + t) == Some((body[..len], body[len..] + t))
  {
    hide LengthHeader, ReadBody;
    var part, rest := body[..len], body[len..] + t;
    ReadDefiniteBody(part, rest);
    Join(body, len);
    Assoc(LengthHeader(len), body, t);
    Assoc(part, body[len..], t);
    Assoc(LengthHeader(len), part, rest);
    assert |part| == len;
  }

  lemma ReadsBackIff(len: nat, body: Bytes, t: Bytes)
    requires len <= |body| && len < 0x1_0000_0000
    ensures ReadBody(LengthHeader(len) + body + t) == Some((body, t)) <==> len == |body|
  {
    hide LengthHeader, ReadBody;
    ReadsDeclared(len, body, t);
    if len == |body| {
      assert body[..len] == body && body[len..] + t == t;
    }
  }

  /** A written public-key packet is read back as its body exactly for the measured version 4 keys. */
  lemma PublicPacketReads(k: PublicKey, t: Bytes)
    requires WellShaped(k) && PubkeyBody(k).Some?
    ensures DeclaredPublic(k) < 0x1_0000_0000
    ensures var body := PubkeyBody(k).value;
            ReadBody(LengthHeader(DeclaredPublic(k)) + body + t) == Some((body, t))
            <==> k.version == 4 && Measured(k.alg)
  {
    hide LengthHeader, ReadBody, PubkeyBody, DeclaredPublic;
    PublicFits(k);
    PublicLengthExact(k);
    ReadsBackIff(DeclaredPublic(k), PubkeyBody(k).value, t);
  }

  /** The same for secret-key packets; only version 4 gets this far. */
  lemma SecretPacketReads(cr: Crypto, k: SecretKey, p: S2k, t: Bytes)
    requires WellShapedSecret(k) && |p.iv| == BlockSize(p.spec.symm) && |p.spec.salt| == SALT
    requires DeclaredSecret(k, p).Some? && SeckeyBody(cr, k, p).Some?
    ensures DeclaredSecret(k, p).value < 0x1_0000_0000
    ensures var body := SeckeyBody(cr, k, p).value;
            ReadBody(LengthHeader(DeclaredSecret(k, p).value) + body + t) == Some((body, t)) <==> Measured(k.pub.alg)
  {
    hide LengthHeader, ReadBody, SeckeyBody, DeclaredSecret;
    SecretFits(cr, k, p);
    SecretLengthExact(cr, k, p);
    ReadsBackIff(DeclaredSecret(k, p).value, SeckeyBody(cr, k, p).value, t);
  }
}
