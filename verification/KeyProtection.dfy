/** Secret keys at rest and in memory: `pgp_key_lock`, `pgp_key_unlock`, `pgp_key_protect_password`
    and `pgp_key_unprotect` of src/lib/pgp-key.c over the secret-key packets that
    src/lib/packet-create.c writes and src/librepgp/packet-parse.c reads. */
module KeyProtection {
  import opened Octets
  import opened Cfb
  import opened SeIp
  import opened Framing
  import opened SecretPacket
  import opened PacketLength

  /** The OpenPGP store formats; anything else is refused by the writer. */
  datatype Format = Gpg | Kbx | Unknown

  datatype Protection = Protection(usage: Octet, symm: Octet, hashAlg: Octet, iterations: nat)

  /** `rnp_key_protection_params_t`; zero asks for the default. */
  datatype Params = Params(symm: Octet, hashAlg: Octet, iterations: nat)

  const DEFAULT_CIPHER: Octet := 9 // AES-256
  const DEFAULT_HASH: Octet := 8 // SHA-256
  const DEFAULT_ITERATIONS: nat := 65536

  function Chosen(p: Params): (r: Protection)
  {
    Protection(S2K_HASHED,
               if p.symm == 0 then DEFAULT_CIPHER else p.symm,
               if p.hashAlg == 0 then DEFAULT_HASH else p.hashAlg,
               RoundIterations(if p.iterations == 0 then DEFAULT_ITERATIONS else p.iterations))
  }

  /** The random octets a writer draws. */
  datatype Random = Random(salt: Bytes, iv: Bytes)

  predicate ValidRandom(r: Random)
  {
    |r.salt| == SALT && |r.iv| == MAX_BLOCK_SIZE
  }

  /** What never changes: the ciphers, the public key, and the packet tag.  `other` is how the parts
      are read that are never written: usages other than 0 and 254, and 254 before version 4. */
  datatype AnyKind = Kind(cr: Crypto, pub: PublicKey, tag: Octet, other: (Bytes, Bytes) -> Option<seq<nat>>)

  type Kind = k: AnyKind | WellShaped(k.pub) && k.tag < 64
    witness Kind(Crypto((s: KeySpec, b: Bytes, i: nat) => 0, (s: Bytes, i: nat) => 0, (h: Octet) => true),
                 PublicKey(4, 0, 0, RSA, [1, 1], None, 0, 0), SECRET_KEY, (s: Bytes, pw: Bytes) => None)

  const SECRET_KEY: Octet := 5
  const SECRET_SUBKEY: Octet := 7

  /** `pgp_is_secret_key_tag`. */
  predicate Secret(tag: Octet)
  {
    tag == SECRET_KEY || tag == SECRET_SUBKEY
  }

  /** How many secret integers the key has. */
  function Count(k: Kind): (r: nat)
  {
    SecretCount(k.pub.alg)
  }

  // --- the stored packet ---

  /** `parse_packet`: tag, body and what follows, for either header format. */
  function ReadPacket(s: Bytes): (r: Option<(Octet, Bytes, Bytes)>)
  {
    if s == [] || s[0] < 0x80 then None
    else if s[0] >= 0xC0 then
      match ReadBody(s[1..])
      case None => None
      case Some((body, rest)) => Some((s[0] - 0xC0, body, rest))
    else
      var octets := if s[0] % 4 == 0 then 1 else if s[0] % 4 == 1 then 2 else 4;
      if s[0] % 4 == 3 || |s| < 1 + octets then None
      else
        var at, size := 1 + octets, FromBigEndian(s[1..1 + octets]);
        if |s| < at + size then None else Some(((s[0] - 0x80) / 4, s[at..at + size], s[at + size..]))
  }

  /** Either header is read: the new one with any definite length, the old one with its size in one, two
      or four octets. */
  lemma HeadersRead(tag: Octet, body: Bytes, t: Bytes)
    requires |body| < 0x1_0000_0000
    ensures tag < 64 ==> ReadPacket([0xC0 + tag] + (LengthHeader(|body|) + body + t)) == Some((tag, body, t))
    ensures tag < 16 && |body| < 0x100 ==>
              ReadPacket([0x80 + 4 * tag] + ([|body|] + body + t)) == Some((tag, body, t))
    ensures tag < 16 && |body| < 0x1_0000 ==>
              ReadPacket([0x81 + 4 * tag] + (Big2(|body|) + body + t)) == Some((tag, body, t))
    ensures tag < 16 ==> ReadPacket([0x82 + 4 * tag] + (Big4(|body|) + body + t)) == Some((tag, body, t))
  {
    hide LengthHeader, ReadBody, Big2, Big4, ReadPacket;
    if tag < 64 {
      ReadDefiniteBody(body, t);
      NewHeader(tag, LengthHeader(|body|) + body + t);
    }
    if tag < 16 {
      if |body| < 0x100 {
        OldHeader(tag, 0, [|body|], body, t);
      }
      if |body| < 0x1_0000 {
        OldHeader(tag, 1, Big2(|body|), body, t);
      }
      OldHeader(tag, 2, Big4(|body|), body, t);
    }
  }

  lemma NewHeader(tag: Octet, s: Bytes)
    requires tag < 64
    ensures ReadPacket([0xC0 + tag] + s)
            == if ReadBody(s).Some? then Some((tag, ReadBody(s).value.0, ReadBody(s).value.1)) else None
  {
    hide ReadBody;
    assert ([0xC0 + tag] + s)[1..] == s;
  }

  lemma OldHeader(tag: Octet, kind: nat, size: Bytes, body: Bytes, t: Bytes)
    requires tag < 16 && kind < 3
    requires size == if kind == 0 then [|body| % 256] else if kind == 1 then Big2(|body|) else Big4(|body|)
    requires |body| < if kind == 0 then 0x100 else if kind == 1 then 0x1_0000 else 0x1_0000_0000
    ensures ReadPacket([0x80 + kind + 4 * tag] + (size + body + t)) == Some((tag, body, t))
  {
    hide FromBigEndian, ReadBody, BigEndian, Big2, Big4;
    var first: Octet := 0x80 + kind + 4 * tag;
    RemainderUnique(first, 4, 0x20 + tag, kind);
    var s := [first] + (size + body + t);
    InOctets(|body|);
    BigEndianValue(|body|, 2);
    BigEndianValue(|body|, 4);
    Pow256Values();
    OneOctetValue(size);
    assert s[1..1 + |size|] == size;
    assert s[1 + |size|..1 + |size| + |body|] == body && s[1 + |size| + |body|..] == t;
    RemainderUnique(first - 0x80, 4, tag, kind);
  }

  lemma OneOctetValue(s: Bytes)
    ensures |s| == 1 ==> FromBigEndian(s) == s[0]
  {
    if |s| == 1 {
      assert s[..0] == [];
    }
  }

  /** The packet's own octets from the s2k usage on; the public part goes by its length. */
  function TailOf(k: Kind, packet: Bytes): (r: Option<Bytes>)
  {
    match (ReadPacket(packet), PubkeyBody(k.pub))
    case (Some((tag, body, _)), Some(pub)) =>
      if Secret(tag) && |pub| <= |body| then Some(body[|pub|..]) else None
    case _ => None
  }

  function OpenTail(k: Kind, tail: Bytes, password: Bytes): (r: Option<seq<nat>>)
  {
    if tail == [] || tail[0] == S2K_NONE || (tail[0] == S2K_HASHED && k.pub.version == 4) then
      DecodeTail(k.cr, Count(k), tail, password)
    else
      match k.other(tail, password)
      case Some(ms) => if AllGood(ms) && |ms| == Count(k) then Some(ms) else None
      case None => None
  }

  /** `pgp_decrypt_seckey_pgp` on the stored packet. */
  function Decode(k: Kind, packet: Bytes, password: Bytes): (r: Option<seq<nat>>)
  {
    match TailOf(k, packet)
    case None => None
    case Some(tail) => OpenTail(k, tail, password)
  }

  /** Whatever a stored packet decodes to, under whatever password, is writable again. */
  lemma DecodedIsGood(k: Kind, packet: Bytes, password: Bytes)
    requires Decode(k, packet, password).Some?
    ensures AllGood(Decode(k, packet, password).value) && |Decode(k, packet, password).value| == Count(k)
  {
    hide ReadMpis, GoodMpi, Cfb.Cfb, Digest, BlockSize, DecodeIterations, KeyCipher, TailOf;
    forall secret: Bytes | ReadMpis(secret, Count(k)).Some?
      ensures AllGood(ReadMpis(secret, Count(k)).value.0) && |ReadMpis(secret, Count(k)).value.0| == Count(k)
    {
      ReadMpisGood(secret, Count(k));
    }
  }

  function S2kOf(prot: Protection, pw: Bytes, rnd: Random): (r: S2k)
    requires ValidRandom(rnd)
  {
    S2k(prot.usage, ITERATED, KeySpec(pw, prot.hashAlg, rnd.salt, prot.iterations, prot.symm),
        rnd.iv[..BlockSize(prot.symm)])
  }

  /** The packet `write_key_to_rawpacket` produces, if it does. */
  function RawPacket(k: Kind, ms: seq<nat>, prot: Protection, format: Format, pw: Bytes, rnd: Random)
    : (r: Option<Bytes>)
    requires ValidRandom(rnd) && |ms| == Count(k)
  {
    var key, p := SecretKey(k.pub, ms), S2kOf(prot, pw, rnd);
    var declared, body := DeclaredSecret(key, p), SeckeyBody(k.cr, key, p);
    if format.Unknown? || declared.None? || body.None? then None
    else
      SecretFits(k.cr, key, p);
      Some([0xC0 + k.tag] + (LengthHeader(declared.value) + body.value))
  }

  /** The secret part of it, from the usage octet on. */
  function WrittenTail(k: Kind, ms: seq<nat>, prot: Protection, pw: Bytes, rnd: Random): (r: Bytes)
    requires ValidRandom(rnd) && (prot.usage == S2K_NONE || BlockSize(prot.symm) > 0)
  {
    var p := S2kOf(prot, pw, rnd);
    if prot.usage == S2K_NONE then PlainTail(ms) else SealedTail(k.cr, p.spec, p.iv, ms)
  }

  predicate Usable(prot: Protection)
  {
    prot.usage == S2K_NONE
    || (prot.usage == S2K_HASHED && DecodeIterations(EncodeIterations(prot.iterations)) == prot.iterations)
  }

  /** Keys of this version and algorithm can be written at all. */
  predicate CanStore(k: Kind)
  {
    k.pub.version == 4 && PubkeyBody(k.pub).Some?
  }

  /** The protection can be written: a known cipher, and a hash algorithm a key can be derived from. */
  predicate CanSeal(k: Kind, prot: Protection)
  {
    prot.usage == S2K_NONE || (BlockSize(prot.symm) > 0 && k.cr.hashKnown(prot.hashAlg))
  }

  lemma WritesIff(k: Kind, ms: seq<nat>, prot: Protection, format: Format, pw: Bytes, rnd: Random)
    requires ValidRandom(rnd) && |ms| == Count(k) && Usable(prot) && AllGood(ms)
    ensures RawPacket(k, ms, prot, format, pw, rnd).Some?
            <==> !format.Unknown? && CanStore(k) && CanSeal(k, prot)
  {
    hide PlainTail, ProtectedBody, LengthHeader, PubkeyBody, BlockSize, Mpis;
    GoodIsStorable(ms);
  }

  lemma IteratedTail(head: Bytes, symm: Octet, spec: Octet, hash: Octet, salt: Bytes, it: Octet, iv: Bytes, ct: Bytes)
    requires |head| == 1
    ensures head + ([symm, spec, hash] + salt + [it] + iv + ct)
            == [head[0], symm, spec, hash] + salt + [it] + iv + ct
  {
  }

  /** The body that is written is the public part and the written tail. */
  lemma BodyParts(k: Kind, ms: seq<nat>, prot: Protection, format: Format, pw: Bytes, rnd: Random)
    requires ValidRandom(rnd) && |ms| == Count(k) && Usable(prot)
    requires RawPacket(k, ms, prot, format, pw, rnd).Some?
    ensures PubkeyBody(k.pub).Some? && CanSeal(k, prot)
    ensures SeckeyBody(k.cr, SecretKey(k.pub, ms), S2kOf(prot, pw, rnd)).value
            == PubkeyBody(k.pub).value + WrittenTail(k, ms, prot, pw, rnd)
  {
    hide PlainTail, LengthHeader, PubkeyBody, BlockSize, Cfb.Cfb, CheckedSecret, EncodeIterations, DecodeIterations;
    if prot.usage == S2K_HASHED {
      var p := S2kOf(prot, pw, rnd);
      var ct := Cfb.Cfb(KeyCipher(k.cr, p.spec), Encrypting, CfbState(p.iv, 0), CheckedSecret(k.cr.sha1, ms)).out;
      var it := EncodeIterations(prot.iterations);
      IteratedTail([S2K_HASHED], prot.symm, ITERATED, prot.hashAlg, rnd.salt, it, p.iv, ct);
    }
  }

  /** A reader of a written packet gets as much of its secret part as its header declares: all of it
      if the algorithm is measured, and less if not, or not even the whole public part. */
  lemma WrittenTailReads(k: Kind, ms: seq<nat>, prot: Protection, format: Format, pw: Bytes, rnd: Random)
    requires ValidRandom(rnd) && |ms| == Count(k) && Usable(prot) && Secret(k.tag)
    requires RawPacket(k, ms, prot, format, pw, rnd).Some?
    ensures CanSeal(k, prot)
    ensures var tail := WrittenTail(k, ms, prot, pw, rnd);
            var read := TailOf(k, RawPacket(k, ms, prot, format, pw, rnd).value);
            if Measured(k.pub.alg) then read == Some(tail)
            else read == None || (|read.value| < |tail| && read.value == tail[..|read.value|])
  {
    hide WrittenTail, LengthHeader, ReadBody, SeckeyBody, DeclaredSecret, PubkeyBody, BlockSize;
    var key, p := SecretKey(k.pub, ms), S2kOf(prot, pw, rnd);
    var len, body := DeclaredSecret(key, p).value, SeckeyBody(k.cr, key, p).value;
    BodyParts(k, ms, prot, format, pw, rnd);
    var pub, tail := PubkeyBody(k.pub).value, WrittenTail(k, ms, prot, pw, rnd);
    SecretLengthExact(k.cr, key, p);
    SecretFits(k.cr, key, p);
    ReadsDeclared(len, body, []);
    var packet := RawPacket(k, ms, prot, format, pw, rnd).value;
    assert packet[1..] == LengthHeader(len) + body + [];
    assert ReadPacket(packet) == Some((k.tag, body[..len], body[len..] + []));
    assert packet[0] >= 0xC0 && k.tag < 0x40;
    if |pub| <= len {
      CutAfter(pub, tail, len);
    }
  }

  lemma CutAfter(pub: Bytes, tail: Bytes, len: nat)
    requires |pub| <= len <= |pub| + |tail|
    ensures (pub + tail)[..len][|pub|..] == tail[..len - |pub|]
    ensures tail[..|tail|] == tail
  {
  }

  function UsageOf(k: Kind, packet: Bytes): (r: Option<Octet>)
  {
    match TailOf(k, packet)
    case Some(tail) => if tail == [] then None else Some(tail[0])
    case None => None
  }

  lemma TailStarts(k: Kind, ms: seq<nat>, prot: Protection, pw: Bytes, rnd: Random)
    requires ValidRandom(rnd) && |ms| == Count(k) && Usable(prot) && CanSeal(k, prot)
    ensures var tail := WrittenTail(k, ms, prot, pw, rnd);
            tail != [] && tail[0] == prot.usage
  {
    hide BlockSize, Cfb.Cfb, CheckedSecret, EncodeIterations, DecodeIterations, Mpis, BigEndian, Sum;
  }

  lemma WholeTailOpens(k: Kind, ms: seq<nat>, prot: Protection, pw: Bytes, rnd: Random, under: Bytes)
    requires ValidRandom(rnd) && AllGood(ms) && |ms| == Count(k) && Usable(prot) && CanSeal(k, prot)
    requires k.pub.version == 4 && (prot.usage == S2K_HASHED ==> under == pw)
    ensures OpenTail(k, WrittenTail(k, ms, prot, pw, rnd), under) == Some(ms)
  {
    hide DecodeTail, SealedTail, PlainTail, BlockSize, DecodeIterations, EncodeIterations;
    var p := S2kOf(prot, pw, rnd);
    TailStarts(k, ms, prot, pw, rnd);
    if prot.usage == S2K_NONE {
      PlainTailDecodes(k.cr, ms, under);
    } else {
      SealedTailDecodes(k.cr, p.spec, p.iv, ms);
    }
  }

  lemma CutTailIsRefused(k: Kind, ms: seq<nat>, prot: Protection, pw: Bytes, rnd: Random, under: Bytes, n: nat)
    requires ValidRandom(rnd) && AllGood(ms) && |ms| == Count(k) && Usable(prot) && CanSeal(k, prot)
    requires k.pub.version == 4 && (prot.usage == S2K_HASHED ==> under == pw)
    requires n < |WrittenTail(k, ms, prot, pw, rnd)|
    ensures OpenTail(k, WrittenTail(k, ms, prot, pw, rnd)[..n], under) == None
  {
    hide DecodeTail, SealedTail, PlainTail, BlockSize, DecodeIterations, EncodeIterations;
    var p := S2kOf(prot, pw, rnd);
    TailStarts(k, ms, prot, pw, rnd);
    if prot.usage == S2K_NONE {
      CutPlainTail(k.cr, ms, n, under);
    } else {
      CutSealedTail(k.cr, p.spec, p.iv, ms, n);
    }
  }

  /** A written packet decodes, under the password it was written with, to the integers written if
      the algorithm is measured, and to nothing if it is not. */
  lemma WrittenDecodes(k: Kind, ms: seq<nat>, prot: Protection, format: Format, pw: Bytes, rnd: Random, under: Bytes)
    requires ValidRandom(rnd) && AllGood(ms) && |ms| == Count(k) && Usable(prot) && Secret(k.tag)
    requires RawPacket(k, ms, prot, format, pw, rnd).Some? && (prot.usage == S2K_HASHED ==> under == pw)
    ensures var packet := RawPacket(k, ms, prot, format, pw, rnd).value;
            Decode(k, packet, under) == (if Measured(k.pub.alg) then Some(ms) else None)
            && (Measured(k.pub.alg) ==> UsageOf(k, packet) == Some(prot.usage))
  {
    hide TailOf, OpenTail, WrittenTail, BlockSize, SeckeyBody, LengthHeader, DecodeIterations, EncodeIterations;
    WrittenTailReads(k, ms, prot, format, pw, rnd);
    TailStarts(k, ms, prot, pw, rnd);
    var read := TailOf(k, RawPacket(k, ms, prot, format, pw, rnd).value);
    if Measured(k.pub.alg) {
      WholeTailOpens(k, ms, prot, pw, rnd, under);
    } else if read.Some? {
      CutTailIsRefused(k, ms, prot, pw, rnd, under, |read.value|);
    }
  }

  // --- what a protected packet is, octet by octet ---

  /** Tag, length and public part, and then the secret part under the key that password, hash algorithm,
      salt and count give. */
  ghost predicate StoredUnder(k: Kind, ms: seq<nat>, prot: Protection, pw: Bytes, rnd: Random, packet: Bytes)
    requires ValidRandom(rnd) && |ms| == Count(k)
  {
    var bl := BlockSize(prot.symm);
    var spec := KeySpec(pw, prot.hashAlg, rnd.salt, prot.iterations, prot.symm);
    var iv, size := rnd.iv[..bl], 33 + bl + |Mpis(ms)|;
    bl > 0 && size <= |packet| && PubkeyBody(k.pub).Some?
    && (exists len: nat ::
          len < 0x1_0000_0000 && DeclaredSecret(SecretKey(k.pub, ms), S2k(254, 3, spec, iv)) == Some(len)
          && (k.pub.alg in {1, 17, 18, 19, 22, 99} <==> len == |PubkeyBody(k.pub).value| + size)
          && packet[..|packet| - size] == [0xC0 + k.tag] + LengthHeader(len) + PubkeyBody(k.pub).value)
    && TailInOctets(k.cr, spec, iv, ms, packet[|packet| - size..])
  }

  lemma StoredInOctets(k: Kind, ms: seq<nat>, prot: Protection, format: Format, pw: Bytes, rnd: Random)
    requires ValidRandom(rnd) && |ms| == Count(k) && Usable(prot) && prot.usage == S2K_HASHED
    requires RawPacket(k, ms, prot, format, pw, rnd).Some?
    ensures StoredUnder(k, ms, prot, pw, rnd, RawPacket(k, ms, prot, format, pw, rnd).value)
  {
    hide SealedTail, LengthHeader, PubkeyBody, BlockSize, SeckeyBody, DeclaredSecret, Mpis, TailInOctets;
    hide DecodeIterations, EncodeIterations;
    var key, p := SecretKey(k.pub, ms), S2kOf(prot, pw, rnd);
    BodyParts(k, ms, prot, format, pw, rnd);
    SecretLengthExact(k.cr, key, p);
    SealedTailInOctets(k.cr, p.spec, p.iv, ms);
    SealedTailSize(k.cr, p.spec, p.iv, ms);
    SecretFits(k.cr, key, p);
    var len, pub, tail := DeclaredSecret(key, p).value, PubkeyBody(k.pub).value, SealedTail(k.cr, p.spec, p.iv, ms);
    var front := [0xC0 + k.tag] + LengthHeader(len) + pub;
    assert RawPacket(k, ms, prot, format, pw, rnd).value == front + tail by {
      Assoc([0xC0 + k.tag], LengthHeader(len), pub + tail);
      Assoc([0xC0 + k.tag] + LengthHeader(len), pub, tail);
    }
    PrefixAndRest(front, tail);
  }

  /** Tag, length and public part, and then usage 0, the integers and the sum of their octets. */
  ghost predicate StoredClear(k: Kind, ms: seq<nat>, packet: Bytes)
  {
    var m := Mpis(ms);
    var size := 3 + |m|;
    size <= |packet| && PubkeyBody(k.pub).Some?
    && packet[|packet| - size..] == [0] + m + Big2(Sum(m))
    && (exists len: nat ::
          len < 0x1_0000_0000 && (k.pub.alg in {1, 17, 18, 19, 22, 99} <==> len == |PubkeyBody(k.pub).value| + size)
          && packet[..|packet| - size] == [0xC0 + k.tag] + LengthHeader(len) + PubkeyBody(k.pub).value)
  }

  lemma ClearInOctets(k: Kind, ms: seq<nat>, prot: Protection, format: Format, pw: Bytes, rnd: Random)
    requires ValidRandom(rnd) && |ms| == Count(k) && prot.usage == S2K_NONE
    requires RawPacket(k, ms, prot, format, pw, rnd).Some?
    ensures StoredClear(k, ms, RawPacket(k, ms, prot, format, pw, rnd).value)
  {
    hide PlainTail, LengthHeader, PubkeyBody, BlockSize, SeckeyBody, DeclaredSecret, Mpis, Big2, Sum;
    hide DecodeIterations, EncodeIterations;
    var key, p := SecretKey(k.pub, ms), S2kOf(prot, pw, rnd);
    BodyParts(k, ms, prot, format, pw, rnd);
    SecretLengthExact(k.cr, key, p);
    PlainTailInOctets(ms);
    SecretFits(k.cr, key, p);
    var len, pub, tail := DeclaredSecret(key, p).value, PubkeyBody(k.pub).value, PlainTail(ms);
    var front := [0xC0 + k.tag] + LengthHeader(len) + pub;
    assert RawPacket(k, ms, prot, format, pw, rnd).value == front + tail by {
      Assoc([0xC0 + k.tag], LengthHeader(len), pub + tail);
      Assoc([0xC0 + k.tag] + LengthHeader(len), pub, tail);
    }
    PrefixAndRest(front, tail);
    PlainPieces(tail, Mpis(ms), Big2(Sum(Mpis(ms))));
  }

  lemma PlainPieces(tail: Bytes, m: Bytes, sum: Bytes)
    requires |tail| >= 1 + |m| && tail[0] == 0 && tail[1..1 + |m|] == m && tail[1 + |m|..] == sum
    ensures tail == [0] + m + sum
  {
  }

  lemma SealedTailSize(cr: Crypto, spec: KeySpec, iv: Bytes, ms: seq<nat>)
    requires BlockSize(spec.symm) == |iv| > 0 && |spec.salt| == SALT
    ensures |SealedTail(cr, spec, iv, ms)| == 33 + |iv| + |Mpis(ms)|
  {
    hide Mpis, Digest, Cfb.Cfb, EncodeIterations;
  }

  /** Two passwords are never one: there are ciphers under which what is written with the first decodes
      with it and not with the second. */
  lemma PasswordsDiffer(k: Kind, ms: seq<nat>, prot: Protection, format: Format, pw: Bytes, rnd: Random, other: Bytes)
    requires ValidRandom(rnd) && AllGood(ms) && |ms| == Count(k) && Usable(prot) && prot.usage == S2K_HASHED
    requires Secret(k.tag) && Measured(k.pub.alg) && other != pw
    requires !format.Unknown? && CanStore(k) && BlockSize(prot.symm) > 0
    ensures |Mpis(ms)| >= 2
    ensures var k' := k.(cr := Telling(Mpis(ms), other));
            var packet := RawPacket(k', ms, prot, format, pw, rnd);
            packet.Some? && Decode(k', packet.value, pw) == Some(ms) && Decode(k', packet.value, other) == None
  {
    hide RawPacket, DecodeTail, SealedTail, TailOf, BlockSize, Mpis, DecodeIterations, EncodeIterations, PubkeyBody;
    MpisNotEmpty(ms);
    var k' := k.(cr := Telling(Mpis(ms), other));
    WritesIff(k', ms, prot, format, pw, rnd);
    WrittenDecodes(k', ms, prot, format, pw, rnd, pw);
    WrittenTailReads(k', ms, prot, format, pw, rnd);
    TailStarts(k', ms, prot, pw, rnd);
    var p := S2kOf(prot, pw, rnd);
    OtherPasswordFails(p.spec, p.iv, ms, other);
  }

  // --- the state of a key, and the operations on it ---

  /** The fields of the key, with the password that `packet` was last written under. */
  datatype Record = Record(mpis: Option<seq<nat>>, encrypted: bool, isProtected: bool, protection: Protection,
                           format: Format, packet: Bytes, password: Bytes)

  datatype Op =
    | Lock
    | Unlock(provider: Option<Bytes>)
    | Protect(format: Format, params: Params, pw: Option<Bytes>, rnd: Random)
    | Unprotect(provider: Option<Bytes>, rnd: Random)

  predicate ValidOp(op: Op)
  {
    op.Protect? || op.Unprotect? ==> ValidRandom(op.rnd)
  }

  predicate ValidOps(ops: seq<Op>)
  {
    forall i :: 0 <= i < |ops| ==> ValidOp(ops[i])
  }

  predicate ValidRecord(k: Kind, r: Record)
  {
    (r.encrypted <==> r.mpis.None?) && !r.format.Unknown?
    && (r.mpis.Some? ==> AllGood(r.mpis.value) && |r.mpis.value| == Count(k))
  }

  /** What decrypting the stored packet yields; only a protected key asks its provider. */
  function Decrypted(k: Kind, r: Record, provider: Option<Bytes>): (d: Option<seq<nat>>)
    ensures d.Some? ==> AllGood(d.value) && |d.value| == Count(k)
  {
    var pw := if r.isProtected then provider else Some([]);
    if !Secret(k.tag) || pw.None? then None
    else
      var d := Decode(k, r.packet, pw.value);
      if d.Some? then
        DecodedIsGood(k, r.packet, pw.value);
        d
      else None
  }

  /** One operation: the state it leaves, failed calls included, and whether it succeeds. */
  function After(k: Kind, r: Record, op: Op): (q: (Record, bool))
    requires ValidRecord(k, r) && ValidOp(op)
    ensures ValidRecord(k, q.0)
  {
    match op
    case Lock => if !Secret(k.tag) then (r, false) else (r.(mpis := None, encrypted := true), true)
    case Unlock(provider) =>
      if !Secret(k.tag) then (r, false)
      else if !r.encrypted then (r, true)
      else
        var found := Decrypted(k, r, provider);
        if found.None? then (r, false) else (r.(mpis := found, encrypted := false), true)
    case Protect(format, params, pw, rnd) =>
      if pw.None? || !Secret(k.tag) || r.encrypted then (r, false)
      else
        var prot := Chosen(params);
        var packet := RawPacket(k, r.mpis.value, prot, format, pw.value, rnd);
        if packet.None? then (r.(protection := prot), false)
        else (Record(r.mpis, false, true, prot, format, packet.value, pw.value), true)
    case Unprotect(provider, rnd) =>
      if !Secret(k.tag) then (r, false)
      else if !r.isProtected then (r, true)
      else
        var ms := if r.encrypted then Decrypted(k, r, provider) else r.mpis;
        var clear := r.protection.(usage := S2K_NONE);
        var packet := if ms.None? then None else RawPacket(k, ms.value, clear, r.format, [], rnd);
        var prot := if r.encrypted then r.protection else clear;
        if packet.None? then (r.(protection := prot), false)
        else (r.(packet := packet.value, protection := prot, isProtected := false), true)
  }

  // --- soundness ---

  /** The stored packet decodes under the current password to the original integers, an unlocked
      key holds exactly those, a locked key holds none, and the flag tells whether the packet is
      encrypted. */
  predicate Sound(k: Kind, ms: seq<nat>, r: Record)
  {
    Decode(k, r.packet, r.password) == Some(ms) && (UsageOf(k, r.packet) == Some(S2K_NONE) <==> !r.isProtected)
    && r.mpis == (if r.encrypted then None else Some(ms))
  }

  /** The operation stores a new packet. */
  predicate Writes(k: Kind, r: Record, op: Op)
    requires ValidRecord(k, r) && ValidOp(op)
  {
    (op.Protect? || (op.Unprotect? && r.isProtected)) && After(k, r, op).1
  }

  /** A password that is not the right one passes the check value of the packet. */
  predicate Fools(k: Kind, ms: seq<nat>, r: Record, op: Op)
    requires ValidRecord(k, r) && ValidOp(op)
  {
    (op.Unlock? || (op.Unprotect? && Writes(k, r, op))) && r.encrypted
    && Decrypted(k, r, op.provider).Some? && Decrypted(k, r, op.provider) != Some(ms)
  }

  /** The right password always opens a sound key. */
  lemma RightPassword(k: Kind, ms: seq<nat>, r: Record, provider: Option<Bytes>)
    requires Sound(k, ms, r) && Secret(k.tag) && (r.isProtected ==> provider == Some(r.password))
    ensures Decrypted(k, r, provider) == Some(ms)
  {
    hide TailOf, OpenSecret, KeyCipher, BlockSize, Cfb.Cfb, Digest, DecodeIterations;
  }

  /** A sound key stays sound through an operation, failed or not, if and only if no wrong password
      passes the check value in it and, where the algorithm is not measured, nothing is written. */
  lemma StepSound(k: Kind, ms: seq<nat>, r: Record, op: Op)
    requires AllGood(ms) && |ms| == Count(k) && ValidRecord(k, r) && ValidOp(op) && Sound(k, ms, r)
    ensures Sound(k, ms, After(k, r, op).0) <==> !Fools(k, ms, r, op) && (Measured(k.pub.alg) || !Writes(k, r, op))
  {
    hide Decode, UsageOf, RawPacket;
    if op.Protect? && Writes(k, r, op) {
      ProtectWrites(k, ms, r, op);
    } else if op.Unprotect? && Writes(k, r, op) {
      UnprotectWrites(k, r, op, r.password);
    }
  }

  lemma ProtectWrites(k: Kind, ms: seq<nat>, r: Record, op: Op)
    requires ValidRecord(k, r) && ValidOp(op) && op.Protect? && Writes(k, r, op) && r.mpis == Some(ms)
    ensures var r' := After(k, r, op).0;
            Decode(k, r'.packet, r'.password) == (if Measured(k.pub.alg) then Some(ms) else None)
            && (Measured(k.pub.alg) ==> UsageOf(k, r'.packet) == Some(S2K_HASHED))
  {
    hide Decode, UsageOf, RawPacket, DecodeIterations, EncodeIterations;
    var prot := Chosen(op.params);
    RoundedSurvives(if op.params.iterations == 0 then DEFAULT_ITERATIONS else op.params.iterations);
    WrittenDecodes(k, ms, prot, op.format, op.pw.value, op.rnd, op.pw.value);
  }

  /** A packet stored in clear reads the same under any password. */
  lemma UnprotectWrites(k: Kind, r: Record, op: Op, under: Bytes)
    requires ValidRecord(k, r) && ValidOp(op) && op.Unprotect? && Writes(k, r, op)
    ensures var found := if r.encrypted then Decrypted(k, r, op.provider) else r.mpis;
            var r' := After(k, r, op).0;
            Decode(k, r'.packet, under) == (if Measured(k.pub.alg) then found else None)
            && (Measured(k.pub.alg) ==> UsageOf(k, r'.packet) == Some(S2K_NONE))
  {
    hide Decode, UsageOf, RawPacket;
    var found := if r.encrypted then Decrypted(k, r, op.provider) else r.mpis;
    WrittenDecodes(k, found.value, r.protection.(usage := S2K_NONE), r.format, [], op.rnd, under);
  }

  // --- runs ---

  /** The state after a run of operations on a key as it was loaded. */
  function RunRecord(k: Kind, r0: Record, ops: seq<Op>): (r: Record)
    requires ValidRecord(k, r0) && ValidOps(ops)
    ensures ValidRecord(k, r)
  {
    if ops == [] then r0 else After(k, RunRecord(k, r0, ops[..|ops| - 1]), ops[|ops| - 1]).0
  }

  /** Nowhere in the run does a wrong password pass the check value. */
  predicate NeverFooled(k: Kind, ms: seq<nat>, r0: Record, ops: seq<Op>)
    requires ValidRecord(k, r0) && ValidOps(ops)
  {
    ops == [] || (NeverFooled(k, ms, r0, ops[..|ops| - 1])
                  && !Fools(k, ms, RunRecord(k, r0, ops[..|ops| - 1]), ops[|ops| - 1]))
  }

  /** No operation of the run stores a new packet. */
  predicate NeverWrites(k: Kind, r0: Record, ops: seq<Op>)
    requires ValidRecord(k, r0) && ValidOps(ops)
  {
    ops == [] || (NeverWrites(k, r0, ops[..|ops| - 1])
                  && !Writes(k, RunRecord(k, r0, ops[..|ops| - 1]), ops[|ops| - 1]))
  }

  /** The key is sound after the run and after every part of it. */
  predicate AlwaysSound(k: Kind, ms: seq<nat>, r0: Record, ops: seq<Op>)
    requires ValidRecord(k, r0) && ValidOps(ops)
  {
    Sound(k, ms, RunRecord(k, r0, ops)) && (ops == [] || AlwaysSound(k, ms, r0, ops[..|ops| - 1]))
  }

  /** Over every run on a sound key, failed calls included, the key is sound all along if and only if
      no wrong password ever passes a check value and, unless the algorithm is measured, no write in
      the run succeeds. */
  lemma {:induction false} RunSound(k: Kind, ms: seq<nat>, r0: Record, ops: seq<Op>)
    requires AllGood(ms) && |ms| == Count(k) && ValidRecord(k, r0) && Sound(k, ms, r0) && ValidOps(ops)
    ensures AlwaysSound(k, ms, r0, ops)
            <==> NeverFooled(k, ms, r0, ops) && (Measured(k.pub.alg) || NeverWrites(k, r0, ops))
  {
    hide Sound, Fools, Writes, After, ValidRecord;
    if ops != [] {
      var init := ops[..|ops| - 1];
      RunSound(k, ms, r0, init);
      if AlwaysSound(k, ms, r0, init) {
        StepSound(k, ms, RunRecord(k, r0, init), ops[|ops| - 1]);
      }
    }
  }

  // --- a key of an algorithm that is not measured ---

  /** Every password that is offered is the right one. */
  predicate Offers(ops: seq<Op>, password: Bytes)
  {
    forall i :: 0 <= i < |ops| && (ops[i].Unlock? || ops[i].Unprotect?) ==> ops[i].provider in {None, Some(password)}
  }

  /** Once such a key was written and is locked, nothing that follows brings its integers back. */
  lemma {:induction false} LostForGood(k: Kind, r: Record, ops: seq<Op>)
    requires ValidRecord(k, r) && ValidOps(ops) && Offers(ops, r.password) && r.encrypted
    requires Decode(k, r.packet, if r.isProtected then r.password else []) == None
    ensures RunRecord(k, r, ops) == r
  {
    hide Decode, RawPacket;
    if ops != [] {
      LostForGood(k, r, ops[..|ops| - 1]);
      assert ops[|ops| - 1].Unlock? || ops[|ops| - 1].Unprotect? ==>
               ops[|ops| - 1].provider in {None, Some(r.password)};
    }
  }

  /** A sound key of an algorithm that is not measured, once protected or unprotected with success
      and then locked, stays locked through every run in which the right passwords are offered. */
  lemma WriteLoses(k: Kind, ms: seq<nat>, r: Record, op: Op, ops: seq<Op>)
    requires AllGood(ms) && |ms| == Count(k) && ValidRecord(k, r) && ValidOp(op) && ValidOps(ops) && Sound(k, ms, r)
    requires Writes(k, r, op) && !Measured(k.pub.alg)
    requires Offers(ops, After(k, r, op).0.password)
    ensures var locked := After(k, After(k, r, op).0, Op.Lock).0;
            locked.encrypted && locked.mpis == None && RunRecord(k, locked, ops) == locked
  {
    hide Decode, UsageOf, RawPacket;
    if op.Protect? {
      ProtectWrites(k, ms, r, op);
    } else {
      UnprotectWrites(k, r, op, []);
    }
    LostForGood(k, After(k, After(k, r, op).0, Op.Lock).0, ops);
  }

  /** An unprotected key as another program wrote it: the header declares what follows. */
  function Loaded(k: Kind, ms: seq<nat>): (r: Record)
    requires PubkeyBody(k.pub).Some? && |PubkeyBody(k.pub).value + PlainTail(ms)| < 0x1_0000_0000
  {
    var body := PubkeyBody(k.pub).value + PlainTail(ms);
    Record(Some(ms), false, false, Protection(S2K_NONE, 0, 0, 0), Gpg,
           [0xC0 + k.tag] + (LengthHeader(|body|) + body), [])
  }

  lemma LoadedIsSound(k: Kind, ms: seq<nat>)
    requires AllGood(ms) && |ms| == Count(k) && Secret(k.tag)
    requires PubkeyBody(k.pub).Some? && |PubkeyBody(k.pub).value + PlainTail(ms)| < 0x1_0000_0000
    ensures ValidRecord(k, Loaded(k, ms)) && Sound(k, ms, Loaded(k, ms))
  {
    hide DecodeTail, PlainTail, PubkeyBody, LengthHeader, ReadBody;
    var pub, tail := PubkeyBody(k.pub).value, PlainTail(ms);
    var packet, body := Loaded(k, ms).packet, pub + tail;
    ReadsDeclared(|body|, body, []);
    assert packet[1..] == LengthHeader(|body|) + body + [];
    assert ReadPacket(packet) == Some((k.tag, body[..|body|], body[|body|..] + []));
    PrefixAndRest(pub, tail);
    assert body[..|body|] == body;
    PlainTailDecodes(k.cr, ms, []);
    assert tail != [] && tail[0] == S2K_NONE by {
      StartsClear(ms);
    }
  }

  lemma StartsClear(ms: seq<nat>)
    ensures PlainTail(ms) != [] && PlainTail(ms)[0] == S2K_NONE
  {
  }

  /** Protecting an unlocked Elgamal key with the default parameters succeeds and, once the key is
      locked, has lost it, the right password notwithstanding. */
  lemma ElgamalIsLost(k: Kind, ms: seq<nat>, r: Record, pw: Bytes, rnd: Random, ops: seq<Op>)
    requires k.pub.alg == ELGAMAL && CanStore(k) && Secret(k.tag) && k.cr.hashKnown(DEFAULT_HASH)
    requires AllGood(ms) && |ms| == Count(k) && ValidRecord(k, r) && Sound(k, ms, r) && !r.encrypted
    requires ValidRandom(rnd) && ValidOps(ops) && Offers(ops, pw)
    ensures var op := Protect(Gpg, Params(0, 0, 0), Some(pw), rnd);
            var locked := After(k, After(k, r, op).0, Op.Lock).0;
            After(k, r, op).1 && locked.password == pw && locked.mpis == None && RunRecord(k, locked, ops) == locked
  {
    hide Decode, UsageOf, RawPacket, CanStore, RoundIterations;
    var op := Protect(Gpg, Params(0, 0, 0), Some(pw), rnd);
    ChosenIsUsable(op.params);
    WritesIff(k, ms, Chosen(op.params), Gpg, pw, rnd);
    WriteLoses(k, ms, r, op, ops);
  }

  // --- runs with the right passwords ---

  /** The state of a key apart from its integers. */
  datatype Flags = Flags(locked: bool, prot: bool, password: Bytes)

  function FlagsOf(r: Record): (f: Flags)
  {
    Flags(r.encrypted, r.isProtected, r.password)
  }

  /** Where an operation needs the current password, it is offered. */
  predicate RightFor(f: Flags, op: Op)
  {
    (op.Unlock? || op.Unprotect?) && f.locked && f.prot ==> op.provider == Some(f.password)
  }

  /** The operation without any cryptography. */
  function FlagsAfter(k: Kind, f: Flags, op: Op): (r: Flags)
  {
    match op
    case Lock => f.(locked := true)
    case Unlock(_) => f.(locked := false)
    case Protect(format, params, pw, _) =>
      if pw.None? || f.locked || format.Unknown? || !CanStore(k) || !CanSeal(k, Chosen(params)) then f
      else f.(prot := true, password := pw.value)
    case Unprotect(_, _) => if CanStore(k) then f.(prot := false) else f
  }

  function FlagsRun(k: Kind, f: Flags, ops: seq<Op>): (r: Flags)
  {
    if ops == [] then f else FlagsAfter(k, FlagsRun(k, f, ops[..|ops| - 1]), ops[|ops| - 1])
  }

  predicate AllRight(k: Kind, f: Flags, ops: seq<Op>)
  {
    ops == [] || (AllRight(k, f, ops[..|ops| - 1]) && RightFor(FlagsRun(k, f, ops[..|ops| - 1]), ops[|ops| - 1]))
  }

  /** Offering the password of the moment to every unlock and unprotect is enough. */
  lemma {:induction false} AlwaysOffered(k: Kind, f: Flags, ops: seq<Op>)
    requires forall i :: 0 <= i < |ops| && (ops[i].Unlock? || ops[i].Unprotect?) ==>
               ops[i].provider == Some(FlagsRun(k, f, ops[..i]).password)
    ensures AllRight(k, f, ops)
  {
    hide FlagsRun, FlagsAfter;
    if ops != [] {
      var n := |ops| - 1;
      forall i | 0 <= i < n
        ensures ops[..n][..i] == ops[..i]
      {
      }
      AlwaysOffered(k, f, ops[..n]);
    }
  }

  lemma StepRight(k: Kind, ms: seq<nat>, r: Record, op: Op)
    requires AllGood(ms) && |ms| == Count(k) && ValidRecord(k, r) && ValidOp(op) && Sound(k, ms, r) && Secret(k.tag)
    requires RightFor(FlagsOf(r), op)
    ensures !Fools(k, ms, r, op) && FlagsOf(After(k, r, op).0) == FlagsAfter(k, FlagsOf(r), op)
  {
    hide Decode, UsageOf, RawPacket, RoundIterations, CanStore;
    if (op.Unlock? || op.Unprotect?) && r.encrypted {
      RightPassword(k, ms, r, op.provider);
    }
    if op.Protect? && op.pw.Some? && !r.encrypted {
      ChosenIsUsable(op.params);
      WritesIff(k, ms, Chosen(op.params), op.format, op.pw.value, op.rnd);
    } else if op.Unprotect? && r.isProtected {
      WritesIff(k, ms, r.protection.(usage := S2K_NONE), r.format, [], op.rnd);
    }
  }

  lemma ChosenIsUsable(p: Params)
    ensures Usable(Chosen(p))
  {
    hide DecodeIterations, EncodeIterations;
    RoundedSurvives(if p.iterations == 0 then DEFAULT_ITERATIONS else p.iterations);
  }

  /** When the right password is offered wherever one is needed, no operation is stopped by the
      cryptography: while the packet can be read at all, the run goes as the flags alone say. */
  lemma {:induction false} RunRight(k: Kind, ms: seq<nat>, r0: Record, ops: seq<Op>)
    requires AllGood(ms) && |ms| == Count(k) && ValidRecord(k, r0) && Sound(k, ms, r0) && ValidOps(ops)
    requires Secret(k.tag) && AllRight(k, FlagsOf(r0), ops)
    requires Measured(k.pub.alg) || NeverWrites(k, r0, ops)
    ensures NeverFooled(k, ms, r0, ops) && FlagsOf(RunRecord(k, r0, ops)) == FlagsRun(k, FlagsOf(r0), ops)
  {
    hide Sound, Fools, Writes, After, RightFor, FlagsAfter, ValidRecord;
    if ops != [] {
      var init := ops[..|ops| - 1];
      RunRight(k, ms, r0, init);
      RunSound(k, ms, r0, init);
      StepRight(k, ms, RunRecord(k, r0, init), ops[|ops| - 1]);
    }
  }

  lemma {:induction false} OldKeysNeverWrite(k: Kind, r0: Record, ops: seq<Op>)
    requires ValidRecord(k, r0) && ValidOps(ops) && k.pub.version != 4
    ensures NeverWrites(k, r0, ops)
  {
    hide Decode, SeckeyBody;
    if ops != [] {
      OldKeysNeverWrite(k, r0, ops[..|ops| - 1]);
    }
  }

  // --- the key ---

  class PgpKey {
    const kind: Kind
    var mpis: Option<seq<nat>> // key material in memory
    var encrypted: bool
    var isProtected: bool
    var protection: Protection
    var format: Format
    var packet: Bytes // packets[0].raw
    ghost var password: Bytes

    ghost function State(): (r: Record)
      reads this
    {
      Record(mpis, encrypted, isProtected, protection, format, packet, password)
    }

    ghost predicate Valid()
      reads this
    {
      ValidRecord(kind, State())
    }

    /** A key as it was loaded. */
    constructor (k: Kind, r: Record)
      requires ValidRecord(k, r)
      ensures Valid() && kind == k && State() == r
    {
      kind := k;
      mpis, encrypted, isProtected := r.mpis, r.encrypted, r.isProtected;
      protection, format := r.protection, r.format;
      packet := r.packet;
      password := r.password;
    }

    /** `write_key_to_rawpacket`: nothing changes unless every part of the write succeeds. */
    method WriteRawPacket(ms: seq<nat>, prot: Protection, format: Format, pw: Bytes, rnd: Random) returns (ok: bool)
      requires ValidRandom(rnd) && (prot.usage == S2K_NONE || prot.usage == S2K_HASHED) && |ms| == Count(kind)
      modifies this`packet
      ensures var w := RawPacket(kind, ms, prot, format, pw, rnd);
              ok == w.Some? && packet == if ok then w.value else old(packet)
    {
      hide Mpis, MpiLengths, BigEndian, LengthHeader, Sum, Digest, Cfb.Cfb, PlainTail;
      hide DecodeIterations, EncodeIterations;
      var front := PubkeyBody(kind.pub);
      if format.Unknown? || kind.pub.version != 4 || front.None? || !Storable(ms) {
        return false;
      }
      var key, p := SecretKey(kind.pub, ms), S2kOf(prot, pw, rnd);
      if prot.usage == S2K_NONE {
        SecretFits(kind.cr, key, p);
        packet := [0xC0 + kind.tag] + (LengthHeader(DeclaredSecret(key, p).value) + (front.value + PlainTail(ms)));
        return true;
      }
      if BlockSize(prot.symm) == 0 || !kind.cr.hashKnown(prot.hashAlg) {
        return false;
      }
      var ct := EncryptSecret(ms, p);
      SecretFits(kind.cr, key, p);
      var head := [prot.symm, ITERATED, prot.hashAlg] + rnd.salt + [EncodeIterations(prot.iterations)] + p.iv;
      packet := [0xC0 + kind.tag]
                + (LengthHeader(DeclaredSecret(key, p).value) + (front.value + ([prot.usage] + (head + ct))));
      ok := true;
    }

    /** The encrypting writer over the integers and then over their hash. */
    method EncryptSecret(ms: seq<nat>, p: S2k) returns (ct: Bytes)
      requires Storable(ms) && |ms| == Count(kind) && |p.iv| == BlockSize(p.spec.symm) > 0
      ensures ct == Cfb.Cfb(KeyCipher(kind.cr, p.spec), Encrypting, CfbState(p.iv, 0),
                            CheckedSecret(kind.cr.sha1, ms)).out
    {
      hide Mpis, Digest, Cfb.Cfb, Storable;
      ShortMpis(ms);
      var crypt := new PgpCrypt(KeyCipher(kind.cr, p.spec), Some(p.iv));
      var secretOctets := Mpis(ms);
      CfbConcat(crypt.cipher, Encrypting, crypt.State(), secretOctets, Digest(kind.cr.sha1, secretOctets));
      var ct0 := EncryptWriter(crypt, secretOctets);
      var ct1 := EncryptWriter(crypt, Digest(kind.cr.sha1, secretOctets));
      ct := ct0 + ct1;
    }

    /** `pgp_key_lock`. */
    method Lock() returns (ok: bool)
      requires Valid()
      modifies this`mpis, this`encrypted
      ensures Valid() && (State(), ok) == After(kind, old(State()), Op.Lock)
      ensures ok == (kind.tag == 5 || kind.tag == 7) && (ok ==> encrypted && mpis == None)
    {
      if !Secret(kind.tag) {
        return false;
      }
      if encrypted {
        return true;
      }
      mpis := None;
      encrypted := true;
      return true;
    }

    /** `pgp_decrypt_seckey`. */
    method Decrypt(provider: Option<Bytes>) returns (found: Option<seq<nat>>)
      ensures found == Decrypted(kind, State(), provider)
    {
      hide Decode;
      if !Secret(kind.tag) || (isProtected && provider.None?) {
        return None;
      }
      found := Decode(kind, packet, if isProtected then provider.value else []);
    }

    /** `pgp_key_unlock`: a failed call changes nothing. */
    method Unlock(provider: Option<Bytes>) returns (ok: bool)
      requires Valid()
      modifies this`mpis, this`encrypted
      ensures Valid() && (State(), ok) == After(kind, old(State()), Op.Unlock(provider))
      ensures ok <==> (kind.tag == 5 || kind.tag == 7)
                      && (!old(encrypted) || Decrypted(kind, old(State()), provider).Some?)
      ensures !ok || !old(encrypted) ==> State() == old(State())
      ensures ok ==> !encrypted && (old(encrypted) ==> mpis == Decrypted(kind, old(State()), provider))
    {
      hide Decrypted, GoodMpi;
      if !Secret(kind.tag) {
        return false;
      }
      if !encrypted {
        return true;
      }
      var found := Decrypt(provider);
      if found.None? {
        return false;
      }
      mpis := found;
      encrypted := false;
      return true;
    }

    /** `pgp_key_protect_password`; a null password is refused.  A write that is refused has already
        replaced the protection parameters. */
    method Protect(format: Format, params: Params, pw: Option<Bytes>, rnd: Random) returns (ok: bool)
      requires Valid() && ValidRandom(rnd)
      modifies this`packet, this`protection, this`format, this`isProtected, this`password
      ensures Valid() && (State(), ok) == After(kind, old(State()), Op.Protect(format, params, pw, rnd))
      ensures ok <==> pw.Some? && Secret(kind.tag) && !encrypted && !format.Unknown?
                      && CanStore(kind) && CanSeal(kind, Chosen(params))
      ensures ok ==> isProtected && Some(password) == pw && this.format == format
      ensures ok ==> StoredUnder(kind, mpis.value, protection, pw.value, rnd, packet)
      ensures ok ==> protection.symm == (if params.symm == 0 then 9 else params.symm)
                     && protection.hashAlg == (if params.hashAlg == 0 then 8 else params.hashAlg)
                     && protection.iterations == RoundIterations(if params.iterations == 0 then 65536
                                                                 else params.iterations)
      ensures !ok ==> State() == old(State()).(protection := protection)
    {
      hide Decode, RawPacket, RoundIterations, BlockSize, GoodMpi, CanStore, StoredUnder;
      if pw.None? || !Secret(kind.tag) || encrypted {
        return false;
      }
      protection := Chosen(params);
      ChosenIsUsable(params);
      WritesIff(kind, mpis.value, protection, format, pw.value, rnd);
      ok := WriteRawPacket(mpis.value, protection, format, pw.value, rnd);
      if !ok {
        return false;
      }
      StoredInOctets(kind, mpis.value, protection, format, pw.value, rnd);
      this.format := format;
      isProtected := true;
      password := pw.value;
    }

    /** `pgp_key_unprotect`: a locked key is decrypted on the side and stays locked.  For an unlocked
        key a write that is refused has already overwritten the usage. */
    method Unprotect(provider: Option<Bytes>, rnd: Random) returns (ok: bool)
      requires Valid() && ValidRandom(rnd)
      modifies this`packet, this`protection, this`isProtected
      ensures Valid() && (State(), ok) == After(kind, old(State()), Op.Unprotect(provider, rnd))
      ensures ok <==> Secret(kind.tag)
                      && (!old(isProtected)
                          || (CanStore(kind) && (encrypted ==> Decrypted(kind, old(State()), provider).Some?)))
      ensures ok ==> !isProtected
      ensures ok && old(isProtected) ==>
                StoredClear(kind, if encrypted then Decrypted(kind, old(State()), provider).value else mpis.value,
                            packet)
      ensures ok && !old(isProtected) ==> State() == old(State())
      ensures !ok ==> State() == old(State()).(protection := protection)
      ensures encrypted ==> protection == old(protection)
    {
      hide Decrypted, RawPacket, CanStore, GoodMpi, StoredClear;
      if !Secret(kind.tag) {
        return false;
      }
      if !isProtected {
        return true;
      }
      var ms := mpis;
      var clear := protection.(usage := S2K_NONE);
      if encrypted {
        ms := Decrypt(provider);
        if ms.None? {
          return false;
        }
      } else {
        protection := clear;
      }
      WritesIff(kind, ms.value, clear, format, [], rnd);
      ok := WriteRawPacket(ms.value, clear, format, [], rnd);
      if ok {
        ClearInOctets(kind, ms.value, clear, format, [], rnd);
        isProtected := false;
      }
    }

    method Apply(op: Op) returns (ok: bool)
      requires Valid() && ValidOp(op)
      modifies this
      ensures Valid() && (State(), ok) == After(kind, old(State()), op)
    {
      hide After, ValidRecord;
      match op
      case Lock => ok := Lock();
      case Unlock(provider) => ok := Unlock(provider);
      case Protect(format, params, pw, rnd) => ok := Protect(format, params, pw, rnd);
      case Unprotect(provider, rnd) => ok := Unprotect(provider, rnd);
    }
  }

  /** Any run of operations, failed ones included, on a sound key `r0` with the integers `ms`.  The
      object ends in the state of `RunRecord`; so, unless somewhere a wrong password passed a check
      value or a key of an algorithm that is not measured was written, the packet decodes under the
      current password to `ms`, the key holds `ms` if unlocked and nothing if locked, and the flag
      describes the packet.  Offering the right password wherever one is needed then makes the run go
      as the flags alone say. */
  method RunKey(k: Kind, ghost ms: seq<nat>, r0: Record, ops: seq<Op>)
    returns (held: Option<seq<nat>>, locked: bool, prot: bool, packet: Bytes, ghost password: Bytes)
    requires AllGood(ms) && |ms| == Count(k) && ValidRecord(k, r0) && Sound(k, ms, r0) && ValidOps(ops)
    ensures var r := RunRecord(k, r0, ops);
            held == r.mpis && locked == r.encrypted && prot == r.isProtected && packet == r.packet
    ensures password == RunRecord(k, r0, ops).password
    ensures Measured(k.pub.alg) || NeverWrites(k, r0, ops) ==>
              (NeverFooled(k, ms, r0, ops) ==>
                 Decode(k, packet, password) == Some(ms) && held == (if locked then None else Some(ms))
                 && (UsageOf(k, packet) == Some(S2K_NONE) <==> !prot))
              && (Secret(k.tag) && AllRight(k, FlagsOf(r0), ops) ==>
                    NeverFooled(k, ms, r0, ops)
                    && Flags(locked, prot, password) == FlagsRun(k, FlagsOf(r0), ops))
  {
    hide Decode, UsageOf, After, ValidRecord;
    var key := new PgpKey(k, r0);
    for i := 0 to |ops|
      invariant fresh(key) && key.Valid() && key.kind == k && key.State() == RunRecord(k, r0, ops[..i])
    {
      TakeSnoc(ops, i);
      var _ := key.Apply(ops[i]);
    }
    assert ops[..|ops|] == ops;
    held, locked, prot, packet := key.mpis, key.encrypted, key.isProtected, key.packet;
    password := key.password;
    RunSound(k, ms, r0, ops);
    if (Measured(k.pub.alg) || NeverWrites(k, r0, ops)) && Secret(k.tag) && AllRight(k, FlagsOf(r0), ops) {
      RunRight(k, ms, r0, ops);
    }
  }
}
