/** The version 4 signature builder of src/lib/signature.c, whose subpacket counts are patched in
    after the subpackets are written, and the digest input of the matching verifier
    (sections 5.2.3 and 5.2.4 of RFC 4880). */
module Signature {
  import opened Octets
  import opened Framing
  import opened Memory

  const V4: Octet := 4
  const TAG_SIGNATURE: Octet := 0xC2

  // --- subpackets ---

  datatype Subpacket = Subpacket(kind: Octet, body: Bytes)

  predicate Encodable(p: Subpacket)
  {
    |p.body| + 1 < 0x1_0000_0000
  }

  /** `pgp_write_ss_header` and the body. */
  function SubpacketOctets(p: Subpacket): (r: Bytes)
    requires Encodable(p)
  {
    LengthHeader(|p.body| + 1) + [p.kind] + p.body
  }

  predicate AllEncodable(ps: seq<Subpacket>)
  {
    forall i :: 0 <= i < |ps| ==> Encodable(ps[i])
  }

  function Area(ps: seq<Subpacket>): (r: Bytes)
    requires AllEncodable(ps)
  {
    if ps == [] then [] else SubpacketOctets(ps[0]) + Area(ps[1..])
  }

  lemma {:induction false} AreaSnoc(ps: seq<Subpacket>, p: Subpacket)
    requires AllEncodable(ps) && Encodable(p)
    ensures AllEncodable(ps + [p]) && Area(ps + [p]) == Area(ps) + SubpacketOctets(p)
  {
    hide SubpacketOctets;
    var all := ps + [p];
    if ps == [] {
      assert all == [p] && all[1..] == [];
      assert SubpacketOctets(p) + [] == SubpacketOctets(p) && [] + SubpacketOctets(p) == SubpacketOctets(p);
    } else {
      AreaSnoc(ps[1..], p);
      assert all[1..] == ps[1..] + [p] && all[0] == ps[0];
      Assoc(SubpacketOctets(ps[0]), Area(ps[1..]), SubpacketOctets(p));
    }
  }

  // --- what is signed ---

  /** What the digest starts with: nothing for a document, the hashed keys and user id otherwise.
      `key` and `subkey` are the bodies of public-key packets. */
  datatype Signed =
    | Document(data: Bytes)
    | UserId(key: Bytes, id: Bytes)
    | Subkey(key: Bytes, subkey: Bytes)
    | Direct(key: Bytes)

  /** `hash_add_key`: the count keeps the low 16 bits. */
  function HashedKey(body: Bytes): (r: Bytes)
  {
    [0x99] + BigEndian(|body|, 2) + body
  }

  function Prefix(s: Signed): (r: Bytes)
  {
    match s
    case Document(data) => data
    case UserId(key, id) => HashedKey(key) + [0xb4] + BigEndian(|id|, 4) + id
    case Subkey(key, subkey) => HashedKey(key) + HashedKey(subkey)
    case Direct(key) => HashedKey(key)
  }

  /** What starting a signature has hashed: a document comes later, in pieces. */
  function Started(s: Signed): (r: Bytes)
  {
    if s.Document? then [] else Prefix(s)
  }

  function Trailer(hashlen: nat): (r: Bytes)
    ensures |r| == 6
  {
    [V4, 0xff] + BigEndian(hashlen, 4)
  }

  // --- the builder ---

  /** The four octets before the first count. */
  function Header(kind: Octet, keyAlg: Octet, hashAlg: Octet): (r: Bytes)
    ensures |r| == 4
  {
    [V4, kind, keyAlg, hashAlg]
  }

  /** The whole body up to the end of the unhashed area, with counts as 16-bit fields. */
  function SigBody(header: Bytes, hashed: Bytes, unhashed: Bytes): (r: Bytes)
  {
    header + BigEndian(|hashed|, 2) + hashed + BigEndian(|unhashed|, 2) + unhashed
  }

  datatype Phase = Hashing | Unhashing

  /** `pgp_create_sig_t`.  `hash` is what its digest has been given so far. */
  class CreateSig {
    const kind: Octet
    const keyAlg: Octet
    const hashAlg: Octet
    const mem: PgpMemory
    var hash: Bytes
    var hashoff: nat
    var hashlen: int // -1 until the hashed area is closed
    var unhashoff: nat
    ghost var phase: Phase
    ghost var hashedPkts: seq<Subpacket>
    ghost var unhashedPkts: seq<Subpacket>

    ghost function Head(): (r: Bytes)
      ensures |r| == 4
    {
      Header(kind, keyAlg, hashAlg)
    }

    ghost predicate Valid()
      reads this, mem, mem.buf
    {
      mem.Valid() && AllEncodable(hashedPkts) && AllEncodable(unhashedPkts) && hashoff == 4
      && match phase
         case Hashing =>
           hashlen == -1 && unhashedPkts == [] && mem.Contents() == Head() + [0, 0] + Area(hashedPkts)
         case Unhashing =>
           hashlen == |Area(hashedPkts)| && unhashoff == 6 + hashlen
           && mem.Contents() == Head() + BigEndian(hashlen, 2) + Area(hashedPkts) + [0, 0] + Area(unhashedPkts)
    }

    /** `pgp_sig_start`, `pgp_sig_start_key_sig` and `pgp_sig_start_subkey_sig`, with
        `start_sig_in_mem`. */
    constructor (signed: Signed, kind: Octet, keyAlg: Octet, hashAlg: Octet)
      ensures Valid() && phase == Hashing && hashedPkts == [] && hash == Started(signed)
      ensures this.kind == kind && this.keyAlg == keyAlg && this.hashAlg == hashAlg
      ensures fresh(mem) && fresh(mem.buf)
    {
      this.kind, this.keyAlg, this.hashAlg := kind, keyAlg, hashAlg;
      var m := new PgpMemory(100);
      mem := m;
      hash := Started(signed);
      hashoff, hashlen, unhashoff := 4, -1, 0;
      phase, hashedPkts, unhashedPkts := Hashing, [], [];
      new;
      mem.Add([V4, kind, keyAlg, hashAlg]);
      mem.Add([0, 0]);
      assert mem.Contents() == Head() + [0, 0] + [];
    }

    /** `pgp_sig_add_data`. */
    method AddData(data: Bytes)
      requires Valid()
      modifies this`hash
      ensures Valid() && hash == old(hash) + data
    {
      hash := hash + data;
    }

    /** Every `pgp_sig_add_*`: a subpacket in the area that is open. */
    method AddSubpacket(p: Subpacket)
      requires Valid() && Encodable(p)
      modifies this`hashedPkts, this`unhashedPkts, mem, mem.buf
      ensures Valid() && (mem.buf == old(mem.buf) || fresh(mem.buf))
      ensures hashedPkts == if phase.Hashing? then old(hashedPkts) + [p] else old(hashedPkts)
      ensures unhashedPkts == if phase.Hashing? then old(unhashedPkts) else old(unhashedPkts) + [p]
    {
      hide Area, LengthHeader, BigEndian, Header;
      ghost var was := mem.Contents();
      Assoc4(was, LengthHeader(|p.body| + 1), [p.kind], p.body);
      mem.Add(LengthHeader(|p.body| + 1));
      mem.Add([p.kind]);
      mem.Add(p.body);
      assert mem.Contents() == was + SubpacketOctets(p);
      if phase.Hashing? {
        AreaSnoc(hashedPkts, p);
        Assoc(Head() + [0, 0], Area(hashedPkts), SubpacketOctets(p));
        hashedPkts := hashedPkts + [p];
      } else {
        AreaSnoc(unhashedPkts, p);
        Assoc(Head() + BigEndian(hashlen, 2) + Area(hashedPkts) + [0, 0], Area(unhashedPkts), SubpacketOctets(p));
        unhashedPkts := unhashedPkts + [p];
      }
    }

    /** `pgp_sig_end_hashed_subpkts`: the first count is patched in. */
    method EndHashed()
      requires Valid() && phase.Hashing?
      modifies this`hashlen, this`unhashoff, this`phase, mem, mem.buf
      ensures Valid() && phase.Unhashing? && (mem.buf == old(mem.buf) || fresh(mem.buf))
    {
      hide Area, BigEndian, Header;
      ghost var area := Area(hashedPkts);
      hashlen := mem.length - hashoff - 2;
      assert |mem.Contents()| == mem.length;
      mem.PlaceInt(hashoff, hashlen, 2);
      PatchCount(Head(), [0, 0], area, BigEndian(hashlen, 2));
      unhashoff := mem.length;
      mem.Add([0, 0]);
      phase := Unhashing;
      EmptyArea();
      ghost var c := mem.Contents();
      assert c + [] == c;
    }

    /** `pgp_sig_write` around the signing primitive: close the second area, add the hashed part
        and the trailer to the digest, append what the primitive returns, and write the packet. */
    method Write(signature: Bytes) returns (ok: bool, out: Bytes)
      requires Valid() && mem.length + |signature| < 0x1_0000_0000
      modifies this`hash, mem, mem.buf
      ensures ok <==> phase.Unhashing?
      ensures ok ==>
                var body := SigBody(Head(), Area(hashedPkts), Area(unhashedPkts)) + signature;
                |body| < 0x1_0000_0000 && out == [TAG_SIGNATURE] + LengthHeader(|body|) + body
      ensures ok ==>
                var area := Area(hashedPkts);
                hash == old(hash) + (Head() + BigEndian(|area|, 2) + area + Trailer(|area| + 6))
    {
      hide Area, BigEndian, Header, Trailer, LengthHeader;
      if hashlen == -1 {
        return false, [];
      }
      ok := true;
      ghost var h, area, second := Head() + BigEndian(hashlen, 2), Area(hashedPkts), Area(unhashedPkts);
      ghost var was := mem.Contents();
      var len := mem.length;
      assert len == |was| == 6 + |area| + 2 + |second|;
      mem.PlaceInt(unhashoff, len - unhashoff - 2, 2);
      PatchCount(h + area, [0, 0], second, BigEndian(|second|, 2));
      assert mem.Contents() == SigBody(Head(), area, second);
      HashedPart(Head(), area, second);
      assert mem.buf[..unhashoff] == mem.Contents()[..unhashoff];
      Assoc(hash, h + area, Trailer(hashlen + 6));
      hash := hash + mem.buf[..unhashoff];
      hash := hash + Trailer(hashlen + 6);
      mem.Add(signature);
      out := [TAG_SIGNATURE] + LengthHeader(mem.length) + mem.buf[..mem.length];
      assert |mem.Contents()| == mem.length;
    }
  }

  lemma EmptyArea()
    ensures Area([]) == []
  {
  }

  lemma PatchCount(a: Bytes, count: Bytes, b: Bytes, patch: Bytes)
    requires |patch| == |count|
    ensures Patched(a + count + b, |a|, patch) == a + patch + b
  {
  }

  lemma HashedPart(head: Bytes, hashed: Bytes, unhashed: Bytes)
    requires |head| == 4
    ensures SigBody(head, hashed, unhashed)[..6 + |hashed|] == head + BigEndian(|hashed|, 2) + hashed
  {
    hide BigEndian;
    var front := head + BigEndian(|hashed|, 2) + hashed;
    Assoc(front, BigEndian(|unhashed|, 2), unhashed);
    PrefixAndRest(front, BigEndian(|unhashed|, 2) + unhashed);
  }

  // --- the verifier ---

  /** `limited_read_new_length` for a definite length. */
  function ReadSubpacketLength(s: Bytes): (r: Option<(nat, nat)>)
    ensures r.Some? ==> 1 <= r.value.1 <= |s|
  {
    match ReadLength(s)
    case Some((Final(size), used)) => Some((size, used))
    case _ => None
  }

  /** What `parse_one_sig_subpacket` makes of a type and a body: any checks are allowed. */
  type Checks = Subpacket -> bool

  predicate AllPass(ps: seq<Subpacket>, checks: Checks)
  {
    forall p <- ps :: checks(p)
  }

  /** `parse_sig_subpkts` on one area: every subpacket has a type octet, fits, and passes its checks. */
  function ParseArea(s: Bytes, checks: Checks): (r: Option<seq<Subpacket>>)
    decreases |s|
  {
    if s == [] then Some([])
    else
      match ReadSubpacketLength(s)
      case None => None
      case Some((len, used)) =>
        if len < 1 || used + len > |s| || !checks(Subpacket(s[used], s[used + 1..used + len])) then None
        else
          match ParseArea(s[used + len..], checks)
          case None => None
          case Some(more) => Some([Subpacket(s[used], s[used + 1..used + len])] + more)
  }

  datatype Parsed = Parsed(hashstart: nat, hashlen: nat, hashed: seq<Subpacket>, unhashed: seq<Subpacket>, rest: Bytes)

  /** `parse_v4_sig` on a raw packet, up to the octets of the signature itself.  The hashed part
      starts at the version octet. */
  function ParsePacket(raw: Bytes, checks: Checks): (r: Option<Parsed>)
    ensures r.Some? ==> 6 <= r.value.hashlen <= |raw| - r.value.hashstart
  {
    if raw == [] || raw[0] != TAG_SIGNATURE then None
    else
      match ReadLength(raw[1..])
      case None => None
      case Some((size, used)) =>
        var body := raw[1 + used..];
        if size.Partial? || |body| != size.size || |body| < 6 || body[0] != V4 then None
        else
          var n := FromBigEndian(body[4..6]);
          if |body| < 8 + n then None
          else
            var m := FromBigEndian(body[6 + n..8 + n]);
            if |body| < 8 + n + m then None
            else
              var hashed := ParseArea(body[6..6 + n], checks);
              var unhashed := ParseArea(body[8 + n..8 + n + m], checks);
              if hashed.None? || unhashed.None? then None
              else Some(Parsed(1 + used, 6 + n, hashed.value, unhashed.value, body[8 + n + m..]))
  }

  /** Where a parsed packet, whoever wrote it, holds what: tag, version 4, a count and the hashed area, a
      count and the other area, and the rest. */
  lemma ParsedInOctets(raw: Bytes, checks: Checks)
    requires ParsePacket(raw, checks).Some?
    ensures var p := ParsePacket(raw, checks).value;
            var end := p.hashstart + p.hashlen;
            raw[0] == 0xC2 && 2 <= p.hashstart && raw[p.hashstart] == 4 && end + 2 <= |raw|
            && p.hashlen == 6 + Pair(raw[p.hashstart + 4], raw[p.hashstart + 5])
            && Some(p.hashed) == ParseArea(raw[p.hashstart + 6..end], checks)
            && var m := Pair(raw[end], raw[end + 1]);
               end + 2 + m <= |raw| && Some(p.unhashed) == ParseArea(raw[end + 2..end + 2 + m], checks)
               && p.rest == raw[end + 2 + m..]
  {
    hide ReadLength, ParseArea, FromBigEndian;
    var used := ReadLength(raw[1..]).value.1;
    var body := raw[1 + used..];
    FromOctets(body[4..6]);
    var n := FromBigEndian(body[4..6]);
    FromOctets(body[6 + n..8 + n]);
    DropTwice(raw, 1 + used);
  }

  lemma DropTwice(s: Bytes, i: nat)
    requires i <= |s|
    ensures forall a, b :: 0 <= a <= b <= |s| - i ==> s[i..][a..b] == s[i + a..i + b]
    ensures forall a :: 0 <= a <= |s| - i ==> s[i..][a..] == s[i + a..]
  {
  }

  /** The digest input of `pgp_check_useridcert_sig`, `pgp_check_subkey_sig`, `pgp_check_direct_sig`
      and document verification: the prefix, the hashed part of the raw packet, the trailer. */
  function VerifierInput(signed: Signed, raw: Bytes, checks: Checks): (r: Option<Bytes>)
  {
    match ParsePacket(raw, checks)
    case None => None
    case Some(p) => Some(Prefix(signed) + raw[p.hashstart..p.hashstart + p.hashlen] + Trailer(p.hashlen))
  }

  // --- agreement ---

  lemma SubpacketReads(p: Subpacket, t: Bytes)
    requires Encodable(p)
    ensures var s := SubpacketOctets(p) + t;
            var h := |LengthHeader(|p.body| + 1)|;
            ReadSubpacketLength(s) == Some((|p.body| + 1, h)) && h + |p.body| + 1 <= |s|
            && s[h] == p.kind && s[h + 1..h + |p.body| + 1] == p.body && s[h + |p.body| + 1..] == t
  {
    var len := |p.body| + 1;
    var header := LengthHeader(len);
    var tail := [p.kind] + p.body + t;
    assert SubpacketOctets(p) + t == header + tail;
    LengthHeaderReads(len, tail);
    hide LengthHeader;
    var s := header + tail;
    assert s[|header|..] == tail;
    assert tail[0] == p.kind && tail[1..len] == p.body && tail[len..] == t;
    assert s[|header| + 1..|header| + len] == tail[1..len] && s[|header| + len..] == tail[len..];
  }

  lemma ParseFirst(p: Subpacket, t: Bytes, checks: Checks)
    requires Encodable(p)
    ensures ParseArea(SubpacketOctets(p) + t, checks)
            == if checks(p) && ParseArea(t, checks).Some? then Some([p] + ParseArea(t, checks).value) else None
  {
    hide LengthHeader, SubpacketOctets, ReadSubpacketLength;
    SubpacketReads(p, t);
  }

  /** An area re-parses to the subpackets that were added, if all of them pass the checks. */
  lemma {:induction false} AreaParses(ps: seq<Subpacket>, checks: Checks)
    requires AllEncodable(ps)
    ensures ParseArea(Area(ps), checks) == if AllPass(ps, checks) then Some(ps) else None
  {
    if ps == [] {
      EmptyArea();
    } else {
      hide SubpacketOctets, ParseArea, AllPass;
      ParseFirst(ps[0], Area(ps[1..]), checks);
      AreaParses(ps[1..], checks);
      PassFirst(ps, checks);
    }
  }

  lemma PassFirst(ps: seq<Subpacket>, checks: Checks)
    requires ps != []
    ensures ps == [ps[0]] + ps[1..] && (AllPass(ps, checks) <==> checks(ps[0]) && AllPass(ps[1..], checks))
  {
  }

  lemma CountValue(n: nat)
    ensures FromBigEndian(BigEndian(n, 2)) == n % 0x1_0000
  {
    BigEndianValue(n, 2);
    Pow256Values();
  }

  /** The pieces of a written body, as the parser cuts it. */
  lemma BodyPieces(head: Bytes, hashed: Bytes, unhashed: Bytes, sig: Bytes)
    requires |head| == 4
    ensures var body := SigBody(head, hashed, unhashed) + sig;
            var n, m := |hashed|, |unhashed|;
            |body| == 8 + n + m + |sig| && body[..4] == head && body[4..6] == BigEndian(n, 2)
            && body[6..6 + n] == hashed && body[6 + n..8 + n] == BigEndian(m, 2)
            && body[8 + n..8 + n + m] == unhashed && body[8 + n + m..] == sig
            && body[..6 + n] == head + BigEndian(n, 2) + hashed
  {
    hide BigEndian;
  }

  predicate Fits(hashed: seq<Subpacket>, unhashed: seq<Subpacket>)
    requires AllEncodable(hashed) && AllEncodable(unhashed)
  {
    |Area(hashed)| < 0x1_0000 && |Area(unhashed)| < 0x1_0000
  }

  /** A packet as `CreateSig.Write` leaves it. */
  function Packet(head: Bytes, hashed: seq<Subpacket>, unhashed: seq<Subpacket>, sig: Bytes): (r: Bytes)
    requires |head| == 4 && AllEncodable(hashed) && AllEncodable(unhashed)
    requires |SigBody(head, Area(hashed), Area(unhashed)) + sig| < 0x1_0000_0000
  {
    var body := SigBody(head, Area(hashed), Area(unhashed)) + sig;
    [TAG_SIGNATURE] + LengthHeader(|body|) + body
  }

  lemma PacketFrame(head: Bytes, hashed: seq<Subpacket>, unhashed: seq<Subpacket>, sig: Bytes)
    requires |head| == 4 && AllEncodable(hashed) && AllEncodable(unhashed)
    requires |SigBody(head, Area(hashed), Area(unhashed)) + sig| < 0x1_0000_0000
    ensures var body := SigBody(head, Area(hashed), Area(unhashed)) + sig;
            var raw := Packet(head, hashed, unhashed, sig);
            var used := |LengthHeader(|body|)|;
            raw[0] == TAG_SIGNATURE && ReadLength(raw[1..]) == Some((Final(|body|), used))
            && |raw| == 1 + used + |body| && raw[1 + used..] == body
  {
    hide SigBody, Area, ReadLength, LengthHeader;
    var body := SigBody(head, Area(hashed), Area(unhashed)) + sig;
    var raw := Packet(head, hashed, unhashed, sig);
    LengthHeaderReads(|body|, body);
    assert raw[1..] == LengthHeader(|body|) + body;
    MiddleAndRest([TAG_SIGNATURE], LengthHeader(|body|), body);
  }

  /** When both areas fit their 16-bit counts, the parser recovers every subpacket of both areas
      and the signature octets after them, or refuses one of the subpackets. */
  lemma PacketParses(head: Bytes, hashed: seq<Subpacket>, unhashed: seq<Subpacket>, sig: Bytes, checks: Checks)
    requires |head| == 4 && head[0] == V4 && AllEncodable(hashed) && AllEncodable(unhashed)
    requires |SigBody(head, Area(hashed), Area(unhashed)) + sig| < 0x1_0000_0000 && Fits(hashed, unhashed)
    ensures var raw := Packet(head, hashed, unhashed, sig);
            var start := |raw| - |SigBody(head, Area(hashed), Area(unhashed)) + sig|;
            ParsePacket(raw, checks)
            == if AllPass(hashed, checks) && AllPass(unhashed, checks)
               then Some(Parsed(start, 6 + |Area(hashed)|, hashed, unhashed, sig))
               else None
  {
    hide SigBody, Area, ReadLength, LengthHeader, Packet, BigEndian, FromBigEndian, ParseArea, AllPass;
    PacketFrame(head, hashed, unhashed, sig);
    BodyPieces(head, Area(hashed), Area(unhashed), sig);
    CountValue(|Area(hashed)|);
    CountValue(|Area(unhashed)|);
    AreaParses(hashed, checks);
    AreaParses(unhashed, checks);
    var body := SigBody(head, Area(hashed), Area(unhashed)) + sig;
    assert body[0] == body[..4][0];
  }

  /** Some of the subpackets, from the first on, take exactly `m` octets and pass the checks. */
  predicate OnBoundary(ps: seq<Subpacket>, m: nat, checks: Checks)
    requires AllEncodable(ps)
  {
    exists k: nat :: k <= |ps| && |Area(ps[..k])| == m && AllPass(ps[..k], checks)
  }

  lemma ReadLengthPrefix(s: Bytes, t: Bytes)
    requires ReadLength(s).Some?
    ensures ReadLength(s + t) == ReadLength(s)
  {
    if |s| >= 5 {
      assert (s + t)[1..5] == s[1..5];
    }
  }

  /** A subpacket cut off anywhere inside does not parse. */
  lemma CutSubpacket(p: Subpacket, m: nat, checks: Checks)
    requires Encodable(p) && 0 < m < |SubpacketOctets(p)|
    ensures ParseArea(SubpacketOctets(p)[..m], checks) == None
  {
    hide LengthHeader, SubpacketOctets, ReadLength;
    var o := SubpacketOctets(p);
    var s := o[..m];
    Join(o, m);
    SubpacketReads(p, []);
    assert o + [] == o;
    if ReadLength(s).Some? {
      ReadLengthPrefix(s, o[m..]);
    }
  }

  lemma BoundaryStep(ps: seq<Subpacket>, m: nat, checks: Checks)
    requires AllEncodable(ps) && ps != []
    ensures var o := |SubpacketOctets(ps[0])|;
            OnBoundary(ps, m, checks) <==> m == 0 || (m >= o && checks(ps[0]) && OnBoundary(ps[1..], m - o, checks))
  {
    hide SubpacketOctets;
    var o := |SubpacketOctets(ps[0])|;
    assert ps[..0] == [] && |Area(ps[..0])| == 0;
    forall k: nat | 1 <= k <= |ps|
      ensures |Area(ps[..k])| == o + |Area(ps[1..][..k - 1])|
      ensures AllPass(ps[..k], checks) <==> checks(ps[0]) && AllPass(ps[1..][..k - 1], checks)
    {
      assert ps[..k][1..] == ps[1..][..k - 1];
      assert ps[..k] == [ps[0]] + ps[1..][..k - 1];
    }
    if m >= o && checks(ps[0]) && OnBoundary(ps[1..], m - o, checks) {
      var k: nat :| k <= |ps[1..]| && |Area(ps[1..][..k])| == m - o && AllPass(ps[1..][..k], checks);
      assert |Area(ps[..k + 1])| == m;
    }
    if OnBoundary(ps, m, checks) && m > 0 {
      var k: nat :| k <= |ps| && |Area(ps[..k])| == m && AllPass(ps[..k], checks);
      assert |Area(ps[1..][..k - 1])| == m - o;
    }
  }

  /** The first `m` octets of an area parse if and only if they are whole subpackets that pass. */
  lemma {:induction false} PrefixParses(ps: seq<Subpacket>, m: nat, checks: Checks)
    requires AllEncodable(ps) && m <= |Area(ps)|
    ensures ParseArea(Area(ps)[..m], checks).Some? <==> OnBoundary(ps, m, checks)
  {
    hide SubpacketOctets, OnBoundary, ParseArea;
    if m == 0 {
      EmptyParses(ps, checks);
    } else {
      var o, tail := SubpacketOctets(ps[0]), Area(ps[1..]);
      BoundaryStep(ps, m, checks);
      if m < |o| {
        assert Area(ps)[..m] == o[..m];
        CutSubpacket(ps[0], m, checks);
      } else {
        assert Area(ps)[..m] == o + tail[..m - |o|];
        ParseFirst(ps[0], tail[..m - |o|], checks);
        PrefixParses(ps[1..], m - |o|, checks);
      }
    }
  }

  lemma EmptyParses(ps: seq<Subpacket>, checks: Checks)
    requires AllEncodable(ps)
    ensures Area(ps)[..0] == [] && ParseArea([], checks) == Some([]) && OnBoundary(ps, 0, checks)
  {
    assert ps[..0] == [] && |Area(ps[..0])| == 0;
  }

  /** With a hashed area that fits its count a packet parses if and only if the hashed subpackets pass
      the checks and the unhashed area, cut to what its count says, is whole subpackets that do; and
      then the hashed part is found. */
  lemma PacketReads(head: Bytes, hashed: seq<Subpacket>, unhashed: seq<Subpacket>, sig: Bytes, checks: Checks)
    requires |head| == 4 && head[0] == V4 && AllEncodable(hashed) && AllEncodable(unhashed)
    requires |Area(hashed)| < 0x1_0000 && |SigBody(head, Area(hashed), Area(unhashed)) + sig| < 0x1_0000_0000
    ensures var raw := Packet(head, hashed, unhashed, sig);
            var p := ParsePacket(raw, checks);
            (p.Some? <==> AllPass(hashed, checks) && OnBoundary(unhashed, |Area(unhashed)| % 0x1_0000, checks))
            && (p.Some? ==>
                  p.value.hashstart == |raw| - |SigBody(head, Area(hashed), Area(unhashed)) + sig|
                  && p.value.hashlen == 6 + |Area(hashed)| && p.value.hashed == hashed)
  {
    hide SigBody, Area, ReadLength, LengthHeader, BigEndian, FromBigEndian, ParseArea, Packet, OnBoundary, AllPass;
    PacketFrame(head, hashed, unhashed, sig);
    BodyPieces(head, Area(hashed), Area(unhashed), sig);
    CountValue(|Area(hashed)|);
    CountValue(|Area(unhashed)|);
    AreaParses(hashed, checks);
    var u, n := Area(unhashed), |Area(hashed)|;
    var m := |u| % 0x1_0000;
    PrefixParses(unhashed, m, checks);
    var body := SigBody(head, Area(hashed), u) + sig;
    assert body[0] == body[..4][0];
    assert body[8 + n..8 + n + m] == body[8 + n..8 + n + |u|][..m];
  }

  /** A verifier can compute what the signer hashed: the hashed area fits its 16-bit count, the
      unhashed area, cut to its own count, is whole subpackets, and what is read passes the checks. */
  predicate Verifiable(hashed: seq<Subpacket>, unhashed: seq<Subpacket>, checks: Checks)
    requires AllEncodable(hashed) && AllEncodable(unhashed)
  {
    |Area(hashed)| < 0x1_0000 && AllPass(hashed, checks)
    && OnBoundary(unhashed, |Area(unhashed)| % 0x1_0000, checks)
  }

  lemma ShortAreasVerify(hashed: seq<Subpacket>, unhashed: seq<Subpacket>, checks: Checks)
    requires AllEncodable(hashed) && AllEncodable(unhashed) && Fits(hashed, unhashed)
    requires AllPass(hashed, checks) && AllPass(unhashed, checks)
    ensures Verifiable(hashed, unhashed, checks)
  {
    assert unhashed[..|unhashed|] == unhashed && |Area(unhashed[..|unhashed|])| == |Area(unhashed)| % 0x1_0000;
  }

  /** The signer's and the verifier's digest inputs are the same octets in exactly that case. */
  lemma DigestsAgree(signed: Signed, head: Bytes, hashed: seq<Subpacket>, unhashed: seq<Subpacket>, sig: Bytes,
                     checks: Checks)
    requires |head| == 4 && head[0] == V4 && AllEncodable(hashed) && AllEncodable(unhashed)
    requires |SigBody(head, Area(hashed), Area(unhashed)) + sig| < 0x1_0000_0000
    ensures var area := Area(hashed);
            VerifierInput(signed, Packet(head, hashed, unhashed, sig), checks)
            == Some(Prefix(signed) + (head + BigEndian(|area|, 2) + area + Trailer(|area| + 6)))
            <==> Verifiable(hashed, unhashed, checks)
  {
    hide SigBody, Area, ReadLength, LengthHeader, Packet, BigEndian, Prefix, ParsePacket, Trailer, OnBoundary, AllPass;
    var raw := Packet(head, hashed, unhashed, sig);
    var area := Area(hashed);
    PacketFrame(head, hashed, unhashed, sig);
    BodyPieces(head, area, Area(unhashed), sig);
    if |area| < 0x1_0000 {
      PacketReads(head, hashed, unhashed, sig, checks);
      var body := SigBody(head, area, Area(unhashed)) + sig;
      var start := |raw| - |body|;
      assert raw[start..][..6 + |area|] == raw[start..start + 6 + |area|];
      Assoc(Prefix(signed), head + BigEndian(|area|, 2) + area, Trailer(|area| + 6));
    } else if ParsePacket(raw, checks).Some? {
      TruncatedCount(head, hashed, unhashed, sig, checks);
      var p := ParsePacket(raw, checks).value;
      var got := Prefix(signed) + raw[p.hashstart..p.hashstart + p.hashlen] + Trailer(p.hashlen);
      var want := Prefix(signed) + (head + BigEndian(|area|, 2) + area + Trailer(|area| + 6));
      assert |got| < |want|;
    }
  }

  /** An area too long for its count is cut short by the parser. */
  lemma TruncatedCount(head: Bytes, hashed: seq<Subpacket>, unhashed: seq<Subpacket>, sig: Bytes, checks: Checks)
    requires |head| == 4 && AllEncodable(hashed) && AllEncodable(unhashed)
    requires |SigBody(head, Area(hashed), Area(unhashed)) + sig| < 0x1_0000_0000
    requires |Area(hashed)| >= 0x1_0000 && ParsePacket(Packet(head, hashed, unhashed, sig), checks).Some?
    ensures ParsePacket(Packet(head, hashed, unhashed, sig), checks).value.hashlen < 6 + |Area(hashed)|
  {
    hide SigBody, Area, ReadLength, LengthHeader, Packet, BigEndian, FromBigEndian, ParseArea;
    PacketFrame(head, hashed, unhashed, sig);
    BodyPieces(head, Area(hashed), Area(unhashed), sig);
    CountValue(|Area(hashed)|);
  }

  // --- the digest input, octet by octet ---

  /** `hash_add_key` and the rest of what is hashed before a signature's own octets. */
  function SignedOctets(s: Signed): (r: Bytes)
  {
    match s
    case Document(data) => data
    case UserId(key, id) => [0x99] + Big2(|key|) + key + [0xB4] + Big4(|id|) + id
    case Subkey(key, subkey) => [0x99] + Big2(|key|) + key + [0x99] + Big2(|subkey|) + subkey
    case Direct(key) => [0x99] + Big2(|key|) + key
  }

  lemma PrefixInOctets(s: Signed)
    ensures Prefix(s) == SignedOctets(s)
  {
    hide BigEndian, Big2, Big4;
    match s
    case Document(_) =>
    case UserId(key, id) =>
      InOctets(|key|);
      InOctets(|id|);
    case Subkey(key, subkey) =>
      InOctets(|key|);
      InOctets(|subkey|);
      Assoc4([0x99] + Big2(|key|) + key, [0x99], Big2(|subkey|), subkey);
    case Direct(key) =>
      InOctets(|key|);
  }

  /** The digest input and the packet of a signature with these two areas. */
  predicate SignatureOctets(signed: Signed, head: Bytes, hashed: Bytes, unhashed: Bytes, sig: Bytes, input: Bytes,
                            raw: Bytes)
  {
    var size := 8 + |hashed| + |unhashed| + |sig|;
    size < 0x1_0000_0000
    && input == SignedOctets(signed) + (head + Big2(|hashed|) + hashed + ([4, 0xFF] + Big4(|hashed| + 6)))
    && raw == [0xC2] + LengthHeader(size) + (head + Big2(|hashed|) + hashed + Big2(|unhashed|) + unhashed + sig)
  }

  lemma InputInOctets(signed: Signed, head: Bytes, hashed: Bytes, unhashed: Bytes, sig: Bytes)
    requires |head| == 4 && 8 + |hashed| + |unhashed| + |sig| < 0x1_0000_0000
    ensures var body := SigBody(head, hashed, unhashed) + sig;
            |body| < 0x1_0000_0000
            && SignatureOctets(signed, head, hashed, unhashed, sig,
                               Prefix(signed) + (head + BigEndian(|hashed|, 2) + hashed + Trailer(|hashed| + 6)),
                               [TAG_SIGNATURE] + LengthHeader(|body|) + body)
  {
    hide BigEndian, Big2, Big4, LengthHeader, Prefix, SignedOctets;
    PrefixInOctets(signed);
    InOctets(|hashed|);
    InOctets(|unhashed|);
    InOctets(|hashed| + 6);
  }

  lemma CountedSame(a: Bytes, x: Bytes, b: Bytes, y: Bytes)
    requires |a| < 0x1_0000 && |b| < 0x1_0000 && HashedKey(a) + x == HashedKey(b) + y
    ensures a == b && x == y
  {
    hide BigEndian;
    Assoc([0x99] + BigEndian(|a|, 2), a, x);
    Assoc([0x99] + BigEndian(|b|, 2), b, y);
    SameAfter([0x99] + BigEndian(|a|, 2), a + x, [0x99] + BigEndian(|b|, 2), b + y);
    assert BigEndian(|a|, 2) == ([0x99] + BigEndian(|a|, 2))[1..];
    assert BigEndian(|b|, 2) == ([0x99] + BigEndian(|b|, 2))[1..];
    CountValue(|a|);
    CountValue(|b|);
    SameAfter(a, x, b, y);
  }

  lemma SameAfter(a: Bytes, x: Bytes, b: Bytes, y: Bytes)
    requires |a| == |b| && a + x == b + y
    ensures a == b && x == y
  {
    PrefixAndRest(a, x);
    PrefixAndRest(b, y);
  }

  lemma PrefixTells(s: Signed, x: Bytes, s': Signed, x': Bytes)
    requires SameCase(s, s') && Prefix(s) + x == Prefix(s') + x'
    ensures s == s'
  {
    hide HashedKey, BigEndian;
    match s
    case UserId(key, id) =>
      IdAfterKey(key, id, x);
      IdAfterKey(s'.key, s'.id, x');
      CountedSame(key, [0xb4] + (BigEndian(|id|, 4) + (id + x)), s'.key,
                  [0xb4] + (BigEndian(|s'.id|, 4) + (s'.id + x')));
      SameAfter([0xb4], BigEndian(|id|, 4) + (id + x), [0xb4], BigEndian(|s'.id|, 4) + (s'.id + x'));
      SameAfter(BigEndian(|id|, 4), id + x, BigEndian(|s'.id|, 4), s'.id + x');
      BigEndianValue(|id|, 4);
      BigEndianValue(|s'.id|, 4);
      Pow256Values();
      SameAfter(id, x, s'.id, x');
    case Subkey(key, subkey) =>
      Assoc(HashedKey(key), HashedKey(subkey), x);
      Assoc(HashedKey(s'.key), HashedKey(s'.subkey), x');
      CountedSame(key, HashedKey(subkey) + x, s'.key, HashedKey(s'.subkey) + x');
      CountedSame(subkey, x, s'.subkey, x');
    case Direct(key) =>
      CountedSame(key, x, s'.key, x');
  }

  lemma IdAfterKey(key: Bytes, id: Bytes, x: Bytes)
    ensures HashedKey(key) + [0xb4] + BigEndian(|id|, 4) + id + x
            == HashedKey(key) + ([0xb4] + (BigEndian(|id|, 4) + (id + x)))
  {
    hide HashedKey, BigEndian;
    var front, count := HashedKey(key), BigEndian(|id|, 4);
    Assoc(front + [0xb4] + count, id, x);
    Assoc(front + [0xb4], count, id + x);
    Assoc(front, [0xb4], count + (id + x));
  }

  /** Two things of one kind, with bodies that their two-octet counts can say. */
  predicate SameCase(s: Signed, s': Signed)
  {
    (s.UserId? && s'.UserId? && |s.key| < 0x1_0000 && |s'.key| < 0x1_0000
     && |s.id| < 0x1_0000_0000 && |s'.id| < 0x1_0000_0000)
    || (s.Subkey? && s'.Subkey? && |s.key| < 0x1_0000 && |s'.key| < 0x1_0000
        && |s.subkey| < 0x1_0000 && |s'.subkey| < 0x1_0000)
    || (s.Direct? && s'.Direct? && |s.key| < 0x1_0000 && |s'.key| < 0x1_0000)
  }

  /** One digest input belongs to one key, one user id, one subkey: whatever the two packets are, a
      verifier computes the same octets for two things of a kind only if they are the same. */
  lemma InputTells(s: Signed, raw: Bytes, s': Signed, raw': Bytes, checks: Checks)
    requires SameCase(s, s')
    requires VerifierInput(s, raw, checks).Some? && VerifierInput(s, raw, checks) == VerifierInput(s', raw', checks)
    ensures s == s'
  {
    hide Prefix, ParsePacket, Trailer, SameCase;
    var p, p' := ParsePacket(raw, checks).value, ParsePacket(raw', checks).value;
    var x, x' := raw[p.hashstart..p.hashstart + p.hashlen], raw'[p'.hashstart..p'.hashstart + p'.hashlen];
    Assoc(Prefix(s), x, Trailer(p.hashlen));
    Assoc(Prefix(s'), x', Trailer(p'.hashlen));
    PrefixTells(s, x + Trailer(p.hashlen), s', x' + Trailer(p'.hashlen));
  }

  /** The same for the signer: two sessions that hash the same octets signed the same thing. */
  lemma DigestTells(s: Signed, head: Bytes, area: Bytes, s': Signed, head': Bytes, area': Bytes, input: Bytes)
    requires SameCase(s, s')
    requires input == SignedOctets(s) + (head + Big2(|area|) + area + ([4, 0xFF] + Big4(|area| + 6)))
    requires input == SignedOctets(s') + (head' + Big2(|area'|) + area' + ([4, 0xFF] + Big4(|area'| + 6)))
    ensures s == s'
  {
    hide Prefix, SignedOctets, Big2, Big4, SameCase;
    PrefixInOctets(s);
    PrefixInOctets(s');
    PrefixTells(s, head + Big2(|area|) + area + ([4, 0xFF] + Big4(|area| + 6)), s',
                head' + Big2(|area'|) + area' + ([4, 0xFF] + Big4(|area'| + 6)));
  }

  /** A whole signing session, a document coming in any pieces.  The digest input is what a verifier
      computes from the packet exactly in the case above; and when both areas fit their counts the
      packet carries the subpackets added before and after the hashed area was closed. */
  method SignSession(signed: Signed, pieces: seq<Bytes>, kind: Octet, keyAlg: Octet, hashAlg: Octet,
                     hashed: seq<Subpacket>, unhashed: seq<Subpacket>, sig: Bytes, ghost checks: Checks)
    returns (digestInput: Bytes, raw: Bytes)
    requires if signed.Document? then signed.data == Flatten(pieces) else pieces == []
    requires AllEncodable(hashed) && AllEncodable(unhashed)
    requires 8 + |Area(hashed)| + |Area(unhashed)| + |sig| < 0x1_0000_0000
    ensures VerifierInput(signed, raw, checks) == Some(digestInput) <==> Verifiable(hashed, unhashed, checks)
    ensures Fits(hashed, unhashed) && AllPass(hashed, checks) && AllPass(unhashed, checks) ==>
              ParsePacket(raw, checks).Some? && ParsePacket(raw, checks).value.hashed == hashed
              && ParsePacket(raw, checks).value.unhashed == unhashed && ParsePacket(raw, checks).value.rest == sig
    ensures SignatureOctets(signed, [4, kind, keyAlg, hashAlg], Area(hashed), Area(unhashed), sig, digestInput, raw)
  {
    hide SignatureOctets;
    hide Area, BigEndian, LengthHeader, Trailer, Prefix, Started, ParsePacket, VerifierInput, Verifiable, SigBody;
    var b := new CreateSig(signed, kind, keyAlg, hashAlg);
    HashPieces(b, signed, pieces);
    AddSubpackets(b, hashed);
    b.EndHashed();
    AddSubpackets(b, unhashed);
    assert [] + hashed == hashed && hashed + [] == hashed && [] + unhashed == unhashed;
    digestInput, raw := Sign(b, signed, hashed, unhashed, sig, checks);
  }

  /** The packet and the digest input of a builder that has everything. */
  method Sign(b: CreateSig, signed: Signed, ghost hashed: seq<Subpacket>, ghost unhashed: seq<Subpacket>, sig: Bytes,
              ghost checks: Checks)
    returns (digestInput: Bytes, raw: Bytes)
    requires b.Valid() && b.phase.Unhashing? && b.hash == Prefix(signed)
    requires b.hashedPkts == hashed && b.unhashedPkts == unhashed
    requires 8 + |Area(hashed)| + |Area(unhashed)| + |sig| < 0x1_0000_0000
    modifies b`hash, b.mem, b.mem.buf
    ensures VerifierInput(signed, raw, checks) == Some(digestInput) <==> Verifiable(hashed, unhashed, checks)
    ensures Fits(hashed, unhashed) && AllPass(hashed, checks) && AllPass(unhashed, checks) ==>
              ParsePacket(raw, checks).Some? && ParsePacket(raw, checks).value.hashed == hashed
              && ParsePacket(raw, checks).value.unhashed == unhashed && ParsePacket(raw, checks).value.rest == sig
    ensures SignatureOctets(signed, [4, b.kind, b.keyAlg, b.hashAlg], Area(hashed), Area(unhashed), sig,
                            digestInput, raw)
  {
    hide Area, BigEndian, LengthHeader, Trailer, Prefix, ParsePacket, VerifierInput, Verifiable, SigBody, AllPass;
    hide SignatureOctets;
    assert |b.mem.Contents()| == b.mem.length == 8 + |Area(hashed)| + |Area(unhashed)|;
    var ok;
    ok, raw := b.Write(sig);
    digestInput := b.hash;
    assert raw == Packet(b.Head(), hashed, unhashed, sig);
    InputInOctets(signed, b.Head(), Area(hashed), Area(unhashed), sig);
    DigestsAgree(signed, b.Head(), hashed, unhashed, sig, checks);
    if Fits(hashed, unhashed) {
      PacketParses(b.Head(), hashed, unhashed, sig, checks);
    }
  }

  /** `pgp_sig_add_data` on each piece of a document. */
  method HashPieces(b: CreateSig, signed: Signed, pieces: seq<Bytes>)
    requires b.Valid() && b.hash == Started(signed)
    requires if signed.Document? then signed.data == Flatten(pieces) else pieces == []
    modifies b`hash
    ensures b.Valid() && b.hash == Prefix(signed)
  {
    hide HashedKey;
    for i := 0 to |pieces|
      invariant b.Valid() && b.hash == Started(signed) + Flatten(pieces[..i])
    {
      TakeSnoc(pieces, i);
      Assoc(Started(signed), Flatten(pieces[..i]), pieces[i]);
      b.AddData(pieces[i]);
    }
    assert pieces[..|pieces|] == pieces;
    assert [] + Flatten(pieces) == Flatten(pieces) && Started(signed) + [] == Started(signed);
  }

  /** Subpackets into the area that is open. */
  method AddSubpackets(b: CreateSig, ps: seq<Subpacket>)
    requires b.Valid() && AllEncodable(ps)
    modifies b`hashedPkts, b`unhashedPkts, b.mem, b.mem.buf
    ensures b.Valid() && (b.mem.buf == old(b.mem.buf) || fresh(b.mem.buf))
    ensures b.hashedPkts == old(b.hashedPkts) + if b.phase.Hashing? then ps else []
    ensures b.unhashedPkts == old(b.unhashedPkts) + if b.phase.Hashing? then [] else ps
  {
    hide Area, BigEndian;
    ghost var h, u := b.hashedPkts, b.unhashedPkts;
    assert h + [] == h && u + [] == u;
    for i := 0 to |ps|
      invariant b.Valid() && (b.mem.buf == old(b.mem.buf) || fresh(b.mem.buf))
      invariant b.hashedPkts == h + if b.phase.Hashing? then ps[..i] else []
      invariant b.unhashedPkts == u + if b.phase.Hashing? then [] else ps[..i]
    {
      TakeSnoc(ps, i);
      Assoc(h, ps[..i], [ps[i]]);
      Assoc(u, ps[..i], [ps[i]]);
      b.AddSubpacket(ps[i]);
    }
    assert ps[..|ps|] == ps;
  }
}
