/** The encrypting writers of src/lib/writer.c: literal data framed inside a Symmetrically
    Encrypted Integrity Protected Data packet, in one piece or as a stream of partial chunks. */
module SeIp {
  import opened Octets
  import opened Framing
  import opened Cfb

  /** SHA-1: octet `i` of the digest of a string.  Any function is allowed. */
  type Sha1 = (Bytes, nat) -> Octet

  function Digest(h: Sha1, s: Bytes): (r: Bytes)
    ensures |r| == 20
  {
    seq(20, (i: nat) => h(s, i))
  }

  const TAG_LITDATA: Octet := 0xCB // 11 | 0x80 | 0x40
  const TAG_SE_IP: Octet := 0xD2 // 18 | 0x80 | 0x40
  const SE_IP_VERSION: Octet := 1
  const LDT_BINARY: Octet := 0x62
  const MDC_HEADER: Bytes := [0xD3, 20]

  // --- the receiver (sections 4.2, 5.9, 5.13 and 5.14 of RFC 4880) ---

  function ReadPacket(tag: Octet, s: Bytes): (r: Option<(Bytes, Bytes)>)
  {
    if s == [] || s[0] != tag then None else ReadBody(s[1..])
  }

  datatype Literal = Literal(kind: Octet, name: Bytes, mtime: Bytes, data: Bytes)

  function ParseLiteral(body: Bytes): (r: Option<Literal>)
  {
    if |body| < 2 then None
    else
      var n: int := body[1];
      if |body| < 6 + n then None
      else Some(Literal(body[0], body[2..2 + n], body[2 + n..6 + n], body[6 + n..]))
  }

  function ZeroState(c: Cipher): (r: CfbState)
    ensures c.blsize == 8 || c.blsize == 16 ==> ValidState(c, r)
  {
    CfbState(seq(c.blsize, _ => 0), 0)
  }

  /** The random prefix, whose last two octets repeat the two before them. */
  predicate ValidPreamble(c: Cipher, p: Bytes)
  {
    c.blsize >= 2 && |p| == c.blsize + 2 &&
    p[c.blsize] == p[c.blsize - 2] && p[c.blsize + 1] == p[c.blsize - 1]
  }

  function Mdc(h: Sha1, s: Bytes): (r: Bytes)
    ensures |r| == 22
  {
    MDC_HEADER + Digest(h, s + MDC_HEADER)
  }

  /** Decrypt from the zero register, check the prefix and the modification detection code. */
  function Open(c: Cipher, h: Sha1, ct: Bytes): (r: Option<Bytes>)
    requires c.blsize == 8 || c.blsize == 16
  {
    var plain := Cfb.Cfb(c, Decrypting, ZeroState(c), ct).out;
    var n := |plain| - 22;
    if n < c.blsize + 2 then None
    else if !ValidPreamble(c, plain[..c.blsize + 2]) || plain[n..] != Mdc(h, plain[..n]) then None
    else Some(plain[c.blsize + 2..n])
  }

  /** The decrypted part of a message: one literal packet and nothing after it. */
  function ReadInner(inner: Bytes): (r: Option<Literal>)
  {
    match ReadPacket(TAG_LITDATA, inner)
    case None => None
    case Some((lit, rest)) => if rest != [] then None else ParseLiteral(lit)
  }

  /** A whole message: outer packet, decryption, inner packet, literal. */
  function Receive(c: Cipher, h: Sha1, s: Bytes): (r: Option<Literal>)
    requires c.blsize == 8 || c.blsize == 16
  {
    match ReadPacket(TAG_SE_IP, s)
    case None => None
    case Some((body, after)) =>
      if after != [] || body == [] || body[0] != SE_IP_VERSION then None
      else
        match Open(c, h, body[1..])
        case None => None
        case Some(inner) => ReadInner(inner)
  }

  // --- sealing ---

  /** The plaintext of a packet: prefix, data, and the code computed over both. */
  function SeIpPlain(h: Sha1, preamble: Bytes, data: Bytes): (r: Bytes)
  {
    preamble + data + Mdc(h, preamble + data)
  }

  function Sealed(c: Cipher, h: Sha1, preamble: Bytes, data: Bytes): (r: Bytes)
    requires c.blsize == 8 || c.blsize == 16
  {
    Cfb.Cfb(c, Encrypting, ZeroState(c), SeIpPlain(h, preamble, data)).out
  }

  lemma OpenSealed(c: Cipher, h: Sha1, preamble: Bytes, data: Bytes)
    requires c.blsize == 8 || c.blsize == 16
    requires ValidPreamble(c, preamble)
    ensures Open(c, h, Sealed(c, h, preamble, data)) == Some(data)
  {
    hide Cfb.Cfb, Digest;
    var plain := SeIpPlain(h, preamble, data);
    DecryptInverts(c, ZeroState(c), plain);
    var m := Mdc(h, preamble + data);
    PrefixAndRest(preamble + data, m);
    assert plain[..c.blsize + 2] == preamble;
    assert plain[c.blsize + 2..|plain| - 22] == data;
  }

  /** A length cast to 32 bits. */
  function Low(s: Bytes): (r: Bytes)
    ensures |r| == |s| % 0x1_0000_0000
  {
    RemainderBelow(|s|);
    s[..|s| % 0x1_0000_0000]
  }

  function LiteralBody(name: Bytes, mtime: nat, data: Bytes): (r: Bytes)
    requires |name| <= 255
  {
    [LDT_BINARY, |name|] + name + BigEndian(mtime, 4) + data
  }

  lemma ParseLiteralBody(name: Bytes, mtime: nat, data: Bytes)
    requires |name| <= 255
    ensures ParseLiteral(LiteralBody(name, mtime, data))
            == Some(Literal(LDT_BINARY, name, BigEndian(mtime, 4), data))
  {
    hide BigEndian;
    var body := LiteralBody(name, mtime, data);
    var n := |name|;
    assert body[2..2 + n] == name;
    assert body[2 + n..6 + n] == BigEndian(mtime, 4);
    assert body[6 + n..] == data;
  }

  /** What a receiver makes of a correctly framed and sealed inner packet. */
  lemma ReceiveSealed(c: Cipher, h: Sha1, s: Bytes, preamble: Bytes, inner: Bytes)
    requires c.blsize == 8 || c.blsize == 16
    requires ValidPreamble(c, preamble)
    requires ReadPacket(TAG_SE_IP, s) == Some(([SE_IP_VERSION] + Sealed(c, h, preamble, inner), []))
    ensures Receive(c, h, s) == ReadInner(inner)
  {
    hide ReadPacket, Open, Sealed, ReadInner;
    OpenSealed(c, h, preamble, inner);
    var ct := Sealed(c, h, preamble, inner);
    assert ([SE_IP_VERSION] + ct)[1..] == ct;
  }

  lemma ReadInnerLiteral(inner: Bytes, name: Bytes, mtime: nat, data: Bytes)
    requires |name| <= 255
    requires ReadPacket(TAG_LITDATA, inner) == Some((LiteralBody(name, mtime, data), []))
    ensures ReadInner(inner) == Some(Literal(LDT_BINARY, name, BigEndian(mtime, 4), data))
  {
    hide ReadPacket, LiteralBody, ParseLiteral, BigEndian;
    ParseLiteralBody(name, mtime, data);
  }

  // --- the writers ---

  const UINT_RANGE: nat := 0x1_0000_0000

  /** What the cipher is fed: the index into the buffer is a 32-bit unsigned. */
  function Fed(src: Bytes): (r: Bytes)
    ensures |r| == |src|
  {
    seq(|src|, i requires 0 <= i < |src| => src[i % UINT_RANGE])
  }

  lemma FedInOrder(src: Bytes)
    ensures |src| <= UINT_RANGE ==> Fed(src) == src
  {
    if |src| <= UINT_RANGE {
      assert forall i :: 0 <= i < |src| ==> i % UINT_RANGE == i;
    }
  }

  /** Every buffer of `n` octets is encrypted as it is exactly when `n` is at most 2^32; one octet
      more and the first one is taken again. */
  lemma FedExactly(n: nat)
    ensures (forall src: Bytes | |src| == n :: Fed(src) == src) <==> n <= UINT_RANGE
  {
    if n <= UINT_RANGE {
      forall src: Bytes | |src| == n
        ensures Fed(src) == src
      {
        FedInOrder(src);
      }
    } else {
      var src: Bytes := seq(n, i requires 0 <= i < n => if i < UINT_RANGE then 0 else 1);
      assert Fed(src)[UINT_RANGE] == 0 && src[UINT_RANGE] == 1;
      assert |src| == n && Fed(src) != src;
    }
  }

  lemma FedSlice(src: Bytes, k: nat, at: nat, size: nat)
    requires at + size <= UINT_RANGE && UINT_RANGE * k + at + size <= |src|
    ensures var done := UINT_RANGE * k + at;
            at + size <= |src| && Fed(src)[done..done + size] == src[at..at + size]
  {
    hide Fed;
    var done := UINT_RANGE * k + at;
    forall j | done <= j < done + size
      ensures Fed(src)[j] == src[j - done + at]
    {
      RemainderUnique(j, UINT_RANGE, k, j - done + at);
      FedAt(src, j);
    }
  }

  lemma FedAt(src: Bytes, i: nat)
    requires i < |src|
    ensures i % UINT_RANGE < |src| && Fed(src)[i] == src[i % UINT_RANGE]
  {
  }

  /** `encrypt_writer`: the cipher object is fed 1024 octets at a time. */
  method EncryptWriter(crypt: PgpCrypt, src: Bytes) returns (out: Bytes)
    requires crypt.Valid()
    modifies crypt`remaining, crypt.iv
    ensures crypt.Valid()
    ensures Cfb.Cfb(crypt.cipher, Encrypting, old(crypt.State()), Fed(src)) == CfbRun(crypt.State(), out)
    ensures |src| <= UINT_RANGE ==>
              Cfb.Cfb(crypt.cipher, Encrypting, old(crypt.State()), src) == CfbRun(crypt.State(), out)
  {
    hide Cfb.Cfb, Fed;
    var encbuf := new Octet[1024];
    var remaining: nat, done: nat := |src|, 0;
    ghost var wraps: nat, taken: nat := 0, 0;
    ghost var fed, st0 := Fed(src), crypt.State();
    out := [];
    CfbEmpty(crypt.cipher, Encrypting, st0);
    while remaining > 0
      invariant remaining + taken == |src| && crypt.Valid() && taken == UINT_RANGE * wraps + done
      invariant done < UINT_RANGE && (remaining > 0 ==> done % 1024 == 0)
      invariant Cfb.Cfb(crypt.cipher, Encrypting, st0, fed[..taken]) == CfbRun(crypt.State(), out)
    {
      var size := if remaining < 1024 then remaining else 1024;
      FedSlice(src, wraps, done, size);
      CfbExtend(crypt.cipher, Encrypting, st0, fed, taken, taken + size);
      var y := EncryptPiece(crypt, encbuf, src[done..done + size]);
      out := out + y;
      remaining, taken := remaining - size, taken + size;
      done := done + size;
      if done == UINT_RANGE { // the unsigned sum wraps
        done, wraps := 0, wraps + 1;
      }
    }
    assert fed[..taken] == fed;
    FedInOrder(src);
  }

  /** One turn of that loop: a piece through the buffer. */
  method EncryptPiece(crypt: PgpCrypt, encbuf: array<Octet>, piece: Bytes) returns (y: Bytes)
    requires crypt.Valid() && |piece| <= encbuf.Length == 1024 && encbuf != crypt.iv
    modifies crypt`remaining, crypt.iv, encbuf
    ensures crypt.Valid()
    ensures Cfb.Cfb(crypt.cipher, Encrypting, old(crypt.State()), piece) == CfbRun(crypt.State(), y)
  {
    hide Cfb.Cfb;
    Store(encbuf, 0, piece);
    assert encbuf[..|piece|] == piece;
    crypt.Crypt(Encrypting, encbuf, encbuf, |piece|);
    y := encbuf[..|piece|];
  }

  // --- the first literal chunk ---

  /** How many octets `stream_write_litdata_first` takes, from its buffer and past it, for a file
      name of `flen` octets and a buffer of `len`: the first chunk takes `sz_pd - 6`, the rest goes
      through a 32-bit cast. */
  function LitdataConsumed(flen: nat, len: nat): (r: nat)
    requires len >= 512
    ensures 506 <= Pow2(PartialExponent(6 + flen + len)) - 6 <= r <= len + flen
  {
    hide Pow2, PartialExponent;
    FirstChunkSize(6 + flen + len);
    var towrite, pd := 1 + 1 + flen + 4 + len, Pow2(PartialExponent(6 + flen + len));
    RemainderBelow(towrite - pd);
    pd - 6 + (towrite - pd) % UINT_RANGE
  }

  lemma RemainderBelow(n: nat)
    ensures 0 <= n % UINT_RANGE <= n
  {
  }

  /** It takes exactly its buffer if and only if there is no file name and the cast loses nothing. */
  lemma LitdataConsumedExactly(flen: nat, len: nat)
    requires len >= 512 && flen <= 255
    ensures LitdataConsumed(flen, len) == len <==> flen == 0 && len + 6 < 0x1_4000_0000
    ensures flen + len + 6 < 0x1_4000_0000 ==> LitdataConsumed(flen, len) == len + flen
  {
    hide Pow2, PartialExponent;
    var towrite := 6 + flen + len;
    FirstChunkSize(towrite);
    var m := towrite - Pow2(PartialExponent(towrite));
    if m >= UINT_RANGE {
      assert m % UINT_RANGE <= m - UINT_RANGE;
    }
  }

  lemma FirstChunkSize(towrite: nat)
    requires 518 <= towrite
    ensures 512 <= Pow2(PartialExponent(towrite)) <= towrite && 9 <= PartialExponent(towrite)
    ensures Pow2(PartialExponent(towrite)) <= 0x4000_0000
    ensures towrite < 0x1_4000_0000 <==> towrite - Pow2(PartialExponent(towrite)) < UINT_RANGE
  {
    hide Pow2, PartialExponent;
    Pow2Values();
    var e := PartialExponent(towrite);
    if e < 9 {
      Pow2Monotone(e, 9);
      Pow2Step(e);
    }
    if e < 30 {
      Pow2Monotone(e, 30);
      Pow2Step(e);
    }
    if e > 9 {
      Pow2Monotone(9, e);
    }
  }

  predicate Openable(name: Bytes, data: Bytes, past: Bytes)
  {
    |name| <= 255 && |data| >= 512 && |past| >= |name|
  }

  /** The exponent declared by the first partial length. */
  function FirstExponent(name: Bytes, data: Bytes): (r: nat)
    requires |name| <= 255 && |data| >= 512
    ensures 9 <= r <= 30
  {
    FirstChunkSize(6 + |name| + |data|);
    PartialExponent(6 + |name| + |data|)
  }

  /** The buffer and the octets after it, as far as they are taken. */
  function Taken(name: Bytes, data: Bytes, past: Bytes): (r: Bytes)
    requires Openable(name, data, past)
    ensures |r| == LitdataConsumed(|name|, |data|)
  {
    (data + past[..|name|])[..LitdataConsumed(|name|, |data|)]
  }

  /** What stands between the first partial length and the next one. */
  function FirstChunk(name: Bytes, mtime: nat, data: Bytes, past: Bytes): (r: Bytes)
    requires Openable(name, data, past)
  {
    hide Pow2;
    FirstChunkSize(6 + |name| + |data|);
    LiteralBody(name, mtime, Taken(name, data, past)[..Pow2(FirstExponent(name, data)) - 6])
  }

  /** Everything `stream_write_litdata_first` writes; `past` is what follows the buffer in memory. */
  function LitdataFirst(name: Bytes, mtime: nat, data: Bytes, past: Bytes): (r: Bytes)
    requires Openable(name, data, past)
  {
    hide Pow2, PartialExponent, PartialChunks, FirstChunk;
    FirstChunkSize(6 + |name| + |data|);
    var e := FirstExponent(name, data);
    [TAG_LITDATA, 224 + e] + FirstChunk(name, mtime, data, past)
    + PartialChunks(Taken(name, data, past)[Pow2(e) - 6..])
  }

  /** The first chunk has the size its header declares if and only if there is no file name:
      the name's octets are written but not accounted for. */
  lemma FirstChunkMatches(name: Bytes, mtime: nat, data: Bytes, past: Bytes)
    requires Openable(name, data, past)
    ensures |FirstChunk(name, mtime, data, past)| == Pow2(FirstExponent(name, data)) + |name|
    ensures |FirstChunk(name, mtime, data, past)| == Pow2(FirstExponent(name, data)) <==> name == []
  {
    hide Pow2, PartialExponent;
    FirstChunkSize(6 + |name| + |data|);
  }

  /** `stream_write_litdata_first`. */
  method StreamWriteLitdataFirst(name: Bytes, data: Bytes, past: Bytes, mtime: nat) returns (out: Bytes)
    requires Openable(name, data, past)
    ensures out == LitdataFirst(name, mtime, data, past)
    ensures |out| >= 514 && out[0] == TAG_LITDATA && 224 + 9 <= out[1] <= 224 + 30
  {
    hide Pow2, PartialExponent, PartialChunks, LiteralBody, LitdataFirst;
    Pow2Values();
    var flen := |name|;
    var towrite := 1 + 1 + flen + 4 + |data|;
    ghost var e := PartialExponent(towrite);
    var pd := PartialDataLen(towrite);
    FirstChunkSize(towrite);
    var c := WritePartialLen(pd, e);
    var memory := data + past[..flen];
    FirstPieces(name, mtime, data, past);
    out := [TAG_LITDATA, c] + LiteralBody(name, mtime, memory[..pd - 6]);
    var size := (towrite - pd) % UINT_RANGE;
    var rest := StreamWriteLitdata(memory[pd - 6..pd - 6 + size]);
    LiteralBodySize(name, mtime, memory[..pd - 6]);
    out := out + rest;
  }

  lemma FirstPieces(name: Bytes, mtime: nat, data: Bytes, past: Bytes)
    requires Openable(name, data, past)
    ensures var memory := data + past[..|name|];
            var pd := Pow2(FirstExponent(name, data));
            var size := (6 + |name| + |data| - pd) % UINT_RANGE;
            512 <= pd && pd - 6 + size <= |memory|
            && LitdataFirst(name, mtime, data, past)
               == [TAG_LITDATA, 224 + FirstExponent(name, data)] + LiteralBody(name, mtime, memory[..pd - 6])
                  + PartialChunks(memory[pd - 6..pd - 6 + size])
  {
    hide Pow2, PartialExponent, PartialChunks, LiteralBody;
    FirstChunkSize(6 + |name| + |data|);
    var memory := data + past[..|name|];
    var pd := Pow2(FirstExponent(name, data));
    var n := LitdataConsumed(|name|, |data|);
    assert memory[..n][..pd - 6] == memory[..pd - 6];
    assert memory[..n][pd - 6..] == memory[pd - 6..n];
  }

  /** Without a file name the opening is a partial run holding the header and what was taken. */
  lemma LitdataFirstRuns(mtime: nat, data: Bytes, past: Bytes)
    requires Openable([], data, past)
    ensures var n := LitdataConsumed(0, |data|);
            n <= |data| && PartialRun(LitdataFirst([], mtime, data, past)[1..], LiteralBody([], mtime, data[..n]))
  {
    hide Pow2, PartialExponent, PartialChunks, PartialRun, LiteralBody;
    FirstChunkSize(6 + |data|);
    var n := LitdataConsumed(0, |data|);
    var e := FirstExponent([], data);
    var taken := Taken([], data, past);
    assert data + past[..0] == data;
    assert taken == data[..n];
    var k := Pow2(e) - 6;
    var chunk := FirstChunk([], mtime, data, past);
    FirstChunkMatches([], mtime, data, past);
    PartialRunChunks(taken[k..]);
    PartialRunChunk(e, chunk, PartialChunks(taken[k..]), taken[k..]);
    LiteralBodyGrows(mtime, taken[..k], taken[k..]);
    Join(taken, k);
    DropTag(e, chunk, PartialChunks(taken[k..]));
  }

  lemma DropTag(e: nat, chunk: Bytes, rest: Bytes)
    requires e <= 30
    ensures ([TAG_LITDATA, 224 + e] + chunk + rest)[1..] == [224 + e] + chunk + rest
  {
  }

  /** `stream_write_se_ip`: chunk header in clear, chunk body through the cipher and the hash. */
  method StreamWriteSeIp(crypt: PgpCrypt, data: Bytes) returns (out: Bytes, ghost ct: Bytes)
    requires crypt.Valid()
    modifies crypt`remaining, crypt.iv
    ensures crypt.Valid() && PartialRun(out, ct)
    ensures Cfb.Cfb(crypt.cipher, Encrypting, old(crypt.State()), data) == CfbRun(crypt.State(), ct)
  {
    hide Cfb.Cfb, Pow2, PartialExponent;
    out, ct := [], [];
    var done := 0;
    CfbEmpty(crypt.cipher, Encrypting, crypt.State());
    while done < |data|
      invariant done <= |data| && crypt.Valid() && PartialRun(out, ct)
      invariant Cfb.Cfb(crypt.cipher, Encrypting, old(crypt.State()), data[..done]) == CfbRun(crypt.State(), ct)
    {
      ghost var e := PartialExponent(|data| - done);
      var pdlen := PartialDataLen(|data| - done);
      ChunkAtMost(|data| - done);
      var c := WritePartialLen(pdlen, e);
      var next := done + pdlen;
      CfbExtend(crypt.cipher, Encrypting, old(crypt.State()), data, done, next);
      var chunk := EncryptWriter(crypt, data[done..next]);
      SingleChunk(e, chunk);
      PartialRunConcat(out, ct, [c] + chunk, chunk);
      out, ct := out + ([c] + chunk), ct + chunk;
      done := next;
    }
    assert data[..done] == data;
  }

  lemma ChunkAtMost(len: nat)
    requires len > 0
    ensures Pow2(PartialExponent(len)) <= 0x4000_0000
  {
    hide Pow2, PartialExponent;
    Pow2Values();
    var e := PartialExponent(len);
    if e < 30 {
      Pow2Monotone(e, 30);
    }
  }

  lemma SingleChunk(e: nat, chunk: Bytes)
    requires e <= 30 && |chunk| == Pow2(e)
    ensures PartialRun([224 + e] + chunk, chunk)
  {
    hide Pow2;
    PartialRunChunk(e, chunk, [], []);
    assert [224 + e] + chunk + [] == [224 + e] + chunk && chunk + [] == chunk;
  }

  /** The prefix built from `blocksize` random octets. */
  function Preamble(rnd: Bytes): (r: Bytes)
    requires |rnd| >= 2
  {
    rnd + [rnd[|rnd| - 2], rnd[|rnd| - 1]]
  }

  /** `stream_write_se_ip_first`. */
  method StreamWriteSeIpFirst(crypt: PgpCrypt, data: Bytes, rnd: Bytes) returns (out: Bytes, ghost ct: Bytes)
    requires crypt.Valid() && |rnd| == crypt.cipher.blsize && |data| >= 512
    modifies crypt`remaining, crypt.iv
    ensures crypt.Valid()
    ensures |out| >= 2 && out[0] == TAG_SE_IP && 224 + 9 <= out[1] <= 224 + 30
    ensures PartialRun(out[1..], [SE_IP_VERSION] + ct)
    ensures Cfb.Cfb(crypt.cipher, Encrypting, old(crypt.State()), Preamble(rnd) + data)
            == CfbRun(crypt.State(), ct)
  {
    hide Cfb.Cfb, Pow2, PartialExponent, PartialRun;
    var preamble := Preamble(rnd);
    var towrite := |preamble| + 1 + |data|;
    ghost var e := PartialExponent(towrite);
    var pd := PartialDataLen(towrite);
    FirstChunkSize(towrite);
    var c := WritePartialLen(pd, e);
    var n := pd - |preamble| - 1;
    ghost var st0 := crypt.State();
    CfbConcat(crypt.cipher, Encrypting, st0, preamble, data[..n]);
    CfbConcat(crypt.cipher, Encrypting, st0, preamble + data[..n], data[n..]);
    var ct0 := EncryptWriter(crypt, preamble);
    var ct1 := EncryptWriter(crypt, data[..n]);
    var rest;
    ghost var ct2;
    rest, ct2 := StreamWriteSeIp(crypt, data[n..]);
    out := [TAG_SE_IP, c, SE_IP_VERSION] + ct0 + ct1 + rest;
    ct := ct0 + ct1 + ct2;
    assert preamble + data == preamble + data[..n] + data[n..];
    PartialRunChunk(e, [SE_IP_VERSION] + ct0 + ct1, rest, ct2);
    SeIpFirstShape(c, ct0, ct1, rest, ct2);
  }

  lemma SeIpFirstShape(c: Octet, ct0: Bytes, ct1: Bytes, rest: Bytes, ct2: Bytes)
    ensures ([TAG_SE_IP, c, SE_IP_VERSION] + ct0 + ct1 + rest)[1..] == [c] + ([SE_IP_VERSION] + ct0 + ct1) + rest
    ensures [SE_IP_VERSION] + ct0 + ct1 + ct2 == [SE_IP_VERSION] + (ct0 + ct1 + ct2)
  {
  }

  /** `stream_write_se_ip_last`: the final chunk carries what is left and the MDC packet. */
  method StreamWriteSeIpLast(crypt: PgpCrypt, h: Sha1, hashed: Bytes, data: Bytes) returns (out: Bytes, ghost ct: Bytes)
    requires crypt.Valid() && |data| + 22 < 0x1_0000_0000
    modifies crypt`remaining, crypt.iv
    ensures crypt.Valid()
    ensures |ct| == |data| + 22 && out == LengthHeader(|ct|) + ct
    ensures Cfb.Cfb(crypt.cipher, Encrypting, old(crypt.State()), data + Mdc(h, hashed + data))
            == CfbRun(crypt.State(), ct)
  {
    hide Cfb.Cfb, LengthHeader, Digest;
    var mdc := Mdc(h, hashed + data);
    CfbConcat(crypt.cipher, Encrypting, crypt.State(), data, mdc);
    out := LengthHeader(|data| + 22);
    var ct0 := EncryptWriter(crypt, data);
    var ct1 := EncryptWriter(crypt, mdc);
    ct := ct0 + ct1;
    out := out + ct0 + ct1;
  }

  /** `pgp_write_litdata`: both the length and the number of octets are cut to 32 bits. */
  function WriteLitdata(name: Bytes, mtime: nat, data: Bytes): (r: Bytes)
    requires |name| <= 255
  {
    [TAG_LITDATA] + LengthHeader((6 + |name| + |data|) % UINT_RANGE)
    + LiteralBody(name, mtime, data[..|data| % UINT_RANGE])
  }

  /** The packet reads back as the literal if and only if the body's length fits 32 bits. */
  lemma LitdataReads(name: Bytes, mtime: nat, data: Bytes)
    requires |name| <= 255
    ensures ReadPacket(TAG_LITDATA, WriteLitdata(name, mtime, data)) == Some((LiteralBody(name, mtime, data), []))
            <==> 6 + |name| + |data| < UINT_RANGE
  {
    hide LengthHeader, ReadBody, LiteralBody, BigEndian;
    var body := LiteralBody(name, mtime, data);
    LiteralBodySize(name, mtime, data);
    var s := WriteLitdata(name, mtime, data);
    if 6 + |name| + |data| < UINT_RANGE {
      ReadDefiniteBody(body, []);
      assert data[..|data| % UINT_RANGE] == data;
      assert s[1..] == LengthHeader(|body|) + body + [];
    } else {
      var n := (6 + |name| + |data|) % UINT_RANGE;
      var rest := LiteralBody(name, mtime, data[..|data| % UINT_RANGE]);
      assert s[1..] == LengthHeader(n) + rest;
      DefiniteSize(n, rest);
    }
  }

  /** A body read behind a definite length has that length. */
  lemma DefiniteSize(n: nat, t: Bytes)
    requires n < UINT_RANGE
    ensures ReadBody(LengthHeader(n) + t).Some? ==> |ReadBody(LengthHeader(n) + t).value.0| == n
  {
    hide LengthHeader;
    LengthHeaderReads(n, t);
  }

  const UINT_MAX: nat := 0xFFFF_FFFF

  /** `pgp_write_se_ip_pktset`: one packet of definite length.  The length 1 + bufsize is passed
      as a 32-bit unsigned although only bufsize was checked against it. */
  method WriteSeIpPktset(crypt: PgpCrypt, h: Sha1, data: Bytes, rnd: Bytes)
    returns (ok: bool, out: Bytes, ghost ct: Bytes)
    requires crypt.Valid() && |rnd| == crypt.cipher.blsize
    modifies crypt`remaining, crypt.iv
    ensures crypt.Valid()
    ensures ok <==> crypt.cipher.blsize + 2 + |data| + 22 <= UINT_MAX
    ensures ok ==> |ct| == crypt.cipher.blsize + 2 + |data| + 22
    ensures ok ==> Cfb.Cfb(crypt.cipher, Encrypting, old(crypt.State()), SeIpPlain(h, Preamble(rnd), data))
                   == CfbRun(crypt.State(), ct)
    ensures ok ==> out == [TAG_SE_IP] + LengthHeader((1 + |ct|) % 0x1_0000_0000) + ([SE_IP_VERSION] + ct)
  {
    hide Cfb.Cfb, LengthHeader, Digest;
    var preamble := Preamble(rnd);
    var bufsize := |preamble| + |data| + 22;
    if bufsize > UINT_MAX {
      return false, [], [];
    }
    ok := true;
    out := [TAG_SE_IP] + LengthHeader((1 + bufsize) % 0x1_0000_0000);
    var mdc := Mdc(h, preamble + data);
    CfbConcat(crypt.cipher, Encrypting, crypt.State(), preamble, data);
    CfbConcat(crypt.cipher, Encrypting, crypt.State(), preamble + data, mdc);
    var ct0 := EncryptWriter(crypt, preamble);
    var ct1 := EncryptWriter(crypt, data);
    var ct2 := EncryptWriter(crypt, mdc);
    ct := ct0 + ct1 + ct2;
    out := out + ([SE_IP_VERSION] + ct0 + ct1 + ct2);
    assert [SE_IP_VERSION] + ct0 + ct1 + ct2 == [SE_IP_VERSION] + ct;
  }

  /** A packet set reads back as one packet exactly when 1 + bufsize also fits 32 bits: at
      bufsize == UINT_MAX the header says zero octets and everything is left over. */
  lemma PktsetReads(ct: Bytes)
    requires |ct| <= UINT_MAX
    ensures var s := [TAG_SE_IP] + LengthHeader((1 + |ct|) % 0x1_0000_0000) + ([SE_IP_VERSION] + ct);
            ReadPacket(TAG_SE_IP, s)
            == Some(if |ct| < UINT_MAX then ([SE_IP_VERSION] + ct, []) else ([], [SE_IP_VERSION] + ct))
  {
    hide ReadBody, LengthHeader;
    var body := [SE_IP_VERSION] + ct;
    if |ct| < UINT_MAX {
      PacketTail(LengthHeader(|body|), body, []);
      ReadDefiniteBody(body, []);
    } else {
      PacketTail(LengthHeader(0), [], body);
      ReadDefiniteBody([], body);
      assert LengthHeader(0) + [] == LengthHeader(0);
    }
  }

  lemma PacketTail(header: Bytes, body: Bytes, t: Bytes)
    ensures var s := [TAG_SE_IP] + (header + body) + t; s[0] == TAG_SE_IP && s[1..] == header + body + t
    ensures [TAG_SE_IP] + (header + body) == [TAG_SE_IP] + header + body
    ensures t == [] ==> [TAG_SE_IP] + (header + body) + t == [TAG_SE_IP] + (header + body)
  {
  }

  // --- what a receiver makes of the inner stream ---

  /** The octet a receiver takes for the second length header of the inner packet. */
  function SecondHeader(name: Bytes, data: Bytes, past: Bytes): (r: Octet)
    requires Openable(name, data, past) && name != []
  {
    FirstChunkSize(6 + |name| + |data|);
    Taken(name, data, past)[Pow2(FirstExponent(name, data)) - 6 - |name|]
  }

  /** That octet happens to be a partial length, or the mark of a five-octet one. */
  predicate LooksPartial(name: Bytes, data: Bytes, past: Bytes)
  {
    Openable(name, data, past) && name != [] && SecondHeader(name, data, past) >= 224
  }

  /** The inner packet: the opening, the chunks of later writes, and the empty final part. */
  function InnerStream(name: Bytes, mtime: nat, data: Bytes, past: Bytes, run: Bytes): (r: Bytes)
    requires Openable(name, data, past)
  {
    LitdataFirst(name, mtime, data, past) + run + LengthHeader(0)
  }

  lemma StreamWithoutName(mtime: nat, data: Bytes, past: Bytes, run: Bytes, later: Bytes)
    requires Openable([], data, past) && PartialRun(run, later)
    ensures var n := LitdataConsumed(0, |data|);
            n <= |data| && ReadInner(InnerStream([], mtime, data, past, run))
                           == Some(Literal(LDT_BINARY, [], BigEndian(mtime, 4), data[..n] + later))
  {
    hide PartialRun, LengthHeader, ReadBody, LiteralBody, LitdataFirst, LitdataConsumed, BigEndian, ReadInner;
    var first := LitdataFirst([], mtime, data, past);
    var n := LitdataConsumed(0, |data|);
    var inner := InnerStream([], mtime, data, past, run);
    LitdataFirstRuns(mtime, data, past);
    OpeningShape([], mtime, data, past);
    PartialRunConcat(first[1..], LiteralBody([], mtime, data[..n]), run, later);
    LiteralBodyGrows(mtime, data[..n], later);
    var body := LiteralBody([], mtime, data[..n] + later);
    ReadDefiniteBody([], []);
    EmptyLength();
    ReadPartialRun(first[1..] + run, body, LengthHeader(0));
    SliceOfConcat(first, run, 1, 1);
    SliceOfConcat(first + run, LengthHeader(0), 1, 1);
    assert body + [] == body;
    ReadInnerLiteral(inner, [], mtime, data[..n] + later);
  }

  lemma OpeningShape(name: Bytes, mtime: nat, data: Bytes, past: Bytes)
    requires Openable(name, data, past)
    ensures var s := LitdataFirst(name, mtime, data, past);
            s != [] && s[0] == TAG_LITDATA
            && s[1..] == [224 + FirstExponent(name, data)] + FirstChunk(name, mtime, data, past)
                         + PartialChunks(Taken(name, data, past)[Pow2(FirstExponent(name, data)) - 6..])
  {
    hide Pow2, PartialExponent, PartialChunks, FirstChunk, Taken, LitdataConsumed;
    FirstChunkSize(6 + |name| + |data|);
    DropTag(FirstExponent(name, data), FirstChunk(name, mtime, data, past),
            PartialChunks(Taken(name, data, past)[Pow2(FirstExponent(name, data)) - 6..]));
  }

  /** A partial chunk of 2^e octets followed by an octet that is no partial length: whatever is
      read ends in the part that octet announces. */
  lemma ReadTwoParts(e: nat, chunk: Bytes, x: Octet, t: Bytes)
    requires e <= 30 && |chunk| == Pow2(e) && x < 224
    ensures var s := [224 + e] + chunk + ([x] + t);
            var r := ReadBody(s);
            r.Some? && r.value.1 == [] ==>
              var n := |r.value.0| - Pow2(e);
              if x < 192 then n < 192 && |s| == |r.value.0| + 2
              else 192 <= n < 8384 && |s| == |r.value.0| + 3
  {
    hide Pow2;
    var s := [224 + e] + chunk + ([x] + t);
    var rest := [x] + t;
    assert s[1..][..|chunk|] == chunk && s[1..][|chunk|..] == rest;
    assert ReadLength(s) == Some((Partial(Pow2(e)), 1));
    var inner := ReadBody(rest);
    if x >= 192 && t != [] {
      assert rest[1] == t[0];
      assert ReadLength(rest) == Some((Final(TwoOctetLength(x, t[0])), 2));
    }
    assert ReadBody(s).Some? ==> inner.Some? && ReadBody(s) == Some((chunk + inner.value.0, inner.value.1));
  }

  /** The inner stream as a receiver meets it: a full chunk, and then an octet of the data. */
  lemma StreamShape(name: Bytes, mtime: nat, data: Bytes, past: Bytes, run: Bytes)
    returns (chunk: Bytes, x: Octet, after: Bytes)
    requires Openable(name, data, past) && name != []
    ensures var e := FirstExponent(name, data);
            var inner := InnerStream(name, mtime, data, past, run);
            |chunk| == Pow2(e) && x == SecondHeader(name, data, past)
            && inner != [] && inner[0] == TAG_LITDATA && inner[1..] == [224 + e] + chunk + ([x] + after)
            && |Taken(name, data, past)| >= Pow2(e) - 6 >= 0
            && |inner|
               == 1 + 1 + (Pow2(e) + |name|) + |PartialChunks(Taken(name, data, past)[Pow2(e) - 6..])| + |run| + 1
  {
    hide Pow2, PartialExponent, PartialChunks, LitdataFirst, FirstChunk, SecondHeader, Taken;
    var e := FirstExponent(name, data);
    FirstChunkSize(6 + |name| + |data|);
    var pd := Pow2(e);
    var first := FirstChunk(name, mtime, data, past);
    var rest := Taken(name, data, past)[pd - 6..];
    FirstChunkMatches(name, mtime, data, past);
    OpeningShape(name, mtime, data, past);
    NameShift(name, mtime, data, past);
    EmptyLength();
    x := SecondHeader(name, data, past);
    chunk := first[..pd];
    after := first[pd + 1..] + PartialChunks(rest) + run + LengthHeader(0);
    CutChunk(e, first, pd, x, PartialChunks(rest), run, LengthHeader(0));
    SliceOfConcat(LitdataFirst(name, mtime, data, past), run, 1, 1);
    SliceOfConcat(LitdataFirst(name, mtime, data, past) + run, LengthHeader(0), 1, 1);
  }

  /** With a file name a receiver takes an octet of the data for the second length header.  Unless
      that octet happens to be a partial length (or the mark of a five-octet one) the literal
      never comes back. */
  lemma StreamWithName(name: Bytes, mtime: nat, data: Bytes, past: Bytes, run: Bytes, later: Bytes)
    requires Openable(name, data, past) && name != [] && PartialRun(run, later)
    requires !LooksPartial(name, data, past)
    ensures ReadInner(InnerStream(name, mtime, data, past, run))
            != Some(Literal(LDT_BINARY, name, BigEndian(mtime, 4), data + later))
  {
    hide Pow2, PartialExponent, PartialChunks, PartialRun, InnerStream, ReadBody, BigEndian, ParseLiteral;
    var e := FirstExponent(name, data);
    FirstChunkSize(6 + |name| + |data|);
    var pd := Pow2(e);
    var rest := Taken(name, data, past)[pd - 6..];
    var inner := InnerStream(name, mtime, data, past, run);
    var chunk, x, after := StreamShape(name, mtime, data, past, run);
    ReadTwoParts(e, chunk, x, after);
    LitdataConsumedExactly(|name|, |data|);
    ChunksAreLonger(rest);
    PartialRunIsLonger(run, later);
    var r := ReadBody(inner[1..]);
    if r.Some? && r.value.1 == [] {
      WrongSize(pd, |name|, |data|, |rest|, |PartialChunks(rest)|, |later|, |run|, |r.value.0|, |inner| - 1);
      if ParseLiteral(r.value.0).Some? {
        LiteralSize(r.value.0);
      }
    }
  }

  lemma LiteralSize(body: Bytes)
    requires ParseLiteral(body).Some?
    ensures var l := ParseLiteral(body).value; |body| == 6 + |l.name| + |l.data|
  {
  }

  /** The sizes alone: the name's octets make the stream too long for its body. */
  lemma WrongSize(pd: nat, flen: nat, len: nat, rest: nat, chunks: nat, later: nat, run: nat, body: nat, all: nat)
    requires 0 < flen <= 255 && pd <= 0x4000_0000 && pd <= 6 + flen + len
    requires rest == (6 + flen + len - pd) % UINT_RANGE
    requires chunks >= rest && (rest > 0 ==> chunks > rest) && run >= later && (later > 0 ==> run > later)
    requires all == 1 + (pd + flen) + chunks + run + 1
    requires body >= pd
    requires (body < pd + 192 && all == body + 2) || (pd + 192 <= body < pd + 8384 && all == body + 3)
    ensures body != 6 + flen + (len + later)
  {
    var left := 6 + flen + len - pd;
    if left < UINT_RANGE {
      assert rest == left;
    }
  }

  /** The octet after the announced size of the first chunk is one of the data. */
  lemma NameShift(name: Bytes, mtime: nat, data: Bytes, past: Bytes)
    requires Openable(name, data, past) && name != []
    ensures var pd := Pow2(FirstExponent(name, data));
            var chunk := FirstChunk(name, mtime, data, past);
            pd < |chunk| && chunk[pd] == SecondHeader(name, data, past)
  {
    hide Pow2, PartialExponent, LitdataConsumed, Taken, LiteralBody;
    FirstChunkMatches(name, mtime, data, past);
    FirstChunkSize(6 + |name| + |data|);
    var pd := Pow2(FirstExponent(name, data));
    LiteralBodyAt(name, mtime, Taken(name, data, past)[..pd - 6], pd - 6 - |name|);
  }

  lemma LiteralBodyAt(name: Bytes, mtime: nat, data: Bytes, k: nat)
    requires |name| <= 255 && k < |data|
    ensures |LiteralBody(name, mtime, data)| == 6 + |name| + |data|
    ensures LiteralBody(name, mtime, data)[6 + |name| + k] == data[k]
  {
    hide BigEndian;
  }

  /** The exception is real: a four-octet name, the mark of a five-octet length behind the buffer,
      and data that repeats the next header just before it are received as if nothing had happened. */
  lemma AccidentalFraming(name: Bytes, mtime: nat, data: Bytes, past: Bytes, e: nat)
    requires |name| == 4 && past == [0xff, 0, 0, 0] && Openable(name, data, past) && 2 <= e <= 30
    requires var pd := Pow2(FirstExponent(name, data));
             pd >= 10 && |data| >= pd - 6 && 10 + |data| == pd + Pow2(e)
             && data[pd - 10..pd - 6] == [224 + e, 224 + e, 224 + e, 224 + e]
    ensures LooksPartial(name, data, past)
    ensures ReadInner(InnerStream(name, mtime, data, past, []))
            == Some(Literal(LDT_BINARY, name, BigEndian(mtime, 4), data))
  {
    hide Pow2, PartialExponent, PartialRun, LitdataFirst, LiteralBody, FirstChunk, SecondHeader, BigEndian;
    hide ReadInner, ReadBody;
    var pd, n := Pow2(FirstExponent(name, data)), Pow2(e);
    var h: Bytes := [224 + e, 224 + e, 224 + e, 224 + e];
    FirstChunkSize(10 + |data|);
    Pow2Values();
    AtLeastFour(e);
    if e < 30 {
      Pow2Monotone(e, 30);
    }
    LitdataConsumedExactly(4, |data|);
    var rest := Taken(name, data, past)[pd - 6..];
    assert past[..4] == past && Taken(name, data, past) == data + past;
    assert rest == data[pd - 6..] + past;
    ChunkAlone(rest, e);
    var chunk := FirstChunk(name, mtime, data, past);
    FirstChunkMatches(name, mtime, data, past);
    AccidentalShape(name, mtime, data, past, h);
    OpeningShape(name, mtime, data, past);
    EmptyLength();
    // the receiver's chunks
    var x := h + data[pd - 6..];
    SingleChunk(e, x);
    var first := FirstExponent(name, data);
    PartialRunChunk(first, chunk[..pd], [224 + e] + x, x);
    var run := [224 + first] + chunk[..pd] + ([224 + e] + x);
    var body := chunk[..pd] + x;
    FiveOctetZero(past);
    ReadPartialRun(run, body, past + [0]);
    assert body + [] == body;
    var inner := InnerStream(name, mtime, data, past, []);
    AccidentalBytes(first, e, chunk, pd, h, data[pd - 6..], past);
    assert LitdataFirst(name, mtime, data, past) + [] == LitdataFirst(name, mtime, data, past);
    SliceOfConcat(LitdataFirst(name, mtime, data, past), [0], 1, 1);
    assert inner[1..] == run + (past + [0]);
    ReadInnerLiteral(inner, name, mtime, data);
  }

  lemma AtLeastFour(e: nat)
    requires e >= 2
    ensures Pow2(e) >= 4
  {
    hide Pow2;
    assert Pow2(2) == 4 by { Pow2Step(0); Pow2Step(1); }
    if e > 2 {
      Pow2Monotone(2, e);
    }
  }

  lemma ChunkAlone(data: Bytes, e: nat)
    requires e <= 30 && |data| == Pow2(e)
    ensures PartialChunks(data) == [224 + e] + data
  {
    hide Pow2, PartialExponent;
    Pow2Step(e);
    ExponentUnique(|data|, e);
    assert data[..|data|] == data && data[|data|..] == [];
    assert [224 + e] + data + [] == [224 + e] + data;
  }

  lemma FiveOctetZero(past: Bytes)
    requires past == [0xff, 0, 0, 0]
    ensures ReadBody(past + [0]) == Some(([], []))
  {
    var zero: Bytes := [0, 0, 0, 0];
    BigEndianZero();
    assert (past + [0])[1..5] == zero;
    assert (past + [0])[5..] == [];
  }

  lemma BigEndianZero()
    ensures FromBigEndian([0, 0, 0, 0]) == 0
  {
    var a: Bytes, b: Bytes, c: Bytes := [0], [0, 0], [0, 0, 0];
    assert a[..0] == [] && b[..1] == a && c[..2] == b && [0, 0, 0, 0][..3] == c;
    assert FromBigEndian(a) == 0 && FromBigEndian(b) == 0 && FromBigEndian(c) == 0;
  }

  lemma AccidentalShape(name: Bytes, mtime: nat, data: Bytes, past: Bytes, h: Bytes)
    requires |name| == 4 && Openable(name, data, past) && |h| == 4
    requires var pd := Pow2(FirstExponent(name, data));
             10 <= pd && pd - 6 <= |data| && data[pd - 10..pd - 6] == h && Taken(name, data, past) == data + past
    ensures var pd := Pow2(FirstExponent(name, data));
            var chunk := FirstChunk(name, mtime, data, past);
            |chunk| == pd + 4 && chunk[pd..] == h
            && chunk[..pd] + (h + data[pd - 6..]) == LiteralBody(name, mtime, data)
            && SecondHeader(name, data, past) == h[0]
  {
    hide Pow2, PartialExponent, BigEndian;
    var pd := Pow2(FirstExponent(name, data));
    var head := [LDT_BINARY, |name|] + name + BigEndian(mtime, 4);
    var chunk := FirstChunk(name, mtime, data, past);
    assert (data + past)[..pd - 6] == data[..pd - 6];
    assert chunk == head + data[..pd - 6] && |head| == 10;
    assert chunk[pd..] == data[pd - 10..pd - 6];
    Join(chunk, pd);
    Assoc(chunk[..pd], h, data[pd - 6..]);
    Join(data, pd - 6);
    Assoc(head, data[..pd - 6], data[pd - 6..]);
    assert (data + past)[pd - 10] == data[pd - 10..pd - 6][0];
  }

  lemma AccidentalBytes(first: nat, e: nat, chunk: Bytes, pd: nat, h: Bytes, tail: Bytes, past: Bytes)
    requires first <= 30 && e <= 30 && pd <= |chunk| && h == [224 + e, 224 + e, 224 + e, 224 + e] && chunk[pd..] == h
    ensures [224 + first] + chunk + ([224 + e] + (tail + past)) + [0]
            == [224 + first] + chunk[..pd] + ([224 + e] + (h + tail)) + (past + [0])
  {
    assert chunk == chunk[..pd] + h;
    assert h + [224 + e] == [224 + e] + h;
  }

  lemma CutChunk(e: nat, chunk: Bytes, pd: nat, x: Octet, chunks: Bytes, run: Bytes, last: Bytes)
    requires e <= 30 && pd < |chunk| && chunk[pd] == x
    ensures [224 + e] + chunk + chunks + run + last
            == [224 + e] + chunk[..pd] + ([x] + (chunk[pd + 1..] + chunks + run + last))
  {
    assert chunk == chunk[..pd] + ([x] + chunk[pd + 1..]);
  }

  lemma {:induction false} ChunksAreLonger(data: Bytes)
    ensures |PartialChunks(data)| >= |data| && (data != [] ==> |PartialChunks(data)| > |data|)
  {
    hide PartialChunks;
    ChunkOctets(data);
  }

  lemma PartialRunIsLonger(s: Bytes, body: Bytes)
    requires PartialRun(s, body)
    ensures |s| >= |body| && (body != [] ==> |s| > |body|)
  {
    hide Pow2;
    if s != [] {
      var n := Pow2(s[0] - 224);
      PartialRunSize(s[1 + n..], body[n..]);
    }
  }

  // --- the streaming writer as an object ---

  /** `str_enc_se_ip_t` with the writer below it.  `next` is what that writer has received;
      the memory outputs `litmem` and `se_ip_mem` are the fields of those names. */
  class StreamEncryptor {
    const crypt: PgpCrypt
    const h: Sha1
    const name: Bytes // ctx->filename
    const mtime: nat
    var memData: Bytes
    var litOpen: bool // litoutput != NULL
    var litmem: Bytes
    var seIpMem: Bytes
    var hash: Bytes // the octets given to pgp_hash_add so far
    var next: Bytes
    ghost var written: Bytes
    ghost var first: Bytes // what the stream was opened with
    ghost var past: Bytes // what followed it in memory
    ghost var run: Bytes // the chunks of the later writes
    ghost var lit: Bytes
    ghost var preamble: Bytes

    ghost predicate Buffering()
      reads this, crypt, crypt.iv
    {
      crypt.Valid() && !litOpen && memData == written == first && |written| < 512 && next == [] && seIpMem == []
      && |name| <= 255 && crypt.State() == ZeroState(crypt.cipher)
    }

    ghost predicate Streaming()
      reads this, crypt, crypt.iv
    {
      crypt.Valid() && litOpen && litmem == [] && seIpMem == [] && ValidPreamble(crypt.cipher, preamble)
      && Openable(name, first, past) && first <= written
      && lit == LitdataFirst(name, mtime, first, past) + run && PartialRun(run, written[|first|..])
      && hash == preamble + lit
      && var r := Cfb.Cfb(crypt.cipher, Encrypting, ZeroState(crypt.cipher), preamble + lit);
      crypt.State() == r.state
      && |next| >= 2 && next[0] == TAG_SE_IP && 224 + 9 <= next[1] <= 224 + 30
      && PartialRun(next[1..], [SE_IP_VERSION] + r.out)
    }

    ghost predicate Valid()
      reads this, crypt, crypt.iv
    {
      Buffering() || Streaming()
    }

    /** `pgp_push_stream_enc_se_ip`, after the session key packet. */
    constructor (c: Cipher, h: Sha1, name: Bytes, mtime: nat)
      requires (c.blsize == 8 || c.blsize == 16) && |name| <= 255
      ensures Buffering() && written == []
      ensures this.h == h && this.mtime == mtime && this.name == name && crypt.cipher == c
      ensures fresh(crypt) && fresh(crypt.iv)
    {
      crypt := new PgpCrypt(c, None);
      this.h, this.name, this.mtime := h, name, mtime;
      memData, litOpen, litmem, seIpMem, hash, next := [], false, [], [], [], [];
      written, first, past, run, lit, preamble := [], [], [], [], [], [];
    }

    /** `str_enc_se_ip_writer`; `beyond` is what follows the octets in memory and `rnd` what the
        generator would return for the prefix. */
    method Write(src: Bytes, beyond: Bytes, rnd: Bytes)
      requires Valid() && |beyond| >= |name| && |rnd| == crypt.cipher.blsize
      modifies this, crypt`remaining, crypt.iv
      ensures Valid() && written == old(written) + src
      ensures first == if |old(first)| >= 512 then old(first) else old(first) + src
      ensures past == if |old(first)| < 512 <= |first| then beyond else old(past)
      ensures preamble == if |old(first)| < 512 <= |first| then Preamble(rnd) else old(preamble)
      ensures |written| >= 512 <==> Streaming()
    {
      if !litOpen {
        WriteFirst(src, beyond, rnd);
      } else {
        WriteMore(src);
      }
    }

    method WriteFirst(src: Bytes, beyond: Bytes, rnd: Bytes)
      requires Buffering() && |beyond| >= |name| && |rnd| == crypt.cipher.blsize
      modifies this, crypt`remaining, crypt.iv
      ensures written == old(written) + src == first
      ensures if |written| < 512 then Buffering() && past == old(past) && preamble == old(preamble)
              else Streaming() && past == beyond && preamble == Preamble(rnd)
    {
      hide Cfb.Cfb, PartialRun, LitdataFirst;
      var datalength := |memData| + |src|;
      if datalength < 512 {
        memData := memData + src;
        written := written + src;
        first := written;
        return;
      }
      if |memData| > 0 {
        memData := memData + src;
        litmem := StreamWriteLitdataFirst(name, memData, beyond, mtime);
      } else {
        assert old(written) + src == src;
        litmem := StreamWriteLitdataFirst(name, src, beyond, mtime);
      }
      written := written + src;
      first, past := written, beyond;
      StartStream(rnd);
    }

    /** The literal header and the first chunk are in `litmem`: open the outer packet. */
    method StartStream(rnd: Bytes)
      requires crypt.Valid() && crypt.State() == ZeroState(crypt.cipher) && |rnd| == crypt.cipher.blsize
      requires next == [] && written == first && Openable(name, first, past)
      requires |litmem| >= 512 && litmem == LitdataFirst(name, mtime, first, past)
      modifies this, crypt`remaining, crypt.iv
      ensures Streaming() && written == old(written) && first == old(first) && past == old(past)
      ensures preamble == Preamble(rnd)
    {
      hide Cfb.Cfb, PartialRun, LitdataFirst, Openable, Preamble, ValidPreamble, ZeroState;
      PreambleRepeats(crypt.cipher, rnd);
      litOpen := true;
      ghost var ct;
      seIpMem, ct := StreamWriteSeIpFirst(crypt, litmem, rnd);
      preamble, lit, run := Preamble(rnd), litmem, [];
      hash := Preamble(rnd) + litmem;
      NothingMore(litmem, written);
      assert next + seIpMem == seIpMem;
      next := next + seIpMem;
      litmem, seIpMem := [], [];
    }

    method WriteMore(src: Bytes)
      requires Streaming()
      modifies this, crypt`remaining, crypt.iv
      ensures Streaming() && written == old(written) + src && first == old(first) && past == old(past)
      ensures preamble == old(preamble)
    {
      hide Cfb.Cfb, PartialRun, PartialChunks, LitdataFirst, ZeroState, ValidPreamble, Openable;
      ghost var c, st0 := crypt.cipher, ZeroState(crypt.cipher);
      ghost var r := Cfb.Cfb(c, Encrypting, st0, preamble + lit);
      litmem := StreamWriteLitdata(src);
      InnerGrows(run, written, |first|, src);
      ghost var ct;
      seIpMem, ct := StreamWriteSeIp(crypt, litmem);
      CfbConcat(c, Encrypting, st0, preamble + lit, litmem);
      OuterGrows(next, r.out, seIpMem, ct);
      Assoc(LitdataFirst(name, mtime, first, past), run, litmem);
      Assoc(preamble, lit, litmem);
      hash := hash + litmem;
      run, lit := run + litmem, lit + litmem;
      next := next + seIpMem;
      written := written + src;
      litmem, seIpMem := [], [];
    }

    /** What the receiver has after a finished stream. */
    ghost predicate Received()
      reads this, crypt
      requires crypt.cipher.blsize == 8 || crypt.cipher.blsize == 16
      requires Openable(name, first, past) && first <= written
    {
      var r := Receive(crypt.cipher, h, next);
      if name == [] then
        r == Some(Literal(LDT_BINARY, [], BigEndian(mtime, 4),
                          first[..LitdataConsumed(0, |first|)] + written[|first|..]))
      else
        !LooksPartial(name, first, past) ==> r != Some(Literal(LDT_BINARY, name, BigEndian(mtime, 4), written))
    }

    /** `str_enc_se_ip_finaliser`.  On the buffered path the receiver recovers exactly what was
        written, under any file name; on the streamed path what was taken, without one. */
    method Finalise(rnd: Bytes) returns (ghost inner: Bytes)
      requires Valid() && |rnd| == crypt.cipher.blsize
      modifies this, crypt`remaining, crypt.iv
      ensures written == old(written) && first == old(first) && past == old(past)
      ensures |written| < 512 ==>
                Receive(crypt.cipher, h, next) == Some(Literal(LDT_BINARY, name, BigEndian(mtime, 4), written))
      ensures |written| >= 512 ==> Openable(name, first, past) && first <= written && Received()
      ensures |written| >= 512 ==> |next| >= 2 && next[0] == TAG_SE_IP && 224 + 9 <= next[1] <= 224 + 30
      ensures preamble == if |written| < 512 then Preamble(rnd) else old(preamble)
      ensures Delivers(inner)
    {
      if !litOpen {
        inner := FinaliseBuffered(rnd);
      } else {
        PrefixIsShorter(first, written);
        inner := FinaliseStream();
      }
    }

    /** One packet, with the encryption of the prefix, `inner` and the code; and what `inner` is. */
    ghost predicate Delivers(inner: Bytes)
      reads this, crypt
    {
      var c := crypt.cipher;
      (c.blsize == 8 || c.blsize == 16) && |name| <= 255
      && ReadPacket(TAG_SE_IP, next) == Some(([SE_IP_VERSION] + Sealed(c, h, preamble, inner), []))
      && if |written| < 512 then inner == WriteLitdata(name, mtime, written)
         else Openable(name, first, past) && first <= written && PartialRun(run, written[|first|..])
              && inner == InnerStream(name, mtime, first, past, run)
    }

    method FinaliseBuffered(rnd: Bytes) returns (ghost inner: Bytes)
      requires Buffering() && |rnd| == crypt.cipher.blsize
      modifies this, crypt`remaining, crypt.iv
      ensures written == old(written) && first == old(first) && past == old(past)
      ensures Receive(crypt.cipher, h, next) == Some(Literal(LDT_BINARY, name, BigEndian(mtime, 4), written))
      ensures preamble == Preamble(rnd) && Delivers(inner)
    {
      hide Cfb.Cfb, LengthHeader, Receive, ReadPacket, ReadInner, LiteralBody, WriteLitdata, InnerStream, Preamble;
      PreambleRepeats(crypt.cipher, rnd);
      litOpen := true;
      litmem := WriteLitdata(name, mtime, memData);
      LitdataReads(name, mtime, memData);
      LitdataSize(name, mtime, memData);
      ReadInnerLiteral(litmem, name, mtime, written);
      ghost var ct;
      var ok;
      ok, seIpMem, ct := WriteSeIpPktset(crypt, h, litmem, rnd);
      PktsetReads(ct);
      next := next + seIpMem;
      assert next == seIpMem;
      ReceiveSealed(crypt.cipher, h, next, Preamble(rnd), litmem);
      preamble, inner := Preamble(rnd), litmem;
    }

    method FinaliseStream() returns (ghost inner: Bytes)
      requires Streaming()
      modifies this, crypt`remaining, crypt.iv
      ensures written == old(written) && first == old(first) && past == old(past)
      ensures Received() && |next| >= 2 && next[0] == TAG_SE_IP && 224 + 9 <= next[1] <= 224 + 30
      ensures preamble == old(preamble) && Delivers(inner)
    {
      hide Cfb.Cfb, PartialRun, LengthHeader, Receive, ReadBody, ReadInner, LiteralBody, Digest, LitdataFirst,
           LitdataConsumed, LooksPartial, BigEndian;
      ghost var c, st0 := crypt.cipher, ZeroState(crypt.cipher);
      ghost var r := Cfb.Cfb(c, Encrypting, st0, preamble + lit);
      litmem := LengthHeader(0);
      EmptyLength();
      ghost var ct;
      seIpMem, ct := StreamWriteSeIpLast(crypt, h, hash, litmem);
      inner := lit + litmem;
      assert hash + litmem == preamble + inner by { Assoc(preamble, lit, litmem); }
      assert r.out + ct == Sealed(c, h, preamble, inner) by {
        var mdc := Mdc(h, preamble + inner);
        CfbConcat(c, Encrypting, st0, preamble + lit, litmem + mdc);
        Assoc(preamble + lit, litmem, mdc);
      }
      ReadDefiniteBody(ct, []);
      assert LengthHeader(|ct|) + ct + [] == seIpMem;
      ReadPartialRun(next[1..], [SE_IP_VERSION] + r.out, seIpMem);
      SliceOfConcat(next, seIpMem, 1, 1);
      Assoc([SE_IP_VERSION], r.out, ct);
      next := next + seIpMem;
      ReceiveSealed(c, h, next, preamble, inner);
      Join(written, |first|);
      assert first + written[|first|..] == written;
      if name == [] {
        StreamWithoutName(mtime, first, past, run, written[|first|..]);
      } else if !LooksPartial(name, first, past) {
        StreamWithName(name, mtime, first, past, run, written[|first|..]);
      }
    }
  }

  lemma InnerGrows(run: Bytes, written: Bytes, n: nat, src: Bytes)
    requires n <= |written| && PartialRun(run, written[n..])
    ensures PartialRun(run + PartialChunks(src), (written + src)[n..])
  {
    hide PartialRun, PartialChunks;
    PartialRunChunks(src);
    PartialRunConcat(run, written[n..], PartialChunks(src), src);
    SliceOfConcat(written, src, n, n);
  }

  lemma OuterGrows(next: Bytes, out: Bytes, more: Bytes, ct: Bytes)
    requires next != [] && PartialRun(next[1..], [SE_IP_VERSION] + out) && PartialRun(more, ct)
    ensures PartialRun((next + more)[1..], [SE_IP_VERSION] + (out + ct))
  {
    hide PartialRun;
    PartialRunConcat(next[1..], [SE_IP_VERSION] + out, more, ct);
    SliceOfConcat(next, more, 1, 1);
    Assoc([SE_IP_VERSION], out, ct);
  }

  lemma PreambleRepeats(c: Cipher, rnd: Bytes)
    requires (c.blsize == 8 || c.blsize == 16) && |rnd| == c.blsize
    ensures ValidPreamble(c, Preamble(rnd))
  {
  }

  lemma NothingMore(lit: Bytes, written: Bytes)
    ensures lit + [] == lit && written[|written|..] == [] && PartialRun([], [])
  {
  }

  lemma PrefixIsShorter(a: Bytes, b: Bytes)
    requires a <= b
    ensures |a| <= |b|
  {
  }

  lemma EmptyLength()
    ensures LengthHeader(0) == [0] && LengthHeader(0) + [] + [] == [0] && ReadBody(LengthHeader(0)) == Some(([], []))
  {
  }

  lemma LiteralBodySize(name: Bytes, mtime: nat, data: Bytes)
    requires |name| <= 255
    ensures |LiteralBody(name, mtime, data)| == 6 + |name| + |data|
  {
  }

  /** The packet is longer than its data and at most 12 octets longer than name and data. */
  lemma LitdataSize(name: Bytes, mtime: nat, data: Bytes)
    requires |name| <= 255
    ensures var n := |data| % UINT_RANGE;
            8 + |name| + n <= |WriteLitdata(name, mtime, data)| <= 12 + |name| + n
  {
    hide BigEndian;
  }

  lemma {:induction false} PartialRunSize(s: Bytes, body: Bytes)
    requires PartialRun(s, body)
    ensures |s| >= |body|
    decreases |s|
  {
    hide Pow2;
    if s != [] {
      var n := Pow2(s[0] - 224);
      PartialRunSize(s[1 + n..], body[n..]);
    }
  }

  lemma LiteralBodyGrows(mtime: nat, data: Bytes, more: Bytes)
    ensures LiteralBody([], mtime, data) + more == LiteralBody([], mtime, data + more)
  {
    hide BigEndian;
  }

  // --- what is sent, octet by octet ---

  /** The plaintext behind a packet: the random block with its last two octets repeated, the data, and
      the code of section 5.14 of RFC 4880: D3 14 and the hash of everything up to and including these
      two octets. */
  predicate InOrder(h: Sha1, rnd: Bytes, inner: Bytes, plain: Bytes)
  {
    var b, n := |rnd|, |plain|;
    b >= 2 && n == b + 2 + |inner| + 22
    && plain[..b] == rnd && plain[b] == rnd[b - 2] && plain[b + 1] == rnd[b - 1] && plain[b + 2..n - 22] == inner
    && plain[n - 22] == 0xD3 && plain[n - 21] == 20
    && var code := plain[n - 20..]; forall i :: 0 <= i < 20 ==> code[i] == h(plain[..n - 20], i)
  }

  lemma PlainInOrder(h: Sha1, rnd: Bytes, inner: Bytes)
    requires |rnd| >= 2
    ensures InOrder(h, rnd, inner, SeIpPlain(h, Preamble(rnd), inner))
  {
    var pre, b := Preamble(rnd), |rnd|;
    var plain := SeIpPlain(h, pre, inner);
    var n := |plain|;
    var d := Digest(h, pre + inner + MDC_HEADER);
    assert plain == (pre + inner + MDC_HEADER) + d;
    PrefixAndRest(pre + inner + MDC_HEADER, d);
    assert plain[..n - 20] == pre + inner + MDC_HEADER;
    assert plain[n - 20..] == d;
  }

  lemma SealedInOrder(c: Cipher, h: Sha1, rnd: Bytes, inner: Bytes)
    requires (c.blsize == 8 || c.blsize == 16) && |rnd| == c.blsize
    ensures var ct := Sealed(c, h, Preamble(rnd), inner);
            InOrder(h, rnd, inner, Cfb.Cfb(c, Decrypting, CfbState(seq(c.blsize, _ => 0), 0), ct).out)
  {
    hide Cfb.Cfb, InOrder, SeIpPlain, Preamble;
    PlainInOrder(h, rnd, inner);
    DecryptInverts(c, ZeroState(c), SeIpPlain(h, Preamble(rnd), inner));
    assert CfbState(seq(c.blsize, _ => 0), 0) == ZeroState(c);
  }

  /** The octets of a literal packet in front of its data. */
  function LiteralHead(name: Bytes, mtime: nat): (r: Bytes)
    requires |name| <= 255
  {
    var n: Octet := |name|;
    [0x62, n] + name + Big4(mtime)
  }

  lemma LiteralBodyIs(name: Bytes, mtime: nat, data: Bytes)
    requires |name| <= 255
    ensures LiteralBody(name, mtime, data) == LiteralHead(name, mtime) + data
  {
    InOctets(mtime);
  }

  /** A streamed literal starts as a literal does, whatever its name. */
  lemma StreamStart(name: Bytes, mtime: nat, data: Bytes, past: Bytes, run: Bytes)
    requires Openable(name, data, past)
    ensures var inner := InnerStream(name, mtime, data, past, run);
            |inner| >= 8 + |name| && inner[0] == 0xCB && 224 + 9 <= inner[1] <= 224 + 30
            && inner[2..8 + |name|] == LiteralHead(name, mtime)
  {
    hide LitdataFirst, LiteralHead, PartialChunks, LiteralBody, LengthHeader, Pow2, PartialExponent, Taken;
    var first, e := LitdataFirst(name, mtime, data, past), FirstExponent(name, data);
    OpeningShape(name, mtime, data, past);
    FirstChunkMatches(name, mtime, data, past);
    FirstChunkSize(6 + |name| + |data|);
    var head, kept := LiteralHead(name, mtime), Taken(name, data, past)[..Pow2(e) - 6];
    LiteralBodyIs(name, mtime, kept);
    var chunk := FirstChunk(name, mtime, data, past);
    LiteralHeadSize(name, mtime);
    PrefixAndRest(head, kept);
    var inner := InnerStream(name, mtime, data, past, run);
    assert inner[1..] == first[1..] + run + LengthHeader(0);
    assert inner[2..8 + |name|] == chunk[..6 + |name|];
  }

  lemma LiteralHeadSize(name: Bytes, mtime: nat)
    requires |name| <= 255
    ensures |LiteralHead(name, mtime)| == 6 + |name|
  {
  }

  // --- whole sessions ---

  /** The data a run of writes opens the stream with: all of it up to and including the write
      that reaches 512 octets. */
  function Opening(writes: seq<Bytes>): (r: Bytes)
  {
    if writes == [] then []
    else
      var before := Opening(writes[..|writes| - 1]);
      if |before| >= 512 then before else before + writes[|writes| - 1]
  }

  lemma {:induction false} OpeningIsPrefix(writes: seq<Bytes>)
    ensures Opening(writes) <= Flatten(writes)
    ensures |Flatten(writes)| < 512 ==> Opening(writes) == Flatten(writes)
    ensures |Flatten(writes)| >= 512 ==> |Opening(writes)| >= 512
  {
    if writes != [] {
      OpeningIsPrefix(writes[..|writes| - 1]);
    }
  }

  /** Every write in turn, then the finaliser; `beyond` is what follows each buffer in memory.
      For any run of writes and any file name, unless the octet met as second length header looks
      like a partial length, the receiver gets the concatenation of the writes if and only if all
      of it was buffered, or there is no file name and the first streamed write keeps within the
      32-bit cast. */
  method EncryptSession(c: Cipher, h: Sha1, name: Bytes, mtime: nat, rnd: Bytes, writes: seq<Bytes>, beyond: Bytes)
    returns (out: Bytes, ghost ct: Bytes, ghost inner: Bytes)
    requires c.blsize == 8 || c.blsize == 16
    requires |rnd| == c.blsize && |beyond| >= |name| && |name| <= 255
    ensures var all, first := Flatten(writes), Opening(writes);
            |all| < 512 || !LooksPartial(name, first, beyond) ==>
              (Receive(c, h, out) == Some(Literal(LDT_BINARY, name, BigEndian(mtime, 4), all))
               <==> |all| < 512 || (name == [] && |first| + 6 < 0x1_4000_0000))
    ensures |Flatten(writes)| >= 512 ==> |out| >= 2 && out[0] == TAG_SE_IP && 224 + 9 <= out[1] <= 224 + 30
    ensures ReadPacket(0xD2, out) == Some(([1] + ct, []))
    ensures InOrder(h, rnd, inner, Cfb.Cfb(c, Decrypting, CfbState(seq(c.blsize, _ => 0), 0), ct).out)
    ensures InnerStarts(name, mtime, Flatten(writes), inner)
  {
    hide Receive, BigEndian, LooksPartial, LitdataConsumed, Cfb.Cfb, PartialRun, Preamble;
    var w := new StreamEncryptor(c, h, name, mtime);
    for i := 0 to |writes|
      invariant w.Valid() && fresh(w) && fresh(w.crypt) && fresh(w.crypt.iv)
      invariant w.crypt.cipher == c && w.written == Flatten(writes[..i]) && w.first == Opening(writes[..i])
      invariant |w.first| >= 512 ==> w.past == beyond && w.preamble == Preamble(rnd)
      invariant |w.written| >= 512 ==> w.Streaming()
    {
      TakeSnoc(writes, i);
      OpeningIsPrefix(writes[..i]);
      OpeningIsPrefix(writes[..i + 1]);
      w.Write(writes[i], beyond, rnd);
    }
    assert writes[..|writes|] == writes;
    OpeningIsPrefix(writes);
    inner := w.Finalise(rnd);
    out, ct := w.next, Sealed(c, h, Preamble(rnd), inner);
    SealedInOrder(c, h, rnd, inner);
    SessionStarts(name, mtime, Flatten(writes), w.first, w.past, w.run, inner);
    if |Flatten(writes)| >= 512 {
      KeptAll(Opening(writes), Flatten(writes));
    }
  }

  /** The packet inside: a whole literal packet when everything was buffered, else the opening of one
      with a first part of at least 512 octets. */
  predicate InnerStarts(name: Bytes, mtime: nat, all: Bytes, inner: Bytes)
    requires |name| <= 255
  {
    if |all| < 512 then inner == [0xCB] + LengthHeader(6 + |name| + |all|) + LiteralHead(name, mtime) + all
    else |inner| >= 8 + |name| && inner[0] == 0xCB && 224 + 9 <= inner[1] <= 224 + 30
         && inner[2..8 + |name|] == LiteralHead(name, mtime)
  }

  lemma SessionStarts(name: Bytes, mtime: nat, all: Bytes, first: Bytes, past: Bytes, run: Bytes, inner: Bytes)
    requires |name| <= 255
    requires if |all| < 512 then inner == WriteLitdata(name, mtime, all)
             else Openable(name, first, past) && inner == InnerStream(name, mtime, first, past, run)
    ensures InnerStarts(name, mtime, all, inner)
  {
    hide LiteralHead, LiteralBody, InnerStream, LengthHeader;
    if |all| < 512 {
      assert all[..|all| % UINT_RANGE] == all;
      LiteralBodyIs(name, mtime, all);
      Assoc([0xCB] + LengthHeader(6 + |name| + |all|), LiteralHead(name, mtime), all);
    } else {
      StreamStart(name, mtime, first, past, run);
    }
  }

  /** What the receiver keeps is everything if and only if the cast lost nothing. */
  lemma KeptAll(first: Bytes, all: Bytes)
    requires first <= all && |first| >= 512
    ensures var n := LitdataConsumed(0, |first|);
            n <= |first| && (first[..n] + all[|first|..] == all <==> |first| + 6 < 0x1_4000_0000)
  {
    hide LitdataConsumed;
    LitdataConsumedExactly(0, |first|);
    var n := LitdataConsumed(0, |first|);
    if n == |first| {
      assert first[..n] == first && first + all[|first|..] == all;
    } else {
      assert |first[..n] + all[|first|..]| < |all|;
    }
  }

  /** `encrypt_se_ip_writer` without compression, on a fresh cipher object, with its two size
      checks: for any file name and any data the receiver gets the data back if and only if every
      length on the way fits 32 bits. */
  method EncryptOneShot(c: Cipher, h: Sha1, name: Bytes, mtime: nat, rnd: Bytes, src: Bytes)
    returns (ok: bool, out: Bytes, ghost ct: Bytes, ghost inner: Bytes)
    requires c.blsize == 8 || c.blsize == 16
    requires |rnd| == c.blsize && |name| <= 255
    ensures Receive(c, h, out) == Some(Literal(LDT_BINARY, name, BigEndian(mtime, 4), src))
            <==> 6 + |name| + |src| < UINT_RANGE && c.blsize + 24 + |WriteLitdata(name, mtime, src)| < UINT_MAX
    ensures !ok ==> out == []
    ensures ok ==> out == [0xD2] + LengthHeader((1 + |ct|) % 0x1_0000_0000) + ([1] + ct)
                   && InOrder(h, rnd, inner, Cfb.Cfb(c, Decrypting, CfbState(seq(c.blsize, _ => 0), 0), ct).out)
    ensures ok ==> inner == Low([0xCB] + LengthHeader((6 + |name| + |src|) % 0x1_0000_0000) + LiteralHead(name, mtime)
                                + Low(src))
  {
    hide *;
    NothingReceived(c, h);
    LitdataIs(name, mtime, src);
    ct, inner := [], [];
    var litmem := WriteLitdata(name, mtime, src);
    if |litmem| <= |src| {
      OneShotRefused(c, name, mtime, src);
      return false, [], [], [];
    }
    var buffer := Low(litmem);
    inner := buffer;
    ok, out, ct := SealPktset(c, h, rnd, buffer);
    if !ok || |out| <= |litmem| {
      OneShotRefused(c, name, mtime, src);
      return false, [], [], [];
    }
    OneShotReceived(c, h, rnd, name, mtime, src, ct, out);
  }

  /** Where the writer gives up, some length does not fit. */
  lemma OneShotRefused(c: Cipher, name: Bytes, mtime: nat, src: Bytes)
    requires |name| <= 255
    ensures var lit := WriteLitdata(name, mtime, src);
            |lit| <= |src| || c.blsize + 24 + |Low(lit)| > UINT_MAX || c.blsize + 27 + |Low(lit)| <= |lit| ==>
              6 + |name| + |src| >= UINT_RANGE || c.blsize + 24 + |lit| >= UINT_MAX
  {
    hide WriteLitdata;
    LitdataSize(name, mtime, src);
    if |src| < UINT_RANGE {
      assert |src| % UINT_RANGE == |src|;
    }
  }

  /** The encrypting half: a fresh cipher object and one packet. */
  method SealPktset(c: Cipher, h: Sha1, rnd: Bytes, inner: Bytes) returns (ok: bool, out: Bytes, ghost ct: Bytes)
    requires (c.blsize == 8 || c.blsize == 16) && |rnd| == c.blsize
    ensures ok <==> c.blsize + 24 + |inner| <= UINT_MAX
    ensures ok ==> ct == Sealed(c, h, Preamble(rnd), inner) && |ct| == c.blsize + 24 + |inner|
    ensures ok ==> out == [0xD2] + LengthHeader((1 + |ct|) % 0x1_0000_0000) + ([1] + ct)
    ensures ok ==> |ct| + 3 <= |out| <= |ct| + 7
    ensures ok ==> InOrder(h, rnd, inner, Cfb.Cfb(c, Decrypting, CfbState(seq(c.blsize, _ => 0), 0), ct).out)
  {
    hide Cfb.Cfb, LengthHeader, InOrder, Preamble, SeIpPlain;
    var crypt := new PgpCrypt(c, None);
    ok, out, ct := WriteSeIpPktset(crypt, h, inner, rnd);
    if ok {
      assert ct == Sealed(c, h, Preamble(rnd), inner);
      PktsetSize(ct);
      SealedInOrder(c, h, rnd, inner);
    }
  }

  /** What a receiver makes of the packet, when the buffer was not cut. */
  lemma OneShotReceived(c: Cipher, h: Sha1, rnd: Bytes, name: Bytes, mtime: nat, src: Bytes, ct: Bytes, out: Bytes)
    requires (c.blsize == 8 || c.blsize == 16) && |rnd| == c.blsize && |name| <= 255
    requires var lit := WriteLitdata(name, mtime, src);
             ct == Sealed(c, h, Preamble(rnd), Low(lit)) && |ct| == c.blsize + 24 + |Low(lit)| <= UINT_MAX
             && |lit| < |out| <= |ct| + 7 && |src| < |lit|
    requires out == [0xD2] + LengthHeader((1 + |ct|) % 0x1_0000_0000) + ([1] + ct)
    ensures Receive(c, h, out) == Some(Literal(LDT_BINARY, name, BigEndian(mtime, 4), src))
            <==> 6 + |name| + |src| < UINT_RANGE && c.blsize + 24 + |WriteLitdata(name, mtime, src)| < UINT_MAX
  {
    hide Cfb.Cfb, LengthHeader, Receive, ReadPacket, ReadInner, LiteralBody, WriteLitdata, BigEndian, Sealed, Preamble;
    var lit := WriteLitdata(name, mtime, src);
    LitdataSize(name, mtime, src);
    PktsetReads(ct);
    assert |lit| < UINT_RANGE && Low(lit) == lit;
    LitdataReads(name, mtime, src);
    if |ct| < UINT_MAX {
      PreambleRepeats(c, rnd);
      ReadInnerLiteral(lit, name, mtime, src);
      ReceiveSealed(c, h, out, Preamble(rnd), lit);
    } else {
      LeftOver(c, h, out, [SE_IP_VERSION] + ct);
    }
  }

  lemma LitdataIs(name: Bytes, mtime: nat, data: Bytes)
    requires |name| <= 255
    ensures WriteLitdata(name, mtime, data)
            == [0xCB] + LengthHeader((6 + |name| + |data|) % 0x1_0000_0000) + LiteralHead(name, mtime) + Low(data)
  {
    hide LengthHeader, LiteralHead, LiteralBody;
    var kept := Low(data);
    LiteralBodyIs(name, mtime, kept);
    Assoc([0xCB] + LengthHeader((6 + |name| + |data|) % 0x1_0000_0000), LiteralHead(name, mtime), kept);
  }

  lemma PktsetSize(ct: Bytes)
    requires |ct| <= UINT_MAX
    ensures var out := [TAG_SE_IP] + LengthHeader((1 + |ct|) % 0x1_0000_0000) + ([SE_IP_VERSION] + ct);
            |ct| + 3 <= |out| <= |ct| + 7
  {
  }

  lemma NothingReceived(c: Cipher, h: Sha1)
    requires c.blsize == 8 || c.blsize == 16
    ensures Receive(c, h, []) == None
  {
  }

  lemma LeftOver(c: Cipher, h: Sha1, s: Bytes, t: Bytes)
    requires c.blsize == 8 || c.blsize == 16
    requires ReadPacket(TAG_SE_IP, s) == Some(([], t)) && t != []
    ensures Receive(c, h, s) == None
  {
  }
}
