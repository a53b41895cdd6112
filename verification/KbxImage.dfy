/** Reading a keybox image back, and writing and reading a whole store (src/librekey/key_store_kbx.c). */
module KbxImage {
  import opened Octets
  import opened Memory
  import opened SeIp
  import opened Kbx

  datatype KeyRecord = KeyRecord(fp: Bytes, keyIdAt: nat)

  /** What `rnp_key_store_kbx_parse_pgp_blob` takes from a blob. */
  datatype PgpBlob = PgpBlob(off: nat, kbLen: nat, keys: seq<KeyRecord>, uids: seq<(nat, nat)>, sigs: seq<nat>,
                             latest: nat, created: nat)

  /** A blob of the store: its octets and, for a key, the parsed fields. */
  datatype Entry = Plain(image: Bytes) | HeaderBlob(image: Bytes) | KeyBlob(image: Bytes, blob: PgpBlob)

  /** Whether the packet reader accepts a keyblock. */
  type PacketReader = Bytes -> bool

  // --- the reader ---

  function Ru16(s: Bytes, at: nat): (r: nat)
  {
    if at + 2 <= |s| then FromBigEndian(s[at..at + 2]) else 0
  }

  function Ru32(s: Bytes, at: nat): (r: nat)
  {
    if at + 4 <= |s| then FromBigEndian(s[at..at + 4]) else 0
  }

  function ReadKey(s: Bytes, at: nat): (r: KeyRecord)
  {
    KeyRecord(if at + FP <= |s| then s[at..at + FP] else [], Ru32(s, at + FP))
  }

  function ReadKeys(s: Bytes, at: nat, stride: nat, n: nat): (r: seq<KeyRecord>)
    ensures |r| == n
  {
    if n == 0 then [] else ReadKeys(s, at, stride, n - 1) + [ReadKey(s, at + stride * (n - 1))]
  }

  function ReadUids(s: Bytes, at: nat, stride: nat, n: nat): (r: seq<(nat, nat)>)
    ensures |r| == n
  {
    if n == 0 then []
    else
      var here := at + stride * (n - 1);
      ReadUids(s, at, stride, n - 1) + [(Ru32(s, here), Ru32(s, here + 4))]
  }

  function ReadSigs(s: Bytes, at: nat, stride: nat, n: nat): (r: seq<nat>)
    ensures |r| == n
  {
    if n == 0 then [] else ReadSigs(s, at, stride, n - 1) + [Ru32(s, at + stride * (n - 1))]
  }

  /** The fields of the blob of `len` octets at the start of `s`, the rest of the memory. */
  function ParsePgp(s: Bytes, len: nat): (r: Option<PgpBlob>)
  {
    if |s| < 20 || s[5] != 1 then None
    else
      var off, kbLen, nkeys, keysLen := Ru32(s, 8), Ru32(s, 12), Ru16(s, 16), Ru16(s, 18);
      var keysEnd := 20 + keysLen * nkeys;
      if off > len || len < (off + kbLen) % 0x1_0000_0000 || nkeys < 1 || keysLen < 28 || |s| < keysEnd + 2 then None
      else
        var snSize := Ru16(s, keysEnd);
        if snSize > len - (keysEnd + 2) then None
        else ParseUids(s, keysEnd + 2 + snSize, PgpBlob(off, kbLen, ReadKeys(s, 20, keysLen, nkeys), [], [], 0, 0))
  }

  function ParseUids(s: Bytes, at: nat, b: PgpBlob): (r: Option<PgpBlob>)
  {
    if |s| < at + 4 then None
    else
      var nuids, uidsLen := Ru16(s, at), Ru16(s, at + 2);
      if uidsLen < 12 then None
      else ParseSigs(s, at + 4 + uidsLen * nuids, b.(uids := ReadUids(s, at + 4, uidsLen, nuids)))
  }

  function ParseSigs(s: Bytes, at: nat, b: PgpBlob): (r: Option<PgpBlob>)
  {
    if |s| < at + 4 then None
    else
      var nsigs, sigsLen := Ru16(s, at), Ru16(s, at + 2);
      var end := at + 4 + sigsLen * nsigs;
      if sigsLen < 4 || |s| < end + 16 then None
      else Some(WithSigs(b, ReadSigs(s, at + 4, sigsLen, nsigs), Ru32(s, end + 8), Ru32(s, end + 12)))
  }

  function WithSigs(b: PgpBlob, sigs: seq<nat>, latest: nat, created: nat): (r: PgpBlob)
  {
    PgpBlob(b.off, b.kbLen, b.keys, b.uids, sigs, latest, created)
  }

  /** The header blob: exact length, version 1, the magic string in either case. */
  predicate ValidHeader(s: Bytes, len: nat)
  {
    len == 32 && |s| >= 32 && s[5] == 1
    && s[8] in {75, 107} && s[9] in {66, 98} && s[10] in {88, 120} && s[11] in {70, 102}
  }

  /** The octets the keyblock fields point at. */
  function Keyblock(s: Bytes, b: PgpBlob): (r: Bytes)
  {
    if b.off + b.kbLen <= |s| then s[b.off..b.off + b.kbLen] else []
  }

  /** One turn of the loop of `rnp_key_store_kbx_from_mem`. */
  function ReadEntry(s: Bytes, accepts: PacketReader): (r: Option<Entry>)
    ensures r.Some? ==> 5 <= |r.value.image| == Ru32(s, 0) <= |s| && r.value.image == s[..|r.value.image|]
    ensures r.Some? ==> |r.value.image| <= LIMIT
    ensures r.Some? && r.value.KeyBlob? ==> ParsePgp(s, |r.value.image|) == Some(r.value.blob)
    ensures r.Some? && r.value.Plain? ==> PlainImage(r.value.image)
  {
    var len := Ru32(s, 0);
    if |s| < 4 || len > LIMIT || |s| < len || len < 5 then None
    else if s[4] == EMPTY || s[4] == X509 then
      assert s[..len][0..4] == s[0..4];
      Some(Plain(s[..len]))
    else if s[4] == HEADER then if ValidHeader(s, len) then Some(HeaderBlob(s[..len])) else None
    else if s[4] == PGP then
      match ParsePgp(s, len)
      case None => None
      case Some(b) => if b.kbLen == 0 || !accepts(Keyblock(s, b)) then None else Some(KeyBlob(s[..len], b))
    else None
  }

  /** Every blob of an image, or nothing when one is refused. */
  function ReadImage(s: Bytes, accepts: PacketReader): (r: Option<seq<Entry>>)
    decreases |s|
  {
    if s == [] then Some([])
    else
      match ReadEntry(s, accepts)
      case None => None
      case Some(e) => Prepend([e], ReadImage(s[|e.image|..], accepts))
  }

  function Prepend(es: seq<Entry>, r: Option<seq<Entry>>): (q: Option<seq<Entry>>)
  {
    if r.Some? then Some(es + r.value) else None
  }

  function Images(es: seq<Entry>): (r: Bytes)
  {
    if es == [] then [] else es[0].image + Images(es[1..])
  }

  /** The blobs of an accepted image are the whole image, in order and without gaps. */
  lemma {:induction false} BlobsCoverImage(s: Bytes, accepts: PacketReader)
    requires ReadImage(s, accepts).Some?
    ensures Images(ReadImage(s, accepts).value) == s
    ensures forall e <- ReadImage(s, accepts).value :: e.Plain? ==> PlainImage(e.image)
    decreases |s|
  {
    hide ReadEntry;
    if s != [] {
      var e := ReadEntry(s, accepts).value;
      BlobsCoverImage(s[|e.image|..], accepts);
      var rest := ReadImage(s[|e.image|..], accepts).value;
      assert ([e] + rest)[1..] == rest;
      Join(s, |e.image|);
    }
  }

  // --- the reader's loops ---

  method ReadKeyRecords(s: Bytes, image: nat, stride: nat, n: nat) returns (keys: seq<KeyRecord>, end: nat)
    ensures keys == ReadKeys(s, image, stride, n) && end == image + stride * n
  {
    keys, end := [], image;
    for i := 0 to n
      invariant keys == ReadKeys(s, image, stride, i) && end == image + stride * i
    {
      keys := keys + [ReadKey(s, end)];
      end := end + stride;
    }
  }

  method ReadUidRecords(s: Bytes, image: nat, stride: nat, n: nat) returns (uids: seq<(nat, nat)>, end: nat)
    ensures uids == ReadUids(s, image, stride, n) && end == image + stride * n
  {
    uids, end := [], image;
    for i := 0 to n
      invariant uids == ReadUids(s, image, stride, i) && end == image + stride * i
    {
      uids := uids + [(Ru32(s, end), Ru32(s, end + 4))];
      end := end + stride;
    }
  }

  method ReadSigRecords(s: Bytes, image: nat, stride: nat, n: nat) returns (sigs: seq<nat>, end: nat)
    ensures sigs == ReadSigs(s, image, stride, n) && end == image + stride * n
  {
    sigs, end := [], image;
    for i := 0 to n
      invariant sigs == ReadSigs(s, image, stride, i) && end == image + stride * i
    {
      sigs := sigs + [Ru32(s, end)];
      end := end + stride;
    }
  }

  /** `rnp_key_store_kbx_parse_pgp_blob`. */
  method ParsePgpBlob(s: Bytes, len: nat) returns (r: Option<PgpBlob>)
    ensures r == ParsePgp(s, len)
  {
    hide Ru16, Ru32, ReadKeys, ReadUids, ReadSigs;
    if |s| < 20 || s[5] != 1 {
      return None;
    }
    var image := 8;
    var off, kbLen := Ru32(s, image), Ru32(s, image + 4);
    image := image + 8;
    if off > len || len < (off + kbLen) % 0x1_0000_0000 {
      return None;
    }
    var nkeys, keysLen := Ru16(s, image), Ru16(s, image + 2);
    image := image + 4;
    if nkeys < 1 || keysLen < 28 {
      return None;
    }
    var keys, uids, sigs;
    keys, image := ReadKeyRecords(s, image, keysLen, nkeys);
    if |s| < image + 2 {
      return None;
    }
    var snSize := Ru16(s, image);
    image := image + 2;
    if snSize > len - image {
      return None;
    }
    image := image + snSize;
    if |s| < image + 4 {
      return None;
    }
    var nuids, uidsLen := Ru16(s, image), Ru16(s, image + 2);
    image := image + 4;
    if uidsLen < 12 {
      return None;
    }
    uids, image := ReadUidRecords(s, image, uidsLen, nuids);
    if |s| < image + 4 {
      return None;
    }
    var nsigs, sigsLen := Ru16(s, image), Ru16(s, image + 2);
    image := image + 4;
    if sigsLen < 4 {
      return None;
    }
    sigs, image := ReadSigRecords(s, image, sigsLen, nsigs);
    if |s| < image + 16 {
      return None;
    }
    return Some(PgpBlob(off, kbLen, keys, uids, sigs, Ru32(s, image + 8), Ru32(s, image + 12)));
  }

  /** `rnp_key_store_kbx_parse_blob` and the keyblock part of the loop. */
  method ParseBlob(s: Bytes, len: nat, accepts: PacketReader) returns (r: Option<Entry>)
    requires len == Ru32(s, 0) && 4 <= |s| && len <= LIMIT && len <= |s|
    ensures r == ReadEntry(s, accepts)
  {
    hide Ru32, Ru16, ParsePgp;
    if len < 5 {
      return None;
    }
    match s[4] {
      case 0 =>
        r := Some(Plain(s[..len]));
      case 1 =>
        r := if ValidHeader(s, len) then Some(HeaderBlob(s[..len])) else None;
      case 2 =>
        var b := ParsePgpBlob(s, len);
        if b.None? || b.value.kbLen == 0 || !accepts(Keyblock(s, b.value)) {
          return None;
        }
        r := Some(KeyBlob(s[..len], b.value));
      case 3 =>
        r := Some(Plain(s[..len]));
      case _ =>
        r := None;
    }
  }

  /** `rnp_key_store_kbx_from_mem`. */
  method FromMem(m: PgpMemory, accepts: PacketReader) returns (r: Option<seq<Entry>>)
    requires m.Valid()
    ensures r == ReadImage(m.Contents(), accepts)
  {
    hide Ru32, ReadEntry, ReadImage;
    var hasBytes: nat, buf: nat := m.length, 0;
    var blobs := [];
    ghost var s := m.Contents();
    assert s[0..] == s && |s| == m.length;
    assert ReadImage(s, accepts) == Prepend([], ReadImage(s[0..], accepts)) by {
      NothingYet(ReadImage(s, accepts));
    }
    while hasBytes > 0
      invariant hasBytes + buf == m.length == |s| && s == m.Contents()
      invariant ReadImage(s, accepts) == Prepend(blobs, ReadImage(s[buf..], accepts))
    {
      var rest := m.buf[buf..m.length];
      assert rest == s[buf..];
      ImageStep(rest, accepts);
      RefusedLength(rest, accepts);
      if |rest| < 4 {
        return None;
      }
      var blobLength := Ru32(rest, 0);
      if blobLength > LIMIT || hasBytes < blobLength {
        return None;
      }
      var e := ParseBlob(rest, blobLength, accepts);
      if e.None? {
        return None;
      }
      Prepending(blobs, [e.value], ReadImage(rest[blobLength..], accepts));
      blobs := blobs + [e.value];
      hasBytes := hasBytes - blobLength;
      DropSlice(s, buf, buf + blobLength);
      buf := buf + blobLength;
    }
    assert s[buf..] == [] && blobs + [] == blobs;
    NothingThere(accepts);
    return Some(blobs);
  }

  lemma ImageStep(s: Bytes, accepts: PacketReader)
    requires s != []
    ensures var e := ReadEntry(s, accepts);
            ReadImage(s, accepts)
            == if e.None? then None else Prepend([e.value], ReadImage(s[|e.value.image|..], accepts))
  {
    hide ReadEntry;
  }

  lemma NothingThere(accepts: PacketReader)
    ensures ReadImage([], accepts) == Some([])
  {
  }

  lemma RefusedLength(s: Bytes, accepts: PacketReader)
    ensures (|s| < 4 || Ru32(s, 0) > LIMIT || |s| < Ru32(s, 0)) ==> ReadEntry(s, accepts) == None
  {
    hide Ru32;
  }

  lemma NothingYet(r: Option<seq<Entry>>)
    ensures Prepend([], r) == r
  {
    if r.Some? {
      assert [] + r.value == r.value;
    }
  }

  lemma Prepending(a: seq<Entry>, b: seq<Entry>, r: Option<seq<Entry>>)
    ensures Prepend(a, Prepend(b, r)) == Prepend(a + b, r)
  {
    if r.Some? {
      Assoc(a, b, r.value);
    }
  }

  // --- reading what was written ---

  /** A blob written for one primary key: the key, the two clock values and the user id fields. */
  datatype Written = Written(p: Primary, latest: nat, created: nat, fields: seq<(nat, nat)>)

  function BlobOf(h: Sha1, w: Written): (r: Bytes)
  {
    Blob(w.p, h, w.latest, w.created, w.fields)
  }

  /** The counts fit the two-octet fields. */
  predicate CountsFit(p: Primary)
  {
    |p.subkeys| + 1 < 0x1_0000 && |p.uids| < 0x1_0000 && |p.sigs| < 0x1_0000
  }

  /** And the size fits the four-octet one. */
  predicate Fits(p: Primary)
  {
    ValidPrimary(p) && CountsFit(p) && BlobSize(p) < 0x1_0000_0000
  }

  /** An empty or X.509 blob as the reader kept it. */
  predicate PlainImage(x: Bytes)
  {
    5 <= |x| == Ru32(x, 0) <= LIMIT && (x[4] == EMPTY || x[4] == X509)
  }

  function KeyRecords(keys: seq<Key>): (r: seq<KeyRecord>)
  {
    seq(|keys|, i requires 0 <= i < |keys| => KeyRecord(keys[i].fp, 20 + 28 * i + 12))
  }

  /** What the reader should find in a written blob. */
  function Found(w: Written): (r: PgpBlob)
  {
    PgpBlob(KeyblockAt(w.p), |Packets(Keys(w.p))|, KeyRecords(Keys(w.p)), w.fields,
            LowWords(w.p.sigs), w.latest % 0x1_0000_0000, w.created % 0x1_0000_0000)
  }

  // A read at a position is a read at the start of what follows the position.

  lemma ReadsAfter(s: Bytes, at: nat, k: nat)
    requires at <= |s|
    ensures Ru16(s, at + k) == Ru16(s[at..], k) && Ru32(s, at + k) == Ru32(s[at..], k)
    ensures ReadKey(s, at + k) == ReadKey(s[at..], k)
  {
    hide FromBigEndian;
    if at + k + 2 <= |s| {
      assert s[at + k..at + k + 2] == s[at..][k..k + 2];
    }
    RuAfter32(s, at, k);
    RuAfter32(s, at, k + FP);
    if at + k + FP <= |s| {
      assert s[at + k..at + k + FP] == s[at..][k..k + FP];
    }
  }

  lemma RuAfter32(s: Bytes, at: nat, k: nat)
    requires at <= |s|
    ensures Ru32(s, at + k) == Ru32(s[at..], k)
  {
    hide FromBigEndian;
    if at + k + 4 <= |s| {
      assert s[at + k..at + k + 4] == s[at..][k..k + 4];
    }
  }

  lemma {:induction false} RecordsAfter(s: Bytes, at: nat, stride: nat, n: nat)
    requires at <= |s|
    ensures ReadKeys(s, at, stride, n) == ReadKeys(s[at..], 0, stride, n)
    ensures ReadUids(s, at, stride, n) == ReadUids(s[at..], 0, stride, n)
    ensures ReadSigs(s, at, stride, n) == ReadSigs(s[at..], 0, stride, n)
  {
    hide Ru16, Ru32, ReadKey;
    if n > 0 {
      RecordsAfter(s, at, stride, n - 1);
      var k := stride * (n - 1);
      ReadsAfter(s, at, k);
      ReadsAfter(s, at, k + 4);
    }
  }

  lemma WordReads(v: nat, t: Bytes)
    ensures Ru32(BigEndian(v, 4) + t, 0) == v % 0x1_0000_0000
    ensures Ru16(BigEndian(v, 2) + t, 0) == v % 0x1_0000
  {
    hide BigEndian, FromBigEndian;
    PrefixAndRest(BigEndian(v, 4), t);
    PrefixAndRest(BigEndian(v, 2), t);
    BigEndianValue(v, 4);
    BigEndianValue(v, 2);
    Pow256Values();
  }

  /** A word read behind a prefix. */
  lemma WordReadsAt(a: Bytes, v: nat, t: Bytes)
    ensures Ru32(a + (BigEndian(v, 4) + t), |a|) == v % 0x1_0000_0000
    ensures Ru16(a + (BigEndian(v, 2) + t), |a|) == v % 0x1_0000
  {
    hide BigEndian, FromBigEndian, Ru16, Ru32;
    WordReads(v, t);
    PrefixAndRest(a, BigEndian(v, 4) + t);
    ReadsAfter(a + (BigEndian(v, 4) + t), |a|, 0);
    PrefixAndRest(a, BigEndian(v, 2) + t);
    ReadsAfter(a + (BigEndian(v, 2) + t), |a|, 0);
  }

  lemma KeyInfoReads(fp: Bytes, i: nat, t: Bytes)
    requires |fp| == FP && i < 0x1_0000
    ensures ReadKey(KeyInfo(fp, i) + t, 0) == KeyRecord(fp, 20 + 28 * i + 12)
  {
    hide BigEndian, Ru32;
    var off := 20 + 28 * i + 12;
    var z: Bytes := [0, 0, 0, 0];
    Assoc(fp, BigEndian(off, 4), z);
    Assoc(fp, BigEndian(off, 4) + z, t);
    Assoc(BigEndian(off, 4), z, t);
    assert KeyInfo(fp, i) + t == fp + (BigEndian(off, 4) + (z + t));
    PrefixAndRest(fp, BigEndian(off, 4) + (z + t));
    WordReadsAt(fp, off, z + t);
  }

  lemma UidInfoReads(off: nat, len: nat, t: Bytes)
    requires off < 0x1_0000_0000 && len < 0x1_0000_0000
    ensures Ru32(UidInfo(off, len) + t, 0) == off && Ru32(UidInfo(off, len) + t, 4) == len
  {
    hide BigEndian, Ru32;
    var z: Bytes := [0, 0, 0, 0];
    Assoc(BigEndian(off, 4), BigEndian(len, 4), z);
    Assoc(BigEndian(off, 4), BigEndian(len, 4) + z, t);
    Assoc(BigEndian(len, 4), z, t);
    assert UidInfo(off, len) + t == BigEndian(off, 4) + (BigEndian(len, 4) + (z + t));
    WordReads(off, BigEndian(len, 4) + (z + t));
    WordReadsAt(BigEndian(off, 4), len, z + t);
  }

  lemma {:induction false} KeyInfosRead(keys: seq<Key>, t: Bytes)
    requires |keys| <= 0x1_0000 && forall j :: 0 <= j < |keys| ==> |keys[j].fp| == FP
    ensures ReadKeys(KeyInfos(keys, 0) + t, 0, 28, |keys|) == KeyRecords(keys)
  {
    hide KeyInfo, KeyInfos, ReadKey;
    if keys != [] {
      var n := |keys| - 1;
      var init, k := keys[..n], keys[n];
      assert keys == init + [k];
      KeyInfosSnoc(init, 0, k);
      KeyInfosSize(init, 0);
      Assoc(KeyInfos(init, 0), KeyInfo(k.fp, n), t);
      KeyInfosRead(init, KeyInfo(k.fp, n) + t);
      PrefixAndRest(KeyInfos(init, 0), KeyInfo(k.fp, n) + t);
      ReadsAfter(KeyInfos(keys, 0) + t, 28 * n, 0);
      KeyInfoReads(k.fp, n, t);
      assert KeyRecords(keys) == KeyRecords(init) + [KeyRecord(k.fp, 20 + 28 * n + 12)];
    }
  }

  predicate SmallFields(fields: seq<(nat, nat)>)
  {
    forall j :: 0 <= j < |fields| ==> fields[j].0 < 0x1_0000_0000 && fields[j].1 < 0x1_0000_0000
  }

  lemma {:induction false} UidInfosRead(fields: seq<(nat, nat)>, t: Bytes)
    requires SmallFields(fields)
    ensures ReadUids(UidInfos(fields) + t, 0, 12, |fields|) == fields
  {
    hide UidInfo, UidInfos, Ru32;
    if fields != [] {
      var n := |fields| - 1;
      var init, f := fields[..n], fields[n];
      var rec := UidInfo(f.0, f.1);
      UidInfosSnoc(fields);
      Assoc(UidInfos(init), rec, t);
      UidInfosRead(init, rec + t);
      PrefixAndRest(UidInfos(init), rec + t);
      ReadsAfter(UidInfos(fields) + t, 12 * n, 0);
      ReadsAfter(UidInfos(fields) + t, 12 * n, 4);
      UidInfoReads(f.0, f.1, t);
      assert fields == init + [f];
    }
  }

  function LowWords(ws: seq<nat>): (r: seq<nat>)
  {
    seq(|ws|, i requires 0 <= i < |ws| => ws[i] % 0x1_0000_0000)
  }

  lemma {:induction false} WordsRead(ws: seq<nat>, t: Bytes)
    ensures ReadSigs(Words(ws) + t, 0, 4, |ws|) == LowWords(ws)
  {
    hide BigEndian, Ru32;
    if ws != [] {
      var n := |ws| - 1;
      var init := ws[..n];
      var rec := BigEndian(ws[n], 4);
      Assoc(Words(init), rec, t);
      WordsRead(init, rec + t);
      PrefixAndRest(Words(init), rec + t);
      ReadsAfter(Words(ws) + t, 4 * n, 0);
      WordReads(ws[n], t);
      assert LowWords(ws) == LowWords(init) + [ws[n] % 0x1_0000_0000];
    }
  }

  lemma CountHeadReads(n: nat, size: nat, t: Bytes)
    requires size < 0x1_0000
    ensures var s := CountHead(n, size) + t; Ru16(s, 0) == n % 0x1_0000 && Ru16(s, 2) == size && s[4..] == t
  {
    hide BigEndian, Ru16;
    Assoc(BigEndian(n, 2), BigEndian(size, 2), t);
    WordReads(n, BigEndian(size, 2) + t);
    WordReadsAt(BigEndian(n, 2), size, t);
    PrefixAndRest(CountHead(n, size), t);
  }

  lemma TailReads(latest: nat, created: nat, t: Bytes)
    ensures Ru32(Tail(latest, created) + t, 8) == latest % 0x1_0000_0000
    ensures Ru32(Tail(latest, created) + t, 12) == created % 0x1_0000_0000
  {
    hide BigEndian, Ru32;
    var a: Bytes, z: Bytes := [0, 0, 0, 0, 0, 0, 0, 0], [0, 0, 0, 0];
    var l, c := BigEndian(latest, 4), BigEndian(created, 4);
    Assoc(a + l + c, z, t);
    Assoc(a + l, c, z + t);
    Assoc(a, l, c + (z + t));
    WordReadsAt(a, latest, c + (z + t));
    WordReadsAt(a + l, created, z + t);
  }

  lemma FixedReads(len: nat, off: nat, kbLen: nat, n: nat, t: Bytes)
    requires len < 0x1_0000_0000 && off < 0x1_0000_0000 && kbLen < 0x1_0000_0000
    ensures var s := Fixed(len, off, kbLen, n) + t;
            Ru32(s, 0) == len && s[4] == PGP && s[5] == 1 && Ru32(s, 8) == off && Ru32(s, 12) == kbLen
            && Ru16(s, 16) == n % 0x1_0000 && Ru16(s, 18) == 28
  {
    hide BigEndian, Ru16, Ru32;
    var a: Bytes := BigEndian(len, 4) + [PGP, 1, 0, 0];
    var b := a + BigEndian(off, 4);
    var c := b + BigEndian(kbLen, 4);
    var d := c + BigEndian(n, 2);
    var t1 := BigEndian(28, 2) + t;
    var t2 := BigEndian(n, 2) + t1;
    var t3 := BigEndian(kbLen, 4) + t2;
    Assoc(d, BigEndian(28, 2), t);
    WordReadsAt(d, 28, t);
    Assoc(c, BigEndian(n, 2), t1);
    WordReadsAt(c, n, t1);
    Assoc(b, BigEndian(kbLen, 4), t2);
    WordReadsAt(b, kbLen, t2);
    Assoc(a, BigEndian(off, 4), t3);
    WordReadsAt(a, off, t3);
    Assoc(BigEndian(len, 4), [PGP, 1, 0, 0], BigEndian(off, 4) + t3);
    WordReads(len, [PGP, 1, 0, 0] + (BigEndian(off, 4) + t3));
    assert a[4] == PGP && a[5] == 1;
  }

  // The parts of a blob, met in order.

  /** What `s` holds from a position on. */
  predicate Holds(s: Bytes, at: nat, rest: Bytes)
  {
    at <= |s| && s[at..] == rest
  }

  lemma HoldsNext(s: Bytes, at: nat, a: Bytes, b: Bytes)
    requires Holds(s, at, a + b)
    ensures Holds(s, at + |a|, b) && at + |a| + |b| == |s|
  {
    PrefixAndRest(a, b);
    DropSlice(s, at, at + |a|);
  }

  /** A count and its records, at some position. */
  lemma CountAt(s: Bytes, at: nat, n: nat, size: nat, records: Bytes, t: Bytes)
    requires size < 0x1_0000 && Holds(s, at, CountHead(n, size) + (records + t))
    ensures Ru16(s, at) == n % 0x1_0000 && Ru16(s, at + 2) == size && at + 4 + |records| + |t| == |s|
    ensures Holds(s, at + 4, records + t) && Holds(s, at + 4 + |records|, t)
  {
    hide Ru16, Ru32, CountHead;
    CountHeadReads(n, size, records + t);
    ReadsAfter(s, at, 0);
    ReadsAfter(s, at, 2);
    HoldsNext(s, at, CountHead(n, size), records + t);
    HoldsNext(s, at + 4, records, t);
  }

  lemma KeysAt(s: Bytes, at: nat, keys: seq<Key>, t: Bytes)
    requires Holds(s, at, KeyInfos(keys, 0) + t)
    requires |keys| <= 0x1_0000 && forall j :: 0 <= j < |keys| ==> |keys[j].fp| == FP
    ensures ReadKeys(s, at, 28, |keys|) == KeyRecords(keys)
  {
    KeyInfosRead(keys, t);
    RecordsAfter(s, at, 28, |keys|);
  }

  lemma UidsAt(s: Bytes, at: nat, fields: seq<(nat, nat)>, t: Bytes)
    requires Holds(s, at, UidInfos(fields) + t) && SmallFields(fields)
    ensures ReadUids(s, at, 12, |fields|) == fields
  {
    UidInfosRead(fields, t);
    RecordsAfter(s, at, 12, |fields|);
  }

  lemma SigsAt(s: Bytes, at: nat, ws: seq<nat>, t: Bytes)
    requires Holds(s, at, Words(ws) + t)
    ensures ReadSigs(s, at, 4, |ws|) == LowWords(ws)
  {
    WordsRead(ws, t);
    RecordsAfter(s, at, 4, |ws|);
  }

  lemma TailAt(s: Bytes, at: nat, latest: nat, created: nat, t: Bytes)
    requires Holds(s, at, Tail(latest, created) + t)
    ensures |s| >= at + 20 && Ru32(s, at + 8) == latest % 0x1_0000_0000 && Ru32(s, at + 12) == created % 0x1_0000_0000
  {
    hide Ru32, Tail;
    TailReads(latest, created, t);
    ReadsAfter(s, at, 8);
    ReadsAfter(s, at, 12);
  }

  lemma SigsParse(s: Bytes, at: nat, b: PgpBlob, ws: seq<nat>, latest: nat, created: nat, t: Bytes)
    requires |ws| < 0x1_0000 && Holds(s, at, CountHead(|ws|, 4) + (Words(ws) + (Tail(latest, created) + t)))
    ensures ParseSigs(s, at, b)
            == Some(WithSigs(b, LowWords(ws), latest % 0x1_0000_0000, created % 0x1_0000_0000))
  {
    hide *;
    var records, tail := Words(ws), Tail(latest, created) + t;
    var end := at + 4 + |records|;
    CountAt(s, at, |ws|, 4, records, tail);
    SigsAt(s, at + 4, ws, tail);
    TailAt(s, end, latest, created, t);
    assert end == at + 4 + 4 * |ws|;
    SigsStep(s, at, b, |ws|);
  }

  lemma SigsStep(s: Bytes, at: nat, b: PgpBlob, n: nat)
    requires at + 4 + 4 * n + 16 <= |s| && Ru16(s, at) == n && Ru16(s, at + 2) == 4
    ensures var end := at + 4 + 4 * n;
            ParseSigs(s, at, b) == Some(WithSigs(b, ReadSigs(s, at + 4, 4, n), Ru32(s, end + 8), Ru32(s, end + 12)))
  {
    hide Ru16, Ru32, ReadSigs;
  }

  lemma UidsParse(s: Bytes, at: nat, b: PgpBlob, fields: seq<(nat, nat)>, t: Bytes)
    requires |fields| < 0x1_0000 && SmallFields(fields)
    requires Holds(s, at, CountHead(|fields|, 12) + (UidInfos(fields) + t))
    ensures Holds(s, at + 4 + 12 * |fields|, t)
    ensures ParseUids(s, at, b) == ParseSigs(s, at + 4 + 12 * |fields|, b.(uids := fields))
  {
    hide *;
    CountAt(s, at, |fields|, 12, UidInfos(fields), t);
    UidsAt(s, at + 4, fields, t);
    UidsStep(s, at, b, |fields|);
  }

  lemma UidsStep(s: Bytes, at: nat, b: PgpBlob, n: nat)
    requires at + 4 <= |s| && Ru16(s, at) == n && Ru16(s, at + 2) == 12
    ensures ParseUids(s, at, b) == ParseSigs(s, at + 4 + 12 * n, b.(uids := ReadUids(s, at + 4, 12, n)))
  {
    hide Ru16, Ru32, ReadUids, ParseSigs;
  }

  lemma KeysParse(s: Bytes, len: nat, off: nat, kbLen: nat, keys: seq<Key>, t: Bytes)
    requires 1 <= |keys| < 0x1_0000 && forall j :: 0 <= j < |keys| ==> |keys[j].fp| == FP
    requires off + kbLen <= len < 0x1_0000_0000 && 20 + 28 * |keys| + 2 <= len
    requires Holds(s, 0, Fixed(len, off, kbLen, |keys|) + (KeyInfos(keys, 0) + (BigEndian(0, 2) + t)))
    ensures Holds(s, 22 + 28 * |keys|, t)
    ensures ParsePgp(s, len)
            == ParseUids(s, 22 + 28 * |keys|, PgpBlob(off, kbLen, KeyRecords(keys), [], [], 0, 0))
  {
    hide Ru16, Ru32, Fixed, KeyInfos, ReadKeys, ParseUids, ParsePgp, BigEndian, KeyRecords, Holds;
    var rest := BigEndian(0, 2) + t;
    FixedAt(s, len, off, kbLen, |keys|, KeyInfos(keys, 0) + rest);
    HoldsNext(s, 0, Fixed(len, off, kbLen, |keys|), KeyInfos(keys, 0) + rest);
    KeysAt(s, 20, keys, rest);
    KeyInfosSize(keys, 0);
    HoldsNext(s, 20, KeyInfos(keys, 0), rest);
    NoSerial(s, 20 + 28 * |keys|, t);
    HoldsNext(s, 20 + 28 * |keys|, BigEndian(0, 2), t);
    KeysStep(s, len, off, kbLen, |keys|);
  }

  lemma FixedAt(s: Bytes, len: nat, off: nat, kbLen: nat, n: nat, t: Bytes)
    requires len < 0x1_0000_0000 && off < 0x1_0000_0000 && kbLen < 0x1_0000_0000
    requires Holds(s, 0, Fixed(len, off, kbLen, n) + t)
    ensures |s| >= 20 && Ru32(s, 0) == len && s[4] == PGP && s[5] == 1 && Ru32(s, 8) == off && Ru32(s, 12) == kbLen
            && Ru16(s, 16) == n % 0x1_0000 && Ru16(s, 18) == 28
  {
    hide Fixed, Ru16, Ru32;
    FixedReads(len, off, kbLen, n, t);
    assert s[0..] == s;
  }

  lemma NoSerial(s: Bytes, at: nat, t: Bytes)
    requires Holds(s, at, BigEndian(0, 2) + t)
    ensures Ru16(s, at) == 0
  {
    hide BigEndian, Ru16;
    WordReads(0, t);
    ReadsAfter(s, at, 0);
  }

  lemma KeysStep(s: Bytes, len: nat, off: nat, kbLen: nat, n: nat)
    requires 1 <= n && off + kbLen <= len < 0x1_0000_0000 && 22 + 28 * n <= len && 22 + 28 * n <= |s|
    requires s[5] == 1 && Ru32(s, 8) == off && Ru32(s, 12) == kbLen && Ru16(s, 16) == n && Ru16(s, 18) == 28
    requires Ru16(s, 20 + 28 * n) == 0
    ensures ParsePgp(s, len)
            == ParseUids(s, 22 + 28 * n, PgpBlob(off, kbLen, ReadKeys(s, 20, 28, n), [], [], 0, 0))
  {
    hide Ru16, Ru32, ReadKeys, ParseUids;
  }

  lemma RightNested(f: Bytes, ki: Bytes, z: Bytes, ch: Bytes, ui: Bytes, sh: Bytes, w: Bytes, tl: Bytes, rest: Bytes)
    ensures f + (ki + (z + ch)) + ui + (sh + w + tl) + rest
            == f + (ki + (z + (ch + (ui + (sh + (w + (tl + rest)))))))
  {
    Assoc(f + (ki + (z + ch)) + ui, sh + w + tl, rest);
    Assoc(sh + w, tl, rest);
    Assoc(sh, w, tl + rest);
    var r := sh + (w + (tl + rest));
    Assoc(f + (ki + (z + ch)), ui, r);
    Assoc(f, ki + (z + ch), ui + r);
    Assoc(ki, z + ch, ui + r);
    Assoc(z, ch, ui + r);
  }

  /** The last 20 octets of a written blob. */
  function Checksum(h: Sha1, w: Written): (r: Bytes)
  {
    var p := w.p;
    Digest(h, BlobBody(p, w.latest, w.created, BlobSize(p), KeyblockAt(p), |Packets(Keys(p))|, w.fields))
  }

  lemma BlobNested(h: Sha1, w: Written, t: Bytes)
    ensures var p := w.p;
            var keys := Keys(p);
            var rest := Flatten(p.uids) + (Packets(keys) + (Checksum(h, w) + t));
            BlobOf(h, w) + t
            == Fixed(BlobSize(p), KeyblockAt(p), |Packets(keys)|, |keys|)
               + (KeyInfos(keys, 0) + (BigEndian(0, 2) + (CountHead(|p.uids|, 12) + (UidInfos(w.fields)
               + (SigHead(|p.sigs|) + (Words(p.sigs) + (Tail(w.latest, w.created) + rest)))))))
  {
    hide Fixed, KeyInfos, BigEndian, CountHead, UidInfos, Words, Tail, Flatten, Packets, BlobSize, KeyblockAt, Digest;
    var p := w.p;
    var keys := Keys(p);
    var front := Fixed(BlobSize(p), KeyblockAt(p), |Packets(keys)|, |keys|) + KeyPart(p) + UidInfos(w.fields)
                 + SigPart(p, w.latest, w.created);
    var body := front + Flatten(p.uids) + Packets(keys);
    var d := Checksum(h, w);
    assert BlobOf(h, w) == body + d;
    Assoc(body, d, t);
    Assoc(front + Flatten(p.uids), Packets(keys), d + t);
    Assoc(front, Flatten(p.uids), Packets(keys) + (d + t));
    RightNested(Fixed(BlobSize(p), KeyblockAt(p), |Packets(keys)|, |keys|), KeyInfos(keys, 0), BigEndian(0, 2),
                CountHead(|p.uids|, 12), UidInfos(w.fields), SigHead(|p.sigs|), Words(p.sigs),
                Tail(w.latest, w.created), Flatten(p.uids) + (Packets(keys) + (d + t)));
  }

  /** The reader finds in a written blob exactly what the writer put there. */
  lemma WrittenBlobParses(h: Sha1, w: Written, t: Bytes)
    requires Fits(w.p) && UidFields(w.p, w.fields)
    ensures ParsePgp(BlobOf(h, w) + t, BlobSize(w.p)) == Some(Found(w))
  {
    hide Fixed, KeyInfos, BigEndian, CountHead, UidInfos, Words, Tail, Flatten, Packets, Digest, Blob, ParsePgp,
         KeyRecords, LowWords, ParseUids, ParseSigs;
    var p, keys, s := w.p, Keys(w.p), BlobOf(h, w) + t;
    var len, off, kbLen := BlobSize(p), KeyblockAt(p), |Packets(keys)|;
    var rest := Flatten(p.uids) + (Packets(keys) + (Checksum(h, w) + t));
    var r4 := SigHead(|p.sigs|) + (Words(p.sigs) + (Tail(w.latest, w.created) + rest));
    var r2 := CountHead(|p.uids|, 12) + (UidInfos(w.fields) + r4);
    BlobNested(h, w, t);
    KeyInfosSize(keys, 0);
    FieldsAreSmall(w);
    assert s[0..] == s;
    KeysParse(s, len, off, kbLen, keys, r2);
    var at := 22 + 28 * |keys|;
    var b := PgpBlob(off, kbLen, KeyRecords(keys), [], [], 0, 0);
    UidsParse(s, at, b, w.fields, r4);
    SigsParse(s, at + 4 + 12 * |w.fields|, b.(uids := w.fields), p.sigs, w.latest, w.created, rest);
  }

  lemma {:induction false} FlattenPrefix(parts: seq<Bytes>, i: nat)
    requires i <= |parts|
    ensures |Flatten(parts[..i])| <= |Flatten(parts)|
    ensures i < |parts| ==> |parts[i]| <= |Flatten(parts)|
    decreases |parts|
  {
    if i == |parts| {
      assert parts[..i] == parts;
    } else {
      var init := parts[..|parts| - 1];
      assert parts[..i] == init[..i];
      FlattenPrefix(init, i);
    }
  }

  lemma FieldsAreSmall(w: Written)
    requires BlobSize(w.p) < 0x1_0000_0000 && UidFields(w.p, w.fields)
    ensures SmallFields(w.fields)
  {
    hide Flatten, KeyPart, SigPart, Packets;
    forall j | 0 <= j < |w.fields|
      ensures w.fields[j].0 < 0x1_0000_0000 && w.fields[j].1 < 0x1_0000_0000
    {
      FlattenPrefix(w.p.uids, j);
    }
  }

  lemma BlobLength(h: Sha1, w: Written)
    requires UidFields(w.p, w.fields)
    ensures |BlobOf(h, w)| == BlobSize(w.p)
  {
    hide BlobBody, BlobSize, Digest;
    BodySize(w.p, w.latest, w.created, BlobSize(w.p), KeyblockAt(w.p), |Packets(Keys(w.p))|, w.fields);
  }

  /** The patched offset and length find the packets of the primary key and then of each subkey. */
  lemma KeyblockFound(h: Sha1, w: Written, t: Bytes)
    requires UidFields(w.p, w.fields)
    ensures Keyblock(BlobOf(h, w) + t, Found(w)) == Packets(Keys(w.p))
  {
    hide Fixed, KeyPart, UidInfos, SigPart, Flatten, Packets, Checksum, KeyRecords, LowWords;
    var p := w.p;
    var packets := Packets(Keys(p));
    var front := Fixed(BlobSize(p), KeyblockAt(p), |packets|, 1 + |p.subkeys|) + KeyPart(p) + UidInfos(w.fields)
                 + SigPart(p, w.latest, w.created) + Flatten(p.uids);
    SigPartSize(p, w.latest, w.created);
    assert |front| == KeyblockAt(p);
    assert BlobOf(h, w) == front + packets + Checksum(h, w) by {
      BlobIsBodyAndChecksum(h, w);
    }
    Assoc(front + packets, Checksum(h, w), t);
    MiddleAndRest(front, packets, Checksum(h, w) + t);
  }

  lemma BlobIsBodyAndChecksum(h: Sha1, w: Written)
    ensures BlobOf(h, w)
            == BlobBody(w.p, w.latest, w.created, BlobSize(w.p), KeyblockAt(w.p), |Packets(Keys(w.p))|, w.fields)
               + Checksum(h, w)
  {
  }

  /** Every key-id offset points at the last 8 octets of that key's fingerprint. */
  lemma KeyIdFound(h: Sha1, w: Written, t: Bytes, i: nat)
    requires Fits(w.p) && UidFields(w.p, w.fields) && i <= |w.p.subkeys|
    ensures var at := Found(w).keys[i].keyIdAt;
            var s := BlobOf(h, w) + t;
            at + 8 <= |s| && s[at..at + 8] == Keys(w.p)[i].fp[12..]
  {
    hide Fixed, KeyInfos, BigEndian, CountHead, UidInfos, Words, Tail, Flatten, Packets, Checksum, BlobOf;
    var p, keys, s := w.p, Keys(w.p), BlobOf(h, w) + t;
    var rest := Flatten(p.uids) + (Packets(keys) + (Checksum(h, w) + t));
    var r4 := SigHead(|p.sigs|) + (Words(p.sigs) + (Tail(w.latest, w.created) + rest));
    var r1 := BigEndian(0, 2) + (CountHead(|p.uids|, 12) + (UidInfos(w.fields) + r4));
    BlobNested(h, w, t);
    var f := Fixed(BlobSize(p), KeyblockAt(p), |Packets(keys)|, |keys|);
    KeyInfoAt(keys, i, r1);
    var ki := KeyInfos(keys, 0) + r1;
    assert s == f + ki && |f| == 20;
    assert s[20 + 28 * i + 12..20 + 28 * i + 20] == ki[28 * i + 12..28 * i + 20];
    assert ki[28 * i + 12..28 * i + 20] == ki[28 * i..28 * i + 20][12..];
  }

  lemma {:induction false} KeyInfoAt(keys: seq<Key>, i: nat, t: Bytes)
    requires i < |keys| && forall j :: 0 <= j < |keys| ==> |keys[j].fp| == FP
    ensures 28 * i + 20 <= |KeyInfos(keys, 0) + t| && (KeyInfos(keys, 0) + t)[28 * i..28 * i + 20] == keys[i].fp
    decreases |keys|
  {
    hide KeyInfo, KeyInfos, BigEndian;
    var n := |keys| - 1;
    var init, k := keys[..n], keys[n];
    assert keys == init + [k];
    KeyInfosSnoc(init, 0, k);
    KeyInfosSize(init, 0);
    Assoc(KeyInfos(init, 0), KeyInfo(k.fp, n), t);
    if i < n {
      KeyInfoAt(init, i, KeyInfo(k.fp, n) + t);
    } else {
      FingerprintFirst(k.fp, n, t);
      PrefixAndRest(KeyInfos(init, 0), KeyInfo(k.fp, n) + t);
      DropSlice(KeyInfos(keys, 0) + t, 28 * n, 28 * n + 20);
    }
  }

  lemma FingerprintFirst(fp: Bytes, i: nat, t: Bytes)
    requires |fp| == FP
    ensures (KeyInfo(fp, i) + t)[..20] == fp
  {
    hide BigEndian;
  }

  /** The reader takes this blob: within the size limit and with a keyblock it can parse. */
  predicate Loads(p: Primary, accepts: PacketReader)
  {
    BlobSize(p) <= LIMIT && Packets(Keys(p)) != [] && accepts(Packets(Keys(p)))
  }

  lemma WrittenBlobReads(h: Sha1, w: Written, t: Bytes, accepts: PacketReader)
    requires Fits(w.p) && UidFields(w.p, w.fields)
    ensures ReadEntry(BlobOf(h, w) + t, accepts)
            == if Loads(w.p, accepts) then Some(KeyBlob(BlobOf(h, w), Found(w))) else None
  {
    hide Fixed, Packets, ParsePgp, Ru32, Keyblock, Keys, KeyblockAt;
    var s := BlobOf(h, w) + t;
    var packets := Packets(Keys(w.p));
    BlobLength(h, w);
    WrittenBlobParses(h, w, t);
    KeyblockFound(h, w, t);
    PrefixAndRest(BlobOf(h, w), t);
    BlobStart(h, w, t);
    assert packets == [] <==> |packets| == 0;
  }

  lemma Ru16Small(s: Bytes, at: nat)
    ensures Ru16(s, at) < 0x1_0000
  {
    if at + 2 <= |s| {
      TwoOctets(s[at..at + 2]);
    }
  }

  /** No blob parses to 65536 records or more of any kind. */
  lemma ParsedCounts(s: Bytes, len: nat)
    ensures ParsePgp(s, len).Some? ==>
              var b := ParsePgp(s, len).value;
              |b.keys| < 0x1_0000 && |b.uids| < 0x1_0000 && |b.sigs| < 0x1_0000
  {
    hide ReadKeys, ReadUids, ReadSigs, Ru16, Ru32;
    Ru16Small(s, 16);
    var uidsAt := 20 + Ru16(s, 18) * Ru16(s, 16) + 2 + Ru16(s, 20 + Ru16(s, 18) * Ru16(s, 16));
    Ru16Small(s, uidsAt);
    Ru16Small(s, uidsAt + 4 + Ru16(s, uidsAt + 2) * Ru16(s, uidsAt));
  }

  /** A written blob is visited as itself, with the fields that were stored, if and only if its
      counts fit 16 bits, it is within the size limit, and its keyblock is there and accepted. */
  lemma WrittenBlobReadsExactly(h: Sha1, w: Written, t: Bytes, accepts: PacketReader)
    requires ValidPrimary(w.p) && UidFields(w.p, w.fields)
    ensures ReadEntry(BlobOf(h, w) + t, accepts) == Some(KeyBlob(BlobOf(h, w), Found(w)))
            <==> CountsFit(w.p) && Loads(w.p, accepts)
  {
    hide ReadEntry, BlobOf, BlobSize, Packets, ParsePgp, KeyblockAt;
    var s := BlobOf(h, w) + t;
    BlobLength(h, w);
    if ReadEntry(s, accepts) == Some(KeyBlob(BlobOf(h, w), Found(w))) {
      ParsedCounts(s, BlobSize(w.p));
    }
    if CountsFit(w.p) && BlobSize(w.p) <= LIMIT {
      WrittenBlobReads(h, w, t, accepts);
    }
  }

  lemma BlobStart(h: Sha1, w: Written, t: Bytes)
    requires BlobSize(w.p) < 0x1_0000_0000
    ensures |BlobOf(h, w) + t| >= 20 && Ru32(BlobOf(h, w) + t, 0) == BlobSize(w.p) && (BlobOf(h, w) + t)[4] == PGP
    ensures Ru16(BlobOf(h, w) + t, 16) == (1 + |w.p.subkeys|) % 0x1_0000
  {
    hide Fixed, KeyInfos, BigEndian, CountHead, UidInfos, Words, Tail, Flatten, Packets, Checksum, BlobOf, Ru32, Ru16;
    var p, keys := w.p, Keys(w.p);
    BlobNested(h, w, t);
    var rest := Flatten(p.uids) + (Packets(keys) + (Checksum(h, w) + t));
    var r4 := SigHead(|p.sigs|) + (Words(p.sigs) + (Tail(w.latest, w.created) + rest));
    var r1 := BigEndian(0, 2) + (CountHead(|p.uids|, 12) + (UidInfos(w.fields) + r4));
    FixedReads(BlobSize(p), KeyblockAt(p), |Packets(keys)|, |keys|, KeyInfos(keys, 0) + r1);
  }

  // --- the whole store ---

  /** `rnp_key_store_kbx_write_header`: the 32 octets of the first blob. */
  function Header(created: nat, now: nat): (r: Bytes)
    ensures |r| == 32
  {
    BigEndian(32, 4) + [HEADER, 1, 0, 0, 75, 66, 88, 102, 0, 0, 0, 0, 0, 0, 0, 0] + BigEndian(created, 4)
    + BigEndian(now, 4) + [0, 0, 0, 0]
  }

  function Blobs(h: Sha1, ws: seq<Written>): (r: Bytes)
  {
    if ws == [] then [] else BlobOf(h, ws[0]) + Blobs(h, ws[1..])
  }

  function KeyBlobs(h: Sha1, ws: seq<Written>): (r: seq<Entry>)
  {
    seq(|ws|, i requires 0 <= i < |ws| => KeyBlob(BlobOf(h, ws[i]), Found(ws[i])))
  }

  function Plains(xs: seq<Bytes>): (r: seq<Entry>)
  {
    seq(|xs|, i requires 0 <= i < |xs| => Plain(xs[i]))
  }

  function StoreImage(h: Sha1, created: nat, now: nat, ws: seq<Written>, xs: seq<Bytes>): (r: Bytes)
  {
    Header(created, now) + Blobs(h, ws) + Flatten(xs)
  }

  lemma PlainReads(x: Bytes, t: Bytes, accepts: PacketReader)
    requires PlainImage(x)
    ensures ReadEntry(x + t, accepts) == Some(Plain(x))
  {
    hide FromBigEndian;
    assert (x + t)[0..4] == x[0..4];
    PrefixAndRest(x, t);
  }

  lemma HeaderReads(created: nat, now: nat, t: Bytes, accepts: PacketReader)
    ensures ReadEntry(Header(created, now) + t, accepts) == Some(HeaderBlob(Header(created, now)))
  {
    hide BigEndian, Ru32, Ru16;
    var s := Header(created, now) + t;
    PrefixAndRest(Header(created, now), t);
    var m: Bytes := [HEADER, 1, 0, 0, 75, 66, 88, 102, 0, 0, 0, 0, 0, 0, 0, 0];
    var u: Bytes := BigEndian(created, 4) + (BigEndian(now, 4) + ([0, 0, 0, 0] + t));
    assert s == BigEndian(32, 4) + (m + u);
    WordReads(32, m + u);
    assert s[4..12] == m[..8];
    assert s[4] == m[0] && s[5] == m[1] && s[8] == m[4] && s[9] == m[5] && s[10] == m[6] && s[11] == m[7];
  }

  lemma {:induction false} PlainsRead(xs: seq<Bytes>, accepts: PacketReader)
    requires forall x <- xs :: PlainImage(x)
    ensures ReadImage(Flatten(xs), accepts) == Some(Plains(xs))
  {
    hide ReadEntry, PlainImage;
    if xs != [] {
      FlattenFirst(xs);
      PlainReads(xs[0], Flatten(xs[1..]), accepts);
      PlainsRead(xs[1..], accepts);
      PrefixAndRest(xs[0], Flatten(xs[1..]));
      assert [Plain(xs[0])] + Plains(xs[1..]) == Plains(xs);
    }
  }

  lemma {:induction false} BlobsRead(h: Sha1, ws: seq<Written>, t: Bytes, es: seq<Entry>, accepts: PacketReader)
    requires forall w <- ws :: Fits(w.p) && UidFields(w.p, w.fields)
    requires ReadImage(t, accepts) == Some(es)
    ensures ReadImage(Blobs(h, ws) + t, accepts)
            == if forall w <- ws :: Loads(w.p, accepts) then Some(KeyBlobs(h, ws) + es) else None
  {
    hide ReadEntry, Fits, UidFields, Loads, BlobOf, Found;
    if ws == [] {
      assert Blobs(h, ws) + t == t && KeyBlobs(h, ws) + es == es;
    } else {
      var b, rest := BlobOf(h, ws[0]), Blobs(h, ws[1..]) + t;
      WrittenBlobReads(h, ws[0], rest, accepts);
      BlobsRead(h, ws[1..], t, es, accepts);
      Assoc(b, Blobs(h, ws[1..]), t);
      PrefixAndRest(b, rest);
      OneKeyMore(h, ws, es);
      assert forall w <- ws :: w == ws[0] || w in ws[1..];
      BlobLength(h, ws[0]);
      assert b + rest != [];
    }
  }

  /** The same for a run of blobs. */
  lemma {:induction false} BlobsReadExactly(h: Sha1, ws: seq<Written>, t: Bytes, es: seq<Entry>, accepts: PacketReader)
    requires forall w <- ws :: ValidPrimary(w.p) && UidFields(w.p, w.fields)
    requires ReadImage(t, accepts) == Some(es)
    ensures ReadImage(Blobs(h, ws) + t, accepts) == Some(KeyBlobs(h, ws) + es)
            <==> forall w <- ws :: CountsFit(w.p) && Loads(w.p, accepts)
  {
    hide ReadEntry, ReadImage, CountsFit, ValidPrimary, UidFields, Loads, BlobOf, Found, KeyBlobs;
    if ws == [] {
      NoBlobs(h);
      assert Blobs(h, ws) + t == t && KeyBlobs(h, ws) + es == es;
    } else {
      var b, rest, tail := BlobOf(h, ws[0]), Blobs(h, ws[1..]) + t, KeyBlobs(h, ws[1..]) + es;
      var e := KeyBlob(b, Found(ws[0]));
      WrittenBlobReadsExactly(h, ws[0], rest, accepts);
      BlobsReadExactly(h, ws[1..], t, es, accepts);
      Assoc(b, Blobs(h, ws[1..]), t);
      PrefixAndRest(b, rest);
      OneKeyMore(h, ws, es);
      assert forall w <- ws :: w == ws[0] || w in ws[1..];
      BlobLength(h, ws[0]);
      assert b + rest != [];
      ImageStep(b + rest, accepts);
      var found := ReadEntry(b + rest, accepts);
      if found.Some? {
        var more := ReadImage((b + rest)[|found.value.image|..], accepts);
        if more.Some? {
          SameHead(found.value, more.value, e, tail);
        }
      }
    }
  }

  lemma NoBlobs(h: Sha1)
    ensures KeyBlobs(h, []) == []
  {
  }

  lemma SameHead(a: Entry, x: seq<Entry>, b: Entry, y: seq<Entry>)
    ensures [a] + x == [b] + y <==> a == b && x == y
  {
    if [a] + x == [b] + y {
      assert ([a] + x)[0] == a && ([b] + y)[0] == b;
      assert ([a] + x)[1..] == x && ([b] + y)[1..] == y;
    }
  }

  lemma OneKeyMore(h: Sha1, ws: seq<Written>, es: seq<Entry>)
    requires ws != []
    ensures KeyBlobs(h, ws) + es == [KeyBlob(BlobOf(h, ws[0]), Found(ws[0]))] + (KeyBlobs(h, ws[1..]) + es)
  {
    hide BlobOf, Found;
  }

  /** For any store the written image is read back, blob for blob with the fields that were
      stored, if and only if every key blob has counts that fit and can be taken. */
  lemma StoreReadsExactly(h: Sha1, created: nat, now: nat, ws: seq<Written>, xs: seq<Bytes>, accepts: PacketReader)
    requires forall w <- ws :: ValidPrimary(w.p) && UidFields(w.p, w.fields)
    requires forall x <- xs :: PlainImage(x)
    ensures ReadImage(StoreImage(h, created, now, ws, xs), accepts)
            == Some([HeaderBlob(Header(created, now))] + (KeyBlobs(h, ws) + Plains(xs)))
            <==> forall w <- ws :: CountsFit(w.p) && Loads(w.p, accepts)
  {
    hide ReadEntry, Header, CountsFit, ValidPrimary, UidFields, Loads, Blobs, Flatten, KeyBlobs, Plains;
    PlainsRead(xs, accepts);
    BlobsReadExactly(h, ws, Flatten(xs), Plains(xs), accepts);
    var hd, rest := Header(created, now), Blobs(h, ws) + Flatten(xs);
    HeaderReads(created, now, rest, accepts);
    Assoc(hd, Blobs(h, ws), Flatten(xs));
    PrefixAndRest(hd, rest);
    assert |hd| == 32;
    var more := ReadImage(rest, accepts);
    if more.Some? {
      SameHead(HeaderBlob(hd), more.value, HeaderBlob(hd), KeyBlobs(h, ws) + Plains(xs));
    }
  }

  /** When the counts fit, the written image is read back, blob for blob, exactly when the reader
      takes every key blob; one key over the size limit loses the whole store. */
  lemma StoreReads(h: Sha1, created: nat, now: nat, ws: seq<Written>, xs: seq<Bytes>, accepts: PacketReader)
    requires forall w <- ws :: Fits(w.p) && UidFields(w.p, w.fields)
    requires forall x <- xs :: PlainImage(x)
    ensures ReadImage(StoreImage(h, created, now, ws, xs), accepts)
            == if forall w <- ws :: Loads(w.p, accepts)
               then Some([HeaderBlob(Header(created, now))] + (KeyBlobs(h, ws) + Plains(xs)))
               else None
  {
    hide ReadEntry, Header, Fits, UidFields, Loads, Blobs, Flatten;
    PlainsRead(xs, accepts);
    BlobsRead(h, ws, Flatten(xs), Plains(xs), accepts);
    var hd, rest := Header(created, now), Blobs(h, ws) + Flatten(xs);
    HeaderReads(created, now, rest, accepts);
    Assoc(hd, Blobs(h, ws), Flatten(xs));
    PrefixAndRest(hd, rest);
    assert |hd| == 32;
  }

  /** A key of the store: a primary key, or a subkey's own entry, which is not written by itself. */
  datatype StoreKey = PrimaryKey(p: Primary) | Subkey

  function Primaries(keys: seq<StoreKey>): (r: seq<Primary>)
  {
    if keys == [] then []
    else
      var last := keys[|keys| - 1];
      Primaries(keys[..|keys| - 1]) + if last.PrimaryKey? then [last.p] else []
  }

  /** The images of the X.509 blobs among those read before. */
  function Certificates(blobs: seq<Entry>): (r: seq<Bytes>)
  {
    if blobs == [] then []
    else
      var last := blobs[|blobs| - 1];
      Certificates(blobs[..|blobs| - 1]) + if IsCertificate(last) then [last.image] else []
  }

  lemma {:induction false} CertificatesArePlain(blobs: seq<Entry>)
    requires forall e <- blobs :: e.Plain? ==> PlainImage(e.image)
    ensures forall x <- Certificates(blobs) :: PlainImage(x)
  {
    hide PlainImage;
    if blobs != [] {
      CertificatesArePlain(blobs[..|blobs| - 1]);
    }
  }

  predicate IsCertificate(e: Entry)
  {
    e.Plain? && |e.image| >= 5 && e.image[4] == X509
  }

  lemma {:induction false} BlobsSnoc(h: Sha1, ws: seq<Written>, w: Written)
    ensures Blobs(h, ws + [w]) == Blobs(h, ws) + BlobOf(h, w)
  {
    hide BlobOf;
    var all := ws + [w];
    if ws == [] {
      assert all == [w] && all[1..] == [];
      assert BlobOf(h, w) + [] == [] + BlobOf(h, w);
    } else {
      BlobsSnoc(h, ws[1..], w);
      assert all[1..] == ws[1..] + [w] && all[0] == ws[0];
      Assoc(BlobOf(h, ws[0]), Blobs(h, ws[1..]), BlobOf(h, w));
    }
  }

  /** The sizes of the appends that write these keys. */
  function KeySizes(keys: seq<StoreKey>): (r: seq<nat>)
  {
    if keys == [] then []
    else
      var last := keys[|keys| - 1];
      KeySizes(keys[..|keys| - 1]) + if last.PrimaryKey? then BlobSizes(last.p) else []
  }

  /** What the system answers in each turn: the two `time(NULL)` values, and which reallocations
      move the buffer. */
  datatype Host = Host(clock: nat -> (nat, nat), moves: nat -> Moves)

  /** What is written for these keys into a memory of `len` octets with `cap` allocated. */
  function WrittenKeys(keys: seq<StoreKey>, host: Host, cap: nat, len: nat): (r: seq<Written>)
  {
    if keys == [] then []
    else
      var n := |keys| - 1;
      var sizes := KeySizes(keys[..n]);
      WrittenKeys(keys[..n], host, cap, len)
      + if keys[n].PrimaryKey?
        then
          var fields := FieldsLeft(keys[n].p, RoomAfter(cap, len, sizes), len + Sum(sizes), host.moves(n));
          [Written(keys[n].p, host.clock(n).0, host.clock(n).1, fields)]
        else []
  }

  lemma {:induction false} WrittenAreValid(keys: seq<StoreKey>, host: Host, cap: nat, len: nat)
    requires forall k <- keys :: k.PrimaryKey? ==> ValidPrimary(k.p)
    ensures forall w <- WrittenKeys(keys, host, cap, len) :: ValidPrimary(w.p) && UidFields(w.p, w.fields)
  {
    hide ValidPrimary, FieldsLeft, UidFields;
    if keys != [] {
      WrittenAreValid(keys[..|keys| - 1], host, cap, len);
    }
  }

  /** The written blobs are for the primary keys, in order. */
  lemma {:induction false} WrittenArePrimaries(keys: seq<StoreKey>, host: Host, cap: nat, len: nat)
    ensures var ws := WrittenKeys(keys, host, cap, len);
            |ws| == |Primaries(keys)| && forall i :: 0 <= i < |ws| ==> ws[i].p == Primaries(keys)[i]
  {
    hide FieldsLeft;
    if keys != [] {
      WrittenArePrimaries(keys[..|keys| - 1], host, cap, len);
    }
  }

  /** The loop over the keys of `rnp_key_store_kbx_to_mem`. */
  method WriteKeys(keys: seq<StoreKey>, h: Sha1, host: Host, m: PgpMemory) returns (ok: bool)
    requires m.Valid() && forall k <- keys :: k.PrimaryKey? ==> ValidPrimary(k.p)
    modifies m, m.buf
    ensures m.Valid() && (m.buf == old(m.buf) || fresh(m.buf))
    ensures ok <==> forall p <- Primaries(keys) :: Writable(p)
    ensures ok ==> m.Contents() == old(m.Contents())
                                   + Blobs(h, WrittenKeys(keys, host, old(m.buf.Length), old(m.length)))
    ensures ok ==> Appended(old(m.buf.Length), old(m.length), KeySizes(keys), m.buf.Length, m.length)
  {
    hide Writable, Blob, Blobs, ValidPrimary, FieldsLeft, BlobSizes, RoomAfter, Sum, Primaries;
    NoKeysYet(h);
    ghost var was, cap, len := m.Contents(), m.buf.Length, m.length;
    ghost var ws := [];
    NoSizes(cap, len);
    assert was + [] == was;
    for i := 0 to |keys|
      invariant m.Valid() && (m.buf == old(m.buf) || fresh(m.buf)) && ws == WrittenKeys(keys[..i], host, cap, len)
      invariant m.Contents() == was + Blobs(h, ws)
      invariant Appended(cap, len, KeySizes(keys[..i]), m.buf.Length, m.length)
      invariant forall p <- Primaries(keys[..i]) :: Writable(p)
    {
      TakeSnoc(keys, i);
      MorePrimaries(keys, i);
      NothingAdded(ws, KeySizes(keys[..i]));
      if keys[i].PrimaryKey? {
        var now := host.clock(i);
        ghost var cap1, len1 := m.buf.Length, m.length;
        ghost var w := Written(keys[i].p, now.0, now.1, FieldsLeft(keys[i].p, cap1, len1, host.moves(i)));
        ok := WritePgp(keys[i].p, h, now.0, now.1, host.moves(i), m);
        if !ok {
          return;
        }
        Chain(cap, len, KeySizes(keys[..i]), cap1, len1, BlobSizes(keys[i].p), m.buf.Length, m.length);
        BlobsSnoc(h, ws, w);
        Assoc(was, Blobs(h, ws), BlobOf(h, w));
        ws := ws + [w];
      }
    }
    assert keys[..|keys|] == keys;
    ok := true;
  }

  lemma {:induction false} MorePrimaries(keys: seq<StoreKey>, i: nat)
    requires i < |keys|
    ensures Primaries(keys[..i + 1]) == Primaries(keys[..i]) + if keys[i].PrimaryKey? then [keys[i].p] else []
    ensures forall p <- Primaries(keys[..i + 1]) :: p in Primaries(keys)
    decreases |keys| - i
  {
    TakeSnoc(keys, i);
    if i + 1 == |keys| {
      assert keys[..i + 1] == keys;
    } else {
      MorePrimaries(keys, i + 1);
    }
  }

  lemma NoKeysYet(h: Sha1)
    ensures Primaries([]) == [] && Blobs(h, []) == []
  {
  }

  lemma NothingAdded(ws: seq<Written>, sizes: seq<nat>)
    ensures ws + [] == ws && sizes + [] == sizes
  {
  }

  /** `rnp_key_store_kbx_write_x509`: the blobs are copied as they were read. */
  method WriteX509(blobs: seq<Entry>, m: PgpMemory)
    requires m.Valid()
    modifies m, m.buf
    ensures m.Valid() && (m.buf == old(m.buf) || fresh(m.buf))
    ensures m.Contents() == old(m.Contents()) + Flatten(Certificates(blobs))
  {
    ghost var was := m.Contents();
    assert was + [] == was;
    for i := 0 to |blobs|
      invariant m.Valid() && (m.buf == old(m.buf) || fresh(m.buf))
      invariant m.Contents() == was + Flatten(Certificates(blobs[..i]))
    {
      TakeSnoc(blobs, i);
      if IsCertificate(blobs[i]) {
        FlattenSnoc(Certificates(blobs[..i]), blobs[i].image);
        Assoc(was, Flatten(Certificates(blobs[..i])), blobs[i].image);
        m.Add(blobs[i].image);
      } else {
        assert Certificates(blobs[..i]) + [] == Certificates(blobs[..i]);
      }
    }
    assert blobs[..|blobs|] == blobs;
  }

  /** Of the blobs read before, the ones of type 3 are kept, in order. */
  lemma {:induction false} CertificatesFirst(blobs: seq<Entry>)
    requires blobs != []
    ensures var e := blobs[0];
            Certificates(blobs)
            == (if e.Plain? && |e.image| >= 5 && e.image[4] == 3 then [e.image] else []) + Certificates(blobs[1..])
  {
    var n := |blobs| - 1;
    var first := if IsCertificate(blobs[0]) then [blobs[0].image] else [];
    var last := if IsCertificate(blobs[n]) then [blobs[n].image] else [];
    if n == 0 {
      assert blobs[1..] == [] && blobs[..0] == [];
      assert [] + last == last && last + [] == last;
    } else {
      CertificatesFirst(blobs[..n]);
      assert blobs[..n][1..] == blobs[1..][..n - 1];
      Assoc(first, Certificates(blobs[1..n]), last);
    }
  }

  /** And of the keys the primary ones, each with all its subkeys. */
  lemma {:induction false} PrimariesFirst(keys: seq<StoreKey>)
    requires keys != []
    ensures Primaries(keys) == (if keys[0].PrimaryKey? then [keys[0].p] else []) + Primaries(keys[1..])
  {
    var n := |keys| - 1;
    var first := if keys[0].PrimaryKey? then [keys[0].p] else [];
    var last := if keys[n].PrimaryKey? then [keys[n].p] else [];
    if n == 0 {
      assert keys[1..] == [] && keys[..0] == [];
      assert [] + last == last && last + [] == last;
    } else {
      PrimariesFirst(keys[..n]);
      assert keys[..n][1..] == keys[1..][..n - 1];
      Assoc(first, Primaries(keys[1..n]), last);
    }
  }

  const HEADER_SIZES: seq<nat> := [4, 1, 1, 2, 4, 4, 4, 4, 4, 4]

  function HeaderParts(created: nat, now: nat): (r: seq<Bytes>)
    ensures Flatten(r) == Header(created, now) && Sizes(r) == HEADER_SIZES
  {
    var z: Bytes := [0, 0, 0, 0];
    var a: seq<Bytes> := [BigEndian(32, 4), [HEADER], [1], [0, 0]];
    var b: seq<Bytes> := [[75, 66, 88, 102], z, z, BigEndian(created, 4)];
    var c := [BigEndian(now, 4), z];
    HeaderFromParts(created, now, a, b, c, z);
    a + b + c
  }

  lemma HeaderFromParts(created: nat, now: nat, a: seq<Bytes>, b: seq<Bytes>, c: seq<Bytes>, z: Bytes)
    requires z == [0, 0, 0, 0] && a == [BigEndian(32, 4), [HEADER], [1], [0, 0]]
    requires b == [[75, 66, 88, 102], z, z, BigEndian(created, 4)] && c == [BigEndian(now, 4), z]
    ensures Flatten(a + b + c) == Header(created, now) && Sizes(a + b + c) == HEADER_SIZES
  {
    hide BigEndian, Flatten;
    FlattenConcat(a + b, c);
    FlattenConcat(a, b);
    Flatten4(a[0], a[1], a[2], a[3]);
    Flatten4(b[0], b[1], b[2], b[3]);
    Flatten2(c[0], c[1]);
    var mid: Bytes := [HEADER, 1, 0, 0, 75, 66, 88, 102, 0, 0, 0, 0, 0, 0, 0, 0];
    assert a[0] + a[1] + a[2] + a[3] + (b[0] + b[1] + b[2] + b[3]) == a[0] + mid + b[3];
    Assoc(a[0] + mid + b[3], c[0], c[1]);
  }

  /** `rnp_key_store_kbx_to_mem`. */
  method ToMem(keys: seq<StoreKey>, blobs: seq<Entry>, h: Sha1, created: nat, now: nat, host: Host, m: PgpMemory)
    returns (ok: bool)
    requires m.Valid() && forall k <- keys :: k.PrimaryKey? ==> ValidPrimary(k.p)
    modifies m, m.buf
    ensures m.Valid() && (m.buf == old(m.buf) || fresh(m.buf))
    ensures ok <==> forall p <- Primaries(keys) :: Writable(p)
    ensures ok ==> m.Contents()
                   == StoreImage(h, created, now, Saved(keys, host, old(m.buf.Length)), Certificates(blobs))
  {
    hide Header, HeaderParts, Blobs, Certificates, WrittenKeys, ValidPrimary, RoomAfter, Appended, Sizes, Flatten;
    ghost var cap := m.buf.Length;
    m.Clear();
    assert m.length == 0;
    m.AddAll(HeaderParts(created, now));
    HeaderRoom(cap, m.buf.Length, m.length);
    assert [] + Header(created, now) == Header(created, now);
    ok := WriteKeys(keys, h, host, m);
    if ok {
      WriteX509(blobs, m);
    }
  }

  /** The key blobs of a store saved to a memory with `cap` octets allocated. */
  function Saved(keys: seq<StoreKey>, host: Host, cap: nat): (r: seq<Written>)
  {
    WrittenKeys(keys, host, RoomAfter(cap, 0, HEADER_SIZES), 32)
  }

  /** Saving a store and loading it.  Saving fails exactly when some key has no packets or an empty
      one.  Otherwise the loaded blobs are the header, one blob for each primary key in order with
      the fields that were written, and the X.509 blobs, if and only if every key has counts that
      fit, keeps within the size limit and has a keyblock the packet reader takes. */
  method SaveAndLoad(keys: seq<StoreKey>, blobs: seq<Entry>, h: Sha1, created: nat, now: nat, host: Host,
                     accepts: PacketReader, m: PgpMemory)
    returns (ok: bool, r: Option<seq<Entry>>)
    requires m.Valid() && forall k <- keys :: k.PrimaryKey? ==> ValidPrimary(k.p)
    requires forall e <- blobs :: e.Plain? ==> PlainImage(e.image)
    modifies m, m.buf
    ensures ok <==> forall p <- Primaries(keys) :: Writable(p)
    ensures ok ==>
              (r == Some([HeaderBlob(Header(created, now))]
                         + (KeyBlobs(h, Saved(keys, host, old(m.buf.Length))) + Plains(Certificates(blobs))))
               <==> forall p <- Primaries(keys) ::
                      CountsFit(p) && BlobSize(p) <= 5_242_880 && accepts(Packets(Keys(p))))
  {
    hide Header, Certificates, ReadImage, StoreImage, KeyBlobs, Plains, PlainImage, UidFields, Writable, WrittenKeys;
    hide CountsFit, BlobSize, Packets, ValidPrimary, RoomAfter;
    ghost var ws, cap := Saved(keys, host, m.buf.Length), RoomAfter(m.buf.Length, 0, HEADER_SIZES);
    ok := ToMem(keys, blobs, h, created, now, host, m);
    r := None;
    if ok {
      WrittenAreValid(keys, host, cap, 32);
      WrittenArePrimaries(keys, host, cap, 32);
      CertificatesArePlain(blobs);
      StoreReadsExactly(h, created, now, ws, Certificates(blobs), accepts);
      r := FromMem(m, accepts);
      SameKeys(ws, Primaries(keys), accepts);
    }
  }

  /** The 32 octets of the header blob: length, type 1, version 1, no flags, "KBXf" and the two times. */
  lemma HeaderInOctets(created: nat, now: nat)
    ensures Header(created, now)
            == [0, 0, 0, 32, 1, 1, 0, 0, 0x4B, 0x42, 0x58, 0x66] + [0, 0, 0, 0, 0, 0, 0, 0] + Big4(created) + Big4(now)
               + [0, 0, 0, 0]
  {
    hide BigEndian, Big4;
    InOctets(created);
    InOctets(now);
    assert BigEndian(32, 4) == [0, 0, 0, 32] by {
      SmallWord();
    }
  }

  /** A header blob is taken with exactly 32 octets, version 1 and the letters "KBXF" in either case. */
  lemma HeaderTaken(s: Bytes, len: nat)
    ensures ValidHeader(s, len)
            <==> len == 32 && |s| >= 32 && s[5] == 1 && s[8] as int in {'K' as int, 'k' as int}
                 && s[9] as int in {'B' as int, 'b' as int} && s[10] as int in {'X' as int, 'x' as int}
                 && s[11] as int in {'F' as int, 'f' as int}
  {
  }

  lemma SmallWord()
    ensures BigEndian(32, 4) == [0, 0, 0, 32]
  {
    InOctets(32);
  }

  /** Every user id offset points at the octets of that user id. */
  lemma UidFound(h: Sha1, w: Written, t: Bytes, i: nat)
    requires UidFields(w.p, w.fields) && i < |w.p.uids|
    ensures var at := w.fields[i].0;
            var s := BlobOf(h, w) + t;
            at + |w.p.uids[i]| <= |s| && s[at..at + |w.p.uids[i]|] == w.p.uids[i]
  {
    hide Fixed, KeyPart, UidInfos, SigPart, Flatten, Packets, Checksum;
    var p := w.p;
    var front := Fixed(BlobSize(p), KeyblockAt(p), |Packets(Keys(p))|, 1 + |p.subkeys|) + KeyPart(p)
                 + UidInfos(w.fields) + SigPart(p, w.latest, w.created);
    SigPartSize(p, w.latest, w.created);
    BlobIsBodyAndChecksum(h, w);
    var before, uid, after := Flatten(p.uids[..i]), p.uids[i], Flatten(p.uids[i + 1..]);
    assert Flatten(p.uids) == before + (uid + after) by {
      FlattenConcat(p.uids[..i], p.uids[i..]);
      Join(p.uids, i);
      FlattenFirst(p.uids[i..]);
      assert p.uids[i..][1..] == p.uids[i + 1..];
    }
    UidSlice(front, before, uid, after, Packets(Keys(p)), Checksum(h, w), t);
  }

  lemma UidSlice(front: Bytes, before: Bytes, uid: Bytes, after: Bytes, packets: Bytes, sum: Bytes, t: Bytes)
    ensures var s := front + (before + (uid + after)) + packets + sum + t;
            var at := |front| + |before|;
            at + |uid| <= |s| && s[at..at + |uid|] == uid
  {
  }

  lemma SameKeys(ws: seq<Written>, ps: seq<Primary>, accepts: PacketReader)
    requires |ws| == |ps| && forall i :: 0 <= i < |ws| ==> ws[i].p == ps[i]
    requires forall p <- ps :: Writable(p)
    ensures (forall w <- ws :: CountsFit(w.p) && Loads(w.p, accepts))
            <==> (forall p <- ps :: CountsFit(p) && BlobSize(p) <= LIMIT && accepts(Packets(Keys(p))))
  {
    hide CountsFit, BlobSize, Packets, Keys, Writable;
    forall i | 0 <= i < |ps|
      ensures ws[i] in ws && ps[i] in ps && Packets(Keys(ps[i])) != []
    {
      KeyblockNotEmpty(ps[i]);
    }
    if forall w <- ws :: CountsFit(w.p) && Loads(w.p, accepts) {
      forall p | p in ps
        ensures CountsFit(p) && BlobSize(p) <= LIMIT && accepts(Packets(Keys(p)))
      {
        var i :| 0 <= i < |ps| && ps[i] == p;
        assert ws[i].p == p;
      }
    }
    if forall p <- ps :: CountsFit(p) && BlobSize(p) <= LIMIT && accepts(Packets(Keys(p))) {
      forall w | w in ws
        ensures CountsFit(w.p) && Loads(w.p, accepts)
      {
        var i :| 0 <= i < |ws| && ws[i] == w;
        assert ps[i] == w.p;
      }
    }
  }

  lemma HeaderRoom(cap: nat, cap': nat, len': nat)
    requires Appended(cap, 0, HEADER_SIZES, cap', len')
    ensures cap' == RoomAfter(cap, 0, HEADER_SIZES)
  {
  }

  // --- when the user id lengths are right ---

  predicate LengthsRight(ws: seq<Written>)
  {
    forall w <- ws :: forall i :: 0 <= i < |w.fields| && i < |w.p.uids| ==> w.fields[i].1 == |w.p.uids[i]|
  }

  /** Every user id that is not empty fits what is allocated when it is appended, or the allocator
      extends the buffer in place: a matter of the sizes of the keys, of the allocation at the start
      and of the allocator. */
  predicate AllFit(keys: seq<StoreKey>, host: Host, cap: nat, len: nat)
  {
    keys == []
    || (AllFit(keys[..|keys| - 1], host, cap, len)
        && var n, sizes := |keys| - 1, KeySizes(keys[..|keys| - 1]);
        keys[n].PrimaryKey? ==> UidsFit(keys[n].p, RoomAfter(cap, len, sizes), len + Sum(sizes), host.moves(n)))
  }

  predicate UidsFit(p: Primary, cap: nat, start: nat, moves: Moves)
  {
    forall i :: 0 <= i < |p.uids| ==> p.uids[i] == [] || UidFits(p, cap, start, i) || !moves(i)
  }

  /** Every user id length in the written image is right if and only if no append of a user id that
      is not empty moved the buffer. */
  lemma {:induction false} LengthsRightExactly(keys: seq<StoreKey>, host: Host, cap: nat, len: nat)
    ensures LengthsRight(WrittenKeys(keys, host, cap, len)) <==> AllFit(keys, host, cap, len)
  {
    hide UidFits, KeySizes, RoomAfter, Sum, UidFields;
    if keys != [] {
      var n := |keys| - 1;
      var sizes := KeySizes(keys[..n]);
      var before := WrittenKeys(keys[..n], host, cap, len);
      LengthsRightExactly(keys[..n], host, cap, len);
      if keys[n].PrimaryKey? {
        var w := Written(keys[n].p, host.clock(n).0, host.clock(n).1,
                         FieldsLeft(keys[n].p, RoomAfter(cap, len, sizes), len + Sum(sizes), host.moves(n)));
        OneLengthsRight(before, w);
        UidsFitExactly(keys[n].p, RoomAfter(cap, len, sizes), len + Sum(sizes), host.moves(n));
      } else {
        assert before + [] == before;
      }
    }
  }

  lemma OneLengthsRight(ws: seq<Written>, w: Written)
    ensures LengthsRight(ws + [w])
            <==> LengthsRight(ws)
                 && forall i :: 0 <= i < |w.fields| && i < |w.p.uids| ==> w.fields[i].1 == |w.p.uids[i]|
  {
    assert forall v <- ws + [w] :: v in ws || v == w;
    assert forall v <- ws :: v in ws + [w];
    assert w in ws + [w];
  }

  lemma UidsFitExactly(p: Primary, cap: nat, start: nat, moves: Moves)
    ensures (forall i :: 0 <= i < |p.uids| ==> FieldsLeft(p, cap, start, moves)[i].1 == |p.uids[i]|)
            <==> UidsFit(p, cap, start, moves)
  {
    hide UidFits;
  }

  /** A memory allocated for the whole image is enough, whatever the allocator does. */
  lemma {:induction false} RoomForAll(keys: seq<StoreKey>, host: Host, cap: nat, len: nat)
    requires len + Sum(KeySizes(keys)) <= cap
    ensures AllFit(keys, host, cap, len)
  {
    hide BlobSizes, UidsFit, RoomAfter, Sum;
    if keys != [] {
      var n := |keys| - 1;
      var sizes := KeySizes(keys[..n]);
      if keys[n].PrimaryKey? {
        SumConcat(sizes, BlobSizes(keys[n].p));
        RoomEnough(cap, len, sizes);
        RoomForAll(keys[..n], host, cap, len);
        RoomForUids(keys[n].p, cap, len + Sum(sizes), host.moves(n));
      } else {
        assert sizes + [] == sizes;
        RoomForAll(keys[..n], host, cap, len);
      }
    }
  }

  lemma {:induction false} SumConcat(a: seq<nat>, b: seq<nat>)
    ensures Sum(a + b) == Sum(a) + Sum(b)
  {
    if b == [] {
      assert a + b == a;
    } else {
      assert (a + b)[..|a + b| - 1] == a + b[..|b| - 1];
      SumConcat(a, b[..|b| - 1]);
    }
  }

  lemma RoomForUids(p: Primary, cap: nat, start: nat, moves: Moves)
    requires start + Sum(BlobSizes(p)) <= cap
    ensures UidsFit(p, cap, start, moves)
  {
    hide FrontSizes, RoomAfter, Sum, PacketSizes, UidAt, Sizes;
    var front, uids, packets := FrontSizes(p), Sizes(p.uids), PacketSizes(Keys(p));
    SumConcat(front + uids + packets, [20]);
    SumConcat(front + uids, packets);
    forall i | 0 <= i < |p.uids|
      ensures UidFits(p, cap, start, i)
    {
      var head, tail := Sizes(p.uids[..i]), Sizes(p.uids[i..]);
      SizesSplit(p.uids, i);
      Assoc(front, head, tail);
      SumConcat(front + head, tail);
      RoomEnough(cap, start, front + head);
      SumConcat(front + head, [|p.uids[i]|]);
      UidInTail(p.uids, i);
    }
  }

  lemma UidInTail(parts: seq<Bytes>, i: nat)
    requires i < |parts|
    ensures Sum(Sizes(parts[i..])) >= |parts[i]|
  {
    var tail := Sizes(parts[i..]);
    assert tail == [|parts[i]|] + tail[1..];
    SumConcat([|parts[i]|], tail[1..]);
    assert [|parts[i]|][..0] == [];
  }

  lemma SizesSplit(parts: seq<Bytes>, i: nat)
    requires i <= |parts|
    ensures Sizes(parts[..i]) + Sizes(parts[i..]) == Sizes(parts)
  {
  }
}
