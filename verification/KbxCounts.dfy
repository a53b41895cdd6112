/** What the keybox reader makes of a key with more records of a kind than a two-octet count can
    say (src/librekey/key_store_kbx.c): the writer stores the low 16 bits of each count. */
module KbxCounts {
  import opened Octets
  import opened SeIp
  import opened Kbx
  import opened KbxImage

  const COUNTS: nat := 0x1_0000

  /** What a two-octet field keeps of a count. */
  function Low(n: nat): (r: nat)
    ensures r < COUNTS && r <= n && (n >= COUNTS ==> r + 4 <= n) && r == n % 0x1_0000
  {
    n % COUNTS
  }

  predicate Sized(w: Written)
  {
    ValidPrimary(w.p) && UidFields(w.p, w.fields) && BlobSize(w.p) < 0x1_0000_0000
  }

  // --- keys ---

  /** With 65536 keys, or a multiple, the reader counts none and refuses the blob. */
  lemma NoKeysCounted(h: Sha1, w: Written, t: Bytes, accepts: PacketReader)
    requires Sized(w) && Low(1 + |w.p.subkeys|) == 0
    ensures ReadEntry(BlobOf(h, w) + t, accepts) == None
  {
    hide BlobOf, BlobSize, Ru16, Ru32;
    BlobStart(h, w, t);
  }

  /** What follows the user id records, up to the end of the memory. */
  function FromSigs(h: Sha1, w: Written, t: Bytes): (r: Bytes)
  {
    SigHead(|w.p.sigs|)
    + (Words(w.p.sigs)
       + (Tail(w.latest, w.created) + (Flatten(w.p.uids) + (Packets(Keys(w.p)) + (Checksum(h, w) + t)))))
  }

  /** What the reader has when it comes to the user ids. */
  function KeysFound(w: Written): (r: PgpBlob)
  {
    PgpBlob(KeyblockAt(w.p), |Packets(Keys(w.p))|, KeyRecords(Keys(w.p)), [], [], 0, 0)
  }

  function UidsStart(w: Written): (r: nat)
  {
    22 + 28 * (1 + |w.p.subkeys|)
  }

  lemma UpToUids(h: Sha1, w: Written, t: Bytes)
    requires Sized(w) && 1 + |w.p.subkeys| < COUNTS
    ensures var s := BlobOf(h, w) + t;
            ParsePgp(s, BlobSize(w.p)) == ParseUids(s, UidsStart(w), KeysFound(w))
            && Holds(s, UidsStart(w), CountHead(|w.p.uids|, 12) + (UidInfos(w.fields) + FromSigs(h, w, t)))
  {
    hide Fixed, KeyInfos, BigEndian, CountHead, UidInfos, Words, Tail, Flatten, Packets, Checksum, Blob;
    hide ParsePgp, KeyRecords, ParseUids;
    var p, keys, s := w.p, Keys(w.p), BlobOf(h, w) + t;
    BlobNested(h, w, t);
    KeyInfosSize(keys, 0);
    assert s[0..] == s;
    KeysParse(s, BlobSize(p), KeyblockAt(p), |Packets(keys)|, keys,
              CountHead(|p.uids|, 12) + (UidInfos(w.fields) + FromSigs(h, w, t)));
  }

  /** The rest of the loop's turn, once the blob is parsed: only the keyblock matters. */
  lemma TakenIff(h: Sha1, w: Written, t: Bytes, accepts: PacketReader)
    requires Sized(w)
    requires var b := ParsePgp(BlobOf(h, w) + t, BlobSize(w.p));
             b.Some? ==> b.value.off == KeyblockAt(w.p) && b.value.kbLen == |Packets(Keys(w.p))|
    ensures var b := ParsePgp(BlobOf(h, w) + t, BlobSize(w.p));
            ReadEntry(BlobOf(h, w) + t, accepts)
            == if b.Some? && Loads(w.p, accepts) then Some(KeyBlob(BlobOf(h, w), b.value)) else None
  {
    hide Packets, ParsePgp, Ru32, Ru16, BlobOf, KeyblockAt;
    BlobLength(h, w);
    BlobStart(h, w, t);
    KeyblockFound(h, w, t);
    PrefixAndRest(BlobOf(h, w), t);
    assert Packets(Keys(w.p)) == [] <==> |Packets(Keys(w.p))| == 0;
  }

  // --- signatures ---

  /** Surplus signatures are not read, and two of them are taken for the times of the blob. */
  function FoundLowSigs(w: Written): (r: PgpBlob)
  {
    var sigs, n := w.p.sigs, Low(|w.p.sigs|);
    if |sigs| < COUNTS then Found(w)
    else
      Found(w).(sigs := LowWords(sigs[..n]), latest := sigs[n + 2] % 0x1_0000_0000,
                created := sigs[n + 3] % 0x1_0000_0000)
  }

  lemma {:induction false} WordsSplit(ws: seq<nat>, i: nat)
    requires i <= |ws|
    ensures Words(ws) == Words(ws[..i]) + Words(ws[i..])
    decreases |ws|
  {
    hide BigEndian;
    var n := |ws| - 1;
    if i == |ws| {
      assert ws[..i] == ws && ws[i..] == [];
    } else {
      WordsSplit(ws[..n], i);
      assert ws[..n][..i] == ws[..i] && ws[i..][..|ws[i..]| - 1] == ws[..n][i..];
      Assoc(Words(ws[..i]), Words(ws[..n][i..]), BigEndian(ws[n], 4));
    }
  }

  /** The `i`-th word of a run of them. */
  lemma WordAt(s: Bytes, at: nat, ws: seq<nat>, i: nat, t: Bytes)
    requires Holds(s, at, Words(ws) + t) && i < |ws|
    ensures at + 4 * |ws| <= |s| && Ru32(s, at + 4 * i) == ws[i] % 0x1_0000_0000
  {
    hide *;
    HoldsNext(s, at, Words(ws), t);
    SigsAt(s, at, ws, t);
    WordsReadAt(s, at, |ws|, i);
    LowWordAt(ws, i);
  }

  lemma LowWordAt(ws: seq<nat>, i: nat)
    requires i < |ws|
    ensures LowWords(ws)[i] == ws[i] % 0x1_0000_0000
  {
  }

  lemma {:induction false} WordsReadAt(s: Bytes, at: nat, n: nat, i: nat)
    requires i < n
    ensures ReadSigs(s, at, 4, n)[i] == Ru32(s, at + 4 * i)
  {
    hide Ru32;
    if i < n - 1 {
      WordsReadAt(s, at, n - 1, i);
    }
  }

  lemma SomeSigsAt(s: Bytes, at: nat, ws: seq<nat>, n: nat, t: Bytes)
    requires Holds(s, at, Words(ws) + t) && n <= |ws|
    ensures ReadSigs(s, at, 4, n) == LowWords(ws[..n])
  {
    hide *;
    WordsSplit(ws, n);
    Assoc(Words(ws[..n]), Words(ws[n..]), t);
    SigsAt(s, at, ws[..n], Words(ws[n..]) + t);
  }

  /** The two words after the counted ones stand where the times would. */
  lemma TimesAt(s: Bytes, at: nat, ws: seq<nat>, n: nat, t: Bytes)
    requires Holds(s, at, Words(ws) + t) && n + 4 <= |ws|
    ensures var end := at + 4 * n;
            end + 16 <= |s| && Ru32(s, end + 8) == ws[n + 2] % 0x1_0000_0000
            && Ru32(s, end + 12) == ws[n + 3] % 0x1_0000_0000
  {
    hide *;
    WordAt(s, at, ws, n + 2, t);
    WordAt(s, at, ws, n + 3, t);
    assert at + 4 * (n + 2) == at + 4 * n + 8 && at + 4 * (n + 3) == at + 4 * n + 12;
  }

  lemma LowSigsParse(s: Bytes, at: nat, b: PgpBlob, ws: seq<nat>, n: nat, t: Bytes)
    requires |ws| >= COUNTS && n == Low(|ws|) && Holds(s, at, CountHead(|ws|, 4) + (Words(ws) + t))
    ensures ParseSigs(s, at, b)
            == Some(WithSigs(b, LowWords(ws[..n]), ws[n + 2] % 0x1_0000_0000, ws[n + 3] % 0x1_0000_0000))
  {
    hide Words, Ru16, Ru32, ReadSigs, LowWords, CountHead, Holds, ParseSigs, WithSigs;
    CountAt(s, at, |ws|, 4, Words(ws), t);
    TimesAt(s, at + 4, ws, n, t);
    SomeSigsAt(s, at + 4, ws, n, t);
    SigsStep(s, at, b, n);
  }

  /** With any number of signatures: the blob is taken whenever its keyblock is, but from 65536 on the
      signatures are cut to their count and the times come from what follows. */
  lemma SurplusSigs(h: Sha1, w: Written, t: Bytes, accepts: PacketReader)
    requires Sized(w) && 1 + |w.p.subkeys| < COUNTS && |w.p.uids| < COUNTS
    ensures ReadEntry(BlobOf(h, w) + t, accepts)
            == if Loads(w.p, accepts) then Some(KeyBlob(BlobOf(h, w), FoundLowSigs(w))) else None
  {
    hide ParsePgp, ParseUids, ParseSigs, ReadEntry, BlobOf, BlobSize, KeyblockAt, Packets, CountHead, UidInfos;
    hide KeyRecords, LowWords, Words, Tail, Flatten, Checksum, Loads;
    if |w.p.sigs| < COUNTS {
      WrittenBlobReads(h, w, t, accepts);
    } else {
      var s, at := BlobOf(h, w) + t, UidsStart(w);
      UpToUids(h, w, t);
      FieldsAreSmall(w);
      UidsParse(s, at, KeysFound(w), w.fields, FromSigs(h, w, t));
      LowSigsParse(s, at + 4 + 12 * |w.fields|, KeysFound(w).(uids := w.fields), w.p.sigs,
                   Low(|w.p.sigs|),
                   Tail(w.latest, w.created) + (Flatten(w.p.uids) + (Packets(Keys(w.p)) + (Checksum(h, w) + t))));
      TakenIff(h, w, t, accepts);
    }
  }

  // --- user ids ---

  /** The first user id record that is not counted is read as the count and size of the signatures:
      its offset is taken apart into two 16-bit numbers. */
  predicate OffsetPasses(w: Written, size: nat)
    requires |w.p.uids| >= COUNTS && UidFields(w.p, w.fields)
  {
    var n := Low(|w.p.uids|);
    var off := UidAt(w.p, n);
    off % COUNTS >= 4 && UidsStart(w) + 8 + 12 * n + (off / COUNTS) * (off % COUNTS) + 16 <= size
  }

  lemma HalvesOf(v: nat, t: Bytes)
    requires v < 0x1_0000_0000
    ensures Ru16(BigEndian(v, 4) + t, 0) == v / COUNTS && Ru16(BigEndian(v, 4) + t, 2) == v % COUNTS
  {
    hide Ru16;
    var hi, lo := BigEndian(v / COUNTS, 2), BigEndian(v, 2);
    assert BigEndian(v, 4) == hi + lo by {
      InOctets(v);
      InOctets(v / COUNTS);
    }
    Assoc(hi, lo, t);
    WordReads(v / COUNTS, lo + t);
    WordReadsAt(hi, v, t);
  }

  lemma {:induction false} UidInfosSplit(fields: seq<(nat, nat)>, i: nat)
    requires i <= |fields|
    ensures UidInfos(fields) == UidInfos(fields[..i]) + UidInfos(fields[i..])
    decreases |fields|
  {
    hide UidInfo;
    var n := |fields| - 1;
    if i == |fields| {
      assert fields[..i] == fields && fields[i..] == [];
    } else {
      UidInfosSplit(fields[..n], i);
      assert fields[..n][..i] == fields[..i] && fields[i..][..|fields[i..]| - 1] == fields[..n][i..];
      Assoc(UidInfos(fields[..i]), UidInfos(fields[..n][i..]), UidInfo(fields[n].0, fields[n].1));
    }
  }

  /** What is read at the first octets of a record. */
  lemma RecordHalves(s: Bytes, at: nat, fields: seq<(nat, nat)>, i: nat, t: Bytes)
    requires Holds(s, at, UidInfos(fields) + t) && i < |fields| && fields[i].0 < 0x1_0000_0000
    ensures at + 12 * i + 12 <= |s|
    ensures Ru16(s, at + 12 * i) == fields[i].0 / COUNTS && Ru16(s, at + 12 * i + 2) == fields[i].0 % COUNTS
  {
    hide *;
    var before, rec, after := UidInfos(fields[..i]), UidInfo(fields[i].0, fields[i].1), UidInfos(fields[i + 1..]);
    RecordSplit(fields, i);
    Assoc(before, rec + after, t);
    Assoc(rec, after, t);
    HoldsNext(s, at, before, rec + (after + t));
    FirstHalves(s, at + |before|, fields[i], after + t);
  }

  lemma RecordSplit(fields: seq<(nat, nat)>, i: nat)
    requires i < |fields|
    ensures UidInfos(fields)
            == UidInfos(fields[..i]) + (UidInfo(fields[i].0, fields[i].1) + UidInfos(fields[i + 1..]))
    ensures |UidInfos(fields[..i])| == 12 * i
  {
    hide UidInfos, UidInfo;
    UidInfosSplit(fields, i);
    UidInfosFirst(fields[i..]);
    assert fields[i..][1..] == fields[i + 1..];
  }

  lemma UidInfosFirst(fields: seq<(nat, nat)>)
    requires fields != []
    ensures UidInfos(fields) == UidInfo(fields[0].0, fields[0].1) + UidInfos(fields[1..])
  {
    hide UidInfo;
    UidInfosSplit(fields, 1);
    var first := fields[..1];
    assert first[..0] == [] && first[0] == fields[0] && UidInfos(first[..0]) == [];
    assert UidInfos(first) == UidInfo(first[0].0, first[0].1);
  }

  lemma FirstHalves(s: Bytes, at: nat, f: (nat, nat), t: Bytes)
    requires Holds(s, at, UidInfo(f.0, f.1) + t) && f.0 < 0x1_0000_0000
    ensures at + 12 <= |s| && Ru16(s, at) == f.0 / COUNTS && Ru16(s, at + 2) == f.0 % COUNTS
  {
    hide Ru16, Ru32, BigEndian;
    var z: Bytes := [0, 0, 0, 0];
    Assoc(BigEndian(f.0, 4), BigEndian(f.1, 4), z);
    Assoc(BigEndian(f.0, 4), BigEndian(f.1, 4) + z, t);
    HalvesOf(f.0, BigEndian(f.1, 4) + z + t);
    ReadsAfter(s, at, 0);
    ReadsAfter(s, at, 2);
  }

  /** With 65536 user ids or more the blob is still taken when the octets the reader then meets pass
      for signatures; what it holds is never what was stored. */
  lemma SurplusUids(h: Sha1, w: Written, t: Bytes, accepts: PacketReader)
    requires Sized(w) && 1 + |w.p.subkeys| < COUNTS && |w.p.uids| >= COUNTS
    ensures ReadEntry(BlobOf(h, w) + t, accepts).Some?
            <==> Loads(w.p, accepts) && OffsetPasses(w, BlobSize(w.p) + |t|)
  {
    hide ParsePgp, ReadEntry, BlobOf, BlobSize, KeyblockAt, Packets, CountHead, UidInfos, ReadUids, ReadSigs;
    hide Ru32, Ru16, KeyRecords, Words, Tail, Flatten, Checksum, Loads, FromSigs, UidAt, Holds;
    var s, at, n := BlobOf(h, w) + t, UidsStart(w), Low(|w.p.uids|);
    UpToUids(h, w, t);
    FieldsAreSmall(w);
    BlobLength(h, w);
    CountAt(s, at, |w.p.uids|, 12, UidInfos(w.fields), FromSigs(h, w, t));
    RecordHalves(s, at + 4, w.fields, n, FromSigs(h, w, t));
    TakenIff(h, w, t, accepts);
  }

  /** Such blobs exist: the offset of the first user id of 65536, 0xC004E, is 12 records of 78 octets. */
  lemma ManyUidsTaken(h: Sha1, w: Written, t: Bytes, accepts: PacketReader)
    requires Sized(w) && w.p.subkeys == [] && w.p.sigs == [] && |w.p.uids| == COUNTS
    ensures ReadEntry(BlobOf(h, w) + t, accepts).Some? <==> Loads(w.p, accepts)
  {
    hide ReadEntry, BlobOf, Loads, Packets, KeyInfos, Words, Checksum;
    SurplusUids(h, w, t, accepts);
    KeyInfosSize(Keys(w.p), 0);
    assert w.p.uids[..0] == [];
    assert UidAt(w.p, 0) == 0xC004E;
  }
}
