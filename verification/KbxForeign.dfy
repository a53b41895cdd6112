/** Key blobs of other programs: the reader of src/librekey/key_store_kbx.c on records that are longer
    than the ones this writer makes, and behind a serial number, which this writer never stores. */
module KbxForeign {
  import opened Octets
  import opened Kbx
  import opened KbxImage

  /** A key blob: 16 octets, the key records, a serial number, the user id records, the signature
      words, and the rest. */
  datatype Layout = Layout(fixed: Bytes, keys: seq<Bytes>, keySize: nat, serial: Bytes,
                           uids: seq<Bytes>, uidSize: nat, sigs: seq<Bytes>, sigSize: nat, rest: Bytes)

  predicate AllOfSize(records: seq<Bytes>, size: nat)
  {
    |records| < 0x1_0000 && size < 0x1_0000 && forall i :: 0 <= i < |records| ==> |records[i]| == size
  }

  predicate ValidLayout(b: Layout)
  {
    |b.fixed| == 16 && |b.serial| < 0x1_0000 && |b.rest| >= 16
    && AllOfSize(b.keys, b.keySize) && AllOfSize(b.uids, b.uidSize) && AllOfSize(b.sigs, b.sigSize)
  }

  /** Records behind their count and their size, two octets each. */
  function Counted(records: seq<Bytes>, size: nat, t: Bytes): (r: Bytes)
  {
    Big2(|records|) + Big2(size) + (Flatten(records) + t)
  }

  function FromUids(b: Layout): (r: Bytes)
  {
    Counted(b.uids, b.uidSize, Counted(b.sigs, b.sigSize, b.rest))
  }

  function Image(b: Layout): (r: Bytes)
  {
    b.fixed + Counted(b.keys, b.keySize, Big2(|b.serial|) + (b.serial + FromUids(b)))
  }

  // --- equal records ---

  lemma {:induction false} EqualSizes(records: seq<Bytes>, size: nat)
    requires AllOfSize(records, size)
    ensures |Flatten(records)| == size * |records|
  {
    if records != [] {
      EqualSizes(records[..|records| - 1], size);
      assert size * |records| == size * (|records| - 1) + size;
    }
  }

  lemma {:induction false} RecordAt(s: Bytes, at: nat, records: seq<Bytes>, size: nat, t: Bytes, i: nat)
    requires AllOfSize(records, size) && i < |records| && Holds(s, at, Flatten(records) + t)
    ensures size * i >= 0 && at + size * i + size <= |s| && s[at + size * i..at + size * i + size] == records[i]
    decreases i
  {
    FlattenFirst(records);
    Assoc(records[0], Flatten(records[1..]), t);
    HoldsNext(s, at, records[0], Flatten(records[1..]) + t);
    if i == 0 {
      assert size * i == 0;
      assert s[at..][..size] == s[at..at + size];
      PrefixAndRest(records[0], Flatten(records[1..]) + t);
    } else {
      RecordAt(s, at + size, records[1..], size, t, i - 1);
      assert size * i == size * (i - 1) + size;
    }
  }

  lemma WordIn(s: Bytes, at: nat, x: Bytes, k: nat)
    requires at + |x| <= |s| && s[at..at + |x|] == x && k + 4 <= |x|
    ensures Ru32(s, at + k) == Quad(x[k], x[k + 1], x[k + 2], x[k + 3])
  {
    hide FromBigEndian;
    SliceOfSlice(s, at, at + |x|, k, k + 4);
    FromOctets(x[k..k + 4]);
  }

  lemma SliceOfSlice(s: Bytes, i: nat, j: nat, a: nat, b: nat)
    requires i <= j <= |s| && a <= b <= j - i
    ensures s[i..j][a..b] == s[i + a..i + b]
  {
    var x, y := s[i..j][a..b], s[i + a..i + b];
    forall k | 0 <= k < b - a
      ensures x[k] == y[k]
    {
      assert x[k] == s[i..j][a + k] == s[i + a + k];
    }
    assert x == y;
  }

  lemma {:induction false} RecordsRead(s: Bytes, at: nat, size: nat, n: nat, i: nat)
    requires i < n
    ensures size * i >= 0
    ensures ReadKeys(s, at, size, n)[i] == ReadKey(s, at + size * i)
    ensures ReadUids(s, at, size, n)[i] == (Ru32(s, at + size * i), Ru32(s, at + size * i + 4))
    ensures ReadSigs(s, at, size, n)[i] == Ru32(s, at + size * i)
  {
    hide Ru32, ReadKey;
    if i < n - 1 {
      RecordsRead(s, at, size, n - 1, i);
    }
  }

  /** A count, a size and the records behind them, met at some position. */
  lemma CountedAt(s: Bytes, at: nat, records: seq<Bytes>, size: nat, t: Bytes)
    requires AllOfSize(records, size) && Holds(s, at, Counted(records, size, t))
    ensures Ru16(s, at) == |records| && Ru16(s, at + 2) == size
    ensures Holds(s, at + 4, Flatten(records) + t) && Holds(s, at + 4 + size * |records|, t)
    ensures at + 4 + size * |records| + |t| == |s|
  {
    hide *;
    SmallCounts(records, size);
    CountedHead(records, size, t);
    EqualSizes(records, size);
    CountAt(s, at, |records|, size, Flatten(records), t);
  }

  lemma SmallCounts(records: seq<Bytes>, size: nat)
    requires AllOfSize(records, size)
    ensures size < 0x1_0000 && |records| % 0x1_0000 == |records|
  {
  }

  lemma CountedHead(records: seq<Bytes>, size: nat, t: Bytes)
    ensures Counted(records, size, t) == CountHead(|records|, size) + (Flatten(records) + t)
  {
    hide Big2, Flatten, BigEndian;
    InOctets(|records|);
    InOctets(size);
  }

  // --- the reader, step by step ---

  /** Where the parts of a layout start. */
  function SerialAt(b: Layout): nat { 20 + b.keySize * |b.keys| }
  function UidsAtOf(b: Layout): nat { SerialAt(b) + 2 + |b.serial| }
  function SigsAtOf(b: Layout): nat { UidsAtOf(b) + 4 + b.uidSize * |b.uids| }
  function RestAt(b: Layout): nat { SigsAtOf(b) + 4 + b.sigSize * |b.sigs| }

  /** Every part stands where it should. */
  lemma PartsHeld(b: Layout)
    requires ValidLayout(b)
    ensures var s := Image(b);
            RestAt(b) + |b.rest| == |s| && s[..16] == b.fixed && s[RestAt(b)..] == b.rest
            && Ru16(s, 16) == |b.keys| && Ru16(s, 18) == b.keySize && Ru16(s, SerialAt(b)) == |b.serial|
            && Ru16(s, UidsAtOf(b)) == |b.uids| && Ru16(s, UidsAtOf(b) + 2) == b.uidSize
            && Ru16(s, SigsAtOf(b)) == |b.sigs| && Ru16(s, SigsAtOf(b) + 2) == b.sigSize
            && (exists t :: Holds(s, 20, Flatten(b.keys) + t))
            && (exists t :: Holds(s, UidsAtOf(b) + 4, Flatten(b.uids) + t))
            && (exists t :: Holds(s, SigsAtOf(b) + 4, Flatten(b.sigs) + t))
  {
    hide Ru16, Counted, Flatten, Big2, AllOfSize;
    var s, fromSerial := Image(b), Big2(|b.serial|) + (b.serial + FromUids(b));
    var fromSigs := Counted(b.sigs, b.sigSize, b.rest);
    assert s[0..] == s;
    HoldsNext(s, 0, b.fixed, Counted(b.keys, b.keySize, fromSerial));
    PrefixAndRest(b.fixed, Counted(b.keys, b.keySize, fromSerial));
    CountedAt(s, 16, b.keys, b.keySize, fromSerial);
    SerialSize(s, SerialAt(b), |b.serial|, b.serial + FromUids(b));
    HoldsNext(s, SerialAt(b), Big2(|b.serial|), b.serial + FromUids(b));
    HoldsNext(s, SerialAt(b) + 2, b.serial, FromUids(b));
    CountedAt(s, UidsAtOf(b), b.uids, b.uidSize, fromSigs);
    CountedAt(s, SigsAtOf(b), b.sigs, b.sigSize, b.rest);
  }

  lemma SerialSize(s: Bytes, at: nat, n: nat, t: Bytes)
    requires n < 0x1_0000 && Holds(s, at, Big2(n) + t)
    ensures Ru16(s, at) == n && |Big2(n)| == 2
  {
    hide Big2, Ru16, BigEndian;
    InOctets(n);
    WordReads(n, t);
    ReadsAfter(s, at, 0);
  }

  /** The reader on a valid layout, given what its count and size fields hold: the signature words and the
      rest, the user id records before them, and the keys before those. */
  lemma SigSteps(b: Layout, s: Bytes, found: PgpBlob)
    requires RestAt(b) + 16 <= |s|
    requires Ru16(s, SigsAtOf(b)) == |b.sigs| && Ru16(s, SigsAtOf(b) + 2) == b.sigSize
    ensures ParseSigs(s, SigsAtOf(b), found)
            == if b.sigSize < 4 then None
               else
                 Some(WithSigs(found, ReadSigs(s, SigsAtOf(b) + 4, b.sigSize, |b.sigs|), Ru32(s, RestAt(b) + 8),
                               Ru32(s, RestAt(b) + 12)))
  {
    hide Ru16, Ru32, ReadSigs, WithSigs, SigsAtOf;
  }

  lemma UidSteps(b: Layout, s: Bytes, found: PgpBlob)
    requires RestAt(b) <= |s|
    requires Ru16(s, UidsAtOf(b)) == |b.uids| && Ru16(s, UidsAtOf(b) + 2) == b.uidSize
    ensures ParseUids(s, UidsAtOf(b), found)
            == if b.uidSize < 12 then None
               else
                 ParseSigs(s, SigsAtOf(b), found.(uids := ReadUids(s, UidsAtOf(b) + 4, b.uidSize, |b.uids|)))
  {
    hide Ru16, Ru32, ReadUids, ParseSigs, UidsAtOf;
  }

  lemma KeySteps(s: Bytes, n: nat, size: nat, at: nat, serial: nat)
    requires Ru16(s, 16) == n && Ru16(s, 18) == size && at == 20 + size * n
    requires Ru16(s, at) == serial && at + 2 + serial <= |s|
    ensures var off, kbLen := Ru32(s, 8), Ru32(s, 12);
            ParsePgp(s, |s|)
            == if s[5] == 1 && off <= |s| && (off + kbLen) % 0x1_0000_0000 <= |s| && n >= 1 && size >= 28 then
                 ParseUids(s, at + 2 + serial, PgpBlob(off, kbLen, ReadKeys(s, 20, size, n), [], [], 0, 0))
               else None
  {
    hide Ru16, Ru32, ReadKeys, ParseUids;
  }

  // --- what is read ---

  /** A key blob of any layout is taken exactly when it has version 1, its keyblock starts inside it and
      ends inside it modulo 2^32, there is a key, and the records are long enough for their fields; the
      fields are then read from the start of each record, whatever else follows in it. */
  lemma ForeignBlobReads(b: Layout)
    requires ValidLayout(b)
    ensures var s := Image(b);
            var off := Quad(b.fixed[8], b.fixed[9], b.fixed[10], b.fixed[11]);
            var kbLen := Quad(b.fixed[12], b.fixed[13], b.fixed[14], b.fixed[15]);
            var r := ParsePgp(s, |s|);
            (r.Some? <==> b.fixed[5] == 1 && off <= |s| && (off + kbLen) % 0x1_0000_0000 <= |s|
                          && b.keys != [] && b.keySize >= 28 && b.uidSize >= 12 && b.sigSize >= 4)
            && (r.Some? ==> r.value.off == off && r.value.kbLen == kbLen
                            && KeysAre(b.keys, r.value.keys) && UidsAre(b.uids, r.value.uids)
                            && SigsAre(b.sigs, r.value.sigs)
                            && r.value.latest == Quad(b.rest[8], b.rest[9], b.rest[10], b.rest[11])
                            && r.value.created == Quad(b.rest[12], b.rest[13], b.rest[14], b.rest[15]))
  {
    hide Ru16, Ru32, ReadKeys, ReadUids, ReadSigs, AllOfSize, Image, ParsePgp, ParseUids, ParseSigs;
    hide KeysAre, UidsAre, SigsAre, SigsAtOf, RestAt;
    var s := Image(b);
    PartsHeld(b);
    FixedWords(b, s);
    KeySteps(s, |b.keys|, b.keySize, SerialAt(b), |b.serial|);
    var found := PgpBlob(Ru32(s, 8), Ru32(s, 12), ReadKeys(s, 20, b.keySize, |b.keys|), [], [], 0, 0);
    UidSteps(b, s, found);
    SigSteps(b, s, found.(uids := ReadUids(s, UidsAtOf(b) + 4, b.uidSize, |b.uids|)));
    if b.keySize >= 28 && b.uidSize >= 12 && b.sigSize >= 4 {
      KeysFound(s, 20, b.keys, b.keySize);
      UidsFound(s, UidsAtOf(b) + 4, b.uids, b.uidSize);
      SigsFound(s, SigsAtOf(b) + 4, b.sigs, b.sigSize);
    }
  }

  lemma FixedWords(b: Layout, s: Bytes)
    requires ValidLayout(b) && RestAt(b) + |b.rest| == |s| && s[..16] == b.fixed && s[RestAt(b)..] == b.rest
    ensures s[5] == b.fixed[5]
    ensures Ru32(s, 8) == Quad(b.fixed[8], b.fixed[9], b.fixed[10], b.fixed[11])
    ensures Ru32(s, 12) == Quad(b.fixed[12], b.fixed[13], b.fixed[14], b.fixed[15])
    ensures Ru32(s, RestAt(b) + 8) == Quad(b.rest[8], b.rest[9], b.rest[10], b.rest[11])
    ensures Ru32(s, RestAt(b) + 12) == Quad(b.rest[12], b.rest[13], b.rest[14], b.rest[15])
  {
    hide Ru32, AllOfSize;
    var at := RestAt(b);
    assert s[0..16] == b.fixed && s[at..at + |b.rest|] == b.rest;
    WordIn(s, 0, b.fixed, 8);
    WordIn(s, 0, b.fixed, 12);
    WordIn(s, at, b.rest, 8);
    WordIn(s, at, b.rest, 12);
  }

  /** A fingerprint of 20 octets and four of an offset. */
  predicate KeysAre(records: seq<Bytes>, keys: seq<KeyRecord>)
  {
    |keys| == |records|
    && forall i :: 0 <= i < |keys| ==>
         var x := records[i];
         |x| >= 24 && keys[i].fp == x[..20] && keys[i].keyIdAt == Quad(x[20], x[21], x[22], x[23])
  }

  /** Four octets of an offset and four of a length. */
  predicate UidsAre(records: seq<Bytes>, uids: seq<(nat, nat)>)
  {
    |uids| == |records|
    && forall i :: 0 <= i < |uids| ==>
         var x := records[i];
         |x| >= 8 && uids[i].0 == Quad(x[0], x[1], x[2], x[3]) && uids[i].1 == Quad(x[4], x[5], x[6], x[7])
  }

  predicate SigsAre(records: seq<Bytes>, sigs: seq<nat>)
  {
    |sigs| == |records|
    && forall i :: 0 <= i < |sigs| ==>
         var x := records[i];
         |x| >= 4 && sigs[i] == Quad(x[0], x[1], x[2], x[3])
  }

  lemma KeysFound(s: Bytes, at: nat, records: seq<Bytes>, size: nat)
    requires AllOfSize(records, size) && size >= 28 && exists t :: Holds(s, at, Flatten(records) + t)
    ensures KeysAre(records, ReadKeys(s, at, size, |records|))
  {
    hide Ru32, Flatten, Holds, ReadKeys;
    var t :| Holds(s, at, Flatten(records) + t);
    var keys := ReadKeys(s, at, size, |records|);
    forall i | 0 <= i < |records|
      ensures |records[i]| == size && keys[i].fp == records[i][..20]
      ensures var x := records[i]; keys[i].keyIdAt == Quad(x[20], x[21], x[22], x[23])
    {
      RecordsRead(s, at, size, |records|, i);
      RecordAt(s, at, records, size, t, i);
      KeyIn(s, at + size * i, records[i]);
    }
  }

  lemma KeyIn(s: Bytes, at: nat, x: Bytes)
    requires |x| >= 28 && at + |x| <= |s| && s[at..at + |x|] == x
    ensures ReadKey(s, at) == KeyRecord(x[..20], Quad(x[20], x[21], x[22], x[23]))
  {
    hide Ru32;
    WordIn(s, at, x, 20);
    assert s[at..at + 20] == x[..20];
  }

  lemma UidsFound(s: Bytes, at: nat, records: seq<Bytes>, size: nat)
    requires AllOfSize(records, size) && size >= 12 && exists t :: Holds(s, at, Flatten(records) + t)
    ensures UidsAre(records, ReadUids(s, at, size, |records|))
  {
    hide Ru32, Flatten, Holds, ReadUids;
    var t :| Holds(s, at, Flatten(records) + t);
    var uids := ReadUids(s, at, size, |records|);
    forall i | 0 <= i < |records|
      ensures var x := records[i];
              |x| == size && uids[i] == (Quad(x[0], x[1], x[2], x[3]), Quad(x[4], x[5], x[6], x[7]))
    {
      RecordsRead(s, at, size, |records|, i);
      RecordAt(s, at, records, size, t, i);
      WordIn(s, at + size * i, records[i], 0);
      WordIn(s, at + size * i, records[i], 4);
    }
  }

  lemma SigsFound(s: Bytes, at: nat, records: seq<Bytes>, size: nat)
    requires AllOfSize(records, size) && size >= 4 && exists t :: Holds(s, at, Flatten(records) + t)
    ensures SigsAre(records, ReadSigs(s, at, size, |records|))
  {
    hide Ru32, Flatten, Holds, ReadSigs;
    var t :| Holds(s, at, Flatten(records) + t);
    var sigs := ReadSigs(s, at, size, |records|);
    forall i | 0 <= i < |records|
      ensures var x := records[i]; |x| == size && sigs[i] == Quad(x[0], x[1], x[2], x[3])
    {
      RecordsRead(s, at, size, |records|, i);
      RecordAt(s, at, records, size, t, i);
      WordIn(s, at + size * i, records[i], 0);
    }
  }

  /** A blob of any kind: its length is in the first four octets and its type in the fifth.  Types 0 and 3
      are kept as they are, 1 is checked as a header, and 2 as a key blob whose keyblock is not empty and
      is accepted by the packet reader; nothing else is taken. */
  lemma BlobKinds(s: Bytes, accepts: PacketReader)
    requires |s| >= 5
    ensures var len := Quad(s[0], s[1], s[2], s[3]);
            var r := ReadEntry(s, accepts);
            if len < 5 || len > 5_242_880 || len > |s| || s[4] > 3 then r == None
            else if s[4] == 0 || s[4] == 3 then r == Some(Plain(s[..len]))
            else if s[4] == 1 then r == if ValidHeader(s, len) then Some(HeaderBlob(s[..len])) else None
            else
              var b := ParsePgp(s, len);
              if b.Some? && b.value.kbLen > 0 && accepts(KeyblockOf(s, b.value.off, b.value.kbLen)) then
                r == Some(KeyBlob(s[..len], b.value))
              else r == None
  {
    hide ParsePgp, FromBigEndian, ValidHeader;
    assert s[0..4][0] == s[0];
    FromOctets(s[0..4]);
  }

  function KeyblockOf(s: Bytes, off: nat, size: nat): (r: Bytes)
  {
    if off + size > |s| then [] else s[off..off + size]
  }
}
