/** The keybox container of src/librekey/key_store_kbx.c: blobs written with back-patched offsets
    and lengths, and the reader that walks them. */
module Kbx {
  import opened Octets
  import opened Memory
  import opened SeIp

  const FP: nat := 20 // PGP_FINGERPRINT_SIZE
  const LIMIT: nat := 5 * 1024 * 1024 // BLOB_SIZE_LIMIT
  const EMPTY: Octet := 0
  const HEADER: Octet := 1
  const PGP: Octet := 2
  const X509: Octet := 3

  /** A key as the writer uses it: its fingerprint and its raw packets. */
  datatype Key = Key(fp: Bytes, packets: seq<Bytes>)

  /** A primary key with what goes into its blob. */
  datatype Primary = Primary(key: Key, subkeys: seq<Key>, uids: seq<Bytes>, sigs: seq<nat>)

  predicate ValidPrimary(p: Primary)
  {
    |p.key.fp| == FP && forall i :: 0 <= i < |p.subkeys| ==> |p.subkeys[i].fp| == FP
  }

  /** `pgp_key_write_packets` refuses a key without packets and an empty packet. */
  predicate WritableKey(k: Key)
  {
    k.packets != [] && forall x <- k.packets :: x != []
  }

  predicate Writable(p: Primary)
  {
    forall k <- Keys(p) :: WritableKey(k)
  }

  // --- the octets of a blob ---

  function Keys(p: Primary): (r: seq<Key>)
  {
    [p.key] + p.subkeys
  }

  /** The first 20 octets; the three patched fields are parameters. */
  function Fixed(len: nat, off: nat, kbLen: nat, nkeys: nat): (r: Bytes)
    ensures |r| == 20
  {
    BigEndian(len, 4) + [PGP, 1, 0, 0] + BigEndian(off, 4) + BigEndian(kbLen, 4) + BigEndian(nkeys, 2)
    + BigEndian(28, 2)
  }

  /** One fingerprint with the offset of its last 8 octets from the start of the blob. */
  function KeyInfo(fp: Bytes, i: nat): (r: Bytes)
    ensures |r| == |fp| + 8
  {
    fp + BigEndian(20 + 28 * i + |fp| - 8, 4) + [0, 0, 0, 0]
  }

  function KeyInfos(keys: seq<Key>, i: nat): (r: Bytes)
  {
    if keys == [] then [] else KeyInfo(keys[0].fp, i) + KeyInfos(keys[1..], i + 1)
  }

  function UidInfo(off: nat, len: nat): (r: Bytes)
    ensures |r| == 12
  {
    BigEndian(off, 4) + BigEndian(len, 4) + [0, 0, 0, 0]
  }

  function UidInfos(fields: seq<(nat, nat)>): (r: Bytes)
    ensures |r| == 12 * |fields|
  {
    if fields == [] then []
    else UidInfos(fields[..|fields| - 1]) + UidInfo(fields[|fields| - 1].0, fields[|fields| - 1].1)
  }

  function Words(ws: seq<nat>): (r: Bytes)
    ensures |r| == 4 * |ws|
  {
    if ws == [] then [] else Words(ws[..|ws| - 1]) + BigEndian(ws[|ws| - 1], 4)
  }

  /** How many records follow and how many octets each takes. */
  function CountHead(n: nat, size: nat): (r: Bytes)
    ensures |r| == 4
  {
    BigEndian(n, 2) + BigEndian(size, 2)
  }

  /** No serial number, then the count and size of the user id records. */
  function UidHead(n: nat): (r: Bytes)
    ensures |r| == 6
  {
    BigEndian(0, 2) + CountHead(n, 12)
  }

  function SigHead(n: nat): (r: Bytes)
    ensures |r| == 4
  {
    CountHead(n, 4)
  }

  /** Trust, validity, recheck time, the two times and the size of the reserved space. */
  function Tail(latest: nat, created: nat): (r: Bytes)
    ensures |r| == 20
  {
    [0, 0, 0, 0, 0, 0, 0, 0] + BigEndian(latest, 4) + BigEndian(created, 4) + [0, 0, 0, 0]
  }

  function Packets(keys: seq<Key>): (r: Bytes)
  {
    if keys == [] then [] else Packets(keys[..|keys| - 1]) + Flatten(keys[|keys| - 1].packets)
  }

  /** Everything between the fixed part and the user id records. */
  function KeyPart(p: Primary): (r: Bytes)
  {
    KeyInfos(Keys(p), 0) + UidHead(|p.uids|)
  }

  /** Everything between the user id records and the user ids themselves. */
  function SigPart(p: Primary, latest: nat, created: nat): (r: Bytes)
  {
    SigHead(|p.sigs|) + Words(p.sigs) + Tail(latest, created)
  }

  /** A blob without its checksum. */
  function BlobBody(p: Primary, latest: nat, created: nat, len: nat, off: nat, kbLen: nat, fields: seq<(nat, nat)>)
    : (r: Bytes)
  {
    Fixed(len, off, kbLen, 1 + |p.subkeys|) + KeyPart(p) + UidInfos(fields) + SigPart(p, latest, created)
    + Flatten(p.uids) + Packets(Keys(p))
  }

  /** Where the keyblock of a blob starts. */
  function KeyblockAt(p: Primary): (r: nat)
  {
    20 + |KeyPart(p)| + 12 * |p.uids| + |SigPart(p, 0, 0)| + |Flatten(p.uids)|
  }

  /** Where the `i`-th user id starts. */
  function UidAt(p: Primary, i: nat): (r: nat)
    requires i <= |p.uids|
  {
    20 + |KeyPart(p)| + 12 * |p.uids| + |SigPart(p, 0, 0)| + |Flatten(p.uids[..i])|
  }

  function BlobSize(p: Primary): (r: nat)
  {
    KeyblockAt(p) + |Packets(Keys(p))| + 20
  }

  /** The final blob: the length counts the checksum, the keyblock fields say where the packets
      are, and the user id fields are `fields`. */
  function Blob(p: Primary, h: Sha1, latest: nat, created: nat, fields: seq<(nat, nat)>): (r: Bytes)
  {
    var body := BlobBody(p, latest, created, BlobSize(p), KeyblockAt(p), |Packets(Keys(p))|, fields);
    body + Digest(h, body)
  }

  /** The user id fields a reader can meet: every offset right, every length right or zero. */
  predicate UidFields(p: Primary, fields: seq<(nat, nat)>)
  {
    |fields| == |p.uids| && forall i :: 0 <= i < |fields| ==>
      fields[i].0 == UidAt(p, i) && (fields[i].1 == |p.uids[i]| || fields[i].1 == 0)
  }

  // --- the sizes of the appends that make a blob ---

  const FIXED_SIZES: seq<nat> := [4, 1, 1, 2, 4, 4, 2, 2]
  const KEY_SIZES: seq<nat> := [20, 4, 2, 2]
  const UID_SIZES: seq<nat> := [4, 4, 2, 1, 1]
  const TAIL_SIZES: seq<nat> := [1, 1, 2, 4, 4, 4, 4]

  function Times(n: nat, sizes: seq<nat>): (r: seq<nat>)
  {
    if n == 0 then [] else Times(n - 1, sizes) + sizes
  }

  /** Up to the user ids. */
  function FrontSizes(p: Primary): (r: seq<nat>)
  {
    FIXED_SIZES + Times(|Keys(p)|, KEY_SIZES) + [2, 2, 2] + Times(|p.uids|, UID_SIZES) + [2, 2]
    + Times(|p.sigs|, [4]) + TAIL_SIZES
  }

  function PacketSizes(keys: seq<Key>): (r: seq<nat>)
  {
    if keys == [] then [] else PacketSizes(keys[..|keys| - 1]) + Sizes(keys[|keys| - 1].packets)
  }

  function BlobSizes(p: Primary): (r: seq<nat>)
  {
    FrontSizes(p) + Sizes(p.uids) + PacketSizes(Keys(p)) + [20]
  }

  /** Whether the `i`-th user id of a blob starting at `start` fits the allocation at the time it is
      appended, for an allocation of `cap` at the start of the blob. */
  predicate UidFits(p: Primary, cap: nat, start: nat, i: nat)
    requires i < |p.uids|
  {
    var before := FrontSizes(p) + Sizes(p.uids[..i]);
    start + Sum(before) + |p.uids[i]| <= RoomAfter(cap, start, before)
  }

  /** For each user id, whether the allocator moves the buffer if the append has to grow it. */
  type Moves = nat -> bool

  /** The user id fields the writer leaves: every offset right, and a length right exactly when the
      append of that user id left the buffer where it was. */
  function FieldsLeft(p: Primary, cap: nat, start: nat, moves: Moves): (r: seq<(nat, nat)>)
    ensures UidFields(p, r)
  {
    seq(|p.uids|, i requires 0 <= i < |p.uids| => (UidAt(p, i), LengthLeft(p, cap, start, moves, i)))
  }

  function LengthLeft(p: Primary, cap: nat, start: nat, moves: Moves, i: nat): (r: nat)
    requires i < |p.uids|
  {
    if UidFits(p, cap, start, i) || !moves(i) then |p.uids[i]| else 0
  }

  lemma BodySize(p: Primary, latest: nat, created: nat, len: nat, off: nat, kbLen: nat, fields: seq<(nat, nat)>)
    requires |fields| == |p.uids|
    ensures |BlobBody(p, latest, created, len, off, kbLen, fields)| == BlobSize(p) - 20
  {
    hide KeyPart, Flatten, Packets, Fixed;
  }

  // --- patching ---

  lemma PatchInside(a: Bytes, b: Bytes, c: Bytes, at: nat, patch: Bytes)
    requires at + |patch| <= |b|
    ensures Patched(a + b + c, |a| + at, patch) == a + Patched(b, at, patch) + c
  {
  }

  lemma PatchFixed(len: nat, off: nat, kbLen: nat, n: nat, v: nat)
    ensures Patched(Fixed(len, off, kbLen, n), 0, BigEndian(v, 4)) == Fixed(v, off, kbLen, n)
    ensures Patched(Fixed(len, off, kbLen, n), 8, BigEndian(v, 4)) == Fixed(len, v, kbLen, n)
    ensures Patched(Fixed(len, off, kbLen, n), 12, BigEndian(v, 4)) == Fixed(len, off, v, n)
  {
    hide BigEndian;
  }

  lemma PatchUidInfo(off: nat, len: nat, v: nat)
    ensures Patched(UidInfo(off, len), 0, BigEndian(v, 4)) == UidInfo(v, len)
    ensures Patched(UidInfo(off, len), 4, BigEndian(v, 4)) == UidInfo(off, v)
  {
    hide BigEndian;
  }

  lemma UidInfosSnoc(fields: seq<(nat, nat)>)
    requires fields != []
    ensures var n := |fields| - 1;
            UidInfos(fields) == UidInfos(fields[..n]) + UidInfo(fields[n].0, fields[n].1)
  {
  }

  /** Patching a field of the `i`-th record changes that record alone. */
  lemma {:induction false} PatchUidInfos(fields: seq<(nat, nat)>, i: nat, at: nat, patch: Bytes, f: (nat, nat))
    requires i < |fields| && at + |patch| <= 12
    requires Patched(UidInfo(fields[i].0, fields[i].1), at, patch) == UidInfo(f.0, f.1)
    ensures Patched(UidInfos(fields), 12 * i + at, patch) == UidInfos(fields[i := f])
  {
    hide UidInfo, UidInfos;
    var init, last := fields[..|fields| - 1], fields[|fields| - 1];
    var rec := UidInfo(last.0, last.1);
    UidInfosSnoc(fields);
    UidInfosSnoc(fields[i := f]);
    if i == |fields| - 1 {
      assert fields[i := f][..i] == init;
      PatchInside(UidInfos(init), rec, [], at, patch);
      assert UidInfos(init) + rec + [] == UidInfos(fields);
      assert UidInfos(init) + UidInfo(f.0, f.1) + [] == UidInfos(fields[i := f]);
    } else {
      PatchUidInfos(init, i, at, patch, f);
      assert fields[i := f][..|fields| - 1] == init[i := f];
      PatchInside([], UidInfos(init), rec, 12 * i + at, patch);
      assert [] + UidInfos(init) + rec == UidInfos(fields);
      assert [] + UidInfos(init[i := f]) + rec == UidInfos(fields[i := f]);
    }
  }

  // --- the writer ---

  function ZeroFields(n: nat): (r: seq<(nat, nat)>)
    ensures |r| == n && forall i :: 0 <= i < n ==> r[i] == (0, 0)
  {
    seq(n, _ => (0, 0))
  }

  lemma {:induction false} KeyInfosSnoc(keys: seq<Key>, i: nat, k: Key)
    ensures KeyInfos(keys + [k], i) == KeyInfos(keys, i) + KeyInfo(k.fp, i + |keys|)
  {
    hide KeyInfo;
    var all := keys + [k];
    if keys == [] {
      assert all == [k] && all[1..] == [];
      assert KeyInfo(k.fp, i) + [] == [] + KeyInfo(k.fp, i);
    } else {
      KeyInfosSnoc(keys[1..], i + 1, k);
      assert all[1..] == keys[1..] + [k] && all[0] == keys[0];
      Assoc(KeyInfo(keys[0].fp, i), KeyInfos(keys[1..], i + 1), KeyInfo(k.fp, i + |keys|));
    }
  }

  lemma {:induction false} KeyInfosSize(keys: seq<Key>, i: nat)
    requires forall j :: 0 <= j < |keys| ==> |keys[j].fp| == FP
    ensures |KeyInfos(keys, i)| == 28 * |keys|
  {
    if keys != [] {
      KeyInfosSize(keys[1..], i + 1);
    }
  }

  // --- short lists of appends ---

  lemma FlattenSnoc(parts: seq<Bytes>, x: Bytes)
    ensures Flatten(parts + [x]) == Flatten(parts) + x
  {
    assert (parts + [x])[..|parts|] == parts;
  }

  lemma SizesSnoc(parts: seq<Bytes>, x: Bytes)
    ensures Sizes(parts + [x]) == Sizes(parts) + [|x|]
  {
  }

  lemma Flatten2(a: Bytes, b: Bytes)
    ensures Flatten([a, b]) == a + b
  {
    FlattenSnoc([], a);
    FlattenSnoc([a], b);
    assert [] + [a] == [a] && [a] + [b] == [a, b] && [] + a == a;
  }

  lemma Flatten4(a: Bytes, b: Bytes, c: Bytes, d: Bytes)
    ensures Flatten([a, b, c, d]) == a + b + c + d
  {
    Flatten2(a, b);
    FlattenSnoc([a, b], c);
    FlattenSnoc([a, b, c], d);
    assert [a, b] + [c] == [a, b, c] && [a, b, c] + [d] == [a, b, c, d];
  }

  function FixedParts(n: nat): (r: seq<Bytes>)
    ensures Flatten(r) == Fixed(0, 0, 0, n) && Sizes(r) == FIXED_SIZES
  {
    var a: seq<Bytes> := [BigEndian(0, 4), [PGP], [1], [0, 0]];
    var b := [BigEndian(0, 4), BigEndian(0, 4), BigEndian(n, 2), BigEndian(28, 2)];
    FixedFromParts(n, a, b);
    a + b
  }

  lemma FixedFromParts(n: nat, a: seq<Bytes>, b: seq<Bytes>)
    requires a == [BigEndian(0, 4), [PGP], [1], [0, 0]]
    requires b == [BigEndian(0, 4), BigEndian(0, 4), BigEndian(n, 2), BigEndian(28, 2)]
    ensures Flatten(a + b) == Fixed(0, 0, 0, n) && Sizes(a + b) == FIXED_SIZES
  {
    hide BigEndian, Flatten;
    FlattenConcat(a, b);
    Flatten4(a[0], a[1], a[2], a[3]);
    Flatten4(b[0], b[1], b[2], b[3]);
    var head: Bytes := [PGP, 1, 0, 0];
    assert a[0] + a[1] + a[2] + a[3] == a[0] + head;
    Assoc4(a[0] + head, b[0], b[1], b[2]);
    Assoc(a[0] + head, b[0] + b[1] + b[2], b[3]);
  }

  function KeyParts(fp: Bytes, i: nat): (r: seq<Bytes>)
    requires |fp| == FP
    ensures Flatten(r) == KeyInfo(fp, i) && Sizes(r) == KEY_SIZES
  {
    hide BigEndian, Flatten;
    var off := BigEndian(20 + 28 * i + |fp| - 8, 4);
    Flatten4(fp, off, [0, 0], [0, 0]);
    var z: Bytes := [0, 0, 0, 0];
    assert fp + off + [0, 0] + [0, 0] == fp + off + z;
    [fp, off, [0, 0], [0, 0]]
  }

  function UidParts(): (r: seq<Bytes>)
    ensures Flatten(r) == UidInfo(0, 0) && Sizes(r) == UID_SIZES
  {
    hide BigEndian, Flatten;
    var w := BigEndian(0, 4);
    Flatten4(w, w, [0, 0], [0]);
    FlattenSnoc([w, w, [0, 0], [0]], [0]);
    var z: Bytes := [0, 0, 0, 0];
    assert w + w + [0, 0] + [0] + [0] == w + w + z;
    assert [w, w, [0, 0], [0]] + [[0]] == [w, w, [0, 0], [0], [0]];
    [w, w, [0, 0], [0], [0]]
  }

  function TailParts(latest: nat, created: nat): (r: seq<Bytes>)
    ensures Flatten(r) == Tail(latest, created) && Sizes(r) == TAIL_SIZES
  {
    var a: seq<Bytes> := [[0], [0], [0, 0], [0, 0, 0, 0]];
    var b: seq<Bytes> := [BigEndian(latest, 4), BigEndian(created, 4)];
    var z: Bytes := [0, 0, 0, 0];
    TailFromParts(latest, created, a, b, z);
    a + b + [z]
  }

  lemma TailFromParts(latest: nat, created: nat, a: seq<Bytes>, b: seq<Bytes>, z: Bytes)
    requires a == [[0], [0], [0, 0], [0, 0, 0, 0]] && z == [0, 0, 0, 0]
    requires b == [BigEndian(latest, 4), BigEndian(created, 4)]
    ensures Flatten(a + b + [z]) == Tail(latest, created) && Sizes(a + b + [z]) == TAIL_SIZES
  {
    hide BigEndian, Flatten;
    FlattenSnoc(a + b, z);
    FlattenConcat(a, b);
    Flatten4(a[0], a[1], a[2], a[3]);
    Flatten2(b[0], b[1]);
    var zeros: Bytes := [0, 0, 0, 0, 0, 0, 0, 0];
    assert a[0] + a[1] + a[2] + a[3] == zeros;
    Assoc(zeros, b[0], b[1]);
  }

  lemma Chain(cap: nat, len: nat, a: seq<nat>, cap': nat, len': nat, b: seq<nat>, cap'': nat, len'': nat)
    requires Appended(cap, len, a, cap', len') && Appended(cap', len', b, cap'', len'')
    ensures Appended(cap, len, a + b, cap'', len'')
  {
    AppendedThen(cap, len, a, cap', len', b);
  }

  lemma NoKeyInfos()
    ensures KeyInfos([], 0) == []
  {
  }

  /** The records of the primary key and of each subkey, from octet 20 of the blob on. */
  method WriteKeyInfos(keys: seq<Key>, m: PgpMemory, start: nat)
    requires m.Valid() && m.length == start + 20
    requires forall j :: 0 <= j < |keys| ==> |keys[j].fp| == FP
    modifies m, m.buf
    ensures m.Valid() && (m.buf == old(m.buf) || fresh(m.buf))
    ensures m.Contents() == old(m.Contents()) + KeyInfos(keys, 0)
    ensures Appended(old(m.buf.Length), old(m.length), Times(|keys|, KEY_SIZES), m.buf.Length, m.length)
  {
    hide BigEndian, KeyInfos, KeyInfo, Appended, KeyParts;
    ghost var was, cap, len := m.Contents(), m.buf.Length, m.length;
    NoKeyInfos();
    NoSizes(cap, len);
    assert was + [] == was && |was| == m.length;
    for i := 0 to |keys|
      invariant m.Valid() && (m.buf == old(m.buf) || fresh(m.buf))
      invariant m.Contents() == was + KeyInfos(keys[..i], 0)
      invariant Appended(cap, len, Times(i, KEY_SIZES), m.buf.Length, m.length)
    {
      TakeSnoc(keys, i);
      KeyInfosSnoc(keys[..i], 0, keys[i]);
      Assoc(was, KeyInfos(keys[..i], 0), KeyInfo(keys[i].fp, i));
      ghost var cap1, len1 := m.buf.Length, m.length;
      m.AddAll(KeyParts(keys[i].fp, i));
      Chain(cap, len, Times(i, KEY_SIZES), cap1, len1, KEY_SIZES, m.buf.Length, m.length);
    }
    assert keys[..|keys|] == keys;
  }

  /** The user id records, all fields zero for now. */
  method WriteUidInfos(n: nat, m: PgpMemory)
    requires m.Valid()
    modifies m, m.buf
    ensures m.Valid() && (m.buf == old(m.buf) || fresh(m.buf))
    ensures m.Contents() == old(m.Contents()) + UidInfos(ZeroFields(n))
    ensures Appended(old(m.buf.Length), old(m.length), Times(n, UID_SIZES), m.buf.Length, m.length)
  {
    hide BigEndian, Appended, UidParts, UidInfo;
    ghost var was, cap, len := m.Contents(), m.buf.Length, m.length;
    NoSizes(cap, len);
    assert was + [] == was;
    for i := 0 to n
      invariant m.Valid() && (m.buf == old(m.buf) || fresh(m.buf))
      invariant m.Contents() == was + UidInfos(ZeroFields(i))
      invariant Appended(cap, len, Times(i, UID_SIZES), m.buf.Length, m.length)
    {
      assert ZeroFields(i + 1)[..i] == ZeroFields(i);
      Assoc(was, UidInfos(ZeroFields(i)), UidInfo(0, 0));
      ghost var cap1, len1 := m.buf.Length, m.length;
      m.AddAll(UidParts());
      Chain(cap, len, Times(i, UID_SIZES), cap1, len1, UID_SIZES, m.buf.Length, m.length);
    }
  }

  method WriteWords(ws: seq<nat>, m: PgpMemory)
    requires m.Valid()
    modifies m, m.buf
    ensures m.Valid() && (m.buf == old(m.buf) || fresh(m.buf))
    ensures m.Contents() == old(m.Contents()) + Words(ws)
    ensures Appended(old(m.buf.Length), old(m.length), Times(|ws|, [4]), m.buf.Length, m.length)
  {
    hide BigEndian, Appended, Room;
    ghost var was, cap, len := m.Contents(), m.buf.Length, m.length;
    NoSizes(cap, len);
    assert was + [] == was;
    for i := 0 to |ws|
      invariant m.Valid() && (m.buf == old(m.buf) || fresh(m.buf))
      invariant m.Contents() == was + Words(ws[..i])
      invariant Appended(cap, len, Times(i, [4]), m.buf.Length, m.length)
    {
      TakeSnoc(ws, i);
      Assoc(was, Words(ws[..i]), BigEndian(ws[i], 4));
      OneMoreSize(cap, len, Times(i, [4]), 4, m.buf.Length, m.length);
      m.Add(BigEndian(ws[i], 4));
    }
    assert ws[..|ws|] == ws;
  }

  /** Everything up to the user ids, with the patched fields still zero. */
  method WriteFront(p: Primary, latest: nat, created: nat, m: PgpMemory) returns (uidStart: nat)
    requires m.Valid() && ValidPrimary(p)
    modifies m, m.buf
    ensures m.Valid() && (m.buf == old(m.buf) || fresh(m.buf))
    ensures uidStart == old(m.length) + 20 + |KeyPart(p)|
    ensures m.Contents() == old(m.Contents()) + Fixed(0, 0, 0, 1 + |p.subkeys|) + KeyPart(p)
                            + UidInfos(ZeroFields(|p.uids|)) + SigPart(p, latest, created)
    ensures Appended(old(m.buf.Length), old(m.length), FrontSizes(p), m.buf.Length, m.length)
  {
    hide BigEndian, KeyInfos, UidInfos, Appended, SigPart, Fixed;
    ghost var was, cap, len := m.Contents(), m.buf.Length, m.length;
    assert |was| == m.length;
    WriteKeyPart(p, m);
    ghost var cap1, len1, uidFront := m.buf.Length, m.length, m.Contents();
    assert |uidFront| == m.length;
    uidStart := m.length;
    WriteUidInfos(|p.uids|, m);
    ghost var cap2, len2, a := m.buf.Length, m.length, FIXED_SIZES + Times(|Keys(p)|, KEY_SIZES) + [2, 2, 2];
    Chain(cap, len, a, cap1, len1, Times(|p.uids|, UID_SIZES), cap2, len2);
    WriteSigPart(p, latest, created, m);
    Chain(cap, len, a + Times(|p.uids|, UID_SIZES), cap2, len2, [2, 2] + Times(|p.sigs|, [4]) + TAIL_SIZES,
          m.buf.Length, m.length);
    Assoc4(a + Times(|p.uids|, UID_SIZES), [2, 2], Times(|p.sigs|, [4]), TAIL_SIZES);
  }

  method WriteKeyPart(p: Primary, m: PgpMemory)
    requires m.Valid() && ValidPrimary(p)
    modifies m, m.buf
    ensures m.Valid() && (m.buf == old(m.buf) || fresh(m.buf))
    ensures m.Contents() == old(m.Contents()) + Fixed(0, 0, 0, 1 + |p.subkeys|) + KeyPart(p)
    ensures Appended(old(m.buf.Length), old(m.length), FIXED_SIZES + Times(|Keys(p)|, KEY_SIZES) + [2, 2, 2],
                     m.buf.Length, m.length)
  {
    hide BigEndian, KeyInfos, Appended, FixedParts, Fixed;
    var start := m.length;
    ghost var was, cap, len := m.Contents(), m.buf.Length, m.length;
    assert |was| == start;
    m.AddAll(FixedParts(1 + |p.subkeys|));
    assert |m.Contents()| == m.length;
    ghost var cap1, len1 := m.buf.Length, m.length;
    WriteKeyInfos(Keys(p), m, start);
    ghost var cap2, len2 := m.buf.Length, m.length;
    Chain(cap, len, FIXED_SIZES, cap1, len1, Times(|Keys(p)|, KEY_SIZES), cap2, len2);
    HeadParts(|p.uids|);
    m.AddAll([BigEndian(0, 2), BigEndian(|p.uids|, 2), BigEndian(12, 2)]);
    Chain(cap, len, FIXED_SIZES + Times(|Keys(p)|, KEY_SIZES), cap2, len2, [2, 2, 2], m.buf.Length, m.length);
    Assoc(was + Fixed(0, 0, 0, 1 + |p.subkeys|), KeyInfos(Keys(p), 0), UidHead(|p.uids|));
  }

  lemma HeadParts(n: nat)
    ensures var parts := [BigEndian(0, 2), BigEndian(n, 2), BigEndian(12, 2)];
            Flatten(parts) == UidHead(n) && Sizes(parts) == [2, 2, 2]
  {
    hide BigEndian, Flatten;
    var a, b, c := BigEndian(0, 2), BigEndian(n, 2), BigEndian(12, 2);
    Flatten2(a, b);
    FlattenSnoc([a, b], c);
    assert [a, b] + [c] == [a, b, c];
    Assoc(a, b, c);
  }

  method WriteSigPart(p: Primary, latest: nat, created: nat, m: PgpMemory)
    requires m.Valid()
    modifies m, m.buf
    ensures m.Valid() && (m.buf == old(m.buf) || fresh(m.buf))
    ensures m.Contents() == old(m.Contents()) + SigPart(p, latest, created)
    ensures Appended(old(m.buf.Length), old(m.length), [2, 2] + Times(|p.sigs|, [4]) + TAIL_SIZES,
                     m.buf.Length, m.length)
  {
    hide BigEndian, Appended, Words, Tail, TailParts;
    ghost var was, cap, len := m.Contents(), m.buf.Length, m.length;
    Flatten2(BigEndian(|p.sigs|, 2), BigEndian(4, 2));
    m.AddAll([BigEndian(|p.sigs|, 2), BigEndian(4, 2)]);
    assert Sizes([BigEndian(|p.sigs|, 2), BigEndian(4, 2)]) == [2, 2];
    ghost var cap1, len1 := m.buf.Length, m.length;
    WriteWords(p.sigs, m);
    ghost var cap2, len2 := m.buf.Length, m.length;
    Chain(cap, len, [2, 2], cap1, len1, Times(|p.sigs|, [4]), cap2, len2);
    m.AddAll(TailParts(latest, created));
    Chain(cap, len, [2, 2] + Times(|p.sigs|, [4]), cap2, len2, TAIL_SIZES, m.buf.Length, m.length);
    Assoc4(was, SigHead(|p.sigs|), Words(p.sigs), Tail(latest, created));
  }

  /** One user id.  The pointer is taken before the append, so the length goes to the old buffer
      when the append moves the contents to a new one: it is right if and only if the user id fits
      what is allocated, is empty, or the allocator extends the buffer in place. */
  method WriteUid(uid: Bytes, i: nat, moves: bool, m: PgpMemory, start: nat, uidStart: nat, ghost a: Bytes,
                  ghost fields: seq<(nat, nat)>, ghost c: Bytes)
    returns (ghost f: (nat, nat))
    requires m.Valid() && i < |fields| && fields[i] == (0, 0) && start <= |a| == uidStart
    requires m.Contents() == a + UidInfos(fields) + c
    modifies m, m.buf
    ensures m.Valid() && (m.buf == old(m.buf) || fresh(m.buf))
    ensures m.buf == old(m.buf) <==> old(m.length) + |uid| <= old(m.buf.Length)
    ensures f == (old(m.length) - start,
                  if old(m.length) + |uid| <= old(m.buf.Length) || !moves then |uid| else 0)
    ensures m.Contents() == a + UidInfos(fields[i := f]) + (c + uid)
    ensures m.buf.Length == Room(old(m.buf.Length), old(m.length), |uid|) && m.length == old(m.length) + |uid|
  {
    hide BigEndian, UidInfos, UidInfo, Patched, Room;
    assert |m.Contents()| == m.length;
    var buf := m.buf; // p
    var off := m.length - start;
    PatchOffset(a, fields, c, i, off);
    m.Overwrite(uidStart + 12 * i, BigEndian(off, 4));
    f := (off, 0);
    ghost var now := fields[i := f];
    m.Add(uid);
    Assoc(a + UidInfos(now), c, uid);
    assert |m.Contents()| == m.length;
    if !moves {
      buf := m.buf; // extended in place, the pointer is still good
    }
    WriteThrough(buf, uidStart + 12 * i + 4, BigEndian(|uid|, 4), m);
    if buf == m.buf {
      PatchLength(a, now, c + uid, i, |uid|);
      assert now[i := (off, |uid|)] == fields[i := (off, |uid|)];
      f := (off, |uid|);
    }
  }

  /** `STORE32BE` through a pointer that may be into an earlier buffer of the memory. */
  method WriteThrough(buf: array<Octet>, at: nat, s: Bytes, m: PgpMemory)
    requires m.Valid() && at + |s| <= buf.Length && at + |s| <= m.length
    modifies buf
    ensures m.Valid()
    ensures m.Contents() == if buf == m.buf then Patched(old(m.Contents()), at, s) else old(m.Contents())
  {
    ghost var was := buf[..];
    Store(buf, at, s);
    if buf == m.buf {
      PatchedPrefix(was, at, s, m.length);
    }
  }

  method WriteUids(p: Primary, moves: Moves, m: PgpMemory, start: nat, uidStart: nat, ghost cap: nat,
                   ghost a: Bytes, ghost c: Bytes)
    requires m.Valid() && |a| == uidStart == start + 20 + |KeyPart(p)| && |c| == |SigPart(p, 0, 0)|
    requires m.Contents() == a + UidInfos(ZeroFields(|p.uids|)) + c
    requires Appended(cap, start, FrontSizes(p), m.buf.Length, m.length)
    modifies m, m.buf
    ensures m.Valid() && (m.buf == old(m.buf) || fresh(m.buf))
    ensures m.Contents() == a + UidInfos(FieldsLeft(p, cap, start, moves)) + (c + Flatten(p.uids))
    ensures Appended(cap, start, FrontSizes(p) + Sizes(p.uids), m.buf.Length, m.length)
  {
    hide BigEndian, UidInfos, UidInfo, KeyPart, SigPart, Flatten, FrontSizes, Room, RoomAfter, Sum;
    ghost var fields := ZeroFields(|p.uids|);
    NoUids(c, FrontSizes(p));
    for i := 0 to |p.uids|
      invariant m.Valid() && (m.buf == old(m.buf) || fresh(m.buf)) && |fields| == |p.uids|
      invariant forall j :: 0 <= j < i ==> fields[j] == FieldsLeft(p, cap, start, moves)[j]
      invariant forall j :: i <= j < |fields| ==> fields[j] == (0, 0)
      invariant m.Contents() == a + UidInfos(fields) + (c + Flatten(p.uids[..i]))
      invariant Appended(cap, start, FrontSizes(p) + Sizes(p.uids[..i]), m.buf.Length, m.length)
    {
      ghost var rest := c + Flatten(p.uids[..i]);
      assert |m.Contents()| == m.length;
      assert m.length - start == UidAt(p, i);
      OneMoreUid(p, i, c);
      MoreSizes(p, i);
      OneMoreSize(cap, start, FrontSizes(p) + Sizes(p.uids[..i]), |p.uids[i]|, m.buf.Length, m.length);
      ghost var f := WriteUid(p.uids[i], i, moves(i), m, start, uidStart, a, fields, rest);
      fields := fields[i := f];
    }
    assert p.uids[..|p.uids|] == p.uids;
    assert fields == FieldsLeft(p, cap, start, moves);
  }

  lemma NoUids(c: Bytes, sizes: seq<nat>)
    ensures Flatten([]) == [] && c + [] == c && sizes + Sizes([]) == sizes
  {
  }

  lemma MoreSizes(p: Primary, i: nat)
    requires i < |p.uids|
    ensures FrontSizes(p) + Sizes(p.uids[..i + 1]) == FrontSizes(p) + Sizes(p.uids[..i]) + [|p.uids[i]|]
  {
    hide FrontSizes;
    TakeSnoc(p.uids, i);
    assert Sizes(p.uids[..i + 1]) == Sizes(p.uids[..i]) + [|p.uids[i]|];
  }

  lemma OneMoreUid(p: Primary, i: nat, c: Bytes)
    requires i < |p.uids|
    ensures c + Flatten(p.uids[..i]) + p.uids[i] == c + Flatten(p.uids[..i + 1])
  {
    TakeSnoc(p.uids, i);
    Assoc(c, Flatten(p.uids[..i]), p.uids[i]);
  }

  lemma PatchOffset(a: Bytes, fields: seq<(nat, nat)>, c: Bytes, i: nat, off: nat)
    requires i < |fields| && fields[i] == (0, 0)
    ensures Patched(a + UidInfos(fields) + c, |a| + 12 * i, BigEndian(off, 4))
            == a + UidInfos(fields[i := (off, 0)]) + c
  {
    hide BigEndian, UidInfos, UidInfo;
    PatchUidInfo(0, 0, off);
    PatchUidInfos(fields, i, 0, BigEndian(off, 4), (off, 0));
    PatchInside(a, UidInfos(fields), c, 12 * i, BigEndian(off, 4));
  }

  lemma PatchLength(a: Bytes, fields: seq<(nat, nat)>, c: Bytes, i: nat, len: nat)
    requires i < |fields| && fields[i].1 == 0
    ensures Patched(a + UidInfos(fields) + c, |a| + 12 * i + 4, BigEndian(len, 4))
            == a + UidInfos(fields[i := (fields[i].0, len)]) + c
  {
    hide BigEndian, UidInfos, UidInfo;
    PatchUidInfo(fields[i].0, 0, len);
    PatchUidInfos(fields, i, 4, BigEndian(len, 4), (fields[i].0, len));
    PatchInside(a, UidInfos(fields), c, 12 * i + 4, BigEndian(len, 4));
  }

  /** One of the three fixes of the first 20 octets of a blob. */
  method Fix(m: PgpMemory, start: nat, at: nat, v: nat, ghost w: Bytes, ghost f: Bytes, ghost fixed: Bytes,
             ghost tail: Bytes)
    requires m.Valid() && m.Contents() == w + f + tail && |w| == start && |f| == 20 && at <= 16
    requires Patched(f, at, BigEndian(v, 4)) == fixed
    modifies m.buf
    ensures m.Valid() && m.Contents() == w + fixed + tail
  {
    hide BigEndian;
    assert |m.Contents()| == m.length;
    PatchInside(w, f, tail, at, BigEndian(v, 4));
    m.Overwrite(start + at, BigEndian(v, 4));
  }

  /** `rnp_key_store_kbx_write_pgp`. */
  method WritePgp(p: Primary, h: Sha1, latest: nat, created: nat, moves: Moves, m: PgpMemory) returns (ok: bool)
    requires m.Valid() && ValidPrimary(p)
    modifies m, m.buf
    ensures m.Valid() && (m.buf == old(m.buf) || fresh(m.buf))
    ensures ok <==> Writable(p)
    ensures ok ==> m.Contents() == old(m.Contents())
                                   + Blob(p, h, latest, created, FieldsLeft(p, old(m.buf.Length), old(m.length), moves))
    ensures ok ==> Appended(old(m.buf.Length), old(m.length), BlobSizes(p), m.buf.Length, m.length)
  {
    hide BigEndian, KeyPart, SigPart, UidInfos, Flatten, Packets, Fixed, Digest, Keys, BlobBody, FieldsLeft;
    hide Appended, FrontSizes, Sizes, Writable;
    var start := m.length;
    ghost var was, n, cap := m.Contents(), 1 + |p.subkeys|, m.buf.Length;
    ghost var fields := FieldsLeft(p, cap, start, moves);
    assert |was| == start;
    var uidStart := WriteFront(p, latest, created, m);
    SigPartSize(p, latest, created);
    WriteUids(p, moves, m, start, uidStart, cap, was + Fixed(0, 0, 0, n) + KeyPart(p), SigPart(p, latest, created));
    ghost var mid := Middle(p, latest, created, fields);
    Regroup(was, Fixed(0, 0, 0, n), KeyPart(p), UidInfos(fields), SigPart(p, latest, created), Flatten(p.uids));
    ghost var cap1, len1 := m.buf.Length, m.length;
    ok := FinishBlob(p, h, m, start, was, mid);
    if !ok {
      return;
    }
    Chain(cap, start, FrontSizes(p) + Sizes(p.uids), cap1, len1, PacketSizes(Keys(p)) + [20], m.buf.Length, m.length);
    Assoc(FrontSizes(p) + Sizes(p.uids), PacketSizes(Keys(p)), [20]);
    BodyIs(p, latest, created, BlobSize(p), KeyblockAt(p), |Packets(Keys(p))|, fields);
  }

  /** The unpatched parts before the keyblock. */
  function Middle(p: Primary, latest: nat, created: nat, fields: seq<(nat, nat)>): (r: Bytes)
  {
    KeyPart(p) + UidInfos(fields) + SigPart(p, latest, created) + Flatten(p.uids)
  }

  /** The keyblock, the three fixes and the checksum. */
  method FinishBlob(p: Primary, h: Sha1, m: PgpMemory, start: nat, ghost w: Bytes, ghost mid: Bytes) returns (ok: bool)
    requires m.Valid() && |w| == start && 20 + |mid| == KeyblockAt(p)
    requires m.Contents() == w + Fixed(0, 0, 0, 1 + |p.subkeys|) + mid
    modifies m, m.buf
    ensures m.Valid() && (m.buf == old(m.buf) || fresh(m.buf))
    ensures ok <==> Writable(p)
    ensures var body := Fixed(BlobSize(p), KeyblockAt(p), |Packets(Keys(p))|, 1 + |p.subkeys|)
                        + (mid + Packets(Keys(p)));
            ok ==> m.Contents() == w + (body + Digest(h, body))
    ensures ok ==> Appended(old(m.buf.Length), old(m.length), PacketSizes(Keys(p)) + [20], m.buf.Length, m.length)
  {
    hide BigEndian, KeyblockAt, Packets, Fixed, Digest, Keys, Appended, PacketSizes, WritableKey;
    ghost var cap0, len0 := m.buf.Length, m.length;
    ghost var n, packets := 1 + |p.subkeys|, Packets(Keys(p));
    assert |m.Contents()| == m.length;
    var keyStart := m.length;
    var off := keyStart - start;
    PatchFixed(0, 0, 0, n, off);
    Fix(m, start, 8, off, w, Fixed(0, 0, 0, n), Fixed(0, off, 0, n), mid);
    ok := WritePackets(Keys(p), m);
    if !ok {
      return;
    }
    Assoc(w + Fixed(0, off, 0, n), mid, packets);
    assert |m.Contents()| == m.length;
    var kbLen := m.length - keyStart;
    PatchFixed(0, off, 0, n, kbLen);
    Fix(m, start, 12, kbLen, w, Fixed(0, off, 0, n), Fixed(0, off, kbLen, n), mid + packets);
    var len := m.length - start + 20;
    PatchFixed(0, off, kbLen, n, len);
    Fix(m, start, 0, len, w, Fixed(0, off, kbLen, n), Fixed(len, off, kbLen, n), mid + packets);
    OneMoreSize(cap0, len0, PacketSizes(Keys(p)), 20, m.buf.Length, m.length);
    AddChecksum(h, m, start, w, Fixed(len, off, kbLen, n) + (mid + packets), Fixed(len, off, kbLen, n), mid + packets);
  }

  method AddChecksum(h: Sha1, m: PgpMemory, start: nat, ghost w: Bytes, ghost body: Bytes, ghost f: Bytes,
                     ghost tail: Bytes)
    requires m.Valid() && |w| == start && m.Contents() == w + f + tail && body == f + tail
    modifies m, m.buf
    ensures m.Valid() && (m.buf == old(m.buf) || fresh(m.buf)) && m.Contents() == w + (body + Digest(h, body))
    ensures m.buf.Length == Room(old(m.buf.Length), old(m.length), 20) && m.length == old(m.length) + 20
  {
    hide Digest, Room;
    Assoc(w, f, tail);
    PrefixAndRest(w, body);
    assert |m.Contents()| == m.length && m.buf[start..m.length] == m.Contents()[start..];
    m.Add(Digest(h, m.buf[start..m.length]));
    Assoc(w, body, Digest(h, body));
  }

  lemma SigPartSize(p: Primary, latest: nat, created: nat)
    ensures |SigPart(p, latest, created)| == |SigPart(p, 0, 0)|
  {
  }

  lemma Regroup(w: Bytes, f: Bytes, k: Bytes, u: Bytes, s: Bytes, d: Bytes)
    ensures w + f + k + u + (s + d) == w + f + (k + u + s + d)
  {
  }

  lemma BodyIs(p: Primary, latest: nat, created: nat, len: nat, off: nat, kbLen: nat, fields: seq<(nat, nat)>)
    ensures BlobBody(p, latest, created, len, off, kbLen, fields)
            == Fixed(len, off, kbLen, 1 + |p.subkeys|)
               + (Middle(p, latest, created, fields) + Packets(Keys(p)))
  {
    hide KeyPart, UidInfos, SigPart, Flatten, Packets, Fixed;
  }

  /** `pgp_key_write_packets`. */
  method WriteKeyPackets(k: Key, m: PgpMemory) returns (ok: bool)
    requires m.Valid()
    modifies m, m.buf
    ensures m.Valid() && (m.buf == old(m.buf) || fresh(m.buf))
    ensures ok <==> WritableKey(k)
    ensures ok ==> m.Contents() == old(m.Contents()) + Flatten(k.packets)
    ensures ok ==> Appended(old(m.buf.Length), old(m.length), Sizes(k.packets), m.buf.Length, m.length)
  {
    hide Flatten, Appended, Room, Sizes;
    if k.packets == [] {
      return false;
    }
    ghost var was, cap, len, all := m.Contents(), m.buf.Length, m.length, k.packets;
    NoSizes(cap, len);
    NoUids(was, []);
    for i := 0 to |k.packets|
      invariant m.Valid() && (m.buf == old(m.buf) || fresh(m.buf))
      invariant forall j :: 0 <= j < i ==> all[j] != []
      invariant m.Contents() == was + Flatten(all[..i])
      invariant Appended(cap, len, Sizes(all[..i]), m.buf.Length, m.length)
    {
      if k.packets[i] == [] {
        assert k.packets[i] in k.packets;
        return false;
      }
      TakeSnoc(all, i);
      Assoc(was, Flatten(all[..i]), all[i]);
      FlattenSnoc(all[..i], all[i]);
      SizesSnoc(all[..i], all[i]);
      OneMoreSize(cap, len, Sizes(all[..i]), |all[i]|, m.buf.Length, m.length);
      m.Add(k.packets[i]);
    }
    assert all[..|all|] == all;
    ok := true;
  }

  /** The primary key's packets, then each subkey's. */
  method WritePackets(keys: seq<Key>, m: PgpMemory) returns (ok: bool)
    requires m.Valid()
    modifies m, m.buf
    ensures m.Valid() && (m.buf == old(m.buf) || fresh(m.buf))
    ensures ok <==> forall k <- keys :: WritableKey(k)
    ensures ok ==> m.Contents() == old(m.Contents()) + Packets(keys)
    ensures ok ==> Appended(old(m.buf.Length), old(m.length), PacketSizes(keys), m.buf.Length, m.length)
  {
    hide Flatten, Appended, Sizes, WritableKey, Packets, PacketSizes;
    ghost var was, cap, len := m.Contents(), m.buf.Length, m.length;
    NoSizes(cap, len);
    NoPackets(was);
    for i := 0 to |keys|
      invariant m.Valid() && (m.buf == old(m.buf) || fresh(m.buf))
      invariant forall j :: 0 <= j < i ==> WritableKey(keys[j])
      invariant m.Contents() == was + Packets(keys[..i])
      invariant Appended(cap, len, PacketSizes(keys[..i]), m.buf.Length, m.length)
    {
      TakeSnoc(keys, i);
      PacketsSnoc(keys, i);
      Assoc(was, Packets(keys[..i]), Flatten(keys[i].packets));
      ghost var cap1, len1 := m.buf.Length, m.length;
      ok := WriteKeyPackets(keys[i], m);
      if !ok {
        assert keys[i] in keys;
        return;
      }
      Chain(cap, len, PacketSizes(keys[..i]), cap1, len1, Sizes(keys[i].packets), m.buf.Length, m.length);
    }
    assert keys[..|keys|] == keys;
    ok := true;
  }

  lemma NoPackets(was: Bytes)
    ensures Packets([]) == [] && PacketSizes([]) == [] && was + [] == was
  {
  }

  lemma PacketsSnoc(keys: seq<Key>, i: nat)
    requires i < |keys|
    ensures Packets(keys[..i + 1]) == Packets(keys[..i]) + Flatten(keys[i].packets)
    ensures PacketSizes(keys[..i + 1]) == PacketSizes(keys[..i]) + Sizes(keys[i].packets)
  {
    TakeSnoc(keys, i);
  }

  lemma KeyblockNotEmpty(p: Primary)
    requires Writable(p)
    ensures Packets(Keys(p)) != []
  {
    SomePackets(Keys(p));
  }

  lemma {:induction false} SomePackets(keys: seq<Key>)
    requires keys != [] && forall k <- keys :: WritableKey(k)
    ensures Packets(keys) != []
  {
    var last := keys[|keys| - 1];
    assert WritableKey(last) && last.packets[|last.packets| - 1] in last.packets;
  }

  // --- the pieces of a blob, octet by octet ---

  /** Length, type 2, version 1, no flags, where the keyblock is, how many keys, 28 octets for each. */
  lemma FixedInOctets(len: nat, off: nat, kbLen: nat, nkeys: nat)
    ensures Fixed(len, off, kbLen, nkeys)
            == Big4(len) + [2, 1, 0, 0] + Big4(off) + Big4(kbLen) + Big2(nkeys) + [0, 28]
  {
    hide BigEndian, Big2, Big4;
    InOctets(len);
    InOctets(off);
    InOctets(kbLen);
    InOctets(nkeys);
    SmallBig2(28);
  }

  lemma SmallBig2(n: nat)
    requires n < 256
    ensures BigEndian(n, 2) == [0, n]
  {
    InOctets(n);
  }

  /** A key: its fingerprint, the offset of the last 8 octets of it, and four zeros; a user id: offset,
      length and four zeros. */
  lemma RecordsInOctets(fp: Bytes, i: nat, off: nat, len: nat)
    requires |fp| == 20
    ensures KeyInfo(fp, i) == fp + Big4(20 + 28 * i + 12) + [0, 0, 0, 0]
    ensures UidInfo(off, len) == Big4(off) + Big4(len) + [0, 0, 0, 0]
  {
    hide BigEndian, Big4;
    InOctets(20 + 28 * i + 12);
    InOctets(off);
    InOctets(len);
  }

  /** The counts between the records, and what follows the signatures. */
  lemma HeadsInOctets(nuids: nat, nsigs: nat, latest: nat, created: nat)
    ensures UidHead(nuids) == [0, 0] + (Big2(nuids) + [0, 12]) && SigHead(nsigs) == Big2(nsigs) + [0, 4]
    ensures Tail(latest, created) == [0, 0, 0, 0, 0, 0, 0, 0] + Big4(latest) + Big4(created) + [0, 0, 0, 0]
  {
    hide BigEndian, Big2, Big4;
    SmallBig2(0);
    SmallBig2(4);
    SmallBig2(12);
    InOctets(nuids);
    InOctets(nsigs);
    InOctets(latest);
    InOctets(created);
  }

  /** A keyblock is the packets of the first key in their order, then those of the next. */
  lemma {:induction false} PacketsFirst(keys: seq<Key>)
    requires keys != []
    ensures Packets(keys) == Flatten(keys[0].packets) + Packets(keys[1..])
  {
    hide Flatten;
    var n := |keys| - 1;
    var last := Flatten(keys[n].packets);
    if n == 0 {
      assert keys[1..] == [] && keys[..0] == [];
      assert [] + last == last && last + [] == last;
    } else {
      PacketsFirst(keys[..n]);
      assert keys[..n][1..] == keys[1..][..n - 1];
      Assoc(Flatten(keys[0].packets), Packets(keys[1..n]), last);
    }
  }

  /** The last 20 octets of a blob are the hash of all before them. */
  lemma ChecksumInOctets(p: Primary, h: Sha1, latest: nat, created: nat, fields: seq<(nat, nat)>)
    requires |fields| == |p.uids|
    ensures var blob := Blob(p, h, latest, created, fields);
            |blob| == BlobSize(p) >= 20
            && var sum := blob[|blob| - 20..]; forall i :: 0 <= i < 20 ==> sum[i] == h(blob[..|blob| - 20], i)
  {
    hide BlobBody, KeyblockAt, Packets, Keys;
    var body := BlobBody(p, latest, created, BlobSize(p), KeyblockAt(p), |Packets(Keys(p))|, fields);
    BodySize(p, latest, created, BlobSize(p), KeyblockAt(p), |Packets(Keys(p))|, fields);
    PrefixAndRest(body, Digest(h, body));
  }
}
