/** Unprotected private-key records of src/librekey/key_store_g10.c: built as S-expressions,
    printed, parsed and looked up field by field. */
module G10 {
  import opened Octets
  import opened Memory
  import opened Sexp

  // --- bignums as octets ---

  /** `bn_bn2bin`: the shortest big-endian form. */
  function MinBytes(n: nat): (r: Bytes)
    ensures n > 0 ==> r != [] && r[0] != 0
  {
    if n == 0 then [] else MinBytes(n / 256) + [n % 256]
  }

  lemma {:induction false} MinBytesValue(n: nat)
    ensures FromBigEndian(MinBytes(n)) == n
  {
    if n > 0 {
      MinBytesValue(n / 256);
      assert MinBytes(n)[..|MinBytes(n)| - 1] == MinBytes(n / 256);
    }
  }

  lemma {:induction false} LeadingZero(s: Bytes)
    ensures FromBigEndian([0] + s) == FromBigEndian(s)
  {
    if s == [] {
      assert [0] + s == [0] && [0][..0] == [];
    } else {
      LeadingZero(s[..|s| - 1]);
      assert ([0] + s)[..|s|] == [0] + s[..|s| - 1];
    }
  }

  /** The octets stored for an integer: a zero goes in front of a high bit.  For the integer zero
      the code looks at `stale`, an octet of its buffer that nothing has set. */
  function BignumBlock(n: nat, stale: Octet): (r: Bytes)
    ensures r == [] <==> n == 0 && stale < 0x80
  {
    var b := MinBytes(n);
    if (if n == 0 then stale else b[0]) >= 0x80 then [0] + b else b
  }

  lemma BignumBlockValue(n: nat, stale: Octet)
    ensures FromBigEndian(BignumBlock(n, stale)) == n
  {
    MinBytesValue(n);
    LeadingZero(MinBytes(n));
  }

  /** `bnbuf` holds a zero octet and the integer. */
  const BUFFER: nat := 8192

  predicate Writable(n: nat)
  {
    |MinBytes(n)| < BUFFER
  }

  lemma {:induction false} MinBytesSize(n: nat, k: nat)
    ensures |MinBytes(n)| <= k <==> n < Pow256(k)
  {
    if n > 0 && k > 0 {
      MinBytesSize(n / 256, k - 1);
    }
  }

  /** An integer is writable exactly when it is below 256^8191. */
  lemma WritableBelow(n: nat)
    ensures Writable(n) <==> n < Pow256(8191)
  {
    hide MinBytes, Pow256;
    MinBytesSize(n, 8191);
  }

  // --- building ---

  /** One named integer of a record, and the octet left in the buffer when it is written. */
  datatype Field = Field(name: Bytes, value: nat, stale: Octet)

  function FieldItems(f: Field): (r: seq<Elem>)
  {
    AddedBlock(AddedBlock([], f.name), BignumBlock(f.value, f.stale))
  }

  predicate AllWritable(fs: seq<Field>)
  {
    forall i :: 0 <= i < |fs| ==> Writable(fs[i].value)
  }

  function FieldElems(fs: seq<Field>): (r: seq<Elem>)
    ensures |r| == |fs| && forall i :: 0 <= i < |fs| ==> r[i] == Sub(FieldItems(fs[i]))
  {
    seq(|fs|, i requires 0 <= i < |fs| => Sub(FieldItems(fs[i])))
  }

  /** `write_bignum`. */
  method WriteBignum(items: seq<Elem>, f: Field) returns (r: seq<Elem>)
    requires Writable(f.value)
    ensures r == items + [Sub(FieldItems(f))]
  {
    var sub := AddBlock([], f.name);
    sub := AddBlock(sub, BignumBlock(f.value, f.stale));
    r := items + [Sub(sub)];
  }

  datatype SecretKey =
    | Rsa(n: nat, e: nat, d: nat, p: nat, q: nat, u: nat)
    | Dsa(p: nat, q: nat, g: nat, y: nat, x: nat)
    | Elgamal(p: nat, g: nat, y: nat, x: nat)

  /** The integers of a record in the order they are written. */
  function Fields(k: SecretKey, stale: nat -> Octet): (fs: seq<Field>)
  {
    match k
    case Rsa(n, e, d, p, q, u) =>
      [Field(N, n, stale(0)), Field(E, e, stale(1)), Field(D, d, stale(2)), Field(P, p, stale(3)),
       Field(Q, q, stale(4)), Field(U, u, stale(5))]
    case Dsa(p, q, g, y, x) =>
      [Field(P, p, stale(0)), Field(Q, q, stale(1)), Field(G, g, stale(2)), Field(Y, y, stale(3)),
       Field(X, x, stale(4))]
    case Elgamal(p, g, y, x) =>
      [Field(P, p, stale(0)), Field(G, g, stale(1)), Field(Y, y, stale(2)), Field(X, x, stale(3))]
  }

  const N: Bytes := [0x6E]
  const E: Bytes := [0x65]
  const D: Bytes := [0x64]
  const P: Bytes := [0x70]
  const Q: Bytes := [0x71]
  const U: Bytes := [0x75]
  const G: Bytes := [0x67]
  const Y: Bytes := [0x79]
  const X: Bytes := [0x78]
  const RSA: Bytes := [0x72, 0x73, 0x61]
  const DSA: Bytes := [0x64, 0x73, 0x61]
  const PRIVATE_KEY: Bytes := [0x70, 0x72, 0x69, 0x76, 0x61, 0x74, 0x65, 0x2D, 0x6B, 0x65, 0x79]

  function AlgItems(alg: Bytes, fs: seq<Field>): (r: seq<Elem>)
  {
    [Block(alg)] + FieldElems(fs)
  }

  function AlgName(k: SecretKey): Bytes
  {
    if k.Rsa? then RSA else DSA
  }

  function KeyTree(k: SecretKey, stale: nat -> Octet): (r: seq<Elem>)
  {
    [Block(PRIVATE_KEY), Sub(AlgItems(AlgName(k), Fields(k, stale)))]
  }

  /** `write_pubkey` and `write_seckey`: the algorithm name, then the integers one by one. */
  method WriteFields(alg: Bytes, fs: seq<Field>) returns (items: seq<Elem>)
    requires AllWritable(fs)
    ensures items == AlgItems(alg, fs)
  {
    hide FieldItems, Writable;
    items := AddBlock([], alg);
    assert items == [Block(alg)] + FieldElems(fs[..0]);
    for i := 0 to |fs|
      invariant items == [Block(alg)] + FieldElems(fs[..i])
    {
      TakeSnoc(fs, i);
      assert FieldElems(fs[..i + 1]) == FieldElems(fs[..i]) + [Sub(FieldItems(fs[i]))];
      Assoc([Block(alg)], FieldElems(fs[..i]), [Sub(FieldItems(fs[i]))]);
      items := WriteBignum(items, fs[i]);
    }
    assert fs[..|fs|] == fs;
  }

  /** `g10_write_seckey` without protection; the Elgamal branches fall through into failure. */
  method WriteKey(k: SecretKey, stale: nat -> Octet, mem: PgpMemory) returns (ok: bool)
    requires mem.Valid() && AllWritable(Fields(k, stale))
    modifies mem, mem.buf
    ensures mem.Valid() && (mem.buf == old(mem.buf) || fresh(mem.buf))
    ensures ok <==> !k.Elgamal?
    ensures mem.Contents() == old(mem.Contents()) + (if ok then PrintList(KeyTree(k, stale)) else [])
  {
    hide PrintList, AlgItems, AllWritable, Fields;
    if k.Elgamal? {
      assert mem.Contents() + [] == mem.Contents();
      return false;
    }
    var top := AddBlock([], PRIVATE_KEY);
    var alg := WriteFields(AlgName(k), Fields(k, stale));
    assert top + [Sub(alg)] == KeyTree(k, stale);
    WriteSexp(top + [Sub(alg)], mem);
    ok := true;
  }

  // --- reading ---

  /** `lookup_variable`: blocks are skipped, the first malformed sub-expression ends the search. */
  function Lookup(items: seq<Elem>, name: Bytes): (r: Option<seq<Elem>>)
    ensures r.Some? ==> |r.value| >= 2
  {
    if items == [] then None
    else
      match items[0]
      case Block(_) => Lookup(items[1..], name)
      case Sub(sub) =>
        if |sub| < 2 || !sub[0].Block? then None
        else if sub[0].bytes == name then Some(sub)
        else Lookup(items[1..], name)
  }

  method LookupVariable(items: seq<Elem>, name: Bytes) returns (r: Option<seq<Elem>>)
    ensures r == Lookup(items, name)
  {
    assert items[0..] == items;
    for i := 0 to |items|
      invariant Lookup(items, name) == Lookup(items[i..], name)
    {
      assert items[i..][1..] == items[i + 1..] && items[i..][0] == items[i];
      if items[i].Block? {
        continue;
      }
      var sub := items[i].items;
      if |sub| < 2 || !sub[0].Block? {
        return None;
      }
      if sub[0].bytes == name {
        return Some(sub);
      }
    }
    assert items[|items|..] == [];
    return None;
  }

  function ReadBignum(items: seq<Elem>, name: Bytes): (r: Option<nat>)
  {
    match Lookup(items, name)
    case None => None
    case Some(sub) => if sub[1].Block? then Some(FromBigEndian(sub[1].bytes)) else None
  }

  /** `read_bignum`. */
  method FindBignum(items: seq<Elem>, name: Bytes) returns (r: Option<nat>)
    ensures r == ReadBignum(items, name)
  {
    var sub := LookupVariable(items, name);
    if sub.None? || !sub.value[1].Block? {
      return None;
    }
    return Some(FromBigEndian(sub.value[1].bytes));
  }

  /** `!strncmp(lit, bytes, len)`: C strings end at a zero octet, so a block also matches when it is
      a prefix of `lit`. */
  predicate Strncmp(lit: Bytes, bytes: Bytes)
  {
    bytes <= lit || (lit < bytes && bytes[|lit|] == 0)
  }

  datatype Alg = AlgRsa | AlgElgamal | AlgDsa

  const OPENPGP_RSA: Bytes := [0x6F, 0x70, 0x65, 0x6E, 0x70, 0x67, 0x70, 0x2D, 0x72, 0x73, 0x61]
  const ELG: Bytes := [0x65, 0x6C, 0x67]
  const ELGAMAL: Bytes := [0x65, 0x6C, 0x67, 0x61, 0x6D, 0x61, 0x6C]
  const OPENPGP_ELG: Bytes := [0x6F, 0x70, 0x65, 0x6E, 0x70, 0x67, 0x70, 0x2D, 0x65, 0x6C, 0x67]
  const OPENPGP_ELG_SIG: Bytes := OPENPGP_ELG + [0x2D, 0x73, 0x69, 0x67]
  const OPENPGP_DSA: Bytes := [0x6F, 0x70, 0x65, 0x6E, 0x70, 0x67, 0x70, 0x2D, 0x64, 0x73, 0x61]
  const OID_RSA: Bytes := [0x6F, 0x69, 0x64, 0x2E, 0x31, 0x2E, 0x32, 0x2E, 0x38, 0x34, 0x30, 0x2E, 0x31, 0x31, 0x33,
                           0x35, 0x34, 0x39, 0x2E, 0x31, 0x2E, 0x31, 0x2E, 0x31]

  function ParseAlg(name: Bytes): (r: Option<Alg>)
  {
    if Strncmp(RSA, name) || Strncmp(OPENPGP_RSA, name) || Strncmp(OID_RSA, name) then Some(AlgRsa)
    else if Strncmp(ELG, name) || Strncmp(ELGAMAL, name) || Strncmp(OPENPGP_ELG, name)
            || Strncmp(OPENPGP_ELG_SIG, name) then Some(AlgElgamal)
    else if Strncmp(DSA, name) || Strncmp(OPENPGP_DSA, name) then Some(AlgDsa)
    else None
  }

  function ReadFields(items: seq<Elem>, alg: Alg): (r: Option<SecretKey>)
  {
    match alg
    case AlgRsa =>
      var n, e := ReadBignum(items, N), ReadBignum(items, E);
      var d, p, q, u := ReadBignum(items, D), ReadBignum(items, P), ReadBignum(items, Q), ReadBignum(items, U);
      if n.None? || e.None? || d.None? || p.None? || q.None? || u.None? then None
      else Some(Rsa(n.value, e.value, d.value, p.value, q.value, u.value))
    case AlgDsa =>
      var p, q, g, y := ReadBignum(items, P), ReadBignum(items, Q), ReadBignum(items, G), ReadBignum(items, Y);
      var x := ReadBignum(items, X);
      if p.None? || q.None? || g.None? || y.None? || x.None? then None
      else Some(Dsa(p.value, q.value, g.value, y.value, x.value))
    case AlgElgamal =>
      var p, g, y, x := ReadBignum(items, P), ReadBignum(items, G), ReadBignum(items, Y), ReadBignum(items, X);
      if p.None? || g.None? || y.None? || x.None? then None
      else Some(Elgamal(p.value, g.value, y.value, x.value))
  }

  /** `g10_parse_seckey` for an unprotected record. */
  function ReadKey(s: Bytes): (r: Option<SecretKey>)
  {
    match ParseSexp(s)
    case Fail => None
    case Done(top, _) =>
      if |top| != 2 || !top[0].Block? || top[1].Block? then None
      else if !Strncmp(PRIVATE_KEY, top[0].bytes) then None
      else
        var items := top[1].items;
        if |items| < 2 || !items[0].Block? then None
        else
          match ParseAlg(items[0].bytes)
          case None => None
          case Some(alg) => ReadFields(items, alg)
  }

  /** `parse_pubkey` and `parse_seckey`, stopping at the first integer that is missing. */
  method ParseFields(items: seq<Elem>, alg: Alg) returns (r: Option<SecretKey>)
    ensures r == ReadFields(items, alg)
  {
    hide ReadBignum;
    var names := match alg
      case AlgRsa => [N, E, D, P, Q, U]
      case AlgDsa => [P, Q, G, Y, X]
      case AlgElgamal => [P, G, Y, X];
    var found: seq<nat> := [];
    for i := 0 to |names|
      invariant |found| == i && forall j :: 0 <= j < i ==> ReadBignum(items, names[j]) == Some(found[j])
    {
      var v := FindBignum(items, names[i]);
      if v.None? {
        assert ReadBignum(items, names[i]) == None;
        return None;
      }
      found := found + [v.value];
    }
    match alg
    case AlgRsa => r := Some(Rsa(found[0], found[1], found[2], found[3], found[4], found[5]));
    case AlgDsa => r := Some(Dsa(found[0], found[1], found[2], found[3], found[4]));
    case AlgElgamal => r := Some(Elgamal(found[0], found[1], found[2], found[3]));
  }

  /** `g10_parse_seckey`. */
  method ParseSeckey(buf: Bytes) returns (r: Option<SecretKey>)
    ensures r == ReadKey(buf)
  {
    hide ParseList, ReadFields, ParseAlg, Strncmp;
    if buf == [] {
      return None;
    }
    var ok, top, next := Parse(buf, 0);
    assert buf[0..] == buf;
    if !ok || |top| != 2 || !top[0].Block? || top[1].Block? || !Strncmp(PRIVATE_KEY, top[0].bytes) {
      return None;
    }
    var items := top[1].items;
    if |items| < 2 || !items[0].Block? {
      return None;
    }
    var alg := ParseAlg(items[0].bytes);
    if alg.None? {
      return None;
    }
    r := ParseFields(items, alg.value);
  }

  // --- what survives ---

  /** The name a field is filed under is one octet; its value is lost exactly when its octets are
      that name, because the builder does not repeat a block. */
  predicate Kept(f: Field)
    requires |f.name| == 1
  {
    f.value != f.name[0]
  }

  /** The value prints as a block that can be read. */
  predicate Printable(f: Field)
  {
    f.value > 0 || f.stale >= 0x80
  }

  lemma OneOctet(n: nat, stale: Octet, c: Octet)
    requires 0 < c < 0x80
    ensures BignumBlock(n, stale) == [c] <==> n == c
  {
    BignumBlockValue(n, stale);
    OctetValue(c);
    if n == c {
      assert MinBytes(n / 256) == [];
    }
  }

  lemma OctetValue(c: Octet)
    ensures FromBigEndian([c]) == c
  {
    assert [c][..0] == [];
  }

  predicate NamedField(f: Field)
  {
    |f.name| == 1 && 0 < f.name[0] < 0x80
  }

  lemma FieldShape(f: Field)
    requires NamedField(f)
    ensures FieldItems(f) == if Kept(f) then [Block(f.name), Block(BignumBlock(f.value, f.stale))] else [Block(f.name)]
    ensures Kept(f) ==> f.name != BignumBlock(f.value, f.stale)
  {
    hide BignumBlock;
    OneOctet(f.value, f.stale, f.name[0]);
    var one := AddedBlock([], f.name);
    assert one == [Block(f.name)];
    Listed(f.name);
    if !Kept(f) {
      assert one[0] == Block(BignumBlock(f.value, f.stale));
    }
  }

  predicate DistinctNames(fs: seq<Field>)
  {
    forall i, j :: 0 <= i < j < |fs| ==> fs[i].name != fs[j].name
  }

  predicate AllNamed(fs: seq<Field>)
  {
    forall i :: 0 <= i < |fs| ==> NamedField(fs[i])
  }

  /** The first `n` fields are kept. */
  predicate AllKept(fs: seq<Field>, n: nat)
    requires AllNamed(fs) && n <= |fs|
  {
    forall i :: 0 <= i < n ==> Kept(fs[i])
  }

  predicate AllPrintable(fs: seq<Field>)
  {
    forall i :: 0 <= i < |fs| ==> Printable(fs[i])
  }

  /** A lookup meets the first field: it is the one, it stops the search, or the search goes on. */
  lemma LookupFirst(fs: seq<Field>, name: Bytes)
    requires fs != [] && AllNamed(fs)
    ensures ReadBignum(FieldElems(fs), name)
            == if !Kept(fs[0]) then None
               else if fs[0].name == name then Some(fs[0].value)
               else ReadBignum(FieldElems(fs[1..]), name)
  {
    hide FieldItems, BignumBlock;
    FieldShape(fs[0]);
    BignumBlockValue(fs[0].value, fs[0].stale);
    assert FieldElems(fs)[1..] == FieldElems(fs[1..]);
  }

  /** A lookup succeeds when every field up to the one wanted was kept, and fails otherwise. */
  lemma {:induction false} LookupField(fs: seq<Field>, k: nat)
    requires k < |fs| && AllNamed(fs) && DistinctNames(fs)
    ensures ReadBignum(FieldElems(fs), fs[k].name) == if AllKept(fs, k + 1) then Some(fs[k].value) else None
  {
    hide ReadBignum, FieldElems, Kept, AllKept, AllNamed, DistinctNames;
    TailNames(fs, k);
    LookupFirst(fs, fs[k].name);
    KeptFromHead(fs, k);
    if k > 0 {
      LookupField(fs[1..], k - 1);
      assert fs[k] == fs[1..][k - 1];
    } else {
      NoneToKeep(fs[1..]);
    }
  }

  lemma TailNames(fs: seq<Field>, k: nat)
    requires k < |fs| && AllNamed(fs) && DistinctNames(fs)
    ensures AllNamed(fs[1..]) && DistinctNames(fs[1..]) && (k > 0 ==> fs[0].name != fs[k].name) && |fs[0].name| == 1
  {
  }

  lemma NoneToKeep(fs: seq<Field>)
    requires AllNamed(fs)
    ensures AllKept(fs, 0)
  {
  }

  lemma KeptFromHead(fs: seq<Field>, k: nat)
    requires k < |fs| && AllNamed(fs) && AllNamed(fs[1..])
    ensures AllKept(fs, k + 1) <==> Kept(fs[0]) && AllKept(fs[1..], k)
  {
    hide Kept;
    assert forall i :: 1 <= i <= k ==> fs[i] == fs[1..][i - 1];
    assert forall i :: 0 <= i < k ==> fs[1..][i] == fs[i + 1];
  }

  lemma LookupInAlg(alg: Bytes, fs: seq<Field>, name: Bytes)
    ensures ReadBignum(AlgItems(alg, fs), name) == ReadBignum(FieldElems(fs), name)
  {
    assert AlgItems(alg, fs)[1..] == FieldElems(fs);
  }

  lemma FieldGood(f: Field)
    requires NamedField(f) && Writable(f.value) && (Kept(f) ==> Printable(f))
    ensures GoodElem(Sub(FieldItems(f)))
  {
    hide FieldItems, MinBytes;
    FieldShape(f);
    var items := FieldItems(f);
    assert GoodElem(Block(f.name));
    if Kept(f) {
      assert GoodElem(Block(BignumBlock(f.value, f.stale)));
    }
    assert WellFormed(items);
  }

  /** The algorithm name and printable fields are good elements. */
  lemma AlgGood(alg: Bytes, fs: seq<Field>)
    requires GoodElem(Block(alg)) && AllNamed(fs) && AllWritable(fs) && AllPrintable(fs)
    ensures GoodItems(AlgItems(alg, fs)) && WellFormed(AlgItems(alg, fs))
  {
    hide FieldItems, Writable, Printable, NamedField;
    var items := AlgItems(alg, fs);
    forall i | 0 <= i < |items| ensures GoodElem(items[i]) {
      if i > 0 {
        assert fs[i - 1] in fs;
        FieldGood(fs[i - 1]);
      }
    }
    assert WellFormed(items);
  }

  lemma TreeGood(k: SecretKey, stale: nat -> Octet)
    requires AllNamed(Fields(k, stale)) && AllWritable(Fields(k, stale)) && AllPrintable(Fields(k, stale))
    ensures WellFormed(KeyTree(k, stale))
  {
    hide FieldItems, Fields, Writable, Printable, AllNamed, AllWritable, AllPrintable;
    AlgGood(AlgName(k), Fields(k, stale));
    assert GoodElem(Sub(AlgItems(AlgName(k), Fields(k, stale)))) && GoodElem(Block(PRIVATE_KEY));
  }

  lemma FieldsNamed(k: SecretKey, stale: nat -> Octet)
    ensures AllNamed(Fields(k, stale)) && DistinctNames(Fields(k, stale))
  {
  }

  /** A field whose value prints as an empty block is refused by the parser. */
  lemma FieldFails(f: Field, u: Bytes, a: seq<Elem>)
    requires NamedField(f) && !Printable(f)
    ensures ParseItems(PrintElem(Sub(FieldItems(f))) + u, a) == Fail
    ensures PrintElem(Sub(FieldItems(f))) != [] && PrintElem(Sub(FieldItems(f)))[0] == OPEN
  {
    hide FieldItems, ParseItems, PrintElem, PrintBlock;
    FieldShape(f);
    var name, empty := [Block(f.name)], Block([]);
    PrintElemIs(empty);
    forall t: Bytes, acc: seq<Elem>
      ensures ParseItems(PrintElem(empty) + t, acc) == Fail
    {
      EmptyBlockFails(t, acc);
    }
    EmptyBlockFails([], []);
    assert PrintBlock([]) + [] == PrintBlock([]);
    assert GoodElem(Block(f.name)) && GoodItems(name);
    assert FieldItems(f) == name + [empty] + [];
    ListFails(name, empty, [], u, a);
  }

  /** A record with such a field is refused as a whole. */
  lemma TreeFails(k: SecretKey, stale: nat -> Octet, i: nat)
    requires var fs := Fields(k, stale);
             AllNamed(fs) && AllWritable(fs) && i < |fs| && !Printable(fs[i]) && AllPrintable(fs[..i])
    ensures ParseList(PrintList(KeyTree(k, stale))) == Fail
  {
    hide FieldItems, Fields, Writable, Printable, ParseItems, ParseList, PrintElem, PrintList, AlgItems, NamedField;
    var fs := Fields(k, stale);
    var alg := AlgName(k);
    var good, bad, more := AlgItems(alg, fs[..i]), Sub(FieldItems(fs[i])), FieldElems(fs[i + 1..]);
    AlgGood(alg, fs[..i]);
    forall u: Bytes, a: seq<Elem>
      ensures ParseItems(PrintElem(bad) + u, a) == Fail
    {
      FieldFails(fs[i], u, a);
    }
    FieldFails(fs[i], [], []);
    SplitFields(alg, fs, i);
    var sub := Sub(AlgItems(alg, fs));
    forall u: Bytes, a: seq<Elem>
      ensures ParseItems(PrintElem(sub) + u, a) == Fail
    {
      ListFails(good, bad, more, u, a);
    }
    ListFails(good, bad, more, [], []);
    assert GoodElem(Block(PRIVATE_KEY)) && GoodItems([Block(PRIVATE_KEY)]);
    assert KeyTree(k, stale) == [Block(PRIVATE_KEY)] + [sub] + [];
    ListFails([Block(PRIVATE_KEY)], sub, [], [], []);
    assert PrintList(KeyTree(k, stale)) + [] == PrintList(KeyTree(k, stale));
  }

  lemma SplitFields(alg: Bytes, fs: seq<Field>, i: nat)
    requires i < |fs|
    ensures AlgItems(alg, fs) == AlgItems(alg, fs[..i]) + [Sub(FieldItems(fs[i]))] + FieldElems(fs[i + 1..])
  {
    hide FieldItems;
  }

  lemma {:induction false} FirstUnprintable(fs: seq<Field>) returns (i: nat)
    requires !AllPrintable(fs)
    ensures i < |fs| && !Printable(fs[i]) && AllPrintable(fs[..i])
  {
    hide Printable;
    var init := fs[..|fs| - 1];
    if AllPrintable(init) {
      i := |fs| - 1;
    } else {
      i := FirstUnprintable(init);
      assert init[..i] == fs[..i] && init[i] == fs[i];
    }
  }

  /** A record comes back through print, parse and lookup exactly when no integer equals the octet
      of its own field name, and no zero met a low octet in the buffer. */
  lemma KeyRoundTrip(k: SecretKey, stale: nat -> Octet)
    requires !k.Elgamal? && AllWritable(Fields(k, stale))
    ensures AllNamed(Fields(k, stale))
    ensures var fs := Fields(k, stale);
            ReadKey(PrintList(KeyTree(k, stale))) == if AllKept(fs, |fs|) && AllPrintable(fs) then Some(k) else None
  {
    hide PrintList, ParseList, WellFormed, Fields, AllNamed, AllWritable, ReadFields, FieldElems, AllKept, AllPrintable;
    FieldsNamed(k, stale);
    ParsedNonEmpty(KeyTree(k, stale));
    if AllPrintable(Fields(k, stale)) {
      TreeGood(k, stale);
      ListRoundTrip(KeyTree(k, stale), []);
      assert PrintList(KeyTree(k, stale)) + [] == PrintList(KeyTree(k, stale));
      AlgNames();
      FieldCount(k, stale);
      ReadTree(k, stale);
    } else {
      var i := FirstUnprintable(Fields(k, stale));
      TreeFails(k, stale, i);
    }
  }

  lemma FieldCount(k: SecretKey, stale: nat -> Octet)
    ensures |FieldElems(Fields(k, stale))| >= 4
  {
  }

  lemma ParsedNonEmpty(items: seq<Elem>)
    ensures PrintList(items) != []
  {
  }

  lemma AlgNames()
    ensures ParseAlg(RSA) == Some(AlgRsa) && ParseAlg(DSA) == Some(AlgDsa) && Strncmp(PRIVATE_KEY, PRIVATE_KEY)
  {
    assert DSA[0] != RSA[0] && DSA[0] != OPENPGP_RSA[0] && DSA[0] != OID_RSA[0];
    assert DSA[0] != ELG[0] && DSA[0] != ELGAMAL[0] && DSA[0] != OPENPGP_ELG[0] && DSA[0] != OPENPGP_ELG_SIG[0];
  }

  lemma ReadField(alg: Bytes, fs: seq<Field>, i: nat, name: Bytes, value: nat)
    requires AllNamed(fs) && DistinctNames(fs) && i < |fs| && fs[i].name == name && fs[i].value == value
    ensures ReadBignum(AlgItems(alg, fs), name) == if AllKept(fs, i + 1) then Some(value) else None
    ensures AllKept(fs, |fs|) ==> AllKept(fs, i + 1)
  {
    hide ReadBignum, AlgItems, FieldElems;
    LookupInAlg(alg, fs, name);
    LookupField(fs, i);
  }

  lemma ReadTree(k: SecretKey, stale: nat -> Octet)
    requires !k.Elgamal? && AllNamed(Fields(k, stale))
    ensures var alg := if k.Rsa? then AlgRsa else AlgDsa;
            ReadFields(AlgItems(AlgName(k), Fields(k, stale)), alg)
            == if AllKept(Fields(k, stale), |Fields(k, stale)|) then Some(k) else None
  {
    hide ReadBignum, AlgItems, AllNamed, DistinctNames, AllKept;
    var fs := Fields(k, stale);
    FieldsNamed(k, stale);
    match k
    case Rsa(n, e, d, p, q, u) =>
      ReadField(RSA, fs, 0, N, n);
      ReadField(RSA, fs, 1, E, e);
      ReadField(RSA, fs, 2, D, d);
      ReadField(RSA, fs, 3, P, p);
      ReadField(RSA, fs, 4, Q, q);
      ReadField(RSA, fs, 5, U, u);
    case Dsa(p, q, g, y, x) =>
      ReadField(DSA, fs, 0, P, p);
      ReadField(DSA, fs, 1, Q, q);
      ReadField(DSA, fs, 2, G, g);
      ReadField(DSA, fs, 3, Y, y);
      ReadField(DSA, fs, 4, X, x);
  }

  // --- the record, character by character ---

  /** Octets that are the characters of a text. */
  predicate Spells(b: Bytes, text: string)
  {
    |b| == |text| && forall i :: 0 <= i < |b| ==> b[i] as int == text[i] as int
  }

  /** The names the writer and the reader use. */
  lemma NamesSpelled()
    ensures Spells(PRIVATE_KEY, "private-key") && Spells(RSA, "rsa") && Spells(DSA, "dsa")
    ensures Spells(N, "n") && Spells(E, "e") && Spells(D, "d") && Spells(P, "p") && Spells(Q, "q") && Spells(U, "u")
    ensures Spells(G, "g") && Spells(Y, "y") && Spells(X, "x")
    ensures Spells(OPENPGP_RSA, "openpgp-rsa") && Spells(OID_RSA, "oid.1.2.840.113549.1.1.1")
    ensures Spells(ELG, "elg") && Spells(ELGAMAL, "elgamal") && Spells(OPENPGP_ELG, "openpgp-elg")
    ensures Spells(OPENPGP_ELG_SIG, "openpgp-elg-sig") && Spells(OPENPGP_DSA, "openpgp-dsa")
  {
  }

  /** The octets stored for an integer other than zero: its value, no longer than it must be, and a clear
      top bit. */
  lemma BlockInOctets(n: nat, stale: Octet)
    requires n > 0
    ensures var b := BignumBlock(n, stale);
            b != [] && FromBigEndian(b) == n && b[0] < 128 && (b[0] == 0 ==> |b| >= 2 && b[1] >= 128)
  {
    BignumBlockValue(n, stale);
  }

  /** A field in the text: its name, and its value unless that was lost. */
  function FieldText(name: Bytes, value: Bytes): (r: Bytes)
  {
    [40] + (Decimal(|name|) + [58] + name) + (if value == name then [] else Decimal(|value|) + [58] + value) + [41]
  }

  lemma FieldPrints(f: Field)
    ensures PrintElem(Sub(FieldItems(f))) == FieldText(f.name, BignumBlock(f.value, f.stale))
  {
    hide BignumBlock, Decimal, PrintItems, PrintElem;
    var value := BignumBlock(f.value, f.stale);
    var one := AddedBlock([], f.name);
    assert one == [Block(f.name)];
    TextInOctets(Block(f.name), []);
    TextInOctets(Block(value), []);
    TextInOctets(Sub(FieldItems(f)), []);
    assert [Block(f.name)] + [] == [Block(f.name)] && [Block(value)] + [] == [Block(value)];
    if value == f.name {
      assert one[0] == Block(value);
    } else {
      TextInOctets(Block(f.name), [Block(value)]);
    }
  }

  function FieldTexts(fs: seq<Field>): (r: Bytes)
  {
    if fs == [] then []
    else FieldText(fs[0].name, BignumBlock(fs[0].value, fs[0].stale)) + FieldTexts(fs[1..])
  }

  lemma {:induction false} FieldsPrint(fs: seq<Field>)
    ensures PrintItems(FieldElems(fs)) == FieldTexts(fs)
  {
    hide FieldItems, BignumBlock, FieldText, PrintItems, PrintElem;
    if fs == [] {
      NoItems();
    } else {
      FieldPrints(fs[0]);
      FieldsPrint(fs[1..]);
      assert FieldElems(fs) == [Sub(FieldItems(fs[0]))] + FieldElems(fs[1..]);
      TextInOctets(Sub(FieldItems(fs[0])), FieldElems(fs[1..]));
    }
  }

  /** `(11:private-key(3:rsa(1:n...)...))`: the whole text of a record. */
  lemma RecordInOctets(k: SecretKey, stale: nat -> Octet)
    ensures PrintList(KeyTree(k, stale))
            == [40] + ([49, 49, 58] + PRIVATE_KEY
                       + ([40] + ([51, 58] + AlgName(k) + FieldTexts(Fields(k, stale))) + [41])) + [41]
  {
    hide FieldElems, FieldTexts, Fields, PrintItems, PrintElem, PrintList;
    var fs, alg := Fields(k, stale), AlgName(k);
    FieldsPrint(fs);
    var sub := Sub(AlgItems(alg, fs));
    TwoDecimals();
    TextInOctets(Block(alg), FieldElems(fs));
    TextInOctets(sub, []);
    assert PrintElem(sub) == [40] + ([51, 58] + alg + FieldTexts(fs)) + [41] by {
      assert [51] + [58] == [51, 58];
    }
    TextInOctets(Block(PRIVATE_KEY), [sub]);
    assert [sub] + [] == [sub] && PrintElem(sub) + [] == PrintElem(sub);
    assert KeyTree(k, stale) == [Block(PRIVATE_KEY)] + [sub];
    TextInOctets(Sub(KeyTree(k, stale)), []);
    PrintElemIs(Sub(KeyTree(k, stale)));
    assert [49, 49] + [58] == [49, 49, 58];
  }

  lemma TwoDecimals()
    ensures Decimal(3) == [51] && Decimal(11) == [49, 49]
  {
    assert Decimal(1) == [49];
  }

  /** Which integer goes under which name, in the order they are written. */
  lemma FieldsInOrder(k: SecretKey, stale: nat -> Octet)
    ensures var fs := Fields(k, stale);
            match k
            case Rsa(n, e, d, p, q, u) =>
              |fs| == 6 && Spells(fs[0].name, "n") && Spells(fs[1].name, "e") && Spells(fs[2].name, "d")
              && Spells(fs[3].name, "p") && Spells(fs[4].name, "q") && Spells(fs[5].name, "u")
              && fs[0].value == n && fs[1].value == e && fs[2].value == d && fs[3].value == p && fs[4].value == q
              && fs[5].value == u
            case Dsa(p, q, g, y, x) =>
              |fs| == 5 && Spells(fs[0].name, "p") && Spells(fs[1].name, "q") && Spells(fs[2].name, "g")
              && Spells(fs[3].name, "y") && Spells(fs[4].name, "x")
              && fs[0].value == p && fs[1].value == q && fs[2].value == g && fs[3].value == y && fs[4].value == x
            case Elgamal(_, _, _, _) => true
  {
  }

  /** Which name each integer of a key that was read comes from, Elgamal keys included. */
  lemma ReadFrom(items: seq<Elem>, alg: Alg)
    ensures ReadFields(items, alg).Some? ==>
              match ReadFields(items, alg).value
              case Rsa(n, e, d, p, q, u) =>
                alg.AlgRsa? && ReadBignum(items, [0x6E]) == Some(n) && ReadBignum(items, [0x65]) == Some(e)
                && ReadBignum(items, [0x64]) == Some(d) && ReadBignum(items, [0x70]) == Some(p)
                && ReadBignum(items, [0x71]) == Some(q) && ReadBignum(items, [0x75]) == Some(u)
              case Dsa(p, q, g, y, x) =>
                alg.AlgDsa? && ReadBignum(items, [0x70]) == Some(p) && ReadBignum(items, [0x71]) == Some(q)
                && ReadBignum(items, [0x67]) == Some(g) && ReadBignum(items, [0x79]) == Some(y)
                && ReadBignum(items, [0x78]) == Some(x)
              case Elgamal(p, g, y, x) =>
                alg.AlgElgamal? && ReadBignum(items, [0x70]) == Some(p) && ReadBignum(items, [0x67]) == Some(g)
                && ReadBignum(items, [0x79]) == Some(y) && ReadBignum(items, [0x78]) == Some(x)
  {
    hide ReadBignum;
  }

  /** An Elgamal record, which this writer never makes, is read field by field. */
  lemma ElgamalReads(alg: Bytes, fs: seq<Field>)
    requires AllNamed(fs) && DistinctNames(fs) && |fs| == 4
    requires Spells(fs[0].name, "p") && Spells(fs[1].name, "g") && Spells(fs[2].name, "y") && Spells(fs[3].name, "x")
    ensures ReadFields(AlgItems(alg, fs), AlgElgamal)
            == if AllKept(fs, 4) then Some(Elgamal(fs[0].value, fs[1].value, fs[2].value, fs[3].value)) else None
  {
    hide ReadBignum, AlgItems, AllNamed, DistinctNames, AllKept;
    Listed(fs[0].name);
    Listed(fs[1].name);
    Listed(fs[2].name);
    Listed(fs[3].name);
    ReadField(alg, fs, 0, P, fs[0].value);
    ReadField(alg, fs, 1, G, fs[1].value);
    ReadField(alg, fs, 2, Y, fs[2].value);
    ReadField(alg, fs, 3, X, fs[3].value);
  }

  /** A field of any other writer: blocks and longer fields may stand before it and behind its value. */
  lemma {:induction false} FieldFound(before: seq<Elem>, name: Bytes, value: Bytes, more: seq<Elem>, after: seq<Elem>)
    requires forall e <- before :: e.Sub? ==> |e.items| >= 2 && e.items[0].Block? && e.items[0].bytes != name
    ensures ReadBignum(before + ([Sub([Block(name), Block(value)] + more)] + after), name) == Some(FromBigEndian(value))
  {
    var field := [Sub([Block(name), Block(value)] + more)] + after;
    if before == [] {
      assert [] + field == field;
    } else {
      FieldFound(before[1..], name, value, more, after);
      assert (before + field)[1..] == before[1..] + field;
    }
  }

  /** A record of any other writer, printed from a tree that prints and parses: it is read if and only if it
      is the name "private-key", or a match for it, and one list behind it that starts with a known
      algorithm and has all the integers. */
  lemma ForeignRecord(top: seq<Elem>, t: Bytes)
    requires WellFormed(top)
    ensures var r := ReadKey(PrintList(top) + t);
            if |top| == 2 && top[0].Block? && top[1].Sub? && |top[1].items| >= 2 && top[1].items[0].Block? then
              var items := top[1].items;
              (!Strncmp(PRIVATE_KEY, top[0].bytes) ==> r == None)
              && (Spells(top[0].bytes, "private-key") ==>
                    (ParseAlg(items[0].bytes) == None ==> r == None)
                    && (Spells(items[0].bytes, "rsa") ==> r == ReadFields(items, AlgRsa))
                    && (Spells(items[0].bytes, "elg") ==> r == ReadFields(items, AlgElgamal))
                    && (Spells(items[0].bytes, "dsa") ==> r == ReadFields(items, AlgDsa)))
            else r == None
  {
    hide ParseList, PrintList, WellFormed, ReadFields, ParseAlg, Strncmp, Spells;
    ListRoundTrip(top, t);
    ParsedNonEmpty(top);
    if |top| == 2 && top[0].Block? && top[1].Sub? && |top[1].items| >= 2 && top[1].items[0].Block? {
      AlgsSpelled(top[1].items[0].bytes);
      if Spells(top[0].bytes, "private-key") {
        NamesSpelled();
        SameSpelling(top[0].bytes, PRIVATE_KEY, "private-key");
        SelfMatch();
      }
    }
  }

  /** `strncmp` of a C string and a block says equal: the characters agree up to the end of the block or
      up to and including a zero in both. */
  lemma StrncmpIs(lit: Bytes, bytes: Bytes, n: nat)
    requires 0 !in lit
    ensures n == |bytes| <= |lit| && (forall i :: 0 <= i < n ==> bytes[i] == lit[i]) ==> Strncmp(lit, bytes)
    ensures n == |lit| < |bytes| && (forall i :: 0 <= i < n ==> bytes[i] == lit[i]) && bytes[n] == 0 ==>
              Strncmp(lit, bytes)
    ensures n < |lit| && n < |bytes| && bytes[n] != lit[n] ==> !Strncmp(lit, bytes)
    ensures n == |lit| < |bytes| && bytes[n] != 0 ==> !Strncmp(lit, bytes)
  {
    if bytes <= lit && n < |lit| && n < |bytes| {
      assert bytes[n] == lit[..|bytes|][n];
    }
    if lit < bytes && n < |lit| && n < |bytes| {
      assert lit[n] == bytes[..|lit|][n];
    }
  }

  lemma SameSpelling(a: Bytes, b: Bytes, text: string)
    requires Spells(a, text) && Spells(b, text)
    ensures a == b
  {
  }

  lemma NotPrefixed(lit: Bytes, name: Bytes, n: nat)
    requires 0 !in lit && n < |lit| && n < |name| && lit[n] != name[n]
    ensures !Strncmp(lit, name)
  {
    StrncmpIs(lit, name, n);
  }

  lemma NotRsa(name: Bytes)
    requires |name| > 1 && name[0] != 0x72 && (name[0] != 0x6F || (|name| > 8 && name[1] == 0x70 && name[8] != 0x72))
    ensures !Strncmp(RSA, name) && !Strncmp(OPENPGP_RSA, name) && !Strncmp(OID_RSA, name)
  {
    NotPrefixed(RSA, name, 0);
    NotPrefixed(OPENPGP_RSA, name, if name[0] != 0x6F then 0 else 8);
    NotPrefixed(OID_RSA, name, if name[0] != 0x6F then 0 else 1);
  }

  lemma NotElgamal(name: Bytes)
    requires |name| > 1 && name[0] != 0x65 && (name[0] != 0x6F || (|name| > 8 && name[8] != 0x65))
    ensures !Strncmp(ELG, name) && !Strncmp(ELGAMAL, name) && !Strncmp(OPENPGP_ELG, name)
            && !Strncmp(OPENPGP_ELG_SIG, name)
  {
    NotPrefixed(ELG, name, 0);
    NotPrefixed(ELGAMAL, name, 0);
    NotPrefixed(OPENPGP_ELG, name, if name[0] != 0x6F then 0 else 8);
    NotPrefixed(OPENPGP_ELG_SIG, name, if name[0] != 0x6F then 0 else 8);
  }

  lemma AlgsParse()
    ensures ParseAlg(RSA) == ParseAlg(OPENPGP_RSA) == ParseAlg(OID_RSA) == Some(AlgRsa)
    ensures ParseAlg(ELG) == ParseAlg(ELGAMAL) == ParseAlg(OPENPGP_ELG) == ParseAlg(OPENPGP_ELG_SIG) == Some(AlgElgamal)
    ensures ParseAlg(DSA) == ParseAlg(OPENPGP_DSA) == Some(AlgDsa)
  {
    hide Strncmp;
    NotRsa(ELG);
    NotRsa(ELGAMAL);
    NotRsa(OPENPGP_ELG);
    NotRsa(OPENPGP_ELG_SIG);
    NotRsa(DSA);
    NotRsa(OPENPGP_DSA);
    NotElgamal(DSA);
    NotElgamal(OPENPGP_DSA);
    SelfMatch();
  }

  lemma SelfMatch()
    ensures forall name: Bytes :: Strncmp(name, name)
  {
  }

  /** The algorithm names that are understood. */
  lemma AlgsSpelled(name: Bytes)
    ensures (Spells(name, "rsa") || Spells(name, "openpgp-rsa") || Spells(name, "oid.1.2.840.113549.1.1.1")) ==>
              ParseAlg(name) == Some(AlgRsa)
    ensures (Spells(name, "elg") || Spells(name, "elgamal") || Spells(name, "openpgp-elg")
             || Spells(name, "openpgp-elg-sig")) ==>
              ParseAlg(name) == Some(AlgElgamal)
    ensures (Spells(name, "dsa") || Spells(name, "openpgp-dsa")) ==> ParseAlg(name) == Some(AlgDsa)
  {
    hide Spells, ParseAlg;
    AlgsParse();
    NamesSpelled();
    if Spells(name, "rsa") {
      SameSpelling(name, RSA, "rsa");
    } else if Spells(name, "openpgp-rsa") {
      SameSpelling(name, OPENPGP_RSA, "openpgp-rsa");
    } else if Spells(name, "oid.1.2.840.113549.1.1.1") {
      SameSpelling(name, OID_RSA, "oid.1.2.840.113549.1.1.1");
    }
    if Spells(name, "elg") {
      SameSpelling(name, ELG, "elg");
    } else if Spells(name, "elgamal") {
      SameSpelling(name, ELGAMAL, "elgamal");
    } else if Spells(name, "openpgp-elg") {
      SameSpelling(name, OPENPGP_ELG, "openpgp-elg");
    } else if Spells(name, "openpgp-elg-sig") {
      SameSpelling(name, OPENPGP_ELG_SIG, "openpgp-elg-sig");
    }
    if Spells(name, "dsa") {
      SameSpelling(name, DSA, "dsa");
    } else if Spells(name, "openpgp-dsa") {
      SameSpelling(name, OPENPGP_DSA, "openpgp-dsa");
    }
  }

  /** Writing a key and parsing what was written. */
  method StoreAndLoad(k: SecretKey, stale: nat -> Octet) returns (ok: bool, r: Option<SecretKey>)
    requires AllWritable(Fields(k, stale))
    ensures ok <==> !k.Elgamal?
    ensures ok ==> AllNamed(Fields(k, stale))
    ensures ok ==> var fs := Fields(k, stale); r == if AllKept(fs, |fs|) && AllPrintable(fs) then Some(k) else None
  {
    hide PrintList, KeyTree, Fields, ReadKey, AllNamed, AllWritable, AllKept, AllPrintable;
    var mem := new PgpMemory(2048);
    ok := WriteKey(k, stale, mem);
    r := None;
    if ok {
      assert [] + PrintList(KeyTree(k, stale)) == PrintList(KeyTree(k, stale));
      KeyRoundTrip(k, stale);
      r := ParseSeckey(mem.buf[..mem.length]);
    }
  }
}
