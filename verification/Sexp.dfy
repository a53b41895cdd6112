/** The S-expressions of src/librekey/key_store_g10.c: builder, printer and recursive parser. */
module Sexp {
  import opened Octets
  import opened Memory

  /** `sub_element_t`: a block of octets or a nested expression.  An `s_exp_t` is a `seq<Elem>`. */
  datatype Elem = Block(bytes: Bytes) | Sub(items: seq<Elem>)

  const OPEN: Octet := 40
  const CLOSE: Octet := 41
  const COLON: Octet := 58
  const LONG_MAX: int := 0x7FFF_FFFF_FFFF_FFFF

  // --- the de-duplicating constructor ---

  predicate HasBlock(items: seq<Elem>, bytes: Bytes)
  {
    exists i :: 0 <= i < |items| && items[i] == Block(bytes)
  }

  function AddedBlock(items: seq<Elem>, bytes: Bytes): (r: seq<Elem>)
  {
    if HasBlock(items, bytes) then items else items + [Block(bytes)]
  }

  /** `add_block_to_sexp`: a block that is already there is not added again. */
  method AddBlock(items: seq<Elem>, bytes: Bytes) returns (r: seq<Elem>)
    ensures r == AddedBlock(items, bytes)
  {
    for i := 0 to |items|
      invariant !HasBlock(items[..i], bytes)
    {
      if items[i].Block? && |bytes| == |items[i].bytes| && items[i].bytes == bytes {
        return items;
      }
    }
    assert items[..|items|] == items;
    r := items + [Block(bytes)];
  }

  // --- strtol ---

  predicate IsSpace(c: Octet)
  {
    c == 32 || 9 <= c <= 13
  }

  predicate IsDigit(c: int)
  {
    48 <= c <= 57
  }

  function Spaces(s: Bytes): (n: nat)
    ensures n <= |s|
  {
    if s != [] && IsSpace(s[0]) then 1 + Spaces(s[1..]) else 0
  }

  function Digits(s: Bytes): (n: nat)
    ensures n <= |s|
  {
    if s != [] && IsDigit(s[0]) then 1 + Digits(s[1..]) else 0
  }

  function DigitValue(c: int): nat
    requires IsDigit(c)
  {
    c - 48
  }

  function DigitsValue(s: Bytes): (v: nat)
    requires forall i :: 0 <= i < |s| ==> IsDigit(s[i])
  {
    if s == [] then 0 else 10 * DigitsValue(s[..|s| - 1]) + DigitValue(s[|s| - 1])
  }

  lemma {:induction false} DigitsAreDigits(s: Bytes)
    ensures forall i :: 0 <= i < Digits(s) ==> IsDigit(s[i])
  {
    if s != [] && IsDigit(s[0]) {
      DigitsAreDigits(s[1..]);
      forall i | 0 <= i < Digits(s) ensures IsDigit(s[i]) {
        if i > 0 {
          assert s[i] == s[1..][i - 1];
        }
      }
    }
  }

  function Saturate(v: int): int
  {
    if v > LONG_MAX then LONG_MAX else if v < -LONG_MAX - 1 then -LONG_MAX - 1 else v
  }

  /** `strtol(s, &next, 10)`: the value, and how far `next` is from `s`. */
  function Strtol(s: Bytes): (r: (int, nat))
    ensures r.1 <= |s|
  {
    var sp := Spaces(s);
    var sign := if sp < |s| && (s[sp] == 43 || s[sp] == 45) then 1 else 0;
    var n := Digits(s[sp + sign..]);
    if n == 0 then (0, 0)
    else
      DigitsAreDigits(s[sp + sign..]);
      var v: int := DigitsValue(s[sp + sign..][..n]);
      (Saturate(if sign == 1 && s[sp] == 45 then -v else v), sp + sign + n)
  }

  // --- the parser as a function ---

  datatype Parsed = Fail | Done(items: seq<Elem>, rest: Bytes)

  /** A length, a colon and that many octets, with at least one octet left over. */
  function ReadBlock(s: Bytes): (r: Option<(Bytes, Bytes)>)
    ensures r.Some? ==> r.value.0 != [] && |r.value.0| < LONG_MAX && r.value.1 != [] && |r.value.1| < |s|
  {
    var (len, used) := Strtol(s);
    if used >= |s| || s[used] != COLON then None
    else
      var rest := s[used + 1..];
      if len == -LONG_MAX - 1 || len == LONG_MAX || len <= 0 || len >= |rest| then None
      else Some((rest[..len], rest[len..]))
  }

  function ParseList(s: Bytes): (r: Parsed)
    ensures r.Done? ==> |r.rest| < |s|
    decreases |s|, 0
  {
    if s == [] || s[0] != OPEN then Fail else ParseItems(s[1..], [])
  }

  /** The do-while loop of `parse_sexp`, entered with `acc` already parsed. */
  function ParseItems(s: Bytes, acc: seq<Elem>): (r: Parsed)
    ensures r.Done? ==> |r.rest| < |s|
    decreases |s|, 1
  {
    if s == [] then Fail
    else if s[0] == OPEN then
      match ParseList(s)
      case Fail => Fail
      case Done(sub, rest) => ParseMore(rest, acc + [Sub(sub)])
    else
      match ReadBlock(s)
      case None => Fail
      case Some((bytes, rest)) => ParseMore(rest, AddedBlock(acc, bytes))
  }

  /** The loop condition: stop at a closing parenthesis. */
  function ParseMore(s: Bytes, acc: seq<Elem>): (r: Parsed)
    ensures r.Done? ==> |r.rest| < |s|
    decreases |s|, 2
  {
    if s != [] && s[0] == CLOSE then Done(acc, s[1..]) else ParseItems(s, acc)
  }

  /** `parse_sexp` as its callers see it: an empty input is accepted as it is. */
  function ParseSexp(s: Bytes): (r: Parsed)
  {
    if s == [] then Done([], []) else ParseList(s)
  }

  /** `parse_sexp`: recursive descent over the text `buf` from offset `at`. */
  method Parse(buf: Bytes, at: nat) returns (ok: bool, items: seq<Elem>, next: nat)
    requires at < |buf|
    ensures at <= next <= |buf|
    ensures (if ok then Done(items, buf[next..]) else Fail) == ParseList(buf[at..])
    ensures ok ==> at < next
    decreases |buf| - at
  {
    hide ReadBlock, AddedBlock;
    items, next := [], at;
    if buf[next] != OPEN {
      return false, [], at;
    }
    next := next + 1;
    assert buf[at..][1..] == buf[next..];
    while true
      invariant at < next <= |buf|
      invariant ParseItems(buf[next..], items) == ParseList(buf[at..])
      decreases |buf| - next
    {
      if next >= |buf| {
        assert buf[next..] == [];
        return false, items, next;
      }
      if buf[next] == OPEN {
        var sub, after;
        ok, sub, after := Parse(buf, next);
        if !ok {
          return false, items, next;
        }
        items := items + [Sub(sub)];
        next := after;
      } else {
        match ReadBlock(buf[next..]) {
          case None =>
            return false, items, next;
          case Some((bytes, rest)) =>
            ReadBlockRest(buf, next);
            items := AddBlock(items, bytes);
            next := |buf| - |rest|;
        }
      }
      if next < |buf| && buf[next] == CLOSE {
        assert buf[next..][1..] == buf[next + 1..];
        next := next + 1;
        return true, items, next;
      }
    }
  }

  lemma ReadBlockRest(buf: Bytes, at: nat)
    requires at <= |buf| && ReadBlock(buf[at..]).Some?
    ensures var rest := ReadBlock(buf[at..]).value.1;
            rest == buf[|buf| - |rest|..]
  {
    var s := buf[at..];
    var (len, used) := Strtol(s);
    assert s[used + 1..] == buf[at + used + 1..];
  }

  // --- the printer ---

  function Decimal(n: nat): (r: Bytes)
  {
    if n < 10 then [48 + n] else Decimal(n / 10) + [48 + n % 10]
  }

  function PrintBlock(bytes: Bytes): (r: Bytes)
  {
    Decimal(|bytes|) + [COLON] + bytes
  }

  function PrintElem(e: Elem): (r: Bytes)
    decreases e, 1
  {
    match e
    case Block(bytes) => PrintBlock(bytes)
    case Sub(items) => PrintList(items)
  }

  function PrintItems(items: seq<Elem>): (r: Bytes)
    decreases items, 0
  {
    if items == [] then [] else PrintElem(items[0]) + PrintItems(items[1..])
  }

  function PrintList(items: seq<Elem>): (r: Bytes)
    decreases items, 1
  {
    [OPEN] + PrintItems(items) + [CLOSE]
  }

  /** `write_sexp`, with `write_block` inline: appends to the memory buffer. */
  method WriteSexp(items: seq<Elem>, mem: PgpMemory)
    requires mem.Valid()
    modifies mem, mem.buf
    ensures mem.Valid() && (mem.buf == old(mem.buf) || fresh(mem.buf))
    ensures mem.Contents() == old(mem.Contents()) + PrintList(items)
    decreases items
  {
    hide PrintElem, PrintBlock;
    ghost var was := mem.Contents();
    mem.Add([OPEN]);
    assert was + [OPEN] + PrintItems(items) == was + ([OPEN] + PrintItems(items));
    for i := 0 to |items|
      invariant mem.Valid() && (mem.buf == old(mem.buf) || fresh(mem.buf))
      invariant mem.Contents() + PrintItems(items[i..]) == was + ([OPEN] + PrintItems(items))
    {
      ghost var before := mem.Contents();
      assert items[i..][0] == items[i] && items[i..][1..] == items[i + 1..];
      Assoc(before, PrintElem(items[i]), PrintItems(items[i + 1..]));
      WriteElem(items[i], mem);
    }
    assert items[|items|..] == [] && mem.Contents() + [] == mem.Contents();
    Assoc(was, [OPEN] + PrintItems(items), [CLOSE]);
    mem.Add([CLOSE]);
  }

  method WriteElem(e: Elem, mem: PgpMemory)
    requires mem.Valid()
    modifies mem, mem.buf
    ensures mem.Valid() && (mem.buf == old(mem.buf) || fresh(mem.buf))
    ensures mem.Contents() == old(mem.Contents()) + PrintElem(e)
    decreases e
  {
    ghost var was := mem.Contents();
    match e
    case Block(bytes) =>
      Assoc4(was, Decimal(|bytes|), [COLON], bytes);
      mem.Add(Decimal(|bytes|));
      mem.Add([COLON]);
      mem.Add(bytes);
    case Sub(items) =>
      WriteSexp(items, mem);
  }

  // --- which trees survive ---

  predicate DistinctBlocks(items: seq<Elem>)
  {
    forall i, j :: 0 <= i < j < |items| && items[i].Block? ==> items[i] != items[j]
  }

  predicate GoodElem(e: Elem)
    decreases e, 0
  {
    match e
    case Block(bytes) => bytes != [] && |bytes| < LONG_MAX
    case Sub(items) => WellFormed(items)
  }

  predicate GoodItems(items: seq<Elem>)
    decreases items, 1
  {
    DistinctBlocks(items) && forall i :: 0 <= i < |items| ==> GoodElem(items[i])
  }

  /** Non-empty lists whose blocks are non-empty and pairwise distinct among siblings. */
  predicate WellFormed(items: seq<Elem>)
    decreases items, 2
  {
    items != [] && GoodItems(items)
  }

  // --- soundness of the parser ---

  lemma AddedBlockGood(acc: seq<Elem>, bytes: Bytes)
    requires GoodItems(acc) && GoodElem(Block(bytes))
    ensures WellFormed(AddedBlock(acc, bytes))
  {
    if HasBlock(acc, bytes) {
      assert acc != [];
    } else {
      var r := acc + [Block(bytes)];
      forall i, j | 0 <= i < j < |r| && r[i].Block? ensures r[i] != r[j] {
        if j == |acc| {
          assert acc[i] != Block(bytes);
        }
      }
    }
  }

  lemma AddedSubGood(acc: seq<Elem>, sub: seq<Elem>)
    requires GoodItems(acc) && WellFormed(sub)
    ensures WellFormed(acc + [Sub(sub)])
  {
    var r := acc + [Sub(sub)];
    forall i, j | 0 <= i < j < |r| && r[i].Block? ensures r[i] != r[j] {
    }
    assert GoodElem(Sub(sub));
  }

  /** Whatever is accepted is well formed: no empty lists, no empty or repeated blocks. */
  lemma {:induction false} ParsedIsWellFormed(s: Bytes)
    ensures ParseList(s).Done? ==> WellFormed(ParseList(s).items)
    decreases |s|, 0
  {
    if s != [] && s[0] == OPEN {
      ParsedItemsWellFormed(s[1..], []);
    }
  }

  lemma {:induction false} ParsedItemsWellFormed(s: Bytes, acc: seq<Elem>)
    requires GoodItems(acc)
    ensures ParseItems(s, acc).Done? ==> WellFormed(ParseItems(s, acc).items)
    decreases |s|, 1
  {
    hide ReadBlock, AddedBlock, GoodItems, WellFormed;
    if s == [] {
    } else if s[0] == OPEN {
      ParsedIsWellFormed(s);
      var p := ParseList(s);
      if p.Done? {
        AddedSubGood(acc, p.items);
        ParsedMoreWellFormed(p.rest, acc + [Sub(p.items)]);
      }
    } else {
      var b := ReadBlock(s);
      if b.Some? {
        AddedBlockGood(acc, b.value.0);
        ParsedMoreWellFormed(b.value.1, AddedBlock(acc, b.value.0));
      }
    }
  }

  lemma {:induction false} ParsedMoreWellFormed(s: Bytes, acc: seq<Elem>)
    requires WellFormed(acc)
    ensures ParseMore(s, acc).Done? ==> WellFormed(ParseMore(s, acc).items)
    decreases |s|, 2
  {
    hide GoodItems;
    IsGood(acc);
    if s == [] || s[0] != CLOSE {
      ParsedItemsWellFormed(s, acc);
    }
  }

  lemma IsGood(items: seq<Elem>)
    requires WellFormed(items)
    ensures GoodItems(items) && items != []
  {
  }

  // --- printing, then parsing ---

  lemma {:induction false} DecimalDigits(n: nat)
    ensures |Decimal(n)| > 0 && forall i :: 0 <= i < |Decimal(n)| ==> IsDigit(Decimal(n)[i])
    ensures DigitsValue(Decimal(n)) == n
  {
    if n >= 10 {
      DecimalDigits(n / 10);
      var d := Decimal(n / 10);
      assert Decimal(n)[..|d|] == d;
    } else {
      assert Decimal(n)[..0] == [];
    }
  }

  lemma {:induction false} DigitsOf(d: Bytes, t: Bytes)
    requires (forall i :: 0 <= i < |d| ==> IsDigit(d[i])) && (t == [] || !IsDigit(t[0]))
    ensures Digits(d + t) == |d|
  {
    if d == [] {
      assert d + t == t;
    } else {
      assert (d + t)[1..] == d[1..] + t && (d + t)[0] == d[0];
      DigitsOf(d[1..], t);
    }
  }

  lemma StrtolDecimal(n: nat, t: Bytes)
    requires n <= LONG_MAX && (t == [] || !IsDigit(t[0]))
    ensures Strtol(Decimal(n) + t) == (n, |Decimal(n)|)
  {
    hide Decimal, Digits, DigitsValue;
    var d := Decimal(n);
    var s := d + t;
    DecimalDigits(n);
    DigitsOf(d, t);
    assert s[0] == d[0];
    assert Spaces(s) == 0;
    assert s[0..] == s && s[..|d|] == d;
  }

  lemma ReadPrintedBlock(bytes: Bytes, t: Bytes)
    requires GoodElem(Block(bytes)) && t != []
    ensures var s := PrintBlock(bytes) + t;
            IsDigit(s[0]) && ReadBlock(s) == Some((bytes, t))
  {
    hide Decimal, Strtol, DigitsValue;
    var n, d := |bytes|, Decimal(|bytes|);
    var s := PrintBlock(bytes) + t;
    DecimalDigits(n);
    StrtolDecimal(n, [COLON] + bytes + t);
    Assoc4(d, [COLON], bytes, t);
    assert s[|d|] == COLON && s[0] == d[0];
    assert s[|d| + 1..] == bytes + t;
    PrefixAndRest(bytes, t);
  }

  lemma {:induction false} ListRoundTrip(items: seq<Elem>, t: Bytes)
    requires WellFormed(items)
    ensures ParseList(PrintList(items) + t) == Done(items, t)
    decreases items, 2
  {
    hide PrintItems, ParseItems, GoodItems;
    IsGood(items);
    assert [] + items == items;
    ItemsRoundTrip(items, [], t);
    var s := PrintList(items) + t;
    assert s[1..] == PrintItems(items) + [CLOSE] + t;
  }

  lemma {:induction false} ItemsRoundTrip(items: seq<Elem>, acc: seq<Elem>, t: Bytes)
    requires items != [] && GoodItems(acc + items)
    ensures ParseItems(PrintItems(items) + [CLOSE] + t, acc) == Done(acc + items, t)
    decreases items, 1
  {
    hide GoodItems, ReadBlock, PrintBlock, AddedBlock, PrintItems, PrintElem, ParseList;
    var e, more := items[0], items[1..];
    var r := PrintItems(more) + [CLOSE] + t;
    PrintFirst(items, t);
    FirstOfGood(acc, items);
    Assoc(acc, [e], more);
    assert items == [e] + more;
    if more == [] {
      NoItems();
      assert r == [CLOSE] + t;
      assert r[1..] == t && acc + [e] + more == acc + [e];
    } else {
      ItemsRoundTrip(more, acc + [e], t);
      FirstOfGood(acc + [e], more);
      PrintFirst(more, t);
      StartOfElem(more[0], PrintItems(more[1..]) + [CLOSE] + t);
    }
    match e
    case Block(bytes) =>
      PrintElemIs(e);
      ReadPrintedBlock(bytes, r);
    case Sub(sub) =>
      PrintElemIs(e);
      ListRoundTrip(sub, r);
      StartOfElem(e, r);
  }

  lemma NoItems()
    ensures PrintItems([]) == []
  {
  }

  lemma PrintElemIs(e: Elem)
    ensures PrintElem(e) == if e.Block? then PrintBlock(e.bytes) else PrintList(e.items)
  {
  }

  lemma PrintFirst(items: seq<Elem>, t: Bytes)
    requires items != []
    ensures PrintItems(items) + [CLOSE] + t == PrintElem(items[0]) + (PrintItems(items[1..]) + [CLOSE] + t)
  {
    hide PrintElem;
    Assoc4(PrintElem(items[0]), PrintItems(items[1..]), [CLOSE], t);
  }

  lemma FirstOfGood(acc: seq<Elem>, items: seq<Elem>)
    requires items != [] && GoodItems(acc + items)
    ensures GoodElem(items[0]) && GoodItems(acc + [items[0]] + items[1..])
    ensures items[0].Block? ==> AddedBlock(acc, items[0].bytes) == acc + [items[0]]
  {
    var all := acc + items;
    assert all[|acc|] == items[0];
    assert acc + [items[0]] + items[1..] == all;
    forall i | 0 <= i < |acc| ensures items[0].Block? ==> acc[i] != items[0] {
      assert all[i] == acc[i];
    }
  }

  /** A printed element starts with a digit or an opening parenthesis. */
  lemma StartOfElem(e: Elem, t: Bytes)
    requires GoodElem(e)
    ensures var s := PrintElem(e) + t;
            s != [] && s[0] != CLOSE && (s[0] == OPEN <==> e.Sub?)
  {
    hide Decimal, PrintItems, DigitsValue;
    match e
    case Block(bytes) =>
      DecimalDigits(|bytes|);
      var s := PrintElem(e) + t;
      assert s[0] == Decimal(|bytes|)[0];
    case Sub(items) =>
      PrintElemIs(e);
      assert PrintList(items)[0] == OPEN;
  }

  /** Printing and parsing gives the tree back, and leaves what followed it, exactly for the well
      formed trees. */
  lemma RoundTripExactly(items: seq<Elem>, t: Bytes)
    ensures ParseList(PrintList(items) + t) == Done(items, t) <==> WellFormed(items)
  {
    hide ParseList, PrintList;
    if WellFormed(items) {
      ListRoundTrip(items, t);
    }
    ParsedIsWellFormed(PrintList(items) + t);
  }

  /** Normal form: any accepted text parses to a tree whose printed form parses to the same tree. */
  lemma ReprintedText(s: Bytes, t: Bytes)
    requires ParseList(s).Done?
    ensures ParseList(PrintList(ParseList(s).items) + t) == Done(ParseList(s).items, t)
  {
    hide ParseList, PrintList;
    ParsedIsWellFormed(s);
    ListRoundTrip(ParseList(s).items, t);
  }

  // --- texts that are refused ---

  /** An empty atom prints as a zero length, which the parser does not take. */
  lemma EmptyBlockFails(t: Bytes, acc: seq<Elem>)
    ensures var s := PrintBlock([]) + t;
            s != [] && s[0] != CLOSE && s[0] != OPEN && ParseItems(s, acc) == Fail
  {
    hide Strtol;
    var s := PrintBlock([]) + t;
    DecimalDigits(0);
    assert s == Decimal(0) + ([COLON] + t);
    StrtolDecimal(0, [COLON] + t);
    assert s[0] == Decimal(0)[0] && s[|Decimal(0)|] == COLON;
  }

  /** Good elements followed by a text that is refused are refused. */
  lemma {:induction false} PrefixThenFail(good: seq<Elem>, s: Bytes, acc: seq<Elem>)
    requires GoodItems(acc + good) && s != [] && s[0] != CLOSE
    requires forall a: seq<Elem> :: ParseItems(s, a) == Fail
    ensures ParseItems(PrintItems(good) + s, acc) == Fail
    ensures PrintItems(good) + s != [] && (PrintItems(good) + s)[0] != CLOSE
    decreases |good|
  {
    hide GoodItems, ReadBlock, PrintBlock, AddedBlock, PrintItems, PrintElem, ParseList;
    if good == [] {
      NoItems();
      assert [] + s == s;
    } else {
      var e, more := good[0], good[1..];
      var r := PrintItems(more) + s;
      FirstOfGood(acc, good);
      PrefixThenFail(more, s, acc + [e]);
      PrintItemsFirst(good);
      Assoc(PrintElem(e), PrintItems(more), s);
      StartOfElem(e, r);
      PrintElemIs(e);
      match e
      case Block(bytes) =>
        ReadPrintedBlock(bytes, r);
      case Sub(sub) =>
        assert WellFormed(sub);
        ListRoundTrip(sub, r);
    }
  }

  lemma PrintItemsFirst(items: seq<Elem>)
    requires items != []
    ensures PrintItems(items) == PrintElem(items[0]) + PrintItems(items[1..])
  {
  }

  lemma {:induction false} PrintItemsConcat(a: seq<Elem>, b: seq<Elem>)
    ensures PrintItems(a + b) == PrintItems(a) + PrintItems(b)
    decreases |a|
  {
    hide PrintItems, PrintElem;
    if a == [] {
      NoItems();
      assert a + b == b && [] + PrintItems(b) == PrintItems(b);
    } else {
      PrintItemsFirst(a);
      PrintItemsFirst(a + b);
      assert (a + b)[1..] == a[1..] + b;
      PrintItemsConcat(a[1..], b);
      Assoc(PrintElem(a[0]), PrintItems(a[1..]), PrintItems(b));
    }
  }

  /** A list is refused when one of its elements is and those before it are good. */
  lemma ListFails(good: seq<Elem>, e: Elem, more: seq<Elem>, t: Bytes, acc: seq<Elem>)
    requires GoodItems(good)
    requires forall u: Bytes, a: seq<Elem> :: ParseItems(PrintElem(e) + u, a) == Fail
    requires PrintElem(e) != [] && PrintElem(e)[0] != CLOSE
    ensures ParseList(PrintList(good + [e] + more) + t) == Fail
    ensures ParseItems(PrintElem(Sub(good + [e] + more)) + t, acc) == Fail
    ensures PrintElem(Sub(good + [e] + more)) != [] && PrintElem(Sub(good + [e] + more))[0] == OPEN
  {
    hide PrintItems, PrintElem, ParseItems, GoodItems;
    var items := good + [e] + more;
    var u := PrintItems(more) + [CLOSE] + t;
    PrintItemsConcat(good + [e], more);
    PrintItemsConcat(good, [e]);
    PrintItemsFirst([e]);
    NoItems();
    assert [e][1..] == [] && PrintElem(e) + [] == PrintElem(e);
    var s := PrintList(items) + t;
    ListText(PrintItems(good), PrintElem(e), PrintItems(more), t);
    assert s[1..] == PrintItems(good) + (PrintElem(e) + u);
    assert [] + good == good;
    PrefixThenFail(good, PrintElem(e) + u, []);
    PrintElemIs(Sub(items));
    ListElemFails(s, acc);
  }

  lemma ListText(a: Bytes, e: Bytes, b: Bytes, t: Bytes)
    ensures ([OPEN] + (a + e + b) + [CLOSE] + t)[1..] == a + (e + (b + [CLOSE] + t))
  {
  }

  lemma ListElemFails(s: Bytes, acc: seq<Elem>)
    requires s != [] && s[0] == OPEN && ParseList(s) == Fail
    ensures ParseItems(s, acc) == Fail
  {
  }

  // --- the text, octet by octet ---

  /** A list is its elements in order between parentheses, a block its length in decimal, a colon and its
      octets. */
  lemma TextInOctets(e: Elem, more: seq<Elem>)
    ensures PrintElem(e)
            == match e
               case Block(bytes) => Decimal(|bytes|) + [58] + bytes
               case Sub(items) => [40] + PrintItems(items) + [41]
    ensures PrintItems([]) == [] && PrintItems([e] + more) == PrintElem(e) + PrintItems(more)
  {
    hide PrintElem, PrintItems;
    PrintElemIs(e);
    NoItems();
    PrintItemsFirst([e] + more);
    assert ([e] + more)[1..] == more;
  }

  /** The decimal digits of a number, the last one its remainder by ten, and no zero in front. */
  lemma {:induction false} DecimalInOctets(n: nat)
    ensures var d := Decimal(n);
            |d| > 0 && d[|d| - 1] as int == '0' as int + n % 10
            && (n < 10 ==> |d| == 1) && (n >= 10 ==> d[..|d| - 1] == Decimal(n / 10))
            && forall i :: 0 <= i < |d| ==> '0' as int <= d[i] <= '9' as int
    ensures n > 0 ==> Decimal(n)[0] as int != '0' as int
  {
    if n >= 10 {
      DecimalInOctets(n / 10);
    }
  }

  /** Blanks as `isspace` has them. */
  predicate Blanks(s: Bytes)
  {
    forall i :: 0 <= i < |s| ==> s[i] in {32, 9, 10, 11, 12, 13}
  }

  predicate AllDigits(s: Bytes)
  {
    forall i :: 0 <= i < |s| ==> 48 <= s[i] <= 57
  }

  lemma {:induction false} BlanksSkipped(blanks: Bytes, t: Bytes)
    requires Blanks(blanks) && (t == [] || t[0] !in {32, 9, 10, 11, 12, 13})
    ensures Spaces(blanks + t) == |blanks|
  {
    if blanks == [] {
      assert blanks + t == t;
    } else {
      assert (blanks + t)[1..] == blanks[1..] + t && (blanks + t)[0] == blanks[0];
      BlanksSkipped(blanks[1..], t);
    }
  }

  /** A value kept within 64 bits, and how much was scanned. */
  function Scanned(digits: Bytes, negative: bool, size: nat): (r: (int, nat))
    requires AllDigits(digits)
  {
    var v: int := if negative then 0 - DigitsValue(digits) else DigitsValue(digits);
    if digits == [] then (0, 0)
    else if v > 0x7FFF_FFFF_FFFF_FFFF then (0x7FFF_FFFF_FFFF_FFFF, size)
    else if v < -0x8000_0000_0000_0000 then (-0x8000_0000_0000_0000, size)
    else (v, size)
  }

  lemma ScanFrom(s: Bytes, at: nat, signed: bool, digits: Bytes, t: Bytes)
    requires AllDigits(digits) && (t == [] || !(48 <= t[0] <= 57)) && Spaces(s) == at
    requires signed <==> at < |s| && (s[at] == 43 || s[at] == 45)
    requires s[at + if signed then 1 else 0..] == digits + t
    ensures var size := at + (if signed then 1 else 0) + |digits|;
            Strtol(s) == Scanned(digits, signed && s[at] == 45, size)
  {
    hide DigitsValue, Spaces, Digits;
    DigitsOf(digits, t);
    PrefixAndRest(digits, t);
  }

  /** `strtol` on any blanks, sign and digits: the signed value, kept within 64 bits, and all of it
      scanned; without a digit nothing is. */
  lemma StrtolScans(blanks: Bytes, sign: Bytes, digits: Bytes, t: Bytes)
    requires Blanks(blanks) && (sign == [] || sign == [43] || sign == [45]) && AllDigits(digits)
    requires t == [] || !(48 <= t[0] <= 57)
    requires digits == [] && sign == [] && t != [] ==> t[0] !in {32, 9, 10, 11, 12, 13, 43, 45}
    ensures Strtol(blanks + (sign + (digits + t)))
            == Scanned(digits, sign == [45], |blanks| + |sign| + |digits|)
  {
    hide DigitsValue, Spaces, Digits, Strtol, Scanned;
    var tail := digits + t;
    var rest := sign + tail;
    FirstOf(digits, t);
    FirstOf(sign, tail);
    FirstOf(blanks, rest);
    BlanksSkipped(blanks, rest);
    PrefixAndRest(blanks, rest);
    if sign != [] {
      Assoc(blanks, sign, tail);
      PrefixAndRest(blanks + sign, tail);
    } else {
      assert rest == tail;
    }
    ScanFrom(blanks + rest, |blanks|, sign != [], digits, t);
  }

  lemma FirstOf(a: Bytes, b: Bytes)
    ensures a != [] ==> a + b != [] && (a + b)[0] == a[0]
    ensures a == [] ==> a + b == b
    ensures b != [] ==> |a| < |a + b| && (a + b)[|a|] == b[0]
  {
  }

  /** The value of decimal digits. */
  lemma DigitsInOctets(s: Bytes, c: Octet)
    requires AllDigits(s) && 48 <= c <= 57
    ensures DigitsValue([]) == 0 && DigitsValue(s + [c]) == 10 * DigitsValue(s) + (c - '0' as int)
  {
    assert (s + [c])[..|s|] == s;
  }

  /** A block is read exactly when a positive length below 2^63 - 1, a colon, that many octets and at
      least one more are there. */
  lemma BlockReadExactly(s: Bytes, bytes: Bytes, rest: Bytes)
    ensures ReadBlock(s) == Some((bytes, rest))
            <==> var (len, used) := Strtol(s);
                 0 < len == |bytes| < 0x7FFF_FFFF_FFFF_FFFF && used < |s| && s[used] == 58
                 && s[used + 1..] == bytes + rest && rest != []
  {
    hide Strtol;
    var (len, used) := Strtol(s);
    if used < |s| && 0 <= len <= |s[used + 1..]| {
      Join(s[used + 1..], len);
    }
    if 0 < len == |bytes| && used < |s| && s[used + 1..] == bytes + rest {
      PrefixAndRest(bytes, rest);
    }
  }
}
