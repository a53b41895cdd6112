/** Packet body lengths: the writers of src/lib/writer.c and a reader for the new packet format
    of section 4.2.2 of RFC 4880. */
module Framing {
  import opened Octets

  // --- the reader ---

  datatype BodyLength = Final(size: nat) | Partial(size: nat)

  /** Sections 4.2.2.1 to 4.2.2.4 of RFC 4880: a body length and the octets it occupies. */
  function ReadLength(s: Bytes): (r: Option<(BodyLength, nat)>)
    ensures r.Some? ==> 1 <= r.value.1 <= |s|
  {
    if s == [] then None
    else if s[0] < 192 then Some((Final(s[0]), 1))
    else if s[0] < 224 then
      if |s| < 2 then None else Some((Final(TwoOctetLength(s[0], s[1])), 2))
    else if s[0] < 255 then Some((Partial(Pow2(s[0] - 224)), 1))
    else if |s| < 5 then None else Some((Final(FromBigEndian(s[1..5])), 5))
  }

  function TwoOctetLength(a: int, b: int): int
  {
    256 * (a - 192) + b + 192
  }

  /** A whole body: partial chunks up to and including the first final one. */
  function ReadBody(s: Bytes): (r: Option<(Bytes, Bytes)>)
    decreases |s|
  {
    match ReadLength(s)
    case None => None
    case Some((length, used)) =>
      var rest := s[used..];
      if |rest| < length.size then None
      else if length.Final? then Some((rest[..length.size], rest[length.size..]))
      else
        match ReadBody(rest[length.size..])
        case None => None
        case Some((body, after)) => Some((rest[..length.size] + body, after))
  }

  // --- definite lengths ---

  /** `pgp_write_length`; the argument is a 32-bit unsigned. */
  function LengthHeader(len: nat): (r: Bytes)
    requires len < 0x1_0000_0000
  {
    if len < 192 then [len]
    else if len < 8192 + 192 then [(len - 192) / 256 + 192, (len - 192) % 256]
    else [0xff] + BigEndian(len, 4)
  }

  lemma LengthHeaderReads(len: nat, t: Bytes)
    requires len < 0x1_0000_0000
    ensures ReadLength(LengthHeader(len) + t) == Some((Final(len), |LengthHeader(len)|))
  {
    if len >= 8192 + 192 {
      var s := LengthHeader(len) + t;
      assert s[1..5] == BigEndian(len, 4);
      BigEndianValue(len, 4);
      Pow256Values();
    }
  }

  /** The octets of a length header, as sections 4.2.2.1 to 4.2.2.3 give them: always the shortest. */
  lemma LengthHeaderOctets(len: nat)
    requires len < 0x1_0000_0000
    ensures var h := LengthHeader(len);
            if len <= 191 then |h| == 1 && h[0] == len
            else if len <= 8383 then |h| == 2 && 192 <= h[0] <= 223 && Pair(h[0], h[1]) - 192 * 256 + 192 == len
            else |h| == 5 && h[0] == 255 && Quad(h[1], h[2], h[3], h[4]) == len
  {
    hide BigEndian, FromBigEndian;
    var h := LengthHeader(len);
    if len > 8383 {
      assert h[1..] == BigEndian(len, 4);
      BigEndianValue(len, 4);
      Pow256Values();
      FromOctets(h[1..]);
    }
  }

  /** What a first octet means to a reader, with two to the power of the low five bits for a part. */
  lemma FirstLengthOctet(s: Bytes)
    requires |s| >= 5
    ensures var r := ReadLength(s);
            if s[0] <= 191 then r == Some((Final(s[0]), 1))
            else if s[0] <= 223 then r == Some((Final(Pair(s[0], s[1]) - 192 * 256 + 192), 2))
            else if s[0] <= 254 then r == Some((Partial(Pow2(s[0] % 32)), 1))
            else r == Some((Final(Quad(s[1], s[2], s[3], s[4])), 5))
  {
    FromOctets(s[1..5]);
  }

  /** Length headers form a prefix code: no two lengths, definite or partial, can be confused. */
  lemma HeadersDecodeUniquely(len: nat, len': nat, t: Bytes, t': Bytes)
    requires len < 0x1_0000_0000 && len' < 0x1_0000_0000
    requires LengthHeader(len) + t == LengthHeader(len') + t'
    ensures len == len' && t == t'
  {
    LengthHeaderReads(len, t);
    LengthHeaderReads(len', t');
    var s, n := LengthHeader(len) + t, |LengthHeader(len)|;
    assert t == s[n..] && t' == (LengthHeader(len') + t')[n..];
  }

  lemma PartialIsNotFinal(e: nat, t: Bytes, len: nat, t': Bytes)
    requires e <= 30 && len < 0x1_0000_0000
    ensures [224 + e] + t != LengthHeader(len) + t'
  {
    LengthHeaderReads(len, t');
    assert ReadLength([224 + e] + t).value.0 == Partial(Pow2(e));
  }

  lemma ReadDefiniteBody(body: Bytes, t: Bytes)
    requires |body| < 0x1_0000_0000
    ensures ReadBody(LengthHeader(|body|) + body + t) == Some((body, t))
  {
    var h := LengthHeader(|body|);
    LengthHeaderReads(|body|, body + t);
    var s := h + body + t;
    assert s == h + (body + t);
    assert s[|h|..] == body + t;
    assert (body + t)[..|body|] == body && (body + t)[|body|..] == t;
  }

  // --- partial lengths ---

  const MAX_POWER: nat := 30 // MAX_PARTIAL_DATA_LENGTH_POWER

  function MaxExponent(len: nat, e: nat): (r: nat)
    requires len > 0
    ensures r <= e && Pow2(r) <= len && (r < e ==> len < Pow2(r + 1))
  {
    if Pow2(e) <= len then e else MaxExponent(len, e - 1)
  }

  /** The exponent of the largest power of two that is at most min(len, 2^30). */
  function PartialExponent(len: nat): (r: nat)
    requires len > 0
    ensures r <= 30 && Pow2(r) <= len && (r < 30 ==> len < Pow2(r + 1))
  {
    MaxExponent(len, MAX_POWER)
  }

  lemma {:induction false} Pow2Monotone(a: nat, b: nat)
    requires a < b
    ensures 2 * Pow2(a) <= Pow2(b)
  {
    if a + 1 < b {
      Pow2Monotone(a, b - 1);
    }
  }

  lemma ExponentUnique(len: nat, e: nat)
    requires len > 0 && e <= 30 && Pow2(e) <= len && (e < 30 ==> len < Pow2(e + 1))
    ensures PartialExponent(len) == e
  {
    var r := PartialExponent(len);
    if r < e {
      Pow2Monotone(r, e);
    } else if e < r {
      Pow2Monotone(e, r);
    }
  }

  lemma Pow2Values()
    ensures Pow2(9) == 512 && Pow2(30) == 0x4000_0000 && Pow2(31) == 0x8000_0000
  {
    assert Pow2(10) == 1024 by { assert Pow2(5) == 32; }
    assert Pow2(20) == 1024 * 1024 by { assert Pow2(15) == 32 * 1024; }
    assert Pow2(30) == 1024 * 1024 * 1024 by { assert Pow2(25) == 32 * 1024 * 1024; }
  }

  lemma Pow2Step(e: nat)
    ensures Pow2(e + 1) == 2 * Pow2(e) && Pow2(0) == 1
  {
  }

  lemma TopBitTest(len: nat, mask: nat)
    requires mask > 0 && len < 2 * mask
    ensures (len / mask) % 2 == 1 <==> len >= mask
  {
    if len >= mask {
      RemainderUnique(len, mask, 1, len - mask);
    } else {
      RemainderUnique(len, mask, 0, len);
    }
  }

  /** `partial_data_len`: the bit loop from 2^30 downwards. */
  method PartialDataLen(len: nat) returns (mask: nat)
    ensures len == 0 ==> mask == 0
    ensures len > 0 ==> mask == Pow2(PartialExponent(len))
  {
    hide Pow2;
    Pow2Values();
    if len == 0 {
      return 0;
    }
    if len > 0x4000_0000 {
      ExponentUnique(len, 30);
      return 0x4000_0000;
    }
    mask := 0x4000_0000;
    var i := 0;
    while i <= MAX_POWER
      invariant 0 <= i <= 30 && mask == Pow2(30 - i) && len < 2 * mask
    {
      TopBitTest(len, mask);
      Pow2Step(30 - i);
      if (len / mask) % 2 == 1 { // mask & len
        ExponentUnique(len, 30 - i);
        return;
      }
      assert i < 30 by { Pow2Step(0); }
      Pow2Step(29 - i);
      mask := mask / 2;
      i := i + 1;
    }
  }

  lemma {:induction false} Pow2Quotient(e: nat, i: nat)
    requires i <= e
    ensures Pow2(e) / Pow2(i) == Pow2(e - i)
    ensures Pow2(e) == Pow2(i) * Pow2(e - i)
  {
    if i > 0 {
      Pow2Quotient(e - 1, i - 1);
      var p, q := Pow2(i - 1), Pow2(e - i);
      assert 2 * (p * q) == (2 * p) * q;
    }
    RemainderUnique(Pow2(e), Pow2(i), Pow2(e - i), 0);
  }

  /** `write_partial_len`: the number of the lowest set bit, for a power of two up to 2^30. */
  method WritePartialLen(len: nat, ghost e: nat) returns (c: Octet)
    requires e <= 30 && len == Pow2(e)
    ensures c == 224 + e
  {
    var i := 0;
    while i <= MAX_POWER
      invariant 0 <= i <= e
    {
      Pow2Quotient(e, i);
      if (len / Pow2(i)) % 2 == 1 { // (len >> i) & 1
        break;
      }
      i := i + 1;
    }
    c := 224 + i;
  }

  /** Data cut into the chunks that `stream_write_litdata` emits. */
  function PartialChunks(data: Bytes): (r: Bytes)
    decreases |data|
  {
    if data == [] then []
    else
      var e := PartialExponent(|data|);
      [224 + e] + data[..Pow2(e)] + PartialChunks(data[Pow2(e)..])
  }

  lemma NextChunk(out: Bytes, data: Bytes, done: nat, next: nat)
    requires done < |data| && next == done + Pow2(PartialExponent(|data| - done))
    ensures out + PartialChunks(data[done..])
            == out + [224 + PartialExponent(|data| - done)] + data[done..next] + PartialChunks(data[next..])
  {
    hide Pow2, PartialExponent;
    DropSlice(data, done, next);
    Assoc4(out, [224 + PartialExponent(|data| - done)], data[done..next], PartialChunks(data[next..]));
  }

  method StreamWriteLitdata(data: Bytes) returns (out: Bytes)
    ensures out == PartialChunks(data)
  {
    hide Pow2, PartialExponent;
    out := [];
    var done := 0;
    while done < |data|
      invariant done <= |data| && PartialChunks(data) == out + PartialChunks(data[done..])
    {
      var pdlen := PartialDataLen(|data| - done);
      var c := WritePartialLen(pdlen, PartialExponent(|data| - done));
      var next := done + pdlen;
      NextChunk(out, data, done, next);
      out := out + [c] + data[done..next];
      done := next;
    }
  }

  /** `s` is a run of partial chunks whose bodies, one after the other, are `body`. */
  ghost predicate PartialRun(s: Bytes, body: Bytes)
    decreases |s|
  {
    if s == [] then body == []
    else
      224 <= s[0] <= 254 &&
      var n := Pow2(s[0] - 224);
      n <= |s| - 1 && n <= |body| && s[1..1 + n] == body[..n] && PartialRun(s[1 + n..], body[n..])
  }

  lemma PartialRunChunk(e: nat, chunk: Bytes, s: Bytes, body: Bytes)
    requires e <= 30 && |chunk| == Pow2(e) && PartialRun(s, body)
    ensures PartialRun([224 + e] + chunk + s, chunk + body)
  {
    hide Pow2;
    MiddleAndRest([224 + e], chunk, s);
    PrefixAndRest(chunk, body);
  }

  lemma {:induction false} PartialRunConcat(a: Bytes, x: Bytes, b: Bytes, y: Bytes)
    requires PartialRun(a, x) && PartialRun(b, y)
    ensures PartialRun(a + b, x + y)
    decreases |a|
  {
    hide Pow2;
    if a == [] {
      assert a + b == b && x + y == y;
    } else {
      var n := Pow2(a[0] - 224);
      PartialRunConcat(a[1 + n..], x[n..], b, y);
      SliceOfConcat(a, b, 1, 1 + n);
      SliceOfConcat(x, y, 0, n);
    }
  }

  lemma {:induction false} PartialRunChunks(data: Bytes)
    ensures PartialRun(PartialChunks(data), data)
    decreases |data|
  {
    hide Pow2, PartialExponent;
    if data != [] {
      var e := PartialExponent(|data|);
      var n := Pow2(e);
      PartialRunChunks(data[n..]);
      PartialRunChunk(e, data[..n], PartialChunks(data[n..]), data[n..]);
      Join(data, n);
    }
  }

  /** A reader that meets a run of partial chunks sees their bodies joined to whatever follows. */
  lemma {:induction false} ReadPartialRun(s: Bytes, body: Bytes, t: Bytes)
    requires PartialRun(s, body) && ReadBody(t).Some?
    ensures ReadBody(s + t) == Some((body + ReadBody(t).value.0, ReadBody(t).value.1))
    decreases |s|
  {
    hide Pow2, ReadBody, ReadLength;
    var b := ReadBody(t).value.0;
    if s == [] {
      assert s + t == t && body + b == b;
    } else {
      var n := Pow2(s[0] - 224);
      ReadPartialRun(s[1 + n..], body[n..], t);
      ReadOneChunk(s + t, n, s[1 + n..] + t);
      SliceOfConcat(s, t, 1, 1 + n);
      Join(body, n);
      Assoc(body[..n], body[n..], b);
    }
  }

  lemma ReadOneChunk(s: Bytes, n: nat, rest: Bytes)
    requires s != [] && 224 <= s[0] <= 254 && n == Pow2(s[0] - 224)
    requires 1 + n <= |s| && s[1 + n..] == rest && ReadBody(rest).Some?
    ensures ReadBody(s) == Some((s[1..1 + n] + ReadBody(rest).value.0, ReadBody(rest).value.1))
  {
    hide Pow2, ReadBody;
    DropSlice(s, 1, 1 + n);
    ReadBodyStep(s, s[1..], n);
  }

  lemma ReadBodyStep(s: Bytes, body: Bytes, n: nat)
    requires s != [] && 224 <= s[0] <= 254 && n == Pow2(s[0] - 224)
    requires body == s[1..] && n <= |body| && ReadBody(body[n..]).Some?
    ensures ReadBody(s) == Some((body[..n] + ReadBody(body[n..]).value.0, ReadBody(body[n..]).value.1))
  {
    hide Pow2;
  }

  // --- how many chunks ---

  function ChunkCount(len: nat): (r: nat)
  {
    if len == 0 then 0 else 1 + ChunkCount(len - Pow2(PartialExponent(len)))
  }

  function PopCount(n: nat): (r: nat)
  {
    if n == 0 then 0 else n % 2 + PopCount(n / 2)
  }

  lemma {:induction false} PopCountTopBit(n: nat, e: nat)
    requires Pow2(e) <= n < Pow2(e + 1)
    ensures PopCount(n) == 1 + PopCount(n - Pow2(e))
    decreases e
  {
    if e > 0 {
      var m := n - Pow2(e);
      PopCountTopBit(n / 2, e - 1);
      assert m / 2 == n / 2 - Pow2(e - 1) && m % 2 == n % 2;
    }
  }

  lemma NoBits()
    ensures PopCount(0) == 0
  {
  }

  lemma {:induction false} ChunkOctets(data: Bytes)
    ensures |PartialChunks(data)| == |data| + ChunkCount(|data|)
    decreases |data|
  {
    hide Pow2, PartialExponent;
    if data != [] {
      ChunkOctets(data[Pow2(PartialExponent(|data|))..]);
    }
  }

  /** One chunk for every whole 2^30 octets and one for every bit set in the remainder. */
  lemma {:induction false} ChunkCountIsBinary(len: nat)
    ensures ChunkCount(len) == len / 0x4000_0000 + PopCount(len % 0x4000_0000)
  {
    hide Pow2, PopCount, PartialExponent;
    Pow2Values();
    if len >= 0x4000_0000 {
      ExponentUnique(len, 30);
      ChunkCountIsBinary(len - 0x4000_0000);
    } else if len > 0 {
      var e := PartialExponent(len);
      assert e < 30;
      ChunkCountIsBinary(len - Pow2(e));
      PopCountTopBit(len, e);
    } else {
      assert PopCount(0) == 0 by { NoBits(); }
    }
  }
}
