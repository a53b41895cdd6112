/** `pgp_memory_t` of src/lib/misc.c: a growing buffer that can be patched in place. */
module Memory {
  import opened Octets
  import opened Framing

  class PgpMemory {
    var buf: array<Octet> // buf.Length is `allocated`
    var length: nat

    ghost predicate Valid()
      reads this
    {
      length <= buf.Length
    }

    ghost function Contents(): (s: Bytes)
      requires Valid()
      reads this, buf
    {
      buf[..length]
    }

    /** `pgp_memory_new` followed by `pgp_memory_init`. */
    constructor (needed: nat)
      ensures Valid() && Contents() == [] && fresh(buf)
    {
      buf := new Octet[needed](_ => 0);
      length := 0;
    }

    /** `pgp_memory_pad`: double and add when the request does not fit. */
    method Pad(n: nat)
      requires Valid()
      modifies this`buf
      ensures Valid() && length + n <= buf.Length
      ensures Contents() == old(Contents())
      ensures buf == old(buf) || fresh(buf)
      ensures buf == old(buf) <==> old(length + n <= buf.Length)
      ensures buf.Length == Room(old(buf.Length), length, n)
      ensures buf.Length == if length + n <= old(buf.Length) then old(buf.Length) else 2 * old(buf.Length) + n
    {
      if buf.Length < length + n {
        var grown := new Octet[buf.Length * 2 + n];
        forall i | 0 <= i < length {
          grown[i] := buf[i];
        }
        buf := grown;
      }
    }

    /** `pgp_memory_add`. */
    method Add(src: Bytes)
      requires Valid()
      modifies this, buf
      ensures Valid() && (buf == old(buf) || fresh(buf))
      ensures buf == old(buf) <==> old(length) + |src| <= old(buf.Length)
      ensures Contents() == old(Contents()) + src && length == old(length) + |src|
      ensures buf.Length == Room(old(buf.Length), old(length), |src|)
    {
      Pad(|src|);
      assert buf[..length] == old(buf[..length]);
      Store(buf, length, src);
      length := length + |src|;
      assert buf[..length] == old(buf[..length]) + src;
    }

    /** Several `pgp_memory_add` in a row. */
    method AddAll(parts: seq<Bytes>)
      requires Valid()
      modifies this, buf
      ensures Valid() && (buf == old(buf) || fresh(buf))
      ensures Contents() == old(Contents()) + Flatten(parts)
      ensures Appended(old(buf.Length), old(length), Sizes(parts), buf.Length, length)
    {
      ghost var was, cap, len := Contents(), buf.Length, length;
      NoSizes(cap, len);
      assert was + [] == was;
      for i := 0 to |parts|
        invariant Valid() && (buf == old(buf) || fresh(buf))
        invariant Contents() == was + Flatten(parts[..i])
        invariant Appended(cap, len, Sizes(parts[..i]), buf.Length, length)
      {
        TakeSnoc(parts, i);
        Assoc(was, Flatten(parts[..i]), parts[i]);
        OneMoreSize(cap, len, Sizes(parts[..i]), |parts[i]|, buf.Length, length);
        assert Sizes(parts[..i + 1]) == Sizes(parts[..i]) + [|parts[i]|];
        Add(parts[i]);
      }
      assert parts[..|parts|] == parts;
    }

    /** `pgp_memory_place_int`: `len` big-endian octets over what is at `offset`; nothing at all
        when the buffer is too small. */
    method PlaceInt(offset: nat, n: nat, len: nat)
      requires Valid()
      modifies buf
      ensures Valid()
      ensures offset + len <= length ==> Contents() == Patched(old(Contents()), offset, BigEndian(n, len))
      ensures buf[..]
              == if offset + len <= buf.Length then Patched(old(buf[..]), offset, BigEndian(n, len)) else old(buf[..])
    {
      if buf.Length >= offset + len {
        ghost var w := BigEndian(n, len);
        var left, at := len, offset;
        while left > 0
          invariant 0 <= left <= len && at == offset + (len - left)
          invariant forall i :: offset <= i < at ==> buf[i] == w[i - offset]
          invariant forall i :: 0 <= i < buf.Length && (i < offset || at <= i) ==> buf[i] == old(buf[i])
        {
          left := left - 1;
          BigEndianDigit(n, len, len - 1 - left);
          buf[at] := n / Pow256(left) % 256; // n >> (length * 8)
          at := at + 1;
        }
      }
    }

    /** `pgp_memory_make_packet`: the contents become the body of a packet. */
    method MakePacket(tag: Octet)
      requires Valid() && tag < 64
      modifies this, buf
      ensures Valid() && (buf == old(buf) || fresh(buf))
      ensures Contents() == [0xC0 + tag] + MemoryHeader(old(length)) + old(Contents())
    {
      ghost var was := Contents();
      var n := length;
      var extra := if n < 192 then 1 else if n < 8192 + 192 then 2 else 5;
      Pad(extra + 1);
      Store(buf, extra + 1, buf[..n]); // memmove
      var header: Bytes := [0xff] + BigEndian(n, 4);
      if n < 192 {
        header := [n];
      } else if n < 8192 + 192 {
        var high: Octet := (n - 192) / 256 + 192;
        header := [high, (n - 192) % 256];
      }
      assert header == MemoryHeader(n);
      MovedBody(buf[..], was, extra + 1);
      Store(buf, 0, [0xC0 + tag] + header);
      length := length + extra + 1;
      HeaderAndBody([0xC0 + tag] + header, was, buf[..]);
    }

    /** `STORE32BE` and the like through a pointer into the buffer. */
    method Overwrite(at: nat, s: Bytes)
      requires Valid() && at + |s| <= length
      modifies buf
      ensures Valid() && Contents() == Patched(old(Contents()), at, s)
    {
      ghost var was := buf[..];
      Store(buf, at, s);
      PatchedPrefix(was, at, s, length);
    }

    /** `pgp_memory_clear`. */
    method Clear()
      requires Valid()
      modifies this`length
      ensures Valid() && Contents() == []
    {
      length := 0;
    }
  }

  // --- how the buffer grows ---

  /** The allocation after room for `n` more octets was asked for. */
  function Room(cap: nat, len: nat, n: nat): (r: nat)
  {
    if len + n <= cap then cap else cap * 2 + n
  }

  /** The allocation after appends of these sizes, one by one. */
  function RoomAfter(cap: nat, len: nat, sizes: seq<nat>): (r: nat)
  {
    if sizes == [] then cap
    else
      var init := sizes[..|sizes| - 1];
      Room(RoomAfter(cap, len, init), len + Sum(init), sizes[|sizes| - 1])
  }

  function Sizes(parts: seq<Bytes>): (r: seq<nat>)
    ensures |r| == |parts|
  {
    seq(|parts|, i requires 0 <= i < |parts| => |parts[i]|)
  }

  /** Appends of these sizes lead from one allocation and length to another. */
  predicate Appended(cap: nat, len: nat, sizes: seq<nat>, cap': nat, len': nat)
  {
    cap' == RoomAfter(cap, len, sizes) && len' == len + Sum(sizes)
  }

  lemma NoSizes(cap: nat, len: nat)
    ensures Appended(cap, len, [], cap, len)
  {
  }

  lemma OneMoreSize(cap: nat, len: nat, sizes: seq<nat>, n: nat, cap': nat, len': nat)
    requires Appended(cap, len, sizes, cap', len')
    ensures Appended(cap, len, sizes + [n], Room(cap', len', n), len' + n)
  {
    hide Room;
    assert (sizes + [n])[..|sizes|] == sizes;
  }

  lemma {:induction false} AppendedThen(cap: nat, len: nat, a: seq<nat>, cap': nat, len': nat, b: seq<nat>)
    requires Appended(cap, len, a, cap', len')
    ensures Appended(cap, len, a + b, RoomAfter(cap', len', b), len' + Sum(b))
  {
    hide Room;
    if b == [] {
      assert a + b == a;
    } else {
      var init, n := b[..|b| - 1], b[|b| - 1];
      AppendedThen(cap, len, a, cap', len', init);
      OneMoreSize(cap, len, a + init, n, RoomAfter(cap', len', init), len' + Sum(init));
      assert a + b == a + init + [n];
    }
  }

  /** A buffer that is large enough at the start never moves. */
  lemma {:induction false} RoomEnough(cap: nat, len: nat, sizes: seq<nat>)
    requires len + Sum(sizes) <= cap
    ensures RoomAfter(cap, len, sizes) == cap
  {
    if sizes != [] {
      RoomEnough(cap, len, sizes[..|sizes| - 1]);
    }
  }

  lemma MovedBody(b: Bytes, body: Bytes, at: nat)
    requires at + |body| <= |b| && b[at..at + |body|] == body
    ensures b[at..][..|body|] == body
  {
    DropSlice(b, at, at + |body|);
  }

  lemma HeaderAndBody(h: Bytes, body: Bytes, b: Bytes)
    requires |h| + |body| <= |b| && b[..|h|] == h && b[|h|..][..|body|] == body
    ensures b[..|h| + |body|] == h + body
  {
    TakeSlice(b, |h|, |h| + |body|);
    DropSlice(b, |h|, |h| + |body|);
  }

  function Patched(s: Bytes, at: nat, patch: Bytes): (r: Bytes)
    requires at + |patch| <= |s|
    ensures |r| == |s|
  {
    s[..at] + patch + s[at + |patch|..]
  }

  lemma PatchedPrefix(s: Bytes, at: nat, patch: Bytes, n: nat)
    requires at + |patch| <= n <= |s|
    ensures Patched(s, at, patch)[..n] == Patched(s[..n], at, patch)
  {
  }

  /** The length octets that `pgp_memory_make_packet` stores; the four-octet form keeps the low
      32 bits. */
  function MemoryHeader(n: nat): (r: Bytes)
  {
    if n < 0x1_0000_0000 then LengthHeader(n) else [0xff] + BigEndian(n, 4)
  }

  /** A packet made in memory is what writing tag, length and body would have produced, and reads
      back as that body. */
  lemma MakePacketReads(tag: Octet, body: Bytes, t: Bytes)
    requires tag < 64 && |body| < 0x1_0000_0000
    ensures var s := [0xC0 + tag] + MemoryHeader(|body|) + body + t;
            s[0] == 0xC0 + tag && ReadBody(s[1..]) == Some((body, t))
  {
    hide LengthHeader, ReadBody;
    ReadDefiniteBody(body, t);
    var s := [0xC0 + tag] + MemoryHeader(|body|) + body + t;
    assert s[1..] == LengthHeader(|body|) + body + t;
  }
}
