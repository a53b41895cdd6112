/** The CFB cipher object of src/lib/symmetric.c: a feedback register `iv` and the number of
    its octets not yet used, `remaining`, kept across calls of any length.

    The specification `Cfb` processes one octet at a time; the methods work the way the C code
    does, with a run up to the block boundary, 4 KiB batches of whole blocks handled in 64-bit
    words, and a tail. */
module Cfb {
  import opened Octets

  /** The keyed block cipher: octet `i` of the image of a block.  Any function on blocks is allowed. */
  datatype Cipher = Cipher(blsize: nat, enc: (Bytes, nat) -> Octet)

  function Encipher(c: Cipher, block: Bytes): (r: Bytes)
    ensures |r| == c.blsize
  {
    seq(c.blsize, (i: nat) => c.enc(block, i))
  }

  datatype Direction = Encrypting | Decrypting

  datatype CfbState = CfbState(iv: Bytes, remaining: nat)

  datatype CfbRun = CfbRun(state: CfbState, out: Bytes)

  predicate ValidState(c: Cipher, st: CfbState)
  {
    (c.blsize == 8 || c.blsize == 16) && |st.iv| == c.blsize && st.remaining <= c.blsize
  }

  /** A used-up register is enciphered before the next octet. */
  function Refill(c: Cipher, st: CfbState): (r: CfbState)
    requires ValidState(c, st)
    ensures ValidState(c, r) && r.remaining > 0
  {
    if st.remaining == 0 then CfbState(Encipher(c, st.iv), c.blsize) else st
  }

  /** One octet of CFB: the output octet, and the register with the ciphertext octet fed back. */
  function CfbOctet(c: Cipher, dir: Direction, st: CfbState, x: Octet): (r: (CfbState, Octet))
    requires ValidState(c, st)
    ensures ValidState(c, r.0)
  {
    var f := Refill(c, st);
    var at := c.blsize - f.remaining;
    var y := Xor(x, f.iv[at]);
    (CfbState(f.iv[at := if dir.Encrypting? then y else x], f.remaining - 1), y)
  }

  /** The octet-at-a-time machine run over `s`. */
  function Cfb(c: Cipher, dir: Direction, st: CfbState, s: Bytes): (r: CfbRun)
    requires ValidState(c, st)
    ensures ValidState(c, r.state) && |r.out| == |s|
  {
    if s == [] then CfbRun(st, [])
    else
      var before := Cfb(c, dir, st, s[..|s| - 1]);
      var (st', y) := CfbOctet(c, dir, before.state, s[|s| - 1]);
      CfbRun(st', before.out + [y])
  }

  lemma {:induction false} CfbConcat(c: Cipher, dir: Direction, st: CfbState, a: Bytes, b: Bytes)
    requires ValidState(c, st)
    ensures var ra := Cfb(c, dir, st, a);
            var rb := Cfb(c, dir, ra.state, b);
            Cfb(c, dir, st, a + b) == CfbRun(rb.state, ra.out + rb.out)
  {
    hide Xor, Encipher, CfbOctet;
    if b == [] {
      assert a + b == a;
    } else {
      var ab := a + b;
      assert ab[..|ab| - 1] == a + b[..|b| - 1];
      CfbConcat(c, dir, st, a, b[..|b| - 1]);
    }
  }

  lemma CfbEmpty(c: Cipher, dir: Direction, st: CfbState)
    requires ValidState(c, st)
    ensures Cfb(c, dir, st, []) == CfbRun(st, [])
  {
  }

  lemma CfbExtend(c: Cipher, dir: Direction, st: CfbState, s: Bytes, i: nat, j: nat)
    requires ValidState(c, st) && i <= j <= |s|
    ensures var ra := Cfb(c, dir, st, s[..i]);
            var rb := Cfb(c, dir, ra.state, s[i..j]);
            Cfb(c, dir, st, s[..j]) == CfbRun(rb.state, ra.out + rb.out)
  {
    hide Cfb;
    CfbConcat(c, dir, st, s[..i], s[i..j]);
    TakeSlice(s, i, j);
  }

  lemma CfbSnoc(c: Cipher, dir: Direction, st: CfbState, s: Bytes, k: nat)
    requires ValidState(c, st) && k < |s|
    ensures var r := Cfb(c, dir, st, s[..k]);
            var (st', y) := CfbOctet(c, dir, r.state, s[k]);
            Cfb(c, dir, st, s[..k + 1]) == CfbRun(st', r.out + [y])
  {
    TakeSnoc(s, k);
  }

  // --- whole blocks ---

  function XorSeq(a: Bytes, b: Bytes): (r: Bytes)
    requires |a| == |b|
    ensures |r| == |a|
    ensures forall i :: 0 <= i < |a| ==> r[i] == Xor(a[i], b[i])
  {
    seq(|a|, i requires 0 <= i < |a| => Xor(a[i], b[i]))
  }

  lemma XorSeqSplit(a: Bytes, b: Bytes, k: nat)
    requires |a| == |b| && k <= |a|
    ensures XorSeq(a, b) == XorSeq(a[..k], b[..k]) + XorSeq(a[k..], b[k..])
  {
    hide Xor;
  }

  function Feedback(dir: Direction, x: Bytes, y: Bytes): Bytes
  {
    if dir.Encrypting? then y else x
  }

  /** From a block boundary, `k` octets of a block replace the first `k` octets of the
      enciphered register. */
  lemma {:induction false} CfbInBlock(c: Cipher, dir: Direction, iv: Bytes, block: Bytes, k: nat)
    requires ValidState(c, CfbState(iv, 0)) && |block| == c.blsize && 0 < k <= c.blsize
    ensures var e := Encipher(c, iv);
            var y := XorSeq(block, e);
            Cfb(c, dir, CfbState(iv, 0), block[..k])
            == CfbRun(CfbState(Feedback(dir, block, y)[..k] + e[k..], c.blsize - k), y[..k])
  {
    hide Xor; var st := CfbState(iv, 0);
    var e := Encipher(c, iv);
    var y := XorSeq(block, e);
    var f := Feedback(dir, block, y);
    var before := Cfb(c, dir, st, block[..k - 1]);
    if k == 1 {
      assert before == CfbRun(st, []);
      assert e == f[..0] + e[0..];
    } else {
      CfbInBlock(c, dir, iv, block, k - 1);
    }
    OctetInBlock(c, dir, before.state, f, e, block[k - 1], k);
    CfbSnoc(c, dir, st, block, k - 1);
    TakeSnoc(y, k - 1);
  }

  lemma OctetInBlock(c: Cipher, dir: Direction, st: CfbState, f: Bytes, e: Bytes, x: Octet, k: nat)
    requires ValidState(c, st) && |f| == |e| == c.blsize && 0 < k <= c.blsize
    requires Refill(c, st) == CfbState(f[..k - 1] + e[k - 1..], c.blsize - k + 1)
    requires f[k - 1] == if dir.Encrypting? then Xor(x, e[k - 1]) else x
    ensures CfbOctet(c, dir, st, x) == (CfbState(f[..k] + e[k..], c.blsize - k), Xor(x, e[k - 1]))
  {
    var reg := f[..k - 1] + e[k - 1..];
    assert reg[k - 1] == e[k - 1];
    assert reg[k - 1 := f[k - 1]] == f[..k] + e[k..];
  }

  lemma CfbBlock(c: Cipher, dir: Direction, iv: Bytes, block: Bytes)
    requires ValidState(c, CfbState(iv, 0)) && |block| == c.blsize
    ensures var y := XorSeq(block, Encipher(c, iv));
            Cfb(c, dir, CfbState(iv, 0), block) == CfbRun(CfbState(Feedback(dir, block, y), 0), y)
  {
    CfbInBlock(c, dir, iv, block, c.blsize);
    var e := Encipher(c, iv);
    var y := XorSeq(block, e);
    var f := Feedback(dir, block, y);
    assert block[..c.blsize] == block && y[..c.blsize] == y;
    assert f[..c.blsize] + e[c.blsize..] == f;
  }

  /** `bytes & ~(blsize - 1)` where `blsize` is a 32-bit unsigned: the mask also clears
      everything above bit 31. */
  function WholeBlocks(bytes: nat, blsize: nat): (r: nat)
    requires blsize == 8 || blsize == 16
    ensures r <= bytes && Aligned(r, blsize)
  {
    var low := bytes % 0x1_0000_0000;
    Floors(low);
    if blsize == 16 then low / 16 * 16 else low / 8 * 8
  }

  lemma Floors(n: nat)
    ensures n / 16 * 16 <= n && n / 16 * 16 % 16 == 0 && n / 8 * 8 <= n && n / 8 * 8 % 8 == 0
  {
    RemainderUnique(n / 16 * 16, 16, n / 16, 0);
    RemainderUnique(n / 8 * 8, 8, n / 8, 0);
  }

  predicate Aligned(n: int, blsize: nat)
  {
    if blsize == 16 then n % 16 == 0 else n % 8 == 0
  }

  /** What the mask loop leaves of `bytes` octets is less than a block exactly below 2^32. */
  lemma MaskLeaves(bytes: nat, blsize: nat)
    requires blsize == 8 || blsize == 16
    ensures bytes - WholeBlocks(bytes, blsize) < blsize <==> bytes < 0x1_0000_0000
  {
    if bytes < 0x1_0000_0000 {
      assert bytes % 0x1_0000_0000 == bytes;
    } else {
      assert bytes - bytes % 0x1_0000_0000 >= 0x1_0000_0000;
    }
  }

  /** How many octets of a call the tail loop is left with: the boundary loop uses up the register,
      the mask loop runs when more than a block is left. */
  function TailSize(bytes: nat, remaining: nat, blsize: nat): (r: nat)
    requires blsize == 8 || blsize == 16
  {
    var left := if bytes < remaining then 0 else bytes - remaining;
    if left > blsize then left - WholeBlocks(left, blsize) else left
  }

  /** The freshly enciphered register suffices for the tail of a call exactly when the call has
      fewer than 2^32 octets beyond what the register had left. */
  lemma TailFitsBlock(bytes: nat, remaining: nat, blsize: nat)
    requires (blsize == 8 || blsize == 16) && remaining <= blsize
    ensures TailSize(bytes, remaining, blsize) <= blsize <==> bytes < 0x1_0000_0000 + remaining
  {
    hide WholeBlocks;
    var left := if bytes < remaining then 0 else bytes - remaining;
    MaskLeaves(left, blsize);
    MaskLeavesFar(left, blsize);
  }

  lemma MaskLeavesFar(bytes: nat, blsize: nat)
    requires blsize == 8 || blsize == 16
    ensures bytes >= 0x1_0000_0000 ==> bytes - WholeBlocks(bytes, blsize) > blsize
  {
    if bytes >= 0x1_0000_0000 {
      assert bytes - bytes % 0x1_0000_0000 >= 0x1_0000_0000;
    }
  }

  const BATCH: nat := 4096 // sizeof(buf64)

  /** One block in 64-bit words, as the two- and one-word branches do it. */
  method CryptBlock(c: Cipher, dir: Direction, block: Bytes, iv: Bytes) returns (y: Bytes, iv': Bytes)
    requires ValidState(c, CfbState(iv, 0)) && |block| == c.blsize
    ensures |y| == c.blsize
    ensures Cfb(c, dir, CfbState(iv, 0), block) == CfbRun(CfbState(iv', 0), y)
  {
    hide Xor, XorSeq, Encipher, Cfb;
    var iv64 := Encipher(c, iv);
    if c.blsize == 16 {
      var y0 := XorSeq(block[..8], iv64[..8]);
      iv' := Feedback(dir, block[..8], y0);
      var y1 := XorSeq(block[8..], iv64[8..]);
      iv' := iv' + Feedback(dir, block[8..], y1);
      y := y0 + y1;
      XorSeqSplit(block, iv64, 8);
      assert block == block[..8] + block[8..];
    } else {
      y := XorSeq(block, iv64);
      iv' := Feedback(dir, block, y);
    }
    CfbBlock(c, dir, iv, block);
  }

  /** A batch of whole blocks, `while (blocks--)`. */
  method CryptBatch(c: Cipher, dir: Direction, buf: Bytes, iv: Bytes) returns (y: Bytes, iv': Bytes)
    requires ValidState(c, CfbState(iv, 0)) && Aligned(|buf|, c.blsize)
    ensures |y| == |buf|
    ensures Cfb(c, dir, CfbState(iv, 0), buf) == CfbRun(CfbState(iv', 0), y)
  {
    hide Encipher, Cfb;
    y, iv' := [], iv;
    var p := 0;
    CfbEmpty(c, dir, CfbState(iv, 0));
    while p < |buf|
      invariant 0 <= p <= |buf| && Aligned(|buf| - p, c.blsize) && |y| == p
      invariant |iv'| == c.blsize
      invariant Cfb(c, dir, CfbState(iv, 0), buf[..p]) == CfbRun(CfbState(iv', 0), y)
    {
      var next := p + c.blsize;
      var block := buf[p..next];
      var out;
      CfbExtend(c, dir, CfbState(iv, 0), buf, p, next);
      out, iv' := CryptBlock(c, dir, block, iv');
      y, p := y + out, next;
    }
    assert buf[..p] == buf;
  }

  lemma {:induction false} CfbRefill(c: Cipher, dir: Direction, st: CfbState, s: Bytes)
    requires ValidState(c, st) && s != []
    ensures Cfb(c, dir, Refill(c, st), s) == Cfb(c, dir, st, s)
  {
    hide Xor, Encipher;
    var init := s[..|s| - 1];
    if init != [] {
      CfbRefill(c, dir, st, init);
    }
  }

  // --- whole runs of calls ---

  /** The machine driven by a run of calls, each starting from the state the last one left. */
  function CfbCalls(c: Cipher, dir: Direction, st: CfbState, calls: seq<Bytes>): (r: CfbRun)
    requires ValidState(c, st)
    ensures ValidState(c, r.state)
  {
    if calls == [] then CfbRun(st, [])
    else
      var before := CfbCalls(c, dir, st, calls[..|calls| - 1]);
      var last := Cfb(c, dir, before.state, calls[|calls| - 1]);
      CfbRun(last.state, before.out + last.out)
  }

  /** However one text is split into calls, the output and the final register are the same. */
  lemma {:induction false} SplitIndependence(c: Cipher, dir: Direction, st: CfbState, calls: seq<Bytes>)
    requires ValidState(c, st)
    ensures CfbCalls(c, dir, st, calls) == Cfb(c, dir, st, Flatten(calls))
  {
    hide Encipher, CfbOctet;
    if calls != [] {
      var init := calls[..|calls| - 1];
      SplitIndependence(c, dir, st, init);
      CfbConcat(c, dir, st, Flatten(init), calls[|calls| - 1]);
    }
  }

  lemma OctetInverse(c: Cipher, st: CfbState, x: Octet)
    requires ValidState(c, st)
    ensures var (st', y) := CfbOctet(c, Encrypting, st, x);
            CfbOctet(c, Decrypting, st, y) == (st', x)
  {
    hide Xor, Encipher;
    var f := Refill(c, st);
    XorInvolution(x, f.iv[c.blsize - f.remaining]);
  }

  lemma {:induction false} DecryptInverts(c: Cipher, st: CfbState, s: Bytes)
    requires ValidState(c, st)
    ensures var e := Cfb(c, Encrypting, st, s);
            Cfb(c, Decrypting, st, e.out) == CfbRun(e.state, s)
  {
    hide Encipher, CfbOctet;
    if s != [] {
      var init := s[..|s| - 1];
      DecryptInverts(c, st, init);
      var before := Cfb(c, Encrypting, st, init);
      var y := CfbOctet(c, Encrypting, before.state, s[|s| - 1]).1;
      var out := before.out + [y];
      assert out[..|out| - 1] == before.out;
      OctetInverse(c, before.state, s[|s| - 1]);
      assert s == init + [s[|s| - 1]];
    }
  }

  /** Encrypting in some calls and decrypting the same octets in other calls gives the plaintext
      back, and leaves both sides with the same `(iv, remaining)`. */
  lemma RoundTripAcrossSplits(c: Cipher, st: CfbState, plain: seq<Bytes>, received: seq<Bytes>)
    requires ValidState(c, st)
    requires Flatten(received) == CfbCalls(c, Encrypting, st, plain).out
    ensures CfbCalls(c, Decrypting, st, received)
            == CfbRun(CfbCalls(c, Encrypting, st, plain).state, Flatten(plain))
  {
    hide Cfb, CfbCalls;
    SplitIndependence(c, Encrypting, st, plain);
    SplitIndependence(c, Decrypting, st, received);
    DecryptInverts(c, st, Flatten(plain));
  }

  // --- CFB in one formula ---

  /** The used part of the register and everything sent since: each whole block of it keys the next. */
  function Chained(c: Cipher, st: CfbState, sent: Bytes): (r: Bytes)
    requires ValidState(c, st)
    ensures |r| == c.blsize - st.remaining + |sent|
  {
    st.iv[..c.blsize - st.remaining] + sent
  }

  function BlockStart(b: nat, x: nat): (r: nat)
    requires b == 8 || b == 16
    ensures r <= x < r + b && (x >= b ==> r >= b)
  {
    if b == 16 then x / 16 * 16 else x / 8 * 8
  }

  /** What octet `j` of a text is combined with: what the register had left, and from there on the
      enciphered image of the block sent before. */
  function KeyOctet(c: Cipher, st: CfbState, sent: Bytes, j: nat): (r: Octet)
    requires ValidState(c, st) && j < |sent|
  {
    var x := c.blsize - st.remaining + j;
    if j < st.remaining then st.iv[x]
    else
      var at := BlockStart(c.blsize, x);
      c.enc(Chained(c, st, sent)[at - c.blsize..at], x - at)
  }

  /** What goes over the wire: the ciphertext, whichever side of the machine it is on. */
  function Sent(dir: Direction, s: Bytes, out: Bytes): (r: Bytes)
  {
    if dir.Encrypting? then out else s
  }

  /** The register between two octets: what was sent since the block boundary `at`, then what is
      left of the register that was enciphered there. */
  predicate RegisterIs(c: Cipher, st: CfbState, sent: Bytes, now: CfbState, at: nat)
    requires ValidState(c, st) && ValidState(c, now)
  {
    var chain := Chained(c, st, sent);
    Aligned(at, c.blsize) && at <= |chain| <= at + c.blsize && now.remaining == at + c.blsize - |chain|
    && (at > 0 ==> c.blsize <= at < |chain|)
    && now.iv == chain[at..] + KeyBlock(c, st, chain, at)[|chain| - at..]
  }

  function KeyBlock(c: Cipher, st: CfbState, chain: Bytes, at: nat): (r: Bytes)
    requires ValidState(c, st) && (at > 0 ==> c.blsize <= at <= |chain|)
    ensures |r| == c.blsize
  {
    if at == 0 then st.iv else Encipher(c, chain[at - c.blsize..at])
  }

  lemma StartOfBlock(b: nat, x: nat, at: nat)
    requires (b == 8 || b == 16) && Aligned(at, b) && at <= x < at + b
    ensures BlockStart(b, x) == at && Aligned(at + b, b) && (at > 0 ==> at >= b)
  {
    if b == 16 {
      RemainderUnique(x, 16, at / 16, x - at);
    } else {
      RemainderUnique(x, 8, at / 8, x - at);
    }
  }

  lemma AdvanceRegister(chain: Bytes, at: nat, e: Bytes, z: Octet)
    requires at <= |chain| < at + |e|
    ensures var o := |chain| - at;
            var register := chain[at..] + e[o..];
            register[o] == e[o] && register[o := z] == (chain + [z])[at..] + e[o + 1..]
  {
  }

  lemma ChainedSnoc(c: Cipher, st: CfbState, sent: Bytes, z: Octet)
    requires ValidState(c, st)
    ensures Chained(c, st, sent + [z]) == Chained(c, st, sent) + [z]
  {
  }

  /** The key block in use is the one the formula names. */
  lemma KeyIs(c: Cipher, st: CfbState, sent: Bytes, z: Octet, at: nat)
    requires ValidState(c, st) && Aligned(at, c.blsize) && at <= |Chained(c, st, sent)| < at + c.blsize
    ensures at > 0 ==> at >= c.blsize
    ensures KeyOctet(c, st, sent + [z], |sent|)
            == KeyBlock(c, st, Chained(c, st, sent), at)[|Chained(c, st, sent)| - at]
  {
    hide BlockStart;
    var chain := Chained(c, st, sent);
    ChainedSnoc(c, st, sent, z);
    StartOfBlock(c.blsize, |chain|, at);
    if at > 0 {
      SliceOfConcat(chain, [z], at - c.blsize, at);
    }
  }

  /** One octet more inside a block. */
  lemma InnerOctet(c: Cipher, dir: Direction, st: CfbState, sent: Bytes, now: CfbState, at: nat, x: Octet)
    requires ValidState(c, st) && ValidState(c, now) && RegisterIs(c, st, sent, now, at) && now.remaining > 0
    ensures var (now', y) := CfbOctet(c, dir, now, x);
            var more := sent + [if dir.Encrypting? then y else x];
            y == Xor(x, KeyOctet(c, st, more, |sent|)) && RegisterIs(c, st, more, now', at)
  {
    hide Xor, KeyOctet, Chained, Aligned, Encipher;
    var chain, y := Chained(c, st, sent), CfbOctet(c, dir, now, x).1;
    var z := if dir.Encrypting? then y else x;
    ChainedSnoc(c, st, sent, z);
    KeyIs(c, st, sent, z, at);
    AdvanceRegister(chain, at, KeyBlock(c, st, chain, at), z);
    SameKeyBlock(c, st, chain, z, at);
  }

  lemma SameKeyBlock(c: Cipher, st: CfbState, chain: Bytes, z: Octet, at: nat)
    requires ValidState(c, st) && (at > 0 ==> c.blsize <= at <= |chain|)
    ensures KeyBlock(c, st, chain + [z], at) == KeyBlock(c, st, chain, at)
  {
    hide Encipher;
    if at > 0 {
      SliceOfConcat(chain, [z], at - c.blsize, at);
    }
  }

  /** The first octet of a block: the register is enciphered first. */
  lemma BoundaryOctet(c: Cipher, dir: Direction, st: CfbState, sent: Bytes, now: CfbState, at: nat, x: Octet)
    requires ValidState(c, st) && ValidState(c, now) && RegisterIs(c, st, sent, now, at) && now.remaining == 0
    ensures var (now', y) := CfbOctet(c, dir, now, x);
            var more := sent + [if dir.Encrypting? then y else x];
            y == Xor(x, KeyOctet(c, st, more, |sent|)) && RegisterIs(c, st, more, now', at + c.blsize)
  {
    hide Xor, KeyOctet, Chained, Aligned, Encipher;
    var chain, y := Chained(c, st, sent), CfbOctet(c, dir, now, x).1;
    var next := at + c.blsize;
    var z := if dir.Encrypting? then y else x;
    assert now.iv == chain[at..next];
    StartOfBlock(c.blsize, at, at);
    ChainedSnoc(c, st, sent, z);
    KeyIs(c, st, sent, z, next);
    AdvanceRegister(chain, next, KeyBlock(c, st, chain, next), z);
    SameKeyBlock(c, st, chain, z, next);
    assert chain[next..] == [] && Encipher(c, now.iv)[0..] == Encipher(c, now.iv);
  }

  lemma KeyOctetGrows(c: Cipher, st: CfbState, sent: Bytes, z: Octet, j: nat)
    requires ValidState(c, st) && j < |sent|
    ensures KeyOctet(c, st, sent + [z], j) == KeyOctet(c, st, sent, j)
  {
    hide BlockStart, Chained;
    if j >= st.remaining {
      var chain, at := Chained(c, st, sent), BlockStart(c.blsize, c.blsize - st.remaining + j);
      assert Chained(c, st, sent + [z])[at - c.blsize..at] == chain[at - c.blsize..at] by {
        ChainedSnoc(c, st, sent, z);
        SliceOfConcat(chain, [z], at - c.blsize, at);
      }
    }
  }

  /** The output of a call in one formula: every octet is the exclusive or of the input octet and the
      key octet of its position. */
  predicate IsCfb(c: Cipher, dir: Direction, st: CfbState, s: Bytes, out: Bytes)
    requires ValidState(c, st)
  {
    |out| == |s| && forall j :: 0 <= j < |s| ==> out[j] == Xor(s[j], KeyOctet(c, st, Sent(dir, s, out), j))
  }

  lemma {:induction false} CfbInOctets(c: Cipher, dir: Direction, st: CfbState, s: Bytes) returns (at: nat)
    requires ValidState(c, st)
    ensures var r := Cfb(c, dir, st, s);
            IsCfb(c, dir, st, s, r.out) && RegisterIs(c, st, Sent(dir, s, r.out), r.state, at)
  {
    hide Xor, KeyOctet, CfbOctet, RegisterIs, IsCfb;
    if s == [] {
      at := 0;
      NothingSent(c, dir, st);
    } else {
      var n := |s| - 1;
      var init, x := s[..n], s[n];
      at := CfbInOctets(c, dir, st, init);
      var before := Cfb(c, dir, st, init);
      var sent, y := Sent(dir, init, before.out), CfbOctet(c, dir, before.state, x).1;
      if before.state.remaining == 0 {
        BoundaryOctet(c, dir, st, sent, before.state, at, x);
        at := at + c.blsize;
      } else {
        InnerOctet(c, dir, st, sent, before.state, at, x);
      }
      OneOctetMore(c, dir, st, init, before.out, x, y);
      assert s == init + [x];
    }
  }

  lemma CfbFormula(c: Cipher, dir: Direction, st: CfbState, s: Bytes)
    requires ValidState(c, st)
    ensures IsCfb(c, dir, st, s, Cfb(c, dir, st, s).out)
  {
    hide *;
    var _ := CfbInOctets(c, dir, st, s);
  }

  lemma OneOctetMore(c: Cipher, dir: Direction, st: CfbState, s: Bytes, out: Bytes, x: Octet, y: Octet)
    requires ValidState(c, st) && IsCfb(c, dir, st, s, out)
    requires y == Xor(x, KeyOctet(c, st, Sent(dir, s, out) + [if dir.Encrypting? then y else x], |s|))
    ensures IsCfb(c, dir, st, s + [x], out + [y])
    ensures Sent(dir, s + [x], out + [y]) == Sent(dir, s, out) + [if dir.Encrypting? then y else x]
  {
    hide Xor, KeyOctet;
    var sent, z := Sent(dir, s, out), if dir.Encrypting? then y else x;
    assert Sent(dir, s + [x], out + [y]) == sent + [z];
    forall j | 0 <= j < |s|
      ensures KeyOctet(c, st, sent + [z], j) == KeyOctet(c, st, sent, j)
    {
      KeyOctetGrows(c, st, sent, z, j);
    }
  }

  lemma NothingSent(c: Cipher, dir: Direction, st: CfbState)
    requires ValidState(c, st)
    ensures RegisterIs(c, st, Sent(dir, [], []), st, 0) && IsCfb(c, dir, st, [], [])
  {
    var used := c.blsize - st.remaining;
    Join(st.iv, used);
    assert Chained(c, st, []) == st.iv[..used];
  }

  // --- the cipher object ---

  const MAX_BLOCK_SIZE: nat := 16

  /** A store at the start leaves what is behind it. */
  lemma KeptBehind(o: Bytes, y: Bytes, n: nat)
    requires |y| <= n <= |o|
    ensures (y + o[|y|..])[|y|..n] == o[|y|..n]
  {
  }

  /** `pgp_crypt_t`. */
  class PgpCrypt {
    const cipher: Cipher
    const iv: array<Octet>
    var remaining: nat

    ghost predicate Valid()
      reads this, iv
    {
      cipher.blsize <= iv.Length && ValidState(cipher, State())
    }

    ghost function State(): CfbState
      requires cipher.blsize <= iv.Length
      reads this, iv
    {
      CfbState(iv[..cipher.blsize], remaining)
    }

    /** `pgp_cipher_start`: a null initial vector stays all zeros. */
    constructor (c: Cipher, initial: Option<Bytes>)
      requires c.blsize == 8 || c.blsize == 16
      requires initial.Some? ==> |initial.value| == c.blsize
      ensures Valid() && fresh(iv) && cipher == c
      ensures State() == CfbState(if initial.Some? then initial.value else seq(c.blsize, _ => 0), 0)
    {
      cipher := c;
      remaining := 0;
      iv := new Octet[MAX_BLOCK_SIZE](_ => 0);
      new;
      if initial.Some? {
        Store(iv, 0, initial.value);
      }
    }

    /** The byte loops before the first and after the last whole block. */
    method CryptOctets(dir: Direction, s: Bytes) returns (y: Bytes)
      requires Valid() && |s| <= remaining
      modifies this`remaining, iv
      ensures Valid() && remaining == old(remaining) - |s|
      ensures Cfb(cipher, dir, old(State()), s) == CfbRun(State(), y)
    {
      hide Xor, Encipher, Cfb;
      y := [];
      CfbEmpty(cipher, dir, State());
      for k := 0 to |s|
        invariant Valid() && remaining == old(remaining) - k
        invariant Cfb(cipher, dir, old(State()), s[..k]) == CfbRun(State(), y)
      {
        CfbSnoc(cipher, dir, old(State()), s, k);
        var at := cipher.blsize - remaining;
        var o := Xor(s[k], iv[at]);
        iv[at] := if dir.Encrypting? then o else s[k];
        y := y + [o];
        remaining := remaining - 1;
      }
      assert s[..|s|] == s;
    }

    /** The loop over whole blocks, 4 KiB at a time. */
    method CryptBlocks(dir: Direction, s: Bytes) returns (y: Bytes)
      requires Valid() && remaining == 0 && |s| < 0x1_0000_0000
      modifies iv
      ensures Valid() && |y| <= |s| < |y| + cipher.blsize
      ensures Cfb(cipher, dir, old(State()), s[..|y|]) == CfbRun(State(), y)
    {
      hide Encipher, Cfb, WholeBlocks;
      y := [];
      CfbEmpty(cipher, dir, State());
      var iv64 := iv[..cipher.blsize];
      var blocks := WholeBlocks(|s|, cipher.blsize);
      while blocks > 0
        invariant |y| <= |s| && blocks == WholeBlocks(|s| - |y|, cipher.blsize)
        invariant |iv64| == cipher.blsize
        invariant Cfb(cipher, dir, old(State()), s[..|y|]) == CfbRun(CfbState(iv64, 0), y)
        decreases |s| - |y|
      {
        if blocks > BATCH {
          blocks := BATCH;
        }
        var next := |y| + blocks;
        CfbExtend(cipher, dir, old(State()), s, |y|, next);
        var out;
        out, iv64 := CryptBatch(cipher, dir, s[|y|..next], iv64);
        y := y + out;
        blocks := WholeBlocks(|s| - next, cipher.blsize);
      }
      MaskLeaves(|s| - |y|, cipher.blsize);
      Store(iv, 0, iv64);
      assert iv[..cipher.blsize] == iv64;
    }

    /** `pgp_cipher_cfb_encrypt` and `pgp_cipher_cfb_decrypt`, which differ only in the octet fed
        back.  `out` and `src` may be the same buffer. */
    method Crypt(dir: Direction, out: array<Octet>, src: array<Octet>, bytes: nat)
      requires Valid() && bytes <= out.Length && bytes <= src.Length && out != iv && src != iv
      requires bytes < 0x1_0000_0000 + remaining
      modifies this`remaining, iv, out
      ensures Valid()
      ensures Cfb(cipher, dir, old(State()), old(src[..bytes])) == CfbRun(State(), out[..bytes])
      ensures IsCfb(cipher, dir, old(State()), old(src[..bytes]), out[..bytes])
      ensures out[bytes..] == old(out[bytes..])
    {
      hide Encipher, Cfb, IsCfb, Refill;
      ghost var s, st0, o0 := src[..bytes], State(), out[..];
      var k := if bytes < remaining then bytes else remaining;
      var y := CryptOctets(dir, src[..k]);
      assert src[..k] == s[..k];
      Store(out, 0, y);
      assert |y| == k;
      PrefixAndRest(y, o0[k..]);
      if k < bytes {
        KeptBehind(o0, y, bytes);
        if src == out {
          assert src[k..bytes] == src[..][k..bytes] == o0[k..bytes];
        }
        assert src[k..bytes] == s[k..bytes];
        CryptRest(dir, out, src, k, bytes);
        CfbExtend(cipher, dir, st0, s, k, bytes);
        TakeSlice(out[..], k, bytes);
      }
      assert s[..bytes] == s;
      CfbFormula(cipher, dir, st0, s);
    }

    /** The part of the call behind the first byte loop. */
    method CryptRest(dir: Direction, out: array<Octet>, src: array<Octet>, k: nat, bytes: nat)
      requires Valid() && remaining == 0 && k < bytes < 0x1_0000_0000 + k
      requires bytes <= out.Length && bytes <= src.Length && out != iv && src != iv
      modifies this`remaining, iv, out
      ensures Valid()
      ensures Cfb(cipher, dir, old(State()), old(src[k..bytes])) == CfbRun(State(), out[k..bytes])
      ensures out[..k] == old(out[..k]) && out[bytes..] == old(out[bytes..])
    {
      hide Encipher, Cfb;
      ghost var o0 := out[..];
      var rest := CryptAligned(dir, src[k..bytes]);
      Store(out, k, rest);
      assert |rest| == bytes - k;
      MiddleAndRest(o0[..k], rest, o0[bytes..]);
    }

    /** What follows the first byte loop: whole blocks when more than one block is left, then
        the tail with a freshly enciphered register. */
    method CryptAligned(dir: Direction, s: Bytes) returns (y: Bytes)
      requires Valid() && remaining == 0 && 0 < |s| < 0x1_0000_0000
      modifies this`remaining, iv
      ensures Valid()
      ensures Cfb(cipher, dir, old(State()), s) == CfbRun(State(), y)
    {
      hide Encipher, Cfb;
      y := [];
      CfbEmpty(cipher, dir, State());
      if |s| > cipher.blsize {
        y := CryptBlocks(dir, s);
        if |y| == |s| {
          assert s[..|y|] == s;
          return;
        }
      }
      ghost var st := State();
      var tail := s[|y|..];
      CfbExtend(cipher, dir, old(State()), s, |y|, |s|);
      CfbRefill(cipher, dir, st, tail);
      var e := Encipher(cipher, iv[..cipher.blsize]);
      Store(iv, 0, e);
      remaining := cipher.blsize;
      assert iv[..cipher.blsize] == e;
      assert State() == Refill(cipher, st);
      var out := CryptOctets(dir, tail);
      assert s[..|s|] == s;
      y := y + out;
    }
  }
}
