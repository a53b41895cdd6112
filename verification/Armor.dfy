/** Radix-64 and the line breaker of src/lib/writer.c (section 6.3 of RFC 4880), and the
    base64 decoder of src/librekey/key_store_ssh.c. */
module Armor {
  import opened Octets
  import ClearSign

  type Sextet = x: int | 0 <= x < 64

  const PAD: Octet := 61

  // --- the alphabet ---

  /** `b64map`. */
  function MapChar(x: Sextet): (c: Octet)
  {
    if x < 26 then 65 + x else if x < 52 then 71 + x else if x < 62 then x - 4 else if x == 62 then 43 else 47
  }

  /** `base64s`: one more than the value of an alphabet octet, zero for any other. */
  function Table(c: Octet): (b: Octet)
    ensures b <= 64
  {
    if 65 <= c <= 90 then c - 64
    else if 97 <= c <= 122 then c - 70
    else if 48 <= c <= 57 then c + 5
    else if c == 43 then 63
    else if c == 47 then 64
    else 0
  }

  lemma TableInvertsMap(x: Sextet)
    ensures Table(MapChar(x)) == x + 1 && MapChar(x) != CR && MapChar(x) != LF && MapChar(x) != PAD
  {
  }

  function MapChars(xs: seq<Sextet>): (r: Bytes)
    ensures |r| == |xs|
  {
    if xs == [] then [] else MapChars(xs[..|xs| - 1]) + [MapChar(xs[|xs| - 1])]
  }

  // --- the encoding of a whole string ---

  // the four sextets of three octets
  function S0(a: Octet): Sextet { a / 4 }
  function S1(a: Octet, b: Octet): Sextet { a % 4 * 16 + b / 16 }
  function S2(b: Octet, c: Octet): Sextet { b % 16 * 4 + c / 64 }
  function S3(c: Octet): Sextet { c % 64 }

  function Group(a: Octet, b: Octet, c: Octet): (r: seq<Sextet>)
    ensures |r| == 4
  {
    [S0(a), S1(a, b), S2(b, c), S3(c)]
  }

  function Sextets(s: Bytes): (r: seq<Sextet>)
    decreases |s|
  {
    if s == [] then []
    else if |s| == 1 then [S0(s[0]), S1(s[0], 0)]
    else if |s| == 2 then [S0(s[0]), S1(s[0], s[1]), S2(s[1], 0)]
    else Group(s[0], s[1], s[2]) + Sextets(s[3..])
  }

  function Padding(n: nat): (r: Bytes)
  {
    if n % 3 == 1 then [PAD, PAD] else if n % 3 == 2 then [PAD] else []
  }

  function Encode(s: Bytes): (r: Bytes)
  {
    MapChars(Sextets(s)) + Padding(|s|)
  }

  // --- the streaming encoder ---

  /** `base64_t` without the checksum. */
  datatype Base64 = Base64(pos: nat, t: Sextet)

  predicate ValidBase64(b: Base64)
  {
    b.pos == 0 || (b.pos == 1 && b.t % 16 == 0) || (b.pos == 2 && b.t % 4 == 0)
  }

  function Step64(b: Base64, x: Octet): (r: (Base64, seq<Sextet>))
    requires ValidBase64(b)
    ensures ValidBase64(r.0)
  {
    if b.pos == 0 then (Base64(1, x % 4 * 16), [x / 4])
    else if b.pos == 1 then (Base64(2, x % 16 * 4), [b.t + x / 16])
    else (Base64(0, b.t + x / 64), [b.t + x / 64, x % 64])
  }

  function Run64(b: Base64, s: Bytes): (r: (Base64, seq<Sextet>))
    requires ValidBase64(b)
    ensures ValidBase64(r.0)
  {
    if s == [] then (b, [])
    else
      var before := Run64(b, s[..|s| - 1]);
      var last := Step64(before.0, s[|s| - 1]);
      (last.0, before.1 + last.1)
  }

  lemma Run64Grow(b: Base64, s: Bytes, c: Octet)
    requires ValidBase64(b)
    ensures var before := Run64(b, s);
            var last := Step64(before.0, c);
            Run64(b, s + [c]) == (last.0, before.1 + last.1)
  {
    hide Step64;
    assert (s + [c])[..|s|] == s;
  }

  lemma {:induction false} Run64Concat(b: Base64, x: Bytes, y: Bytes)
    requires ValidBase64(b)
    ensures var rx := Run64(b, x);
            var ry := Run64(rx.0, y);
            Run64(b, x + y) == (ry.0, rx.1 + ry.1)
  {
    hide Step64;
    var rx := Run64(b, x);
    if y == [] {
      assert x + y == x && rx.1 + [] == rx.1;
    } else {
      var init, c := y[..|y| - 1], y[|y| - 1];
      Run64Concat(b, x, init);
      Assoc(x, init, [c]);
      assert y == init + [c];
      Run64Grow(b, x + init, c);
      var ri := Run64(rx.0, init);
      Assoc(rx.1, ri.1, Step64(ri.0, c).1);
    }
  }

  function Pending(b: Base64): seq<Sextet>
  {
    if b.pos == 0 then [] else [b.t]
  }

  lemma RunA(t: Sextet, a: Octet)
    ensures var r := Run64(Base64(0, t), [a]);
            r.0 == Base64(1, S1(a, 0)) && r.1 == [S0(a)]
  {
    var start := Base64(0, t);
    EmptyRun64(start);
    hide Run64;
    Run64Grow(start, [], a);
    assert [] + [a] == [a];
  }

  lemma RunAB(t: Sextet, a: Octet, b: Octet)
    ensures var r := Run64(Base64(0, t), [a, b]);
            r.0 == Base64(2, S2(b, 0)) && r.1 == [S0(a), S1(a, b)]
  {
    hide Run64;
    RunA(t, a);
    Run64Grow(Base64(0, t), [a], b);
    assert [a] + [b] == [a, b];
  }

  lemma RunABC(t: Sextet, a: Octet, b: Octet, c: Octet)
    ensures var r := Run64(Base64(0, t), [a, b, c]);
            r.0 == Base64(0, S2(b, c)) && r.1 == Group(a, b, c)
  {
    hide Run64;
    RunAB(t, a, b);
    Run64Grow(Base64(0, t), [a, b], c);
    assert [a, b] + [c] == [a, b, c];
  }

  lemma SextetsSmall(a: Octet, b: Octet, c: Octet)
    ensures Sextets([a]) == [S0(a)] + [S1(a, 0)]
    ensures Sextets([a, b]) == [S0(a), S1(a, b)] + [S2(b, 0)]
    ensures Sextets([a, b, c]) == Group(a, b, c) + []
  {
    hide S0, S1, S2, S3;
    assert [a, b, c][3..] == [] && Sextets([]) == [];
  }

  lemma Run64One(t: Sextet, s: Bytes)
    requires 1 <= |s| <= 3
    ensures var r := Run64(Base64(0, t), s);
            r.1 + Pending(r.0) == Sextets(s) && r.0.pos == |s| % 3
  {
    hide Run64, Sextets, Group, S0, S1, S2, S3;
    Listed(s);
    if |s| == 1 {
      RunA(t, s[0]);
      SextetsSmall(s[0], 0, 0);
    } else if |s| == 2 {
      RunAB(t, s[0], s[1]);
      SextetsSmall(s[0], s[1], 0);
    } else {
      RunABC(t, s[0], s[1], s[2]);
      SextetsSmall(s[0], s[1], s[2]);
    }
  }

  /** What the encoder has emitted, with its pending bits flushed, is the encoding so far. */
  lemma {:induction false} RunEncodes(t: Sextet, s: Bytes)
    ensures var r := Run64(Base64(0, t), s);
            r.1 + Pending(r.0) == Sextets(s) && r.0.pos == |s| % 3
    decreases |s|
  {
    hide Step64;
    if 1 <= |s| <= 3 {
      Run64One(t, s);
    } else if |s| > 3 {
      hide Run64;
      Run64One(t, s[..3]);
      var first := Run64(Base64(0, t), s[..3]);
      Run64Concat(Base64(0, t), s[..3], s[3..]);
      Join(s, 3);
      RunEncodes(first.0.t, s[3..]);
      var rest := Run64(first.0, s[3..]);
      FirstGroup(s);
      Assoc(first.1, rest.1, Pending(rest.0));
      assert first.1 + [] == first.1;
    }
  }

  lemma FirstGroup(s: Bytes)
    requires |s| > 3
    ensures Sextets(s) == Sextets(s[..3]) + Sextets(s[3..])
  {
    hide Group;
    var g := s[..3];
    assert g[3..] == [] && Sextets([]) == [];
    assert Group(g[0], g[1], g[2]) + [] == Group(s[0], s[1], s[2]);
  }

  // --- the line breaker ---

  const BREAKPOS: nat := 76

  function StepBreak(pos: nat, c: Octet): (r: (nat, Bytes))
  {
    var p := if c == CR || c == LF then 0 else pos;
    if p == BREAKPOS then (1, CRLF + [c]) else (p + 1, [c])
  }

  function RunBreak(pos: nat, s: Bytes): (r: (nat, Bytes))
  {
    if s == [] then (pos, [])
    else
      var before := RunBreak(pos, s[..|s| - 1]);
      var last := StepBreak(before.0, s[|s| - 1]);
      (last.0, before.1 + last.1)
  }

  lemma RunBreakGrow(pos: nat, s: Bytes, c: Octet)
    ensures var before := RunBreak(pos, s);
            var last := StepBreak(before.0, c);
            RunBreak(pos, s + [c]) == (last.0, before.1 + last.1)
  {
    hide StepBreak;
    assert (s + [c])[..|s|] == s;
  }

  lemma {:induction false} RunBreakConcat(pos: nat, x: Bytes, y: Bytes)
    ensures var rx := RunBreak(pos, x);
            var ry := RunBreak(rx.0, y);
            RunBreak(pos, x + y) == (ry.0, rx.1 + ry.1)
  {
    hide StepBreak;
    var rx := RunBreak(pos, x);
    if y == [] {
      assert x + y == x && rx.1 + [] == rx.1;
    } else {
      var init, c := y[..|y| - 1], y[|y| - 1];
      RunBreakConcat(pos, x, init);
      Assoc(x, init, [c]);
      assert y == init + [c];
      RunBreakGrow(pos, x + init, c);
      var ri := RunBreak(rx.0, init);
      Assoc(rx.1, ri.1, StepBreak(ri.0, c).1);
    }
  }

  /** A text cut into lines of 76 octets. */
  function Broken(s: Bytes): (r: Bytes)
    decreases |s|
  {
    if |s| <= BREAKPOS then s else s[..BREAKPOS] + CRLF + Broken(s[BREAKPOS..])
  }

  lemma {:induction false} RunShort(pos: nat, s: Bytes)
    requires pos + |s| <= BREAKPOS && ClearSign.Clean(s)
    ensures RunBreak(pos, s) == (pos + |s|, s)
  {
    if s != [] {
      var init, c := s[..|s| - 1], s[|s| - 1];
      assert !ClearSign.IsEol(c);
      RunShort(pos, init);
      assert s == init + [c];
      hide RunBreak;
      RunBreakGrow(pos, init, c);
    }
  }

  lemma RunBreakOne(pos: nat, c: Octet)
    ensures RunBreak(pos, [c]) == StepBreak(pos, c)
  {
    hide StepBreak;
    RunBreakGrow(pos, [], c);
    assert [] + [c] == [c] && [] + StepBreak(pos, c).1 == StepBreak(pos, c).1;
  }

  lemma BreakHere(s: Bytes)
    requires s != [] && ClearSign.Clean(s)
    ensures var r := RunBreak(0, s);
            RunBreak(BREAKPOS, s) == (r.0, CRLF + r.1)
  {
    hide RunBreak;
    var c, rest := s[0], s[1..];
    assert s == [c] + rest;
    RunBreakConcat(0, [c], rest);
    RunBreakConcat(BREAKPOS, [c], rest);
    RunBreakOne(0, c);
    RunBreakOne(BREAKPOS, c);
    assert !ClearSign.IsEol(c);
    Assoc(CRLF, [c], RunBreak(1, rest).1);
  }

  lemma {:induction false} RunBreaks(s: Bytes)
    requires ClearSign.Clean(s)
    ensures RunBreak(0, s).1 == Broken(s)
    decreases |s|
  {
    if |s| <= BREAKPOS {
      RunShort(0, s);
    } else {
      hide RunBreak;
      var line, rest := s[..BREAKPOS], s[BREAKPOS..];
      RunShort(0, line);
      RunBreakConcat(0, line, rest);
      Join(s, BREAKPOS);
      BreakHere(rest);
      RunBreaks(rest);
      Assoc(line, CRLF, Broken(rest));
    }
  }

  // --- the two writers, one stacked on the other ---

  /** The state of `pgp_writer_push_armored`: a base64 writer over a line-breaking writer. */
  class ArmorWriter {
    var pos: nat
    var t: Sextet
    var column: nat // linebreak_t.pos
    var next: Bytes

    predicate Valid()
      reads this
    {
      ValidBase64(Base64(pos, t))
    }

    constructor ()
      ensures Valid() && pos == 0 && t == 0 && column == 0 && next == []
    {
      pos, t, column, next := 0, 0, 0, [];
    }

    /** `linebreak_writer`. */
    method LineBreakWrite(src: Bytes)
      modifies this`column, this`next
      ensures var r := RunBreak(old(column), src);
              column == r.0 && next == old(next) + r.1
    {
      ghost var p0, o0 := column, next;
      assert o0 + [] == o0;
      for n := 0 to |src|
        invariant var r := RunBreak(p0, src[..n]);
                  column == r.0 && next == o0 + r.1
      {
        TakeSnoc(src, n);
        ghost var r := RunBreak(p0, src[..n]);
        Assoc(o0, r.1, StepBreak(r.0, src[n]).1);
        ghost var before := next;
        if src[n] == CR || src[n] == LF {
          column := 0;
        }
        if column == BREAKPOS {
          Assoc(before, CRLF, [src[n]]);
          next := next + CRLF;
          column := 0;
        }
        next := next + [src[n]];
        column := column + 1;
      }
      assert src[..|src|] == src;
    }

    /** One character of the alphabet to the writer below. */
    method WriteChar(x: Sextet)
      modifies this`column, this`next
      ensures var r := RunBreak(old(column), MapChars([x]));
              column == r.0 && next == old(next) + r.1
    {
      hide *;
      OneChar(x);
      LineBreakWrite([MapChar(x)]);
    }

    /** One turn of the loop of `base64_writer`. */
    method Base64Octet(x: Octet)
      requires Valid()
      modifies this
      ensures Valid()
      ensures var s := Step64(old(Base64(pos, t)), x);
              var r := RunBreak(old(column), MapChars(s.1));
              Base64(pos, t) == s.0 && column == r.0 && next == old(next) + r.1
    {
      hide RunBreak, MapChar, MapChars;
      if pos == 0 {
        WriteChar(x / 4);
        t := x % 4 * 16;
        pos := 1;
      } else if pos == 1 {
        t := t + x / 16;
        WriteChar(t);
        t := x % 16 * 4;
        pos := 2;
      } else {
        t := t + x / 64;
        LastOfGroup(x % 64);
        pos := 0;
      }
    }

    /** The two characters that end a group. */
    method LastOfGroup(last: Sextet)
      modifies this`column, this`next
      ensures var r := RunBreak(old(column), MapChars([t, last]));
              column == r.0 && next == old(next) + r.1
    {
      hide RunBreak, MapChar, MapChars;
      ghost var a, b, c0, n0 := MapChars([t]), MapChars([last]), column, next;
      MapCharsConcat([t], [last]);
      RunBreakConcat(c0, a, b);
      Assoc(n0, RunBreak(c0, a).1, RunBreak(RunBreak(c0, a).0, b).1);
      assert [t] + [last] == [t, last];
      WriteChar(t);
      WriteChar(last);
    }

    /** `base64_writer`. */
    method Write(src: Bytes)
      requires Valid()
      modifies this
      ensures Valid()
      ensures var s := Run64(old(Base64(pos, t)), src);
              var r := RunBreak(old(column), MapChars(s.1));
              Base64(pos, t) == s.0 && column == r.0 && next == old(next) + r.1
    {
      hide RunBreak, Step64;
      ghost var b0, p0, o0 := Base64(pos, t), column, next;
      NoChars(p0);
      assert o0 + [] == o0;
      for n := 0 to |src|
        invariant Valid()
        invariant var s := Run64(b0, src[..n]);
                  var r := RunBreak(p0, MapChars(s.1));
                  Base64(pos, t) == s.0 && column == r.0 && next == o0 + r.1
      {
        TakeSnoc(src, n);
        ghost var s := Run64(b0, src[..n]);
        ghost var more := Step64(s.0, src[n]).1;
        MapCharsConcat(s.1, more);
        RunBreakConcat(p0, MapChars(s.1), MapChars(more));
        Assoc(o0, RunBreak(p0, MapChars(s.1)).1, RunBreak(column, MapChars(more)).1);
        Base64Octet(src[n]);
      }
      assert src[..|src|] == src;
    }

    /** The part of `armored_message_finaliser` that ends the data: pending bits and padding. */
    method FinishData()
      requires Valid() && pos <= 2
      modifies this
      ensures var r := RunBreak(old(column), MapChars(Pending(old(Base64(pos, t)))) + Padding(old(pos)));
              column == r.0 && next == old(next) + r.1
    {
      hide RunBreak;
      NoChars(column);
      assert next + [] == next;
      if pos != 0 {
        ghost var c, pad := [MapChar(t)], Padding(pos);
        OneChar(t);
        RunBreakConcat(column, c, pad);
        Assoc(next, RunBreak(column, c).1, RunBreak(RunBreak(column, c).0, pad).1);
        LineBreakWrite([MapChar(t)]);
        if pos == 1 {
          LineBreakWrite([PAD, PAD]);
        }
        if pos == 2 {
          LineBreakWrite([PAD]);
        }
      }
    }
  }

  lemma OneChar(x: Sextet)
    ensures MapChars([x]) == [MapChar(x)]
  {
    assert [x][..0] == [];
  }

  lemma NoChars(pos: nat)
    ensures MapChars([]) == [] && RunBreak(pos, []) == (pos, []) && RunBreak(pos, [] + []) == (pos, [])
  {
  }

  lemma {:induction false} MapCharsConcat(x: seq<Sextet>, y: seq<Sextet>)
    ensures MapChars(x + y) == MapChars(x) + MapChars(y)
  {
    hide MapChar;
    if y == [] {
      assert x + y == x;
    } else {
      var xy := x + y;
      assert xy[..|xy| - 1] == x + y[..|y| - 1];
      MapCharsConcat(x, y[..|y| - 1]);
    }
  }

  lemma {:induction false} MapCharsClean(x: seq<Sextet>)
    ensures ClearSign.Clean(MapChars(x))
  {
    if x != [] {
      MapCharsClean(x[..|x| - 1]);
      TableInvertsMap(x[|x| - 1]);
    }
  }

  lemma EncodeClean(s: Bytes)
    ensures ClearSign.Clean(Encode(s))
  {
    hide MapChars, Sextets;
    MapCharsClean(Sextets(s));
    CleanConcat(MapChars(Sextets(s)), Padding(|s|));
  }

  lemma CleanConcat(a: Bytes, b: Bytes)
    requires ClearSign.Clean(a) && ClearSign.Clean(b)
    ensures ClearSign.Clean(a + b)
  {
  }

  /** Whatever the split into writes, the data of an armored message is the encoding of the
      whole string broken into lines of 76. */
  method ArmorSession(writes: seq<Bytes>) returns (out: Bytes)
    ensures out == Broken(Encode(Flatten(writes))) && IsArmor(Flatten(writes), out)
  {
    hide RunBreak, Run64, Encode, MapChars, Broken, IsArmor;
    var w := new ArmorWriter();
    ghost var b0 := Base64(0, 0);
    NoChars(0);
    assert Run64(b0, []) == (b0, []) by { EmptyRun64(b0); }
    for i := 0 to |writes|
      invariant fresh(w) && w.Valid()
      invariant var s := Run64(b0, Flatten(writes[..i]));
                Base64(w.pos, w.t) == s.0 && (w.column, w.next) == RunBreak(0, MapChars(s.1))
    {
      TakeSnoc(writes, i);
      ghost var s := Run64(b0, Flatten(writes[..i]));
      ghost var more := Run64(s.0, writes[i]).1;
      Run64Concat(b0, Flatten(writes[..i]), writes[i]);
      MapCharsConcat(s.1, more);
      RunBreakConcat(0, MapChars(s.1), MapChars(more));
      w.Write(writes[i]);
    }
    assert writes[..|writes|] == writes;
    ghost var text := Flatten(writes);
    ghost var s := Run64(b0, text);
    RunEncodes(0, text);
    SessionText(text, s.0, s.1);
    EncodeClean(text);
    RunBreakConcat(0, MapChars(s.1), MapChars(Pending(s.0)) + Padding(s.0.pos));
    RunBreaks(Encode(text));
    ArmorInCharacters(text);
    w.FinishData();
    out := w.next;
  }

  lemma EmptyRun64(b: Base64)
    requires ValidBase64(b)
    ensures Run64(b, []) == (b, [])
  {
  }

  lemma SessionText(text: Bytes, b: Base64, x: seq<Sextet>)
    requires x + Pending(b) == Sextets(text) && b.pos == |text| % 3
    ensures MapChars(x) + (MapChars(Pending(b)) + Padding(b.pos)) == Encode(text)
  {
    hide MapChars, Sextets;
    MapCharsConcat(x, Pending(b));
    Assoc(MapChars(x), MapChars(Pending(b)), Padding(b.pos));
  }

  // --- the encoding, character by character ---

  /** The alphabet of table 6-1 of RFC 4880. */
  function Letter(x: Sextet): (c: Octet)
  {
    if x <= 25 then 'A' as int + x
    else if x <= 51 then 'a' as int + (x - 26)
    else if x <= 61 then '0' as int + (x - 52)
    else if x == 62 then '+' as int
    else '/' as int
  }

  lemma LetterIs(x: Sextet)
    ensures MapChar(x) == Letter(x)
  {
  }

  /** The decoder takes exactly the letters. */
  lemma TableIs(c: Octet, x: Sextet)
    ensures Table(Letter(x)) == x + 1
    ensures Table(c) > 0 ==> Letter(Table(c) - 1) == c
  {
  }

  /** Character `i` of the encoding: six bits of a group of three octets, or the pad character where the
      group has none. */
  function CharAt(s: Bytes, i: nat): (c: Octet)
    requires i < (|s| + 2) / 3 * 4
  {
    var q := i / 4 * 3;
    var a: int, b: int := s[q], if q + 1 < |s| then s[q + 1] else 0;
    var c: int := if q + 2 < |s| then s[q + 2] else 0;
    if i % 4 == 0 then Letter(a / 4)
    else if i % 4 == 1 then Letter(a % 4 * 16 + b / 16)
    else if i % 4 == 2 then if q + 1 < |s| then Letter(b % 16 * 4 + c / 64) else '=' as int
    else if q + 2 < |s| then Letter(c % 64) else '=' as int
  }

  predicate IsRadix64(s: Bytes, e: Bytes)
  {
    |e| == (|s| + 2) / 3 * 4 && forall i :: 0 <= i < |e| ==> e[i] == CharAt(s, i)
  }

  lemma {:induction false} EncodeInCharacters(s: Bytes)
    ensures IsRadix64(s, Encode(s))
    decreases |s|
  {
    if |s| <= 3 {
      OneGroup(s);
    } else {
      hide *;
      OneGroup(s[..3]);
      EncodeInCharacters(s[3..]);
      EncodeSplit(s);
      GroupsJoin(s, Encode(s[..3]), Encode(s[3..]));
    }
  }

  lemma GroupsJoin(s: Bytes, a: Bytes, b: Bytes)
    requires |s| > 3 && IsRadix64(s[..3], a) && IsRadix64(s[3..], b)
    ensures IsRadix64(s, a + b)
  {
    hide CharAt;
    var e := a + b;
    forall i | 0 <= i < |e|
      ensures i < (|s| + 2) / 3 * 4 && e[i] == CharAt(s, i)
    {
      if i < 4 {
        FirstChar(s, i);
      } else {
        LaterChar(s, i);
      }
    }
  }

  lemma FirstChar(s: Bytes, i: nat)
    requires |s| > 3 && i < 4
    ensures CharAt(s, i) == CharAt(s[..3], i)
  {
    hide Letter;
  }

  lemma LaterChar(s: Bytes, i: nat)
    requires |s| > 3 && 4 <= i < (|s| + 2) / 3 * 4
    ensures CharAt(s, i) == CharAt(s[3..], i - 4)
  {
    hide Letter;
  }

  lemma EncodeSplit(s: Bytes)
    requires |s| > 3
    ensures Encode(s) == Encode(s[..3]) + Encode(s[3..])
  {
    hide MapChars, Sextets;
    FirstGroup(s);
    MapCharsConcat(Sextets(s[..3]), Sextets(s[3..]));
    Assoc(MapChars(Sextets(s[..3])), MapChars(Sextets(s[3..])), Padding(|s|));
    assert Padding(|s[..3]|) == [] && MapChars(Sextets(s[..3])) + [] == MapChars(Sextets(s[..3]));
  }

  lemma OneGroup(s: Bytes)
    requires |s| <= 3
    ensures IsRadix64(s, Encode(s))
  {
    hide MapChar, MapChars, Sextets;
    Listed(s);
    if s == [] {
      assert Sextets(s) == [] && MapChars([]) == [] by { NoSextets(); }
    } else {
      SextetsSmall(s[0], if |s| > 1 then s[1] else 0, if |s| > 2 then s[2] else 0);
      MapCharsAt(Sextets(s));
      forall x: Sextet
        ensures MapChar(x) == Letter(x)
      {
        LetterIs(x);
      }
    }
  }

  lemma NoSextets()
    ensures Sextets([]) == [] && MapChars([]) == []
  {
  }

  lemma {:induction false} MapCharsAt(xs: seq<Sextet>)
    ensures forall i :: 0 <= i < |xs| ==> MapChars(xs)[i] == MapChar(xs[i])
  {
    hide MapChar;
    if xs != [] {
      MapCharsAt(xs[..|xs| - 1]);
    }
  }

  /** The lines of a broken text, put together, are the text. */
  lemma {:induction false} LinesOfBroken(s: Bytes)
    requires ClearSign.Clean(s)
    ensures Flatten(ClearSign.Lines(Broken(s))) == s
    decreases |s|
  {
    if |s| <= BREAKPOS {
      ClearSign.FirstEolAt(s, []);
      assert s + [] == s;
      FlattenFirst([s]);
    } else {
      hide ClearSign.Lines, Broken;
      var line, rest := s[..BREAKPOS], s[BREAKPOS..];
      LinesOfBroken(rest);
      BrokenStep(s);
      FirstLineOf(line, Broken(rest));
      var tail := ClearSign.Lines(Broken(rest));
      FlattenFirst([line] + tail);
      assert ([line] + tail)[1..] == tail;
      Join(s, BREAKPOS);
    }
  }

  lemma {:induction false} BrokenPairs(s: Bytes)
    requires ClearSign.Clean(s)
    ensures ClearSign.Paired(Broken(s)) && !ClearSign.EndsInCr(Broken(s))
    ensures s != [] ==> Broken(s)[0] != 10
    decreases |s|
  {
    if |s| <= BREAKPOS {
      assert ClearSign.Clean(s);
    } else {
      hide Broken;
      BrokenPairs(s[BREAKPOS..]);
      BrokenStep(s);
      ClearSign.PairsJoin(s[..BREAKPOS], Broken(s[BREAKPOS..]));
    }
  }

  /** A text of lines of 76 characters, CR LF between them, that hold the encoding of `s`. */
  predicate IsArmor(s: Bytes, text: Bytes)
  {
    var lines := ClearSign.Lines(text);
    IsRadix64(s, Flatten(lines)) && ClearSign.Paired(text)
    && |lines[|lines| - 1]| <= 76 && forall i :: 0 <= i < |lines| - 1 ==> |lines[i]| == 76
  }

  lemma ArmorInCharacters(s: Bytes)
    ensures IsArmor(s, Broken(Encode(s)))
  {
    hide Encode, Broken, IsRadix64, ClearSign.Lines, ClearSign.Paired;
    EncodeClean(s);
    EncodeInCharacters(s);
    LinesOfBroken(Encode(s));
    BrokenPairs(Encode(s));
    BrokenLines(Encode(s));
  }

  // --- no line is longer than 76 ---

  /** Every line but the last has 76 octets, and the last at most 76. */
  predicate FullLines(lines: seq<Bytes>)
  {
    lines != [] && |lines[|lines| - 1]| <= BREAKPOS
    && forall i :: 0 <= i < |lines| - 1 ==> |lines[i]| == BREAKPOS
  }

  lemma MoreFullLines(line: Bytes, lines: seq<Bytes>)
    requires |line| == BREAKPOS && FullLines(lines)
    ensures FullLines([line] + lines)
  {
  }

  lemma {:induction false} BrokenLines(s: Bytes)
    requires ClearSign.Clean(s)
    ensures FullLines(ClearSign.Lines(Broken(s)))
    decreases |s|
  {
    if |s| <= BREAKPOS {
      ClearSign.FirstEolAt(s, []);
      assert s + [] == s;
    } else {
      hide ClearSign.Lines, Broken, FullLines;
      var line, rest := s[..BREAKPOS], s[BREAKPOS..];
      BrokenLines(rest);
      BrokenStep(s);
      FirstLineOf(line, Broken(rest));
      MoreFullLines(line, ClearSign.Lines(Broken(rest)));
    }
  }

  lemma FirstLineOf(line: Bytes, rest: Bytes)
    requires ClearSign.Clean(line)
    ensures ClearSign.Lines(line + CRLF + rest) == [line] + ClearSign.Lines(rest)
  {
    hide ClearSign.FirstEol, ClearSign.Lines;
    var text := line + CRLF + rest;
    ClearSign.FirstEolAt(line, CRLF + rest);
    Assoc(line, CRLF, rest);
    MiddleAndRest(line, CRLF, rest);
    PrefixAndRest(line, CRLF + rest);
    ClearSign.LinesStep(text);
  }

  lemma BrokenStep(s: Bytes)
    requires |s| > BREAKPOS
    ensures Broken(s) == s[..BREAKPOS] + CRLF + Broken(s[BREAKPOS..])
  {
  }

  // --- the decoder of key_store_ssh.c ---

  function Symbol(c: Octet): (r: seq<Sextet>)
    ensures |r| <= 1
  {
    if Table(c) == 0 then [] else [Table(c) - 1]
  }

  /** The sextets of the alphabet octets of a text, in order. */
  function Symbols(s: Bytes): (r: seq<Sextet>)
  {
    if s == [] then [] else Symbols(s[..|s| - 1]) + Symbol(s[|s| - 1])
  }

  /** The sextets the decoder counts: those with at least one more octet after them. */
  function Counted(s: Bytes): (r: seq<Sextet>)
  {
    if s == [] then [] else Symbols(s[..|s| - 1])
  }

  function D0(a: Sextet, b: Sextet): Octet { a * 4 + b / 16 }
  function D1(b: Sextet, c: Sextet): Octet { b * 16 % 256 + c / 4 }
  function D2(c: Sextet, d: Sextet): Octet { c * 64 % 256 + d }

  function DecodeGroups(x: seq<Sextet>): (r: Bytes)
    decreases |x|
  {
    if |x| <= 1 then []
    else if |x| == 2 then [D0(x[0], x[1])]
    else if |x| == 3 then [D0(x[0], x[1]), D1(x[1], x[2])]
    else [D0(x[0], x[1]), D1(x[1], x[2]), D2(x[2], x[3])] + DecodeGroups(x[4..])
  }

  lemma {:induction false} SymbolsConcat(a: Bytes, b: Bytes)
    ensures Symbols(a + b) == Symbols(a) + Symbols(b)
  {
    hide Symbol;
    if b == [] {
      assert a + b == a && Symbols(a) + [] == Symbols(a);
    } else {
      var init, c := b[..|b| - 1], b[|b| - 1];
      SymbolsConcat(a, init);
      assert (a + b)[..|a + b| - 1] == a + init;
      Assoc(Symbols(a), Symbols(init), Symbol(c));
    }
  }

  lemma SymbolsFirst(s: Bytes)
    requires s != []
    ensures Symbols(s) == Symbol(s[0]) + Symbols(s[1..])
  {
    hide Symbol;
    Join(s, 1);
    assert s[..1] == [s[0]] && [s[0]][..0] == [];
    SymbolsConcat(s[..1], s[1..]);
    assert [] + Symbol(s[0]) == Symbol(s[0]);
  }

  lemma CountedFirst(s: Bytes)
    requires s != []
    ensures Counted(s) == if |s| == 1 then [] else Symbol(s[0]) + Counted(s[1..])
  {
    hide Symbol, Symbols;
    var init := s[..|s| - 1];
    if |s| == 1 {
      assert init == [];
      NoSymbols();
    } else {
      SymbolsFirst(init);
      assert init[1..] == s[1..][..|s| - 2];
    }
  }

  lemma NoSymbols()
    ensures Symbols([]) == []
  {
  }

  lemma DecodeFirst(g: seq<Sextet>, x: seq<Sextet>)
    requires |g| == 4
    ensures DecodeGroups(g + x) == [D0(g[0], g[1]), D1(g[1], g[2]), D2(g[2], g[3])] + DecodeGroups(x)
  {
    hide D0, D1, D2;
    assert (g + x)[4..] == x;
  }

  /** Up to four sextets of one round of the outer loop, with what they decode to. */
  function Round(g: seq<Sextet>): (r: Bytes)
    requires |g| <= 4
  {
    if |g| <= 1 then []
    else if |g| == 2 then [D0(g[0], g[1])]
    else if |g| == 3 then [D0(g[0], g[1]), D1(g[1], g[2])]
    else [D0(g[0], g[1]), D1(g[1], g[2]), D2(g[2], g[3])]
  }

  /** The innermost loop: the next alphabet octet, or the end of the text. */
  method NextSymbol(src: Bytes, from: nat) returns (b: Octet, srcc: nat)
    requires from < |src|
    ensures from < srcc <= |src| && b <= 64
    ensures srcc < |src| ==> b != 0 && Counted(src[from..]) == [b - 1] + Counted(src[srcc..])
    ensures srcc == |src| ==> Counted(src[from..]) == []
  {
    hide Counted, Symbols;
    b, srcc := 0, from;
    while srcc < |src| && b == 0
      invariant from <= srcc <= |src| && b <= 64 && (srcc == from ==> b == 0)
      invariant b == 0 && srcc < |src| ==> Counted(src[from..]) == Counted(src[srcc..])
      invariant b != 0 && srcc < |src| ==> Counted(src[from..]) == [b - 1] + Counted(src[srcc..])
      invariant srcc == |src| ==> Counted(src[from..]) == []
      decreases |src| - srcc
    {
      var s := src[srcc..];
      CountedFirst(s);
      assert s[1..] == src[srcc + 1..] && s[0] == src[srcc];
      assert [] + Counted(s[1..]) == Counted(s[1..]);
      b := Table(src[srcc]);
      srcc := srcc + 1;
    }
  }

  /** `frombase64` on text octets (its table is indexed by a signed char). */
  method FromBase64(src: Bytes) returns (dst: Bytes)
    requires forall c <- src :: c < 128
    ensures dst == DecodeGroups(Counted(src))
  {
    hide Counted, Symbols, D0, D1, D2, Table;
    dst := [];
    var inp := new Sextet[4];
    var srcc := 0;
    assert src[0..] == src;
    while srcc < |src|
      invariant 0 <= srcc <= |src|
      invariant dst + DecodeGroups(Counted(src[srcc..])) == DecodeGroups(Counted(src))
    {
      var gotc, next := GatherGroup(inp, src, srcc);
      ghost var g := inp[..gotc];
      DecodeRound(g, Counted(src[next..]), next == |src|);
      Assoc(dst, Round(g), DecodeGroups(Counted(src[next..])));
      if gotc != 0 {
        var out := [D0(inp[0], inp[1]), D1(inp[1], inp[2]), D2(inp[2], inp[3])];
        assert out[..gotc - 1] == Round(g);
        dst := dst + out[..gotc - 1];
      }
      srcc := next;
    }
    NothingCounted();
    assert src[srcc..] == [] && dst + [] == dst;
  }

  lemma NothingCounted()
    ensures Counted([]) == [] && DecodeGroups([]) == []
  {
  }

  lemma DecodeRound(g: seq<Sextet>, rest: seq<Sextet>, ended: bool)
    requires |g| <= 4 && (|g| < 4 ==> ended) && (ended ==> rest == [])
    ensures DecodeGroups(g + rest) == Round(g) + DecodeGroups(rest)
  {
    hide D0, D1, D2;
    if |g| == 4 {
      DecodeFirst(g, rest);
    } else {
      assert g + rest == g && Round(g) + [] == Round(g);
    }
  }

  /** The loop over `i`: up to four counted sextets into `inp`. */
  method GatherGroup(inp: array<Sextet>, src: Bytes, from: nat) returns (gotc: nat, srcc: nat)
    requires inp.Length == 4 && from < |src|
    modifies inp
    ensures from < srcc <= |src| && gotc <= 4 && (gotc < 4 ==> srcc == |src|)
    ensures srcc == |src| ==> Counted(src[srcc..]) == []
    ensures Counted(src[from..]) == inp[..gotc] + Counted(src[srcc..])
  {
    hide Counted, Symbols, Table;
    gotc, srcc := 0, from;
    var i := 0;
    NothingCounted();
    assert inp[..0] + Counted(src[from..]) == Counted(src[from..]);
    while i < 4 && srcc < |src|
      invariant 0 <= i <= 4 && from <= srcc <= |src| && (i > 0 ==> from < srcc)
      invariant gotc <= i && (srcc < |src| ==> gotc == i)
      invariant gotc < i ==> srcc == |src|
      invariant Counted(src[from..]) == inp[..gotc] + Counted(src[srcc..])
      decreases 4 - i
    {
      ghost var g := inp[..gotc];
      var b, next := NextSymbol(src, srcc);
      if next < |src| {
        gotc := gotc + 1;
        inp[i] := b - 1;
        assert inp[..gotc] == g + [b - 1];
        Assoc(g, [b - 1], Counted(src[next..]));
      } else {
        inp[i] := 0;
        assert src[next..] == [];
        assert inp[..gotc] == g;
      }
      srcc := next;
      i := i + 1;
    }
    assert srcc == |src| ==> src[srcc..] == [];
  }

  // --- decoding the encoding ---

  lemma FirstBack(a: Octet, b: Octet)
    ensures D0(S0(a), S1(a, b)) == a
  {
  }

  lemma SecondBack(a: Octet, b: Octet, c: Octet)
    ensures D1(S1(a, b), S2(b, c)) == b
  {
    var h, l := b / 16, b % 16;
    assert S1(a, b) * 16 == 256 * (a % 4) + 16 * h;
    RemainderUnique(S1(a, b) * 16, 256, a % 4, 16 * h);
  }

  lemma ThirdBack(b: Octet, c: Octet)
    ensures D2(S2(b, c), S3(c)) == c
  {
    var h, l := c / 64, c % 64;
    assert S2(b, c) * 64 == 256 * (b % 16) + 64 * h;
    RemainderUnique(S2(b, c) * 64, 256, b % 16, 64 * h);
  }

  lemma OctetsBack(a: Octet, b: Octet, c: Octet)
    ensures D0(S0(a), S1(a, b)) == a && D1(S1(a, b), S2(b, c)) == b && D2(S2(b, c), S3(c)) == c
  {
    hide S0, S1, S2, S3, D0, D1, D2;
    FirstBack(a, b);
    SecondBack(a, b, c);
    ThirdBack(b, c);
  }

  lemma {:induction false} DecodeSextets(s: Bytes)
    ensures DecodeGroups(Sextets(s)) == s
    decreases |s|
  {
    hide S0, S1, S2, S3, D0, D1, D2;
    if |s| == 1 {
      OctetsBack(s[0], 0, 0);
    } else if |s| == 2 {
      OctetsBack(s[0], s[1], 0);
    } else if |s| >= 3 {
      OctetsBack(s[0], s[1], s[2]);
      DecodeSextets(s[3..]);
      DecodeFirst(Group(s[0], s[1], s[2]), Sextets(s[3..]));
      Join(s, 3);
      Listed(s[..3]);
    }
  }

  lemma {:induction false} SymbolsOfChars(x: seq<Sextet>)
    ensures Symbols(MapChars(x)) == x
  {
    hide MapChar, Table;
    if x != [] {
      var init, last := x[..|x| - 1], x[|x| - 1];
      SymbolsOfChars(init);
      TableInvertsMap(last);
      assert MapChars(x)[..|x| - 1] == MapChars(init);
      assert x == init + [last];
    }
  }

  lemma SymbolsOfSpecials(n: nat)
    ensures Symbols(Padding(n)) == [] && Symbols(CRLF) == [] && Symbols([CR]) == []
  {
    SymbolsFirst(CRLF);
    assert CRLF[1..] == [LF];
    SymbolsFirst([LF]);
    SymbolsFirst([CR]);
    SymbolsFirst([PAD]);
    SymbolsFirst([PAD, PAD]);
    assert [PAD, PAD][1..] == [PAD];
  }

  lemma {:induction false} SymbolsOfBroken(s: Bytes)
    ensures Symbols(Broken(s)) == Symbols(s)
    decreases |s|
  {
    if |s| > BREAKPOS {
      hide Symbols;
      var line, rest := s[..BREAKPOS], s[BREAKPOS..];
      SymbolsOfBroken(rest);
      SymbolsConcat(line + CRLF, Broken(rest));
      SymbolsConcat(line, CRLF);
      SymbolsOfSpecials(0);
      SymbolsConcat(line, rest);
      Join(s, BREAKPOS);
      assert Symbols(line) + [] == Symbols(line);
    }
  }

  lemma SymbolsOfArmor(s: Bytes)
    ensures Symbols(Broken(Encode(s))) == Sextets(s)
  {
    hide Symbols, MapChars, Sextets, Padding, Broken;
    SymbolsOfBroken(Encode(s));
    SymbolsConcat(MapChars(Sextets(s)), Padding(|s|));
    SymbolsOfChars(Sextets(s));
    SymbolsOfSpecials(|s|);
    assert Sextets(s) + [] == Sextets(s);
  }

  /** The body of an armored message, followed by a line end, decodes to the original octets. */
  lemma ArmorRoundTrip(s: Bytes)
    ensures DecodeGroups(Counted(Broken(Encode(s)) + CRLF)) == s
  {
    hide Symbols, Sextets, Broken, Encode, DecodeGroups;
    var body := Broken(Encode(s));
    var text := body + CRLF;
    assert text[..|text| - 1] == body + [CR];
    SymbolsConcat(body, [CR]);
    SymbolsOfSpecials(0);
    SymbolsOfArmor(s);
    assert Sextets(s) + [] == Sextets(s);
    DecodeSextets(s);
  }

  /** Without anything after it the body decodes to the original octets exactly when it is empty
      or ends in padding: otherwise the last sextet is not counted. */
  lemma ArmorBodyAlone(s: Bytes)
    ensures DecodeGroups(Counted(Broken(Encode(s)))) == s <==> s == [] || |s| % 3 != 0
  {
    hide Symbols, Sextets, Broken, Encode, DecodeGroups, Table;
    var body := Broken(Encode(s));
    SymbolsOfArmor(s);
    DecodeSextets(s);
    SextetsSize(s);
    if s == [] {
      EmptyBody();
    } else {
      BodyEnd(s);
      var init, last := body[..|body| - 1], body[|body| - 1];
      assert body == init + [last];
      SymbolsConcat(init, [last]);
      SymbolsFirst([last]);
      NoSymbols();
      assert [last][1..] == [] && Symbol(last) + [] == Symbol(last);
      if |s| % 3 == 0 {
        LostSextet(s, Symbols(init), Symbol(last));
      } else {
        assert Symbols(init) + [] == Symbols(init);
      }
    }
  }

  lemma LostSextet(s: Bytes, counted: seq<Sextet>, lost: seq<Sextet>)
    requires |s| % 3 == 0 && |lost| == 1 && counted + lost == Sextets(s)
    ensures DecodeGroups(counted) != s
  {
    hide Sextets, DecodeGroups;
    SextetsSize(s);
    DecodedSize(counted);
    assert |counted| == 4 * (|s| / 3 - 1) + 3;
  }

  lemma EmptyBody()
    ensures Broken(Encode([])) == [] && DecodeGroups(Counted([])) == []
  {
  }

  lemma {:induction false} SextetsSize(s: Bytes)
    ensures |Sextets(s)| == |s| / 3 * 4 + (if |s| % 3 == 0 then 0 else |s| % 3 + 1)
    decreases |s|
  {
    if |s| >= 3 {
      SextetsSize(s[3..]);
    }
  }

  lemma {:induction false} DecodedSize(x: seq<Sextet>)
    ensures |DecodeGroups(x)| == |x| / 4 * 3 + (if |x| % 4 == 0 then 0 else |x| % 4 - 1)
    decreases |x|
  {
    hide D0, D1, D2;
    if |x| >= 4 {
      DecodedSize(x[4..]);
    }
  }

  /** The body ends in padding or in an alphabet octet, as the length of the data says. */
  lemma BodyEnd(s: Bytes)
    requires s != []
    ensures var body := Broken(Encode(s));
            body != [] && (Table(body[|body| - 1]) == 0 <==> |s| % 3 != 0)
  {
    hide Sextets, Broken;
    SextetsSize(s);
    var x := Sextets(s);
    var e := Encode(s);
    BrokenEnd(e);
    TableInvertsMap(x[|x| - 1]);
  }

  lemma {:induction false} BrokenEnd(s: Bytes)
    requires s != []
    ensures Broken(s) != [] && Broken(s)[|Broken(s)| - 1] == s[|s| - 1]
    decreases |s|
  {
    if |s| > BREAKPOS {
      BrokenEnd(s[BREAKPOS..]);
    }
  }

  // --- armor and decoder together ---

  ghost predicate Ascii(s: Bytes)
  {
    forall i :: 0 <= i < |s| ==> s[i] < 128
  }

  lemma {:induction false} CharsAreAscii(x: seq<Sextet>)
    ensures Ascii(MapChars(x))
  {
    if x != [] {
      CharsAreAscii(x[..|x| - 1]);
    }
  }

  lemma {:induction false} BrokenIsAscii(s: Bytes)
    requires Ascii(s)
    ensures Ascii(Broken(s))
    decreases |s|
  {
    if |s| > BREAKPOS {
      BrokenIsAscii(s[BREAKPOS..]);
    }
  }

  /** Any run of writes through the armor writers, then the SSH decoder on the text and the line
      end that follows it: the octets written come back. */
  method ArmorAndDecode(writes: seq<Bytes>) returns (text: Bytes, back: Bytes)
    ensures back == Flatten(writes) && IsArmor(Flatten(writes), text)
  {
    hide IsArmor, Encode, Broken, MapChars, DecodeGroups, Counted, Sextets, ClearSign.Lines, ClearSign.Clean;
    text := ArmorSession(writes);
    EncodeIsAscii(Flatten(writes));
    BrokenIsAscii(Encode(Flatten(writes)));
    ArmorRoundTrip(Flatten(writes));
    back := FromBase64(text + CRLF);
  }

  lemma EncodeIsAscii(s: Bytes)
    ensures Ascii(Encode(s))
  {
    hide MapChars, Sextets;
    CharsAreAscii(Sextets(s));
  }
}
