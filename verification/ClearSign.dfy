/** The clear-signing writer `dash_esc_writer` of src/lib/writer.c: one pass that puts line ends
    into CRLF form, escapes dashes, and hashes the canonical text (section 7.1 of RFC 4880). */
module ClearSign {
  import opened Octets

  const DASH: Octet := 45
  const SPACE: Octet := 32
  const TAB: Octet := 9
  const DASH_ESCAPE: Bytes := [DASH, SPACE]

  // --- text as lines ---

  predicate IsEol(c: Octet)
  {
    c == CR || c == LF
  }

  predicate IsBlank(c: Octet)
  {
    c == SPACE || c == TAB
  }

  function FirstEol(s: Bytes): (k: nat)
    ensures k <= |s| && (forall i :: 0 <= i < k ==> !IsEol(s[i])) && (k < |s| ==> IsEol(s[k]))
  {
    if s == [] || IsEol(s[0]) then 0 else 1 + FirstEol(s[1..])
  }

  /** Octets taken by the line end at `k`: two for CRLF, one for a bare CR or LF. */
  function EolSize(s: Bytes, k: nat): (n: nat)
    requires k < |s|
    ensures 1 <= n <= 2 && k + n <= |s|
  {
    if s[k] == CR && k + 1 < |s| && s[k + 1] == LF then 2 else 1
  }

  function AfterEol(s: Bytes): (rest: Bytes)
    requires FirstEol(s) < |s|
    ensures |rest| < |s|
  {
    s[FirstEol(s) + EolSize(s, FirstEol(s))..]
  }

  /** The lines of a text without their ends; the last one is what follows the last line end. */
  function Lines(s: Bytes): (r: seq<Bytes>)
    ensures r != []
    decreases |s|
  {
    var k := FirstEol(s);
    if k == |s| then [s] else [s[..k]] + Lines(AfterEol(s))
  }

  function JoinLines(lines: seq<Bytes>): (r: Bytes)
  {
    if lines == [] then [] else if |lines| == 1 then lines[0] else lines[0] + CRLF + JoinLines(lines[1..])
  }

  function MapLines(f: Bytes -> Bytes, lines: seq<Bytes>): (r: seq<Bytes>)
    ensures |r| == |lines|
  {
    if lines == [] then [] else [f(lines[0])] + MapLines(f, lines[1..])
  }

  /** A line without its trailing spaces and tabs. */
  function Strip(line: Bytes): (r: Bytes)
    ensures r <= line
  {
    if line != [] && IsBlank(line[|line| - 1]) then Strip(line[..|line| - 1]) else line
  }

  function Escape(line: Bytes): (r: Bytes)
  {
    if line != [] && line[0] == DASH then DASH_ESCAPE + line else line
  }

  function Unescape(line: Bytes): (r: Bytes)
  {
    if |line| >= 2 && line[..2] == DASH_ESCAPE then line[2..] else line
  }

  /** The text that is signed: every line end is CRLF and trailing blanks are gone. */
  function Canonical(s: Bytes): (r: Bytes)
  {
    JoinLines(MapLines(Strip, Lines(s)))
  }

  function EscapedText(s: Bytes): (r: Bytes)
  {
    JoinLines(MapLines(Escape, Lines(s)))
  }

  function UnescapedText(s: Bytes): (r: Bytes)
  {
    JoinLines(MapLines(Unescape, Lines(s)))
  }

  // --- the writer as a machine ---

  /** `dashesc_t`. */
  datatype Dash = Dash(seenNl: bool, seenCr: bool, trailing: Bytes)

  /** A run of the machine: its state, what it hashed and what it passed on. */
  datatype DashRun = DashRun(state: Dash, hashed: Bytes, out: Bytes)

  function Step(d: Dash, c: Octet): (r: DashRun)
  {
    var escape := (d.seenNl || d.seenCr) && c == DASH;
    var nl, cr := c == LF, c == CR;
    var fill := if nl && !d.seenCr then [CR] else if d.seenCr && !nl then [LF] else [];
    var out := fill + (if escape then DASH_ESCAPE else []) + [c];
    if IsBlank(c) then DashRun(Dash(nl, cr, d.trailing + [c]), fill, out)
    else DashRun(Dash(nl, cr, []), fill + (if nl || cr then [] else d.trailing) + [c], out)
  }

  function Run(d: Dash, s: Bytes): (r: DashRun)
  {
    if s == [] then DashRun(d, [], [])
    else
      var before := Run(d, s[..|s| - 1]);
      var last := Step(before.state, s[|s| - 1]);
      DashRun(last.state, before.hashed + last.hashed, before.out + last.out)
  }

  lemma {:induction false} RunConcat(d: Dash, a: Bytes, b: Bytes)
    ensures var ra := Run(d, a);
            var rb := Run(ra.state, b);
            Run(d, a + b) == DashRun(rb.state, ra.hashed + rb.hashed, ra.out + rb.out)
  {
    hide Step;
    if b == [] {
      assert a + b == a;
    } else {
      var ab := a + b;
      assert ab[..|ab| - 1] == a + b[..|b| - 1];
      RunConcat(d, a, b[..|b| - 1]);
    }
  }

  /** The object pushed by `pgp_writer_push_clearsigned`; `hashed` is what the signature's hash
      has been given and `next` what the writer below has received. */
  class DashEscWriter {
    var seenNl: bool
    var seenCr: bool
    var trailing: Bytes
    var hashed: Bytes
    var next: Bytes

    ghost function State(): DashRun
      reads this
    {
      DashRun(Dash(seenNl, seenCr, trailing), hashed, next)
    }

    constructor ()
      ensures State() == DashRun(LINE_START, [], [])
    {
      seenNl, seenCr, trailing, hashed, next := true, false, [], [], [];
    }

    /** `dash_esc_writer`. */
    method Write(src: Bytes)
      modifies this
      ensures var r := Run(old(State()).state, src);
              State() == DashRun(r.state, old(hashed) + r.hashed, old(next) + r.out)
    {
      ghost var d, h0, o0 := State().state, hashed, next;
      for n := 0 to |src|
        invariant var r := Run(d, src[..n]);
                  State() == DashRun(r.state, h0 + r.hashed, o0 + r.out)
      {
        ghost var r := Run(d, src[..n]);
        TakeSnoc(src, n);
        var c := src[n];
        WriteOctet(c);
        Assoc(h0, r.hashed, Step(r.state, c).hashed);
        Assoc(o0, r.out, Step(r.state, c).out);
      }
      assert src[..|src|] == src;
    }

    method WriteOctet(c: Octet)
      modifies this
      ensures var r := Step(old(State()).state, c);
              State() == DashRun(r.state, old(hashed) + r.hashed, old(next) + r.out)
    {
      ghost var h0, o0, held := hashed, next, trailing;
      ghost var fill := if c == LF && !seenCr then [CR] else if seenCr && c != LF then [LF] else [];
      ghost var dashes := if (seenNl || seenCr) && c == DASH then DASH_ESCAPE else [];
      var escape := false;
      if seenNl || seenCr {
        if c == DASH {
          escape := true;
        }
      }
      seenNl := c == LF;
      NothingToAdd(h0);
      NothingToAdd(o0);
      if seenNl && !seenCr {
        next := next + [CR];
        hashed := hashed + [CR];
      }
      if seenCr && !seenNl {
        next := next + [LF];
        hashed := hashed + [LF];
      }
      assert next == o0 + fill && hashed == h0 + fill;
      seenCr := c == CR;
      NothingToAdd(next);
      if escape {
        next := next + DASH_ESCAPE;
      }
      assert next == o0 + fill + dashes;
      Assoc4(o0, fill, dashes, [c]);
      next := next + [c];
      NothingToAdd(hashed);
      if c == SPACE || c == TAB {
        trailing := trailing + [c];
      } else {
        if |trailing| != 0 {
          if !seenNl && !seenCr {
            hashed := hashed + trailing;
          }
          trailing := [];
        }
        Assoc4(h0, fill, if c == LF || c == CR then [] else held, [c]);
        hashed := hashed + [c];
      }
    }
  }

  lemma NothingToAdd(s: Bytes)
    ensures s + [] == s
  {
  }

  // --- the machine reads lines ---

  const LINE_START: Dash := Dash(true, false, [])
  const AFTER_CR: Dash := Dash(false, true, [])

  lemma StepInLine(d: Dash, c: Octet)
    requires !IsEol(c) && !d.seenCr
    ensures var r := Step(d, c);
            r.out == (if d.seenNl && c == DASH then DASH_ESCAPE else []) + [c]
            && if IsBlank(c) then r.hashed == [] && r.state == Dash(false, false, d.trailing + [c])
               else r.hashed == d.trailing + [c] && r.state == Dash(false, false, [])
  {
  }

  /** Inside a line, the machine has hashed the stripped line and holds back its blanks. */
  lemma {:induction false} RunLine(line: Bytes)
    requires forall i :: 0 <= i < |line| ==> !IsEol(line[i])
    ensures var r := Run(LINE_START, line);
            r.hashed == Strip(line) && r.out == Escape(line)
            && r.state == Dash(line == [], false, line[|Strip(line)|..])
  {
    hide Step, Strip, Escape;
    if line == [] {
      NoLine();
    } else {
      var init, c := line[..|line| - 1], line[|line| - 1];
      RunLine(init);
      var before := Run(LINE_START, init);
      StepInLine(before.state, c);
      assert line == init + [c];
      EscapeGrows(init, c);
      Assoc(Escape(init), if init == [] && c == DASH then DASH_ESCAPE else [], [c]);
      StripGrows(init, c);
      NothingToAdd(Strip(init));
    }
  }

  lemma NoLine()
    ensures Strip([]) == [] && Escape([]) == []
  {
  }

  lemma StripGrows(init: Bytes, c: Octet)
    ensures var line := init + [c];
            if IsBlank(c) then Strip(line) == Strip(init) && line[|Strip(line)|..] == init[|Strip(init)|..] + [c]
            else Strip(line) == line && line == Strip(init) + (init[|Strip(init)|..] + [c]) && line[|line|..] == []
  {
    var line, r := init + [c], |Strip(init)|;
    assert line[..|line| - 1] == init;
    if IsBlank(c) {
      SliceOfConcat(init, [c], 0, r);
    } else {
      Join(init, r);
      assert init[..r] == Strip(init);
      Assoc(Strip(init), init[r..], [c]);
    }
  }

  lemma EscapeGrows(init: Bytes, c: Octet)
    ensures Escape(init + [c]) == Escape(init) + (if init == [] && c == DASH then DASH_ESCAPE else []) + [c]
  {
  }

  lemma RunEol(d: Dash)
    requires !d.seenCr
    ensures Run(d, [LF]) == DashRun(LINE_START, CRLF, CRLF)
    ensures Run(d, [CR]) == DashRun(AFTER_CR, [CR], [CR])
    ensures Run(AFTER_CR, [LF]) == DashRun(LINE_START, [LF], [LF])
  {
    RunOne(d, LF);
    RunOne(d, CR);
    RunOne(AFTER_CR, LF);
  }

  lemma RunOne(d: Dash, c: Octet)
    ensures Run(d, [c]) == Step(d, c)
  {
    assert [c][..0] == [];
    var r := Step(d, c);
    assert [] + r.hashed == r.hashed && [] + r.out == r.out;
  }

  /** A bare CR followed by anything but LF is a line end whose LF is supplied late. */
  lemma RunAfterCr(s: Bytes)
    requires s != [] && s[0] != LF
    ensures var r := Run(LINE_START, s);
            Run(AFTER_CR, s) == DashRun(r.state, [LF] + r.hashed, [LF] + r.out)
  {
    hide Run, Step;
    var c, rest := s[0], s[1..];
    assert s == [c] + rest;
    RunConcat(LINE_START, [c], rest);
    RunConcat(AFTER_CR, [c], rest);
    RunOne(LINE_START, c);
    RunOne(AFTER_CR, c);
    LateLf(c);
    var one, tail := Step(LINE_START, c), Run(Step(LINE_START, c).state, rest);
    Assoc([LF], one.hashed, tail.hashed);
    Assoc([LF], one.out, tail.out);
  }

  lemma LateLf(c: Octet)
    requires c != LF
    ensures var r := Step(LINE_START, c);
            Step(AFTER_CR, c) == DashRun(r.state, [LF] + r.hashed, [LF] + r.out)
  {
    var r := Step(LINE_START, c);
    assert [LF] + ([] + [] + [c]) == [LF] + [] + [c];
  }

  predicate EndsInCr(s: Bytes)
  {
    s != [] && s[|s| - 1] == CR
  }

  /** The octet still owed when a text ends in a bare CR. */
  function Owed(s: Bytes): Bytes
  {
    if EndsInCr(s) then [LF] else []
  }

  lemma {:induction false} RunText(s: Bytes)
    ensures var r := Run(LINE_START, s);
            r.hashed + Owed(s) == Canonical(s) && r.out + Owed(s) == EscapedText(s)
    decreases |s|
  {
    hide Run, Step, Strip, Escape;
    var k := FirstEol(s);
    RunLine(s[..k]);
    if k == |s| {
      assert s[..k] == s;
      var r := Run(LINE_START, s);
      assert r.hashed + [] == r.hashed && r.out + [] == r.out;
      OneLine(s);
    } else {
      var n := EolSize(s, k);
      var eol, rest := s[k..k + n], s[k + n..];
      RunText(rest);
      RunFirstLine(s);
      FirstLine(s);
      var r := Run(LINE_START, rest);
      Assoc(Strip(s[..k]) + CRLF, r.hashed, Owed(rest));
      Assoc(Escape(s[..k]) + CRLF, r.out, Owed(rest));
    }
  }

  lemma OneLine(s: Bytes)
    requires FirstEol(s) == |s|
    ensures Canonical(s) == Strip(s) && EscapedText(s) == Escape(s)
  {
    hide Strip, Escape;
  }

  lemma FirstLine(s: Bytes)
    requires FirstEol(s) < |s|
    ensures var k := FirstEol(s);
            var rest := s[k + EolSize(s, k)..];
            Canonical(s) == Strip(s[..k]) + CRLF + Canonical(rest)
            && EscapedText(s) == Escape(s[..k]) + CRLF + EscapedText(rest)
  {
    hide Strip, Escape;
    var k := FirstEol(s);
    var tail := Lines(s[k + EolSize(s, k)..]);
    assert Lines(s)[1..] == tail;
    assert MapLines(Strip, Lines(s))[1..] == MapLines(Strip, tail);
    assert MapLines(Escape, Lines(s))[1..] == MapLines(Escape, tail);
  }

  lemma RunFirstLine(s: Bytes)
    requires FirstEol(s) < |s|
    ensures var k := FirstEol(s);
            var rest := s[k + EolSize(s, k)..];
            var line, r, all := s[..k], Run(LINE_START, rest), Run(LINE_START, s);
            all.hashed + Owed(s) == Strip(line) + CRLF + r.hashed + Owed(rest)
            && all.out + Owed(s) == Escape(line) + CRLF + r.out + Owed(rest)
  {
    hide Run, Step, Strip, Escape, EolSize;
    var k := FirstEol(s);
    var line, t := s[..k], s[k..];
    var rest := s[k + EolSize(s, k)..];
    RunLine(line);
    var first := Run(LINE_START, line);
    RunConcat(LINE_START, line, t);
    Join(s, k);
    assert t[EolSize(s, k)..] == rest;
    SameEol(s, k);
    EolThenRest(first.state, t);
    var all, r := Run(first.state, t), Run(LINE_START, rest);
    Assoc(first.hashed, all.hashed, Owed(t));
    Assoc(first.out, all.out, Owed(t));
    Assoc4(first.hashed, CRLF, r.hashed, Owed(rest));
    Assoc4(first.out, CRLF, r.out, Owed(rest));
  }

  lemma SameEol(s: Bytes, k: nat)
    requires k < |s|
    ensures EolSize(s[k..], 0) == EolSize(s, k) && Owed(s[k..]) == Owed(s)
  {
  }

  /** A line end of any of the three kinds is worth CRLF, whenever its second half arrives. */
  lemma EolThenRest(d: Dash, t: Bytes)
    requires !d.seenCr && t != [] && IsEol(t[0])
    ensures var rest := t[EolSize(t, 0)..];
            var all, r := Run(d, t), Run(LINE_START, rest);
            all.hashed + Owed(t) == CRLF + r.hashed + Owed(rest)
            && all.out + Owed(t) == CRLF + r.out + Owed(rest)
  {
    hide Run, Step;
    var n := EolSize(t, 0);
    var rest := t[n..];
    var r := Run(LINE_START, rest);
    assert t == t[..1] + t[1..] && t[..1] == [t[0]];
    RunConcat(d, [t[0]], t[1..]);
    RunEol(d);
    if t[0] == CR {
      Assoc([CR], [LF], r.hashed);
      Assoc([CR], [LF], r.out);
      assert [CR] + [LF] == CRLF;
      if n == 2 {
        assert t[1..] == [LF] + rest;
        RunConcat(AFTER_CR, [LF], rest);
      } else if rest == [] {
        RunNothing();
        assert [CR] + [] + [LF] == CRLF + [] + [];
      } else {
        RunAfterCr(rest);
      }
    }
  }

  lemma RunNothing()
    ensures Run(AFTER_CR, []) == DashRun(AFTER_CR, [], []) && Run(LINE_START, []) == DashRun(LINE_START, [], [])
  {
  }

  /** The signature covers the canonical text exactly when the text does not end in a bare CR. */
  lemma HashedIsCanonical(s: Bytes)
    ensures Run(LINE_START, s).hashed == Canonical(s) <==> !EndsInCr(s)
    ensures EndsInCr(s) ==> Run(LINE_START, s).hashed + [LF] == Canonical(s)
  {
    RunText(s);
    NothingToAdd(Run(LINE_START, s).hashed);
  }

  // --- the reader ---

  predicate Clean(line: Bytes)
  {
    forall i :: 0 <= i < |line| ==> !IsEol(line[i])
  }

  predicate AllClean(lines: seq<Bytes>)
  {
    forall i :: 0 <= i < |lines| ==> Clean(lines[i])
  }

  lemma {:induction false} LinesAreClean(s: Bytes)
    ensures AllClean(Lines(s))
    decreases |s|
  {
    var k := FirstEol(s);
    if k < |s| {
      LinesAreClean(s[k + EolSize(s, k)..]);
    }
  }

  lemma {:induction false} FirstEolAt(line: Bytes, t: Bytes)
    requires Clean(line) && (t == [] || IsEol(t[0]))
    ensures FirstEol(line + t) == |line|
  {
    if line != [] {
      FirstEolAt(line[1..], t);
      assert (line + t)[1..] == line[1..] + t;
      assert (line + t)[0] == line[0];
    } else {
      assert line + t == t;
    }
  }

  lemma {:induction false} LinesOfJoin(lines: seq<Bytes>)
    requires lines != [] && AllClean(lines)
    ensures Lines(JoinLines(lines)) == lines
  {
    if |lines| == 1 {
      FirstEolAt(lines[0], []);
      NothingToAdd(lines[0]);
    } else {
      var line, rest := lines[0], JoinLines(lines[1..]);
      LinesOfJoin(lines[1..]);
      var s := line + CRLF + rest;
      Assoc(line, CRLF, rest);
      FirstEolAt(line, CRLF + rest);
      assert s[..|line|] == line && s[|line| + 2..] == rest;
      assert lines == [line] + lines[1..];
    }
  }

  lemma {:induction false} MapLinesAt(f: Bytes -> Bytes, lines: seq<Bytes>, i: nat)
    requires i < |lines|
    ensures MapLines(f, lines)[i] == f(lines[i])
  {
    if i > 0 {
      MapLinesAt(f, lines[1..], i - 1);
    }
  }

  lemma EscapedLinesAreClean(lines: seq<Bytes>)
    requires AllClean(lines)
    ensures AllClean(MapLines(Escape, lines))
  {
    forall i | 0 <= i < |lines| ensures Clean(MapLines(Escape, lines)[i]) {
      MapLinesAt(Escape, lines, i);
    }
  }

  lemma {:induction false} UnescapeEscapes(lines: seq<Bytes>)
    ensures MapLines(Unescape, MapLines(Escape, lines)) == lines
  {
    if lines != [] {
      UnescapeEscapes(lines[1..]);
      var line := lines[0];
      assert Unescape(Escape(line)) == line by {
        if line != [] && line[0] == DASH {
          PrefixAndRest(DASH_ESCAPE, line);
        }
      }
    }
  }

  lemma LinesOfOutput(s: Bytes)
    ensures Lines(Run(LINE_START, s).out) == MapLines(Escape, Lines(s))
  {
    hide Run, Escape;
    LinesAreClean(s);
    EscapedLinesAreClean(Lines(s));
    LinesOfJoin(MapLines(Escape, Lines(s)));
    RunText(s);
    var out := Run(LINE_START, s).out;
    if EndsInCr(s) {
      OwedLf(s);
      LateFinalLf(out);
    } else {
      NothingToAdd(out);
    }
  }

  lemma {:induction false} OwedLf(s: Bytes)
    requires EndsInCr(s)
    ensures EndsInCr(Run(LINE_START, s).out)
  {
  }

  /** A final CR reads as the same line end as CRLF. */
  lemma {:induction false} LateFinalLf(s: Bytes)
    requires EndsInCr(s)
    ensures Lines(s) == Lines(s + [LF])
    decreases |s|
  {
    hide FirstEol, EolSize, Lines;
    var k, t := FirstEol(s), s + [LF];
    HasEol(s);
    EolsAgree(s);
    LinesStep(s);
    LinesStep(t);
    var n := EolSize(s, k);
    SliceOfConcat(s, [LF], 0, k);
    if k + n < |s| {
      LateFinalLf(s[k + n..]);
      SliceOfConcat(s, [LF], 0, k + n);
    } else {
      assert t[k + EolSize(t, k)..] == [] == s[k + n..];
    }
  }

  lemma LinesStep(s: Bytes)
    requires FirstEol(s) < |s|
    ensures Lines(s) == [s[..FirstEol(s)]] + Lines(AfterEol(s))
  {
    hide FirstEol, AfterEol;
  }

  lemma HasEol(s: Bytes)
    requires EndsInCr(s)
    ensures FirstEol(s) < |s|
  {
  }

  lemma EolsAgree(s: Bytes)
    requires EndsInCr(s) && FirstEol(s) < |s|
    ensures var k, t := FirstEol(s), s + [LF];
            FirstEol(t) == k
            && if k + EolSize(s, k) < |s| then EolSize(t, k) == EolSize(s, k) else k + EolSize(t, k) == |t|
  {
    hide FirstEol;
    var k, t := FirstEol(s), s + [LF];
    FirstEolAt(s[..k], t[k..]);
    Join(t, k);
    SliceOfConcat(s, [LF], 0, k);
  }

  /** Undoing the dash escaping of the emitted text and putting it into canonical form gives the
      canonical form of the input, for every input. */
  lemma OutputRecovers(s: Bytes)
    ensures Canonical(UnescapedText(Run(LINE_START, s).out)) == Canonical(s)
  {
    hide Run, Escape, Unescape, Strip;
    LinesOfOutput(s);
    UnescapeEscapes(Lines(s));
    LinesAreClean(s);
    LinesOfJoin(Lines(s));
  }

  /** In the emitted text a dash begins a line only as part of an escape. */
  lemma EmittedDashes(s: Bytes, i: nat)
    requires i < |Lines(Run(LINE_START, s).out)|
    ensures var line := Lines(Run(LINE_START, s).out)[i];
            line != [] && line[0] == DASH ==> DASH_ESCAPE <= line
  {
    hide Run;
    LinesOfOutput(s);
    MapLinesAt(Escape, Lines(s), i);
  }

  // --- the two texts, octet by octet ---

  /** The line ends of a text, in order. */
  function LineEnds(s: Bytes): (r: seq<Bytes>)
    decreases |s|
  {
    var k := FirstEol(s);
    if k == |s| then [] else [s[k..k + EolSize(s, k)]] + LineEnds(AfterEol(s))
  }

  function Interleave(lines: seq<Bytes>, ends: seq<Bytes>): (r: Bytes)
    requires |lines| == |ends| + 1
  {
    if ends == [] then lines[0] else lines[0] + ends[0] + Interleave(lines[1..], ends[1..])
  }

  /** Every line end is CR LF, CR or LF, and CR LF is one line end. */
  predicate LongestEnds(lines: seq<Bytes>, ends: seq<Bytes>)
    requires |lines| == |ends| + 1
  {
    forall i :: 0 <= i < |ends| ==>
      (ends[i] == [13, 10] || ends[i] == [13] || ends[i] == [10])
      && (ends[i] == [13] && i + 1 < |ends| && lines[i + 1] == [] ==> ends[i + 1] != [10])
  }

  /** The lines and the line ends of a text are the text, no line has a CR or LF in it, and no CR LF is
      taken apart. */
  lemma {:induction false} LinesAndEnds(s: Bytes)
    ensures |Lines(s)| == |LineEnds(s)| + 1 && Interleave(Lines(s), LineEnds(s)) == s
    ensures LongestEnds(Lines(s), LineEnds(s))
    ensures forall i, j :: 0 <= i < |Lines(s)| && 0 <= j < |Lines(s)[i]| ==> Lines(s)[i][j] !in {13, 10}
    ensures Lines(s)[0] == [] && LineEnds(s) != [] ==> s != [] && LineEnds(s)[0] != [] && LineEnds(s)[0][0] == s[0]
    decreases |s|
  {
    hide FirstEol;
    var k := FirstEol(s);
    if k < |s| {
      var n, rest := EolSize(s, k), AfterEol(s);
      LinesAndEnds(rest);
      var ls, es := Lines(rest), LineEnds(rest);
      assert ([s[..k]] + ls)[1..] == ls && ([s[k..k + n]] + es)[1..] == es;
      TakeSlice(s, k, k + n);
      Join(s, k + n);
      FirstEnd(s, k, ls, es);
    }
  }

  lemma FirstEnd(s: Bytes, k: nat, ls: seq<Bytes>, es: seq<Bytes>)
    requires k < |s| && IsEol(s[k]) && |ls| == |es| + 1 && LongestEnds(ls, es)
    requires var rest := s[k + EolSize(s, k)..];
             ls[0] == [] && es != [] ==> rest != [] && es[0] != [] && es[0][0] == rest[0]
    ensures LongestEnds([s[..k]] + ls, [s[k..k + EolSize(s, k)]] + es)
  {
    var end := s[k..k + EolSize(s, k)];
    Listed(end);
    var all, ends := [s[..k]] + ls, [end] + es;
    forall i | 0 <= i < |ends|
      ensures ends[i] == [13, 10] || ends[i] == [13] || ends[i] == [10]
      ensures ends[i] == [13] && i + 1 < |ends| && all[i + 1] == [] ==> ends[i + 1] != [10]
    {
      if i > 0 {
        assert ends[i] == es[i - 1] && all[i + 1] == ls[i];
      }
    }
  }

  /** What stripping leaves, and what it takes away. */
  lemma {:induction false} StripIs(line: Bytes)
    ensures var r := Strip(line);
            r <= line && (r != [] ==> r[|r| - 1] != 32 && r[|r| - 1] != 9)
            && forall j :: |r| <= j < |line| ==> line[j] == 32 || line[j] == 9
  {
    if line != [] && IsBlank(line[|line| - 1]) {
      StripIs(line[..|line| - 1]);
    }
  }

  lemma StrippedLinesAreClean(lines: seq<Bytes>)
    requires AllClean(lines)
    ensures AllClean(MapLines(Strip, lines))
  {
    hide Strip;
    forall i | 0 <= i < |lines| ensures Clean(MapLines(Strip, lines)[i]) {
      MapLinesAt(Strip, lines, i);
    }
  }

  lemma {:induction false} OwedHash(s: Bytes)
    requires EndsInCr(s)
    ensures EndsInCr(Run(LINE_START, s).hashed)
  {
  }

  lemma LinesOfHashed(s: Bytes)
    ensures Lines(Run(LINE_START, s).hashed) == MapLines(Strip, Lines(s))
  {
    hide Run, Strip;
    LinesAreClean(s);
    StrippedLinesAreClean(Lines(s));
    LinesOfJoin(MapLines(Strip, Lines(s)));
    RunText(s);
    var hashed := Run(LINE_START, s).hashed;
    if EndsInCr(s) {
      OwedHash(s);
      LateFinalLf(hashed);
    } else {
      NothingToAdd(hashed);
    }
  }

  /** CR and LF stand only side by side, but for a CR at the very end. */
  predicate Paired(s: Bytes)
  {
    forall k :: 0 <= k < |s| ==>
      (s[k] == 10 ==> k > 0 && s[k - 1] == 13) && (s[k] == 13 ==> k + 1 == |s| || s[k + 1] == 10)
  }

  lemma {:induction false} JoinedPairs(lines: seq<Bytes>)
    requires AllClean(lines)
    ensures Paired(JoinLines(lines)) && !EndsInCr(JoinLines(lines))
    ensures JoinLines(lines) != [] ==> JoinLines(lines)[0] != 10
  {
    if |lines| == 1 {
      assert Clean(lines[0]);
    } else if lines != [] {
      JoinedPairs(lines[1..]);
      assert Clean(lines[0]);
      PairsJoin(lines[0], JoinLines(lines[1..]));
    }
  }

  lemma PairsJoin(line: Bytes, rest: Bytes)
    requires Clean(line) && Paired(rest) && !EndsInCr(rest) && (rest != [] ==> rest[0] != 10)
    ensures var s := line + CRLF + rest; Paired(s) && !EndsInCr(s) && s[0] != 10
  {
    var s, n := line + CRLF + rest, |line| + 2;
    forall k | 0 <= k < |s|
      ensures (s[k] == 10 ==> k > 0 && s[k - 1] == 13) && (s[k] == 13 ==> k + 1 == |s| || s[k + 1] == 10)
    {
      if k >= n {
        assert s[k] == rest[k - n];
      }
    }
  }

  lemma PairedTexts(s: Bytes)
    ensures var r := Run(LINE_START, s); Paired(r.hashed) && Paired(r.out)
  {
    hide Run, Strip, Escape;
    RunText(s);
    LinesAreClean(s);
    StrippedLinesAreClean(Lines(s));
    EscapedLinesAreClean(Lines(s));
    JoinedPairs(MapLines(Strip, Lines(s)));
    JoinedPairs(MapLines(Escape, Lines(s)));
    PrefixPaired(Run(LINE_START, s).hashed, Owed(s));
    PrefixPaired(Run(LINE_START, s).out, Owed(s));
  }

  lemma PrefixPaired(a: Bytes, b: Bytes)
    requires Paired(a + b)
    ensures Paired(a)
  {
    forall k | 0 <= k < |a|
      ensures (a[k] == 10 ==> k > 0 && a[k - 1] == 13) && (a[k] == 13 ==> k + 1 == |a| || a[k + 1] == 10)
    {
      var s := a + b;
      assert s[k] == a[k] && (k > 0 ==> s[k - 1] == a[k - 1]) && (k + 1 < |a| ==> s[k + 1] == a[k + 1]);
    }
  }

  /** The lines that are hashed: those of the text without the spaces and tabs at their ends. */
  predicate Stripped(lines: seq<Bytes>, hashed: seq<Bytes>)
  {
    |hashed| == |lines| && forall i :: 0 <= i < |lines| ==>
      hashed[i] <= lines[i] && (hashed[i] != [] ==> hashed[i][|hashed[i]| - 1] !in {32, 9})
      && forall j :: |hashed[i]| <= j < |lines[i]| ==> lines[i][j] in {32, 9}
  }

  /** The lines that are written: a dash and a space before each that begins with a dash. */
  predicate Dashed(lines: seq<Bytes>, out: seq<Bytes>)
  {
    |out| == |lines| && forall i :: 0 <= i < |lines| ==>
      out[i] == if lines[i] != [] && lines[i][0] == 45 then [45, 32] + lines[i] else lines[i]
  }

  lemma TextsInOctets(s: Bytes)
    ensures var r := Run(LINE_START, s);
            Stripped(Lines(s), Lines(r.hashed)) && Dashed(Lines(s), Lines(r.out)) && Paired(r.hashed) && Paired(r.out)
  {
    hide Run, Strip, Lines, Paired;
    LinesOfHashed(s);
    LinesOfOutput(s);
    PairedTexts(s);
    forall i | 0 <= i < |Lines(s)|
      ensures MapLines(Strip, Lines(s))[i] == Strip(Lines(s)[i]) && MapLines(Escape, Lines(s))[i] == Escape(Lines(s)[i])
    {
      MapLinesAt(Strip, Lines(s), i);
      MapLinesAt(Escape, Lines(s), i);
      StripIs(Lines(s)[i]);
    }
    forall i | 0 <= i < |Lines(s)|
      ensures var line := Lines(s)[i];
              Strip(line) <= line && (Strip(line) != [] ==> Strip(line)[|Strip(line)| - 1] !in {32, 9})
              && forall j :: |Strip(line)| <= j < |line| ==> line[j] in {32, 9}
    {
      StripIs(Lines(s)[i]);
    }
  }

  /** A whole session: however the text is split into writes, the hash gets the canonical text
      (unless it ends in a bare CR) and the emitted text carries the same text. */
  method ClearSignSession(writes: seq<Bytes>) returns (hashed: Bytes, out: Bytes)
    ensures hashed == Canonical(Flatten(writes)) <==> !EndsInCr(Flatten(writes))
    ensures Canonical(UnescapedText(out)) == Canonical(Flatten(writes))
    ensures Lines(out) == MapLines(Escape, Lines(Flatten(writes)))
    ensures var lines, hs := Lines(Flatten(writes)), Lines(hashed);
            |hs| == |lines| && forall i :: 0 <= i < |lines| ==>
              hs[i] <= lines[i] && (hs[i] != [] ==> hs[i][|hs[i]| - 1] !in {32, 9})
              && forall j :: |hs[i]| <= j < |lines[i]| ==> lines[i][j] in {32, 9}
    ensures var lines, os := Lines(Flatten(writes)), Lines(out);
            |os| == |lines| && forall i :: 0 <= i < |lines| ==>
              os[i] == if lines[i] != [] && lines[i][0] == 45 then [45, 32] + lines[i] else lines[i]
    ensures Paired(hashed) && Paired(out)
  {
    hide Run, Canonical, UnescapedText, Lines, Escape, Paired;
    var w := new DashEscWriter();
    assert Run(LINE_START, []) == DashRun(LINE_START, [], []) by { RunNothing(); }
    for i := 0 to |writes|
      invariant fresh(w) && w.State() == Run(LINE_START, Flatten(writes[..i]))
    {
      TakeSnoc(writes, i);
      RunConcat(LINE_START, Flatten(writes[..i]), writes[i]);
      w.Write(writes[i]);
    }
    assert writes[..|writes|] == writes;
    HashedIsCanonical(Flatten(writes));
    OutputRecovers(Flatten(writes));
    LinesOfOutput(Flatten(writes));
    TextsInOctets(Flatten(writes));
    hashed, out := w.hashed, w.next;
  }
}
