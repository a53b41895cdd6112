/** The gap buffer of src/lib/bufgap.c, built without UTF support: one octet is one character.
    The text before the cursor is at the front of the array, the text after it at the back, and
    the last octet of the array is never text. */
module GapBuffer {
  import opened Octets

  datatype Unit = BGByte | BGChar
  datatype Whence = FromBOF | FromHere | FromEOF

  /** `bounded_strlen`: the octets before the first NUL. */
  function BoundedStrlen(s: Bytes): (n: nat)
    ensures n <= |s| && (n == |s| <==> 0 !in s)
  {
    if s == [] || s[0] == 0 then 0
    else
      assert s == [s[0]] + s[1..];
      1 + BoundedStrlen(s[1..])
  }

  lemma {:induction false} StrlenStops(s: Bytes)
    ensures var n := BoundedStrlen(s);
            (n < |s| ==> s[n] == 0) && forall i :: 0 <= i < n ==> s[i] != 0
  {
    if s != [] && s[0] != 0 {
      StrlenStops(s[1..]);
      var n := BoundedStrlen(s[1..]);
      forall i | 0 <= i < 1 + n
        ensures s[i] != 0
      {
        if i > 0 {
          assert s[i] == s[1..][i - 1];
        }
      }
    }
  }

  function Edited(text: Bytes, at: nat, deleted: nat, inserted: Bytes): (r: Bytes)
    requires at + deleted <= |text|
  {
    text[..at] + inserted + text[at + deleted..]
  }

  class BufGap {
    var buf: array<Octet> // buf.Length is `size`
    var abc: nat // bytes before the cursor
    var bbc: nat // bytes after the cursor
    var acc: nat // the same counts in characters
    var bcc: int // in C modulo 2^64; below zero once the cursor is past what was counted
    ghost const hidden: nat // octets from the first NUL of the file on, which were not counted

    /** At least one octet of the array is spare, and the character counts are those of an opened
        file: right before the cursor, short by `hidden` after it. */
    ghost predicate Valid()
      reads this
    {
      abc + bbc < buf.Length && acc == abc && bcc == bbc - hidden
    }

    ghost function Before(): (s: Bytes)
      requires abc <= buf.Length
      reads this, buf
    {
      buf[..abc]
    }

    ghost function After(): (s: Bytes)
      requires bbc < buf.Length
      reads this, buf
    {
      buf[buf.Length - 1 - bbc..buf.Length - 1]
    }

    ghost function Text(): (s: Bytes)
      requires Valid()
      reads this, buf
    {
      Before() + After()
    }

    /** How far a seek can go. */
    ghost function Reach(unit: Unit): (r: int)
      reads this
    {
      if unit.BGChar? then abc + bbc - hidden else abc + bbc
    }

    /** `bufgap_open` on a file with the given contents; the character count stops at a NUL, so
        the two kinds of position agree exactly when the text has none. */
    constructor (text: Bytes)
      ensures fresh(buf) && Valid() && Text() == text && abc == 0
      ensures hidden == 0 <==> 0 !in text
      ensures hidden == |text| - BoundedStrlen(text) && buf.Length == (|text| / 4096 + 1) * 4096
    {
      var size := (|text| / 4096 + 1) * 4096;
      buf := new Octet[size];
      abc, acc := 0, 0;
      bbc := |text|;
      bcc := BoundedStrlen(text);
      hidden := |text| - BoundedStrlen(text);
      new;
      Store(buf, size - 1 - |text|, text);
      assert buf[size - 1 - |text|..size - 1] == text;
    }

    /** One octet from behind the cursor to in front of it. */
    method StepForward()
      requires Valid() && bbc > 0
      modifies this`abc, this`bbc, this`acc, this`bcc, buf
      ensures Valid() && abc == old(abc) + 1 && Text() == old(Text())
    {
      ghost var b, a := Before(), After();
      buf[abc] := buf[buf.Length - 1 - bbc];
      acc, bcc := acc + 1, bcc - 1;
      abc, bbc := abc + 1, bbc - 1;
      assert Before() == b + [a[0]];
      assert After() == a[1..];
      assert [a[0]] + a[1..] == a;
      Assoc(b, [a[0]], a[1..]);
    }

    /** One octet from in front of the cursor to behind it. */
    method StepBackward()
      requires Valid() && abc > 0
      modifies this`abc, this`bbc, this`acc, this`bcc, buf
      ensures Valid() && abc == old(abc) - 1 && Text() == old(Text())
    {
      ghost var b, a := Before(), After();
      acc, bcc := acc - 1, bcc + 1;
      abc, bbc := abc - 1, bbc + 1;
      buf[buf.Length - 1 - bbc] := buf[abc];
      assert Before() == b[..|b| - 1];
      assert After() == [b[|b| - 1]] + a;
      assert b == b[..|b| - 1] + [b[|b| - 1]];
      Assoc(b[..|b| - 1], [b[|b| - 1]], a);
    }

    /** `bufgap_forwards`.  A character count below zero is a huge unsigned number: then the code
        checks nothing, and the caller must stay inside the text. */
    method Forwards(n: nat, unit: Unit) returns (ok: bool)
      requires Valid() && (unit.BGChar? && bcc < 0 ==> n <= bbc)
      modifies this`abc, this`bbc, this`acc, this`bcc, buf
      ensures Valid() && Text() == old(Text())
      ensures ok <==> (unit.BGChar? && old(bcc) < 0) || old(abc) + n <= old(Reach(unit))
      ensures abc == if ok then old(abc) + n else old(abc)
    {
      ok := (unit.BGChar? && bcc < 0) || (if unit.BGChar? then bcc else bbc) >= n;
      if ok {
        for i := 0 to n
          invariant Valid() && Text() == old(Text()) && abc == old(abc) + i
        {
          StepForward();
        }
      }
    }

    /** `bufgap_backwards`; both units are checked against the character count. */
    method Backwards(n: nat, unit: Unit) returns (ok: bool)
      requires Valid()
      modifies this`abc, this`bbc, this`acc, this`bcc, buf
      ensures Valid() && Text() == old(Text())
      ensures ok <==> n <= old(abc)
      ensures abc == if ok then old(abc) - n else old(abc)
    {
      ok := acc >= n;
      if ok {
        for i := 0 to n
          invariant Valid() && Text() == old(Text()) && abc == old(abc) - i
        {
          StepBackward();
        }
      }
    }

    /** `bufgap_seek`: a seek within reach lands where it was asked to, any other fails and moves
        nothing. */
    method Seek(off: int, whence: Whence, unit: Unit) returns (ok: bool)
      requires Valid()
      modifies this`abc, this`bbc, this`acc, this`bcc, buf
      ensures Valid() && Text() == old(Text())
      ensures ok <==> 0 <= Target(old(abc), old(Reach(unit)), off, whence) <= old(Reach(unit))
      ensures abc == if ok then Target(old(abc), old(Reach(unit)), off, whence) else old(abc)
      decreases whence != FromBOF
    {
      var at, total := if unit.BGChar? then acc else abc, if unit.BGChar? then acc + bcc else abc + bbc;
      match whence
      case FromBOF =>
        if off < 0 || off > total {
          return false;
        }
        if off < at {
          ok := Backwards(at - off, unit);
        } else if off > at {
          ok := Forwards(off - at, unit);
        } else {
          ok := true;
        }
      case FromHere =>
        ok := Seek(at + off, FromBOF, unit);
      case FromEOF =>
        ok := Seek(total + off, FromBOF, unit);
    }

    /** `bufgap_delete`: octets after the cursor. */
    method Delete(n: nat) returns (ok: bool)
      requires Valid()
      modifies this`bbc, this`bcc
      ensures Valid() && abc == old(abc)
      ensures ok <==> abc + n <= |old(Text())|
      ensures Text() == if ok then Edited(old(Text()), abc, n, []) else old(Text())
    {
      hide Edited;
      ghost var b, a, all, from := Before(), After(), buf[..], buf.Length - 1 - bbc;
      ok := n <= bbc;
      if ok {
        for i := 0 to n
          invariant bbc == old(bbc) - i && bcc == old(bcc) - i
        {
          bbc := bbc - 1;
          bcc := bcc - 1;
        }
        assert a == all[from..buf.Length - 1] && After() == all[from + n..buf.Length - 1];
        DropInSlice(all, from, buf.Length - 1, n);
        DeletedTail(b, a, n);
      }
    }

    /** One turn of `bufgap_insert` once there is a place: the spare octet counts as one, so with
        text after the cursor the last place is the first octet of that text. */
    method InsertOctet(c: Octet)
      requires acc == abc && bcc == bbc - hidden && abc + bbc < buf.Length
      modifies this`abc, this`acc, buf
      ensures abc == old(abc) + 1 && acc == abc
      ensures old(abc + bbc) + 1 < buf.Length ==> Valid() && Text() == Edited(old(Text()), old(abc), 0, [c])
      ensures Before() == old(Before()) + [c]
      ensures After() == if old(abc + bbc) + 1 == buf.Length && bbc > 0 then old(After())[0 := c] else old(After())
    {
      hide Edited;
      ghost var b, a := Before(), After();
      ghost var was, at, from := buf[..], abc, buf.Length - 1 - bbc;
      buf[abc] := c;
      abc := abc + 1;
      acc := acc + 1;
      assert buf[..] == was[at := c];
      UpdateSlices(was, at, from, c);
      assert Before() == buf[..][..at + 1] && After() == buf[..][from..buf.Length - 1];
      if abc + bbc < buf.Length {
        InsertedText(b, a, [c]);
      }
    }

    /** With the gap down to its spare octet, inserting over remaining text is an edit exactly when
        it happens to write the octet that is already next; `before` and `after` are what the two
        halves of the array then hold. */
    method InsertIntoFullGap(c: Octet) returns (before: Bytes, after: Bytes)
      requires Valid() && abc + bbc + 1 == buf.Length
      modifies this`abc, this`acc, buf
      ensures before + after == Edited(old(Text()), old(abc), 0, [c]) <==>
              bbc == 0 || old(Text())[old(abc)] == c
    {
      ghost var b, a := Before(), After();
      InsertedText(b, a, [c]);
      InsertOctet(c);
      before, after := buf[..abc], buf[buf.Length - 1 - bbc..buf.Length - 1];
      if bbc > 0 {
        OverwrittenText(b, a, c);
      }
    }

    /** The full case of `bufgap_insert`: seek to the end, `RENEW`, seek back.  The two halves meet,
        so the moves forward copy the octet before the cursor over everything after it. */
    method Grow()
      requires abc + bbc == buf.Length && bbc < buf.Length && acc == abc && bcc == bbc && hidden == 0
      modifies this`abc, this`bbc, this`acc, this`bcc, this`buf, buf
      ensures fresh(buf) && buf.Length == 2 * old(buf.Length)
      ensures abc == old(abc) && bbc == old(bbc) && acc == abc && bcc == bbc
      ensures Before() == old(Before()) && After() == Repeated(old(Before()[abc - 1]), bbc)
    {
      ghost var b, size := Before(), buf.Length;
      var off := acc;
      SeekEnd(b);
      var grown := new Octet[buf.Length * 2];
      forall i | 0 <= i < buf.Length {
        grown[i] := buf[i];
      }
      buf := grown;
      assert buf[..off] == b;
      SeekBack(off, b[off - 1], b);
    }

    /** `bufgap_seek(bp, 0, BGFromEOF, BGChar)` with no octet of the array free. */
    method SeekEnd(ghost b: Bytes)
      requires abc + bbc == buf.Length && bbc < buf.Length && acc == abc && bcc == bbc && b == Before()
      modifies this`abc, this`bbc, this`acc, this`bcc, buf
      ensures abc == acc == buf.Length && bbc == bcc == 0 && buf[..|b|] == b
      ensures forall i :: |b| <= i < buf.Length ==> buf[i] == b[|b| - 1]
    {
      while bcc > 0
        invariant abc + bbc == buf.Length && acc == abc && bcc == bbc && |b| <= abc
        invariant buf[..|b|] == b
        invariant forall i :: |b| - 1 <= i < abc ==> buf[i] == b[|b| - 1]
        decreases bbc
      {
        assert buf[..|b|][|b| - 1] == b[|b| - 1];
        buf[abc] := buf[buf.Length - 1 - bbc];
        acc, bcc := acc + 1, bcc - 1;
        abc, bbc := abc + 1, bbc - 1;
      }
    }

    /** `bufgap_seek(bp, off, BGFromBOF, BGChar)` in the array of twice the size. */
    method SeekBack(off: nat, ghost c: Octet, ghost b: Bytes)
      requires 0 < off <= abc == acc && bbc == bcc == 0 && buf.Length == 2 * abc && |b| == off && buf[..off] == b
      requires forall i :: off <= i < abc ==> buf[i] == c
      modifies this`abc, this`bbc, this`acc, this`bcc, buf
      ensures abc == acc == off && bbc == bcc == old(abc) - off && Before() == b && After() == Repeated(c, bbc)
    {
      while acc > off
        invariant off <= abc == acc && abc + bbc == old(abc) && bcc == bbc && buf[..off] == b
        invariant forall i :: off <= i < old(abc) ==> buf[i] == c
        invariant forall i :: buf.Length - 1 - bbc <= i < buf.Length - 1 ==> buf[i] == c
      {
        acc, bcc := acc - 1, bcc + 1;
        abc, bbc := abc - 1, bbc + 1;
        buf[buf.Length - 1 - bbc] := buf[abc];
      }
      assert After() == Repeated(c, bbc);
    }

    /** `bufgap_insert` of any string into any gap; with octets that were not counted, of one that
        fits the array.  What it leaves after the cursor is `AfterInsert`, and it is an edit of the
        text if and only if `Survives`. */
    method Insert(s: Bytes)
      requires acc == abc && bcc == bbc - hidden && abc + bbc <= buf.Length && bbc < buf.Length
      requires hidden == 0 || abc + bbc + |s| <= buf.Length
      modifies this`abc, this`bbc, this`acc, this`bcc, this`buf, buf
      ensures buf == old(buf) || fresh(buf)
      ensures abc == old(abc) + |s| && acc == abc && bbc == old(bbc) && bcc == bbc - hidden && bbc < buf.Length
      ensures buf.Length == GrownSize(old(buf.Length), old(abc + bbc), |s|) && abc + bbc <= buf.Length
      ensures Before() == old(Before()) + s && After() == AfterInsert(old(Before()), old(After()), old(buf.Length), s)
      ensures Before() + After() == Edited(old(Before() + After()), old(abc), 0, s)
              <==> Survives(old(Before()), old(After()), old(buf.Length), s)
    {
      hide AfterInsert, GrownSize, Survives, Edited;
      ghost var b, a, size := Before(), After(), buf.Length;
      assert b + s[..0] == b && s[..0] == [];
      NothingInserted(b, a, size);
      for i := 0 to |s|
        invariant buf == old(buf) || fresh(buf)
        invariant Holds(b, a, size, s[..i])
      {
        TakeSnoc(s, i);
        InsertTurn(s[i], b, a, size, s[..i]);
      }
      assert s[..|s|] == s;
      InsertExactly(b, a, size, s);
    }

    /** `s` went in between `b` and `a`. */
    ghost predicate Holds(b: Bytes, a: Bytes, size: nat, s: Bytes)
      requires 0 < size && |a| < size && |b| + |a| <= size
      reads this, buf
    {
      abc == acc == |b| + |s| && bbc == |a| && bcc == bbc - hidden && abc + bbc <= buf.Length && bbc < buf.Length
      && buf.Length == GrownSize(size, |b| + |a|, |s|)
      && Before() == b + s && After() == AfterInsert(b, a, size, s)
    }

    method InsertTurn(c: Octet, ghost b: Bytes, ghost a: Bytes, ghost size: nat, ghost s: Bytes)
      requires 0 < size && |a| < size && |b| + |a| <= size && Holds(b, a, size, s)
      requires hidden == 0 || |b| + |a| + |s| < size
      modifies this`abc, this`bbc, this`acc, this`bcc, this`buf, buf
      ensures (buf == old(buf) || fresh(buf)) && Holds(b, a, size, s + [c])
    {
      hide AfterInsert, GrownSize, Repeated;
      OneMoreOctet(b, a, size, s, c);
      Assoc(b, s, [c]);
      assert |s + [c]| == |s| + 1 && (a != [] <==> bbc > 0);
      assert |Before()| == abc;
      if bbc + abc == buf.Length {
        Grow();
      }
      InsertOctet(c);
    }

    /** `bufgap_peek`: the octet `delta` characters away, as a signed char.  The cursor returns,
        unless it was past what the characters count. */
    method Peek(delta: int) returns (ch: int)
      requires Valid()
      modifies this`abc, this`bbc, this`acc, this`bcc, buf
      ensures Valid() && Text() == old(Text())
      ensures var found := delta == 0 || 0 <= old(abc) + delta <= old(Reach(BGChar));
              (!found ==> ch == -1)
              && (found && 0 <= old(abc) + delta < |Text()| ==> ch == SignedChar(Text()[old(abc) + delta]))
              && abc == if found && delta != 0 && old(abc) > old(Reach(BGChar)) then old(abc) + delta else old(abc)
    {
      if delta != 0 {
        var ok := Seek(delta, FromHere, BGChar);
        if !ok {
          return -1;
        }
      }
      ch := SignedChar(buf[buf.Length - 1 - bbc]);
      if bbc > 0 {
        assert After()[0] == buf[buf.Length - 1 - bbc] == Text()[abc];
      }
      if delta != 0 {
        var _ := Seek(-delta, FromHere, BGChar);
      }
    }

    /** `bufgap_write`: both halves of the array. */
    method Write() returns (text: Bytes)
      requires Valid()
      ensures text == Text()
    {
      text := buf[..abc] + buf[buf.Length - 1 - bbc..buf.Length - 1];
    }

    /** The copying loop of `bufgap_gettext`. */
    method ReadAfter(len: nat) returns (text: Bytes)
      requires Valid() && len <= bbc
      ensures text == After()[..len]
    {
      text := [];
      for n := 0 to len
        invariant text == After()[..n]
      {
        TakeSnoc(After(), n);
        text := text + [buf[buf.Length - 1 - (bbc - n)]];
      }
    }

    method CutAtCursor(len: nat, ghost was: Bytes) returns (text: Bytes)
      requires Valid() && len <= bbc && was == Text()
      ensures abc + len <= |was| && text == was[abc..abc + len]
    {
      text := ReadAfter(len);
      SliceAfter(Before(), After(), len);
    }

    /** `bufgap_gettext`: the slice asked for when it starts within reach, else as many octets
        from the cursor on.  The cursor returns, unless it was past what the characters count. */
    method GetText(from: nat, to: nat) returns (text: Bytes)
      requires Valid() && from <= to
      requires (if from <= Reach(BGChar) then to else abc + (to - from)) <= abc + bbc
      modifies this`abc, this`bbc, this`acc, this`bcc, buf
      ensures Valid() && Text() == old(Text())
      ensures var start := if from <= old(Reach(BGChar)) then from else old(abc);
              start + (to - from) <= |Text()| && text == Text()[start..start + (to - from)]
              && abc == if old(abc) <= old(Reach(BGChar)) then old(abc) else start
    {
      var off := acc;
      ghost var was, reach := Text(), Reach(BGChar);
      ghost var start := if from <= reach then from else off;
      var _ := Seek(from, FromBOF, BGChar);
      assert abc == start && Reach(BGChar) == reach && Text() == was;
      text := CutAtCursor(to - from, was);
      assert abc == start && Reach(BGChar) == reach && Text() == was;
      var _ := Seek(off, FromBOF, BGChar);
    }

    ghost function State(): (g: Gap)
      requires Valid()
      reads this, buf
    {
      Gap(Text(), abc, buf.Length, hidden)
    }

    method InsertSafely(s: Bytes)
      requires Valid() && Safe(State(), OpInsert(s))
      modifies this`abc, this`bbc, this`acc, this`bcc, this`buf, buf
      ensures Valid() && (buf == old(buf) || fresh(buf))
      ensures State() == Stepped(old(State()), OpInsert(s))
    {
      hide Survives, GrownSize, AfterInsert, Edited;
      CursorSplits(Before(), After());
      Insert(s);
    }

    method PeekSafely(delta: int) returns (ch: int)
      requires Valid() && Safe(State(), OpPeek(delta))
      modifies this`abc, this`bbc, this`acc, this`bcc, buf
      ensures Valid() && State() == Stepped(old(State()), OpPeek(delta))
      ensures Char(ch) == ReplyTo(old(State()), OpPeek(delta))
    {
      hide SignedChar, Survives, GrownSize, Edited, Target;
      assert |Text()| == abc + bbc && Reach(BGChar) == Within(State(), BGChar);
      ch := Peek(delta);
    }

    method SliceSafely(from: nat, to: nat) returns (text: Bytes)
      requires Valid() && Safe(State(), OpGetText(from, to))
      modifies this`abc, this`bbc, this`acc, this`bcc, buf
      ensures Valid() && State() == Stepped(old(State()), OpGetText(from, to))
      ensures Slice(text) == ReplyTo(old(State()), OpGetText(from, to))
    {
      hide SignedChar, Survives, GrownSize, Edited, Target, Found;
      ghost var was, at := Text(), abc;
      assert |was| == abc + bbc && Reach(BGChar) == Within(State(), BGChar);
      text := GetText(from, to);
      assert Text() == was;
    }

    method Apply(op: Op) returns (reply: Reply)
      requires Valid() && Safe(State(), op)
      modifies this`abc, this`bbc, this`acc, this`bcc, this`buf, buf
      ensures Valid() && (buf == old(buf) || fresh(buf))
      ensures State() == Stepped(old(State()), op) && reply == ReplyTo(old(State()), op)
    {
      hide Survives, GrownSize, AfterInsert, Edited, Target;
      match op
      case OpSeek(off, whence, unit) =>
        assert |Text()| == abc + bbc && Reach(unit) == Within(State(), unit);
        var ok := Seek(off, whence, unit);
        reply := Done(ok);
      case OpDelete(n) =>
        var ok := Delete(n);
        reply := Done(ok);
      case OpInsert(s) =>
        InsertSafely(s);
        reply := Done(true);
      case OpPeek(delta) =>
        var ch := PeekSafely(delta);
        reply := Char(ch);
      case OpGetText(from, to) =>
        var text := SliceSafely(from, to);
        reply := Slice(text);
    }
  }

  // --- inserting into any gap ---

  function Repeated(c: Octet, n: nat): (r: Bytes)
    ensures |r| == n && forall i :: 0 <= i < n ==> r[i] == c
  {
    seq(n, _ => c)
  }

  /** The size of the array after `n` more octets: it doubles whenever it is full. */
  function GrownSize(size: nat, used: nat, n: nat): (r: nat)
    requires 0 < size && used <= size
    ensures r >= size && used + n <= r && (r > size ==> r % 2 == 0 && r / 2 < used + n && r / 2 >= size)
    decreases used + n - size
  {
    if used + n <= size then size else GrownSize(2 * size, used, n)
  }

  lemma {:induction false} GrownOneMore(size: nat, used: nat, n: nat)
    requires 0 < size && used <= size
    ensures var r := GrownSize(size, used, n);
            GrownSize(size, used, n + 1) == if used + n == r then 2 * r else r
    decreases used + n - size
  {
    if used + n > size {
      GrownOneMore(2 * size, used, n);
    }
  }

  /** The octet that is before the cursor when the array last grows. */
  function Copied(before: Bytes, after: Bytes, size: nat, s: Bytes): (c: Octet)
    requires 0 < size && |after| < size && |before| + |after| <= size
    requires GrownSize(size, |before| + |after|, |s|) > size
  {
    (before + s)[GrownSize(size, |before| + |after|, |s|) / 2 - |after| - 1]
  }

  /** What stands after the cursor once `s` is inserted: untouched while the array does not grow,
      else copies of one octet; and the last place taken, if the array is just full, is its first. */
  function AfterInsert(before: Bytes, after: Bytes, size: nat, s: Bytes): (r: Bytes)
    requires 0 < size && |after| < size && |before| + |after| <= size
    ensures |r| == |after|
  {
    var used := |before| + |after|;
    var size' := GrownSize(size, used, |s|);
    var kept := if size' == size then after else Repeated(Copied(before, after, size, s), |after|);
    if after != [] && s != [] && used + |s| == size' then kept[0 := s[|s| - 1]] else kept
  }

  lemma NothingInserted(before: Bytes, after: Bytes, size: nat)
    requires 0 < size && |after| < size && |before| + |after| <= size
    ensures AfterInsert(before, after, size, []) == after && GrownSize(size, |before| + |after|, 0) == size
  {
  }

  /** One more octet: the copying when the array is full, then the octet's own place. */
  lemma OneMoreOctet(before: Bytes, after: Bytes, size: nat, s: Bytes, c: Octet)
    requires 0 < size && |after| < size && |before| + |after| <= size
    ensures var used := |before| + |after|;
            var size' := GrownSize(size, used, |s|);
            var full := used + |s| == size';
            var top := if full then 2 * size' else size';
            GrownSize(size, used, |s| + 1) == top && (full ==> |before + s| > 0)
            && AfterInsert(before, after, size, s + [c])
               == var now := if full && |before + s| > 0 then Repeated((before + s)[|before + s| - 1], |after|)
                             else AfterInsert(before, after, size, s);
                  if used + |s| + 1 == top && after != [] then now[0 := c] else now
  {
    hide GrownSize, Repeated, Copied;
    var used := |before| + |after|;
    GrownOneMore(size, used, |s|);
    var size' := GrownSize(size, used, |s|);
    assert (s + [c])[|s|] == c && |s + [c]| == |s| + 1;
    if used + |s| == size' {
      CopiedNow(before, after, size, s, c);
    } else if size' > size {
      CopiedBefore(before, after, size, s, c);
    }
  }

  lemma CopiedNow(before: Bytes, after: Bytes, size: nat, s: Bytes, c: Octet)
    requires 0 < size && |after| < size && |before| + |after| <= size
    requires |before| + |after| + |s| == GrownSize(size, |before| + |after|, |s|)
    requires GrownSize(size, |before| + |after|, |s + [c]|) == 2 * GrownSize(size, |before| + |after|, |s|)
    ensures |before + s| > 0 && Copied(before, after, size, s + [c]) == (before + s)[|before + s| - 1]
  {
    hide GrownSize;
    Assoc(before, s, [c]);
  }

  lemma CopiedBefore(before: Bytes, after: Bytes, size: nat, s: Bytes, c: Octet)
    requires 0 < size && |after| < size && |before| + |after| <= size
    requires GrownSize(size, |before| + |after|, |s + [c]|) == GrownSize(size, |before| + |after|, |s|) > size
    ensures Copied(before, after, size, s + [c]) == Copied(before, after, size, s)
  {
    hide GrownSize;
    Assoc(before, s, [c]);
  }

  /** An insert leaves the text after the cursor alone: there is none, or it happens to be what the
      insert writes over it. */
  predicate Survives(before: Bytes, after: Bytes, size: nat, s: Bytes)
    requires 0 < size && |after| < size && |before| + |after| <= size
  {
    var used := |before| + |after|;
    var size' := GrownSize(size, used, |s|);
    s == [] || after == []
    || ((size' > size ==> forall k :: 1 <= k < |after| ==> after[k] == Copied(before, after, size, s))
        && (used + |s| == size' ==> after[0] == s[|s| - 1])
        && (used + |s| < size' && size' > size ==> after[0] == Copied(before, after, size, s)))
  }

  lemma InsertExactly(before: Bytes, after: Bytes, size: nat, s: Bytes)
    requires 0 < size && |after| < size && |before| + |after| <= size
    ensures before + s + AfterInsert(before, after, size, s) == Edited(before + after, |before|, 0, s)
            <==> Survives(before, after, size, s)
  {
    hide GrownSize;
    InsertedText(before, after, s);
    var left := AfterInsert(before, after, size, s);
    SameTail(before + s, left, after);
    if Survives(before, after, size, s) {
      assert forall k :: 0 <= k < |after| ==> left[k] == after[k];
      assert left == after;
    }
  }

  lemma SameTail(x: Bytes, a: Bytes, b: Bytes)
    ensures x + a == x + b <==> a == b
  {
    PrefixAndRest(x, a);
    PrefixAndRest(x, b);
  }

  /** With `gap` free octets, the spare one included: a shorter string is an edit; one that fills the
      gap is if it ends in the octet that is next; and one for which the array grows once is if and
      only if all the text after the cursor is copies of the octet that filled the gap. */
  lemma SurvivesWithGap(before: Bytes, after: Bytes, size: nat, s: Bytes, gap: nat)
    requires 0 < gap && |before| + |after| + gap == size && after != [] && s != []
    ensures |s| < gap ==> Survives(before, after, size, s)
    ensures |s| == gap ==> (Survives(before, after, size, s) <==> after[0] == s[gap - 1])
    ensures gap < |s| < gap + size ==>
              (Survives(before, after, size, s) <==> forall k :: 0 <= k < |after| ==> after[k] == s[gap - 1])
  {
    if gap < |s| < gap + size {
      assert GrownSize(2 * size, |before| + |after|, |s|) == 2 * size;
      assert Copied(before, after, size, s) == s[gap - 1];
    }
  }

  // --- runs ---

  /** The text, the cursor, the size of the array, and how many octets of the file were not counted. */
  datatype Gap = Gap(text: Bytes, at: nat, size: nat, hidden: nat)

  datatype Op =
    | OpSeek(off: int, whence: Whence, unit: Unit)
    | OpDelete(n: nat)
    | OpInsert(s: Bytes)
    | OpPeek(delta: int)
    | OpGetText(from: nat, to: nat)

  datatype Reply = Done(ok: bool) | Char(ch: int) | Slice(text: Bytes)

  predicate ValidGap(g: Gap)
  {
    g.at <= |g.text| < g.size
  }

  /** How far a seek can go. */
  function Within(g: Gap, unit: Unit): (r: int)
  {
    if unit.BGChar? then |g.text| - g.hidden else |g.text|
  }

  /** The place a peek looks at is in the counted text, or is the cursor. */
  predicate Found(g: Gap, delta: int)
  {
    delta == 0 || 0 <= g.at + delta <= Within(g, BGChar)
  }

  /** Where a slice starts: as asked, if that is in the counted text, else at the cursor. */
  function SliceStart(g: Gap, from: nat): (r: nat)
  {
    if from <= Within(g, BGChar) then from else g.at
  }

  /** An insert that is an edit and leaves a spare octet, without growing if octets were not counted;
      a peek that is not at the very end, a slice inside the text. */
  predicate Safe(g: Gap, op: Op)
    requires ValidGap(g)
  {
    match op
    case OpSeek(_, _, _) => true
    case OpDelete(_) => true
    case OpInsert(s) =>
      Survives(g.text[..g.at], g.text[g.at..], g.size, s) && |g.text| + |s| < GrownSize(g.size, |g.text|, |s|)
      && (g.hidden == 0 || |g.text| + |s| < g.size)
    case OpPeek(delta) => Found(g, delta) ==> g.at + delta != |g.text|
    case OpGetText(from, to) => from <= to && SliceStart(g, from) + (to - from) <= |g.text|
  }

  /** A peek or a slice brings the cursor back unless it was past the counted text. */
  function Stepped(g: Gap, op: Op): (r: Gap)
    requires ValidGap(g) && Safe(g, op)
  {
    match op
    case OpSeek(off, whence, unit) =>
      var t := Target(g.at, Within(g, unit), off, whence);
      if 0 <= t <= Within(g, unit) then g.(at := t) else g
    case OpDelete(n) => if g.at + n <= |g.text| then g.(text := Edited(g.text, g.at, n, [])) else g
    case OpInsert(s) => Gap(Edited(g.text, g.at, 0, s), g.at + |s|, GrownSize(g.size, |g.text|, |s|), g.hidden)
    case OpPeek(delta) =>
      if Found(g, delta) && delta != 0 && g.at > Within(g, BGChar) then g.(at := g.at + delta) else g
    case OpGetText(from, to) => if g.at <= Within(g, BGChar) then g else g.(at := SliceStart(g, from))
  }

  function ReplyTo(g: Gap, op: Op): (r: Reply)
    requires ValidGap(g) && Safe(g, op)
  {
    match op
    case OpSeek(off, whence, unit) => Done(0 <= Target(g.at, Within(g, unit), off, whence) <= Within(g, unit))
    case OpDelete(n) => Done(g.at + n <= |g.text|)
    case OpInsert(s) => Done(true)
    case OpPeek(delta) => Char(if Found(g, delta) then SignedChar(g.text[g.at + delta]) else -1)
    case OpGetText(from, to) => Slice(g.text[SliceStart(g, from)..SliceStart(g, from) + (to - from)])
  }

  /** Which operations are safe at any time: every seek and delete, and every insert that leaves an octet of
      the gap. */
  lemma SafeAnyTime(g: Gap, op: Op)
    requires ValidGap(g)
    ensures op.OpSeek? || op.OpDelete? ==> Safe(g, op)
    ensures op.OpInsert? && |g.text| + |op.s| < g.size ==> Safe(g, op)
  {
    hide Survives, Copied;
    if op.OpInsert? && |g.text| + |op.s| < g.size {
      var before, after := g.text[..g.at], g.text[g.at..];
      if op.s == [] || after == [] {
        NothingToSurvive(before, after, g.size, op.s);
      } else {
        SurvivesWithGap(before, after, g.size, op.s, g.size - |g.text|);
      }
    }
  }

  lemma NothingToSurvive(before: Bytes, after: Bytes, size: nat, s: Bytes)
    requires 0 < size && |after| < size && |before| + |after| <= size && (s == [] || after == [])
    ensures Survives(before, after, size, s)
  {
  }

  lemma SteppedIsValid(g: Gap, op: Op)
    requires ValidGap(g) && Safe(g, op)
    ensures ValidGap(Stepped(g, op))
  {
    hide Survives, GrownSize;
  }

  /** Where a seek leaves the cursor: as far from the start, from the cursor or from the end as was asked,
      or where it was. */
  lemma SeekLands(g: Gap, off: int, unit: Unit)
    requires ValidGap(g)
    ensures var n := if unit.BGChar? then |g.text| - g.hidden else |g.text|;
            Stepped(g, OpSeek(off, FromBOF, unit)).at == (if 0 <= off <= n then off else g.at)
            && Stepped(g, OpSeek(off, FromHere, unit)).at == (if 0 <= g.at + off <= n then g.at + off else g.at)
            && Stepped(g, OpSeek(off, FromEOF, unit)).at == (if -n <= off <= 0 then n + off else g.at)
  {
  }

  /** The state after a run, while every operation is safe. */
  function GapAfter(g: Gap, ops: seq<Op>): (r: Option<Gap>)
    requires ValidGap(g)
    ensures r.Some? ==> ValidGap(r.value)
  {
    if ops == [] then Some(g)
    else
      var before := GapAfter(g, ops[..|ops| - 1]);
      if before.None? || !Safe(before.value, ops[|ops| - 1]) then None
      else
        SteppedIsValid(before.value, ops[|ops| - 1]);
        Some(Stepped(before.value, ops[|ops| - 1]))
  }

  function Replies(g: Gap, ops: seq<Op>): (r: seq<Reply>)
    requires ValidGap(g) && GapAfter(g, ops).Some?
  {
    if ops == [] then []
    else Replies(g, ops[..|ops| - 1]) + [ReplyTo(GapAfter(g, ops[..|ops| - 1]).value, ops[|ops| - 1])]
  }

  /** A file as `bufgap_open` leaves it. */
  function Opened(text: Bytes): (r: Gap)
    ensures ValidGap(r)
  {
    Gap(text, 0, (|text| / 4096 + 1) * 4096, |text| - BoundedStrlen(text))
  }

  /** Every run of safe operations on an opened file does to the array what the edits do to the text:
      all replies, the text that is written out and the final cursor are those of the sequence. */
  method RunGap(text: Bytes, ops: seq<Op>) returns (replies: seq<Reply>, final: Bytes, at: nat)
    requires GapAfter(Opened(text), ops).Some?
    ensures var g := Opened(text);
            replies == Replies(g, ops) && final == GapAfter(g, ops).value.text && at == GapAfter(g, ops).value.at
  {
    hide Safe, Stepped, ReplyTo, GapAfter, Replies;
    var b := new BufGap(text);
    ghost var g := Opened(text);
    replies := [];
    NoOperations(g, ops);
    for i := 0 to |ops|
      invariant fresh(b) && fresh(b.buf) && b.Valid()
      invariant GapAfter(g, ops[..i]) == Some(b.State()) && replies == Replies(g, ops[..i])
    {
      OneOperation(g, ops, i);
      var reply := b.Apply(ops[i]);
      replies := replies + [reply];
    }
    assert ops[..|ops|] == ops;
    at := b.abc;
    final := b.Write();
  }

  lemma NoOperations(g: Gap, ops: seq<Op>)
    requires ValidGap(g)
    ensures GapAfter(g, ops[..0]) == Some(g) && Replies(g, ops[..0]) == []
  {
  }

  lemma OneOperation(g: Gap, ops: seq<Op>, i: nat)
    requires ValidGap(g) && i < |ops| && GapAfter(g, ops).Some?
    ensures GapAfter(g, ops[..i]).Some? && GapAfter(g, ops[..i + 1]).Some?
    ensures var now := GapAfter(g, ops[..i]).value;
            Safe(now, ops[i]) && GapAfter(g, ops[..i + 1]) == Some(Stepped(now, ops[i]))
            && Replies(g, ops[..i + 1]) == Replies(g, ops[..i]) + [ReplyTo(now, ops[i])]
  {
    hide Safe, Stepped, ReplyTo, ValidGap;
    SafePrefix(g, ops, i + 1);
    TakeSnoc(ops, i);
  }

  lemma {:induction false} SafePrefix(g: Gap, ops: seq<Op>, i: nat)
    requires ValidGap(g) && i <= |ops| && GapAfter(g, ops).Some?
    ensures GapAfter(g, ops[..i]).Some?
    decreases |ops|
  {
    hide Safe, Stepped;
    if i == |ops| {
      assert ops[..i] == ops;
    } else {
      assert ops[..|ops| - 1][..i] == ops[..i];
      SafePrefix(g, ops[..|ops| - 1], i);
    }
  }

  /** Every octet of an edited text. */
  lemma EditedInOctets(text: Bytes, at: nat, deleted: nat, inserted: Bytes, i: nat)
    requires at + deleted <= |text|
    ensures var r := Edited(text, at, deleted, inserted);
            |r| == |text| - deleted + |inserted|
            && (i < at ==> r[i] == text[i])
            && (at <= i < at + |inserted| ==> r[i] == inserted[i - at])
            && (at + |inserted| <= i < |r| ==> r[i] == text[i - |inserted| + deleted])
  {
  }

  lemma CursorSplits(b: Bytes, a: Bytes)
    ensures (b + a)[..|b|] == b && (b + a)[|b|..] == a
  {
  }

  function Target(here: nat, size: int, off: int, whence: Whence): int
  {
    match whence
    case FromBOF => off
    case FromHere => here + off
    case FromEOF => size + off
  }

  function SignedChar(c: Octet): (r: int)
    ensures -128 <= r <= 127 && (r - c) % 256 == 0
  {
    if c < 128 then c else c as int - 256
  }

  /** A write at `at`, seen from the slice before it and from one that starts at or after it. */
  lemma UpdateSlices(s: Bytes, at: nat, from: nat, c: Octet)
    requires at < |s| && at <= from < |s|
    ensures s[at := c][..at + 1] == s[..at] + [c]
    ensures at < from || from == |s| - 1 ==> s[at := c][from..|s| - 1] == s[from..|s| - 1]
    ensures at == from < |s| - 1 ==> s[at := c][from..|s| - 1] == s[from..|s| - 1][0 := c]
  {
  }

  lemma DropInSlice(s: Bytes, i: nat, j: nat, n: nat)
    requires i + n <= j <= |s|
    ensures s[i..j][n..] == s[i + n..j]
  {
  }

  lemma DeletedTail(b: Bytes, a: Bytes, n: nat)
    requires n <= |a|
    ensures b + a[n..] == Edited(b + a, |b|, n, [])
  {
    assert (b + a)[|b| + n..] == a[n..] && (b + a)[..|b|] == b;
    assert b + [] == b;
  }

  lemma InsertedText(b: Bytes, a: Bytes, s: Bytes)
    ensures b + s + a == Edited(b + a, |b|, 0, s)
  {
    PrefixAndRest(b, a);
  }

  lemma OverwrittenText(b: Bytes, a: Bytes, c: Octet)
    requires a != []
    ensures b + [c] + a[0 := c] == b + [c] + a <==> a[0] == c
    ensures (b + a)[|b|] == a[0]
  {
    var x, y := b + [c] + a[0 := c], b + [c] + a;
    assert x[|b| + 1] == c && y[|b| + 1] == a[0];
    assert a[0] == c ==> a[0 := c] == a;
  }

  lemma SliceAfter(b: Bytes, a: Bytes, n: nat)
    requires n <= |a|
    ensures (b + a)[|b|..|b| + n] == a[..n]
  {
  }
}
