/**
 The printer/parser pair of sds.c: sdscatrepr writes a byte string as a quoted token, sdssplitargs
 splits a line into tokens. Bytes are compared with the ASCII codes of the C literals; `isspace` is
 the one of the C locale, and `isprint` is any predicate.
 */
module SdsQuoting {
  import opened Basics

  const QUOTE: byte := 34
  const APOSTROPHE: byte := 39
  const BACKSLASH: byte := 92
  const SPACE: byte := 32

  predicate IsSpace(b: byte) {
    b == 32 || 9 <= b <= 13
  }

  /** is_hex_digit */
  predicate IsHex(b: byte) {
    48 <= b <= 57 || 97 <= b <= 102 || 65 <= b <= 70
  }

  /** hex_digit_to_int */
  function HexValue(b: byte): (v: nat)
    ensures v < 16
  {
    if 48 <= b <= 57 then b - 48
    else if 97 <= b <= 102 then b - 87
    else if 65 <= b <= 70 then b - 55
    else 0
  }

  /** A digit as printed by `%02x`. */
  function HexDigit(v: nat): (b: byte)
    requires v < 16
    ensures IsHex(b) && HexValue(b) == v
  {
    if v < 10 then 48 + v else 87 + v
  }

  /** The byte `i` places ahead, the terminating NUL included; reading further would be an overrun. */
  function Peek(s: bytes, i: nat): byte
    requires i <= |s|
  {
    if i < |s| then s[i] else 0
  }

  // ----------------------------------------------------------------- printing

  /** `%c` with a NUL prints an empty C string: nothing is appended for a NUL that counts as printable. */
  function ReprByte(b: byte, isprint: byte -> bool): bytes {
    if b == BACKSLASH || b == QUOTE then [BACKSLASH, b]
    else if b == 10 then [BACKSLASH, 110]
    else if b == 13 then [BACKSLASH, 114]
    else if b == 9 then [BACKSLASH, 116]
    else if b == 7 then [BACKSLASH, 97]
    else if b == 8 then [BACKSLASH, 98]
    else if isprint(b) then if b == 0 then [] else [b]
    else [BACKSLASH, 120, HexDigit(b / 16), HexDigit(b % 16)]
  }

  function ReprBytes(s: bytes, isprint: byte -> bool): bytes {
    if s == [] then [] else ReprByte(s[0], isprint) + ReprBytes(s[1..], isprint)
  }

  function Repr(s: bytes, isprint: byte -> bool): bytes {
    [QUOTE] + ReprBytes(s, isprint) + [QUOTE]
  }

  lemma {:induction false} ReprBytesAppend(a: bytes, b: byte, isprint: byte -> bool)
    ensures ReprBytes(a + [b], isprint) == ReprBytes(a, isprint) + ReprByte(b, isprint)
  {
    if a == [] {
      assert a + [b] == [b];
      assert ReprBytes([b], isprint) == ReprByte(b, isprint) + ReprBytes([], isprint);
    } else {
      assert (a + [b])[1..] == a[1..] + [b];
      ReprBytesAppend(a[1..], b, isprint);
      assert ReprByte(a[0], isprint) + (ReprBytes(a[1..], isprint) + ReprByte(b, isprint))
          == (ReprByte(a[0], isprint) + ReprBytes(a[1..], isprint)) + ReprByte(b, isprint);
    }
  }

  /** A string of printable bytes that need no escape is printed between quotes as it is. */
  lemma {:induction false} ReprPlain(s: bytes, isprint: byte -> bool)
    requires forall i :: 0 <= i < |s| ==> isprint(s[i]) && s[i] !in {0, 7, 8, 9, 10, 13, 34, 92}
    ensures ReprBytes(s, isprint) == s && Repr(s, isprint) == [34] + s + [34]
  {
    if s != [] {
      ReprPlain(s[1..], isprint);
      assert ReprByte(s[0], isprint) == [s[0]];
      assert s == [s[0]] + s[1..];
    }
  }

  /** Only bytes that are neither printable nor have a letter are printed as two digits. */
  lemma ReprHex(b: byte, isprint: byte -> bool)
    ensures |ReprByte(b, isprint)| == 4 <==> !isprint(b) && b !in {7, 8, 9, 10, 13, 34, 92}
  {
  }

  /** sdscatrepr */
  method CatRepr(s: bytes, p: bytes, isprint: byte -> bool) returns (r: bytes)
    ensures r == s + Repr(p, isprint)
  {
    hide ReprByte;
    r := s + [QUOTE];
    var i := 0;
    assert p[..0] == [];
    while i < |p|
      invariant i <= |p| && r == s + [QUOTE] + ReprBytes(p[..i], isprint)
    {
      assert p[..i + 1] == p[..i] + [p[i]];
      ReprBytesAppend(p[..i], p[i], isprint);
      r := r + ReprByte(p[i], isprint);
      i := i + 1;
    }
    assert p[..i] == p;
    r := r + [QUOTE];
    assert r == s + ([QUOTE] + ReprBytes(p, isprint) + [QUOTE]);
  }

  // ------------------------------------------------------------------ parsing

  datatype Mode = Plain | Quoted | SingleQuoted

  /** What stands for an escaped letter inside double quotes. */
  function Unescape(b: byte): byte {
    if b == 110 then 10
    else if b == 114 then 13
    else if b == 116 then 9
    else if b == 98 then 8
    else if b == 97 then 7
    else b
  }

  /** `\xHH` at the start of `s`. */
  predicate HexEscape(s: bytes) {
    Peek(s, 0) == BACKSLASH && Peek(s, 1) == 120 && IsHex(Peek(s, 2)) && IsHex(Peek(s, 3))
  }

  /** A closing quote must be followed by a blank or by the end. */
  predicate BadClose(s: bytes)
    requires s != []
  {
    Peek(s, 1) != 0 && !IsSpace(Peek(s, 1))
  }

  /**
   One token of a C string: its bytes so far are `cur`, `s` is what remains of the line. Every byte
   is read through `Peek`, so nothing past the terminating NUL is looked at. `None` is a syntax error.
   */
  function Token(s: bytes, mode: Mode, cur: bytes): (r: Option<(bytes, bytes)>)
    ensures r.Some? ==> |r.value.1| <= |s|
    decreases |s|
  {
    match mode
    case Quoted =>
      if HexEscape(s) then Token(s[4..], Quoted, cur + [16 * HexValue(s[2]) + HexValue(s[3])])
      else if Peek(s, 0) == BACKSLASH && Peek(s, 1) != 0 then Token(s[2..], Quoted, cur + [Unescape(s[1])])
      else if Peek(s, 0) == QUOTE then if BadClose(s) then None else Some((cur, s[1..]))
      else if Peek(s, 0) == 0 then None
      else Token(s[1..], Quoted, cur + [s[0]])
    case SingleQuoted =>
      if Peek(s, 0) == BACKSLASH && Peek(s, 1) == APOSTROPHE then Token(s[2..], SingleQuoted, cur + [APOSTROPHE])
      else if Peek(s, 0) == APOSTROPHE then if BadClose(s) then None else Some((cur, s[1..]))
      else if Peek(s, 0) == 0 then None
      else Token(s[1..], SingleQuoted, cur + [s[0]])
    case Plain =>
      var c := Peek(s, 0);
      if c == 0 then Some((cur, s))
      else if c == SPACE || c == 10 || c == 13 || c == 9 then Some((cur, s[1..]))
      else if c == QUOTE then Token(s[1..], Quoted, cur)
      else if c == APOSTROPHE then Token(s[1..], SingleQuoted, cur)
      else Token(s[1..], Plain, cur + [s[0]])
  }

  function SkipBlanks(s: bytes): (r: bytes)
    ensures |r| <= |s| && (r != [] ==> !IsSpace(r[0]))
  {
    if Peek(s, 0) != 0 && IsSpace(s[0]) then SkipBlanks(s[1..]) else s
  }

  /** sdssplitargs: the tokens of a line, or `None` for unbalanced quotes. */
  function Split(line: bytes): Option<seq<bytes>>
    decreases |line|
  {
    var s := SkipBlanks(line);
    if Peek(s, 0) == 0 then Some([]) else
      var t := Token(s, Plain, []);
      if t.None? then None else
        var rest := Split(t.value.1);
        if rest.None? then None else Some([t.value.0] + rest.value)
  }

  /** A line has no arguments exactly when it is blank. */
  lemma {:induction false} NoArguments(line: bytes)
    requires 0 !in line
    ensures SkipBlanks(line) == [] <==> forall b :: b in line ==> IsSpace(b)
    ensures Split(line) == Some([]) <==> forall b :: b in line ==> IsSpace(b)
    decreases |line|
  {
    if line != [] {
      assert line == [line[0]] + line[1..];
      if IsSpace(line[0]) {
        NoArguments(line[1..]);
        BlankFirst(line);
      }
    }
  }

  lemma BlankFirst(line: bytes)
    requires line != [] && line[0] != 0 && IsSpace(line[0])
    ensures SkipBlanks(line) == SkipBlanks(line[1..]) && Split(line) == Split(line[1..])
  {
  }

  /** sdssplitargs as written: a cursor `p` into the line, moved byte by byte. */
  method SplitArgs(line: bytes) returns (r: Option<seq<bytes>>)
    ensures r == Split(line)
  {
    var vector: seq<bytes> := [];
    var p := 0;
    assert line[0..] == line;
    PrependNothing(vector, Split(line));
    while true
      invariant p <= |line|
      invariant Split(line) == Prepend(vector, Split(line[p..]))
      decreases |line| - p
    {
      ghost var p0 := p;
      while Peek(line, p) != 0 && IsSpace(line[p])
        invariant p0 <= p <= |line| && SkipBlanks(line[p..]) == SkipBlanks(line[p0..])
        decreases |line| - p
      {
        assert line[p..][1..] == line[p + 1..];
        p := p + 1;
      }
      assert SkipBlanks(line[p..]) == line[p..];
      if Peek(line, p) == 0 {
        PrependNothing(vector, Some([]));
        return Some(vector);
      }
      var t, p2 := ReadToken(line, p);
      if t.None? { return None; }
      PrependMore(vector, t.value, Split(line[p2..]));
      vector, p := vector + [t.value], p2;
    }
  }

  function Prepend(v: seq<bytes>, r: Option<seq<bytes>>): Option<seq<bytes>> {
    if r.None? then None else Some(v + r.value)
  }

  lemma PrependNothing(v: seq<bytes>, r: Option<seq<bytes>>)
    ensures v == [] ==> Prepend(v, r) == r
    ensures r == Some([]) ==> Prepend(v, r) == Some(v)
  {
    if r.Some? { assert [] + r.value == r.value && v + [] == v; }
  }

  lemma PrependMore(v: seq<bytes>, t: bytes, r: Option<seq<bytes>>)
    ensures Prepend(v, Prepend([t], r)) == Prepend(v + [t], r)
  {
    if r.Some? { assert v + ([t] + r.value) == (v + [t]) + r.value; }
  }

  /** `Token` from a position of the line, in each of the three modes. */
  lemma QuotedAt(line: bytes, p: nat, cur: bytes)
    requires p <= |line|
    ensures Token(line[p..], Quoted, cur) ==
      if Peek(line, p) == BACKSLASH && Peek(line, p + 1) == 120 && IsHex(Peek(line, p + 2)) && IsHex(Peek(line, p + 3))
      then Token(line[p + 4..], Quoted, cur + [16 * HexValue(line[p + 2]) + HexValue(line[p + 3])])
      else if Peek(line, p) == BACKSLASH && Peek(line, p + 1) != 0 then Token(line[p + 2..], Quoted, cur + [Unescape(line[p + 1])])
      else if Peek(line, p) == QUOTE
      then if Peek(line, p + 1) != 0 && !IsSpace(Peek(line, p + 1)) then None else Some((cur, line[p + 1..]))
      else if Peek(line, p) == 0 then None
      else Token(line[p + 1..], Quoted, cur + [line[p]])
  {
    Slides(line, p);
  }

  lemma SingleAt(line: bytes, p: nat, cur: bytes)
    requires p <= |line|
    ensures Token(line[p..], SingleQuoted, cur) ==
      if Peek(line, p) == BACKSLASH && Peek(line, p + 1) == APOSTROPHE then Token(line[p + 2..], SingleQuoted, cur + [APOSTROPHE])
      else if Peek(line, p) == APOSTROPHE
      then if Peek(line, p + 1) != 0 && !IsSpace(Peek(line, p + 1)) then None else Some((cur, line[p + 1..]))
      else if Peek(line, p) == 0 then None
      else Token(line[p + 1..], SingleQuoted, cur + [line[p]])
  {
    Slides(line, p);
  }

  lemma PlainAt(line: bytes, p: nat, cur: bytes)
    requires p <= |line|
    ensures var c := Peek(line, p);
      Token(line[p..], Plain, cur) ==
      if c == 0 then Some((cur, line[p..]))
      else if c == SPACE || c == 10 || c == 13 || c == 9 then Some((cur, line[p + 1..]))
      else if c == QUOTE then Token(line[p + 1..], Quoted, cur)
      else if c == APOSTROPHE then Token(line[p + 1..], SingleQuoted, cur)
      else Token(line[p + 1..], Plain, cur + [line[p]])
  {
    Slides(line, p);
  }

  lemma Slides(line: bytes, p: nat)
    requires p <= |line|
    ensures forall k :: 0 <= k <= |line| - p ==> Peek(line[p..], k) == Peek(line, p + k) && line[p..][k..] == line[p + k..]
  {
  }

  /** The inner loop of sdssplitargs. */
  method ReadToken(line: bytes, p0: nat) returns (t: Option<bytes>, p: nat)
    requires p0 < |line| && line[p0] != 0 && !IsSpace(line[p0])
    ensures p0 < p <= |line|
    ensures var s := Token(line[p0..], Plain, []);
      if t.None? then s.None? else s == Some((t.value, line[p..]))
  {
    hide Token;
    var inq, insq, done := false, false, false;
    var current: bytes := [];
    p := p0;
    ghost var spec := Token(line[p0..], Plain, []);
    while !done
      invariant p0 <= p <= |line| && !(inq && insq)
      invariant !done ==> spec == Token(line[p..], if inq then Quoted else if insq then SingleQuoted else Plain, current)
      invariant done ==> spec == Some((current, line[p..]))
      invariant p == p0 ==> !done && !inq && !insq
      decreases |line| - p, !done
    {
      if inq {
        QuotedAt(line, p, current);
        if Peek(line, p) == BACKSLASH && Peek(line, p + 1) == 120 &&
           IsHex(Peek(line, p + 2)) && IsHex(Peek(line, p + 3)) {
          current := current + [16 * HexValue(line[p + 2]) + HexValue(line[p + 3])];
          p := p + 3;
        } else if Peek(line, p) == BACKSLASH && Peek(line, p + 1) != 0 {
          p := p + 1;
          current := current + [Unescape(line[p])];
        } else if Peek(line, p) == QUOTE {
          if Peek(line, p + 1) != 0 && !IsSpace(Peek(line, p + 1)) { return None, p + 1; }
          done := true;
        } else if Peek(line, p) == 0 {
          return None, p;
        } else {
          current := current + [line[p]];
        }
      } else if insq {
        SingleAt(line, p, current);
        if Peek(line, p) == BACKSLASH && Peek(line, p + 1) == APOSTROPHE {
          p := p + 1;
          current := current + [APOSTROPHE];
        } else if Peek(line, p) == APOSTROPHE {
          if Peek(line, p + 1) != 0 && !IsSpace(Peek(line, p + 1)) { return None, p + 1; }
          done := true;
        } else if Peek(line, p) == 0 {
          return None, p;
        } else {
          current := current + [line[p]];
        }
      } else {
        PlainAt(line, p, current);
        var c := Peek(line, p);
        if c == SPACE || c == 10 || c == 13 || c == 9 || c == 0 {
          done := true;
        } else if c == QUOTE {
          inq := true;
        } else if c == APOSTROPHE {
          insq := true;
        } else {
          current := current + [line[p]];
        }
      }
      if Peek(line, p) != 0 { p := p + 1; }
    }
    t := Some(current);
  }

  // --------------------------------------------------------------- round trip

  /** Tokens as sdscatrepr prints them, separated by single spaces. */
  function Join(ts: seq<bytes>, isprint: byte -> bool): bytes {
    if ts == [] then []
    else if |ts| == 1 then Repr(ts[0], isprint)
    else Repr(ts[0], isprint) + [SPACE] + Join(ts[1..], isprint)
  }

  lemma QuotedByte(b: byte, rest: bytes, isprint: byte -> bool, cur: bytes)
    requires !isprint(0)
    ensures Token(ReprByte(b, isprint) + rest, Quoted, cur) == Token(rest, Quoted, cur + [b])
  {
    var r := ReprByte(b, isprint);
    var s := r + rest;
    assert s[|r|..] == rest;
    assert forall k :: 0 <= k < |r| ==> s[k] == r[k];
    if |r| == 2 {
      assert Unescape(r[1]) == b;
    }
  }

  lemma {:induction false} QuotedBytes(s: bytes, rest: bytes, isprint: byte -> bool, cur: bytes)
    requires !isprint(0) && (rest == [] || IsSpace(rest[0]))
    ensures Token(ReprBytes(s, isprint) + [QUOTE] + rest, Quoted, cur) == Some((cur + s, rest))
    decreases |s|
  {
    hide Token, ReprByte, ReprBytes;
    if s == [] {
      QuotedEnd(rest, cur, isprint);
    } else {
      var more := ReprBytes(s[1..], isprint) + [QUOTE] + rest;
      ReprBytesFirst(s, rest, isprint);
      QuotedByte(s[0], more, isprint, cur);
      QuotedBytes(s[1..], rest, isprint, cur + [s[0]]);
      assert (cur + [s[0]]) + s[1..] == cur + s;
    }
  }

  lemma ReprBytesFirst(s: bytes, rest: bytes, isprint: byte -> bool)
    requires s != []
    ensures ReprBytes(s, isprint) + [QUOTE] + rest == ReprByte(s[0], isprint) + (ReprBytes(s[1..], isprint) + [QUOTE] + rest)
  {
    hide ReprByte;
  }

  lemma QuotedEnd(rest: bytes, cur: bytes, isprint: byte -> bool)
    requires rest == [] || IsSpace(rest[0])
    ensures Token(ReprBytes([], isprint) + [QUOTE] + rest, Quoted, cur) == Some((cur + [], rest))
  {
    var tail := [QUOTE] + rest;
    assert ReprBytes([], isprint) + [QUOTE] + rest == tail;
    assert tail[1..] == rest && cur + [] == cur;
  }

  lemma ReprToken(s: bytes, rest: bytes, isprint: byte -> bool)
    requires !isprint(0) && (rest == [] || IsSpace(rest[0]))
    ensures Token(Repr(s, isprint) + rest, Plain, []) == Some((s, rest))
  {
    var line := Repr(s, isprint) + rest;
    assert line[1..] == ReprBytes(s, isprint) + [QUOTE] + rest;
    QuotedBytes(s, rest, isprint, []);
    assert [] + s == s;
  }

  /** Printing a list of byte strings and splitting the line gives the list back. */
  lemma {:induction false} RoundTrip(ts: seq<bytes>, isprint: byte -> bool)
    requires !isprint(0)
    ensures Split(Join(ts, isprint)) == Some(ts)
    decreases |ts|
  {
    if ts != [] {
      hide Token, Split, SkipBlanks;
      var more := Join(ts[1..], isprint);
      var rest := if |ts| == 1 then [] else [SPACE] + more;
      assert Join(ts, isprint) == Repr(ts[0], isprint) + rest;
      ReprToken(ts[0], rest, isprint);
      RoundTrip(ts[1..], isprint);
      assert Split(rest) == Some(ts[1..]) by { SkipSpace(more); }
      SplitStep(Repr(ts[0], isprint) + rest, ts[0], rest, ts[1..]);
      assert [ts[0]] + ts[1..] == ts;
    }
  }

  lemma SkipSpace(s: bytes)
    ensures Split([SPACE] + s) == Split(s)
  {
    assert ([SPACE] + s)[1..] == s;
  }

  lemma SplitStep(line: bytes, t: bytes, rest: bytes, ts: seq<bytes>)
    requires line != [] && line[0] == QUOTE
    requires Token(line, Plain, []) == Some((t, rest)) && Split(rest) == Some(ts)
    ensures Split(line) == Some([t] + ts)
  {
    hide Token;
  }

  /** The round trip holds for every list exactly when NUL does not count as printable. */
  lemma RoundTripIff(isprint: byte -> bool)
    ensures (forall ts :: Split(Join(ts, isprint)) == Some(ts)) <==> !isprint(0)
  {
    if isprint(0) {
      var ts: seq<bytes> := [[0]];
      assert ReprBytes([0], isprint) == ReprByte(0, isprint) + ReprBytes([], isprint);
      var line := Join(ts, isprint);
      assert line == [QUOTE, QUOTE];
      assert Token(line[1..], Quoted, []) == Some(([], []));
      assert Split(Join(ts, isprint)) != Some(ts);
    } else {
      forall ts ensures Split(Join(ts, isprint)) == Some(ts) { RoundTrip(ts, isprint); }
    }
  }
}
