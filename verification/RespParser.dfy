/**
 What processMultibulkBuffer and processInlineBuffer do, apart from where the unread bytes happen to
 sit: functions from parser state to parser state, and the proof that they follow any encoded stream,
 however it was cut.
 */
module RespParser {
  import opened Basics
  import opened RespWire
  import Sds = SdsQuoting
  import Grammar = SdsGrammar

  /** The unread bytes and the fields of a half-read command. */
  datatype Parser = Parser(u: bytes, multibulklen: nat, bulklen: int, argv: seq<bytes>, closing: bool)

  /** The length line of the next argument; `false` when there is nothing more to do now. */
  function ReadBulkLen(q: Parser, maxBulk: nat): (r: (Parser, bool))
    ensures r.1 ==> r.0.bulklen >= 0
  {
    var line := ReadLine(q.u);
    if line.Incomplete? then (q, false)
    else if line.TooBig? || q.u[0] != DOLLAR || line.number.None? || line.number.value < 0 || line.number.value > maxBulk
    then (q.(closing := true), false)
    else (q.(u := q.u[line.len..], bulklen := line.number.value), true)
  }

  /** The argument itself. */
  function TakeBulk(q: Parser): (Parser, bool)
    requires q.bulklen >= 0 && q.multibulklen > 0
  {
    if |q.u| < q.bulklen + 2 then (q, false)
    else (q.(u := q.u[q.bulklen + 2..], argv := q.argv + [q.u[..q.bulklen]], bulklen := -1,
             multibulklen := q.multibulklen - 1), true)
  }

  function ReadArg(q: Parser, maxBulk: nat): (Parser, bool)
    requires q.bulklen >= -1 && q.multibulklen > 0
  {
    var (q1, go) := if q.bulklen == -1 then ReadBulkLen(q, maxBulk) else (q, true);
    if go then TakeBulk(q1) else (q1, false)
  }

  /** The argument loop. */
  function ReadArgs(q: Parser, maxBulk: nat): (r: Parser)
    requires q.bulklen >= -1 && (q.multibulklen == 0 ==> q.bulklen == -1)
    ensures r.bulklen >= -1 && (r.multibulklen == 0 ==> r.bulklen == -1)
    decreases q.multibulklen
  {
    if q.multibulklen == 0 then q else
      var (q1, go) := ReadArg(q, maxBulk);
      if go then ReadArgs(q1, maxBulk) else q1
  }

  /** The `*<n>` line: the new state, and whether the command is complete already (n <= 0). */
  function ReadCount(q: Parser): (Parser, bool)
    requires q.multibulklen == 0
  {
    var line := ReadLine(q.u);
    if line.Incomplete? then (q, false)
    else if line.TooBig? || line.number.None? || line.number.value > MAX_MULTIBULK then (q.(closing := true), false)
    else if line.number.value <= 0 then (q.(u := q.u[line.len..]), true)
    else (q.(u := q.u[line.len..], multibulklen := line.number.value), false)
  }

  /** processMultibulkBuffer: true when a whole command is in `argv`. */
  function Parse(q: Parser, maxBulk: nat): (Parser, bool)
    requires q.bulklen >= -1 && (q.multibulklen == 0 ==> q.bulklen == -1)
  {
    if q.multibulklen == 0 then
      var (q1, empty) := ReadCount(q);
      if q1.multibulklen == 0 then (q1, empty) else
        var q2 := ReadArgs(q1, maxBulk);
        (q2, q2.multibulklen == 0)
    else
      var q2 := ReadArgs(q, maxBulk);
      (q2, q2.multibulklen == 0)
  }

  /** The parser only ever drops bytes from the front. */
  ghost predicate Consumes(q: Parser, q2: Parser) {
    |q2.u| <= |q.u| && q2.u == q.u[|q.u| - |q2.u|..]
  }

  lemma ConsumesTwice(q: Parser, q1: Parser, q2: Parser)
    requires Consumes(q, q1) && Consumes(q1, q2)
    ensures Consumes(q, q2)
  {
  }

  lemma BulkLenKeeps(q: Parser, maxBulk: nat)
    ensures var (r, go) := ReadBulkLen(q, maxBulk);
      && Consumes(q, r) && r.multibulklen == q.multibulklen && r.argv == q.argv
      && (go ==> r.bulklen >= 0) && (!go ==> r.bulklen == q.bulklen && r.u == q.u)
  {
  }

  lemma TakeBulkKeeps(q: Parser)
    requires q.bulklen >= 0 && q.multibulklen > 0
    ensures var (r, go) := TakeBulk(q);
      && Consumes(q, r)
      && if go then r.multibulklen == q.multibulklen - 1 && r.bulklen == -1 && r.argv != [] && |r.u| < |q.u| else r == q
  {
  }

  lemma {:induction false} ReadArgsConsumes(q: Parser, maxBulk: nat)
    requires q.bulklen >= -1 && (q.multibulklen == 0 ==> q.bulklen == -1)
    ensures var r := ReadArgs(q, maxBulk);
      Consumes(q, r) && (q.multibulklen > 0 && r.multibulklen == 0 ==> |r.u| < |q.u| && r.argv != [])
    decreases q.multibulklen
  {
    hide ReadBulkLen, TakeBulk;
    if q.multibulklen > 0 {
      var q1, go := q, true;
      if q.bulklen == -1 {
        BulkLenKeeps(q, maxBulk);
        var p := ReadBulkLen(q, maxBulk);
        q1, go := p.0, p.1;
      }
      if go {
        TakeBulkKeeps(q1);
        var (q2, go2) := TakeBulk(q1);
        ConsumesTwice(q, q1, q2);
        if go2 {
          ReadArgsConsumes(q2, maxBulk);
          ConsumesTwice(q, q2, ReadArgs(q2, maxBulk));
        }
      }
    }
  }

  lemma CountKeeps(q: Parser)
    requires q.multibulklen == 0
    ensures var (r, empty) := ReadCount(q);
      && Consumes(q, r) && r.argv == q.argv && r.bulklen == q.bulklen
      && if empty || r.multibulklen > 0 then |r.u| < |q.u| else r.u == q.u
  {
    hide ReadLine;
  }

  lemma ParseConsumes(q: Parser, maxBulk: nat)
    requires q.bulklen >= -1 && (q.multibulklen == 0 ==> q.bulklen == -1)
    ensures var (r, ok) := Parse(q, maxBulk); Consumes(q, r) && (ok ==> |r.u| < |q.u|) && r.bulklen >= -1
    ensures var (r, ok) := Parse(q, maxBulk);
      !ok && r.multibulklen == 0 ==> r.u == q.u && q.multibulklen == 0 && r.argv == q.argv && r.bulklen == q.bulklen
  {
    hide ReadArgs, ReadCount, Consumes;
    if q.multibulklen > 0 {
      ReadArgsConsumes(q, maxBulk);
    } else {
      CountKeeps(q);
      var (q1, empty) := ReadCount(q);
      if q1.multibulklen > 0 {
        ReadArgsConsumes(q1, maxBulk);
        ConsumesTwice(q, q1, ReadArgs(q1, maxBulk));
      }
    }
  }

  // -------------------------------------------------------- headers, exactly

  /** A line that has arrived, whatever it says, and one that has not. */
  lemma LineRead(c: byte, body: bytes, more: bytes)
    requires c != CR && c != 0 && CR !in body && 0 !in body
    ensures ReadLine([c] + body + CRLF + more) == Line(ParseLL(body), |body| + 3)
  {
    var u := [c] + body + CRLF + more;
    assert forall i :: 0 < i <= |body| ==> u[i] == body[i - 1] && body[i - 1] in body;
    StrChrFinds(u, CR, |body| + 1);
    assert u[1..|body| + 1] == body;
  }

  /** The length line of an argument is taken exactly when it is `$` and a number up to the limit; otherwise the client is closed. */
  lemma BulkLenExact(q: Parser, maxBulk: nat, c: byte, body: bytes, more: bytes)
    requires q.u == [c] + body + CRLF + more && c != CR && c != 0 && CR !in body && 0 !in body && maxBulk <= LLONG_MAX
    ensures var (r, go) := ReadBulkLen(q, maxBulk);
      && (go <==> c == 36 && exists n: nat :: n <= maxBulk && body == DecText(n))
      && (go ==> r == q.(u := more, bulklen := r.bulklen) && body == DecText(r.bulklen))
      && (!go ==> r == q.(closing := true))
  {
    hide ReadLine, ParseLL, DecText;
    LineRead(c, body, more);
    assert q.u[|body| + 3..] == more;
    forall n ensures ParseLL(body) == Some(n) <==> LLONG_MIN <= n <= LLONG_MAX && body == DecText(n) { ParseLLIff(body, n); }
  }

  /** The count line of an array is taken exactly when it is a number up to the limit, which may be negative. */
  lemma CountExact(q: Parser, body: bytes, more: bytes)
    requires q.u == [STAR] + body + CRLF + more && CR !in body && 0 !in body && q.multibulklen == 0
    ensures var (r, empty) := ReadCount(q);
      if exists n: int :: LLONG_MIN <= n <= MAX_MULTIBULK && body == DecText(n) then
        r == q.(u := more, multibulklen := r.multibulklen) && if empty then r.multibulklen == 0 else body == DecText(r.multibulklen)
      else r == q.(closing := true) && !empty
    ensures forall n: nat :: 0 < n <= MAX_MULTIBULK && body == DecText(n) ==> !ReadCount(q).1 && ReadCount(q).0.multibulklen == n
  {
    hide ReadLine, ParseLL, DecText;
    LineRead(STAR, body, more);
    assert q.u[|body| + 3..] == more;
    forall n ensures ParseLL(body) == Some(n) <==> LLONG_MIN <= n <= LLONG_MAX && body == DecText(n) { ParseLLIff(body, n); }
  }

  /** A header without its CR is waited for up to the limit, and closes the client beyond it. */
  lemma HeaderPart(q: Parser, maxBulk: nat)
    requires CR !in q.u
    ensures ReadBulkLen(q, maxBulk) == (q.(closing := q.closing || |q.u| > PROTO_INLINE_MAX_SIZE), false)
    ensures q.multibulklen == 0 ==> ReadCount(q) == (q.(closing := q.closing || |q.u| > PROTO_INLINE_MAX_SIZE), false)
  {
    StrChrMisses(q.u, CR);
  }

  // ------------------------------------------------------ following a stream

  /** Limits the parser imposes on a command. */
  predicate CmdOK(cmd: seq<bytes>, maxBulk: nat) {
    |cmd| <= MAX_MULTIBULK && maxBulk <= LLONG_MAX && forall i :: 0 <= i < |cmd| ==> |cmd[i]| <= maxBulk
  }

  /** The bytes of `cmd` still to come when `k` arguments are in, and the next length may be known. */
  function RestOfArgs(cmd: seq<bytes>, k: nat, lenKnown: bool): bytes
    requires k <= |cmd| && (lenKnown ==> k < |cmd|)
  {
    if lenKnown then cmd[k] + CRLF + EncArgs(cmd[k + 1..]) else EncArgs(cmd[k..])
  }

  /** The arguments read so far, and the length known, are those of `cmd`. */
  ghost predicate InArgs(q: Parser, cmd: seq<bytes>) {
    && |q.argv| + q.multibulklen == |cmd| && q.argv == cmd[..|q.argv|]
    && (q.bulklen == -1 || (q.multibulklen > 0 && q.bulklen == |cmd[|q.argv|]|))
  }

  /** Inside the arguments of `cmd`: unread and undelivered bytes are the rest of it, then `later`. */
  ghost predicate Follows(q: Parser, cmd: seq<bytes>, later: bytes, und: bytes) {
    InArgs(q, cmd) && !q.closing && q.u + und == RestOfArgs(cmd, |q.argv|, q.bulklen != -1) + later
  }

  /** `a` and `b` start with the same `part`: dropping it keeps them equal. */
  lemma DropBoth(u: bytes, und: bytes, part: bytes, rest: bytes, later: bytes)
    requires u + und == (part + rest) + later
    ensures |u| >= |part| ==> part <= u && u[|part|..] + und == rest + later
    ensures |u| < |part| ==> u <= part
  {
    var whole := part + (rest + later);
    assert u + und == whole;
    if |u| >= |part| {
      assert u[..|part|] == whole[..|part|];
      assert u[|part|..] + und == (u + und)[|part|..];
      assert whole[|part|..] == rest + later;
    } else {
      assert u == whole[..|u|];
    }
  }

  /** An argument is its length line, then the rest. */
  lemma ArgHead(cmd: seq<bytes>, k: nat)
    requires k < |cmd|
    ensures RestOfArgs(cmd, k, false) == Header(DOLLAR, |cmd[k]|) + RestOfArgs(cmd, k, true)
    ensures |Header(DOLLAR, |cmd[k]|)| > 0 && Header(DOLLAR, |cmd[k]|)[0] == DOLLAR
  {
    var h := Header(DOLLAR, |cmd[k]|);
    assert cmd[k..][0] == cmd[k] && cmd[k..][1..] == cmd[k + 1..];
    assert (h + cmd[k] + CRLF) + EncArgs(cmd[k + 1..]) == h + (cmd[k] + CRLF + EncArgs(cmd[k + 1..]));
  }

  lemma BulkLenFollows(q: Parser, maxBulk: nat, cmd: seq<bytes>, later: bytes, und: bytes)
    requires Follows(q, cmd, later, und) && CmdOK(cmd, maxBulk) && q.bulklen == -1 && q.multibulklen > 0
    ensures var (r, go) := ReadBulkLen(q, maxBulk);
      Follows(r, cmd, later, und) && (!go ==> r == q && |q.u| < |RestOfArgs(cmd, |q.argv|, false)|)
  {
    var k := |q.argv|;
    hide RestOfArgs, Header;
    var h, rest := Header(DOLLAR, |cmd[k]|), RestOfArgs(cmd, k, true);
    ArgHead(cmd, k);
    DropBoth(q.u, und, h, rest, later);
    if |q.u| < |h| { ReadLinePart(DOLLAR, |cmd[k]|, q.u); } else { ReadLineFull(DOLLAR, |cmd[k]|, q.u); }
  }

  lemma TakeBulkFollows(q: Parser, cmd: seq<bytes>, later: bytes, und: bytes)
    requires Follows(q, cmd, later, und) && q.bulklen >= 0 && q.multibulklen > 0
    ensures var (r, go) := TakeBulk(q);
      Follows(r, cmd, later, und) && (!go ==> r == q && |q.u| < |RestOfArgs(cmd, |q.argv|, true)|)
  {
    var k := |q.argv|;
    var part, rest := cmd[k] + CRLF, RestOfArgs(cmd, k + 1, false);
    DropBoth(q.u, und, part, rest, later);
    if |q.u| >= |part| {
      assert q.u[..|cmd[k]|] == part[..|cmd[k]|];
      assert cmd[..k + 1] == cmd[..k] + [cmd[k]];
    }
  }

  lemma {:induction false} ReadArgsFollows(q: Parser, maxBulk: nat, cmd: seq<bytes>, later: bytes, und: bytes)
    requires Follows(q, cmd, later, und) && CmdOK(cmd, maxBulk)
    requires q.bulklen >= -1 && (q.multibulklen == 0 ==> q.bulklen == -1)
    ensures var r := ReadArgs(q, maxBulk);
      Follows(r, cmd, later, und) && (r.multibulklen > 0 ==> |r.u| < |RestOfArgs(cmd, |r.argv|, r.bulklen != -1)|)
    decreases q.multibulklen
  {
    hide Follows, RestOfArgs, ReadBulkLen, TakeBulk, CmdOK;
    if q.multibulklen > 0 {
      FollowsArgs(q, cmd, later, und);
      var q1, go := q, true;
      if q.bulklen == -1 {
        BulkLenFollows(q, maxBulk, cmd, later, und);
        var p := ReadBulkLen(q, maxBulk);
        q1, go := p.0, p.1;
        BulkLenKeeps(q, maxBulk);
      }
      if go {
        TakeBulkFollows(q1, cmd, later, und);
        FollowsArgs(q1, cmd, later, und);
        var (q2, go2) := TakeBulk(q1);
        TakeBulkKeeps(q1);
        if go2 { ReadArgsFollows(q2, maxBulk, cmd, later, und); }
      }
    }
  }

  lemma FollowsArgs(q: Parser, cmd: seq<bytes>, later: bytes, und: bytes)
    requires Follows(q, cmd, later, und)
    ensures InArgs(q, cmd)
  {
  }

  /** The next command on the wire is `cmd`, possibly half-read already, and `later` comes after it. */
  ghost predicate Upcoming(q: Parser, cmd: seq<bytes>, later: bytes, und: bytes) {
    if q.multibulklen > 0 then Follows(q, cmd, later, und)
    else q.argv == [] && q.bulklen == -1 && !q.closing && q.u + und == EncArray(cmd) + later
  }

  /** Fewer bytes are unread than the command still needs. */
  ghost predicate Short(q: Parser, cmd: seq<bytes>) {
    if q.multibulklen > 0 then InArgs(q, cmd) && |q.u| < |RestOfArgs(cmd, |q.argv|, q.bulklen != -1)|
    else |q.u| < |EncArray(cmd)|
  }

  lemma CountFollows(q: Parser, cmd: seq<bytes>, later: bytes, und: bytes, maxBulk: nat)
    requires Upcoming(q, cmd, later, und) && CmdOK(cmd, maxBulk) && q.multibulklen == 0
    ensures var (r, empty) := ReadCount(q);
      && (empty ==> cmd == [] && r.argv == [] && !r.closing && r.multibulklen == 0 && r.u + und == later)
      && (!empty && r.multibulklen == 0 ==> r == q && |q.u| < |EncArray(cmd)|)
      && (r.multibulklen > 0 ==> Follows(r, cmd, later, und) && r.bulklen == -1)
  {
    var h := Header(STAR, |cmd|);
    DropBoth(q.u, und, h, EncArgs(cmd), later);
    if |q.u| < |h| { ReadLinePart(STAR, |cmd|, q.u); } else { ReadLineFull(STAR, |cmd|, q.u); }
    assert cmd[0..] == cmd && cmd[..0] == [];
    if cmd == [] { assert EncArgs(cmd) + later == later; }
  }

  /**
   A parse of an encoded stream: either the command is complete, and then exactly `cmd` is in `argv`
   and the unread bytes go on with what follows; or bytes are missing, and the parser still follows.
   */
  lemma ParseFollows(q: Parser, maxBulk: nat, cmd: seq<bytes>, later: bytes, und: bytes)
    requires Upcoming(q, cmd, later, und) && CmdOK(cmd, maxBulk) && q.bulklen >= -1
    ensures var (r, ok) := Parse(q, maxBulk);
      && (ok ==> r.argv == cmd && !r.closing && r.u + und == later)
      && (!ok ==> Upcoming(r, cmd, later, und) && Short(r, cmd))
  {
    hide Follows, RestOfArgs, ReadCount, CmdOK, EncArray;
    var q1 := q;
    if q.multibulklen == 0 {
      CountFollows(q, cmd, later, und, maxBulk);
      q1 := ReadCount(q).0;
    } else {
      FollowsArgs(q, cmd, later, und);
    }
    if q1.multibulklen > 0 {
      ReadArgsFollows(q1, maxBulk, cmd, later, und);
      var q2 := ReadArgs(q1, maxBulk);
      FollowsArgs(q2, cmd, later, und);
      if q2.multibulklen == 0 { FollowsEnd(q2, cmd, later, und); }
    }
  }

  lemma FollowsEnd(q: Parser, cmd: seq<bytes>, later: bytes, und: bytes)
    requires Follows(q, cmd, later, und) && q.multibulklen == 0
    ensures q.argv == cmd && !q.closing && q.u + und == later
  {
    assert cmd[..|cmd|] == cmd && cmd[|cmd|..] == [];
    assert [] + later == later;
  }

  // --------------------------------------------------------- inline requests

  /** What is left when the empty items are dropped. */
  function NonEmpty(items: seq<bytes>): seq<bytes> {
    if items == [] then []
    else NonEmpty(items[..|items| - 1]) + if items[|items| - 1] == [] then [] else [items[|items| - 1]]
  }

  /** A line without the CR that may end it. */
  function Chomp(line: bytes): bytes {
    if line != [] && line[|line| - 1] == CR then line[..|line| - 1] else line
  }

  /** processInlineBuffer: true when a whole request is in `argv`. */
  function ParseInline(q: Parser): (Parser, bool) {
    var newline := StrChr(q.u, LF);
    if newline.None? then (q.(closing := q.closing || |q.u| > PROTO_INLINE_MAX_SIZE), false)
    else
      var args := Sds.Split(Chomp(q.u[..newline.value]));
      if args.None? then (q.(closing := true), false)
      else (q.(u := q.u[newline.value + 1..], argv := NonEmpty(args.value)), true)
  }

  lemma ParseInlineConsumes(q: Parser)
    ensures var (r, ok) := ParseInline(q);
      && Consumes(q, r) && r.multibulklen == q.multibulklen && r.bulklen == q.bulklen
      && if ok then |r.u| < |q.u| && r.closing == q.closing else r == q.(closing := r.closing)
  {
    hide Sds.Split, NonEmpty, StrChr, Chomp;
  }

  function LineArgs(line: bytes): seq<bytes> {
    var args := Sds.Split(Chomp(line));
    if args.None? then [] else NonEmpty(args.value)
  }

  lemma {:induction false} NonEmptyAll(items: seq<bytes>)
    requires forall i :: 0 <= i < |items| ==> items[i] != []
    ensures NonEmpty(items) == items
  {
    if items != [] {
      NonEmptyAll(items[..|items| - 1]);
      assert items == items[..|items| - 1] + [items[|items| - 1]];
    }
  }

  /** Empty items, such as `""`, are dropped and the others keep their order. */
  lemma {:induction false} NonEmptyJoin(a: seq<bytes>, b: seq<bytes>)
    ensures NonEmpty(a + b) == NonEmpty(a) + NonEmpty(b) && NonEmpty([[]]) == []
  {
    var one: seq<bytes> := [[]];
    assert one[..0] == [];
    if b == [] {
      assert a + b == a;
    } else {
      var m := |b| - 1;
      assert (a + b)[..|a + b| - 1] == a + b[..m];
      NonEmptyJoin(a, b[..m]);
    }
  }

  /** The arguments of a line of plain words, with or without a CR before the newline, are the words. */
  lemma InlineWords(words: seq<bytes>)
    requires forall i :: 0 <= i < |words| ==> Grammar.PlainWord(words[i])
    ensures LineArgs(Grammar.Spaced(words)) == words && LineArgs(Grammar.Spaced(words) + [CR]) == words
  {
    hide Sds.Split, Grammar.Spaced, NonEmpty, Grammar.PlainWord, Chomp;
    var line := Grammar.Spaced(words);
    Grammar.SplitWords(words);
    SpacedEnd(words);
    ChompLine(line);
    PlainNonEmpty(words);
    NonEmptyAll(words);
  }

  lemma ChompLine(line: bytes)
    requires line == [] || line[|line| - 1] != CR
    ensures Chomp(line) == line && Chomp(line + [CR]) == line
  {
    assert (line + [CR])[..|line|] == line;
  }

  lemma PlainNonEmpty(words: seq<bytes>)
    requires forall i :: 0 <= i < |words| ==> Grammar.PlainWord(words[i])
    ensures forall i :: 0 <= i < |words| ==> words[i] != []
  {
  }

  lemma {:induction false} SpacedEnd(words: seq<bytes>)
    requires forall i :: 0 <= i < |words| ==> Grammar.PlainWord(words[i])
    ensures var line := Grammar.Spaced(words); line == [] || line[|line| - 1] != CR
    ensures words != [] ==> Grammar.Spaced(words) != []
  {
    if |words| > 1 {
      SpacedEnd(words[1..]);
    }
  }

  /** Lines that are taken as inline requests, and are accepted however they arrive. */
  predicate LineOK(line: bytes) {
    && 0 !in line && LF !in line && (line != [] ==> line[0] != STAR)
    && |line| <= PROTO_INLINE_MAX_SIZE && Sds.Split(Chomp(line)).Some?
  }

  /** The same for an inline request as ParseFollows says of an array. */
  lemma InlineFollows(q: Parser, line: bytes, later: bytes, und: bytes)
    requires LineOK(line) && q.argv == [] && !q.closing && q.u + und == (line + [LF]) + later
    ensures var (r, ok) := ParseInline(q);
      && (ok ==> r.argv == LineArgs(line) && !r.closing && r.u + und == later)
      && (!ok ==> r == q && |q.u| < |line + [LF]|)
  {
    hide Sds.Split, NonEmpty;
    DropBoth(q.u, und, line + [LF], [], later);
    if |q.u| <= |line| {
      assert q.u <= line;
      StrChrMisses(q.u, LF);
    } else {
      LineEnd(q.u, line);
    }
  }

  lemma LineEnd(u: bytes, line: bytes)
    requires 0 !in line && LF !in line && line + [LF] <= u
    ensures StrChr(u, LF) == Some(|line|) && u[..|line|] == line
  {
    assert forall i :: 0 <= i < |line| ==> u[i] == line[i];
    StrChrFinds(u, LF, |line|);
  }

  // --------------------------------------------------- lines over the limit

  /** What one parse of the unread bytes comes to. */
  datatype LineOutcome = More | Refused | Unbalanced | Request(args: seq<bytes>, rest: bytes)

  function Outcome(u: bytes): LineOutcome {
    var (r, ok) := ParseInline(Parser(u, 0, -1, [], false));
    if ok then Request(r.argv, r.u)
    else if !r.closing then More
    else if StrChr(u, LF).None? then Refused
    else Unbalanced
  }

  /** The same, except that one may have been reached before all bytes came. */
  predicate SameOutcome(a: LineOutcome, b: LineOutcome) {
    if b.Request? then a.Request? && a.args == b.args && a.rest <= b.rest else a == b
  }

  lemma NoNewline(u: bytes)
    requires LF !in u
    ensures Outcome(u) == if |u| > PROTO_INLINE_MAX_SIZE then Refused else More
  {
    hide Sds.Split, NonEmpty;
    StrChrMisses(u, LF);
  }

  lemma WithNewline(u: bytes, n: nat)
    requires StrChr(u, LF) == Some(n)
    ensures Outcome(u) == var args := Sds.Split(Chomp(u[..n])); if args.None? then Unbalanced else Request(NonEmpty(args.value), u[n + 1..])
  {
    hide Sds.Split, NonEmpty, StrChr, Chomp;
  }

  /** The first `k` bytes of a line that ends at `n`, and of what follows it. */
  lemma OutcomeOfCut(u: bytes, n: nat, k: nat)
    requires StrChr(u, LF) == Some(n) && k <= |u|
    ensures k <= n ==> Outcome(u[..k]) == if k > PROTO_INLINE_MAX_SIZE then Refused else More
    ensures k > n ==> SameOutcome(Outcome(u[..k]), Outcome(u)) && Outcome(u[..k]) !in {More, Refused}
  {
    hide Sds.Split, NonEmpty, Outcome, Chomp;
    if k <= n {
      NoNewline(u[..k]);
    } else {
      StrChrFinds(u[..k], LF, n);
      hide StrChr;
      WithNewline(u, n);
      WithNewline(u[..k], n);
      assert u[..k][..n] == u[..n];
      assert u[..k][n + 1..] <= u[n + 1..];
    }
  }

  function Concat(chunks: seq<bytes>): bytes {
    if chunks == [] then [] else chunks[0] + Concat(chunks[1..])
  }

  /** The chunks arrive one by one, and all that is unread is parsed after each, until that comes to something. */
  function Arrive(u: bytes, chunks: seq<bytes>): LineOutcome
    decreases |chunks|
  {
    if chunks == [] then More
    else
      var u2 := u + chunks[0];
      var r := Outcome(u2);
      if r == More then Arrive(u2, chunks[1..]) else r
  }

  /** Some chunk but the last needed ends after the limit and before the newline at `n`. */
  ghost predicate CutAfterLimit(read: nat, chunks: seq<bytes>, n: nat) {
    exists j :: 0 < j <= |chunks| && PROTO_INLINE_MAX_SIZE < read + |Concat(chunks[..j])| <= n
  }

  lemma CutAfterFirst(read: nat, chunks: seq<bytes>, n: nat)
    requires chunks != []
    ensures var l := read + |chunks[0]|;
      CutAfterLimit(read, chunks, n) <==> (PROTO_INLINE_MAX_SIZE < l <= n || CutAfterLimit(l, chunks[1..], n))
    ensures read + |chunks[0]| > n ==> !CutAfterLimit(read, chunks, n)
  {
    var l := read + |chunks[0]|;
    forall j | 0 < j <= |chunks|
      ensures read + |Concat(chunks[..j])| == l + |Concat(chunks[1..][..j - 1])|
    {
      assert chunks[..j][1..] == chunks[1..][..j - 1];
    }
    assert chunks[1..][..0] == [];
    if PROTO_INLINE_MAX_SIZE < l <= n { assert read + |Concat(chunks[..1])| == l; }
    if CutAfterLimit(l, chunks[1..], n) {
      var j :| 0 < j <= |chunks| - 1 && PROTO_INLINE_MAX_SIZE < l + |Concat(chunks[1..][..j])| <= n;
      assert read + |Concat(chunks[..j + 1])| == l + |Concat(chunks[1..][..j])|;
    }
  }

  /** However a line arrives, it is refused exactly when it is cut between the limit and its end; otherwise it is the same. */
  lemma {:induction false} ArriveExact(u: bytes, n: nat, read: bytes, chunks: seq<bytes>)
    requires StrChr(u, LF) == Some(n) && read + Concat(chunks) == u && |read| <= n
    ensures if CutAfterLimit(|read|, chunks, n) then Arrive(read, chunks) == Refused
      else SameOutcome(Arrive(read, chunks), Outcome(u))
    decreases |chunks|
  {
    hide Outcome, CutAfterLimit, StrChr;
    if chunks != [] {
      var read2 := read + chunks[0];
      assert read2 + Concat(chunks[1..]) == u;
      assert read2 == u[..|read2|];
      OutcomeOfCut(u, n, |read2|);
      CutAfterFirst(|read|, chunks, n);
      if |read2| <= n && |read2| <= PROTO_INLINE_MAX_SIZE { ArriveExact(u, n, read2, chunks[1..]); }
    }
  }

  /** A line means the same however it is cut exactly when it is not longer than the limit. */
  lemma AnyCutIff(u: bytes, n: nat)
    requires StrChr(u, LF) == Some(n)
    ensures (forall chunks :: Concat(chunks) == u ==> SameOutcome(Arrive([], chunks), Outcome(u))) <==> n <= PROTO_INLINE_MAX_SIZE
    ensures (exists k :: 0 <= k <= n && Outcome(u[..k]) == Refused) <==> n > PROTO_INLINE_MAX_SIZE
  {
    hide Outcome, StrChr;
    forall k | 0 <= k <= n ensures Outcome(u[..k]) == if k > PROTO_INLINE_MAX_SIZE then Refused else More {
      OutcomeOfCut(u, n, k);
    }
    if n <= PROTO_INLINE_MAX_SIZE {
      forall chunks | Concat(chunks) == u
        ensures SameOutcome(Arrive([], chunks), Outcome(u))
      {
        assert [] + Concat(chunks) == u;
        ArriveExact(u, n, [], chunks);
      }
    } else {
      assert Outcome(u[..n]) == Refused;
      var chunks: seq<bytes> := [u[..n], u[n..]];
      assert chunks[1..] == [u[n..]];
      assert Concat(chunks[1..]) == u[n..] + Concat([]);
      assert Concat(chunks) == u;
      assert [] + chunks[0] == u[..n];
      OutcomeOfCut(u, n, |u|);
      assert u[..|u|] == u;
    }
  }
}
