/**
 The query side of a client (networking.c): the query buffer with its buffer-takeover fast path, the
 command loop, and the forwarding of a master's stream to sub-replicas.

 Executing a command is abstract: it is recorded, and a parameter says of each whether it leaves the
 client blocked, inside a transaction, or on its way to being closed. Ghost fields say what has been
 read from the socket and how much of it was understood.
 */
module RespClient {
  import opened Basics
  import opened RespWire
  import opened RespParser
  import Sds = SdsQuoting

  datatype ReqType = Unknown | Inline | Multibulk

  method KeepNonEmpty(args: seq<bytes>) returns (r: seq<bytes>)
    ensures r == NonEmpty(args)
  {
    r := [];
    var j := 0;
    while j < |args|
      invariant j <= |args| && r == NonEmpty(args[..j])
    {
      assert args[..j + 1][..j] == args[..j];
      if |args[j]| != 0 { r := r + [args[j]]; }
      j := j + 1;
    }
    assert args[..j] == args;
  }

  function ArgsOf(cmd: Command): seq<bytes> {
    match cmd
    case Array(args) => args
    case Text(line) => LineArgs(line)
  }

  /** The commands that are run: those with arguments. */
  function Runs(cmds: seq<Command>): seq<seq<bytes>> {
    if cmds == [] then []
    else
      var args := ArgsOf(cmds[|cmds| - 1]);
      Runs(cmds[..|cmds| - 1]) + if args == [] then [] else [args]
  }

  /** A command that the parser accepts however it arrives. */
  predicate Accepted(cmd: Command, maxBulk: nat) {
    match cmd
    case Array(args) => CmdOK(args, maxBulk)
    case Text(line) => LineOK(line)
  }

  /** The next command is `cmd`, possibly half-read already, and `later` comes after it. */
  ghost predicate Coming(q: Parser, cmd: Command, later: bytes, und: bytes) {
    match cmd
    case Array(args) => Upcoming(q, args, later, und)
    case Text(_) => Idle(q) && q.u + und == Enc(cmd) + later
  }

  /** Fewer bytes are unread than the command still needs. */
  ghost predicate Missing(q: Parser, cmd: Command) {
    match cmd
    case Array(args) => Short(q, args)
    case Text(_) => |q.u| < |Enc(cmd)|
  }

  /** What running a command does: processCommand may fail, which frees or closes the client, or succeed and close it. */
  datatype Effect = Effect(blocks: bool, inMulti: bool, closes: bool, fails: bool) {
    predicate Ends() {
      closes || fails
    }

    /** The offset of a master moves past the command. */
    predicate Moves() {
      !fails && !inMulti
    }
  }

  /**
   Commands `n0` to `n` were run in one go: none after one that blocks or ends the client, and none at
   all if it was blocked or ended before. The flags are what the commands made of them.
   */
  ghost predicate Ran(effect: nat -> Effect, n0: nat, n: nat, blocked0: bool, blocked: bool, ended0: bool, ended: bool) {
    && n0 <= n && (n > n0 ==> !blocked0 && !ended0)
    && (forall k :: n0 <= k < n - 1 ==> !effect(k).blocks && !effect(k).Ends())
    && blocked == (if n > n0 then effect(n - 1).blocks else blocked0)
    && ended == (ended0 || (n > n0 && effect(n - 1).Ends()))
  }

  /** The end of the last command after which a master's offset was moved, as a number of commands. */
  function AppliedTo(cmds: seq<Command>, effect: nat -> Effect, done: nat): (r: nat)
    requires done <= |cmds|
    ensures r <= done
  {
    if done == 0 then 0
    else if ArgsOf(cmds[done - 1]) != [] && effect(|Runs(cmds[..done - 1])|).Moves() then done
    else AppliedTo(cmds, effect, done - 1)
  }

  lemma AppliedNext(cmds: seq<Command>, effect: nat -> Effect, done: nat)
    requires done < |cmds|
    ensures AppliedTo(cmds, effect, done + 1) ==
      if ArgsOf(cmds[done]) != [] && effect(|Runs(cmds[..done])|).Moves() then done + 1 else AppliedTo(cmds, effect, done)
  {
    hide ArgsOf, Runs;
  }

  /** Why a client that has run `n` commands is blocked or closed; `other` are the reasons besides commands. */
  ghost predicate Held(effect: nat -> Effect, n: nat, blocked: bool, ended: bool, other: bool) {
    && (blocked ==> n > 0 && effect(n - 1).blocks)
    && (ended ==> other || (n > 0 && effect(n - 1).Ends()))
    && (forall k :: 0 <= k < n - (if ended then 1 else 0) ==> !effect(k).Ends())
  }

  lemma HeldEnd(effect: nat -> Effect, n: nat, blocked: bool, other: bool)
    requires Held(effect, n, blocked, false, other) && other
    ensures Held(effect, n, blocked, true, other)
  {
  }

  lemma HeldRan(effect: nat -> Effect, n0: nat, n: nat, blocked0: bool, blocked: bool, ended: bool, other: bool)
    requires Held(effect, n0, blocked0, false, other)
    requires Ran(effect, n0, n, blocked0, blocked, false, ended) || Ran(effect, n0, n, false, blocked, false, ended)
    ensures Held(effect, n, blocked, ended, other)
  {
  }

  /** The replication side of a client. */
  datatype Feed = Feed(reploff: nat, readReploff: nat, pending: bytes, forwarded: bytes)

  /** The unread bytes are the end of what was read; a master's offset is not past their start. */
  ghost predicate InStream(u: bytes, stream: bytes, master: bool, feed: Feed) {
    && |u| <= |stream| && u == stream[|stream| - |u|..]
    && (master ==> feed.readReploff == |stream| && feed.reploff <= |stream| - |u|)
  }

  /** The sub-replicas got the first `reploff` bytes of the stream, and the rest is pending. */
  ghost predicate Conserved(stream: bytes, feed: Feed) {
    feed.reploff <= |stream| && feed.forwarded == stream[..feed.reploff] && feed.pending == stream[feed.reploff..]
  }

  /** The stream is the encoding of `cmds`, of which `done` are over; `und` has not been read yet. */
  ghost predicate Tracks(q: Parser, executed: seq<seq<bytes>>, stream: bytes, done: nat, cmds: seq<Command>, und: bytes) {
    && done <= |cmds|
    && executed == Runs(cmds[..done])
    && stream + und == EncAll(cmds)
    && if done == |cmds| then Idle(q) && q.u + und == []
       else Coming(q, cmds[done], EncAll(cmds[done + 1..]), und)
  }

  /** Between two commands. */
  predicate Idle(q: Parser) {
    q.multibulklen == 0 && q.argv == [] && q.bulklen == -1 && !q.closing
  }

  /** Every command that has arrived in full has been executed. */
  ghost predicate CaughtUp(q: Parser, done: nat, cmds: seq<Command>) {
    done == |cmds| || (done < |cmds| && Missing(q, cmds[done]))
  }

  lemma TracksStart(cmds: seq<Command>)
    ensures Tracks(Parser([], 0, -1, [], false), [], [], 0, cmds, EncAll(cmds))
  {
    assert cmds[..0] == [];
    if cmds != [] { assert [] + EncAll(cmds) == Enc(cmds[0]) + EncAll(cmds[1..]); }
  }

  /** Bytes that arrive only move the boundary between read and undelivered. */
  lemma TracksRead(q: Parser, executed: seq<seq<bytes>>, stream: bytes, done: nat, cmds: seq<Command>, chunk: bytes, und: bytes)
    requires Tracks(q, executed, stream, done, cmds, chunk + und)
    ensures Tracks(q.(u := q.u + chunk), executed, stream + chunk, done, cmds, und)
  {
    assert (stream + chunk) + und == stream + (chunk + und);
    assert (q.u + chunk) + und == q.u + (chunk + und);
  }

  /** A whole command was taken: where the stream stands when the next one starts. */
  lemma TracksNext(q: Parser, executed: seq<seq<bytes>>, stream: bytes, done: nat, cmds: seq<Command>, und: bytes)
    requires done < |cmds| && executed == Runs(cmds[..done]) && stream + und == EncAll(cmds)
    requires q.u + und == EncAll(cmds[done + 1..]) && |q.u| <= |stream| && !q.closing
    ensures var executed2 := executed + if ArgsOf(cmds[done]) == [] then [] else [ArgsOf(cmds[done])];
      Tracks(Parser(q.u, 0, -1, [], false), executed2, stream, done + 1, cmds, und)
    ensures |stream| - |q.u| == |EncAll(cmds[..done + 1])|
  {
    EncAllSplit(cmds, done + 1);
    assert |stream| + |und| == |EncAll(cmds[..done + 1])| + |q.u| + |und|;
    assert cmds[..done + 1][..done] == cmds[..done] && cmds[..done + 1][done] == cmds[done];
    if done + 1 < |cmds| {
      assert cmds[done + 1..][0] == cmds[done + 1] && cmds[done + 1..][1..] == cmds[done + 2..];
    }
  }

  /** One parse of a stream that is being followed, as the kind of the next command asks. */
  lemma TracksParse(q: Parser, executed: seq<seq<bytes>>, stream: bytes, done: nat, cmds: seq<Command>, und: bytes, maxBulk: nat)
    requires Tracks(q, executed, stream, done, cmds, und) && done < |cmds| && Accepted(cmds[done], maxBulk) && q.bulklen >= -1
    ensures q.multibulklen == 0 ==> q.bulklen == -1
    ensures var (r, ok) := if cmds[done].Text? then ParseInline(q) else Parse(q, maxBulk);
      && (ok ==> r.argv == ArgsOf(cmds[done]) && !r.closing && r.u + und == EncAll(cmds[done + 1..]))
      && (!ok ==> Tracks(r, executed, stream, done, cmds, und) && CaughtUp(r, done, cmds))
  {
    hide EncAll, Runs, CmdOK, Parse, ParseInline, LineOK, LineArgs;
    match cmds[done]
    case Array(args) => ParseFollows(q, maxBulk, args, EncAll(cmds[done + 1..]), und);
    case Text(line) => InlineFollows(q, line, EncAll(cmds[done + 1..]), und);
  }

  lemma TracksTaken(q: Parser, q2: Parser, executed: seq<seq<bytes>>, stream: bytes, done: nat, cmds: seq<Command>,
                    und: bytes, master: bool, feed: Feed)
    requires Tracks(q, executed, stream, done, cmds, und) && done < |cmds|
    requires InStream(q2.u, stream, master, feed)
    requires q2.argv == ArgsOf(cmds[done]) && !q2.closing && q2.u + und == EncAll(cmds[done + 1..])
    ensures var executed2 := executed + if q2.argv == [] then [] else [q2.argv];
      Tracks(Parser(q2.u, 0, -1, [], false), executed2, stream, done + 1, cmds, und)
    ensures |stream| - |q2.u| == |EncAll(cmds[..done + 1])|
  {
    hide EncAll, Runs, Coming, ArgsOf;
    TracksNext(q2, executed, stream, done, cmds, und);
  }

  lemma TracksCount(q: Parser, executed: seq<seq<bytes>>, stream: bytes, done: nat, cmds: seq<Command>, und: bytes)
    requires Tracks(q, executed, stream, done, cmds, und)
    ensures done <= |cmds| && executed == Runs(cmds[..done])
  {
  }

  lemma TracksUnread(q: Parser, executed: seq<seq<bytes>>, stream: bytes, done: nat, cmds: seq<Command>, und: bytes)
    requires Tracks(q, executed, stream, done, cmds, und)
    ensures q.u != [] ==> done < |cmds| && (q.multibulklen == 0 && AllLines(cmds) ==> (q.u[0] == STAR <==> cmds[done].Array?))
    ensures q.u == [] && done < |cmds| ==> Missing(q, cmds[done])
    ensures q.multibulklen > 0 ==> done < |cmds| && cmds[done].Array?
    ensures !q.closing && (q.multibulklen == 0 ==> q.argv == [] && q.bulklen == -1)
  {
    if done < |cmds| && q.multibulklen == 0 && q.u != [] {
      assert (q.u + und)[0] == q.u[0] == (Enc(cmds[done]) + EncAll(cmds[done + 1..]))[0];
    }
    if done < |cmds| && q.u == [] && q.multibulklen > 0 { RestNonEmpty(cmds[done].args, |q.argv|, q.bulklen != -1); }
  }

  /** Nothing unread: caught up. */
  lemma TracksIdle(q: Parser, executed: seq<seq<bytes>>, stream: bytes, done: nat, cmds: seq<Command>, und: bytes)
    requires Tracks(q, executed, stream, done, cmds, und)
    ensures !q.closing && (q.u == [] ==> CaughtUp(q, done, cmds))
  {
    TracksUnread(q, executed, stream, done, cmds, und);
  }

  lemma RestNonEmpty(cmd: seq<bytes>, k: nat, lenKnown: bool)
    requires k < |cmd|
    ensures |RestOfArgs(cmd, k, lenKnown)| > 0
  {
    assert cmd[k..] != [];
  }

  /** Reading on keeps the unread bytes a suffix of the stream. */
  lemma InStreamConsumes(q: Parser, q2: Parser, stream: bytes, master: bool, feed: Feed)
    requires InStream(q.u, stream, master, feed) && Consumes(q, q2)
    ensures InStream(q2.u, stream, master, feed)
    ensures |q2.u| < |q.u| ==> |stream| - |q2.u| > 0
  {
    assert stream[|stream| - |q.u|..][|q.u| - |q2.u|..] == stream[|stream| - |q2.u|..];
  }

  /** The end of what has been taken is the offset a master's client moves to. */
  lemma OffsetMoves(u: bytes, stream: bytes, master: bool, feed: Feed)
    requires InStream(u, stream, master, feed)
    ensures |u| <= |stream|
    ensures master ==> feed.readReploff == |stream| && feed.reploff <= |stream| - |u|
    ensures master ==> InStream(u, stream, master, feed.(reploff := |stream| - |u|))
  {
  }

  lemma InStreamRead(u: bytes, stream: bytes, master: bool, feed: Feed, chunk: bytes)
    requires InStream(u, stream, master, feed)
    ensures InStream(u + chunk, stream + chunk, master,
              if master then feed.(readReploff := feed.readReploff + |chunk|, pending := feed.pending + chunk) else feed)
  {
  }

  lemma ConservedRead(stream: bytes, feed: Feed, chunk: bytes)
    requires Conserved(stream, feed)
    ensures Conserved(stream + chunk, feed.(readReploff := feed.readReploff + |chunk|, pending := feed.pending + chunk))
  {
    assert (stream + chunk)[feed.reploff..] == stream[feed.reploff..] + chunk;
    assert (stream + chunk)[..feed.reploff] == stream[..feed.reploff];
  }

  /** Forwarding what was applied. */
  lemma ConservedForward(stream: bytes, before: Feed, feed: Feed, applied: nat)
    requires Conserved(stream, before) && feed.reploff == before.reploff + applied <= |stream|
    requires feed.pending == before.pending && feed.forwarded == before.forwarded
    ensures applied <= |feed.pending|
    ensures Conserved(stream, feed.(forwarded := feed.forwarded + feed.pending[..applied], pending := feed.pending[applied..]))
  {
    assert stream[before.reploff..][..applied] == stream[before.reploff..feed.reploff];
    assert stream[..before.reploff] + stream[before.reploff..feed.reploff] == stream[..feed.reploff];
    assert stream[before.reploff..][applied..] == stream[feed.reploff..];
  }

  predicate AllOK(cmds: seq<Command>, maxBulk: nat) {
    forall i :: 0 <= i < |cmds| ==> Accepted(cmds[i], maxBulk)
  }

  /** No line starts like an array. */
  predicate AllLines(cmds: seq<Command>) {
    forall i :: 0 <= i < |cmds| && cmds[i].Text? ==> Enc(cmds[i])[0] != STAR
  }

  lemma LinesOK(cmds: seq<Command>, maxBulk: nat)
    requires AllOK(cmds, maxBulk)
    ensures AllLines(cmds)
  {
    forall i | 0 <= i < |cmds| && cmds[i].Text?
      ensures Enc(cmds[i])[0] != STAR
    {
      assert Accepted(cmds[i], maxBulk);
    }
  }

  /** With nothing left to deliver, a client that caught up has run every command. */
  lemma TracksDone(q: Parser, executed: seq<seq<bytes>>, stream: bytes, done: nat, cmds: seq<Command>)
    requires Tracks(q, executed, stream, done, cmds, []) && CaughtUp(q, done, cmds)
    ensures executed == Runs(cmds)
  {
    assert q.u + [] == q.u;
    assert cmds[..|cmds|] == cmds;
  }

  /**
   What can happen to a connection: bytes arrive (while clients may be paused), a read finds none, a
   read fails or finds the end of the stream, or the client is resumed.
   */
  datatype Event = Chunk(data: bytes, paused: bool) | NoData | Broken | Resume

  /** The last time the client was processed, clients were not paused. */
  predicate Unpaused(events: seq<Event>) {
    if events == [] then false
    else match events[|events| - 1]
      case Chunk(_, paused) => !paused
      case Resume => true
      case _ => Unpaused(events[..|events| - 1])
  }

  function Received(events: seq<Event>): bytes {
    if events == [] then []
    else (if events[0].Chunk? then events[0].data else []) + Received(events[1..])
  }

  lemma OneOK(cmds: seq<Command>, maxBulk: nat, i: nat)
    requires AllOK(cmds, maxBulk) && i < |cmds|
    ensures Accepted(cmds[i], maxBulk)
  {
  }

  class Client {
    const maxBulk: nat
    const maxQuerybuf: nat
    const master: bool
    /** What the command does that is run after so many others. */
    const effect: nat -> Effect
    var querybuf: bytes
    var qb_pos: nat
    var reqtype: ReqType
    var multibulklen: nat
    var bulklen: int
    var argv: seq<bytes>
    var closing: bool
    var blocked: bool
    /** To be closed for another reason than a protocol error: nothing more is read or run. */
    var ended: bool
    var inMulti: bool
    var executed: seq<seq<bytes>>
    var feed: Feed
    ghost var stream: bytes
    ghost var done: nat

    constructor (maxBulk: nat, maxQuerybuf: nat, master: bool, effect: nat -> Effect)
      ensures this.maxBulk == maxBulk && this.maxQuerybuf == maxQuerybuf && this.master == master && this.effect == effect
      ensures Valid() && Quiet() && stream == [] && done == 0 && !blocked && !ended && querybuf == [] && executed == []
      ensures forall cmds :: Tracks(Abs(), executed, stream, done, cmds, EncAll(cmds)) && OnBoundary(cmds)
      ensures reqtype == Unknown
    {
      this.maxBulk, this.maxQuerybuf, this.master, this.effect := maxBulk, maxQuerybuf, master, effect;
      querybuf, qb_pos, reqtype, multibulklen, bulklen, argv := [], 0, Unknown, 0, -1, [];
      closing, blocked, ended, executed, inMulti := false, false, false, [], false;
      feed := Feed(0, 0, [], []);
      stream, done := [], 0;
      new;
      forall cmds ensures Tracks(Abs(), executed, stream, done, cmds, EncAll(cmds)) && OnBoundary(cmds) {
        TracksStart(cmds);
        assert cmds[..0] == [];
      }
    }

    ghost function Abs(): Parser
      requires qb_pos <= |querybuf|
      reads this
    {
      Parser(querybuf[qb_pos..], multibulklen, bulklen, argv, closing)
    }

    /** Between calls: the fields of a half-read command are consistent. */
    ghost predicate Valid()
      reads this
    {
      && qb_pos <= |querybuf|
      && bulklen >= -1
      && (multibulklen == 0 ==> argv == [] && bulklen == -1)
      && (multibulklen > 0 ==> reqtype == Multibulk)
      && (reqtype == Multibulk && multibulklen == 0 ==> Abs().u != [] && Abs().u[0] == STAR)
      && InStream(Abs().u, stream, master, feed)
    }

    /** Nothing applied is waiting to be forwarded. */
    ghost predicate Quiet()
      reads this
    {
      master ==> Conserved(stream, feed)
    }

    /** A master's offset covers a whole number of commands. */
    ghost predicate OnBoundary(cmds: seq<Command>)
      reads this
    {
      master ==> done <= |cmds| && feed.reploff == |EncAll(cmds[..AppliedTo(cmds, effect, done)])|
    }

    /** The length line; a big argument is moved to the start of the buffer. */
    method BulkLen() returns (go: bool)
      requires qb_pos <= |querybuf|
      modifies this`querybuf, this`qb_pos, this`bulklen, this`closing
      ensures qb_pos <= |querybuf| && (Abs(), go) == ReadBulkLen(old(Abs()), maxBulk)
    {
      ghost var u := querybuf[qb_pos..];
      var line := ReadLine(querybuf[qb_pos..]);
      if line.Incomplete? { return false; }
      if line.TooBig? || querybuf[qb_pos] != DOLLAR || line.number.None? || line.number.value < 0 || line.number.value > maxBulk {
        closing := true;
        return false;
      }
      qb_pos := qb_pos + line.len;
      if line.number.value >= PROTO_MBULK_BIG_ARG && |querybuf| - qb_pos <= line.number.value + 2 {
        querybuf := querybuf[qb_pos..];
        qb_pos := 0;
      }
      bulklen := line.number.value;
      assert querybuf[qb_pos..] == u[line.len..];
      go := true;
    }

    /** The argument: copied, or taken over together with the buffer when it is alone in it. */
    method Bulk() returns (go: bool)
      requires qb_pos <= |querybuf| && bulklen >= 0 && multibulklen > 0
      modifies this`querybuf, this`qb_pos, this`bulklen, this`argv, this`multibulklen
      ensures qb_pos <= |querybuf| && (Abs(), go) == TakeBulk(old(Abs()))
    {
      ghost var u := querybuf[qb_pos..];
      if |querybuf| - qb_pos < bulklen + 2 { return false; }
      assert u[..bulklen] == querybuf[qb_pos..qb_pos + bulklen];
      if qb_pos == 0 && bulklen >= PROTO_MBULK_BIG_ARG && |querybuf| == bulklen + 2 {
        argv := argv + [querybuf[..bulklen]];
        querybuf := [];
      } else {
        argv := argv + [querybuf[qb_pos..qb_pos + bulklen]];
        qb_pos := qb_pos + bulklen + 2;
      }
      assert querybuf[qb_pos..] == u[bulklen + 2..];
      bulklen, multibulklen := -1, multibulklen - 1;
      go := true;
    }

    /** processMultibulkBuffer computes `Parse`, whichever path each argument takes; its assertions hold. */
    method ProcessMultibulkBuffer() returns (ok: bool)
      requires qb_pos <= |querybuf| && bulklen >= -1 && (multibulklen == 0 ==> bulklen == -1)
      requires multibulklen == 0 ==> argv == [] && qb_pos < |querybuf| && querybuf[qb_pos] == STAR
      modifies this`querybuf, this`qb_pos, this`bulklen, this`argv, this`multibulklen, this`closing
      ensures qb_pos <= |querybuf| && (Abs(), ok) == Parse(old(Abs()), maxBulk)
    {
      hide ReadBulkLen, TakeBulk;
      if multibulklen == 0 {
        ghost var u := querybuf[qb_pos..];
        assert argv == [];
        var line := ReadLine(querybuf[qb_pos..]);
        if line.Incomplete? { return false; }
        assert querybuf[qb_pos] == STAR;
        if line.TooBig? || line.number.None? || line.number.value > MAX_MULTIBULK {
          closing := true;
          return false;
        }
        qb_pos := qb_pos + line.len;
        assert querybuf[qb_pos..] == u[line.len..];
        if line.number.value <= 0 { return true; }
        multibulklen := line.number.value;
      }
      Args();
      ok := multibulklen == 0;
    }

    /** The argument loop. */
    method Args()
      requires qb_pos <= |querybuf| && bulklen >= -1 && (multibulklen == 0 ==> bulklen == -1)
      modifies this`querybuf, this`qb_pos, this`bulklen, this`argv, this`multibulklen, this`closing
      ensures qb_pos <= |querybuf| && Abs() == ReadArgs(old(Abs()), maxBulk)
    {
      hide ReadBulkLen, TakeBulk;
      while multibulklen > 0
        invariant qb_pos <= |querybuf| && bulklen >= -1 && (multibulklen == 0 ==> bulklen == -1)
        invariant ReadArgs(Abs(), maxBulk) == ReadArgs(old(Abs()), maxBulk)
        decreases multibulklen
      {
        if bulklen == -1 {
          BulkLenKeeps(Abs(), maxBulk);
          var go := BulkLen();
          if !go { break; }
        }
        TakeBulkKeeps(Abs());
        var go := Bulk();
        if !go { break; }
      }
    }

    /** The object follows the stream of `cmds`, of which `und` is still to come. */
    ghost predicate Synced(cmds: seq<Command>, und: bytes)
      reads this
    {
      && qb_pos <= |querybuf| && (reqtype != Unknown ==> done < |cmds| && (reqtype == Inline <==> cmds[done].Text?))
      && Tracks(Abs(), executed, stream, done, cmds, und) && OnBoundary(cmds)
    }

    /** processInlineBuffer computes `ParseInline`. */
    method ProcessInlineBuffer() returns (ok: bool)
      requires qb_pos <= |querybuf|
      modifies this`qb_pos, this`argv, this`closing
      ensures qb_pos <= |querybuf| && (Abs(), ok) == ParseInline(old(Abs()))
    {
      hide NonEmpty, Sds.Split, StrChr;
      ghost var u := querybuf[qb_pos..];
      var newline := StrChr(querybuf[qb_pos..], LF);
      if newline.None? {
        if |querybuf| - qb_pos > PROTO_INLINE_MAX_SIZE { closing := true; }
        return false;
      }
      var len, linefeed := newline.value, 1;
      if len != 0 && querybuf[qb_pos + len - 1] == CR { len, linefeed := len - 1, 2; }
      assert querybuf[qb_pos..qb_pos + len] == Chomp(u[..newline.value]);
      var args := Sds.SplitArgs(querybuf[qb_pos..qb_pos + len]);
      if args.None? {
        closing := true;
        return false;
      }
      qb_pos := qb_pos + len + linefeed;
      argv := KeepNonEmpty(args.value);
      assert querybuf[qb_pos..] == u[newline.value + 1..];
      ok := true;
    }

    /** Chooses the protocol by the first byte, and parses one request. */
    method ParseOne() returns (ok: bool)
      requires Valid() && qb_pos < |querybuf| && !closing
      modifies this`reqtype, this`querybuf, this`qb_pos, this`bulklen, this`argv, this`multibulklen, this`closing
      ensures qb_pos <= |querybuf| && InStream(Abs().u, stream, master, feed)
      ensures ok ==> |Abs().u| < |old(Abs()).u|
      ensures !ok ==> Valid()
      ensures reqtype == if old(reqtype == Inline || (reqtype == Unknown && querybuf[qb_pos] != STAR)) then Inline else Multibulk
      ensures (Abs(), ok) == if reqtype == Inline then ParseInline(old(Abs())) else Parse(old(Abs()), maxBulk)
    {
      hide Parse, ParseInline, InStream, Consumes;
      if reqtype == Unknown { reqtype := if querybuf[qb_pos] == STAR then Multibulk else Inline; }
      if reqtype == Inline {
        ParseInlineConsumes(Abs());
        ok := ProcessInlineBuffer();
      } else {
        ParseConsumes(Abs(), maxBulk);
        ok := ProcessMultibulkBuffer();
      }
      InStreamConsumes(old(Abs()), Abs(), stream, master, feed);
    }

    /**
     Runs the command that was read, and gets ready for the next one. An empty one is only dropped. A
     master's offset moves past the command unless it failed or a transaction is open.
     */
    method ProcessCommandAndReset()
      requires qb_pos <= |querybuf| && InStream(Abs().u, stream, master, feed)
      modifies this`reqtype, this`multibulklen, this`bulklen, this`argv, this`blocked, this`ended, this`inMulti, this`executed, this`feed
      ensures Valid() && reqtype == Unknown && Abs() == Parser(old(Abs()).u, 0, -1, [], closing)
      ensures old(argv) == [] ==> executed == old(executed) && blocked == old(blocked) && ended == old(ended) && feed == old(feed)
      ensures old(argv) != [] ==>
        && executed == old(executed) + [old(argv)]
        && blocked == effect(|old(executed)|).blocks && ended == (old(ended) || effect(|old(executed)|).Ends())
        && feed == old(feed).(reploff :=
             if master && effect(|old(executed)|).Moves() then |stream| - |Abs().u| else old(feed.reploff))
      ensures feed.reploff >= old(feed.reploff)
    {
      hide InStream;
      OffsetMoves(Abs().u, stream, master, feed);
      if argv != [] { Execute(); }
      reqtype, multibulklen, bulklen, argv := Unknown, 0, -1, [];
    }

    /** processCommand, and the offset of a master after it. */
    method Execute()
      requires qb_pos <= |querybuf| && (master ==> feed.readReploff + qb_pos >= |querybuf|)
      modifies this`blocked, this`ended, this`inMulti, this`executed, this`feed
      ensures executed == old(executed) + [argv]
      ensures var e := effect(|old(executed)|);
        && blocked == e.blocks && inMulti == e.inMulti && ended == (old(ended) || e.Ends())
        && feed == if master && e.Moves() then old(feed).(reploff := old(feed.readReploff) - |querybuf| + qb_pos) else old(feed)
    {
      var e := effect(|executed|);
      executed := executed + [argv];
      blocked, inMulti, ended := e.blocks, e.inMulti, ended || e.Ends();
      if !e.fails && master && !inMulti { feed := feed.(reploff := feed.readReploff - |querybuf| + qb_pos); }
    }

    /** One round of the command loop. `on` says whether the stream is known to encode `cmds`. */
    method RunOne(ghost on: bool, ghost cmds: seq<Command>, ghost und: bytes) returns (more: bool)
      requires Valid() && qb_pos < |querybuf| && !closing
      requires on ==> Synced(cmds, und) && AllOK(cmds, maxBulk)
      modifies this
      ensures Valid() && stream == old(stream)
      ensures on ==> Synced(cmds, und) && (more || CaughtUp(Abs(), done, cmds))
      ensures more ==> |Abs().u| < |old(Abs()).u|
      ensures feed == old(feed).(reploff := feed.reploff) && feed.reploff >= old(feed.reploff)
      ensures |executed| <= |old(executed)| + 1
      ensures !old(blocked) && !old(ended) ==>
        Ran(effect, |old(executed)|, |executed|, old(blocked), blocked, old(ended), ended)
    {
      hide Parse, ParseInline, InStream, Tracks, CaughtUp, AllOK, AllLines, EncAll, Runs, ArgsOf;
      ghost var q := Abs();
      if on {
        LinesOK(cmds, maxBulk);
        TracksUnread(q, executed, stream, done, cmds, und);
        OneOK(cmds, maxBulk, done);
        TracksParse(q, executed, stream, done, cmds, und, maxBulk);
      }
      more := ParseOne();
      if more { FinishOne(on, q, cmds, und); }
    }

    /** A whole request is in `argv`: it is run. */
    method FinishOne(ghost on: bool, ghost q: Parser, ghost cmds: seq<Command>, ghost und: bytes)
      requires qb_pos <= |querybuf| && InStream(Abs().u, stream, master, feed)
      requires on ==> OnBoundary(cmds) && Tracks(q, executed, stream, done, cmds, und) && done < |cmds|
      requires on ==> argv == ArgsOf(cmds[done]) && !closing && Abs().u + und == EncAll(cmds[done + 1..])
      modifies this
      ensures Valid() && stream == old(stream) && Abs().u == old(Abs()).u && (on ==> Synced(cmds, und))
      ensures feed == old(feed).(reploff := feed.reploff) && feed.reploff >= old(feed.reploff)
      ensures |executed| <= |old(executed)| + 1
      ensures !old(blocked) && !old(ended) ==>
        Ran(effect, |old(executed)|, |executed|, old(blocked), blocked, old(ended), ended)
    {
      hide InStream, Tracks, EncAll, Runs, ArgsOf;
      if on {
        TracksTaken(q, Abs(), executed, stream, done, cmds, und, master, feed);
        TracksCount(q, executed, stream, done, cmds, und);
        AppliedNext(cmds, effect, done);
        assert executed + [] == executed;
      }
      ProcessCommandAndReset();
      done := done + 1;
    }

    /** The command loop: it goes on while bytes are unread and nothing holds the client back. */
    method ProcessInputBuffer(paused: bool, ghost on: bool, ghost cmds: seq<Command>, ghost und: bytes)
      requires Valid()
      requires on ==> Synced(cmds, und) && AllOK(cmds, maxBulk)
      modifies this
      ensures Valid() && stream == old(stream)
      ensures on ==> Synced(cmds, und) && (paused || blocked || ended || CaughtUp(Abs(), done, cmds))
      ensures feed == old(feed).(reploff := feed.reploff) && feed.reploff >= old(feed.reploff)
      ensures Ran(effect, |old(executed)|, |executed|, old(blocked), blocked, old(ended), ended)
      ensures paused || old(closing) ==> executed == old(executed)
      ensures qb_pos == 0
    {
      hide InStream, Tracks, CaughtUp, AllOK, EncAll, Runs;
      var more := true;
      while more && qb_pos < |querybuf| && !paused && !blocked && !ended && !closing
        invariant Valid() && stream == old(stream)
        invariant on ==> Synced(cmds, und) && (more || CaughtUp(Abs(), done, cmds))
        invariant feed == old(feed).(reploff := feed.reploff) && feed.reploff >= old(feed.reploff)
        invariant Ran(effect, |old(executed)|, |executed|, old(blocked), blocked, old(ended), ended)
        invariant paused || old(closing) ==> executed == old(executed) && closing == old(closing)
        decreases more, |querybuf| - qb_pos
      {
        more := RunOne(on, cmds, und);
      }
      if on && more { TracksIdle(Abs(), executed, stream, done, cmds, und); }
      ghost var q := Abs();
      if qb_pos > 0 {
        querybuf := querybuf[qb_pos..];
        qb_pos := 0;
      }
      assert Abs() == q;
    }

    /** For a master, what was applied is forwarded, byte for byte, to the sub-replicas. */
    method ProcessInputBufferAndReplicate(paused: bool, ghost on: bool, ghost cmds: seq<Command>, ghost und: bytes)
      requires Valid() && Quiet()
      requires on ==> Synced(cmds, und) && AllOK(cmds, maxBulk)
      modifies this
      ensures Valid() && Quiet() && stream == old(stream)
      ensures on ==> Synced(cmds, und) && (paused || blocked || ended || CaughtUp(Abs(), done, cmds))
      ensures Ran(effect, |old(executed)|, |executed|, old(blocked), blocked, old(ended), ended) && qb_pos == 0
      ensures paused || old(closing) ==> executed == old(executed)
    {
      hide Tracks, CaughtUp, AllOK, EncAll, Runs, Conserved, Ran;
      var before := feed;
      ProcessInputBuffer(paused, on, cmds, und);
      if master {
        var n := feed.reploff - before.reploff;
        ConservedForward(stream, before, feed, n);
        feed := feed.(forwarded := feed.forwarded + feed.pending[..n], pending := feed.pending[n..]);
      }
    }

    /**
     What read() delivered joins the query buffer (and a master's pending bytes). If that makes the buffer
     too long the client is closed, otherwise it is processed.
     */
    method ReadQuery(chunk: bytes, paused: bool, ghost on: bool, ghost cmds: seq<Command>, ghost und: bytes)
      requires Valid() && Quiet()
      requires on ==> Synced(cmds, chunk + und) && AllOK(cmds, maxBulk)
      modifies this
      ensures Valid() && Quiet() && stream == old(stream) + chunk
      ensures on ==> Synced(cmds, und) && (paused || blocked || ended || CaughtUp(Abs(), done, cmds))
      ensures |old(querybuf) + chunk| > maxQuerybuf ==> ended && executed == old(executed) && blocked == old(blocked)
      ensures |old(querybuf) + chunk| <= maxQuerybuf ==>
        Ran(effect, |old(executed)|, |executed|, old(blocked), blocked, old(ended), ended) && qb_pos == 0
      ensures paused || old(closing) ==> executed == old(executed)
    {
      hide Tracks, CaughtUp, AllOK, EncAll, Runs, Conserved, InStream, Ran;
      Append(chunk, on, cmds, und);
      if |querybuf| > maxQuerybuf {
        ended := true;
        return;
      }
      ProcessInputBufferAndReplicate(paused, on, cmds, und);
    }

    method Append(chunk: bytes, ghost on: bool, ghost cmds: seq<Command>, ghost und: bytes)
      requires Valid() && Quiet()
      requires on ==> Synced(cmds, chunk + und)
      modifies this`querybuf, this`stream, this`feed
      ensures Valid() && Quiet() && stream == old(stream) + chunk && querybuf == old(querybuf) + chunk
      ensures on ==> Synced(cmds, und)
    {
      hide Tracks, EncAll, Runs, Conserved, InStream;
      if on { TracksRead(Abs(), executed, stream, done, cmds, chunk, und); }
      InStreamRead(Abs().u, stream, master, feed, chunk);
      if master {
        ConservedRead(stream, feed, chunk);
        feed := feed.(readReploff := feed.readReploff + |chunk|, pending := feed.pending + chunk);
      }
      ghost var q := Abs();
      querybuf := querybuf + chunk;
      stream := stream + chunk;
      assert Abs() == q.(u := q.u + chunk);
    }

    /** A read that fails, or finds the end of the stream, closes the client. */
    method ReadFails()
      requires Valid() && Quiet()
      modifies this`ended
      ensures Valid() && Quiet() && ended
    {
      ended := true;
    }

    /** What holds of a client between events. */
    ghost predicate Standing(cmds: seq<Command>, und: bytes)
      reads this
    {
      Valid() && Quiet() && Synced(cmds, und) && (!ended ==> qb_pos == 0)
    }

    /** One event; `other` is whether some read fails or more comes than the limit. */
    method Handle(event: Event, ghost cmds: seq<Command>, ghost later: bytes, ghost other: bool)
      requires Standing(cmds, (if event.Chunk? then event.data else []) + later) && AllOK(cmds, maxBulk) && !ended
      requires Held(effect, |executed|, blocked, false, other)
      requires (event == Broken ==> other) && (|EncAll(cmds)| - |later| > maxQuerybuf ==> other)
      modifies this
      ensures Standing(cmds, later) && Held(effect, |executed|, blocked, ended, other)
      ensures (event == Resume || (event.Chunk? && !event.paused)) && !blocked && !ended ==> CaughtUp(Abs(), done, cmds)
      ensures event == Broken ==> ended
      ensures event == NoData ==> blocked == old(blocked) && !ended && done == old(done) && Abs() == old(Abs())
    {
      hide Tracks, CaughtUp, AllOK, EncAll, Runs, Conserved, InStream, Ran, Held;
      BufferBound(this, cmds, (if event.Chunk? then event.data else []) + later);
      ghost var n, held := |executed|, blocked;
      assert !event.Chunk? ==> [] + later == later;
      match event {
        case Chunk(data, paused) =>
          ghost var tooLong := |querybuf + data| > maxQuerybuf;
          ReadQuery(data, paused, true, cmds, later);
          if tooLong { HeldEnd(effect, n, held, other); } else { HeldRan(effect, n, |executed|, held, blocked, ended, other); }
        case NoData =>
        case Broken =>
          ReadFails();
          HeldEnd(effect, n, held, other);
        case Resume =>
          Unblock(true, cmds, later);
          HeldRan(effect, n, |executed|, held, blocked, ended, other);
      }
    }

    /** The command that blocked the client is over: the buffered bytes are processed. */
    method Unblock(ghost on: bool, ghost cmds: seq<Command>, ghost und: bytes)
      requires Valid() && Quiet()
      requires on ==> Synced(cmds, und) && AllOK(cmds, maxBulk)
      modifies this
      ensures Valid() && Quiet() && stream == old(stream)
      ensures on ==> Synced(cmds, und) && (blocked || ended || CaughtUp(Abs(), done, cmds))
      ensures Ran(effect, |old(executed)|, |executed|, false, blocked, old(ended), ended) && qb_pos == 0
    {
      hide Ran;
      blocked := false;
      ProcessInputBufferAndReplicate(false, on, cmds, und);
    }
  }

  /**
   However commands, as arrays or as lines, are cut into chunks, wherever the client is paused, blocked or
   closed, the executed commands are a prefix of those sent, in order; and all of them once nothing is
   left to deliver and the client was last seen neither paused, blocked nor closed. It is blocked only
   by the last command that was run, and closed only by a read that fails, by a command, or by more
   input than the limit. For a master, what has been forwarded is the encoding of the commands up to
   the last that neither failed nor left a transaction open.
   */
  method Serve(events: seq<Event>, maxBulk: nat, maxQuerybuf: nat, master: bool, effect: nat -> Effect, ghost cmds: seq<Command>, ghost rest: bytes)
    returns (c: Client)
    requires AllOK(cmds, maxBulk) && Received(events) + rest == EncAll(cmds)
    ensures fresh(c) && c.done <= |cmds| && c.executed == Runs(cmds[..c.done])
    ensures Unpaused(events) && !c.blocked && !c.ended && rest == [] ==> c.executed == Runs(cmds)
    ensures (forall k :: 0 <= k < |Runs(cmds)| ==> !effect(k).blocks && !effect(k).Ends()) ==>
      (Unpaused(events) && rest == [] && Broken !in events && |Received(events)| <= maxQuerybuf ==> c.executed == Runs(cmds))
    ensures c.blocked ==> c.executed != [] && effect(|c.executed| - 1).blocks
    ensures c.ended ==> Broken in events || |Received(events)| > maxQuerybuf || (c.executed != [] && effect(|c.executed| - 1).Ends())
    ensures forall k :: 0 <= k < |c.executed| - 1 ==> !effect(k).Ends()
    ensures master ==> c.feed.forwarded == EncAll(cmds[..AppliedTo(cmds, effect, c.done)])
  {
    hide Tracks, CaughtUp, AllOK, EncAll, Runs, Conserved, InStream, AppliedTo, Received, Unpaused, Held, Client.Synced;
    c := new Client(maxBulk, maxQuerybuf, master, effect);
    ServeStarts(c, cmds, events);
    var i := 0;
    ghost var und := EncAll(cmds);
    ghost var other := Broken in events || |Received(events)| > maxQuerybuf;
    while i < |events| && !c.ended
      invariant i <= |events| && fresh(c) && c.maxBulk == maxBulk && c.master == master && c.maxQuerybuf == maxQuerybuf && c.effect == effect
      invariant c.Standing(cmds, und) && (!c.ended ==> und == Received(events[i..]) + rest)
      invariant Unpaused(events[..i]) && !c.blocked && !c.ended ==> CaughtUp(c.Abs(), c.done, cmds)
      invariant Held(effect, |c.executed|, c.blocked, c.ended, other)
    {
      NextEvent(events, i, rest);
      ghost var later := Received(events[i + 1..]) + rest;
      c.Handle(events[i], cmds, later, other);
      und := later;
      i := i + 1;
    }
    if !c.ended { NoEvents(events, rest); }
    HeldMeans(effect, |c.executed|, c.blocked, c.ended, other);
    ServeEnds(c, cmds, und);
    RunsGrow(cmds, c.done);
  }

  lemma {:induction false} RunsGrow(cmds: seq<Command>, done: nat)
    requires done <= |cmds|
    ensures |Runs(cmds[..done])| <= |Runs(cmds)|
  {
    hide ArgsOf;
    if done == |cmds| {
      assert cmds[..done] == cmds;
    } else {
      var init := cmds[..|cmds| - 1];
      RunsGrow(init, done);
      assert init[..done] == cmds[..done];
    }
  }

  lemma ServeStarts(c: Client, cmds: seq<Command>, events: seq<Event>)
    requires c.Valid() && c.Quiet() && c.querybuf == [] && c.qb_pos == 0 && c.reqtype == Unknown && c.executed == []
    requires Tracks(c.Abs(), c.executed, c.stream, c.done, cmds, EncAll(cmds)) && c.OnBoundary(cmds)
    ensures c.Standing(cmds, EncAll(cmds)) && !Unpaused(events[..0]) && Held(c.effect, 0, false, false, false) && events[0..] == events
    ensures forall other :: Held(c.effect, 0, false, false, other)
  {
    hide Tracks, EncAll;
  }

  lemma NextEvent(events: seq<Event>, i: nat, rest: bytes)
    requires i < |events|
    ensures Received(events[i..]) + rest == (if events[i].Chunk? then events[i].data else []) + (Received(events[i + 1..]) + rest)
    ensures |Received(events[i..])| <= |Received(events)| && events[i] in events
    ensures Unpaused(events[..i + 1]) ==
      (events[i] == Resume || (events[i].Chunk? && !events[i].paused) || (!events[i].Chunk? && Unpaused(events[..i])))
  {
    hide Received, Unpaused;
    ReceivedPart(events, i);
    NextReceived(events, i, rest);
    UnpausedLast(events[..i], events[i]);
    assert events[..i] + [events[i]] == events[..i + 1];
  }

  lemma NextReceived(events: seq<Event>, i: nat, rest: bytes)
    requires i < |events|
    ensures Received(events[i..]) + rest == (if events[i].Chunk? then events[i].data else []) + (Received(events[i + 1..]) + rest)
  {
    hide Received;
    var all, d := events[i..], if events[i].Chunk? then events[i].data else [];
    assert all[0] == events[i] && all[1..] == events[i + 1..];
    ReceivedFirst(all);
    Assoc(d, Received(events[i + 1..]), rest);
  }

  lemma Assoc(a: bytes, b: bytes, c: bytes)
    ensures (a + b) + c == a + (b + c)
  {
  }

  lemma ReceivedFirst(events: seq<Event>)
    requires events != []
    ensures Received(events) == (if events[0].Chunk? then events[0].data else []) + Received(events[1..])
  {
  }

  lemma UnpausedLast(events: seq<Event>, e: Event)
    ensures Unpaused(events + [e]) == (e == Resume || (e.Chunk? && !e.paused) || (!e.Chunk? && Unpaused(events)))
  {
    assert (events + [e])[..|events|] == events;
  }

  lemma {:induction false} ReceivedPart(events: seq<Event>, i: nat)
    requires i <= |events|
    ensures |Received(events[i..])| <= |Received(events)|
  {
    if i == 0 {
      assert events[0..] == events;
    } else {
      ReceivedPart(events[1..], i - 1);
      assert events[1..][i - 1..] == events[i..];
    }
  }

  lemma NoEvents(events: seq<Event>, rest: bytes)
    ensures events[..|events|] == events && Received(events[|events|..]) + rest == rest
  {
  }

  lemma HeldMeans(effect: nat -> Effect, n: nat, blocked: bool, ended: bool, other: bool)
    requires Held(effect, n, blocked, ended, other)
    ensures blocked ==> n > 0 && effect(n - 1).blocks
    ensures ended ==> other || (n > 0 && effect(n - 1).Ends())
    ensures forall k :: 0 <= k < n - 1 ==> !effect(k).Ends()
  {
  }

  /** The query buffer is part of what has been read. */
  lemma BufferBound(c: Client, cmds: seq<Command>, und: bytes)
    requires c.Valid() && c.Synced(cmds, und)
    ensures c.qb_pos == 0 ==> |c.querybuf| + |und| <= |EncAll(cmds)|
  {
    hide EncAll, Runs;
  }

  lemma ServeEnds(c: Client, cmds: seq<Command>, rest: bytes)
    requires c.Valid() && c.Quiet() && c.Synced(cmds, rest)
    ensures c.done <= |cmds| && c.executed == Runs(cmds[..c.done])
    ensures rest == [] && CaughtUp(c.Abs(), c.done, cmds) ==> c.executed == Runs(cmds)
    ensures c.master ==> c.feed.forwarded == EncAll(cmds[..AppliedTo(cmds, c.effect, c.done)])
  {
    hide EncAll, NonEmpty, Upcoming, Idle, CaughtUp, InStream;
    if rest == [] && CaughtUp(c.Abs(), c.done, cmds) {
      TracksDone(c.Abs(), c.executed, c.stream, c.done, cmds);
    }
    if c.master {
      EncAllSplit(cmds, AppliedTo(cmds, c.effect, c.done));
      assert c.stream[..c.feed.reploff] == (c.stream + rest)[..c.feed.reploff];
    }
  }
}
