/**
 The output side of a client (networking.c): a fixed buffer, then a list of reply blocks, one of
 which may be a placeholder for a length that is not known yet.

 What callers queue is recorded as a sequence of symbols, a byte or a hole to be filled later. At
 every moment what was sent, followed by what is pending, is exactly what was queued.
 */
module ReplyBuffer {
  import opened Basics

  const PROTO_REPLY_CHUNK_BYTES: nat := 16 * 1024

  datatype Sym = Byte(b: byte) | Gap(id: nat)

  /** A list node: a block whose first `|data|` of `size` bytes are used, or the NULL placeholder. */
  datatype Node = Block(data: bytes, size: nat) | Hole(id: nat)

  function Lift(s: bytes): (r: seq<Sym>)
    ensures |r| == |s|
  {
    seq(|s|, i requires 0 <= i < |s| => Byte(s[i]))
  }

  lemma LiftAppend(a: bytes, b: bytes)
    ensures Lift(a + b) == Lift(a) + Lift(b)
  {
  }

  function Syms(n: Node): seq<Sym> {
    if n.Block? then Lift(n.data) else [Gap(n.id)]
  }

  function Flatten(nodes: seq<Node>): seq<Sym> {
    if nodes == [] then [] else Syms(nodes[0]) + Flatten(nodes[1..])
  }

  lemma {:induction false} FlattenAppend(a: seq<Node>, b: seq<Node>)
    ensures Flatten(a + b) == Flatten(a) + Flatten(b)
  {
    hide Syms;
    if a == [] {
      assert a + b == b;
    } else {
      assert (a + b)[1..] == a[1..] + b;
      FlattenAppend(a[1..], b);
      assert Syms(a[0]) + (Flatten(a[1..]) + Flatten(b)) == Syms(a[0]) + Flatten(a[1..]) + Flatten(b);
    }
  }

  lemma FlattenHead(nodes: seq<Node>)
    requires nodes != []
    ensures Flatten(nodes) == Syms(nodes[0]) + Flatten(nodes[1..])
  {
  }

  lemma FlattenAround(nodes: seq<Node>, k: nat)
    requires k < |nodes|
    ensures Flatten(nodes) == Flatten(nodes[..k]) + Syms(nodes[k]) + Flatten(nodes[k + 1..])
  {
    hide Flatten, Syms;
    assert nodes == nodes[..k] + nodes[k..] && nodes[k..][1..] == nodes[k + 1..];
    FlattenAppend(nodes[..k], nodes[k..]);
    FlattenHead(nodes[k..]);
    assert Flatten(nodes[..k]) + (Syms(nodes[k]) + Flatten(nodes[k + 1..]))
        == Flatten(nodes[..k]) + Syms(nodes[k]) + Flatten(nodes[k + 1..]);
  }

  /** What is still to be sent, as a list of nodes: the rest of the fixed buffer, or of the head block, first. */
  function Unsent(front: bytes, sentlen: nat, reply: seq<Node>): seq<Node>
    requires HeadOK(front, sentlen, reply)
  {
    if front != [] then [Block(front[sentlen..], 0)] + reply
    else if sentlen > 0 then [Block(reply[0].data[sentlen..], 0)] + reply[1..]
    else reply
  }

  /** `sentlen` counts into the fixed buffer when that is in use, else into the head block. */
  predicate HeadOK(front: bytes, sentlen: nat, reply: seq<Node>) {
    if front != [] then sentlen < |front|
    else sentlen > 0 ==> reply != [] && reply[0].Block? && sentlen < |reply[0].data|
  }

  function Total(reply: seq<Node>): nat {
    if reply == [] then 0 else (if reply[0].Block? then reply[0].size else 0) + Total(reply[1..])
  }

  lemma {:induction false} TotalAppend(a: seq<Node>, b: seq<Node>)
    ensures Total(a + b) == Total(a) + Total(b)
  {
    if a == [] {
      assert a + b == b;
    } else {
      assert (a + b)[1..] == a[1..] + b;
      TotalAppend(a[1..], b);
    }
  }

  lemma TotalAround(nodes: seq<Node>, k: nat)
    requires k < |nodes|
    ensures Total(nodes) == Total(nodes[..k]) + (if nodes[k].Block? then nodes[k].size else 0) + Total(nodes[k + 1..])
  {
    assert nodes == nodes[..k] + nodes[k..] && nodes[k..][0] == nodes[k] && nodes[k..][1..] == nodes[k + 1..];
    TotalAppend(nodes[..k], nodes[k..]);
  }

  /** The placeholders are distinct, and older than `next`; blocks do not overflow. */
  ghost predicate NodesOK(reply: seq<Node>, next: nat) {
    && (forall i :: 0 <= i < |reply| && reply[i].Hole? ==> reply[i].id < next)
    && (forall i, j :: 0 <= i < j < |reply| && reply[i].Hole? && reply[j].Hole? ==> reply[i].id != reply[j].id)
    && (forall i :: 0 <= i < |reply| && reply[i].Block? ==> |reply[i].data| <= reply[i].size)
  }

  predicate NoHoles(reply: seq<Node>) {
    forall i :: 0 <= i < |reply| ==> reply[i].Block?
  }

  /** The history with hole `id` filled. */
  function Fill(history: seq<Sym>, id: nat, s: bytes): seq<Sym> {
    if history == [] then []
    else (if history[0] == Gap(id) then Lift(s) else [history[0]]) + Fill(history[1..], id, s)
  }

  lemma {:induction false} FillAppend(a: seq<Sym>, b: seq<Sym>, id: nat, s: bytes)
    ensures Fill(a + b, id, s) == Fill(a, id, s) + Fill(b, id, s)
  {
    if a == [] {
      assert a + b == b;
    } else {
      assert (a + b)[1..] == a[1..] + b;
      FillAppend(a[1..], b, id, s);
      var x := if a[0] == Gap(id) then Lift(s) else [a[0]];
      assert x + (Fill(a[1..], id, s) + Fill(b, id, s)) == x + Fill(a[1..], id, s) + Fill(b, id, s);
    }
  }

  lemma {:induction false} FillNothing(a: seq<Sym>, id: nat, s: bytes)
    requires Gap(id) !in a
    ensures Fill(a, id, s) == a
  {
    if a != [] { FillNothing(a[1..], id, s); }
  }

  lemma {:induction false} FlattenGaps(nodes: seq<Node>, id: nat)
    requires forall i :: 0 <= i < |nodes| ==> nodes[i] != Hole(id)
    ensures Gap(id) !in Flatten(nodes)
  {
    if nodes != [] { FlattenGaps(nodes[1..], id); }
  }

  /** Filling a hole that occurs once, in the list or in the history, comes to the same. */
  lemma FillOne(sent: bytes, nodes: seq<Node>, k: nat, id: nat, s: bytes)
    requires k < |nodes| && nodes[k] == Hole(id) && forall i :: 0 <= i < |nodes| && i != k ==> nodes[i] != Hole(id)
    ensures Fill(Lift(sent) + Flatten(nodes), id, s)
         == Lift(sent) + (Flatten(nodes[..k]) + Lift(s) + Flatten(nodes[k + 1..]))
  {
    hide Flatten, Fill;
    var a, b := Flatten(nodes[..k]), Flatten(nodes[k + 1..]);
    FlattenAround(nodes, k);
    FlattenGaps(nodes[..k], id);
    FlattenGaps(nodes[k + 1..], id);
    FillAppend(Lift(sent), Flatten(nodes), id, s);
    FillNothing(Lift(sent), id, s);
    FillAppend(a + [Gap(id)], b, id, s);
    FillAppend(a, [Gap(id)], id, s);
    FillNothing(a, id, s);
    FillNothing(b, id, s);
    FillGap(id, s);
  }

  lemma FillGap(id: nat, s: bytes)
    ensures Fill([Gap(id)], id, s) == Lift(s)
  {
    assert Lift(s) + [] == Lift(s);
  }

  // ------------------------------------------------------------- the invariant

  /** The output fields of a client: `front` is the used part of the fixed buffer. */
  datatype Out = Out(front: bytes, sentlen: nat, reply: seq<Node>, replyBytes: nat)

  ghost predicate Inv(o: Out, next: nat, sent: bytes, queued: seq<Sym>) {
    && HeadOK(o.front, o.sentlen, o.reply)
    && NodesOK(o.reply, next)
    && o.replyBytes == Total(o.reply)
    && Lift(sent) + Flatten(Unsent(o.front, o.sentlen, o.reply)) == queued
  }

  /** The fixed buffer takes `s` while the list is empty. */
  lemma FrontTakes(o: Out, next: nat, sent: bytes, queued: seq<Sym>, s: bytes)
    requires Inv(o, next, sent, queued) && o.reply == []
    ensures Inv(o.(front := o.front + s), next, sent, queued + Lift(s))
  {
    hide Flatten, Lift, NodesOK, Total;
    var rest := o.front[o.sentlen..];
    assert (o.front + s)[o.sentlen..] == rest + s;
    UnsentFront(o);
    UnsentFront(o.(front := o.front + s));
    LiftAppend(rest, s);
    assert Lift(sent) + (Lift(rest) + Lift(s)) == Lift(sent) + Lift(rest) + Lift(s);
  }

  lemma UnsentFront(o: Out)
    requires HeadOK(o.front, o.sentlen, o.reply) && o.reply == []
    ensures o.sentlen <= |o.front| && Flatten(Unsent(o.front, o.sentlen, o.reply)) == Lift(o.front[o.sentlen..])
  {
    FlattenBlock(o.front[o.sentlen..]);
    assert [Block(o.front[o.sentlen..], 0)] + [] == [Block(o.front[o.sentlen..], 0)];
  }

  lemma FlattenBlock(s: bytes)
    ensures Flatten([Block(s, 0)]) == Lift(s)
  {
    assert Lift(s) + [] == Lift(s);
  }

  lemma UnsentSnoc(o: Out, b: seq<Node>)
    requires HeadOK(o.front, o.sentlen, o.reply)
    ensures HeadOK(o.front, o.sentlen, o.reply + b)
    ensures Unsent(o.front, o.sentlen, o.reply + b) == Unsent(o.front, o.sentlen, o.reply) + b
  {
    if o.front == [] && o.sentlen > 0 { assert (o.reply + b)[1..] == o.reply[1..] + b; }
  }

  /** New nodes at the tail. */
  lemma TailTakes(o: Out, next: nat, sent: bytes, queued: seq<Sym>, b: seq<Node>, next2: nat)
    requires Inv(o, next, sent, queued) && NodesOK(o.reply + b, next2)
    ensures Inv(o.(reply := o.reply + b, replyBytes := o.replyBytes + Total(b)), next2, sent, queued + Flatten(b))
  {
    hide Flatten, Total, Unsent, NodesOK;
    UnsentSnoc(o, b);
    var u := Unsent(o.front, o.sentlen, o.reply);
    FlattenAppend(u, b);
    TotalAppend(o.reply, b);
    assert Lift(sent) + (Flatten(u) + Flatten(b)) == Lift(sent) + Flatten(u) + Flatten(b);
  }

  /** The tail block takes what fits. */
  lemma TailGrows(o: Out, next: nat, sent: bytes, queued: seq<Sym>, c: bytes)
    requires Inv(o, next, sent, queued) && o.reply != [] && o.reply[|o.reply| - 1].Block?
    requires |o.reply[|o.reply| - 1].data| + |c| <= o.reply[|o.reply| - 1].size
    ensures var k := |o.reply| - 1;
      Inv(o.(reply := o.reply[..k] + [Block(o.reply[k].data + c, o.reply[k].size)]), next, sent, queued + Lift(c))
  {
    hide Flatten, Total, NodesOK;
    var k := |o.reply| - 1;
    var d, size := o.reply[k].data, o.reply[k].size;
    var reply2 := o.reply[..k] + [Block(d + c, size)];
    assert NodesOK(reply2, next) by { TailGrowsOK(o.reply, c, next); }
    TotalAround(o.reply, k);
    TotalAround(reply2, k);
    assert reply2[..k] == o.reply[..k] && reply2[k + 1..] == [] == o.reply[k + 1..];
    UnsentTail(o, c);
    var u := Unsent(o.front, o.sentlen, o.reply);
    assert Lift(sent) + (Flatten(u) + Lift(c)) == Lift(sent) + Flatten(u) + Lift(c);
  }

  lemma UnsentTail(o: Out, c: bytes)
    requires HeadOK(o.front, o.sentlen, o.reply) && o.reply != [] && o.reply[|o.reply| - 1].Block?
    ensures var k := |o.reply| - 1;
      var reply2 := o.reply[..k] + [Block(o.reply[k].data + c, o.reply[k].size)];
      && HeadOK(o.front, o.sentlen, reply2)
      && Flatten(Unsent(o.front, o.sentlen, reply2)) == Flatten(Unsent(o.front, o.sentlen, o.reply)) + Lift(c)
  {
    hide Flatten, Lift;
    var k := |o.reply| - 1;
    var reply2 := o.reply[..k] + [Block(o.reply[k].data + c, o.reply[k].size)];
    var u, u2 := Unsent(o.front, o.sentlen, o.reply), Unsent(o.front, o.sentlen, reply2);
    var m := |u| - 1;
    UnsentLast(o.front, o.sentlen, o.reply, reply2, c);
    FlattenLast(u, m, u[m].data);
    FlattenLast(u2, m, u2[m].data);
    LiftAppend(u[m].data, c);
    assert Flatten(u[..m]) + (Lift(u[m].data) + Lift(c)) == Flatten(u[..m]) + Lift(u[m].data) + Lift(c);
  }

  /** Longer by `c` in the last block only. */
  lemma UnsentLast(front: bytes, sentlen: nat, reply: seq<Node>, reply2: seq<Node>, c: bytes)
    requires reply != [] && reply[|reply| - 1].Block? && HeadOK(front, sentlen, reply) && HeadOK(front, sentlen, reply2)
    requires var k := |reply| - 1; reply2 == reply[..k] + [Block(reply[k].data + c, reply[k].size)]
    ensures var u, u2 := Unsent(front, sentlen, reply), Unsent(front, sentlen, reply2);
      && |u2| == |u| > 0 && u2[..|u| - 1] == u[..|u| - 1]
      && u[|u| - 1].Block? && u2[|u| - 1].Block? && u2[|u| - 1].data == u[|u| - 1].data + c
  {
    var k := |reply| - 1;
    var u, u2 := Unsent(front, sentlen, reply), Unsent(front, sentlen, reply2);
    assert forall i :: 0 <= i < k ==> reply2[i] == reply[i];
    if front == [] && sentlen > 0 && k == 0 {
      assert (reply[0].data + c)[sentlen..] == reply[0].data[sentlen..] + c;
    } else {
      assert forall i :: 0 <= i < |u| - 1 ==> u2[i] == u[i];
    }
  }

  lemma FlattenLast(u: seq<Node>, m: nat, d: bytes)
    requires |u| == m + 1 && u[m].Block? && u[m].data == d
    ensures Flatten(u) == Flatten(u[..m]) + Lift(d)
  {
    FlattenAround(u, m);
  }

  lemma TailGrowsOK(reply: seq<Node>, c: bytes, next: nat)
    requires NodesOK(reply, next) && reply != [] && reply[|reply| - 1].Block?
    requires |reply[|reply| - 1].data| + |c| <= reply[|reply| - 1].size
    ensures var k := |reply| - 1; NodesOK(reply[..k] + [Block(reply[k].data + c, reply[k].size)], next)
  {
  }

  /** Sending from the fixed buffer. */
  lemma FrontSends(o: Out, next: nat, sent: bytes, queued: seq<Sym>, n: nat)
    requires Inv(o, next, sent, queued) && o.front != [] && o.sentlen + n <= |o.front|
    ensures var o2 := if o.sentlen + n == |o.front| then o.(front := [], sentlen := 0) else o.(sentlen := o.sentlen + n);
      Inv(o2, next, sent + o.front[o.sentlen..o.sentlen + n], queued)
  {
    hide Flatten;
    var a, b := o.front[o.sentlen..o.sentlen + n], o.front[o.sentlen + n..];
    assert o.front[o.sentlen..] == a + b;
    SendPart(sent, a, b, o.reply);
  }

  /** Sending from the head block, which goes away when it is done. */
  lemma HeadSends(o: Out, next: nat, sent: bytes, queued: seq<Sym>, n: nat)
    requires Inv(o, next, sent, queued) && o.front == [] && o.reply != [] && o.reply[0].Block?
    requires o.sentlen + n <= |o.reply[0].data|
    ensures o.replyBytes >= o.reply[0].size
    ensures var d := o.reply[0].data;
      var o2 := if o.sentlen + n == |d| then o.(reply := o.reply[1..], sentlen := 0, replyBytes := o.replyBytes - o.reply[0].size)
                else o.(sentlen := o.sentlen + n);
      Inv(o2, next, sent + d[o.sentlen..o.sentlen + n], queued)
    ensures |o.reply| == 1 ==> o.replyBytes - o.reply[0].size == 0
  {
    hide Flatten;
    var d := o.reply[0].data;
    var a, b := d[o.sentlen..o.sentlen + n], d[o.sentlen + n..];
    assert d[o.sentlen..] == a + b;
    SendPart(sent, a, b, o.reply[1..]);
    UnsentHead(o, next, sent, queued);
    assert d[0..] == d;
    assert Total([]) == 0;
    assert |o.reply| == 1 ==> o.reply[1..] == [];
  }

  lemma UnsentHead(o: Out, next: nat, sent: bytes, queued: seq<Sym>)
    requires Inv(o, next, sent, queued) && o.front == [] && o.reply != [] && o.reply[0].Block? && o.sentlen <= |o.reply[0].data|
    ensures Flatten(Unsent(o.front, o.sentlen, o.reply)) == Flatten([Block(o.reply[0].data[o.sentlen..], 0)] + o.reply[1..])
  {
    var d := o.reply[0].data;
    assert d[0..] == d;
    assert ([Block(d[o.sentlen..], 0)] + o.reply[1..])[1..] == o.reply[1..];
  }

  lemma SendPart(sent: bytes, a: bytes, b: bytes, rest: seq<Node>)
    ensures Lift(sent) + Flatten([Block(a + b, 0)] + rest) == Lift(sent + a) + Flatten([Block(b, 0)] + rest)
    ensures b == [] ==> Flatten([Block(b, 0)] + rest) == Flatten(rest)
  {
    assert ([Block(a + b, 0)] + rest)[1..] == rest == ([Block(b, 0)] + rest)[1..];
    LiftAppend(a, b);
    LiftAppend(sent, a);
    assert Lift(sent) + (Lift(a) + Lift(b) + Flatten(rest)) == Lift(sent) + Lift(a) + (Lift(b) + Flatten(rest));
  }

  /** The placeholder at `k` is replaced, together with what follows it, by `mid`. */
  lemma HoleFills(o: Out, next: nat, sent: bytes, queued: seq<Sym>, k: nat, id: nat, s: bytes, mid: seq<Node>)
    requires Inv(o, next, sent, queued) && k < |o.reply| && o.reply[k] == Hole(id)
    requires Flatten(mid) == Lift(s) + Flatten(o.reply[k + 1..]) && NodesOK(o.reply[..k] + mid, next)
    ensures Inv(o.(reply := o.reply[..k] + mid, replyBytes := Total(o.reply[..k] + mid)), next, sent, Fill(queued, id, s))
  {
    hide Flatten, Lift, Total, Fill, Unsent, NodesOK;
    var before := o.(reply := o.reply[..k]);
    assert o.reply == o.reply[..k] + o.reply[k..];
    HoleOnce(o, next, k, id);
    UnsentSnoc(before, o.reply[k..]);
    UnsentSnoc(before, mid);
    var p := Unsent(o.front, o.sentlen, o.reply[..k]);
    var u := p + o.reply[k..];
    assert u[|p| + 1..] == o.reply[k + 1..] && u[..|p|] == p;
    FillOne(sent, u, |p|, id, s);
    FlattenAppend(p, mid);
    assert Flatten(p) + (Lift(s) + Flatten(o.reply[k + 1..])) == Flatten(p) + Lift(s) + Flatten(o.reply[k + 1..]);
  }

  lemma HoleOnce(o: Out, next: nat, k: nat, id: nat)
    requires HeadOK(o.front, o.sentlen, o.reply) && NodesOK(o.reply, next) && k < |o.reply| && o.reply[k] == Hole(id)
    ensures HeadOK(o.front, o.sentlen, o.reply[..k])
    ensures var p := Unsent(o.front, o.sentlen, o.reply[..k]);
      var u := p + o.reply[k..];
      u[|p|] == Hole(id) && forall i :: 0 <= i < |u| && i != |p| ==> u[i] != Hole(id)
  {
    var p := Unsent(o.front, o.sentlen, o.reply[..k]);
    assert forall i :: 0 <= i < |p| ==> p[i].Block? || p[i] in o.reply[..k];
  }

  /** Filled in its own node, or glued to the front of the next block, a length reads the same. */
  lemma FillReads(s: bytes, size: nat, rest: seq<Node>)
    ensures Flatten([Block(s, size)] + rest) == Lift(s) + Flatten(rest)
  {
    assert ([Block(s, size)] + rest)[1..] == rest;
  }

  lemma GlueReads(s: bytes, d: bytes, size: nat, rest: seq<Node>)
    requires rest != [] && rest[0].Block? && rest[0].data == d
    ensures Flatten([Block(s + d, size)] + rest[1..]) == Lift(s) + Flatten(rest)
  {
    hide Lift;
    FillReads(s + d, size, rest[1..]);
    LiftAppend(s, d);
    assert Flatten(rest) == Lift(d) + Flatten(rest[1..]);
    assert Lift(s) + (Lift(d) + Flatten(rest[1..])) == Lift(s) + Lift(d) + Flatten(rest[1..]);
  }

  lemma LengthGlued(o: Out, next: nat, sent: bytes, queued: seq<Sym>, k: nat, id: nat, s: bytes)
    requires Inv(o, next, sent, queued) && k + 1 < |o.reply| && o.reply[k] == Hole(id) && o.reply[k + 1].Block?
    requires |s| + |o.reply[k + 1].data| <= o.reply[k + 1].size
    ensures var rest := o.reply[k + 1..];
      Inv(o.(reply := o.reply[..k] + ([Block(s + rest[0].data, rest[0].size)] + rest[1..])), next, sent, Fill(queued, id, s))
  {
    hide Flatten, Lift, Total, Unsent, HeadOK, Fill, NodesOK;
    var rest := o.reply[k + 1..];
    var mid := [Block(s + rest[0].data, rest[0].size)] + rest[1..];
    GlueReads(s, rest[0].data, rest[0].size, rest);
    FillOK(o.reply, k, next, mid);
    HoleFills(o, next, sent, queued, k, id, s, mid);
    TotalAround(o.reply, k);
    TotalAppend(o.reply[..k], mid);
    TotalFirst(mid, rest);
  }

  lemma LengthPlaced(o: Out, next: nat, sent: bytes, queued: seq<Sym>, k: nat, id: nat, s: bytes, size: nat)
    requires Inv(o, next, sent, queued) && k < |o.reply| && o.reply[k] == Hole(id) && |s| <= size
    ensures var rest := o.reply[k + 1..];
      Inv(o.(reply := o.reply[..k] + ([Block(s, size)] + rest), replyBytes := o.replyBytes + size), next, sent,
          Fill(queued, id, s))
  {
    hide Flatten, Lift, Total, Unsent, HeadOK, Fill, NodesOK;
    var rest := o.reply[k + 1..];
    var mid := [Block(s, size)] + rest;
    FillReads(s, size, rest);
    FillOK(o.reply, k, next, mid);
    HoleFills(o, next, sent, queued, k, id, s, mid);
    TotalAround(o.reply, k);
    TotalAppend(o.reply[..k], mid);
    TotalMore(mid, rest);
  }

  /** A hole of the history is a placeholder of the list, made before `next`. */
  lemma GapHasHole(o: Out, next: nat, sent: bytes, queued: seq<Sym>, id: nat)
    requires Inv(o, next, sent, queued)
    ensures Gap(id) in queued ==> Hole(id) in o.reply && id < next
  {
    hide Flatten, Total;
    if Hole(id) !in o.reply {
      FlattenGaps(Unsent(o.front, o.sentlen, o.reply), id);
    }
  }

  class Client {
    const buf: array<byte>
    var bufpos: nat
    var sentlen: nat
    var reply: seq<Node>
    var reply_bytes: nat
    var closeAfterReply: bool
    var next: nat
    ghost var sent: bytes
    ghost var queued: seq<Sym>

    constructor ()
      ensures Valid() && fresh(buf) && sent == [] && queued == [] && bufpos == 0 && reply == []
    {
      buf := new byte[PROTO_REPLY_CHUNK_BYTES];
      bufpos, sentlen, reply, reply_bytes, closeAfterReply := 0, 0, [], 0, false;
      next, sent, queued := 0, [], [];
    }

    ghost function Abs(): Out
      requires bufpos <= buf.Length
      reads this, buf
    {
      Out(buf[..bufpos], sentlen, reply, reply_bytes)
    }

    /** Conservation: sent, then pending, is what was queued; and `reply_bytes` is the size of the list. */
    ghost predicate Valid()
      reads this, buf
    {
      buf.Length == PROTO_REPLY_CHUNK_BYTES && bufpos <= buf.Length && Inv(Abs(), next, sent, queued)
    }

    predicate HasPendingReplies()
      reads this
    {
      bufpos > 0 || |reply| > 0
    }

    /** The reply fits in the fixed buffer, or is not wanted; otherwise it is refused. */
    method AddReplyToBuffer(s: bytes) returns (ok: bool)
      requires Valid()
      modifies buf, this`bufpos, this`queued
      ensures Valid()
      ensures ok == (closeAfterReply || (reply == [] && |s| <= buf.Length - old(bufpos)))
      ensures queued == if ok && !closeAfterReply then old(queued) + Lift(s) else old(queued)
    {
      hide Flatten, Lift, NodesOK, Total, Unsent;
      if closeAfterReply { return true; }
      if |reply| > 0 || |s| > buf.Length - bufpos { return false; }
      ghost var o := Abs();
      FrontTakes(o, next, sent, queued, s);
      for i := 0 to |s|
        modifies buf
        invariant buf[..bufpos] == o.front && forall j :: 0 <= j < i ==> buf[bufpos + j] == s[j]
      {
        buf[bufpos + i] := s[i];
      }
      bufpos := bufpos + |s|;
      queued := queued + Lift(s);
      assert buf[..bufpos] == o.front + s;
      ok := true;
    }

    /** The tail block takes what fits, and a new block, `slack` bytes bigger than asked for, the rest. */
    method AddReplyProtoToList(s: bytes, slack: nat)
      requires Valid()
      modifies this`reply, this`reply_bytes, this`queued
      ensures Valid()
      ensures queued == if closeAfterReply then old(queued) else old(queued) + Lift(s)
    {
      hide Flatten, Lift, Total, Unsent, HeadOK;
      if closeAfterReply { return; }
      var rest := s;
      if |reply| > 0 && reply[|reply| - 1].Block? {
        var k := |reply| - 1;
        var tail := reply[k];
        var avail := tail.size - |tail.data|;
        var copy := if avail >= |s| then |s| else avail;
        TailGrows(Abs(), next, sent, queued, s[..copy]);
        LiftAppend(s[..copy], s[copy..]);
        assert s == s[..copy] + s[copy..];
        reply := reply[..k] + [Block(tail.data + s[..copy], tail.size)];
        queued := queued + Lift(s[..copy]);
        rest := s[copy..];
      }
      if |rest| > 0 {
        var size := (if |rest| < PROTO_REPLY_CHUNK_BYTES then PROTO_REPLY_CHUNK_BYTES else |rest|) + slack;
        TailTakes(Abs(), next, sent, queued, [Block(rest, size)], next);
        OneTotal(rest, size);
        reply := reply + [Block(rest, size)];
        reply_bytes := reply_bytes + size;
        queued := queued + Lift(rest);
      }
    }

    /** A reply is queued whole, at the end, unless the client is already closing. */
    method AddReply(s: bytes, slack: nat)
      requires Valid()
      modifies buf, this`bufpos, this`reply, this`reply_bytes, this`queued
      ensures Valid()
      ensures queued == if closeAfterReply then old(queued) else old(queued) + Lift(s)
    {
      hide Inv, Lift;
      var ok := AddReplyToBuffer(s);
      if !ok { AddReplyProtoToList(s, slack); }
    }

    /** A placeholder for a length, and the node that holds it. */
    method AddReplyDeferredLen() returns (node: nat)
      requires Valid()
      modifies this`reply, this`queued, this`next
      ensures Valid() && Gap(node) !in old(queued) && queued == old(queued) + [Gap(node)]
    {
      hide Unsent;
      node := next;
      GapHasHole(Abs(), next, sent, queued, node);
      TailTakes(Abs(), next, sent, queued, [Hole(node)], next + 1);
      OneHole(node);
      reply := reply + [Hole(node)];
      queued := queued + [Gap(node)];
      next := next + 1;
    }

    method FindNode(node: nat) returns (k: nat)
      requires Hole(node) in reply
      ensures k < |reply| && reply[k] == Hole(node)
    {
      k := 0;
      while reply[k] != Hole(node)
        invariant k < |reply| && Hole(node) in reply[k..]
        decreases |reply| - k
      {
        k := k + 1;
      }
    }

    /** The length goes where its placeholder was, in a node of its own or in front of the next block. */
    method SetDeferredAggregateLen(node: nat, lenstr: bytes, slack: nat)
      requires Valid() && Gap(node) in queued
      modifies this`reply, this`reply_bytes, this`queued
      ensures Valid() && queued == Fill(old(queued), node, lenstr)
    {
      hide Lift, Total, Fill, Inv;
      GapHasHole(Abs(), next, sent, queued, node);
      var k := FindNode(node);
      var rest := reply[k + 1..];
      if |rest| > 0 && rest[0].Block? && rest[0].size - |rest[0].data| >= |lenstr|
         && |rest[0].data| < PROTO_REPLY_CHUNK_BYTES * 4 {
        LengthGlued(Abs(), next, sent, queued, k, node, lenstr);
        reply := reply[..k] + ([Block(lenstr + rest[0].data, rest[0].size)] + rest[1..]);
      } else {
        LengthPlaced(Abs(), next, sent, queued, k, node, lenstr, |lenstr| + slack);
        reply := reply[..k] + ([Block(lenstr, |lenstr| + slack)] + rest);
        reply_bytes := reply_bytes + (|lenstr| + slack);
      }
      queued := Fill(queued, node, lenstr);
    }

    /** The symbols not sent yet. */
    ghost function Pending(): seq<Sym>
      requires Valid()
      reads this, buf
    {
      Flatten(Unsent(buf[..bufpos], sentlen, reply))
    }

    /**
     Moves what `src`, a client without a connection, has pending to this client, if prepareClientToWrite
     accepts. If this client is closing, the fixed buffer of `src` is dropped but its list is taken.
     */
    method AddReplyFromClient(src: Client, accepts: bool, slack: nat)
      requires Valid() && src.Valid() && src != this && src.buf != buf && src.sentlen == 0 && NoHoles(src.reply)
      modifies buf, this, src
      ensures Valid() && src.Valid() && src.Pending() == (if accepts then [] else old(src.Pending()))
      ensures accepts && !closeAfterReply ==> queued == old(queued) + old(src.Pending())
      ensures accepts && closeAfterReply ==> queued == old(queued) + Flatten(old(src.reply))
      ensures !accepts ==> queued == old(queued)
      ensures closeAfterReply == old(closeAfterReply) && sent == old(sent)
    {
      hide Valid, Pending, Flatten;
      if accepts { TakeReplies(src, slack); }
    }

    method TakeReplies(src: Client, slack: nat)
      requires Valid() && src.Valid() && src != this && src.buf != buf && src.sentlen == 0 && NoHoles(src.reply)
      modifies buf, this, src
      ensures Valid() && src.Valid() && src.Pending() == []
      ensures !closeAfterReply ==> queued == old(queued) + old(src.Pending())
      ensures closeAfterReply ==> queued == old(queued) + Flatten(old(src.reply))
      ensures closeAfterReply == old(closeAfterReply) && sent == old(sent)
    {
      hide Inv, Lift, Flatten, Total;
      ghost var o, was := src.Abs(), queued;
      InvParts(o, src.next, src.sent, src.queued);
      PendingParts(o);
      AddReply(src.buf[..src.bufpos], slack);
      InvParts(Abs(), next, sent, queued);
      JoinOK(reply, src.reply, next, src.next);
      TailTakes(Abs(), next, sent, queued, src.reply, next);
      reply := reply + src.reply;
      reply_bytes := reply_bytes + src.reply_bytes;
      queued := queued + Flatten(src.reply);
      assert was + Lift(o.front) + Flatten(o.reply) == was + (Lift(o.front) + Flatten(o.reply));
      src.reply, src.reply_bytes, src.bufpos := [], 0, 0;
      src.queued := Lift(src.sent);
      EmptyInv(src.next, src.sent);
      assert src.buf[..0] == [];
    }

    /** One write from the fixed buffer; `takes` is what the socket would take, or an error if negative. */
    method SendFront(takes: int) returns (nwritten: int)
      requires Valid() && bufpos > 0
      modifies this`bufpos, this`sentlen, this`sent
      ensures Valid() && nwritten == Written(takes, old(bufpos - sentlen)) && nwritten <= old(bufpos - sentlen)
      ensures old(sent) <= sent && |sent| == |old(sent)| + Positive(nwritten)
      ensures nwritten > 0 ==> bufpos == 0 || (bufpos == old(bufpos) && sentlen > old(sentlen))
      ensures takes >= old(bufpos - sentlen) ==> bufpos == 0
      ensures nwritten <= 0 ==> bufpos == old(bufpos)
    {
      hide Inv, Lift, Flatten, Total, NodesOK, Unsent;
      ghost var o := Abs();
      InvParts(o, next, sent, queued);
      nwritten := Written(takes, bufpos - sentlen);
      if nwritten <= 0 { return; }
      FrontSends(o, next, sent, queued, nwritten);
      assert buf[sentlen..sentlen + nwritten] == o.front[sentlen..sentlen + nwritten];
      sent := sent + buf[sentlen..sentlen + nwritten];
      sentlen := sentlen + nwritten;
      if sentlen == bufpos { bufpos, sentlen := 0, 0; }
      assert sentlen == 0 ==> Abs().front == [];
    }

    /** The head block is freed when it is done. */
    method SendHead(takes: int) returns (nwritten: int)
      requires Valid() && bufpos == 0 && reply != [] && NoHoles(reply) && reply[0].data != []
      modifies this`sentlen, this`reply, this`reply_bytes, this`sent
      ensures Valid() && NoHoles(reply) && nwritten == Written(takes, old(|reply[0].data| - sentlen))
      ensures old(sent) <= sent && |sent| == |old(sent)| + Positive(nwritten)
      ensures nwritten > 0 ==> reply == old(reply)[1..] || (reply == old(reply) && old(sentlen) < sentlen < |reply[0].data|)
      ensures takes >= old(|reply[0].data| - sentlen) ==> reply == old(reply)[1..]
      ensures nwritten <= 0 ==> reply == old(reply)
    {
      hide Inv, Lift, Flatten, Total, NodesOK, Unsent;
      ghost var o := Abs();
      InvParts(o, next, sent, queued);
      var head := reply[0];
      nwritten := Written(takes, |head.data| - sentlen);
      if nwritten <= 0 { return; }
      HeadSends(o, next, sent, queued, nwritten);
      sent := sent + head.data[sentlen..sentlen + nwritten];
      sentlen := sentlen + nwritten;
      if sentlen == |head.data| {
        reply_bytes := reply_bytes - head.size;
        reply := reply[1..];
        sentlen := 0;
        assert |reply| == 0 ==> reply_bytes == 0;
      }
    }

    /** An empty head block is freed without a write. */
    method DropHead()
      requires Valid() && bufpos == 0 && reply != [] && NoHoles(reply) && reply[0].data == []
      modifies this`reply, this`reply_bytes, this`sentlen
      ensures Valid() && NoHoles(reply) && reply == old(reply)[1..]
    {
      hide Inv, Lift, Flatten, Total, NodesOK, Unsent;
      ghost var o := Abs();
      InvParts(o, next, sent, queued);
      HeadSends(o, next, sent, queued, 0);
      assert sent + reply[0].data[sentlen..sentlen] == sent;
      reply_bytes := reply_bytes - reply[0].size;
      reply := reply[1..];
      sentlen := 0;
    }

    /** The buffers with something in them: the fixed one and the list. */
    ghost function Chunks(): nat
      reads this
    {
      |reply| + if bufpos > 0 then 1 else 0
    }

    /** What is left of the one that is being sent. */
    ghost function Unfinished(): int
      reads this
    {
      (if bufpos > 0 then bufpos else if reply != [] && reply[0].Block? then |reply[0].data| else 0) - sentlen
    }

    /** One round of the loop: a write, or an empty block freed. */
    method SendSome(takes: int) returns (wrote: bool, nwritten: int)
      requires Valid() && HasPendingReplies() && NoHoles(reply)
      modifies this`bufpos, this`sentlen, this`reply, this`reply_bytes, this`sent
      ensures Valid() && NoHoles(reply) && old(sent) <= sent && |sent| == |old(sent)| + Positive(nwritten)
      ensures if wrote then nwritten == Written(takes, old(Unfinished())) && old(Unfinished()) > 0 else nwritten == 0
      ensures nwritten > 0 ==> Chunks() < old(Chunks()) || (Chunks() == old(Chunks()) && 0 <= Unfinished() < old(Unfinished()))
      ensures !wrote || takes >= old(Unfinished()) ==> Chunks() < old(Chunks())
      ensures Chunks() <= old(Chunks()) && (!wrote ==> sent == old(sent))
    {
      hide Inv, Lift;
      InvParts(Abs(), next, sent, queued);
      if bufpos > 0 {
        wrote := true;
        nwritten := SendFront(takes);
      } else if reply[0].data == [] {
        wrote, nwritten := false, 0;
        DropHead();
      } else {
        wrote := true;
        nwritten := SendHead(takes);
      }
      InvParts(Abs(), next, sent, queued);
    }

    /**
     Writes to the socket, which takes up to `socket(i)` bytes of write `i` or fails, until nothing is
     pending, a write took nothing, or enough has been written for now. Nothing is lost, repeated or
     reordered. False means that the client is given up: a write failed for good, or all is sent and the
     client was to be closed.
     */
    method WriteToClient(socket: nat -> int, again: bool, maxWrites: nat, unlimited: bool) returns (ok: bool, took: seq<nat>)
      requires Valid() && NoHoles(reply)
      modifies this`bufpos, this`sentlen, this`reply, this`reply_bytes, this`sent
      ensures Valid() && NoHoles(reply) && old(sent) <= sent && |sent| == |old(sent)| + Sum(took)
      ensures forall i :: 0 <= i < |took| ==> took[i] <= Positive(socket(i)) && (took[i] == 0 <==> socket(i) <= 0)
      ensures forall i :: 0 <= i < |took| - 1 ==> took[i] > 0
      ensures !HasPendingReplies() ==> Lift(sent) == queued
      ensures HasPendingReplies() ==> took != [] && (socket(|took| - 1) <= 0 || (Sum(took) > maxWrites && !unlimited))
      ensures took != [] && !unlimited ==> Sum(took[..|took| - 1]) <= maxWrites
      ensures unlimited && (forall i :: socket(i) > 0 && socket(i) >= |queued|) ==> Lift(sent) == queued && |took| <= old(Chunks())
      ensures ok <==> !(took != [] && socket(|took| - 1) < 0 && !again) && (HasPendingReplies() || !closeAfterReply)
    {
      hide Inv, Lift, Sum, Wrote, NoHoles, Chunks, Unfinished, Positive, Written;
      took := [];
      NoWrites(socket);
      var totwritten, stalled, nwritten := 0, false, 0;
      while HasPendingReplies() && !stalled
        invariant Valid() && NoHoles(reply) && old(sent) <= sent && totwritten == Sum(took) && |sent| == |old(sent)| + totwritten
        invariant Wrote(took, socket, nwritten)
        invariant stalled == (nwritten < 0 || (took != [] && nwritten == 0) || (totwritten > maxWrites && !unlimited))
        invariant took != [] && !unlimited ==> Sum(took[..|took| - 1]) <= maxWrites
        invariant (forall i :: socket(i) >= |queued|) ==> |took| + Chunks() <= old(Chunks())
        decreases !stalled, Chunks(), Unfinished()
      {
        UnfinishedBound();
        ghost var left := Unfinished();
        var wrote, n := SendSome(socket(|took|));
        if wrote {
          OneWrite(took, socket, nwritten, n, left);
          nwritten, took, totwritten := n, took + [Positive(n)], totwritten + Positive(n);
          assert took[..|took| - 1] + [Positive(n)] == took;
          stalled := n <= 0 || (totwritten > maxWrites && !unlimited);
        }
      }
      if !HasPendingReplies() { EmptyPending(Abs(), next, sent, queued); }
      WritesMean(took, socket, nwritten);
      ok := !(nwritten < 0 && !again) && (HasPendingReplies() || !closeAfterReply);
    }

    lemma UnfinishedBound()
      requires Valid() && HasPendingReplies() && NoHoles(reply)
      ensures Unfinished() <= |queued|
    {
      hide Total, NodesOK, Lift;
      var u := Unsent(buf[..bufpos], sentlen, reply);
      FlattenHead(u);
      FirstSize(u);
    }
  }

  /** A write took something exactly if the socket had room, and not more than that. */
  predicate Fits(took: nat, room: int) {
    took <= Positive(room) && (took == 0 <==> room <= 0)
  }

  /** The writes so far: all but the last took something, and none more than the socket would. */
  ghost predicate Wrote(took: seq<nat>, socket: nat -> int, last: int) {
    && (forall i :: 0 <= i < |took| ==> Fits(took[i], socket(i)))
    && (forall i :: 0 <= i < |took| - 1 ==> took[i] > 0)
    && (if took == [] then last == 0 else took[|took| - 1] == Positive(last) && (last < 0 <==> socket(|took| - 1) < 0))
  }

  lemma NoWrites(socket: nat -> int)
    ensures Wrote([], socket, 0) && Sum([]) == 0
  {
  }

  lemma OneFits(room: int, left: int)
    requires left > 0
    ensures var n := Written(room, left); Fits(Positive(n), room) && (n < 0 <==> room < 0) && (n <= 0 <==> room <= 0)
  {
  }

  lemma OneWrite(took: seq<nat>, socket: nat -> int, last: int, n: int, left: int)
    requires Wrote(took, socket, last) && (took == [] || last > 0) && left > 0 && n == Written(socket(|took|), left)
    ensures Wrote(took + [Positive(n)], socket, n) && Sum(took + [Positive(n)]) == Sum(took) + Positive(n)
    ensures n <= 0 <==> socket(|took|) <= 0
  {
    hide Written, Fits, Sum;
    SumSnoc(took, Positive(n));
    OneFits(socket(|took|), left);
    var more := took + [Positive(n)];
    forall i | 0 <= i < |more|
      ensures Fits(more[i], socket(i)) && (i < |more| - 1 ==> more[i] > 0)
    {
      if i < |took| { assert more[i] == took[i]; }
    }
  }

  lemma WritesMean(took: seq<nat>, socket: nat -> int, last: int)
    requires Wrote(took, socket, last)
    ensures forall i :: 0 <= i < |took| ==> took[i] <= Positive(socket(i)) && (took[i] == 0 <==> socket(i) <= 0)
    ensures forall i :: 0 <= i < |took| - 1 ==> took[i] > 0
    ensures took != [] ==> (last < 0 <==> socket(|took| - 1) < 0) && (last <= 0 <==> socket(|took| - 1) <= 0)
    ensures took == [] ==> last == 0
  {
  }

  lemma FirstSize(u: seq<Node>)
    requires u != [] && u[0].Block?
    ensures |Flatten(u)| >= |u[0].data|
  {
    FlattenHead(u);
  }

  function Positive(x: int): nat {
    if x > 0 then x else 0
  }

  /** What write returns when the socket has room for `takes` of the `n` bytes, or -1. */
  function Written(takes: int, n: int): int {
    if takes < 0 then -1 else if takes <= n then takes else n
  }

  function Sum(s: seq<nat>): nat {
    if s == [] then 0 else Sum(s[..|s| - 1]) + s[|s| - 1]
  }

  lemma SumSnoc(s: seq<nat>, x: nat)
    ensures Sum(s + [x]) == Sum(s) + x
  {
    assert (s + [x])[..|s|] == s;
  }

  lemma InvParts(o: Out, next: nat, sent: bytes, queued: seq<Sym>)
    requires Inv(o, next, sent, queued)
    ensures HeadOK(o.front, o.sentlen, o.reply) && NodesOK(o.reply, next) && o.replyBytes == Total(o.reply)
  {
  }

  lemma PendingParts(o: Out)
    requires HeadOK(o.front, o.sentlen, o.reply) && o.sentlen == 0
    ensures Flatten(Unsent(o.front, o.sentlen, o.reply)) == Lift(o.front) + Flatten(o.reply)
  {
    if o.front != [] {
      assert o.front[0..] == o.front;
      FillReads(o.front, 0, o.reply);
    } else {
      assert Lift(o.front) + Flatten(o.reply) == Flatten(o.reply);
    }
  }

  lemma JoinOK(a: seq<Node>, b: seq<Node>, next: nat, other: nat)
    requires NodesOK(a, next) && NodesOK(b, other) && NoHoles(b)
    ensures NodesOK(a + b, next)
  {
  }

  lemma EmptyInv(next: nat, sent: bytes)
    ensures Inv(Out([], 0, [], 0), next, sent, Lift(sent)) && Flatten([]) == []
  {
    assert Lift(sent) + [] == Lift(sent);
  }

  lemma EmptyPending(o: Out, next: nat, sent: bytes, queued: seq<Sym>)
    requires Inv(o, next, sent, queued) && o.front == [] && o.reply == []
    ensures Lift(sent) == queued
  {
    assert Lift(sent) + [] == Lift(sent);
  }

  lemma OneHole(id: nat)
    ensures Total([Hole(id)]) == 0 && Flatten([Hole(id)]) == [Gap(id)]
  {
  }

  lemma TotalFirst(a: seq<Node>, b: seq<Node>)
    requires a != [] && b != [] && a[0].Block? && b[0].Block? && a[0].size == b[0].size && a[1..] == b[1..]
    ensures Total(a) == Total(b)
  {
  }

  lemma TotalMore(a: seq<Node>, b: seq<Node>)
    requires a != [] && a[0].Block? && a[1..] == b
    ensures Total(a) == a[0].size + Total(b)
  {
  }

  lemma FillOK(reply: seq<Node>, k: nat, next: nat, mid: seq<Node>)
    requires NodesOK(reply, next) && k < |reply| && mid != [] && mid[0].Block? && |mid[0].data| <= mid[0].size
    requires mid[1..] == reply[k + 1..] || (k + 1 < |reply| && mid[1..] == reply[k + 2..])
    ensures NodesOK(reply[..k] + mid, next)
  {
    var r, d := reply[..k] + mid, |reply| - (k + |mid|);
    assert forall i :: k < i < |r| ==> r[i] == mid[1..][i - k - 1] == reply[i + d];
  }

  lemma OneTotal(s: bytes, size: nat)
    ensures Total([Block(s, size)]) == size && Flatten([Block(s, size)]) == Lift(s)
  {
    assert Lift(s) + [] == Lift(s);
  }
}
