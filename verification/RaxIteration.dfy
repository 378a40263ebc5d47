/**
 The iterator of rax.c: a current node, the stack of its parents and the current key, moved in
 place. The contracts compare every move with the plain ordered set of keys.
 */
module RaxIteration {
  import opened Basics
  import opened RaxTree
  import opened RaxMemory
  import opened RaxObject
  import opened RaxRemoval
  import opened RaxOrder

  // ---------------------------------------------------- how much is left to visit

  ghost function Size(t: Tree): nat
    decreases t, 1
  {
    1 + Sizes(t.kids)
  }

  ghost function Sizes(ts: seq<Tree>): nat
    decreases ts, 0
  {
    if ts == [] then 0 else Size(ts[0]) + Sizes(ts[1..])
  }

  /** Nodes that come after the current subtree in a forward walk. */
  ghost function Remaining(ctx: seq<Frame>): nat
    requires CtxOK(ctx)
    decreases |ctx|
  {
    if ctx == [] then 0 else Remaining(Init(ctx)) + Sizes(Last(ctx).t.kids[Last(ctx).i + 1..])
  }

  lemma {:induction false} SizesSuffix(ts: seq<Tree>, i: nat, j: nat)
    requires i <= j <= |ts|
    ensures Sizes(ts[j..]) <= Sizes(ts[i..])
    decreases j - i
  {
    if i < j {
      assert ts[i..][1..] == ts[i + 1..];
      SizesSuffix(ts, i + 1, j);
    }
  }

  /** Entering a child later than `from` uses up what was left. */
  lemma EnterShrinks(ctx: seq<Frame>, t: Tree, from: nat, i: nat)
    requires CtxOK(ctx) && Shape(t) && from <= i < |t.kids|
    ensures CtxOK(ctx + [Frame(t, i)])
    ensures Remaining(ctx + [Frame(t, i)]) + Size(t.kids[i]) <= Remaining(ctx) + Sizes(t.kids[from..])
    ensures Remaining(ctx + [Frame(t, i)]) + Size(t.kids[i]) < Remaining(ctx) + Size(t)
  {
    var c := ctx + [Frame(t, i)];
    assert Init(c) == ctx;
    assert t.kids[i..][1..] == t.kids[i + 1..];
    SizesSuffix(t.kids, from, i);
    SizesSuffix(t.kids, 0, i);
    assert t.kids[0..] == t.kids;
  }

  /** The scans for the next larger and the next smaller edge. */
  method ScanNext(v: seq<byte>, c: byte) returns (i: nat)
    ensures i <= |v| && (i < |v| ==> v[i] > c)
    ensures forall j :: 0 <= j < i ==> v[j] <= c
  {
    i := 0;
    while i < |v| && v[i] <= c
      invariant i <= |v|
      invariant forall j :: 0 <= j < i ==> v[j] <= c
    {
      i := i + 1;
    }
  }

  method ScanPrev(v: seq<byte>, c: byte) returns (i: int)
    ensures -1 <= i < |v| && (i >= 0 ==> v[i] < c)
    ensures forall j :: i < j < |v| ==> v[j] >= c
  {
    i := |v| - 1;
    while i >= 0 && v[i] >= c
      invariant -1 <= i < |v|
      invariant forall j :: i < j < |v| ==> v[j] >= c
    {
      i := i - 1;
    }
  }

  /** The operator strings raxSeek understands. */
  function ParseOp(op: string): Option<SeekOp> {
    if op == "" then None
    else if op[0] == '>' then Some(if |op| > 1 && op[1] == '=' then AtOrAbove else Above)
    else if op[0] == '<' then Some(if |op| > 1 && op[1] == '=' then AtOrBelow else Below)
    else if op[0] == '=' then Some(Exactly)
    else if op[0] == '^' then Some(First)
    else if op[0] == '$' then Some(Greatest)
    else None
  }

  /** The parent at depth `k`: its record, and the only slot that holds the next node of the path. */
  ghost predicate ParentRecord(mem: Mem, ctx: seq<Frame>, sub: Tree, k: nat)
    requires k < |ctx| && FrameOK(ctx[k])
  {
    var f := ctx[k];
    var child := if k + 1 < |ctx| then ctx[k + 1].t.ref else sub.ref;
    && f.t.ref in mem && mem[f.t.ref].iscompr == f.t.compr && mem[f.t.ref].data == f.t.edges
    && |mem[f.t.ref].children| == |f.t.kids|
    && (forall i :: 0 <= i < |f.t.kids| ==> (mem[f.t.ref].children[i] == child <==> i == f.i))
  }

  lemma {:induction false} ParentRecords(mem: Mem, head: Ptr, ctx: seq<Frame>, sub: Tree, k: nat)
    requires Focus(mem, head, ctx, sub) && Linked(ctx, sub) && k < |ctx|
    ensures ParentRecord(mem, ctx, sub, k)
    decreases |ctx|
  {
    var f := Last(ctx);
    assert Init(ctx) + [f] == ctx;
    LinkedUp(ctx, sub);
    FocusStep(mem, head, Init(ctx), f, sub);
    if k == |ctx| - 1 {
      forall i | 0 <= i < |f.t.kids| && i != f.i ensures f.t.kids[i].ref != f.t.kids[f.i].ref {
        KidRefsDistinct(f.t, i, f.i);
      }
    } else {
      ParentRecords(mem, head, Init(ctx), f.t, k);
    }
  }

  /**
   The memory of the iterator's key and of its stack. The key and the stack are the first bytes and
   pointers in them; removing some only makes them shorter, and what comes after is not used.
   */
  datatype Buffers = Buffers(key: seq<byte>, stack: seq<Ptr>)

  ghost predicate PlacedAt(rt: Rax, ctx: seq<Frame>, sub: Tree, node: Ptr, stack: seq<Ptr>)
    reads rt
  {
    && rt.Valid()
    && CtxOK(ctx)
    && rt.ValidAt(ctx, sub)
    && Plug(ctx, sub) == rt.shape
    && Linked(ctx, sub)
    && (ctx != [] ==> !Dead(sub))
    && node == sub.ref && stack == StackOf(ctx)
  }

  class RaxIterator {
    const rt: Rax
    var justSeeked: bool
    var eof: bool
    var key: Key
    var data: Value
    var node: Ptr
    var stack: seq<Ptr>
    var bufs: Buffers
    ghost var ctx: seq<Frame>
    ghost var sub: Tree

    /** raxStart: at EOF until a seek. */
    constructor (rt: Rax)
      requires rt.Valid()
      ensures this.rt == rt && eof && !justSeeked && Placed()
    {
      this.rt := rt;
      justSeeked, eof, key, data, stack := false, true, [], 0, [];
      node, bufs := rt.head, Buffers([], []);
      ctx, sub := [], rt.shape;
      new;
      hide StateAt;
      rt.Here([], rt.shape);
      NoFrames(rt.shape);
    }

    /** Node and stack denote a place in the tree; key and stack are in their buffers. */
    ghost predicate Placed()
      reads this, rt
    {
      CtxOK(ctx) && PlacedAt(rt, ctx, sub, node, stack) && key <= bufs.key && stack <= bufs.stack
    }

    /** The iterator stands on a key: `key` is its name and `data` its value. */
    ghost predicate OnKey()
      reads this, rt
    {
      && Placed()
      && key == PathKey(ctx) && sub.slot == Get(rt.contents, key)
      && key in rt.contents && data == rt.contents[key]
    }

    ghost function Left(): nat
      requires CtxOK(ctx)
      reads this
    {
      Remaining(ctx) + Size(sub)
    }

    /** What can be read at the current node, and which keys lie below it. */
    lemma Reads()
      requires Placed()
      ensures node in rt.mem && Matches(rt.mem[node], sub) && Shape(sub)
      ensures KeysBelow(rt.contents.Keys, PathKey(ctx), sub)
      ensures sub.slot == Get(rt.contents, PathKey(ctx))
      ensures node == rt.head <==> ctx == []
      ensures PathKey(ctx) == [] <==> ctx == []
    {
      hide Focus, WF;
      rt.Here(ctx, sub);
      TreeKeysBelow(rt.contents.Keys, ctx, sub);
      SlotHere(ctx, sub, rt.contents);
      HeadIsRoot(rt.mem, rt.head, ctx, sub);
    }

    /** raxStackPush, raxIteratorAddChars and the move to child `i`. */
    method EnterChild(i: nat)
      requires Placed() && i < |sub.kids| && Shape(sub) && key == PathKey(ctx)
      modifies this`key, this`bufs, this`node, this`stack, this`ctx, this`sub
      ensures Placed() && ctx == old(ctx) + [Frame(old(sub), i)] && sub == old(sub).kids[i]
      ensures key == old(key) + Edge(old(sub), i) && key == PathKey(ctx) && !Dead(sub)
    {
      hide StateAt, Plug, PathKey, Linked, WF;
      rt.Here(ctx, sub);
      rt.Descend(ctx, sub, i);
      LinkedDown(ctx, sub, i);
      var n := rt.mem[node];
      key := key + if n.iscompr then n.data else [n.data[i]];
      stack := stack + [node];
      bufs := Buffers(key, stack);
      node := n.children[i];
      ctx, sub := ctx + [Frame(sub, i)], sub.kids[i];
    }

    /** raxStackPop: back to the parent; the key is not touched. */
    method Up()
      requires Placed() && ctx != []
      modifies this`node, this`stack, this`ctx, this`sub
      ensures Placed() && ctx == Init(old(ctx)) && sub == Last(old(ctx)).t
      ensures PathKey(old(ctx)) == PathKey(ctx) + Edge(sub, Last(old(ctx)).i)
      ensures old(Remaining(ctx)) == Remaining(ctx) + Sizes(sub.kids[Last(old(ctx)).i + 1..])
    {
      hide StateAt, Plug, PathKey, Linked, WF;
      LinkedUp(ctx, sub);
      AscendState(rt.mem, rt.head, rt.numele, rt.numnodes, rt.contents, ctx, sub);
      node := stack[|stack| - 1];
      stack := stack[..|stack| - 1];
      ctx, sub := Init(ctx), Last(ctx).t;
    }

    // ------------------------------------------------------------- forward

    /** Enters the first child after byte `prevchild`, if there is one. */
    method Sibling(oldNoup: bool, prevchild: byte, ghost lo: Key, ghost from: nat) returns (found: bool)
      requires Placed() && Shape(sub) && !sub.compr && key == PathKey(ctx)
      requires PastEdge(rt.contents.Keys, lo, key, prevchild)
      requires if oldNoup then from == 0 else 0 < from <= |sub.edges| && sub.edges[from - 1] == prevchild
      modifies this`key, this`bufs, this`node, this`stack, this`ctx, this`sub
      ensures Placed() && key == PathKey(ctx)
      ensures found ==> AtOrFromHere(rt.contents.Keys, lo, key) && !Dead(sub)
      ensures found ==> Left() <= old(Remaining(ctx)) + Sizes(old(sub).kids[from..]) && Left() < old(Left())
      ensures !found ==> PastHere(rt.contents.Keys, lo, key) && ctx == old(ctx) && sub == old(sub) && bufs == old(bufs)
    {
      hide StateAt, Plug, PathKey, Linked, WF, Remaining, Size, Less;
      Reads();
      var v := rt.mem[node].data;
      var i := |v|;
      if |v| > (if oldNoup then 0 else 1) { i := ScanNext(v, prevchild); }
      NextSibling(rt.contents.Keys, lo, key, sub, prevchild, i);
      if i == |v| { return false; }
      assert from <= i;
      EnterShrinks(ctx, sub, from, i);
      EnterChild(i);
      found := true;
    }

    /** To the parent, unless `noup`, with the key made to fit, and into the next child if there is one. */
    method ClimbOnce(noup: bool, ghost lo: Key) returns (found: bool)
      requires Placed() && (noup || ctx != [])
      requires !noup ==> key == PathKey(ctx) && PastHere(rt.contents.Keys, lo, key)
      requires noup ==> key != [] && key == PathKey(ctx) + (if sub.compr then sub.edges else [Last(key)])
      requires noup && sub.compr ==> PastHere(rt.contents.Keys, lo, PathKey(ctx))
      requires noup && !sub.compr ==> PastEdge(rt.contents.Keys, lo, PathKey(ctx), Last(key))
      modifies this`key, this`bufs, this`node, this`stack, this`ctx, this`sub
      ensures Placed() && key == PathKey(ctx)
      ensures found ==> AtOrFromHere(rt.contents.Keys, lo, key) && !Dead(sub)
      ensures found ==> if noup then Left() < old(Left()) else Left() <= old(Remaining(ctx))
      ensures !found ==> PastHere(rt.contents.Keys, lo, key) && bufs == old(bufs) && Remaining(ctx) <= old(Remaining(ctx))
      ensures !found ==> if noup then ctx == old(ctx) else |ctx| < |old(ctx)|
    {
      hide StateAt, Plug, PathKey, Linked, WF, Remaining, Size, Less, PastHere, PastEdge, AtOrFromHere, KeysBelow;
      ghost var m := rt.contents.Keys;
      Reads();
      var prevchild := key[|key| - 1];
      ghost var from := 0;
      if !noup {
        from := Last(ctx).i + 1;
        Up();
        Reads();
      }
      key := key[..|key| - if rt.mem[node].iscompr then |rt.mem[node].data| else 1];
      found := false;
      if rt.mem[node].iscompr {
        if !noup { NextUpCompressed(m, lo, key, sub); }
      } else {
        if !noup { NextUpEdge(m, lo, key, prevchild); }
        found := Sibling(noup, prevchild, lo, from);
      }
    }

    /** The inner loop of raxIteratorNextStep: up until some later sibling exists, and into it. */
    method ClimbNext(noup0: bool, ghost lo: Key) returns (found: bool)
      requires Placed()
      requires !noup0 ==> key == PathKey(ctx) && PastHere(rt.contents.Keys, lo, key)
      requires noup0 ==> key != [] && key == PathKey(ctx) + (if sub.compr then sub.edges else [Last(key)])
      requires noup0 && sub.compr ==> PastHere(rt.contents.Keys, lo, PathKey(ctx))
      requires noup0 && !sub.compr ==> PastEdge(rt.contents.Keys, lo, PathKey(ctx), Last(key))
      modifies this`key, this`bufs, this`node, this`stack, this`ctx, this`sub
      ensures Placed()
      ensures found ==> key == PathKey(ctx) && AtOrFromHere(rt.contents.Keys, lo, key) && Left() < old(Left()) && !Dead(sub)
      ensures !found ==> NoneAbove(rt.contents.Keys, lo) && bufs == old(bufs)
    {
      hide Rax.Valid, Rax.ValidAt, StackOf, Plug, PathKey, Linked, Remaining, Less, PastHere, PastEdge, AtOrFromHere, NoneAbove, KeysBelow;
      var noup := noup0;
      ghost var m := rt.contents.Keys;
      while true
        invariant Placed() && bufs == old(bufs)
        invariant Remaining(ctx) <= old(Remaining(ctx)) && (noup ==> noup0 && ctx == old(ctx) && sub == old(sub) && key == old(key))
        invariant !noup ==> key == PathKey(ctx) && PastHere(m, lo, key)
        decreases noup, |ctx|
      {
        Reads();
        if !noup && node == rt.head {
          RootPast(m, lo);
          return false;
        }
        found := ClimbOnce(noup, lo);
        noup := false;
        if found { return; }
      }
    }

    /** One round of raxIteratorNextStep: to the first child, or up to a parent with a further one. */
    method StepOn(noup: bool, ghost lo: Key) returns (found: bool)
      requires Placed()
      requires !noup ==> key == PathKey(ctx) && FromHere(rt.contents.Keys, lo, key)
      requires noup ==> key != [] && key == PathKey(ctx) + (if sub.compr then sub.edges else [Last(key)])
      requires noup && sub.compr ==> PastHere(rt.contents.Keys, lo, PathKey(ctx))
      requires noup && !sub.compr ==> PastEdge(rt.contents.Keys, lo, PathKey(ctx), Last(key))
      modifies this`key, this`bufs, this`node, this`stack, this`ctx, this`sub
      ensures Placed() && (!found ==> NoneAbove(rt.contents.Keys, lo) && bufs == old(bufs))
      ensures found ==> key == PathKey(ctx) && Left() < old(Left()) && !Dead(sub)
      ensures !noup && old(sub).kids != [] ==> found
      ensures found ==> if sub.slot.Some? then IsNext(rt.contents.Keys, lo, key) else FromHere(rt.contents.Keys, lo, key)
    {
      hide Rax.Valid, Rax.ValidAt, StackOf, Plug, PathKey, Linked, Remaining, Size, FromHere, PastHere, PastEdge, AtOrFromHere, IsNext, NoneAbove, KeysBelow;
      ghost var m := rt.contents.Keys;
      Reads();
      if !noup && |rt.mem[node].children| != 0 {
        NextDown(m, lo, key, sub);
        EnterShrinks(ctx, sub, 0, 0);
        EnterChild(0);
        found := true;
      } else {
        if !noup { NextLeaf(m, lo, key, sub); }
        found := ClimbNext(noup, lo);
      }
      if found {
        Reads();
        FoundNext(m, lo, key);
      }
    }

    /**
     raxIteratorNextStep, once the flags have been dealt with: to the least key above `lo`. With
     `noup0` the walk starts among the children of the current node, after the last byte of `key`.
     */
    method NextStep(noup0: bool, ghost lo: Key)
      requires Placed() && !eof
      requires !noup0 ==> key == PathKey(ctx) && FromHere(rt.contents.Keys, lo, key)
      requires noup0 ==> key != [] && key == PathKey(ctx) + (if sub.compr then sub.edges else [Last(key)])
      requires noup0 && sub.compr ==> PastHere(rt.contents.Keys, lo, PathKey(ctx))
      requires noup0 && !sub.compr ==> PastEdge(rt.contents.Keys, lo, PathKey(ctx), Last(key))
      modifies this`key, this`bufs, this`node, this`stack, this`ctx, this`sub, this`eof, this`data
      ensures Placed()
      ensures !eof ==> OnKey() && IsNext(rt.contents.Keys, lo, key)
      ensures eof ==> NoneAbove(rt.contents.Keys, lo)
      ensures eof ==> key == old(key) && ctx == old(ctx) && sub == old(sub) && data == old(data)
    {
      hide PlacedAt, PathKey, Remaining, Size, FromHere, PastHere, PastEdge, AtOrFromHere, IsNext, NoneAbove, KeysBelow;
      ghost var m := rt.contents.Keys;
      ghost var ctx0, sub0 := ctx, sub;
      var keyLen, items, node0 := |key|, |stack|, node;
      var noup := noup0;
      while true
        invariant Placed() && !eof && data == old(data)
        invariant !noup ==> key == PathKey(ctx) && FromHere(m, lo, key)
        invariant noup ==> noup0 && ctx == ctx0 && sub == sub0 && key == old(key)
        invariant bufs == old(bufs) || (!noup && sub.kids != [])
        decreases Left()
      {
        var found := StepOn(noup, lo);
        noup := false;
        if !found {
          assert bufs.key[..keyLen] == old(key) && bufs.stack[..items] == old(stack); // nothing was written over
          eof, key, node, stack := true, bufs.key[..keyLen], node0, bufs.stack[..items];
          ctx, sub := ctx0, sub0;
          return;
        }
        Reads();
        if rt.mem[node].iskey {
          data := GetData(rt.mem[node]);
          return;
        }
      }
    }

    // ------------------------------------------------------------ backward

    /** raxSeekGreatest: along the last children to the greatest key below the current node. */
    method SeekGreatest()
      requires Placed() && key == PathKey(ctx) && !Dead(sub)
      modifies this`key, this`bufs, this`node, this`stack, this`ctx, this`sub
      ensures Placed() && key == PathKey(ctx) && sub.slot.Some?
      ensures GreatestBelow(rt.contents.Keys, old(key), key)
    {
      hide Rax.Valid, Rax.ValidAt, StackOf, Plug, PathKey, Linked, LastBranch, GreatestBelow, KeysBelow;
      ghost var m := rt.contents.Keys;
      Reads();
      SelfBranch(m, key);
      while |rt.mem[node].data| != 0
        invariant Placed() && key == PathKey(ctx) && !Dead(sub)
        invariant node in rt.mem && Matches(rt.mem[node], sub) && Shape(sub)
        invariant KeysBelow(m, key, sub) && LastBranch(m, old(key), key) && sub.slot == Get(rt.contents, key)
        decreases sub
      {
        var last := if rt.mem[node].iscompr then 0 else |rt.mem[node].data| - 1;
        LastDown(m, old(key), key, sub);
        EnterChild(last);
        Reads();
      }
      LastLeaf(m, old(key), key, sub);
    }

    /** raxIteratorPrevStep, once the flags have been dealt with: to the greatest key below `hi`. */
    method PrevStep(noup0: bool, ghost hi: Key)
      requires Placed() && !eof
      requires !noup0 ==> key == PathKey(ctx) && UpToHere(rt.contents.Keys, hi, key)
      requires noup0 ==> key != [] && key == PathKey(ctx) + (if sub.compr then sub.edges else [Last(key)])
      requires noup0 && sub.compr ==> AtOrUpToHere(rt.contents.Keys, hi, PathKey(ctx))
      requires noup0 && !sub.compr ==> BeforeEdge(rt.contents.Keys, hi, PathKey(ctx), Last(key))
      modifies this`key, this`bufs, this`node, this`stack, this`ctx, this`sub, this`eof, this`data
      ensures Placed()
      ensures !eof ==> OnKey() && IsPrev(rt.contents.Keys, hi, key)
      ensures eof ==> NoneBelow(rt.contents.Keys, hi)
      ensures eof ==> key == old(key) && ctx == old(ctx) && sub == old(sub) && data == old(data)
    {
      hide PlacedAt, PathKey, UpToHere, AtOrUpToHere, BeforeEdge, IsPrev, NoneBelow, KeysBelow;
      ghost var m := rt.contents.Keys;
      ghost var ctx0, sub0 := ctx, sub;
      var keyLen, items, node0 := |key|, |stack|, node;
      var noup := noup0;
      while true
        invariant Placed() && !eof && data == old(data) && bufs == old(bufs)
        invariant !noup ==> key == PathKey(ctx) && UpToHere(m, hi, key)
        invariant noup ==> noup0 && ctx == ctx0 && sub == sub0 && key == old(key)
        decreases noup, |ctx|
      {
        Reads();
        if !noup && node == rt.head {
          RootBefore(m, hi);
          assert bufs.key[..keyLen] == old(key) && bufs.stack[..items] == old(stack); // nothing was written over
          eof, key, node, stack := true, bufs.key[..keyLen], node0, bufs.stack[..items];
          ctx, sub := ctx0, sub0;
          return;
        }
        StepBack(noup, hi);
        noup := false;
        Reads();
        if rt.mem[node].iskey {
          data := GetData(rt.mem[node]);
          return;
        }
      }
    }

    /** One round of raxIteratorPrevStep: to the parent, and into the subtree before the old child. */
    method StepBack(noup: bool, ghost hi: Key)
      requires Placed() && (noup || ctx != [])
      requires !noup ==> key == PathKey(ctx) && UpToHere(rt.contents.Keys, hi, key)
      requires noup ==> key != [] && key == PathKey(ctx) + (if sub.compr then sub.edges else [Last(key)])
      requires noup && sub.compr ==> AtOrUpToHere(rt.contents.Keys, hi, PathKey(ctx))
      requires noup && !sub.compr ==> BeforeEdge(rt.contents.Keys, hi, PathKey(ctx), Last(key))
      modifies this`key, this`bufs, this`node, this`stack, this`ctx, this`sub
      ensures Placed() && key == PathKey(ctx)
      ensures if sub.slot.Some? then IsPrev(rt.contents.Keys, hi, key)
              else UpToHere(rt.contents.Keys, hi, key) && bufs == old(bufs) && if noup then ctx == old(ctx) else |ctx| < |old(ctx)|
    {
      hide Rax.Valid, Rax.ValidAt, StackOf, Plug, PathKey, Linked, UpToHere, AtOrUpToHere, BeforeEdge, IsPrev, KeysBelow;
      ghost var m := rt.contents.Keys;
      Reads();
      var prevchild := key[|key| - 1];
      ghost var from := 0;
      if !noup {
        from := Last(ctx).i;
        Up();
        Reads();
      }
      key := key[..|key| - if rt.mem[node].iscompr then |rt.mem[node].data| else 1];
      if rt.mem[node].iscompr {
        if !noup { PrevUpCompressed(m, hi, key, sub); }
        FoundPrev(m, hi, key);
      } else {
        if !noup { PrevUpEdge(m, hi, key, prevchild); }
        var found := PrevSubtree(noup, prevchild, hi, from);
        if !found {
          Reads();
          FoundPrev(m, hi, key);
        }
      }
    }

    /** Goes to the greatest key below the last child before byte `prevchild`, if there is one. */
    method PrevSubtree(oldNoup: bool, prevchild: byte, ghost hi: Key, ghost from: nat) returns (found: bool)
      requires Placed() && Shape(sub) && !sub.compr && key == PathKey(ctx)
      requires BeforeEdge(rt.contents.Keys, hi, key, prevchild)
      requires !oldNoup ==> from < |sub.edges| && sub.edges[from] == prevchild
      modifies this`key, this`bufs, this`node, this`stack, this`ctx, this`sub
      ensures Placed() && key == PathKey(ctx)
      ensures found ==> sub.slot.Some? && IsPrev(rt.contents.Keys, hi, key)
      ensures !found ==> AtOrUpToHere(rt.contents.Keys, hi, key) && ctx == old(ctx) && sub == old(sub) && bufs == old(bufs)
    {
      hide Rax.Valid, Rax.ValidAt, StackOf, Plug, PathKey, Linked, IsPrev, GreatestBelow, ThroughHere, AtOrUpToHere, BeforeEdge, KeysBelow;
      ghost var m := rt.contents.Keys;
      Reads();
      var v := rt.mem[node].data;
      var i := -1;
      if |v| > (if oldNoup then 0 else 1) { i := ScanPrev(v, prevchild); }
      PrevSibling(m, hi, key, sub, prevchild, i);
      if i == -1 { return false; }
      EnterChild(i);
      ghost var p := key;
      SeekGreatest();
      GreatestIsPrev(m, hi, p, key);
      found := true;
    }

    // ------------------------------------------------------------- seeking

    /** The key of the current node, read back from the stack of its parents. */
    method RebuildKey()
      requires Placed()
      modifies this`key, this`bufs
      ensures Placed() && key == PathKey(ctx)
    {
      hide StateAt, Plug, PathKey, Linked, WF, ParentRecord;
      var st := stack + [node];
      bufs := bufs.(stack := st);
      key := [];
      var j := 1;
      PathSteps(ctx, 0);
      assert ctx[..0] == [];
      while j < |st|
        invariant 1 <= j <= |st| && CtxOK(ctx[..j - 1]) && key == PathKey(ctx[..j - 1])
        invariant Placed()
      {
        PathSteps(ctx, j - 1);
        StackRecord(j - 1);
        var n := rt.mem[st[j - 1]];
        if n.iscompr {
          key := key + n.data;
        } else {
          var k := FindChild(n.children, st[j]);
          key := key + [n.data[k]];
        }
        bufs := bufs.(key := key);
        j := j + 1;
      }
      assert ctx[..|ctx|] == ctx;
    }

    lemma StackRecord(k: nat)
      requires Placed() && k < |ctx|
      ensures var f := ctx[k];
        var child := if k + 1 < |ctx| then ctx[k + 1].t.ref else sub.ref;
        && FrameOK(f) && f.t.ref in rt.mem
        && rt.mem[f.t.ref].iscompr == f.t.compr && rt.mem[f.t.ref].data == f.t.edges
        && |rt.mem[f.t.ref].children| == |f.t.kids| && child in rt.mem[f.t.ref].children
        && forall i :: 0 <= i < |f.t.kids| && rt.mem[f.t.ref].children[i] == child ==> i == f.i
    {
      ParentRecords(rt.mem, rt.head, ctx, sub, k);
      assert rt.mem[ctx[k].t.ref].children[ctx[k].i] == if k + 1 < |ctx| then ctx[k + 1].t.ref else sub.ref;
    }

    /** The `>` half of raxSeek, from the node where the walk for `ele` stopped. */
    method SeekAbove(ele: Key, i: nat, splitpos: nat)
      requires Placed() && !eof && key == PathKey(ctx) && StopsAt(ele, key, sub, i, splitpos)
      modifies this`key, this`bufs, this`node, this`stack, this`ctx, this`sub, this`eof, this`data
      ensures !eof ==> OnKey() && IsNext(rt.contents.Keys, ele, key)
      ensures eof ==> NoneAbove(rt.contents.Keys, ele)
    {
      hide Placed, PathKey, PastHere, FromHere, PastEdge, IsNext, NoneAbove, KeysBelow, ThroughHere, AtOrUpToHere, UpToHere, BeforeEdge;
      ghost var m := rt.contents.Keys;
      PlacedReads();
      var n := rt.mem[node];
      if i != |ele| && !n.iscompr {
        SeekPlain(m, ele, key, sub);
        AddChars([ele[i]]);
        NextStep(true, ele);
      } else if i != |ele| {
        SeekAboveInside(ele, i, splitpos);
      } else {
        StopAtEnd(ele, key, sub, i, splitpos);
        SeekNoMismatch(m, ele, key, sub, splitpos);
        NextStep(false, ele);
      }
    }

    /** The element leaves a compressed node in the middle: everything below it, or nothing, is greater. */
    method SeekAboveInside(ele: Key, i: nat, splitpos: nat)
      requires Placed() && !eof && key == PathKey(ctx) && StopsAt(ele, key, sub, i, splitpos)
      requires sub.compr && i != |ele|
      modifies this`key, this`bufs, this`node, this`stack, this`ctx, this`sub, this`eof, this`data
      ensures !eof ==> OnKey() && IsNext(rt.contents.Keys, ele, key)
      ensures eof ==> NoneAbove(rt.contents.Keys, ele)
    {
      hide Placed, PathKey, PastHere, FromHere, PastEdge, IsNext, NoneAbove, KeysBelow, ThroughHere, AtOrUpToHere, UpToHere, BeforeEdge, StopsAt;
      PlacedReads();
      var n := rt.mem[node];
      StopCompressed(rt.contents.Keys, ele, key, sub, i, splitpos);
      if n.data[splitpos] > ele[i] {
        NextStep(false, ele);
      } else {
        NextAfterNode(ele);
      }
    }

    /** The next key that is not below the compressed node the iterator is at. */
    method NextAfterNode(ghost lo: Key)
      requires Placed() && !eof && key == PathKey(ctx) && sub.compr && PastHere(rt.contents.Keys, lo, key)
      modifies this`key, this`bufs, this`node, this`stack, this`ctx, this`sub, this`eof, this`data
      ensures !eof ==> OnKey() && IsNext(rt.contents.Keys, lo, key)
      ensures eof ==> NoneAbove(rt.contents.Keys, lo)
    {
      hide Placed, PathKey, PastHere, PastEdge, FromHere, IsNext, NoneAbove, KeysBelow;
      PlacedReads();
      AddChars(rt.mem[node].data);
      NextStep(true, lo);
    }

    /** The element leaves a compressed node in the middle: everything below it, or nothing, is smaller. */
    method SeekBelowInside(ele: Key, i: nat, splitpos: nat)
      requires Placed() && !eof && key == PathKey(ctx) && StopsAt(ele, key, sub, i, splitpos)
      requires sub.compr && i != |ele|
      modifies this`key, this`bufs, this`node, this`stack, this`ctx, this`sub, this`eof, this`data
      ensures !eof ==> Placed() && key == PathKey(ctx) && IsPrev(rt.contents.Keys, ele, key) && OnKey()
      ensures eof ==> NoneBelow(rt.contents.Keys, ele)
    {
      hide Placed, PathKey, PastHere, FromHere, PastEdge, IsPrev, NoneBelow, KeysBelow, ThroughHere, AtOrUpToHere, UpToHere, BeforeEdge, GreatestBelow, StopsAt;
      PlacedReads();
      var n := rt.mem[node];
      StopCompressed(rt.contents.Keys, ele, key, sub, i, splitpos);
      if n.data[splitpos] < ele[i] {
        SeekGreatestBelow(ele);
      } else {
        PrevBeforeNode(ele);
      }
    }

    /** The previous key, or the one at the compressed node the iterator is at. */
    method PrevBeforeNode(ghost hi: Key)
      requires Placed() && !eof && key == PathKey(ctx) && sub.compr && AtOrUpToHere(rt.contents.Keys, hi, key)
      modifies this`key, this`bufs, this`node, this`stack, this`ctx, this`sub, this`eof, this`data
      ensures !eof ==> OnKey() && IsPrev(rt.contents.Keys, hi, key)
      ensures eof ==> NoneBelow(rt.contents.Keys, hi)
    {
      hide Placed, PathKey, AtOrUpToHere, UpToHere, BeforeEdge, IsPrev, NoneBelow, KeysBelow;
      PlacedReads();
      AddChars(rt.mem[node].data);
      PrevStep(true, hi);
    }

    /** The greatest key in the subtree the iterator is at, when that is what the element asks for. */
    method SeekGreatestBelow(ghost ele: Key)
      requires Placed() && key == PathKey(ctx) && !Dead(sub) && ThroughHere(rt.contents.Keys, ele, key)
      modifies this`key, this`bufs, this`node, this`stack, this`ctx, this`sub, this`data
      ensures Placed() && key == PathKey(ctx) && IsPrev(rt.contents.Keys, ele, key) && OnKey()
    {
      hide Placed, PathKey, IsPrev, ThroughHere, GreatestBelow, Dead;
      ghost var p := key;
      SeekGreatest();
      GreatestIsPrev(rt.contents.Keys, ele, p, key);
      LoadData();
    }

    /**
     The `<` half of raxSeek. `stale` marks the one case where `data` is not refreshed: the element
     ends inside the compressed node of a key, which is then the result without any step.
     */
    method SeekBelow(ele: Key, i: nat, splitpos: nat) returns (ghost stale: bool)
      requires Placed() && !eof && key == PathKey(ctx) && StopsAt(ele, key, sub, i, splitpos)
      modifies this`key, this`bufs, this`node, this`stack, this`ctx, this`sub, this`eof, this`data
      ensures !eof ==> Placed() && key == PathKey(ctx) && key in rt.contents && IsPrev(rt.contents.Keys, ele, key)
      ensures !eof && !stale ==> OnKey()
      ensures eof ==> NoneBelow(rt.contents.Keys, ele)
      ensures stale <==> old(sub.compr && sub.slot.Some?) && 0 < splitpos && i == |ele|
      ensures stale ==> !eof && key == old(key) && data == old(data)
    {
      hide Placed, PathKey, PastHere, FromHere, PastEdge, IsPrev, NoneBelow, KeysBelow, ThroughHere, AtOrUpToHere, UpToHere, BeforeEdge, GreatestBelow;
      ghost var m := rt.contents.Keys;
      PlacedReads();
      var n := rt.mem[node];
      stale := false;
      if i != |ele| && !n.iscompr {
        SeekPlain(m, ele, key, sub);
        AddChars([ele[i]]);
        PrevStep(true, ele);
      } else if i != |ele| {
        SeekBelowInside(ele, i, splitpos);
      } else {
        StopAtEnd(ele, key, sub, i, splitpos);
        SeekNoMismatch(m, ele, key, sub, splitpos);
        if n.iscompr && splitpos != 0 { FoundPrev(m, ele, key); }
        if n.iscompr && n.iskey && splitpos != 0 {
          stale := true;
        } else {
          PrevStep(false, ele);
        }
      }
    }

    method LoadData()
      requires Placed() && key == PathKey(ctx) && sub.slot.Some?
      modifies this`data
      ensures OnKey()
    {
      hide StateAt, PathKey;
      Reads();
      data := GetData(rt.mem[node]);
    }

    method AddChars(s: seq<byte>)
      requires Placed()
      modifies this`key, this`bufs
      ensures Placed() && key == old(key) + s
    {
      hide StateAt, WF, Plug, Linked, CtxOK, Dead, StackOf;
      key := key + s;
      bufs := bufs.(key := key);
    }

    /** The walk of raxSeek, and whether it stops at the element as a key. */
    method WalkTo(ele: Key) returns (i: nat, splitpos: nat, exact: bool)
      requires rt.Valid() && key == []
      modifies this`bufs, this`node, this`stack, this`ctx, this`sub
      ensures Placed() && StopsAt(ele, PathKey(ctx), sub, i, splitpos)
      ensures exact <==> ele in rt.contents
      ensures exact ==> ele == PathKey(ctx) && sub.slot.Some?
      ensures EndsInsideKey(rt.shape, ele) <==> sub.compr && sub.slot.Some? && 0 < splitpos && i == |ele|
    {
      hide StateAt, WF, Plug, PathKey, Linked, EndsInsideKey;
      var link;
      i, node, link, splitpos, stack, ctx, sub := rt.LowWalk(ele);
      bufs := bufs.(stack := stack);
      rt.StopFacts(ctx, sub, ele, i, splitpos);
      StopInside(ctx, sub, ele, i, splitpos);
      var n := rt.mem[node];
      exact := i == |ele| && (!n.iscompr || splitpos == 0) && n.iskey;
    }

    /** raxSeek for an operator that names an element. */
    method SeekElement(op: SeekOp, ele: Key) returns (ghost stale: bool)
      requires rt.Valid() && !eof && key == [] && op != First && op != Greatest
      modifies this`key, this`bufs, this`node, this`stack, this`ctx, this`sub, this`eof, this`data
      ensures SeekFinds(rt.contents.Keys, op, ele, if eof then None else Some(key))
      ensures !eof ==> Placed() && key == PathKey(ctx) && key in rt.contents
      ensures !eof && !stale ==> OnKey()
      ensures stale <==> op in {Below, AtOrBelow} && EndsInsideKey(rt.shape, ele)
      ensures stale ==> !eof && key <= ele && key != ele && data == old(data)
    {
      hide Placed, Rax.Valid, WF, PathKey, EndsInsideKey, IsNext, IsPrev, NoneAbove, NoneBelow;
      var i, splitpos, exact := WalkTo(ele);
      stale := false;
      if op in {AtOrAbove, AtOrBelow, Exactly} && exact {
        AddChars(ele);
        LoadData();
      } else if op in {Above, AtOrAbove} {
        RebuildKey();
        SeekAbove(ele, i, splitpos);
      } else if op in {Below, AtOrBelow} {
        RebuildKey();
        stale := SeekBelow(ele, i, splitpos);
      } else {
        eof := true;
      }
    }

    /** The `$` operator: down the last children from the head. */
    method SeekLast()
      requires rt.Valid() && !eof && key == [] && rt.contents != map[]
      modifies this`key, this`bufs, this`node, this`stack, this`ctx, this`sub, this`data
      ensures OnKey() && GreatestBelow(rt.contents.Keys, [], key)
    {
      hide StateAt, WF, PathKey;
      node, stack := rt.head, [];
      ctx, sub := [], rt.shape;
      rt.Here([], rt.shape);
      NoFrames(rt.shape);
      rt.SomeKeyIsLive();
      SeekGreatest();
      LoadData();
    }

    /**
     raxSeek; `false` is a syntax error in the operator. The key found is the least above the element for
     `>`, the greatest below it for `<`, the least of all for `^` and the greatest of all for `$`; with
     `=`, alone or after `>` or `<`, it is the element itself if that is a key.
     */
    method Seek(op: string, ele: Key) returns (ok: bool, ghost stale: bool)
      requires rt.Valid()
      modifies this
      ensures ok <==> op != "" && op[0] in {'>', '<', '=', '^', '$'}
      ensures ok ==> justSeeked
      ensures ok && ele in rt.contents && (op[0] == '=' || (op[0] in {'>', '<'} && |op| > 1 && op[1] == '=')) ==> !eof && key == ele
      ensures ok && op[0] == '>' && !(|op| > 1 && op[1] == '=' && ele in rt.contents) ==>
        if eof then forall k :: k in rt.contents ==> !Less(ele, k)
        else Less(ele, key) && forall k :: k in rt.contents && Less(ele, k) ==> k == key || Less(key, k)
      ensures ok && op[0] == '<' && !(|op| > 1 && op[1] == '=' && ele in rt.contents) ==>
        if eof then forall k :: k in rt.contents ==> !Less(k, ele)
        else Less(key, ele) && forall k :: k in rt.contents && Less(k, ele) ==> k == key || Less(k, key)
      ensures ok && op[0] == '=' && ele !in rt.contents ==> eof
      ensures ok && op[0] == '^' ==>
        if eof then rt.contents == map[] else forall k :: k in rt.contents ==> k == key || Less(key, k)
      ensures ok && op[0] == '$' ==>
        if eof then rt.contents == map[] else forall k :: k in rt.contents ==> k == key || Less(k, key)
      ensures ok && !eof ==> Placed() && key == PathKey(ctx) && key in rt.contents
      ensures ok && !eof && !stale ==> OnKey()
      ensures stale <==> ok && op[0] == '<' && EndsInsideKey(rt.shape, ele)
      ensures stale ==> !eof && key <= ele && key != ele && data == old(data)
    {
      hide EndsInsideKey, Placed, SeekFinds, GreatestBelow, PathKey, Focus, WF, CtxWF, Agrees, Less;
      stack, justSeeked, eof, key, node := [], true, false, [], 0;
      var p := ParseOp(op);
      if p.None? { return false, false; }
      ok := true;
      stale := SeekParsed(p.value, ele);
      FindsMeans(rt.contents, p.value, ele, if eof then None else Some(key));
    }

    /** The same, once the operator has been read. */
    method SeekParsed(op: SeekOp, ele: Key) returns (ghost stale: bool)
      requires rt.Valid() && !eof && key == []
      modifies this`key, this`bufs, this`node, this`stack, this`ctx, this`sub, this`eof, this`data
      ensures SeekFinds(rt.contents.Keys, op, ele, if eof then None else Some(key))
      ensures !eof ==> Placed() && key == PathKey(ctx) && key in rt.contents
      ensures !eof && !stale ==> OnKey()
      ensures stale <==> op in {Below, AtOrBelow} && EndsInsideKey(rt.shape, ele)
      ensures stale ==> !eof && key <= ele && key != ele && data == old(data)
    {
      hide EndsInsideKey, Placed, SeekFinds, GreatestBelow, PathKey, Focus, WF, CtxWF, Agrees;
      stale := false;
      if rt.numele == 0 {
        eof := true;
        EmptyMap(rt.contents, op, ele);
        NothingInside(rt, ele);
      } else if op == First {
        ghost var s := SeekElement(AtOrAbove, []);
        FirstIsAboveEmpty(rt.contents.Keys, ele, if eof then None else Some(key));
      } else if op == Greatest {
        SeekLast();
        LastSeeks(rt.contents.Keys, ele, key);
        PlacedReads();
      } else {
        stale := SeekElement(op, ele);
      }
    }

    /** Either at EOF, or on a key (whose value may not have been loaded yet). */
    ghost predicate Standing()
      reads this, rt
    {
      rt.Valid() && (!eof ==> Placed() && key == PathKey(ctx) && key in rt.contents)
    }

    /** The first step after a seek stays on the key the seek found. */
    method TakeSeeked() returns (ok: bool)
      requires Standing() && (eof || justSeeked)
      modifies this`justSeeked
      ensures Standing() && ok == !eof && (!eof ==> !justSeeked)
    {
      hide PathKey, Rax.Valid, Rax.ValidAt, Plug, Linked;
      if eof { return false; }
      justSeeked := false;
      ok := true;
    }

    /** raxNext */
    method Next() returns (ok: bool)
      requires Standing()
      modifies this
      ensures Standing() && ok == !eof && (ok ==> !justSeeked)
      ensures old(eof) || old(justSeeked) ==> key == old(key) && eof == old(eof)
      ensures !old(eof) && !old(justSeeked) ==>
        if ok then OnKey() && IsNext(rt.contents.Keys, old(key), key) else NoneAbove(rt.contents.Keys, old(key))
    {
      hide PathKey, IsNext, NoneAbove, Rax.Valid, Rax.ValidAt, Plug, Linked;
      if eof || justSeeked {
        ok := TakeSeeked();
        return;
      }
      NextStep(false, key);
      ok := !eof;
    }

    /** raxPrev */
    method Prev() returns (ok: bool)
      requires Standing()
      modifies this
      ensures Standing() && ok == !eof && (ok ==> !justSeeked)
      ensures old(eof) || old(justSeeked) ==> key == old(key) && eof == old(eof)
      ensures !old(eof) && !old(justSeeked) ==>
        if ok then OnKey() && IsPrev(rt.contents.Keys, old(key), key) else NoneBelow(rt.contents.Keys, old(key))
    {
      hide PathKey, IsPrev, NoneBelow, Rax.Valid, Rax.ValidAt, Plug, Linked;
      if eof || justSeeked {
        ok := TakeSeeked();
        return;
      }
      PrevStep(false, key);
      ok := !eof;
    }

    /** raxNext or raxPrev */
    method Step(fwd: bool) returns (ok: bool)
      requires Standing()
      modifies this
      ensures Standing() && ok == !eof && (ok ==> !justSeeked)
      ensures old(eof) || old(justSeeked) ==> key == old(key) && eof == old(eof)
      ensures !old(eof) && !old(justSeeked) && ok ==> IsStep(fwd, rt.contents.Keys, old(key), key)
      ensures !old(eof) && !old(justSeeked) && !ok ==> forall k :: k in rt.contents ==> !After(fwd, old(key), k)
    {
      hide Placed, PathKey, IsNext, IsPrev, Rax.Valid, Less;
      if fwd { ok := Next(); } else { ok := Prev(); }
    }

    /**
     `while(raxNext(&it))`, or raxPrev, after a seek: the key found and every key ahead of it, in
     order, each once.
     */
    method Drain(fwd: bool) returns (ks: seq<Key>)
      requires Standing() && justSeeked
      modifies this
      ensures InOrder(fwd, ks)
      ensures old(eof) ==> ks == []
      ensures !old(eof) ==> forall k :: k in ks <==> k in rt.contents && (k == old(key) || After(fwd, old(key), k))
    {
      hide PathKey, Placed, After, Rax.Valid, IsStep, Visited, Ahead;
      ks := [];
      ghost var m := rt.contents.Keys;
      var ok := Step(fwd);
      if ok { VisitFirst(fwd, m, key); }
      while ok
        invariant Standing() && ok == !eof && (ok ==> !justSeeked)
        invariant ok ==> Visited(fwd, m, old(key), ks, key) && !old(eof)
        invariant !ok ==> if old(eof) then ks == [] else InOrder(fwd, ks) && Exhausted(fwd, m, old(key), ks)
        decreases if ok then 1 + |Ahead(fwd, m, key)| else 0
      {
        ghost var ks0, key0 := ks, key;
        ks := ks + [key];
        ok := Step(fwd);
        if ok { VisitNext(fwd, m, old(key), ks0, key0, key); } else { VisitLast(fwd, m, old(key), ks0, key0); }
      }
    }

    lemma PlacedReads()
      requires Placed()
      ensures CtxOK(ctx) && rt.Valid()
      ensures node in rt.mem && Matches(rt.mem[node], sub) && Shape(sub)
      ensures KeysBelow(rt.contents.Keys, PathKey(ctx), sub)
      ensures sub.slot == Get(rt.contents, PathKey(ctx))
      ensures ctx != [] ==> !Dead(sub)
      ensures sub.compr ==> !Dead(sub)
    {
      hide StateAt, KeysBelow, PathKey;
      Reads();
    }
  }

  // ------------------------------------------------------- whole iterations

  /** `b` comes after `a` in the direction of travel. */
  predicate After(fwd: bool, a: Key, b: Key) {
    if fwd then Less(a, b) else Less(b, a)
  }

  ghost predicate InOrder(fwd: bool, ks: seq<Key>) {
    forall i, j :: 0 <= i < j < |ks| ==> After(fwd, ks[i], ks[j])
  }

  ghost function Ahead(fwd: bool, m: set<Key>, cur: Key): set<Key> {
    set k | k in m && After(fwd, cur, k)
  }

  /** `nxt` is the nearest key of `m` ahead of `cur`. */
  ghost predicate IsStep(fwd: bool, m: set<Key>, cur: Key, nxt: Key) {
    if fwd then IsNext(m, cur, nxt) else IsPrev(m, cur, nxt)
  }

  /** `ks` holds the keys from `first` up to `cur`, which is still to be taken. */
  ghost predicate Visited(fwd: bool, m: set<Key>, first: Key, ks: seq<Key>, cur: Key) {
    && InOrder(fwd, ks + [cur])
    && forall k :: k in ks + [cur] <==> k in m && (k == first || After(fwd, first, k)) && (k == cur || After(fwd, k, cur))
  }

  ghost predicate Exhausted(fwd: bool, m: set<Key>, first: Key, ks: seq<Key>) {
    forall k :: k in ks <==> k in m && (k == first || After(fwd, first, k))
  }

  lemma AfterTransitive(fwd: bool, a: Key, b: Key, c: Key)
    requires After(fwd, a, b) && After(fwd, b, c)
    ensures After(fwd, a, c)
  {
    if fwd { LessTransitive(a, b, c); } else { LessTransitive(c, b, a); }
  }

  lemma AfterAsymmetric(fwd: bool, a: Key, b: Key)
    requires After(fwd, a, b)
    ensures !After(fwd, b, a) && a != b
  {
    if fwd { LessAsymmetric(a, b); } else { LessAsymmetric(b, a); }
  }

  lemma VisitFirst(fwd: bool, m: set<Key>, first: Key)
    requires first in m
    ensures Visited(fwd, m, first, [], first)
  {
    forall k | After(fwd, first, k) ensures !After(fwd, k, first) { AfterAsymmetric(fwd, first, k); }
  }

  lemma VisitNext(fwd: bool, m: set<Key>, first: Key, ks: seq<Key>, cur: Key, nxt: Key)
    requires Visited(fwd, m, first, ks, cur) && IsStep(fwd, m, cur, nxt)
    ensures Visited(fwd, m, first, ks + [cur], nxt) && |Ahead(fwd, m, nxt)| < |Ahead(fwd, m, cur)|
  {
    hide Less;
    var ks2 := ks + [cur];
    assert cur in ks2;
    forall i | 0 <= i < |ks2| ensures After(fwd, ks2[i], nxt) {
      if i < |ks| {
        assert ks2[|ks|] == cur;
        AfterTransitive(fwd, ks2[i], cur, nxt);
      }
    }
    if cur != first { AfterTransitive(fwd, first, cur, nxt); }
    forall k | k in m ensures k == nxt || After(fwd, k, nxt) <==> k == nxt || k == cur || After(fwd, k, cur) {
      StepGap(fwd, m, cur, nxt, k);
    }
    forall k | After(fwd, nxt, k) ensures After(fwd, cur, k) && k != nxt {
      AfterTransitive(fwd, cur, nxt, k);
      AfterAsymmetric(fwd, nxt, k);
    }
    assert Ahead(fwd, m, nxt) < Ahead(fwd, m, cur) by { assert nxt in Ahead(fwd, m, cur) && nxt !in Ahead(fwd, m, nxt); }
    SubsetSize(Ahead(fwd, m, nxt), Ahead(fwd, m, cur));
  }

  /** Nothing lies strictly between a key and the next one. */
  lemma StepGap(fwd: bool, m: set<Key>, cur: Key, nxt: Key, k: Key)
    requires IsStep(fwd, m, cur, nxt) && k in m
    ensures k == nxt || After(fwd, k, nxt) <==> k == nxt || k == cur || After(fwd, k, cur)
  {
    LessTotal(k, cur);
    if After(fwd, k, cur) { AfterTransitive(fwd, k, cur, nxt); }
    if After(fwd, cur, k) {
      AfterAsymmetric(fwd, cur, k);
      if After(fwd, nxt, k) { AfterAsymmetric(fwd, nxt, k); }
    }
  }

  lemma VisitLast(fwd: bool, m: set<Key>, first: Key, ks: seq<Key>, cur: Key)
    requires Visited(fwd, m, first, ks, cur) && forall k :: k in m ==> !After(fwd, cur, k)
    ensures InOrder(fwd, ks + [cur]) && Exhausted(fwd, m, first, ks + [cur])
  {
    forall k | k in m ensures k == cur || After(fwd, k, cur) { LessTotal(k, cur); }
  }

  lemma FirstIsAboveEmpty(m: set<Key>, e: Key, r: Option<Key>)
    requires SeekFinds(m, AtOrAbove, [], r)
    ensures SeekFinds(m, First, e, r)
  {
    assert forall k: Key :: k != [] ==> Less([], k);
    if r.None? {
      assert [] !in m && NoneAbove(m, []);
      assert forall k :: k in m ==> k == [];
    }
  }

  lemma LastSeeks(m: set<Key>, e: Key, r: Key)
    requires GreatestBelow(m, [], r)
    ensures SeekFinds(m, Greatest, e, Some(r))
  {
  }

  lemma NothingInside(rt: Rax, s: Key)
    requires rt.Valid() && rt.numele == 0
    ensures !EndsInsideKey(rt.shape, s)
  {
    hide Focus, EndsInsideKey;
    InsideHasKey(rt.shape, s);
    assert rt.contents == map[];
    forall k ensures Lookup(rt.shape, k).None? { AgreesAt(Plug([], rt.shape), rt.contents, k); }
  }

  /** Such an element: "foo" between the keys "f" and "foobar". */
  lemma StaleExample()
    ensures exists t: Tree ::
      && WF(t) && Lookup(t, [102]).Some? && Lookup(t, [102, 111, 111, 98, 97, 114]).Some?
      && EndsInsideKey(t, [102, 111, 111])
  {
    var leaf := Node(3, Some(2), false, [], []);
    var n := Node(2, Some(1), true, [111, 111, 98, 97, 114], [leaf]);
    var t := Node(1, None, false, [102], [n]);
    assert WF(leaf) && WF(n) && WF(t);
    assert IndexOf(t.edges, 102) == 0 && [102, 111, 111][1..] == [111, 111] && [102][1..] == [];
    assert Lookup(t, [102]) == Some(1);
    assert [102, 111, 111, 98, 97, 114][1..] == n.edges && n.edges[5..] == [];
    assert Lookup(n, n.edges) == Some(2);
    assert Lookup(t, [102, 111, 111, 98, 97, 114]) == Lookup(n, n.edges);
    assert EndsInsideKey(n, [111, 111]);
    assert EndsInsideKey(t, [102, 111, 111]);
  }

  /** What was asked for, spelled out for each operator. */
  lemma FindsMeans(m: map<Key, Value>, op: SeekOp, e: Key, r: Option<Key>)
    requires SeekFinds(m.Keys, op, e, r)
    ensures e in m && op in {AtOrAbove, AtOrBelow, Exactly} ==> r == Some(e)
    ensures op == Above || (op == AtOrAbove && e !in m) ==>
      if r.None? then forall k :: k in m ==> !Less(e, k)
      else r.value in m && Less(e, r.value) && forall k :: k in m && Less(e, k) ==> k == r.value || Less(r.value, k)
    ensures op == Below || (op == AtOrBelow && e !in m) ==>
      if r.None? then forall k :: k in m ==> !Less(k, e)
      else r.value in m && Less(r.value, e) && forall k :: k in m && Less(k, e) ==> k == r.value || Less(k, r.value)
    ensures op == Exactly && e !in m ==> r == None
    ensures op == First ==> if r.None? then m == map[] else forall k :: k in m ==> k == r.value || Less(r.value, k)
    ensures op == Greatest ==> if r.None? then m == map[] else forall k :: k in m ==> k == r.value || Less(k, r.value)
  {
    if op == Greatest && r.Some? { assert forall k :: k in m ==> [] <= k; }
    if op in {First, Greatest} && r.None? { assert m.Keys == {}; }
  }

  lemma EmptyMap(m: map<Key, Value>, op: SeekOp, e: Key)
    requires |m| == 0
    ensures SeekFinds(m.Keys, op, e, None)
  {
    assert m == map[];
  }

  /** What SeekCompressed says where the walk stopped inside a compressed node. */
  lemma StopCompressed(m: set<Key>, s: Key, p: Key, t: Tree, i: nat, j: nat)
    requires StopsAt(s, p, t, i, j) && i != |s| && t.compr && KeysBelow(m, p, t)
    ensures j < |t.edges| && i < |s| && s[i] != t.edges[j]
    ensures t.edges[j] > s[i] ==> FromHere(m, s, p) && AtOrUpToHere(m, s, p)
    ensures t.edges[j] < s[i] ==> PastHere(m, s, p) && ThroughHere(m, s, p)
  {
    SeekCompressed(m, s, p, t, j);
  }

  lemma StopAtEnd(s: Key, p: Key, t: Tree, i: nat, j: nat)
    requires StopsAt(s, p, t, i, j) && i == |s|
    ensures if j == 0 then s == p else t.compr && j < |t.edges| && s == p + t.edges[..j]
  {
    assert s == p + s[|p|..];
  }

  /** Where the walk stops tells whether the element ends inside the node of a key. */
  lemma StopInside(ctx: seq<Frame>, t: Tree, s: Key, i: nat, j: nat)
    requires CtxOK(ctx) && StopsAt(s, PathKey(ctx), t, i, j) && Shape(t)
    ensures EndsInsideKey(Plug(ctx, t), s) <==> t.compr && t.slot.Some? && 0 < j && i == |s|
  {
    hide Plug, CtxOK, PathKey, EndsInsideKey;
    var p := PathKey(ctx);
    var r := s[|p|..];
    assert s == p + r;
    InsidePlug(ctx, t, r);
    assert i < |s| ==> r[j] == s[i];
    if t.compr { InsideNode(t, r, j); } else { InsidePlain(t, r); }
  }

  lemma PathSteps(ctx: seq<Frame>, k: nat)
    requires CtxOK(ctx) && k <= |ctx|
    ensures CtxOK(ctx[..k]) && (k == 0 ==> PathKey(ctx[..k]) == [])
    ensures k < |ctx| ==> CtxOK(ctx[..k + 1]) && PathKey(ctx[..k + 1]) == PathKey(ctx[..k]) + Edge(ctx[k].t, ctx[k].i)
  {
    if k < |ctx| { assert Init(ctx[..k + 1]) == ctx[..k]; }
  }

  lemma SelfBranch(m: set<Key>, p: Key)
    ensures LastBranch(m, p, p)
  {
  }

  lemma RootBefore(m: set<Key>, hi: Key)
    requires UpToHere(m, hi, [])
    ensures NoneBelow(m, hi)
  {
  }

  lemma RootPast(m: set<Key>, lo: Key)
    requires PastHere(m, lo, [])
    ensures NoneAbove(m, lo)
  {
    forall k | k in m ensures !Less(lo, k) { assert [] <= k; }
  }

  lemma HeadIsRoot(mem: Mem, head: Ptr, ctx: seq<Frame>, sub: Tree)
    requires Focus(mem, head, ctx, sub)
    ensures sub.ref == head <==> ctx == []
  {
    if ctx != [] { RootInRefs(ctx); }
  }
}
