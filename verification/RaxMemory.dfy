/**
 How a radix tree lives in memory.

 Memory is an explicit map from addresses to node records, so that allocation, `realloc` moving a
 node, freeing, dangling pointers and leaks are all visible. `Focus` relates memory to a zipper:
 every record is the one the tree says, no address is used twice, and memory holds nothing else.
 */
module RaxMemory {
  import opened Basics
  import opened RaxTree

  /** `raxNode`: `value` counts only when `iskey && !isnull`, as in the packed layout. */
  datatype NodeRec = NodeRec(iskey: bool, isnull: bool, iscompr: bool, data: seq<byte>, children: seq<Ptr>, value: Value)

  type Mem = map<Ptr, NodeRec>

  /** raxNewNode(0, 0) */
  const EMPTY_NODE := NodeRec(false, false, false, [], [], 0)

  function GetData(n: NodeRec): Value {
    if n.isnull then 0 else n.value
  }

  function SetData(n: NodeRec, v: Value): NodeRec {
    if v != 0 then n.(iskey := true, isnull := false, value := v) else n.(iskey := true, isnull := true)
  }

  function SlotOf(n: NodeRec): Option<Value> {
    if n.iskey then Some(GetData(n)) else None
  }

  function KidRefs(kids: seq<Tree>): (r: seq<Ptr>)
    ensures |r| == |kids|
    ensures forall i :: 0 <= i < |kids| ==> r[i] == kids[i].ref
  {
    seq(|kids|, i requires 0 <= i < |kids| => kids[i].ref)
  }

  predicate Matches(n: NodeRec, t: Tree) {
    && n.iscompr == t.compr
    && n.data == t.edges
    && SlotOf(n) == t.slot
    && n.children == KidRefs(t.kids)
  }

  ghost predicate Rep(mem: Mem, t: Tree)
    decreases t
  {
    && t.ref in mem
    && Matches(mem[t.ref], t)
    && forall i :: 0 <= i < |t.kids| ==> Rep(mem, t.kids[i])
  }

  ghost function Refs(t: Tree): set<Ptr>
    decreases t
  {
    {t.ref} + set i, p | 0 <= i < |t.kids| && p in Refs(t.kids[i]) :: p
  }

  ghost predicate NoAlias(t: Tree)
    decreases t
  {
    && (forall i :: 0 <= i < |t.kids| ==> NoAlias(t.kids[i]) && t.ref !in Refs(t.kids[i]))
    && (forall i, j :: 0 <= i < j < |t.kids| ==> Refs(t.kids[i]) !! Refs(t.kids[j]))
  }

  lemma {:induction false} RepFrame(mem: Mem, mem2: Mem, t: Tree)
    requires Rep(mem, t)
    requires forall p :: p in Refs(t) ==> p in mem2 && p in mem && mem2[p] == mem[p]
    ensures Rep(mem2, t)
    decreases t
  {
    forall i | 0 <= i < |t.kids| ensures Rep(mem2, t.kids[i]) {
      RepFrame(mem, mem2, t.kids[i]);
    }
  }

  lemma {:induction false} RepRefs(mem: Mem, t: Tree)
    requires Rep(mem, t)
    ensures Refs(t) <= mem.Keys
    decreases t
  {
    forall i | 0 <= i < |t.kids| ensures Refs(t.kids[i]) <= mem.Keys {
      RepRefs(mem, t.kids[i]);
    }
  }

  // ------------------------------------------------------------- one frame

  ghost function FrameRefs(f: Frame): set<Ptr> {
    {f.t.ref} + set j, p | 0 <= j < |f.t.kids| && j != f.i && p in Refs(f.t.kids[j]) :: p
  }

  ghost predicate FrameNoAlias(f: Frame) {
    && (forall i :: 0 <= i < |f.t.kids| && i != f.i ==> NoAlias(f.t.kids[i]) && f.t.ref !in Refs(f.t.kids[i]))
    && (forall i, j :: 0 <= i < j < |f.t.kids| && i != f.i && j != f.i ==> Refs(f.t.kids[i]) !! Refs(f.t.kids[j]))
  }

  /** The parent's record, with `r` in the child slot the frame stands for. */
  ghost predicate FrameRep(mem: Mem, f: Frame, r: Ptr)
    requires FrameOK(f)
  {
    && f.t.ref in mem
    && mem[f.t.ref].iscompr == f.t.compr
    && mem[f.t.ref].data == f.t.edges
    && SlotOf(mem[f.t.ref]) == f.t.slot
    && mem[f.t.ref].children == KidRefs(f.t.kids)[f.i := r]
    && forall j :: 0 <= j < |f.t.kids| && j != f.i ==> Rep(mem, f.t.kids[j])
  }

  lemma JoinRefs(f: Frame, sub: Tree)
    requires FrameOK(f)
    ensures Refs(WithKid(f, sub)) == FrameRefs(f) + Refs(sub)
  {
    var n := WithKid(f, sub);
    assert n.kids[f.i] == sub;
    forall p ensures p in Refs(n) <==> p in FrameRefs(f) + Refs(sub) {
      if p in FrameRefs(f) && p != f.t.ref {
        var j :| 0 <= j < |f.t.kids| && j != f.i && p in Refs(f.t.kids[j]);
        assert n.kids[j] == f.t.kids[j];
      }
    }
  }

  lemma JoinNoAlias(f: Frame, sub: Tree)
    requires FrameOK(f)
    ensures NoAlias(WithKid(f, sub)) <==> FrameNoAlias(f) && NoAlias(sub) && FrameRefs(f) !! Refs(sub)
  {
    var n := WithKid(f, sub);
    assert n.kids[f.i] == sub;
    assert forall j :: 0 <= j < |f.t.kids| && j != f.i ==> n.kids[j] == f.t.kids[j];
    if NoAlias(n) {
      forall p | p in FrameRefs(f) ensures p !in Refs(sub) {
        if p != f.t.ref {
          var j :| 0 <= j < |f.t.kids| && j != f.i && p in Refs(f.t.kids[j]);
          assert n.kids[j] == f.t.kids[j];
        }
      }
      forall i, j | 0 <= i < j < |f.t.kids| && i != f.i && j != f.i ensures Refs(f.t.kids[i]) !! Refs(f.t.kids[j]) {
        assert n.kids[i] == f.t.kids[i] && n.kids[j] == f.t.kids[j];
      }
    }
    if FrameNoAlias(f) && NoAlias(sub) && FrameRefs(f) !! Refs(sub) {
      forall i, j | 0 <= i < j < |n.kids| ensures Refs(n.kids[i]) !! Refs(n.kids[j]) {
        if i == f.i || j == f.i {
          var other := if i == f.i then j else i;
          assert forall p :: p in Refs(f.t.kids[other]) ==> p in FrameRefs(f);
        }
      }
    }
  }

  lemma JoinRep(mem: Mem, f: Frame, sub: Tree)
    requires FrameOK(f)
    ensures Rep(mem, WithKid(f, sub)) <==> FrameRep(mem, f, sub.ref) && Rep(mem, sub)
  {
    var n := WithKid(f, sub);
    assert n.kids[f.i] == sub;
    assert forall j :: 0 <= j < |f.t.kids| && j != f.i ==> n.kids[j] == f.t.kids[j];
    assert KidRefs(n.kids) == KidRefs(f.t.kids)[f.i := sub.ref];
    if Rep(mem, n) {
      forall j | 0 <= j < |f.t.kids| && j != f.i ensures Rep(mem, f.t.kids[j]) {
        assert Rep(mem, n.kids[j]);
      }
    }
  }

  lemma FrameRepFrame(mem: Mem, mem2: Mem, f: Frame, r: Ptr)
    requires FrameOK(f) && FrameRep(mem, f, r)
    requires forall p :: p in FrameRefs(f) ==> p in mem2 && p in mem && mem2[p] == mem[p]
    ensures FrameRep(mem2, f, r)
  {
    forall j | 0 <= j < |f.t.kids| && j != f.i ensures Rep(mem2, f.t.kids[j]) {
      assert forall p :: p in Refs(f.t.kids[j]) ==> p in FrameRefs(f);
      RepFrame(mem, mem2, f.t.kids[j]);
    }
  }

  // --------------------------------------------------------- whole zippers

  ghost function RefsCtx(ctx: seq<Frame>): set<Ptr>
    decreases |ctx|
  {
    if ctx == [] then {} else RefsCtx(Init(ctx)) + FrameRefs(Last(ctx))
  }

  ghost predicate NoAliasCtx(ctx: seq<Frame>)
    decreases |ctx|
  {
    ctx != [] ==>
      && NoAliasCtx(Init(ctx))
      && FrameNoAlias(Last(ctx))
      && RefsCtx(Init(ctx)) !! FrameRefs(Last(ctx))
  }

  ghost predicate RepCtx(mem: Mem, ctx: seq<Frame>, r: Ptr)
    requires CtxOK(ctx)
    decreases |ctx|
  {
    ctx != [] ==>
      && FrameRep(mem, Last(ctx), r)
      && RepCtx(mem, Init(ctx), Last(ctx).t.ref)
  }

  function RootRef(ctx: seq<Frame>, r: Ptr): Ptr {
    if ctx == [] then r else ctx[0].t.ref
  }

  ghost predicate Focus(mem: Mem, head: Ptr, ctx: seq<Frame>, sub: Tree) {
    && CtxOK(ctx)
    && RepCtx(mem, ctx, sub.ref)
    && Rep(mem, sub)
    && NoAliasCtx(ctx)
    && NoAlias(sub)
    && RefsCtx(ctx) !! Refs(sub)
    && mem.Keys == RefsCtx(ctx) + Refs(sub)
    && head == RootRef(ctx, sub.ref)
  }

  /** Moving the focus up or down one frame. */
  lemma FocusStep(mem: Mem, head: Ptr, ctx: seq<Frame>, f: Frame, sub: Tree)
    requires CtxOK(ctx) && FrameOK(f)
    ensures Focus(mem, head, ctx + [f], sub) <==> Focus(mem, head, ctx, WithKid(f, sub))
  {
    var c := ctx + [f];
    assert Init(c) == ctx && Last(c) == f;
    hide Rep, NoAlias, Refs, FrameRefs, FrameNoAlias, FrameRep;
    JoinRefs(f, sub);
    JoinNoAlias(f, sub);
    JoinRep(mem, f, sub);
  }

  lemma FocusDown(mem: Mem, head: Ptr, ctx: seq<Frame>, t: Tree, i: nat)
    requires Focus(mem, head, ctx, t) && Shape(t) && i < |t.kids|
    ensures Focus(mem, head, ctx + [Frame(t, i)], t.kids[i])
  {
    FocusStep(mem, head, ctx, Frame(t, i), t.kids[i]);
    assert t.kids[i := t.kids[i]] == t.kids;
  }

  lemma {:induction false} FocusToRoot(mem: Mem, head: Ptr, ctx: seq<Frame>, sub: Tree)
    requires Focus(mem, head, ctx, sub)
    ensures Focus(mem, head, [], Plug(ctx, sub))
    decreases |ctx|
  {
    if ctx != [] {
      assert Init(ctx) + [Last(ctx)] == ctx;
      FocusStep(mem, head, Init(ctx), Last(ctx), sub);
      FocusToRoot(mem, head, Init(ctx), WithKid(Last(ctx), sub));
    }
  }

  lemma {:induction false} RepCtxFrame(mem: Mem, mem2: Mem, ctx: seq<Frame>, r: Ptr)
    requires CtxOK(ctx) && RepCtx(mem, ctx, r)
    requires forall p :: p in RefsCtx(ctx) ==> p in mem2 && p in mem && mem2[p] == mem[p]
    ensures RepCtx(mem2, ctx, r)
    decreases |ctx|
  {
    if ctx != [] {
      FrameRepFrame(mem, mem2, Last(ctx), r);
      RepCtxFrame(mem, mem2, Init(ctx), Last(ctx).t.ref);
    }
  }

  // ---------------------------------------------------------- parent links

  /** Where the pointer to a node is kept: in the tree's head, or in a child slot of its parent. */
  datatype Link = HeadLink | ChildLink(parent: Ptr, idx: nat)

  function LinkOf(ctx: seq<Frame>): Link {
    if ctx == [] then HeadLink else ChildLink(Last(ctx).t.ref, Last(ctx).i)
  }

  function Relink(mem: Mem, link: Link, r: Ptr): (m: Mem)
    ensures m.Keys == mem.Keys && |m| == |mem|
  {
    match link
    case HeadLink => mem
    case ChildLink(p, i) =>
      if p in mem && i < |mem[p].children| then mem[p := mem[p].(children := mem[p].children[i := r])] else mem
  }

  /** The slot a link names exists, so writing it is a write inside a live node. */
  predicate LinkReady(mem: Mem, link: Link) {
    link.ChildLink? ==> link.parent in mem && link.idx < |mem[link.parent].children|
  }

  lemma RelinkCtx(mem: Mem, ctx: seq<Frame>, r: Ptr, r2: Ptr)
    requires CtxOK(ctx) && RepCtx(mem, ctx, r) && NoAliasCtx(ctx)
    ensures RepCtx(Relink(mem, LinkOf(ctx), r2), ctx, r2)
  {
    if ctx != [] {
      var f := Last(ctx);
      var mem2 := Relink(mem, LinkOf(ctx), r2);
      assert mem2[f.t.ref].children == KidRefs(f.t.kids)[f.i := r2];
      forall j | 0 <= j < |f.t.kids| && j != f.i ensures Rep(mem2, f.t.kids[j]) {
        RepRefs(mem, f.t.kids[j]);
        RepFrame(mem, mem2, f.t.kids[j]);
      }
      CtxRefsInMem(mem, Init(ctx), f.t.ref);
      RepCtxFrame(mem, mem2, Init(ctx), f.t.ref);
    }
  }

  lemma {:induction false} CtxRefsInMem(mem: Mem, ctx: seq<Frame>, r: Ptr)
    requires CtxOK(ctx) && RepCtx(mem, ctx, r)
    ensures RefsCtx(ctx) <= mem.Keys
    decreases |ctx|
  {
    if ctx != [] {
      var f := Last(ctx);
      forall j | 0 <= j < |f.t.kids| && j != f.i ensures Refs(f.t.kids[j]) <= mem.Keys {
        RepRefs(mem, f.t.kids[j]);
      }
      CtxRefsInMem(mem, Init(ctx), f.t.ref);
    }
  }

  /**
   Replacing the subtree in focus in memory: `mem2` keeps every record of the context, holds exactly
   the context and the new subtree, and the parent link is written last.
   */
  lemma Graft(mem: Mem, head: Ptr, ctx: seq<Frame>, sub: Tree, mem2: Mem, sub2: Tree)
    requires Focus(mem, head, ctx, sub)
    requires forall p :: p in RefsCtx(ctx) ==> p in mem2 && p in mem && mem2[p] == mem[p]
    requires Rep(mem2, sub2) && NoAlias(sub2)
    requires RefsCtx(ctx) !! Refs(sub2) && mem2.Keys == RefsCtx(ctx) + Refs(sub2)
    ensures Focus(Relink(mem2, LinkOf(ctx), sub2.ref), RootRef(ctx, sub2.ref), ctx, sub2)
    ensures LinkReady(mem2, LinkOf(ctx)) && head == (if ctx == [] then sub.ref else RootRef(ctx, sub2.ref))
  {
    var mem3 := Relink(mem2, LinkOf(ctx), sub2.ref);
    RepCtxFrame(mem, mem2, ctx, sub.ref);
    RelinkCtx(mem2, ctx, sub.ref, sub2.ref);
    assert ctx != [] ==> Last(ctx).t.ref in RefsCtx(ctx);
    RepFrame(mem2, mem3, sub2);
    assert mem3.Keys == mem2.Keys;
  }

  /** A pointer search among siblings finds the right slot: child addresses are distinct. */
  lemma KidRefsDistinct(t: Tree, i: nat, j: nat)
    requires NoAlias(t) && i < |t.kids| && j < |t.kids| && i != j
    ensures t.kids[i].ref != t.kids[j].ref
  {
    assert t.kids[i].ref in Refs(t.kids[i]) && t.kids[j].ref in Refs(t.kids[j]);
    if i < j { assert Refs(t.kids[i]) !! Refs(t.kids[j]); } else { assert Refs(t.kids[j]) !! Refs(t.kids[i]); }
  }

  /** An unused address always exists. */
  lemma {:induction false} FreshExists(s: set<Ptr>)
    ensures exists p: Ptr :: p !in s
  {
    var bound := UpperBound(s);
    assert bound !in s;
  }

  ghost function UpperBound(s: set<Ptr>): (b: Ptr)
    ensures forall p :: p in s ==> p < b
  {
    if s == {} then 0 else
      var p :| p in s;
      var rest := UpperBound(s - {p});
      assert forall q :: q in s ==> q == p || q in s - {p};
      if p < rest then rest else p + 1
  }

  /** rax_malloc: the node goes to any unused address. */
  method Malloc(mem: Mem, n: NodeRec) returns (p: Ptr, mem2: Mem)
    ensures p !in mem && mem2 == mem[p := n] && |mem2| == |mem| + 1 && mem2.Keys == mem.Keys + {p}
  {
    FreshExists(mem.Keys);
    p :| p !in mem.Keys;
    mem2 := mem[p := n];
  }

  /** rax_free */
  function Free(mem: Mem, p: Ptr): (mem2: Mem)
    ensures mem2.Keys == mem.Keys - {p}
    ensures p in mem ==> |mem2| == |mem| - 1
    ensures forall q :: q in mem2 ==> mem2[q] == mem[q]
  {
    var mem2 := mem - {p};
    assert mem2.Keys == mem.Keys - {p};
    mem2
  }

  /** rax_realloc: the node may move to any unused address. */
  method Realloc(mem: Mem, p: Ptr, n: NodeRec) returns (q: Ptr, mem2: Mem)
    requires p in mem
    ensures q == p || q !in mem
    ensures mem2 == Free(mem, p)[q := n] && |mem2| == |mem|
  {
    q, mem2 := Malloc(Free(mem, p), n);
  }
}
