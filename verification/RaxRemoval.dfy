/**
 The memory side of raxRemove: freeing a dead branch upwards, unlinking it, and recompressing the
 chain of single-child nodes that may be left.
 */
module RaxRemoval {
  import opened Basics
  import opened RaxTree
  import opened RaxMemory
  import opened RaxEdits

  // ---------------------------------------------------------- upward cleanup

  /** Memory while a dead branch is being freed: the context, and the node `t` whose kid is gone. */
  ghost predicate Husk(mem: Mem, head: Ptr, ctx: seq<Frame>, t: Tree) {
    && CtxOK(ctx)
    && RepCtx(mem, ctx, t.ref)
    && NoAliasCtx(ctx)
    && t.ref !in RefsCtx(ctx)
    && mem.Keys == RefsCtx(ctx) + {t.ref}
    && Matches(mem[t.ref], t)
    && head == RootRef(ctx, t.ref)
  }

  /** Memory with a hole: `f` still points at the freed child `c`. */
  ghost predicate Orphan(mem: Mem, head: Ptr, ctx: seq<Frame>, f: Frame, c: Ptr) {
    && CtxOK(ctx) && FrameOK(f)
    && RepCtx(mem, ctx, f.t.ref)
    && FrameRep(mem, f, c)
    && NoAliasCtx(ctx) && FrameNoAlias(f)
    && RefsCtx(ctx) !! FrameRefs(f)
    && mem.Keys == RefsCtx(ctx) + FrameRefs(f)
    && c !in mem
    && head == RootRef(ctx, f.t.ref)
  }

  lemma FocusIsHusk(mem: Mem, head: Ptr, ctx: seq<Frame>, t: Tree)
    requires Focus(mem, head, ctx, t) && t.kids == []
    ensures Husk(mem, head, ctx, t)
  {
    assert Refs(t) == {t.ref};
  }

  /** Freeing the node in focus and going up to its parent. */
  lemma FreeUp(mem: Mem, head: Ptr, ctx: seq<Frame>, f: Frame, t: Tree)
    requires Husk(mem, head, ctx + [f], t)
    ensures Orphan(Free(mem, t.ref), head, ctx, f, t.ref)
  {
    var c := ctx + [f];
    assert Init(c) == ctx && Last(c) == f && c[..|c| - 1] == ctx;
    assert FrameOK(f) by { assert f == c[|c| - 1]; }
    assert CtxOK(ctx) by { assert forall k :: 0 <= k < |ctx| ==> ctx[k] == c[k]; }
    var mem2 := Free(mem, t.ref);
    CtxRefsInMem(mem, c, t.ref);
    FrameRepFrame(mem, mem2, f, t.ref);
    RepCtxFrame(mem, mem2, ctx, f.t.ref);
  }

  /** Above a pass-through parent the hole moves up. */
  lemma OrphanIsHusk(mem: Mem, head: Ptr, ctx: seq<Frame>, f: Frame, t: Tree)
    requires Orphan(mem, head, ctx, f, t.ref) && PassThrough(f.t)
    ensures Husk(mem, head, ctx, WithKid(f, t))
  {
    assert FrameRefs(f) == {f.t.ref};
    assert KidRefs(WithKid(f, t).kids) == KidRefs(f.t.kids)[f.i := t.ref];
  }

  lemma HuskIsOrphan(mem: Mem, head: Ptr, ctx: seq<Frame>, t: Tree)
    requires Husk(mem, head, ctx, t) && Shape(t) && PassThrough(t) && t.kids[0].ref !in mem
    ensures Orphan(mem, head, ctx, Frame(t, 0), t.kids[0].ref)
  {
    var f := Frame(t, 0);
    assert FrameRefs(f) == {t.ref};
    assert KidRefs(t.kids)[0 := t.kids[0].ref] == KidRefs(t.kids);
  }

  // ------------------------------------------------------- unlinking a child

  /** The pointer searches of raxRemoveChild and raxFindParentLink. */
  method FindChild(children: seq<Ptr>, child: Ptr) returns (k: nat)
    requires child in children
    ensures k < |children| && children[k] == child
  {
    k := 0;
    while children[k] != child
      invariant k < |children| && child in children[k..]
      decreases |children| - k
    {
      k := k + 1;
    }
  }

  function RemoveChildRec(n: NodeRec, k: nat): NodeRec
    requires k < |n.children| && (!n.iscompr ==> |n.data| == |n.children|)
  {
    if n.iscompr then
      var m := n.(isnull := false, iscompr := false, data := [], children := []);
      if n.iskey then SetData(m, GetData(n)) else m
    else n.(data := RemoveAt(n.data, k), children := RemoveAt(n.children, k))
  }

  /** The freed child is found at the slot it was entered through: no sibling has its address. */
  lemma OrphanSlot(mem: Mem, head: Ptr, ctx: seq<Frame>, f: Frame, c: Ptr, k: nat)
    requires Orphan(mem, head, ctx, f, c)
    ensures f.t.ref in mem && c in mem[f.t.ref].children && |mem[f.t.ref].children| == |f.t.kids|
    ensures k < |f.t.kids| && mem[f.t.ref].children[k] == c ==> k == f.i
    ensures mem[f.t.ref].iskey == f.t.slot.Some? && mem[f.t.ref].iscompr == f.t.compr && mem[f.t.ref].data == f.t.edges
  {
    assert mem[f.t.ref].children[f.i] == c;
    if k < |f.t.kids| && k != f.i {
      assert Rep(mem, f.t.kids[k]);
      assert mem[f.t.ref].children[k] == f.t.kids[k].ref;
    }
  }

  /** A node is found in its parent at the slot the zipper says. */
  lemma ParentSlot(mem: Mem, ctx: seq<Frame>, r: Ptr, k: nat)
    requires CtxOK(ctx) && RepCtx(mem, ctx, r) && r !in RefsCtx(ctx) && ctx != []
    ensures var p := Last(ctx).t.ref;
      && p in mem && r in mem[p].children
      && (k < |mem[p].children| && mem[p].children[k] == r ==> k == Last(ctx).i)
  {
    var f := Last(ctx);
    assert mem[f.t.ref].children[f.i] == r;
    if k < |f.t.kids| && k != f.i {
      assert mem[f.t.ref].children[k] == f.t.kids[k].ref;
      assert f.t.kids[k].ref in Refs(f.t.kids[k]);
      assert f.t.kids[k].ref in FrameRefs(f);
    }
  }

  /** raxFindParentLink, or the head pointer when there is no parent left on the stack. */
  method FindLink(mem: Mem, stack: seq<Ptr>, h: Ptr, ghost ctx: seq<Frame>) returns (link: Link)
    requires CtxOK(ctx) && RepCtx(mem, ctx, h) && h !in RefsCtx(ctx)
    requires |stack| == |ctx| && (ctx != [] ==> stack[|stack| - 1] == Last(ctx).t.ref)
    ensures link == LinkOf(ctx)
  {
    if |stack| == 0 { return HeadLink; }
    ParentSlot(mem, ctx, h, 0);
    var parent := stack[|stack| - 1];
    var k := FindChild(mem[parent].children, h);
    ParentSlot(mem, ctx, h, k);
    link := ChildLink(parent, k);
  }

  /** What is left of a node after kid `i` went: the others, in order. */
  lemma RemovedRefs(f: Frame, t2: Tree)
    requires FrameOK(f) && t2.kids == RemoveAt(f.t.kids, f.i)
    ensures FrameRefs(f) == {f.t.ref} + KidsRefs(t2)
  {
    forall p ensures p in FrameRefs(f) <==> p in {f.t.ref} + KidsRefs(t2) {
      if p in KidsRefs(t2) {
        var j :| 0 <= j < |t2.kids| && p in Refs(t2.kids[j]);
        assert t2.kids[j] == f.t.kids[if j < f.i then j else j + 1];
      }
      if p in FrameRefs(f) && p != f.t.ref {
        var j :| 0 <= j < |f.t.kids| && j != f.i && p in Refs(f.t.kids[j]);
        assert t2.kids[if j < f.i then j else j - 1] == f.t.kids[j];
      }
    }
  }

  lemma RemovedHolds(mem: Mem, f: Frame, c: Ptr, mem2: Mem, q: Ptr)
    requires FrameOK(f) && FrameRep(mem, f, c) && FrameNoAlias(f)
    requires q == f.t.ref || q !in FrameRefs(f)
    requires AgreeOn(mem, mem2, FrameRefs(f) - {f.t.ref})
    requires q in mem2 && mem2[q] == RemoveChildRec(mem[f.t.ref], f.i)
    ensures Holds(mem2, RemoveChild(f.t, f.i).(ref := q), FrameRefs(f) - {f.t.ref} + {q})
  {
    var t2 := RemoveChild(f.t, f.i).(ref := q);
    assert t2.kids == RemoveAt(f.t.kids, f.i);
    RemovedRefs(f, t2);
    RemovedKids(mem, f, c, mem2, t2);
    assert KidRefs(t2.kids) == RemoveAt(KidRefs(f.t.kids)[f.i := c], f.i);
    assert f.t.ref !in KidsRefs(t2);
    assert Refs(t2) == {q} + KidsRefs(t2);
  }

  lemma RemovedKids(mem: Mem, f: Frame, c: Ptr, mem2: Mem, t2: Tree)
    requires FrameOK(f) && FrameRep(mem, f, c) && FrameNoAlias(f) && t2.kids == RemoveAt(f.t.kids, f.i)
    requires AgreeOn(mem, mem2, FrameRefs(f) - {f.t.ref}) && (t2.ref == f.t.ref || t2.ref !in FrameRefs(f))
    ensures forall j :: 0 <= j < |t2.kids| ==> Rep(mem2, t2.kids[j]) && f.t.ref !in Refs(t2.kids[j])
    ensures NoAlias(t2)
  {
    hide Rep, NoAlias, Refs;
    forall j | 0 <= j < |t2.kids|
      ensures Rep(mem2, t2.kids[j]) && NoAlias(t2.kids[j]) && t2.ref !in Refs(t2.kids[j]) && f.t.ref !in Refs(t2.kids[j])
    {
      var i := if j < f.i then j else j + 1;
      assert t2.kids[j] == f.t.kids[i];
      assert Refs(f.t.kids[i]) <= FrameRefs(f);
      RepFrame(mem, mem2, t2.kids[j]);
    }
    forall i, j | 0 <= i < j < |t2.kids| ensures Refs(t2.kids[i]) !! Refs(t2.kids[j]) {
      var i', j' := if i < f.i then i else i + 1, if j < f.i then j else j + 1;
      assert t2.kids[i] == f.t.kids[i'] && t2.kids[j] == f.t.kids[j'];
    }
    KidsNoAlias(t2);
  }

  /** The records of raxRemoveChild: in place for a compressed node, otherwise moved by realloc. */
  method ShrinkNode(mem: Mem, h: Ptr, k: nat) returns (q: Ptr, mem2: Mem)
    requires h in mem && k < |mem[h].children| && (!mem[h].iscompr ==> |mem[h].data| == |mem[h].children|)
    ensures Rewritten(mem, h, RemoveChildRec(mem[h], k), q, mem2) && |mem2| == |mem|
  {
    var n := RemoveChildRec(mem[h], k);
    if mem[h].iscompr {
      q, mem2 := h, mem[h := n];
    } else {
      q, mem2 := Realloc(mem, h, n);
    }
  }

  lemma RemoveFocus(mem: Mem, head: Ptr, ctx: seq<Frame>, f: Frame, c: Ptr, mem2: Mem, q: Ptr)
    requires Orphan(mem, head, ctx, f, c)
    requires Rewritten(mem, f.t.ref, RemoveChildRec(mem[f.t.ref], f.i), q, mem2)
    ensures Focus(Relink(mem2, LinkOf(ctx), q), RootRef(ctx, q), ctx, RemoveChild(f.t, f.i).(ref := q))
    ensures LinkReady(mem2, LinkOf(ctx)) && (ctx != [] ==> head == RootRef(ctx, q))
  {
    var t2 := RemoveChild(f.t, f.i).(ref := q);
    RemovedHolds(mem, f, c, mem2, q);
    FillHole(mem, ctx, f.t.ref, mem2, t2, FrameRefs(f) - {f.t.ref} + {q});
  }

  /** Putting a subtree into a context that has a hole. */
  lemma FillHole(mem: Mem, ctx: seq<Frame>, r: Ptr, mem2: Mem, t2: Tree, s: set<Ptr>)
    requires CtxOK(ctx) && RepCtx(mem, ctx, r) && NoAliasCtx(ctx) && Holds(mem2, t2, s)
    requires AgreeOn(mem, mem2, RefsCtx(ctx)) && RefsCtx(ctx) !! s && mem2.Keys == RefsCtx(ctx) + s
    ensures Focus(Relink(mem2, LinkOf(ctx), t2.ref), RootRef(ctx, t2.ref), ctx, t2)
    ensures LinkReady(mem2, LinkOf(ctx))
  {
    var mem3 := Relink(mem2, LinkOf(ctx), t2.ref);
    RepCtxFrame(mem, mem2, ctx, r);
    RelinkCtx(mem2, ctx, r, t2.ref);
    assert ctx != [] ==> Last(ctx).t.ref in RefsCtx(ctx);
    RepFrame(mem2, mem3, t2);
  }

  // ----------------------------------------------------------- recompression

  lemma {:induction false} ChainRefs(t: Tree)
    requires WF(t) && NoAlias(t)
    ensures Refs(ChainEnd(t)) <= Refs(t) && NoAlias(ChainEnd(t))
    ensures PassThrough(t) ==> t.ref !in Refs(ChainEnd(t))
    decreases t
  {
    if PassThrough(t) { ChainRefs(t.kids[0]); }
  }

  lemma {:induction false} ChainEndRep(mem: Mem, t: Tree)
    requires WF(t) && Rep(mem, t)
    ensures Rep(mem, ChainEnd(t))
    decreases t
  {
    if PassThrough(t) { ChainEndRep(mem, t.kids[0]); }
  }

  lemma OnlyKid(t: Tree)
    requires |t.kids| == 1 && NoAlias(t)
    ensures Refs(t) == {t.ref} + Refs(t.kids[0]) && t.ref !in Refs(t.kids[0]) && NoAlias(t.kids[0])
  {
  }

  /** The node record says whether the chain goes on. */
  predicate PassThroughRec(n: NodeRec) {
    !n.iskey && (n.iscompr || |n.data| == 1)
  }

  lemma PassThroughMatches(mem: Mem, t: Tree)
    requires Rep(mem, t)
    ensures t.ref in mem && Matches(mem[t.ref], t) && (PassThroughRec(mem[t.ref]) <==> PassThrough(t))
    ensures |t.kids| == 1 ==> Rep(mem, t.kids[0]) && mem[t.ref].children == [t.kids[0].ref]
  {
  }

  /** The first scan of the recompression: how many nodes and bytes the chain has, up to the size limit. */
  method MeasureChain(mem: Mem, start: Ptr, ghost t: Tree) returns (nodes: nat, comprsize: nat)
    requires Rep(mem, t) && WF(t) && PassThrough(t) && start == t.ref
    ensures comprsize == CappedBytes(t, 0)
    ensures |ChainBytes(t)| <= RAX_NODE_MAX_SIZE ==> nodes == ChainLen(t)
  {
    hide Rep;
    var h := start;
    PassThroughMatches(mem, t);
    nodes, comprsize := 1, |mem[h].data|;
    ghost var cur := t;
    while true
      invariant Rep(mem, cur) && WF(cur) && PassThrough(cur) && h == cur.ref
      invariant nodes + ChainLen(cur.kids[0]) == ChainLen(t)
      invariant comprsize + |ChainBytes(cur.kids[0])| == |ChainBytes(t)|
      invariant CappedBytes(cur.kids[0], comprsize) == CappedBytes(t, 0)
      decreases cur
    {
      PassThroughMatches(mem, cur);
      h := mem[h].children[0];
      cur := cur.kids[0];
      PassThroughMatches(mem, cur);
      if !PassThroughRec(mem[h]) { break; }
      if comprsize + |mem[h].data| > RAX_NODE_MAX_SIZE { break; }
      nodes, comprsize := nodes + 1, comprsize + |mem[h].data|;
    }
  }

  /**
   The bytes the second scan writes fit the node allocated after the first scan exactly when the
   chain is within the size limit: only the first scan checks it.
   */
  lemma ScansAgree(t: Tree)
    requires WF(t)
    ensures |ChainBytes(t)| <= CappedBytes(t, 0) <==> |ChainBytes(t)| <= RAX_NODE_MAX_SIZE
  {
    CappedFacts(t, 0);
  }

  /** Two compressed nodes above a key, the upper one as long as a node can be. */
  function LongChain(): Tree {
    var leaf := Node(3, Some(1), false, [], []);
    var lower := Node(2, None, true, [0, 0], [leaf]);
    Node(1, None, true, seq(RAX_NODE_MAX_SIZE, _ => 0), [lower])
  }

  /** Such a tree is well formed, and the scans do not agree on it. */
  lemma ScansDisagree()
    ensures WF(LongChain()) && |ChainBytes(LongChain())| > CappedBytes(LongChain(), 0)
  {
    var t := LongChain();
    var lower := t.kids[0];
    assert WF(lower.kids[0]) && WF(lower) && WF(t);
    assert |ChainBytes(lower)| >= 2;
    ScansAgree(t);
  }

  /** The byte count of the first scan when `sofar` bytes were counted above `t`. */
  function CappedBytes(t: Tree, sofar: nat): nat
    requires WF(t)
    decreases t
  {
    if PassThrough(t) && sofar + |t.edges| <= RAX_NODE_MAX_SIZE then CappedBytes(t.kids[0], sofar + |t.edges|) else sofar
  }

  lemma {:induction false} CappedFacts(t: Tree, sofar: nat)
    requires WF(t) && sofar <= RAX_NODE_MAX_SIZE
    ensures CappedBytes(t, sofar) <= RAX_NODE_MAX_SIZE
    ensures sofar + |ChainBytes(t)| <= RAX_NODE_MAX_SIZE ==> CappedBytes(t, sofar) == sofar + |ChainBytes(t)|
    decreases t
  {
    if PassThrough(t) && sofar + |t.edges| <= RAX_NODE_MAX_SIZE { CappedFacts(t.kids[0], sofar + |t.edges|); }
  }

  /** Memory after the chain above `ChainEnd(t)` was freed. */
  ghost predicate ChainFreed(mem: Mem, t: Tree, mem2: Mem)
    requires WF(t)
  {
    && mem2.Keys == mem.Keys - (Refs(t) - Refs(ChainEnd(t)))
    && AgreeOn(mem, mem2, mem2.Keys)
    && |mem2| == |mem| - ChainLen(t)
  }

  ghost predicate FreedAbove(mem: Mem, mem2: Mem, t: Tree, cur: Tree) {
    Refs(cur) <= Refs(t) && mem2.Keys == mem.Keys - (Refs(t) - Refs(cur)) && AgreeOn(mem, mem2, mem2.Keys)
  }

  lemma FreedNothing(mem: Mem, t: Tree)
    requires Rep(mem, t)
    ensures FreedAbove(mem, mem, t, t)
  {
  }

  lemma FreedAll(mem: Mem, mem2: Mem, t: Tree)
    requires WF(t) && FreedAbove(mem, mem2, t, ChainEnd(t)) && |mem2| + ChainLen(t) == |mem|
    ensures ChainFreed(mem, t, mem2)
  {
  }

  lemma FreeStep(mem: Mem, mem2: Mem, t: Tree, cur: Tree)
    requires FreedAbove(mem, mem2, t, cur) && Rep(mem2, cur) && NoAlias(cur) && |cur.kids| == 1
    ensures var mem3 := Free(mem2, cur.ref);
      Rep(mem3, cur.kids[0]) && NoAlias(cur.kids[0]) && FreedAbove(mem, mem3, t, cur.kids[0]) && cur.ref in mem2
  {
    hide Rep, NoAlias, Refs;
    var mem3 := Free(mem2, cur.ref);
    PassThroughMatches(mem2, cur);
    OnlyKid(cur);
    RepRefs(mem2, cur);
    RepFrame(mem2, mem3, cur.kids[0]);
  }

  lemma ChainUnfold(t: Tree, data: seq<byte>)
    requires WF(t) && PassThrough(t)
    ensures ChainEnd(t.kids[0]) == ChainEnd(t) && ChainLen(t) == 1 + ChainLen(t.kids[0])
    ensures data + ChainBytes(t) == (data + t.edges) + ChainBytes(t.kids[0])
  {
  }

  lemma ChainStops(t: Tree, data: seq<byte>)
    requires WF(t) && !PassThrough(t)
    ensures ChainEnd(t) == t && ChainLen(t) == 0 && data + ChainBytes(t) == data
  {
  }

  /** The second scan: collects the bytes of the chain and frees its nodes. */
  method CollectChain(mem: Mem, start: Ptr, ghost t: Tree) returns (data: seq<byte>, end: Ptr, mem2: Mem)
    requires Rep(mem, t) && NoAlias(t) && WF(t) && PassThrough(t) && start == t.ref
    ensures data == ChainBytes(t) && end == ChainEnd(t).ref
    ensures ChainFreed(mem, t, mem2)
  {
    hide Rep, NoAlias, Refs, FreedAbove, ChainBytes, ChainEnd, ChainLen, ChainFreed;
    FreedNothing(mem, t);
    data, end, mem2 := [], start, mem;
    ghost var cur := t;
    while true
      invariant Rep(mem2, cur) && NoAlias(cur) && WF(cur) && PassThrough(cur) && end == cur.ref
      invariant ChainEnd(cur) == ChainEnd(t) && data + ChainBytes(cur) == ChainBytes(t)
      invariant |mem2| + ChainLen(t) == |mem| + ChainLen(cur)
      invariant FreedAbove(mem, mem2, t, cur)
      decreases cur
    {
      PassThroughMatches(mem2, cur);
      FreeStep(mem, mem2, t, cur);
      ChainUnfold(cur, data);
      data := data + mem2[end].data;
      var tofree := end;
      end := mem2[end].children[0];
      mem2, cur := Free(mem2, tofree), cur.kids[0];
      PassThroughMatches(mem2, cur);
      if !PassThroughRec(mem2[end]) { break; }
    }
    ChainStops(cur, data);
    FreedAll(mem, mem2, t);
  }

  lemma MergeFocus(mem: Mem, head: Ptr, ctx: seq<Frame>, sub: Tree, mem1: Mem, p: Ptr, mem2: Mem)
    requires Focus(mem, head, ctx, sub) && WF(sub) && PassThrough(sub)
    requires ChainFreed(mem, sub, mem1)
    requires p !in mem && mem2 == mem1[p := NodeRec(false, false, true, ChainBytes(sub), [ChainEnd(sub).ref], 0)]
    ensures Focus(Relink(mem2, LinkOf(ctx), p), RootRef(ctx, p), ctx, Merged(sub, p))
    ensures LinkReady(mem2, LinkOf(ctx)) && (ctx != [] ==> head == RootRef(ctx, p))
  {
    hide Focus, Holds, Rep, NoAlias, Refs, KidsRefs, RefsCtx, Relink, LinkReady, ChainBytes, ChainEnd, WF, AgreeOn, ChainFreed;
    FocusRefs(mem, head, ctx, sub);
    ChainRefs(sub);
    MergeSets(mem, sub, mem1, mem2, RefsCtx(ctx), p, mem2[p]);
    MergeHolds(mem, sub, p, mem2);
    FinishEdit(mem, head, ctx, sub, mem2, Merged(sub, p), {p} + Refs(ChainEnd(sub)));
  }

  lemma MergeHolds(mem: Mem, sub: Tree, p: Ptr, mem2: Mem)
    requires WF(sub) && Rep(mem, sub) && NoAlias(sub) && AgreeOn(mem, mem2, Refs(ChainEnd(sub))) && p !in Refs(ChainEnd(sub))
    requires p in mem2 && mem2[p] == NodeRec(false, false, true, ChainBytes(sub), [ChainEnd(sub).ref], 0)
    ensures Holds(mem2, Merged(sub, p), {p} + Refs(ChainEnd(sub)))
  {
    hide Holds, Rep, NoAlias, Refs, ChainBytes, ChainEnd, WF;
    var end := ChainEnd(sub);
    ChainRefs(sub);
    ChainEndRep(mem, sub);
    EndHolds(mem, mem2, end);
    OneChild(mem2, Merged(sub, p), Refs(end));
  }

  /** The addresses after the chain was freed and `p` allocated. */
  lemma MergeSets(mem: Mem, t: Tree, mem1: Mem, mem2: Mem, above: set<Ptr>, p: Ptr, n: NodeRec)
    requires WF(t) && ChainFreed(mem, t, mem1) && Refs(ChainEnd(t)) <= Refs(t)
    requires mem.Keys == above + Refs(t) && above !! Refs(t) && p !in mem && mem2 == mem1[p := n]
    ensures var end := Refs(ChainEnd(t));
      && mem2.Keys == above + ({p} + end) && above !! {p} + end && p !in end
      && AgreeOn(mem, mem2, above) && AgreeOn(mem, mem2, end)
  {
    hide Refs, ChainEnd, WF, AgreeOn;
    KeptSets(mem.Keys, mem1.Keys, above, Refs(t), Refs(ChainEnd(t)), p);
    AgreeAfter(mem, mem1, mem2, p, n, above);
    AgreeAfter(mem, mem1, mem2, p, n, Refs(ChainEnd(t)));
  }

  lemma KeptSets(all: set<Ptr>, left: set<Ptr>, above: set<Ptr>, chain: set<Ptr>, end: set<Ptr>, p: Ptr)
    requires all == above + chain && above !! chain && end <= chain && p !in all && left == all - (chain - end)
    ensures left + {p} == above + ({p} + end) && above !! {p} + end && p !in end && above <= left && end <= left && p !in left
  {
  }

  lemma AgreeAfter(mem: Mem, mem1: Mem, mem2: Mem, p: Ptr, n: NodeRec, s: set<Ptr>)
    requires AgreeOn(mem, mem1, mem1.Keys) && mem2 == mem1[p := n] && s <= mem1.Keys && p !in mem1
    ensures AgreeOn(mem, mem2, s)
  {
  }

  lemma EndHolds(mem: Mem, mem2: Mem, t: Tree)
    requires Rep(mem, t) && NoAlias(t) && AgreeOn(mem, mem2, Refs(t))
    ensures Holds(mem2, t, Refs(t))
  {
    RepFrame(mem, mem2, t);
  }

  // ------------------------------------------------------------ freeing it all

  ghost function RefsFrom(t: Tree, k: nat): set<Ptr> {
    set i, p | k <= i < |t.kids| && p in Refs(t.kids[i]) :: p
  }

  /** `mem2` is `mem` without the addresses `s`. */
  ghost predicate Minus(mem: Mem, s: set<Ptr>, mem2: Mem) {
    mem2.Keys == mem.Keys - s && AgreeOn(mem, mem2, mem2.Keys)
  }

  lemma MinusBoth(mem: Mem, a: set<Ptr>, mem1: Mem, b: set<Ptr>, mem2: Mem)
    requires Minus(mem, a, mem1) && Minus(mem1, b, mem2)
    ensures Minus(mem, a + b, mem2)
  {
  }

  /** raxRecursiveFree: children from the last to the first, then the node itself. */
  method RecursiveFree(mem: Mem, n: Ptr, ghost t: Tree) returns (mem2: Mem, freed: nat)
    requires Rep(mem, t) && NoAlias(t) && n == t.ref
    ensures Minus(mem, Refs(t), mem2) && |mem2| + freed == |mem|
    decreases t
  {
    hide Rep, NoAlias, Refs, RefsFrom, KidsRefs, Minus;
    FreeFacts(mem, t);
    mem2, freed := mem, 0;
    var children := mem[n].children;
    var k: nat := |children|;
    while k > 0
      invariant k <= |children| && Minus(mem, RefsFrom(t, k), mem2) && |mem2| + freed == |mem|
    {
      k := k - 1;
      FreeKid(mem, mem2, t, k);
      var f;
      ghost var mem1 := mem2;
      mem2, f := RecursiveFree(mem2, children[k], t.kids[k]);
      MinusBoth(mem, RefsFrom(t, k + 1), mem1, Refs(t.kids[k]), mem2);
      freed := freed + f;
    }
    MinusNode(mem, t, mem2);
    mem2, freed := Free(mem2, n), freed + 1;
  }

  lemma FreeFacts(mem: Mem, t: Tree)
    requires Rep(mem, t)
    ensures t.ref in mem && mem[t.ref].children == KidRefs(t.kids)
    ensures Minus(mem, RefsFrom(t, |t.kids|), mem)
  {
  }

  lemma MinusNode(mem: Mem, t: Tree, mem2: Mem)
    requires Rep(mem, t) && NoAlias(t) && Minus(mem, RefsFrom(t, 0), mem2)
    ensures t.ref in mem2 && Minus(mem, Refs(t), Free(mem2, t.ref))
  {
    OwnRef(t);
    hide Refs, RefsFrom, NoAlias;
    RepHere(mem, t);
    MinusOne(mem, RefsFrom(t, 0), mem2, t.ref);
  }

  lemma MinusOne(mem: Mem, s: set<Ptr>, mem2: Mem, p: Ptr)
    requires p in mem && p !in s && Minus(mem, s, mem2)
    ensures p in mem2 && Minus(mem, {p} + s, Free(mem2, p))
  {
    assert Minus(mem2, {p}, Free(mem2, p));
    MinusBoth(mem, s, mem2, {p}, Free(mem2, p));
    assert s + {p} == {p} + s;
  }

  lemma RepHere(mem: Mem, t: Tree)
    requires Rep(mem, t)
    ensures t.ref in mem
  {
  }

  lemma OwnRef(t: Tree)
    requires NoAlias(t)
    ensures Refs(t) == {t.ref} + RefsFrom(t, 0) && t.ref !in RefsFrom(t, 0)
  {
  }

  lemma FreeKid(mem: Mem, mem2: Mem, t: Tree, k: nat)
    requires Rep(mem, t) && NoAlias(t) && k < |t.kids| && Minus(mem, RefsFrom(t, k + 1), mem2)
    ensures Rep(mem2, t.kids[k]) && NoAlias(t.kids[k])
    ensures RefsFrom(t, k) == RefsFrom(t, k + 1) + Refs(t.kids[k])
  {
    RepRefs(mem, t.kids[k]);
    assert forall p :: p in Refs(t.kids[k]) ==> p !in RefsFrom(t, k + 1);
    RepFrame(mem, mem2, t.kids[k]);
  }
}
