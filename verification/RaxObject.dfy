/**
 The radix tree of rax.c as an object: head pointer, counters and node memory, updated in place.

 `contents` is the plain map the tree stands for and `shape` the tree held in memory; `Valid` ties
 both to the real fields. Between the steps of an update the tree is described by a zipper, see
 `ValidAt`.
 */
module RaxObject {
  import opened Basics
  import opened RaxTree
  import opened RaxMemory
  import opened RaxEdits
  import opened RaxRemoval

  function Get(m: map<Key, Value>, s: Key): Option<Value> {
    if s in m then Some(m[s]) else None
  }

  /** The tree agrees with the plain map on every byte string. */
  ghost predicate Agrees(t: Tree, m: map<Key, Value>) {
    forall s :: Lookup(t, s) == Get(m, s)
  }

  lemma AgreesKept(a: Tree, b: Tree, m: map<Key, Value>)
    requires Agrees(a, m) && SameMeaning(a, b)
    ensures Agrees(b, m)
  {
  }

  /** The addresses of the parents of the node in focus, outermost first. */
  function StackOf(ctx: seq<Frame>): (r: seq<Ptr>)
    ensures |r| == |ctx|
    ensures forall k :: 0 <= k < |ctx| ==> r[k] == ctx[k].t.ref
  {
    seq(|ctx|, k requires 0 <= k < |ctx| => ctx[k].t.ref)
  }

  /** Where raxLowWalk stops: all of `s` that the tree can follow has been consumed. */
  predicate StopsAt(s: Key, path: Key, sub: Tree, i: nat, j: nat) {
    && path <= s
    && i <= |s|
    && if sub.compr then
         && j < |sub.edges|
         && i == |path| + j
         && s[|path|..i] == sub.edges[..j]
         && (i < |s| ==> s[i] != sub.edges[j])
       else
         j == 0 && i == |path| && (i < |s| ==> s[i] !in sub.edges)
  }

  /** What the stop position says about the key looked for. */
  lemma StopMeaning(ctx: seq<Frame>, sub: Tree, s: Key, i: nat, j: nat)
    requires CtxOK(ctx) && Shape(sub) && StopsAt(s, PathKey(ctx), sub, i, j)
    ensures Lookup(Plug(ctx, sub), s) == if i == |s| && j == 0 then sub.slot else None
    ensures i == |s| && j == 0 ==> s == PathKey(ctx)
  {
    hide Plug, CtxOK, PathKey;
    var p := PathKey(ctx);
    var r := s[|p|..];
    assert s == p + r;
    LookupPlug(ctx, sub, r);
    if r != [] && sub.compr {
      if i < |s| {
        assert r[j] == s[i];
        assert !(sub.edges <= r);
      }
    } else if r != [] {
      assert r[0] == s[i];
    }
  }

  /** The first loop of raxLowWalk: how many bytes of a compressed node agree with `s` from `i`. */
  method MatchEdges(v: seq<byte>, s: Key, i: nat) returns (j: nat)
    requires i <= |s|
    ensures j <= |v| && i + j <= |s|
    ensures s[i..i + j] == v[..j]
    ensures j < |v| && i + j < |s| ==> v[j] != s[i + j]
  {
    j := 0;
    while j < |v| && i + j < |s| && v[j] == s[i + j]
      invariant j <= |v| && i + j <= |s|
      invariant s[i..i + j] == v[..j]
    {
      assert s[i..i + j + 1] == s[i..i + j] + [s[i + j]] && v[..j + 1] == v[..j] + [v[j]];
      j := j + 1;
    }
  }

  /** The second loop of raxLowWalk: the edge for byte `c`, or the number of edges. */
  method ScanEdges(v: seq<byte>, c: byte) returns (j: nat)
    ensures j <= |v| && c !in v[..j]
    ensures j < |v| ==> v[j] == c
  {
    j := 0;
    while j < |v| && v[j] != c
      invariant j <= |v| && c !in v[..j]
    {
      j := j + 1;
    }
  }

  lemma AgreesAt(t: Tree, m: map<Key, Value>, s: Key)
    requires Agrees(t, m)
    ensures Lookup(t, s) == Get(m, s)
  {
  }

  lemma CutMeaning(ctx: seq<Frame>, sub: Tree, j: nat, trimRef: Ptr, postRef: Ptr, v: Value, m: map<Key, Value>)
    requires CtxOK(ctx) && Shape(sub) && sub.compr && 0 < j < |sub.edges| && Agrees(Plug(ctx, sub), m)
    ensures var top := Trimmed(sub, j, trimRef, PostfixOf(sub, j, Some(v), postRef));
      Agrees(Plug(ctx, top), m[PathKey(ctx) + sub.edges[..j] := v])
  {
    hide Lookup;
    var top := Trimmed(sub, j, trimRef, PostfixOf(sub, j, Some(v), postRef));
    var p := PathKey(ctx);
    var m2 := m[p + sub.edges[..j] := v];
    forall s ensures Lookup(Plug(ctx, top), s) == Get(m2, s) {
      SwapSubtree(ctx, sub, top, s);
      SwapSubtree(ctx, sub, sub, s);
      if p <= s {
        assert s == p + s[|p|..];
        CutAtKeyMeaning(sub, j, trimRef, postRef, v, s[|p|..]);
      }
    }
  }

  lemma SlotOnly(sub: Tree, sub2: Tree, v: Value, r: Key)
    requires sub2 == sub.(ref := sub2.ref, slot := Some(v))
    ensures Lookup(sub2, r) == if r == [] then Some(v) else Lookup(sub, r)
  {
  }

  lemma SetMeaning(ctx: seq<Frame>, sub: Tree, sub2: Tree, v: Value, m: map<Key, Value>)
    requires CtxOK(ctx) && Agrees(Plug(ctx, sub), m)
    requires sub2 == sub.(ref := sub2.ref, slot := Some(v))
    ensures Agrees(Plug(ctx, sub2), m[PathKey(ctx) := v])
  {
    hide Plug, PathKey, Lookup;
    var p := PathKey(ctx);
    forall s ensures Lookup(Plug(ctx, sub2), s) == Get(m[p := v], s) {
      SwapSubtree(ctx, sub, sub2, s);
      SwapSubtree(ctx, sub, sub, s);
      if p <= s {
        SlotOnly(sub, sub2, v, s[|p|..]);
        assert s == p + s[|p|..];
        assert s[|p|..] == [] ==> p + [] == p;
      }
    }
  }

  /** The fields of a tree seen from a place inside it; `sub` itself may be dead for a while. */
  ghost predicate StateAt(mem: Mem, head: Ptr, numele: nat, numnodes: nat, m: map<Key, Value>, ctx: seq<Frame>, sub: Tree) {
    && CtxOK(ctx)
    && Focus(mem, head, ctx, sub)
    && CtxWF(ctx)
    && WF(sub)
    && numnodes == |mem|
    && numele == |m|
    && Agrees(Plug(ctx, sub), m)
  }

  /** The state after an edit: the new subtree is in place and the parent link has been written. */
  ghost predicate Edited(mem2: Mem, head: Ptr, numele: nat, numnodes: nat, m: map<Key, Value>,
                         ctx: seq<Frame>, sub2: Tree, ctxLink: seq<Frame>, top: Ptr) {
    && LinkReady(mem2, LinkOf(ctxLink))
    && StateAt(Relink(mem2, LinkOf(ctxLink), top), if ctxLink == [] then top else head, numele, numnodes, m, ctx, sub2)
  }

  lemma SlotHere(ctx: seq<Frame>, sub: Tree, m: map<Key, Value>)
    requires CtxOK(ctx) && Agrees(Plug(ctx, sub), m)
    ensures sub.slot == Get(m, PathKey(ctx))
  {
    LookupPlug(ctx, sub, []);
    assert PathKey(ctx) + [] == PathKey(ctx);
  }

  lemma SetFocus(mem: Mem, head: Ptr, ctx: seq<Frame>, sub: Tree, data: Value, mem2: Mem, sub2: Tree)
    requires Focus(mem, head, ctx, sub) && sub.ref in mem
    requires sub2 == sub.(ref := sub2.ref, slot := Some(data))
    requires Rewritten(mem, sub.ref, SetData(mem[sub.ref], data), sub2.ref, mem2)
    ensures Focus(Relink(mem2, LinkOf(ctx), sub2.ref), RootRef(ctx, sub2.ref), ctx, sub2)
    ensures LinkReady(mem2, LinkOf(ctx)) && (ctx != [] ==> head == RootRef(ctx, sub2.ref))
    ensures SlotOf(mem[sub.ref]) == sub.slot
  {
    hide Relink, LinkReady;
    RewriteFocus(mem, head, ctx, sub, mem2, sub2);
  }

  lemma SetState(mem: Mem, head: Ptr, numele: nat, numnodes: nat, m: map<Key, Value>,
                 ctx: seq<Frame>, sub: Tree, data: Value, mem2: Mem, sub2: Tree)
    requires StateAt(mem, head, numele, numnodes, m, ctx, sub)
    requires sub.ref in mem && sub2 == sub.(ref := sub2.ref, slot := Some(data)) && |mem2| == |mem|
    requires Rewritten(mem, sub.ref, SetData(mem[sub.ref], data), sub2.ref, mem2)
    ensures sub.slot == Get(m, PathKey(ctx)) && SlotOf(mem[sub.ref]) == sub.slot
    ensures Edited(mem2, head, if sub.slot.None? then numele + 1 else numele, numnodes, m[PathKey(ctx) := data],
                   ctx, sub2, ctx, sub2.ref)
  {
    hide Focus, Agrees, CtxWF, Relink, LinkReady, Plug, PathKey, Rewritten;
    SetFocus(mem, head, ctx, sub, data, mem2, sub2);
    SetMeaning(ctx, sub, sub2, data, m);
    SlotHere(ctx, sub, m);
  }

  lemma CutState(mem: Mem, head: Ptr, numele: nat, numnodes: nat, m: map<Key, Value>,
                 ctx: seq<Frame>, sub: Tree, j: nat, trimRef: Ptr, postRef: Ptr, v: Value, mem2: Mem)
    requires StateAt(mem, head, numele, numnodes, m, ctx, sub) && sub.compr && 0 < j < |sub.edges|
    requires PathKey(ctx) + sub.edges[..j] !in m && |mem2| == |mem| + 1
    requires sub.ref in mem && CutRecords(mem, sub.ref, j, sub.kids[0].ref, v, trimRef, postRef, mem2)
    ensures Edited(mem2, head, numele + 1, numnodes + 1, m[PathKey(ctx) + sub.edges[..j] := v],
                   ctx, Trimmed(sub, j, trimRef, PostfixOf(sub, j, Some(v), postRef)), ctx, trimRef)
  {
    hide Focus, Agrees, CtxWF, Relink, LinkReady, Plug, PathKey, CutRecords;
    CutFocus(mem, head, ctx, sub, j, trimRef, postRef, v, mem2);
    CutMeaning(ctx, sub, j, trimRef, postRef, v, m);
    CutWF(sub, j, trimRef, postRef, v);
  }

  lemma SplitState(mem: Mem, head: Ptr, numele: nat, numnodes: nat, m: map<Key, Value>,
                   ctx: seq<Frame>, sub: Tree, j: nat, trimRef: Ptr, splitRef: Ptr, postRef: Ptr, mem2: Mem)
    requires StateAt(mem, head, numele, numnodes, m, ctx, sub) && sub.compr && j < |sub.edges|
    requires SplitFresh(|sub.edges|, j, trimRef, splitRef, postRef, mem.Keys)
    requires sub.ref in mem && SplitRecords(mem[sub.ref], j, sub.kids[0].ref, trimRef, splitRef, postRef, mem2)
    requires AgreeOn(mem, mem2, mem.Keys - {sub.ref})
    requires mem2.Keys == mem.Keys - {sub.ref} + {splitRef} + (if j == 0 then {} else {trimRef})
                          + (if j + 1 == |sub.edges| then {} else {postRef})
    requires |mem2| == |mem| + (if j == 0 then 0 else 1) + (if j + 1 == |sub.edges| then 0 else 1)
    ensures var ctx2, sub2 := SplitCtx(ctx, sub, j, trimRef, splitRef, postRef), SplitNode(sub, j, splitRef, postRef);
      && Edited(mem2, head, numele, numnodes + (if j == 0 then 0 else 1) + (if j + 1 == |sub.edges| then 0 else 1), m,
                ctx2, sub2, ctx, if j == 0 then splitRef else trimRef)
      && CtxOK(ctx2) && PathKey(ctx2) == PathKey(ctx) + sub.edges[..j]
      && LinkOf(ctx2) == if j == 0 then LinkOf(ctx) else ChildLink(trimRef, 0)
  {
    hide Focus, Agrees, CtxWF, Relink, LinkReady, Plug, PathKey, SplitRecords, SplitFresh, AgreeOn, SameMeaning, SplitCtx;
    SplitFocus(mem, head, ctx, sub, j, trimRef, splitRef, postRef, mem2);
    SplitZipper(ctx, sub, j, trimRef, splitRef, postRef);
    var top := SplitTop(sub, j, trimRef, splitRef, postRef);
    SplitEnter(Relink(mem2, LinkOf(ctx), top.ref), RootRef(ctx, top.ref), ctx, sub, j, trimRef, splitRef, postRef);
    AgreesKept(Plug(ctx, sub),
               Plug(SplitCtx(ctx, sub, j, trimRef, splitRef, postRef), SplitNode(sub, j, splitRef, postRef)), m);
  }

  lemma AddChildState(mem: Mem, head: Ptr, numele: nat, numnodes: nat, m: map<Key, Value>,
                      ctx: seq<Frame>, sub: Tree, c: byte, child: Ptr, q: Ptr, mem2: Mem, ctx2: seq<Frame>)
    requires StateAt(mem, head, numele, numnodes, m, ctx, sub) && !sub.compr && c !in sub.edges
    requires sub.ref in mem && |mem[sub.ref].data| == |mem[sub.ref].children| && |mem2| == |mem| + 1
    requires Grown(mem, sub.ref, child, AddChildRec(mem[sub.ref], c, child), q, mem2)
    requires ctx2 == ctx + [Frame(AddChild(sub, c, Leaf(child)).(ref := q), InsertPos(sub.edges, c))]
    ensures Edited(mem2, head, numele, numnodes + 1, m, ctx2, Leaf(child), ctx, q)
    ensures CtxOK(ctx2) && PathKey(ctx2) == PathKey(ctx) + [c]
    ensures LinkOf(ctx2) == ChildLink(q, InsertPos(sub.edges, c))
  {
    hide Focus, Agrees, CtxWF, Relink, LinkReady, Plug, PathKey, Grown, SameMeaning, Lookup, AddChildRec;
    var leaf := Leaf(child);
    var pos := InsertPos(sub.edges, c);
    var top := AddChild(sub, c, leaf).(ref := q);
    AddChildFocus(mem, head, ctx, sub, c, child, q, mem2);
    AddLeafKeepsMeaning(sub, c, leaf);
    RefIrrelevant(sub, AddChild(sub, c, leaf), q);
    GrowZipper(ctx, sub, top, pos);
    AgreesKept(Plug(ctx, sub), Plug(ctx2, leaf), m);
    FocusDown(Relink(mem2, LinkOf(ctx), q), RootRef(ctx, q), ctx, top, pos);
  }

  lemma CompressState(mem: Mem, head: Ptr, numele: nat, numnodes: nat, m: map<Key, Value>,
                      ctx: seq<Frame>, sub: Tree, s: seq<byte>, child: Ptr, q: Ptr, mem2: Mem, ctx2: seq<Frame>)
    requires StateAt(mem, head, numele, numnodes, m, ctx, sub) && sub.kids == [] && 2 <= |s| <= RAX_NODE_MAX_SIZE
    requires sub.ref in mem && |mem2| == |mem| + 1
    requires Grown(mem, sub.ref, child, mem[sub.ref].(iscompr := true, data := s, children := [child]), q, mem2)
    requires ctx2 == ctx + [Frame(Compressed(sub, s, Leaf(child)).(ref := q), 0)]
    ensures Edited(mem2, head, numele, numnodes + 1, m, ctx2, Leaf(child), ctx, q)
    ensures CtxOK(ctx2) && PathKey(ctx2) == PathKey(ctx) + s
    ensures LinkOf(ctx2) == ChildLink(q, 0)
  {
    hide Focus, Agrees, CtxWF, Relink, LinkReady, Plug, PathKey, Grown, SameMeaning, Lookup;
    var leaf := Leaf(child);
    var top := Compressed(sub, s, leaf).(ref := q);
    CompressFocus(mem, head, ctx, sub, s, child, q, mem2);
    CompressKeepsMeaning(sub, s, leaf);
    RefIrrelevant(sub, Compressed(sub, s, leaf), q);
    GrowZipper(ctx, sub, top, 0);
    AgreesKept(Plug(ctx, sub), Plug(ctx2, leaf), m);
    FocusDown(Relink(mem2, LinkOf(ctx), q), RootRef(ctx, q), ctx, top, 0);
  }

  lemma RefIrrelevant(a: Tree, b: Tree, q: Ptr)
    requires SameMeaning(a, b)
    ensures SameMeaning(a, b.(ref := q))
  {
    forall s ensures Lookup(b, s) == Lookup(b.(ref := q), s) {}
  }

  lemma NoFrames(t: Tree)
    ensures CtxOK([]) && Linked([], t)
  {
  }

  // ------------------------------------------------------------ removal

  lemma ClearMeaning(ctx: seq<Frame>, sub: Tree, m: map<Key, Value>)
    requires CtxOK(ctx) && Agrees(Plug(ctx, sub), m)
    ensures Agrees(Plug(ctx, sub.(slot := None)), m - {PathKey(ctx)})
  {
    hide Plug, PathKey, Lookup;
    forall s ensures Lookup(Plug(ctx, sub.(slot := None)), s) == Get(m - {PathKey(ctx)}, s) {
      SetSlotMeaning(ctx, sub, None, s);
    }
  }

  lemma ClearState(mem: Mem, head: Ptr, numele: nat, numnodes: nat, m: map<Key, Value>, ctx: seq<Frame>, sub: Tree)
    requires StateAt(mem, head, numele, numnodes, m, ctx, sub) && sub.slot.Some? && sub.ref in mem
    ensures numele > 0 && PathKey(ctx) in m
    ensures StateAt(mem[sub.ref := mem[sub.ref].(iskey := false)], head, numele - 1, numnodes,
                    m - {PathKey(ctx)}, ctx, sub.(slot := None))
  {
    hide Focus, Agrees, CtxWF, Plug, PathKey;
    SlotHere(ctx, sub, m);
    ClearMeaning(ctx, sub, m);
    var m2 := m - {PathKey(ctx)};
    assert m2.Keys == m.Keys - {PathKey(ctx)};
    ClearFocus(mem, head, ctx, sub);
  }

  lemma ClearFocus(mem: Mem, head: Ptr, ctx: seq<Frame>, sub: Tree)
    requires Focus(mem, head, ctx, sub) && sub.ref in mem
    ensures Focus(mem[sub.ref := mem[sub.ref].(iskey := false)], head, ctx, sub.(slot := None))
  {
    var mem2 := mem[sub.ref := mem[sub.ref].(iskey := false)];
    var sub2 := sub.(slot := None);
    FocusRefs(mem, head, ctx, sub);
    RewriteNode(mem, sub, mem2, sub2);
    RepCtxFrame(mem, mem2, ctx, sub.ref);
  }

  /** A dead branch being freed from below: everything under `t` is gone and `t` stores nothing. */
  ghost predicate HuskState(mem: Mem, head: Ptr, numele: nat, numnodes: nat, m: map<Key, Value>, ctx: seq<Frame>, t: Tree) {
    && CtxOK(ctx)
    && Husk(mem, head, ctx, t)
    && CtxWF(ctx) && Shape(t)
    && numnodes == |mem| && numele == |m|
    && Barren(t) && Agrees(Plug(ctx, t), m)
  }

  /** The parent `f` of a freed branch; `dead` is the branch that used to hang there. */
  ghost predicate OrphanState(mem: Mem, head: Ptr, numele: nat, numnodes: nat, m: map<Key, Value>,
                              ctx: seq<Frame>, f: Frame, dead: Tree) {
    && CtxOK(ctx) && FrameOK(f)
    && Orphan(mem, head, ctx, f, dead.ref)
    && CtxWF(ctx) && FrameWF(f)
    && numnodes == |mem| && numele == |m|
    && Barren(dead) && Agrees(Plug(ctx, WithKid(f, dead)), m)
  }

  lemma DeadIsHusk(mem: Mem, head: Ptr, numele: nat, numnodes: nat, m: map<Key, Value>, ctx: seq<Frame>, sub: Tree)
    requires StateAt(mem, head, numele, numnodes, m, ctx, sub) && Dead(sub)
    ensures HuskState(mem, head, numele, numnodes, m, ctx, sub)
    ensures sub.ref in mem && (sub.ref != head <==> ctx != [])
  {
    hide Agrees;
    FocusIsHusk(mem, head, ctx, sub);
    HuskHead(mem, head, ctx, sub);
    forall s ensures Lookup(sub, s).None? { DeadMeaning(sub, s); }
  }

  lemma HuskHead(mem: Mem, head: Ptr, ctx: seq<Frame>, t: Tree)
    requires Husk(mem, head, ctx, t)
    ensures t.ref in mem && (t.ref != head <==> ctx != [])
  {
    if ctx != [] { RootInRefs(ctx); }
  }

  lemma {:induction false} RootInRefs(ctx: seq<Frame>)
    requires ctx != []
    ensures ctx[0].t.ref in RefsCtx(ctx)
    decreases |ctx|
  {
    if |ctx| > 1 { RootInRefs(Init(ctx)); }
  }

  /** One round of the cleanup loop. */
  lemma FreeState(mem: Mem, head: Ptr, numele: nat, numnodes: nat, m: map<Key, Value>, ctx: seq<Frame>, t: Tree)
    requires HuskState(mem, head, numele, numnodes, m, ctx, t) && ctx != []
    ensures numnodes > 0
    ensures OrphanState(Free(mem, t.ref), head, numele, numnodes - 1, m, Init(ctx), Last(ctx), t)
  {
    hide Husk, Orphan, Agrees, Barren;
    HuskHead(mem, head, ctx, t);
    assert Init(ctx) + [Last(ctx)] == ctx;
    FreeUp(mem, head, Init(ctx), Last(ctx), t);
  }

  lemma OrphanReads(mem: Mem, head: Ptr, numele: nat, numnodes: nat, m: map<Key, Value>, ctx: seq<Frame>, f: Frame, dead: Tree)
    requires OrphanState(mem, head, numele, numnodes, m, ctx, f, dead)
    ensures f.t.ref in mem && dead.ref !in mem && dead.ref in mem[f.t.ref].children && CtxOK(ctx) && FrameOK(f)
    ensures PassThroughRec(mem[f.t.ref]) <==> PassThrough(f.t)
    ensures |mem[f.t.ref].children| == |f.t.kids| && (!mem[f.t.ref].iscompr ==> |mem[f.t.ref].data| == |f.t.kids|)
    ensures forall k :: 0 <= k < |f.t.kids| && mem[f.t.ref].children[k] == dead.ref ==> k == f.i
    ensures RepCtx(mem, ctx, f.t.ref) && f.t.ref !in RefsCtx(ctx)
    ensures mem[f.t.ref].iskey <==> f.t.slot.Some?
  {
    OrphanSlot(mem, head, ctx, f, dead.ref, 0);
    forall k | 0 <= k < |f.t.kids| && mem[f.t.ref].children[k] == dead.ref ensures k == f.i {
      OrphanSlot(mem, head, ctx, f, dead.ref, k);
    }
  }

  lemma OrphanUp(mem: Mem, head: Ptr, numele: nat, numnodes: nat, m: map<Key, Value>, ctx: seq<Frame>, f: Frame, dead: Tree)
    requires OrphanState(mem, head, numele, numnodes, m, ctx, f, dead) && PassThrough(f.t)
    ensures HuskState(mem, head, numele, numnodes, m, ctx, WithKid(f, dead))
    ensures f.t.ref in mem && (f.t.ref != head <==> ctx != [])
  {
    hide Agrees, Husk, Orphan;
    OrphanIsHusk(mem, head, ctx, f, dead);
    HuskHead(mem, head, ctx, WithKid(f, dead));
    BarrenAbove(f.t, dead);
    assert f.i == 0;
  }

  lemma HuskDown(mem: Mem, head: Ptr, numele: nat, numnodes: nat, m: map<Key, Value>, ctx: seq<Frame>, t: Tree)
    requires HuskState(mem, head, numele, numnodes, m, ctx, t) && PassThrough(t)
    requires t.kids[0].ref !in mem && Barren(t.kids[0])
    ensures OrphanState(mem, head, numele, numnodes, m, ctx, Frame(t, 0), t.kids[0])
  {
    hide Agrees, Husk, Orphan;
    HuskIsOrphan(mem, head, ctx, t);
    assert t.kids[0 := t.kids[0]] == t.kids;
  }

  lemma UnlinkWF(f: Frame, q: Ptr)
    requires FrameWF(f)
    ensures WF(RemoveChild(f.t, f.i).(ref := q))
    ensures !PassThrough(f.t) ==> !Dead(RemoveChild(f.t, f.i).(ref := q))
  {
    RemoveChildMeaning(f.t, f.i, Node(0, None, false, [], []), []);
  }

  lemma UnlinkState(mem: Mem, head: Ptr, numele: nat, numnodes: nat, m: map<Key, Value>,
                    ctx: seq<Frame>, f: Frame, dead: Tree, mem2: Mem, q: Ptr)
    requires OrphanState(mem, head, numele, numnodes, m, ctx, f, dead) && |mem2| == |mem| && f.t.ref in mem
    requires f.i < |mem[f.t.ref].children| && (!mem[f.t.ref].iscompr ==> |mem[f.t.ref].data| == |mem[f.t.ref].children|)
    requires Rewritten(mem, f.t.ref, RemoveChildRec(mem[f.t.ref], f.i), q, mem2)
    ensures Edited(mem2, head, numele, numnodes, m, ctx, RemoveChild(f.t, f.i).(ref := q), ctx, q)
  {
    hide Agrees, Orphan, Rewritten, Focus, Relink, LinkReady, SameMeaning, CtxWF, FrameWF, Plug;
    var t2 := RemoveChild(f.t, f.i).(ref := q);
    RemoveFocus(mem, head, ctx, f, dead.ref, mem2, q);
    UnlinkWF(f, q);
    RemoveBarrenChild(f.t, f.i, dead);
    RefIrrelevant(WithKid(f, dead), RemoveChild(f.t, f.i), q);
    PlugKeepsMeaning(ctx, WithKid(f, dead), t2);
    AgreesKept(Plug(ctx, WithKid(f, dead)), Plug(ctx, t2), m);
  }

  // ------------------------------------------------------- recompression

  /** How many parents in a row could be merged with the node below. */
  function ChainAbove(ctx: seq<Frame>): nat {
    if ctx != [] && PassThrough(Last(ctx).t) then 1 + ChainAbove(Init(ctx)) else 0
  }

  lemma ChainUp(ctx: seq<Frame>, sub: Tree)
    requires CtxOK(ctx) && ctx != [] && PassThrough(Last(ctx).t) && WF(sub) && WF(WithKid(Last(ctx), sub))
    ensures PassThrough(WithKid(Last(ctx), sub)) && ChainLen(WithKid(Last(ctx), sub)) == 1 + ChainLen(sub)
    ensures ChainAbove(ctx) == 1 + ChainAbove(Init(ctx))
  {
  }

  lemma ChainStarts(t: Tree)
    requires WF(t) && PassThrough(t)
    ensures ChainLen(t) > 0
  {
  }

  lemma TopOfChain(ctx: seq<Frame>)
    requires ctx != [] ==> !PassThrough(Last(ctx).t)
    ensures ChainAbove(ctx) == 0
  {
  }

  lemma StateWF(mem: Mem, head: Ptr, numele: nat, numnodes: nat, m: map<Key, Value>, ctx: seq<Frame>, sub: Tree)
    requires StateAt(mem, head, numele, numnodes, m, ctx, sub)
    ensures WF(sub) && CtxOK(ctx)
  {
  }

  lemma ParentReads(mem: Mem, head: Ptr, numele: nat, numnodes: nat, m: map<Key, Value>, ctx: seq<Frame>, sub: Tree)
    requires StateAt(mem, head, numele, numnodes, m, ctx, sub)
    ensures ctx != [] ==> Last(ctx).t.ref in mem && (PassThroughRec(mem[Last(ctx).t.ref]) <==> PassThrough(Last(ctx).t))
  {
    if ctx != [] { assert FrameRep(mem, Last(ctx), sub.ref); }
  }

  lemma AscendState(mem: Mem, head: Ptr, numele: nat, numnodes: nat, m: map<Key, Value>, ctx: seq<Frame>, sub: Tree)
    requires StateAt(mem, head, numele, numnodes, m, ctx, sub) && ctx != [] && (!Dead(sub) || PassThrough(sub))
    ensures CtxOK(ctx) && StateAt(mem, head, numele, numnodes, m, Init(ctx), WithKid(Last(ctx), sub))
  {
    hide Focus, Agrees;
    assert Init(ctx) + [Last(ctx)] == ctx;
    FocusStep(mem, head, Init(ctx), Last(ctx), sub);
  }

  /** Keys within the size limit keep every chain within it. */
  lemma ChainBound(mem: Mem, head: Ptr, numele: nat, numnodes: nat, m: map<Key, Value>, ctx: seq<Frame>, sub: Tree)
    requires StateAt(mem, head, numele, numnodes, m, ctx, sub) && PassThrough(sub)
    requires forall k :: k in m ==> |k| <= RAX_NODE_MAX_SIZE
    ensures WF(sub) && Shape(sub) && |ChainBytes(sub)| <= RAX_NODE_MAX_SIZE
    ensures Rep(mem, sub) && NoAlias(sub) && CtxOK(ctx)
    ensures RepCtx(mem, ctx, sub.ref) && sub.ref !in RefsCtx(ctx)
  {
    FocusRefs(mem, head, ctx, sub);
    var k := ChainInsideKey(ctx, sub);
    AgreesAt(Plug(ctx, sub), m, k);
  }

  lemma MergeState(mem: Mem, head: Ptr, numele: nat, numnodes: nat, m: map<Key, Value>,
                   ctx: seq<Frame>, sub: Tree, mem1: Mem, p: Ptr, mem2: Mem)
    requires StateAt(mem, head, numele, numnodes, m, ctx, sub) && PassThrough(sub) && ChainLen(sub) > 1
    requires |ChainBytes(sub)| <= RAX_NODE_MAX_SIZE && ChainFreed(mem, sub, mem1)
    requires p !in mem && mem2 == mem1[p := NodeRec(false, false, true, ChainBytes(sub), [ChainEnd(sub).ref], 0)]
    ensures numnodes + 1 >= ChainLen(sub)
    ensures Edited(mem2, head, numele, numnodes + 1 - ChainLen(sub), m, ctx, Merged(sub, p), ctx, p)
    ensures !Dead(Merged(sub, p))
  {
    hide Focus, Agrees, Relink, LinkReady, SameMeaning, CtxWF, Plug, ChainBytes, ChainEnd, ChainLen;
    MergeFocus(mem, head, ctx, sub, mem1, p, mem2);
    MergeKeepsMeaning(sub, p);
    PlugKeepsMeaning(ctx, sub, Merged(sub, p));
    AgreesKept(Plug(ctx, sub), Plug(ctx, Merged(sub, p)), m);
  }

  class Rax {
    var head: Ptr
    var numele: nat
    var numnodes: nat
    var mem: Mem
    ghost var shape: Tree
    ghost var contents: map<Key, Value>

    ghost predicate Valid()
      reads this
    {
      && WF(shape)
      && ValidAt([], shape)
    }

    /** The state seen from a place inside the tree; `sub` itself may be dead for a while. */
    ghost predicate ValidAt(ctx: seq<Frame>, sub: Tree)
      reads this
    {
      StateAt(mem, head, numele, numnodes, contents, ctx, sub)
    }

    /** raxNew */
    constructor ()
      ensures Valid() && contents == map[]
      ensures numele == 0 && numnodes == 1
    {
      var p: Ptr := 1;
      head, numele, numnodes := p, 0, 1;
      mem := map[p := EMPTY_NODE];
      shape := Node(p, None, false, [], []);
      contents := map[];
      new;
      assert KidRefs(shape.kids) == [];
      assert Agrees(shape, contents);
    }

    /** Writes a node pointer where its parent keeps it. */
    method WriteLink(link: Link, p: Ptr, ghost ctxLink: seq<Frame>, ghost ctx: seq<Frame>, ghost sub: Tree)
      requires link == LinkOf(ctxLink) && Edited(mem, head, numele, numnodes, contents, ctx, sub, ctxLink, p)
      modifies this`mem, this`head
      ensures ValidAt(ctx, sub)
    {
      hide StateAt;
      match link
      case HeadLink => head := p;
      case ChildLink(q, i) => mem := mem[q := mem[q].(children := mem[q].children[i := p])];
    }

    /** What the code can read at the node in focus. */
    lemma Here(ctx: seq<Frame>, sub: Tree)
      requires ValidAt(ctx, sub)
      ensures sub.ref in mem && Matches(mem[sub.ref], sub) && Shape(sub) && CtxOK(ctx)
      ensures ctx == [] ==> head == sub.ref && Plug(ctx, sub) == sub && PathKey(ctx) == []
    {
    }

    lemma SomeKeyIsLive()
      requires Valid() && contents != map[]
      ensures !Dead(shape)
    {
      hide Focus;
      var k :| k in contents;
      AgreesAt(Plug([], shape), contents, k);
      if Dead(shape) { DeadMeaning(shape, k); }
    }

    /** Going down to child `k` of the node in focus. */
    lemma Descend(ctx: seq<Frame>, sub: Tree, k: nat)
      requires ValidAt(ctx, sub) && Plug(ctx, sub) == shape && k < |sub.kids|
      ensures ValidAt(ctx + [Frame(sub, k)], sub.kids[k]) && Plug(ctx + [Frame(sub, k)], sub.kids[k]) == shape
      ensures PathKey(ctx + [Frame(sub, k)]) == PathKey(ctx) + Edge(sub, k)
      ensures !Dead(sub.kids[k])
    {
      hide Focus;
      EnterKid(ctx, sub, k);
      FocusDown(mem, head, ctx, sub, k);
    }

    /** raxLowWalk: follows `s` from the head as far as possible, keeping the stack of parents. */
    method LowWalk(s: Key) returns (i: nat, h: Ptr, link: Link, splitpos: nat, stack: seq<Ptr>,
                                    ghost ctx: seq<Frame>, ghost sub: Tree)
      requires Valid()
      ensures ValidAt(ctx, sub) && Plug(ctx, sub) == shape
      ensures h == sub.ref && link == LinkOf(ctx) && stack == StackOf(ctx)
      ensures (ctx != [] ==> !Dead(sub)) && Linked(ctx, sub)
      ensures StopsAt(s, PathKey(ctx), sub, i, splitpos)
    {
      hide ValidAt, WF, Plug, PathKey, Linked;
      assert Linked([], shape) by { NoFrames(shape); }
      h, link, stack := head, HeadLink, [];
      i := 0;
      var j := 0;
      ctx, sub := [], shape;
      Here(ctx, sub);
      while |mem[h].data| != 0 && i < |s|
        invariant CtxOK(ctx) && ValidAt(ctx, sub) && Plug(ctx, sub) == shape
        invariant h == sub.ref && link == LinkOf(ctx) && stack == StackOf(ctx)
        invariant h in mem && Matches(mem[h], sub) && Shape(sub)
        invariant (ctx != [] ==> !Dead(sub)) && Linked(ctx, sub)
        invariant PathKey(ctx) <= s && i == |PathKey(ctx)| && j == 0
        decreases sub
      {
        ghost var path := PathKey(ctx);
        if mem[h].iscompr {
          j := MatchEdges(mem[h].data, s, i);
          i := i + j;
          if j != |mem[h].data| { break; }
          j := 0; // a compressed node's only child is at index 0
        } else {
          j := ScanEdges(mem[h].data, s[i]);
          if j == |mem[h].data| { break; }
          i := i + 1;
        }
        assert s[..i] == path + Edge(sub, j);
        Descend(ctx, sub, j);
        LinkedDown(ctx, sub, j);
        stack, link := stack + [h], ChildLink(h, j);
        h := mem[h].children[j];
        ctx, sub := ctx + [Frame(sub, j)], sub.kids[j];
        Here(ctx, sub);
        j := 0;
      }
      splitpos := if mem[h].iscompr then j else 0;
    }

    /** What the caller of raxLowWalk learns from the stop position. */
    lemma StopFacts(ctx: seq<Frame>, sub: Tree, s: Key, i: nat, j: nat)
      requires ValidAt(ctx, sub) && StopsAt(s, PathKey(ctx), sub, i, j)
      ensures sub.ref in mem && Matches(mem[sub.ref], sub) && Shape(sub) && CtxOK(ctx)
      ensures Get(contents, s) == if i == |s| && j == 0 then sub.slot else None
      ensures i == |s| && j == 0 ==> s == PathKey(ctx)
      ensures sub.compr ==> s[..i] == PathKey(ctx) + sub.edges[..j]
      ensures !sub.compr ==> s[..i] == PathKey(ctx)
    {
      hide Focus;
      Here(ctx, sub);
      StopMeaning(ctx, sub, s, i, j);
      AgreesAt(Plug(ctx, sub), contents, s);
    }

    /** raxFind; `None` is raxNotFound. */
    method Find(s: Key) returns (r: Option<Value>)
      requires Valid()
      ensures r == Get(contents, s)
    {
      var i, h, link, splitpos, stack, ctx, sub := LowWalk(s);
      StopMeaning(ctx, sub, s, i, splitpos);
      if i != |s| || (mem[h].iscompr && splitpos != 0) || !mem[h].iskey { return None; }
      r := Some(GetData(mem[h]));
    }

    // ------------------------------------------------------------ insertion

    /** ALGO 1 of raxGenericInsert: cuts the compressed node `h` before byte `j`. */
    method SplitCompressed(h: Ptr, j: nat, link: Link, ghost ctx: seq<Frame>, ghost sub: Tree)
      returns (h2: Ptr, link2: Link, ghost ctx2: seq<Frame>, ghost sub2: Tree)
      requires ValidAt(ctx, sub) && h == sub.ref && link == LinkOf(ctx)
      requires sub.compr && j < |sub.edges|
      modifies this`mem, this`head, this`numnodes
      ensures CtxOK(ctx2) && ValidAt(ctx2, sub2) && h2 == sub2.ref && link2 == LinkOf(ctx2)
      ensures PathKey(ctx2) == PathKey(ctx) + sub.edges[..j]
      ensures !sub2.compr && sub2.edges == [sub.edges[j]]
    {
      hide StateAt, Edited, SplitRecords, SplitFresh, AgreeOn, PathKey;
      Here(ctx, sub);
      var trimmed, splitnode, postfix, mem2 := AllocSplit(mem, h, j);
      SplitState(mem, head, numele, numnodes, contents, ctx, sub, j, trimmed, splitnode, postfix, mem2);
      ctx2, sub2 := SplitCtx(ctx, sub, j, trimmed, splitnode, postfix), SplitNode(sub, j, splitnode, postfix);
      numnodes := numnodes + (if j == 0 then 0 else 1) + (if |mem[h].data| - j - 1 == 0 then 0 else 1);
      mem := mem2;
      WriteLink(link, if j == 0 then splitnode else trimmed, ctx, ctx2, sub2);
      h2, link2 := splitnode, if j == 0 then link else ChildLink(trimmed, 0);
    }

    /** The update is over: the zipper is closed and the whole tree is valid again. */
    ghost method Close(ctx: seq<Frame>, sub: Tree)
      requires ValidAt(ctx, sub) && (ctx != [] ==> !Dead(sub))
      modifies this`shape
      ensures Valid()
    {
      hide Focus, Agrees, WF;
      FocusToRoot(mem, head, ctx, sub);
      PlugWF(ctx, sub);
      shape := Plug(ctx, sub);
    }

    /** Stores `data` at the node in focus; the node is reallocated when room for a value is needed. */
    method SetKey(h: Ptr, link: Link, data: Value, ghost ctx: seq<Frame>, ghost sub: Tree)
      requires ValidAt(ctx, sub) && h == sub.ref && link == LinkOf(ctx)
      modifies this
      ensures Valid() && contents == old(contents)[PathKey(ctx) := data]
    {
      hide StateAt, Edited, Rewritten, PathKey;
      Here(ctx, sub);
      var n := mem[h];
      var q, mem2 := StoreData(mem, h, data);
      ghost var sub2 := sub.(ref := q, slot := Some(data));
      SetState(mem, head, numele, numnodes, contents, ctx, sub, data, mem2, sub2);
      if !n.iskey { numele := numele + 1; }
      mem := mem2;
      contents := contents[PathKey(ctx) := data];
      WriteLink(link, q, ctx, ctx, sub2);
      Close(ctx, sub2);
    }

    /** ALGO 2 of raxGenericInsert: the key ends before byte `j` of the compressed node `h`. */
    method CutAtKey(h: Ptr, j: nat, link: Link, data: Value, ghost ctx: seq<Frame>, ghost sub: Tree)
      requires ValidAt(ctx, sub) && h == sub.ref && link == LinkOf(ctx)
      requires sub.compr && 0 < j < |sub.edges| && PathKey(ctx) + sub.edges[..j] !in contents
      modifies this
      ensures Valid() && contents == old(contents)[PathKey(ctx) + sub.edges[..j] := data]
    {
      hide StateAt, Edited, CutRecords, PathKey;
      Here(ctx, sub);
      var trimmed, postfix, mem2 := AllocCut(mem, h, j, data);
      CutState(mem, head, numele, numnodes, contents, ctx, sub, j, trimmed, postfix, data, mem2);
      mem, numnodes, numele := mem2, numnodes + 1, numele + 1;
      contents := contents[PathKey(ctx) + sub.edges[..j] := data];
      ghost var top := Trimmed(sub, j, trimmed, PostfixOf(sub, j, Some(data), postfix));
      WriteLink(link, trimmed, ctx, ctx, top);
      Close(ctx, top);
    }

    /** The insertion loop on a childless node: the rest of the key becomes a compressed node. */
    method GrowCompressed(chunk: seq<byte>, h: Ptr, link: Link, ghost ctx: seq<Frame>, ghost sub: Tree)
      returns (h2: Ptr, link2: Link, ghost ctx2: seq<Frame>)
      requires ValidAt(ctx, sub) && h == sub.ref && link == LinkOf(ctx)
      requires sub.kids == [] && 2 <= |chunk| <= RAX_NODE_MAX_SIZE
      modifies this`mem, this`head, this`numnodes
      ensures CtxOK(ctx2) && ValidAt(ctx2, Leaf(h2)) && link2 == LinkOf(ctx2)
      ensures PathKey(ctx2) == PathKey(ctx) + chunk
    {
      hide StateAt, Edited, Grown, PathKey;
      Here(ctx, sub);
      var q, mem2;
      h2, q, mem2 := AllocCompress(mem, h, chunk);
      ctx2 := ctx + [Frame(Compressed(sub, chunk, Leaf(h2)).(ref := q), 0)];
      CompressState(mem, head, numele, numnodes, contents, ctx, sub, chunk, h2, q, mem2, ctx2);
      mem, numnodes := mem2, numnodes + 1;
      WriteLink(link, q, ctx, ctx2, Leaf(h2));
      link2 := ChildLink(q, 0);
    }

    /** The insertion loop on any other node: one more edge. */
    method GrowEdge(c: byte, h: Ptr, link: Link, ghost ctx: seq<Frame>, ghost sub: Tree)
      returns (h2: Ptr, link2: Link, ghost ctx2: seq<Frame>)
      requires ValidAt(ctx, sub) && h == sub.ref && link == LinkOf(ctx)
      requires !sub.compr && c !in sub.edges
      modifies this`mem, this`head, this`numnodes
      ensures CtxOK(ctx2) && ValidAt(ctx2, Leaf(h2)) && link2 == LinkOf(ctx2)
      ensures PathKey(ctx2) == PathKey(ctx) + [c]
    {
      hide StateAt, Edited, Grown, PathKey;
      Here(ctx, sub);
      var pos := InsertPos(mem[h].data, c);
      var q, mem2;
      h2, q, mem2 := AllocAddChild(mem, h, c);
      ctx2 := ctx + [Frame(AddChild(sub, c, Leaf(h2)).(ref := q), pos)];
      AddChildState(mem, head, numele, numnodes, contents, ctx, sub, c, h2, q, mem2, ctx2);
      mem, numnodes := mem2, numnodes + 1;
      WriteLink(link, q, ctx, ctx2, Leaf(h2));
      link2 := ChildLink(q, pos);
    }

    /** raxGenericInsert; `was` is the value stored before, if any. */
    method Insert(s: Key, data: Value, overwrite: bool) returns (inserted: bool, was: Option<Value>)
      requires Valid()
      modifies this
      ensures Valid()
      ensures inserted <==> s !in old(contents)
      ensures was == Get(old(contents), s)
      ensures contents == if s in old(contents) && !overwrite then old(contents) else old(contents)[s := data]
    {
      hide StateAt, PathKey, WF;
      var i, h, link, j, stack, ctx, sub := LowWalk(s);
      StopFacts(ctx, sub, s, i, j);
      was := SlotOf(mem[h]);
      if i == |s| && (!mem[h].iscompr || j == 0) {
        if mem[h].iskey {
          if overwrite { SetKey(h, link, data, ctx, sub); }
          return false, was;
        }
        SetKey(h, link, data, ctx, sub);
        return true, None;
      }
      was := None;
      if mem[h].iscompr && i == |s| {
        assert s[..i] == s;
        CutAtKey(h, j, link, data, ctx, sub);
        return true, None;
      }
      if mem[h].iscompr {
        h, link, ctx, sub := SplitCompressed(h, j, link, ctx, sub);
      }
      while i < |s|
        invariant ValidAt(ctx, sub) && h == sub.ref && link == LinkOf(ctx) && CtxOK(ctx)
        invariant !sub.compr && i <= |s| && PathKey(ctx) == s[..i]
        invariant i < |s| ==> s[i] !in sub.edges
        invariant contents == old(contents)
      {
        Here(ctx, sub);
        if |mem[h].data| == 0 && |s| - i > 1 {
          var n := if |s| - i > RAX_NODE_MAX_SIZE then RAX_NODE_MAX_SIZE else |s| - i;
          h, link, ctx := GrowCompressed(s[i..i + n], h, link, ctx, sub);
          assert s[..i + n] == s[..i] + s[i..i + n];
          i := i + n;
        } else {
          h, link, ctx := GrowEdge(s[i], h, link, ctx, sub);
          i := i + 1;
        }
        sub := Leaf(h);
      }
      assert s[..i] == s;
      SetKey(h, link, data, ctx, sub);
      inserted := true;
    }

    // -------------------------------------------------------------- removal

    /** Turns the key in focus into a plain node. */
    method ClearKey(h: Ptr, ghost ctx: seq<Frame>, ghost sub: Tree)
      requires ValidAt(ctx, sub) && h == sub.ref && sub.slot.Some?
      modifies this`mem, this`numele, this`contents
      ensures ValidAt(ctx, sub.(slot := None)) && contents == old(contents) - {PathKey(ctx)}
    {
      hide StateAt, PathKey;
      Here(ctx, sub);
      ClearState(mem, head, numele, numnodes, contents, ctx, sub);
      mem := mem[h := mem[h].(iskey := false)];
      numele := numele - 1;
      contents := contents - {PathKey(ctx)};
    }

    /** The cleanup loop: frees the dead node and the pass-through parents that only led to it. */
    method FreeBranch(h: Ptr, stack: seq<Ptr>, ghost ctx: seq<Frame>, ghost sub: Tree)
      returns (h2: Ptr, child: Ptr, stack2: seq<Ptr>, ghost ctx2: seq<Frame>, ghost f: Frame, ghost dead: Tree)
      requires ValidAt(ctx, sub) && Dead(sub) && ctx != [] && h == sub.ref && stack == StackOf(ctx)
      modifies this`mem, this`numnodes
      ensures OrphanState(mem, head, numele, numnodes, contents, ctx2, f, dead)
      ensures h2 == f.t.ref && child == dead.ref && stack2 == StackOf(ctx2)
      ensures ctx2 != [] ==> !PassThrough(f.t)
    {
      hide StateAt, HuskState, OrphanState, Barren;
      DeadIsHusk(mem, head, numele, numnodes, contents, ctx, sub);
      h2, stack2, ctx2, child := h, stack, ctx, h;
      ghost var t := sub;
      dead, f := sub, Frame(sub, 0);
      while h2 != head
        invariant HuskState(mem, head, numele, numnodes, contents, ctx2, t)
        invariant h2 == t.ref && stack2 == StackOf(ctx2) && h2 in mem && (h2 != head <==> ctx2 != [])
        invariant ctx2 == ctx || (PassThrough(t) && Shape(t) && t.kids[0] == dead && Barren(dead) && child == dead.ref && child !in mem)
        decreases |ctx2|
      {
        FreeState(mem, head, numele, numnodes, contents, ctx2, t);
        HuskIsBarren(mem, head, numele, numnodes, contents, ctx2, t);
        child := h2;
        mem, numnodes := RaxMemory.Free(mem, h2), numnodes - 1;
        h2, stack2 := stack2[|stack2| - 1], stack2[..|stack2| - 1];
        dead, f, ctx2 := t, Last(ctx2), Init(ctx2);
        OrphanReads(mem, head, numele, numnodes, contents, ctx2, f, dead);
        if !PassThroughRec(mem[h2]) { return; }
        OrphanUp(mem, head, numele, numnodes, contents, ctx2, f, dead);
        t := WithKid(f, dead);
      }
      HuskDown(mem, head, numele, numnodes, contents, ctx2, t);
      f := Frame(t, 0);
    }

    lemma HuskIsBarren(mem: Mem, head: Ptr, numele: nat, numnodes: nat, m: map<Key, Value>, ctx: seq<Frame>, t: Tree)
      requires HuskState(mem, head, numele, numnodes, m, ctx, t)
      ensures Barren(t) && CtxOK(ctx) && Shape(t)
    {
    }

    /** raxRemoveChild and the write of the parent link. */
    method Unlink(h: Ptr, child: Ptr, stack: seq<Ptr>, ghost ctx: seq<Frame>, ghost f: Frame, ghost dead: Tree)
      returns (h2: Ptr, ghost sub2: Tree)
      requires OrphanState(mem, head, numele, numnodes, contents, ctx, f, dead)
      requires h == f.t.ref && child == dead.ref && stack == StackOf(ctx)
      requires ctx != [] ==> !PassThrough(f.t)
      modifies this`mem, this`head
      ensures ValidAt(ctx, sub2) && h2 == sub2.ref && (ctx != [] ==> !Dead(sub2))
    {
      hide StateAt, OrphanState, Rewritten, Edited, RepCtx, RefsCtx;
      OrphanReads(mem, head, numele, numnodes, contents, ctx, f, dead);
      var k := FindChild(mem[h].children, child);
      var link := FindLink(mem, stack, h, ctx);
      var mem2;
      h2, mem2 := ShrinkNode(mem, h, k);
      UnlinkState(mem, head, numele, numnodes, contents, ctx, f, dead, mem2, h2);
      sub2 := RemoveChild(f.t, f.i).(ref := h2);
      if ctx != [] { OrphanWF(mem, head, numele, numnodes, contents, ctx, f, dead); UnlinkWF(f, h2); }
      mem := mem2;
      WriteLink(link, h2, ctx, ctx, sub2);
    }

    /** The recompression step: `h` is not a key and has one edge. */
    method Recompress(h0: Ptr, stack0: seq<Ptr>, ghost ctx0: seq<Frame>, ghost sub0: Tree)
      requires ValidAt(ctx0, sub0) && h0 == sub0.ref && stack0 == StackOf(ctx0)
      requires PassThrough(sub0)
      requires forall k :: k in contents ==> |k| <= RAX_NODE_MAX_SIZE
      modifies this
      ensures Valid() && contents == old(contents)
      ensures WF(sub0) && numnodes + ChainAbove(ctx0) + ChainLen(sub0) == old(numnodes) + 1
    {
      hide StateAt, Edited, ChainFreed, Rep, WF, NoAlias, ChainBytes, ChainEnd, ChainLen, ChainAbove, CappedBytes;
      var h, stack := h0, stack0;
      ghost var ctx, sub := ctx0, sub0;
      StateWF(mem, head, numele, numnodes, contents, ctx, sub);
      ParentReads(mem, head, numele, numnodes, contents, ctx, sub);
      while |stack| > 0 && PassThroughRec(mem[stack[|stack| - 1]])
        invariant ValidAt(ctx, sub) && h == sub.ref && stack == StackOf(ctx) && PassThrough(sub)
        invariant ctx != [] ==> Last(ctx).t.ref in mem && (PassThroughRec(mem[Last(ctx).t.ref]) <==> PassThrough(Last(ctx).t))
        invariant contents == old(contents) && numnodes == old(numnodes) && WF(sub)
        invariant ChainAbove(ctx) + ChainLen(sub) == ChainAbove(ctx0) + ChainLen(sub0)
        decreases |ctx|
      {
        AscendState(mem, head, numele, numnodes, contents, ctx, sub);
        StateWF(mem, head, numele, numnodes, contents, Init(ctx), WithKid(Last(ctx), sub));
        ChainUp(ctx, sub);
        h, stack := stack[|stack| - 1], stack[..|stack| - 1];
        ctx, sub := Init(ctx), WithKid(Last(ctx), sub);
        ParentReads(mem, head, numele, numnodes, contents, ctx, sub);
      }
      TopOfChain(ctx);
      ChainBound(mem, head, numele, numnodes, contents, ctx, sub);
      var nodes, comprsize := MeasureChain(mem, h, sub);
      ScansAgree(sub);
      if nodes > 1 {
        MergeChain(h, stack, nodes, comprsize, ctx, sub);
      } else {
        ChainStarts(sub);
        Close(ctx, sub);
      }
    }

    /** The second scan, from the topmost node of the chain. */
    method MergeChain(h: Ptr, stack: seq<Ptr>, nodes: nat, comprsize: nat, ghost ctx: seq<Frame>, ghost sub: Tree)
      requires ValidAt(ctx, sub) && h == sub.ref && stack == StackOf(ctx) && PassThrough(sub)
      requires forall k :: k in contents ==> |k| <= RAX_NODE_MAX_SIZE
      requires WF(sub) && |ChainBytes(sub)| <= comprsize && 1 < nodes == ChainLen(sub)
      modifies this
      ensures Valid() && contents == old(contents) && numnodes + nodes == old(numnodes) + 1
    {
      hide StateAt, Edited, ChainFreed, Rep, WF, NoAlias, ChainBytes, ChainEnd, ChainLen, RepCtx, RefsCtx, Refs, Merged, StackOf, LinkOf, CtxOK;
      ChainBound(mem, head, numele, numnodes, contents, ctx, sub);
      var data, end, mem1 := CollectChain(mem, h, sub);
      assert |data| <= comprsize; // the bytes fit the node sized by the first scan
      var p, _ := Malloc(mem, EMPTY_NODE);
      ghost var mem2 := mem1[p := NodeRec(false, false, true, data, [end], 0)];
      MergeState(mem, head, numele, numnodes, contents, ctx, sub, mem1, p, mem2);
      var link := FindLink(mem, stack, h, ctx);
      numnodes := numnodes + 1 - nodes;
      mem := mem1[p := NodeRec(false, false, true, data, [end], 0)];
      WriteLink(link, p, ctx, ctx, Merged(sub, p));
      Close(ctx, Merged(sub, p));
    }

    /** raxRemove */
    method Remove(s: Key) returns (removed: bool, was: Option<Value>)
      requires Valid()
      requires forall k :: k in contents ==> |k| <= RAX_NODE_MAX_SIZE
      modifies this
      ensures Valid()
      ensures removed <==> s in old(contents)
      ensures was == Get(old(contents), s)
      ensures contents == old(contents) - {s}
    {
      hide StateAt, OrphanState, PathKey, WF;
      var i, h, link, splitpos, stack, ctx, sub := LowWalk(s);
      StopFacts(ctx, sub, s, i, splitpos);
      if i != |s| || (mem[h].iscompr && splitpos != 0) || !mem[h].iskey {
        assert contents - {s} == contents;
        return false, None;
      }
      was := Some(GetData(mem[h]));
      ClearKey(h, ctx, sub);
      sub := sub.(slot := None);
      Here(ctx, sub);
      if |mem[h].data| == 0 { DeadIsHusk(mem, head, numele, numnodes, contents, ctx, sub); }
      if |mem[h].data| == 0 && h != head {
        ghost var f, dead;
        var child;
        h, child, stack, ctx, f, dead := FreeBranch(h, stack, ctx, sub);
        h, sub := Unlink(h, child, stack, ctx, f, dead);
        Here(ctx, sub);
        if |mem[h].data| == 1 && !mem[h].iskey {
          Recompress(h, stack, ctx, sub);
          return true, was;
        }
      } else if |mem[h].data| == 1 {
        Recompress(h, stack, ctx, sub);
        return true, was;
      }
      Close(ctx, sub);
      removed := true;
    }

    lemma OrphanWF(mem: Mem, head: Ptr, numele: nat, numnodes: nat, m: map<Key, Value>, ctx: seq<Frame>, f: Frame, dead: Tree)
      requires OrphanState(mem, head, numele, numnodes, m, ctx, f, dead)
      ensures FrameWF(f)
    {
    }

    /** raxFreeWithCallback: every node is freed exactly once and the final assertion holds. */
    method Release()
      requires Valid()
      modifies this`mem, this`numnodes
      ensures mem == map[] && numnodes == 0
    {
      hide Agrees, WF, Rep, NoAlias;
      FocusRefs(mem, head, [], shape);
      var mem2, freed := RecursiveFree(mem, head, shape);
      assert mem2.Keys == {};
      mem, numnodes := mem2, numnodes - freed;
    }
  }

  // --------------------------------------------------------------- whole runs

  datatype Op = Put(key: Key, value: Value) | TryPut(key: Key, value: Value) | Delete(key: Key)

  /** What a run of operations does to a plain map. */
  function Effect(ops: seq<Op>): map<Key, Value> {
    if ops == [] then map[] else
      var m := Effect(Init(ops));
      match Last(ops)
      case Put(k, v) => m[k := v]
      case TryPut(k, v) => if k in m then m else m[k := v]
      case Delete(k) => m - {k}
  }

  lemma {:induction false} EffectKeys(ops: seq<Op>)
    requires forall i :: 0 <= i < |ops| ==> |ops[i].key| <= RAX_NODE_MAX_SIZE
    ensures forall k :: k in Effect(ops) ==> |k| <= RAX_NODE_MAX_SIZE
    decreases |ops|
  {
    if ops != [] { EffectKeys(Init(ops)); }
  }

  /** Any run of raxInsert, raxTryInsert and raxRemove from raxNew agrees with the plain map. */
  method Run(ops: seq<Op>) returns (t: Rax)
    requires forall i :: 0 <= i < |ops| ==> |ops[i].key| <= RAX_NODE_MAX_SIZE
    ensures fresh(t) && t.Valid() && t.contents == Effect(ops)
  {
    hide StateAt, WF;
    t := new Rax();
    var i := 0;
    assert ops[..0] == [];
    while i < |ops|
      invariant i <= |ops| && fresh(t) && t.Valid() && t.contents == Effect(ops[..i])
    {
      assert Init(ops[..i + 1]) == ops[..i];
      EffectKeys(ops[..i]);
      match ops[i] {
        case Put(k, v) => var r, w := t.Insert(k, v, true);
        case TryPut(k, v) => var r, w := t.Insert(k, v, false);
        case Delete(k) => var r, w := t.Remove(k);
      }
      i := i + 1;
    }
    assert ops[..i] == ops;
  }
}
