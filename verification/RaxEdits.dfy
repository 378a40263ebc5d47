/**
 The node rewrites of raxGenericInsert and raxRemove, in memory: which records they write, and that
 the records written represent the rewritten subtree without sharing or leaking an address.
 */
module RaxEdits {
  import opened Basics
  import opened RaxTree
  import opened RaxMemory

  /** The addresses below a node. */
  ghost function KidsRefs(t: Tree): set<Ptr> {
    set i, p | 0 <= i < |t.kids| && p in Refs(t.kids[i]) :: p
  }

  ghost predicate AgreeOn(mem: Mem, mem2: Mem, s: set<Ptr>) {
    forall p :: p in s ==> p in mem && p in mem2 && mem2[p] == mem[p]
  }

  /** `t2` is the live content of memory `mem2` on exactly the addresses `s`. */
  ghost predicate Holds(mem2: Mem, t2: Tree, s: set<Ptr>) {
    Rep(mem2, t2) && NoAlias(t2) && Refs(t2) == s
  }

  lemma KidsKept(mem: Mem, mem2: Mem, t: Tree)
    requires Rep(mem, t) && NoAlias(t) && AgreeOn(mem, mem2, KidsRefs(t))
    ensures forall i :: 0 <= i < |t.kids| ==> Rep(mem2, t.kids[i])
  {
    forall i | 0 <= i < |t.kids| ensures Rep(mem2, t.kids[i]) {
      assert forall p :: p in Refs(t.kids[i]) ==> p in KidsRefs(t);
      RepFrame(mem, mem2, t.kids[i]);
    }
  }

  /** A node rewritten at address `q` with the same children (realloc may have moved it). */
  lemma RewriteNode(mem: Mem, t: Tree, mem2: Mem, t2: Tree)
    requires Rep(mem, t) && NoAlias(t) && AgreeOn(mem, mem2, KidsRefs(t))
    requires t2.kids == t.kids && t2.ref !in KidsRefs(t)
    requires t2.ref in mem2 && Matches(mem2[t2.ref], t2)
    ensures Holds(mem2, t2, {t2.ref} + KidsRefs(t))
  {
    KidsKept(mem, mem2, t);
  }

  /** A node with a single child. */
  lemma OneChild(mem2: Mem, t2: Tree, s: set<Ptr>)
    requires |t2.kids| == 1 && Holds(mem2, t2.kids[0], s) && t2.ref !in s
    requires t2.ref in mem2 && Matches(mem2[t2.ref], t2)
    ensures Holds(mem2, t2, {t2.ref} + s)
  {
  }

  lemma OnlyKidHolds(mem: Mem, mem2: Mem, t: Tree)
    requires |t.kids| == 1 && Rep(mem, t) && NoAlias(t) && AgreeOn(mem, mem2, Refs(t.kids[0]))
    ensures Holds(mem2, t.kids[0], Refs(t.kids[0]))
    ensures t.ref in mem && Matches(mem[t.ref], t)
  {
    RepFrame(mem, mem2, t.kids[0]);
  }

  // ----------------------------------------------------------- node splitting

  /** The records of ALGO 1 and ALGO 2; `n` is the compressed node being cut. */
  function TrimmedRec(n: NodeRec, j: nat, child: Ptr): NodeRec
    requires j <= |n.data|
  {
    NodeRec(n.iskey, n.isnull, j > 1, n.data[..j], [child], n.value)
  }

  function PostfixRec(n: NodeRec, from: nat, child: Ptr): NodeRec
    requires from <= |n.data|
  {
    NodeRec(false, false, |n.data| - from > 1, n.data[from..], [child], 0)
  }

  function SplitRec(n: NodeRec, j: nat, child: Ptr): NodeRec
    requires j < |n.data|
  {
    var m := NodeRec(false, false, false, [n.data[j]], [child], 0);
    if j == 0 && n.iskey then SetData(m, GetData(n)) else m
  }

  /** The subtree ALGO 1 leaves in place of the compressed node. */
  function SplitTop(h: Tree, j: nat, trimRef: Ptr, splitRef: Ptr, postRef: Ptr): Tree
    requires Shape(h) && h.compr && j < |h.edges|
  {
    var split := SplitNode(h, j, splitRef, postRef);
    if j == 0 then split else Trimmed(h, j, trimRef, split)
  }

  ghost function SplitRefs(h: Tree, j: nat, trimRef: Ptr, splitRef: Ptr, postRef: Ptr): set<Ptr>
    requires Shape(h) && h.compr && j < |h.edges|
  {
    Refs(h.kids[0]) + {splitRef} + (if j == 0 then {} else {trimRef}) + (if j + 1 == |h.edges| then {} else {postRef})
  }

  /** The records ALGO 1 writes for a node `n` with child `next`. */
  ghost predicate SplitRecords(n: NodeRec, j: nat, next: Ptr, trimRef: Ptr, splitRef: Ptr, postRef: Ptr, mem2: Mem) {
    && j < |n.data|
    && splitRef in mem2 && mem2[splitRef] == SplitRec(n, j, if j + 1 == |n.data| then next else postRef)
    && (j > 0 ==> trimRef in mem2 && mem2[trimRef] == TrimmedRec(n, j, splitRef))
    && (j + 1 < |n.data| ==> postRef in mem2 && mem2[postRef] == PostfixRec(n, j + 1, next))
  }

  /** The addresses ALGO 1 allocates are distinct and new. */
  ghost predicate SplitFresh(len: nat, j: nat, trimRef: Ptr, splitRef: Ptr, postRef: Ptr, used: set<Ptr>) {
    && splitRef !in used
    && (j > 0 ==> trimRef != splitRef && trimRef !in used)
    && (j + 1 < len ==> postRef != splitRef && (j > 0 ==> postRef != trimRef) && postRef !in used)
  }

  /** The allocations of ALGO 1; the cut node is freed last. */
  method AllocSplit(mem: Mem, h: Ptr, j: nat) returns (trimRef: Ptr, splitRef: Ptr, postRef: Ptr, mem2: Mem)
    requires h in mem && |mem[h].children| == 1 && j < |mem[h].data|
    ensures SplitRecords(mem[h], j, mem[h].children[0], trimRef, splitRef, postRef, mem2)
    ensures SplitFresh(|mem[h].data|, j, trimRef, splitRef, postRef, mem.Keys)
    ensures AgreeOn(mem, mem2, mem.Keys - {h})
    ensures mem2.Keys == mem.Keys - {h} + {splitRef} + (if j == 0 then {} else {trimRef})
                         + (if j + 1 == |mem[h].data| then {} else {postRef})
    ensures |mem2| == |mem| + (if j == 0 then 0 else 1) + (if j + 1 == |mem[h].data| then 0 else 1)
  {
    hide SplitRec, TrimmedRec, PostfixRec, AgreeOn, SplitFresh, Taken, Free;
    var n := mem[h];
    var m1, m2, m3;
    postRef, m1 := MallocIf(j + 1 < |n.data|, mem, PostfixRec(n, j + 1, n.children[0]), n.children[0]);
    splitRef, m2 := MallocIf(true, m1, SplitRec(n, j, postRef), 0);
    trimRef, m3 := MallocIf(j > 0, m2, TrimmedRec(n, j, splitRef), 0);
    mem2 := Free(m3, h);
    SplitAllocated(mem, m1, m2, m3, h, j, n.children[0], trimRef, splitRef, postRef);
  }

  /** An allocation made when `needed`. */
  ghost predicate Taken(needed: bool, mem: Mem, mem2: Mem, p: Ptr, n: NodeRec, otherwise: Ptr) {
    && mem2.Keys == mem.Keys + (if needed then {p} else {}) && (needed ==> p !in mem)
    && AgreeOn(mem, mem2, mem.Keys) && |mem2| == |mem| + (if needed then 1 else 0)
    && if needed then p in mem2 && mem2[p] == n else p == otherwise
  }

  method MallocIf(needed: bool, mem: Mem, n: NodeRec, otherwise: Ptr) returns (p: Ptr, mem2: Mem)
    ensures Taken(needed, mem, mem2, p, n, otherwise)
  {
    p, mem2 := otherwise, mem;
    if needed { p, mem2 := Malloc(mem, n); }
  }

  lemma SplitAllocated(mem: Mem, m1: Mem, m2: Mem, m3: Mem, h: Ptr, j: nat, next: Ptr, trimRef: Ptr, splitRef: Ptr, postRef: Ptr)
    requires h in mem && j < |mem[h].data|
    requires Taken(j + 1 < |mem[h].data|, mem, m1, postRef, PostfixRec(mem[h], j + 1, next), next)
    requires Taken(true, m1, m2, splitRef, SplitRec(mem[h], j, postRef), 0)
    requires Taken(j > 0, m2, m3, trimRef, TrimmedRec(mem[h], j, splitRef), 0)
    ensures var n, mem2 := mem[h], Free(m3, h);
      && SplitRecords(n, j, next, trimRef, splitRef, postRef, mem2)
      && SplitFresh(|n.data|, j, trimRef, splitRef, postRef, mem.Keys)
      && AgreeOn(mem, mem2, mem.Keys - {h})
      && mem2.Keys == mem.Keys - {h} + {splitRef} + (if j == 0 then {} else {trimRef})
                      + (if j + 1 == |n.data| then {} else {postRef})
      && |mem2| == |mem| + (if j == 0 then 0 else 1) + (if j + 1 == |n.data| then 0 else 1)
  {
    hide SplitRec, TrimmedRec, PostfixRec, AgreeOn, SplitFresh, SplitRecords;
    var n := mem[h];
    KeysAfter(mem.Keys, m1.Keys, m2.Keys, m3.Keys, Free(m3, h).Keys, h, splitRef,
              if j == 0 then {} else {trimRef}, if j + 1 == |n.data| then {} else {postRef});
    FreshAfter(|n.data|, j, trimRef, splitRef, postRef, mem.Keys, m1.Keys, m2.Keys);
    AgreeTwice(mem, m1, m2, mem.Keys);
    AgreeTwice(mem, m2, m3, mem.Keys);
    AgreeFree(mem, m3, mem.Keys, h);
    SplitWritten(mem, m1, m2, m3, h, j, next, trimRef, splitRef, postRef);
  }

  /** Each new record is still there in the end. */
  lemma SplitWritten(mem: Mem, m1: Mem, m2: Mem, m3: Mem, h: Ptr, j: nat, next: Ptr, trimRef: Ptr, splitRef: Ptr, postRef: Ptr)
    requires h in mem && j < |mem[h].data|
    requires Taken(j + 1 < |mem[h].data|, mem, m1, postRef, PostfixRec(mem[h], j + 1, next), next)
    requires Taken(true, m1, m2, splitRef, SplitRec(mem[h], j, postRef), 0)
    requires Taken(j > 0, m2, m3, trimRef, TrimmedRec(mem[h], j, splitRef), 0)
    ensures SplitRecords(mem[h], j, next, trimRef, splitRef, postRef, Free(m3, h))
  {
    hide SplitRec, TrimmedRec, PostfixRec, AgreeOn;
    KeptRecord(m1, m2, m3, Free(m3, h), h, postRef, j + 1 < |mem[h].data|);
    KeptRecord(m2, m2, m3, Free(m3, h), h, splitRef, true);
  }

  lemma AgreeTwice(mem: Mem, m1: Mem, m2: Mem, s: set<Ptr>)
    requires AgreeOn(mem, m1, s) && AgreeOn(m1, m2, m1.Keys)
    ensures AgreeOn(mem, m2, s)
  {
  }

  /** A record that was allocated stays until it is freed. */
  lemma KeptRecord(m1: Mem, m2: Mem, m3: Mem, mem2: Mem, h: Ptr, p: Ptr, needed: bool)
    requires AgreeOn(m1, m2, m1.Keys) || m1 == m2
    requires AgreeOn(m2, m3, m2.Keys) && mem2 == Free(m3, h) && (needed ==> p in m1 && p != h)
    ensures needed ==> p in mem2 && mem2[p] == m1[p]
  {
  }

  lemma FreshAfter(len: nat, j: nat, trimRef: Ptr, splitRef: Ptr, postRef: Ptr, k0: set<Ptr>, k1: set<Ptr>, k2: set<Ptr>)
    requires k0 <= k1 && k2 == k1 + {splitRef} && splitRef !in k1 && (j > 0 ==> trimRef !in k2)
    requires j + 1 < len ==> postRef !in k0 && postRef in k1
    ensures SplitFresh(len, j, trimRef, splitRef, postRef, k0)
  {
  }

  lemma AgreeFree(mem: Mem, m: Mem, s: set<Ptr>, h: Ptr)
    requires AgreeOn(mem, m, s)
    ensures AgreeOn(mem, Free(m, h), s - {h})
  {
  }

  lemma KeysAfter(k0: set<Ptr>, k1: set<Ptr>, k2: set<Ptr>, k3: set<Ptr>, k4: set<Ptr>, h: Ptr, split: Ptr, trim: set<Ptr>, post: set<Ptr>)
    requires k1 == k0 + post && k2 == k1 + {split} && k3 == k2 + trim && k4 == k3 - {h} && h !in post && h != split && h !in trim
    ensures k4 == k0 - {h} + {split} + trim + post
  {
  }

  lemma SplitHolds(mem: Mem, h: Tree, j: nat, trimRef: Ptr, splitRef: Ptr, postRef: Ptr, mem2: Mem)
    requires Shape(h) && h.compr && j < |h.edges| && Rep(mem, h) && NoAlias(h)
    requires AgreeOn(mem, mem2, Refs(h.kids[0]))
    requires SplitRecords(mem[h.ref], j, h.kids[0].ref, trimRef, splitRef, postRef, mem2)
    requires SplitFresh(|h.edges|, j, trimRef, splitRef, postRef, Refs(h.kids[0]))
    ensures Holds(mem2, SplitTop(h, j, trimRef, splitRef, postRef), SplitRefs(h, j, trimRef, splitRef, postRef))
  {
    hide Holds, NoAlias, Rep, Refs;
    OnlyKidHolds(mem, mem2, h);
    var post := PostfixOf(h, j + 1, None, postRef);
    var s := Refs(h.kids[0]);
    if j + 1 < |h.edges| {
      OneChild(mem2, post, s);
      s := {postRef} + s;
    }
    var split := SplitNode(h, j, splitRef, postRef);
    OneChild(mem2, split, s);
    s := {splitRef} + s;
    if j > 0 {
      OneChild(mem2, Trimmed(h, j, trimRef, split), s);
      s := {trimRef} + s;
    }
    assert s == SplitRefs(h, j, trimRef, splitRef, postRef);
  }

  lemma SplitWF(h: Tree, j: nat, trimRef: Ptr, splitRef: Ptr, postRef: Ptr)
    requires WF(h) && h.compr && j < |h.edges|
    ensures WF(SplitNode(h, j, splitRef, postRef)) && WF(SplitTop(h, j, trimRef, splitRef, postRef))
  {
    var post := PostfixOf(h, j + 1, None, postRef);
    assert WF(post) && !Dead(post);
  }

  lemma CutHolds(mem: Mem, h: Tree, j: nat, trimRef: Ptr, postRef: Ptr, v: Value, mem2: Mem)
    requires Shape(h) && h.compr && 0 < j < |h.edges| && Rep(mem, h) && NoAlias(h)
    requires AgreeOn(mem, mem2, Refs(h.kids[0]))
    requires trimRef != postRef && {trimRef, postRef} !! Refs(h.kids[0])
    requires var n := mem[h.ref];
      && trimRef in mem2 && mem2[trimRef] == TrimmedRec(n, j, postRef)
      && postRef in mem2 && mem2[postRef] == SetData(PostfixRec(n, j, h.kids[0].ref), v)
    ensures Holds(mem2, Trimmed(h, j, trimRef, PostfixOf(h, j, Some(v), postRef)), Refs(h.kids[0]) + {trimRef, postRef})
  {
    OnlyKidHolds(mem, mem2, h);
    var post := PostfixOf(h, j, Some(v), postRef);
    var s := Refs(h.kids[0]);
    OneChild(mem2, post, s);
    OneChild(mem2, Trimmed(h, j, trimRef, post), {postRef} + s);
    assert {trimRef} + ({postRef} + s) == s + {trimRef, postRef};
  }

  // ------------------------------------------------------------- new children

  /** raxNewNode(0, 0) as a tree. */
  function Leaf(p: Ptr): Tree {
    Node(p, None, false, [], [])
  }

  lemma LeafHolds(mem2: Mem, p: Ptr)
    requires p in mem2 && mem2[p] == EMPTY_NODE
    ensures Holds(mem2, Leaf(p), {p})
  {
    assert KidRefs([]) == [];
  }

  function AddChildRec(n: NodeRec, c: byte, child: Ptr): NodeRec
    requires |n.data| == |n.children|
  {
    var pos := InsertPos(n.data, c);
    n.(data := InsertAt(n.data, pos, c), children := InsertAt(n.children, pos, child))
  }

  /** Inserting a kid: the other kids keep their addresses. */
  lemma InsertedRefs(h: Tree, t: Tree, pos: nat, leaf: Tree)
    requires pos <= |h.kids| && t.kids == InsertAt(h.kids, pos, leaf)
    ensures KidsRefs(t) == KidsRefs(h) + Refs(leaf)
  {
    forall p ensures p in KidsRefs(t) <==> p in KidsRefs(h) + Refs(leaf) {
      if p in KidsRefs(h) {
        var i :| 0 <= i < |h.kids| && p in Refs(h.kids[i]);
        assert t.kids[if i < pos then i else i + 1] == h.kids[i];
      }
      assert t.kids[pos] == leaf;
    }
  }

  lemma InsertedNoAlias(h: Tree, t: Tree, pos: nat, leaf: Tree)
    requires pos <= |h.kids| && t.kids == InsertAt(h.kids, pos, leaf)
    requires NoAlias(h) && NoAlias(leaf) && Refs(leaf) !! KidsRefs(h)
    requires t.ref !in KidsRefs(h) && t.ref !in Refs(leaf)
    ensures NoAlias(t)
  {
    hide NoAlias, Refs;
    assert forall i :: 0 <= i < |h.kids| ==> NoAlias(h.kids[i]) by { KidsNoAlias(h); }
    forall i, j | 0 <= i < j < |t.kids| ensures Refs(t.kids[i]) !! Refs(t.kids[j]) {
      var i', j' := if i < pos then i else i - 1, if j < pos then j else j - 1;
      KidsNoAlias(h);
      if i == pos { assert Refs(h.kids[j']) <= KidsRefs(h); }
      if j == pos { assert Refs(h.kids[i']) <= KidsRefs(h); }
    }
    forall i | 0 <= i < |t.kids| ensures NoAlias(t.kids[i]) && t.ref !in Refs(t.kids[i]) {
      if i != pos { assert Refs(h.kids[if i < pos then i else i - 1]) <= KidsRefs(h); }
    }
    KidsNoAlias(t);
  }

  lemma KidsNoAlias(t: Tree)
    ensures NoAlias(t) <==>
      && (forall i :: 0 <= i < |t.kids| ==> NoAlias(t.kids[i]) && t.ref !in Refs(t.kids[i]))
      && (forall i, j :: 0 <= i < j < |t.kids| ==> Refs(t.kids[i]) !! Refs(t.kids[j]))
  {
  }

  lemma AddChildHolds(mem: Mem, h: Tree, c: byte, child: Ptr, q: Ptr, mem2: Mem)
    requires Shape(h) && !h.compr && Rep(mem, h) && NoAlias(h) && AgreeOn(mem, mem2, KidsRefs(h))
    requires q != child && {q, child} !! KidsRefs(h)
    requires child in mem2 && mem2[child] == EMPTY_NODE
    requires q in mem2 && mem2[q] == AddChildRec(mem[h.ref], c, child)
    ensures Holds(mem2, AddChild(h, c, Leaf(child)).(ref := q), KidsRefs(h) + {q, child})
  {
    var pos := InsertPos(h.edges, c);
    var t := AddChild(h, c, Leaf(child)).(ref := q);
    AddChildRep(mem, h, c, child, q, mem2);
    LeafHolds(mem2, child);
    hide Rep, NoAlias;
    InsertedRefs(h, t, pos, Leaf(child));
    InsertedNoAlias(h, t, pos, Leaf(child));
    assert Refs(t) == {q} + KidsRefs(t);
  }

  lemma AddChildRep(mem: Mem, h: Tree, c: byte, child: Ptr, q: Ptr, mem2: Mem)
    requires Shape(h) && !h.compr && Rep(mem, h) && NoAlias(h) && AgreeOn(mem, mem2, KidsRefs(h))
    requires child in mem2 && mem2[child] == EMPTY_NODE
    requires q in mem2 && mem2[q] == AddChildRec(mem[h.ref], c, child)
    ensures Rep(mem2, AddChild(h, c, Leaf(child)).(ref := q))
  {
    KidsKept(mem, mem2, h);
    LeafHolds(mem2, child);
    hide NoAlias, Refs, Shape;
    var pos := InsertPos(h.edges, c);
    var t := AddChild(h, c, Leaf(child)).(ref := q);
    assert KidRefs(t.kids) == InsertAt(KidRefs(h.kids), pos, child);
  }

  lemma CompressHolds(mem: Mem, h: Tree, s: seq<byte>, child: Ptr, q: Ptr, mem2: Mem)
    requires h.kids == [] && Rep(mem, h) && q != child
    requires child in mem2 && mem2[child] == EMPTY_NODE
    requires q in mem2 && mem2[q] == mem[h.ref].(iscompr := true, data := s, children := [child])
    ensures Holds(mem2, Compressed(h, s, Leaf(child)).(ref := q), {q, child})
  {
    LeafHolds(mem2, child);
    OneChild(mem2, Compressed(h, s, Leaf(child)).(ref := q), {child});
  }

  /** An edit is finished once the parent link points at the new subtree. */
  lemma FinishEdit(mem: Mem, head: Ptr, ctx: seq<Frame>, sub: Tree, mem2: Mem, top: Tree, s: set<Ptr>)
    requires Focus(mem, head, ctx, sub) && Holds(mem2, top, s)
    requires AgreeOn(mem, mem2, RefsCtx(ctx)) && RefsCtx(ctx) !! s && mem2.Keys == RefsCtx(ctx) + s
    ensures Focus(Relink(mem2, LinkOf(ctx), top.ref), RootRef(ctx, top.ref), ctx, top)
    ensures LinkReady(mem2, LinkOf(ctx)) && (ctx != [] ==> head == RootRef(ctx, top.ref))
  {
    Graft(mem, head, ctx, sub, mem2, top);
  }

  /** What `Focus` says about addresses, for code that allocates and frees. */
  lemma FocusRefs(mem: Mem, head: Ptr, ctx: seq<Frame>, sub: Tree)
    requires Focus(mem, head, ctx, sub)
    ensures CtxOK(ctx) && Rep(mem, sub) && NoAlias(sub)
    ensures sub.ref in mem && Matches(mem[sub.ref], sub)
    ensures Refs(sub) == {sub.ref} + KidsRefs(sub) && sub.ref !in KidsRefs(sub)
    ensures |sub.kids| == 1 ==> KidsRefs(sub) == Refs(sub.kids[0])
    ensures RefsCtx(ctx) !! Refs(sub) && mem.Keys == RefsCtx(ctx) + Refs(sub)
  {
  }

  /** ALGO 1 in memory. */
  lemma SplitFocus(mem: Mem, head: Ptr, ctx: seq<Frame>, sub: Tree, j: nat,
                   trimRef: Ptr, splitRef: Ptr, postRef: Ptr, mem2: Mem)
    requires Focus(mem, head, ctx, sub) && Shape(sub) && sub.compr && j < |sub.edges|
    requires SplitFresh(|sub.edges|, j, trimRef, splitRef, postRef, mem.Keys)
    requires sub.ref in mem && SplitRecords(mem[sub.ref], j, sub.kids[0].ref, trimRef, splitRef, postRef, mem2)
    requires AgreeOn(mem, mem2, mem.Keys - {sub.ref})
    requires mem2.Keys == mem.Keys - {sub.ref} + {splitRef} + (if j == 0 then {} else {trimRef})
                          + (if j + 1 == |sub.edges| then {} else {postRef})
    ensures var top := SplitTop(sub, j, trimRef, splitRef, postRef);
      Focus(Relink(mem2, LinkOf(ctx), top.ref), RootRef(ctx, top.ref), ctx, top)
    ensures LinkReady(mem2, LinkOf(ctx)) && (ctx != [] ==> head == RootRef(ctx, trimRef))
  {
    hide Focus, Holds, Rep, NoAlias, Refs, KidsRefs, RefsCtx, SplitRecords, Relink;
    FocusRefs(mem, head, ctx, sub);
    SplitHolds(mem, sub, j, trimRef, splitRef, postRef, mem2);
    var top := SplitTop(sub, j, trimRef, splitRef, postRef);
    FinishEdit(mem, head, ctx, sub, mem2, top, SplitRefs(sub, j, trimRef, splitRef, postRef));
  }

  /** The path to the split node. */
  ghost function SplitCtx(ctx: seq<Frame>, h: Tree, j: nat, trimRef: Ptr, splitRef: Ptr, postRef: Ptr): seq<Frame>
    requires Shape(h) && h.compr && j < |h.edges|
  {
    if j == 0 then ctx else ctx + [Frame(SplitTop(h, j, trimRef, splitRef, postRef), 0)]
  }

  /** ALGO 1 as a move of the zipper: the split node comes into focus, every key means what it did. */
  lemma SplitZipper(ctx: seq<Frame>, sub: Tree, j: nat, trimRef: Ptr, splitRef: Ptr, postRef: Ptr)
    requires CtxOK(ctx) && CtxWF(ctx) && WF(sub) && sub.compr && j < |sub.edges|
    ensures var ctx2, sub2 := SplitCtx(ctx, sub, j, trimRef, splitRef, postRef), SplitNode(sub, j, splitRef, postRef);
      && CtxOK(ctx2) && CtxWF(ctx2) && WF(sub2) && SameMeaning(Plug(ctx, sub), Plug(ctx2, sub2))
      && PathKey(ctx2) == PathKey(ctx) + sub.edges[..j]
      && LinkOf(ctx2) == if j == 0 then LinkOf(ctx) else ChildLink(trimRef, 0)
  {
    hide Focus, SameMeaning, CtxWF, Lookup, Plug, PathKey;
    var top := SplitTop(sub, j, trimRef, splitRef, postRef);
    SplitKeepsMeaning(sub, j, trimRef, splitRef, postRef);
    PlugKeepsMeaning(ctx, sub, top);
    SplitWF(sub, j, trimRef, splitRef, postRef);
    if j > 0 {
      EnterKid(ctx, top, 0);
      CtxWFPush(ctx, top, 0);
    } else {
      assert PathKey(ctx) + sub.edges[..0] == PathKey(ctx);
    }
  }

  lemma SplitEnter(mem: Mem, head: Ptr, ctx: seq<Frame>, sub: Tree, j: nat, trimRef: Ptr, splitRef: Ptr, postRef: Ptr)
    requires Shape(sub) && sub.compr && j < |sub.edges|
    requires Focus(mem, head, ctx, SplitTop(sub, j, trimRef, splitRef, postRef))
    ensures Focus(mem, head, SplitCtx(ctx, sub, j, trimRef, splitRef, postRef), SplitNode(sub, j, splitRef, postRef))
  {
    hide Focus;
    if j > 0 { FocusDown(mem, head, ctx, SplitTop(sub, j, trimRef, splitRef, postRef), 0); }
  }

  lemma CtxWFPush(ctx: seq<Frame>, t: Tree, i: nat)
    requires CtxWF(ctx) && WF(t) && i < |t.kids|
    ensures CtxWF(ctx + [Frame(t, i)])
  {
  }

  /** Memory after the allocations of ALGO 2 for the node at `h` with child `next`. */
  ghost predicate CutRecords(mem: Mem, h: Ptr, j: nat, next: Ptr, v: Value, trimRef: Ptr, postRef: Ptr, mem2: Mem) {
    && h in mem && j <= |mem[h].data|
    && trimRef != postRef && trimRef !in mem && postRef !in mem
    && trimRef in mem2 && mem2[trimRef] == TrimmedRec(mem[h], j, postRef)
    && postRef in mem2 && mem2[postRef] == SetData(PostfixRec(mem[h], j, next), v)
    && AgreeOn(mem, mem2, mem.Keys - {h})
    && mem2.Keys == mem.Keys - {h} + {trimRef, postRef}
  }

  method AllocCut(mem: Mem, h: Ptr, j: nat, v: Value) returns (trimRef: Ptr, postRef: Ptr, mem2: Mem)
    requires h in mem && |mem[h].children| == 1 && j <= |mem[h].data|
    ensures CutRecords(mem, h, j, mem[h].children[0], v, trimRef, postRef, mem2)
    ensures |mem2| == |mem| + 1
  {
    var n, m := mem[h], mem;
    postRef, m := Malloc(m, SetData(PostfixRec(n, j, n.children[0]), v));
    trimRef, m := Malloc(m, TrimmedRec(n, j, postRef));
    mem2 := Free(m, h);
  }

  /** Memory after the node at `h` was given record `n`, in place or moved to `q` by realloc. */
  ghost predicate Rewritten(mem: Mem, h: Ptr, n: NodeRec, q: Ptr, mem2: Mem) {
    && (q == h || q !in mem)
    && q in mem2 && mem2[q] == n
    && AgreeOn(mem, mem2, mem.Keys - {h})
    && mem2.Keys == mem.Keys - {h} + {q}
  }

  /** raxReallocForData followed by raxSetData. */
  method StoreData(mem: Mem, h: Ptr, data: Value) returns (q: Ptr, mem2: Mem)
    requires h in mem
    ensures Rewritten(mem, h, SetData(mem[h], data), q, mem2) && |mem2| == |mem|
  {
    var n := mem[h];
    if data != 0 && (!n.iskey || n.isnull) {
      q, mem2 := Realloc(mem, h, SetData(n, data));
    } else {
      q, mem2 := h, mem[h := SetData(n, data)];
    }
  }

  /** ALGO 2 in memory. */
  lemma CutFocus(mem: Mem, head: Ptr, ctx: seq<Frame>, sub: Tree, j: nat, trimRef: Ptr, postRef: Ptr, v: Value, mem2: Mem)
    requires Focus(mem, head, ctx, sub) && Shape(sub) && sub.compr && 0 < j < |sub.edges|
    requires sub.ref in mem && CutRecords(mem, sub.ref, j, sub.kids[0].ref, v, trimRef, postRef, mem2)
    ensures var top := Trimmed(sub, j, trimRef, PostfixOf(sub, j, Some(v), postRef));
      Focus(Relink(mem2, LinkOf(ctx), trimRef), RootRef(ctx, trimRef), ctx, top)
    ensures LinkReady(mem2, LinkOf(ctx)) && (ctx != [] ==> head == RootRef(ctx, trimRef))
  {
    hide Focus, Holds, Rep, NoAlias, Refs, KidsRefs, RefsCtx, Relink;
    FocusRefs(mem, head, ctx, sub);
    CutHolds(mem, sub, j, trimRef, postRef, v, mem2);
    var top := Trimmed(sub, j, trimRef, PostfixOf(sub, j, Some(v), postRef));
    FinishEdit(mem, head, ctx, sub, mem2, top, Refs(sub.kids[0]) + {trimRef, postRef});
  }

  lemma CutWF(h: Tree, j: nat, trimRef: Ptr, postRef: Ptr, v: Value)
    requires WF(h) && h.compr && 0 < j < |h.edges|
    ensures WF(Trimmed(h, j, trimRef, PostfixOf(h, j, Some(v), postRef)))
  {
    var post := PostfixOf(h, j, Some(v), postRef);
    assert WF(post) && !Dead(post);
  }

  /** The node in focus rewritten in place or moved by realloc, with the same children. */
  lemma RewriteFocus(mem: Mem, head: Ptr, ctx: seq<Frame>, sub: Tree, mem2: Mem, sub2: Tree)
    requires Focus(mem, head, ctx, sub)
    requires sub2.kids == sub.kids && sub2.ref in mem2 && Matches(mem2[sub2.ref], sub2)
    requires Rewritten(mem, sub.ref, mem2[sub2.ref], sub2.ref, mem2)
    ensures Focus(Relink(mem2, LinkOf(ctx), sub2.ref), RootRef(ctx, sub2.ref), ctx, sub2)
    ensures LinkReady(mem2, LinkOf(ctx)) && (ctx != [] ==> head == RootRef(ctx, sub2.ref))
  {
    hide Focus, Holds, Rep, NoAlias, Refs, KidsRefs, RefsCtx, Relink;
    FocusRefs(mem, head, ctx, sub);
    RewriteNode(mem, sub, mem2, sub2);
    FinishEdit(mem, head, ctx, sub, mem2, sub2, {sub2.ref} + KidsRefs(sub));
  }

  /** Memory with a fresh empty node `child`, and the node at `h` given record `n` at `q`. */
  ghost predicate Grown(mem: Mem, h: Ptr, child: Ptr, n: NodeRec, q: Ptr, mem2: Mem) {
    && q != child && child !in mem && (q == h || q !in mem)
    && child in mem2 && mem2[child] == EMPTY_NODE
    && q in mem2 && mem2[q] == n
    && AgreeOn(mem, mem2, mem.Keys - {h})
    && mem2.Keys == mem.Keys - {h} + {q, child}
  }

  /** raxAddChild */
  method AllocAddChild(mem: Mem, h: Ptr, c: byte) returns (child: Ptr, q: Ptr, mem2: Mem)
    requires h in mem && |mem[h].data| == |mem[h].children|
    ensures Grown(mem, h, child, AddChildRec(mem[h], c, child), q, mem2) && |mem2| == |mem| + 1
  {
    var m;
    child, m := Malloc(mem, EMPTY_NODE);
    q, mem2 := Realloc(m, h, AddChildRec(mem[h], c, child));
  }

  /** raxCompressNode */
  method AllocCompress(mem: Mem, h: Ptr, s: seq<byte>) returns (child: Ptr, q: Ptr, mem2: Mem)
    requires h in mem
    ensures Grown(mem, h, child, mem[h].(iscompr := true, data := s, children := [child]), q, mem2)
    ensures |mem2| == |mem| + 1
  {
    var m;
    child, m := Malloc(mem, EMPTY_NODE);
    q, mem2 := Realloc(m, h, mem[h].(iscompr := true, data := s, children := [child]));
  }

  lemma AddChildFocus(mem: Mem, head: Ptr, ctx: seq<Frame>, sub: Tree, c: byte, child: Ptr, q: Ptr, mem2: Mem)
    requires Focus(mem, head, ctx, sub) && Shape(sub) && !sub.compr && c !in sub.edges
    requires sub.ref in mem && |mem[sub.ref].data| == |mem[sub.ref].children|
    requires Grown(mem, sub.ref, child, AddChildRec(mem[sub.ref], c, child), q, mem2)
    ensures Focus(Relink(mem2, LinkOf(ctx), q), RootRef(ctx, q), ctx, AddChild(sub, c, Leaf(child)).(ref := q))
    ensures LinkReady(mem2, LinkOf(ctx)) && (ctx != [] ==> head == RootRef(ctx, q))
  {
    hide Focus, Holds, Rep, NoAlias, Refs, KidsRefs, RefsCtx, Relink;
    FocusRefs(mem, head, ctx, sub);
    AddChildHolds(mem, sub, c, child, q, mem2);
    FinishEdit(mem, head, ctx, sub, mem2, AddChild(sub, c, Leaf(child)).(ref := q), KidsRefs(sub) + {q, child});
  }

  lemma CompressFocus(mem: Mem, head: Ptr, ctx: seq<Frame>, sub: Tree, s: seq<byte>, child: Ptr, q: Ptr, mem2: Mem)
    requires Focus(mem, head, ctx, sub) && sub.kids == []
    requires sub.ref in mem
    requires Grown(mem, sub.ref, child, mem[sub.ref].(iscompr := true, data := s, children := [child]), q, mem2)
    ensures Focus(Relink(mem2, LinkOf(ctx), q), RootRef(ctx, q), ctx, Compressed(sub, s, Leaf(child)).(ref := q))
    ensures LinkReady(mem2, LinkOf(ctx)) && (ctx != [] ==> head == RootRef(ctx, q))
  {
    hide Focus, Holds, Rep, NoAlias, Refs, RefsCtx, Relink;
    FocusRefs(mem, head, ctx, sub);
    CompressHolds(mem, sub, s, child, q, mem2);
    FinishEdit(mem, head, ctx, sub, mem2, Compressed(sub, s, Leaf(child)).(ref := q), {q, child});
  }

  /** Entering the fresh leaf an insertion step has just hung below the node in focus. */
  lemma GrowZipper(ctx: seq<Frame>, sub: Tree, sub2: Tree, k: nat)
    requires CtxOK(ctx) && CtxWF(ctx) && Shape(sub2) && SameMeaning(sub, sub2) && k < |sub2.kids|
    requires forall i :: 0 <= i < |sub2.kids| && i != k ==> WF(sub2.kids[i]) && !Dead(sub2.kids[i])
    ensures CtxOK(ctx + [Frame(sub2, k)]) && CtxWF(ctx + [Frame(sub2, k)])
    ensures SameMeaning(Plug(ctx, sub), Plug(ctx + [Frame(sub2, k)], sub2.kids[k]))
    ensures PathKey(ctx + [Frame(sub2, k)]) == PathKey(ctx) + Edge(sub2, k)
  {
    hide Lookup;
    PlugKeepsMeaning(ctx, sub, sub2);
    EnterKid(ctx, sub2, k);
  }
}
