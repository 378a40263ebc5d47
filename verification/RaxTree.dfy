/**
 The radix tree of rax.c as a value.

 A node keeps either one edge byte per child (sorted, not compressed) or a whole
 string leading to its only child (compressed). `ref` is the address the node lives
 at; it plays no part in what a tree means and is used by `RaxMemory`.

 A place inside a tree is a zipper: the stack of parent frames (outermost first, as
 raxLowWalk pushes them) and the subtree hanging below the last frame.
 */
module RaxTree {
  import opened Basics

  type Key = seq<byte>
  type Ptr = nat
  /** A `void *` stored with a key; 0 is NULL. */
  type Value = nat

  const RAX_NODE_MAX_SIZE: nat := 0x1FFF_FFFF

  datatype Tree = Node(ref: Ptr, slot: Option<Value>, compr: bool, edges: seq<byte>, kids: seq<Tree>)

  predicate Sorted(s: seq<byte>) {
    forall i, j :: 0 <= i < j < |s| ==> s[i] < s[j]
  }

  /** The layout rule of one node (rax.h): compressed nodes have one child and at least two bytes. */
  predicate Shape(t: Tree) {
    if t.compr then 2 <= |t.edges| <= RAX_NODE_MAX_SIZE && |t.kids| == 1
    else |t.kids| == |t.edges| && Sorted(t.edges)
  }

  /** A childless node that is not a key: only the head of an empty tree may be one. */
  predicate Dead(t: Tree) {
    t.kids == [] && t.slot.None?
  }

  predicate WF(t: Tree) {
    && Shape(t)
    && forall i :: 0 <= i < |t.kids| ==> WF(t.kids[i]) && !Dead(t.kids[i])
  }

  /** The first position of `b`, or the length when it does not occur. */
  function IndexOf(s: seq<byte>, b: byte): (i: nat)
    ensures i <= |s|
    ensures i < |s| ==> s[i] == b
    ensures forall j :: 0 <= j < i ==> s[j] != b
  {
    if s == [] then 0 else if s[0] == b then 0 else 1 + IndexOf(s[1..], b)
  }

  lemma IndexOfSorted(s: seq<byte>, i: nat)
    requires Sorted(s) && i < |s|
    ensures IndexOf(s, s[i]) == i
  {
    var k := IndexOf(s, s[i]);
    assert k <= i;
    assert forall j :: 0 <= j < i ==> s[j] < s[i];
  }

  /** What a tree means: the value stored at every byte string. */
  function Lookup(t: Tree, s: Key): Option<Value> {
    if s == [] then t.slot
    else if t.compr then
      if |t.kids| > 0 && t.edges <= s then Lookup(t.kids[0], s[|t.edges|..]) else None
    else
      var i := IndexOf(t.edges, s[0]);
      if i < |t.edges| && i < |t.kids| then Lookup(t.kids[i], s[1..]) else None
  }

  ghost predicate SameMeaning(a: Tree, b: Tree) {
    forall s :: Lookup(a, s) == Lookup(b, s)
  }

  // ---------------------------------------------------------------- zippers

  /** A parent node `t` entered through child `i`; the stored `t.kids[i]` may be out of date. */
  datatype Frame = Frame(t: Tree, i: nat)

  predicate FrameOK(f: Frame) {
    Shape(f.t) && f.i < |f.t.kids|
  }

  predicate CtxOK(ctx: seq<Frame>) {
    forall k :: 0 <= k < |ctx| ==> FrameOK(ctx[k])
  }

  /** The bytes on the way from a node to its child `i`. */
  function Edge(t: Tree, i: nat): seq<byte>
    requires Shape(t) && i < |t.kids|
  {
    if t.compr then t.edges else [t.edges[i]]
  }

  function WithKid(f: Frame, sub: Tree): (t: Tree)
    requires FrameOK(f)
    ensures Shape(t)
  {
    f.t.(kids := f.t.kids[f.i := sub])
  }

  function Init<T>(s: seq<T>): seq<T>
    requires s != []
  {
    s[..|s| - 1]
  }

  function Last<T>(s: seq<T>): T
    requires s != []
  {
    s[|s| - 1]
  }

  function Plug(ctx: seq<Frame>, sub: Tree): Tree
    requires CtxOK(ctx)
    decreases |ctx|
  {
    if ctx == [] then sub else Plug(Init(ctx), WithKid(Last(ctx), sub))
  }

  function PathKey(ctx: seq<Frame>): Key
    requires CtxOK(ctx)
    decreases |ctx|
  {
    if ctx == [] then [] else PathKey(Init(ctx)) + Edge(Last(ctx).t, Last(ctx).i)
  }

  lemma PushFrame(ctx: seq<Frame>, f: Frame, sub: Tree)
    requires CtxOK(ctx) && FrameOK(f)
    ensures CtxOK(ctx + [f])
    ensures Plug(ctx + [f], sub) == Plug(ctx, WithKid(f, sub))
    ensures PathKey(ctx + [f]) == PathKey(ctx) + Edge(f.t, f.i)
  {
    assert Init(ctx + [f]) == ctx;
  }

  /** Entering child `i` of the subtree in focus does not change the tree. */
  lemma EnterKid(ctx: seq<Frame>, t: Tree, i: nat)
    requires CtxOK(ctx) && Shape(t) && i < |t.kids|
    ensures CtxOK(ctx + [Frame(t, i)])
    ensures Plug(ctx + [Frame(t, i)], t.kids[i]) == Plug(ctx, t)
    ensures PathKey(ctx + [Frame(t, i)]) == PathKey(ctx) + Edge(t, i)
  {
    PushFrame(ctx, Frame(t, i), t.kids[i]);
    assert t.kids[i := t.kids[i]] == t.kids;
  }

  /** No frame is out of date: each parent still holds the next node of the path. */
  predicate Linked(ctx: seq<Frame>, sub: Tree)
    requires CtxOK(ctx)
    decreases |ctx|
  {
    ctx != [] ==> Last(ctx).t.kids[Last(ctx).i] == sub && Linked(Init(ctx), Last(ctx).t)
  }

  lemma LinkedUp(ctx: seq<Frame>, sub: Tree)
    requires CtxOK(ctx) && Linked(ctx, sub) && ctx != []
    ensures WithKid(Last(ctx), sub) == Last(ctx).t && Linked(Init(ctx), Last(ctx).t)
    ensures Plug(Init(ctx), Last(ctx).t) == Plug(ctx, sub)
    ensures PathKey(ctx) == PathKey(Init(ctx)) + Edge(Last(ctx).t, Last(ctx).i)
  {
    var f := Last(ctx);
    assert f.t.kids[f.i := sub] == f.t.kids;
  }

  lemma LinkedDown(ctx: seq<Frame>, t: Tree, i: nat)
    requires CtxOK(ctx) && Linked(ctx, t) && Shape(t) && i < |t.kids|
    ensures CtxOK(ctx + [Frame(t, i)]) && Linked(ctx + [Frame(t, i)], t.kids[i])
  {
    assert Init(ctx + [Frame(t, i)]) == ctx;
  }

  lemma LookupWithKid(f: Frame, sub: Tree, r: Key)
    requires FrameOK(f)
    ensures Lookup(WithKid(f, sub), Edge(f.t, f.i) + r) == Lookup(sub, r)
  {
    var s := Edge(f.t, f.i) + r;
    assert s[|Edge(f.t, f.i)|..] == r;
    if !f.t.compr { IndexOfSorted(f.t.edges, f.i); }
  }

  lemma LookupWithKidElsewhere(f: Frame, a: Tree, b: Tree, r: Key)
    requires FrameOK(f)
    requires !(Edge(f.t, f.i) <= r)
    ensures Lookup(WithKid(f, a), r) == Lookup(WithKid(f, b), r)
  {
    var e := Edge(f.t, f.i);
    assert r != [] && !f.t.compr && r[0] == f.t.edges[f.i] ==> e <= r;
  }

  /** Below the path of a zipper the tree means what the subtree in focus means. */
  lemma {:induction false} LookupPlug(ctx: seq<Frame>, sub: Tree, r: Key)
    requires CtxOK(ctx)
    ensures Lookup(Plug(ctx, sub), PathKey(ctx) + r) == Lookup(sub, r)
    decreases |ctx|
  {
    if ctx == [] {
      assert PathKey(ctx) + r == r;
    } else {
      var f := Last(ctx);
      var e := Edge(f.t, f.i);
      calc {
        Lookup(Plug(ctx, sub), PathKey(ctx) + r);
        { assert PathKey(ctx) + r == PathKey(Init(ctx)) + (e + r); }
        Lookup(Plug(Init(ctx), WithKid(f, sub)), PathKey(Init(ctx)) + (e + r));
        { LookupPlug(Init(ctx), WithKid(f, sub), e + r); }
        Lookup(WithKid(f, sub), e + r);
        { LookupWithKid(f, sub, r); }
        Lookup(sub, r);
      }
    }
  }

  /** Away from the path of a zipper the subtree in focus does not matter. */
  lemma {:induction false} LookupElsewhere(ctx: seq<Frame>, a: Tree, b: Tree, s: Key)
    requires CtxOK(ctx)
    requires !(PathKey(ctx) <= s)
    ensures Lookup(Plug(ctx, a), s) == Lookup(Plug(ctx, b), s)
    decreases |ctx|
  {
    var f := Last(ctx);
    var p := PathKey(Init(ctx));
    if p <= s {
      var r := s[|p|..];
      assert s == p + r;
      var e, path := Edge(f.t, f.i), PathKey(ctx);
      assert e <= r ==> path <= s;
      LookupWithKidElsewhere(f, a, b, r);
      LookupPlug(Init(ctx), WithKid(f, a), r);
      LookupPlug(Init(ctx), WithKid(f, b), r);
    } else {
      LookupElsewhere(Init(ctx), WithKid(f, a), WithKid(f, b), s);
    }
  }

  /** Replacing the subtree in focus: the exact effect on every key. */
  lemma SwapSubtree(ctx: seq<Frame>, a: Tree, b: Tree, s: Key)
    requires CtxOK(ctx)
    ensures Lookup(Plug(ctx, b), s) ==
            if PathKey(ctx) <= s then Lookup(b, s[|PathKey(ctx)|..]) else Lookup(Plug(ctx, a), s)
  {
    var p := PathKey(ctx);
    if p <= s {
      assert s == p + s[|p|..];
      LookupPlug(ctx, b, s[|p|..]);
    } else {
      LookupElsewhere(ctx, a, b, s);
    }
  }

  /** Edits that keep the meaning of a subtree keep the meaning of the whole tree. */
  lemma PlugKeepsMeaning(ctx: seq<Frame>, a: Tree, b: Tree)
    requires CtxOK(ctx) && SameMeaning(a, b)
    ensures SameMeaning(Plug(ctx, a), Plug(ctx, b))
  {
    forall s ensures Lookup(Plug(ctx, a), s) == Lookup(Plug(ctx, b), s) {
      SwapSubtree(ctx, a, b, s);
      SwapSubtree(ctx, a, a, s);
    }
  }

  /** Changing only the slot of the node in focus changes exactly the key it stands for. */
  lemma SetSlotMeaning(ctx: seq<Frame>, sub: Tree, v: Option<Value>, s: Key)
    requires CtxOK(ctx)
    ensures Lookup(Plug(ctx, sub.(slot := v)), s) ==
            if s == PathKey(ctx) then v else Lookup(Plug(ctx, sub), s)
  {
    SwapSubtree(ctx, sub, sub.(slot := v), s);
    SwapSubtree(ctx, sub, sub, s);
  }

  // ------------------------------------------------- the invariant on zippers

  ghost predicate FrameWF(f: Frame) {
    && FrameOK(f)
    && forall j :: 0 <= j < |f.t.kids| && j != f.i ==> WF(f.t.kids[j]) && !Dead(f.t.kids[j])
  }

  ghost predicate CtxWF(ctx: seq<Frame>) {
    forall k :: 0 <= k < |ctx| ==> FrameWF(ctx[k])
  }

  lemma {:induction false} PlugWF(ctx: seq<Frame>, sub: Tree)
    requires CtxWF(ctx) && WF(sub)
    requires ctx != [] ==> !Dead(sub)
    ensures WF(Plug(ctx, sub))
    decreases |ctx|
  {
    if ctx != [] {
      assert FrameWF(Last(ctx));
      assert WF(WithKid(Last(ctx), sub));
      PlugWF(Init(ctx), WithKid(Last(ctx), sub));
    }
  }

  /** Every live subtree holds at least one key. */
  lemma {:induction false} LiveHasKey(t: Tree) returns (s: Key)
    requires WF(t) && !Dead(t)
    ensures Lookup(t, s).Some?
    decreases t
  {
    if t.slot.Some? {
      s := [];
    } else {
      var r := LiveHasKey(t.kids[0]);
      s := Edge(t, 0) + r;
      LookupWithKid(Frame(t, 0), t.kids[0], r);
      assert t.kids[0 := t.kids[0]] == t.kids;
    }
  }

  // ------------------------------------------------------- insertion edits

  /**
   ALGO 1 of raxGenericInsert: the compressed node `h` is cut before byte `j`. The result is the
   split node alone when `j` is 0, otherwise the trimmed node above it; the postfix node keeps what
   follows byte `j`, and is the old child itself when nothing does.
   */
  function PostfixOf(h: Tree, from: nat, slot: Option<Value>, ref: Ptr): Tree
    requires Shape(h) && h.compr && from <= |h.edges|
  {
    if from == |h.edges| then h.kids[0]
    else Node(ref, slot, |h.edges| - from > 1, h.edges[from..], h.kids)
  }

  function SplitNode(h: Tree, j: nat, splitRef: Ptr, postRef: Ptr): Tree
    requires Shape(h) && h.compr && j < |h.edges|
  {
    Node(splitRef, if j == 0 then h.slot else None, false, [h.edges[j]], [PostfixOf(h, j + 1, None, postRef)])
  }

  function Trimmed(h: Tree, j: nat, ref: Ptr, kid: Tree): Tree
    requires Shape(h) && h.compr && 0 < j < |h.edges|
  {
    Node(ref, h.slot, j > 1, h.edges[..j], [kid])
  }

  lemma PostfixMeaning(h: Tree, from: nat, slot: Option<Value>, ref: Ptr, r: Key)
    requires Shape(h) && h.compr && 0 < from <= |h.edges|
    ensures from < |h.edges| || slot.None? ==>
      Lookup(PostfixOf(h, from, slot, ref), r) ==
        if r == [] && from < |h.edges| then slot else Lookup(h, h.edges[..from] + r)
    ensures Shape(h.kids[0]) ==> Shape(PostfixOf(h, from, slot, ref))
  {
    var s := h.edges[..from] + r;
    if h.edges <= s {
      assert r[..|h.edges| - from] == h.edges[from..] by {
        assert s[from..] == r;
        assert s[..|h.edges|] == h.edges;
        assert s[..|h.edges|][from..] == r[..|h.edges| - from];
      }
      assert s[|h.edges|..] == r[|h.edges| - from..];
    } else {
      assert h.edges == h.edges[..from] + h.edges[from..];
      assert h.edges[from..] <= r ==> h.edges <= s;
    }
    if from == |h.edges| { assert h.edges[..from] == h.edges; assert s[from..] == r; }
  }

  lemma SplitMeaning(h: Tree, j: nat, splitRef: Ptr, postRef: Ptr, r: Key)
    requires Shape(h) && h.compr && j < |h.edges|
    ensures Lookup(SplitNode(h, j, splitRef, postRef), r) ==
      if r == [] && j > 0 then None else Lookup(h, h.edges[..j] + r)
  {
    var s := h.edges[..j] + r;
    if r == [] {
      assert j == 0 ==> s == [];
    } else if r[0] == h.edges[j] {
      PostfixMeaning(h, j + 1, None, postRef, r[1..]);
      assert s == h.edges[..j + 1] + r[1..];
      assert IndexOf([h.edges[j]], r[0]) == 0;
    } else {
      assert s[j] != h.edges[j];
    }
  }

  lemma TrimmedMeaning(h: Tree, j: nat, ref: Ptr, kid: Tree, s: Key)
    requires Shape(h) && h.compr && 0 < j < |h.edges|
    ensures Shape(Trimmed(h, j, ref, kid))
    ensures Lookup(Trimmed(h, j, ref, kid), s) ==
      if s == [] then h.slot else if h.edges[..j] <= s then Lookup(kid, s[j..]) else None
    ensures s != [] && !(h.edges[..j] <= s) ==> Lookup(h, s).None?
  {
    if s != [] && h.edges <= s {
      assert h.edges[..j] == s[..j];
    }
    if s != [] && j == 1 {
      assert h.edges[..1] <= s <==> s[0] == h.edges[0];
    }
  }

  /** Cutting a compressed node (cases 1 to 4 of the source) keeps the meaning of every key. */
  lemma SplitKeepsMeaning(h: Tree, j: nat, trimRef: Ptr, splitRef: Ptr, postRef: Ptr)
    requires Shape(h) && h.compr && j < |h.edges|
    ensures var split := SplitNode(h, j, splitRef, postRef);
      SameMeaning(h, if j == 0 then split else Trimmed(h, j, trimRef, split))
  {
    var split := SplitNode(h, j, splitRef, postRef);
    forall s ensures Lookup(h, s) == Lookup(if j == 0 then split else Trimmed(h, j, trimRef, split), s) {
      if j == 0 {
        SplitMeaning(h, 0, splitRef, postRef, s);
        assert h.edges[..0] + s == s;
      } else {
        TrimmedMeaning(h, j, trimRef, split, s);
        if s != [] && h.edges[..j] <= s {
          SplitMeaning(h, j, splitRef, postRef, s[j..]);
          assert s == h.edges[..j] + s[j..];
          if s[j..] == [] { assert s == h.edges[..j]; }
        }
      }
    }
  }

  /** Case 5 (ALGO 2): the key ends inside a compressed node, which is cut with the value in the postfix. */
  lemma CutAtKeyMeaning(h: Tree, j: nat, trimRef: Ptr, postRef: Ptr, v: Value, s: Key)
    requires Shape(h) && h.compr && 0 < j < |h.edges|
    ensures Lookup(Trimmed(h, j, trimRef, PostfixOf(h, j, Some(v), postRef)), s) ==
      if s == h.edges[..j] then Some(v) else Lookup(h, s)
  {
    var post := PostfixOf(h, j, Some(v), postRef);
    TrimmedMeaning(h, j, trimRef, post, s);
    if s != [] && h.edges[..j] <= s {
      PostfixMeaning(h, j, Some(v), postRef, s[j..]);
      assert s == h.edges[..j] + s[j..];
    }
  }

  /** The position raxAddChild inserts a new edge at: before the first larger byte. */
  function InsertPos(s: seq<byte>, c: byte): (pos: nat)
    ensures pos <= |s|
    ensures forall k :: 0 <= k < pos ==> s[k] <= c
    ensures pos < |s| ==> s[pos] > c
  {
    if s == [] || s[0] > c then 0 else 1 + InsertPos(s[1..], c)
  }

  function InsertAt<T>(s: seq<T>, pos: nat, x: T): (r: seq<T>)
    requires pos <= |s|
    ensures |r| == |s| + 1 && r[pos] == x
    ensures forall k :: 0 <= k < pos ==> r[k] == s[k]
    ensures forall k :: pos <= k < |s| ==> r[k + 1] == s[k]
    ensures forall k :: pos < k < |r| ==> r[k] == s[k - 1]
  {
    s[..pos] + [x] + s[pos..]
  }

  function AddChild(h: Tree, c: byte, child: Tree): Tree
    requires Shape(h) && !h.compr
  {
    var pos := InsertPos(h.edges, c);
    h.(edges := InsertAt(h.edges, pos, c), kids := InsertAt(h.kids, pos, child))
  }

  lemma InsertSorted(s: seq<byte>, c: byte)
    requires Sorted(s) && c !in s
    ensures Sorted(InsertAt(s, InsertPos(s, c), c))
  {
    var pos := InsertPos(s, c);
    assert forall k :: 0 <= k < pos ==> s[k] < c;
    assert forall k :: pos <= k < |s| ==> s[pos] <= s[k];
    SortedAround(s[..pos], c, s[pos..]);
  }

  lemma SortedAround(a: seq<byte>, c: byte, b: seq<byte>)
    requires Sorted(a) && Sorted(b) && (forall k :: 0 <= k < |a| ==> a[k] < c) && (forall k :: 0 <= k < |b| ==> c < b[k])
    ensures Sorted(a + [c] + b)
  {
  }

  /** Looking up in a plain node, by the edge of the first byte. */
  lemma LookupPlain(t: Tree, s: Key)
    requires Shape(t) && !t.compr
    ensures s == [] ==> Lookup(t, s) == t.slot
    ensures forall i :: s != [] && 0 <= i < |t.edges| && t.edges[i] == s[0] ==> Lookup(t, s) == Lookup(t.kids[i], s[1..])
    ensures s != [] && s[0] !in t.edges ==> Lookup(t, s).None?
  {
    forall i | s != [] && 0 <= i < |t.edges| && t.edges[i] == s[0]
      ensures Lookup(t, s) == Lookup(t.kids[i], s[1..])
    {
      IndexOfSorted(t.edges, i);
    }
  }

  /** The edges after adding one, with the child each leads to. */
  lemma AddChildEdges(h: Tree, c: byte, child: Tree, i: nat)
    requires Shape(h) && !h.compr && c !in h.edges
    ensures var n := AddChild(h, c, child);
      var pos := InsertPos(h.edges, c);
      && Shape(n) && !n.compr && n.slot == h.slot && n.edges[pos] == c && n.kids[pos] == child
      && (i < |h.edges| ==> var k := if i < pos then i else i + 1; n.edges[k] == h.edges[i] && n.kids[k] == h.kids[i])
  {
    InsertSorted(h.edges, c);
  }

  lemma InsertMembers(s: seq<byte>, pos: nat, c: byte, b: byte)
    requires pos <= |s|
    ensures b in InsertAt(s, pos, c) <==> b == c || b in s
  {
    assert s == s[..pos] + s[pos..];
  }

  lemma AddChildMeaning(h: Tree, c: byte, child: Tree, s: Key)
    requires Shape(h) && !h.compr && c !in h.edges
    ensures Shape(AddChild(h, c, child))
    ensures Lookup(AddChild(h, c, child), s) ==
      if s != [] && s[0] == c then Lookup(child, s[1..]) else Lookup(h, s)
  {
    var n := AddChild(h, c, child);
    assert s != [] ==> (s[0] in n.edges <==> s[0] == c || s[0] in h.edges) by {
      if s != [] { InsertMembers(h.edges, InsertPos(h.edges, c), c, s[0]); }
    }
    hide Lookup, AddChild;
    AddChildEdges(h, c, child, if s == [] then 0 else IndexOf(h.edges, s[0]));
    LookupPlain(h, s);
    LookupPlain(n, s);
  }

  /** Hanging a fresh dead leaf keeps the meaning: the key only appears when its slot is set. */
  lemma AddLeafKeepsMeaning(h: Tree, c: byte, leaf: Tree)
    requires Shape(h) && !h.compr && c !in h.edges
    requires Dead(leaf) && Shape(leaf)
    ensures Shape(AddChild(h, c, leaf)) && SameMeaning(h, AddChild(h, c, leaf))
  {
    forall s ensures Lookup(h, s) == Lookup(AddChild(h, c, leaf), s) {
      AddChildMeaning(h, c, leaf, s);
      if s != [] && s[0] == c { assert IndexOf(h.edges, c) == |h.edges|; DeadMeaning(leaf, s[1..]); }
    }
    AddChildMeaning(h, c, leaf, []);
  }

  lemma DeadMeaning(t: Tree, s: Key)
    requires Shape(t) && Dead(t)
    ensures Lookup(t, s).None?
  {
  }

  /** raxCompressNode: a childless node becomes a compressed one above a fresh dead leaf. */
  function Compressed(h: Tree, s: seq<byte>, leaf: Tree): Tree {
    h.(compr := true, edges := s, kids := [leaf])
  }

  lemma CompressKeepsMeaning(h: Tree, s: seq<byte>, leaf: Tree)
    requires Shape(h) && h.kids == [] && 2 <= |s| <= RAX_NODE_MAX_SIZE
    requires Dead(leaf) && Shape(leaf)
    ensures Shape(Compressed(h, s, leaf)) && SameMeaning(h, Compressed(h, s, leaf))
  {
    forall r ensures Lookup(h, r) == Lookup(Compressed(h, s, leaf), r) {
      if r != [] && s <= r { DeadMeaning(leaf, r[|s|..]); }
    }
  }

  // --------------------------------------------------------- removal edits

  function RemoveAt<T>(s: seq<T>, k: nat): (r: seq<T>)
    requires k < |s|
    ensures |r| == |s| - 1
    ensures forall i :: 0 <= i < k ==> r[i] == s[i]
    ensures forall i :: k <= i < |r| ==> r[i] == s[i + 1]
  {
    s[..k] + s[k + 1..]
  }

  /** raxRemoveChild: a compressed parent becomes childless, another one loses edge and child `k`. */
  function RemoveChild(h: Tree, k: nat): Tree
    requires Shape(h) && k < |h.kids|
  {
    if h.compr then h.(compr := false, edges := [], kids := [])
    else h.(edges := RemoveAt(h.edges, k), kids := RemoveAt(h.kids, k))
  }

  /** A subtree that stores nothing. */
  ghost predicate Barren(t: Tree) {
    forall s :: Lookup(t, s).None?
  }

  /** The edges after removing one, with the child each leads to. */
  lemma RemoveChildEdges(h: Tree, k: nat, i: nat)
    requires Shape(h) && k < |h.kids| && !h.compr
    ensures var n := RemoveChild(h, k);
      && Shape(n) && !n.compr && n.slot == h.slot && h.edges[k] !in n.edges
      && (i < |h.edges| && i != k ==> var m := if i < k then i else i - 1; n.edges[m] == h.edges[i] && n.kids[m] == h.kids[i])
  {
  }

  lemma RemoveMembers(s: seq<byte>, k: nat, b: byte)
    requires k < |s|
    ensures b in RemoveAt(s, k) ==> b in s
  {
  }

  lemma RemoveChildMeaning(h: Tree, k: nat, dead: Tree, s: Key)
    requires Shape(h) && k < |h.kids| && Barren(dead)
    ensures Shape(RemoveChild(h, k))
    ensures Lookup(RemoveChild(h, k), s) == Lookup(WithKid(Frame(h, k), dead), s)
  {
    var n := RemoveChild(h, k);
    var was := WithKid(Frame(h, k), dead);
    if h.compr {
      if s != [] && was.edges <= s { assert Lookup(dead, s[|was.edges|..]).None?; }
    } else {
      if s != [] { RemoveMembers(h.edges, k, s[0]); }
      assert n.edges == RemoveAt(h.edges, k);
      hide Lookup, RemoveChild;
      RemoveChildEdges(h, k, if s == [] then 0 else IndexOf(h.edges, s[0]));
      LookupPlain(was, s);
      LookupPlain(n, s);
    }
  }

  /** Unlinking a child that stores nothing keeps the meaning of every key. */
  lemma RemoveBarrenChild(h: Tree, k: nat, dead: Tree)
    requires Shape(h) && k < |h.kids| && Barren(dead)
    ensures Shape(RemoveChild(h, k))
    ensures SameMeaning(WithKid(Frame(h, k), dead), RemoveChild(h, k))
  {
    forall s ensures Lookup(WithKid(Frame(h, k), dead), s) == Lookup(RemoveChild(h, k), s) {
      RemoveChildMeaning(h, k, dead, s);
    }
    RemoveChildMeaning(h, k, dead, []);
  }

  /** A node that only leads to its single child: not a key, compressed or with one edge. */
  predicate PassThrough(t: Tree) {
    t.slot.None? && (t.compr || |t.edges| == 1)
  }

  lemma BarrenAbove(t: Tree, dead: Tree)
    requires Shape(t) && PassThrough(t) && Barren(dead)
    ensures Barren(WithKid(Frame(t, 0), dead))
  {
    var n := WithKid(Frame(t, 0), dead);
    forall s ensures Lookup(n, s).None? {
      if s != [] {
        assert |t.edges| <= |s| ==> Lookup(dead, s[|t.edges|..]).None?;
      }
    }
  }

  // ---------------------------------------------------------- recompression

  /** The bytes along a chain of pass-through nodes, and the first node below it. */
  function ChainBytes(t: Tree): seq<byte>
    requires WF(t)
    decreases t
  {
    if PassThrough(t) then t.edges + ChainBytes(t.kids[0]) else []
  }

  function ChainEnd(t: Tree): Tree
    requires WF(t)
    decreases t
  {
    if PassThrough(t) then ChainEnd(t.kids[0]) else t
  }

  function ChainLen(t: Tree): nat
    requires WF(t)
    decreases t
  {
    if PassThrough(t) then 1 + ChainLen(t.kids[0]) else 0
  }

  lemma {:induction false} ChainMeaning(t: Tree, r: Key)
    requires WF(t)
    ensures Lookup(t, ChainBytes(t) + r) == Lookup(ChainEnd(t), r)
    decreases t
  {
    hide Lookup;
    if PassThrough(t) {
      ChainMeaning(t.kids[0], r);
      ChainStep(t, ChainBytes(t.kids[0]) + r);
      assert ChainBytes(t) + r == t.edges + (ChainBytes(t.kids[0]) + r);
    } else {
      assert ChainBytes(t) + r == r;
    }
  }

  lemma ChainStep(t: Tree, s: Key)
    requires Shape(t) && PassThrough(t) && |t.kids| == 1
    ensures Lookup(t, t.edges + s) == Lookup(t.kids[0], s)
  {
    hide Lookup;
    assert t.kids[0 := t.kids[0]] == t.kids;
    LookupWithKid(Frame(t, 0), t.kids[0], s);
    assert Edge(t, 0) == t.edges;
  }

  lemma {:induction false} ChainElsewhere(t: Tree, s: Key)
    requires WF(t) && !(ChainBytes(t) <= s)
    ensures Lookup(t, s).None?
    decreases t
  {
    var k := t.kids[0];
    if s != [] && t.edges <= s {
      var r := s[|t.edges|..];
      assert s == t.edges + r;
      var below, whole := ChainBytes(k), ChainBytes(t);
      assert below <= r ==> whole <= s;
      ChainElsewhere(k, r);
      assert t.kids[0 := k] == t.kids;
      LookupWithKid(Frame(t, 0), k, r);
      assert Edge(t, 0) == t.edges;
    } else if s != [] && !t.compr {
      assert t.edges == [t.edges[0]];
    }
  }

  lemma {:induction false} ChainFacts(t: Tree)
    requires WF(t)
    ensures ChainLen(t) <= |ChainBytes(t)|
    ensures WF(ChainEnd(t)) && !PassThrough(ChainEnd(t))
    ensures !Dead(t) ==> !Dead(ChainEnd(t))
    decreases t
  {
    if PassThrough(t) {
      ChainFacts(t.kids[0]);
    }
  }

  /** The node recompression puts in place of a chain of at least two nodes. */
  function Merged(t: Tree, ref: Ptr): Tree
    requires WF(t)
  {
    Node(ref, None, true, ChainBytes(t), [ChainEnd(t)])
  }

  /** Recompression keeps the meaning of every key and the shape of the tree. */
  lemma MergeKeepsMeaning(t: Tree, ref: Ptr)
    requires WF(t) && ChainLen(t) > 1 && |ChainBytes(t)| <= RAX_NODE_MAX_SIZE && !Dead(t)
    ensures WF(Merged(t, ref)) && SameMeaning(t, Merged(t, ref))
  {
    ChainFacts(t);
    forall s ensures Lookup(t, s) == Lookup(Merged(t, ref), s) {
      if ChainBytes(t) <= s {
        var r := s[|ChainBytes(t)|..];
        assert s == ChainBytes(t) + r;
        ChainMeaning(t, r);
      } else {
        ChainElsewhere(t, s);
      }
    }
  }

  /** Every chain is part of the path to some key, so it is no longer than that key. */
  lemma ChainInsideKey(ctx: seq<Frame>, t: Tree) returns (s: Key)
    requires CtxOK(ctx) && WF(t) && !Dead(t)
    ensures Lookup(Plug(ctx, t), s).Some?
    ensures |ChainBytes(t)| <= |s|
  {
    ChainFacts(t);
    var r := LiveHasKey(ChainEnd(t));
    ChainMeaning(t, r);
    LookupPlug(ctx, t, ChainBytes(t) + r);
    s := PathKey(ctx) + (ChainBytes(t) + r);
  }
}
