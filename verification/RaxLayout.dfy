/**
 The packed byte layout of a plain (not compressed) radix tree node, and the in-place edits
 raxAddChild and raxRemoveChild make to it with memmove, on a machine with 4-byte or 8-byte pointers.

 A node's data section is: edge bytes, padding up to pointer alignment, child pointers, and a value
 pointer when the node is a key with a value. Offsets below are relative to the data section, which
 follows a 4-byte header.
 */
module RaxLayout {
  import opened Basics
  import opened RaxTree

  type PointerSize = n: int | n == 4 || n == 8 witness 8

  /** sizeof(void*), either of the two */
  const PTR: PointerSize

  /** The size of `n` pointers, `n * sizeof(void*)`. */
  function Span(n: nat): nat {
    if PTR == 4 then 4 * n else 8 * n
  }

  /** `n % sizeof(void*)` */
  function Over(n: nat): nat {
    if PTR == 4 then n % 4 else n % 8
  }

  lemma Pointers(n: nat)
    ensures Span(n) == PTR * n && Over(n) == n % PTR
  {
  }

  /** raxPadding: what aligns the header and `n` edge bytes to a pointer. */
  function Pad(n: nat): (p: nat)
    ensures p < PTR && Over(4 + n + p) == 0
  {
    Over(PTR - Over(n + 4))
  }

  /** raxNodeFirstChildPtr */
  function FirstPtr(n: nat): nat {
    n + Pad(n)
  }

  /** raxNodeCurrentLength, without the header. */
  function Length(n: nat, hasValue: bool): nat {
    FirstPtr(n) + Span(n) + if hasValue then PTR else 0
  }

  lemma OverNext(n: nat)
    ensures Over(n) < PTR && Over(n + 1) == if Over(n) + 1 == PTR then 0 else Over(n) + 1
  {
    if PTR == 4 { Next4(n); } else { Next8(n); }
  }

  lemma Next4(n: nat)
    ensures (n + 1) % 4 == if n % 4 == 3 then 0 else n % 4 + 1
  {
  }

  lemma Next8(n: nat)
    ensures (n + 1) % 8 == if n % 8 == 7 then 0 else n % 8 + 1
  {
  }

  lemma PadIs(n: nat)
    ensures Pad(n) == if Over(n + 4) == 0 then 0 else PTR - Over(n + 4)
  {
    OverNext(n + 4);
  }

  lemma ShiftStep(n: nat)
    ensures FirstPtr(n + 1) == FirstPtr(n) + (if Over(n + 4) == 0 then PTR else 0) && Span(n + 1) == Span(n) + PTR
  {
    PadIs(n);
    PadIs(n + 1);
    hide Pad, Over;
    OverNext(n + 4);
  }

  /** How many bytes the pointers move when a node of `n` edges grows by one. */
  function Shift(n: nat): (s: nat)
    ensures FirstPtr(n + 1) == FirstPtr(n) + s
    ensures Length(n + 1, false) == Length(n, false) + PTR + s && Length(n + 1, true) == Length(n, true) + PTR + s
  {
    ShiftStep(n);
    if Over(n + 4) == 0 then PTR else 0
  }

  lemma ShiftFacts(n: nat)
    ensures FirstPtr(n) >= n && FirstPtr(n + 1) == FirstPtr(n) + Shift(n)
    ensures Shift(n) == 0 || Shift(n) == PTR
    ensures Shift(n) == 0 ==> FirstPtr(n) >= n + 1
  {
  }

  /** The test raxRemoveChild uses for the same quantity. */
  lemma RemoveShift(n: nat)
    requires n > 0
    ensures Shift(n - 1) == if Over(n + 4) == 1 then PTR else 0
  {
  }

  /** A data section holds these edges, children and value. */
  ghost predicate Packs(d: seq<byte>, edges: seq<byte>, ptrs: seq<seq<byte>>, value: Option<seq<byte>>) {
    && |edges| == |ptrs|
    && (value.Some? ==> |value.value| == PTR)
    && |d| == Length(|edges|, value.Some?)
    && (forall k :: 0 <= k < |edges| ==> d[k] == edges[k])
    && PacksPtrs(d, ptrs)
    && (value.Some? ==> forall b :: 0 <= b < PTR ==> d[|d| - PTR + b] == value.value[b])
  }

  /** The pointers of a data section. */
  ghost predicate PacksPtrs(d: seq<byte>, ptrs: seq<seq<byte>>) {
    && |d| >= Length(|ptrs|, false)
    && (forall i :: 0 <= i < |ptrs| ==> |ptrs[i]| == PTR)
    && (forall i, b :: 0 <= i < |ptrs| && 0 <= b < PTR ==> PtrByte(d, |ptrs|, i, b) == ptrs[i][b])
  }

  /** Byte `b` of child pointer `i` of a node with `n` edges. */
  function PtrByte(d: seq<byte>, n: nat, i: nat, b: nat): byte
    requires i < n && b < PTR && |d| >= Length(n, false)
  {
    d[FirstPtr(n) + Span(i) + b]
  }

  /** Packing is unambiguous: a data section holds one list of edges, children and value. */
  lemma PacksUnique(d: seq<byte>, e1: seq<byte>, p1: seq<seq<byte>>, v1: Option<seq<byte>>,
                    e2: seq<byte>, p2: seq<seq<byte>>, v2: Option<seq<byte>>)
    requires Packs(d, e1, p1, v1) && Packs(d, e2, p2, v2) && |e1| == |e2| && v1.Some? == v2.Some?
    ensures e1 == e2 && p1 == p2 && v1 == v2
  {
    forall i | 0 <= i < |p1| ensures p1[i] == p2[i] {
      forall b | 0 <= b < PTR ensures p1[i][b] == p2[i][b] {
        assert PtrByte(d, |e1|, i, b) == p1[i][b];
      }
    }
    if v1.Some? {
      forall b | 0 <= b < PTR ensures v1.value[b] == v2.value[b] {
        assert d[|d| - PTR + b] == v1.value[b];
      }
      assert v1.value == v2.value;
    }
  }

  // ------------------------------------------------------------------ memmove

  function Moved(s: seq<byte>, dst: nat, src: nat, n: nat): (r: seq<byte>)
    requires dst + n <= |s| && src + n <= |s|
    ensures |r| == |s|
    ensures forall k :: 0 <= k < |s| ==> r[k] == if dst <= k < dst + n then s[k - dst + src] else s[k]
  {
    s[..dst] + s[src..src + n] + s[dst + n..]
  }

  function Written(s: seq<byte>, at: nat, w: seq<byte>): (r: seq<byte>)
    requires at + |w| <= |s|
    ensures |r| == |s|
    ensures forall k :: 0 <= k < |s| ==> r[k] == if at <= k < at + |w| then w[k - at] else s[k]
  {
    s[..at] + w + s[at + |w|..]
  }

  /** The index a byte of the moved buffer comes from. */
  function From(dst: nat, src: nat, n: nat, k: nat): nat {
    if dst <= k < dst + n then k - dst + src else k
  }

  lemma MovedAt(s: seq<byte>, dst: nat, src: nat, n: nat, k: nat)
    requires dst + n <= |s| && src + n <= |s| && k < |s|
    ensures From(dst, src, n, k) < |s| && |Moved(s, dst, src, n)| == |s|
    ensures Moved(s, dst, src, n)[k] == s[From(dst, src, n, k)]
  {
  }

  lemma WrittenAt(s: seq<byte>, at: nat, w: seq<byte>, k: nat)
    requires at + |w| <= |s| && k < |s|
    ensures |Written(s, at, w)| == |s|
    ensures Written(s, at, w)[k] == if at <= k < at + |w| then w[k - at] else s[k]
  {
  }

  method MemMove(a: array<byte>, dst: nat, src: nat, n: nat)
    requires dst + n <= a.Length && src + n <= a.Length
    modifies a
    ensures a[..] == Moved(old(a[..]), dst, src, n)
  {
    var tmp := a[src..src + n];
    forall k | 0 <= k < n { a[dst + k] := tmp[k]; }
  }

  method MemWrite(a: array<byte>, at: nat, w: seq<byte>)
    requires at + |w| <= a.Length
    modifies a
    ensures a[..] == Written(old(a[..]), at, w)
  {
    forall k | 0 <= k < |w| { a[at + k] := w[k]; }
  }

  /** rax_realloc: the first bytes are kept. */
  method Resize(a: array<byte>, len: nat) returns (r: array<byte>)
    ensures fresh(r) && r.Length == len
    ensures forall k :: 0 <= k < len && k < a.Length ==> r[k] == a[k]
  {
    r := new byte[len](i => 0);
    forall k | 0 <= k < len && k < a.Length { r[k] := a[k]; }
  }

  // -------------------------------------------------------------- raxAddChild

  /** The first moves of raxAddChild: the value to the new end, the pointers after `pos` behind a gap. */
  function AddMovesTail(s: seq<byte>, n: nat, hasValue: bool, pos: nat): (r: seq<byte>)
    requires pos <= n && |s| == Length(n + 1, hasValue)
    ensures |r| == |s|
  {
    var s1 := if hasValue then Moved(s, Length(n + 1, true) - PTR, Length(n, true) - PTR, PTR) else s;
    var src := FirstPtr(n) + Span(pos);
    Moved(s1, src + Shift(n) + PTR, src, Span(n - pos))
  }

  /** The other moves: the pointers before `pos`, if the padding changed, and the edge bytes. */
  function AddMoves(s: seq<byte>, n: nat, hasValue: bool, pos: nat): (r: seq<byte>)
    requires pos <= n && |s| == Length(n + 1, hasValue)
    ensures |r| == |s|
  {
    var s2 := AddMovesTail(s, n, hasValue, pos);
    var s3 := if Shift(n) != 0 then Moved(s2, FirstPtr(n) + Shift(n), FirstPtr(n), Span(pos)) else s2;
    Moved(s3, pos + 1, pos, n - pos)
  }

  function AddBytes(s: seq<byte>, n: nat, hasValue: bool, pos: nat, c: byte, child: seq<byte>): (r: seq<byte>)
    requires pos <= n && |s| == Length(n + 1, hasValue) && |child| == PTR
    ensures |r| == |s|
  {
    Written(Written(AddMoves(s, n, hasValue, pos), pos, [c]), FirstPtr(n + 1) + Span(pos), child)
  }

  /** Where each byte of the result comes from: the moves, traced backwards. */
  function AddFromTail(n: nat, hasValue: bool, pos: nat, k: nat): nat
    requires pos <= n
  {
    var src := FirstPtr(n) + Span(pos);
    var k1 := From(src + Shift(n) + PTR, src, Span(n - pos), k);
    if hasValue then From(Length(n + 1, true) - PTR, Length(n, true) - PTR, PTR, k1) else k1
  }

  function AddFrom(n: nat, hasValue: bool, pos: nat, k: nat): nat
    requires pos <= n
  {
    var k3 := From(pos + 1, pos, n - pos, k);
    var k2 := if Shift(n) != 0 then From(FirstPtr(n) + Shift(n), FirstPtr(n), Span(pos), k3) else k3;
    AddFromTail(n, hasValue, pos, k2)
  }

  lemma AddMovesTailAt(s: seq<byte>, n: nat, hasValue: bool, pos: nat, k: nat)
    requires pos <= n && |s| == Length(n + 1, hasValue) && k < |s|
    ensures AddFromTail(n, hasValue, pos, k) < |s|
    ensures AddMovesTail(s, n, hasValue, pos)[k] == s[AddFromTail(n, hasValue, pos, k)]
  {
    hide Pad, FirstPtr, Shift, Moved, From;
    ShiftFacts(n);
    var shift, src := Shift(n), FirstPtr(n) + Span(pos);
    var s1 := if hasValue then Moved(s, Length(n + 1, true) - PTR, Length(n, true) - PTR, PTR) else s;
    MovedAt(s1, src + shift + PTR, src, Span(n - pos), k);
    if hasValue { MovedAt(s, Length(n + 1, true) - PTR, Length(n, true) - PTR, PTR, From(src + shift + PTR, src, Span(n - pos), k)); }
  }

  lemma AddMovesAt(s: seq<byte>, n: nat, hasValue: bool, pos: nat, k: nat)
    requires pos <= n && |s| == Length(n + 1, hasValue) && k < |s|
    ensures AddFrom(n, hasValue, pos, k) < |s|
    ensures AddMoves(s, n, hasValue, pos)[k] == s[AddFrom(n, hasValue, pos, k)]
  {
    hide Pad, FirstPtr, Shift, Moved, From, AddMovesTail, AddFromTail;
    ShiftFacts(n);
    var s2 := AddMovesTail(s, n, hasValue, pos);
    var s3 := if Shift(n) != 0 then Moved(s2, FirstPtr(n) + Shift(n), FirstPtr(n), Span(pos)) else s2;
    MovedAt(s3, pos + 1, pos, n - pos, k);
    var k3 := From(pos + 1, pos, n - pos, k);
    if Shift(n) != 0 { MovedAt(s2, FirstPtr(n) + Shift(n), FirstPtr(n), Span(pos), k3); }
    var k2 := if Shift(n) != 0 then From(FirstPtr(n) + Shift(n), FirstPtr(n), Span(pos), k3) else k3;
    AddMovesTailAt(s, n, hasValue, pos, k2);
  }

  lemma AddFromEdges(n: nat, hasValue: bool, pos: nat, k: nat)
    requires pos <= n && k <= n && k != pos
    ensures AddFrom(n, hasValue, pos, k) == if k < pos then k else k - 1
  {
    hide Pad, FirstPtr, Shift;
    ShiftFacts(n);
  }

  lemma AddFromPtrs(n: nat, hasValue: bool, pos: nat, k: nat)
    requires pos <= n && FirstPtr(n + 1) <= k < Length(n + 1, hasValue)
    ensures k < FirstPtr(n + 1) + Span(pos) ==> AddFrom(n, hasValue, pos, k) == k - Shift(n)
    ensures FirstPtr(n + 1) + Span(pos) + PTR <= k ==> AddFrom(n, hasValue, pos, k) == k - Shift(n) - PTR
  {
    hide Pad, FirstPtr, Shift;
    ShiftFacts(n);
  }

  lemma AddPacksEdges(s: seq<byte>, edges: seq<byte>, hasValue: bool, pos: nat, c: byte, child: seq<byte>, k: nat)
    requires |s| == Length(|edges| + 1, hasValue) && (forall i :: 0 <= i < |edges| ==> s[i] == edges[i])
    requires pos <= |edges| && |child| == PTR && k <= |edges|
    ensures AddBytes(s, |edges|, hasValue, pos, c, child)[k] == InsertAt(edges, pos, c)[k]
  {
    hide Pad, FirstPtr, Shift, AddBytes, AddFrom;
    ShiftFacts(|edges|);
    ShiftFacts(|edges| + 1);
    AddBytesAt(s, |edges|, hasValue, pos, c, child, k);
    if k != pos { AddFromEdges(|edges|, hasValue, pos, k); }
  }

  lemma AddPacksPtr(s: seq<byte>, n: nat, hasValue: bool, pos: nat, c: byte, child: seq<byte>, i: nat, b: nat)
    requires |s| == Length(n + 1, hasValue) && pos <= n && |child| == PTR && i <= n && b < PTR
    ensures PtrByte(AddBytes(s, n, hasValue, pos, c, child), n + 1, i, b) ==
      if i == pos then child[b] else PtrByte(s, n, if i < pos then i else i - 1, b)
  {
    hide Pad, FirstPtr, Shift, AddBytes, AddFrom;
    ShiftFacts(n);
    ShiftFacts(n + 1);
    var k := FirstPtr(n + 1) + Span(i) + b;
    AddBytesAt(s, n, hasValue, pos, c, child, k);
    AddFromPtrs(n, hasValue, pos, k);
  }

  lemma AddPacksValue(s: seq<byte>, n: nat, pos: nat, c: byte, child: seq<byte>, b: nat)
    requires |s| == Length(n + 1, true) && pos <= n && |child| == PTR && b < PTR
    ensures AddBytes(s, n, true, pos, c, child)[|s| - PTR + b] == s[Length(n, true) - PTR + b]
  {
    hide Pad, FirstPtr, Shift, AddBytes, AddFrom;
    ShiftFacts(n);
    ShiftFacts(n + 1);
    AddBytesAt(s, n, true, pos, c, child, |s| - PTR + b);
    AddFromPtrs(n, true, pos, |s| - PTR + b);
  }

  lemma AddPacksPtrs(s: seq<byte>, d: seq<byte>, ptrs: seq<seq<byte>>, hasValue: bool, pos: nat, c: byte, child: seq<byte>)
    requires |s| == Length(|ptrs| + 1, hasValue) && PacksPtrs(d, ptrs) && d <= s && pos <= |ptrs| && |child| == PTR
    ensures PacksPtrs(AddBytes(s, |ptrs|, hasValue, pos, c, child), InsertAt(ptrs, pos, child))
  {
    hide Pad, FirstPtr, Shift, AddBytes, AddFrom, InsertAt;
    var n, ptrs2 := |ptrs|, InsertAt(ptrs, pos, child);
    var r := AddBytes(s, n, hasValue, pos, c, child);
    forall i, b | 0 <= i < |ptrs2| && 0 <= b < PTR ensures PtrByte(r, n + 1, i, b) == ptrs2[i][b] {
      AddPacksPtr(s, n, hasValue, pos, c, child, i, b);
      if i < pos { assert PtrByte(d, n, i, b) == ptrs[i][b]; }
      if i > pos { assert PtrByte(d, n, i - 1, b) == ptrs[i - 1][b]; }
    }
  }

  lemma AddPacks(s: seq<byte>, d: seq<byte>, edges: seq<byte>, ptrs: seq<seq<byte>>, value: Option<seq<byte>>,
                 pos: nat, c: byte, child: seq<byte>)
    requires |s| == Length(|edges| + 1, value.Some?) && Packs(d, edges, ptrs, value) && d <= s
    requires pos <= |edges| && |child| == PTR
    ensures Packs(AddBytes(s, |edges|, value.Some?, pos, c, child), InsertAt(edges, pos, c), InsertAt(ptrs, pos, child), value)
  {
    hide Pad, FirstPtr, Shift, AddBytes, AddFrom, InsertAt, PacksPtrs, PtrByte;
    var n, hasValue := |edges|, value.Some?;
    ShiftFacts(n);
    var r := AddBytes(s, n, hasValue, pos, c, child);
    var edges2 := InsertAt(edges, pos, c);
    forall k | 0 <= k < |edges2| ensures r[k] == edges2[k] {
      AddPacksEdges(s, edges, hasValue, pos, c, child, k);
    }
    AddPacksPtrs(s, d, ptrs, hasValue, pos, c, child);
    if hasValue {
      forall b | 0 <= b < PTR ensures r[|r| - PTR + b] == value.value[b] {
        AddPacksValue(s, n, pos, c, child, b);
      }
    }
  }

  lemma AddBytesAt(s: seq<byte>, n: nat, hasValue: bool, pos: nat, c: byte, child: seq<byte>, k: nat)
    requires pos <= n && |s| == Length(n + 1, hasValue) && |child| == PTR && k < |s|
    ensures AddFrom(n, hasValue, pos, k) < |s| == |AddBytes(s, n, hasValue, pos, c, child)|
    ensures AddBytes(s, n, hasValue, pos, c, child)[k] ==
      if k == pos then c
      else if FirstPtr(n + 1) + Span(pos) <= k < FirstPtr(n + 1) + Span(pos) + PTR then child[k - FirstPtr(n + 1) - Span(pos)]
      else s[AddFrom(n, hasValue, pos, k)]
  {
    hide Pad, FirstPtr, Shift, Written, AddMoves, AddFrom;
    ShiftFacts(n);
    AddMovesAt(s, n, hasValue, pos, k);
    var s4 := AddMoves(s, n, hasValue, pos);
    WrittenAt(s4, pos, [c], k);
    WrittenAt(Written(s4, pos, [c]), FirstPtr(n + 1) + Span(pos), child, k);
  }

  /** raxAddChild on the packed bytes: the edge and its child go in at the sorted position. */
  method AddChild(a: array<byte>, n: nat, hasValue: bool, c: byte, child: seq<byte>,
                  ghost edges: seq<byte>, ghost ptrs: seq<seq<byte>>, ghost value: Option<seq<byte>>)
    returns (r: array<byte>, pos: nat)
    requires Packs(a[..], edges, ptrs, value) && n == |edges| && hasValue == value.Some? && |child| == PTR
    ensures fresh(r) && pos == InsertPos(edges, c)
    ensures Packs(r[..], InsertAt(edges, pos, c), InsertAt(ptrs, pos, child), value)
  {
    hide Pad, FirstPtr, Shift, Moved, Written, InsertPos, InsertAt, Packs, AddMovesTail, AddMoves;
    PacksFacts(a[..], edges, ptrs, value);
    r := Resize(a, Length(n + 1, hasValue));
    ghost var s := r[..];
    assert a[..] == s[..a.Length];
    pos := FindPos(r, n, c, edges);
    AddInPlace(r, n, hasValue, pos);
    MemWrite(r, pos, [c]);
    MemWrite(r, FirstPtr(n + 1) + Span(pos), child);
    AddPacks(s, a[..], edges, ptrs, value, pos, c, child);
  }

  lemma PacksFacts(d: seq<byte>, edges: seq<byte>, ptrs: seq<seq<byte>>, value: Option<seq<byte>>)
    requires Packs(d, edges, ptrs, value)
    ensures |d| == Length(|edges|, value.Some?) && |edges| == |ptrs| && |d| >= |edges| && d[..|edges|] == edges
    ensures FirstPtr(|edges| + 1) > |edges| && Length(|edges|, value.Some?) <= Length(|edges| + 1, value.Some?)
  {
  }

  /** The first edge above `c`. */
  method FindPos(r: array<byte>, n: nat, c: byte, ghost edges: seq<byte>) returns (pos: nat)
    requires n <= r.Length && r[..n] == edges
    ensures pos <= n && pos == InsertPos(edges, c)
  {
    pos := 0;
    while pos < n && r[pos] <= c
      invariant pos <= n && InsertPos(edges, c) >= pos
    {
      assert r[pos] == edges[pos];
      InsertPosStep(edges, c, pos);
      pos := pos + 1;
    }
    assert pos < n ==> r[pos] == r[..n][pos];
    InsertPosStep(edges, c, pos);
  }

  method AddInPlace(r: array<byte>, n: nat, hasValue: bool, pos: nat)
    requires pos <= n && r.Length == Length(n + 1, hasValue)
    modifies r
    ensures r[..] == AddMoves(old(r[..]), n, hasValue, pos)
  {
    hide Pad, FirstPtr, Shift, Moved;
    ShiftFacts(n);
    var curlen, newlen := Length(n, hasValue), Length(n + 1, hasValue);
    if hasValue { MemMove(r, newlen - PTR, curlen - PTR, PTR); }
    var shift := newlen - curlen - PTR;
    var src := FirstPtr(n) + Span(pos);
    MemMove(r, src + shift + PTR, src, Span(n - pos));
    if shift != 0 { MemMove(r, FirstPtr(n) + shift, FirstPtr(n), Span(pos)); }
    MemMove(r, pos + 1, pos, n - pos);
  }

  lemma {:induction false} InsertPosStep(s: seq<byte>, c: byte, k: nat)
    requires k <= |s| && InsertPos(s, c) >= k
    ensures k < |s| && s[k] <= c ==> InsertPos(s, c) >= k + 1
    ensures k == |s| || s[k] > c ==> InsertPos(s, c) == k
  {
    var p := InsertPos(s, c);
    assert forall j :: 0 <= j < p ==> s[j] <= c;
  }

  // ----------------------------------------------------------- raxRemoveChild

  /** The first moves of raxRemoveChild: the edge bytes, and the pointers before the removed one. */
  function RemoveMovesHead(s: seq<byte>, n: nat, hasValue: bool, k: nat): (r: seq<byte>)
    requires k < n && |s| == Length(n, hasValue)
    ensures |r| == |s|
  {
    var s1 := Moved(s, k, k + 1, n - k - 1);
    if Shift(n - 1) != 0 then Moved(s1, FirstPtr(n) - Shift(n - 1), FirstPtr(n), Span(k)) else s1
  }

  function RemoveBytes(s: seq<byte>, n: nat, hasValue: bool, k: nat): (r: seq<byte>)
    requires k < n && |s| == Length(n, hasValue)
    ensures |r| == Length(n - 1, hasValue)
  {
    var at := FirstPtr(n) + Span(k);
    var s3 := Moved(RemoveMovesHead(s, n, hasValue, k), at - Shift(n - 1), at + PTR,
                    Span(n - k - 1) + if hasValue then PTR else 0);
    s3[..Length(n - 1, hasValue)]
  }

  function RemoveFromHead(n: nat, k: nat, j: nat): nat
    requires k < n
  {
    var first, shift := FirstPtr(n - 1) + Shift(n - 1), Shift(n - 1);
    From(k, k + 1, n - k - 1, if shift != 0 then From(first - shift, first, Span(k), j) else j)
  }

  function RemoveFrom(n: nat, hasValue: bool, k: nat, j: nat): nat
    requires k < n
  {
    var at := FirstPtr(n - 1) + Shift(n - 1) + Span(k);
    RemoveFromHead(n, k, From(at - Shift(n - 1), at + PTR, Span(n - k - 1) + if hasValue then PTR else 0, j))
  }

  lemma RemoveMovesHeadAt(s: seq<byte>, n: nat, hasValue: bool, k: nat, j: nat)
    requires k < n && |s| == Length(n, hasValue) && j < |s|
    ensures RemoveFromHead(n, k, j) < |s|
    ensures RemoveMovesHead(s, n, hasValue, k)[j] == s[RemoveFromHead(n, k, j)]
  {
    hide Pad, FirstPtr, Shift, Moved, From;
    ShiftFacts(n - 1);
    var first, shift := FirstPtr(n), Shift(n - 1);
    var s1 := Moved(s, k, k + 1, n - k - 1);
    if shift != 0 { MovedAt(s1, first - shift, first, Span(k), j); }
    MovedAt(s, k, k + 1, n - k - 1, if shift != 0 then From(first - shift, first, Span(k), j) else j);
  }

  lemma RemoveBytesAt(s: seq<byte>, n: nat, hasValue: bool, k: nat, j: nat)
    requires k < n && |s| == Length(n, hasValue) && j < Length(n - 1, hasValue)
    ensures RemoveFrom(n, hasValue, k, j) < |s|
    ensures RemoveBytes(s, n, hasValue, k)[j] == s[RemoveFrom(n, hasValue, k, j)]
  {
    hide Pad, FirstPtr, Shift, Moved, From, RemoveMovesHead, RemoveFromHead;
    ShiftFacts(n - 1);
    var at := FirstPtr(n) + Span(k);
    var len := Span(n - k - 1) + if hasValue then PTR else 0;
    MovedAt(RemoveMovesHead(s, n, hasValue, k), at - Shift(n - 1), at + PTR, len, j);
    RemoveMovesHeadAt(s, n, hasValue, k, From(at - Shift(n - 1), at + PTR, len, j));
  }

  lemma RemoveFromAt(n: nat, hasValue: bool, k: nat, j: nat)
    requires k < n && j < Length(n - 1, hasValue)
    ensures j < k ==> RemoveFrom(n, hasValue, k, j) == j
    ensures k <= j < n - 1 ==> RemoveFrom(n, hasValue, k, j) == j + 1
    ensures FirstPtr(n - 1) <= j < FirstPtr(n - 1) + Span(k) ==> RemoveFrom(n, hasValue, k, j) == j + Shift(n - 1)
    ensures FirstPtr(n - 1) + Span(k) <= j ==> RemoveFrom(n, hasValue, k, j) == j + Shift(n - 1) + PTR
  {
    hide Pad, FirstPtr, Shift;
    ShiftFacts(n - 1);
  }

  lemma RemovePacksPtrs(s: seq<byte>, ptrs: seq<seq<byte>>, hasValue: bool, k: nat)
    requires PacksPtrs(s, ptrs) && k < |ptrs| && |s| == Length(|ptrs|, hasValue)
    ensures PacksPtrs(RemoveBytes(s, |ptrs|, hasValue, k), RemoveAt(ptrs, k))
  {
    hide Pad, FirstPtr, Shift, RemoveBytes, RemoveFrom, RemoveAt;
    var n, ptrs2 := |ptrs|, RemoveAt(ptrs, k);
    ShiftFacts(n - 1);
    var r := RemoveBytes(s, n, hasValue, k);
    forall i, b | 0 <= i < |ptrs2| && 0 <= b < PTR ensures PtrByte(r, n - 1, i, b) == ptrs2[i][b] {
      RemoveBytesAt(s, n, hasValue, k, FirstPtr(n - 1) + Span(i) + b);
      RemoveFromAt(n, hasValue, k, FirstPtr(n - 1) + Span(i) + b);
      var i' := if i < k then i else i + 1;
      assert PtrByte(s, n, i', b) == ptrs[i'][b];
    }
  }

  lemma RemovePacks(s: seq<byte>, edges: seq<byte>, ptrs: seq<seq<byte>>, value: Option<seq<byte>>, k: nat)
    requires Packs(s, edges, ptrs, value) && k < |edges|
    ensures Packs(RemoveBytes(s, |edges|, value.Some?, k), RemoveAt(edges, k), RemoveAt(ptrs, k), value)
  {
    hide Pad, FirstPtr, Shift, RemoveBytes, RemoveFrom, RemoveAt, PacksPtrs, PtrByte;
    var n, hasValue := |edges|, value.Some?;
    ShiftFacts(n - 1);
    var r := RemoveBytes(s, n, hasValue, k);
    var edges2 := RemoveAt(edges, k);
    forall j | 0 <= j < |edges2| ensures r[j] == edges2[j] {
      RemoveBytesAt(s, n, hasValue, k, j);
      RemoveFromAt(n, hasValue, k, j);
    }
    RemovePacksPtrs(s, ptrs, hasValue, k);
    if hasValue {
      forall b | 0 <= b < PTR ensures r[|r| - PTR + b] == value.value[b] {
        RemoveBytesAt(s, n, hasValue, k, |r| - PTR + b);
        RemoveFromAt(n, hasValue, k, |r| - PTR + b);
        assert s[|s| - PTR + b] == value.value[b];
      }
    }
  }

  /** raxRemoveChild on the packed bytes of a plain node: child `k` and its edge go away. */
  method RemoveChild(a: array<byte>, n: nat, hasValue: bool, k: nat,
                     ghost edges: seq<byte>, ghost ptrs: seq<seq<byte>>, ghost value: Option<seq<byte>>)
    returns (r: array<byte>)
    requires Packs(a[..], edges, ptrs, value) && n == |edges| && hasValue == value.Some? && k < n
    modifies a
    ensures fresh(r) && Packs(r[..], RemoveAt(edges, k), RemoveAt(ptrs, k), value)
  {
    hide Pad, FirstPtr, Shift, Moved, Written, PtrByte;
    ShiftFacts(n - 1);
    ghost var s := a[..];
    var tail := n - k - 1;
    MemMove(a, k, k + 1, tail);
    var shift := if Over(n + 4) == 1 then PTR else 0;
    RemoveShift(n);
    var first := FirstPtr(n);
    if shift != 0 { MemMove(a, first - shift, first, Span(k)); }
    MemMove(a, first + Span(k) - shift, first + Span(k) + PTR, Span(tail) + if hasValue then PTR else 0);
    r := Resize(a, Length(n - 1, hasValue));
    assert r[..] == RemoveBytes(s, n, hasValue, k);
    RemovePacks(s, edges, ptrs, value, k);
  }
}
