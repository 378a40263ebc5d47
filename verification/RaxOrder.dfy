/**
 The ordered map a radix tree implements: lexicographic order on byte strings, and what a place in
 the tree says about the keys before and after it.
 */
module RaxOrder {
  import opened Basics
  import opened RaxTree

  /** Lexicographic order, a proper prefix first (raxCompare, memcmp then length). */
  predicate Less(a: Key, b: Key) {
    b != [] && (a == [] || a[0] < b[0] || (a[0] == b[0] && Less(a[1..], b[1..])))
  }

  lemma {:induction false} LessIrreflexive(a: Key)
    ensures !Less(a, a)
  {
    if a != [] { LessIrreflexive(a[1..]); }
  }

  lemma {:induction false} LessTotal(a: Key, b: Key)
    ensures a == b || Less(a, b) || Less(b, a)
  {
    if a != [] && b != [] && a[0] == b[0] {
      LessTotal(a[1..], b[1..]);
      assert a == [a[0]] + a[1..] && b == [b[0]] + b[1..];
    }
  }

  lemma {:induction false} LessTransitive(a: Key, b: Key, c: Key)
    requires Less(a, b) && Less(b, c)
    ensures Less(a, c)
  {
    if a != [] && a[0] == b[0] == c[0] { LessTransitive(a[1..], b[1..], c[1..]); }
  }

  lemma LessAsymmetric(a: Key, b: Key)
    requires Less(a, b)
    ensures !Less(b, a) && a != b
  {
    if Less(b, a) { LessTransitive(a, b, a); }
    LessIrreflexive(a);
  }

  /** A common prefix does not matter. */
  lemma {:induction false} LessPrefixed(p: Key, a: Key, b: Key)
    ensures Less(p + a, p + b) <==> Less(a, b)
  {
    if p == [] {
      assert p + a == a && p + b == b;
    } else {
      LessPrefixed(p[1..], a, b);
      assert (p + a)[1..] == p[1..] + a && (p + b)[1..] == p[1..] + b;
    }
  }

  /** A string that does not extend `p` lies on the same side of everything that does. */
  lemma {:induction false} OffPath(p: Key, x: Key, k: Key)
    requires !(p <= k)
    ensures Less(p + x, k) <==> Less(p, k)
    ensures Less(k, p + x) <==> Less(k, p)
  {
    if k != [] && p[0] == k[0] {
      assert p == [p[0]] + p[1..] && k == [k[0]] + k[1..];
      assert !(p[1..] <= k[1..]);
      OffPath(p[1..], x, k[1..]);
      assert (p + x)[1..] == p[1..] + x;
    }
  }

  /** Strings that extend `p` are compared by what follows. */
  lemma OnPath(p: Key, x: Key, k: Key)
    requires p <= k
    ensures Less(p + x, k) <==> Less(x, k[|p|..])
    ensures Less(k, p + x) <==> Less(k[|p|..], x)
    ensures k == p + x <==> k[|p|..] == x
  {
    assert k == p + k[|p|..];
    LessPrefixed(p, x, k[|p|..]);
    LessPrefixed(p, k[|p|..], x);
  }

  // ----------------------------------------------------- the plain ordered map

  /** `r` is the least key of `m` above `lo`. */
  ghost predicate IsNext(m: set<Key>, lo: Key, r: Key) {
    && r in m && Less(lo, r)
    && forall k :: k in m && Less(lo, k) ==> k == r || Less(r, k)
  }

  /** `r` is the greatest key of `m` below `hi`. */
  ghost predicate IsPrev(m: set<Key>, hi: Key, r: Key) {
    && r in m && Less(r, hi)
    && forall k :: k in m && Less(k, hi) ==> k == r || Less(k, r)
  }

  ghost predicate NoneAbove(m: set<Key>, lo: Key) {
    forall k :: k in m ==> !Less(lo, k)
  }

  ghost predicate NoneBelow(m: set<Key>, hi: Key) {
    forall k :: k in m ==> !Less(k, hi)
  }

  datatype SeekOp = Above | AtOrAbove | Below | AtOrBelow | Exactly | First | Greatest

  /** What a seek for `e` must find in the plain map: `r` is the key reached, `None` is EOF. */
  ghost predicate SeekFinds(m: set<Key>, op: SeekOp, e: Key, r: Option<Key>)
    decreases op.AtOrAbove? || op.AtOrBelow?
  {
    match op
    case Above => if r.Some? then IsNext(m, e, r.value) else NoneAbove(m, e)
    case Below => if r.Some? then IsPrev(m, e, r.value) else NoneBelow(m, e)
    case AtOrAbove => if e in m then r == Some(e) else SeekFinds(m, Above, e, r)
    case AtOrBelow => if e in m then r == Some(e) else SeekFinds(m, Below, e, r)
    case Exactly => r == if e in m then Some(e) else None
    case First =>
      if r.Some? then r.value in m && forall k :: k in m ==> k == r.value || Less(r.value, k) else m == {}
    case Greatest => if r.Some? then GreatestBelow(m, [], r.value) else m == {}
  }

  // ------------------------------------------------------ keys around a place

  /** Below a node every key goes on along one of its edges. */
  ghost predicate KeysBelow(m: set<Key>, p: Key, t: Tree) {
    forall k :: k in m && p <= k && p != k ==>
      if t.compr then p + t.edges <= k else k[|p|] in t.edges
  }

  lemma TreeKeysBelow(m: set<Key>, ctx: seq<Frame>, t: Tree)
    requires CtxOK(ctx) && Shape(t)
    requires forall k :: k in m ==> Lookup(Plug(ctx, t), k).Some?
    ensures KeysBelow(m, PathKey(ctx), t)
  {
    var p := PathKey(ctx);
    forall k | k in m && p <= k && p != k ensures if t.compr then p + t.edges <= k else k[|p|] in t.edges {
      var r := k[|p|..];
      assert k == p + r;
      LookupPlug(ctx, t, r);
      assert Lookup(t, r).Some?;
      assert r != [];
    }
  }

  /** Keys above `lo`: exactly those above `p`. */
  ghost predicate FromHere(m: set<Key>, lo: Key, p: Key) {
    forall k :: k in m ==> (Less(lo, k) <==> Less(p, k))
  }

  /** Keys above `lo`: exactly those above `p` that are not below it in the tree. */
  ghost predicate PastHere(m: set<Key>, lo: Key, p: Key) {
    forall k :: k in m ==> (Less(lo, k) <==> !(p <= k) && Less(p, k))
  }

  /** Keys above `lo`: those past `p`, and those that leave `p` by a byte above `c`. */
  ghost predicate PastEdge(m: set<Key>, lo: Key, p: Key, c: byte) {
    forall k :: k in m ==>
      (Less(lo, k) <==> (!(p <= k) && Less(p, k)) || (p <= k && p != k && k[|p|] > c))
  }

  /** Keys above `lo`: `p` itself, if it is one, and those above it. */
  ghost predicate AtOrFromHere(m: set<Key>, lo: Key, p: Key) {
    forall k :: k in m ==> (Less(lo, k) <==> k == p || Less(p, k))
  }

  lemma FoundNext(m: set<Key>, lo: Key, p: Key)
    requires AtOrFromHere(m, lo, p)
    ensures p in m ==> IsNext(m, lo, p)
    ensures p !in m ==> FromHere(m, lo, p)
  {
  }

  /** Going down to the first child. */
  lemma NextDown(m: set<Key>, lo: Key, p: Key, t: Tree)
    requires Shape(t) && t.kids != [] && KeysBelow(m, p, t) && FromHere(m, lo, p)
    ensures AtOrFromHere(m, lo, p + Edge(t, 0))
  {
    var e := Edge(t, 0);
    var q := p + e;
    forall k | k in m ensures Less(lo, k) <==> k == q || Less(q, k) {
      if p <= k {
        OnPath(p, e, k);
        OnPath(p, [], k);
        assert p + [] == p;
        var r := k[|p|..];
        if r == [] {
          LessIrreflexive(p);
        } else if t.compr {
          assert k == q + k[|q|..];
          assert r == e + r[|e|..];
          LessPrefixed(e, [], r[|e|..]);
          assert e + [] == e;
        } else {
          assert r[0] == k[|p|] && r[0] >= e[0];
          assert r == [r[0]] + r[1..];
        }
      } else {
        OffPath(p, e, k);
      }
    }
  }

  lemma NextLeaf(m: set<Key>, lo: Key, p: Key, t: Tree)
    requires Shape(t) && t.kids == [] && KeysBelow(m, p, t) && FromHere(m, lo, p)
    ensures PastHere(m, lo, p)
  {
    LessIrreflexive(p);
  }

  /** Going up to the parent through a single edge. */
  lemma NextUpEdge(m: set<Key>, lo: Key, p: Key, c: byte)
    requires PastHere(m, lo, p + [c])
    ensures PastEdge(m, lo, p, c)
  {
    var q := p + [c];
    forall k | k in m
      ensures Less(lo, k) <==> (!(p <= k) && Less(p, k)) || (p <= k && p != k && k[|p|] > c)
    {
      if p <= k {
        OnPath(p, [c], k);
        assert q <= k <==> (p != k && k[|p|] == c);
      } else {
        OffPath(p, [c], k);
        assert !(q <= k);
      }
    }
  }

  /** Going up to a compressed parent. */
  lemma NextUpCompressed(m: set<Key>, lo: Key, p: Key, t: Tree)
    requires Shape(t) && t.compr && KeysBelow(m, p, t) && PastHere(m, lo, p + t.edges)
    ensures PastHere(m, lo, p)
  {
    var q := p + t.edges;
    forall k | k in m ensures Less(lo, k) <==> !(p <= k) && Less(p, k) {
      if p <= k {
        OnPath(p, t.edges, k);
        assert p == k ==> k[|p|..] == [];
      } else {
        OffPath(p, t.edges, k);
        assert !(q <= k);
      }
    }
  }

  /** The next sibling, or none. */
  lemma NextSibling(m: set<Key>, lo: Key, p: Key, t: Tree, c: byte, i: nat)
    requires Shape(t) && !t.compr && KeysBelow(m, p, t) && PastEdge(m, lo, p, c)
    requires i <= |t.edges|
    requires forall j :: 0 <= j < i ==> t.edges[j] <= c
    requires i < |t.edges| ==> t.edges[i] > c
    ensures i < |t.edges| ==> AtOrFromHere(m, lo, p + [t.edges[i]])
    ensures i == |t.edges| ==> PastHere(m, lo, p)
  {
    if i < |t.edges| {
      var e := t.edges[i];
      forall k | k in m ensures Less(lo, k) <==> k == p + [e] || Less(p + [e], k) {
        if p <= k {
          OnPath(p, [e], k);
          var r := k[|p|..];
          if r != [] {
            assert r[0] == k[|p|] && r == [r[0]] + r[1..];
            var j :| 0 <= j < |t.edges| && t.edges[j] == r[0];
            assert r[0] > c ==> j >= i;
          }
        } else {
          OffPath(p, [e], k);
        }
      }
    }
  }

  // --------------------------------------------------------- the other way

  /** Keys below `hi`: exactly those below `p`. */
  ghost predicate UpToHere(m: set<Key>, hi: Key, p: Key) {
    forall k :: k in m ==> (Less(k, hi) <==> Less(k, p))
  }

  /** Keys below `hi`: `p` itself, if it is one, and those below it. */
  ghost predicate AtOrUpToHere(m: set<Key>, hi: Key, p: Key) {
    forall k :: k in m ==> (Less(k, hi) <==> k == p || Less(k, p))
  }

  /** Keys below `hi`: `p`, those before it, and those that leave `p` by a byte below `c`. */
  ghost predicate BeforeEdge(m: set<Key>, hi: Key, p: Key, c: byte) {
    forall k :: k in m ==>
      (Less(k, hi) <==> k == p || Less(k, p) || (p <= k && p != k && k[|p|] < c))
  }

  /** Keys below `hi`: everything at or below `p` in the tree, and those before `p`. */
  ghost predicate ThroughHere(m: set<Key>, hi: Key, p: Key) {
    forall k :: k in m ==> (Less(k, hi) <==> p <= k || Less(k, p))
  }

  lemma FoundPrev(m: set<Key>, hi: Key, p: Key)
    requires AtOrUpToHere(m, hi, p)
    ensures p in m ==> IsPrev(m, hi, p)
    ensures p !in m ==> UpToHere(m, hi, p)
  {
  }

  /** `r` is the greatest key among those that extend `p`. */
  ghost predicate GreatestBelow(m: set<Key>, p: Key, r: Key) {
    && r in m && p <= r
    && forall k :: k in m && p <= k ==> k == r || Less(k, r)
  }

  /** Of the keys that extend `p`, those that do not extend `q` come before it. */
  ghost predicate LastBranch(m: set<Key>, p: Key, q: Key) {
    p <= q && forall k :: k in m && p <= k ==> q <= k || Less(k, q)
  }

  /** Going down to the last child. */
  lemma LastDown(m: set<Key>, p: Key, q: Key, t: Tree)
    requires Shape(t) && t.kids != [] && KeysBelow(m, q, t) && LastBranch(m, p, q)
    ensures LastBranch(m, p, q + Edge(t, |t.kids| - 1))
  {
    var e := Edge(t, |t.kids| - 1);
    forall k | k in m && p <= k ensures q + e <= k || Less(k, q + e) {
      if q <= k {
        OnPath(q, e, k);
        var r := k[|q|..];
        if r != [] {
          assert r[0] == k[|q|];
          if !t.compr { assert r[0] == e[0] ==> q + e <= k; }
        }
      } else {
        OffPath(q, e, k);
      }
    }
  }

  lemma LastLeaf(m: set<Key>, p: Key, q: Key, t: Tree)
    requires Shape(t) && t.kids == [] && KeysBelow(m, q, t) && LastBranch(m, p, q) && q in m
    ensures GreatestBelow(m, p, q)
  {
    forall k | k in m && q <= k ensures k == q {}
  }

  /** The greatest key of the subtree just before `hi` is the predecessor. */
  lemma GreatestIsPrev(m: set<Key>, hi: Key, p: Key, r: Key)
    requires ThroughHere(m, hi, p) && GreatestBelow(m, p, r)
    ensures IsPrev(m, hi, r)
  {
    forall k | k in m && Less(k, hi) ensures k == r || Less(k, r) {
      if !(p <= k) {
        OffPath(p, r[|p|..], k);
        assert r == p + r[|p|..];
      }
    }
  }

  lemma PrevUpEdge(m: set<Key>, hi: Key, p: Key, c: byte)
    requires UpToHere(m, hi, p + [c])
    ensures BeforeEdge(m, hi, p, c)
  {
    forall k | k in m
      ensures Less(k, hi) <==> k == p || Less(k, p) || (p <= k && p != k && k[|p|] < c)
    {
      if p <= k {
        OnPath(p, [c], k);
        OnPath(p, [], k);
        assert p + [] == p;
        assert p != k ==> k[|p|..][0] == k[|p|];
      } else {
        OffPath(p, [c], k);
      }
    }
  }

  lemma PrevUpCompressed(m: set<Key>, hi: Key, p: Key, t: Tree)
    requires Shape(t) && t.compr && KeysBelow(m, p, t) && UpToHere(m, hi, p + t.edges)
    ensures AtOrUpToHere(m, hi, p)
  {
    var e := t.edges;
    forall k | k in m ensures Less(k, hi) <==> k == p || Less(k, p) {
      if p <= k {
        OnPath(p, e, k);
        OnPath(p, [], k);
        assert p + [] == p;
        var r := k[|p|..];
        if r != [] {
          assert r == e + r[|e|..];
          LessPrefixed(e, r[|e|..], []);
          assert e + [] == e;
        }
      } else {
        OffPath(p, e, k);
      }
    }
  }

  lemma PrevSibling(m: set<Key>, hi: Key, p: Key, t: Tree, c: byte, i: int)
    requires Shape(t) && !t.compr && KeysBelow(m, p, t) && BeforeEdge(m, hi, p, c)
    requires -1 <= i < |t.edges|
    requires forall j :: i < j < |t.edges| ==> t.edges[j] >= c
    requires i >= 0 ==> t.edges[i] < c
    ensures i >= 0 ==> ThroughHere(m, hi, p + [t.edges[i]])
    ensures i < 0 ==> AtOrUpToHere(m, hi, p)
  {
    if i >= 0 {
      var e := t.edges[i];
      forall k | k in m ensures Less(k, hi) <==> p + [e] <= k || Less(k, p + [e]) {
        if p <= k {
          OnPath(p, [e], k);
          OnPath(p, [], k);
          assert p + [] == p;
          var r := k[|p|..];
          if r != [] {
            assert r[0] == k[|p|];
            assert p + [e] <= k <==> r[0] == e;
            var j :| 0 <= j < |t.edges| && t.edges[j] == r[0];
            assert r[0] < c ==> j <= i;
          }
        } else {
          OffPath(p, [e], k);
          assert !(p + [e] <= k);
        }
      }
    }
  }

  // ------------------------------------------------------ where a seek starts

  /** The element leaves a plain node by a byte that is not an edge. */
  lemma SeekPlain(m: set<Key>, e: Key, p: Key, t: Tree)
    requires KeysBelow(m, p, t) && !t.compr && p <= e && p != e && e[|p|] !in t.edges
    ensures PastEdge(m, e, p, e[|p|]) && BeforeEdge(m, e, p, e[|p|])
  {
    var x := e[|p|..];
    assert e == p + x;
    forall k | k in m
      ensures Less(e, k) <==> (!(p <= k) && Less(p, k)) || (p <= k && p != k && k[|p|] > e[|p|])
      ensures Less(k, e) <==> k == p || Less(k, p) || (p <= k && p != k && k[|p|] < e[|p|])
    {
      if p <= k {
        OnPath(p, x, k);
        OnPath(p, [], k);
        assert p + [] == p;
        assert p != k ==> k[|p|..][0] == k[|p|] && x[0] == e[|p|];
      } else {
        OffPath(p, x, k);
      }
    }
  }

  /** The element leaves a compressed node inside its string, at byte `j`. */
  lemma SeekCompressed(m: set<Key>, e: Key, p: Key, t: Tree, j: nat)
    requires KeysBelow(m, p, t) && t.compr && j < |t.edges| && p <= e
    requires |p| + j < |e| && e[|p|..|p| + j] == t.edges[..j] && e[|p| + j] != t.edges[j]
    ensures t.edges[j] > e[|p| + j] ==> FromHere(m, e, p) && AtOrUpToHere(m, e, p)
    ensures t.edges[j] < e[|p| + j] ==> PastHere(m, e, p) && ThroughHere(m, e, p)
  {
    var x := e[|p|..];
    assert e == p + x;
    var c := t.edges[..j];
    assert x == c + x[j..] && x[j..][0] == e[|p| + j];
    forall k | k in m
      ensures t.edges[j] > e[|p| + j] ==> (Less(e, k) <==> Less(p, k)) && (Less(k, e) <==> k == p || Less(k, p))
      ensures t.edges[j] < e[|p| + j] ==>
        (Less(e, k) <==> !(p <= k) && Less(p, k)) && (Less(k, e) <==> p <= k || Less(k, p))
    {
      if p <= k {
        OnPath(p, x, k);
        OnPath(p, [], k);
        assert p + [] == p;
        var r := k[|p|..];
        if r != [] {
          assert t.edges <= r;
          assert r == c + r[j..] && r[j..][0] == t.edges[j];
          LessPrefixed(c, x[j..], r[j..]);
          LessPrefixed(c, r[j..], x[j..]);
        }
      } else {
        OffPath(p, x, k);
      }
    }
  }

  /** The element ends at a node, or inside its compressed string. */
  lemma SeekNoMismatch(m: set<Key>, e: Key, p: Key, t: Tree, j: nat)
    requires KeysBelow(m, p, t) && (j > 0 ==> t.compr && j < |t.edges|)
    requires if j == 0 then e == p else e == p + t.edges[..j]
    ensures FromHere(m, e, p)
    ensures j == 0 ==> UpToHere(m, e, p)
    ensures j > 0 ==> AtOrUpToHere(m, e, p)
  {
    if j > 0 {
      var x := t.edges[..j];
      forall k | k in m ensures Less(e, k) <==> Less(p, k) ensures Less(k, e) <==> k == p || Less(k, p) {
        if p <= k {
          OnPath(p, x, k);
          OnPath(p, [], k);
          assert p + [] == p;
          var r := k[|p|..];
          if r != [] {
            assert t.edges <= r;
            assert r == x + r[j..];
            LessPrefixed(x, [], r[j..]);
            LessPrefixed(x, r[j..], []);
            assert x + [] == x;
          }
        } else {
          OffPath(p, x, k);
        }
      }
    }
  }

  // --------------------------------------------- elements inside a key's node

  /** The walk for `s` ends inside the string of a compressed node that is a key. */
  predicate EndsInsideKey(t: Tree, s: Key) {
    if s == [] then false
    else if t.compr then
      if |t.kids| > 0 && t.edges <= s then EndsInsideKey(t.kids[0], s[|t.edges|..])
      else t.slot.Some? && s <= t.edges
    else
      var i := IndexOf(t.edges, s[0]);
      i < |t.edges| && i < |t.kids| && EndsInsideKey(t.kids[i], s[1..])
  }

  lemma InsideWithKid(f: Frame, sub: Tree, r: Key)
    requires FrameOK(f)
    ensures EndsInsideKey(WithKid(f, sub), Edge(f.t, f.i) + r) == EndsInsideKey(sub, r)
  {
    var s := Edge(f.t, f.i) + r;
    assert s[|Edge(f.t, f.i)|..] == r;
    if !f.t.compr { IndexOfSorted(f.t.edges, f.i); }
  }

  lemma {:induction false} InsidePlug(ctx: seq<Frame>, sub: Tree, r: Key)
    requires CtxOK(ctx)
    ensures EndsInsideKey(Plug(ctx, sub), PathKey(ctx) + r) == EndsInsideKey(sub, r)
    decreases |ctx|
  {
    if ctx == [] {
      assert PathKey(ctx) + r == r;
    } else {
      var f := Last(ctx);
      var e := Edge(f.t, f.i);
      assert PathKey(ctx) + r == PathKey(Init(ctx)) + (e + r);
      InsidePlug(Init(ctx), WithKid(f, sub), e + r);
      InsideWithKid(f, sub, r);
    }
  }

  /** That key is a proper prefix of `s`. */
  lemma {:induction false} InsideHasKey(t: Tree, s: Key)
    requires WF(t)
    ensures EndsInsideKey(t, s) ==> exists k :: k < s && Lookup(t, k).Some?
    decreases t
  {
    if EndsInsideKey(t, s) {
      if t.compr && !(|t.kids| > 0 && t.edges <= s) {
        assert [] < s && Lookup(t, []).Some?;
      } else {
        var i := if t.compr then 0 else IndexOf(t.edges, s[0]);
        var e := if t.compr then t.edges else [s[0]];
        InsideHasKey(t.kids[i], s[|e|..]);
        var k :| k < s[|e|..] && Lookup(t.kids[i], k).Some?;
        assert s == e + s[|e|..];
        assert (e + k)[|e|..] == k;
        assert e + k < s && Lookup(t, e + k).Some?;
      }
    }
  }

  /** Inside one node: `r` agrees with its string up to position `j`, and differs there or ends. */
  lemma InsideNode(t: Tree, r: Key, j: nat)
    requires Shape(t) && t.compr && j < |t.edges| && j <= |r| && r[..j] == t.edges[..j] && (j < |r| ==> r[j] != t.edges[j])
    ensures EndsInsideKey(t, r) <==> t.slot.Some? && 0 < j == |r|
  {
    assert j < |r| ==> !(t.edges <= r) && !(r <= t.edges);
  }

  lemma InsidePlain(t: Tree, r: Key)
    requires !t.compr && (r != [] ==> r[0] !in t.edges)
    ensures !EndsInsideKey(t, r)
  {
  }
}
