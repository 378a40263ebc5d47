/**
 The doubly linked list (adlist.c): nodes with pointers both ways, and a record of head, tail and
 length. `nodes` is the sequence the pointers stand for. There is always memory.
 */
module Adlist {
  import opened Basics

  class Node<T> {
    var prev: Node?<T>
    var next: Node?<T>
    const value: T

    constructor (value: T, prev: Node?<T>, next: Node?<T>)
      ensures this.value == value && this.prev == prev && this.next == next
    {
      this.value, this.prev, this.next := value, prev, next;
    }
  }

  /** The node at a position, or null outside. */
  ghost function At<T>(nodes: seq<Node<T>>, i: int): Node?<T> {
    if 0 <= i < |nodes| then nodes[i] else null
  }

  /** Different nodes, each pointing to its neighbours. */
  ghost predicate Chain<T>(nodes: seq<Node<T>>)
    reads nodes
  {
    && Distinct(nodes)
    && (forall i {:trigger nodes[i].next} :: 0 <= i < |nodes| ==> nodes[i].next == At(nodes, i + 1))
    && (forall i {:trigger nodes[i].prev} :: 0 <= i < |nodes| ==> nodes[i].prev == At(nodes, i - 1))
  }

  ghost function Values<T>(nodes: seq<Node<T>>): seq<T> {
    seq(|nodes|, i requires 0 <= i < |nodes| => nodes[i].value)
  }

  lemma InsertValues<T>(w: seq<Node<T>>, p: nat, n: Node<T>)
    requires p <= |w|
    ensures Values(w[..p] + [n] + w[p..]) == Values(w)[..p] + [n.value] + Values(w)[p..]
    ensures Distinct(w) && n !in w ==> Distinct(w[..p] + [n] + w[p..])
    ensures var r := w[..p] + [n] + w[p..];
      && At(r, 0) == (if p == 0 then n else At(w, 0)) && At(r, |r| - 1) == if p == |w| then n else At(w, |w| - 1)
  {
    var r := w[..p] + [n] + w[p..];
    assert forall i :: 0 <= i < |r| ==> r[i] == if i < p then w[i] else if i == p then n else w[i - 1];
  }

  /** A node between positions `p - 1` and `p` of a chain whose two neighbours point to it. */
  lemma InsertChain<T>(w: seq<Node<T>>, p: nat, n: Node<T>)
    requires Distinct(w) && n !in w && p <= |w| && n.next == At(w, p) && n.prev == At(w, p - 1)
    requires forall i {:trigger w[i].next} :: 0 <= i < |w| ==> w[i].next == if i == p - 1 then n else At(w, i + 1)
    requires forall i {:trigger w[i].prev} :: 0 <= i < |w| ==> w[i].prev == if i == p then n else At(w, i - 1)
    ensures Chain(w[..p] + [n] + w[p..]) && Values(w[..p] + [n] + w[p..]) == Values(w)[..p] + [n.value] + Values(w)[p..]
  {
    InsertValues(w, p, n);
    hide Values, Distinct;
    var r := w[..p] + [n] + w[p..];
    forall i | 0 <= i < |r|
      ensures r[i].next == At(r, i + 1) && r[i].prev == At(r, i - 1)
    {
      if i < p { assert r[i] == w[i]; } else if i > p { assert r[i] == w[i - 1]; }
    }
  }

  lemma DeleteValues<T>(w: seq<Node<T>>, k: nat)
    requires k < |w|
    ensures Values(w[..k] + w[k + 1..]) == Values(w)[..k] + Values(w)[k + 1..]
    ensures Distinct(w) ==> Distinct(w[..k] + w[k + 1..])
    ensures var r := w[..k] + w[k + 1..];
      && At(r, 0) == At(w, if k == 0 then 1 else 0) && At(r, |r| - 1) == At(w, if k == |w| - 1 then k - 1 else |w| - 1)
  {
    var r := w[..k] + w[k + 1..];
    assert forall i :: 0 <= i < |r| ==> r[i] == w[if i < k then i else i + 1];
  }

  /** A chain whose node `k` is bypassed by its neighbours. */
  lemma DeleteChain<T>(w: seq<Node<T>>, k: nat)
    requires Distinct(w) && k < |w|
    requires forall i {:trigger w[i].next} :: 0 <= i < |w| && i != k ==> w[i].next == At(w, if i == k - 1 then i + 2 else i + 1)
    requires forall i {:trigger w[i].prev} :: 0 <= i < |w| && i != k ==> w[i].prev == At(w, if i == k + 1 then i - 2 else i - 1)
    ensures Chain(w[..k] + w[k + 1..]) && Values(w[..k] + w[k + 1..]) == Values(w)[..k] + Values(w)[k + 1..]
  {
    DeleteValues(w, k);
    hide Values, Distinct;
    var r := w[..k] + w[k + 1..];
    forall i | 0 <= i < |r|
      ensures r[i].next == At(r, i + 1) && r[i].prev == At(r, i - 1)
    {
      if i < k { assert r[i] == w[i]; } else { assert r[i] == w[i + 1]; }
    }
  }

  /** Two chains whose ends point to each other. */
  lemma JoinChain<T>(a: seq<Node<T>>, b: seq<Node<T>>)
    requires Distinct(a) && Distinct(b) && forall n :: n in a ==> n !in b
    requires forall i {:trigger a[i].next} :: 0 <= i < |a| ==> a[i].next == if i == |a| - 1 then At(b, 0) else At(a, i + 1)
    requires forall i {:trigger a[i].prev} :: 0 <= i < |a| ==> a[i].prev == At(a, i - 1)
    requires forall i {:trigger b[i].next} :: 0 <= i < |b| ==> b[i].next == At(b, i + 1)
    requires forall i {:trigger b[i].prev} :: 0 <= i < |b| ==> b[i].prev == if i == 0 then At(a, |a| - 1) else At(b, i - 1)
    ensures Chain(a + b)
  {
    var r := a + b;
    forall i | 0 <= i < |r|
      ensures r[i].next == At(r, i + 1) && r[i].prev == At(r, i - 1)
    {
      if i < |a| { assert r[i] == a[i]; } else { assert r[i] == b[i - |a|]; }
    }
    Apart(a, b);
  }

  lemma Ends<T>(a: seq<Node<T>>, b: seq<Node<T>>)
    ensures Values(a + b) == Values(a) + Values(b) && (At(b, |b| - 1) == null <==> b == []) && a + [] == a
    ensures At(a + b, |a + b| - 1) == if b == [] then At(a, |a| - 1) else At(b, |b| - 1)
    ensures Chain<T>([]) && At<T>([], 0) == null && At<T>([], -1) == null
  {
  }

  /** A chain but for its last node, which points to the first and is pointed to by it. */
  lemma RotateChain<T>(w: seq<Node<T>>)
    requires Distinct(w) && |w| > 1 && w[|w| - 1].next == w[0] && w[|w| - 1].prev == null
    requires forall i {:trigger w[i].next} :: 0 <= i < |w| - 1 ==> w[i].next == if i == |w| - 2 then null else w[i + 1]
    requires forall i {:trigger w[i].prev} :: 0 <= i < |w| - 1 ==> w[i].prev == if i == 0 then w[|w| - 1] else w[i - 1]
    ensures var m := |w| - 1;
      && Chain([w[m]] + w[..m]) && |Values(w)| == |w| && Values([w[m]] + w[..m]) == [Values(w)[m]] + Values(w)[..m]
  {
    var rest, last := w[..|w| - 1], w[|w| - 1];
    ValuesTake(w, |w| - 1);
    InsertChain(rest, 0, last);
    assert rest[..0] + [last] + rest[0..] == [last] + rest;
    assert Values(rest)[..0] == [] && Values(rest)[0..] == Values(rest);
  }

  lemma ValuesTake<T>(w: seq<Node<T>>, m: nat)
    requires m < |w|
    ensures |Values(w)| == |w| && Values(w[..m]) == Values(w)[..m] && Values(w)[m] == w[m].value
  {
  }

  lemma Apart<T>(a: seq<Node<T>>, b: seq<Node<T>>)
    requires forall n :: n in a ==> n !in b
    ensures forall i, j :: 0 <= i < |a| && 0 <= j < |b| ==> a[i] != b[j]
  {
    forall i, j | 0 <= i < |a| && 0 <= j < |b| ensures a[i] != b[j] { assert a[i] in a && b[j] in b; }
  }

  class List<T(0)> {
    var head: Node?<T>
    var tail: Node?<T>
    var len: nat
    ghost var nodes: seq<Node<T>>

    ghost predicate Valid()
      reads this, nodes
    {
      Chain(nodes) && head == At(nodes, 0) && tail == At(nodes, |nodes| - 1) && len == |nodes|
    }

    ghost function Contents(): seq<T>
      reads this
    {
      Values(nodes)
    }

    constructor ()
      ensures Valid() && nodes == []
    {
      head, tail, len, nodes := null, null, 0, [];
    }

    method AddNodeHead(value: T)
      requires Valid()
      modifies this, nodes
      ensures Valid() && Contents() == [value] + old(Contents())
      ensures exists n :: fresh(n) && nodes == [n] + old(nodes)
    {
      hide Values;
      ghost var w := nodes;
      var node := new Node(value, null, if len == 0 then null else head);
      if len == 0 {
        head, tail := node, node;
      } else {
        head.prev := node;
        head := node;
      }
      len := len + 1;
      InsertChain(w, 0, node);
      nodes := w[..0] + [node] + w[0..];
      assert nodes == [node] + w && old(Contents())[..0] == [] && old(Contents())[0..] == old(Contents());
    }

    method AddNodeTail(value: T)
      requires Valid()
      modifies this, nodes
      ensures Valid() && Contents() == old(Contents()) + [value]
      ensures exists n :: fresh(n) && nodes == old(nodes) + [n]
    {
      ghost var w := nodes;
      var node := new Node(value, if len == 0 then null else tail, null);
      if len == 0 {
        head, tail := node, node;
      } else {
        tail.next := node;
        tail := node;
      }
      len := len + 1;
      InsertChain(w, |w|, node);
      nodes := w[..|w|] + [node] + w[|w|..];
      assert nodes == w + [node];
    }

    /** The neighbours around position `p` point to `node`, which points to them: a chain with one more node. */
    method Splice(node: Node<T>, ghost p: nat)
      requires Valid() && p <= |nodes| && node !in nodes && node.prev == At(nodes, p - 1) && node.next == At(nodes, p)
      modifies nodes
      ensures Chain(nodes[..p] + [node] + nodes[p..])
    {
      hide Values;
      if node.prev != null { node.prev.next := node; }
      if node.next != null { node.next.prev := node; }
      InsertChain(nodes, p, node);
    }

    /** Before or after the node at position `k`. */
    method InsertNode(oldNode: Node<T>, value: T, after: bool, ghost k: nat)
      requires Valid() && k < |nodes| && nodes[k] == oldNode
      modifies this, nodes
      ensures Valid()
      ensures var p := if after then k + 1 else k; Contents() == old(Contents())[..p] + [value] + old(Contents())[p..]
    {
      hide Values, At, Chain;
      ghost var w, p := nodes, if after then k + 1 else k;
      Neighbours(w, k);
      var node := new Node(value, if after then oldNode else oldNode.prev, if after then oldNode.next else oldNode);
      Splice(node, p);
      InsertValues(w, p, node);
      nodes, len := w[..p] + [node] + w[p..], len + 1;
      if after && tail == oldNode { tail := node; }
      if !after && head == oldNode { head := node; }
    }

    /** The neighbours of node `k` point past it. */
    method Bypass(node: Node<T>, ghost k: nat)
      requires Valid() && k < |nodes| && nodes[k] == node
      modifies this`head, this`tail, nodes
      ensures forall i {:trigger nodes[i].next} :: 0 <= i < |nodes| && i != k ==>
        nodes[i].next == At(nodes, if i == k - 1 then i + 2 else i + 1)
      ensures forall i {:trigger nodes[i].prev} :: 0 <= i < |nodes| && i != k ==>
        nodes[i].prev == At(nodes, if i == k + 1 then i - 2 else i - 1)
      ensures head == At(nodes, if k == 0 then 1 else 0)
      ensures tail == At(nodes, if k == |nodes| - 1 then k - 1 else |nodes| - 1)
    {
      if node.prev != null { node.prev.next := node.next; } else { head := node.next; }
      if node.next != null { node.next.prev := node.prev; } else { tail := node.prev; }
    }

    method DelNode(node: Node<T>, ghost k: nat)
      requires Valid() && k < |nodes| && nodes[k] == node
      modifies this, nodes
      ensures Valid() && nodes == old(nodes)[..k] + old(nodes)[k + 1..]
      ensures Contents() == old(Contents())[..k] + old(Contents())[k + 1..]
    {
      hide Values, At;
      Bypass(node, k);
      len := len - 1;
      DeleteChain(nodes, k);
      DeleteValues(nodes, k);
      nodes := nodes[..k] + nodes[k + 1..];
    }

    /** The last node becomes the first. */
    method Rotate()
      requires Valid()
      modifies this, nodes
      ensures Valid()
      ensures var c := old(Contents()); Contents() == if |c| <= 1 then c else [c[|c| - 1]] + c[..|c| - 1]
    {
      if len <= 1 { return; }
      hide Values;
      ghost var w := nodes;
      var last := tail;
      tail := last.prev;
      tail.next := null;
      head.prev := last;
      last.prev := null;
      last.next := head;
      head := last;
      nodes := [last] + w[..|w| - 1];
      RotateChain(w);
    }

    /** The last node of this list and the first of `o` point to each other: the nodes are one chain. */
    method Attach(o: List<T>)
      requires Valid() && o.Valid() && o != this && forall n :: n in nodes ==> n !in o.nodes
      modifies this`head, nodes, o.nodes
      ensures Chain(nodes + o.nodes) && head == At(nodes + o.nodes, 0)
    {
      Apart(nodes, o.nodes);
      if o.head != null { o.head.prev := tail; }
      if tail != null { tail.next := o.head; } else { head := o.head; }
      JoinChain(nodes, o.nodes);
    }

    /** All the nodes of `o` come to the end of this list, and `o` is left empty. */
    method Join(o: List<T>)
      requires Valid() && o.Valid() && o != this && forall n :: n in nodes ==> n !in o.nodes
      modifies this, nodes, o, o.nodes
      ensures Valid() && o.Valid() && Contents() == old(Contents()) + old(o.Contents()) && o.nodes == []
    {
      Ends(nodes, o.nodes);
      hide Chain, Values, At;
      Attach(o);
      tail, len, nodes := if o.tail != null then o.tail else tail, len + o.len, nodes + o.nodes;
      o.Clear();
    }

    method Clear()
      modifies this
      ensures Valid() && nodes == []
    {
      head, tail, len, nodes := null, null, 0, [];
    }

    /** The node at an index counted from the head, or, if negative, from the tail; null if there is none. */
    method Index(index: int) returns (n: Node?<T>)
      requires Valid()
      ensures n == At(nodes, if index >= 0 then index else |nodes| + index)
    {
      if index < 0 {
        var i := -index - 1;
        n := tail;
        while i > 0 && n != null
          invariant 0 <= i <= -index - 1 && n == At(nodes, |nodes| + index + i)
        {
          n := n.prev;
          i := i - 1;
        }
      } else {
        var i := index;
        n := head;
        while i > 0 && n != null
          invariant 0 <= i <= index && n == At(nodes, index - i)
        {
          n := n.next;
          i := i - 1;
        }
      }
    }
  }

  /** An iterator from the head. */
  class Iter<T> {
    var next: Node?<T>

    constructor (next: Node?<T>)
      ensures this.next == next
    {
      this.next := next;
    }

    method Next() returns (current: Node?<T>)
      modifies this
      ensures current == old(next) && next == if current == null then null else current.next
    {
      current := next;
      if current != null { next := current.next; }
    }
  }

  function Remove<T>(s: seq<T>, drop: T -> bool): seq<T> {
    if s == [] then [] else Remove(s[..|s| - 1], drop) + if drop(s[|s| - 1]) then [] else [s[|s| - 1]]
  }

  /** What is left of the first `i` nodes and the nodes not visited yet; the iterator is at the first of those. */
  ghost predicate Visiting<T(0)>(l: List<T>, it: Iter<T>, left: seq<Node<T>>, w: seq<Node<T>>, i: nat)
    requires i <= |w|
    reads l, l.nodes, it
  {
    l.Valid() && l.nodes == left + w[i..] && it.next == At(w, i) && forall n :: n in left ==> n in w
  }

  /** A step of the iteration, which may delete the node just returned. */
  method Visit<T(0)>(l: List<T>, it: Iter<T>, drop: T -> bool, ghost left: seq<Node<T>>, ghost w: seq<Node<T>>, ghost i: nat)
    returns (value: T)
    requires i < |w| && Visiting(l, it, left, w, i)
    modifies l, l.nodes, it
    ensures value == w[i].value && Visiting(l, it, if drop(value) then left else left + [w[i]], w, i + 1)
  {
    hide Chain, At;
    AtIndex(w, i);
    Cut(left, w, i);
    Neighbours(l.nodes, |left|);
    var current := it.Next();
    value := current.value;
    if drop(value) { l.DelNode(current, |left|); }
  }

  /**
   Iterating while deleting the node just returned: every element of the original list is visited, once
   and in order, and those not deleted are left.
   */
  method IterateDeleting<T(0)>(l: List<T>, drop: T -> bool) returns (visited: seq<T>)
    requires l.Valid()
    modifies l, l.nodes
    ensures l.Valid() && visited == old(l.Contents()) && l.Contents() == Remove(old(l.Contents()), drop)
  {
    hide Chain, Values, Remove, At;
    ghost var w := l.nodes;
    ghost var i, left: seq<Node<T>> := 0, [];
    var it := new Iter(l.head);
    visited := [];
    Start(w, drop);
    AtIndex(w, 0);
    while it.next != null
      invariant 0 <= i <= |w| == |Values(w)| && Visiting(l, it, left, w, i) && fresh(it)
      invariant visited == Values(w)[..i] && Values(left) == Remove(Values(w)[..i], drop)
      decreases |w| - i
    {
      AtIndex(w, i);
      Cut(left, w, i);
      RemoveSnoc(w, left, i, drop);
      var value := Visit(l, it, drop, left, w, i);
      visited := visited + [value];
      if !drop(value) { left := left + [w[i]]; }
      i := i + 1;
    }
    AtIndex(w, i);
    assert l.nodes == left && Values(w)[..|w|] == Values(w);
  }

  lemma AtIndex<T>(w: seq<Node<T>>, i: nat)
    requires i <= |w|
    ensures At(w, i) == null <==> i == |w|
    ensures i < |w| ==> At(w, i) == w[i]
  {
  }

  /** One step of the iteration, on the sequence: node `i` stays or goes. */
  lemma Cut<T>(left: seq<Node<T>>, w: seq<Node<T>>, i: nat)
    requires i < |w| && forall n :: n in left ==> n in w
    ensures var r := left + w[i..];
      && r[|left|] == w[i] && r == (left + [w[i]]) + w[i + 1..] && r[..|left|] + r[|left| + 1..] == left + w[i + 1..]
      && At(r, |left| + 1) == At(w, i + 1)
      && (forall k :: 0 <= k < |r| ==> r[k] in w) && forall n :: n in left + [w[i]] ==> n in w
  {
  }

  lemma Start<T>(w: seq<Node<T>>, drop: T -> bool)
    ensures |Values(w)| == |w| && w[0..] == w && [] + w == w && Values(w)[..0] == [] && Values<T>([]) == Remove([], drop) == []
  {
  }

  lemma RemoveSnoc<T>(w: seq<Node<T>>, left: seq<Node<T>>, i: nat, drop: T -> bool)
    requires i < |w| == |Values(w)|
    ensures Values(w)[..i + 1] == Values(w)[..i] + [w[i].value] && Values(left + [w[i]]) == Values(left) + [w[i].value]
    ensures Remove(Values(w)[..i + 1], drop) == Remove(Values(w)[..i], drop) + if drop(w[i].value) then [] else [w[i].value]
  {
    assert Values(w)[..i + 1][..i] == Values(w)[..i];
  }

  lemma Neighbours<T>(w: seq<Node<T>>, k: nat)
    requires Chain(w) && k < |w|
    ensures w[k].next == At(w, k + 1) && w[k].prev == At(w, k - 1) && w[k] == At(w, k)
    ensures (At(w, |w| - 1) == w[k] <==> k + 1 == |w|) && (At(w, 0) == w[k] <==> k == 0)
  {
  }
}
