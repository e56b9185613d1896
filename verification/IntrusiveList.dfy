// The circular intrusive list of common/intrusive_list.h on the heap.  A ring
// of nodes is described by the sequence of its nodes from some starting node;
// an intrusive_list is a pointer to the first node of a ring, or null.
module IntrusiveList {

  // q lists the nodes of one ring, in `next` order, each once.
  ghost predicate Ring(q: seq<Node>)
    reads q
  {
    && |q| > 0
    && (forall i, j :: 0 <= i < j < |q| ==> q[i] != q[j])
    && (forall i {:trigger q[i].next} :: 0 <= i < |q| ==> q[i].next == if i + 1 < |q| then q[i + 1] else q[0])
    && (forall i {:trigger q[i].prev} :: 0 <= i < |q| ==> q[i].prev == if i > 0 then q[i - 1] else q[|q| - 1])
  }

  ghost predicate Disjoint(q: seq<Node>, r: seq<Node>) {
    forall i, j :: 0 <= i < |q| && 0 <= j < |r| ==> q[i] != r[j]
  }

  // A ring may be read from any of its nodes.
  lemma Rotate(q: seq<Node>, k: nat)
    requires Ring(q) && k <= |q|
    ensures Ring(q[k..] + q[..k])
  {
    var r := q[k..] + q[..k];
    assert forall i :: 0 <= i < |r| ==> r[i] == if i < |q| - k then q[i + k] else q[i + k - |q|];
  }

  // The pointers determine the ring: two readings that start at the same node
  // and have the same length are equal.
  lemma {:induction false} RingPrefixUnique(q: seq<Node>, r: seq<Node>, n: nat)
    requires Ring(q) && Ring(r) && q[0] == r[0] && n <= |q| && n <= |r|
    ensures q[..n] == r[..n]
  {
    if n > 1 {
      RingPrefixUnique(q, r, n - 1);
      assert q[..n - 1][n - 2] == r[..n - 1][n - 2];
      assert q[n - 2].next == r[n - 2].next;
      assert q[..n] == q[..n - 1] + [q[n - 1]] && r[..n] == r[..n - 1] + [r[n - 1]];
    }
  }

  lemma RingUnique(q: seq<Node>, r: seq<Node>)
    requires Ring(q) && Ring(r) && q[0] == r[0]
    ensures q == r
  {
    var n := if |q| <= |r| then |q| else |r|;
    RingPrefixUnique(q, r, n);
    assert q[..n][n - 1] == r[..n][n - 1];
    assert q[n - 1].next == r[n - 1].next;
  }

  lemma Neighbours(q: seq<Node>, k: nat)
    requires Ring(q) && k < |q|
    ensures q[k].prev in q && q[k].next in q && q[k].next == if k + 1 < |q| then q[k + 1] else q[0]
    ensures q[k].next == q[0] <==> k + 1 == |q|
    ensures forall i :: 0 <= i < |q| && q[i] == q[k] ==> i == k
  {
  }

  lemma DropFirst(q: seq<Node>)
    requires Ring(q)
    ensures |q| > 0 && q[..0] + q[0 + 1..] == q[1..]
  {
  }

  lemma Swap(r: seq<Node>, q: seq<Node>)
    requires Ring(r + q) && r != []
    ensures Ring(q + r)
  {
    Rotate(r + q, |r|);
    assert (r + q)[|r|..] + (r + q)[..|r|] == q + r;
  }

  // Read from its second node on, a ring ends with its first.
  lemma AppendLast(p: Node, q: seq<Node>)
    requires Ring([p] + q)
    ensures Ring(q + [p])
  {
    Swap([p], q);
  }

  class Node {
    var prev: Node
    var next: Node

    constructor ()
      ensures Ring([this])
    {
      prev := this;
      next := this;
    }

    predicate Single()
      reads this
    { prev == this || next == this }

    // Takes this node, the k-th of its ring, out of the ring; returns its
    // successor, or null if it was alone.
    method RemoveFromList(ghost q: seq<Node>, ghost k: nat) returns (nx: Node?)
      requires Ring(q) && k < |q| && q[k] == this
      modifies this, prev, next
      ensures Ring([this])
      ensures nx == if |q| == 1 then null else if k + 1 < |q| then q[k + 1] else q[0]
      ensures |q| > 1 ==> Ring(q[..k] + q[k + 1..])
    {
      assert q[k].next == next && q[k].prev == prev;
      if Single() {
        assert q == [this];
        return null;
      }
      next.prev := prev;
      prev.next := next;
      nx := next;
      prev := this;
      next := this;
      ghost var r := q[..k] + q[k + 1..];
      assert forall i :: 0 <= i < |r| ==> r[i] == if i < k then q[i] else q[i + 1];
    }

    // The same for the first node, in terms of the rest.
    method RemoveFirst(ghost q: seq<Node>) returns (nx: Node?)
      requires Ring(q) && q[0] == this
      modifies this, prev, next
      ensures Ring([this]) && (|q| == 1 <==> nx == null)
      ensures |q| > 1 ==> nx == q[1] && Ring(q[1..])
    {
      hide Ring;
      DropFirst(q);
      nx := RemoveFromList(q, 0);
    }

    method InsertBetween(before: Node, after: Node)
      modifies this, before, after
      ensures !old(Single()) ==> unchanged(this) && unchanged(before) && unchanged(after)
      ensures old(Single()) ==>
                && next == after && prev == before
                && (before != this ==> before.next == this)
                && (after != this ==> after.prev == this)
                && (before != this && before != after ==> before.prev == old(before.prev))
                && (after != this && after != before ==> after.next == old(after.next))
    {
      if !Single() {
        return;
      }
      before.next := this;
      after.prev := this;
      prev := before;
      next := after;
    }

    // Puts p, alone in its ring r, before this node.  A node that is not alone
    // stays where it is.
    method InsertBefore(p: Node, ghost q: seq<Node>, ghost r: seq<Node>)
      requires Ring(q) && q[0] == this && if p in q then true else Ring(r) && r[0] == p && Disjoint(q, r)
      modifies this, prev, p
      ensures p in q || |r| > 1 ==> Ring(q) && (p !in q ==> Ring(r))
      ensures p !in q && |r| == 1 ==> Ring([p] + q)
    {
      assert q[0].prev == prev;
      p.InsertBetween(prev, this);
    }

    // Puts the whole ring r, headed by p, before this node.
    method InsertListBefore(p: Node, ghost q: seq<Node>, ghost r: seq<Node>)
      requires Ring(q) && q[0] == this && Ring(r) && r[0] == p && Disjoint(q, r)
      modifies this, prev, p, p.prev
      ensures Ring(r + q)
    {
      assert q[0].prev == prev && r[0].prev == p.prev;
      var before, last := prev, p.prev;
      before.next := p;
      p.prev := before;
      prev := last;
      last.next := this;
    }

    // Cuts the ring that starts here into two, the second starting at p.
    method Split(p: Node, ghost q: seq<Node>, ghost k: nat)
      requires Ring(q) && q[0] == this && 0 < k < |q| && q[k] == p
      modifies this, p, p.prev, prev
      ensures Ring(q[..k]) && Ring(q[k..])
    {
      assert q[0].prev == prev && q[k].prev == p.prev;
      var frontTail, backTail := p.prev, prev;
      prev := frontTail;
      frontTail.next := this;
      p.prev := backTail;
      backTail.next := p;
    }
  }

  class List {
    var node: Node?
    ghost var q: seq<Node>

    ghost predicate Valid()
      reads this, q
    {
      if node == null then q == [] else q != [] && q[0] == node && Ring(q)
    }

    constructor ()
      ensures Valid() && q == []
    {
      node := null;
      q := [];
    }

    constructor FromRing(n: Node?, ghost ring: seq<Node>)
      requires if n == null then ring == [] else Ring(ring) && ring[0] == n
      ensures Valid() && q == ring
    {
      node := n;
      q := ring;
    }

    // The ring a node belongs to: the list itself, or the ring r apart from it,
    // with the node at place k.
    ghost predicate RingOf(p: Node, r: seq<Node>, k: nat)
      requires Valid()
      reads this, q, r
    {
      var ring := if p in q then q else r;
      && Ring(ring) && k < |ring| && ring[k] == p
      && (p !in q ==> Disjoint(q, r))
    }

    // Appends a single node.  An empty list becomes the whole ring of the node;
    // otherwise a node that is in a ring already stays where it is.
    method PushBack(p: Node, ghost r: seq<Node>)
      requires Valid() && if p in q then true else Ring(r) && r[0] == p && Disjoint(q, r)
      modifies this, q, p
      ensures Valid()
      ensures p in old(q) ==> q == old(q)
      ensures p !in old(q) ==> q == if old(q) == [] then r else if |r| == 1 then old(q) + [p] else old(q)
      ensures p !in old(q) && |r| > 1 ==> Ring(r)
    {
      if node == null {
        node := p;
        q := r;
      } else {
        node.InsertBefore(p, q, r);
        if p !in q && |r| == 1 {
          AppendLast(p, q);
          q := q + [p];
        }
      }
    }

    // Moves all nodes of lst to the end of this list.  Splicing an empty list
    // into a non-empty one fails: the source reads the links of a null node.
    method PushBackList(lst: List) returns (ok: bool)
      requires lst != this && Valid() && lst.Valid() && Disjoint(q, lst.q)
      modifies this, lst, q, lst.q
      ensures ok <==> old(node) == null || old(lst.node) != null
      ensures ok ==> Valid() && lst.Valid() && lst.q == [] && q == old(q) + old(lst.q)
      ensures !ok ==> Valid() && lst.Valid() && q == old(q) && lst.q == old(lst.q)
    {
      hide Ring, Disjoint;
      if node == null {
        node := lst.node;
        q := lst.q;
      } else {
        if lst.node == null { return false; }
        ghost var r := lst.q;
        Neighbours(q, 0);
        Neighbours(r, 0);
        node.InsertListBefore(lst.node, q, r);
        Swap(r, q);
        q := q + r;
      }
      lst.node := null;
      lst.q := [];
      ok := true;
    }

    // Prepends a single node.  A node of the list becomes its first; a node of
    // another ring makes the list that ring, and leaves the old one behind.
    method PushFront(p: Node, ghost r: seq<Node>, ghost k: nat)
      requires Valid() && RingOf(p, r, k) && (p !in q ==> k == 0)
      modifies this, q, p
      ensures Valid()
      ensures p in old(q) ==> q == old(q)[k..] + old(q)[..k]
      ensures p !in old(q) ==> q == if |r| == 1 then [p] + old(q) else r
      ensures p !in old(q) && |r| > 1 && old(q) != [] ==> Ring(old(q))
    {
      if node != null {
        node.InsertBefore(p, q, r);
      }
      if p in q {
        Rotate(q, k);
        q := q[k..] + q[..k];
      } else if |r| == 1 {
        assert r == [p];
        q := [p] + q;
      } else {
        q := r;
      }
      node := p;
    }

    method PopFront() returns (p: Node?)
      requires Valid()
      modifies this, q
      ensures Valid()
      ensures old(q) == [] ==> p == null && q == []
      ensures old(q) != [] ==> p == old(q)[0] && q == old(q)[1..] && Ring([old(q)[0]])
    {
      if node == null {
        return null;
      }
      hide Ring;
      p := node;
      Neighbours(q, 0);
      node := node.RemoveFirst(q);
      q := q[1..];
    }

    method PopBack() returns (p: Node?)
      requires Valid()
      modifies this, q
      ensures Valid()
      ensures old(q) == [] ==> p == null && q == []
      ensures old(q) != [] ==>
                var n := |old(q)| - 1; p == old(q)[n] && q == old(q)[..n] && Ring([old(q)[n]])
    {
      if node == null {
        return null;
      }
      ghost var n := |q| - 1;
      assert q[0].prev == q[n] && q[n].next == q[0];
      assert q[n].prev in q;
      p := node.prev;
      if p == node {
        node := null;
        assert q == [p];
      } else {
        var _ := p.RemoveFromList(q, n);
        assert q[..n] + q[n + 1..] == q[..n];
      }
      q := q[..n];
    }

    // erase, and pop of an intrusive_list: the node leaves the ring it is in,
    // which is this list or another.
    method Erase(p: Node, ghost r: seq<Node>, ghost k: nat) returns (nx: Node?)
      requires Valid() && RingOf(p, r, k)
      modifies this, q, r
      ensures Valid() && Ring([p])
      ensures var ring := if p in old(q) then old(q) else r;
              && (|ring| > 1 ==> Ring(ring[..k] + ring[k + 1..]))
              && nx == if |ring| == 1 then null else if k + 1 < |ring| then ring[k + 1] else ring[0]
      ensures q == if p in old(q) then old(q)[..k] + old(q)[k + 1..] else old(q)
    {
      ghost var ring := if p in q then q else r;
      Neighbours(ring, k);
      nx := p.RemoveFromList(ring, k);
      if p == node {
        assert k == 0;
        node := nx;
      }
      if p in q {
        q := q[..k] + q[k + 1..];
      }
    }

    // Splits off the nodes up to and including p.
    method SplitFrontInclusive(p: Node?, ghost k: nat) returns (front: List)
      requires Valid() && (p != null ==> k < |q| && q[k] == p)
      modifies this, q
      ensures Valid() && fresh(front) && front.Valid()
      ensures p == null ==> q == old(q) && front.q == []
      ensures p != null ==> front.q == old(q)[..k + 1] && q == old(q)[k + 1..]
    {
      hide Ring;
      var head := node;
      if node == null || p == null {
        front := new List();
        return;
      }
      Neighbours(q, k);
      if p.next == node {
        front := new List.FromRing(head, q);
        node := null;
        q := [];
        return;
      }
      var restHead := p.next;
      Neighbours(q, 0);
      Neighbours(q, k + 1);
      node.Split(restHead, q, k + 1);
      node := restHead;
      front := new List.FromRing(head, q[..k + 1]);
      q := q[k + 1..];
    }

    // Splits off the nodes before p, or all nodes if p is null.
    method SplitFrontExclusive(p: Node?, ghost k: nat) returns (front: List)
      requires Valid() && if p != null then k < |q| && q[k] == p else k == |q|
      modifies this, q
      ensures Valid() && fresh(front) && front.Valid()
      ensures front.q == old(q)[..k] && q == old(q)[k..]
    {
      var head := node;
      if p == null {
        front := new List.FromRing(head, q);
        node := null;
        q := [];
        return;
      }
      hide Ring;
      if q != [] { Neighbours(q, 0); }
      if node == null || p == node {
        front := new List();
        return;
      }
      Neighbours(q, k);
      node.Split(p, q, k);
      node := p;
      front := new List.FromRing(head, q[..k]);
      q := q[k..];
    }

    // Splits off the longest prefix of nodes that satisfy pred.
    method SplitByPredicate(pred: Node -> bool) returns (front: List, ghost k: nat)
      requires Valid()
      modifies this, q
      ensures Valid() && fresh(front) && front.Valid()
      ensures k <= |old(q)| && front.q == old(q)[..k] && q == old(q)[k..]
      ensures forall i :: 0 <= i < k ==> pred(old(q)[i])
      ensures k < |old(q)| ==> !pred(old(q)[k])
    {
      if node == null {
        front := new List();
        k := 0;
        return;
      }
      var firstNotFit: Node? := null;
      var x: Node? := node;
      k := 0;
      while x != null
        invariant Valid() && q == old(q) && node == old(node) && k <= |q|
        invariant if x == null then k == |q| else k < |q| && q[k] == x
        invariant forall i :: 0 <= i < k ==> pred(q[i])
        invariant firstNotFit == null
        decreases |q| - k
      {
        if !pred(x) {
          firstNotFit := x;
          break;
        }
        assert q[k].next == x.next;
        x := x.next;
        if x == node {
          x := null;
        }
        k := k + 1;
      }
      front := SplitFrontExclusive(firstNotFit, k);
    }

    // round_robin_next: the first node becomes the last.
    method RoundRobinNext() returns (p: Node)
      requires Valid() && q != []
      modifies this
      ensures Valid() && p == old(q)[0] && q == old(q)[1..] + [p]
    {
      p := node;
      assert q[0].next == node.next;
      node := node.next;
      Rotate(q, 1);
      q := q[1..] + q[..1];
    }

    method Contains(x: Node) returns (found: bool)
      requires Valid()
      ensures found == (x in q)
    {
      found := false;
      var y: Node? := node;
      ghost var k := 0;
      while y != null
        invariant k <= |q| && x !in q[..k]
        invariant if y == null then k == |q| else k < |q| && q[k] == y
        decreases |q| - k
      {
        if x == y {
          return true;
        }
        assert q[k].next == y.next;
        y := y.next;
        if y == node {
          y := null;
        }
        k := k + 1;
      }
    }
  }

  // Appending a list and splitting it off again restores both, if there was
  // anything to append.
  method SpliceThenSplit(a: List, b: List) returns (ok: bool, front: List)
    requires a != b && a.Valid() && b.Valid() && Disjoint(a.q, b.q) && a.q != []
    modifies a, b, a.q, b.q
    ensures ok <==> old(b.q) != []
    ensures ok ==> front.Valid() && a.Valid() && front.q == old(a.q) && a.q == old(b.q)
  {
    ghost var n := |a.q|;
    var last := a.node.prev;
    assert a.q[0].prev == a.q[n - 1];
    front := b;
    ok := a.PushBackList(b);
    if ok { front := a.SplitFrontInclusive(last, n - 1); }
  }

  // A list of one node and an empty one.
  method SpliceEmpty() returns (ok: bool)
    ensures !ok
  {
    var a := new List();
    var b := new List();
    var n := new Node();
    a.PushBack(n, [n]);
    ok := a.PushBackList(b);
  }
}
