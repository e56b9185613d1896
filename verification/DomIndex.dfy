// The key index of ecosystem/simple_dom.cpp and the same-key enumeration of
// ecosystem/simple_dom.h.  Keys are byte strings compared lexicographically.
module DomIndex {
  type Key = seq<nat>

  predicate Less(a: Key, b: Key) {
    b != [] && (a == [] || a[0] < b[0] || (a[0] == b[0] && Less(a[1..], b[1..])))
  }

  lemma {:induction false} LessTotal(a: Key, b: Key)
    ensures Less(a, b) || a == b || Less(b, a)
  {
    if a != [] && b != [] && a[0] == b[0] {
      LessTotal(a[1..], b[1..]);
      if a[1..] == b[1..] { assert a == [a[0]] + a[1..] && b == [b[0]] + b[1..]; }
    }
  }

  lemma {:induction false} LessTrans(a: Key, b: Key, c: Key)
    requires Less(a, b) && Less(b, c)
    ensures Less(a, c)
  {
    if a != [] && a[0] == b[0] == c[0] { LessTrans(a[1..], b[1..], c[1..]); }
  }

  lemma {:induction false} LessIrreflexive(a: Key)
    ensures !Less(a, a)
  {
    if a != [] { LessIrreflexive(a[1..]); }
  }

  datatype Child = Child(key: Key, equalKeyLast: bool, isLast: bool)

  // Compare: by key, then by position.
  predicate Before(c: seq<Child>, i: nat, j: nat)
    requires i < |c| && j < |c|
  {
    Less(c[i].key, c[j].key) || (c[i].key == c[j].key && i < j)
  }

  lemma BeforeTrans(c: seq<Child>, i: nat, j: nat, k: nat)
    requires i < |c| && j < |c| && k < |c| && Before(c, i, j) && Before(c, j, k)
    ensures Before(c, i, k)
  {
    if Less(c[i].key, c[j].key) && Less(c[j].key, c[k].key) { LessTrans(c[i].key, c[j].key, c[k].key); }
  }

  // ----- the index -------------------------------------------------------------------------

  ghost predicate Within(c: seq<Child>, ix: seq<nat>) { forall p :: 0 <= p < |ix| ==> ix[p] < |c| }

  ghost predicate Sorted(c: seq<Child>, ix: seq<nat>)
    requires Within(c, ix)
  { forall p, q :: 0 <= p < q < |ix| ==> Before(c, ix[p], ix[q]) }

  // Sorted, and every child is in it.
  ghost predicate IndexOk(c: seq<Child>, ix: seq<nat>) {
    |ix| == |c| && Within(c, ix) && Sorted(c, ix) && forall i :: 0 <= i < |c| ==> i in ix
  }

  // Keys do not decrease along the index.
  lemma KeysAscend(c: seq<Child>, ix: seq<nat>, p: nat, q: nat)
    requires Within(c, ix) && Sorted(c, ix) && p <= q < |ix|
    ensures !Less(c[ix[q]].key, c[ix[p]].key)
  {
    LessIrreflexive(c[ix[p]].key);
    if p < q {
      assert Before(c, ix[p], ix[q]);
      if Less(c[ix[q]].key, c[ix[p]].key) && Less(c[ix[p]].key, c[ix[q]].key) {
        LessTrans(c[ix[q]].key, c[ix[p]].key, c[ix[q]].key);
        LessIrreflexive(c[ix[q]].key);
      }
    }
  }

  // Only the keys matter, not the flags.
  ghost predicate SameKeys(c: seq<Child>, d: seq<Child>) {
    |c| == |d| && forall i :: 0 <= i < |c| ==> c[i].key == d[i].key
  }

  lemma IndexSameKeys(c: seq<Child>, d: seq<Child>, ix: seq<nat>)
    requires SameKeys(c, d) && IndexOk(c, ix)
    ensures IndexOk(d, ix)
  {
    forall p, q | 0 <= p < q < |ix| ensures Before(d, ix[p], ix[q]) { assert Before(c, ix[p], ix[q]); }
  }

  // Inserting one more position into a sorted index.
  method InsertSorted(c: seq<Child>, ix: seq<nat>, i: nat) returns (r: seq<nat>)
    requires Within(c, ix) && Sorted(c, ix) && i < |c| && forall p :: 0 <= p < |ix| ==> ix[p] < i
    ensures Within(c, r) && Sorted(c, r) && |r| == |ix| + 1 && forall x :: x in r <==> x == i || x in ix
  {
    var k := 0;
    while k < |ix| && Before(c, ix[k], i)
      invariant 0 <= k <= |ix| && forall p :: 0 <= p < k ==> Before(c, ix[p], i)
    {
      k := k + 1;
    }
    r := ix[..k] + [i] + ix[k..];
    AfterInsert(c, ix, k, i);
    assert forall x :: x in ix <==> x in ix[..k] || x in ix[k..] by { assert ix == ix[..k] + ix[k..]; }
  }

  lemma AfterInsert(c: seq<Child>, ix: seq<nat>, k: nat, i: nat)
    requires Within(c, ix) && Sorted(c, ix) && i < |c| && k <= |ix| && forall p :: 0 <= p < |ix| ==> ix[p] < i
    requires forall p :: 0 <= p < k ==> Before(c, ix[p], i)
    requires k < |ix| ==> !Before(c, ix[k], i)
    ensures Within(c, ix[..k] + [i] + ix[k..]) && Sorted(c, ix[..k] + [i] + ix[k..])
  {
    var r := ix[..k] + [i] + ix[k..];
    forall p | 0 <= p < |r| ensures r[p] == if p < k then ix[p] else if p == k then i else ix[p - 1] { }
    forall q | k <= q < |ix| ensures Before(c, i, ix[q]) {
      LessTotal(c[ix[k]].key, c[i].key);
      assert Before(c, i, ix[k]);
      if k < q { BeforeTrans(c, i, ix[k], ix[q]); }
    }
    forall p, q | 0 <= p < q < |r| ensures Before(c, r[p], r[q]) {
      if p < k && q > k { BeforeTrans(c, ix[p], i, ix[q - 1]); }
    }
  }

  // std::sort over the positions 0, 1, ...
  method SortIndex(c: seq<Child>) returns (ix: seq<nat>)
    ensures IndexOk(c, ix)
  {
    ix := [];
    for i := 0 to |c|
      invariant |ix| == i && Within(c, ix) && Sorted(c, ix) && forall x :: x in ix <==> 0 <= x < i
    {
      assert forall p :: 0 <= p < |ix| ==> ix[p] in ix;
      ix := InsertSorted(c, ix, i);
    }
  }

  // ----- flags ------------------------------------------------------------------------------

  // No later child has the same key.
  ghost predicate LastOfKey(c: seq<Child>, i: nat)
    requires i < |c|
  { forall j :: i < j < |c| ==> c[j].key != c[i].key }

  // No child after i up to j has the key of i.
  ghost predicate NoneUpTo(c: seq<Child>, i: nat, j: nat)
    requires i <= j < |c|
  { forall k :: i < k <= j ==> c[k].key != c[i].key }

  lemma NoneNext(c: seq<Child>, i: nat, j: nat)
    requires i <= j < |c| && NoneUpTo(c, i, j)
    ensures j + 1 == |c| ==> LastOfKey(c, i)
    ensures j + 1 < |c| && c[j + 1].key != c[i].key ==> NoneUpTo(c, i, j + 1)
    ensures j + 1 < |c| && c[j + 1].key == c[i].key ==> !LastOfKey(c, i)
  {
  }

  // found lists, in order, all children before limit that have the key.
  ghost predicate FoundUpTo(c: seq<Child>, key: Key, found: seq<nat>, limit: nat)
    requires limit <= |c|
  {
    && (forall p, q :: 0 <= p < q < |found| ==> found[p] < found[q])
    && (forall p :: 0 <= p < |found| ==> found[p] < limit && c[found[p]].key == key)
    && (forall i :: 0 <= i < limit && c[i].key == key ==> i in found)
  }

  lemma FoundOne(c: seq<Child>, key: Key, found: seq<nat>, i: nat, next: int)
    requires i < |c| && c[i].key == key && FoundUpTo(c, key, found, i)
    requires if next == -1 then LastOfKey(c, i) else i < next < |c| && NoneUpTo(c, i, next - 1)
    ensures FoundUpTo(c, key, found + [i], if next == -1 then |c| else next)
  {
    forall j | i < j < if next == -1 then |c| else next ensures c[j].key != key { }
  }

  lemma LastSame(c: seq<Child>, d: seq<Child>, i: nat)
    requires SameKeys(c, d) && i < |c|
    ensures LastOfKey(c, i) <==> LastOfKey(d, i)
  {
  }

  // In the index, the last child of a key is followed by a different key or by nothing.
  lemma LastInIndex(c: seq<Child>, ix: seq<nat>, p: nat)
    requires IndexOk(c, ix) && p < |ix|
    ensures LastOfKey(c, ix[p]) <==> p + 1 == |ix| || c[ix[p + 1]].key != c[ix[p]].key
  {
    if p + 1 < |ix| {
      assert Before(c, ix[p], ix[p + 1]);
      LessIrreflexive(c[ix[p]].key);
      if c[ix[p + 1]].key != c[ix[p]].key {
        forall j | ix[p] < j < |c| ensures c[j].key != c[ix[p]].key { SameKeyLater(c, ix, p, j); }
      }
    } else {
      forall j | ix[p] < j < |c| ensures c[j].key != c[ix[p]].key { SameKeyLater(c, ix, p, j); }
    }
  }

  // A later child of the same key is found right behind in the index.
  lemma SameKeyLater(c: seq<Child>, ix: seq<nat>, p: nat, j: nat)
    requires IndexOk(c, ix) && p < |ix| && ix[p] < j < |c|
    ensures c[j].key == c[ix[p]].key ==> p + 1 < |ix| && c[ix[p + 1]].key == c[ix[p]].key
  {
    if c[j].key == c[ix[p]].key {
      assert j in ix;
      var q :| 0 <= q < |ix| && ix[q] == j;
      if q < p { assert Before(c, ix[q], ix[p]); LessIrreflexive(c[j].key); }
      assert p < q;
      KeysAscend(c, ix, p, p + 1);
      KeysAscend(c, ix, p + 1, q);
      LessTotal(c[ix[p]].key, c[ix[p + 1]].key);
    }
  }

  // d is c with the flags of the first k places of the index set as they should
  // be, and no others.
  ghost predicate Marked(c: seq<Child>, d: seq<Child>, ix: seq<nat>, k: nat) {
    && SameKeys(c, d) && |ix| == |c| && Within(c, ix) && (forall i :: 0 <= i < |d| ==> !d[i].isLast)
    && (forall p :: 0 <= p < k && p < |ix| ==> (d[ix[p]].equalKeyLast <==> LastOfKey(c, ix[p])))
    && (forall p :: k <= p < |ix| ==> !d[ix[p]].equalKeyLast)
  }

  lemma NothingMarked(c: seq<Child>, ix: seq<nat>)
    requires IndexOk(c, ix) && forall i :: 0 <= i < |c| ==> !c[i].equalKeyLast && !c[i].isLast
    ensures Marked(c, c, ix, 0)
  {
  }

  lemma InIndex(c: seq<Child>, d: seq<Child>, ix: seq<nat>, p: nat)
    requires IndexOk(c, ix) && SameKeys(c, d) && p < |c|
    ensures |ix| == |c| == |d| && ix[p] < |c| && d[ix[p]].key == c[ix[p]].key
  {
  }

  lemma MarkOne(c: seq<Child>, d: seq<Child>, ix: seq<nat>, k: nat)
    requires IndexOk(c, ix) && Marked(c, d, ix, k) && k < |ix|
    ensures ix[k] < |d|
    ensures LastOfKey(c, ix[k]) ==> Marked(c, d[ix[k] := d[ix[k]].(equalKeyLast := true)], ix, k + 1)
    ensures !LastOfKey(c, ix[k]) ==> Marked(c, d, ix, k + 1)
  {
    hide LastOfKey;
    IndexDistinct(c, ix);
  }

  lemma AllMarked(c: seq<Child>, d: seq<Child>, ix: seq<nat>)
    requires IndexOk(c, ix) && Marked(c, d, ix, |c|)
    ensures SameKeys(c, d) && forall i :: 0 <= i < |d| ==> !d[i].isLast
    ensures forall i :: 0 <= i < |d| ==> (d[i].equalKeyLast <==> LastOfKey(d, i))
  {
    hide LastOfKey;
    forall i | 0 <= i < |d| ensures d[i].equalKeyLast <==> LastOfKey(d, i) {
      assert i in ix;
      var p :| 0 <= p < |ix| && ix[p] == i;
      LastSame(c, d, i);
    }
  }

  const MAX_NCHILDREN := 65535

  class DocNode {
    var children: seq<Child>
    var index: seq<nat>
    var indexed: bool

    // The flags say what they mean, and the index, if there is one, is complete.
    ghost predicate Valid()
      reads this
    {
      && (forall i :: 0 <= i < |children| ==> (children[i].isLast <==> i == |children| - 1))
      && (indexed ==> IndexOk(children, index))
      && (indexed ==> forall i :: 0 <= i < |children| ==> (children[i].equalKeyLast <==> LastOfKey(children, i)))
      && (!indexed ==> forall i :: 0 <= i < |children| ==> !children[i].equalKeyLast)
    }

    constructor ()
      ensures Valid() && children == [] && !indexed
    { children, index, indexed := [], [], false; }

    // set_children: too many nodes are cut off; then sorting and flags.
    method SetChildren(nodes: seq<Key>, indexing: bool)
      requires children == [] && Valid()
      modifies this
      ensures Valid() && (nodes != [] ==> indexed == indexing)
      ensures |children| == if |nodes| > MAX_NCHILDREN then MAX_NCHILDREN else |nodes|
      ensures forall i :: 0 <= i < |children| ==> children[i].key == nodes[i]
    {
      if nodes == [] { return; }
      var n := if |nodes| > MAX_NCHILDREN then MAX_NCHILDREN else |nodes|;
      children := seq(n, i requires 0 <= i < n => Child(nodes[i], false, false));
      indexed := indexing;
      if indexing {
        index := SortIndex(children);
        MarkLastOfKey();
      }
      ghost var c := children;
      children := children[n - 1 := children[n - 1].(isLast := true)];
      if indexing {
        IndexSameKeys(c, children, index);
        forall i | 0 <= i < n ensures LastOfKey(children, i) <==> LastOfKey(c, i) { LastSame(c, children, i); }
      }
    }

    // The loop over the sorted index that sets FLAG_EQUAL_KEY_LAST.
    method MarkLastOfKey()
      requires |children| > 0 && IndexOk(children, index)
      requires forall i :: 0 <= i < |children| ==> !children[i].equalKeyLast && !children[i].isLast
      modifies this`children
      ensures SameKeys(old(children), children) && forall i :: 0 <= i < |children| ==> !children[i].isLast
      ensures forall i :: 0 <= i < |children| ==> (children[i].equalKeyLast <==> LastOfKey(children, i))
    {
      hide IndexOk, Marked, LastOfKey;
      ghost var c := children;
      NothingMarked(c, index);
      for i := 1 to |children|
        invariant Marked(c, children, index, i - 1) && SameKeys(c, children)
      {
        InIndex(c, children, index, i - 1);
        InIndex(c, children, index, i);
        var a, b := index[i - 1], index[i];
        LastInIndex(c, index, i - 1);
        MarkOne(c, children, index, i - 1);
        if children[a].key != children[b].key {
          children := children[a := children[a].(equalKeyLast := true)];
        }
      }
      InIndex(c, children, index, |children| - 1);
      var b := index[|children| - 1];
      LastInIndex(c, index, |children| - 1);
      MarkOne(c, children, index, |children| - 1);
      children := children[b := children[b].(equalKeyLast := true)];
      AllMarked(c, children, index);
    }

    // std::lower_bound: the first place in the index whose key is not less.
    method LowerBound(key: Key) returns (p: nat)
      requires IndexOk(children, index)
      ensures p <= |index|
      ensures forall q :: 0 <= q < p ==> Less(children[index[q]].key, key)
      ensures forall q :: p <= q < |index| ==> !Less(children[index[q]].key, key)
    {
      var lo, hi := 0, |index|;
      while lo < hi
        invariant 0 <= lo <= hi <= |index|
        invariant forall q :: 0 <= q < lo ==> Less(children[index[q]].key, key)
        invariant forall q :: hi <= q < |index| ==> !Less(children[index[q]].key, key)
      {
        var mid := (lo + hi) / 2;
        if Less(children[index[mid]].key, key) {
          forall q | 0 <= q < mid ensures Less(children[index[q]].key, key) { KeyBelow(children, index, q, mid, key); }
          lo := mid + 1;
        } else {
          forall q | mid < q < |index| ensures !Less(children[index[q]].key, key) { KeyAbove(children, index, mid, q, key); }
          hi := mid;
        }
      }
      p := lo;
    }

    // get(key): with an index, the first child with that key in document order.
    method Get(key: Key) returns (r: int)
      requires Valid()
      ensures !indexed ==> r == -1
      ensures indexed && r == -1 ==> forall i :: 0 <= i < |children| ==> children[i].key != key
      ensures r != -1 ==> 0 <= r < |children| && children[r].key == key
      ensures r != -1 ==> forall i :: 0 <= i < r ==> children[i].key != key
    {
      if children == [] { return -1; }
      if !indexed { return -1; }
      var p := LowerBound(key);
      if p == |index| || children[index[p]].key != key {
        forall i | 0 <= i < |children| ensures children[i].key != key { Absent(children, index, p, key, i); }
        return -1;
      }
      r := index[p];
      forall i | 0 <= i < r ensures children[i].key != key { FirstOfKey(children, index, p, key, i); }
    }

    // SameKeyEnumerator::next: the next child with the same key, if any, with or
    // without an index.
    method NextSameKey(i: nat) returns (r: int)
      requires Valid() && i < |children|
      ensures r == -1 <==> LastOfKey(children, i)
      ensures r != -1 ==> i < r < |children| && children[r].key == children[i].key && NoneUpTo(children, i, r - 1)
    {
      hide *;
      Flags(i);
      if children[i].equalKeyLast { return -1; }
      var j := i;
      while true
        invariant i <= j < |children| && NoneUpTo(children, i, j)
        decreases |children| - j
      {
        Flags(j);
        NoneNext(children, i, j);
        if children[j].isLast { return -1; }
        j := j + 1;
        if children[j].key == children[i].key { break; }
      }
      r := j;
    }

    lemma Flags(i: nat)
      requires Valid() && i < |children|
      ensures children[i].equalKeyLast ==> LastOfKey(children, i)
      ensures children[i].isLast <==> i == |children| - 1
      ensures NoneUpTo(children, i, i)
    {
    }

    // enumerable_children(key): all children with that key, once each, in
    // document order; none without an index.
    method ChildrenWithKey(key: Key) returns (found: seq<nat>)
      requires Valid()
      ensures indexed ==> FoundUpTo(children, key, found, |children|)
      ensures !indexed ==> found == []
    {
      hide *;
      found := [];
      var i := Get(key);
      if !indexed { return; }
      FoundNone(children, key, i);
      while i != -1
        invariant -1 <= i < |children| && (i != -1 ==> children[i].key == key)
        invariant FoundUpTo(children, key, found, if i == -1 then |children| else i)
        decreases if i == -1 then 0 else |children| - i
      {
        var next := NextSameKey(i);
        FoundOne(children, key, found, i, next);
        found := found + [i];
        i := next;
      }
    }
  }

  lemma FoundNone(c: seq<Child>, key: Key, i: int)
    requires -1 <= i < |c| && forall j :: 0 <= j < (if i == -1 then |c| else i) ==> c[j].key != key
    ensures FoundUpTo(c, key, [], if i == -1 then |c| else i)
  {
  }

  lemma IndexDistinct(c: seq<Child>, ix: seq<nat>)
    requires IndexOk(c, ix)
    ensures forall p, q :: 0 <= p < q < |ix| ==> ix[p] != ix[q]
  {
    forall p, q | 0 <= p < q < |ix| ensures ix[p] != ix[q] {
      assert Before(c, ix[p], ix[q]);
      LessIrreflexive(c[ix[p]].key);
    }
  }

  lemma KeyBelow(c: seq<Child>, ix: seq<nat>, q: nat, mid: nat, key: Key)
    requires IndexOk(c, ix) && q < mid < |ix| && Less(c[ix[mid]].key, key)
    ensures Less(c[ix[q]].key, key)
  {
    assert Before(c, ix[q], ix[mid]);
    if Less(c[ix[q]].key, c[ix[mid]].key) { LessTrans(c[ix[q]].key, c[ix[mid]].key, key); }
  }

  lemma KeyAbove(c: seq<Child>, ix: seq<nat>, mid: nat, q: nat, key: Key)
    requires IndexOk(c, ix) && mid < q < |ix| && !Less(c[ix[mid]].key, key)
    ensures !Less(c[ix[q]].key, key)
  {
    if Less(c[ix[q]].key, key) { KeyBelow(c, ix, mid, q, key); }
  }

  lemma Absent(c: seq<Child>, ix: seq<nat>, p: nat, key: Key, i: nat)
    requires IndexOk(c, ix) && p <= |ix| && i < |c|
    requires forall q :: 0 <= q < p ==> Less(c[ix[q]].key, key)
    requires forall q :: p <= q < |ix| ==> !Less(c[ix[q]].key, key)
    requires p < |ix| ==> c[ix[p]].key != key
    ensures c[i].key != key
  {
    LessIrreflexive(key);
    assert i in ix;
    var q :| 0 <= q < |ix| && ix[q] == i;
    if p <= q {
      KeysAscend(c, ix, p, q);
      LessTotal(c[ix[p]].key, key);
    }
  }

  lemma FirstOfKey(c: seq<Child>, ix: seq<nat>, p: nat, key: Key, i: nat)
    requires IndexOk(c, ix) && p < |ix| && c[ix[p]].key == key && i < ix[p]
    requires forall q :: 0 <= q < p ==> Less(c[ix[q]].key, key)
    ensures c[i].key != key
  {
    LessIrreflexive(key);
    assert i in ix;
    var q :| 0 <= q < |ix| && ix[q] == i;
    if p < q { assert Before(c, ix[p], ix[q]); }
  }
}
