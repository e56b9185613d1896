// RangeLock of common/range-lock.h: a sorted set of held ranges, consulted
// through a single lower_bound.  A handle is the identity of a held range.
module RangeLock {
  import opened Arith

  datatype Range = Range(id: nat, offset: nat, length: nat)

  function End(x: Range): nat { SatAdd(x.offset, x.length) }

  predicate Contains(r: Range, x: Range) { r.offset <= x.offset && End(r) >= End(x) }

  ghost predicate NonEmpty(x: Range) { x.offset < End(x) }

  ghost predicate Overlap(x: Range, y: Range) { x.offset < End(y) && y.offset < End(x) }

  // Held ranges: not empty, in order, none reaching into the next.
  ghost predicate Held(ix: seq<Range>) {
    && (forall i :: 0 <= i < |ix| ==> NonEmpty(ix[i]))
    && (forall i, j :: 0 <= i < j < |ix| ==> End(ix[i]) <= ix[j].offset)
  }

  ghost predicate Handles(ix: seq<Range>, nextId: nat) {
    && (forall i :: 0 <= i < |ix| ==> ix[i].id < nextId)
    && (forall i, j :: 0 <= i < j < |ix| ==> ix[i].id != ix[j].id)
  }

  // No point belongs to two held ranges.
  lemma Exclusive(ix: seq<Range>, i: nat, j: nat, p: nat)
    requires Held(ix) && i < |ix| && j < |ix|
    requires ix[i].offset <= p < End(ix[i]) && ix[j].offset <= p < End(ix[j])
    ensures i == j
  {
  }

  // std::set::lower_bound: the first range that does not end at or before off.
  function LowerBound(ix: seq<Range>, off: nat): (k: nat)
    ensures k <= |ix| && (k < |ix| ==> End(ix[k]) > off)
    ensures forall i :: 0 <= i < k ==> End(ix[i]) <= off
  {
    if ix == [] || End(ix[0]) > off then 0
    else
      var k := LowerBound(ix[1..], off);
      assert forall i :: 0 <= i < k ==> ix[1..][i] == ix[i + 1];
      assert forall i :: 1 <= i < k + 1 ==> ix[i] == ix[1..][i - 1];
      k + 1
  }

  // The one neighbour that is looked at conflicts exactly when some held range does.
  lemma OneNeighbour(ix: seq<Range>, r: Range)
    requires Held(ix)
    ensures var k := LowerBound(ix, r.offset);
            (k < |ix| && ix[k].offset < End(r)) <==> exists i :: 0 <= i < |ix| && Overlap(ix[i], r)
  {
    hide LowerBound;
    var k := LowerBound(ix, r.offset);
    if k < |ix| && ix[k].offset < End(r) { assert Overlap(ix[k], r); }
    if i :| 0 <= i < |ix| && Overlap(ix[i], r) { assert i >= k; }
  }

  ghost function Insert(ix: seq<Range>, k: nat, r: Range): seq<Range>
    requires k <= |ix|
  { ix[..k] + [r] + ix[k..] }

  lemma InsertHeld(ix: seq<Range>, r: Range)
    requires Held(ix) && !(exists i :: 0 <= i < |ix| && Overlap(ix[i], r))
    ensures Held(Insert(ix, LowerBound(ix, r.offset), r)) <==> NonEmpty(r)
  {
    hide LowerBound, Insert;
    var k := LowerBound(ix, r.offset);
    forall i | k <= i < |ix| ensures End(r) <= ix[i].offset {
      EndsAfter(ix, k, i, r.offset);
      assert !Overlap(ix[i], r);
    }
    InsertOrder(ix, k, r);
  }

  lemma EndsAfter(ix: seq<Range>, k: nat, i: nat, off: nat)
    requires Held(ix) && k <= i < |ix| && End(ix[k]) > off
    ensures End(ix[i]) > off
  {
    assert NonEmpty(ix[i]);
  }

  lemma InsertOrder(ix: seq<Range>, k: nat, r: Range)
    requires Held(ix) && k <= |ix|
    requires forall i :: 0 <= i < k ==> End(ix[i]) <= r.offset
    requires forall i :: k <= i < |ix| ==> End(r) <= ix[i].offset
    ensures Held(Insert(ix, k, r)) <==> NonEmpty(r)
  {
    var t := Insert(ix, k, r);
    assert t[k] == r;
    forall i, j | 0 <= i < j < |t| ensures End(t[i]) <= t[j].offset {
      assert t[i] == (if i < k then ix[i] else if i == k then r else ix[i - 1]);
      assert t[j] == (if j < k then ix[j] else if j == k then r else ix[j - 1]);
    }
    forall i | 0 <= i < |t| ensures NonEmpty(r) ==> NonEmpty(t[i]) {
      assert t[i] == (if i < k then ix[i] else if i == k then r else ix[i - 1]);
    }
  }

  // ----- range unlock --------------------------------------------------------------------

  // The ranges that are not inside r.
  ghost function Without(ix: seq<Range>, r: Range): seq<Range> {
    if ix == [] then []
    else if Contains(r, ix[|ix| - 1]) then Without(ix[..|ix| - 1], r)
    else Without(ix[..|ix| - 1], r) + [ix[|ix| - 1]]
  }

  lemma {:induction false} WithoutNone(ix: seq<Range>, r: Range)
    requires forall i :: 0 <= i < |ix| ==> !Contains(r, ix[i])
    ensures Without(ix, r) == ix
  {
    if ix != [] { WithoutNone(ix[..|ix| - 1], r); }
  }

  lemma {:induction false} WithoutAppend(a: seq<Range>, b: seq<Range>, r: Range)
    ensures Without(a + b, r) == Without(a, r) + Without(b, r)
  {
    if b == [] {
      assert a + b == a;
    } else {
      assert (a + b)[..|a + b| - 1] == a + b[..|b| - 1];
      WithoutAppend(a, b[..|b| - 1], r);
    }
  }

  ghost predicate Ordered(ix: seq<Range>, limit: nat) { forall i :: 0 <= i < |ix| ==> End(ix[i]) <= limit }

  lemma {:induction false} WithoutOrdered(ix: seq<Range>, r: Range, limit: nat)
    requires Ordered(ix, limit)
    ensures Ordered(Without(ix, r), limit)
  {
    if ix != [] { WithoutOrdered(ix[..|ix| - 1], r, limit); }
  }

  lemma {:induction false} WithoutHeld(ix: seq<Range>, r: Range)
    requires Held(ix)
    ensures Held(Without(ix, r))
  {
    if ix != [] {
      var n := |ix| - 1;
      WithoutHeld(ix[..n], r);
      WithoutOrdered(ix[..n], r, ix[n].offset);
    }
  }

  // What is left is what was held and not inside r, nothing else.
  lemma {:induction false} WithoutMembers(ix: seq<Range>, r: Range, x: Range)
    ensures x in Without(ix, r) <==> x in ix && !Contains(r, x)
  {
    if ix != [] { WithoutMembers(ix[..|ix| - 1], r, x); }
  }

  // ----- adjusting a held range ------------------------------------------------------------

  function PrevEnd(ix: seq<Range>, k: nat): nat
    requires k < |ix|
  { if k == 0 then 0 else End(ix[k - 1]) }

  function NextOffset(ix: seq<Range>, k: nat): nat
    requires k < |ix|
  { if k + 1 == |ix| then MAX_U64 else ix[k + 1].offset }

  // The test of adjust_range.
  predicate Refused(ix: seq<Range>, k: nat, r: Range)
    requires k < |ix|
  {
    || (r.offset < ix[k].offset && r.offset < PrevEnd(ix, k))
    || (End(r) > End(ix[k]) && End(r) > NextOffset(ix, k))
  }

  // It refuses exactly what does not fit between the neighbours, that is, what
  // overlaps or passes another held range.
  lemma RefusedIff(ix: seq<Range>, k: nat, r: Range)
    requires Held(ix) && k < |ix|
    ensures Refused(ix, k, r) <==> !(PrevEnd(ix, k) <= r.offset && End(r) <= NextOffset(ix, k))
  {
    assert End(ix[k]) <= MAX_U64;
  }

  lemma AdjustHeld(ix: seq<Range>, k: nat, r: Range)
    requires Held(ix) && k < |ix| && !Refused(ix, k, r)
    ensures Held(ix[k := r]) <==> NonEmpty(r)
  {
    RefusedIff(ix, k, r);
    var t := ix[k := r];
    assert t[k] == r;
    forall i, j | 0 <= i < j < |t| ensures NonEmpty(r) ==> End(t[i]) <= t[j].offset {
      if j == k && i < k - 1 { assert End(ix[i]) <= ix[k - 1].offset < End(ix[k - 1]); }
      if i == k && j > k + 1 { assert ix[k + 1].offset < End(ix[k + 1]) <= ix[j].offset; }
    }
  }

  // The range r keeps to its side of every held range but the k-th.
  ghost predicate Fits(ix: seq<Range>, k: nat, r: Range)
    requires k < |ix|
  {
    && (forall i :: 0 <= i < k ==> End(ix[i]) <= r.offset)
    && (forall i :: k < i < |ix| ==> End(r) <= ix[i].offset)
  }

  lemma FitsIff(ix: seq<Range>, k: nat, r: Range)
    requires Held(ix) && k < |ix|
    ensures Refused(ix, k, r) <==> !Fits(ix, k, r)
  {
    RefusedIff(ix, k, r);
    if PrevEnd(ix, k) <= r.offset && End(r) <= NextOffset(ix, k) {
      forall i | 0 <= i < k ensures End(ix[i]) <= r.offset { assert NonEmpty(ix[k - 1]); }
      forall i | k < i < |ix| ensures End(r) <= ix[i].offset { assert NonEmpty(ix[k + 1]); }
    }
  }

  // ----- which ranges an operation touches -----------------------------------------------

  lemma InsertMembers(ix: seq<Range>, k: nat, r: Range, x: Range)
    requires k <= |ix|
    ensures x in Insert(ix, k, r) <==> x in ix || x == r
  {
    assert ix == ix[..k] + ix[k..];
  }

  lemma RemoveMembers(ix: seq<Range>, k: nat, nextId: nat, x: Range)
    requires Handles(ix, nextId) && k < |ix|
    ensures x in ix[..k] + ix[k + 1..] <==> x in ix && x.id != ix[k].id
  {
    var t := ix[..k] + ix[k + 1..];
    if x in t {
      var i :| 0 <= i < |t| && t[i] == x;
      assert x == ix[if i < k then i else i + 1];
    }
    if x in ix && x.id != ix[k].id {
      var i :| 0 <= i < |ix| && ix[i] == x;
      assert t[if i < k then i else i - 1] == x;
    }
  }

  lemma ReplaceMembers(ix: seq<Range>, k: nat, nextId: nat, r: Range, x: Range)
    requires Handles(ix, nextId) && k < |ix| && r.id == ix[k].id
    ensures x in ix[k := r] <==> x == r || (x in ix && x.id != r.id)
  {
    var t := ix[k := r];
    assert t[k] == r;
    if x in t && x != r {
      var i :| 0 <= i < |t| && t[i] == x;
      assert ix[i] == x;
    }
    if x in ix && x.id != r.id {
      var i :| 0 <= i < |ix| && ix[i] == x;
      assert t[i] == x;
    }
  }

  lemma ReplaceHandles(ix: seq<Range>, k: nat, nextId: nat, r: Range)
    requires Handles(ix, nextId) && k < |ix| && r.id == ix[k].id
    ensures Handles(ix[k := r], nextId)
  {
  }

  // ----- runs ------------------------------------------------------------------------------

  datatype State = State(ix: seq<Range>, nextId: nat)

  datatype Op =
    | TryLock(offset: nat, length: nat)
    | Adjust(id: nat, offset: nat, length: nat)
    | UnlockRange(offset: nat, length: nat)
    | UnlockHandle(id: nat)

  function Find(ix: seq<Range>, id: nat): (k: nat)
    ensures k <= |ix| && (k < |ix| ==> ix[k].id == id) && (k == |ix| ==> forall i :: 0 <= i < |ix| ==> ix[i].id != id)
  {
    if ix == [] then 0
    else if ix[|ix| - 1].id == id then |ix| - 1
    else
      var k := Find(ix[..|ix| - 1], id);
      if k == |ix| - 1 then |ix| else k
  }

  ghost function Step(s: State, op: Op): State {
    match op
    case TryLock(offset, length) =>
      var r := Range(s.nextId, offset, length);
      var k := LowerBound(s.ix, offset);
      if k < |s.ix| && s.ix[k].offset < End(r) then s else State(Insert(s.ix, k, r), s.nextId + 1)
    case Adjust(id, offset, length) =>
      var k := Find(s.ix, id);
      if k == |s.ix| || Refused(s.ix, k, Range(id, offset, length)) then s
      else s.(ix := s.ix[k := Range(id, offset, length)])
    case UnlockRange(offset, length) => s.(ix := Without(s.ix, Range(0, offset, length)))
    case UnlockHandle(id) =>
      var k := Find(s.ix, id);
      if k == |s.ix| then s else s.(ix := s.ix[..k] + s.ix[k + 1..])
  }

  // Requests to hold something hold at least one byte.
  ghost predicate AsksForBytes(op: Op) {
    match op
    case TryLock(offset, length) => offset < SatAdd(offset, length)
    case Adjust(_, offset, length) => offset < SatAdd(offset, length)
    case _ => true
  }

  lemma StepHeld(s: State, op: Op)
    requires Held(s.ix) && AsksForBytes(op)
    ensures Held(Step(s, op).ix)
  {
    match op
    case TryLock(offset, length) =>
      OneNeighbour(s.ix, Range(s.nextId, offset, length));
      if Step(s, op) != s { InsertHeld(s.ix, Range(s.nextId, offset, length)); }
    case Adjust(id, offset, length) =>
      var k := Find(s.ix, id);
      if k < |s.ix| && !Refused(s.ix, k, Range(id, offset, length)) { AdjustHeld(s.ix, k, Range(id, offset, length)); }
    case UnlockRange(offset, length) => WithoutHeld(s.ix, Range(0, offset, length));
    case UnlockHandle(id) => if Find(s.ix, id) < |s.ix| { RemoveHeld(s.ix, Find(s.ix, id)); }
  }

  lemma {:induction false} WithoutHandles(ix: seq<Range>, r: Range, nextId: nat)
    requires Handles(ix, nextId)
    ensures Handles(Without(ix, r), nextId)
  {
    if ix != [] {
      var n := |ix| - 1;
      WithoutHandles(ix[..n], r, nextId);
      forall i | 0 <= i < |Without(ix[..n], r)| ensures Without(ix[..n], r)[i].id != ix[n].id {
        WithoutMembers(ix[..n], r, Without(ix[..n], r)[i]);
      }
    }
  }

  lemma StepHandles(s: State, op: Op)
    requires Handles(s.ix, s.nextId)
    ensures Handles(Step(s, op).ix, Step(s, op).nextId)
  {
    match op
    case TryLock(offset, length) =>
      InsertHandles(s.ix, LowerBound(s.ix, offset), Range(s.nextId, offset, length));
    case Adjust(id, offset, length) =>
    case UnlockRange(offset, length) => WithoutHandles(s.ix, Range(0, offset, length), s.nextId);
    case UnlockHandle(id) => if Find(s.ix, id) < |s.ix| { RemoveHandles(s.ix, Find(s.ix, id), s.nextId); }
  }

  lemma InsertHandles(ix: seq<Range>, k: nat, r: Range)
    requires Handles(ix, r.id) && k <= |ix|
    ensures Handles(Insert(ix, k, r), r.id + 1)
  {
    var t := Insert(ix, k, r);
    forall i | 0 <= i < |t| ensures t[i] == if i < k then ix[i] else if i == k then r else ix[i - 1] { }
  }

  lemma RemoveHandles(ix: seq<Range>, k: nat, nextId: nat)
    requires Handles(ix, nextId) && k < |ix|
    ensures Handles(ix[..k] + ix[k + 1..], nextId)
  {
    var t := ix[..k] + ix[k + 1..];
    forall i | 0 <= i < |t| ensures t[i] == if i < k then ix[i] else ix[i + 1] { }
  }

  lemma RemoveHeld(ix: seq<Range>, k: nat)
    requires Held(ix) && k < |ix|
    ensures Held(ix[..k] + ix[k + 1..])
  {
    var t := ix[..k] + ix[k + 1..];
    forall i | 0 <= i < |t| ensures t[i] == if i < k then ix[i] else ix[i + 1] { }
  }

  ghost function Run(s: State, ops: seq<Op>): State {
    if ops == [] then s else Step(Run(s, ops[..|ops| - 1]), ops[|ops| - 1])
  }

  // Over every run the held ranges stay non-empty, sorted and disjoint, and
  // handles stay unique.
  lemma {:induction false} RunHeld(ops: seq<Op>)
    requires forall i :: 0 <= i < |ops| ==> AsksForBytes(ops[i])
    ensures var s := Run(State([], 0), ops); Held(s.ix) && Handles(s.ix, s.nextId)
  {
    if ops != [] {
      RunHeld(ops[..|ops| - 1]);
      var s := Run(State([], 0), ops[..|ops| - 1]);
      StepHeld(s, ops[|ops| - 1]);
      StepHandles(s, ops[|ops| - 1]);
    }
  }

  // An empty request is granted next to others and leaves an empty held range.
  lemma EmptyRequestHeld()
    ensures !Held(Run(State([], 0), [TryLock(5, 0)]).ix)
  {
    var ops := [TryLock(5, 0)];
    assert ops[..0] == [];
    assert Run(State([], 0), ops) == Step(State([], 0), TryLock(5, 0));
    assert Step(State([], 0), TryLock(5, 0)).ix[0] == Range(0, 5, 0);
  }

  // [o, o + n) runs from the start of x to where x or the request ends first.
  ghost predicate Conflict(x: Range, offset: nat, length: nat, o: nat, n: nat) {
    && Overlap(x, Range(0, offset, length)) && o == x.offset && n > 0
    && o + n == if End(x) <= SatAdd(offset, length) then End(x) else SatAdd(offset, length)
  }

  // ----- the lock ------------------------------------------------------------------------

  class RangeLock {
    var index: seq<Range>
    var nextId: nat

    ghost predicate Valid() reads this { Held(index) && Handles(index, nextId) }

    ghost function Now(): State reads this { State(index, nextId) }

    constructor ()
      ensures Valid() && Now() == State([], 0)
    { index, nextId := [], 0; }

    // Granted exactly when no held range overlaps; otherwise reports the part of
    // the first one that does, cut at the end of the request.
    method TryLockWait(offset: nat, length: nat) returns (ret: int, offset': nat, length': nat)
      requires Valid()
      modifies this
      ensures Now() == Step(old(Now()), TryLock(offset, length))
      ensures ret == 0 || ret == -1
      ensures ret == -1 <==> exists i :: 0 <= i < |old(index)| && Overlap(old(index)[i], Range(0, offset, length))
      ensures ret == -1 ==>
                exists i :: 0 <= i < |index| && Conflict(index[i], offset, length, offset', length')
                            && forall j :: 0 <= j < i ==> !Overlap(index[j], Range(0, offset, length))
      ensures ret == -1 ==> Now() == old(Now())
      ensures ret == 0 ==> forall x :: x in index <==> x in old(index) || x == Range(old(nextId), offset, length)
      ensures ret == 0 ==> offset' == offset && length' == length
      ensures ret == 0 ==> (Valid() <==> offset < SatAdd(offset, length))
    {
      var r := Range(nextId, offset, length);
      OneNeighbour(index, r);
      assert forall x :: Overlap(x, r) <==> Overlap(x, Range(0, offset, length));
      var k := LowerBound(index, offset);
      if k < |index| && index[k].offset < End(r) {
        var end := if End(index[k]) <= End(r) then End(index[k]) else End(r);
        assert Conflict(index[k], offset, length, index[k].offset, end - index[k].offset);
        return -1, index[k].offset, end - index[k].offset;
      }
      InsertHeld(index, r);
      StepHandles(Now(), TryLock(offset, length));
      forall x ensures x in Insert(index, k, r) <==> x in index || x == r { InsertMembers(index, k, r, x); }
      index, nextId := index[..k] + [r] + index[k..], nextId + 1;
      ret, offset', length' := 0, offset, length;
    }

    // try_lock_wait2: the same, with a handle for the granted range, or none.
    method TryLockWait2(offset: nat, length: nat) returns (h: int)
      requires Valid()
      modifies this
      ensures Now() == Step(old(Now()), TryLock(offset, length))
      ensures h < 0 <==> exists i :: 0 <= i < |old(index)| && Overlap(old(index)[i], Range(0, offset, length))
      ensures h < 0 ==> Now() == old(Now())
      ensures h >= 0 ==>
                && (forall x :: x in index <==> x in old(index) || x == Range(h, offset, length))
                && forall i :: 0 <= i < |old(index)| ==> old(index)[i].id != h
      ensures h >= 0 ==> (Valid() <==> offset < SatAdd(offset, length))
    {
      var r := Range(nextId, offset, length);
      OneNeighbour(index, r);
      assert forall x :: Overlap(x, r) <==> Overlap(x, Range(0, offset, length));
      var k := LowerBound(index, offset);
      if k < |index| && index[k].offset < End(r) { return -1; }
      InsertHeld(index, r);
      StepHandles(Now(), TryLock(offset, length));
      forall x ensures x in Insert(index, k, r) <==> x in index || x == r { InsertMembers(index, k, r, x); }
      h := nextId;
      index, nextId := index[..k] + [r] + index[k..], nextId + 1;
    }

    // Succeeds exactly when the new range stays clear of every other held range
    // and passes none; moves only that range.  Fails without a handle.
    method AdjustRange(h: int, offset: nat, length: nat) returns (ret: int)
      requires Valid() && (h >= 0 ==> exists i :: 0 <= i < |index| && index[i].id == h)
      modifies this
      ensures h < 0 ==> ret == -1 && Now() == old(Now())
      ensures h >= 0 ==> Now() == Step(old(Now()), Adjust(h, offset, length))
      ensures h >= 0 ==>
                var k := Find(old(index), h);
                && k < |old(index)|
                && (ret == 0 <==> Fits(old(index), k, Range(h, offset, length)))
      ensures ret == 0 || ret == -1
      ensures ret == -1 ==> Now() == old(Now())
      ensures ret == 0 ==> forall x :: x in index <==> x == Range(h, offset, length) || (x in old(index) && x.id != h)
      ensures ret == 0 ==> (Valid() <==> offset < SatAdd(offset, length))
    {
      if h < 0 { return -1; }
      var k := Find(index, h);
      var r := Range(h, offset, length);
      hide Held, Handles, Fits, Refused, Find;
      ReplaceHandles(index, k, nextId, r);
      FitsIff(index, k, r);
      if Refused(index, k, r) { return -1; }
      AdjustHeld(index, k, r);
      forall x ensures x in index[k := r] <==> x == r || (x in index && x.id != h) { ReplaceMembers(index, k, nextId, r, x); }
      index := index[k := r];
      ret := 0;
    }

    // Removes the range of the handle and no other.
    method Unlock(h: nat)
      requires Valid() && exists i :: 0 <= i < |index| && index[i].id == h
      modifies this
      ensures Valid() && Now() == Step(old(Now()), UnlockHandle(h))
      ensures forall x :: x in index <==> x in old(index) && x.id != h
    {
      var k := Find(index, h);
      forall x ensures x in index[..k] + index[k + 1..] <==> x in index && x.id != h { RemoveMembers(index, k, nextId, x); }
      RemoveHeld(index, k);
      RemoveHandles(index, k, nextId);
      hide Held, Handles;
      index := index[..k] + index[k + 1..];
    }

    // Removes exactly the held ranges that lie inside the given one.
    method UnlockContained(offset: nat, length: nat)
      requires Valid()
      modifies this
      ensures Valid() && Now() == Step(old(Now()), UnlockRange(offset, length))
      ensures forall x :: x in index <==> x in old(index) && !(offset <= x.offset && End(x) <= SatAdd(offset, length))
    {
      var r := Range(0, offset, length);
      ghost var ix := index;
      EraseContained(r);
      WithoutHeld(ix, r);
      WithoutHandles(ix, r, nextId);
      hide *;
      forall x ensures x in index <==> x in ix && !Contains(r, x) { WithoutMembers(ix, r, x); }
    }

    // Only the ranges from lower_bound to the end of r are looked at.
    method EraseContained(r: Range)
      requires Held(index)
      modifies this
      ensures nextId == old(nextId) && index == Without(old(index), r)
    {
      hide Held, Handles, Without;
      ghost var ix := index;
      var it := LowerBound(index, r.offset);
      ghost var at := it;
      BeforeStart(ix, r);
      WithoutNone(ix[..it], r);
      while it < |index| && index[it].offset < End(r)
        invariant 0 <= it <= |index| && 0 <= at <= |ix| && nextId == old(nextId)
        invariant index[it..] == ix[at..] && index[..it] == Without(ix[..at], r)
        decreases |index| - it
      {
        assert index[it] == index[it..][0] == ix[at..][0] == ix[at];
        WithoutStep(ix, at, r);
        assert index[it + 1..] == index[it..][1..] == ix[at..][1..] == ix[at + 1..];
        if Contains(r, index[it]) {
          index := index[..it] + index[it + 1..];
        } else {
          it := it + 1;
        }
        at := at + 1;
      }
      assert it < |index| ==> index[it] == index[it..][0] == ix[at..][0] == ix[at];
      assert index == index[..it] + index[it..];
      Unlocked(ix, at, r);
    }
  }

  // Ranges before lower_bound are not inside r.
  lemma BeforeStart(ix: seq<Range>, r: Range)
    requires Held(ix)
    ensures forall i :: 0 <= i < LowerBound(ix, r.offset) ==> !Contains(r, ix[i])
  {
  }

  lemma WithoutStep(ix: seq<Range>, at: nat, r: Range)
    requires at < |ix|
    ensures Without(ix[..at + 1], r) == if Contains(r, ix[at]) then Without(ix[..at], r) else Without(ix[..at], r) + [ix[at]]
  {
    assert ix[..at + 1][..at] == ix[..at];
  }

  // Ranges from the first that starts at or after the end of r are not inside r.
  lemma Unlocked(ix: seq<Range>, at: nat, r: Range)
    requires Held(ix) && at <= |ix| && (at < |ix| ==> ix[at].offset >= End(r))
    ensures Without(ix, r) == Without(ix[..at], r) + ix[at..]
  {
    hide *;
    PastEnd(ix, at, r);
    assert forall i :: 0 <= i < |ix[at..]| ==> ix[at..][i] == ix[at + i];
    WithoutNone(ix[at..], r);
    WithoutAppend(ix[..at], ix[at..], r);
    assert ix[..at] + ix[at..] == ix;
  }

  lemma PastEnd(ix: seq<Range>, at: nat, r: Range)
    requires Held(ix) && at <= |ix| && (at < |ix| ==> ix[at].offset >= End(r))
    ensures forall i :: at <= i < |ix| ==> !Contains(r, ix[i])
  {
    forall i | at <= i < |ix| ensures !Contains(r, ix[i]) {
      assert NonEmpty(ix[i]) && NonEmpty(ix[at]);
    }
  }
}
