// The object pool of common/identity-pool.cpp.  The lock is dropped around the
// constructor and destructor callbacks, so do_scale is two steps: taking a
// slot off the stack, and later destroying what that slot holds.
module IdentityPool {
  type Obj = nat

  datatype Popped = Nothing | Slot(x: nat, obj: Obj)

  // items[..size] is the stack of idle objects; above it the slots keep stale
  // values.  popped is the slot a scaling thread has taken off and not yet
  // destroyed, with the object that was in it.
  datatype State = State(
    items: seq<Obj>, size: nat, minIdle: nat, refcnt: int,
    held: set<Obj>, destroyed: set<Obj>, made: set<Obj>, popped: Popped)

  function Init(capacity: nat): State {
    State(seq(capacity, _ => 0), 0, 0, 0, {}, {}, {}, Nothing)
  }

  // made is what get() creates when the stack is empty.
  datatype Op = Get(spare: Obj) | Put(obj: Obj) | ScalePop | ScaleDestroy

  predicate Enabled(s: State, op: Op) {
    match op
    case Get(o) => o !in s.made
    case Put(o) => o in s.held
    case ScalePop => s.size > 0 && s.popped.Nothing?
    case ScaleDestroy => s.popped.Slot?
  }

  function Step(s: State, op: Op): State
    requires s.size <= |s.items| && Enabled(s, op)
    requires s.popped.Slot? ==> s.popped.x < |s.items|
  {
    match op
    case Get(spare) =>
      if s.size > 0 then
        var n := s.size - 1;
        s.(size := n, held := s.held + {s.items[n]}, minIdle := if n < s.minIdle then n else s.minIdle,
           refcnt := s.refcnt + 1)
      else
        s.(held := s.held + {spare}, made := s.made + {spare}, refcnt := s.refcnt + 1)
    case Put(o) =>
      if s.size < |s.items| then
        s.(items := s.items[s.size := o], size := s.size + 1, held := s.held - {o}, refcnt := s.refcnt - 1)
      else
        s.(held := s.held - {o}, destroyed := s.destroyed + {o}, refcnt := s.refcnt - 1)
    case ScalePop => s.(size := s.size - 1, popped := Slot(s.size - 1, s.items[s.size - 1]))
    case ScaleDestroy => s.(destroyed := s.destroyed + {s.items[s.popped.x]}, popped := Nothing)
  }

  // ----- every object is in exactly one place --------------------------------------------

  ghost function Idle(s: State): set<Obj>
    requires s.size <= |s.items|
  { set i | 0 <= i < s.size :: s.items[i] }

  ghost function InFlight(s: State): set<Obj> { if s.popped.Slot? then {s.popped.obj} else {} }

  ghost predicate Shape(s: State) { s.size <= |s.items| && (s.popped.Slot? ==> s.popped.x < |s.items|) }

  ghost predicate Unique(s: State)
    requires s.size <= |s.items|
  { forall i, j :: 0 <= i < j < s.size ==> s.items[i] != s.items[j] }

  // Idle, held, destroyed and in flight: disjoint, and together all objects.
  ghost predicate Partition(s: State) {
    && Shape(s) && Unique(s)
    && Idle(s) !! s.held && Idle(s) !! s.destroyed && s.held !! s.destroyed
    && InFlight(s) !! Idle(s) && InFlight(s) !! s.held && InFlight(s) !! s.destroyed
    && Idle(s) + s.held + s.destroyed + InFlight(s) == s.made
  }

  lemma IdlePush(s: State, o: Obj)
    requires s.size < |s.items|
    ensures Idle(s.(items := s.items[s.size := o], size := s.size + 1)) == Idle(s) + {o}
  {
    var t := s.(items := s.items[s.size := o], size := s.size + 1);
    assert forall i :: 0 <= i < s.size ==> t.items[i] == s.items[i];
    assert t.items[s.size] == o;
    assert forall x :: x in Idle(s) ==> x in Idle(t);
  }

  lemma IdlePop(s: State)
    requires 0 < s.size <= |s.items| && Unique(s)
    ensures Idle(s.(size := s.size - 1)) == Idle(s) - {s.items[s.size - 1]} && s.items[s.size - 1] in Idle(s)
  {
  }

  // Every step keeps the partition, as long as a slot that has been taken off
  // still holds the same object when it is destroyed.
  lemma StepPartition(s: State, op: Op)
    requires Partition(s) && Enabled(s, op)
    requires op == ScaleDestroy ==> s.items[s.popped.x] == s.popped.obj
    ensures Partition(Step(s, op))
  {
    hide Idle;
    match op
    case Get(spare) => if s.size > 0 { IdlePop(s); SameIdle(s.(size := s.size - 1), Step(s, op)); } else { SameIdle(s, Step(s, op)); }
    case Put(o) =>
      if s.size < |s.items| {
        IdlePush(s, o);
        PutUnique(s, o);
        SameIdle(s.(items := s.items[s.size := o], size := s.size + 1), Step(s, op));
      } else {
        SameIdle(s, Step(s, op));
      }
    case ScalePop => IdlePop(s); SameIdle(s.(size := s.size - 1), Step(s, op));
    case ScaleDestroy => SameIdle(s, Step(s, op));
  }

  // m_refcnt, on which the destructor waits, counts the objects that are held.
  lemma StepRefcnt(s: State, op: Op)
    requires Partition(s) && Enabled(s, op) && s.refcnt == |s.held|
    ensures Step(s, op).refcnt == |Step(s, op).held|
  {
    hide Partition, Idle;
    InShape(s);
    if op.Get? { GetsUnheld(s, op.spare); }
  }

  lemma SameIdle(s: State, t: State)
    requires s.size == t.size <= |s.items| && s.items == t.items
    ensures Idle(s) == Idle(t)
  {
  }

  lemma PutUnique(s: State, o: Obj)
    requires s.size < |s.items| && Unique(s) && o !in Idle(s)
    ensures Unique(s.(items := s.items[s.size := o], size := s.size + 1))
  {
  }

  // The condition is exact: destroying anything else loses the object that was
  // taken off.
  lemma DestroyExact(s: State)
    requires Partition(s) && s.popped.Slot?
    ensures Partition(Step(s, ScaleDestroy)) <==> s.items[s.popped.x] == s.popped.obj
  {
    var t := Step(s, ScaleDestroy);
    if s.items[s.popped.x] == s.popped.obj {
      StepPartition(s, ScaleDestroy);
    } else {
      SameIdle(s, t);
      assert s.popped.obj in s.made && s.popped.obj !in Idle(t) + t.held + t.destroyed + InFlight(t);
    }
  }

  // ----- runs ---------------------------------------------------------------------------

  ghost predicate Linked(s: State, op: Op, t: State) { Shape(s) && Enabled(s, op) && t == Step(s, op) }

  ghost predicate Run(tr: seq<State>, ops: seq<Op>) {
    && |tr| == |ops| + 1 && (exists c: nat :: tr[0] == Init(c))
    && forall i :: 0 <= i < |ops| ==> Linked(tr[i], ops[i], tr[i + 1])
  }

  // Nothing is put back between taking a slot off and destroying its object.
  ghost predicate NoPutWhilePopped(tr: seq<State>, ops: seq<Op>) {
    && |tr| == |ops| + 1
    && forall i :: 0 <= i < |ops| && ops[i].Put? ==> tr[i].popped.Nothing?
  }

  ghost predicate SlotKept(s: State) { s.popped.Slot? ==> s.popped.x < |s.items| && s.items[s.popped.x] == s.popped.obj }

  // In all such runs every object is always in exactly one place, the idle ones
  // never exceed the capacity, and the reference count is that of the held ones.
  lemma {:induction false} RunPartition(tr: seq<State>, ops: seq<Op>)
    requires Run(tr, ops) && NoPutWhilePopped(tr, ops)
    ensures Partition(tr[|ops|]) && SlotKept(tr[|ops|]) && tr[|ops|].size <= |tr[0].items| == |tr[|ops|].items|
    ensures tr[|ops|].refcnt == |tr[|ops|].held|
  {
    if ops == [] {
      InitPartition(|tr[0].items|);
    } else {
      hide Partition, Step, Enabled, SlotKept, Init;
      var n := |ops| - 1;
      RunPartition(tr[..n + 1], ops[..n]);
      assert Linked(tr[n], ops[n], tr[n + 1]);
      SlotStep(tr[n], ops[n]);
      StepPartition(tr[n], ops[n]);
      StepRefcnt(tr[n], ops[n]);
      InShape(tr[n + 1]);
    }
  }

  lemma InitPartition(capacity: nat)
    ensures Partition(Init(capacity)) && SlotKept(Init(capacity)) && |Init(capacity).items| == capacity
  {
  }

  lemma InShape(s: State)
    requires Partition(s)
    ensures Shape(s)
  {
  }

  lemma SlotStep(s: State, op: Op)
    requires Shape(s) && Enabled(s, op) && SlotKept(s) && (op.Put? ==> s.popped.Nothing?)
    ensures SlotKept(Step(s, op)) && |Step(s, op).items| == |s.items|
    ensures op == ScaleDestroy ==> s.items[s.popped.x] == s.popped.obj
  {
  }

  // One round of do_scale with nobody in between.
  lemma ScaleOne(s: State)
    requires Partition(s) && s.size > 0 && s.popped.Nothing?
    ensures Shape(s) && Partition(s.(size := s.size - 1, destroyed := s.destroyed + {s.items[s.size - 1]}))
  {
    hide Partition;
    InShape(s);
    StepPartition(s, ScalePop);
    InShape(Step(s, ScalePop));
    StepPartition(Step(s, ScalePop), ScaleDestroy);
    assert Step(Step(s, ScalePop), ScaleDestroy) == s.(size := s.size - 1, destroyed := s.destroyed + {s.items[s.size - 1]});
  }

  lemma AnyMinIdle(s: State, m: nat)
    requires Partition(s)
    ensures Partition(s.(minIdle := m))
  {
    SameIdle(s, s.(minIdle := m));
  }

  // get returns what nobody holds.
  lemma GetsUnheld(s: State, spare: Obj)
    requires Partition(s) && spare !in s.made
    ensures s.size <= |s.items| && (if s.size > 0 then s.items[s.size - 1] else spare) !in s.held
  {
    if s.size > 0 { IdlePop(s); }
  }

  // Otherwise not, if another vCPU puts an object back between the unlock and the
  // reading of the slot (cooperative threads of one vCPU do not get in between):
  // with room for two, object 1 is put back, taken off, object 2
  // is put into its slot, and then destroyed although it is idle.
  lemma DestroysIdle() returns (tr: seq<State>, ops: seq<Op>)
    ensures Run(tr, ops) && var s := tr[|ops|]; s.size == 1 && |s.items| == 2 && s.items[0] == 2 && 2 in s.destroyed && !Partition(s)
  {
    ops := [Get(1), Get(2), Put(1), ScalePop, Put(2), ScaleDestroy];
    var s0 := Init(2);
    var s1 := Step(s0, ops[0]);
    var s2 := Step(s1, ops[1]);
    var s3 := Step(s2, ops[2]);
    var s4 := Step(s3, ops[3]);
    var s5 := Step(s4, ops[4]);
    var s6 := Step(s5, ops[5]);
    tr := [s0, s1, s2, s3, s4, s5, s6];
    assert s6.items[0] == 2 && s6.size == 1 && 2 in Idle(s6) && 2 in s6.destroyed;
    assert forall i :: 0 <= i < |ops| ==> Linked(tr[i], ops[i], tr[i + 1]);
    assert Run(tr, ops);
  }

  // t is s and the objects in places [i, j).
  ghost predicate Adds(s: set<Obj>, t: set<Obj>, q: seq<Obj>, i: nat, j: nat) {
    i <= j <= |q| && forall x :: x in t <==> x in s || x in q[i..j]
  }

  lemma AddsNothing(s: set<Obj>, q: seq<Obj>, i: nat)
    requires i <= |q|
    ensures Adds(s, s, q, i, i)
  {
  }

  lemma AddsOne(s: set<Obj>, t: set<Obj>, q: seq<Obj>, i: nat, j: nat)
    requires Adds(s, t, q, i + 1, j)
    ensures i < |q| && Adds(s, t + {q[i]}, q, i, j)
  {
    assert q[i..j] == [q[i]] + q[i + 1..j];
  }

  lemma AddsAll(s: set<Obj>, t: set<Obj>, q: seq<Obj>, i: nat, j: nat)
    requires Adds(s, t, q, i, j)
    ensures i <= j <= |q| && forall x :: x in t <==> x in s || x in q[i..j]
  {
  }

  // ----- the pool -------------------------------------------------------------------------

  class Pool {
    const items: array<Obj>
    var size: nat
    var minSizeInInterval: nat
    var refcnt: int
    ghost var held: set<Obj>
    ghost var destroyed: set<Obj>
    ghost var made: set<Obj>

    ghost function Now(): State
      reads this, items
    { State(items[..], size, minSizeInInterval, refcnt, held, destroyed, made, Nothing) }

    ghost predicate Valid() reads this, items { Partition(Now()) && minSizeInInterval <= size && refcnt == |held| }

    constructor (capacity: nat)
      ensures Valid() && items.Length == capacity && size == 0 && held == destroyed == made == {}
    {
      items := new Obj[capacity](_ => 0);
      size, minSizeInInterval, refcnt := 0, 0, 0;
      held, destroyed, made := {}, {}, {};
    }

    // get: an idle object if there is one, else the new one.
    method Take(spare: Obj) returns (obj: Obj)
      requires Valid() && spare !in made
      modifies this
      ensures Valid() && Now() == Step(old(Now()), Get(spare))
      ensures obj in held && obj !in old(held)
      ensures if old(size) > 0 then obj == old(items[size - 1]) && size == old(size) - 1 && made == old(made)
              else obj == spare && size == 0 && made == old(made) + {spare}
      ensures held == old(held) + {obj} && destroyed == old(destroyed)
      ensures minSizeInInterval == if size < old(minSizeInInterval) then size else old(minSizeInInterval)
    {
      hide Partition, Idle;
      GetsUnheld(Now(), spare);
      StepPartition(Now(), Get(spare));
      StepRefcnt(Now(), Get(spare));
      ghost var s := Step(Now(), Get(spare));
      if size > 0 {
        size := size - 1;
        obj := items[size];
        if size < minSizeInInterval { minSizeInInterval := size; }
      } else {
        obj := spare;
        made := made + {spare};
      }
      held := held + {obj};
      refcnt := refcnt + 1;
      assert Now() == s;
    }

    // put: on top of the stack if there is room, else destroyed.
    method GiveBack(obj: Obj)
      requires Valid() && obj in held
      modifies this, items
      ensures Valid() && Now() == Step(old(Now()), Put(obj))
      ensures held == old(held) - {obj} && made == old(made) && minSizeInInterval == old(minSizeInInterval)
      ensures if old(size) < items.Length
              then size == old(size) + 1 && items[..] == old(items[..])[old(size) := obj] && destroyed == old(destroyed)
              else size == old(size) && items[..] == old(items[..]) && destroyed == old(destroyed) + {obj}
    {
      hide Partition;
      InShape(Now());
      StepPartition(Now(), Put(obj));
      StepRefcnt(Now(), Put(obj));
      ghost var s := Step(Now(), Put(obj));
      if size < items.Length {
        items[size] := obj;
        size := size + 1;
      } else {
        destroyed := destroyed + {obj};
      }
      held := held - {obj};
      refcnt := refcnt - 1;
      assert Now() == s;
    }

    // do_scale with nobody in between: destroys half of what stayed idle since
    // the last time, rounded up, from the top of the stack.
    method DoScale()
      requires Valid()
      modifies this
      ensures Valid() && held == old(held) && made == old(made) && minSizeInInterval == size
      ensures 0 <= size == old(size) - (old(minSizeInInterval) + 1) / 2 && old(size) <= items.Length
      ensures forall x :: x in destroyed <==> x in old(destroyed) || x in items[..][size..old(size)]
    {
      hide Partition, Adds;
      InShape(Now());
      AddsNothing(destroyed, items[..], size);
      var desN := (minSizeInInterval + 1) / 2;
      ghost var n := desN;
      while size > 0 && desN > 0
        invariant Partition(Now()) && held == old(held) && made == old(made) && refcnt == old(refcnt) && minSizeInInterval == old(minSizeInInterval)
        invariant 0 <= desN <= n && size == old(size) - (n - desN) && desN <= size && old(size) <= items.Length
        invariant Adds(old(destroyed), destroyed, items[..], size, old(size))
      {
        desN := desN - 1;
        ScaleOne(Now());
        size := size - 1;
        AddsOne(old(destroyed), destroyed, items[..], size, old(size));
        destroyed := destroyed + {items[size]};
      }
      AddsAll(old(destroyed), destroyed, items[..], size, old(size));
      AnyMinIdle(Now(), size);
      minSizeInInterval := size;
    }
  }
}
