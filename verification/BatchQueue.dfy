// The batch ring queue of common/lockfree_queue.h, as a transition system: any
// number of threads, one atomic load, compare-and-swap or single-element copy
// per step, unbounded counters.
//
// A pusher claims the tickets [wt, wt + wn) by moving `tail`, copies its
// elements, and publishes them by moving `writeHead` once every earlier ticket
// is published.  A popper does the same with `readTail` and `head`.
module BatchQueue {
  import opened Arith

  datatype Pc<T> =
    | Idle
    | PushStart(x: seq<T>)                                    // before tail.load
    | PushLoop(x: seq<T>, wt: nat)                            // before head.load
    | PushCas(x: seq<T>, wt: nat, wn: nat)                    // before the CAS on tail
    | PushCopy(x: seq<T>, wt: nat, wn: nat, j: nat)           // j elements copied
    | Pushed(x: seq<T>, wt: nat, wn: nat)                     // returned wn
    | PopStart(n: nat)                                        // before read_tail.load
    | PopLoop(n: nat, rt: nat)                                // before write_head.load
    | PopCas(n: nat, rt: nat, rn: nat)                        // before the CAS on read_tail
    | PopCopy(rt: nat, rn: nat, out: seq<T>)                  // |out| elements copied
    | Popped(rt: nat, out: seq<T>)                            // returned |out|

  // `pushed` and `popped` are history: the elements claimed by pushers in
  // ticket order, and the elements handed over by poppers in the order in
  // which they released their tickets.
  datatype State<T> = State(
    cap: nat,
    head: nat,
    readTail: nat,
    writeHead: nat,
    tail: nat,
    slots: seq<T>,
    threads: map<nat, Pc<T>>,
    pushed: seq<T>,
    popped: seq<T>)

  datatype Action<T> = CallPush(tid: nat, x: seq<T>) | CallPop(tid: nat, n: nat) | Step(tid: nat)

  predicate Shape<T>(s: State<T>) {
    s.cap > 0 && |s.slots| == s.cap && |s.pushed| == s.tail
  }

  // The slot that the two-part memcpy of a batch starting at ticket x uses for
  // its j-th element.
  function CopyIndex(cap: nat, x: nat, j: nat): nat
    requires cap > 0 && j < cap
  {
    var first := x % cap;
    var part := cap - first;
    if j < part then first + j else j - part
  }

  function PcOf<T>(s: State<T>, tid: nat): Pc<T> {
    if tid in s.threads then s.threads[tid] else Idle
  }

  function SetPc<T>(s: State<T>, tid: nat, pc: Pc<T>): State<T> {
    s.(threads := s.threads[tid := pc])
  }

  predicate Returned<T>(pc: Pc<T>) { pc.Idle? || pc.Pushed? || pc.Popped? }

  predicate InPush<T>(pc: Pc<T>) { pc.PushStart? || pc.PushLoop? || pc.PushCas? }

  predicate InPop<T>(pc: Pc<T>) { pc.PopStart? || pc.PopLoop? || pc.PopCas? }

  // One step of push_batch.  The free space cap - (wt - head) is never
  // negative (FreeSpaceExact), so `wn <= 0` is the source's wn == 0; the other
  // bounds tested before an element is copied hold in every run.
  function AdvancePush<T>(s: State<T>, tid: nat): State<T>
    requires Shape(s)
  {
    match PcOf(s, tid)
    case PushStart(x) => SetPc(s, tid, PushLoop(x, s.tail))
    case PushLoop(x, wt) =>
      var wn := Min(|x|, s.cap - (wt - s.head));
      if wn <= 0 then SetPc(s, tid, Pushed(x, wt, 0)) else SetPc(s, tid, PushCas(x, wt, wn))
    case PushCas(x, wt, wn) =>
      if s.tail == wt && wn <= |x| then
        SetPc(s, tid, PushCopy(x, wt, wn, 0)).(tail := s.tail + wn, pushed := s.pushed + x[..wn])
      else SetPc(s, tid, PushLoop(x, s.tail))
    case PushCopy(x, wt, wn, j) =>
      if j < wn && j < s.cap && j < |x| then
        SetPc(s, tid, PushCopy(x, wt, wn, j + 1)).(slots := s.slots[CopyIndex(s.cap, wt, j) := x[j]])
      else if s.writeHead == wt then
        SetPc(s, tid, Pushed(x, wt, wn)).(writeHead := wt + wn)
      else s
    case _ => s
  }

  function AdvancePop<T>(s: State<T>, tid: nat): State<T>
    requires Shape(s)
  {
    match PcOf(s, tid)
    case PopStart(n) => SetPc(s, tid, PopLoop(n, s.readTail))
    case PopLoop(n, rt) =>
      var rn := Min(n, s.writeHead - rt);
      if rn <= 0 then SetPc(s, tid, Popped(rt, [])) else SetPc(s, tid, PopCas(n, rt, rn))
    case PopCas(n, rt, rn) =>
      if s.readTail == rt then SetPc(s, tid, PopCopy(rt, rn, [])).(readTail := s.readTail + rn)
      else SetPc(s, tid, PopLoop(n, s.readTail))
    case PopCopy(rt, rn, out) =>
      if |out| < rn && |out| < s.cap then
        SetPc(s, tid, PopCopy(rt, rn, out + [s.slots[CopyIndex(s.cap, rt, |out|)]]))
      else if s.head == rt then
        SetPc(s, tid, Popped(rt, out)).(head := rt + rn, popped := s.popped + out)
      else s
    case _ => s
  }

  function Apply<T>(s: State<T>, a: Action<T>): State<T>
    requires Shape(s)
  {
    match a
    case CallPush(tid, x) => if Returned(PcOf(s, tid)) then SetPc(s, tid, PushStart(x)) else s
    case CallPop(tid, n) => if Returned(PcOf(s, tid)) then SetPc(s, tid, PopStart(n)) else s
    case Step(tid) =>
      if InPush(PcOf(s, tid)) || PcOf(s, tid).PushCopy? then AdvancePush(s, tid) else AdvancePop(s, tid)
  }

  ghost predicate Init<T>(s: State<T>) {
    && Shape(s)
    && s.head == 0 && s.readTail == 0 && s.writeHead == 0 && s.tail == 0
    && s.threads == map[] && s.popped == []
  }

  ghost predicate Run<T>(tr: seq<State<T>>, acts: seq<Action<T>>) {
    && |tr| == |acts| + 1
    && Init(tr[0])
    && forall i :: 0 <= i < |acts| ==> Linked(tr, acts, i)
  }

  ghost predicate Linked<T>(tr: seq<State<T>>, acts: seq<Action<T>>, i: nat)
    requires i < |acts| && |tr| == |acts| + 1
  {
    Shape(tr[i]) && tr[i + 1] == Apply(tr[i], acts[i])
  }

  // ----- the invariant -------------------------------------------------------

  ghost predicate Counters<T>(s: State<T>) {
    s.head <= s.readTail <= s.writeHead <= s.tail <= s.head + s.cap
  }

  ghost predicate Stored<T>(s: State<T>, x: nat)
    requires Shape(s)
  {
    x < s.tail && s.slots[x % s.cap] == s.pushed[x]
  }

  // The first n elements of x stand at tickets [at, at + n) of p.
  ghost predicate BatchAt<T>(p: seq<T>, at: nat, x: seq<T>, n: nat) {
    at + n <= |p| && n <= |x| && forall i :: 0 <= i < n ==> x[i] == p[at + i]
  }

  ghost predicate ThreadOk<T>(s: State<T>, pc: Pc<T>)
    requires Shape(s)
  {
    match pc
    case PushLoop(_, wt) => wt <= s.tail
    case PushCas(x, wt, wn) => wt <= s.tail && 0 < wn <= |x| && wt + wn <= s.head + s.cap
    case PushCopy(x, wt, wn, j) =>
      && s.writeHead <= wt && 0 < wn && j <= wn && BatchAt(s.pushed, wt, x, wn)
      && (forall y :: wt <= y < wt + j ==> Stored(s, y))
    case Pushed(x, wt, wn) => 0 < wn ==> wt + wn <= s.writeHead && BatchAt(s.pushed, wt, x, wn)
    case PopLoop(_, rt) => rt <= s.readTail
    case PopCas(_, rt, rn) => rt <= s.readTail && 0 < rn && rt + rn <= s.writeHead
    case PopCopy(rt, rn, out) =>
      && s.head <= rt && 0 < rn && rt + rn <= s.readTail && |out| <= rn
      && BatchAt(s.pushed, rt, out, |out|)
    case Popped(rt, out) => out != [] ==> rt + |out| <= s.head && BatchAt(s.pushed, rt, out, |out|)
    case _ => true
  }

  // Ticket x is in the batch that thread tid is copying in (out).
  ghost predicate Pushes<T>(s: State<T>, tid: nat, x: nat) {
    tid in s.threads && s.threads[tid].PushCopy?
    && s.threads[tid].wt <= x < s.threads[tid].wt + s.threads[tid].wn
  }

  ghost predicate Pops<T>(s: State<T>, tid: nat, x: nat) {
    tid in s.threads && s.threads[tid].PopCopy?
    && s.threads[tid].rt <= x < s.threads[tid].rt + s.threads[tid].rn
  }

  // Each ticket between writeHead and tail, and between head and readTail, has
  // exactly one owner.
  ghost predicate PushOwned<T>(s: State<T>, x: nat) {
    && (s.writeHead <= x < s.tail ==> exists tid :: Pushes(s, tid, x))
    && (forall a, b :: Pushes(s, a, x) && Pushes(s, b, x) ==> a == b)
  }

  ghost predicate PopOwned<T>(s: State<T>, x: nat) {
    && (s.head <= x < s.readTail ==> exists tid :: Pops(s, tid, x))
    && (forall a, b :: Pops(s, a, x) && Pops(s, b, x) ==> a == b)
  }

  ghost predicate Owned<T>(s: State<T>) {
    forall x: nat :: PushOwned(s, x) && PopOwned(s, x)
  }

  ghost predicate Contents<T>(s: State<T>)
    requires Shape(s)
  {
    && (forall x: nat :: s.head <= x < s.writeHead ==> Stored(s, x))
    && |s.popped| == s.head && BatchAt(s.pushed, 0, s.popped, s.head)
  }

  ghost predicate ThreadsOk<T>(s: State<T>)
    requires Shape(s)
  {
    forall tid :: tid in s.threads ==> ThreadOk(s, s.threads[tid])
  }

  ghost predicate Inv<T>(s: State<T>) {
    Shape(s) && Counters(s) && ThreadsOk(s) && Owned(s) && Contents(s)
  }

  lemma CopyIndexIsMod(cap: nat, x: nat, j: nat)
    requires j < cap
    ensures CopyIndex(cap, x, j) == (x + j) % cap
  {
    var q, r := x / cap, x % cap;
    if r + j < cap {
      DivModUnique(x + j, cap, q, r + j);
    } else {
      assert x + j == cap * (q + 1) + (r + j - cap);
      DivModUnique(x + j, cap, q + 1, r + j - cap);
    }
  }

  // Thread a owns the same tickets in both states.
  ghost predicate SameOwner<T>(s: State<T>, s': State<T>, a: nat) {
    forall x: nat :: (Pushes(s', a, x) <==> Pushes(s, a, x)) && (Pops(s', a, x) <==> Pops(s, a, x))
  }

  lemma OwnedKept<T>(s: State<T>, s': State<T>)
    requires Owned(s) && forall a :: SameOwner(s, s', a)
    requires s'.head == s.head && s'.readTail == s.readTail
    requires s'.writeHead == s.writeHead && s'.tail == s.tail
    ensures Owned(s')
  {
    forall x: nat ensures PushOwned(s', x) && PopOwned(s', x) {
      assert PushOwned(s, x) && PopOwned(s, x);
      forall a ensures (Pushes(s', a, x) <==> Pushes(s, a, x)) && (Pops(s', a, x) <==> Pops(s, a, x)) {
        assert SameOwner(s, s', a);
      }
    }
  }

  // A step that only moves tid's program counter, outside the copy phases.
  lemma LocalStep<T>(s: State<T>, tid: nat, pc: Pc<T>)
    requires Inv(s) && ThreadOk(s, pc)
    requires !PcOf(s, tid).PushCopy? && !PcOf(s, tid).PopCopy? && !pc.PushCopy? && !pc.PopCopy?
    ensures Inv(SetPc(s, tid, pc))
  {
    var s' := SetPc(s, tid, pc);
    OwnedKept(s, s') by {
      forall a ensures SameOwner(s, s', a) { }
    }
    assert forall x: nat :: Stored(s', x) <==> Stored(s, x);
    forall a | a in s'.threads ensures ThreadOk(s', s'.threads[a]) {
      if a != tid { assert ThreadOk(s, s.threads[a]); }
    }
  }

  lemma PushClaimOwned<T>(s: State<T>, tid: nat)
    requires Inv(s) && PcOf(s, tid).PushCas? && s.tail == PcOf(s, tid).wt
    ensures Owned(AdvancePush(s, tid))
  {
    assert ThreadOk(s, s.threads[tid]);
    var s' := AdvancePush(s, tid);
    forall x: nat ensures PushOwned(s', x) && PopOwned(s', x) {
      assert PushOwned(s, x) && PopOwned(s, x);
      forall a ensures Pops(s', a, x) <==> Pops(s, a, x) { }
      forall a ensures Pushes(s', a, x) <==> if x < s.tail then Pushes(s, a, x) else a == tid && x < s'.tail {
        if a != tid && a in s.threads { assert ThreadOk(s, s.threads[a]); }
      }
      assert s.tail <= x < s'.tail ==> Pushes(s', tid, x);
    }
  }

  lemma PushClaimInv<T>(s: State<T>, tid: nat)
    requires Inv(s) && PcOf(s, tid).PushCas? && s.tail == PcOf(s, tid).wt
    ensures Inv(AdvancePush(s, tid))
  {
    PushClaimOwned(s, tid);
    var s' := AdvancePush(s, tid);
    assert ThreadOk(s, s.threads[tid]);
    assert forall y: nat :: Stored(s, y) ==> Stored(s', y);
    forall a | a in s'.threads ensures ThreadOk(s', s'.threads[a]) {
      if a != tid { assert ThreadOk(s, s.threads[a]); }
    }
  }

  // Copying one element touches the slot of that ticket and of no other
  // ticket in the window.
  lemma CopyKeepsStored<T>(s: State<T>, s': State<T>, t: nat, v: T)
    requires Shape(s) && Counters(s) && s.head <= t < s.tail && v == s.pushed[t]
    requires s' == s.(threads := s'.threads, slots := s.slots[t % s.cap := v])
    ensures Stored(s', t)
    ensures forall y: nat :: s.head <= y < s.tail && Stored(s, y) ==> Stored(s', y)
  {
    forall y: nat | s.head <= y < s.tail && Stored(s, y) ensures Stored(s', y) {
      if y < t { ModDistinct(y, t, s.cap); }
      if t < y { ModDistinct(t, y, s.cap); }
    }
  }

  lemma PushCopyInv<T>(s: State<T>, tid: nat)
    requires Inv(s) && PcOf(s, tid).PushCopy? && PcOf(s, tid).j < PcOf(s, tid).wn
    ensures Inv(AdvancePush(s, tid))
  {
    var PushCopy(x, wt, wn, j) := s.threads[tid];
    assert ThreadOk(s, s.threads[tid]);
    var s' := AdvancePush(s, tid);
    CopyIndexIsMod(s.cap, wt, j);
    CopyKeepsStored(s, s', wt + j, x[j]);
    OwnedKept(s, s') by {
      forall a ensures SameOwner(s, s', a) { }
    }
    forall a | a in s'.threads ensures ThreadOk(s', s'.threads[a]) {
      if a != tid { assert ThreadOk(s, s.threads[a]); }
    }
  }

  lemma PublishPushOwned<T>(s: State<T>, tid: nat)
    requires Inv(s) && PcOf(s, tid).PushCopy? && PcOf(s, tid).j >= PcOf(s, tid).wn
    requires s.writeHead == PcOf(s, tid).wt
    ensures Owned(AdvancePush(s, tid))
  {
    assert ThreadOk(s, s.threads[tid]);
    var s' := AdvancePush(s, tid);
    forall x: nat ensures PushOwned(s', x) && PopOwned(s', x) {
      assert PushOwned(s, x) && PopOwned(s, x);
      forall a ensures Pops(s', a, x) <==> Pops(s, a, x) { }
      forall a ensures Pushes(s', a, x) <==> Pushes(s, a, x) && a != tid { }
      assert x >= s'.writeHead ==> !Pushes(s, tid, x);
    }
  }

  lemma PublishPushInv<T>(s: State<T>, tid: nat)
    requires Inv(s) && PcOf(s, tid).PushCopy? && PcOf(s, tid).j >= PcOf(s, tid).wn
    requires s.writeHead == PcOf(s, tid).wt
    ensures Inv(AdvancePush(s, tid))
  {
    PublishPushOwned(s, tid);
    assert ThreadOk(s, s.threads[tid]);
    var s' := AdvancePush(s, tid);
    assert forall y: nat :: Stored(s, y) <==> Stored(s', y);
    forall a | a in s'.threads ensures ThreadOk(s', s'.threads[a]) {
      if a != tid {
        PublishPushKeepsThread(s, tid, a);
      }
    }
  }

  lemma PopClaimOwned<T>(s: State<T>, tid: nat)
    requires Inv(s) && PcOf(s, tid).PopCas? && s.readTail == PcOf(s, tid).rt
    ensures Owned(AdvancePop(s, tid))
  {
    assert ThreadOk(s, s.threads[tid]);
    var s' := AdvancePop(s, tid);
    forall x: nat ensures PushOwned(s', x) && PopOwned(s', x) {
      assert PushOwned(s, x) && PopOwned(s, x);
      forall a ensures Pushes(s', a, x) <==> Pushes(s, a, x) { }
      forall a ensures Pops(s', a, x) <==> if x < s.readTail then Pops(s, a, x) else a == tid && x < s'.readTail {
        if a != tid && a in s.threads { assert ThreadOk(s, s.threads[a]); }
      }
      assert s.readTail <= x < s'.readTail ==> Pops(s', tid, x);
    }
  }

  lemma PopClaimInv<T>(s: State<T>, tid: nat)
    requires Inv(s) && PcOf(s, tid).PopCas? && s.readTail == PcOf(s, tid).rt
    ensures Inv(AdvancePop(s, tid))
  {
    PopClaimOwned(s, tid);
    assert ThreadOk(s, s.threads[tid]);
    var s' := AdvancePop(s, tid);
    assert forall y: nat :: Stored(s, y) <==> Stored(s', y);
    forall a | a in s'.threads ensures ThreadOk(s', s'.threads[a]) {
      if a != tid { assert ThreadOk(s, s.threads[a]); }
    }
  }

  lemma PopCopyInv<T>(s: State<T>, tid: nat)
    requires Inv(s) && PcOf(s, tid).PopCopy? && |PcOf(s, tid).out| < PcOf(s, tid).rn
    ensures Inv(AdvancePop(s, tid))
  {
    var PopCopy(rt, rn, out) := s.threads[tid];
    assert ThreadOk(s, s.threads[tid]);
    var s' := AdvancePop(s, tid);
    CopyIndexIsMod(s.cap, rt, |out|);
    assert Stored(s, rt + |out|);
    OwnedKept(s, s') by {
      forall a ensures SameOwner(s, s', a) { }
    }
    assert forall y: nat :: Stored(s, y) <==> Stored(s', y);
    forall a | a in s'.threads ensures ThreadOk(s', s'.threads[a]) {
      if a != tid { assert ThreadOk(s, s.threads[a]); }
    }
  }

  lemma ReleasePopOwned<T>(s: State<T>, tid: nat)
    requires Inv(s) && PcOf(s, tid).PopCopy? && |PcOf(s, tid).out| >= PcOf(s, tid).rn
    requires s.head == PcOf(s, tid).rt
    ensures Owned(AdvancePop(s, tid))
  {
    assert ThreadOk(s, s.threads[tid]);
    var s' := AdvancePop(s, tid);
    forall x: nat ensures PushOwned(s', x) && PopOwned(s', x) {
      assert PushOwned(s, x) && PopOwned(s, x);
      forall a ensures Pushes(s', a, x) <==> Pushes(s, a, x) { }
      forall a ensures Pops(s', a, x) <==> Pops(s, a, x) && a != tid { }
      assert x >= s'.head ==> !Pops(s, tid, x);
    }
  }

  lemma ReleasePopInv<T>(s: State<T>, tid: nat)
    requires Inv(s) && PcOf(s, tid).PopCopy? && |PcOf(s, tid).out| >= PcOf(s, tid).rn
    requires s.head == PcOf(s, tid).rt
    ensures Inv(AdvancePop(s, tid))
  {
    ReleasePopOwned(s, tid);
    assert ThreadOk(s, s.threads[tid]);
    var s' := AdvancePop(s, tid);
    assert forall y: nat :: Stored(s, y) <==> Stored(s', y);
    forall a | a in s'.threads ensures ThreadOk(s', s'.threads[a]) {
      if a != tid {
        ReleasePopKeepsThread(s, tid, a);
      }
    }
  }

  lemma PublishPushKeepsThread<T>(s: State<T>, tid: nat, a: nat)
    requires Inv(s) && PcOf(s, tid).PushCopy? && PcOf(s, tid).j >= PcOf(s, tid).wn
    requires s.writeHead == PcOf(s, tid).wt && a in s.threads && a != tid
    ensures ThreadOk(AdvancePush(s, tid), s.threads[a])
  {
    var s' := AdvancePush(s, tid);
    assert ThreadOk(s, s.threads[a]) && ThreadOk(s, s.threads[tid]);
    assert forall y: nat :: Stored(s, y) <==> Stored(s', y);
    if s.threads[a].PushCopy? {
      assert PushOwned(s, s.threads[a].wt);
      assert Pushes(s, a, s.threads[a].wt);
      assert !Pushes(s, tid, s.threads[a].wt);
    }
  }

  lemma ReleasePopKeepsThread<T>(s: State<T>, tid: nat, a: nat)
    requires Inv(s) && PcOf(s, tid).PopCopy? && |PcOf(s, tid).out| >= PcOf(s, tid).rn
    requires s.head == PcOf(s, tid).rt && a in s.threads && a != tid
    ensures ThreadOk(AdvancePop(s, tid), s.threads[a])
  {
    var s' := AdvancePop(s, tid);
    assert ThreadOk(s, s.threads[a]) && ThreadOk(s, s.threads[tid]);
    assert forall y: nat :: Stored(s, y) <==> Stored(s', y);
    if s.threads[a].PopCopy? {
      assert PopOwned(s, s.threads[a].rt);
      assert Pops(s, a, s.threads[a].rt);
      assert !Pops(s, tid, s.threads[a].rt);
    }
  }

  lemma PushStepInv<T>(s: State<T>, tid: nat)
    requires Inv(s) && (InPush(PcOf(s, tid)) || PcOf(s, tid).PushCopy?)
    ensures Inv(AdvancePush(s, tid))
  {
    var pc := s.threads[tid];
    assert ThreadOk(s, pc);
    match pc
    case PushStart(x) => LocalStep(s, tid, PushLoop(x, s.tail));
    case PushLoop(x, wt) =>
      var wn := Min(|x|, s.cap - (wt - s.head));
      var pc' := if wn <= 0 then Pushed(x, wt, 0) else PushCas(x, wt, wn);
      assert AdvancePush(s, tid) == SetPc(s, tid, pc');
      LocalStep(s, tid, pc');
    case PushCas(x, wt, wn) =>
      if s.tail == wt { PushClaimInv(s, tid); }
      else { LocalStep(s, tid, PushLoop(x, s.tail)); }
    case PushCopy(x, wt, wn, j) =>
      if j < wn { PushCopyInv(s, tid); }
      else if s.writeHead == wt { PublishPushInv(s, tid); }
  }

  lemma PopStepInv<T>(s: State<T>, tid: nat)
    requires Inv(s) && (InPop(PcOf(s, tid)) || PcOf(s, tid).PopCopy?)
    ensures Inv(AdvancePop(s, tid))
  {
    var pc := s.threads[tid];
    assert ThreadOk(s, pc);
    match pc
    case PopStart(n) => LocalStep(s, tid, PopLoop(n, s.readTail));
    case PopLoop(n, rt) =>
      var rn := Min(n, s.writeHead - rt);
      var pc' := if rn <= 0 then Popped(rt, []) else PopCas(n, rt, rn);
      assert AdvancePop(s, tid) == SetPc(s, tid, pc');
      LocalStep(s, tid, pc');
    case PopCas(n, rt, rn) =>
      if s.readTail == rt { PopClaimInv(s, tid); }
      else { LocalStep(s, tid, PopLoop(n, s.readTail)); }
    case PopCopy(rt, rn, out) =>
      if |out| < rn { PopCopyInv(s, tid); }
      else if s.head == rt { ReleasePopInv(s, tid); }
  }

  lemma ApplyInv<T>(s: State<T>, a: Action<T>)
    requires Inv(s)
    ensures Inv(Apply(s, a))
  {
    match a
    case CallPush(tid, x) => if Returned(PcOf(s, tid)) { LocalStep(s, tid, PushStart(x)); }
    case CallPop(tid, n) => if Returned(PcOf(s, tid)) { LocalStep(s, tid, PopStart(n)); }
    case Step(tid) =>
      var pc := PcOf(s, tid);
      if InPush(pc) || pc.PushCopy? { PushStepInv(s, tid); }
      else if InPop(pc) || pc.PopCopy? { PopStepInv(s, tid); }
  }

  lemma {:induction false} RunInv<T>(tr: seq<State<T>>, acts: seq<Action<T>>, i: nat)
    requires Run(tr, acts) && i < |tr|
    ensures Inv(tr[i])
  {
    if i > 0 {
      RunInv(tr, acts, i - 1);
      assert Linked(tr, acts, i - 1);
      ApplyInv(tr[i - 1], acts[i - 1]);
    }
  }

  // ----- theorems over all runs ----------------------------------------------

  // The four counters stay in order and within one lap.
  lemma CountersOrdered<T>(tr: seq<State<T>>, acts: seq<Action<T>>, i: nat)
    requires Run(tr, acts) && i < |tr|
    ensures tr[i].head <= tr[i].readTail <= tr[i].writeHead <= tr[i].tail <= tr[i].head + tr[i].cap
  {
    RunInv(tr, acts, i);
  }

  // What has been popped is a prefix of what has been pushed; every finished
  // pop returned the elements of its tickets, every finished push put exactly
  // the first wn of its elements at consecutive tickets.
  lemma FifoPrefix<T>(tr: seq<State<T>>, acts: seq<Action<T>>, i: nat, tid: nat)
    requires Run(tr, acts) && i < |tr|
    ensures tr[i].popped <= tr[i].pushed && |tr[i].popped| == tr[i].head && |tr[i].pushed| == tr[i].tail
    ensures var pc := PcOf(tr[i], tid);
            && (pc.Popped? && pc.out != [] ==>
                  pc.rt + |pc.out| <= tr[i].head && pc.out == tr[i].popped[pc.rt..pc.rt + |pc.out|])
            && (pc.Pushed? && pc.wn > 0 ==>
                  pc.wt + pc.wn <= tr[i].tail && pc.wn <= |pc.x|
                  && pc.x[..pc.wn] == tr[i].pushed[pc.wt..pc.wt + pc.wn])
  {
    RunInv(tr, acts, i);
    if tid in tr[i].threads {
      assert ThreadOk(tr[i], tr[i].threads[tid]);
    }
  }

  // Two threads that are copying use different slots, whichever way each of
  // them copies.
  lemma RegionsDisjoint<T>(tr: seq<State<T>>, acts: seq<Action<T>>, i: nat, a: nat, b: nat, x: nat, y: nat)
    requires Run(tr, acts) && i < |tr| && a != b
    requires (Pushes(tr[i], a, x) || Pops(tr[i], a, x)) && (Pushes(tr[i], b, y) || Pops(tr[i], b, y))
    ensures tr[i].cap > 0 && x % tr[i].cap != y % tr[i].cap
  {
    var s := tr[i];
    RunInv(tr, acts, i);
    assert ThreadOk(s, s.threads[a]) && ThreadOk(s, s.threads[b]);
    assert PushOwned(s, x) && PopOwned(s, x);
    assert x != y;
    if x < y { ModDistinct(x, y, s.cap); } else { ModDistinct(y, x, s.cap); }
  }

  // Publication never gets stuck behind a ticket nobody owns: while tickets
  // are claimed and not published (released), the thread that owns the lowest
  // one started its batch exactly there, so its own CAS is the next to succeed.
  lemma NextPublisherExists<T>(tr: seq<State<T>>, acts: seq<Action<T>>, i: nat)
    requires Run(tr, acts) && i < |tr|
    ensures tr[i].writeHead < tr[i].tail ==>
              exists tid :: PcOf(tr[i], tid).PushCopy? && PcOf(tr[i], tid).wt == tr[i].writeHead
    ensures tr[i].head < tr[i].readTail ==>
              exists tid :: PcOf(tr[i], tid).PopCopy? && PcOf(tr[i], tid).rt == tr[i].head
  {
    var s := tr[i];
    RunInv(tr, acts, i);
    if s.writeHead < s.tail {
      assert PushOwned(s, s.writeHead);
      var tid :| Pushes(s, tid, s.writeHead);
      assert ThreadOk(s, s.threads[tid]) && PcOf(s, tid).PushCopy?;
    }
    if s.head < s.readTail {
      assert PopOwned(s, s.head);
      var tid :| Pops(s, tid, s.head);
      assert ThreadOk(s, s.threads[tid]) && PcOf(s, tid).PopCopy?;
    }
  }

  // A push_batch of a non-empty batch returns 0 only at an instant at which the
  // queue is full, a pop_batch of n > 0 only at an instant at which nothing is
  // published and unclaimed.
  lemma ZeroIsJustified<T>(tr: seq<State<T>>, acts: seq<Action<T>>, i: nat, tid: nat)
    requires Run(tr, acts) && i < |acts| && acts[i] == Step(tid)
    ensures var pc, pc' := PcOf(tr[i], tid), PcOf(tr[i + 1], tid);
            && (InPush(pc) && pc.x != [] && pc'.Pushed? ==>
                  pc'.wn == 0 && tr[i].tail == tr[i].head + tr[i].cap)
            && (InPop(pc) && pc.n > 0 && pc'.Popped? ==>
                  pc'.out == [] && tr[i].writeHead == tr[i].readTail)
  {
    RunInv(tr, acts, i);
    assert Linked(tr, acts, i);
    if tid in tr[i].threads {
      assert ThreadOk(tr[i], tr[i].threads[tid]);
    }
  }

  const W := 0x1_0000_0000_0000_0000

  // The source computes the free space in 64-bit unsigned arithmetic, where
  // wt - head wraps if wt is stale.  The wrapped result is still the exact
  // integer cap - (wt - head), which is never negative.
  lemma FreeSpaceExact<T>(tr: seq<State<T>>, acts: seq<Action<T>>, i: nat, tid: nat)
    requires Run(tr, acts) && i < |tr| && PcOf(tr[i], tid).PushLoop?
    requires tr[i].head + tr[i].cap < W
    ensures var s, wt := tr[i], PcOf(tr[i], tid).wt;
            0 <= s.cap - (wt - s.head) == (s.cap - (wt - s.head) % W) % W
  {
    RunInv(tr, acts, i);
    assert ThreadOk(tr[i], tr[i].threads[tid]);
    var d := PcOf(tr[i], tid).wt - tr[i].head;
    if d < 0 {
      DivModUnique(d, W, -1, d + W);
    }
  }
}
