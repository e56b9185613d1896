// The multi-producer multi-consumer ring queue of common/lockfree_queue.h, as
// a transition system: any number of threads, one atomic load, store,
// compare-and-swap or slot access per step, unbounded counters.
//
// Every ticket x (a value claimed from `tail` by a writer and from `head` by a
// reader) belongs to slot x % capacity and to turn x / capacity.  A slot's
// mark is 2*turn when it waits for the writer of that turn, 2*turn + 1 when it
// holds that writer's value, and 2*turn + 2 once the reader has taken it.
module MpmcQueue {
  import opened Arith

  datatype Pc<T> =
    | Idle
    // push
    | PushStart(x: T)                         // before the first tail.load
    | PushLoop(x: T, t: nat)                  // before mark.load
    | PushCas(x: T, t: nat)                   // mark matched, before the CAS on tail
    | PushMiss(x: T, t: nat)                  // mark did not match, before head.load
    | PushRecheck(x: T, t: nat, h: nat)       // before the second tail.load
    | Pushed(ok: bool)                        // push or send returned
    // send
    | SendStart(x: T)                         // before tail.fetch_add
    | SendWait(x: T, t: nat)                  // spinning on mark
    // both writers, once they own the slot
    | WriteSlot(x: T, t: nat)                 // before slot = x
    | PublishWrite(x: T, t: nat)              // before mark.store
    // pop
    | PopStart
    | PopLoop(h: nat)
    | PopCas(h: nat)
    | PopMiss(h: nat)
    | PopRecheck(h: nat, t: nat)
    | PopFailed
    // recv
    | RecvStart
    | RecvWait(h: nat)
    // both readers, once they own the slot
    | ReadSlot(h: nat)                        // before x = slot
    | PublishRead(h: nat, v: T)               // before mark.store
    | Popped(h: nat, v: T)                    // pop or recv returned v

  // `sent` and `got` are history: the value claimed for each write ticket, and
  // the value read for each read ticket.
  datatype State<T> = State(
    cap: nat,
    tail: nat,
    head: nat,
    marks: seq<nat>,
    data: seq<T>,
    threads: map<nat, Pc<T>>,
    sent: seq<T>,
    got: map<nat, T>)

  datatype Action<T> = CallPush(tid: nat, x: T) | CallSend(tid: nat, x: T)
                     | CallPop(tid: nat) | CallRecv(tid: nat) | Step(tid: nat)

  function Idx(cap: nat, x: nat): nat
    requires cap > 0
  { x % cap }

  function Turn(cap: nat, x: nat): nat
    requires cap > 0
  { x / cap }

  predicate CheckFull(cap: nat, h: nat, t: nat)
    requires cap > 0
  { h != t && Idx(cap, h) == Idx(cap, t) }

  predicate Shape<T>(s: State<T>) {
    && s.cap > 0
    && |s.marks| == |s.data| == s.cap
    && |s.sent| == s.tail
  }

  function Mark<T>(s: State<T>, x: nat): nat
    requires Shape(s)
  { s.marks[Idx(s.cap, x)] }

  function PcOf<T>(s: State<T>, tid: nat): Pc<T> {
    if tid in s.threads then s.threads[tid] else Idle
  }

  function SetPc<T>(s: State<T>, tid: nat, pc: Pc<T>): State<T> {
    s.(threads := s.threads[tid := pc])
  }

  predicate Returned<T>(pc: Pc<T>) {
    pc.Idle? || pc.Pushed? || pc.PopFailed? || pc.Popped?
  }

  predicate InPush<T>(pc: Pc<T>) {
    pc.PushStart? || pc.PushLoop? || pc.PushCas? || pc.PushMiss? || pc.PushRecheck?
  }

  predicate InPop<T>(pc: Pc<T>) {
    pc.PopStart? || pc.PopLoop? || pc.PopCas? || pc.PopMiss? || pc.PopRecheck?
  }

  function Call<T>(s: State<T>, tid: nat, pc: Pc<T>): State<T> {
    if Returned(PcOf(s, tid)) then SetPc(s, tid, pc) else s
  }

  // The next atomic step of thread tid.
  function Advance<T>(s: State<T>, tid: nat): State<T>
    requires Shape(s)
  {
    match PcOf(s, tid)
    case PushStart(x) => SetPc(s, tid, PushLoop(x, s.tail))
    case PushLoop(x, t) =>
      if Mark(s, t) == 2 * Turn(s.cap, t) then SetPc(s, tid, PushCas(x, t))
      else SetPc(s, tid, PushMiss(x, t))
    case PushCas(x, t) =>
      if s.tail == t then ClaimWrite(s, tid, x, WriteSlot(x, s.tail))
      else SetPc(s, tid, PushLoop(x, s.tail))
    case PushMiss(x, t) => SetPc(s, tid, PushRecheck(x, t, s.head))
    case PushRecheck(x, t, h) =>
      if s.tail == t && CheckFull(s.cap, h, s.tail) then SetPc(s, tid, Pushed(false))
      else SetPc(s, tid, PushLoop(x, s.tail))
    case SendStart(x) => ClaimWrite(s, tid, x, SendWait(x, s.tail))
    case SendWait(x, t) =>
      if Mark(s, t) == 2 * Turn(s.cap, t) then SetPc(s, tid, WriteSlot(x, t)) else s
    case WriteSlot(x, t) =>
      SetPc(s, tid, PublishWrite(x, t)).(data := s.data[Idx(s.cap, t) := x])
    case PublishWrite(x, t) =>
      SetPc(s, tid, Pushed(true)).(marks := s.marks[Idx(s.cap, t) := 2 * Turn(s.cap, t) + 1])
    case PopStart => SetPc(s, tid, PopLoop(s.head))
    case PopLoop(h) =>
      if Mark(s, h) == 2 * Turn(s.cap, h) + 1 then SetPc(s, tid, PopCas(h))
      else SetPc(s, tid, PopMiss(h))
    case PopCas(h) =>
      if s.head == h then SetPc(s, tid, ReadSlot(s.head)).(head := s.head + 1)
      else SetPc(s, tid, PopLoop(s.head))
    case PopMiss(h) => SetPc(s, tid, PopRecheck(h, s.tail))
    case PopRecheck(h, t) =>
      if s.head == h && s.head == t then SetPc(s, tid, PopFailed)
      else SetPc(s, tid, PopLoop(s.head))
    case RecvStart => SetPc(s, tid, RecvWait(s.head)).(head := s.head + 1)
    case RecvWait(h) =>
      if Mark(s, h) == 2 * Turn(s.cap, h) + 1 then SetPc(s, tid, ReadSlot(h)) else s
    case ReadSlot(h) =>
      var v := s.data[Idx(s.cap, h)];
      SetPc(s, tid, PublishRead(h, v)).(got := s.got[h := v])
    case PublishRead(h, v) =>
      SetPc(s, tid, Popped(h, v)).(marks := s.marks[Idx(s.cap, h) := 2 * Turn(s.cap, h) + 2])
    case _ => s
  }

  function ClaimWrite<T>(s: State<T>, tid: nat, x: T, pc: Pc<T>): State<T> {
    SetPc(s, tid, pc).(tail := s.tail + 1, sent := s.sent + [x])
  }

  function Apply<T>(s: State<T>, a: Action<T>): State<T>
    requires Shape(s)
  {
    match a
    case CallPush(tid, x) => Call(s, tid, PushStart(x))
    case CallSend(tid, x) => Call(s, tid, SendStart(x))
    case CallPop(tid) => Call(s, tid, PopStart)
    case CallRecv(tid) => Call(s, tid, RecvStart)
    case Step(tid) => Advance(s, tid)
  }

  ghost predicate Init<T>(s: State<T>) {
    && Shape(s)
    && s.tail == 0 && s.head == 0
    && (forall i :: 0 <= i < s.cap ==> s.marks[i] == 0)
    && s.threads == map[] && s.got == map[]
  }

  // A run: any interleaving of calls and thread steps from an initial state.
  ghost predicate Run<T>(tr: seq<State<T>>, acts: seq<Action<T>>) {
    && |tr| == |acts| + 1
    && Init(tr[0])
    && forall i :: 0 <= i < |acts| ==> Linked(tr, acts, i)
  }

  ghost predicate Linked<T>(tr: seq<State<T>>, acts: seq<Action<T>>, i: nat)
    requires i < |acts| && |tr| == |acts| + 1
  {
    Shape(tr[i]) && tr[i + 1] == Apply(tr[i], acts[i])
  }

  // ----- the invariant -------------------------------------------------------

  // The write (read) ticket a thread owns, or -1.
  function WTicket<T>(pc: Pc<T>): int {
    match pc
    case SendWait(_, t) => t
    case WriteSlot(_, t) => t
    case PublishWrite(_, t) => t
    case _ => -1
  }

  function RTicket<T>(pc: Pc<T>): int {
    match pc
    case RecvWait(h) => h
    case ReadSlot(h) => h
    case PublishRead(h, _) => h
    case _ => -1
  }

  ghost predicate WriterOf<T>(s: State<T>, tid: nat, x: nat) {
    tid in s.threads && WTicket(s.threads[tid]) == x
  }

  ghost predicate ReaderOf<T>(s: State<T>, tid: nat, x: nat) {
    tid in s.threads && RTicket(s.threads[tid]) == x
  }

  ghost predicate ThreadOk<T>(s: State<T>, pc: Pc<T>)
    requires Shape(s)
  {
    match pc
    case PushLoop(_, t) => t <= s.tail
    case PushCas(_, t) => t <= s.tail && (t == s.tail ==> Mark(s, t) == 2 * Turn(s.cap, t))
    case PushMiss(_, t) => t <= s.tail
    case PushRecheck(_, t, h) => t <= s.tail && h <= s.head
    case SendWait(x, t) => t < s.tail && s.sent[t] == x && Mark(s, t) <= 2 * Turn(s.cap, t)
    case WriteSlot(x, t) => t < s.tail && s.sent[t] == x && Mark(s, t) == 2 * Turn(s.cap, t)
    case PublishWrite(x, t) =>
      && t < s.tail && s.sent[t] == x && Mark(s, t) == 2 * Turn(s.cap, t)
      && s.data[Idx(s.cap, t)] == x
    case PopLoop(h) => h <= s.head
    case PopCas(h) => h <= s.head && (h == s.head ==> Mark(s, h) == 2 * Turn(s.cap, h) + 1)
    case PopMiss(h) => h <= s.head
    case PopRecheck(h, t) => h <= s.head && t <= s.tail
    case RecvWait(h) => h < s.head && h !in s.got && Mark(s, h) <= 2 * Turn(s.cap, h) + 1
    case ReadSlot(h) => h < s.head && h !in s.got && Mark(s, h) == 2 * Turn(s.cap, h) + 1
    case PublishRead(h, v) =>
      && h < s.head && h in s.got && s.got[h] == v
      && Mark(s, h) == 2 * Turn(s.cap, h) + 1
    case Popped(h, v) => h in s.got && s.got[h] == v
    case _ => true
  }

  ghost predicate ThreadsOk<T>(s: State<T>)
    requires Shape(s)
  {
    forall tid :: tid in s.threads ==> ThreadOk(s, s.threads[tid])
  }

  // No ticket is owned twice.
  ghost predicate Exclusive<T>(s: State<T>) {
    && (forall a, b, x: nat :: WriterOf(s, a, x) && WriterOf(s, b, x) ==> a == b)
    && (forall a, b, x: nat :: ReaderOf(s, a, x) && ReaderOf(s, b, x) ==> a == b)
  }

  // Where every ticket is, read off the mark of its slot.
  ghost predicate TicketOk<T>(s: State<T>, x: nat)
    requires Shape(s)
  {
    var m, k := Mark(s, x), Turn(s.cap, x);
    && (m >= 2 * k + 1 ==> x < s.tail)
    && (m >= 2 * k + 2 ==> x < s.head && x in s.got)
    && (x in s.got ==> x < s.head && m >= 2 * k + 1 && s.got[x] == s.sent[x])
    && (m == 2 * k + 1 ==> s.data[Idx(s.cap, x)] == s.sent[x])
    && (x < s.tail && m <= 2 * k ==> exists tid :: WriterOf(s, tid, x))
    && (x < s.head && m <= 2 * k + 1 ==> exists tid :: ReaderOf(s, tid, x))
  }

  ghost predicate TicketsOk<T>(s: State<T>)
    requires Shape(s)
  {
    forall x: nat :: TicketOk(s, x)
  }

  ghost predicate Inv<T>(s: State<T>) {
    Shape(s) && ThreadsOk(s) && Exclusive(s) && TicketsOk(s)
  }

  lemma SameTicket(cap: nat, x: nat, y: nat)
    requires cap > 0 && Idx(cap, x) == Idx(cap, y) && Turn(cap, x) == Turn(cap, y)
    ensures x == y
  {
    assert x == cap * (x / cap) + x % cap;
    assert y == cap * (y / cap) + y % cap;
  }

  lemma InitInv<T>(s: State<T>)
    requires Init(s)
    ensures Inv(s)
  {
  }

  // A step that only moves tid's program counter and neither gives up nor
  // takes a ticket.
  lemma LocalStep<T>(s: State<T>, tid: nat, pc: Pc<T>)
    requires Inv(s) && ThreadOk(s, pc)
    requires WTicket(pc) == WTicket(PcOf(s, tid)) && RTicket(pc) == RTicket(PcOf(s, tid))
    ensures Inv(SetPc(s, tid, pc))
  {
    var s' := SetPc(s, tid, pc);
    assert forall a, x: nat :: WriterOf(s', a, x) <==> WriterOf(s, a, x);
    assert forall a, x: nat :: ReaderOf(s', a, x) <==> ReaderOf(s, a, x);
    forall x: nat ensures TicketOk(s', x) {
      assert TicketOk(s, x);
    }
  }

  lemma ClaimWriteInv<T>(s: State<T>, tid: nat, x: T, pc: Pc<T>)
    requires Inv(s)
    requires WTicket(PcOf(s, tid)) == -1 && RTicket(PcOf(s, tid)) == -1
    requires pc == SendWait(x, s.tail)
             || (pc == WriteSlot(x, s.tail) && Mark(s, s.tail) == 2 * Turn(s.cap, s.tail))
    ensures Inv(ClaimWrite(s, tid, x, pc))
  {
    var s' := ClaimWrite(s, tid, x, pc);
    assert TicketOk(s, s.tail);
    assert forall a, y: nat :: y != s.tail ==> (WriterOf(s', a, y) <==> WriterOf(s, a, y));
    assert forall a :: WriterOf(s', a, s.tail) <==> a == tid;
    assert forall a, y: nat :: ReaderOf(s', a, y) <==> ReaderOf(s, a, y);
    forall y: nat ensures TicketOk(s', y) {
      assert TicketOk(s, y);
      assert WriterOf(s', tid, s.tail);
    }
    forall a | a in s'.threads ensures ThreadOk(s', s'.threads[a]) {
      if a != tid { assert ThreadOk(s, s.threads[a]); }
    }
  }

  lemma ClaimReadInv<T>(s: State<T>, tid: nat, pc: Pc<T>)
    requires Inv(s)
    requires WTicket(PcOf(s, tid)) == -1 && RTicket(PcOf(s, tid)) == -1
    requires pc == RecvWait(s.head)
             || (pc == ReadSlot(s.head) && Mark(s, s.head) == 2 * Turn(s.cap, s.head) + 1)
    ensures Inv(SetPc(s, tid, pc).(head := s.head + 1))
  {
    var s' := SetPc(s, tid, pc).(head := s.head + 1);
    assert TicketOk(s, s.head);
    assert forall a, y: nat :: y != s.head ==> (ReaderOf(s', a, y) <==> ReaderOf(s, a, y));
    assert forall a :: ReaderOf(s', a, s.head) <==> a == tid;
    assert forall a, y: nat :: WriterOf(s', a, y) <==> WriterOf(s, a, y);
    forall y: nat ensures TicketOk(s', y) {
      assert TicketOk(s, y);
      assert ReaderOf(s', tid, s.head);
    }
    forall a | a in s'.threads ensures ThreadOk(s', s'.threads[a]) {
      if a != tid { assert ThreadOk(s, s.threads[a]); }
    }
  }

  // Two threads that both stand at a slot access of the same slot are the
  // same thread: the mark of the slot fixes the side and the ticket.
  lemma SlotOwner<T>(s: State<T>, a: nat, b: nat)
    requires Inv(s) && a in s.threads && b in s.threads
    requires OwnsSlot(s.threads[a]) && OwnsSlot(s.threads[b])
    requires Idx(s.cap, SlotTicket(s.threads[a])) == Idx(s.cap, SlotTicket(s.threads[b]))
    ensures a == b
  {
    var pa, pb := s.threads[a], s.threads[b];
    var x, y := SlotTicket(pa), SlotTicket(pb);
    assert ThreadOk(s, pa) && ThreadOk(s, pb);
    assert Mark(s, x) == Mark(s, y);
    assert Turn(s.cap, x) == Turn(s.cap, y);
    SameTicket(s.cap, x, y);
    assert (WriterOf(s, a, x) && WriterOf(s, b, x)) || (ReaderOf(s, a, x) && ReaderOf(s, b, x));
  }

  predicate OwnsSlot<T>(pc: Pc<T>) {
    pc.WriteSlot? || pc.PublishWrite? || pc.ReadSlot? || pc.PublishRead?
  }

  function SlotTicket<T>(pc: Pc<T>): nat
    requires OwnsSlot(pc)
  {
    match pc
    case WriteSlot(_, t) => t
    case PublishWrite(_, t) => t
    case ReadSlot(h) => h
    case PublishRead(h, _) => h
  }

  lemma WriteSlotInv<T>(s: State<T>, tid: nat)
    requires Inv(s) && PcOf(s, tid).WriteSlot?
    ensures Inv(Advance(s, tid))
  {
    var s' := Advance(s, tid);
    var WriteSlot(x, t) := s.threads[tid];
    assert ThreadOk(s, s.threads[tid]);
    assert forall a, y: nat :: WriterOf(s', a, y) <==> WriterOf(s, a, y);
    assert forall a, y: nat :: ReaderOf(s', a, y) <==> ReaderOf(s, a, y);
    forall y: nat ensures TicketOk(s', y) {
      assert TicketOk(s, y);
    }
    forall a | a in s'.threads ensures ThreadOk(s', s'.threads[a]) {
      if a != tid {
        assert ThreadOk(s, s.threads[a]);
        if s.threads[a].PublishWrite? && Idx(s.cap, s.threads[a].t) == Idx(s.cap, t) {
          SlotOwner(s, a, tid);
        }
      }
    }
  }

  // Raising a slot's mark by one, as its owner, disturbs no other thread.
  lemma PublishKeepsThreads<T>(s: State<T>, s': State<T>, tid: nat, x: nat)
    requires Inv(s) && tid in s.threads && OwnsSlot(s.threads[tid]) && x == SlotTicket(s.threads[tid])
    requires Shape(s') && s'.threads.Keys == s.threads.Keys
    requires s' == s.(threads := s'.threads, marks := s.marks[Idx(s.cap, x) := Mark(s, x) + 1])
    requires forall a :: a in s.threads && a != tid ==> s'.threads[a] == s.threads[a]
    requires ThreadOk(s', s'.threads[tid])
    ensures ThreadsOk(s')
  {
    assert ThreadOk(s, s.threads[tid]);
    forall a | a in s'.threads ensures ThreadOk(s', s'.threads[a]) {
      if a != tid {
        OtherThread(s, s', tid, x, a);
      }
    }
  }

  lemma OtherThread<T>(s: State<T>, s': State<T>, tid: nat, x: nat, a: nat)
    requires Inv(s) && tid in s.threads && OwnsSlot(s.threads[tid]) && x == SlotTicket(s.threads[tid])
    requires Shape(s')
    requires s' == s.(threads := s'.threads, marks := s.marks[Idx(s.cap, x) := Mark(s, x) + 1])
    requires a in s.threads && a != tid
    ensures ThreadOk(s', s.threads[a])
  {
    var pc := s.threads[a];
    assert ThreadOk(s, pc) && ThreadOk(s, s.threads[tid]);
    if OwnsSlot(pc) {
      if Idx(s.cap, SlotTicket(pc)) == Idx(s.cap, x) {
        SlotOwner(s, a, tid);
      }
    } else if pc.PushCas? || pc.SendWait? {
      if Idx(s.cap, pc.t) == Idx(s.cap, x) && Mark(s, x) == 2 * Turn(s.cap, pc.t) {
        SameTicket(s.cap, pc.t, x);
        assert WriterOf(s, tid, x);
        assert pc.SendWait? ==> WriterOf(s, a, x);
      }
    } else if pc.PopCas? || pc.RecvWait? {
      if Idx(s.cap, pc.h) == Idx(s.cap, x) && Mark(s, x) == 2 * Turn(s.cap, pc.h) + 1 {
        SameTicket(s.cap, pc.h, x);
        assert ReaderOf(s, tid, x);
        assert pc.RecvWait? ==> ReaderOf(s, a, x);
      }
    }
  }

  lemma PublishWriteInv<T>(s: State<T>, tid: nat)
    requires Inv(s) && PcOf(s, tid).PublishWrite?
    ensures Inv(Advance(s, tid))
  {
    var s' := Advance(s, tid);
    var PublishWrite(x, t) := s.threads[tid];
    assert ThreadOk(s, s.threads[tid]);
    PublishKeepsThreads(s, s', tid, t);
    assert forall a, y: nat :: y != t ==> (WriterOf(s', a, y) <==> WriterOf(s, a, y));
    assert forall a, y: nat :: WriterOf(s', a, y) ==> WriterOf(s, a, y);
    assert forall a, y: nat :: ReaderOf(s', a, y) <==> ReaderOf(s, a, y);
    forall y: nat ensures TicketOk(s', y) {
      assert TicketOk(s, y);
      if Idx(s.cap, y) == Idx(s.cap, t) && Turn(s.cap, y) == Turn(s.cap, t) {
        SameTicket(s.cap, y, t);
      }
    }
  }

  lemma ReadSlotInv<T>(s: State<T>, tid: nat)
    requires Inv(s) && PcOf(s, tid).ReadSlot?
    ensures Inv(Advance(s, tid))
  {
    var s' := Advance(s, tid);
    var h := s.threads[tid].h;
    assert ThreadOk(s, s.threads[tid]) && TicketOk(s, h);
    assert forall a, y: nat :: WriterOf(s', a, y) <==> WriterOf(s, a, y);
    assert forall a, y: nat :: ReaderOf(s', a, y) <==> ReaderOf(s, a, y);
    forall y: nat ensures TicketOk(s', y) {
      assert TicketOk(s, y);
    }
    forall a | a in s'.threads ensures ThreadOk(s', s'.threads[a]) {
      if a != tid {
        ReadKeepsThread(s, tid, a);
      }
    }
  }

  lemma ReadKeepsThread<T>(s: State<T>, tid: nat, a: nat)
    requires Inv(s) && PcOf(s, tid).ReadSlot? && a in s.threads && a != tid
    ensures ThreadOk(Advance(s, tid), s.threads[a])
  {
    var h := s.threads[tid].h;
    assert ThreadOk(s, s.threads[tid]) && ThreadOk(s, s.threads[a]);
    assert ReaderOf(s, tid, h);
    assert RTicket(s.threads[a]) == h ==> ReaderOf(s, a, h);
  }

  lemma PublishReadInv<T>(s: State<T>, tid: nat)
    requires Inv(s) && PcOf(s, tid).PublishRead?
    ensures Inv(Advance(s, tid))
  {
    var s' := Advance(s, tid);
    var PublishRead(h, v) := s.threads[tid];
    assert ThreadOk(s, s.threads[tid]);
    PublishKeepsThreads(s, s', tid, h);
    assert forall a, y: nat :: y != h ==> (ReaderOf(s', a, y) <==> ReaderOf(s, a, y));
    assert forall a, y: nat :: ReaderOf(s', a, y) ==> ReaderOf(s, a, y);
    assert forall a, y: nat :: WriterOf(s', a, y) <==> WriterOf(s, a, y);
    forall y: nat ensures TicketOk(s', y) {
      assert TicketOk(s, y);
      if Idx(s.cap, y) == Idx(s.cap, h) && Turn(s.cap, y) == Turn(s.cap, h) {
        SameTicket(s.cap, y, h);
      }
    }
  }

  lemma CallInv<T>(s: State<T>, tid: nat, pc: Pc<T>)
    requires Inv(s) && (pc.PushStart? || pc.SendStart? || pc.PopStart? || pc.RecvStart?)
    ensures Inv(Call(s, tid, pc))
  {
    if Returned(PcOf(s, tid)) {
      LocalStep(s, tid, pc);
    }
  }

  lemma PushStepInv<T>(s: State<T>, tid: nat)
    requires Inv(s) && InPush(PcOf(s, tid))
    ensures Inv(Advance(s, tid))
  {
    var pc := s.threads[tid];
    assert ThreadOk(s, pc);
    match pc
    case PushLoop(x, t) =>
      LocalStep(s, tid, if Mark(s, t) == 2 * Turn(s.cap, t) then PushCas(x, t) else PushMiss(x, t));
    case PushCas(x, t) =>
      if s.tail == t { ClaimWriteInv(s, tid, x, WriteSlot(x, s.tail)); }
      else { LocalStep(s, tid, PushLoop(x, s.tail)); }
    case PushMiss(x, t) => LocalStep(s, tid, PushRecheck(x, t, s.head));
    case PushRecheck(x, t, h) =>
      LocalStep(s, tid, Pushed(false));
      LocalStep(s, tid, PushLoop(x, s.tail));
    case PushStart(x) => LocalStep(s, tid, PushLoop(x, s.tail));
  }

  lemma PopStepInv<T>(s: State<T>, tid: nat)
    requires Inv(s) && InPop(PcOf(s, tid))
    ensures Inv(Advance(s, tid))
  {
    var pc := s.threads[tid];
    assert ThreadOk(s, pc);
    match pc
    case PopLoop(h) =>
      LocalStep(s, tid, if Mark(s, h) == 2 * Turn(s.cap, h) + 1 then PopCas(h) else PopMiss(h));
    case PopCas(h) =>
      if s.head == h { ClaimReadInv(s, tid, ReadSlot(s.head)); }
      else { LocalStep(s, tid, PopLoop(s.head)); }
    case PopMiss(h) => LocalStep(s, tid, PopRecheck(h, s.tail));
    case PopRecheck(h, t) =>
      LocalStep(s, tid, PopFailed);
      LocalStep(s, tid, PopLoop(s.head));
    case PopStart => LocalStep(s, tid, PopLoop(s.head));
  }

  lemma SendStepInv<T>(s: State<T>, tid: nat)
    requires Inv(s) && (PcOf(s, tid).SendStart? || PcOf(s, tid).SendWait?)
    ensures Inv(Advance(s, tid))
  {
    var pc := s.threads[tid];
    assert ThreadOk(s, pc);
    match pc
    case SendStart(x) =>
      assert Advance(s, tid) == ClaimWrite(s, tid, x, SendWait(x, s.tail));
      ClaimWriteInv(s, tid, x, SendWait(x, s.tail));
    case SendWait(x, t) =>
      if Mark(s, t) == 2 * Turn(s.cap, t) {
        assert Advance(s, tid) == SetPc(s, tid, WriteSlot(x, t));
        LocalStep(s, tid, WriteSlot(x, t));
      } else {
        assert Advance(s, tid) == s;
      }
  }

  lemma RecvStepInv<T>(s: State<T>, tid: nat)
    requires Inv(s) && (PcOf(s, tid).RecvStart? || PcOf(s, tid).RecvWait?)
    ensures Inv(Advance(s, tid))
  {
    var pc := s.threads[tid];
    assert ThreadOk(s, pc);
    match pc
    case RecvStart =>
      assert Advance(s, tid) == SetPc(s, tid, RecvWait(s.head)).(head := s.head + 1);
      ClaimReadInv(s, tid, RecvWait(s.head));
    case RecvWait(h) =>
      if Mark(s, h) == 2 * Turn(s.cap, h) + 1 {
        assert Advance(s, tid) == SetPc(s, tid, ReadSlot(h));
        LocalStep(s, tid, ReadSlot(h));
      } else {
        assert Advance(s, tid) == s;
      }
  }

  lemma SlotStepInv<T>(s: State<T>, tid: nat)
    requires Inv(s) && OwnsSlot(PcOf(s, tid))
    ensures Inv(Advance(s, tid))
  {
    match s.threads[tid]
    case WriteSlot(_, _) => WriteSlotInv(s, tid);
    case PublishWrite(_, _) => PublishWriteInv(s, tid);
    case ReadSlot(_) => ReadSlotInv(s, tid);
    case PublishRead(_, _) => PublishReadInv(s, tid);
  }

  lemma ApplyInv<T>(s: State<T>, a: Action<T>)
    requires Inv(s)
    ensures Inv(Apply(s, a))
  {
    match a
    case CallPush(tid, x) => CallInv(s, tid, PushStart(x));
    case CallSend(tid, x) => CallInv(s, tid, SendStart(x));
    case CallPop(tid) => CallInv(s, tid, PopStart);
    case CallRecv(tid) => CallInv(s, tid, RecvStart);
    case Step(tid) =>
      var pc := PcOf(s, tid);
      if OwnsSlot(pc) { SlotStepInv(s, tid); }
      else if InPush(pc) { PushStepInv(s, tid); }
      else if InPop(pc) { PopStepInv(s, tid); }
      else if pc.SendStart? || pc.SendWait? { SendStepInv(s, tid); }
      else if pc.RecvStart? || pc.RecvWait? { RecvStepInv(s, tid); }
  }

  lemma {:induction false} RunInv<T>(tr: seq<State<T>>, acts: seq<Action<T>>, i: nat)
    requires Run(tr, acts) && i < |tr|
    ensures Inv(tr[i])
  {
    if i == 0 {
      InitInv(tr[0]);
    } else {
      RunInv(tr, acts, i - 1);
      assert Linked(tr, acts, i - 1);
      ApplyInv(tr[i - 1], acts[i - 1]);
    }
  }

  // ----- delivery ------------------------------------------------------------

  // Where a write ticket that was handed out is.
  ghost predicate Accounted<T>(s: State<T>, x: nat)
    requires Shape(s) && x < s.tail
  {
    || (exists tid :: WriterOf(s, tid, x))
    || (Mark(s, x) == 2 * Turn(s.cap, x) + 1 && s.data[Idx(s.cap, x)] == s.sent[x])
    || x in s.got
  }

  // Nothing is lost, nothing is invented and nothing is reordered: in every
  // state of every run each write ticket is still owned by its writer, stored
  // in its slot, or read; each value read under ticket h, and each value a pop
  // or recv returns, is the value sent under ticket h; each read ticket is
  // served or still owned by its reader.
  lemma Delivery<T>(tr: seq<State<T>>, acts: seq<Action<T>>, i: nat)
    requires Run(tr, acts) && i < |tr|
    ensures Shape(tr[i])
    ensures forall h :: h in tr[i].got ==>
              h < tr[i].head && h < tr[i].tail && tr[i].got[h] == tr[i].sent[h]
    ensures forall tid :: tid in tr[i].threads && tr[i].threads[tid].Popped? ==>
              var p := tr[i].threads[tid]; p.h < tr[i].tail && p.v == tr[i].sent[p.h]
    ensures forall x: nat :: x < tr[i].tail ==> Accounted(tr[i], x)
    ensures forall x: nat :: x < tr[i].head && x !in tr[i].got ==> exists tid :: ReaderOf(tr[i], tid, x)
  {
    RunInv(tr, acts, i);
    var s := tr[i];
    forall x: nat
      ensures x in s.got ==> x < s.head && x < s.tail && s.got[x] == s.sent[x]
      ensures x < s.tail ==> Accounted(s, x)
      ensures x < s.head && x !in s.got ==> exists tid :: ReaderOf(s, tid, x)
    {
      assert TicketOk(s, x);
    }
    forall tid | tid in s.threads && s.threads[tid].Popped?
      ensures var p := s.threads[tid]; p.h < s.tail && p.v == s.sent[p.h]
    {
      assert ThreadOk(s, s.threads[tid]) && TicketOk(s, s.threads[tid].h);
    }
  }

  // A value is read exactly once: a step that records a read is the slot
  // access of a ticket nobody has read, and no recorded read changes.
  lemma ReadOnce<T>(tr: seq<State<T>>, acts: seq<Action<T>>, i: nat)
    requires Run(tr, acts) && i < |acts|
    ensures Shape(tr[i])
    ensures var s, s' := tr[i], tr[i + 1];
            s'.got == s.got ||
            exists h: nat :: PcOf(s, acts[i].tid) == ReadSlot(h) && h !in s.got
                        && h < s.tail && s'.got == s.got[h := s.sent[h]]
  {
    RunInv(tr, acts, i);
    assert Linked(tr, acts, i);
    var s, tid := tr[i], acts[i].tid;
    if acts[i].Step? && PcOf(s, tid).ReadSlot? {
      var h := s.threads[tid].h;
      assert ThreadOk(s, s.threads[tid]) && TicketOk(s, h);
      assert PcOf(s, tid) == ReadSlot(h);
    }
  }

  // Once no ticket is in flight and as many reads as writes were claimed, the
  // reads are exactly the writes.
  lemma QuiescentDelivery<T>(tr: seq<State<T>>, acts: seq<Action<T>>, i: nat)
    requires Run(tr, acts) && i < |tr| && tr[i].head == tr[i].tail
    requires forall tid, x: nat :: !WriterOf(tr[i], tid, x) && !ReaderOf(tr[i], tid, x)
    ensures |tr[i].sent| == tr[i].tail && tr[i].got == map x: nat | x < tr[i].tail :: tr[i].sent[x]
  {
    Delivery(tr, acts, i);
    assert forall tid, x: nat :: !ReaderOf(tr[i], tid, x);
  }

  // No two threads ever stand at accesses to the same slot.
  lemma NoDataRace<T>(tr: seq<State<T>>, acts: seq<Action<T>>, i: nat, a: nat, b: nat)
    requires Run(tr, acts) && i < |tr| && a != b
    requires OwnsSlot(PcOf(tr[i], a)) && OwnsSlot(PcOf(tr[i], b))
    ensures tr[i].cap > 0
    ensures Idx(tr[i].cap, SlotTicket(PcOf(tr[i], a))) != Idx(tr[i].cap, SlotTicket(PcOf(tr[i], b)))
  {
    RunInv(tr, acts, i);
    if Idx(tr[i].cap, SlotTicket(PcOf(tr[i], a))) == Idx(tr[i].cap, SlotTicket(PcOf(tr[i], b))) {
      SlotOwner(tr[i], a, b);
    }
  }

  // ----- failures are justified ---------------------------------------------

  predicate PushPopOnly<T>(acts: seq<Action<T>>) {
    forall i :: 0 <= i < |acts| ==> !acts[i].CallSend? && !acts[i].CallRecv?
  }

  ghost predicate NoBlockingCall<T>(s: State<T>) {
    forall tid :: tid in s.threads ==>
      !s.threads[tid].SendStart? && !s.threads[tid].RecvStart?
  }

  lemma PrecedingTurn(cap: nat, x: nat)
    requires 0 < cap <= x
    ensures Idx(cap, x - cap) == Idx(cap, x) && Turn(cap, x - cap) + 1 == Turn(cap, x)
  {
    DivModShift(x, cap, -1);
  }

  // With push and pop alone the counters stay within one lap of each other.
  lemma {:induction false} Bounded<T>(tr: seq<State<T>>, acts: seq<Action<T>>, i: nat)
    requires Run(tr, acts) && PushPopOnly(acts) && i < |tr|
    ensures tr[i].head <= tr[i].tail <= tr[i].head + tr[i].cap && NoBlockingCall(tr[i])
  {
    if i > 0 {
      Bounded(tr, acts, i - 1);
      RunInv(tr, acts, i - 1);
      assert Linked(tr, acts, i - 1);
      NoBlockingStep(tr[i - 1], acts[i - 1]);
      BoundedStep(tr[i - 1], acts[i - 1]);
    }
  }

  lemma PushHasRoom<T>(s: State<T>, tid: nat)
    requires Inv(s) && PcOf(s, tid).PushCas? && s.tail == PcOf(s, tid).t
    ensures s.tail < s.head + s.cap
  {
    assert ThreadOk(s, s.threads[tid]);
    if s.tail >= s.cap {
      PrecedingTurn(s.cap, s.tail);
      assert TicketOk(s, s.tail - s.cap);
    }
  }

  lemma PopHasValue<T>(s: State<T>, tid: nat)
    requires Inv(s) && PcOf(s, tid).PopCas? && s.head == PcOf(s, tid).h
    ensures s.head < s.tail
  {
    assert ThreadOk(s, s.threads[tid]);
    assert TicketOk(s, s.head);
  }

  lemma NoBlockingStep<T>(s: State<T>, a: Action<T>)
    requires Shape(s) && NoBlockingCall(s) && !a.CallSend? && !a.CallRecv?
    ensures NoBlockingCall(Apply(s, a))
  {
    forall tid | tid in Apply(s, a).threads
      ensures !PcOf(Apply(s, a), tid).SendStart? && !PcOf(Apply(s, a), tid).RecvStart?
    {
      NoBlockingStepAt(s, a, tid);
    }
  }

  lemma NoBlockingStepAt<T>(s: State<T>, a: Action<T>, tid: nat)
    requires Shape(s) && !PcOf(s, tid).SendStart? && !PcOf(s, tid).RecvStart?
    requires !a.CallSend? && !a.CallRecv?
    ensures !PcOf(Apply(s, a), tid).SendStart? && !PcOf(Apply(s, a), tid).RecvStart?
  {
  }

  lemma BoundedStep<T>(s: State<T>, a: Action<T>)
    requires Inv(s) && NoBlockingCall(s) && s.head <= s.tail <= s.head + s.cap
    requires !a.CallSend? && !a.CallRecv?
    ensures Apply(s, a).head <= Apply(s, a).tail <= Apply(s, a).head + Apply(s, a).cap
  {
    if a.Step? {
      var pc := PcOf(s, a.tid);
      if pc.PushCas? && s.tail == pc.t {
        PushHasRoom(s, a.tid);
      } else if pc.PopCas? && s.head == pc.h {
        PopHasValue(s, a.tid);
      }
    }
  }

  lemma StepGrows<T>(s: State<T>, a: Action<T>)
    requires Shape(s)
    ensures s.tail <= Apply(s, a).tail && s.head <= Apply(s, a).head && Apply(s, a).cap == s.cap
  {
    if a.Step? { AdvanceGrows(s, a.tid); }
    hide Advance;
  }

  lemma AdvanceGrows<T>(s: State<T>, tid: nat)
    requires Shape(s)
    ensures s.tail <= Advance(s, tid).tail && s.head <= Advance(s, tid).head && Advance(s, tid).cap == s.cap
  {
    hide Mark, Idx, Turn, CheckFull;
  }

  // A call touches only the caller, a step only its own thread.
  lemma ThreadAfter<T>(s: State<T>, a: Action<T>, tid: nat)
    requires Shape(s)
    ensures a == Step(tid) ==> Apply(s, a) == Advance(s, tid)
    ensures a != Step(tid) ==>
              var pc := PcOf(Apply(s, a), tid);
              pc == PcOf(s, tid) || pc.PushStart? || pc.SendStart? || pc.PopStart? || pc.RecvStart?
  {
    hide Mark, Idx, Turn, CheckFull;
  }

  lemma {:induction false} CountersGrow<T>(tr: seq<State<T>>, acts: seq<Action<T>>, j: nat, k: nat)
    requires Run(tr, acts) && j <= k < |tr|
    ensures tr[j].tail <= tr[k].tail && tr[j].head <= tr[k].head && tr[k].cap == tr[j].cap
    decreases k - j
  {
    if j < k {
      CountersGrow(tr, acts, j, k - 1);
      assert Linked(tr, acts, k - 1);
      StepGrows(tr[k - 1], acts[k - 1]);
      hide Apply;
    }
  }

  ghost predicate Throughout<T>(tr: seq<State<T>>, tid: nat, k: nat, n: nat, inCall: Pc<T> -> bool)
    requires n < |tr|
  {
    forall m :: k <= m <= n ==> inCall(PcOf(tr[m], tid))
  }

  lemma IntoPushRecheck<T>(s: State<T>, a: Action<T>, tid: nat)
    requires Shape(s) && PcOf(Apply(s, a), tid).PushRecheck?
    ensures var PushRecheck(x, t, h) := PcOf(Apply(s, a), tid);
            || PcOf(s, tid) == PcOf(Apply(s, a), tid)
            || (PcOf(s, tid) == PushMiss(x, t) && s.head == h)
  {
    hide Apply, Mark, Idx, Turn, CheckFull;
    ThreadAfter(s, a, tid);
  }

  lemma IntoPopRecheck<T>(s: State<T>, a: Action<T>, tid: nat)
    requires Shape(s) && PcOf(Apply(s, a), tid).PopRecheck?
    ensures var PopRecheck(h, t) := PcOf(Apply(s, a), tid);
            || PcOf(s, tid) == PcOf(Apply(s, a), tid)
            || (PcOf(s, tid) == PopMiss(h) && s.tail == t)
  {
    hide Apply, Mark, Idx, Turn, CheckFull;
    ThreadAfter(s, a, tid);
  }

  // The head.load of the retry that a push is in, found in the past.
  lemma {:induction false} HeadLoad<T>(tr: seq<State<T>>, acts: seq<Action<T>>, n: nat, tid: nat) returns (k: nat)
    requires Run(tr, acts) && n < |tr| && PcOf(tr[n], tid).PushRecheck?
    ensures k < n && Throughout(tr, tid, k, n, (pc: Pc<T>) => InPush(pc))
    ensures PcOf(tr[k], tid) == PushMiss(PcOf(tr[n], tid).x, PcOf(tr[n], tid).t)
    ensures tr[k].head == PcOf(tr[n], tid).h
  {
    hide Apply;
    assert n > 0;
    assert Linked(tr, acts, n - 1);
    IntoPushRecheck(tr[n - 1], acts[n - 1], tid);
    if PcOf(tr[n - 1], tid).PushMiss? {
      k := n - 1;
    } else {
      k := HeadLoad(tr, acts, n - 1, tid);
    }
  }

  lemma {:induction false} TailLoad<T>(tr: seq<State<T>>, acts: seq<Action<T>>, n: nat, tid: nat) returns (k: nat)
    requires Run(tr, acts) && n < |tr| && PcOf(tr[n], tid).PopRecheck?
    ensures k < n && Throughout(tr, tid, k, n, (pc: Pc<T>) => InPop(pc))
    ensures PcOf(tr[k], tid) == PopMiss(PcOf(tr[n], tid).h) && tr[k].tail == PcOf(tr[n], tid).t
  {
    hide Apply;
    assert n > 0;
    assert Linked(tr, acts, n - 1);
    IntoPopRecheck(tr[n - 1], acts[n - 1], tid);
    if PcOf(tr[n - 1], tid).PopMiss? {
      k := n - 1;
    } else {
      k := TailLoad(tr, acts, n - 1, tid);
    }
  }

  predicate NoRecv<T>(acts: seq<Action<T>>) { forall i :: 0 <= i < |acts| ==> !acts[i].CallRecv? }

  ghost predicate NobodyReceives<T>(s: State<T>) {
    forall tid :: tid in s.threads ==> !s.threads[tid].RecvStart?
  }

  lemma NobodyReceivesAt<T>(s: State<T>, a: Action<T>, tid: nat)
    requires Shape(s) && !PcOf(s, tid).RecvStart? && !a.CallRecv?
    ensures !PcOf(Apply(s, a), tid).RecvStart?
  {
  }

  lemma HeadBehindStep<T>(s: State<T>, a: Action<T>)
    requires Inv(s) && NobodyReceives(s) && s.head <= s.tail && !a.CallRecv?
    ensures Apply(s, a).head <= Apply(s, a).tail
  {
    if a.Step? {
      var pc := PcOf(s, a.tid);
      if pc.PopCas? && s.head == pc.h { PopHasValue(s, a.tid); }
    }
  }

  // Without recv no read ticket is claimed ahead of the write tickets.
  lemma {:induction false} HeadBehind<T>(tr: seq<State<T>>, acts: seq<Action<T>>, i: nat)
    requires Run(tr, acts) && NoRecv(acts) && i < |tr|
    ensures tr[i].head <= tr[i].tail && NobodyReceives(tr[i])
  {
    if i > 0 {
      var s, a := tr[i - 1], acts[i - 1];
      HeadBehind(tr, acts, i - 1);
      RunInv(tr, acts, i - 1);
      assert Linked(tr, acts, i - 1);
      HeadBehindStep(s, a);
      forall tid | tid in tr[i].threads ensures !tr[i].threads[tid].RecvStart? {
        NobodyReceivesAt(s, a, tid);
        assert PcOf(Apply(s, a), tid) == tr[i].threads[tid];
      }
    }
  }

  // A push that returns false was, at some instant of the call, looking at a
  // queue whose counters differ by a whole number of laps.  At that instant the
  // queue was full, or send had claimed even more, if and only if no read
  // ticket was claimed ahead of the write tickets, which only recv can do.  With
  // push and pop alone it was exactly full.
  lemma PushFailureJustified<T>(tr: seq<State<T>>, acts: seq<Action<T>>, n: nat, tid: nat) returns (k: nat)
    requires Run(tr, acts) && n < |acts| && acts[n] == Step(tid)
    requires InPush(PcOf(tr[n], tid)) && PcOf(tr[n + 1], tid) == Pushed(false)
    ensures k <= n && Throughout(tr, tid, k, n, (pc: Pc<T>) => InPush(pc))
    ensures tr[k].cap > 0 && CheckFull(tr[k].cap, tr[k].head, tr[k].tail)
    ensures tr[k].tail >= tr[k].head + tr[k].cap <==> tr[k].head <= tr[k].tail
    ensures NoRecv(acts) ==> tr[k].tail >= tr[k].head + tr[k].cap
    ensures PushPopOnly(acts) ==> tr[k].tail == tr[k].head + tr[k].cap
  {
    assert Linked(tr, acts, n);
    k := HeadLoad(tr, acts, n, tid);
    RunInv(tr, acts, k);
    assert ThreadOk(tr[k], PcOf(tr[k], tid));
    CountersGrow(tr, acts, k, n);
    LapApart(tr[k].cap, tr[k].head, tr[k].tail);
    if NoRecv(acts) { HeadBehind(tr, acts, k); }
    if PushPopOnly(acts) { Bounded(tr, acts, k); }
  }

  lemma LapApart(cap: nat, h: nat, t: nat)
    requires cap > 0 && CheckFull(cap, h, t)
    ensures h <= t ==> t >= h + cap
  {
    if h < t < h + cap { ModDistinct(h, t, cap); }
  }

  // A pop that returns false saw an empty queue at some instant of the call,
  // in every run.
  lemma PopFailureJustified<T>(tr: seq<State<T>>, acts: seq<Action<T>>, n: nat, tid: nat) returns (k: nat)
    requires Run(tr, acts) && n < |acts| && acts[n] == Step(tid)
    requires InPop(PcOf(tr[n], tid)) && PcOf(tr[n + 1], tid) == PopFailed
    ensures k <= n && Throughout(tr, tid, k, n, (pc: Pc<T>) => InPop(pc))
    ensures tr[k].head == tr[k].tail
  {
    assert Linked(tr, acts, n);
    k := TailLoad(tr, acts, n, tid);
    RunInv(tr, acts, k);
    assert ThreadOk(tr[k], PcOf(tr[k], tid));
    CountersGrow(tr, acts, k, n);
  }

  // With recv a push can fail on a queue that is not full.  Two slots: four
  // receivers claim tickets 0 to 3, two senders fill tickets 0 and 1, and a push
  // of ticket 2 then fails.  State k is the one after k actions.
  function RecvAhead(k: nat): State<nat> {
    State(2, if k < 10 then 0 else if k < 15 then 1 else 2, if k < 8 then k / 2 else 4,
          [if k < 13 then 0 else 1, if k < 18 then 0 else 1], [if k < 12 then 0 else 7, if k < 17 then 0 else 8],
          ThreadsAt(k), if k < 10 then [] else if k < 15 then [7] else [7, 8], map[])
  }

  function ThreadsAt(k: nat): map<nat, Pc<nat>> {
    var r1 := With(map[], k >= 1, 1, if k == 1 then RecvStart else RecvWait(0));
    var r2 := With(r1, k >= 3, 2, if k == 3 then RecvStart else RecvWait(1));
    var r3 := With(r2, k >= 5, 3, if k == 5 then RecvStart else RecvWait(2));
    var r4 := With(r3, k >= 7, 4, if k == 7 then RecvStart else RecvWait(3));
    var w1 := With(r4, k >= 9, 5, SenderAt(k - 9, 7, 0));
    var w2 := With(w1, k >= 14, 6, SenderAt(k - 14, 8, 1));
    With(w2, k >= 19, 7, PusherAt(k - 19))
  }

  function With(m: map<nat, Pc<nat>>, present: bool, tid: nat, pc: Pc<nat>): map<nat, Pc<nat>> {
    if present then m[tid := pc] else m
  }

  function SenderAt(j: int, x: nat, t: nat): Pc<nat> {
    if j == 0 then SendStart(x) else if j == 1 then SendWait(x, t) else if j == 2 then WriteSlot(x, t)
    else if j == 3 then PublishWrite(x, t) else Pushed(true)
  }

  function PusherAt(j: int): Pc<nat> {
    if j == 0 then PushStart(9) else if j == 1 then PushLoop(9, 2) else if j == 2 then PushMiss(9, 2)
    else if j == 3 then PushRecheck(9, 2, 4) else Pushed(false)
  }

  function RecvAheadAct(k: nat): Action<nat> {
    if k < 8 then (if k % 2 == 0 then CallRecv(k / 2 + 1) else Step(k / 2 + 1))
    else if k == 8 then CallSend(5, 7) else if k < 13 then Step(5)
    else if k == 13 then CallSend(6, 8) else if k < 18 then Step(6)
    else if k == 18 then CallPush(7, 9) else Step(7)
  }

  lemma RecvAheadStep(k: nat)
    requires k < 23
    ensures Shape(RecvAhead(k)) && Apply(RecvAhead(k), RecvAheadAct(k)) == RecvAhead(k + 1)
  {
    hide Apply;
    if k < 4 { RecvAheadReaders(k); } else if k < 8 { RecvAheadMore(k); } else if k < 13 { RecvAheadSender(k); }
    else if k < 18 { RecvAheadSecond(k); } else { RecvAheadPusher(k); }
  }

  lemma RecvAheadReaders(k: nat)
    requires k < 4
    ensures Apply(RecvAhead(k), RecvAheadAct(k)) == RecvAhead(k + 1)
  {
    assert Apply(RecvAhead(k), RecvAheadAct(k)).threads == RecvAhead(k + 1).threads;
  }

  lemma RecvAheadMore(k: nat)
    requires 4 <= k < 8
    ensures Apply(RecvAhead(k), RecvAheadAct(k)) == RecvAhead(k + 1)
  {
    assert Apply(RecvAhead(k), RecvAheadAct(k)).threads == RecvAhead(k + 1).threads;
  }

  lemma RecvAheadSender(k: nat)
    requires 8 <= k < 13
    ensures Apply(RecvAhead(k), RecvAheadAct(k)) == RecvAhead(k + 1)
  {
    assert PcOf(RecvAhead(k), 5) == if k == 8 then Idle else SenderAt(k - 9, 7, 0);
    assert Mark(RecvAhead(k), 0) == 0;
    assert Apply(RecvAhead(k), RecvAheadAct(k)).threads == RecvAhead(k + 1).threads;
  }

  lemma RecvAheadSecond(k: nat)
    requires 13 <= k < 18
    ensures Apply(RecvAhead(k), RecvAheadAct(k)) == RecvAhead(k + 1)
  {
    assert PcOf(RecvAhead(k), 6) == if k == 13 then Idle else SenderAt(k - 14, 8, 1);
    assert Mark(RecvAhead(k), 1) == 0;
    assert Apply(RecvAhead(k), RecvAheadAct(k)).threads == RecvAhead(k + 1).threads;
  }

  lemma RecvAheadPusher(k: nat)
    requires 18 <= k < 23
    ensures Apply(RecvAhead(k), RecvAheadAct(k)) == RecvAhead(k + 1)
  {
    assert PcOf(RecvAhead(k), 7) == if k == 18 then Idle else PusherAt(k - 19);
    assert Mark(RecvAhead(k), 2) == 1 && CheckFull(2, 4, 2);
    assert Apply(RecvAhead(k), RecvAheadAct(k)).threads == RecvAhead(k + 1).threads;
  }

  // The push is called at step 18 and fails at step 23; in between the counters
  // never say that the queue is full.
  lemma PushFailsAheadOfRecv() returns (tr: seq<State<nat>>, acts: seq<Action<nat>>)
    ensures Run(tr, acts) && |acts| == 23 && acts[18] == CallPush(7, 9) && PcOf(tr[23], 7) == Pushed(false)
    ensures forall k :: 18 <= k <= 23 ==> tr[k].cap == 2 && tr[k].tail < tr[k].head
  {
    tr, acts := seq(24, k requires 0 <= k < 24 => RecvAhead(k)), seq(23, k requires 0 <= k < 23 => RecvAheadAct(k));
    forall i | 0 <= i < |acts| ensures Linked(tr, acts, i) { RecvAheadStep(i); }
  }
}
