// What the calls of the queue in MpmcQueue.dfy answer: over every run, a push,
// send, pop or recv reports success exactly if it claimed one ticket, for the
// value it was given or returned.
module MpmcCalls {
  import opened MpmcQueue

  // Thread tid begins a call with action i of the run and has not returned
  // before state n.
  ghost predicate Calling<T>(tr: seq<State<T>>, acts: seq<Action<T>>, i: nat, n: nat, tid: nat) {
    && Run(tr, acts) && i < n < |tr| && acts[i].tid == tid && !acts[i].Step? && Returned(PcOf(tr[i], tid))
    && forall m :: i < m < n ==> !Returned(PcOf(tr[m], tid))
  }

  // ----- write tickets ------------------------------------------------------------------

  // Step m is one of tid's and claims a write ticket for x.
  ghost predicate Claims<T>(tr: seq<State<T>>, acts: seq<Action<T>>, tid: nat, m: nat, x: T)
    requires |tr| == |acts| + 1 && m < |acts|
  { acts[m] == Step(tid) && tr[m + 1].sent == tr[m].sent + [x] }

  // No step of tid in [i, n) changes what has been sent.
  ghost predicate ClaimsNone<T>(tr: seq<State<T>>, acts: seq<Action<T>>, tid: nat, i: nat, n: nat)
    requires |tr| == |acts| + 1 && n <= |acts|
  { forall m :: i <= m < n ==> SentKept(tr, acts, tid, m) }

  ghost predicate SentKept<T>(tr: seq<State<T>>, acts: seq<Action<T>>, tid: nat, m: nat)
    requires |tr| == |acts| + 1 && m < |acts|
  { acts[m] == Step(tid) ==> tr[m + 1].sent == tr[m].sent }

  // Exactly one step of tid in [i, n) does, and it appends x.
  ghost predicate ClaimsOne<T>(tr: seq<State<T>>, acts: seq<Action<T>>, tid: nat, i: nat, n: nat, x: T)
    requires |tr| == |acts| + 1 && n <= |acts|
  {
    exists m :: i <= m < n && Claims(tr, acts, tid, m, x) && ClaimsNone(tr, acts, tid, i, m) && ClaimsNone(tr, acts, tid, m + 1, n)
  }

  // A writing call for x that has not claimed a ticket yet, and one that has.
  predicate BeforeClaim<T(==)>(pc: Pc<T>, x: T, blocking: bool) {
    && (if blocking then pc.SendStart? else pc.PushStart? || pc.PushLoop? || pc.PushCas? || pc.PushMiss? || pc.PushRecheck?)
    && pc.x == x
  }

  predicate AfterClaim<T(==)>(pc: Pc<T>, x: T) {
    (pc.SendWait? || pc.WriteSlot? || pc.PublishWrite?) && pc.x == x
  }

  lemma WriterStep<T>(s: State<T>, tid: nat, x: T, blocking: bool)
    requires Shape(s)
    ensures var pc, s' := PcOf(s, tid), Advance(s, tid);
            && (BeforeClaim(pc, x, blocking) ==>
                  || (s'.sent == s.sent && (BeforeClaim(PcOf(s', tid), x, blocking) || (!blocking && PcOf(s', tid) == Pushed(false))))
                  || (s'.sent == s.sent + [x] && AfterClaim(PcOf(s', tid), x)))
            && (AfterClaim(pc, x) ==> s'.sent == s.sent && (AfterClaim(PcOf(s', tid), x) || PcOf(s', tid) == Pushed(true)))
  {
    hide Mark, Idx, Turn, CheckFull;
  }

  // What the program counter of a writing call says about its tickets.
  ghost predicate WriterAt<T>(tr: seq<State<T>>, acts: seq<Action<T>>, tid: nat, i: nat, n: nat, x: T, blocking: bool)
    requires |tr| == |acts| + 1 && n < |tr|
  {
    var pc := PcOf(tr[n], tid);
    if BeforeClaim(pc, x, blocking) || (!blocking && pc == Pushed(false)) then ClaimsNone(tr, acts, tid, i, n)
    else (AfterClaim(pc, x) || pc == Pushed(true)) && ClaimsOne(tr, acts, tid, i, n, x)
  }

  // A step of another thread, or a call that cannot begin, leaves tid alone.
  lemma OtherAction<T>(s: State<T>, a: Action<T>, tid: nat)
    requires Shape(s) && a != Step(tid) && !Returned(PcOf(s, tid))
    ensures PcOf(Apply(s, a), tid) == PcOf(s, tid)
  {
    hide Advance;
    if a.Step? { AdvanceOther(s, a.tid, tid); }
  }

  lemma AdvanceOther<T>(s: State<T>, a: nat, tid: nat)
    requires Shape(s) && a != tid
    ensures PcOf(Advance(s, a), tid) == PcOf(s, tid)
  {
    hide Mark, Idx, Turn, CheckFull;
  }

  lemma ClaimsMore<T>(tr: seq<State<T>>, acts: seq<Action<T>>, tid: nat, i: nat, n: nat, x: T)
    requires |tr| == |acts| + 1 && i <= n < |acts| && SentKept(tr, acts, tid, n)
    ensures ClaimsNone(tr, acts, tid, i, n) ==> ClaimsNone(tr, acts, tid, i, n + 1)
    ensures ClaimsOne(tr, acts, tid, i, n, x) ==> ClaimsOne(tr, acts, tid, i, n + 1, x)
  {
    if ClaimsOne(tr, acts, tid, i, n, x) {
      var m :| i <= m < n && Claims(tr, acts, tid, m, x) && ClaimsNone(tr, acts, tid, i, m) && ClaimsNone(tr, acts, tid, m + 1, n);
      assert ClaimsNone(tr, acts, tid, m + 1, n + 1);
    }
  }

  lemma ClaimsNow<T>(tr: seq<State<T>>, acts: seq<Action<T>>, tid: nat, i: nat, n: nat, x: T)
    requires |tr| == |acts| + 1 && i <= n < |acts| && Claims(tr, acts, tid, n, x) && ClaimsNone(tr, acts, tid, i, n)
    ensures ClaimsOne(tr, acts, tid, i, n + 1, x)
  {
    assert ClaimsNone(tr, acts, tid, n + 1, n + 1);
  }

  lemma NoneOrOne<T>(tr: seq<State<T>>, acts: seq<Action<T>>, tid: nat, i: nat, n: nat, x: T)
    requires |tr| == |acts| + 1 && i <= n <= |acts|
    ensures !(ClaimsNone(tr, acts, tid, i, n) && ClaimsOne(tr, acts, tid, i, n, x))
  {
    if ClaimsOne(tr, acts, tid, i, n, x) {
      var m :| i <= m < n && Claims(tr, acts, tid, m, x) && ClaimsNone(tr, acts, tid, i, m) && ClaimsNone(tr, acts, tid, m + 1, n);
      assert !SentKept(tr, acts, tid, m);
    }
  }

  lemma {:induction false} WriterInCall<T>(tr: seq<State<T>>, acts: seq<Action<T>>, i: nat, n: nat, tid: nat, x: T, blocking: bool)
    requires Calling(tr, acts, i, n, tid) && acts[i] == if blocking then CallSend(tid, x) else CallPush(tid, x)
    ensures WriterAt(tr, acts, tid, i, n, x, blocking)
    decreases n
  {
    hide Apply, Advance, ClaimsNone, ClaimsOne, Run;
    assert Linked(tr, acts, n - 1) by { LinkedAt(tr, acts, n - 1); }
    if n == i + 1 {
      CallBegins(tr[i], acts[i]);
      ClaimsAtCall(tr, acts, tid, i);
    } else {
      CallingBefore(tr, acts, i, n, tid);
      WriterInCall(tr, acts, i, n - 1, tid, x, blocking);
      var s := tr[n - 1];
      if acts[n - 1] == Step(tid) {
        StepIsAdvance(s, tid);
        WriterStep(s, tid, x, blocking);
        if tr[n].sent == s.sent { ClaimsMore(tr, acts, tid, i, n - 1, x); } else { ClaimsNow(tr, acts, tid, i, n - 1, x); }
      } else {
        OtherAction(s, acts[n - 1], tid);
        ClaimsMore(tr, acts, tid, i, n - 1, x);
      }
    }
  }

  lemma LinkedAt<T>(tr: seq<State<T>>, acts: seq<Action<T>>, n: nat)
    requires Run(tr, acts) && n + 1 < |tr|
    ensures |tr| == |acts| + 1 && Linked(tr, acts, n)
  {
  }

  lemma CallingBefore<T>(tr: seq<State<T>>, acts: seq<Action<T>>, i: nat, n: nat, tid: nat)
    requires Calling(tr, acts, i, n, tid) && i + 1 < n
    ensures Calling(tr, acts, i, n - 1, tid) && !Returned(PcOf(tr[n - 1], tid))
  {
  }

  lemma StepIsAdvance<T>(s: State<T>, tid: nat)
    requires Shape(s)
    ensures Apply(s, Step(tid)) == Advance(s, tid)
  {
  }

  // A thread that has returned can begin any call.
  lemma CallBegins<T>(s: State<T>, a: Action<T>)
    requires Shape(s) && !a.Step? && Returned(PcOf(s, a.tid))
    ensures var pc := PcOf(Apply(s, a), a.tid);
            match a
            case CallPush(_, x) => pc == PushStart(x)
            case CallSend(_, x) => pc == SendStart(x)
            case CallPop(_) => pc == PopStart
            case CallRecv(_) => pc == RecvStart
    ensures Apply(s, a).sent == s.sent && Apply(s, a).head == s.head
  {
  }

  lemma ClaimsAtCall<T>(tr: seq<State<T>>, acts: seq<Action<T>>, tid: nat, i: nat)
    requires |tr| == |acts| + 1 && i < |acts| && !acts[i].Step?
    ensures ClaimsNone(tr, acts, tid, i, i + 1)
  {
  }

  // A push answers true exactly if one of its steps claimed a ticket for x, and
  // false exactly if none claimed any.
  lemma PushOutcome<T>(tr: seq<State<T>>, acts: seq<Action<T>>, i: nat, n: nat, tid: nat, x: T)
    requires Calling(tr, acts, i, n, tid) && acts[i] == CallPush(tid, x) && Returned(PcOf(tr[n], tid))
    ensures PcOf(tr[n], tid).Pushed?
    ensures PcOf(tr[n], tid).ok <==> ClaimsOne(tr, acts, tid, i, n, x)
    ensures !PcOf(tr[n], tid).ok <==> ClaimsNone(tr, acts, tid, i, n)
  {
    WriterInCall(tr, acts, i, n, tid, x, false);
    NoneOrOne(tr, acts, tid, i, n, x);
  }

  // A send returns only after it has claimed one ticket for x.
  lemma SendOutcome<T>(tr: seq<State<T>>, acts: seq<Action<T>>, i: nat, n: nat, tid: nat, x: T)
    requires Calling(tr, acts, i, n, tid) && acts[i] == CallSend(tid, x) && Returned(PcOf(tr[n], tid))
    ensures PcOf(tr[n], tid) == Pushed(true) && ClaimsOne(tr, acts, tid, i, n, x)
  {
    WriterInCall(tr, acts, i, n, tid, x, true);
  }

  // ----- read tickets -------------------------------------------------------------------

  // Step m is one of tid's and claims read ticket h.
  ghost predicate Takes<T>(tr: seq<State<T>>, acts: seq<Action<T>>, tid: nat, m: nat, h: nat)
    requires |tr| == |acts| + 1 && m < |acts|
  { acts[m] == Step(tid) && tr[m].head == h && tr[m + 1].head == h + 1 }

  ghost predicate HeadKept<T>(tr: seq<State<T>>, acts: seq<Action<T>>, tid: nat, m: nat)
    requires |tr| == |acts| + 1 && m < |acts|
  { acts[m] == Step(tid) ==> tr[m + 1].head == tr[m].head }

  ghost predicate TakesNone<T>(tr: seq<State<T>>, acts: seq<Action<T>>, tid: nat, i: nat, n: nat)
    requires |tr| == |acts| + 1 && n <= |acts|
  { forall m :: i <= m < n ==> HeadKept(tr, acts, tid, m) }

  ghost predicate TakesOne<T>(tr: seq<State<T>>, acts: seq<Action<T>>, tid: nat, i: nat, n: nat, h: nat)
    requires |tr| == |acts| + 1 && n <= |acts|
  {
    exists m :: i <= m < n && Takes(tr, acts, tid, m, h) && TakesNone(tr, acts, tid, i, m) && TakesNone(tr, acts, tid, m + 1, n)
  }

  predicate BeforeTake<T>(pc: Pc<T>, blocking: bool) {
    if blocking then pc.RecvStart? else pc.PopStart? || pc.PopLoop? || pc.PopCas? || pc.PopMiss? || pc.PopRecheck?
  }

  predicate AfterTake<T>(pc: Pc<T>, h: nat) {
    (pc.RecvWait? || pc.ReadSlot? || pc.PublishRead? || pc.Popped?) && pc.h == h
  }

  predicate HasTaken<T>(pc: Pc<T>) { pc.RecvWait? || pc.ReadSlot? || pc.PublishRead? }

  lemma ReaderStep<T>(s: State<T>, tid: nat, blocking: bool)
    requires Shape(s)
    ensures var pc, s' := PcOf(s, tid), Advance(s, tid);
            && (BeforeTake(pc, blocking) ==>
                  || (s'.head == s.head && (BeforeTake(PcOf(s', tid), blocking) || (!blocking && PcOf(s', tid) == PopFailed)))
                  || (s'.head == s.head + 1 && AfterTake(PcOf(s', tid), s.head)))
            && (HasTaken(pc) ==> s'.head == s.head && AfterTake(PcOf(s', tid), pc.h))
  {
    hide Mark, Idx, Turn, CheckFull;
  }

  ghost predicate ReaderAt<T>(tr: seq<State<T>>, acts: seq<Action<T>>, tid: nat, i: nat, n: nat, blocking: bool)
    requires |tr| == |acts| + 1 && n < |tr|
  {
    var pc := PcOf(tr[n], tid);
    if BeforeTake(pc, blocking) || (!blocking && pc == PopFailed) then TakesNone(tr, acts, tid, i, n)
    else (HasTaken(pc) || pc.Popped?) && TakesOne(tr, acts, tid, i, n, pc.h)
  }

  lemma TakesMore<T>(tr: seq<State<T>>, acts: seq<Action<T>>, tid: nat, i: nat, n: nat, h: nat)
    requires |tr| == |acts| + 1 && i <= n < |acts| && HeadKept(tr, acts, tid, n)
    ensures TakesNone(tr, acts, tid, i, n) ==> TakesNone(tr, acts, tid, i, n + 1)
    ensures TakesOne(tr, acts, tid, i, n, h) ==> TakesOne(tr, acts, tid, i, n + 1, h)
  {
    if TakesOne(tr, acts, tid, i, n, h) {
      var m :| i <= m < n && Takes(tr, acts, tid, m, h) && TakesNone(tr, acts, tid, i, m) && TakesNone(tr, acts, tid, m + 1, n);
      assert TakesNone(tr, acts, tid, m + 1, n + 1);
    }
  }

  lemma TakesNow<T>(tr: seq<State<T>>, acts: seq<Action<T>>, tid: nat, i: nat, n: nat, h: nat)
    requires |tr| == |acts| + 1 && i <= n < |acts| && Takes(tr, acts, tid, n, h) && TakesNone(tr, acts, tid, i, n)
    ensures TakesOne(tr, acts, tid, i, n + 1, h)
  {
    assert TakesNone(tr, acts, tid, n + 1, n + 1);
  }

  // One step takes one ticket, so not none and not two different ones.
  lemma NoneOrOneTaken<T>(tr: seq<State<T>>, acts: seq<Action<T>>, tid: nat, i: nat, n: nat, h: nat, g: nat)
    requires |tr| == |acts| + 1 && i <= n <= |acts|
    ensures !(TakesNone(tr, acts, tid, i, n) && TakesOne(tr, acts, tid, i, n, h))
    ensures TakesOne(tr, acts, tid, i, n, h) && TakesOne(tr, acts, tid, i, n, g) ==> h == g
  {
    if TakesOne(tr, acts, tid, i, n, h) {
      var m :| i <= m < n && Takes(tr, acts, tid, m, h) && TakesNone(tr, acts, tid, i, m) && TakesNone(tr, acts, tid, m + 1, n);
      assert !HeadKept(tr, acts, tid, m);
      if TakesOne(tr, acts, tid, i, n, g) {
        var k :| i <= k < n && Takes(tr, acts, tid, k, g) && TakesNone(tr, acts, tid, i, k) && TakesNone(tr, acts, tid, k + 1, n);
        assert !HeadKept(tr, acts, tid, k);
      }
    }
  }

  lemma {:induction false} ReaderInCall<T>(tr: seq<State<T>>, acts: seq<Action<T>>, i: nat, n: nat, tid: nat, blocking: bool)
    requires Calling(tr, acts, i, n, tid) && acts[i] == if blocking then CallRecv(tid) else CallPop(tid)
    ensures ReaderAt(tr, acts, tid, i, n, blocking)
    decreases n
  {
    hide Apply, Advance, TakesNone, TakesOne, Run;
    assert Linked(tr, acts, n - 1) by { LinkedAt(tr, acts, n - 1); }
    if n == i + 1 {
      CallBegins(tr[i], acts[i]);
      TakesAtCall(tr, acts, tid, i);
    } else {
      CallingBefore(tr, acts, i, n, tid);
      ReaderInCall(tr, acts, i, n - 1, tid, blocking);
      var s, pc := tr[n - 1], PcOf(tr[n - 1], tid);
      if acts[n - 1] == Step(tid) {
        StepIsAdvance(s, tid);
        ReaderStep(s, tid, blocking);
        if tr[n].head == s.head {
          TakesMore(tr, acts, tid, i, n - 1, if HasTaken(pc) then pc.h else 0);
        } else {
          TakesNow(tr, acts, tid, i, n - 1, s.head);
        }
      } else {
        OtherAction(s, acts[n - 1], tid);
        TakesMore(tr, acts, tid, i, n - 1, if HasTaken(pc) then pc.h else 0);
      }
    }
  }

  lemma TakesAtCall<T>(tr: seq<State<T>>, acts: seq<Action<T>>, tid: nat, i: nat)
    requires |tr| == |acts| + 1 && i < |acts| && !acts[i].Step?
    ensures TakesNone(tr, acts, tid, i, i + 1)
  {
  }

  // A pop fails exactly if none of its steps moved head, and returns the value
  // of ticket h exactly if one of them claimed h.
  lemma PopOutcome<T>(tr: seq<State<T>>, acts: seq<Action<T>>, i: nat, n: nat, tid: nat, h: nat)
    requires Calling(tr, acts, i, n, tid) && acts[i] == CallPop(tid) && Returned(PcOf(tr[n], tid))
    ensures PcOf(tr[n], tid) == PopFailed <==> TakesNone(tr, acts, tid, i, n)
    ensures PcOf(tr[n], tid).Popped? && PcOf(tr[n], tid).h == h <==> TakesOne(tr, acts, tid, i, n, h)
    ensures PcOf(tr[n], tid).Popped? ==> PcOf(tr[n], tid).h < |tr[n].sent| && PcOf(tr[n], tid).v == tr[n].sent[PcOf(tr[n], tid).h]
  {
    ReaderInCall(tr, acts, i, n, tid, false);
    ReturnedValue(tr, acts, n, tid);
    hide TakesNone, TakesOne, Run;
    var pc := PcOf(tr[n], tid);
    NoneOrOneTaken(tr, acts, tid, i, n, if pc.Popped? then pc.h else h, h);
  }

  // A recv returns the value of the one ticket it claimed.
  lemma RecvOutcome<T>(tr: seq<State<T>>, acts: seq<Action<T>>, i: nat, n: nat, tid: nat)
    requires Calling(tr, acts, i, n, tid) && acts[i] == CallRecv(tid) && Returned(PcOf(tr[n], tid))
    ensures var pc := PcOf(tr[n], tid);
            pc.Popped? && TakesOne(tr, acts, tid, i, n, pc.h) && pc.h < |tr[n].sent| && pc.v == tr[n].sent[pc.h]
  {
    ReaderInCall(tr, acts, i, n, tid, true);
    ReturnedValue(tr, acts, n, tid);
  }

  lemma ReturnedValue<T>(tr: seq<State<T>>, acts: seq<Action<T>>, n: nat, tid: nat)
    requires Run(tr, acts) && n < |tr|
    ensures var pc := PcOf(tr[n], tid); pc.Popped? ==> pc.h < |tr[n].sent| && pc.v == tr[n].sent[pc.h]
  {
    Delivery(tr, acts, n);
  }

  // ----- a call that runs alone ---------------------------------------------------------

  // No thread is between claiming a ticket and publishing it.
  ghost predicate Quiet<T>(s: State<T>) {
    forall tid :: tid in s.threads ==> WTicket(s.threads[tid]) == -1 && RTicket(s.threads[tid]) == -1
  }

  // The next k steps of the run from state n are all tid's.
  ghost predicate Alone<T>(tr: seq<State<T>>, acts: seq<Action<T>>, n: nat, k: nat, tid: nat) {
    && Run(tr, acts) && n + k < |tr|
    && forall j :: n <= j < n + k ==> acts[j] == Step(tid)
  }

  lemma QuietTicket<T>(s: State<T>, x: nat)
    requires Inv(s) && Quiet(s)
    ensures Shape(s)
    ensures x < s.tail <==> Mark(s, x) >= 2 * Turn(s.cap, x) + 1
    ensures x < s.head <==> Mark(s, x) >= 2 * Turn(s.cap, x) + 2
    ensures Mark(s, x) == 2 * Turn(s.cap, x) + 1 ==> s.data[Idx(s.cap, x)] == s.sent[x]
  {
    assert TicketOk(s, x);
    assert forall tid :: !WriterOf(s, tid, x) && !ReaderOf(s, tid, x);
  }

  lemma TicketBefore<T>(s: State<T>, x: nat)
    requires Shape(s)
    ensures x >= s.cap ==> Mark(s, x - s.cap) == Mark(s, x) && Turn(s.cap, x - s.cap) + 1 == Turn(s.cap, x)
    ensures x < s.cap ==> Turn(s.cap, x) == 0
  {
    if x >= s.cap { PrecedingTurn(s.cap, x); }
  }

  // With no call under way the queue holds the tickets [head, tail), at most
  // cap of them, and the marks at both ends say whether it is full or empty.
  lemma QuietMarks<T>(s: State<T>)
    requires Inv(s) && Quiet(s)
    ensures s.head <= s.tail <= s.head + s.cap
    ensures Mark(s, s.tail) == 2 * Turn(s.cap, s.tail) <==> s.tail < s.head + s.cap
    ensures CheckFull(s.cap, s.head, s.tail) <==> s.tail == s.head + s.cap
    ensures Mark(s, s.head) == 2 * Turn(s.cap, s.head) + 1 <==> s.head < s.tail
    ensures s.head < s.tail ==> s.data[Idx(s.cap, s.head)] == s.sent[s.head]
  {
    hide Inv, Quiet, Idx, Turn, Mark, CheckFull;
    QuietTicket(s, s.head);
    QuietTicket(s, s.tail);
    TicketBefore(s, s.tail);
    if s.head > 0 { QuietTicket(s, s.head - 1); }
    if s.tail >= s.cap { QuietTicket(s, s.tail - s.cap); }
    if s.tail > s.cap {
      TicketBefore(s, s.tail - 1);
      QuietTicket(s, s.tail - 1);
      QuietTicket(s, s.tail - 1 - s.cap);
    }
    LapOrLess(s.cap, s.head, s.tail);
  }

  lemma LapOrLess(cap: nat, h: nat, t: nat)
    requires cap > 0 && h <= t <= h + cap
    ensures CheckFull(cap, h, t) <==> t == h + cap
  {
    if t == h + cap { PrecedingTurn(cap, t); }
    if CheckFull(cap, h, t) { LapApart(cap, h, t); }
  }

  lemma AloneStep<T>(tr: seq<State<T>>, acts: seq<Action<T>>, n: nat, k: nat, tid: nat, j: nat)
    requires Alone(tr, acts, n, k, tid) && j < k
    ensures Shape(tr[n + j]) && tr[n + j + 1] == Advance(tr[n + j], tid)
  {
    assert Linked(tr, acts, n + j);
    StepIsAdvance(tr[n + j], tid);
  }

  // The state s, and the five states that tid's next steps lead to.
  ghost predicate Five<T>(s: State<T>, s1: State<T>, s2: State<T>, s3: State<T>, s4: State<T>, s5: State<T>, tid: nat) {
    && Inv(s) && Quiet(s) && Shape(s)
    && s1 == Advance(s, tid) && Shape(s1) && s2 == Advance(s1, tid) && Shape(s2) && s3 == Advance(s2, tid)
    && Shape(s3) && s4 == Advance(s3, tid) && Shape(s4) && s5 == Advance(s4, tid)
  }

  lemma AloneFive<T>(tr: seq<State<T>>, acts: seq<Action<T>>, n: nat, tid: nat)
    requires Alone(tr, acts, n, 5, tid) && Quiet(tr[n])
    ensures Five(tr[n], tr[n + 1], tr[n + 2], tr[n + 3], tr[n + 4], tr[n + 5], tid)
  {
    hide Run, Quiet, Inv, Advance;
    RunInv(tr, acts, n);
    AloneStep(tr, acts, n, 5, tid, 0);
    AloneStep(tr, acts, n, 5, tid, 1);
    AloneStep(tr, acts, n, 5, tid, 2);
    AloneStep(tr, acts, n, 5, tid, 3);
    AloneStep(tr, acts, n, 5, tid, 4);
  }

  // The loads of a push that runs alone, and what follows them.
  lemma PushLooks<T>(s: State<T>, s1: State<T>, s2: State<T>, tid: nat, x: T)
    requires Shape(s) && PcOf(s, tid) == PushStart(x)
    requires s1 == Advance(s, tid) && Shape(s1) && s2 == Advance(s1, tid)
    ensures s2 == SetPc(s, tid, if Mark(s, s.tail) == 2 * Turn(s.cap, s.tail) then PushCas(x, s.tail) else PushMiss(x, s.tail))
  {
    hide Turn, Idx;
  }

  lemma PushStores<T>(s: State<T>, s1: State<T>, s2: State<T>, s3: State<T>, tid: nat, x: T)
    requires Shape(s) && PcOf(s, tid) == PushCas(x, s.tail)
    requires s1 == Advance(s, tid) && Shape(s1) && s2 == Advance(s1, tid) && Shape(s2) && s3 == Advance(s2, tid)
    ensures PcOf(s3, tid) == Pushed(true) && s3.sent == s.sent + [x]
  {
    hide Turn, Idx, Mark;
    assert s1 == ClaimWrite(s, tid, x, WriteSlot(x, s.tail));
    hide Advance;
    SlotWritten(s1, s2, s3, tid, x, s.tail);
  }

  lemma PushGivesUp<T>(s: State<T>, s1: State<T>, s2: State<T>, s3: State<T>, tid: nat, x: T)
    requires Shape(s) && PcOf(s, tid) == PushMiss(x, s.tail) && CheckFull(s.cap, s.head, s.tail)
    requires s1 == Advance(s, tid) && Shape(s1) && s2 == Advance(s1, tid) && Shape(s2) && s3 == Advance(s2, tid)
    ensures PcOf(s3, tid) == Pushed(false) && s3.sent == s.sent
  {
    hide Turn, Idx, CheckFull;
  }

  lemma PushAlone<T>(s: State<T>, s1: State<T>, s2: State<T>, s3: State<T>, s4: State<T>, s5: State<T>, tid: nat, x: T)
    requires Five(s, s1, s2, s3, s4, s5, tid) && PcOf(s, tid) == PushStart(x)
    ensures s.head <= s.tail <= s.head + s.cap
    ensures PcOf(s5, tid) == Pushed(s.tail < s.head + s.cap)
    ensures s5.sent == if s.tail < s.head + s.cap then s.sent + [x] else s.sent
  {
    hide Inv, Idx, Turn, Mark, Quiet, CheckFull, Advance, Shape;
    QuietMarks(s);
    PushLooks(s, s1, s2, tid, x);
    if s.tail < s.head + s.cap { PushStores(s2, s3, s4, s5, tid, x); } else { PushGivesUp(s2, s3, s4, s5, tid, x); }
  }

  // A push that runs alone answers after at most five steps: true with its
  // value sent if there is room, false with nothing sent if there is none.
  lemma SoloPush<T>(tr: seq<State<T>>, acts: seq<Action<T>>, n: nat, tid: nat, x: T)
    requires Alone(tr, acts, n, 5, tid) && Quiet(tr[n]) && PcOf(tr[n], tid) == PushStart(x)
    ensures tr[n].head <= tr[n].tail <= tr[n].head + tr[n].cap
    ensures PcOf(tr[n + 5], tid) == Pushed(tr[n].tail < tr[n].head + tr[n].cap)
    ensures tr[n + 5].sent == if tr[n].tail < tr[n].head + tr[n].cap then tr[n].sent + [x] else tr[n].sent
  {
    hide Run, Quiet, Five, PcOf;
    AloneFive(tr, acts, n, tid);
    PushAlone(tr[n], tr[n + 1], tr[n + 2], tr[n + 3], tr[n + 4], tr[n + 5], tid, x);
  }

  lemma PopLooks<T>(s: State<T>, s1: State<T>, s2: State<T>, tid: nat)
    requires Shape(s) && PcOf(s, tid) == PopStart
    requires s1 == Advance(s, tid) && Shape(s1) && s2 == Advance(s1, tid)
    ensures s2 == SetPc(s, tid, if Mark(s, s.head) == 2 * Turn(s.cap, s.head) + 1 then PopCas(s.head) else PopMiss(s.head))
  {
    hide Turn, Idx;
  }

  lemma PopLoads<T>(s: State<T>, s1: State<T>, s2: State<T>, s3: State<T>, tid: nat)
    requires Shape(s) && PcOf(s, tid) == PopCas(s.head)
    requires s1 == Advance(s, tid) && Shape(s1) && s2 == Advance(s1, tid) && Shape(s2) && s3 == Advance(s2, tid)
    ensures PcOf(s3, tid) == Popped(s.head, s.data[Idx(s.cap, s.head)]) && s3.head == s.head + 1
  {
    hide Turn, Idx, Mark;
    assert s1 == SetPc(s, tid, ReadSlot(s.head)).(head := s.head + 1);
    hide Advance;
    SlotRead(s1, s2, s3, tid, s.head);
  }

  lemma PopGivesUp<T>(s: State<T>, s1: State<T>, s2: State<T>, s3: State<T>, tid: nat)
    requires Shape(s) && PcOf(s, tid) == PopMiss(s.head) && s.head == s.tail
    requires s1 == Advance(s, tid) && Shape(s1) && s2 == Advance(s1, tid) && Shape(s2) && s3 == Advance(s2, tid)
    ensures PcOf(s3, tid) == PopFailed && s3.head == s.head
  {
    hide Turn, Idx;
  }

  lemma PopAlone<T>(s: State<T>, s1: State<T>, s2: State<T>, s3: State<T>, s4: State<T>, s5: State<T>, tid: nat)
    requires Five(s, s1, s2, s3, s4, s5, tid) && PcOf(s, tid) == PopStart
    ensures |s.sent| == s.tail >= s.head
    ensures PcOf(s5, tid) == if s.head < s.tail then Popped(s.head, s.sent[s.head]) else PopFailed
    ensures s5.head == if s.head < s.tail then s.head + 1 else s.head
  {
    assert |s.sent| == s.tail;
    hide Inv, Idx, Turn, Mark, Quiet, Advance, Shape;
    QuietMarks(s);
    PopLooks(s, s1, s2, tid);
    if s.head < s.tail { PopLoads(s2, s3, s4, s5, tid); } else { PopGivesUp(s2, s3, s4, s5, tid); }
  }

  // A pop that runs alone answers after at most five steps: the oldest value if
  // there is one, failure with nothing taken if there is none.
  lemma SoloPop<T>(tr: seq<State<T>>, acts: seq<Action<T>>, n: nat, tid: nat)
    requires Alone(tr, acts, n, 5, tid) && Quiet(tr[n]) && PcOf(tr[n], tid) == PopStart
    ensures |tr[n].sent| == tr[n].tail >= tr[n].head
    ensures PcOf(tr[n + 5], tid) ==
            if tr[n].head < tr[n].tail then Popped(tr[n].head, tr[n].sent[tr[n].head]) else PopFailed
    ensures tr[n + 5].head == if tr[n].head < tr[n].tail then tr[n].head + 1 else tr[n].head
  {
    hide Run, Quiet, Five, PcOf;
    AloneFive(tr, acts, n, tid);
    PopAlone(tr[n], tr[n + 1], tr[n + 2], tr[n + 3], tr[n + 4], tr[n + 5], tid);
  }

  lemma SendLooks<T>(s: State<T>, s1: State<T>, s2: State<T>, tid: nat, x: T)
    requires Shape(s) && PcOf(s, tid) == SendStart(x)
    requires s1 == Advance(s, tid) && Shape(s1) && s2 == Advance(s1, tid)
    ensures s2 == SetPc(s, tid, if Mark(s, s.tail) == 2 * Turn(s.cap, s.tail) then WriteSlot(x, s.tail) else SendWait(x, s.tail))
                  .(tail := s.tail + 1, sent := s.sent + [x])
  {
    hide Turn, Idx;
  }

  lemma SendAlone<T>(s: State<T>, s1: State<T>, s2: State<T>, s3: State<T>, s4: State<T>, tid: nat, x: T)
    requires Shape(s) && PcOf(s, tid) == SendStart(x)
    requires s1 == Advance(s, tid) && Shape(s1) && s2 == Advance(s1, tid) && Shape(s2)
    requires s3 == Advance(s2, tid) && Shape(s3) && s4 == Advance(s3, tid)
    ensures s4.sent == s.sent + [x]
    ensures PcOf(s4, tid) == if Mark(s, s.tail) == 2 * Turn(s.cap, s.tail) then Pushed(true) else SendWait(x, s.tail)
  {
    hide Turn, Advance, Idx, Mark;
    SendLooks(s, s1, s2, tid, x);
    SlotWritten(s2, s3, s4, tid, x, s.tail);
    SendWaits(s2, tid, x, s.tail);
    SendWaits(s3, tid, x, s.tail);
    SameMark(s, s2, s.tail);
  }

  lemma SendWaits<T>(s: State<T>, tid: nat, x: T, t: nat)
    requires Shape(s)
    ensures PcOf(s, tid) == SendWait(x, t) && Mark(s, t) != 2 * Turn(s.cap, t) ==> Advance(s, tid) == s
  {
    hide Turn, Idx;
  }

  // The two steps of a writer that owns its slot.
  lemma SlotWritten<T>(s: State<T>, s1: State<T>, s2: State<T>, tid: nat, x: T, t: nat)
    requires Shape(s) && s1 == Advance(s, tid) && Shape(s1) && s2 == Advance(s1, tid)
    ensures PcOf(s, tid) == WriteSlot(x, t) ==> PcOf(s2, tid) == Pushed(true) && s2.sent == s.sent
  {
    hide Turn, Idx, Mark, CheckFull;
  }

  // A send that runs alone returns if there is room and waits if there is none;
  // either way its value has its place in the queue.
  lemma SoloSend<T>(tr: seq<State<T>>, acts: seq<Action<T>>, n: nat, tid: nat, x: T)
    requires Alone(tr, acts, n, 5, tid) && Quiet(tr[n]) && PcOf(tr[n], tid) == SendStart(x)
    ensures tr[n + 4].sent == tr[n].sent + [x]
    ensures PcOf(tr[n + 4], tid) ==
            if tr[n].tail < tr[n].head + tr[n].cap then Pushed(true) else SendWait(x, tr[n].tail)
  {
    hide Run, Quiet, Inv, Advance, PcOf, Mark, Idx, Turn, CheckFull;
    AloneFive(tr, acts, n, tid);
    QuietMarks(tr[n]);
    SendAlone(tr[n], tr[n + 1], tr[n + 2], tr[n + 3], tr[n + 4], tid, x);
  }

  lemma RecvLooks<T>(s: State<T>, s1: State<T>, s2: State<T>, tid: nat)
    requires Shape(s) && PcOf(s, tid) == RecvStart
    requires s1 == Advance(s, tid) && Shape(s1) && s2 == Advance(s1, tid)
    ensures s2 == SetPc(s, tid, if Mark(s, s.head) == 2 * Turn(s.cap, s.head) + 1 then ReadSlot(s.head) else RecvWait(s.head))
                  .(head := s.head + 1)
  {
    hide Turn, Idx;
  }

  lemma RecvAlone<T>(s: State<T>, s1: State<T>, s2: State<T>, s3: State<T>, s4: State<T>, tid: nat)
    requires Shape(s) && PcOf(s, tid) == RecvStart
    requires s1 == Advance(s, tid) && Shape(s1) && s2 == Advance(s1, tid) && Shape(s2)
    requires s3 == Advance(s2, tid) && Shape(s3) && s4 == Advance(s3, tid)
    ensures PcOf(s4, tid) == if Mark(s, s.head) == 2 * Turn(s.cap, s.head) + 1
                             then Popped(s.head, s.data[Idx(s.cap, s.head)]) else RecvWait(s.head)
  {
    hide Turn, Advance, Idx, Mark;
    RecvLooks(s, s1, s2, tid);
    SlotRead(s2, s3, s4, tid, s.head);
    RecvWaits(s2, tid, s.head);
    RecvWaits(s3, tid, s.head);
    SameMark(s, s2, s.head);
  }

  lemma RecvWaits<T>(s: State<T>, tid: nat, h: nat)
    requires Shape(s)
    ensures PcOf(s, tid) == RecvWait(h) && Mark(s, h) != 2 * Turn(s.cap, h) + 1 ==> Advance(s, tid) == s
  {
    hide Turn, Idx;
  }

  lemma SameMark<T>(s: State<T>, s': State<T>, h: nat)
    requires Shape(s) && Shape(s') && s'.marks == s.marks && s'.cap == s.cap
    ensures Mark(s', h) == Mark(s, h)
  {
  }

  // The two steps of a reader that owns its slot.
  lemma SlotRead<T>(s: State<T>, s1: State<T>, s2: State<T>, tid: nat, h: nat)
    requires Shape(s) && s1 == Advance(s, tid) && Shape(s1) && s2 == Advance(s1, tid)
    ensures PcOf(s, tid) == ReadSlot(h) ==> PcOf(s2, tid) == Popped(h, s.data[Idx(s.cap, h)]) && s2.head == s.head
  {
    hide Turn, Mark, CheckFull;
  }

  // A recv that runs alone returns the oldest value if there is one and waits
  // for the next one if there is none.
  lemma SoloRecv<T>(tr: seq<State<T>>, acts: seq<Action<T>>, n: nat, tid: nat)
    requires Alone(tr, acts, n, 5, tid) && Quiet(tr[n]) && PcOf(tr[n], tid) == RecvStart
    ensures |tr[n].sent| == tr[n].tail >= tr[n].head
    ensures PcOf(tr[n + 4], tid) ==
            if tr[n].head < tr[n].tail then Popped(tr[n].head, tr[n].sent[tr[n].head]) else RecvWait(tr[n].head)
  {
    hide Run, Quiet, Inv, Advance, PcOf, Mark, Idx, Turn, CheckFull;
    AloneFive(tr, acts, n, tid);
    QuietMarks(tr[n]);
    RecvAlone(tr[n], tr[n + 1], tr[n + 2], tr[n + 3], tr[n + 4], tid);
  }
}
