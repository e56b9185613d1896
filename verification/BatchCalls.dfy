// What the calls of the queue in BatchQueue.dfy answer: over every run, how many
// elements a push_batch or pop_batch takes and what it does to the queue.
module BatchCalls {
  import opened Arith
  import opened BatchQueue

  // Thread tid begins a call with action i of the run and has not returned
  // before state n.
  ghost predicate Calling<T>(tr: seq<State<T>>, acts: seq<Action<T>>, i: nat, n: nat, tid: nat) {
    && Run(tr, acts) && i < n < |tr| && acts[i].tid == tid && !acts[i].Step? && Returned(PcOf(tr[i], tid))
    && forall m :: i < m < n ==> !Returned(PcOf(tr[m], tid))
  }

  lemma LinkedAt<T>(tr: seq<State<T>>, acts: seq<Action<T>>, n: nat)
    requires Run(tr, acts) && n + 1 < |tr|
    ensures |tr| == |acts| + 1 && Linked(tr, acts, n) && Inv(tr[n]) && Inv(tr[n + 1])
  {
    RunInv(tr, acts, n);
    RunInv(tr, acts, n + 1);
  }

  lemma CallingBefore<T>(tr: seq<State<T>>, acts: seq<Action<T>>, i: nat, n: nat, tid: nat)
    requires Calling(tr, acts, i, n, tid) && i + 1 < n
    ensures Calling(tr, acts, i, n - 1, tid) && !Returned(PcOf(tr[n - 1], tid))
  {
  }

  // A step of another thread, or a call that cannot begin, leaves tid alone.
  lemma OtherAction<T>(s: State<T>, a: Action<T>, tid: nat)
    requires Shape(s) && a != Step(tid) && !Returned(PcOf(s, tid))
    ensures PcOf(Apply(s, a), tid) == PcOf(s, tid)
  {
    hide CopyIndex;
  }

  // The two claiming counters never go back.
  lemma StepGrows<T>(s: State<T>, a: Action<T>)
    requires Shape(s)
    ensures s.tail <= Apply(s, a).tail && s.readTail <= Apply(s, a).readTail
  {
    hide CopyIndex;
  }

  // ----- push_batch ---------------------------------------------------------------------

  // At some instant of the call the queue had room for exactly n of the wanted
  // elements.
  ghost predicate HadRoom<T>(tr: seq<State<T>>, i: nat, n: nat, want: nat, got: nat)
    requires n < |tr|
  {
    exists k :: i < k < n && RoomAt(tr, k, want, got)
  }

  ghost predicate RoomAt<T>(tr: seq<State<T>>, k: nat, want: nat, got: nat)
    requires k < |tr|
  {
    got == Min(want, tr[k].head + tr[k].cap - tr[k].tail)
  }

  // The same, while tail may have moved on since it was loaded as wt.
  ghost predicate RoomSince<T>(tr: seq<State<T>>, k: nat, n: nat, wt: nat, want: nat, got: nat)
    requires k < n < |tr|
  {
    wt <= tr[k].tail <= tr[n].tail && got == Min(want, tr[k].head + tr[k].cap - wt)
  }

  ghost predicate LoadedRoom<T>(tr: seq<State<T>>, i: nat, n: nat, wt: nat, want: nat, got: nat)
    requires n < |tr|
  {
    exists k :: i < k < n && RoomSince(tr, k, n, wt, want, got)
  }

  // Step m is one of tid's and claims tickets for the elements of b.
  ghost predicate Claims<T>(tr: seq<State<T>>, acts: seq<Action<T>>, tid: nat, m: nat, b: seq<T>)
    requires |tr| == |acts| + 1 && m < |acts|
  { acts[m] == Step(tid) && tr[m + 1].pushed == tr[m].pushed + b }

  ghost predicate PushedKept<T>(tr: seq<State<T>>, acts: seq<Action<T>>, tid: nat, m: nat)
    requires |tr| == |acts| + 1 && m < |acts|
  { acts[m] == Step(tid) ==> tr[m + 1].pushed == tr[m].pushed }

  ghost predicate ClaimsNone<T>(tr: seq<State<T>>, acts: seq<Action<T>>, tid: nat, i: nat, n: nat)
    requires |tr| == |acts| + 1 && n <= |acts|
  { forall m :: i <= m < n ==> PushedKept(tr, acts, tid, m) }

  // Exactly one step of tid in [i, n) adds to what was pushed, and it adds b.
  ghost predicate ClaimsOne<T>(tr: seq<State<T>>, acts: seq<Action<T>>, tid: nat, i: nat, n: nat, b: seq<T>)
    requires |tr| == |acts| + 1 && n <= |acts|
  {
    b != [] && exists m :: i <= m < n && Claims(tr, acts, tid, m, b) && ClaimsNone(tr, acts, tid, i, m) && ClaimsNone(tr, acts, tid, m + 1, n)
  }

  lemma ClaimsMore<T>(tr: seq<State<T>>, acts: seq<Action<T>>, tid: nat, i: nat, n: nat, b: seq<T>)
    requires |tr| == |acts| + 1 && i <= n < |acts| && PushedKept(tr, acts, tid, n)
    ensures ClaimsNone(tr, acts, tid, i, n) ==> ClaimsNone(tr, acts, tid, i, n + 1)
    ensures ClaimsOne(tr, acts, tid, i, n, b) ==> ClaimsOne(tr, acts, tid, i, n + 1, b)
  {
    if ClaimsOne(tr, acts, tid, i, n, b) {
      var m :| i <= m < n && Claims(tr, acts, tid, m, b) && ClaimsNone(tr, acts, tid, i, m) && ClaimsNone(tr, acts, tid, m + 1, n);
      assert ClaimsNone(tr, acts, tid, m + 1, n + 1);
    }
  }

  lemma ClaimsNow<T>(tr: seq<State<T>>, acts: seq<Action<T>>, tid: nat, i: nat, n: nat, b: seq<T>)
    requires |tr| == |acts| + 1 && i <= n < |acts| && Claims(tr, acts, tid, n, b) && ClaimsNone(tr, acts, tid, i, n) && b != []
    ensures ClaimsOne(tr, acts, tid, i, n + 1, b)
  {
    assert ClaimsNone(tr, acts, tid, n + 1, n + 1);
  }

  lemma NoneOrOne<T>(tr: seq<State<T>>, acts: seq<Action<T>>, tid: nat, i: nat, n: nat, b: seq<T>)
    requires |tr| == |acts| + 1 && i <= n <= |acts|
    ensures !(ClaimsNone(tr, acts, tid, i, n) && ClaimsOne(tr, acts, tid, i, n, b))
  {
    if ClaimsOne(tr, acts, tid, i, n, b) {
      var m :| i <= m < n && Claims(tr, acts, tid, m, b) && ClaimsNone(tr, acts, tid, i, m) && ClaimsNone(tr, acts, tid, m + 1, n);
      assert !PushedKept(tr, acts, tid, m);
    }
  }

  // What the program counter of a push of x says about the call so far.
  ghost predicate PusherAt<T>(tr: seq<State<T>>, acts: seq<Action<T>>, tid: nat, i: nat, n: nat, x: seq<T>)
    requires |tr| == |acts| + 1 && i < n < |tr|
  {
    match PcOf(tr[n], tid)
    case PushStart(y) => y == x && ClaimsNone(tr, acts, tid, i, n)
    case PushLoop(y, _) => y == x && ClaimsNone(tr, acts, tid, i, n)
    case PushCas(y, wt, wn) =>
      && y == x && 0 < wn && ClaimsNone(tr, acts, tid, i, n)
      && LoadedRoom(tr, i, n, wt, |x|, wn)
    case PushCopy(y, _, wn, _) =>
      y == x && 0 < wn <= |x| && HadRoom(tr, i, n, |x|, wn) && ClaimsOne(tr, acts, tid, i, n, x[..wn])
    case Pushed(y, _, wn) =>
      && y == x && HadRoom(tr, i, n, |x|, wn) && wn <= |x|
      && if wn > 0 then ClaimsOne(tr, acts, tid, i, n, x[..wn]) else ClaimsNone(tr, acts, tid, i, n)
    case _ => false
  }

  lemma PushLoopStep<T>(s: State<T>, tid: nat)
    requires Inv(s) && PcOf(s, tid).PushLoop?
    ensures var PushLoop(x, wt) := PcOf(s, tid);
            var s' := Apply(s, Step(tid));
            && s'.pushed == s.pushed && s'.tail == s.tail && wt <= s.tail
            && ((PcOf(s', tid) == Pushed(x, wt, 0) && 0 == Min(|x|, s.head + s.cap - s.tail))
                || (PcOf(s', tid).PushCas? && PcOf(s', tid).x == x && PcOf(s', tid).wt == wt
                    && 0 < PcOf(s', tid).wn == Min(|x|, s.head + s.cap - wt)))
  {
    hide CopyIndex, Contents, Owned;
    assert ThreadOk(s, s.threads[tid]);
  }

  lemma PushCasStep<T>(s: State<T>, tid: nat)
    requires Inv(s) && PcOf(s, tid).PushCas?
    ensures var PushCas(x, wt, wn) := PcOf(s, tid);
            var s' := Apply(s, Step(tid));
            wn <= |x| &&
            if s.tail == wt then PcOf(s', tid) == PushCopy(x, wt, wn, 0) && s'.pushed == s.pushed + x[..wn]
            else PcOf(s', tid) == PushLoop(x, s.tail) && s'.pushed == s.pushed
  {
    hide CopyIndex, Contents, Owned;
    assert ThreadOk(s, s.threads[tid]);
  }

  lemma PushOtherStep<T>(s: State<T>, tid: nat)
    requires Shape(s)
    ensures var s' := Apply(s, Step(tid));
            match PcOf(s, tid)
            case PushStart(x) => PcOf(s', tid).PushLoop? && PcOf(s', tid).x == x && s'.pushed == s.pushed
            case PushCopy(x, wt, wn, _) =>
              && s'.pushed == s.pushed
              && ((PcOf(s', tid).PushCopy? && PcOf(s', tid).x == x && PcOf(s', tid).wn == wn) || PcOf(s', tid) == Pushed(x, wt, wn))
            case _ => true
  {
    hide CopyIndex;
  }

  lemma HadRoomMore<T>(tr: seq<State<T>>, i: nat, n: nat, want: nat, got: nat)
    requires n + 1 < |tr| && HadRoom(tr, i, n, want, got)
    ensures HadRoom(tr, i, n + 1, want, got)
  {
  }

  lemma RoomSinceMore<T>(tr: seq<State<T>>, i: nat, n: nat, wt: nat, want: nat, got: nat)
    requires n + 1 < |tr| && tr[n].tail <= tr[n + 1].tail
    requires LoadedRoom(tr, i, n, wt, want, got)
    ensures LoadedRoom(tr, i, n + 1, wt, want, got)
    ensures tr[n].tail == wt ==> HadRoom(tr, i, n + 1, want, got)
  {
    var k :| i < k < n && RoomSince(tr, k, n, wt, want, got);
    assert RoomSince(tr, k, n + 1, wt, want, got);
    assert tr[n].tail == wt ==> RoomAt(tr, k, want, got);
  }

  // Another thread's action keeps what is known about the call.
  lemma PusherKept<T>(tr: seq<State<T>>, acts: seq<Action<T>>, tid: nat, i: nat, n: nat, x: seq<T>)
    requires |tr| == |acts| + 1 && i < n < |acts| && PusherAt(tr, acts, tid, i, n, x)
    requires acts[n] != Step(tid) && PcOf(tr[n + 1], tid) == PcOf(tr[n], tid) && tr[n].tail <= tr[n + 1].tail
    ensures PusherAt(tr, acts, tid, i, n + 1, x)
  {
    hide ClaimsNone, ClaimsOne, HadRoom, LoadedRoom;
    var pc := PcOf(tr[n], tid);
    ClaimsMore(tr, acts, tid, i, n, if pc.PushCopy? || pc.Pushed? then x[..pc.wn] else []);
    match pc
    case PushCas(_, wt, wn) => RoomSinceMore(tr, i, n, wt, |x|, wn);
    case PushCopy(_, _, wn, _) => HadRoomMore(tr, i, n, |x|, wn);
    case Pushed(_, _, wn) => HadRoomMore(tr, i, n, |x|, wn);
    case _ =>
  }

  lemma PusherMoves<T>(tr: seq<State<T>>, acts: seq<Action<T>>, tid: nat, i: nat, n: nat, x: seq<T>)
    requires |tr| == |acts| + 1 && i < n < |acts| && PusherAt(tr, acts, tid, i, n, x)
    requires acts[n] == Step(tid) && Inv(tr[n]) && tr[n + 1] == Apply(tr[n], acts[n]) && tr[n].tail <= tr[n + 1].tail
    requires !Returned(PcOf(tr[n], tid))
    ensures PusherAt(tr, acts, tid, i, n + 1, x)
  {
    hide ClaimsNone, ClaimsOne, HadRoom, LoadedRoom, Apply, Inv;
    var s, s' := tr[n], tr[n + 1];
    match PcOf(s, tid)
    case PushStart(_) =>
      InvShape(s);
      PushOtherStep(s, tid);
      ClaimsMore(tr, acts, tid, i, n, []);
    case PushLoop(_, wt) =>
      PushLoopStep(s, tid);
      ClaimsMore(tr, acts, tid, i, n, []);
      RoomNow(tr, i, n, wt, |x|, if PcOf(s', tid).PushCas? then PcOf(s', tid).wn else 0);
    case PushCas(_, wt, wn) =>
      PushCasStep(s, tid);
      RoomSinceMore(tr, i, n, wt, |x|, wn);
      if s.tail == wt { ClaimsNow(tr, acts, tid, i, n, x[..wn]); } else { ClaimsMore(tr, acts, tid, i, n, []); }
    case PushCopy(_, _, wn, _) =>
      InvShape(s);
      PushOtherStep(s, tid);
      ClaimsMore(tr, acts, tid, i, n, x[..wn]);
      HadRoomMore(tr, i, n, |x|, wn);
  }

  lemma InvShape<T>(s: State<T>)
    requires Inv(s)
    ensures Shape(s)
  {
  }

  lemma RoomNow<T>(tr: seq<State<T>>, i: nat, n: nat, wt: nat, want: nat, got: nat)
    requires i < n && n + 1 < |tr|
    ensures wt <= tr[n].tail <= tr[n + 1].tail && got == Min(want, tr[n].head + tr[n].cap - wt) ==>
              LoadedRoom(tr, i, n + 1, wt, want, got)
    ensures 0 == Min(want, tr[n].head + tr[n].cap - tr[n].tail) ==> HadRoom(tr, i, n + 1, want, 0)
  {
    assert wt <= tr[n].tail <= tr[n + 1].tail && got == Min(want, tr[n].head + tr[n].cap - wt) ==> RoomSince(tr, n, n + 1, wt, want, got);
    assert 0 == Min(want, tr[n].head + tr[n].cap - tr[n].tail) ==> RoomAt(tr, n, want, 0);
  }

  lemma {:induction false} PusherInCall<T>(tr: seq<State<T>>, acts: seq<Action<T>>, i: nat, n: nat, tid: nat, x: seq<T>)
    requires Calling(tr, acts, i, n, tid) && acts[i] == CallPush(tid, x)
    ensures PusherAt(tr, acts, tid, i, n, x)
    decreases n
  {
    hide Run, PusherAt, Inv;
    LinkedAt(tr, acts, n - 1);
    if n == i + 1 {
      PushBegins(tr, acts, i, tid, x);
    } else {
      CallingBefore(tr, acts, i, n, tid);
      PusherInCall(tr, acts, i, n - 1, tid, x);
      StepGrows(tr[n - 1], acts[n - 1]);
      if acts[n - 1] == Step(tid) {
        PusherMoves(tr, acts, tid, i, n - 1, x);
      } else {
        OtherAction(tr[n - 1], acts[n - 1], tid);
        PusherKept(tr, acts, tid, i, n - 1, x);
      }
    }
  }

  lemma PushBegins<T>(tr: seq<State<T>>, acts: seq<Action<T>>, i: nat, tid: nat, x: seq<T>)
    requires |tr| == |acts| + 1 && i < |acts| && Linked(tr, acts, i)
    requires acts[i] == CallPush(tid, x) && Returned(PcOf(tr[i], tid))
    ensures PusherAt(tr, acts, tid, i, i + 1, x)
  {
    assert PushedKept(tr, acts, tid, i);
  }

  // A push_batch of x returns the number of its elements that the queue had
  // room for at some instant of the call, all of them or as many as fitted, and
  // claims tickets once, for exactly that many of its first elements.
  lemma PushBatchOutcome<T>(tr: seq<State<T>>, acts: seq<Action<T>>, i: nat, n: nat, tid: nat, x: seq<T>)
    requires Calling(tr, acts, i, n, tid) && acts[i] == CallPush(tid, x) && Returned(PcOf(tr[n], tid))
    ensures PcOf(tr[n], tid).Pushed? && PcOf(tr[n], tid).wn <= |x|
    ensures var wn := PcOf(tr[n], tid).wn;
            && (exists k :: i < k < n && wn == Min(|x|, tr[k].head + tr[k].cap - tr[k].tail))
            && (wn > 0 <==> ClaimsOne(tr, acts, tid, i, n, x[..wn]))
            && (wn == 0 <==> ClaimsNone(tr, acts, tid, i, n))
  {
    hide ClaimsNone, ClaimsOne;
    PusherInCall(tr, acts, i, n, tid, x);
    var wn := PcOf(tr[n], tid).wn;
    NoneOrOne(tr, acts, tid, i, n, x[..wn]);
    var k :| i < k < n && RoomAt(tr, k, |x|, wn);
    assert wn == Min(|x|, tr[k].head + tr[k].cap - tr[k].tail);
    ClaimsSome(tr, acts, tid, i, n, x[..wn]);
  }

  lemma ClaimsSome<T>(tr: seq<State<T>>, acts: seq<Action<T>>, tid: nat, i: nat, n: nat, b: seq<T>)
    requires |tr| == |acts| + 1 && n <= |acts|
    ensures ClaimsOne(tr, acts, tid, i, n, b) ==> b != []
  {
  }

  // ----- pop_batch ----------------------------------------------------------------------

  ghost predicate HadSome<T>(tr: seq<State<T>>, i: nat, n: nat, want: nat, got: nat)
    requires n < |tr|
  {
    exists k :: i < k < n && SomeAt(tr, k, want, got)
  }

  ghost predicate SomeAt<T>(tr: seq<State<T>>, k: nat, want: nat, got: nat)
    requires k < |tr|
  {
    got == Min(want, tr[k].writeHead - tr[k].readTail)
  }

  ghost predicate SomeSince<T>(tr: seq<State<T>>, k: nat, n: nat, rt: nat, want: nat, got: nat)
    requires k < n < |tr|
  {
    rt <= tr[k].readTail <= tr[n].readTail && got == Min(want, tr[k].writeHead - rt)
  }

  ghost predicate LoadedSome<T>(tr: seq<State<T>>, i: nat, n: nat, rt: nat, want: nat, got: nat)
    requires n < |tr|
  {
    exists k :: i < k < n && SomeSince(tr, k, n, rt, want, got)
  }

  // Step m is one of tid's and claims the read tickets [rt, rt + rn).
  ghost predicate Takes<T>(tr: seq<State<T>>, acts: seq<Action<T>>, tid: nat, m: nat, rt: nat, rn: nat)
    requires |tr| == |acts| + 1 && m < |acts|
  { acts[m] == Step(tid) && tr[m].readTail == rt && tr[m + 1].readTail == rt + rn }

  ghost predicate ReadTailKept<T>(tr: seq<State<T>>, acts: seq<Action<T>>, tid: nat, m: nat)
    requires |tr| == |acts| + 1 && m < |acts|
  { acts[m] == Step(tid) ==> tr[m + 1].readTail == tr[m].readTail }

  ghost predicate TakesNone<T>(tr: seq<State<T>>, acts: seq<Action<T>>, tid: nat, i: nat, n: nat)
    requires |tr| == |acts| + 1 && n <= |acts|
  { forall m :: i <= m < n ==> ReadTailKept(tr, acts, tid, m) }

  // Exactly one step of tid in [i, n) moves readTail, from rt by rn.
  ghost predicate TakesOne<T>(tr: seq<State<T>>, acts: seq<Action<T>>, tid: nat, i: nat, n: nat, rt: nat, rn: nat)
    requires |tr| == |acts| + 1 && n <= |acts|
  {
    rn > 0 && exists m :: i <= m < n && Takes(tr, acts, tid, m, rt, rn) && TakesNone(tr, acts, tid, i, m) && TakesNone(tr, acts, tid, m + 1, n)
  }

  lemma TakesMore<T>(tr: seq<State<T>>, acts: seq<Action<T>>, tid: nat, i: nat, n: nat, rt: nat, rn: nat)
    requires |tr| == |acts| + 1 && i <= n < |acts| && ReadTailKept(tr, acts, tid, n)
    ensures TakesNone(tr, acts, tid, i, n) ==> TakesNone(tr, acts, tid, i, n + 1)
    ensures TakesOne(tr, acts, tid, i, n, rt, rn) ==> TakesOne(tr, acts, tid, i, n + 1, rt, rn)
  {
    if TakesOne(tr, acts, tid, i, n, rt, rn) {
      var m :| i <= m < n && Takes(tr, acts, tid, m, rt, rn) && TakesNone(tr, acts, tid, i, m) && TakesNone(tr, acts, tid, m + 1, n);
      assert TakesNone(tr, acts, tid, m + 1, n + 1);
    }
  }

  lemma TakesNow<T>(tr: seq<State<T>>, acts: seq<Action<T>>, tid: nat, i: nat, n: nat, rt: nat, rn: nat)
    requires |tr| == |acts| + 1 && i <= n < |acts| && rn > 0
    requires Takes(tr, acts, tid, n, rt, rn) && TakesNone(tr, acts, tid, i, n)
    ensures TakesOne(tr, acts, tid, i, n + 1, rt, rn)
  {
    assert TakesNone(tr, acts, tid, n + 1, n + 1);
  }

  lemma NoneOrOneTaken<T>(tr: seq<State<T>>, acts: seq<Action<T>>, tid: nat, i: nat, n: nat, rt: nat, rn: nat)
    requires |tr| == |acts| + 1 && i <= n <= |acts|
    ensures !(TakesNone(tr, acts, tid, i, n) && TakesOne(tr, acts, tid, i, n, rt, rn))
    ensures TakesOne(tr, acts, tid, i, n, rt, rn) ==> rn > 0
  {
    if TakesOne(tr, acts, tid, i, n, rt, rn) {
      var m :| i <= m < n && Takes(tr, acts, tid, m, rt, rn) && TakesNone(tr, acts, tid, i, m) && TakesNone(tr, acts, tid, m + 1, n);
      assert !ReadTailKept(tr, acts, tid, m);
    }
  }

  // What the program counter of a pop of at most want elements says about the
  // call so far.
  ghost predicate PopperAt<T>(tr: seq<State<T>>, acts: seq<Action<T>>, tid: nat, i: nat, n: nat, want: nat)
    requires |tr| == |acts| + 1 && i < n < |tr|
  {
    match PcOf(tr[n], tid)
    case PopStart(w) => w == want && TakesNone(tr, acts, tid, i, n)
    case PopLoop(w, _) => w == want && TakesNone(tr, acts, tid, i, n)
    case PopCas(w, rt, rn) =>
      && w == want && 0 < rn && TakesNone(tr, acts, tid, i, n)
      && LoadedSome(tr, i, n, rt, want, rn)
    case PopCopy(rt, rn, _) => 0 < rn && HadSome(tr, i, n, want, rn) && TakesOne(tr, acts, tid, i, n, rt, rn)
    case Popped(rt, out) =>
      && HadSome(tr, i, n, want, |out|)
      && if out != [] then TakesOne(tr, acts, tid, i, n, rt, |out|) else TakesNone(tr, acts, tid, i, n)
    case _ => false
  }

  lemma PopLoopStep<T>(s: State<T>, tid: nat)
    requires Inv(s) && PcOf(s, tid).PopLoop?
    ensures var PopLoop(w, rt) := PcOf(s, tid);
            var s' := Apply(s, Step(tid));
            && s'.readTail == s.readTail && rt <= s.readTail
            && ((PcOf(s', tid) == Popped(rt, []) && 0 == Min(w, s.writeHead - s.readTail))
                || (PcOf(s', tid).PopCas? && PcOf(s', tid).n == w && PcOf(s', tid).rt == rt
                    && 0 < PcOf(s', tid).rn == Min(w, s.writeHead - rt)))
  {
    hide CopyIndex, Contents, Owned;
    assert ThreadOk(s, s.threads[tid]);
  }

  lemma PopCasStep<T>(s: State<T>, tid: nat)
    requires Inv(s) && PcOf(s, tid).PopCas?
    ensures var PopCas(w, rt, rn) := PcOf(s, tid);
            var s' := Apply(s, Step(tid));
            if s.readTail == rt then PcOf(s', tid) == PopCopy(rt, rn, []) && s'.readTail == rt + rn
            else PcOf(s', tid) == PopLoop(w, s.readTail) && s'.readTail == s.readTail
  {
    hide CopyIndex, Contents, Owned;
    assert ThreadOk(s, s.threads[tid]);
  }

  lemma PopOtherStep<T>(s: State<T>, tid: nat)
    requires Inv(s)
    ensures var s' := Apply(s, Step(tid));
            match PcOf(s, tid)
            case PopStart(w) => PcOf(s', tid).PopLoop? && PcOf(s', tid).n == w && s'.readTail == s.readTail
            case PopCopy(rt, rn, _) =>
              && s'.readTail == s.readTail
              && ((PcOf(s', tid).PopCopy? && PcOf(s', tid).rt == rt && PcOf(s', tid).rn == rn)
                  || (PcOf(s', tid).Popped? && PcOf(s', tid).rt == rt && |PcOf(s', tid).out| == rn))
            case _ => true
  {
    hide CopyIndex, Contents, Owned;
    if tid in s.threads { assert ThreadOk(s, s.threads[tid]); }
  }

  lemma HadSomeMore<T>(tr: seq<State<T>>, i: nat, n: nat, want: nat, got: nat)
    requires n + 1 < |tr| && HadSome(tr, i, n, want, got)
    ensures HadSome(tr, i, n + 1, want, got)
  {
  }

  lemma SomeSinceMore<T>(tr: seq<State<T>>, i: nat, n: nat, rt: nat, want: nat, got: nat)
    requires n + 1 < |tr| && tr[n].readTail <= tr[n + 1].readTail
    requires LoadedSome(tr, i, n, rt, want, got)
    ensures LoadedSome(tr, i, n + 1, rt, want, got)
    ensures tr[n].readTail == rt ==> HadSome(tr, i, n + 1, want, got)
  {
    var k :| i < k < n && SomeSince(tr, k, n, rt, want, got);
    assert SomeSince(tr, k, n + 1, rt, want, got);
    assert tr[n].readTail == rt ==> SomeAt(tr, k, want, got);
  }

  lemma SomeNow<T>(tr: seq<State<T>>, i: nat, n: nat, rt: nat, want: nat, got: nat)
    requires i < n && n + 1 < |tr|
    ensures rt <= tr[n].readTail <= tr[n + 1].readTail && got == Min(want, tr[n].writeHead - rt) ==>
              LoadedSome(tr, i, n + 1, rt, want, got)
    ensures 0 == Min(want, tr[n].writeHead - tr[n].readTail) ==> HadSome(tr, i, n + 1, want, 0)
  {
    assert rt <= tr[n].readTail <= tr[n + 1].readTail && got == Min(want, tr[n].writeHead - rt) ==> SomeSince(tr, n, n + 1, rt, want, got);
    assert 0 == Min(want, tr[n].writeHead - tr[n].readTail) ==> SomeAt(tr, n, want, 0);
  }

  lemma PopperKept<T>(tr: seq<State<T>>, acts: seq<Action<T>>, tid: nat, i: nat, n: nat, want: nat)
    requires |tr| == |acts| + 1 && i < n < |acts| && PopperAt(tr, acts, tid, i, n, want)
    requires acts[n] != Step(tid) && PcOf(tr[n + 1], tid) == PcOf(tr[n], tid) && tr[n].readTail <= tr[n + 1].readTail
    ensures PopperAt(tr, acts, tid, i, n + 1, want)
  {
    hide TakesNone, TakesOne, HadSome, LoadedSome;
    TakesMore(tr, acts, tid, i, n, 0, 0);
    match PcOf(tr[n], tid)
    case PopCas(_, rt, rn) =>
      TakesMore(tr, acts, tid, i, n, rt, rn);
      SomeSinceMore(tr, i, n, rt, want, rn);
    case PopCopy(rt, rn, _) =>
      TakesMore(tr, acts, tid, i, n, rt, rn);
      HadSomeMore(tr, i, n, want, rn);
    case Popped(rt, out) =>
      TakesMore(tr, acts, tid, i, n, rt, |out|);
      HadSomeMore(tr, i, n, want, |out|);
    case _ =>
  }

  lemma PopperMoves<T>(tr: seq<State<T>>, acts: seq<Action<T>>, tid: nat, i: nat, n: nat, want: nat)
    requires |tr| == |acts| + 1 && i < n < |acts| && PopperAt(tr, acts, tid, i, n, want)
    requires acts[n] == Step(tid) && Inv(tr[n]) && tr[n + 1] == Apply(tr[n], acts[n]) && tr[n].readTail <= tr[n + 1].readTail
    requires !Returned(PcOf(tr[n], tid))
    ensures PopperAt(tr, acts, tid, i, n + 1, want)
  {
    hide TakesNone, TakesOne, HadSome, LoadedSome, Apply, Inv;
    var s, s' := tr[n], tr[n + 1];
    match PcOf(s, tid)
    case PopStart(_) =>
      PopOtherStep(s, tid);
      TakesMore(tr, acts, tid, i, n, 0, 0);
    case PopLoop(_, rt) =>
      PopLoopStep(s, tid);
      TakesMore(tr, acts, tid, i, n, 0, 0);
      SomeNow(tr, i, n, rt, want, if PcOf(s', tid).PopCas? then PcOf(s', tid).rn else 0);
    case PopCas(_, rt, rn) =>
      PopCasStep(s, tid);
      SomeSinceMore(tr, i, n, rt, want, rn);
      if s.readTail == rt { TakesNow(tr, acts, tid, i, n, rt, rn); } else { TakesMore(tr, acts, tid, i, n, 0, 0); }
    case PopCopy(rt, rn, _) =>
      PopOtherStep(s, tid);
      TakesMore(tr, acts, tid, i, n, rt, rn);
      HadSomeMore(tr, i, n, want, rn);
  }

  lemma PopBegins<T>(tr: seq<State<T>>, acts: seq<Action<T>>, i: nat, tid: nat, want: nat)
    requires |tr| == |acts| + 1 && i < |acts| && Linked(tr, acts, i)
    requires acts[i] == CallPop(tid, want) && Returned(PcOf(tr[i], tid))
    ensures PopperAt(tr, acts, tid, i, i + 1, want)
  {
    assert ReadTailKept(tr, acts, tid, i);
  }

  lemma {:induction false} PopperInCall<T>(tr: seq<State<T>>, acts: seq<Action<T>>, i: nat, n: nat, tid: nat, want: nat)
    requires Calling(tr, acts, i, n, tid) && acts[i] == CallPop(tid, want)
    ensures PopperAt(tr, acts, tid, i, n, want)
    decreases n
  {
    hide Run, PopperAt, Inv;
    LinkedAt(tr, acts, n - 1);
    if n == i + 1 {
      PopBegins(tr, acts, i, tid, want);
    } else {
      CallingBefore(tr, acts, i, n, tid);
      PopperInCall(tr, acts, i, n - 1, tid, want);
      StepGrows(tr[n - 1], acts[n - 1]);
      if acts[n - 1] == Step(tid) {
        PopperMoves(tr, acts, tid, i, n - 1, want);
      } else {
        OtherAction(tr[n - 1], acts[n - 1], tid);
        PopperKept(tr, acts, tid, i, n - 1, want);
      }
    }
  }

  // A pop_batch of at most want elements returns as many as were published and
  // unclaimed at some instant of the call, want of them at most, and claims
  // exactly those tickets, once.
  lemma PopBatchOutcome<T>(tr: seq<State<T>>, acts: seq<Action<T>>, i: nat, n: nat, tid: nat, want: nat)
    requires Calling(tr, acts, i, n, tid) && acts[i] == CallPop(tid, want) && Returned(PcOf(tr[n], tid))
    ensures PcOf(tr[n], tid).Popped?
    ensures var Popped(rt, out) := PcOf(tr[n], tid);
            && (exists k :: i < k < n && |out| == Min(want, tr[k].writeHead - tr[k].readTail))
            && (out != [] <==> TakesOne(tr, acts, tid, i, n, rt, |out|))
            && (out == [] <==> TakesNone(tr, acts, tid, i, n))
  {
    hide TakesNone, TakesOne;
    PopperInCall(tr, acts, i, n, tid, want);
    var Popped(rt, out) := PcOf(tr[n], tid);
    NoneOrOneTaken(tr, acts, tid, i, n, rt, |out|);
    var k :| i < k < n && SomeAt(tr, k, want, |out|);
    assert |out| == Min(want, tr[k].writeHead - tr[k].readTail);
  }

  // ----- a call that runs alone ---------------------------------------------------------

  // No thread is between claiming its tickets and publishing or releasing them.
  ghost predicate Quiet<T>(s: State<T>) {
    forall tid :: tid in s.threads ==> !s.threads[tid].PushCopy? && !s.threads[tid].PopCopy?
  }

  // The next k steps of the run from state n are all tid's.
  ghost predicate Alone<T>(tr: seq<State<T>>, acts: seq<Action<T>>, n: nat, k: nat, tid: nat) {
    && Run(tr, acts) && n + k < |tr|
    && forall j :: n <= j < n + k ==> acts[j] == Step(tid)
  }

  lemma AloneStep<T>(tr: seq<State<T>>, acts: seq<Action<T>>, n: nat, k: nat, tid: nat, j: nat)
    requires Alone(tr, acts, n, k, tid) && n <= j < n + k
    ensures Shape(tr[j]) && tr[j + 1] == Apply(tr[j], Step(tid))
  {
    assert Linked(tr, acts, j);
  }

  lemma QuietCounters<T>(s: State<T>)
    requires Inv(s) && Quiet(s)
    ensures s.head == s.readTail <= s.writeHead == s.tail <= s.head + s.cap
  {
    assert PushOwned(s, s.writeHead) && PopOwned(s, s.head);
    assert forall tid :: !Pushes(s, tid, s.writeHead) && !Pops(s, tid, s.head);
  }

  // Equal but for tid's program counter and the slots.
  ghost predicate SameCounters<T>(s: State<T>, s': State<T>) {
    && s'.cap == s.cap && s'.head == s.head && s'.readTail == s.readTail
    && s'.writeHead == s.writeHead && s'.tail == s.tail && s'.pushed == s.pushed && s'.popped == s.popped
  }

  lemma CopyInStep<T>(s: State<T>, tid: nat, x: seq<T>, wt: nat, wn: nat, j: nat)
    requires Shape(s) && PcOf(s, tid) == PushCopy(x, wt, wn, j) && j < wn <= |x| && wn <= s.cap
    ensures PcOf(Apply(s, Step(tid)), tid) == PushCopy(x, wt, wn, j + 1) && SameCounters(s, Apply(s, Step(tid)))
  {
    hide CopyIndex;
  }

  lemma {:induction false} CopiesIn<T>(tr: seq<State<T>>, acts: seq<Action<T>>, n: nat, k: nat, tid: nat, x: seq<T>, wt: nat, wn: nat, j: nat)
    requires Alone(tr, acts, n, k, tid) && j <= wn && j <= k && wn <= |x| && wn <= tr[n].cap
    requires PcOf(tr[n], tid) == PushCopy(x, wt, wn, 0)
    ensures PcOf(tr[n + j], tid) == PushCopy(x, wt, wn, j) && SameCounters(tr[n], tr[n + j])
    decreases j
  {
    hide Run, Apply;
    if j > 0 {
      CopiesIn(tr, acts, n, k, tid, x, wt, wn, j - 1);
      AloneStep(tr, acts, n, k, tid, n + j - 1);
      CopyInStep(tr[n + j - 1], tid, x, wt, wn, j - 1);
    }
  }

  lemma ReturnedStays<T>(s: State<T>, tid: nat)
    requires Shape(s) && Returned(PcOf(s, tid))
    ensures Apply(s, Step(tid)) == s
  {
    hide CopyIndex;
  }

  // A call that has returned takes no further steps.
  lemma {:induction false} Rests<T>(tr: seq<State<T>>, acts: seq<Action<T>>, n: nat, k: nat, tid: nat)
    requires Alone(tr, acts, n, k, tid) && Returned(PcOf(tr[n], tid))
    ensures tr[n + k] == tr[n]
    decreases k
  {
    hide Run, Apply;
    if k > 0 {
      AlonePart(tr, acts, n, k, tid, n, k - 1);
      Rests(tr, acts, n, k - 1, tid);
      AloneStep(tr, acts, n, k, tid, n + k - 1);
      ReturnedStays(tr[n + k - 1], tid);
    }
  }

  lemma AlonePart<T>(tr: seq<State<T>>, acts: seq<Action<T>>, n: nat, k: nat, tid: nat, m: nat, j: nat)
    requires Alone(tr, acts, n, k, tid) && n <= m && m + j <= n + k
    ensures Alone(tr, acts, m, j, tid)
  {
  }

  lemma PushPublishes<T>(s: State<T>, tid: nat, x: seq<T>, wt: nat, wn: nat)
    requires Shape(s) && PcOf(s, tid) == PushCopy(x, wt, wn, wn) && s.writeHead == wt
    ensures var s' := Apply(s, Step(tid));
            PcOf(s', tid) == Pushed(x, wt, wn) && s'.writeHead == wt + wn && s'.pushed == s.pushed
  {
    hide CopyIndex;
  }

  // The loads and the claim of a push that runs alone.
  lemma PushLooks<T>(s: State<T>, s1: State<T>, s2: State<T>, s3: State<T>, tid: nat, x: seq<T>)
    requires Inv(s) && Quiet(s) && PcOf(s, tid) == PushStart(x)
    requires s1 == Apply(s, Step(tid)) && Shape(s1) && s2 == Apply(s1, Step(tid)) && Shape(s2) && s3 == Apply(s2, Step(tid))
    ensures s.tail <= s.head + s.cap
    ensures var w := Min(|x|, s.head + s.cap - s.tail);
            && s3.writeHead == s.tail && s3.cap == s.cap
            && (w == 0 ==> PcOf(s3, tid) == Pushed(x, s.tail, 0) && s3.pushed == s.pushed)
            && (w > 0 ==> PcOf(s3, tid) == PushCopy(x, s.tail, w, 0) && s3.pushed == s.pushed + x[..w])
  {
    QuietCounters(s);
    hide CopyIndex, Inv, Quiet;
  }

  // A push_batch that runs alone returns the number of its elements that fit
  // and leaves exactly those, published.
  lemma SoloPushBatch<T>(tr: seq<State<T>>, acts: seq<Action<T>>, n: nat, tid: nat, x: seq<T>)
    requires Alone(tr, acts, n, |x| + 4, tid) && Quiet(tr[n]) && PcOf(tr[n], tid) == PushStart(x)
    ensures tr[n].tail <= tr[n].head + tr[n].cap
    ensures var w, s' := Min(|x|, tr[n].head + tr[n].cap - tr[n].tail), tr[n + |x| + 4];
            PcOf(s', tid) == Pushed(x, tr[n].tail, w) && s'.pushed == tr[n].pushed + x[..w] && s'.writeHead == tr[n].tail + w
  {
    RunInv(tr, acts, n);
    hide Run, Inv, Apply, Quiet;
    var k := |x| + 4;
    AloneStep(tr, acts, n, k, tid, n);
    AloneStep(tr, acts, n, k, tid, n + 1);
    AloneStep(tr, acts, n, k, tid, n + 2);
    PushLooks(tr[n], tr[n + 1], tr[n + 2], tr[n + 3], tid, x);
    var w := Min(|x|, tr[n].head + tr[n].cap - tr[n].tail);
    AlonePart(tr, acts, n, k, tid, n + 3, k - 3);
    if w == 0 { Rests(tr, acts, n + 3, k - 3, tid); } else { PushFinishes(tr, acts, n + 3, k - 3, tid, x, tr[n].tail, w); }
  }

  lemma PushFinishes<T>(tr: seq<State<T>>, acts: seq<Action<T>>, n: nat, k: nat, tid: nat, x: seq<T>, wt: nat, wn: nat)
    requires Alone(tr, acts, n, k, tid) && wn < k && wn <= |x| && wn <= tr[n].cap
    requires PcOf(tr[n], tid) == PushCopy(x, wt, wn, 0) && tr[n].writeHead == wt
    ensures PcOf(tr[n + k], tid) == Pushed(x, wt, wn)
    ensures tr[n + k].pushed == tr[n].pushed && tr[n + k].writeHead == wt + wn
  {
    hide Run, Apply;
    CopiesIn(tr, acts, n, k, tid, x, wt, wn, wn);
    AloneStep(tr, acts, n, k, tid, n + wn);
    PushPublishes(tr[n + wn], tid, x, wt, wn);
    AlonePart(tr, acts, n, k, tid, n + wn + 1, k - wn - 1);
    Rests(tr, acts, n + wn + 1, k - wn - 1, tid);
  }

  lemma CopyOutStep<T>(s: State<T>, tid: nat, rt: nat, rn: nat, out: seq<T>)
    requires Shape(s) && PcOf(s, tid) == PopCopy(rt, rn, out) && |out| < rn <= s.cap
    ensures var s' := Apply(s, Step(tid));
            && PcOf(s', tid).PopCopy? && PcOf(s', tid).rt == rt && PcOf(s', tid).rn == rn
            && |PcOf(s', tid).out| == |out| + 1 && SameCounters(s, s')
  {
    hide CopyIndex;
  }

  lemma {:induction false} CopiesOut<T>(tr: seq<State<T>>, acts: seq<Action<T>>, n: nat, k: nat, tid: nat, rt: nat, rn: nat, j: nat)
    requires Alone(tr, acts, n, k, tid) && j <= rn <= tr[n].cap && j <= k
    requires PcOf(tr[n], tid) == PopCopy(rt, rn, [])
    ensures var pc := PcOf(tr[n + j], tid); pc.PopCopy? && pc.rt == rt && pc.rn == rn && |pc.out| == j
    ensures SameCounters(tr[n], tr[n + j])
    decreases j
  {
    hide Run, Apply;
    if j > 0 {
      CopiesOut(tr, acts, n, k, tid, rt, rn, j - 1);
      AloneStep(tr, acts, n, k, tid, n + j - 1);
      CopyOutStep(tr[n + j - 1], tid, rt, rn, PcOf(tr[n + j - 1], tid).out);
    }
  }

  lemma PopReleases<T>(s: State<T>, tid: nat)
    requires Shape(s) && PcOf(s, tid).PopCopy? && |PcOf(s, tid).out| == PcOf(s, tid).rn && s.head == PcOf(s, tid).rt
    ensures var pc, s' := PcOf(s, tid), Apply(s, Step(tid));
            PcOf(s', tid) == Popped(pc.rt, pc.out) && s'.head == pc.rt + pc.rn && s'.readTail == s.readTail && s'.pushed == s.pushed
  {
    hide CopyIndex;
  }

  lemma PopLooks<T>(s: State<T>, s1: State<T>, s2: State<T>, s3: State<T>, tid: nat, want: nat)
    requires Inv(s) && Quiet(s) && PcOf(s, tid) == PopStart(want)
    requires s1 == Apply(s, Step(tid)) && Shape(s1) && s2 == Apply(s1, Step(tid)) && Shape(s2) && s3 == Apply(s2, Step(tid))
    ensures s.head <= s.tail <= s.head + s.cap
    ensures var r := Min(want, s.tail - s.head);
            && s3.head == s.head && s3.cap == s.cap && s3.pushed == s.pushed && s3.readTail == s.head + r
            && (r == 0 ==> PcOf(s3, tid) == Popped(s.head, []))
            && (r > 0 ==> PcOf(s3, tid) == PopCopy(s.head, r, []))
  {
    QuietCounters(s);
    hide CopyIndex, Inv, Quiet;
  }

  lemma PopFinishes<T>(tr: seq<State<T>>, acts: seq<Action<T>>, n: nat, k: nat, tid: nat, rt: nat, rn: nat)
    requires Alone(tr, acts, n, k, tid) && rn < k && rn <= tr[n].cap
    requires PcOf(tr[n], tid) == PopCopy(rt, rn, []) && tr[n].head == rt
    ensures var pc := PcOf(tr[n + k], tid); pc.Popped? && pc.rt == rt && |pc.out| == rn
    ensures tr[n + k].head == rt + rn && tr[n + k].readTail == tr[n].readTail && tr[n + k].pushed == tr[n].pushed
  {
    hide Run, Apply;
    CopiesOut(tr, acts, n, k, tid, rt, rn, rn);
    AloneStep(tr, acts, n, k, tid, n + rn);
    PopReleases(tr[n + rn], tid);
    AlonePart(tr, acts, n, k, tid, n + rn + 1, k - rn - 1);
    Rests(tr, acts, n + rn + 1, k - rn - 1, tid);
  }

  lemma PopSteps<T>(tr: seq<State<T>>, acts: seq<Action<T>>, n: nat, tid: nat, want: nat)
    requires Alone(tr, acts, n, want + 4, tid) && Quiet(tr[n]) && PcOf(tr[n], tid) == PopStart(want)
    ensures tr[n].head <= tr[n].tail
    ensures var r, s' := Min(want, tr[n].tail - tr[n].head), tr[n + want + 4];
            && PcOf(s', tid).Popped? && PcOf(s', tid).rt == tr[n].head && |PcOf(s', tid).out| == r
            && s'.head == s'.readTail == tr[n].head + r && s'.pushed == tr[n].pushed
  {
    RunInv(tr, acts, n);
    hide Run, Inv, Apply, Quiet;
    var k := want + 4;
    AloneStep(tr, acts, n, k, tid, n);
    AloneStep(tr, acts, n, k, tid, n + 1);
    AloneStep(tr, acts, n, k, tid, n + 2);
    PopLooks(tr[n], tr[n + 1], tr[n + 2], tr[n + 3], tid, want);
    AlonePart(tr, acts, n, k, tid, n + 3, k - 3);
    var r := Min(want, tr[n].tail - tr[n].head);
    if r == 0 { Rests(tr, acts, n + 3, k - 3, tid); } else { PopFinishes(tr, acts, n + 3, k - 3, tid, tr[n].head, r); }
  }

  lemma SlicePrefix<T>(p: seq<T>, q: seq<T>, i: nat, j: nat)
    requires p <= q && i <= j <= |p|
    ensures p[i..j] == q[i..j]
  {
  }

  // A pop_batch that runs alone returns the oldest elements, want of them or
  // all there are, and takes exactly those out.
  lemma SoloPopBatch<T>(tr: seq<State<T>>, acts: seq<Action<T>>, n: nat, tid: nat, want: nat)
    requires Alone(tr, acts, n, want + 4, tid) && Quiet(tr[n]) && PcOf(tr[n], tid) == PopStart(want)
    ensures tr[n].head <= tr[n].tail == |tr[n].pushed|
    ensures var r, s' := Min(want, tr[n].tail - tr[n].head), tr[n + want + 4];
            PcOf(s', tid) == Popped(tr[n].head, tr[n].pushed[tr[n].head..tr[n].head + r]) && s'.head == s'.readTail == tr[n].head + r
  {
    hide Run, Apply, Quiet, Inv, Min;
    PopSteps(tr, acts, n, tid, want);
    FifoPrefix(tr, acts, n, tid);
    FifoPrefix(tr, acts, n + want + 4, tid);
    var s' := tr[n + want + 4];
    var Popped(rt, out) := PcOf(s', tid);
    if out != [] {
      assert out == s'.popped[rt..rt + |out|];
      SlicePrefix(s'.popped, s'.pushed, rt, rt + |out|);
    }
  }
}
