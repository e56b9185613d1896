// The token bucket of common/throttle.h.  The semaphore is its count; waiting
// and the order in which waiters are served are left open, so a run is any
// sequence of refills, successful or failed takes, and restores.
module Throttle {
  import opened Arith

  datatype Bucket = Bucket(
    limitPerSlice: nat, slices: nat, timePerSlice: nat, // fixed
    tokens: nat, last: nat)

  // m_limit and m_time_window
  function Limit(b: Bucket): nat { b.limitPerSlice * b.slices }

  function Window(b: Bucket): nat { b.timePerSlice * b.slices }

  ghost predicate Ok(b: Bucket) {
    b.slices > 0 && b.timePerSlice > 0 && Limit(b) <= MAX_U64 && Window(b) <= MAX_U64 && b.tokens <= Limit(b)
  }

  function CappedTime(b: Bucket, now: nat): nat
    requires now >= b.last
  { if now - b.last > Window(b) then Window(b) else now - b.last }

  // The tokens that have become free.
  function Earned(b: Bucket, now: nat): nat
    requires now >= b.last && b.timePerSlice > 0
  { b.limitPerSlice * (CappedTime(b, now) / b.timePerSlice) }

  function Signal(b: Bucket, n: nat): Bucket {
    var room := SatSub(Limit(b), b.tokens);
    b.(tokens := b.tokens + if room < n then room else n)
  }

  function Refill(b: Bucket, now: nat): Bucket
    requires now >= b.last && b.timePerSlice > 0
  {
    if CappedTime(b, now) < b.timePerSlice then b else Signal(b, Earned(b, now)).(last := now)
  }

  // ----- arithmetic of slices ---------------------------------------------------------

  // The share of one of d slices, rounded up.
  function PerSlice(x: nat, d: nat): nat
    requires d > 0
  { SatAdd(x, d - 1) / d }

  lemma PerSliceCovers(x: nat, d: nat)
    requires d > 0
    ensures PerSlice(x, d) * d <= MAX_U64
    ensures x + d - 1 <= MAX_U64 ==> x <= PerSlice(x, d) * d < x + d
    ensures 0 < x && d <= MAX_U64 ==> PerSlice(x, d) > 0
  {
    var y := SatAdd(x, d - 1);
    assert y == d * (y / d) + y % d;
    assert y / d * d == d * (y / d);
    if y / d == 0 { assert y == y % d; }
  }

  // Time in whole slices: parts never give more than the whole.
  lemma SlicesAdd(a: nat, b: nat, d: nat)
    requires d > 0
    ensures a / d + b / d <= (a + b) / d
  {
    DivModShift(b + a % d, d, a / d);
    assert a == d * (a / d) + a % d;
    DivMono(b, b + a % d, d);
  }

  lemma DivMono(x: nat, y: nat, d: nat)
    requires d > 0 && x <= y
    ensures x / d <= y / d
  {
    if y / d < x / d { MulMono(d, y / d + 1, x / d); }
  }

  // The product in try_signal stays within the limit, so it cannot overflow.
  lemma EarnedFits(b: Bucket, now: nat)
    requires Ok(b) && now >= b.last
    ensures Earned(b, now) <= Limit(b) <= MAX_U64
    ensures Earned(b, now) <= b.limitPerSlice * ((now - b.last) / b.timePerSlice)
  {
    var c, d := CappedTime(b, now), b.timePerSlice;
    DivMono(c, d * b.slices, d);
    DivModUnique(d * b.slices, d, b.slices, 0);
    MulMono(b.limitPerSlice, c / d, b.slices);
    DivMono(c, now - b.last, d);
    MulMono(b.limitPerSlice, c / d, (now - b.last) / d);
  }

  // A refill gives the share of every whole slice since the last one, up to the
  // limit.  Capping the time at the window loses nothing.
  lemma RefillExact(b: Bucket, now: nat)
    requires Ok(b) && now >= b.last
    ensures Refill(b, now).tokens == Min(Limit(b), b.tokens + b.limitPerSlice * ((now - b.last) / b.timePerSlice))
    ensures Refill(b, now).last == if now - b.last >= b.timePerSlice then now else b.last
  {
    var d := b.timePerSlice;
    MulMono(d, 1, b.slices);
    DivModUnique(d * b.slices, d, b.slices, 0);
    if now - b.last < d {
      DivModUnique(now - b.last, d, 0, now - b.last);
    } else if now - b.last > Window(b) {
      DivMono(Window(b), now - b.last, d);
      MulMono(b.limitPerSlice, b.slices, (now - b.last) / d);
    }
  }

  // After a whole window without a refill the bucket is full, so a request for
  // at most the limit is served.
  lemma WindowFills(b: Bucket, now: nat, amount: nat)
    requires Ok(b) && now >= b.last + Window(b)
    ensures Refill(b, now).tokens == Limit(b)
    ensures amount <= Limit(b) ==> Step(Step(b, TrySignal(now)), Take(amount)).tokens == Limit(b) - amount
  {
    RefillExact(b, now);
    var d := b.timePerSlice;
    DivModUnique(d * b.slices, d, b.slices, 0);
    DivMono(Window(b), now - b.last, d);
    MulMono(b.limitPerSlice, b.slices, (now - b.last) / d);
  }

  // ----- runs -------------------------------------------------------------------------

  datatype Op = TrySignal(now: nat) | Take(amount: nat) | Restore(amount: nat)

  function Step(b: Bucket, op: Op): Bucket
    requires b.timePerSlice > 0 && (op.TrySignal? ==> op.now >= b.last)
  {
    match op
    case TrySignal(now) => Refill(b, now)
    case Take(amount) => if b.tokens >= amount then b.(tokens := b.tokens - amount) else b
    case Restore(amount) => Signal(b, amount)
  }

  // Buckets before and after every operation of a run.
  ghost predicate Run(bs: seq<Bucket>, ops: seq<Op>) {
    && |bs| == |ops| + 1 && Ok(bs[0])
    && forall i :: 0 <= i < |ops| ==> Linked(bs[i], ops[i], bs[i + 1])
  }

  ghost predicate Linked(b: Bucket, op: Op, b': Bucket) {
    b.timePerSlice > 0 && (op.TrySignal? ==> op.now >= b.last) && b' == Step(b, op)
  }

  ghost function Consumed(bs: seq<Bucket>, ops: seq<Op>): nat
    requires |bs| == |ops| + 1
  {
    if ops == [] then 0
    else
      var n := |ops| - 1;
      Consumed(bs[..n + 1], ops[..n]) + if ops[n].Take? && bs[n].tokens >= ops[n].amount then ops[n].amount else 0
  }

  ghost function Restored(ops: seq<Op>): nat {
    if ops == [] then 0
    else Restored(ops[..|ops| - 1]) + if ops[|ops| - 1].Restore? then ops[|ops| - 1].amount else 0
  }

  ghost predicate SameLimits(a: Bucket, b: Bucket) {
    a.limitPerSlice == b.limitPerSlice && a.slices == b.slices && a.timePerSlice == b.timePerSlice
  }

  lemma StepOk(b: Bucket, op: Op)
    requires Ok(b) && (op.TrySignal? ==> op.now >= b.last)
    ensures Ok(Step(b, op)) && SameLimits(b, Step(b, op)) && b.last <= Step(b, op).last
  {
  }

  // What a refill adds is paid for by the slices that have passed since the last one.
  lemma RefillPaid(b0: Bucket, b: Bucket, now: nat)
    requires Ok(b) && b0.last <= b.last <= now
    ensures var r, d := Refill(b, now), b.timePerSlice;
            && b0.last <= r.last
            && r.tokens - b.tokens + b.limitPerSlice * ((b.last - b0.last) / d) <= b.limitPerSlice * ((r.last - b0.last) / d)
  {
    hide Earned, Limit, Window;
    if CappedTime(b, now) >= b.timePerSlice {
      EarnedFits(b, now);
      SlicesPay(b.limitPerSlice, b.timePerSlice, b.last - b0.last, now - b.last);
      assert now - b0.last == (b.last - b0.last) + (now - b.last);
    }
  }

  lemma SlicesPay(rate: nat, d: nat, p: nat, q: nat)
    requires d > 0
    ensures rate * (p / d) + rate * (q / d) <= rate * ((p + q) / d)
  {
    SlicesAdd(p, q, d);
    MulMono(rate, p / d + q / d, (p + q) / d);
    MulAdd(rate, p / d, q / d);
  }

  lemma MulAdd(a: nat, x: nat, y: nat)
    ensures a * (x + y) == a * x + a * y
  {
  }

  // Tokens held and consumed are covered by those at the start, the restored
  // ones and the slices passed; the bucket never holds more than the limit.
  lemma {:induction false} Balance(bs: seq<Bucket>, ops: seq<Op>)
    requires Run(bs, ops)
    ensures var b, e := bs[0], bs[|ops|];
            && Ok(e) && SameLimits(b, e) && b.last <= e.last
            && Consumed(bs, ops) + e.tokens
               <= b.tokens + Restored(ops) + b.limitPerSlice * ((e.last - b.last) / b.timePerSlice)
  {
    if ops == [] {
      DivModUnique(0, bs[0].timePerSlice, 0, 0);
    } else {
      var n := |ops| - 1;
      Balance(bs[..n + 1], ops[..n]);
      assert Linked(bs[n], ops[n], bs[n + 1]);
      StepOk(bs[n], ops[n]);
      if ops[n].TrySignal? { RefillPaid(bs[0], bs[n], ops[n].now); }
    }
  }

  // The bound: from any state to any later time t.
  lemma ConsumptionBound(bs: seq<Bucket>, ops: seq<Op>, t: nat)
    requires Run(bs, ops) && bs[|ops|].last <= t
    ensures Consumed(bs, ops)
            <= Limit(bs[0]) + Restored(ops) + bs[0].limitPerSlice * ((t - bs[0].last) / bs[0].timePerSlice)
  {
    Balance(bs, ops);
    var b, e := bs[0], bs[|ops|];
    DivMono(e.last - b.last, t - b.last, b.timePerSlice);
    MulMono(b.limitPerSlice, (e.last - b.last) / b.timePerSlice, (t - b.last) / b.timePerSlice);
  }

  // ----- the throttle -------------------------------------------------------------------

  class Throttle {
    var limit: nat
    var limitPerSlice: nat
    var timeWindow: nat
    var timePerSlice: nat
    var slices: nat
    var tokens: nat
    var lastRetrieve: nat

    ghost function Now(): Bucket
      reads this
    { Bucket(limitPerSlice, slices, timePerSlice, tokens, lastRetrieve) }

    ghost predicate Valid() reads this { Ok(Now()) && limit == Limit(Now()) && timeWindow == Window(Now()) }

    // Limit and window are rounded up to whole slices, without overflow.
    constructor (lim: nat, window: nat, slice: nat)
      requires 0 < slice <= MAX_U64 && 0 < window <= MAX_U64 && lim <= MAX_U64
      ensures Valid() && slices == slice && tokens == limit && lastRetrieve == 0
      ensures lim + slice - 1 <= MAX_U64 ==> lim <= limit < lim + slice
      ensures window + slice - 1 <= MAX_U64 ==> window <= timeWindow < window + slice
    {
      PerSliceCovers(lim, slice);
      PerSliceCovers(window, slice);
      slices := slice;
      limitPerSlice := PerSlice(lim, slice);
      limit := PerSlice(lim, slice) * slice;
      timePerSlice := PerSlice(window, slice);
      timeWindow := PerSlice(window, slice) * slice;
      tokens := PerSlice(lim, slice) * slice;
      lastRetrieve := 0;
    }

    // try_signal: the share of every whole slice that has passed, up to the limit.
    method Refresh(now: nat)
      requires Valid() && now >= lastRetrieve
      modifies this`tokens, this`lastRetrieve
      ensures Valid() && Now() == Step(old(Now()), TrySignal(now))
      ensures tokens == Min(limit, old(tokens) + limitPerSlice * ((now - old(lastRetrieve)) / timePerSlice))
      ensures lastRetrieve == if now - old(lastRetrieve) >= timePerSlice then now else old(lastRetrieve)
    {
      RefillExact(Now(), now);
      var duration := now - lastRetrieve;
      if duration > timeWindow { duration := timeWindow; }
      if duration >= timePerSlice {
        EarnedFits(Now(), now);
        var free := limitPerSlice * (duration / timePerSlice);
        var current := SatSub(limit, tokens);
        if current < free { free := current; }
        tokens := tokens + free;
        lastRetrieve := now;
      }
    }

    // try_consume: takes the tokens exactly when they are there after a refill.
    method TryConsume(now: nat, amount: nat) returns (ret: int)
      requires Valid() && now >= lastRetrieve
      modifies this`tokens, this`lastRetrieve
      ensures Valid() && Now() == Step(Step(old(Now()), TrySignal(now)), Take(amount))
      ensures ret == 0 || ret == -1
      ensures var have := Min(limit, old(tokens) + limitPerSlice * ((now - old(lastRetrieve)) / timePerSlice));
              (ret == 0 <==> have >= amount) && tokens == if ret == 0 then have - amount else have
      ensures lastRetrieve == if now - old(lastRetrieve) >= timePerSlice then now else old(lastRetrieve)
    {
      Refresh(now);
      if tokens < amount { return -1; }
      tokens := tokens - amount;
      ret := 0;
    }

    // update: a new limit keeps the bucket within bounds exactly when it does not
    // fall below the tokens that are already there.
    method Update(lim: nat)
      requires Valid() && lim <= MAX_U64
      modifies this`limit, this`limitPerSlice
      ensures limit == Limit(Now()) <= MAX_U64
      ensures lim + slices - 1 <= MAX_U64 ==> lim <= limit < lim + slices
      ensures Valid() <==> old(tokens) <= limit
    {
      PerSliceCovers(lim, slices);
      limitPerSlice := PerSlice(lim, slices);
      limit := limitPerSlice * slices;
    }

    // restore: the bucket takes back what it has room for.
    method GiveBack(amount: nat)
      requires Valid()
      modifies this`tokens
      ensures Valid() && Now() == Step(old(Now()), Restore(amount))
      ensures tokens == Min(limit, old(tokens) + amount)
    {
      var free := amount;
      var current := SatSub(limit, tokens);
      if current < free { free := current; }
      tokens := tokens + free;
    }
  }
}
