// PooledAllocator of common/io-alloc.h: pools of buffers whose sizes double
// from slot to slot.  A buffer is known by its address and the size malloc
// says is usable in it.
module PooledAllocator {
  import opened Arith
  import opened RangeSplit

  // ----- logarithms, common/utility.h ----------------------------------------------------

  // log2_truncate
  function Log2(x: nat): (r: nat)
    requires x > 0
    ensures Pow2(r) <= x < Pow2(r + 1)
  { if x == 1 then 0 else 1 + Log2(x / 2) }

  lemma {:induction false} Pow2Mono(i: nat, j: nat)
    requires i <= j
    ensures Pow2(i) <= Pow2(j)
    decreases j - i
  {
    if i < j { Pow2Mono(i + 1, j); }
  }

  lemma {:induction false} Pow2Add(i: nat, j: nat)
    ensures Pow2(i + j) == Pow2(i) * Pow2(j)
  {
    if j > 0 { Pow2Add(i, j - 1); }
  }

  lemma Log2Unique(x: nat, r: nat)
    requires Pow2(r) <= x < Pow2(r + 1)
    ensures x > 0 && Log2(x) == r
  {
    if Log2(x) < r { Pow2Mono(Log2(x) + 1, r); }
    if r < Log2(x) { Pow2Mono(r + 1, Log2(x)); }
  }

  // log2_round_up; note that it is 1 for x == 1.
  function Log2RoundUp(x: nat): nat
    requires x > 0
  { if x <= 1 then x else Log2(x - 1) + 1 }

  lemma RoundUpCovers(x: nat)
    requires x > 0
    ensures x <= Pow2(Log2RoundUp(x)) && (x > 1 ==> Pow2(Log2RoundUp(x) - 1) < x)
  {
  }

  // ----- slots ----------------------------------------------------------------------------

  // ALIGNMENT is 2^a and MAX_ALLOCATION_SIZE is 2^m.
  datatype Config = Config(a: nat, m: nat, capacity: nat)

  predicate ConfigOk(c: Config) { c.a <= c.m <= 31 }

  // ffsl(MAX_ALLOCATION_SIZE / 4096)
  function SlotCount(c: Config): nat { if c.m >= 12 then c.m - 12 + 1 else 0 }

  function GetSlot(c: Config, x: nat, roundUp: bool): nat
    requires x > 0
  {
    var i := if roundUp then Log2RoundUp(x) else Log2(x);
    if i < c.a then 0 else i - c.a
  }

  function AllocSize(c: Config, slot: nat): nat { Pow2(c.a) * Pow2(slot) }

  lemma AllocSizeIs(c: Config, slot: nat)
    ensures AllocSize(c, slot) == Pow2(c.a + slot)
  {
    Pow2Add(c.a, slot);
  }

  // The slot for a request is big enough for it.
  lemma SlotFits(c: Config, x: nat)
    requires x > 0
    ensures x <= AllocSize(c, GetSlot(c, x, true))
  {
    var k := GetSlot(c, x, true);
    AllocSizeIs(c, k);
    RoundUpCovers(x);
    if Log2RoundUp(x) < c.a { Pow2Mono(Log2RoundUp(x), c.a); }
  }

  // It is the smallest such slot, except that a request for one byte skips the
  // slot of one-byte buffers.
  lemma SlotLeast(c: Config, x: nat)
    requires x > 0
    ensures (forall k :: 0 <= k < GetSlot(c, x, true) ==> AllocSize(c, k) < x) <==> !(c.a == 0 && x == 1)
  {
    RoundUpCovers(x);
    if x > 1 {
      forall k | 0 <= k < GetSlot(c, x, true) ensures AllocSize(c, k) < x {
        AllocSizeIs(c, k);
        Pow2Mono(c.a + k, Log2RoundUp(x) - 1);
      }
    } else if c.a == 0 {
      assert GetSlot(c, x, true) == 1 && AllocSize(c, 0) == 1;
    }
  }

  // Requests up to the maximum find a slot, all of them, exactly when the
  // alignment is at least 4096.
  lemma SlotsInRange(c: Config)
    requires ConfigOk(c)
    ensures (forall x :: 0 < x <= Pow2(c.m) ==> GetSlot(c, x, true) < SlotCount(c)) <==> c.a >= 12
  {
    if c.a >= 12 {
      forall x | 0 < x <= Pow2(c.m) ensures GetSlot(c, x, true) < SlotCount(c) { RequestSlot(c, x); }
    } else {
      var x := Pow2(c.m);
      RoundUpCovers(x);
      LargestSlot(c);
      assert GetSlot(c, x, true) >= SlotCount(c);
    }
  }

  lemma RequestSlot(c: Config, x: nat)
    requires 0 < x <= Pow2(c.m) && c.a <= c.m && c.m >= 1
    ensures GetSlot(c, x, true) <= c.m - c.a
  {
    if x > 1 {
      RoundUpCovers(x);
      if c.m < Log2RoundUp(x) { Pow2Mono(c.m, Log2RoundUp(x) - 1); }
    }
  }

  lemma LargestSlot(c: Config)
    requires c.a <= c.m
    ensures GetSlot(c, Pow2(c.m), true) >= c.m - c.a
  {
    var x := Pow2(c.m);
    RoundUpCovers(x);
    if Log2RoundUp(x) < c.m { Pow2Mono(Log2RoundUp(x) + 1, c.m); }
  }

  // A block returns to the largest slot it is big enough for.
  lemma ReturnSlot(c: Config, u: nat)
    requires ConfigOk(c) && c.a >= 12 && Pow2(c.a) <= u < Pow2(c.m + 1)
    ensures GetSlot(c, u, false) < SlotCount(c)
    ensures AllocSize(c, GetSlot(c, u, false)) <= u < AllocSize(c, GetSlot(c, u, false) + 1)
  {
    var i := Log2(u);
    if i < c.a { Pow2Mono(i + 1, c.a); }
    if c.m < i { Pow2Mono(c.m + 1, i); }
    AllocSizeIs(c, i - c.a);
    AllocSizeIs(c, i - c.a + 1);
  }

  // ----- histories --------------------------------------------------------------------------

  // addr is the identity of an allocation; an address that malloc hands out
  // again after free belongs to a new block.
  datatype Block = Block(addr: nat, usable: nat)

  // Idle blocks by slot, and the blocks held by callers, given back to malloc,
  // and ever made.
  datatype State = State(slots: seq<seq<Block>>, held: set<Block>, destroyed: set<Block>, made: set<Block>)

  function Init(c: Config): State { State(seq(SlotCount(c), _ => []), {}, {}, {}) }

  datatype Reply = Done | Failed | Given(block: Block, size: nat)

  // What malloc may return for a slot: at least the size asked for, below twice
  // the maximum.
  predicate Malloced(c: Config, slot: nat, b: Block) { AllocSize(c, slot) <= b.usable < Pow2(c.m + 1) }

  // spare is what malloc returns if the slot is empty; Scale is one round of the
  // pool's do_scale.
  datatype Op = Allocate(min: nat, max: nat, spare: Block) | Free(block: Block) | Scale(slot: nat)

  function Clamp(c: Config, max: nat): nat { if max > Pow2(c.m) then Pow2(c.m) else max }

  predicate Enabled(c: Config, s: State, op: Op) {
    match op
    case Allocate(min, max, spare) =>
      && max > 0 && Malloced(c, GetSlot(c, Clamp(c, max), true), spare)
      && forall b :: b in s.made ==> b.addr != spare.addr
    case Free(b) => b in s.held && b.usable > 0
    case Scale(k) => k < |s.slots| && s.slots[k] != []
  }

  // Slots chosen by the operation exist.
  predicate InRange(c: Config, s: State, op: Op)
    requires Enabled(c, s, op)
  {
    match op
    case Allocate(min, max, _) => min > Pow2(c.m) || GetSlot(c, Clamp(c, max), true) < |s.slots|
    case Free(b) => GetSlot(c, b.usable, false) < |s.slots|
    case Scale(_) => true
  }

  function Top(s: State, k: nat): Block
    requires k < |s.slots| && s.slots[k] != []
  { s.slots[k][|s.slots[k]| - 1] }

  function Pop(slots: seq<seq<Block>>, k: nat): seq<seq<Block>>
    requires k < |slots| && slots[k] != []
  { slots[k := slots[k][..|slots[k]| - 1]] }

  function Push(slots: seq<seq<Block>>, k: nat, b: Block): seq<seq<Block>>
    requires k < |slots|
  { slots[k := slots[k] + [b]] }

  function Step(c: Config, s: State, op: Op): (State, Reply)
    requires Enabled(c, s, op) && InRange(c, s, op)
  {
    match op
    case Allocate(min, max, spare) =>
      if min > Pow2(c.m) then (s, Failed)
      else
        var k := GetSlot(c, Clamp(c, max), true);
        if s.slots[k] != [] then
          (s.(slots := Pop(s.slots, k), held := s.held + {Top(s, k)}), Given(Top(s, k), Clamp(c, max)))
        else
          (s.(held := s.held + {spare}, made := s.made + {spare}), Given(spare, Clamp(c, max)))
    case Free(b) =>
      var k := GetSlot(c, b.usable, false);
      if |s.slots[k]| < c.capacity then
        (s.(slots := Push(s.slots, k, b), held := s.held - {b}), Done)
      else
        (s.(held := s.held - {b}, destroyed := s.destroyed + {b}), Done)
    case Scale(k) => (s.(slots := Pop(s.slots, k), destroyed := s.destroyed + {Top(s, k)}), Done)
  }

  // ----- single requests --------------------------------------------------------------------

  // An allocation fails exactly if even the least size it accepts is over the
  // maximum.  Otherwise it gives the size asked for, up to the maximum, out of
  // the smallest slot that fits: an idle block if there is one, else a new one.
  lemma AllocateServes(c: Config, s: State, min: nat, max: nat, spare: Block)
    requires ConfigOk(c) && c.a >= 12 && |s.slots| == SlotCount(c) && Enabled(c, s, Allocate(min, max, spare))
    ensures InRange(c, s, Allocate(min, max, spare))
    ensures var (t, r) := Step(c, s, Allocate(min, max, spare));
            && (min > Pow2(c.m) ==> r == Failed && t == s)
            && (min <= Pow2(c.m) ==>
                  && r.Given? && r.size == Min(max, Pow2(c.m)) && t.held == s.held + {r.block} && t.destroyed == s.destroyed
                  && exists k: nat :: Serves(c, s.slots, k, r.size)
                                 && if s.slots[k] != []
                                    then |t.slots| == |s.slots| && t.slots[k] + [r.block] == s.slots[k]
                                         && t.slots == s.slots[k := t.slots[k]] && t.made == s.made
                                    else r.block == spare && t.slots == s.slots && t.made == s.made + {spare})
  {
    hide GetSlot, AllocSize, Malloced;
    var x := Clamp(c, max);
    RequestSlot(c, x);
    SlotFits(c, x);
    SlotLeast(c, x);
    if min <= Pow2(c.m) { assert Serves(c, s.slots, GetSlot(c, x, true), x); }
  }

  // Slot k holds the smallest buffers of at least x bytes.
  ghost predicate Serves(c: Config, slots: seq<seq<Block>>, k: nat, x: nat) {
    k < |slots| && x <= AllocSize(c, k) && forall j :: 0 <= j < k ==> AllocSize(c, j) < x
  }

  // A freed block becomes idle in the largest slot it is big enough for, or goes
  // back to malloc if that slot is full.
  lemma FreeKeeps(c: Config, s: State, b: Block)
    requires ConfigOk(c) && c.a >= 12 && |s.slots| == SlotCount(c) && b in s.held && Malloced(c, 0, b)
    ensures Enabled(c, s, Free(b)) && InRange(c, s, Free(b))
    ensures var t := Step(c, s, Free(b)).0;
            && t.held == s.held - {b} && t.made == s.made
            && exists k: nat :: Takes(c, s.slots, k, b.usable)
                           && if |s.slots[k]| < c.capacity
                              then t.slots == s.slots[k := s.slots[k] + [b]] && t.destroyed == s.destroyed
                              else t.slots == s.slots && t.destroyed == s.destroyed + {b}
  {
    BlockInLower(c, 0, b);
    ReturnSlot(c, b.usable);
    hide GetSlot, AllocSize, Malloced;
    assert Takes(c, s.slots, GetSlot(c, b.usable, false), b.usable);
  }

  ghost predicate Takes(c: Config, slots: seq<seq<Block>>, k: nat, u: nat) {
    k < |slots| && AllocSize(c, k) <= u < AllocSize(c, k + 1)
  }

  // ----- sizes ------------------------------------------------------------------------------

  // Every idle block is as big as its slot says, every slot within its capacity.
  ghost predicate Sized(c: Config, s: State) {
    && |s.slots| == SlotCount(c)
    && (forall k, i :: 0 <= k < |s.slots| && 0 <= i < |s.slots[k]| ==> Malloced(c, k, s.slots[k][i]))
    && (forall k :: 0 <= k < |s.slots| ==> |s.slots[k]| <= c.capacity)
    && (forall b :: b in s.held ==> Malloced(c, 0, b))
  }

  lemma BlockInLower(c: Config, slot: nat, b: Block)
    requires Malloced(c, slot, b)
    ensures Malloced(c, 0, b) && b.usable >= Pow2(c.a) && b.usable > 0
  {
    AllocSizeIs(c, slot);
    AllocSizeIs(c, 0);
    Pow2Mono(c.a, c.a + slot);
  }

  // The slot that is chosen exists, and a buffer that is handed out is at least
  // as big as the size that is reported with it.
  lemma StepSized(c: Config, s: State, op: Op)
    requires ConfigOk(c) && c.a >= 12 && Sized(c, s) && Enabled(c, s, op)
    ensures InRange(c, s, op)
    ensures var r := Step(c, s, op);
            && Sized(c, r.0)
            && (r.1.Given? ==> r.1.size <= r.1.block.usable && op.Allocate? && op.min <= Pow2(c.m)
                               && r.1.size == Clamp(c, op.max))
  {
    hide GetSlot, AllocSize, Malloced;
    match op
    case Allocate(min, max, spare) =>
      var x := Clamp(c, max);
      RequestSlot(c, x);
      var k := GetSlot(c, x, true);
      if min <= Pow2(c.m) {
        var b := if s.slots[k] != [] then Top(s, k) else spare;
        assert Malloced(c, k, b);
        BlockInLower(c, k, b);
        HandedOut(c, x, b);
      }
    case Free(b) =>
      BlockInLower(c, 0, b);
      Returned(c, b);
    case Scale(k) =>
  }

  lemma HandedOut(c: Config, x: nat, b: Block)
    requires x > 0 && Malloced(c, GetSlot(c, x, true), b)
    ensures x <= b.usable
  {
    SlotFits(c, x);
  }

  lemma Returned(c: Config, b: Block)
    requires ConfigOk(c) && c.a >= 12 && Malloced(c, 0, b) && b.usable >= Pow2(c.a)
    ensures GetSlot(c, b.usable, false) < SlotCount(c) && Malloced(c, GetSlot(c, b.usable, false), b)
  {
    ReturnSlot(c, b.usable);
  }

  // ----- owners -----------------------------------------------------------------------------

  // No block is in two places of the slots.
  ghost predicate Once(slots: seq<seq<Block>>) {
    forall k, i, l, j :: (0 <= k < |slots| && 0 <= i < |slots[k]| && 0 <= l < |slots| && 0 <= j < |slots[l]|
                          && slots[k][i] == slots[l][j]) ==> (k == l && i == j)
  }

  ghost predicate InSlot(slots: seq<seq<Block>>, b: Block) {
    exists k, i :: 0 <= k < |slots| && 0 <= i < |slots[k]| && slots[k][i] == b
  }

  // Idle, held and destroyed: duplicate-free, disjoint, and together all blocks.
  ghost predicate Owned(s: State) {
    && Once(s.slots)
    && (forall b :: InSlot(s.slots, b) ==> b in s.made && b !in s.held && b !in s.destroyed)
    && s.held !! s.destroyed && s.held <= s.made && s.destroyed <= s.made
    && (forall b :: b in s.made ==> InSlot(s.slots, b) || b in s.held || b in s.destroyed)
    && (forall b, d :: b in s.made && d in s.made && b.addr == d.addr ==> b == d)
  }

  // Taking the top off a slot removes exactly that block.
  lemma PopOnce(slots: seq<seq<Block>>, k: nat)
    requires k < |slots| && slots[k] != [] && Once(slots)
    ensures var b := slots[k][|slots[k]| - 1];
            Once(Pop(slots, k)) && forall x :: InSlot(Pop(slots, k), x) <==> InSlot(slots, x) && x != b
  {
    var t, n := Pop(slots, k), |slots[k]| - 1;
    assert forall l, j :: 0 <= l < |t| && 0 <= j < |t[l]| ==> t[l][j] == slots[l][j];
    forall x ensures InSlot(t, x) <==> InSlot(slots, x) && x != slots[k][n] {
      if InSlot(slots, x) && x != slots[k][n] {
        var l, j :| 0 <= l < |slots| && 0 <= j < |slots[l]| && slots[l][j] == x;
        assert t[l][j] == x;
      }
      if InSlot(t, x) {
        var l, j :| 0 <= l < |t| && 0 <= j < |t[l]| && t[l][j] == x;
        assert slots[l][j] == x;
      }
    }
  }

  // Putting a block that is nowhere else on top adds exactly that block.
  lemma PushOnce(slots: seq<seq<Block>>, k: nat, b: Block)
    requires k < |slots| && Once(slots) && !InSlot(slots, b)
    ensures Once(Push(slots, k, b)) && forall x :: InSlot(Push(slots, k, b), x) <==> InSlot(slots, x) || x == b
  {
    var t, n := Push(slots, k, b), |slots[k]|;
    assert forall l, j :: 0 <= l < |slots| && 0 <= j < |slots[l]| ==> t[l][j] == slots[l][j];
    assert t[k][n] == b;
    forall x ensures InSlot(t, x) <==> InSlot(slots, x) || x == b {
      if InSlot(slots, x) {
        var l, j :| 0 <= l < |slots| && 0 <= j < |slots[l]| && slots[l][j] == x;
        assert t[l][j] == x;
      }
      if InSlot(t, x) && x != b {
        var l, j :| 0 <= l < |t| && 0 <= j < |t[l]| && t[l][j] == x;
        assert slots[l][j] == x;
      }
    }
  }

  lemma TopInSlot(s: State, k: nat)
    requires k < |s.slots| && s.slots[k] != []
    ensures InSlot(s.slots, Top(s, k))
  {
  }

  // Every operation keeps each block with one owner, and hands out only blocks
  // that nobody holds.
  lemma StepOwned(c: Config, s: State, op: Op)
    requires Owned(s) && Enabled(c, s, op) && InRange(c, s, op)
    ensures Owned(Step(c, s, op).0)
    ensures Step(c, s, op).1.Given? ==> Step(c, s, op).1.block !in s.held && Step(c, s, op).1.block in Step(c, s, op).0.held
  {
    hide Once, InSlot, GetSlot, Pop, Push, Malloced;
    match op
    case Allocate(min, max, spare) =>
      var k := GetSlot(c, Clamp(c, max), true);
      if min <= Pow2(c.m) && s.slots[k] != [] { PopOnce(s.slots, k); TopInSlot(s, k); }
    case Free(b) =>
      var k := GetSlot(c, b.usable, false);
      if |s.slots[k]| < c.capacity { PushOnce(s.slots, k, b); }
    case Scale(k) =>
      PopOnce(s.slots, k);
      TopInSlot(s, k);
  }

  // ----- theorems over all histories ----------------------------------------------------------

  ghost predicate Linked(c: Config, s: State, op: Op, r: Reply, t: State) {
    Enabled(c, s, op) && (InRange(c, s, op) ==> Step(c, s, op) == (t, r))
  }

  // A history of requests, as long as the chosen slots exist.
  ghost predicate History(c: Config, tr: seq<State>, ops: seq<Op>, replies: seq<Reply>) {
    && |tr| == |ops| + 1 && |replies| == |ops| && tr[0] == Init(c)
    && forall i :: 0 <= i < |ops| ==> Linked(c, tr[i], ops[i], replies[i], tr[i + 1])
  }

  lemma InitOk(c: Config)
    ensures Sized(c, Init(c)) && Owned(Init(c))
  {
  }

  // Over every history: chosen slots exist, blocks are as big as their slot
  // says, every block has exactly one owner, and every buffer handed out has the
  // size reported and was held by nobody.
  lemma {:induction false} HistoryOk(c: Config, tr: seq<State>, ops: seq<Op>, replies: seq<Reply>, i: nat)
    requires ConfigOk(c) && c.a >= 12 && History(c, tr, ops, replies) && i <= |ops|
    ensures Sized(c, tr[i]) && Owned(tr[i])
    ensures i < |ops| ==>
              && Enabled(c, tr[i], ops[i]) && InRange(c, tr[i], ops[i])
              && Step(c, tr[i], ops[i]) == (tr[i + 1], replies[i])
    ensures i < |ops| && replies[i].Given? ==>
              && replies[i].size <= replies[i].block.usable
              && replies[i].block !in tr[i].held && replies[i].block in tr[i + 1].held
  {
    hide Sized, Owned, Step, InRange, Enabled;
    if i == 0 {
      InitOk(c);
    } else {
      HistoryOk(c, tr, ops, replies, i - 1);
      StepSized(c, tr[i - 1], ops[i - 1]);
      StepOwned(c, tr[i - 1], ops[i - 1]);
    }
    if i < |ops| {
      assert Linked(c, tr[i], ops[i], replies[i], tr[i + 1]);
      StepSized(c, tr[i], ops[i]);
      StepOwned(c, tr[i], ops[i]);
    }
  }

  lemma HeldUntilFreed(c: Config, s: State, op: Op, b: Block)
    requires Enabled(c, s, op) && InRange(c, s, op) && b in s.held
    ensures b in Step(c, s, op).0.held || op == Free(b)
  {
  }

  // A buffer stays with its holder until it is freed.
  lemma {:induction false} StaysHeld(c: Config, tr: seq<State>, ops: seq<Op>, replies: seq<Reply>, i: nat, j: nat, b: Block)
    requires ConfigOk(c) && c.a >= 12 && History(c, tr, ops, replies) && i <= j <= |ops| && b in tr[i].held
    requires forall k :: i <= k < j ==> ops[k] != Free(b)
    ensures b in tr[j].held
    decreases j - i
  {
    hide Sized, Owned, Step, InRange, Enabled;
    if i < j {
      StaysHeld(c, tr, ops, replies, i, j - 1, b);
      HistoryOk(c, tr, ops, replies, j - 1);
      HeldUntilFreed(c, tr[j - 1], ops[j - 1], b);
    }
  }

  // No buffer is given to two callers at a time: between two allocations that
  // return the same block there is a free of it.
  lemma NoDoubleAllocation(c: Config, tr: seq<State>, ops: seq<Op>, replies: seq<Reply>, i: nat, j: nat)
    requires ConfigOk(c) && c.a >= 12 && History(c, tr, ops, replies) && i < j < |ops|
    requires replies[i].Given? && replies[j].Given? && replies[i].block == replies[j].block
    ensures exists k :: i < k < j && ops[k] == Free(replies[i].block)
  {
    var b := replies[i].block;
    HistoryOk(c, tr, ops, replies, i);
    HistoryOk(c, tr, ops, replies, j);
    hide Sized, Owned, Step, InRange, Enabled;
    if forall k :: i + 1 <= k < j ==> ops[k] != Free(b) { StaysHeld(c, tr, ops, replies, i + 1, j, b); }
  }
}
