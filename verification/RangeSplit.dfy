// Splitting a range of offsets at block boundaries: fs/range-split.h (blocks of
// a fixed size, by division or by shift and mask) and fs/range-split-vi.h
// (blocks between ascending key points).
module RangeSplit {
  import opened Arith

  datatype SubRange = SubRange(i: nat, offset: nat, length: nat)

  datatype Splitter =
    | Division(interval: nat)
    | Power2(shift: nat)
    | KeyPoints(points: seq<nat>)

  // What the constructors assert.
  predicate Valid(sp: Splitter) {
    match sp
    case Division(interval) => interval > 0
    case Power2(_) => true
    case KeyPoints(points) =>
      && |points| >= 3 && points[0] == 0 && points[|points| - 1] == MAX_U64
      && Ascending(points)
  }

  predicate Increases(points: seq<nat>, i: nat)
    requires i + 1 < |points|
  { points[i] < points[i + 1] }

  predicate Ascending(points: seq<nat>) {
    forall i :: 0 <= i < |points| - 1 ==> Increases(points, i)
  }

  lemma {:induction false} AscendingPair(points: seq<nat>, i: nat, j: nat)
    requires Ascending(points) && i < j < |points|
    ensures points[i] < points[j]
  {
    if i + 1 < j { AscendingPair(points, i, j - 1); }
    assert Increases(points, j - 1);
  }

  // ----- bits -------------------------------------------------------------------

  function Pow2(k: nat): (r: nat)
    ensures r > 0
  { if k == 0 then 1 else 2 * Pow2(k - 1) }

  function Shr(x: nat, k: nat): nat { if k == 0 then x else Shr(x / 2, k - 1) }

  function Shl(x: nat, k: nat): nat { if k == 0 then x else 2 * Shl(x, k - 1) }

  function And(x: nat, y: nat): nat {
    if x == 0 || y == 0 then 0
    else 2 * And(x / 2, y / 2) + (if x % 2 == 1 && y % 2 == 1 then 1 else 0)
  }

  lemma HalfDivMod(x: nat, d: nat)
    requires d > 0
    ensures x / (2 * d) == (x / 2) / d && x % (2 * d) == 2 * ((x / 2) % d) + x % 2
  {
    var q, r := (x / 2) / d, (x / 2) % d;
    assert x == 2 * (d * q + r) + x % 2;
    assert x == (2 * d) * q + (2 * r + x % 2);
    DivModUnique(x, 2 * d, q, 2 * r + x % 2);
  }

  lemma {:induction false} ShrIsDiv(x: nat, k: nat)
    ensures Shr(x, k) == x / Pow2(k)
  {
    if k > 0 {
      ShrIsDiv(x / 2, k - 1);
      HalfDivMod(x, Pow2(k - 1));
    }
  }

  lemma {:induction false} ShlIsMul(x: nat, k: nat)
    ensures Shl(x, k) == x * Pow2(k)
  {
    if k > 0 { ShlIsMul(x, k - 1); }
  }

  // Masking with 2^k - 1 is the remainder modulo 2^k.
  lemma {:induction false} MaskIsMod(x: nat, k: nat)
    ensures And(x, Pow2(k) - 1) == x % Pow2(k)
  {
    if k > 0 {
      MaskIsMod(x / 2, k - 1);
      HalfDivMod(x, Pow2(k - 1));
      AndOdd(x, Pow2(k - 1) - 1);
    }
  }

  lemma AndOdd(x: nat, m: nat)
    ensures And(x, 2 * m + 1) == 2 * And(x / 2, m) + x % 2
  {
    assert (2 * m + 1) / 2 == m && (2 * m + 1) % 2 == 1;
  }

  // ----- divide, multiply, get_length ---------------------------------------------

  // i * n, written so that proofs about block starts stay linear.
  function Times(i: nat, n: nat): nat { if i == 0 then 0 else Times(i - 1, n) + n }

  lemma {:induction false} TimesIsMul(i: nat, n: nat)
    ensures Times(i, n) == i * n
  {
    if i > 0 { TimesIsMul(i - 1, n); }
  }

  // multiply(i, 0): where block i starts.
  function Start(sp: Splitter, i: nat): nat
    requires sp.KeyPoints? ==> i < |sp.points|
  {
    match sp
    case Division(interval) => Times(i, interval)
    case Power2(shift) => Shl(i, shift)
    case KeyPoints(points) => points[i]
  }

  function GetLength(sp: Splitter, i: nat): nat
    requires Valid(sp) && HasBlock(sp, i)
  {
    match sp
    case Division(interval) => interval
    case Power2(shift) => Pow2(shift)
    case KeyPoints(points) => assert Increases(points, i); points[i + 1] - points[i]
  }

  predicate HasBlock(sp: Splitter, i: nat) { sp.KeyPoints? ==> i + 1 < |sp.points| }

  // Offsets that lie in some block.
  predicate Covers(sp: Splitter, x: nat) {
    sp.KeyPoints? ==> |sp.points| > 0 && x < sp.points[|sp.points| - 1]
  }

  // std::upper_bound on the key points: how many of them are <= x.
  method UpperBound(points: seq<nat>, x: nat) returns (k: nat)
    requires Ascending(points)
    ensures k <= |points|
    ensures forall i :: 0 <= i < k ==> points[i] <= x
    ensures forall i :: k <= i < |points| ==> x < points[i]
  {
    var lo, hi := 0, |points|;
    while lo < hi
      invariant 0 <= lo <= hi <= |points|
      invariant forall i :: 0 <= i < lo ==> points[i] <= x
      invariant forall i :: hi <= i < |points| ==> x < points[i]
    {
      var mid := (lo + hi) / 2;
      if points[mid] <= x {
        forall i | 0 <= i < mid ensures points[i] <= x { AscendingPair(points, i, mid); }
        lo := mid + 1;
      } else {
        forall i | mid < i < |points| ensures x < points[i] { AscendingPair(points, mid, i); }
        hi := mid;
      }
    }
    k := lo;
  }

  // Rounded down, remainder, rounded up: the block x lies in, its offset
  // there, and the first block that starts at or after x.
  ghost predicate Divided(sp: Splitter, x: nat, down: nat, rem: nat, up: nat) {
    && Valid(sp) && InBlock(sp, down, x) && rem == x - Start(sp, down)
    && up == if rem > 0 then down + 1 else down
  }

  method Divide(sp: Splitter, x: nat) returns (down: nat, rem: nat, up: nat)
    requires Valid(sp) && Covers(sp, x)
    ensures Divided(sp, x, down, rem, up)
  {
    match sp
    case Division(interval) => down, rem, up := DivideByDivision(interval, x);
    case Power2(shift) => down, rem, up := DivideByShift(shift, x);
    case KeyPoints(points) => down, rem, up := DivideByKeyPoints(points, x);
  }

  method DivideByDivision(interval: nat, x: nat) returns (down: nat, rem: nat, up: nat)
    requires interval > 0
    ensures Divided(Division(interval), x, down, rem, up)
  {
    down, rem, up := x / interval, x % interval, (x + interval - 1) / interval;
    DivideUp(x, interval);
    TimesIsMul(down, interval);
  }

  method DivideByShift(shift: nat, x: nat) returns (down: nat, rem: nat, up: nat)
    ensures Divided(Power2(shift), x, down, rem, up)
  {
    var mask := Pow2(shift) - 1;
    down, rem, up := Shr(x, shift), And(x, mask), Shr(x + mask, shift);
    Power2AgreesWithDivision(shift, x);
    ShiftDivided(shift, x, down, rem, up);
  }

  lemma ShiftDivided(shift: nat, x: nat, down: nat, rem: nat, up: nat)
    requires down == x / Pow2(shift) && rem == x % Pow2(shift)
    requires up == (x + Pow2(shift) - 1) / Pow2(shift)
    ensures Divided(Power2(shift), x, down, rem, up)
  {
    hide Pow2, Shl;
    ShlIsMul(down, shift);
    DivideUp(x, Pow2(shift));
    assert x == down * Pow2(shift) + rem;
  }

  method DivideByKeyPoints(points: seq<nat>, x: nat) returns (down: nat, rem: nat, up: nat)
    requires Valid(KeyPoints(points)) && Covers(KeyPoints(points), x)
    ensures Divided(KeyPoints(points), x, down, rem, up)
  {
    var k := UpperBound(points, x);
    down := k - 1;
    rem := x - points[k - 1];
    up := if rem > 0 then k else down;
  }

  // Blocks follow each other without gap.
  lemma StartStep(sp: Splitter, i: nat)
    requires Valid(sp) && HasBlock(sp, i)
    ensures Start(sp, i + 1) == Start(sp, i) + GetLength(sp, i) && GetLength(sp, i) > 0
  {
    if sp.Power2? {
      ShlIsMul(i, sp.shift);
      ShlIsMul(i + 1, sp.shift);
    }
    if sp.KeyPoints? { assert Increases(sp.points, i); }
  }

  lemma {:induction false} StartMono(sp: Splitter, i: nat, j: nat)
    requires Valid(sp) && i < j && (sp.KeyPoints? ==> j < |sp.points|)
    ensures Start(sp, i) + (j - i) <= Start(sp, j)
    decreases j - i
  {
    StartStep(sp, i);
    if i + 1 < j { StartMono(sp, i + 1, j); }
  }

  // Shift and mask agree with division on powers of two.
  lemma Power2AgreesWithDivision(k: nat, x: nat)
    ensures Shr(x, k) == x / Pow2(k)
    ensures And(x, Pow2(k) - 1) == x % Pow2(k)
    ensures Shr(x + (Pow2(k) - 1), k) == (x + Pow2(k) - 1) / Pow2(k)
    ensures Start(Power2(k), x) == Start(Division(Pow2(k)), x)
    ensures GetLength(Power2(k), x) == GetLength(Division(Pow2(k)), x)
  {
    ShrIsDiv(x, k);
    MaskIsMod(x, k);
    ShrIsDiv(x + (Pow2(k) - 1), k);
    ShlIsMul(x, k);
    TimesIsMul(x, Pow2(k));
  }

  // ----- the reference: cut [b, e) at every block boundary --------------------------

  // b lies in block d.
  ghost predicate InBlock(sp: Splitter, d: nat, b: nat)
    requires Valid(sp)
  {
    HasBlock(sp, d) && Start(sp, d) <= b < Start(sp, d) + GetLength(sp, d)
  }

  // The piece of [b, e) that lies in block d, for b in block d.
  ghost function HeadPiece(sp: Splitter, d: nat, b: nat, e: nat): SubRange
    requires Valid(sp) && b < e && InBlock(sp, d, b)
  {
    SubRange(d, b - Start(sp, d), Min(e, Start(sp, d) + GetLength(sp, d)) - b)
  }

  ghost function Pieces(sp: Splitter, d: nat, b: nat, e: nat): seq<SubRange>
    requires Valid(sp) && (b < e ==> InBlock(sp, d, b) && Covers(sp, e))
    decreases e - b
  {
    if b >= e then []
    else
      var p := HeadPiece(sp, d, b, e);
      NextBlock(sp, d, b, e);
      [p] + Pieces(sp, d + 1, b + p.length, e)
  }

  lemma NextBlock(sp: Splitter, d: nat, b: nat, e: nat)
    requires Valid(sp) && b < e && InBlock(sp, d, b) && Covers(sp, e)
    ensures var p := HeadPiece(sp, d, b, e);
            && PieceOk(sp, p) && Flat(sp, p) == b && b + p.length <= e
            && (b + p.length < e ==> b + p.length == Start(sp, d + 1) && InBlock(sp, d + 1, b + p.length))
  {
    StartStep(sp, d);
    if Start(sp, d + 1) < e { StartStep(sp, d + 1); }
  }

  // Where a piece begins in the undivided space.
  ghost function Flat(sp: Splitter, p: SubRange): nat
    requires HasBlock(sp, p.i)
  { Start(sp, p.i) + p.offset }

  ghost predicate PieceOk(sp: Splitter, p: SubRange)
    requires Valid(sp)
  {
    HasBlock(sp, p.i) && 0 < p.length && p.offset + p.length <= GetLength(sp, p.i)
  }

  ghost predicate Follows(sp: Splitter, p: SubRange, next: SubRange)
    requires HasBlock(sp, p.i) && HasBlock(sp, next.i)
  {
    next.i == p.i + 1 && Flat(sp, next) == Flat(sp, p) + p.length
  }

  // Non-empty, each inside one block, in order, without gap, from b to e.
  ghost predicate Tiles(sp: Splitter, parts: seq<SubRange>, b: nat, e: nat)
    requires Valid(sp)
  {
    && (forall j :: 0 <= j < |parts| ==> PieceOk(sp, parts[j]))
    && (forall j :: 0 < j < |parts| ==> Follows(sp, parts[j - 1], parts[j]))
    && (parts == [] ==> b == e)
    && (parts != [] ==>
          Flat(sp, parts[0]) == b && Flat(sp, parts[|parts| - 1]) + parts[|parts| - 1].length == e)
  }

  lemma {:induction false} PiecesTile(sp: Splitter, d: nat, b: nat, e: nat)
    requires Valid(sp) && b <= e && (b < e ==> InBlock(sp, d, b) && Covers(sp, e))
    ensures Tiles(sp, Pieces(sp, d, b, e), b, e)
    ensures b < e ==> Pieces(sp, d, b, e) != [] && Pieces(sp, d, b, e)[0].i == d
    decreases e - b
  {
    hide Start, GetLength;
    if b < e {
      var p := HeadPiece(sp, d, b, e);
      NextBlock(sp, d, b, e);
      PiecesTile(sp, d + 1, b + p.length, e);
      TilesCons(sp, p, Pieces(sp, d + 1, b + p.length, e), b, b + p.length, e);
    }
  }

  lemma TilesCons(sp: Splitter, p: SubRange, rest: seq<SubRange>, b: nat, m: nat, e: nat)
    requires Valid(sp) && PieceOk(sp, p) && Flat(sp, p) == b && b + p.length == m && Tiles(sp, rest, m, e)
    requires rest != [] ==> rest[0].i == p.i + 1
    ensures Tiles(sp, [p] + rest, b, e)
  {
    var parts := [p] + rest;
    forall j | 0 < j < |parts| ensures Follows(sp, parts[j - 1], parts[j]) {
      assert parts[j] == rest[j - 1];
      if j > 1 { assert parts[j - 1] == rest[j - 2]; }
    }
  }

  // ----- init -----------------------------------------------------------------------

  datatype Split = Split(
    begin: nat, end: nat,
    abegin: nat, aend: nat,         // blocks touched, rounded outward
    apbegin: nat, apend: nat,       // blocks covered whole, rounded inward
    beginRem: nat, endRem: nat,
    smallNote: SubRange, preface: SubRange, first: SubRange, postface: SubRange)

  const NONE := SubRange(0, 0, 0)

  // What the fields mean: a small note is a range strictly inside one block;
  // otherwise a preface is an unaligned head that reaches a block boundary and
  // a postface an unaligned tail that starts at one.
  ghost predicate SplitOk(sp: Splitter, rs: Split)
    requires Valid(sp)
  {
    && rs.begin <= rs.end && Covers(sp, rs.end)
    && Divided(sp, rs.begin, rs.abegin, rs.beginRem, rs.apbegin)
    && Divided(sp, rs.end, rs.apend, rs.endRem, rs.aend)
    && (rs.begin < rs.end ==>
          && rs.first == HeadPiece(sp, rs.abegin, rs.begin, rs.end)
          && (rs.smallNote.length > 0 <==> rs.beginRem > 0 && rs.endRem > 0 && rs.abegin == rs.apend)
          && (rs.smallNote.length > 0 ==> rs.smallNote == rs.first)
          && (rs.preface.length > 0 <==> rs.beginRem > 0 && rs.abegin < rs.apend)
          && (rs.preface.length > 0 ==> rs.preface == rs.first)
          && (rs.postface.length > 0 <==> rs.endRem > 0 && rs.apbegin <= rs.apend)
          && (rs.postface.length > 0 ==> rs.postface == SubRange(rs.apend, 0, rs.endRem)))
    && (rs.begin == rs.end ==> rs.smallNote.length == rs.preface.length == rs.postface.length == 0)
    && (rs.begin == rs.end && rs.abegin < rs.aend ==> rs.first == SubRange(rs.abegin, rs.beginRem, 0))
  }

  method Init(sp: Splitter, offset: nat, length: nat) returns (rs: Split)
    requires Valid(sp) && Covers(sp, offset + length)
    ensures rs.begin == offset && rs.end == offset + length && SplitOk(sp, rs)
  {
    hide Start, GetLength;
    var begin, end := offset, offset + length;
    var abegin, beginRem, apbegin := Divide(sp, begin);
    var apend, endRem, aend := Divide(sp, end);
    BlockOrder(sp, begin, abegin, end, apend);
    StartStep(sp, abegin);
    StartStep(sp, apend);
    var smallNote, preface, first, postface := NONE, NONE, NONE, NONE;
    if abegin + 1 == aend {
      first := SubRange(abegin, beginRem, length);
      if abegin != apbegin {
        if aend != apend {
          smallNote := first;
        } else {
          preface := first;
        }
      } else {
        if aend != apend {
          postface := first;
        }
      }
    } else {
      if abegin != apbegin {
        preface := SubRange(abegin, beginRem, GetLength(sp, abegin) - beginRem);
      }
      if preface.length > 0 {
        first := preface;
      } else {
        first := SubRange(apbegin, 0, GetLength(sp, apbegin));
      }
      if aend != apend {
        postface := SubRange(apend, 0, endRem);
      }
    }
    rs := Split(begin, end, abegin, aend, apbegin, apend, beginRem, endRem,
                smallNote, preface, first, postface);
  }

  lemma BlockOrder(sp: Splitter, b: nat, d: nat, e: nat, d': nat)
    requires Valid(sp) && b <= e && InBlock(sp, d, b) && InBlock(sp, d', e)
    ensures d <= d' && (b == e ==> d == d')
    ensures d < d' ==> Start(sp, d + 1) <= Start(sp, d')
  {
    StartStep(sp, d);
    StartStep(sp, d');
    if d' < d { StartMono(sp, d', d); if d' + 1 < d { StartMono(sp, d' + 1, d); } }
    if d + 1 < d' { StartMono(sp, d + 1, d'); }
  }

  // ----- the iterators -----------------------------------------------------------------

  // The iterator of all_parts() stands at the piece of [at, end) in its block.
  ghost predicate IteratorOk(sp: Splitter, rs: Split, cur: SubRange, at: nat)
    requires Valid(sp)
  {
    if cur.i == rs.aend then at == rs.end
    else cur.i < rs.aend && at < rs.end && InBlock(sp, cur.i, at) && cur == HeadPiece(sp, cur.i, at, rs.end)
  }

  // operator++ of that iterator.
  method NextPart(sp: Splitter, rs: Split, cur: SubRange, ghost at: nat) returns (next: SubRange)
    requires Valid(sp) && SplitOk(sp, rs) && rs.begin < rs.end && rs.abegin <= cur.i < rs.aend
    requires IteratorOk(sp, rs, cur, at)
    ensures next.i == cur.i + 1 && IteratorOk(sp, rs, next, at + cur.length)
  {
    hide Start, GetLength;
    NextBlock(sp, cur.i, at, rs.end);
    var i := cur.i + 1;
    if i != rs.aend {
      MoreBlocks(sp, rs, i);
      var pf := rs.postface.length > 0 && rs.postface.i == i;
      next := SubRange(i, 0, if pf then rs.postface.length else GetLength(sp, i));
      StartStep(sp, cur.i);
    } else {
      next := SubRange(i, 0, cur.length);
      StartStep(sp, cur.i);
      EndBlock(sp, rs);
    }
  }

  // all_parts().  A non-empty range is cut at exactly the block boundaries
  // inside it; an empty one gives no part, or one empty part.
  method AllParts(sp: Splitter, rs: Split) returns (parts: seq<SubRange>)
    requires Valid(sp) && SplitOk(sp, rs)
    ensures rs.begin < rs.end ==> parts == Pieces(sp, rs.abegin, rs.begin, rs.end)
    ensures rs.begin == rs.end ==> parts == [] || parts == [SubRange(rs.abegin, rs.beginRem, 0)]
  {
    hide Start, GetLength, InBlock;
    parts := [];
    var cur := rs.first;
    if rs.begin == rs.end {
      if rs.abegin < rs.aend { parts := [cur]; }
      return;
    }
    EndBlock(sp, rs);
    ghost var all := Pieces(sp, rs.abegin, rs.begin, rs.end);
    ghost var at: nat, rest := rs.begin, all;
    while cur.i != rs.aend
      invariant rs.abegin <= cur.i <= rs.aend && IteratorOk(sp, rs, cur, at)
      invariant rest == Pieces(sp, cur.i, at, rs.end) && all == parts + rest
      decreases rs.aend - cur.i
    {
      ghost var rest' := PiecesStep(sp, cur.i, at, rs.end);
      var next := NextPart(sp, rs, cur, at);
      MoveOne(parts, cur, rest');
      at := at + cur.length;
      parts := parts + [cur];
      cur, rest := next, rest';
    }
  }

  lemma MoveOne(parts: seq<SubRange>, p: SubRange, rest: seq<SubRange>)
    ensures parts + ([p] + rest) == (parts + [p]) + rest
  {
  }

  lemma PiecesStep(sp: Splitter, d: nat, b: nat, e: nat) returns (rest: seq<SubRange>)
    requires Valid(sp) && b < e && InBlock(sp, d, b) && Covers(sp, e)
    ensures var p := HeadPiece(sp, d, b, e);
            && (b + p.length < e ==> InBlock(sp, d + 1, b + p.length))
            && rest == Pieces(sp, d + 1, b + p.length, e)
            && Pieces(sp, d, b, e) == [p] + rest
  {
    NextBlock(sp, d, b, e);
    rest := Pieces(sp, d + 1, b + HeadPiece(sp, d, b, e).length, e);
  }

  // aend is the first block at or after the end.
  lemma EndBlock(sp: Splitter, rs: Split)
    requires Valid(sp) && SplitOk(sp, rs) && rs.begin < rs.end
    ensures rs.abegin < rs.aend && Start(sp, rs.aend) >= rs.end
  {
    StartStep(sp, rs.apend);
    BlockOrder(sp, rs.begin, rs.abegin, rs.end, rs.apend);
  }

  // A block before aend starts before the end, and is whole unless it is the
  // postface.
  lemma MoreBlocks(sp: Splitter, rs: Split, i: nat)
    requires Valid(sp) && SplitOk(sp, rs) && rs.begin < rs.end && rs.abegin < i < rs.aend
    ensures HasBlock(sp, i) && Start(sp, i) < rs.end
    ensures Min(rs.end, Start(sp, i) + GetLength(sp, i)) - Start(sp, i)
            == if rs.postface.length > 0 && rs.postface.i == i then rs.postface.length else GetLength(sp, i)
  {
    StartStep(sp, rs.apend);
    if i < rs.apend {
      StartMono(sp, i, rs.apend);
      StartStep(sp, i);
      if i + 1 < rs.apend { StartMono(sp, i + 1, rs.apend); }
    }
  }

  // Where the iteration of aligned_parts() is to stop.
  function StopBlock(rs: Split): nat { if rs.smallNote.length > 0 then rs.apbegin else rs.apend }

  // The block the iterator is at after n increments.
  function BlockAfter(rs: Split, n: nat): nat { rs.apbegin + n }

  // Counting up from apbegin meets the end exactly if the range is not empty, or
  // empty at a block start.
  lemma AlignedPartsEnd(sp: Splitter, rs: Split)
    requires Valid(sp) && SplitOk(sp, rs)
    ensures (exists n: nat :: BlockAfter(rs, n) == StopBlock(rs)) <==> rs.begin < rs.end || rs.beginRem == 0
  {
    hide Start, GetLength;
    BlockOrder(sp, rs.begin, rs.abegin, rs.end, rs.apend);
    if rs.begin < rs.end || rs.beginRem == 0 { assert BlockAfter(rs, StopBlock(rs) - rs.apbegin) == StopBlock(rs); }
  }

  // aligned_parts(): the blocks covered whole.  The iteration does not come to
  // its end for an empty range strictly inside a block.
  method AlignedParts(sp: Splitter, rs: Split) returns (ends: bool, parts: seq<SubRange>)
    requires Valid(sp) && SplitOk(sp, rs)
    ensures ends <==> rs.begin < rs.end || rs.beginRem == 0
    ensures ends && rs.smallNote.length > 0 ==> parts == []
    ensures ends && rs.smallNote.length == 0 ==> rs.apbegin <= rs.apend && parts == WholeBlocks(sp, rs.apbegin, rs.apend)
  {
    hide Start, GetLength;
    AlignedPartsEnd(sp, rs);
    parts := [];
    var i := rs.apbegin;
    var stop := StopBlock(rs);
    if stop < i {
      assert forall n: nat :: BlockAfter(rs, n) > stop;
      return false, [];
    }
    assert BlockAfter(rs, stop - i) == stop;
    while i != stop
      invariant rs.apbegin <= i <= stop
      invariant parts == WholeBlocks(sp, rs.apbegin, i)
    {
      parts := parts + [SubRange(i, 0, GetLength(sp, i))];
      i := i + 1;
    }
    ends := true;
  }

  // An empty range at offset 1 in blocks of four.
  method EmptyInsideBlock() returns (ends: bool)
    ensures !ends
  {
    var rs := Init(Division(4), 1, 0);
    assert Start(Division(4), 0) == 0 && Start(Division(4), 1) == 4;
    BlockOrder(Division(4), 1, 0, 1, rs.abegin);
    var parts;
    ends, parts := AlignedParts(Division(4), rs);
  }

  ghost function WholeBlocks(sp: Splitter, lo: nat, hi: nat): seq<SubRange>
    requires Valid(sp) && lo <= hi && (lo < hi ==> HasBlock(sp, hi - 1))
  {
    if lo == hi then [] else WholeBlocks(sp, lo, hi - 1) + [SubRange(hi - 1, 0, GetLength(sp, hi - 1))]
  }

  lemma CategoryOrder(sp: Splitter, rs: Split)
    requires Valid(sp) && SplitOk(sp, rs) && rs.begin < rs.end && rs.smallNote.length == 0
    ensures rs.apbegin <= rs.apend && HasBlock(sp, rs.apend)
  {
    BlockOrder(sp, rs.begin, rs.abegin, rs.end, rs.apend);
  }

  lemma WholeHead(sp: Splitter, i: nat, e: nat) returns (rest: seq<SubRange>)
    requires Valid(sp) && HasBlock(sp, i + 1) && Start(sp, i + 1) <= e && Covers(sp, e)
    ensures InBlock(sp, i, Start(sp, i)) && Start(sp, i) < e
    ensures Start(sp, i + 1) < e ==> InBlock(sp, i + 1, Start(sp, i + 1))
    ensures rest == Pieces(sp, i + 1, Start(sp, i + 1), e)
    ensures Pieces(sp, i, Start(sp, i), e) == [SubRange(i, 0, GetLength(sp, i))] + rest
  {
    hide Start, GetLength;
    StartStep(sp, i);
    StartStep(sp, i + 1);
    rest := PiecesStep(sp, i, Start(sp, i), e);
  }

  // Whole blocks before the end are pieces of the range.
  lemma {:induction false} WholeBlocksArePieces(sp: Splitter, lo: nat, hi: nat, e: nat)
    requires Valid(sp) && lo <= hi && HasBlock(sp, hi) && Covers(sp, e) && Start(sp, hi) <= e
    ensures Start(sp, lo) < e ==> InBlock(sp, lo, Start(sp, lo))
    ensures Start(sp, hi) < e ==> InBlock(sp, hi, Start(sp, hi))
    ensures Pieces(sp, lo, Start(sp, lo), e) == WholeBlocks(sp, lo, hi) + Pieces(sp, hi, Start(sp, hi), e)
  {
    hide Start, GetLength, Valid, Covers;
    StartStep(sp, lo);
    if lo < hi {
      var rest := WholeHead(sp, hi - 1, e);
      WholeBlocksArePieces(sp, lo, hi - 1, e);
      MoveOne(WholeBlocks(sp, lo, hi - 1), SubRange(hi - 1, 0, GetLength(sp, hi - 1)), rest);
    }
  }

  // Processing a non-empty range by category (small note, or preface, aligned
  // parts, postface) goes through exactly the pieces all_parts() yields.
  method ByCategory(sp: Splitter, rs: Split) returns (parts: seq<SubRange>)
    requires Valid(sp) && SplitOk(sp, rs) && rs.begin < rs.end
    ensures parts == Pieces(sp, rs.abegin, rs.begin, rs.end)
  {
    if rs.smallNote.length > 0 {
      parts := [rs.smallNote];
      SmallNoteIsAll(sp, rs);
    } else {
      parts := if rs.preface.length > 0 then [rs.preface] else [];
      var _, middle := AlignedParts(sp, rs);
      parts := parts + middle;
      if rs.postface.length > 0 {
        parts := parts + [rs.postface];
      }
      CategoriesAreAll(sp, rs);
    }
  }

  lemma SmallNoteIsAll(sp: Splitter, rs: Split)
    requires Valid(sp) && SplitOk(sp, rs) && rs.begin < rs.end && rs.smallNote.length > 0
    ensures Pieces(sp, rs.abegin, rs.begin, rs.end) == [rs.smallNote]
  {
    hide Start, GetLength;
    var rest := PiecesStep(sp, rs.abegin, rs.begin, rs.end);
  }

  lemma CategoriesAreAll(sp: Splitter, rs: Split)
    requires Valid(sp) && SplitOk(sp, rs) && rs.begin < rs.end && rs.smallNote.length == 0
    ensures rs.apbegin <= rs.apend && HasBlock(sp, rs.apend)
    ensures Pieces(sp, rs.abegin, rs.begin, rs.end)
            == (if rs.preface.length > 0 then [rs.preface] else [])
               + WholeBlocks(sp, rs.apbegin, rs.apend)
               + (if rs.postface.length > 0 then [rs.postface] else [])
  {
    hide Start, GetLength, InBlock, HeadPiece;
    CategoryOrder(sp, rs);
    PrefaceIsFirst(sp, rs);
    WholeStart(sp, rs);
    PostfaceIsRest(sp, rs);
    hide SplitOk;
    WholeBlocksArePieces(sp, rs.apbegin, rs.apend, rs.end);
  }

  // What precedes the whole blocks is the preface, if there is one.
  lemma PrefaceIsFirst(sp: Splitter, rs: Split)
    requires Valid(sp) && SplitOk(sp, rs) && rs.begin < rs.end && rs.smallNote.length == 0
    ensures Start(sp, rs.apbegin) < rs.end ==> InBlock(sp, rs.apbegin, Start(sp, rs.apbegin))
    ensures Pieces(sp, rs.abegin, rs.begin, rs.end)
            == (if rs.preface.length > 0 then [rs.preface] else []) + Pieces(sp, rs.apbegin, Start(sp, rs.apbegin), rs.end)
  {
    hide Start, GetLength;
    BlockOrder(sp, rs.begin, rs.abegin, rs.end, rs.apend);
    StartStep(sp, rs.abegin);
    if rs.beginRem > 0 {
      var rest := PiecesStep(sp, rs.abegin, rs.begin, rs.end);
      StartStep(sp, rs.apbegin);
    }
  }

  lemma WholeStart(sp: Splitter, rs: Split)
    requires Valid(sp) && SplitOk(sp, rs) && rs.begin < rs.end && rs.smallNote.length == 0
    ensures Covers(sp, rs.end) && Start(sp, rs.apend) <= rs.end
  {
  }

  lemma PostfaceIsRest(sp: Splitter, rs: Split)
    requires Valid(sp) && SplitOk(sp, rs) && rs.begin < rs.end && rs.apbegin <= rs.apend
    ensures Start(sp, rs.apend) < rs.end ==> InBlock(sp, rs.apend, Start(sp, rs.apend))
    ensures Pieces(sp, rs.apend, Start(sp, rs.apend), rs.end)
            == if rs.postface.length > 0 then [rs.postface] else []
  {
    hide Start, GetLength;
    StartStep(sp, rs.apend);
    if rs.endRem > 0 {
      var rest := PiecesStep(sp, rs.apend, Start(sp, rs.apend), rs.end);
    }
  }

  // Splitting end to end: the parts of [offset, offset + length) tile it.
  method SplitAll(sp: Splitter, offset: nat, length: nat) returns (parts: seq<SubRange>)
    requires Valid(sp) && length > 0 && Covers(sp, offset + length)
    ensures Tiles(sp, parts, offset, offset + length)
  {
    var rs := Init(sp, offset, length);
    parts := AllParts(sp, rs);
    PiecesTile(sp, rs.abegin, rs.begin, rs.end);
  }
}
