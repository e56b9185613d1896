// split_iovector_view and split_io of fs/throttled-file.cpp: an I/O vector is
// handed out in blocks by rewriting the elements at the block boundaries.
module SplitView {
  import opened FlatFile
  import opened IoVec
  import opened Arith

  // The elements still to hand out: the one at s without its first cut bytes,
  // then the rest up to end.
  ghost function Todo(orig: seq<IoVec>, s: nat, cut: nat, end: nat): seq<IoVec>
    requires s <= end <= |orig| && (s < end ==> cut <= orig[s].len)
  {
    if s == end then [] else [IoVec(orig[s].base + cut, orig[s].len - cut)] + orig[s + 1..end]
  }

  // The first c elements of w, the last of them without its last r bytes.
  ghost function FirstPart(w: seq<IoVec>, c: nat, r: nat): seq<IoVec>
    requires 0 < c <= |w| && r <= w[c - 1].len
  {
    w[..c - 1] + [IoVec(w[c - 1].base, w[c - 1].len - r)]
  }

  // What follows that part.
  ghost function LastPart(w: seq<IoVec>, c: nat, r: nat): seq<IoVec>
    requires 0 < c <= |w| && r <= w[c - 1].len
  {
    if r == 0 then w[c..] else [IoVec(w[c - 1].base + w[c - 1].len - r, r)] + w[c..]
  }

  lemma PartsAreWhole(w: seq<IoVec>, c: nat, r: nat)
    requires 0 < c <= |w| && r <= w[c - 1].len
    ensures Addrs(FirstPart(w, c, r)) + Addrs(LastPart(w, c, r)) == Addrs(w)
  {
    hide *;
    PartsSplit(w, c, r);
    var e := w[c - 1];
    var h := IoVec(e.base, e.len - r);
    AddrsAppend(w[..c - 1], [e] + w[c..]);
    AddrsAppend([e], w[c..]);
    AddrsAppend(w[..c - 1], [h]);
    AddrsOne(e);
    AddrsOne(h);
    RangeCut(e.base, e.len - r, r);
    var t := IoVec(e.base + e.len - r, r);
    AddrsAppend([t], w[c..]);
    AddrsOne(t);
    Reassociate(Addrs(w[..c - 1]), Range(h.base, h.len), Range(t.base, t.len), Addrs(w[c..]));
  }

  lemma Reassociate(a: seq<nat>, b: seq<nat>, c: seq<nat>, d: seq<nat>)
    ensures (a + b) + (c + d) == a + ((b + c) + d)
    ensures c == [] ==> (a + b) + d == a + ((b + c) + d)
  {
  }

  lemma PartsSplit(w: seq<IoVec>, c: nat, r: nat)
    requires 0 < c <= |w| && r <= w[c - 1].len
    ensures w == w[..c - 1] + ([w[c - 1]] + w[c..])
    ensures FirstPart(w, c, r) == w[..c - 1] + [IoVec(w[c - 1].base, w[c - 1].len - r)]
    ensures LastPart(w, c, r) == if r == 0 then w[c..] else [IoVec(w[c - 1].base + w[c - 1].len - r, r)] + w[c..]
  {
  }

  lemma RangeCut(b: nat, m: nat, n: nat)
    ensures Range(b, m + n) == Range(b, m) + Range(b + m, n) && |Range(b, m)| == m && (n == 0 ==> Range(b + m, n) == [])
  {
  }

  // The part of the whole that has been handed out, in terms of its total.
  lemma FirstPartTotal(w: seq<IoVec>, c: nat, r: nat)
    requires 0 < c <= |w| && r <= w[c - 1].len
    ensures Total(FirstPart(w, c, r)) == Total(w[..c]) - r && Total(w[..c]) <= Total(w)
  {
    hide *;
    PartsSplit(w, c, r);
    var h := IoVec(w[c - 1].base, w[c - 1].len - r);
    AddrsAppend(w[..c - 1], [h]);
    AddrsOne(h);
    RangeCut(h.base, h.len, 0);
    TotalStep(w, c - 1);
  }

  // ----- the state between two calls of next() ------------------------------------------

  // The original vector, the window [s, s + c) of the current view in it, how
  // much of the element at s was handed out before, the end, the bytes of the
  // last element that are not in the view, and the block size.
  datatype Cursor = Cursor(orig: seq<IoVec>, s: nat, c: nat, cut: nat, end: nat, rem: nat, block: nat)

  ghost predicate InRange(k: Cursor) {
    && k.block > 0 && k.s < k.end <= |k.orig| && 0 < k.c <= k.end - k.s && k.cut <= k.orig[k.s].len
    && k.rem <= W(k)[k.c - 1].len
  }

  ghost function W(k: Cursor): (w: seq<IoVec>)
    requires k.s < k.end <= |k.orig| && k.cut <= k.orig[k.s].len
    ensures |w| == k.end - k.s
  { Todo(k.orig, k.s, k.cut, k.end) }

  // a is the vector as rewritten: the view is the first part of what is to be
  // handed out, everything outside it is as it was.
  ghost predicate Rewritten(a: seq<IoVec>, k: Cursor)
    requires InRange(k)
  {
    && |a| == |k.orig|
    && (forall i :: 0 <= i < k.s ==> a[i] == k.orig[i])
    && (forall i :: k.s + k.c <= i < |a| ==> a[i] == k.orig[i])
    && a[k.s..k.s + k.c] == FirstPart(W(k), k.c, k.rem)
  }

  // The view holds a full block or all that is left.
  ghost predicate Full(k: Cursor)
    requires InRange(k)
  {
    && Total(FirstPart(W(k), k.c, k.rem)) == Min(k.block, Total(W(k)))
    && (Total(W(k)) < k.block ==> k.c == k.end - k.s && k.rem == 0)
  }

  // A last, short block inside one element: its original is not saved.
  ghost predicate Unsaved(k: Cursor)
    requires InRange(k)
  { k.c == 1 && k.cut > 0 && Total(W(k)) < k.block }

  ghost predicate Saved(a: seq<IoVec>, k: Cursor, f0: IoVec, b0: IoVec)
    requires InRange(k) && |a| == |k.orig|
  {
    && (k.c > 1 ==> f0 == k.orig[k.s])
    && b0 == if Unsaved(k) then a[k.s] else k.orig[k.s + k.c - 1]
  }

  // A cut element has bytes on both sides of the cut.
  ghost predicate Proper(k: Cursor)
    requires InRange(k)
  { (k.cut > 0 ==> k.cut < k.orig[k.s].len) && (k.rem > 0 ==> k.rem < W(k)[k.c - 1].len) }

  ghost predicate Good(a: seq<IoVec>, k: Cursor, f0: IoVec, b0: IoVec) {
    InRange(k) && Proper(k) && Rewritten(a, k) && Full(k) && Saved(a, k, f0, b0)
  }

  // Before do_shrink: nothing is rewritten but the first element, which has lost
  // what was handed out of it; if anything, it is shorter than a block.
  ghost predicate StartsAt(a: seq<IoVec>, k: Cursor, f0: IoVec) {
    && k.block > 0 && k.s < k.end <= |k.orig| == |a| && k.cut <= k.orig[k.s].len
    && (forall i :: 0 <= i < |a| && i != k.s ==> a[i] == k.orig[i])
    && a[k.s] == IoVec(k.orig[k.s].base + k.cut, k.orig[k.s].len - k.cut)
    && f0 == k.orig[k.s] && (k.cut > 0 ==> 0 < a[k.s].len < k.block)
  }

  lemma ShrunkOk(a: seq<IoVec>, k: Cursor, f0: IoVec)
    requires StartsAt(a, k, f0) && Shrunk(W(k), k.block, k.c, k.rem)
    ensures var i := k.s + k.c - 1;
            && k.rem <= a[i].len
            && Good(a[i := IoVec(a[i].base, a[i].len - k.rem)], k, f0, a[i])
  {
    hide Total, Addrs, Full, Proper, Shrunk, FirstPart;
    ShrunkFull(k);
    ShrunkWindow(a, k);
    ShortIsLast(k);
  }

  lemma ShrunkFull(k: Cursor)
    requires k.block > 0 && k.s < k.end <= |k.orig| && k.cut <= k.orig[k.s].len
    requires (k.cut > 0 ==> k.cut < k.orig[k.s].len) && Shrunk(W(k), k.block, k.c, k.rem)
    ensures InRange(k) && Proper(k) && Full(k)
  {
    hide Total, Addrs, FirstPart;
    var w := W(k);
    TotalStep(w, k.c - 1);
    FirstPartTotal(w, k.c, k.rem);
    TotalWhole(w);
  }

  // One element that is shorter than a block is a view only if it is the last.
  lemma ShortIsLast(k: Cursor)
    requires k.s < k.end <= |k.orig| && k.cut <= k.orig[k.s].len && Shrunk(W(k), k.block, k.c, k.rem)
    ensures k.c == 1 && W(k)[0].len < k.block ==> Total(W(k)) < k.block && k.rem == 0
  {
    TotalOne(W(k));
  }

  lemma WindowIs(a: seq<IoVec>, k: Cursor, f0: IoVec)
    requires StartsAt(a, k, f0)
    ensures k.block > 0 && k.s < k.end <= |k.orig| == |a| && k.cut <= k.orig[k.s].len && a[k.s..k.end] == W(k)
  {
    forall i | 0 <= i < k.end - k.s ensures a[k.s..k.end][i] == W(k)[i] { }
  }

  lemma StillStartsAt(a: seq<IoVec>, k: Cursor, m: Cursor, f0: IoVec)
    requires StartsAt(a, k, f0) && m == k.(c := m.c, rem := m.rem)
    ensures StartsAt(a, m, f0) && W(m) == W(k)
  {
  }

  lemma ShrunkSome(w: seq<IoVec>, block: nat, c: nat, excess: nat)
    requires Shrunk(w, block, c, excess) && block > 0 && w != []
    ensures 0 < c <= |w|
  {
  }

  lemma ShrunkWindow(a: seq<IoVec>, k: Cursor)
    requires InRange(k) && |a| == |k.orig|
    requires forall i :: k.s <= i < k.end ==> a[i] == W(k)[i - k.s]
    ensures var i := k.s + k.c - 1;
            && k.rem <= a[i].len
            && a[i := IoVec(a[i].base, a[i].len - k.rem)][k.s..k.s + k.c] == FirstPart(W(k), k.c, k.rem)
  {
  }

  lemma TotalOne(w: seq<IoVec>)
    requires w != []
    ensures Total(w[..0]) == 0 && Total(w[..1]) == w[0].len <= Total(w)
  {
    TotalStep(w, 0);
  }

  // ----- next() -----------------------------------------------------------------------

  // All of the view's elements are finished: putting the saved ones back
  // restores the vector, unless the last one was not saved.
  lemma AllFinished(a: seq<IoVec>, k: Cursor, f0: IoVec, b0: IoVec)
    requires Good(a, k, f0, b0) && k.rem == 0
    ensures var a1 := if k.c > 1 then a[k.s := f0] else a;
            var a2 := a1[k.s + k.c - 1 := b0];
            && (a2 == k.orig <==> !Unsaved(k))
            && (Unsaved(k) ==> k.s + k.c == k.end)
    ensures LastPart(W(k), k.c, k.rem) == Todo(k.orig, k.s + k.c, 0, k.end)
  {
    hide Total, Addrs, Rewritten, Full, FirstPart;
    FullShort(k);
    FrontIs(a, k);
    NextTodo(k);
    var a1 := if k.c > 1 then a[k.s := f0] else a;
    var a2 := a1[k.s + k.c - 1 := b0];
    forall i | 0 <= i < |a| && i != k.s ensures a[i] == k.orig[i] { Kept(a, k, i); }
    assert Unsaved(k) ==> a2[k.s] != k.orig[k.s];
  }

  lemma NextTodo(k: Cursor)
    requires InRange(k)
    ensures W(k)[k.c..] == Todo(k.orig, k.s + k.c, 0, k.end)
  {
    assert W(k)[k.c..] == k.orig[k.s + k.c..k.end];
  }

  lemma FullShort(k: Cursor)
    requires InRange(k) && Full(k)
    ensures Unsaved(k) ==> k.s + k.c == k.end && k.rem == 0
  {
  }

  lemma FrontIs(a: seq<IoVec>, k: Cursor)
    requires InRange(k) && Rewritten(a, k)
    ensures |a| == |k.orig| && (k.c > 1 || k.rem == 0 ==> a[k.s] == W(k)[0])
  {
    assert a[k.s] == a[k.s..k.s + k.c][0];
  }

  // Only the ends of the view are rewritten.
  lemma Kept(a: seq<IoVec>, k: Cursor, i: nat)
    requires InRange(k) && Rewritten(a, k) && i < |a| && i != k.s && (k.rem == 0 || i != k.s + k.c - 1)
    ensures a[i] == k.orig[i]
  {
    if k.s < i < k.s + k.c { assert a[i] == a[k.s..k.s + k.c][i - k.s]; }
  }

  // The view ends inside an element: what remains begins there.
  ghost function Onward(k: Cursor): Cursor
    requires InRange(k)
  {
    var i := k.s + k.c - 1;
    var done := W(k)[k.c - 1].len - k.rem + if k.c == 1 then k.cut else 0;
    k.(s := i, c := 1, cut := done)
  }

  lemma InsideElement(a: seq<IoVec>, k: Cursor, f0: IoVec, b0: IoVec)
    requires Good(a, k, f0, b0) && k.rem > 0
    ensures !Unsaved(k)
    ensures var a1 := if k.c > 1 then a[k.s := f0] else a;
            var i, m := k.s + k.c - 1, Onward(k);
            && InRange(m.(rem := 0)) && W(m.(rem := 0)) == LastPart(W(k), k.c, k.rem)
            && m.cut <= k.orig[i].len
            && k.orig[i].len - m.cut == k.rem
            && a1[i].base + a1[i].len == k.orig[i].base + m.cut
            && forall j :: 0 <= j < |a| && j != i ==> a1[j] == k.orig[j]
  {
    hide Total, Addrs;
    var a1 := if k.c > 1 then a[k.s := f0] else a;
    var w, i := W(k), k.s + k.c - 1;
    var p := FirstPart(w, k.c, k.rem);
    assert a[i] == a[k.s..k.s + k.c][k.c - 1] == p[k.c - 1];
    forall j | 0 <= j < |a| && j != i && j != k.s ensures a1[j] == k.orig[j] { Kept(a, k, j); }
  }

  class SplitView {
    const v: View
    const end: nat
    const blockSize: nat
    var f0: IoVec
    var b0: IoVec
    var remaining: nat
    var count: nat
    ghost const orig: seq<IoVec>
    ghost var cut: nat

    constructor (iov: array<IoVec>, n: nat, block: nat)
      requires 0 < n <= iov.Length && block > 0
      modifies iov
      ensures fresh(v) && v.iov == iov && end == n && blockSize == block && orig == old(iov[..])
      ensures Valid() && v.start == 0 && cut == 0 && Rest() == old(Addrs(iov[..n])) && count == Total(old(iov[..n])) == |Rest()|
    {
      end, blockSize, orig, cut := n, block, iov[..], 0;
      v := new View(iov, n);
      remaining, b0, f0 := 0, iov[0], iov[0];
      new;
      hide Total, Addrs, Good;
      count := v.Sum();
      assert W(At()) == orig[..n];
      DoShrink();
    }

    ghost function At(): Cursor
      reads this, v
    { Cursor(orig, v.start, v.cnt, cut, end, remaining, blockSize) }

    ghost predicate Valid()
      reads this, v, v.iov
    { blockSize > 0 && end <= |orig| == v.iov.Length && v.Valid() && (if v.start == end then v.cnt == 0 else Good(v.iov[..], At(), f0, b0)) }

    // What is still to be handed out, current view included.
    ghost function Rest(): seq<nat>
      requires Valid()
      reads this, v, v.iov
    { if v.start == end then [] else Addrs(W(At())) }

    method DoShrink()
      requires v.start + v.cnt == end && v.Valid() && StartsAt(v.iov[..], At(), f0)
      modifies this`remaining, this`b0, v`cnt, v.iov
      ensures v.start == old(v.start) && v.Valid() && Good(v.iov[..], At(), f0, b0)
    {
      hide Total, Addrs, Good, Shrunk, StartsAt, Todo;
      ghost var k, a := At(), v.iov[..];
      WindowIs(a, k, f0);
      assert v.Elems() == a[v.start..end];
      remaining := v.ShrinkLessThan(blockSize);
      ShrunkSome(W(k), blockSize, v.cnt, remaining);
      b0 := v.iov[v.start + v.cnt - 1];
      StillStartsAt(a, k, At(), f0);
      ShrunkOk(a, At(), f0);
      v.iov[v.start + v.cnt - 1] := IoVec(b0.base, b0.len - remaining);
      assert v.iov[..] == a[v.start + v.cnt - 1 := IoVec(b0.base, b0.len - remaining)];
    }

    // next() when the view ends with its last element.
    method NextElement()
      requires Valid() && v.start < end && remaining == 0
      modifies this, v, v.iov
      ensures Valid() && Rest() == Addrs(LastPart(old(W(At())), old(v.cnt), 0))
      ensures Rest() == [] ==> (v.iov[..] == orig <==> !old(Unsaved(At())))
    {
      hide Total, Addrs, Good, Rewritten, Full, Saved, Unsaved, LastPart;
      GoodRange(v.iov[..], At(), f0, b0);
      ghost var a, k := v.iov[..], At();
      AllFinished(a, k, f0, b0);
      var i := v.start + v.cnt - 1;
      if v.cnt > 1 { v.iov[v.start] := f0; }
      v.iov[i] := b0;
      assert v.iov[..] == (if k.c > 1 then a[k.s := f0] else a)[i := b0];
      v.start := v.start + v.cnt;
      v.cnt, cut := end - v.start, 0;
      if v.start < end {
        assert v.iov[..] == orig;
        f0 := v.iov[v.start];
        DoShrink();
        Untouched(v.iov[..], At(), f0, b0);
      } else {
        AddrsNone();
      }
    }

    // next() when the view ends inside an element.
    method NextInside()
      requires Valid() && v.start < end && remaining > 0
      modifies this, v, v.iov
      ensures Valid() && v.start < end && Rest() == Addrs(LastPart(old(W(At())), old(v.cnt), old(remaining)))
    {
      hide Total, Addrs, Good, Rewritten, Full, Saved, Unsaved, LastPart;
      GoodRange(v.iov[..], At(), f0, b0);
      ghost var a, k := v.iov[..], At();
      InsideElement(a, k, f0, b0);
      BackSaved(a, k, f0, b0);
      var i := v.start + v.cnt - 1;
      if v.cnt > 1 { v.iov[v.start] := f0; }
      var base := v.iov[i].base + v.iov[i].len;
      v.start := i;
      cut := Onward(k).cut;
      if remaining < blockSize {
        v.iov[i] := IoVec(base, remaining);
        v.cnt := end - i;
        f0 := b0;
        DoShrink();
      } else {
        v.iov[i] := IoVec(base, blockSize);
        v.cnt := 1;
        remaining := remaining - blockSize;
        WholeBlock(v.iov[..], At(), f0, b0);
      }
    }

    // The next block: what is to be handed out loses exactly the current view.
    method Next()
      requires Valid() && v.start < end
      modifies this, v, v.iov
      ensures Valid() && old(Addrs(v.Elems())) + Rest() == old(Rest())
      ensures Rest() == [] ==> (v.iov[..] == orig <==> !old(Unsaved(At())))
    {
      hide *;
      ViewIsFirst();
      if remaining == 0 {
        NextElement();
      } else {
        NextInside();
      }
    }

    // split_io over the views: io(i, len) is what the i-th I/O, on len bytes, returns.
    method SplitIo(io: (nat, nat) -> int) returns (ret: int, ghost views: seq<seq<nat>>)
      requires Valid() && v.start == 0 < end && cut == 0 && count == |Rest()|
      requires forall i: nat, len: nat :: -1 <= io(i, len) <= len
      modifies this, v, v.iov
      ensures InBlocks(views, old(Rest()), blockSize) && views != [] && 0 < end <= |orig| && blockSize > 0
      ensures CompleteBefore(views, io) && Outcome(views, io(|views| - 1, |views[|views| - 1]|), ret, old(Rest()))
      ensures v.iov[..] == orig
              <==> PutBack(orig, end, blockSize, old(count), views, io(|views| - 1, |views[|views| - 1]|))
    {
      hide Addrs, Total, Good, InBlocks, Flatten, W, Restorable, Unsaved, AtBoundaries;
      ghost var all := Rest();
      views := [];
      NoViews(all, blockSize);
      FreshTotal();
      if count <= blockSize {
        ret := io(0, count);
        EarlyExit(|all|);
        views := OneView(views, all);
        return;
      }
      ret, views := SplitLoop(io, all);
    }

    // The loop of split_io.
    method SplitLoop(io: (nat, nat) -> int, ghost all: seq<nat>) returns (ret: int, ghost views: seq<seq<nat>>)
      requires Valid() && v.start < end && count == |all| > blockSize && all == Rest()
      requires end <= |orig| && |all| == Total(orig[..end])
      requires forall i: nat, len: nat :: -1 <= io(i, len) <= len
      modifies this, v, v.iov
      ensures InBlocks(views, all, blockSize) && views != [] && 0 < end <= |orig| && blockSize > 0
      ensures CompleteBefore(views, io) && Outcome(views, io(|views| - 1, |views[|views| - 1]|), ret, all)
      ensures v.iov[..] == orig
              <==> PutBack(orig, end, blockSize, |all|, views, io(|views| - 1, |views[|views| - 1]|))
    {
      hide *;
      views := [];
      Facts();
      NoViews(all, blockSize);
      var cnt, left, round := 0, count, 0;
      while left > 0
        invariant Valid() && left == |Rest()| && cnt == |all| - left && round == |views|
        invariant InBlocks(views, all, blockSize) && all == Flatten(views) + Rest()
        invariant blockSize > 0 && 0 < end <= |orig| && (left > 0 ==> v.start < end && left % blockSize == |all| % blockSize)
        invariant forall i :: 0 <= i < |views| ==> io(i, |views[i]|) == |views[i]|
        invariant left == 0 ==> views != [] && (v.iov[..] == orig <==> Restorable(orig, end, |all|, blockSize))
      {
        var len := if left > blockSize then blockSize else left;
        var r := io(round, len);
        Facts();
        ghost var x, before := Addrs(v.Elems()), Flatten(views);
        views := OneView(views, all);
        if r < len {
          if r >= 0 { ret := r + cnt; } else { ret := -1; }
          OutcomeIs(views, r, ret, all);
          EarlyExit(|all|);
          PutBackIs(orig, end, blockSize, |all|, views, r);
          CompleteIs(views, io);
          return;
        }
        NextRound(len, |all|);
        Regroup(before, x, Rest());
        left, cnt, round := left - r, cnt + r, round + 1;
      }
      ret := cnt;
      assert Flatten(views) == all;
      OutcomeIs(views, io(round - 1, |views[round - 1]|), ret, all);
      PutBackIs(orig, end, blockSize, |all|, views, io(round - 1, |views[round - 1]|));
      CompleteIs(views, io);
    }

    // Stopping after the current view, total - |Rest()| bytes from the start.
    lemma EarlyExit(total: nat)
      requires Valid() && v.start < end && end <= |orig| && total == Total(orig[..end])
      ensures v.Valid()
      ensures v.iov[..] == orig <==> AtBoundaries(orig, end, total - |Rest()|, |Addrs(v.Elems())|)
    {
      hide Addrs, Total, Rewritten, Full, Saved, Proper, Boundary;
      EarlyEnd(v.iov[..], At(), f0, b0);
      Offsets(At());
      ViewIs(v.iov[..], At(), f0, b0);
    }

    lemma FreshTotal()
      requires Valid() && v.start == 0 < end && cut == 0
      ensures end <= |orig| && |Rest()| == Total(orig[..end])
    {
      assert W(At()) == orig[..end];
    }

    lemma Facts()
      requires Valid()
      ensures v.Valid() && blockSize > 0 && end <= |orig|
    {
    }

    // The current view, seen as the next block of the whole.
    lemma OneView(views: seq<seq<nat>>, all: seq<nat>) returns (more: seq<seq<nat>>)
      requires Valid() && v.start < end && InBlocks(views, all, blockSize) && all == Flatten(views) + Rest()
      ensures more == views + [Addrs(v.Elems())] && InBlocks(more, all, blockSize)
      ensures Flatten(more) == Flatten(views) + Addrs(v.Elems()) && |Addrs(v.Elems())| == if |Rest()| > blockSize then blockSize else |Rest()|
      ensures |Rest()| <= blockSize ==> Flatten(more) == all
    {
      hide Addrs, Total, Good, InBlocks, Flatten, W, LastPart;
      ViewIsFirst();
      more := views + [Addrs(v.Elems())];
      OneMore(views, Addrs(v.Elems()), Addrs(LastPart(W(At()), v.cnt, remaining)), all, blockSize);
    }

    // Handing out the current view and moving on.
    method NextRound(len: nat, ghost total: nat)
      requires Valid() && v.start < end && len == (if |Rest()| > blockSize then blockSize else |Rest()|) && len > 0
      requires |Rest()| % blockSize == total % blockSize
      modifies this, v, v.iov
      ensures Valid() && old(Addrs(v.Elems())) + Rest() == old(Rest()) && |Rest()| == |old(Rest())| - len
      ensures Rest() != [] ==> v.start < end && |Rest()| % blockSize == total % blockSize
      ensures Rest() == [] ==> (v.iov[..] == orig <==> Restorable(orig, end, total, blockSize))
    {
      hide Addrs, Total, Good, W, Unsaved, Restorable, LastPart;
      ViewIsFirst();
      ghost var n := |Rest()|;
      if n <= blockSize {
        TotalWhole(W(At()));
        UnsavedIff(v.iov[..], At(), f0, b0, total);
      } else {
        DivModShift(n - blockSize, blockSize, 1);
      }
      Next();
    }

    // The view holds the first bytes of what is to be handed out, a full block
    // or all of it.
    lemma ViewIsFirst()
      requires Valid() && v.start < end
      ensures InRange(At()) && v.Valid() && v.cnt == At().c && remaining == At().rem
      ensures Addrs(v.Elems()) + Addrs(LastPart(W(At()), v.cnt, remaining)) == Rest()
      ensures Total(v.Elems()) == |Addrs(v.Elems())| == Min(blockSize, |Rest()|)
      ensures remaining > 0 ==> Addrs(LastPart(W(At()), v.cnt, remaining)) != []
    {
      PartsAreWhole(W(At()), v.cnt, remaining);
    }
  }

  // ----- split_io ---------------------------------------------------------------------

  ghost function Flatten(views: seq<seq<nat>>): seq<nat> {
    if views == [] then [] else Flatten(views[..|views| - 1]) + views[|views| - 1]
  }

  // The views follow each other through s; each is a full block or all that is left.
  ghost predicate InBlocks(views: seq<seq<nat>>, s: seq<nat>, block: nat) {
    && Flatten(views) <= s
    && forall i :: 0 <= i < |views| ==> |views[i]| == Min(block, |s| - |Flatten(views[..i])|)
  }

  lemma FlattenMore(views: seq<seq<nat>>, x: seq<nat>)
    ensures Flatten(views + [x]) == Flatten(views) + x
  {
    assert (views + [x])[..|views|] == views;
  }

  lemma OneMore(views: seq<seq<nat>>, x: seq<nat>, rest: seq<nat>, s: seq<nat>, block: nat)
    requires InBlocks(views, s, block) && s == Flatten(views) + (x + rest) && |x| == Min(block, |x| + |rest|)
    ensures InBlocks(views + [x], s, block) && s == Flatten(views + [x]) + rest
    ensures Flatten(views + [x]) == Flatten(views) + x
  {
    hide Flatten;
    var more := views + [x];
    FlattenMore(views, x);
    forall i | 0 <= i < |more| ensures |more[i]| == Min(block, |s| - |Flatten(more[..i])|) {
      assert more[..i] == views[..i];
      if i == |views| { assert views[..i] == views; }
    }
  }

  lemma Regroup(a: seq<nat>, b: seq<nat>, c: seq<nat>)
    ensures a + (b + c) == (a + b) + c
  {
  }

  lemma NoViews(s: seq<nat>, block: nat)
    ensures InBlocks([], s, block) && s == Flatten([]) + s
  {
  }

  // How a run ends: the result of the I/O on the last view decides.
  ghost predicate Outcome(views: seq<seq<nat>>, last: int, ret: int, s: seq<nat>) {
    && views != []
    && var len := |views[|views| - 1]|;
       && last <= len
       && (last == len ==> ret == |s| && Flatten(views) == s)
       && (last < len ==> ret == if last < 0 then -1 else |Flatten(views)| - len + last)
  }

  lemma OutcomeIs(views: seq<seq<nat>>, last: int, ret: int, s: seq<nat>)
    requires views != [] && last <= |views[|views| - 1]|
    requires last == |views[|views| - 1]| ==> ret == |s| && Flatten(views) == s
    requires last < |views[|views| - 1]| ==>
               ret == if last < 0 then -1 else |Flatten(views)| - |views[|views| - 1]| + last
    ensures Outcome(views, last, ret, s)
  {
  }

  // The vector as the caller gave it comes back exactly when there is no last,
  // short block that lies inside the last element.
  ghost predicate Restorable(orig: seq<IoVec>, end: nat, total: nat, block: nat)
    requires 0 < end <= |orig| && block > 0
  { !(0 < total % block < orig[end - 1].len) }

  // All I/Os before the last one were complete.
  ghost predicate CompleteBefore(views: seq<seq<nat>>, io: (nat, nat) -> int) {
    forall i :: 0 <= i < |views| - 1 ==> io(i, |views[i]|) == |views[i]|
  }

  // Whether the vector comes back as it was: after a complete run over several
  // blocks as above; otherwise nothing is put back after the last view, so that
  // view has to begin and end where elements of the vector do.
  ghost predicate PutBack(orig: seq<IoVec>, end: nat, block: nat, total: nat, views: seq<seq<nat>>, last: int)
    requires 0 < end <= |orig| && block > 0 && views != []
  {
    var len := |views[|views| - 1]|;
    if total > block && last == len then Restorable(orig, end, total, block)
    else AtBoundaries(orig, end, |Flatten(views)| - len, len)
  }

  ghost predicate AtBoundaries(orig: seq<IoVec>, end: nat, from: int, len: nat)
    requires end <= |orig|
  { from >= 0 && Boundary(orig[..end], from) && Boundary(orig[..end], from + len) }

  lemma UnsavedIff(a: seq<IoVec>, k: Cursor, f0: IoVec, b0: IoVec, total: nat)
    requires Good(a, k, f0, b0) && 0 < Total(W(k)) <= k.block && Total(W(k)) % k.block == total % k.block
    ensures Unsaved(k) <==> !Restorable(k.orig, k.end, total, k.block)
  {
    hide Total, Addrs, Rewritten, Saved, FirstPart, Proper;
    SmallMod(Total(W(k)), k.block);
    LastOfAll(k);
  }

  lemma SmallMod(t: nat, block: nat)
    requires 0 < t <= block
    ensures t % block == if t < block then t else 0
  {
    DivModUnique(t, block, if t < block then 0 else 1, if t < block then t else 0);
  }

  // If the view takes all elements that are left, the last of them is longer
  // than all that is left exactly if it is the only one and was cut.
  lemma LastOfAll(k: Cursor)
    requires InRange(k)
    ensures k.c == k.end - k.s ==> (Total(W(k)) < k.orig[k.end - 1].len <==> k.c == 1 && k.cut > 0)
  {
    hide Total, Addrs;
    var w := W(k);
    TotalStep(w, k.c - 1);
    if k.c == 1 { TotalOne(w); if |w| == 1 { assert w[..1] == w; } }
  }

  // ----- an early end ---------------------------------------------------------------------

  lemma BetweenBoundaries(v: seq<IoVec>, i: nat, x: nat)
    requires i < |v| && Total(v[..i]) < x < Total(v[..i + 1])
    ensures !Boundary(v, x)
  {
    hide Total, Addrs;
    forall j | 0 <= j <= |v| ensures Total(v[..j]) != x {
      if j <= i { TotalMono(v, j, i); } else { TotalMono(v, i + 1, j); }
    }
  }

  // The bytes handed out before the current view, and up to its end.
  ghost function Before(k: Cursor): nat
    requires InRange(k)
  { Total(k.orig[..k.s]) + k.cut }

  ghost function UpTo(k: Cursor): nat
    requires InRange(k)
  { Before(k) + Total(FirstPart(W(k), k.c, k.rem)) }

  lemma Offsets(k: Cursor)
    requires InRange(k)
    ensures Before(k) + Total(W(k)) == Total(k.orig[..k.end])
    ensures UpTo(k) == Total(k.orig[..k.s + k.c]) - k.rem
  {
    hide Total, Addrs;
    OffsetsTo(k, k.end - k.s);
    OffsetsTo(k, k.c);
    FirstPartTotal(W(k), k.c, k.rem);
    assert W(k)[..|W(k)|] == W(k);
  }

  // Leading elements of what is to be handed out, and of the original.
  lemma {:induction false} OffsetsTo(k: Cursor, n: nat)
    requires InRange(k) && n <= k.end - k.s
    ensures n > 0 ==> Before(k) + Total(W(k)[..n]) == Total(k.orig[..k.s + n])
    decreases n
  {
    hide Total, Addrs;
    if n > 0 {
      TotalStep(W(k), n - 1);
      TotalStep(k.orig, k.s + n - 1);
      if n > 1 { OffsetsTo(k, n - 1); } else { AddrsNone(); assert W(k)[..0] == []; }
    }
  }

  // The current view begins and ends where elements of the original do exactly
  // when it does not cut any.
  lemma CutsAre(k: Cursor)
    requires InRange(k) && Proper(k)
    ensures Boundary(k.orig[..k.end], Before(k)) <==> k.cut == 0
    ensures Boundary(k.orig[..k.end], UpTo(k)) <==> k.rem == 0
  {
    hide Total, Addrs, W, FirstPart;
    var v, e := k.orig[..k.end], k.s + k.c;
    Offsets(k);
    assert v[..k.s] == k.orig[..k.s] && v[..k.s + 1] == k.orig[..k.s + 1];
    assert v[..e] == k.orig[..e] && v[..e - 1] == k.orig[..e - 1];
    TotalStep(k.orig, k.s);
    TotalStep(k.orig, e - 1);
    if k.cut > 0 { BetweenBoundaries(v, k.s, Before(k)); } else { assert Total(v[..k.s]) == Before(k); }
    if k.rem > 0 { LastLength(k); BetweenBoundaries(v, e - 1, UpTo(k)); } else { assert Total(v[..e]) == UpTo(k); }
  }

  lemma LastLength(k: Cursor)
    requires InRange(k)
    ensures W(k)[k.c - 1].len <= k.orig[k.s + k.c - 1].len
  {
  }

  // Left as it is after the current view, the vector is the original exactly if
  // the view begins and ends at element boundaries.
  lemma EarlyEnd(a: seq<IoVec>, k: Cursor, f0: IoVec, b0: IoVec)
    requires Good(a, k, f0, b0)
    ensures a == k.orig <==> Boundary(k.orig[..k.end], Before(k)) && Boundary(k.orig[..k.end], UpTo(k))
  {
    hide Total, Addrs, Full, Saved, Boundary;
    CutsAre(k);
    var w, i := W(k), k.s + k.c - 1;
    var p := FirstPart(w, k.c, k.rem);
    assert a[k.s] == a[k.s..k.s + k.c][0] == p[0];
    assert a[i] == a[k.s..k.s + k.c][k.c - 1] == p[k.c - 1];
    if k.cut == 0 && k.rem == 0 {
      forall j | 0 <= j < |a| ensures a[j] == k.orig[j] { if j != k.s { Kept(a, k, j); } }
    }
  }

  lemma CompleteIs(views: seq<seq<nat>>, io: (nat, nat) -> int)
    requires forall i :: 0 <= i < |views| - 1 ==> io(i, |views[i]|) == |views[i]|
    ensures CompleteBefore(views, io)
  {
  }

  lemma ViewIs(a: seq<IoVec>, k: Cursor, f0: IoVec, b0: IoVec)
    requires Good(a, k, f0, b0)
    ensures k.s + k.c <= |a| && Total(a[k.s..k.s + k.c]) == Total(FirstPart(W(k), k.c, k.rem))
  {
  }

  lemma PutBackIs(orig: seq<IoVec>, end: nat, block: nat, total: nat, views: seq<seq<nat>>, last: int)
    requires 0 < end <= |orig| && block > 0 && views != [] && total > block
    ensures last == |views[|views| - 1]| ==> (PutBack(orig, end, block, total, views, last) <==> Restorable(orig, end, total, block))
    ensures last < |views[|views| - 1]| ==>
              (PutBack(orig, end, block, total, views, last)
               <==> AtBoundaries(orig, end, |Flatten(views)| - |views[|views| - 1]|, |views[|views| - 1]|))
  {
  }

  lemma GoodRange(a: seq<IoVec>, k: Cursor, f0: IoVec, b0: IoVec)
    requires Good(a, k, f0, b0)
    ensures InRange(k) && |a| == |k.orig|
  {
  }

  lemma BackSaved(a: seq<IoVec>, k: Cursor, f0: IoVec, b0: IoVec)
    requires Good(a, k, f0, b0) && k.rem > 0
    ensures b0 == k.orig[k.s + k.c - 1]
  {
  }

  // Nothing left to hand out from whole elements: nothing is rewritten.
  lemma Untouched(a: seq<IoVec>, k: Cursor, f0: IoVec, b0: IoVec)
    requires Good(a, k, f0, b0) && k.cut == 0
    ensures Addrs(W(k)) == [] ==> a == k.orig
  {
    hide Addrs, Total, Saved, Unsaved;
    if Addrs(W(k)) == [] {
      var w := W(k);
      TotalWhole(w);
      assert FirstPart(w, k.c, 0) == w;
      forall i | k.s <= i < k.s + k.c ensures a[i] == k.orig[i] {
        assert a[i] == a[k.s..k.s + k.c][i - k.s] == w[i - k.s];
      }
    }
  }

  // A view of one block inside one element.
  lemma WholeBlock(a: seq<IoVec>, k: Cursor, f0: IoVec, b0: IoVec)
    requires InRange(k) && k.c == 1 && |a| == |k.orig| && W(k)[0].len == k.block + k.rem
    requires forall i :: 0 <= i < |a| && i != k.s ==> a[i] == k.orig[i]
    requires a[k.s] == IoVec(W(k)[0].base, k.block) && b0 == k.orig[k.s]
    ensures Good(a, k, f0, b0)
  {
    var w := W(k);
    TotalOne(w);
    FirstPartTotal(w, 1, k.rem);
    assert w[..1] == [w[0]];
  }

  // ----- the whole operation ------------------------------------------------------------

  // A vectored I/O in blocks: the views are the vector cut into full blocks and
  // a last one, up to the first I/O that is short, and the vector comes back as
  // it was if and only if PutBack.
  method SplitVectoredIo(iov: array<IoVec>, n: nat, block: nat, io: (nat, nat) -> int)
    returns (ret: int, ghost views: seq<seq<nat>>)
    requires 0 < n <= iov.Length && block > 0
    requires forall i: nat, len: nat :: -1 <= io(i, len) <= len
    modifies iov
    ensures InBlocks(views, old(Addrs(iov[..n])), block) && views != []
    ensures CompleteBefore(views, io)
    ensures Outcome(views, io(|views| - 1, |views[|views| - 1]|), ret, old(Addrs(iov[..n])))
    ensures iov[..] == old(iov[..])
            <==> PutBack(old(iov[..]), n, block, old(Total(iov[..n])), views, io(|views| - 1, |views[|views| - 1]|))
  {
    hide *;
    ghost var all := Addrs(iov[..n]);
    var s := new SplitView(iov, n, block);
    s.Facts();
    ret, views := s.SplitIo(io);
  }

  // One element of ten bytes in blocks of four is not put back.
  method NotRestored() returns (before: seq<IoVec>, after: seq<IoVec>)
    ensures before != after
  {
    hide Addrs, InBlocks;
    var iov := new IoVec[1](_ => IoVec(0, 10));
    before := iov[..];
    assert before[..1] == [IoVec(0, 10)];
    assert Total(before[..1]) == 10 by { assert before[..1][1..] == []; }
    var ret, views := SplitVectoredIo(iov, 1, 4, (i: nat, len: nat) => len);
    after := iov[..];
  }

  // One element of eight bytes in blocks of four, if the first I/O fails: there
  // is no short block, but the element stays cut.
  method NotRestoredOnError() returns (before: seq<IoVec>, after: seq<IoVec>)
    ensures before != after
  {
    hide Addrs;
    var iov := new IoVec[1](_ => IoVec(0, 8));
    before := iov[..];
    assert before == [IoVec(0, 8)] && before[..1] == before;
    OneElement(before, 8, 4);
    var ret, views := SplitVectoredIo(iov, 1, 4, (i: nat, len: nat) => -1);
    OnlyOne(views, (i: nat, len: nat) => -1);
    FirstView(views, Addrs(before), 4);
    after := iov[..];
  }

  lemma OneElement(v: seq<IoVec>, len: nat, x: nat)
    requires |v| == 1 && v[0].len == len && 0 < x < len
    ensures Total(v) == len && !Boundary(v, x)
  {
    assert v[1..] == [] && v[..0] == [] && v[..1] == v;
    BetweenBoundaries(v, 0, x);
  }

  lemma OnlyOne(views: seq<seq<nat>>, io: (nat, nat) -> int)
    requires views != [] && CompleteBefore(views, io) && io(0, |views[0]|) < |views[0]|
    ensures |views| == 1
  {
  }

  lemma FirstView(views: seq<seq<nat>>, s: seq<nat>, block: nat)
    requires InBlocks(views, s, block) && views != []
    ensures |views[0]| == Min(block, |s|) && (|views| == 1 ==> Flatten(views) == views[0])
  {
    assert views[..0] == [];
  }
}
