// Several files presented as one: fs/xfile.cpp.  Linear files are laid end to
// end (units of a fixed size, or whatever sizes the files have), striped files
// take turns block by block.
module XFile {
  import opened FlatFile
  import R = RangeSplit
  import opened Arith

  // n files behind one space that is cut into blocks by sp.
  datatype Layout = Layout(sp: R.Splitter, striped: bool, n: nat)

  predicate LayoutOk(l: Layout) {
    && R.Valid(l.sp) && l.n > 0 && (l.striped ==> l.sp.Power2?)
    && (l.sp.KeyPoints? ==> |l.sp.points| == l.n + 2)
  }

  // Which file a part lies in, and where.
  function Place(l: Layout, x: R.SubRange): (nat, nat)
    requires LayoutOk(l)
  {
    if l.striped then (x.i % l.n, R.Start(l.sp, x.i / l.n) + x.offset) else (x.i, x.offset)
  }

  // ----- the place of every byte -----------------------------------------------------

  // The block that holds x.
  ghost function BlockOf(sp: R.Splitter, x: nat, i: nat): (d: nat)
    requires R.Valid(sp) && R.Covers(sp, x) && R.HasBlock(sp, i) && R.Start(sp, i) <= x
    ensures R.InBlock(sp, d, x)
    decreases x - R.Start(sp, i)
  {
    R.StartStep(sp, i);
    if x < R.Start(sp, i + 1) then i else BlockOf(sp, x, i + 1)
  }

  lemma StartZero(sp: R.Splitter)
    requires R.Valid(sp)
    ensures R.Start(sp, 0) == 0 && R.HasBlock(sp, 0)
  {
    if sp.Power2? { R.ShlIsMul(0, sp.shift); }
  }

  // Byte x of the whole is byte .1 of file .0.
  ghost function Locate(l: Layout, x: nat): (nat, nat)
    requires LayoutOk(l) && R.Covers(l.sp, x)
  {
    StartZero(l.sp);
    var d := BlockOf(l.sp, x, 0);
    Place(l, R.SubRange(d, x - R.Start(l.sp, d), 0))
  }

  // The bytes of a part lie side by side in its file.
  lemma LocatePart(l: Layout, p: R.SubRange, j: nat)
    requires LayoutOk(l) && R.HasBlock(l.sp, p.i) && p.offset + j < R.GetLength(l.sp, p.i)
    requires R.Covers(l.sp, R.Flat(l.sp, p) + j)
    ensures Locate(l, R.Flat(l.sp, p) + j) == (Place(l, p).0, Place(l, p).1 + j)
  {
    hide R.Start, R.GetLength;
    var x := R.Flat(l.sp, p) + j;
    StartZero(l.sp);
    R.BlockOrder(l.sp, x, BlockOf(l.sp, x, 0), x, p.i);
  }

  // Units of a fixed size: unit x / u, byte x % u of it.
  lemma LocateFixed(l: Layout, x: nat)
    requires LayoutOk(l) && !l.striped && !l.sp.KeyPoints?
    ensures var u := R.GetLength(l.sp, 0); Locate(l, x) == (x / u, x % u)
  {
    StartZero(l.sp);
    BlockIsQuotient(l.sp, x, BlockOf(l.sp, x, 0));
  }

  // Stripes: block x / s goes to file (x / s) % n, as its block (x / s) / n.
  lemma LocateStripe(l: Layout, x: nat)
    requires LayoutOk(l) && l.striped
    ensures var s := R.Pow2(l.sp.shift); Locate(l, x) == ((x / s) % l.n, x / s / l.n * s + x % s)
  {
    hide R.Pow2, R.Shl;
    StartZero(l.sp);
    BlockIsQuotient(l.sp, x, BlockOf(l.sp, x, 0));
    R.ShlIsMul(x / R.Pow2(l.sp.shift) / l.n, l.sp.shift);
  }

  // Files end to end: the file between whose key points x lies.
  lemma LocateLinear(l: Layout, x: nat, i: nat)
    requires LayoutOk(l) && !l.striped && l.sp.KeyPoints? && i + 1 < |l.sp.points|
    requires l.sp.points[i] <= x < l.sp.points[i + 1]
    ensures R.Covers(l.sp, x) && Locate(l, x) == (i, x - l.sp.points[i])
  {
    if i + 2 < |l.sp.points| { R.AscendingPair(l.sp.points, i + 1, |l.sp.points| - 1); }
    StartZero(l.sp);
    R.BlockOrder(l.sp, x, BlockOf(l.sp, x, 0), x, i);
  }

  lemma BlockIsQuotient(sp: R.Splitter, x: nat, d: nat)
    requires R.Valid(sp) && !sp.KeyPoints? && R.InBlock(sp, d, x)
    ensures d == x / R.GetLength(sp, 0) && x - R.Start(sp, d) == x % R.GetLength(sp, 0)
  {
    var u := R.GetLength(sp, 0);
    if sp.Power2? { R.ShlIsMul(d, sp.shift); } else { R.TimesIsMul(d, u); }
    DivModUnique(x, u, d, x - R.Start(sp, d));
  }

  // Different blocks, or different offsets in a block, have different places.
  lemma PlaceInjective(l: Layout, p: R.SubRange, q: R.SubRange)
    requires LayoutOk(l) && (l.striped ==> p.offset < R.Pow2(l.sp.shift) && q.offset < R.Pow2(l.sp.shift))
    requires Place(l, p) == Place(l, q)
    ensures p.i == q.i && p.offset == q.offset
  {
    hide R.Start, R.Pow2;
    if l.striped {
      var row, row', pos := p.i / l.n, q.i / l.n, Place(l, p).1;
      InRow(l, row, p.offset);
      InRow(l, row', q.offset);
      R.BlockOrder(l.sp, pos, row, pos, row');
      SameBlock(p.i, q.i, l.n);
    }
  }

  // No two bytes share a place.
  lemma LocateInjective(l: Layout, x: nat, y: nat)
    requires LayoutOk(l) && R.Covers(l.sp, x) && R.Covers(l.sp, y) && Locate(l, x) == Locate(l, y)
    ensures x == y
  {
    hide R.Start, R.Pow2, Place;
    StartZero(l.sp);
    var d, e := BlockOf(l.sp, x, 0), BlockOf(l.sp, y, 0);
    PlaceInjective(l, R.SubRange(d, x - R.Start(l.sp, d), 0), R.SubRange(e, y - R.Start(l.sp, e), 0));
  }

  lemma InRow(l: Layout, row: nat, r: nat)
    requires LayoutOk(l) && l.striped && r < R.Pow2(l.sp.shift)
    ensures R.InBlock(l.sp, row, R.Start(l.sp, row) + r)
  {
  }

  lemma SameBlock(d: nat, e: nat, n: nat)
    requires n > 0 && d / n == e / n && d % n == e % n
    ensures d == e
  {
  }

  lemma BlockAt(row: nat, f: nat, n: nat) returns (b: nat)
    requires f < n
    ensures b / n == row && b % n == f
  {
    b := row * n + f;
    DivModUnique(b, n, row, f);
  }

  // Every byte of every file has a place in the whole.
  lemma LocateOnto(l: Layout, f: nat, pos: nat) returns (x: nat)
    requires LayoutOk(l) && f < l.n && (!l.striped ==> pos < R.GetLength(l.sp, f))
    ensures R.Covers(l.sp, x) && Locate(l, x) == (f, pos)
  {
    hide R.Start, R.Pow2, Locate;
    StartZero(l.sp);
    var p := R.SubRange(f, pos, 1);
    if l.striped {
      var row := BlockOf(l.sp, pos, 0);
      var b := BlockAt(row, f, l.n);
      p := R.SubRange(b, pos - R.Start(l.sp, row), 1);
    } else {
      R.StartStep(l.sp, f);
      if l.sp.KeyPoints? { PointsCover(l.sp, f + 1); }
    }
    x := R.Flat(l.sp, p);
    LocatePart(l, p, 0);
  }

  // ----- the whole and the bytes of the files --------------------------------------------

  // A whole of size bytes: n files end to end, or rows stripes of n blocks.
  ghost predicate Whole(l: Layout, size: nat, rows: nat) {
    && LayoutOk(l) && R.Covers(l.sp, size)
    && R.Start(l.sp, if l.striped then rows * l.n else l.n) == size
  }

  // How many bytes file f contributes.
  ghost function Extent(l: Layout, rows: nat, f: nat): nat
    requires LayoutOk(l) && f < l.n
  { if l.striped then R.Start(l.sp, rows) else R.GetLength(l.sp, f) }

  lemma BelowStart(sp: R.Splitter, d: nat, x: nat, k: nat)
    requires R.Valid(sp) && R.InBlock(sp, d, x) && (sp.KeyPoints? ==> k < |sp.points|)
    ensures x < R.Start(sp, k) <==> d < k
  {
    hide R.Start, R.GetLength;
    R.StartStep(sp, d);
    if d + 1 < k { R.StartMono(sp, d + 1, k); }
    if k < d { R.StartMono(sp, k, d); }
  }

  lemma DivBelow(d: nat, n: nat, rows: nat)
    requires n > 0
    ensures d < rows * n <==> d / n < rows
  {
    assert d == n * (d / n) + d % n;
    if d / n < rows { MulMono(n, d / n + 1, rows); } else { MulMono(n, rows, d / n); }
  }

  // A byte belongs to the whole exactly if its place belongs to a file: with
  // LocateInjective and LocateOnto, [0, size) and the bytes of the files
  // correspond one to one.
  lemma LocateWithin(l: Layout, size: nat, rows: nat, x: nat)
    requires Whole(l, size, rows) && R.Covers(l.sp, x)
    ensures var at := Locate(l, x); x < size <==> at.0 < l.n && at.1 < Extent(l, rows, at.0)
  {
    hide R.Start, R.Pow2;
    StartZero(l.sp);
    var d := BlockOf(l.sp, x, 0);
    if l.striped {
      var r := x - R.Start(l.sp, d);
      BelowStart(l.sp, d, x, rows * l.n);
      DivBelow(d, l.n, rows);
      InRow(l, d / l.n, r);
      BelowStart(l.sp, d / l.n, R.Start(l.sp, d / l.n) + r, rows);
    } else {
      BelowStart(l.sp, d, x, l.n);
    }
  }

  // Every byte of the whole is there.
  ghost predicate Complete(l: Layout, c: seq<seq<Byte>>, size: nat)
    requires LayoutOk(l) && R.Covers(l.sp, size)
  { forall y :: 0 <= y < size ==> Present(l, c, y) }

  lemma FullFilesComplete(l: Layout, size: nat, rows: nat, c: seq<seq<Byte>>)
    requires Whole(l, size, rows) && |c| == l.n && forall f :: 0 <= f < l.n ==> |c[f]| >= Extent(l, rows, f)
    ensures Complete(l, c, size)
  {
    hide Locate, Extent, R.Start;
    forall y | 0 <= y < size ensures Present(l, c, y) { LocateWithin(l, size, rows, y); }
  }

  lemma PointsCover(sp: R.Splitter, i: nat)
    requires R.Valid(sp) && sp.KeyPoints? && i < |sp.points| - 1
    ensures R.Covers(sp, R.Start(sp, i))
  {
    R.AscendingPair(sp.points, i, |sp.points| - 1);
  }

  // ----- the whole as bytes -----------------------------------------------------------

  // What the files hold at a place; a hole reads as zero.
  ghost function ByteIn(c: seq<seq<Byte>>, at: (nat, nat)): Byte {
    if at.0 < |c| && at.1 < |c[at.0]| then c[at.0][at.1] else 0
  }

  ghost function ByteAt(l: Layout, c: seq<seq<Byte>>, x: nat): Byte
    requires LayoutOk(l) && R.Covers(l.sp, x)
  { ByteIn(c, Locate(l, x)) }

  ghost predicate Present(l: Layout, c: seq<seq<Byte>>, x: nat)
    requires LayoutOk(l) && R.Covers(l.sp, x)
  { var at := Locate(l, x); at.0 < |c| && at.1 < |c[at.0]| }

  // Writing a part changes its own bytes and no others.
  lemma WritePart(l: Layout, c: seq<seq<Byte>>, p: R.SubRange, d: seq<Byte>, y: nat)
    requires LayoutOk(l) && R.HasBlock(l.sp, p.i) && PartAt(l.sp, p, R.Flat(l.sp, p)) && R.Covers(l.sp, R.Flat(l.sp, p) + p.length)
    requires |d| == p.length && Place(l, p).0 < |c| && R.Covers(l.sp, y)
    ensures var f, pos := Place(l, p).0, Place(l, p).1;
            ByteAt(l, c[f := Write(c[f], d, pos)], y)
            == if R.Flat(l.sp, p) <= y < R.Flat(l.sp, p) + p.length then d[y - R.Flat(l.sp, p)] else ByteAt(l, c, y)
    ensures Present(l, c, y) || R.Flat(l.sp, p) <= y < R.Flat(l.sp, p) + p.length ==>
              Present(l, c[Place(l, p).0 := Write(c[Place(l, p).0], d, Place(l, p).1)], y)
  {
    hide Locate, Place, R.Flat, R.Start, R.GetLength;
    var b := R.Flat(l.sp, p);
    var f, pos := Place(l, p).0, Place(l, p).1;
    if b <= y < b + p.length { LocatePart(l, p, y - b); }
    if Locate(l, y).0 == f && pos <= Locate(l, y).1 < pos + p.length {
      var j := Locate(l, y).1 - pos;
      LocatePart(l, p, j);
      LocateInjective(l, y, b + j);
    }
  }

  // ----- the parts of a request ---------------------------------------------------------

  ghost predicate PartAt(sp: R.Splitter, p: R.SubRange, b: nat)
    requires R.Valid(sp)
  {
    R.HasBlock(sp, p.i) && p.offset + p.length <= R.GetLength(sp, p.i) && R.Flat(sp, p) == b
  }

  // Parts that follow each other from b to e, each starting before limit.
  ghost predicate Runs(sp: R.Splitter, parts: seq<R.SubRange>, b: nat, e: nat, limit: nat)
    requires R.Valid(sp)
  {
    if parts == [] then b == e
    else
      && PartAt(sp, parts[0], b) && b < limit && b + parts[0].length <= e
      && Runs(sp, parts[1..], b + parts[0].length, e, limit)
  }

  lemma {:induction false} PiecesRun(sp: R.Splitter, d: nat, b: nat, e: nat, limit: nat)
    requires R.Valid(sp) && b <= e <= limit && (b < e ==> R.InBlock(sp, d, b) && R.Covers(sp, e))
    ensures Runs(sp, R.Pieces(sp, d, b, e), b, e, limit)
    decreases e - b
  {
    hide R.Start, R.GetLength;
    if b < e {
      var p := R.HeadPiece(sp, d, b, e);
      R.NextBlock(sp, d, b, e);
      PiecesRun(sp, d + 1, b + p.length, e, limit);
      assert R.Pieces(sp, d, b, e)[1..] == R.Pieces(sp, d + 1, b + p.length, e);
    }
  }

  method SplitRequest(sp: R.Splitter, offset: nat, count: nat, ghost limit: nat) returns (parts: seq<R.SubRange>)
    requires R.Valid(sp) && R.Covers(sp, offset + count) && offset < limit && offset + count <= limit
    ensures Runs(sp, parts, offset, offset + count, limit)
  {
    hide R.Start, R.GetLength;
    var rs := R.Init(sp, offset, count);
    parts := R.AllParts(sp, rs);
    if count > 0 {
      PiecesRun(sp, rs.abegin, rs.begin, rs.end, limit);
    }
  }

  // ----- progress of a request ---------------------------------------------------------

  // The bytes [offset, offset + at) of the whole are all there and are in s.
  ghost predicate Delivered(l: Layout, c: seq<seq<Byte>>, offset: nat, at: nat, s: seq<Byte>)
    requires LayoutOk(l) && R.Covers(l.sp, offset + at)
  {
    && at <= |s|
    && forall x :: offset <= x < offset + at ==> Present(l, c, x) && s[x - offset] == ByteAt(l, c, x)
  }

  // The whole c with its bytes [offset, offset + at) replaced by those of d,
  // which are there then, as is everything that was there before.
  ghost predicate Replaced(l: Layout, c: seq<seq<Byte>>, c': seq<seq<Byte>>,
                           offset: nat, at: nat, d: seq<Byte>, size: nat)
    requires LayoutOk(l) && R.Covers(l.sp, size) && at <= |d|
  {
    forall y :: 0 <= y < size ==>
      && ByteAt(l, c', y) == NewByte(l, c, offset, at, d, y)
      && (Present(l, c, y) || offset <= y < offset + at ==> Present(l, c', y))
  }

  ghost function NewByte(l: Layout, c: seq<seq<Byte>>, offset: nat, at: nat, d: seq<Byte>, y: nat): Byte
    requires LayoutOk(l) && R.Covers(l.sp, y) && at <= |d|
  {
    if offset <= y < offset + at then d[y - offset] else ByteAt(l, c, y)
  }

  lemma ReplacedStep(l: Layout, c: seq<seq<Byte>>, c1: seq<seq<Byte>>, offset: nat, at: nat, d: seq<Byte>,
                     size: nat, p: R.SubRange)
    requires LayoutOk(l) && R.Covers(l.sp, size) && at + p.length <= |d| && offset + at + p.length <= size
    requires PartAt(l.sp, p, offset + at) && Place(l, p).0 < |c1|
    requires Replaced(l, c, c1, offset, at, d, size)
    ensures var f, pos := Place(l, p).0, Place(l, p).1;
            Replaced(l, c, c1[f := Write(c1[f], d[at..at + p.length], pos)], offset, at + p.length, d, size)
  {
    hide Locate, Place, ByteAt, Present, R.Flat, R.Start, R.GetLength, Write;
    var f, pos := Place(l, p).0, Place(l, p).1;
    var c2 := c1[f := Write(c1[f], d[at..at + p.length], pos)];
    forall y | 0 <= y < size
      ensures ByteAt(l, c2, y) == NewByte(l, c, offset, at + p.length, d, y)
      ensures Present(l, c, y) || offset <= y < offset + (at + p.length) ==> Present(l, c2, y)
    {
      WritePart(l, c1, p, d[at..at + p.length], y);
    }
  }

  // ----- the files ------------------------------------------------------------------

  ghost function Contents(files: seq<File>): (c: seq<seq<Byte>>)
    reads files
    ensures |c| == |files|
  { seq(|files|, i requires 0 <= i < |files| reads files => files[i].content) }

  ghost predicate Distinct(files: seq<File>) { forall i, j :: 0 <= i < j < |files| ==> files[i] != files[j] }

  class XFile {
    const files: seq<File>
    const layout: Layout
    const size: nat

    // The files are distinct; linear files end where the whole ends.
    ghost predicate Valid() {
      && LayoutOk(layout) && |files| == layout.n && Distinct(files)
      && (!layout.striped ==> R.Start(layout.sp, layout.n) == size)
      && R.Covers(layout.sp, size)
    }

    constructor (fs: seq<File>, l: Layout, n: nat)
      ensures files == fs && layout == l && size == n
    {
      files, layout, size := fs, l, n;
    }

    // A part that starts before the end lies in one of the files.
    lemma PartFile(p: R.SubRange, b: nat)
      requires Valid() && PartAt(layout.sp, p, b) && b < size
      ensures Place(layout, p).0 < |files|
    {
      hide R.Start, R.GetLength;
      if !layout.striped && layout.n < p.i { R.StartMono(layout.sp, layout.n, p.i); }
    }

    // One part of a read.
    method ReadPart(x: R.SubRange, buf: array<Byte>, at: nat, ghost offset: nat) returns (got: nat)
      requires Valid() && PartAt(layout.sp, x, offset + at) && offset + at + x.length <= size
      requires at + x.length <= buf.Length && Place(layout, x).0 < |files|
      requires Delivered(layout, Contents(files), offset, at, buf[..])
      modifies buf
      ensures got <= x.length
      ensures got < x.length ==> !Present(layout, Contents(files), offset + at + got)
      ensures got == x.length ==> Delivered(layout, Contents(files), offset, at + x.length, buf[..])
      ensures forall i :: at + x.length <= i < buf.Length ==> buf[i] == old(buf[i])
    {
      hide Locate, Place, R.Start, R.GetLength;
      var f, pos := Place(layout, x).0, Place(layout, x).1;
      got := files[f].PRead(buf, at, x.length, pos);
      ghost var c := Contents(files);
      if got < x.length {
        LocatePart(layout, x, got);
      } else {
        forall y | offset + at <= y < offset + at + x.length
          ensures Present(layout, c, y) && buf[y - offset] == ByteAt(layout, c, y)
        {
          var j := y - (offset + at);
          LocatePart(layout, x, j);
          assert buf[at..][j] == c[f][pos + j];
        }
      }
    }

    // pread: fails for an offset outside, is cut short at the end, delivers the
    // bytes of the whole, and fails exactly when one of them is not there.
    method PRead(buf: array<Byte>, count: nat, offset: int) returns (ret: int)
      requires Valid() && count <= buf.Length
      modifies buf
      ensures offset < 0 || offset >= size ==> ret == -1 && buf[..] == old(buf[..])
      ensures 0 <= offset < size ==>
        var n := Min(count, size - offset);
        && (if forall x :: offset <= x < offset + n ==> Present(layout, Contents(files), x)
            then ret == n && Delivered(layout, Contents(files), offset, n, buf[..])
            else ret == -1)
        && (forall i :: n <= i < buf.Length ==> buf[i] == old(buf[i]))
        && (Complete(layout, Contents(files), size) ==> ret == n)
    {
      hide Locate, Place, Present, ByteAt, R.Start, R.GetLength, PartAt;
      if offset < 0 || offset >= size { return -1; }
      var n := if offset + count > size then size - offset else count;
      var parts := SplitRequest(layout.sp, offset, n, size);
      var k, at := 0, 0;
      while k < |parts|
        invariant 0 <= k <= |parts| && 0 <= at <= n && Runs(layout.sp, parts[k..], offset + at, offset + n, size)
        invariant Delivered(layout, Contents(files), offset, at, buf[..])
        invariant forall i :: n <= i < buf.Length ==> buf[i] == old(buf[i])
      {
        PartFile(parts[k], offset + at);
        var got := ReadPart(parts[k], buf, at, offset);
        if got < parts[k].length { return -1; }
        at := at + parts[k].length;
        k := k + 1;
      }
      ret := n;
    }

    // One part of a write.
    method WriteOne(x: R.SubRange, buf: array<Byte>, at: nat, ghost offset: nat, ghost c: seq<seq<Byte>>)
      returns (put: nat)
      requires Valid() && PartAt(layout.sp, x, offset + at) && offset + at + x.length <= size
      requires at + x.length <= buf.Length && Place(layout, x).0 < |files|
      requires Replaced(layout, c, Contents(files), offset, at, buf[..], size)
      modifies files
      ensures put == x.length && Replaced(layout, c, Contents(files), offset, at + x.length, buf[..], size)
    {
      hide Place, Replaced, Write, PartAt, R.Covers;
      var f, pos := Place(layout, x).0, Place(layout, x).1;
      ghost var c1 := Contents(files);
      ReplacedStep(layout, c, c1, offset, at, buf[..], size, x);
      assert buf[..][at..at + x.length] == buf[at..at + x.length];
      put := files[f].PWrite(buf, at, x.length, pos);
      assert Contents(files) == c1[f := Write(c1[f], buf[at..at + x.length], pos)];
    }

    // pwrite: cut short at the end; the bytes of the whole that are written
    // change, every other byte keeps its value.
    method PWrite(buf: array<Byte>, count: nat, offset: int) returns (ret: int)
      requires Valid() && count <= buf.Length
      modifies files
      ensures offset < 0 || offset >= size ==> ret == -1 && Contents(files) == old(Contents(files))
      ensures 0 <= offset < size ==>
        && ret == Min(count, size - offset)
        && Replaced(layout, old(Contents(files)), Contents(files), offset, ret, buf[..], size)
        && (Complete(layout, old(Contents(files)), size) ==> Complete(layout, Contents(files), size))
    {
      hide Locate, Place, ByteAt, Present, R.Start, R.GetLength, PartAt;
      if offset < 0 || offset >= size { return -1; }
      var n := if offset + count > size then size - offset else count;
      var parts := SplitRequest(layout.sp, offset, n, size);
      var k, at := 0, 0;
      while k < |parts|
        invariant 0 <= k <= |parts| && 0 <= at <= n && Runs(layout.sp, parts[k..], offset + at, offset + n, size)
        invariant Replaced(layout, old(Contents(files)), Contents(files), offset, at, buf[..], size)
      {
        PartFile(parts[k], offset + at);
        var put := WriteOne(parts[k], buf, at, offset, old(Contents(files)));
        if put < parts[k].length { return -1; }
        at := at + parts[k].length;
        k := k + 1;
      }
      ret := n;
    }
  }

  // ----- making them ------------------------------------------------------------------

  // new_fixed_size_linear_file: shift and mask for powers of two, else division.
  method FixedSplitter(unit: nat) returns (sp: R.Splitter)
    requires unit > 0
    ensures R.Valid(sp) && !sp.KeyPoints? && R.GetLength(sp, 0) == unit
  {
    var k, p := 0, 1;
    while p < unit
      invariant p == R.Pow2(k)
      decreases unit - p
    {
      p, k := 2 * p, k + 1;
    }
    sp := if p == unit then R.Power2(k) else R.Division(unit);
  }

  // Fails exactly for no files or an empty unit.  The whole is complete if every
  // file holds at least a unit.
  method NewFixedSizeLinearFile(unit: nat, files: seq<File>) returns (x: XFile?)
    ensures x == null <==> unit == 0 || files == []
    ensures x != null ==>
              && fresh(x) && x.files == files && x.size == |files| * unit && (x.Valid() <==> Distinct(files))
              && !x.layout.striped && !x.layout.sp.KeyPoints? && LayoutOk(x.layout) && R.GetLength(x.layout.sp, 0) == unit
              && Whole(x.layout, x.size, 0)
              && ((forall f :: f in files ==> |f.content| >= unit) ==> Complete(x.layout, Contents(files), x.size))
  {
    if files == [] || unit == 0 { return null; }
    var sp := FixedSplitter(unit);
    if sp.Power2? { R.ShlIsMul(|files|, sp.shift); } else { R.TimesIsMul(|files|, unit); }
    x := new XFile(files, Layout(sp, false, |files|), |files| * unit);
    if forall f :: f in files ==> |f.content| >= unit { FullFilesComplete(x.layout, x.size, 0, Contents(files)); }
  }

  // The first n files' sizes added up.
  ghost function Total(c: seq<seq<Byte>>, n: nat): nat
    requires n <= |c|
  { if n == 0 then 0 else Total(c, n - 1) + |c[n - 1]| }

  // The first k + 1 points are the running totals.
  ghost predicate Totals(c: seq<seq<Byte>>, points: seq<nat>, k: nat) {
    k <= |c| && k < |points| && forall i :: 0 <= i <= k ==> points[i] == Total(c, i)
  }

  // What the key points of a linear file need: no empty file, and a total below
  // 2^64 - 1.
  ghost predicate Splittable(c: seq<seq<Byte>>) {
    (forall i :: 0 <= i < |c| ==> c[i] != []) && Total(c, |c|) < MAX_U64
  }

  // new_linear_file: the key points are the running totals of the file sizes.
  // They are ascending, as the splitter demands, exactly when Splittable.
  method LinearKeyPoints(files: seq<File>) returns (points: seq<nat>, size: nat)
    ensures |points| == |files| + 2 && size == Total(Contents(files), |files|)
    ensures Totals(Contents(files), points, |files|) && points[|files| + 1] == MAX_U64
    ensures R.Ascending(points) <==> Splittable(Contents(files))
  {
    points, size := [0], 0;
    for i := 0 to |files|
      invariant |points| == i + 1 && Totals(Contents(files), points, i) && size == points[i]
    {
      size := size + |files[i].content|;
      points := points + [points[i] + |files[i].content|];
    }
    points := points + [MAX_U64];
    ghost var c := Contents(files);
    assert forall i :: 0 <= i < |files| ==> (R.Increases(points, i) <==> c[i] != []);
    assert R.Increases(points, |files|) <==> size < MAX_U64;
  }

  // new_linear_file itself takes any files; requests need them distinct and
  // Splittable, which the splitter asserts.  Then the whole is complete.
  method NewLinearFile(files: seq<File>) returns (x: XFile?)
    ensures x == null <==> files == []
    ensures x != null ==>
              && fresh(x) && x.files == files && !x.layout.striped && x.layout.sp.KeyPoints?
              && x.size == Total(Contents(files), |files|) && Totals(Contents(files), x.layout.sp.points, |files|)
              && (x.Valid() <==> Distinct(files) && Splittable(Contents(files)))
    ensures x != null && x.Valid() ==> Whole(x.layout, x.size, 0) && Complete(x.layout, Contents(files), x.size)
  {
    if files == [] { return null; }
    var points, size := LinearKeyPoints(files);
    x := new XFile(files, Layout(R.KeyPoints(points), false, |files|), size);
    if Splittable(Contents(files)) { LinearComplete(x.layout, size, Contents(files)); }
  }

  lemma LinearComplete(l: Layout, size: nat, c: seq<seq<Byte>>)
    requires !l.striped && l.sp.KeyPoints? && |c| == l.n > 0 && |l.sp.points| == l.n + 2
    requires Totals(c, l.sp.points, l.n) && l.sp.points[l.n + 1] == MAX_U64
    requires R.Ascending(l.sp.points) && size == Total(c, l.n)
    ensures Whole(l, size, 0) && Complete(l, c, size)
  {
    PointsCover(l.sp, l.n);
    FullFilesComplete(l, size, 0, c);
  }

  ghost predicate EqualStripes(c: seq<seq<Byte>>, s: nat)
    requires s > 0
  {
    forall i :: 0 <= i < |c| ==> |c[i]| == |c[0]| && |c[i]| > 0 && |c[i]| % s == 0
  }

  function Rows(len: nat, s: nat): nat
    requires s > 0
  { len / s }

  // The whole is the files' size times their number, in stripes, and complete.
  ghost predicate StripeWhole(l: Layout, c: seq<seq<Byte>>, size: nat) {
    && LayoutOk(l) && l.striped && |c| == l.n && size == |c[0]| * l.n
    && Whole(l, size, Rows(|c[0]|, R.Pow2(l.sp.shift))) && Complete(l, c, size)
  }

  // new_stripe_file: fails exactly for no files, files of different sizes, an
  // empty file, or a size that is not a multiple of the stripe.  Otherwise the
  // whole is complete.
  method NewStripeFile(shift: nat, files: seq<File>) returns (x: XFile?)
    ensures x != null <==> files != [] && EqualStripes(Contents(files), R.Pow2(shift))
    ensures x != null ==>
              && fresh(x) && x.files == files && x.layout == Layout(R.Power2(shift), true, |files|)
              && (x.Valid() <==> Distinct(files)) && StripeWhole(x.layout, Contents(files), x.size)
  {
    if files == [] { return null; }
    ghost var c := Contents(files);
    var size := 0;
    for i := 0 to |files|
      invariant i > 0 ==> size == |c[0]| > 0
      invariant i == 0 ==> size == 0
      invariant forall k :: 0 <= k < i ==> |c[k]| == |c[0]| && |c[k]| > 0 && |c[k]| % R.Pow2(shift) == 0
    {
      var st := |files[i].content|;
      assert st == |c[i]|;
      if st == 0 { return null; }
      if st % R.Pow2(shift) != 0 { return null; }
      if size == 0 {
        size := st;
      } else if size != st {
        return null;
      }
    }
    StripesComplete(Layout(R.Power2(shift), true, |files|), c);
    x := new XFile(files, Layout(R.Power2(shift), true, |files|), size * |files|);
  }

  lemma StripesComplete(l: Layout, c: seq<seq<Byte>>)
    requires LayoutOk(l) && l.striped && |c| == l.n && EqualStripes(c, R.Pow2(l.sp.shift))
    ensures StripeWhole(l, c, |c[0]| * l.n)
  {
    var s := R.Pow2(l.sp.shift);
    var rows := |c[0]| / s;
    assert rows * s == |c[0]|;
    R.ShlIsMul(rows, l.sp.shift);
    R.ShlIsMul(rows * l.n, l.sp.shift);
    assert rows * l.n * s == |c[0]| * l.n by { assert rows * l.n * s == rows * s * l.n; }
    FullFilesComplete(l, |c[0]| * l.n, rows, c);
  }

  // What was written is read back.
  method WriteThenRead(x: XFile, buf: array<Byte>, out: array<Byte>, count: nat, offset: nat) returns (n: int)
    requires x.Valid() && count <= buf.Length && count <= out.Length && buf != out && offset < x.size
    modifies x.files, out
    ensures n == Min(count, x.size - offset) && out[..n] == buf[..n]
  {
    hide Present, ByteAt, R.Start, R.GetLength;
    var put := x.PWrite(buf, count, offset);
    n := x.PRead(out, count, offset);
    assert forall y :: offset <= y < offset + put ==> Present(x.layout, Contents(x.files), y);
    forall i | 0 <= i < n ensures out[i] == buf[i] {
      var y := offset + i;
      assert ByteAt(x.layout, Contents(x.files), y) == buf[..][y - offset] && out[..][y - offset] == buf[..][y - offset];
    }
  }
}
