// Scatter/gather vectors: common/iovector.h and common/iovector.cpp.  Memory is
// an array of bytes, an iovec names a stretch of it, and a vector stands for
// the sequence of addresses that its elements name one after the other.
module IoVec {
  import opened Arith
  import opened FlatFile

  datatype IoVec = IoVec(base: nat, len: nat)

  function Range(b: nat, n: nat): seq<nat> { seq(n, i requires 0 <= i < n => b + i) }

  ghost function Total(v: seq<IoVec>): nat { if v == [] then 0 else v[0].len + Total(v[1..]) }

  // The flattened vector.
  ghost function Addrs(v: seq<IoVec>): (r: seq<nat>)
    ensures |r| == Total(v)
  { if v == [] then [] else Range(v[0].base, v[0].len) + Addrs(v[1..]) }

  lemma {:induction false} AddrsAppend(a: seq<IoVec>, b: seq<IoVec>)
    ensures Addrs(a + b) == Addrs(a) + Addrs(b)
  {
    if a == [] {
      assert a + b == b;
    } else {
      assert (a + b)[1..] == a[1..] + b;
      AddrsAppend(a[1..], b);
    }
  }

  // The vector without its first n bytes, all of them in the first element; an
  // element that becomes empty goes.
  ghost function DropFront(v: seq<IoVec>, n: nat): seq<IoVec>
    requires v != [] && n <= v[0].len
  {
    if n < v[0].len then [IoVec(v[0].base + n, v[0].len - n)] + v[1..] else v[1..]
  }

  lemma DropFrontAddrs(v: seq<IoVec>, n: nat)
    requires v != [] && n <= v[0].len
    ensures n <= |Addrs(v)| && Addrs(DropFront(v, n)) == Addrs(v)[n..]
    ensures forall j :: 0 <= j < n ==> Addrs(v)[j] == v[0].base + j
  {
    hide Addrs, Total;
    AddrsCons(v);
    var r := Range(v[0].base, v[0].len);
    assert (r + Addrs(v[1..]))[n..] == r[n..] + Addrs(v[1..]);
    if n < v[0].len {
      var w := DropFront(v, n);
      AddrsCons(w);
      assert w[1..] == v[1..];
      assert r[n..] == Range(w[0].base, w[0].len);
    }
    assert forall j :: 0 <= j < n ==> (r + Addrs(v[1..]))[j] == v[0].base + j;
  }

  // Cutting element i down to n bytes and dropping what follows.
  lemma CutAt(v: seq<IoVec>, i: nat, n: nat)
    requires i < |v| && n <= v[i].len
    ensures Total(v[..i]) + n <= Total(v)
    ensures Addrs(v[..i] + [IoVec(v[i].base, n)]) == Addrs(v)[..Total(v[..i]) + n]
  {
    hide *;
    AddrsAppend(v[..i], v[i..]);
    assert v == v[..i] + v[i..];
    AddrsAppend(v[..i], [IoVec(v[i].base, n)]);
    AddrsOne(IoVec(v[i].base, n));
    AddrsCons(v[i..]);
    RangeTake(v[i].base, v[i].len, n);
    TakeInto(Addrs(v[..i]), Range(v[i].base, v[i].len), Addrs(v[i..][1..]), n);
  }

  lemma RangeTake(b: nat, len: nat, n: nat)
    requires n <= len
    ensures Range(b, len)[..n] == Range(b, n) && |Range(b, len)| == len
  {
  }

  lemma TakeInto(a: seq<nat>, b: seq<nat>, c: seq<nat>, n: nat)
    requires n <= |b|
    ensures (a + (b + c))[..|a| + n] == a + b[..n]
  {
  }

  lemma AddrsOne(e: IoVec)
    ensures Addrs([e]) == Range(e.base, e.len)
  {
    assert [e][1..] == [];
  }

  lemma AddrsCons(v: seq<IoVec>)
    requires v != []
    ensures Addrs(v) == Range(v[0].base, v[0].len) + Addrs(v[1..])
  {
  }

  lemma {:induction false} TotalStep(v: seq<IoVec>, i: nat)
    requires i < |v|
    ensures Total(v[..i + 1]) == Total(v[..i]) + v[i].len && Total(v[..i]) + v[i].len <= Total(v)
  {
    CutAt(v, i, v[i].len);
    AddrsAppend(v[..i], [v[i]]);
    AddrsOne(v[i]);
    assert v[..i + 1] == v[..i] + [v[i]];
  }

  // Moving n bytes from the head of v to the end of o keeps all addresses.
  lemma MoveFront(o: seq<IoVec>, v: seq<IoVec>, n: nat)
    requires v != [] && n <= v[0].len
    ensures Addrs(o + [IoVec(v[0].base, n)]) + Addrs(DropFront(v, n)) == Addrs(o) + Addrs(v)
  {
    hide Addrs, DropFront;
    var e := IoVec(v[0].base, n);
    AddrsAppend(o, [e]);
    AddrsOne(e);
    DropFrontAddrs(v, n);
    assert Addrs(v) == Addrs(v)[..n] + Addrs(v)[n..];
    assert Addrs(v)[..n] == Range(e.base, n);
  }

  lemma PrefixAddrs(v: seq<IoVec>, i: nat)
    requires i < |v|
    ensures Total(v[..i]) <= Total(v) && Addrs(v[..i]) == Addrs(v)[..Total(v[..i])]
  {
    CutAt(v, i, 0);
    AddrsAppend(v[..i], [IoVec(v[i].base, 0)]);
    AddrsOne(IoVec(v[i].base, 0));
  }

  // How many elements n bytes from the front touch.
  ghost function Touched(v: seq<IoVec>, n: nat): nat {
    if n == 0 || v == [] then 0 else if n <= v[0].len then 1 else 1 + Touched(v[1..], n - v[0].len)
  }

  // ----- flat copy --------------------------------------------------------------------

  ghost predicate Hit(to: seq<nat>, k: nat, a: nat)
    requires k <= |to|
  { exists i :: 0 <= i < k && to[i] == a }

  // m1 is m0 after copying the first k bytes of from to the first k of to.
  ghost predicate Copied(m0: seq<Byte>, m1: seq<Byte>, to: seq<nat>, from: seq<nat>, k: nat)
  {
    && Inside(to, |m0|) && Inside(from, |m0|) && k <= |to| && k <= |from| && |m1| == |m0|
    && (forall i :: 0 <= i < k ==> m1[to[i]] == m0[from[i]])
    && (forall a :: 0 <= a < |m0| && !Hit(to, k, a) ==> m1[a] == m0[a])
  }

  ghost predicate Inside(s: seq<nat>, n: nat) { forall i :: 0 <= i < |s| ==> s[i] < n }

  ghost predicate Distinct(s: seq<nat>) { forall i, j :: 0 <= i < j < |s| ==> s[i] != s[j] }

  ghost predicate Apart(s: seq<nat>, t: seq<nat>) {
    forall i, j :: 0 <= i < |s| && 0 <= j < |t| ==> s[i] != t[j]
  }

  // What a copy may rely on: the addresses exist, no byte is written twice or
  // both read and written.
  ghost predicate CopyOk(size: nat, to: seq<nat>, from: seq<nat>) {
    Inside(to, size) && Inside(from, size) && Distinct(to) && Apart(to, from)
  }

  // The n addresses of s from its k-th on are b, b + 1, ...
  ghost predicate Stretch(s: seq<nat>, k: nat, n: nat, b: nat) {
    k + n <= |s| && forall j :: k <= j < k + n ==> s[j] == b + (j - k)
  }

  lemma HitStretch(to: seq<nat>, k: nat, n: nat, d: nat, a: nat)
    requires Stretch(to, k, n, d)
    ensures Hit(to, k + n, a) <==> Hit(to, k, a) || d <= a < d + n
    ensures Distinct(to) && Hit(to, k, a) ==> !(d <= a < d + n)
  {
    var j := k + (a - d);
    assert k <= j < k + n ==> to[j] == a;
  }

  // m2 is m1 after memcpy(d, s, n).
  ghost predicate Moved(m1: seq<Byte>, m2: seq<Byte>, d: nat, s: nat, n: nat) {
    && |m2| == |m1| && d + n <= |m1| && s + n <= |m1|
    && (forall a :: d <= a < d + n ==> m2[a] == m1[s + (a - d)])
    && (forall a :: 0 <= a < |m1| && !(d <= a < d + n) ==> m2[a] == m1[a])
  }

  // One more stretch copied.
  lemma CopyStep(m0: seq<Byte>, m1: seq<Byte>, m2: seq<Byte>, to: seq<nat>, from: seq<nat>, k: nat, n: nat, d: nat, s: nat)
    requires CopyOk(|m0|, to, from) && Copied(m0, m1, to, from, k)
    requires Stretch(to, k, n, d) && Stretch(from, k, n, s)
    requires Moved(m1, m2, d, s, n)
    ensures Copied(m0, m2, to, from, k + n)
  {
    hide Stretch, Hit;
    assert k + n <= |to| && k + n <= |from| by { StretchFits(to, k, n, d); StretchFits(from, k, n, s); }
    forall i | 0 <= i < k + n ensures m2[to[i]] == m0[from[i]] { CopiedByte(m0, m1, m2, to, from, k, n, d, s, i); }
    forall a | 0 <= a < |m0| && !Hit(to, k + n, a) ensures m2[a] == m0[a] { HitStretch(to, k, n, d, a); }
  }

  lemma StretchFits(s: seq<nat>, k: nat, n: nat, b: nat)
    requires Stretch(s, k, n, b)
    ensures k + n <= |s|
  {
  }

  lemma CopiedByte(m0: seq<Byte>, m1: seq<Byte>, m2: seq<Byte>, to: seq<nat>, from: seq<nat>, k: nat, n: nat, d: nat, s: nat, i: nat)
    requires CopyOk(|m0|, to, from) && Copied(m0, m1, to, from, k) && i < k + n
    requires Stretch(to, k, n, d) && Stretch(from, k, n, s) && Moved(m1, m2, d, s, n)
    ensures m2[to[i]] == m0[from[i]]
  {
    HitStretch(to, k, n, d, to[i]);
    if i < k {
      assert Hit(to, k, to[i]);
    } else {
      assert !Hit(to, k, from[i]);
    }
  }

  // memcpy
  method Memcpy(mem: array<Byte>, d: nat, s: nat, n: nat)
    requires d + n <= mem.Length && s + n <= mem.Length
    modifies mem
    ensures Moved(old(mem[..]), mem[..], d, s, n)
  {
    forall j | 0 <= j < n { mem[d + j] := mem[s + j]; }
  }

  // ----- iov_iterator -------------------------------------------------------------------

  class Iterator {
    const iov: array<IoVec>
    var pos: nat
    var cnt: nat
    var v: IoVec

    ghost predicate Valid() reads this {
      pos + cnt <= iov.Length
    }

    ghost function Rest(): seq<IoVec>
      requires Valid()
      reads this, iov
    { if cnt == 0 then [] else [v] + iov[pos + 1..pos + cnt] }

    lemma RestEmpty()
      requires Valid()
      ensures cnt == 0 <==> Rest() == []
    {
    }

    constructor (a: array<IoVec>, n: nat)
      requires n <= a.Length
      ensures iov == a && Valid() && Rest() == a[..n]
    {
      iov, pos, cnt := a, 0, n;
      if n > 0 { v := a[0]; }
    }

    method Front() returns (e: IoVec)
      requires Valid() && cnt > 0
      ensures Rest() != [] && e == Rest()[0]
    { e := v; }

    method Advance(n: nat)
      requires Valid() && Rest() != [] && n <= Rest()[0].len
      modifies this
      ensures Valid() && Rest() == DropFront(old(Rest()), n)
      ensures cnt <= old(cnt) && (n == old(Rest()[0].len) ==> cnt < old(cnt))
    {
      if n < v.len {
        v := IoVec(v.base + n, v.len - n);
      } else {
        assert old(Rest())[1..] == iov[pos + 1..pos + cnt];
        pos, cnt := pos + 1, cnt - 1;
        if cnt > 0 { v := iov[pos]; }
      }
    }
  }

  // ----- iovector_view --------------------------------------------------------------------

  class View {
    const iov: array<IoVec>
    var start: nat
    var cnt: nat

    ghost predicate Valid() reads this { start + cnt <= iov.Length }

    ghost function Elems(): seq<IoVec>
      requires Valid()
      reads this, iov
    { iov[start..start + cnt] }

    constructor (a: array<IoVec>, n: nat)
      requires n <= a.Length
      ensures iov == a && start == 0 && cnt == n && Valid() && Elems() == a[..n]
    { iov, start, cnt := a, 0, n; }

    method Sum() returns (s: nat)
      requires Valid()
      ensures s == Total(Elems())
    {
      hide Total, Addrs;
      s := 0;
      TotalWhole(Elems());
      for i := 0 to cnt
        invariant s == Total(Elems()[..i])
      {
        TotalStep(Elems(), i);
        s := s + iov[start + i].len;
      }
    }

    lemma ElemsEmpty()
      requires Valid()
      ensures cnt == 0 <==> Elems() == []
    {
    }

    method Front() returns (e: IoVec)
      requires Valid() && cnt > 0
      ensures Elems() != [] && e == Elems()[0] == iov[start]
    { e := iov[start]; }

    // src_extractor: take n bytes of the first element.
    method Advance(n: nat)
      requires Valid() && Elems() != [] && n <= Elems()[0].len
      modifies this, iov
      ensures Valid() && Elems() == DropFront(old(Elems()), n)
      ensures cnt <= old(cnt) && (n == old(Elems()[0].len) ==> cnt < old(cnt))
    {
      if n < iov[start].len {
        iov[start] := IoVec(iov[start].base + n, iov[start].len - n);
      } else {
        start, cnt := start + 1, cnt - 1;
      }
    }

    // Keeps the first size bytes.
    method ShrinkTo(size: nat) returns (r: nat)
      requires Valid()
      modifies this, iov
      ensures Valid() && r == Min(size, old(Total(Elems()))) && Addrs(Elems()) == old(Addrs(Elems()))[..r]
    {
      hide Addrs, Total;
      ghost var v := Elems();
      TotalWhole(v);
      if size == 0 {
        cnt := 0;
        assert Elems() == v[..0];
        return 0;
      }
      var left := size;
      for i := 0 to cnt
        invariant left > 0 && size == left + Total(v[..i])
        invariant Valid() && Elems() == v
      {
        if left <= iov[start + i].len {
          CutAt(v, i, left);
          iov[start + i] := IoVec(iov[start + i].base, left);
          cnt := i + 1;
          assert Elems() == v[..i] + [IoVec(v[i].base, left)];
          return size;
        } else {
          left := left - iov[start + i].len;
          TotalStep(v, i);
        }
      }
      assert v[..cnt] == v;
      r := size - left;
    }

    // shrink_less_than: cuts the element count, not the elements.
    method ShrinkLessThan(size: nat) returns (excess: nat)
      requires Valid()
      modifies this`cnt
      ensures Valid() && start == old(start) && Elems() == Prefix(old(Elems()), cnt)
      ensures Shrunk(old(Elems()), size, cnt, excess)
    {
      hide Addrs, Total, Shrunk;
      ghost var v := Elems();
      ShrunkNone(v);
      if size == 0 {
        if cnt > 0 {
          cnt := 0;
          return iov[start].len;
        }
        return 0;
      }
      TotalWhole(v);
      var left := size;
      for i := 0 to cnt
        invariant left > 0 && size == left + Total(v[..i])
        invariant start == old(start) && cnt == old(cnt)
      {
        TotalStep(v, i);
        if left <= iov[start + i].len {
          SliceTake(iov, start, cnt, i + 1);
          ShrunkAt(v, size, i);
          excess := iov[start + i].len - left;
          cnt := i + 1;
          return;
        } else {
          left := left - iov[start + i].len;
        }
      }
      ShrunkAll(v, size);
      excess := 0;
    }

    // Drops bytes from the front.
    method ExtractFront(bytes: nat) returns (r: nat)
      requires Valid()
      modifies this, iov
      ensures Valid() && r == Min(bytes, old(Total(Elems()))) && Addrs(Elems()) == old(Addrs(Elems()))[r..]
    {
      hide Addrs, DropFront;
      if bytes == 0 { return 0; }
      ghost var all := Addrs(Elems());
      var left := bytes;
      while cnt > 0
        invariant Valid() && 0 < left <= bytes && Tracks(Elems(), all, bytes - left)
        decreases cnt
      {
        ghost var v := Elems();
        if left <= iov[start].len {
          FrontStretch(v, all, bytes - left, left);
          TracksEnd(DropFront(v, left), all, bytes);
          Advance(left);
          left := 0;
          break;
        } else {
          var n := iov[start].len;
          FrontStretch(v, all, bytes - left, n);
          Advance(n);
          left := left - n;
        }
      }
      r := bytes - left;
    }

    // Moves bytes from the front to another view that has room for as many
    // elements as its own count says.  Fails exactly when that is too few;
    // what was moved by then has left this view and is in the other one.
    method ExtractFrontInto(bytes: nat, out: View) returns (ret: int)
      requires Valid() && out.Valid() && out != this && out.iov != iov
      modifies this, iov, out, out.iov
      ensures Valid() && out.Valid()
      ensures Addrs(out.Elems()) + Addrs(Elems()) == old(Addrs(Elems()))
      ensures ret == -1 <==> Touched(old(Elems()), bytes) > old(out.cnt)
      ensures ret != -1 ==> ret == Total(out.Elems()) == Min(bytes, old(Total(Elems())))
      ensures out.cnt == Min(Touched(old(Elems()), bytes), old(out.cnt))
    {
      hide Addrs, Total;
      ghost var v0, all := Elems(), Addrs(Elems());
      var room := out.cnt;
      out.cnt := 0;
      AddrsNone();
      assert out.Elems() == [] && [] + all == all;
      if bytes == 0 { return 0; }
      var left := bytes;
      while cnt > 0
        invariant Valid() && out.Valid() && out.start == old(out.start) && out.start + room <= out.iov.Length
        invariant 0 < left <= bytes && out.cnt <= room && out.cnt + Touched(Elems(), left) == Touched(v0, bytes)
        invariant Addrs(out.Elems()) + Addrs(Elems()) == all && Total(out.Elems()) == bytes - left
        decreases cnt
      {
        var n := if left <= iov[start].len then left else iov[start].len;
        if out.cnt == room { return -1; }
        MoveElement(out, n);
        left := left - n;
        if left == 0 { break; }
      }
      ret := bytes - left;
    }

    // Takes n bytes off the last element, which goes when it becomes empty.
    method TrimBack(n: nat)
      requires Valid() && cnt > 0 && n <= iov[start + cnt - 1].len
      modifies this, iov
      ensures Valid() && cnt <= old(cnt) && (n == old(iov[start + cnt - 1].len) ==> cnt < old(cnt))
      ensures Total(Elems()) == old(Total(Elems())) - n && Addrs(Elems()) == old(Addrs(Elems()))[..Total(Elems())]
    {
      hide Addrs, Total;
      ghost var v, k := Elems(), cnt - 1;
      var i := start + cnt - 1;
      var len := iov[i].len;
      SliceTake(iov, start, cnt, k);
      TotalStep(v, k);
      PrefixAddrs(v, k);
      CutAt(v, k, len - n);
      assert v[..k + 1] == v;
      if n == len {
        cnt := cnt - 1;
      } else {
        iov[i] := IoVec(iov[i].base, len - n);
        assert Elems() == v[..k] + [IoVec(v[k].base, len - n)];
      }
    }

    // Drops bytes from the back.
    method ExtractBack(bytes: nat) returns (r: nat)
      requires Valid()
      modifies this, iov
      ensures Valid() && r == Min(bytes, old(Total(Elems())))
      ensures Addrs(Elems()) == old(Addrs(Elems()))[..old(Total(Elems())) - r]
    {
      hide Addrs, Total;
      ghost var v0 := Elems();
      TotalWhole(v0);
      if bytes == 0 { return 0; }
      var left := bytes;
      while cnt > 0
        invariant Valid() && 0 < left <= bytes && Total(Elems()) == Total(v0) - (bytes - left)
        invariant Addrs(Elems()) == Addrs(v0)[..Total(Elems())]
        decreases cnt
      {
        var len := iov[start + cnt - 1].len;
        TotalStep(Elems(), cnt - 1);
        if left <= len {
          TrimBack(left);
          left := 0;
          break;
        } else {
          left := left - len;
          TrimBack(len);
        }
      }
      if left > 0 { AddrsNone(); assert Elems() == []; }
      r := bytes - left;
    }

    // iov[n] = e
    method Put(n: nat, e: IoVec)
      requires Valid() && start + n < iov.Length
      modifies iov
      ensures Valid() && iov[start..start + (n + 1)] == old(iov[start..start + n]) + [e]
    { iov[start + n] := e; }

    // The body of the loop of slice() for source element p.
    method SliceOne(p: IoVec, n: nat, pos: nat, left: nat, offset: nat, ghost w: seq<IoVec>, ghost want: seq<nat>)
      returns (taken: bool, len: nat)
      requires Valid() && start + n < iov.Length && w != [] && w[0] == p
      requires if n == 0 then pos == 0 else pos > offset
      requires SliceState(iov[start..start + n], w, left, offset, want)
      modifies iov
      ensures Valid() && (taken <==> left > 0 && pos + p.len > offset) && len <= left
      ensures SliceState(iov[start..start + if taken then n + 1 else n], w[1..], left - len, offset, want)
      ensures taken ==> Addrs(iov[start..start + n + 1]) <= want
                        && Total(iov[start..start + n + 1]) == old(Total(iov[start..start + n])) + len
      ensures !taken ==> len == 0 && iov[start..start + n] == old(iov[start..start + n])
    {
      hide Addrs, Total, Skip, Window, Take, SliceState;
      ghost var o := iov[start..start + n];
      taken := left > 0 && pos + p.len > offset;
      if taken {
        var e := if offset > pos then IoVec(p.base + (offset - pos), p.len - (offset - pos)) else p;
        if left < e.len { e := IoVec(e.base, left); }
        Put(n, e);
        SliceTaken(o, w, left, offset, want, e);
        len := e.len;
      } else {
        SlicePassed(o, w, left, offset, want);
        len := 0;
      }
    }

    // Writes the fragments of a slice to out, as many as out has room for.
    // What comes out is a window of the vector that begins with the first
    // element longer than offset, not of the whole vector.
    method Slice(count: nat, offset: nat, out: View) returns (ret: int)
      requires Valid() && out.Valid() && out != this && out.iov != iov
      modifies out, out.iov
      ensures out.Valid() && (ret == -1 <==> old(out.cnt) == 0) && out.cnt <= old(out.cnt)
      ensures ret != -1 ==> ret == Total(out.Elems()) && Addrs(out.Elems()) <= Window(Skip(Elems(), offset), count, offset)
      ensures ret != -1 && (out.cnt < old(out.cnt) || |Elems()| <= old(out.cnt)) ==>
                Addrs(out.Elems()) == Window(Skip(Elems(), offset), count, offset)
    {
      hide Addrs, Total, Skip, Window, Take, SliceState;
      if out.cnt == 0 { return -1; }
      var room, n, pos, left := out.cnt, 0, 0, count;
      ghost var v := Elems();
      ghost var want := Window(Skip(v, offset), count, offset);
      out.cnt := 0;
      ret := 0;
      SliceStart(v, count, offset);
      assert out.iov[out.start..out.start + n] == [];
      for i := 0 to cnt
        invariant n < room && n <= i && out.cnt == 0 && out.Valid() && out.start == old(out.start)
        invariant out.start + room <= out.iov.Length
        invariant 0 <= ret <= count && left == count - ret && ret == Total(out.iov[out.start..out.start + n])
        invariant Addrs(out.iov[out.start..out.start + n]) <= want
        invariant n == 0 ==> pos == 0
        invariant n > 0 ==> pos > offset
        invariant SliceState(out.iov[out.start..out.start + n], v[i..], left, offset, want)
      {
        var p := iov[start + i];
        assert v[i] == p && v[i..][0] == p && v[i..][1..] == v[i + 1..];
        var taken, len := out.SliceOne(p, n, pos, left, offset, v[i..], want);
        if taken {
          pos := pos + p.len;
          ret := ret + len;
          left := left - len;
          n := n + 1;
          if n == room { break; }
        }
      }
      out.cnt := n;
      SliceEnd(out.Elems(), left, offset, want);
    }

    // One element, or n bytes of it, from the front here to the back of out.
    method MoveElement(out: View, n: nat)
      requires Valid() && out.Valid() && out != this && out.iov != iov
      requires cnt > 0 && n <= iov[start].len && out.start + out.cnt < out.iov.Length
      modifies this, iov, out, out.iov
      ensures Valid() && out.Valid() && out.start == old(out.start) && out.cnt == old(out.cnt) + 1
      ensures Elems() == DropFront(old(Elems()), n) && cnt <= old(cnt) && (n == old(iov[start].len) ==> cnt < old(cnt))
      ensures Addrs(out.Elems()) + Addrs(Elems()) == old(Addrs(out.Elems())) + old(Addrs(Elems()))
      ensures Total(out.Elems()) == old(Total(out.Elems())) + n
    {
      hide Addrs, DropFront, Total;
      ghost var o, v := out.Elems(), Elems();
      out.iov[out.start + out.cnt] := IoVec(iov[start].base, n);
      out.cnt := out.cnt + 1;
      assert out.Elems() == o + [IoVec(v[0].base, n)];
      assert Elems() == v;
      Advance(n);
      MoveFront(o, v, n);
      DropFrontAddrs(v, n);
    }
  }

  ghost function Prefix(v: seq<IoVec>, c: nat): seq<IoVec> { if c <= |v| then v[..c] else v }

  // The fewest elements that hold size bytes are kept, and excess is how much
  // they hold beyond that; all are kept if together they hold less.  For size 0
  // nothing is kept and excess is the length of the first element.
  ghost predicate Shrunk(v: seq<IoVec>, size: nat, c: nat, excess: nat) {
    && c <= |v|
    && (size == 0 ==> c == 0 && excess == if v == [] then 0 else v[0].len)
    && (0 < size <= Total(v) ==> c > 0 && Total(v[..c]) == size + excess && Total(v[..c - 1]) < size)
    && (size > Total(v) ==> c == |v| && excess == 0)
  }

  lemma ShrunkNone(v: seq<IoVec>)
    ensures Shrunk(v, 0, 0, if v == [] then 0 else v[0].len)
  {
  }

  lemma ShrunkAt(v: seq<IoVec>, size: nat, i: nat)
    requires i < |v| && Total(v[..i]) < size <= Total(v[..i]) + v[i].len
    ensures Shrunk(v, size, i + 1, Total(v[..i]) + v[i].len - size)
  {
    TotalStep(v, i);
  }

  lemma ShrunkAll(v: seq<IoVec>, size: nat)
    requires size > Total(v[..|v|])
    ensures Shrunk(v, size, |v|, 0)
  {
    assert v[..|v|] == v;
  }

  // Some number of leading elements holds exactly n bytes.
  ghost predicate Boundary(v: seq<IoVec>, n: nat) { exists i :: 0 <= i <= |v| && Total(v[..i]) == n }

  lemma {:induction false} TotalMono(v: seq<IoVec>, i: nat, j: nat)
    requires i <= j <= |v|
    ensures Total(v[..i]) <= Total(v[..j])
    decreases j - i
  {
    if i < j {
      TotalMono(v, i, j - 1);
      TotalStep(v, j - 1);
    }
  }

  // What is kept is within size exactly if everything is, or if an element ends
  // at size.
  lemma ShrunkWithin(v: seq<IoVec>, size: nat, c: nat, excess: nat)
    requires Shrunk(v, size, c, excess)
    ensures Total(v[..c]) <= size <==> Total(v) <= size || Boundary(v, size)
  {
    hide Total, Addrs;
    TotalMono(v, c, |v|);
    assert v[..|v|] == v;
    if size == 0 { AddrsNone(); assert v[..0] == [] && Boundary(v, 0); }
    if i :| 0 <= i <= |v| && Total(v[..i]) == size {
      if i < c { TotalMono(v, i, c - 1); } else { TotalMono(v, c, i); }
    }
  }

  // One element of eight bytes, shrunk to five, still holds eight.
  method ShrinkKeepsMore() returns (kept: nat)
    ensures kept == 8
  {
    var a := new IoVec[1](_ => IoVec(0, 8));
    var v := new View(a, 1);
    ghost var e := v.Elems();
    assert e == [IoVec(0, 8)] && e[1..] == [] && e[..1] == e;
    var excess := v.ShrinkLessThan(5);
    kept := v.Sum();
  }

  lemma SliceTake(a: array<IoVec>, s: nat, n: nat, c: nat)
    requires c <= n && s + n <= a.Length
    ensures a[s..s + n][..c] == a[s..s + c]
  {
  }

  lemma AddrsNone()
    ensures Addrs([]) == [] && Total([]) == 0
  {
  }

  lemma TotalWhole(v: seq<IoVec>)
    ensures Total(v[..0]) == 0 && v[..|v|] == v && |Addrs(v)| == Total(v) && Addrs(v)[..Total(v)] == Addrs(v)
    ensures Addrs(v[..0]) == []
  {
  }

  function Min3(a: nat, b: nat, c: nat): (r: nat)
    ensures r <= a && r <= b && r <= c && (r == a || r == b || r == c)
  { if a <= b && a <= c then a else if b <= c then b else c }

  // One round of the loop of _copy_pipe_iov: copy as much as lies in the first
  // elements of both sides, then move both on.
  method CopyFront(mem: array<Byte>, dest: Iterator, src: Iterator, left: nat,
                   ghost m0: seq<Byte>, ghost to: seq<nat>, ghost from: seq<nat>, ghost k: nat) returns (step: nat)
    requires dest.Valid() && src.Valid() && dest != src && dest.cnt > 0 && src.cnt > 0
    requires CopyOk(mem.Length, to, from) && Copied(m0, mem[..], to, from, k)
    requires Tracks(dest.Rest(), to, k) && Tracks(src.Rest(), from, k)
    modifies mem, dest, src
    ensures dest.Valid() && src.Valid() && step <= left
    ensures Copied(m0, mem[..], to, from, k + step)
    ensures Tracks(dest.Rest(), to, k + step) && Tracks(src.Rest(), from, k + step)
    ensures dest.cnt <= old(dest.cnt) && src.cnt <= old(src.cnt)
    ensures step == left || dest.cnt < old(dest.cnt) || src.cnt < old(src.cnt)
  {
    hide *;
    var df := dest.Front();
    var sf := src.Front();
    ghost var dr, sr := dest.Rest(), src.Rest();
    step := Min3(left, df.len, sf.len);
    FrontStretch(dr, to, k, step);
    FrontStretch(sr, from, k, step);
    CopyStretch(mem, df.base, sf.base, step, m0, to, from, k);
    assert dest.Rest() == dr && src.Rest() == sr;
    dest.Advance(step);
    src.Advance(step);
  }

  // _copy_pipe_iov on two iterators.
  method CopyLoop(mem: array<Byte>, dest: Iterator, src: Iterator, size: nat, ghost to: seq<nat>, ghost from: seq<nat>)
    returns (n: nat)
    requires dest.Valid() && src.Valid() && dest != src && CopyOk(mem.Length, to, from)
    requires Tracks(dest.Rest(), to, 0) && Tracks(src.Rest(), from, 0)
    modifies mem, dest, src
    ensures n == Min3(size, |to|, |from|) && Copied(old(mem[..]), mem[..], to, from, n)
  {
    hide *;
    NoneCopied(mem[..], to, from);
    var left := size;
    while left > 0 && dest.cnt > 0 && src.cnt > 0
      invariant 0 <= left <= size && dest.Valid() && src.Valid()
      invariant Tracks(dest.Rest(), to, size - left) && Tracks(src.Rest(), from, size - left)
      invariant Copied(old(mem[..]), mem[..], to, from, size - left)
      decreases left + dest.cnt + src.cnt
    {
      var step := CopyFront(mem, dest, src, left, old(mem[..]), to, from, size - left);
      left := left - step;
    }
    n := size - left;
    dest.RestEmpty();
    src.RestEmpty();
    TracksEnd(dest.Rest(), to, n);
    TracksEnd(src.Rest(), from, n);
  }

  // memcpy_iov: the first min(size, |to|, |from|) bytes of the flattened
  // vectors are copied and nothing else changes, whatever the fragments.
  method MemcpyIov(mem: array<Byte>, d: array<IoVec>, dn: nat, s: array<IoVec>, sn: nat, size: nat) returns (n: nat)
    requires dn <= d.Length && sn <= s.Length
    requires CopyOk(mem.Length, Addrs(d[..dn]), Addrs(s[..sn]))
    modifies mem
    ensures n == Min3(size, |Addrs(d[..dn])|, |Addrs(s[..sn])|)
    ensures Copied(old(mem[..]), mem[..], Addrs(d[..dn]), Addrs(s[..sn]), n)
  {
    hide *;
    ghost var to, from := d[..dn], s[..sn];
    var dest := new Iterator(d, dn);
    var src := new Iterator(s, sn);
    TracksAll(to);
    TracksAll(from);
    n := CopyLoop(mem, dest, src, size, Addrs(to), Addrs(from));
    assert d[..dn] == to && s[..sn] == from;
  }

  // rest is what remains of the flattened vector s after k bytes.
  ghost predicate Tracks(rest: seq<IoVec>, s: seq<nat>, k: nat) { k <= |s| && Addrs(rest) == s[k..] }

  lemma TracksAll(v: seq<IoVec>)
    ensures Tracks(v, Addrs(v), 0)
  {
  }

  lemma TracksEnd(rest: seq<IoVec>, s: seq<nat>, k: nat)
    requires Tracks(rest, s, k)
    ensures k <= |s| && (rest == [] ==> k == |s|)
  {
  }

  // The head of the remaining vector is the next stretch of the whole.
  lemma FrontStretch(rest: seq<IoVec>, s: seq<nat>, k: nat, n: nat)
    requires Tracks(rest, s, k) && rest != [] && n <= rest[0].len
    ensures Stretch(s, k, n, rest[0].base) && Tracks(DropFront(rest, n), s, k + n)
  {
    DropFrontAddrs(rest, n);
    forall j | k <= j < k + n ensures s[j] == rest[0].base + (j - k) { assert s[j] == Addrs(rest)[j - k]; }
  }

  lemma NoneCopied(m: seq<Byte>, to: seq<nat>, from: seq<nat>)
    requires CopyOk(|m|, to, from)
    ensures Copied(m, m, to, from, 0)
  {
  }

  lemma StretchInside(s: seq<nat>, k: nat, n: nat, b: nat, size: nat)
    requires Stretch(s, k, n, b) && Inside(s, size)
    ensures n > 0 ==> b + n <= size
  {
    if n > 0 { assert s[k + n - 1] == b + n - 1; }
  }

  method CopyStretch(mem: array<Byte>, d: nat, s: nat, n: nat, ghost m0: seq<Byte>, ghost to: seq<nat>, ghost from: seq<nat>, ghost k: nat)
    requires CopyOk(mem.Length, to, from) && Copied(m0, mem[..], to, from, k)
    requires Stretch(to, k, n, d) && Stretch(from, k, n, s)
    modifies mem
    ensures Copied(m0, mem[..], to, from, k + n)
  {
    StretchInside(to, k, n, d, mem.Length);
    StretchInside(from, k, n, s, mem.Length);
    if n > 0 {
      Memcpy(mem, d, s, n);
      CopyStep(m0, old(mem[..]), mem[..], to, from, k, n, d, s);
    }
  }

  // ----- pipe ---------------------------------------------------------------------------

  // One round with a source that is consumed in place.
  method PipeFront(mem: array<Byte>, dest: Iterator, src: View, left: nat,
                   ghost m0: seq<Byte>, ghost to: seq<nat>, ghost from: seq<nat>, ghost k: nat) returns (step: nat)
    requires dest.Valid() && src.Valid() && dest.iov != src.iov && dest.cnt > 0 && src.cnt > 0
    requires CopyOk(mem.Length, to, from) && Copied(m0, mem[..], to, from, k)
    requires Tracks(dest.Rest(), to, k) && Tracks(src.Elems(), from, k)
    modifies mem, dest, src, src.iov
    ensures dest.Valid() && src.Valid() && step <= left
    ensures Copied(m0, mem[..], to, from, k + step)
    ensures Tracks(dest.Rest(), to, k + step) && Tracks(src.Elems(), from, k + step)
    ensures dest.cnt <= old(dest.cnt) && src.cnt <= old(src.cnt)
    ensures step == left || dest.cnt < old(dest.cnt) || src.cnt < old(src.cnt)
  {
    hide *;
    var df := dest.Front();
    var sf := src.Front();
    ghost var dr, sr := dest.Rest(), src.Elems();
    step := Min3(left, df.len, sf.len);
    FrontStretch(dr, to, k, step);
    FrontStretch(sr, from, k, step);
    CopyStretch(mem, df.base, sf.base, step, m0, to, from, k);
    assert dest.Rest() == dr && src.Elems() == sr;
    dest.Advance(step);
    src.Advance(step);
  }

  // pipe_iov: copies like memcpy_iov and takes exactly the copied bytes off
  // the front of the source.
  method PipeIov(mem: array<Byte>, d: array<IoVec>, dn: nat, src: View, size: nat) returns (n: nat)
    requires dn <= d.Length && src.Valid() && src.iov != d
    requires CopyOk(mem.Length, Addrs(d[..dn]), Addrs(src.Elems()))
    modifies mem, src, src.iov
    ensures n == Min3(size, |Addrs(d[..dn])|, |old(Addrs(src.Elems()))|)
    ensures Copied(old(mem[..]), mem[..], Addrs(d[..dn]), old(Addrs(src.Elems())), n)
    ensures src.Valid() && Addrs(src.Elems()) == old(Addrs(src.Elems()))[n..]
  {
    hide *;
    ghost var dv := d[..dn];
    ghost var to, from := Addrs(dv), Addrs(src.Elems());
    var dest := new Iterator(d, dn);
    TracksAll(dv);
    TracksAll(src.Elems());
    n := PipeLoop(mem, dest, src, size, to, from);
    assert d[..dn] == dv;
    TracksIs(src.Elems(), from, n);
  }

  method PipeLoop(mem: array<Byte>, dest: Iterator, src: View, size: nat, ghost to: seq<nat>, ghost from: seq<nat>)
    returns (n: nat)
    requires dest.Valid() && src.Valid() && dest.iov != src.iov && CopyOk(mem.Length, to, from)
    requires Tracks(dest.Rest(), to, 0) && Tracks(src.Elems(), from, 0)
    modifies mem, dest, src, src.iov
    ensures n == Min3(size, |to|, |from|) && Copied(old(mem[..]), mem[..], to, from, n)
    ensures src.Valid() && Tracks(src.Elems(), from, n)
  {
    hide *;
    NoneCopied(mem[..], to, from);
    var left := size;
    while left > 0 && dest.cnt > 0 && src.cnt > 0
      invariant 0 <= left <= size && dest.Valid() && src.Valid()
      invariant Tracks(dest.Rest(), to, size - left) && Tracks(src.Elems(), from, size - left)
      invariant Copied(old(mem[..]), mem[..], to, from, size - left)
      decreases left + dest.cnt + src.cnt
    {
      var step := PipeFront(mem, dest, src, left, old(mem[..]), to, from, size - left);
      left := left - step;
    }
    n := size - left;
    dest.RestEmpty();
    src.ElemsEmpty();
    TracksEnd(dest.Rest(), to, n);
    TracksEnd(src.Elems(), from, n);
  }

  lemma TracksIs(rest: seq<IoVec>, s: seq<nat>, k: nat)
    requires Tracks(rest, s, k)
    ensures k <= |s| && Addrs(rest) == s[k..]
  {
  }

  // ----- slice --------------------------------------------------------------------------

  ghost function Take(s: seq<nat>, n: nat): seq<nat> { s[..Min(n, |s|)] }

  // The bytes [offset, offset + count) of a vector, as far as they exist.
  ghost function Window(v: seq<IoVec>, count: nat, offset: nat): seq<nat> {
    if offset >= Total(v) then [] else Take(Addrs(v)[offset..], count)
  }

  // The elements from the first one that is longer than offset.
  ghost function Skip(v: seq<IoVec>, offset: nat): seq<IoVec> {
    if v != [] && v[0].len <= offset then Skip(v[1..], offset) else v
  }

  lemma TakeHead(w: seq<IoVec>, o: nat, c: nat)
    requires w != [] && o <= w[0].len
    ensures var n := Min(w[0].len - o, c);
            Range(w[0].base + o, n) + Take(Addrs(w[1..]), c - n) == Take(Addrs(w)[o..], c)
  {
    hide Addrs;
    AddrsCons(w);
    var r, t, n := Range(w[0].base, w[0].len), Addrs(w[1..]), Min(w[0].len - o, c);
    assert r[o..][..n] == Range(w[0].base + o, n);
    assert (r + t)[o..] == r[o..] + t;
  }

  // Before the first fragment the wanted window is that of the elements still
  // to come; after it, the fragments followed by what is left to take.
  ghost predicate SliceState(o: seq<IoVec>, w: seq<IoVec>, left: nat, offset: nat, want: seq<nat>) {
    if o == [] then want == Window(Skip(w, offset), left, offset)
    else want == Addrs(o) + Take(Addrs(w), left)
  }

  lemma SliceStart(v: seq<IoVec>, count: nat, offset: nat)
    ensures v[0..] == v && SliceState([], v, count, offset, Window(Skip(v, offset), count, offset))
    ensures Total([]) == 0 && Addrs([]) == []
  {
  }

  lemma SliceTaken(o: seq<IoVec>, w: seq<IoVec>, left: nat, offset: nat, want: seq<nat>, e: IoVec)
    requires w != [] && SliceState(o, w, left, offset, want) && left > 0
    requires o == [] ==> w[0].len > offset && e == IoVec(w[0].base + offset, Min(left, w[0].len - offset))
    requires o != [] ==> e == IoVec(w[0].base, Min(left, w[0].len))
    ensures SliceState(o + [e], w[1..], left - e.len, offset, want)
    ensures Addrs(o + [e]) <= want && Total(o + [e]) == Total(o) + e.len
  {
    hide Addrs, Total;
    AddrsAppend(o, [e]);
    AddrsOne(e);
    AddrsNone();
    TakeHead(w, if o == [] then offset else 0, left);
    AddrsCons(w);
    if o != [] { assert Addrs(w)[0..] == Addrs(w); }
  }

  lemma SlicePassed(o: seq<IoVec>, w: seq<IoVec>, left: nat, offset: nat, want: seq<nat>)
    requires w != [] && SliceState(o, w, left, offset, want)
    requires left == 0 || (o == [] && w[0].len <= offset)
    ensures SliceState(o, w[1..], left, offset, want)
  {
    hide Addrs, Total;
  }

  lemma SliceEnd(o: seq<IoVec>, left: nat, offset: nat, want: seq<nat>)
    ensures SliceState(o, [], left, offset, want) ==> Addrs(o) == want
  {
    AddrsNone();
  }

  // slice() yields the bytes [offset, offset + count) if and only if none are
  // asked for, or they lie past the end, or no bytes were skipped.
  lemma SliceExact(v: seq<IoVec>, count: nat, offset: nat)
    requires Distinct(Addrs(v))
    ensures Window(Skip(v, offset), count, offset) == Window(v, count, offset)
            <==> count == 0 || offset >= Total(v) || Total(Skip(v, offset)) == Total(v)
  {
    var s := Skip(v, offset);
    var p := SkipSplit(v, offset);
    AddrsAppend(p, s);
    assert Addrs(v) == Addrs(p) + Addrs(s);
    if Total(p) == 0 {
      assert Addrs(v) == Addrs(s);
    } else if count > 0 && offset < Total(v) {
      assert Window(v, count, offset)[0] == Addrs(v)[offset];
      if s != [] {
        assert Window(s, count, offset)[0] == Addrs(s)[offset] == Addrs(v)[Total(p) + offset];
      }
    }
  }

  lemma {:induction false} SkipSplit(v: seq<IoVec>, offset: nat) returns (p: seq<IoVec>)
    ensures v == p + Skip(v, offset) && (Skip(v, offset) != [] ==> Skip(v, offset)[0].len > offset)
    ensures Total(v) == Total(p) + Total(Skip(v, offset))
    ensures Skip(v, offset) != [] ==> offset < Total(Skip(v, offset))
  {
    p := [];
    if v != [] && v[0].len <= offset {
      var q := SkipSplit(v[1..], offset);
      p := [v[0]] + q;
      assert p[1..] == q;
    }
  }

  // Two elements of one byte, sliced at offset 1: nothing instead of the second byte.
  lemma SliceMisses()
    ensures var v := [IoVec(0, 1), IoVec(1, 1)];
            Window(v, 1, 1) == [1] && Window(Skip(v, 1), 1, 1) == []
  {
    var v := [IoVec(0, 1), IoVec(1, 1)];
    assert v[1..] == [IoVec(1, 1)] && v[1..][1..] == [];
    AddrsOne(v[1]);
    AddrsCons(v);
    assert Addrs(v) == [0, 1];
  }
}
