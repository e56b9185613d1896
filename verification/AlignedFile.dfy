// AlignedFileAdaptor of fs/aligned-file.cpp: unaligned reads and writes through
// a file that is only accessed in whole blocks of 2^shift bytes.
module AlignedFile {
  import opened FlatFile
  import opened RangeSplit
  import opened Arith

  // ----- the blocks touched by a range -----------------------------------------------

  // What init() of the shift and mask splitter says in terms of offsets.
  ghost predicate Span(al: nat, rs: Split, a: nat, e: nat) {
    && al > 0 && a <= rs.begin < rs.end <= e && a + al <= e
    && rs.begin - a == rs.beginRem < al
    && (if rs.endRem == 0 then rs.end == e else rs.end - (e - al) == rs.endRem < al)
    && (rs.smallNote.length > 0 <==> rs.beginRem > 0 && rs.endRem > 0 && e == a + al)
    && (e != a + al ==> a + 2 * al <= e)
  }

  // multiply(aend - abegin) is the distance between the two block starts.
  lemma AlignedLength(shift: nat, i: nat, j: nat)
    requires i <= j
    ensures Start(Power2(shift), j - i) == Start(Power2(shift), j) - Start(Power2(shift), i)
  {
    ShlIsMul(i, shift);
    ShlIsMul(j, shift);
    ShlIsMul(j - i, shift);
    var d := Pow2(shift);
    assert j * d - i * d == (j - i) * d;
  }

  lemma SplitSpan(shift: nat, rs: Split)
    requires SplitOk(Power2(shift), rs) && rs.begin < rs.end
    ensures rs.abegin < rs.aend
    ensures var sp := Power2(shift); Span(Pow2(shift), rs, Start(sp, rs.abegin), Start(sp, rs.aend))
  {
    hide Start, Pow2;
    var sp := Power2(shift);
    EndBlock(sp, rs);
    BlockOrder(sp, rs.begin, rs.abegin, rs.end, rs.apend);
    StartStep(sp, rs.abegin);
    StartStep(sp, rs.apend);
    if rs.abegin + 1 < rs.aend {
      StartStep(sp, rs.abegin + 1);
      if rs.abegin + 2 < rs.aend { StartMono(sp, rs.abegin + 2, rs.aend); }
    }
  }

  // ----- what the temporary buffer must hold ------------------------------------------

  // tmp is the content of [a, a + |tmp|) as it should be after writing d at
  // off, except that bytes past both the data and the old end do not matter.
  ghost predicate Patched(f: seq<Byte>, d: seq<Byte>, off: nat, tmp: seq<Byte>, a: nat) {
    forall i :: 0 <= i < |tmp| && (a + i < off + |d| || a + i < |f|) ==> tmp[i] == WrittenByte(f, d, off, a + i)
  }

  // Writing the patched blocks back and cutting the file to the size it should
  // have is the flat write.
  lemma WriteBackRefines(f: seq<Byte>, d: seq<Byte>, off: nat, tmp: seq<Byte>, a: nat)
    requires d != [] && a <= off && off + |d| <= a + |tmp| && Patched(f, d, off, tmp, a)
    ensures var w, size := Write(f, tmp, a), Max(|f|, off + |d|);
            (if size < a + |tmp| then Truncate(w, size) else w) == Write(f, d, off)
  {
    var w, size := Write(f, tmp, a), Max(|f|, off + |d|);
    var r := if size < a + |tmp| then Truncate(w, size) else w;
    assert |r| == |Write(f, d, off)|;
    forall i | 0 <= i < |r| ensures r[i] == Write(f, d, off)[i] {
      assert r[i] == w[i] == WrittenByte(f, tmp, a, i);
      if a <= i < a + |tmp| { assert tmp[i - a] == WrittenByte(f, d, off, a + (i - a)); }
    }
  }

  class AlignedFileAdaptor {
    const file: File
    const shift: nat
    const alignMemory: bool

    constructor (f: File, k: nat, am: bool)
      ensures file == f && shift == k && alignMemory == am
    {
      file, shift, alignMemory := f, k, am;
    }

    // Fills tmp[0..al) with the first block, zeros past the end of the file.
    method LoadFirstBlock(tmp: array<Byte>, a: nat) returns (ok: bool)
      requires Pow2(shift) <= tmp.Length
      modifies tmp
      ensures ok
      ensures forall i :: 0 <= i < Pow2(shift) ==>
                tmp[i] == if a + i < |file.content| then file.content[a + i] else 0
      ensures forall i :: Pow2(shift) <= i < tmp.Length ==> tmp[i] == old(tmp[i])
    {
      var al := Pow2(shift);
      var ret := file.PRead(tmp, 0, al, a);
      assert forall i :: 0 <= i < ret ==> tmp[..][i] == file.content[a + i];
      if a + ret < |file.content| && ret < al {
        return false;
      }
      if ret < al {
        forall i | ret <= i < al { tmp[i] := 0; }
      }
      ok := true;
    }

    // Loads the last block of tmp, which covers [a, a + tmp.Length), as far as
    // the file reaches.
    method LoadLastBlock(tmp: array<Byte>, a: nat) returns (ok: bool)
      requires Pow2(shift) <= tmp.Length
      modifies tmp
      ensures ok
      ensures forall i :: tmp.Length - Pow2(shift) <= i < tmp.Length && a + i < |file.content| ==>
                tmp[i] == file.content[a + i]
      ensures forall i :: 0 <= i < tmp.Length - Pow2(shift) ==> tmp[i] == old(tmp[i])
    {
      var al := Pow2(shift);
      var at := tmp.Length - al;
      var ret := file.PRead(tmp, at, al, a + at);
      assert forall i :: at <= i < at + ret ==> tmp[..][i] == file.content[a + i];
      assert forall i :: 0 <= i < at ==> tmp[..][i] == old(tmp[i]);
      if a + at + ret < |file.content| && ret < al {
        return false;
      }
      ok := true;
    }

    // The read-modify-write buffer for a range that is not block aligned.
    method FillBuffer(tmp: array<Byte>, rs: Split, a: nat, buf: array<Byte>) returns (ok: bool)
      requires Span(Pow2(shift), rs, a, a + tmp.Length) && rs.end - rs.begin <= buf.Length && buf != tmp
      modifies tmp
      ensures ok && Patched(file.content, buf[..rs.end - rs.begin], rs.begin, tmp[..], a)
    {
      var al, filesize := Pow2(shift), |file.content|;
      var count := rs.end - rs.begin;
      if rs.beginRem > 0 {
        ok := LoadFirstBlock(tmp, a);
        if !ok { return; }
      }
      if rs.smallNote.length == 0 && rs.endRem > 0 {
        var off := a + tmp.Length - al;
        if filesize - off > rs.endRem {
          ok := LoadLastBlock(tmp, a);
          if !ok { return; }
        }
      }
      forall i | 0 <= i < count { tmp[rs.beginRem + i] := buf[i]; }
      ok := true;
    }

    // The read-modify-write path: load the partial blocks, patch, write back.
    method WriteBlocks(rs: Split, a: nat, len: nat, buf: array<Byte>) returns (n: int)
      requires Span(Pow2(shift), rs, a, a + len) && rs.end - rs.begin <= buf.Length
      modifies file
      ensures n == rs.end - rs.begin && file.content == Write(old(file.content), buf[..n], rs.begin)
    {
      var offset, count := rs.begin, rs.end - rs.begin;
      var filesize := |file.content|;
      var supposeFilesize := if offset + count > filesize then offset + count else filesize;
      var tmp := new Byte[len];
      var ok := FillBuffer(tmp, rs, a, buf);
      if !ok { return -1; }
      hide Patched, Span;
      WriteBackRefines(file.content, buf[..count], offset, tmp[..], a);
      assert tmp[0..0 + tmp.Length] == tmp[..];
      var actualWrite := file.PWrite(tmp, 0, tmp.Length, a);
      var currentTail := a + actualWrite;
      if currentTail < offset { return -1; }
      n := if currentTail - offset >= count then count else currentTail - offset;
      if supposeFilesize < currentTail {
        file.FTruncate(supposeFilesize);
      }
    }

    // pwrite through the adaptor is pwrite on the flat file.  bufAligned says
    // whether the caller's buffer is aligned in memory.
    method PWrite(buf: array<Byte>, count: nat, offset: nat, bufAligned: bool) returns (n: int)
      requires count <= buf.Length
      modifies file
      ensures n == count && file.content == Write(old(file.content), buf[..count], offset)
    {
      hide Start, Pow2, Span;
      if count == 0 { return 0; }
      var sp := Power2(shift);
      var rs := Init(sp, offset, count);
      if rs.beginRem == 0 && rs.endRem == 0 && (!alignMemory || bufAligned) {
        assert buf[0..0 + count] == buf[..count];
        n := file.PWrite(buf, 0, count, offset);
        return;
      }
      SplitSpan(shift, rs);
      AlignedLength(shift, rs.abegin, rs.aend);
      hide SplitOk;
      n := WriteBlocks(rs, Start(sp, rs.abegin), Start(sp, rs.aend - rs.abegin), buf);
    }

    // Reads whole blocks and copies the wanted part out.
    method ReadBlocks(rs: Split, a: nat, len: nat, buf: array<Byte>) returns (n: int)
      requires Span(Pow2(shift), rs, a, a + len) && rs.end - rs.begin <= buf.Length
      modifies buf
      ensures n == -1 <==> rs.begin > |file.content| && rs.beginRem > 0
      ensures n == -1 ==> buf[..] == old(buf[..])
      ensures n != -1 ==> ReadInto(file.content, rs.begin, rs.end - rs.begin, old(buf[..]), buf[..], n)
    {
      hide Pow2;
      var count := rs.end - rs.begin;
      var tmp := new Byte[len];
      var ret := file.PRead(tmp, 0, len, a);
      if ret < rs.beginRem {
        return -1;
      }
      var actualRead := ret - rs.beginRem;
      if actualRead > count { actualRead := count; }
      forall i | 0 <= i < actualRead { buf[i] := tmp[rs.beginRem + i]; }
      n := actualRead;
      forall i | 0 <= i < n ensures buf[i] == file.content[rs.begin + i] {
        assert tmp[..][rs.beginRem + i] == file.content[a + (rs.beginRem + i)];
      }
    }

    // pread through the adaptor is pread on the flat file, except that a read
    // from an unaligned offset past the end of the file fails.
    method PRead(buf: array<Byte>, count: nat, offset: nat, bufAligned: bool) returns (n: int)
      requires count <= buf.Length
      modifies buf
      ensures n == -1 <==> count > 0 && offset > |file.content| && offset % Pow2(shift) != 0
      ensures n == -1 ==> buf[..] == old(buf[..])
      ensures n != -1 ==> ReadInto(file.content, offset, count, old(buf[..]), buf[..], n)
    {
      hide Start, Pow2, Span;
      if count == 0 { return 0; }
      var sp := Power2(shift);
      var rs := Init(sp, offset, count);
      RemainderIsMod(shift, offset, rs.abegin, rs.beginRem);
      SplitSpan(shift, rs);
      AlignedLength(shift, rs.abegin, rs.aend);
      hide SplitOk;
      if rs.beginRem == 0 && rs.endRem == 0 && (!alignMemory || bufAligned) {
        n := file.PRead(buf, 0, count, offset);
        return;
      }
      n := ReadBlocks(rs, Start(sp, rs.abegin), Start(sp, rs.aend - rs.abegin), buf);
    }
  }

  // The one difference, on a file of one byte with blocks of two bytes read at
  // offset 3: the flat file reports the end of file, the adaptor an error.
  method ReadPastEnd() returns (flat: int, adapted: int)
    ensures flat == 0 && adapted == -1
  {
    var f := new File([7]);
    var buf := new Byte[1];
    flat := f.PRead(buf, 0, 1, 3);
    var adaptor := new AlignedFileAdaptor(f, 1, false);
    assert Pow2(1) == 2 * Pow2(0);
    adapted := adaptor.PRead(buf, 1, 3, true);
  }

  lemma RemainderIsMod(shift: nat, x: nat, down: nat, rem: nat)
    requires x == Start(Power2(shift), down) + rem && rem < Pow2(shift)
    ensures rem == x % Pow2(shift)
  {
    ShlIsMul(down, shift);
    DivModUnique(x, Pow2(shift), down, rem);
  }
}
