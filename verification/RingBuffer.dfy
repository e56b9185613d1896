// The blocking ring of common/ring.h and common/ring.cpp.  A reader or writer
// works in rounds; between two rounds it may wait and others may run, so every
// interleaving is a sequence of rounds.
module RingBuffer {
  import opened Arith
  import opened FlatFile

  // The i-th slot from begin on.
  ghost function Slot(n: nat, begin: nat, i: nat): nat
    requires begin < n && i < n
  { if begin + i < n then begin + i else begin + i - n }

  // The bytes from begin up to end, across the wrap-around.
  ghost function Circle(b: seq<Byte>, begin: nat, end: nat): seq<Byte>
    requires begin < |b| && end < |b|
  {
    var n := if begin <= end then end - begin else |b| - begin + end;
    seq(n, i requires 0 <= i < n => b[Slot(|b|, begin, i)])
  }

  lemma ModSize(n: nat, begin: nat, end: nat)
    requires begin < n && end < n
    ensures (end - begin) % n == if begin <= end then end - begin else n - begin + end
    ensures (end + 1) % n == if end + 1 == n then 0 else end + 1
  {
    DivModUnique(end - begin, n, if begin <= end then 0 else -1, if begin <= end then end - begin else n - begin + end);
    DivModUnique(end + 1, n, if end + 1 == n then 1 else 0, if end + 1 == n then 0 else end + 1);
  }

  lemma CircleSize(b: seq<Byte>, begin: nat, end: nat)
    requires begin < |b| && end < |b|
    ensures |Circle(b, begin, end)| == if begin <= end then end - begin else |b| - begin + end
  {
  }

  // Taking a stretch off the front.
  lemma CircleTake(b: seq<Byte>, begin: nat, end: nat, len: nat)
    requires begin < |b| && end < |b| && begin != end && begin + len <= if begin < end then end else |b|
    ensures var next := if begin + len == |b| then 0 else begin + len;
            Circle(b, begin, end) == b[begin..begin + len] + Circle(b, next, end)
  {
    var next := if begin + len == |b| then 0 else begin + len;
    var c, r := Circle(b, begin, end), b[begin..begin + len] + Circle(b, next, end);
    forall i | 0 <= i < |c| ensures c[i] == r[i] {
      if i >= len { assert r[i] == Circle(b, next, end)[i - len]; }
    }
  }

  // Overwriting a stretch.
  ghost function Splice(b: seq<Byte>, at: nat, d: seq<Byte>): seq<Byte>
    requires at + |d| <= |b|
  { b[..at] + d + b[at + |d|..] }

  // Putting a stretch at the back, into slots that are free.
  lemma CirclePut(b: seq<Byte>, begin: nat, end: nat, d: seq<Byte>)
    requires begin < |b| && end < |b|
    requires end + |d| <= if end < begin then begin - 1 else if begin == 0 then |b| - 1 else |b|
    ensures var next := if end + |d| == |b| then 0 else end + |d|;
            Circle(Splice(b, end, d), begin, next) == Circle(b, begin, end) + d
  {
    var t, next := Splice(b, end, d), if end + |d| == |b| then 0 else end + |d|;
    SpliceAt(b, end, d);
    var c, r := Circle(b, begin, end), Circle(t, begin, next);
    assert |r| == |c| + |d|;
    forall i | 0 <= i < |r| ensures r[i] == (c + d)[i] {
      var s := Slot(|b|, begin, i);
      if i >= |c| { assert s == end + (i - |c|) && t[s] == t[end..end + |d|][i - |c|]; }
    }
  }

  // memcpy between two buffers.
  method Copy(from: array<Byte>, f: nat, to: array<Byte>, t: nat, n: nat)
    requires f + n <= from.Length && t + n <= to.Length && from != to
    modifies to
    ensures to[..] == Splice(old(to[..]), t, from[f..f + n])
  {
    forall i | 0 <= i < n { to[t + i] := from[f + i]; }
  }

  class Ring {
    const buf: array<Byte>
    var begin: nat
    var end: nat
    ghost var written: seq<Byte>
    ghost var taken: seq<Byte>

    // What is in the ring, oldest first.
    ghost function Contents(): seq<Byte>
      requires begin < buf.Length && end < buf.Length
      reads this, buf
    { Circle(buf[..], begin, end) }

    // Bytes come out in the order they went in.
    ghost predicate Valid()
      reads this, buf
    { buf.Length >= 2 && begin < buf.Length && end < buf.Length && taken + Contents() == written }

    predicate Empty() reads this { begin == end }

    predicate Full()
      requires buf.Length > 0
      reads this
    { (end + 1) % buf.Length == begin }

    // One slot always stays free; size() is the number of bytes in the ring.
    lemma Occupancy()
      requires Valid()
      ensures |Contents()| == (end - begin) % buf.Length <= buf.Length - 1
      ensures (Empty() <==> Contents() == []) && (Full() <==> |Contents()| == buf.Length - 1)
      ensures |written| - |taken| == |Contents()|
    {
      ModSize(buf.Length, begin, end);
      CircleSize(buf[..], begin, end);
      hide Circle;
    }

    method Size() returns (n: nat)
      requires Valid()
      ensures n == |Contents()|
    {
      Occupancy();
      n := (end - begin) % buf.Length;
    }

    // A reader and a writer are never both blocked.
    lemma NotBothBlocked()
      requires Valid()
      ensures !(Empty() && Full())
    {
      Occupancy();
    }

    constructor (capacity: nat)
      requires capacity >= 2
      ensures Valid() && fresh(buf) && buf.Length == capacity && Contents() == [] && written == taken == []
    {
      buf := new Byte[capacity];
      begin, end := 0, 0;
      written, taken := [], [];
    }

    // One round of a read: takes at least one byte, and what it delivers are the
    // oldest bytes in the ring: all it wants, or all there are, or all up to the
    // wrap-around.
    method ReadRound(p: array<Byte>, at: nat, cnt: nat) returns (len: nat)
      requires Valid() && !Empty() && cnt > 0 && at + cnt <= p.Length && p != buf
      modifies this, p
      ensures Valid() && 1 <= len <= cnt && len <= |old(Contents())| && written == old(written)
      ensures Contents() == old(Contents())[len..] && taken == old(taken) + old(Contents())[..len]
      ensures p[at..at + len] == old(Contents())[..len]
      ensures len == cnt || Empty() || begin == 0
      ensures forall i :: 0 <= i < p.Length && !(at <= i < at + len) ==> p[i] == old(p[i])
    {
      hide Circle, Splice;
      ghost var c, d := Contents(), p[..];
      var limit := if begin < end then end else buf.Length;
      len := Min(cnt, limit - begin);
      CircleTake(buf[..], begin, end, len);
      Copy(buf, begin, p, at, len);
      SpliceAt(d, at, buf[begin..begin + len]);
      begin := begin + len;
      if limit == buf.Length && begin == buf.Length { begin := 0; }
      taken := taken + c[..len];
    }

    // One round of a write: accepts at least one byte and appends what it accepts:
    // all there is, or all that fits, or all up to the wrap-around.
    method WriteRound(p: array<Byte>, at: nat, cnt: nat) returns (len: nat)
      requires Valid() && !Full() && cnt > 0 && at + cnt <= p.Length && p != buf
      modifies this, buf
      ensures Valid() && 1 <= len <= cnt && taken == old(taken)
      ensures Contents() == old(Contents()) + p[at..at + len] && written == old(written) + p[at..at + len]
      ensures len == cnt || Full() || end == 0
    {
      hide Circle, Splice, Full;
      ghost var c := Contents();
      NotFull();
      var limit := if end < begin then begin - 1 else if begin == 0 then buf.Length - 1 else buf.Length;
      len := Min(cnt, limit - end);
      CirclePut(buf[..], begin, end, p[at..at + len]);
      Copy(p, at, buf, end, len);
      end := end + len;
      if end == buf.Length { end := 0; }
      assert taken + (c + p[at..at + len]) == (taken + c) + p[at..at + len];
      written := written + p[at..at + len];
      FullIff();
    }

    lemma FullIff()
      requires begin < buf.Length && end < buf.Length
      ensures Full() <==> begin == if end + 1 == buf.Length then 0 else end + 1
    {
      ModSize(buf.Length, begin, end);
    }

    lemma NotFull()
      requires Valid() && !Full()
      ensures end < begin ==> end < begin - 1
      ensures end >= begin && begin == 0 ==> end < buf.Length - 1
    {
    }
  }

  lemma SpliceAt(b: seq<Byte>, at: nat, d: seq<Byte>)
    requires at + |d| <= |b|
    ensures |Splice(b, at, d)| == |b| && Splice(b, at, d)[at..at + |d|] == d
    ensures forall i :: 0 <= i < |b| && !(at <= i < at + |d|) ==> Splice(b, at, d)[i] == b[i]
  {
  }

  // ----- interleavings ------------------------------------------------------------------

  // One round: of a reader that still wants some bytes, or of a writer that
  // still has some.
  datatype Round = Reader(want: nat) | Writer(data: seq<Byte>)

  // What a round may do to a ring of capacity cap holding size bytes: it moves
  // nothing exactly when it has nothing to do or is blocked.
  ghost predicate RoundOk(cap: nat, round: Round, moved: nat, size: nat, size': nat) {
    match round
    case Reader(want) => moved <= want && size' == size - moved && (moved == 0 <==> want == 0 || size == 0)
    case Writer(data) =>
      moved <= |data| && size' == size + moved <= cap - 1 && (moved == 0 <==> data == [] || size == cap - 1)
  }

  // A run: what each round moved, and the occupancy before and after it.
  ghost predicate RunOk(cap: nat, rounds: seq<Round>, moved: seq<nat>, sizes: seq<nat>) {
    && |moved| == |rounds| && |sizes| == |rounds| + 1 && sizes[0] == 0
    && forall i :: 0 <= i < |rounds| ==> RoundOk(cap, rounds[i], moved[i], sizes[i], sizes[i + 1])
  }

  ghost function Put(round: Round, n: nat): seq<Byte> {
    if round.Writer? && n <= |round.data| then round.data[..n] else []
  }

  // All bytes that writers have put in, in order.
  ghost function Accepted(rounds: seq<Round>, moved: seq<nat>): seq<Byte>
    requires |moved| == |rounds|
  {
    if rounds == [] then []
    else Accepted(rounds[..|rounds| - 1], moved[..|rounds| - 1]) + Put(rounds[|rounds| - 1], moved[|rounds| - 1])
  }

  lemma OneMoreRound(cap: nat, rounds: seq<Round>, moved: seq<nat>, sizes: seq<nat>, round: Round, n: nat, size: nat)
    requires RunOk(cap, rounds, moved, sizes) && RoundOk(cap, round, n, sizes[|rounds|], size)
    ensures RunOk(cap, rounds + [round], moved + [n], sizes + [size])
    ensures Accepted(rounds + [round], moved + [n]) == Accepted(rounds, moved) + Put(round, n)
  {
    assert (rounds + [round])[..|rounds|] == rounds && (moved + [n])[..|rounds|] == moved;
  }

  method DoRound(r: Ring, round: Round) returns (n: nat, got: seq<Byte>)
    requires r.Valid()
    modifies r, r.buf
    ensures r.Valid() && RoundOk(r.buf.Length, round, n, |old(r.Contents())|, |r.Contents()|)
    ensures got + r.Contents() == old(r.Contents()) + Put(round, n) && (round.Writer? ==> got == [])
  {
    hide Circle;
    n, got := 0, [];
    ghost var c := r.Contents();
    r.Occupancy();
    match round
    case Reader(want) =>
      if !r.Empty() && want > 0 {
        var p := new Byte[want];
        n := r.ReadRound(p, 0, want);
        got := p[..n];
        assert p[..n] == p[0..0 + n] && c[..n] + c[n..] == c;
      }
    case Writer(data) =>
      if !r.Full() && data != [] {
        var p := new Byte[|data|](i requires 0 <= i < |data| => data[i]);
        n := r.WriteRound(p, 0, |data|);
        assert p[0..0 + n] == data[..n];
        r.Occupancy();
      } else {
        assert c == c + data[..0];
      }
  }

  // Any interleaving of any number of readers and writers: the bytes read,
  // followed by those still in the ring, are the bytes written; the occupancy
  // never exceeds the capacity less one; every round that is not blocked moves
  // at least one byte.
  method Interleave(r: Ring, rounds: seq<Round>) returns (got: seq<Byte>, moved: seq<nat>, sizes: seq<nat>)
    requires r.Valid() && r.Contents() == []
    modifies r, r.buf
    ensures RunOk(r.buf.Length, rounds, moved, sizes)
    ensures r.Valid() && got + r.Contents() == Accepted(rounds, moved) && |r.Contents()| == sizes[|rounds|]
  {
    hide Circle, RunOk, RoundOk, Accepted, Put;
    got, moved, sizes := [], [], [0];
    NoRounds(r.buf.Length);
    for k := 0 to |rounds|
      invariant r.Valid() && |moved| == k && |sizes| == k + 1 && |r.Contents()| == sizes[k]
      invariant RunOk(r.buf.Length, rounds[..k], moved, sizes)
      invariant got + r.Contents() == Accepted(rounds[..k], moved)
    {
      ghost var c := r.Contents();
      var n, g := DoRound(r, rounds[k]);
      var size := r.Size();
      OneMoreRound(r.buf.Length, rounds[..k], moved, sizes, rounds[k], n, size);
      assert rounds[..k] + [rounds[k]] == rounds[..k + 1];
      Regroup(got, g, r.Contents(), c, Put(rounds[k], n));
      got, moved, sizes := got + g, moved + [n], sizes + [size];
    }
    assert rounds[..|rounds|] == rounds;
  }

  lemma NoRounds(cap: nat)
    ensures RunOk(cap, [], [], [0]) && Accepted([], []) == []
  {
  }

  lemma Regroup(got: seq<Byte>, g: seq<Byte>, c': seq<Byte>, c: seq<Byte>, put: seq<Byte>)
    requires g + c' == c + put
    ensures (got + g) + c' == (got + c) + put
  {
    assert (got + g) + c' == got + (g + c') && (got + c) + put == got + (c + put);
  }

  // ----- calls ------------------------------------------------------------------------------

  // A read or write call: waiting for its lock, at work, or returned.  from and
  // at are where in the stream the call started to work.
  datatype Call =
    | Idle
    | ReadWait(want: nat)
    | Reading(want: nat, got: seq<Byte>, from: nat)
    | ReadDone(want: nat, got: seq<Byte>, from: nat)
    | WriteWait(data: seq<Byte>)
    | Writing(data: seq<Byte>, put: nat, at: nat)
    | WriteDone(data: seq<Byte>, put: nat, at: nat)

  // All bytes ever written, how many of them were read, and the calls; reader
  // and writer are the holders of m_read_lock and m_write_lock, or -1.
  datatype System = System(cap: nat, written: seq<Byte>, taken: nat, calls: map<nat, Call>, reader: int, writer: int)

  // One round of a thread at work moves n bytes; an interrupted wait ends the call.
  datatype Event =
    | CallRead(tid: nat, want: nat) | CallWrite(tid: nat, data: seq<Byte>)
    | Lock(tid: nat) | Work(tid: nat, n: nat) | Return(tid: nat) | Interrupt(tid: nat)

  function CallOf(s: System, tid: nat): Call { if tid in s.calls then s.calls[tid] else Idle }

  function Goto(s: System, tid: nat, c: Call): System { s.(calls := s.calls[tid := c]) }

  predicate Finished(c: Call) { c.Idle? || c.ReadDone? || c.WriteDone? }

  function ReadWork(s: System, tid: nat, c: Call, n: nat): System
    requires c.Reading? && s.taken + n <= |s.written|
  { Goto(s, tid, Reading(c.want, c.got + s.written[s.taken..s.taken + n], c.from)).(taken := s.taken + n) }

  function WriteWork(s: System, tid: nat, c: Call, n: nat): System
    requires c.Writing? && c.put + n <= |c.data|
  { Goto(s, tid, Writing(c.data, c.put + n, c.at)).(written := s.written + c.data[c.put..c.put + n]) }

  // Events that cannot happen leave the system as it is.  A round moves what
  // DoRound may move.
  ghost function React(s: System, e: Event): System
    requires s.taken <= |s.written|
  {
    var c, size := CallOf(s, e.tid), |s.written| - s.taken;
    match e
    case CallRead(tid, want) => if Finished(c) then Goto(s, tid, ReadWait(want)) else s
    case CallWrite(tid, data) => if Finished(c) then Goto(s, tid, WriteWait(data)) else s
    case Lock(tid) =>
      if c.ReadWait? && s.reader == -1 then Goto(s, tid, Reading(c.want, [], s.taken)).(reader := tid)
      else if c.WriteWait? && s.writer == -1 then Goto(s, tid, Writing(c.data, 0, |s.written|)).(writer := tid)
      else s
    case Work(tid, n) =>
      if c.Reading? && |c.got| <= c.want && n <= size && RoundOk(s.cap, Reader(c.want - |c.got|), n, size, size - n)
      then ReadWork(s, tid, c, n)
      else if c.Writing? && c.put <= |c.data| && RoundOk(s.cap, Writer(c.data[c.put..]), n, size, size + n)
      then WriteWork(s, tid, c, n)
      else s
    case Return(tid) =>
      if c.Reading? && |c.got| == c.want then Goto(s, tid, ReadDone(c.want, c.got, c.from)).(reader := -1)
      else if c.Writing? && c.put == |c.data| then Goto(s, tid, WriteDone(c.data, c.put, c.at)).(writer := -1)
      else s
    case Interrupt(tid) =>
      if c.Reading? && size == 0 then Goto(s, tid, ReadDone(c.want, c.got, c.from)).(reader := -1)
      else if c.Writing? && size == s.cap - 1 then Goto(s, tid, WriteDone(c.data, c.put, c.at)).(writer := -1)
      else s
  }

  // What a call has read or written is one stretch of the stream.
  ghost predicate CallOk(s: System, tid: nat, c: Call) {
    match c
    case Reading(want, got, from) =>
      s.reader == tid && |got| <= want && from + |got| == s.taken <= |s.written| && got == s.written[from..from + |got|]
    case ReadDone(want, got, from) => |got| <= want && from + |got| <= s.taken <= |s.written| && got == s.written[from..from + |got|]
    case Writing(data, put, at) =>
      s.writer == tid && put <= |data| && at + put == |s.written| && s.written[at..at + put] == data[..put]
    case WriteDone(data, put, at) => put <= |data| && at + put <= |s.written| && s.written[at..at + put] == data[..put]
    case _ => true
  }

  ghost function ReadEnd(c: Call): nat { if c.Reading? || c.ReadDone? then c.from + |c.got| else 0 }

  ghost function WriteEnd(c: Call): nat { if c.Writing? || c.WriteDone? then c.at + c.put else 0 }

  ghost predicate HasRead(c: Call) { (c.Reading? || c.ReadDone?) && c.got != [] }

  ghost predicate HasWritten(c: Call) { (c.Writing? || c.WriteDone?) && c.put > 0 }

  // Stretches of different calls do not overlap.
  ghost predicate Apart(c: Call, d: Call) {
    && (HasRead(c) && HasRead(d) ==> ReadEnd(c) <= d.from || ReadEnd(d) <= c.from)
    && (HasWritten(c) && HasWritten(d) ==> WriteEnd(c) <= d.at || WriteEnd(d) <= c.at)
  }

  ghost predicate SystemOk(s: System) {
    && s.cap >= 2 && s.taken <= |s.written| <= s.taken + s.cap - 1
    && (forall tid :: tid in s.calls ==> CallOk(s, tid, s.calls[tid]))
    && (forall a, b :: a in s.calls && b in s.calls && a != b ==> Apart(s.calls[a], s.calls[b]))
  }

  // s' is s after thread tid moved on to c.
  ghost predicate Moved(s: System, s': System, tid: nat, c: Call) {
    && s'.calls == s.calls[tid := c] && s'.cap == s.cap && s.written <= s'.written && s.taken <= s'.taken
    && s'.taken <= |s'.written| <= s'.taken + s'.cap - 1
    && (s'.taken > s.taken ==> s.reader == tid) && (|s'.written| > |s.written| ==> s.writer == tid)
    && (s'.reader != s.reader ==> s.reader == -1 || s.reader == tid)
    && (s'.writer != s.writer ==> s.writer == -1 || s.writer == tid)
  }

  // The other calls are as they were.
  lemma OthersOk(s: System, s': System, tid: nat, c: Call, a: nat)
    requires Moved(s, s', tid, c) && a in s.calls && a != tid && CallOk(s, a, s.calls[a])
    ensures CallOk(s', a, s.calls[a])
  {
    var d := s.calls[a];
    if d.Reading? || d.ReadDone? { assert s'.written[d.from..d.from + |d.got|] == s.written[d.from..d.from + |d.got|]; }
    if d.Writing? || d.WriteDone? { assert s'.written[d.at..d.at + d.put] == s.written[d.at..d.at + d.put]; }
  }

  // A call only grows where the stream ends for it.
  ghost predicate Grows(s: System, c: Call, c': Call) {
    && (HasRead(c') ==> (HasRead(c) && c.from == c'.from && ReadEnd(c) == ReadEnd(c'))
                        || (ReadEnd(c') > s.taken && (if HasRead(c) then c.from == c'.from && ReadEnd(c) == s.taken else c'.from == s.taken)))
    && (HasWritten(c') ==> (HasWritten(c) && c.at == c'.at && WriteEnd(c) == WriteEnd(c'))
                           || (WriteEnd(c') > |s.written| && (if HasWritten(c) then c.at == c'.at && WriteEnd(c) == |s.written| else c'.at == |s.written|)))
  }

  lemma StillApart(s: System, tid: nat, c: Call, c': Call, a: nat)
    requires a in s.calls && CallOk(s, a, s.calls[a]) && Apart(s.calls[a], c) && Grows(s, c, c')
    ensures Apart(s.calls[a], c') && Apart(c', s.calls[a])
  {
  }

  lemma SystemStep(s: System, s': System, tid: nat, c': Call)
    requires SystemOk(s) && Moved(s, s', tid, c') && CallOk(s', tid, c') && Grows(s, CallOf(s, tid), c')
    ensures SystemOk(s')
  {
    hide CallOk, Apart, Grows;
    forall a | a in s'.calls ensures CallOk(s', a, s'.calls[a]) {
      if a != tid { OthersOk(s, s', tid, c', a); }
    }
    forall a | a in s.calls && a != tid ensures Apart(s'.calls[a], c') && Apart(c', s'.calls[a]) {
      assert Apart(s.calls[a], CallOf(s, tid)) by { ApartIdle(s.calls[a]); }
      StillApart(s, tid, CallOf(s, tid), c', a);
    }
    forall a, b | a in s'.calls && b in s'.calls && a != b ensures Apart(s'.calls[a], s'.calls[b]) { }
  }

  lemma ApartIdle(c: Call)
    ensures Apart(c, Idle)
  {
  }

  lemma ReactOk(s: System, e: Event)
    requires SystemOk(s)
    ensures SystemOk(React(s, e))
  {
    var s' := React(s, e);
    if s' != s {
      var c, c' := CallOf(s, e.tid), CallOf(s', e.tid);
      assert CallOk(s, e.tid, c);
      MovedBy(s, e);
      GrownBy(s, e);
      OwnCallOk(s, e);
      hide React, Moved, Grows;
      SystemStep(s, s', e.tid, c');
    }
  }

  lemma MovedBy(s: System, e: Event)
    requires SystemOk(s) && CallOk(s, e.tid, CallOf(s, e.tid)) && React(s, e) != s
    ensures Moved(s, React(s, e), e.tid, CallOf(React(s, e), e.tid))
  {
  }

  lemma GrownBy(s: System, e: Event)
    requires SystemOk(s) && CallOk(s, e.tid, CallOf(s, e.tid)) && React(s, e) != s
    ensures Grows(s, CallOf(s, e.tid), CallOf(React(s, e), e.tid))
  {
  }

  lemma OwnCallOk(s: System, e: Event)
    requires SystemOk(s) && CallOk(s, e.tid, CallOf(s, e.tid)) && React(s, e) != s
    ensures CallOk(React(s, e), e.tid, CallOf(React(s, e), e.tid))
  {
    var c := CallOf(s, e.tid);
    if e.Work? {
      if c.Reading? { ReadWorkOk(s, e.tid, c, e.n); }
      if c.Writing? { WriteWorkOk(s, e.tid, c, e.n); }
    }
  }

  lemma ReadWorkOk(s: System, tid: nat, c: Call, n: nat)
    requires CallOk(s, tid, c) && c.Reading? && s.taken + n <= |s.written| && |c.got| + n <= c.want
    ensures CallOk(ReadWork(s, tid, c, n), tid, CallOf(ReadWork(s, tid, c, n), tid))
  {
    assert s.written[c.from..c.from + |c.got|] + s.written[s.taken..s.taken + n] == s.written[c.from..s.taken + n];
  }

  lemma WriteWorkOk(s: System, tid: nat, c: Call, n: nat)
    requires CallOk(s, tid, c) && c.Writing? && c.put + n <= |c.data|
    ensures CallOk(WriteWork(s, tid, c, n), tid, CallOf(WriteWork(s, tid, c, n), tid))
  {
    var d := c.data[c.put..c.put + n];
    var w := s.written + d;
    assert c.data[..c.put] + d == c.data[..c.put + n];
    assert w[c.at..c.at + (c.put + n)] == s.written[c.at..c.at + c.put] + d;
  }

  // A run of the system from an empty ring.
  ghost predicate Behaves(tr: seq<System>, es: seq<Event>) {
    && |tr| == |es| + 1 && tr[0].cap >= 2 && tr[0] == System(tr[0].cap, [], 0, map[], -1, -1)
    && forall i :: 0 <= i < |es| ==> Follows(tr[i], es[i], tr[i + 1])
  }

  ghost predicate Follows(s: System, e: Event, s': System) { s.taken <= |s.written| && s' == React(s, e) }

  lemma {:induction false} BehavesOk(tr: seq<System>, es: seq<Event>, i: nat)
    requires Behaves(tr, es) && i <= |es|
    ensures SystemOk(tr[i])
  {
    if i > 0 {
      BehavesOk(tr, es, i - 1);
      assert Follows(tr[i - 1], es[i - 1], tr[i]);
      ReactOk(tr[i - 1], es[i - 1]);
    }
  }

  // Because of the two locks, in every run each call reads, or writes, one
  // contiguous stretch of the stream, all of it unless interrupted, and no two
  // calls share a byte.
  lemma CallsContiguous(tr: seq<System>, es: seq<Event>, i: nat, a: nat, b: nat)
    requires Behaves(tr, es) && i <= |es| && a in tr[i].calls && b in tr[i].calls
    ensures var s, c := tr[i], tr[i].calls[a];
            && s.taken <= |s.written| <= s.taken + s.cap - 1
            && (c.ReadDone? ==> c.from + |c.got| <= s.taken && c.got == s.written[c.from..c.from + |c.got|])
            && (c.WriteDone? ==> c.put <= |c.data| && c.at + c.put <= |s.written|
                                 && s.written[c.at..c.at + c.put] == c.data[..c.put])
    ensures a != b ==> Apart(tr[i].calls[a], tr[i].calls[b])
  {
    BehavesOk(tr, es, i);
    assert CallOk(tr[i], a, tr[i].calls[a]);
  }

  // A call that is not interrupted returns with everything it was asked for.
  lemma ReturnsAll(s: System, tid: nat)
    requires s.taken <= |s.written| && !Finished(CallOf(s, tid))
    ensures var c := CallOf(React(s, Return(tid)), tid);
            (c.ReadDone? ==> |c.got| == c.want) && (c.WriteDone? ==> c.put == |c.data|)
  {
  }

  // ----- what a call returns --------------------------------------------------------------

  // Thread tid makes a call with event i and has not returned before state n.
  ghost predicate Calling(tr: seq<System>, es: seq<Event>, i: nat, n: nat, tid: nat) {
    && Behaves(tr, es) && i < n < |tr| && (es[i].CallRead? || es[i].CallWrite?) && es[i].tid == tid
    && Finished(CallOf(tr[i], tid)) && forall m :: i < m < n ==> !Finished(CallOf(tr[m], tid))
  }

  // c is a stage of the call e.
  predicate StageOf(e: Event, c: Call) {
    match e
    case CallRead(_, want) => (c.ReadWait? || c.Reading? || c.ReadDone?) && c.want == want
    case CallWrite(_, data) => (c.WriteWait? || c.Writing? || c.WriteDone?) && c.data == data
    case _ => false
  }

  lemma BehavesStep(tr: seq<System>, es: seq<Event>, n: nat)
    requires Behaves(tr, es) && n + 1 < |tr|
    ensures n < |es| && tr[n].taken <= |tr[n].written| && tr[n + 1] == React(tr[n], es[n])
  {
    assert Follows(tr[n], es[n], tr[n + 1]);
  }

  lemma StageKept(s: System, e: Event, call: Event, tid: nat)
    requires s.taken <= |s.written| && StageOf(call, CallOf(s, tid)) && !Finished(CallOf(s, tid))
    ensures StageOf(call, CallOf(React(s, e), tid))
  {
    hide RoundOk;
  }

  lemma {:induction false} StageInCall(tr: seq<System>, es: seq<Event>, i: nat, n: nat, tid: nat)
    requires Calling(tr, es, i, n, tid)
    ensures StageOf(es[i], CallOf(tr[n], tid))
    decreases n
  {
    hide Behaves;
    BehavesStep(tr, es, n - 1);
    if n > i + 1 {
      hide React, Finished;
      assert Calling(tr, es, i, n - 1, tid);
      StageInCall(tr, es, i, n - 1, tid);
      StageKept(tr[n - 1], es[n - 1], es[i], tid);
    }
  }

  // A call ends only by returning with everything it was asked for, or by an
  // interrupted wait on a ring that is empty for a reader, full for a writer.
  lemma EndsBy(s: System, e: Event, tid: nat)
    requires s.taken <= |s.written| && !Finished(CallOf(s, tid)) && Finished(CallOf(React(s, e), tid))
    ensures var c := CallOf(React(s, e), tid);
            && (c.ReadDone? || c.WriteDone?)
            && (c.ReadDone? ==> |c.got| == c.want || (e == Interrupt(tid) && |s.written| == s.taken))
            && (c.WriteDone? ==> c.put == |c.data| || (e == Interrupt(tid) && |s.written| - s.taken == s.cap - 1))
  {
    hide RoundOk;
  }

  // Over every run: a read returns as many bytes as it was asked for, a write puts
  // in all of its bytes, as one stretch of the stream; it is less only if the
  // call was interrupted on a ring that was empty, or full.
  lemma CallOutcome(tr: seq<System>, es: seq<Event>, i: nat, n: nat, tid: nat)
    requires Calling(tr, es, i, n, tid) && Finished(CallOf(tr[n], tid))
    ensures var s, c, e := tr[n - 1], CallOf(tr[n], tid), es[n - 1];
            match es[i]
            case CallRead(_, want) =>
              && c.ReadDone? && c.from + |c.got| <= |tr[n].written| && c.got == tr[n].written[c.from..c.from + |c.got|]
              && (|c.got| == want || (|c.got| < want && e == Interrupt(tid) && |s.written| == s.taken))
            case CallWrite(_, data) =>
              && c.WriteDone? && c.put <= |data| && c.at + c.put <= |tr[n].written|
              && tr[n].written[c.at..c.at + c.put] == data[..c.put]
              && (c.put == |data| || (e == Interrupt(tid) && |s.written| - s.taken == s.cap - 1))
            case _ => false
  {
    hide Behaves, React;
    StageInCall(tr, es, i, n, tid);
    BehavesStep(tr, es, n - 1);
    BehavesOk(tr, es, n);
    assert CallOk(tr[n], tid, CallOf(tr[n], tid));
    if n == i + 1 { BeginsUnfinished(tr[i], es[i], tid); } else { EndsBy(tr[n - 1], es[n - 1], tid); }
  }

  lemma BeginsUnfinished(s: System, e: Event, tid: nat)
    requires s.taken <= |s.written| && (e.CallRead? || e.CallWrite?) && e.tid == tid && Finished(CallOf(s, tid))
    ensures !Finished(CallOf(React(s, e), tid))
  {
  }

  // The locks are held only by calls at work.
  ghost predicate LocksOk(s: System) {
    && (s.reader != -1 ==> s.reader >= 0 && CallOf(s, s.reader).Reading?)
    && (s.writer != -1 ==> s.writer >= 0 && CallOf(s, s.writer).Writing?)
  }

  lemma ReactLocks(s: System, e: Event)
    requires SystemOk(s) && LocksOk(s)
    ensures LocksOk(React(s, e))
  {
    hide RoundOk, Apart;
    if e.tid in s.calls { assert CallOk(s, e.tid, s.calls[e.tid]); }
  }

  lemma {:induction false} LocksHeld(tr: seq<System>, es: seq<Event>, i: nat)
    requires Behaves(tr, es) && i < |tr|
    ensures LocksOk(tr[i])
  {
    if i > 0 {
      LocksHeld(tr, es, i - 1);
      BehavesStep(tr, es, i - 1);
      BehavesOk(tr, es, i - 1);
      hide Behaves, React, SystemOk, LocksOk;
      ReactLocks(tr[i - 1], es[i - 1]);
    }
  }

  // A call that waits for its lock gets it unless a call at work has it; a call at
  // work moves on unless the ring is empty, or full; a call that has moved
  // everything returns.
  lemma CallProgress(tr: seq<System>, es: seq<Event>, i: nat, tid: nat)
    requires Behaves(tr, es) && i < |tr|
    ensures var s, c := tr[i], CallOf(tr[i], tid);
            s.taken <= |s.written| &&
            match c
            case ReadWait(want) =>
              || (s.reader >= 0 && CallOf(s, s.reader).Reading?)
              || CallOf(React(s, Lock(tid)), tid) == Reading(want, [], s.taken)
            case Reading(want, got, from) =>
              if |got| == want then CallOf(React(s, Return(tid)), tid) == ReadDone(want, got, from)
              else |s.written| == s.taken || exists n: nat :: n > 0 && React(s, Work(tid, n)).taken == s.taken + n
            case WriteWait(data) =>
              || (s.writer >= 0 && CallOf(s, s.writer).Writing?)
              || CallOf(React(s, Lock(tid)), tid) == Writing(data, 0, |s.written|)
            case Writing(data, put, at) =>
              if put == |data| then CallOf(React(s, Return(tid)), tid) == WriteDone(data, put, at)
              else |s.written| - s.taken == s.cap - 1 || exists n: nat :: n > 0 && |React(s, Work(tid, n)).written| == |s.written| + n
            case _ => true
  {
    BehavesOk(tr, es, i);
    LocksHeld(tr, es, i);
    hide Behaves;
    var s, c := tr[i], CallOf(tr[i], tid);
    if tid in s.calls { assert CallOk(s, tid, s.calls[tid]); }
    assert c.Reading? && |c.got| < c.want && |s.written| > s.taken ==> React(s, Work(tid, 1)).taken == s.taken + 1;
    assert c.Writing? && c.put < |c.data| && |s.written| - s.taken < s.cap - 1 ==>
        |React(s, Work(tid, 1)).written| == |s.written| + 1;
  }
}
