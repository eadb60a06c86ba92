/** What the three calls of the area layer promise, as laws of the flat specification. */
module FlashLaws {
  import opened Bits
  import opened Words
  import opened FlatFlash

  // ---------------------------------------------------------------- content of a write

  /** The request starts on a program unit, or ends before the end of the second unit it touches. */
  predicate SentAsGiven(a: nat, len: nat, pu: nat) {
    a == 0 || a + len < 2 * pu
  }

  /** The bytes that land are the bytes of the request for every source exactly if no middle run follows a
      partial head unit. */
  lemma LandedIsSourceIff(len: nat, a: nat, pu: nat)
    requires a < pu
    ensures SentAsGiven(a, len, pu) <==> forall src: seq<byte> | |src| == len :: Landed(src, a, pu) == src
  {
    var h, m := HeadRoom(a, pu), MiddleLen(len, a, pu);
    if SentAsGiven(a, len, pu) {
      if a > 0 && len > h {
        FloorOfSmall(len - h, pu);
      }
      forall src: seq<byte> | |src| == len ensures Landed(src, a, pu) == src {
      }
    } else {
      MiddleRuns(len, a, pu);
      var src: seq<byte> := seq(len, i => if i == h then 0 else ERASED);
      assert Landed(src, a, pu)[h] == src[0] != src[h];
    }
  }

  /** Otherwise the middle run is at least one unit long. */
  lemma MiddleRuns(len: nat, a: nat, pu: nat)
    requires 0 < a < pu && a + len >= 2 * pu
    ensures HeadRoom(a, pu) < len && MiddleLen(len, a, pu) >= pu
  {
    FloorToFacts(len - HeadRoom(a, pu), pu);
    if FloorTo(len - HeadRoom(a, pu), pu) < pu {
      MultipleMod(0, pu);
      MultipleUnique(FloorTo(len - HeadRoom(a, pu), pu), 0, pu);
    }
  }

  /** The controller's unit divides the area layer's program unit. */
  predicate ValidConfig(c: Config) {
    c.pu > 0 && UnitAligned(c.kind, c.pu)
  }

  /** The request and the units around it lie in the area. */
  predicate WriteInRange(pu: nat, e: Extent, off: nat, len: nat)
    requires pu > 0
  {
    InExtent(e, off, len) && InExtent(e, FloorTo(off, pu), CeilTo(off % pu + len, pu))
  }

  /** Device operations of a write that runs to its end. */
  function WriteOps(c: Config, off: nat, len: nat): nat
    requires c.pu > 0
  {
    HeadFetches(off, c.pu) + TailFetches(off, len, c.pu) + Units(c.kind, CeilTo(off % c.pu + len, c.pu))
  }

  predicate NoFaults(fault: Schedule, t: nat, n: nat) {
    forall i :: t <= i < t + n ==> !fault(i)
  }

  /** A write succeeds exactly when it is in range and none of its operations fails. */
  lemma WriteSucceedsIff(f: Flat, c: Config, e: Extent, off: nat, src: seq<byte>)
    requires c.pu > 0
    ensures FlatWrite(f, c, e, off, src).1 == 0 <==>
      WriteInRange(c.pu, e, off, |src|) && NoFaults(c.fault, f.tick, WriteOps(c, off, |src|))
    ensures FlatWrite(f, c, e, off, src).1 in {0, -1}
  {
    var n := WriteOps(c, off, |src|);
    FirstFaultMeans(c.fault, f.tick, n, n);
  }

  /** What a successful write changes: exactly the addresses [at, at + |src|), each to the AND of the old
      content and the byte that lands; the padding in the same program units keeps its content. */
  lemma WriteContent(f: Flat, c: Config, e: Extent, off: nat, src: seq<byte>)
    requires ValidConfig(c) && FlatWrite(f, c, e, off, src).1 == 0
    ensures FlatWrite(f, c, e, off, src).0.mem
         == Commit(f.mem, e.off + off, Landed(src, off % c.pu, c.pu), e.off + off + |src|)
  {
    var a, whole := off % c.pu, CeilTo(off % c.pu + |src|, c.pu);
    FloorToFacts(off, c.pu);
    CeilToFacts(a + |src|, c.pu);
    UnitOfPu(c.kind, c.pu, whole);
    CommitWhole(f.mem, e.off + off, Landed(src, a, c.pu), e.off + FloorTo(off, c.pu) + whole);
  }

  lemma CommitWhole(mem: seq<byte>, at: nat, data: seq<byte>, limit: nat)
    requires limit >= at + |data|
    ensures Commit(mem, at, data, limit) == Commit(mem, at, data, at + |data|)
  {
  }

  /** FMC and RMC leave the same content: the controller's unit shows only in where a failed write stops. */
  lemma ControllersAgree(f: Flat, g: Flat, pu: u32, fault1: Schedule, fault2: Schedule, e: Extent, off: nat,
                         src: seq<byte>)
    requires ValidConfig(Config(pu, FMC, fault1)) && ValidConfig(Config(pu, RMC, fault2)) && f.mem == g.mem
    requires FlatWrite(f, Config(pu, FMC, fault1), e, off, src).1 == 0
    requires FlatWrite(g, Config(pu, RMC, fault2), e, off, src).1 == 0
    ensures FlatWrite(f, Config(pu, FMC, fault1), e, off, src).0.mem
         == FlatWrite(g, Config(pu, RMC, fault2), e, off, src).0.mem
  {
    hide FlatWrite;
    WriteContent(f, Config(pu, FMC, fault1), e, off, src);
    WriteContent(g, Config(pu, RMC, fault2), e, off, src);
  }

  /** The plain byte-array write that callers expect. */
  function ByteWrite(mem: seq<byte>, at: nat, src: seq<byte>): seq<byte> {
    Commit(mem, at, src, at + |src|)
  }

  /** On a device that never fails, the write of every source over every content is the plain byte-array
      write exactly if the request is in range and no middle run follows a partial head unit. */
  lemma WriteIsByteWriteIff(c: Config, e: Extent, size: nat, off: nat, len: nat)
    requires ValidConfig(c) && e.off + e.size <= size && forall i: nat :: !c.fault(i)
    ensures WriteInRange(c.pu, e, off, len) && SentAsGiven(off % c.pu, len, c.pu) <==>
      forall f: Flat, src: seq<byte> | |src| == len && |f.mem| == size ::
        FlatWrite(f, c, e, off, src).1 == 0 && FlatWrite(f, c, e, off, src).0.mem == ByteWrite(f.mem, e.off + off, src)
  {
    hide FlatWrite, FloorTo, CeilTo, Landed, WriteInRange, SentAsGiven, WriteOps;
    var a, at := off % c.pu, e.off + off;
    if WriteInRange(c.pu, e, off, len) {
      RangeInside(c, e, off, len);
      LandedIsSourceIff(len, a, c.pu);
      forall f: Flat, src: seq<byte> | |src| == len
        ensures FlatWrite(f, c, e, off, src).1 == 0
        ensures FlatWrite(f, c, e, off, src).0.mem == Commit(f.mem, at, Landed(src, a, c.pu), at + len)
      {
        WriteSucceedsIff(f, c, e, off, src);
        WriteContent(f, c, e, off, src);
      }
      if !SentAsGiven(a, len, c.pu) {
        var src: seq<byte> :| |src| == len && Landed(src, a, c.pu) != src;
        var mem: seq<byte> := seq(size, _ => ERASED);
        CommitTells(mem, at, Landed(src, a, c.pu), src);
        assert FlatWrite(Flat(mem, 0), c, e, off, src).0.mem != ByteWrite(mem, at, src);
      }
    } else {
      var src: seq<byte> := seq(len, _ => ERASED);
      var f := Flat(seq(size, _ => ERASED), 0);
      WriteSucceedsIff(f, c, e, off, src);
      assert FlatWrite(f, c, e, off, src).1 != 0;
    }
  }

  lemma RangeInside(c: Config, e: Extent, off: nat, len: nat)
    requires c.pu > 0 && WriteInRange(c.pu, e, off, len)
    ensures off + len <= e.size
  {
  }

  /** Over erased bytes, different data leave different content. */
  lemma CommitTells(mem: seq<byte>, at: nat, d1: seq<byte>, d2: seq<byte>)
    requires |d1| == |d2| && at + |d1| <= |mem| && d1 != d2
    requires forall x :: at <= x < at + |d1| ==> mem[x] == ERASED
    ensures Commit(mem, at, d1, at + |d1|) != Commit(mem, at, d2, at + |d2|)
  {
    hide Commit;
    CommitOverErased(mem, at, d1);
    CommitOverErased(mem, at, d2);
  }

  // ---------------------------------------------------------------- failing and repeated writes

  /** A write that fails in range stops at its first failing operation: the units programmed before it have
      their final content, every other byte of the flash is as before. A write refused by a range check changes no
      byte. */
  lemma WriteFailsAtPrefix(f: Flat, c: Config, e: Extent, off: nat, src: seq<byte>)
    requires ValidConfig(c) && FlatWrite(f, c, e, off, src).1 != 0
    ensures var (g, r) := FlatWrite(f, c, e, off, src);
      if WriteInRange(c.pu, e, off, |src|) then
        var fetches := HeadFetches(off, c.pu) + TailFetches(off, |src|, c.pu);
        var stop := g.tick - 1;
        && f.tick <= stop < f.tick + WriteOps(c, off, |src|)
        && c.fault(stop) && NoFaults(c.fault, f.tick, stop - f.tick)
        && var units := if stop < f.tick + fetches then 0 else stop - f.tick - fetches;
           var cut := e.off + FloorTo(off, c.pu) + Span(c.kind, units);
           && cut < e.off + off + |src| + c.pu
           && (forall x :: 0 <= x < |f.mem| && x < cut ==>
                 g.mem[x] == Commit(f.mem, e.off + off, Landed(src, off % c.pu, c.pu), e.off + off + |src|)[x])
           && (forall x :: cut <= x < |f.mem| ==> g.mem[x] == f.mem[x])
      else
        g.mem == f.mem
  {
    hide FirstFault, Landed, HeadFetches, TailFetches, FloorTo, CeilTo, Units, Span, UnitAligned;
    if WriteInRange(c.pu, e, off, |src|) {
      var n, whole := WriteOps(c, off, |src|), CeilTo(off % c.pu + |src|, c.pu);
      SpanBelow(c.kind, n - HeadFetches(off, c.pu) - TailFetches(off, |src|, c.pu));
      FirstFaultMeans(c.fault, f.tick, n, FirstFault(c.fault, f.tick, n));
      FloorToFacts(off, c.pu);
      CeilToFacts(off % c.pu + |src|, c.pu);
      UnitOfPu(c.kind, c.pu, whole);
    }
  }

  lemma SpanBelow(kind: Kind, n: nat)
    ensures Span(kind, 0) == 0
    ensures forall k: nat {:trigger Span(kind, k)} :: k <= n ==> Span(kind, k) <= Span(kind, n)
  {
  }

  /** The content after attempts at one write, each from its own operation number. */
  function Attempts(mem: seq<byte>, c: Config, e: Extent, off: nat, src: seq<byte>, ts: seq<nat>): seq<byte>
    requires c.pu > 0
    decreases |ts|
  {
    if ts == [] then mem
    else Attempts(FlatWrite(Flat(mem, ts[0]), c, e, off, src).0.mem, c, e, off, src, ts[1..])
  }

  /** Repeating a write until it succeeds, however many attempts fail and wherever each stops, leaves what one
      successful write of the original content would have left. */
  lemma {:induction false} WriteRetry(mem: seq<byte>, c: Config, e: Extent, off: nat, src: seq<byte>, ts: seq<nat>,
                                      t: nat)
    requires ValidConfig(c)
    requires FlatWrite(Flat(Attempts(mem, c, e, off, src, ts), t), c, e, off, src).1 == 0
    ensures FlatWrite(Flat(Attempts(mem, c, e, off, src, ts), t), c, e, off, src).0.mem
         == Commit(mem, e.off + off, Landed(src, off % c.pu, c.pu), e.off + off + |src|)
    decreases |ts|
  {
    hide FlatWrite, Landed, Commit;
    if ts == [] {
      WriteContent(Flat(mem, t), c, e, off, src);
    } else {
      var first := FlatWrite(Flat(mem, ts[0]), c, e, off, src).0.mem;
      WriteRetry(first, c, e, off, src, ts[1..], t);
      var limit := WriteIsCommit(Flat(mem, ts[0]), c, e, off, src);
      CommitAgain(mem, e.off + off, Landed(src, off % c.pu, c.pu), limit);
    }
  }

  /** The addresses below some limit are reached, whatever the outcome. */
  lemma WriteIsCommit(f: Flat, c: Config, e: Extent, off: nat, src: seq<byte>) returns (limit: nat)
    requires c.pu > 0
    ensures FlatWrite(f, c, e, off, src).0.mem == Commit(f.mem, e.off + off, Landed(src, off % c.pu, c.pu), limit)
    ensures !InExtent(e, off, |src|) ==> limit == 0
  {
    hide Landed, Commit, FirstFault, FloorTo, CeilTo, HeadFetches, TailFetches, Units, Span;
    CommitNothing(f.mem, e.off + off, Landed(src, off % c.pu, c.pu), 0);
    var n := WriteOps(c, off, |src|);
    var k, fetches := FirstFault(c.fault, f.tick, n), HeadFetches(off, c.pu) + TailFetches(off, |src|, c.pu);
    limit := if !WriteInRange(c.pu, e, off, |src|) then 0
             else e.off + FloorTo(off, c.pu) + Span(c.kind, if k < fetches then 0 else k - fetches);
  }

  lemma CommitAgain(mem: seq<byte>, at: nat, data: seq<byte>, limit: nat)
    ensures Commit(Commit(mem, at, data, limit), at, data, at + |data|) == Commit(mem, at, data, at + |data|)
  {
    var l, r := Commit(Commit(mem, at, data, limit), at, data, at + |data|), Commit(mem, at, data, at + |data|);
    forall x | 0 <= x < |mem| ensures l[x] == r[x] {
      if at <= x < at + |data| {
        AndAgain(mem[x], data[x - at]);
        assert l[x] == Commit(mem, at, data, limit)[x] & data[x - at];
      }
    }
  }

  // ---------------------------------------------------------------- reads

  /** A read succeeds exactly when it is in range and none of its word reads fails; it returns the bytes of
      the request and leaves the flash as it was. */
  lemma ReadSucceedsIff(f: Flat, fault: Schedule, e: Extent, off: nat, len: nat)
    requires e.off + e.size <= |f.mem|
    ensures var (g, r) := FlatRead(f, fault, e, off, len);
      && (r.rc == 0 <==> InExtent(e, off, len) && NoFaults(fault, f.tick, WordsTouched(off, len)))
      && (r.rc == 0 ==> r.data == f.mem[e.off + off..][..len])
      && g.mem == f.mem
  {
    FirstFaultMeans(fault, f.tick, WordsTouched(off, len), WordsTouched(off, len));
  }

  /** The emptiness check answers -1 if the read is out of range or fails, and otherwise says whether every byte of
      the request is erased, and returns the bytes. */
  lemma IsEmptyMeans(f: Flat, fault: Schedule, e: Extent, off: nat, len: nat)
    requires e.off + e.size <= |f.mem|
    ensures FlatIsEmpty(f, fault, e, off, len).0.mem == f.mem
    ensures FlatIsEmpty(f, fault, e, off, len).1 ==
      if !(InExtent(e, off, len) && NoFaults(fault, f.tick, WordsTouched(off, len))) then Reply(-1, [])
      else
        Reply(if forall x :: e.off + off <= x < e.off + off + len ==> f.mem[x] == ERASED then 1 else 0,
              f.mem[e.off + off..][..len])
  {
    hide FlatRead, WordsTouched, NoFaults;
    ReadSucceedsIff(f, fault, e, off, len);
    var r := FlatRead(f, fault, e, off, len).1;
    if r.rc == 0 {
      var base := e.off + off;
      assert forall i :: 0 <= i < len ==> r.data[i] == f.mem[base + i];
      if forall i :: 0 <= i < len ==> r.data[i] == ERASED {
        forall x | base <= x < base + len ensures f.mem[x] == ERASED {
          assert r.data[x - base] == f.mem[base + (x - base)];
        }
      }
    }
  }

  /** Writing over erased bytes and reading any part back gives that part of the landed data, and so of the
      source if the request was sent as given. */
  lemma WriteReadBack(f: Flat, c: Config, e: Extent, off: nat, src: seq<byte>, t: nat, s: nat, n: nat)
    requires ValidConfig(c) && e.off + e.size <= |f.mem| && s + n <= |src|
    requires FlatWrite(f, c, e, off, src).1 == 0
    requires forall x :: e.off + off <= x < e.off + off + |src| ==> f.mem[x] == ERASED
    requires FlatRead(Flat(FlatWrite(f, c, e, off, src).0.mem, t), c.fault, e, off + s, n).1.rc == 0
    ensures var data := FlatRead(Flat(FlatWrite(f, c, e, off, src).0.mem, t), c.fault, e, off + s, n).1.data;
      && data == Landed(src, off % c.pu, c.pu)[s..s + n]
      && (SentAsGiven(off % c.pu, |src|, c.pu) ==> data == src[s..s + n])
  {
    hide FlatWrite, FlatRead, SentAsGiven, Landed, WriteInRange, WriteOps, WordsTouched, Commit, NoFaults;
    var d, at := Landed(src, off % c.pu, c.pu), e.off + off;
    var mem := FlatWrite(f, c, e, off, src).0.mem;
    WriteSucceedsIff(f, c, e, off, src);
    RangeInside(c, e, off, |src|);
    WriteContent(f, c, e, off, src);
    LandedIsSourceIff(|src|, off % c.pu, c.pu);
    ReadSucceedsIff(Flat(mem, t), c.fault, e, off + s, n);
    CommitOverErased(f.mem, at, d);
    SliceOfRange(mem, at, |src|, s, n);
  }

  lemma SliceOfRange(mem: seq<byte>, at: nat, len: nat, s: nat, n: nat)
    requires at + len <= |mem| && s + n <= len
    ensures mem[at + s..][..n] == mem[at..at + len][s..s + n]
  {
    var l, r := mem[at + s..][..n], mem[at..at + len][s..s + n];
    forall i | 0 <= i < n ensures l[i] == r[i] {
    }
  }

  /** Programming over erased bytes stores the data. */
  lemma CommitOverErased(mem: seq<byte>, at: nat, data: seq<byte>)
    requires at + |data| <= |mem| && forall x :: at <= x < at + |data| ==> mem[x] == ERASED
    ensures Commit(mem, at, data, at + |data|)[at..at + |data|] == data
  {
    var r := Commit(mem, at, data, at + |data|);
    forall t | 0 <= t < |data| ensures r[at..at + |data|][t] == data[t] {
      AndErased(data[t]);
      assert mem[at + t] == ERASED;
    }
  }

  // ---------------------------------------------------------------- erases

  predicate OnSector(e: Extent, off: nat)
    requires e.sector > 0
  {
    (e.off + off) % e.sector == 0
  }

  /** The area consists of whole sectors. */
  predicate SectorAligned(e: Extent) {
    e.sector > 0 && e.off % e.sector == 0 && e.size % e.sector == 0
  }

  /** An erase succeeds exactly when it is in range, starts on a sector (or is empty) and no sector fails. */
  lemma EraseSucceedsIff(f: Flat, fault: Schedule, e: Extent, off: nat, len: nat)
    requires e.sector > 0
    ensures FlatErase(f, fault, e, off, len).1 == 0 <==>
      InExtent(e, off, len) && (len == 0 || OnSector(e, off)) && NoFaults(fault, f.tick, StepsToCover(len, e.sector))
  {
    var n := StepsToCover(len, e.sector);
    FirstFaultMeans(fault, f.tick, n, n);
  }

  lemma StepsAreCeil(len: nat, n: nat)
    requires n > 0
    ensures Steps(StepsToCover(len, n), n) == CeilTo(len, n)
  {
  }

  /** A successful erase sets exactly the sectors that cover the request. */
  lemma EraseContent(f: Flat, fault: Schedule, e: Extent, off: nat, len: nat)
    requires e.sector > 0 && FlatErase(f, fault, e, off, len).1 == 0
    ensures FlatErase(f, fault, e, off, len).0.mem == Fill(f.mem, e.off + off, e.off + off + CeilTo(len, e.sector))
  {
    StepsAreCeil(len, e.sector);
  }

  /** An erase that fails in range and on a sector stops at its first failing sector: the sectors before it
      are erased, every other byte is as before. A misaligned or out-of-range erase changes nothing. */
  lemma EraseFailsAtPrefix(f: Flat, fault: Schedule, e: Extent, off: nat, len: nat)
    requires e.sector > 0 && FlatErase(f, fault, e, off, len).1 != 0
    ensures var (g, r) := FlatErase(f, fault, e, off, len);
      if InExtent(e, off, len) && OnSector(e, off) then
        var k := g.tick - 1 - f.tick;
        && 0 <= k < StepsToCover(len, e.sector) && fault(f.tick + k) && NoFaults(fault, f.tick, k)
        && g.mem == Fill(f.mem, e.off + off, e.off + off + Steps(k, e.sector))
      else g == f
  {
    hide StepsToCover, Steps, FirstFault, Fill;
    NothingToCover(e.sector);
    var n := StepsToCover(len, e.sector);
    FirstFaultMeans(fault, f.tick, n, FirstFault(fault, f.tick, n));
  }

  lemma NothingToCover(n: nat)
    requires n > 0
    ensures StepsToCover(0, n) == 0
  {
  }

  /** However an erase ends, it changes no byte outside an area of whole sectors. */
  lemma EraseStaysInside(f: Flat, fault: Schedule, e: Extent, off: nat, len: nat, x: nat)
    requires SectorAligned(e) && x < |f.mem| && !(e.off <= x < e.off + e.size)
    ensures |FlatErase(f, fault, e, off, len).0.mem| == |f.mem|
    ensures FlatErase(f, fault, e, off, len).0.mem[x] == f.mem[x]
  {
    hide StepsToCover, Steps, CeilTo, FirstFault;
    if InExtent(e, off, len) && (len == 0 || OnSector(e, off)) {
      var n := StepsToCover(len, e.sector);
      var k := FirstFault(fault, f.tick, n);
      StepsMono(k, n, e.sector);
      StepsAreCeil(len, e.sector);
      if len > 0 {
        CeilInside(e, off, len);
      } else {
        CeilOfZero(e.sector);
      }
    }
  }

  lemma CeilOfZero(n: nat)
    requires n > 0
    ensures CeilTo(0, n) == 0
  {
    CeilToFacts(0, n);
    MultipleMod(0, n);
    MultipleUnique(CeilTo(0, n), 0, n);
  }

  /** Rounding the end of an erase up to a sector does not leave an area of whole sectors. */
  lemma CeilInside(e: Extent, off: nat, len: nat)
    requires SectorAligned(e) && InExtent(e, off, len) && OnSector(e, off)
    ensures off + CeilTo(len, e.sector) <= e.size
  {
    CeilToFacts(len, e.sector);
    var end := e.off + off + CeilTo(len, e.sector);
    ModAdd(e.off + off, CeilTo(len, e.sector), e.sector);
    ModAdd(e.off, e.size, e.sector);
    if end > e.off + e.size {
      assert end - (e.off + e.size) < e.sector;
      MultipleUnique(end, e.off + e.size, e.sector);
    }
  }

  /** An empty erase, or one of whole sectors. */
  predicate WholeSectors(e: Extent, off: nat, len: nat)
    requires e.sector > 0
  {
    len == 0 || (OnSector(e, off) && len % e.sector == 0)
  }

  /** On a device that never fails, an erase sets exactly the requested bytes, over every content, if and only
      if it is in range and starts and ends on a sector (or is empty). */
  lemma EraseIsByteEraseIff(fault: Schedule, e: Extent, size: nat, off: nat, len: nat)
    requires SectorAligned(e) && e.off + e.size <= size && forall i: nat :: !fault(i)
    ensures InExtent(e, off, len) && WholeSectors(e, off, len) <==>
      forall f: Flat | |f.mem| == size ::
        && FlatErase(f, fault, e, off, len).1 == 0
        && FlatErase(f, fault, e, off, len).0.mem == Fill(f.mem, e.off + off, e.off + off + len)
  {
    hide FlatErase, CeilTo, WholeSectors, InExtent;
    if InExtent(e, off, len) && WholeSectors(e, off, len) {
      forall f: Flat | |f.mem| == size
        ensures FlatErase(f, fault, e, off, len).1 == 0
        ensures FlatErase(f, fault, e, off, len).0.mem == Fill(f.mem, e.off + off, e.off + off + len)
      {
        WholeErase(f, fault, e, off, len);
      }
    } else {
      var mem: seq<byte> := seq(size, _ => 0);
      PartialErase(Flat(mem, 0), fault, e, off, len);
    }
  }

  lemma WholeErase(f: Flat, fault: Schedule, e: Extent, off: nat, len: nat)
    requires e.sector > 0 && InExtent(e, off, len) && WholeSectors(e, off, len)
    requires NoFaults(fault, f.tick, StepsToCover(len, e.sector))
    ensures FlatErase(f, fault, e, off, len).1 == 0
    ensures FlatErase(f, fault, e, off, len).0.mem == Fill(f.mem, e.off + off, e.off + off + len)
  {
    hide FlatErase, CeilTo, StepsToCover;
    EraseSucceedsIff(f, fault, e, off, len);
    EraseContent(f, fault, e, off, len);
    if len == 0 {
      CeilOfZero(e.sector);
    } else {
      CeilOfMultiple(len, e.sector);
    }
  }

  lemma CeilOfMultiple(len: nat, n: nat)
    requires n > 0 && len % n == 0
    ensures CeilTo(len, n) == len
  {
    CeilToFacts(len, n);
    MultipleUnique(CeilTo(len, n), len, n);
  }

  /** Any other erase fails, or sets a byte behind the request, over zeros. */
  lemma PartialErase(f: Flat, fault: Schedule, e: Extent, off: nat, len: nat)
    requires SectorAligned(e) && !(InExtent(e, off, len) && WholeSectors(e, off, len))
    requires |f.mem| >= e.off + e.size && forall x :: 0 <= x < |f.mem| ==> f.mem[x] == 0
    ensures FlatErase(f, fault, e, off, len).1 != 0
         || FlatErase(f, fault, e, off, len).0.mem != Fill(f.mem, e.off + off, e.off + off + len)
  {
    hide FlatErase, CeilTo, StepsToCover;
    EraseSucceedsIff(f, fault, e, off, len);
    if FlatErase(f, fault, e, off, len).1 == 0 {
      EraseContent(f, fault, e, off, len);
      CeilToFacts(len, e.sector);
      CeilInside(e, off, len);
      FillTells(f.mem, e.off + off, e.off + off + len, e.off + off + CeilTo(len, e.sector));
    }
  }

  lemma FillTells(mem: seq<byte>, lo: nat, mid: nat, hi: nat)
    requires lo <= mid < hi <= |mem| && forall x :: 0 <= x < |mem| ==> mem[x] == 0
    ensures Fill(mem, lo, mid) != Fill(mem, lo, hi)
  {
    assert Fill(mem, lo, mid)[mid] != Fill(mem, lo, hi)[mid];
  }

  /** The content after attempts at one erase, each from its own operation number. */
  function EraseAttempts(mem: seq<byte>, fault: Schedule, e: Extent, off: nat, len: nat, ts: seq<nat>): seq<byte>
    requires e.sector > 0
    decreases |ts|
  {
    if ts == [] then mem
    else EraseAttempts(FlatErase(Flat(mem, ts[0]), fault, e, off, len).0.mem, fault, e, off, len, ts[1..])
  }

  /** Repeating an erase until it succeeds, however many attempts fail and wherever each stops, leaves what one
      successful erase of the original content would have left. */
  lemma {:induction false} EraseRetry(mem: seq<byte>, fault: Schedule, e: Extent, off: nat, len: nat, ts: seq<nat>,
                                      t: nat)
    requires e.sector > 0
    requires FlatErase(Flat(EraseAttempts(mem, fault, e, off, len, ts), t), fault, e, off, len).1 == 0
    ensures FlatErase(Flat(EraseAttempts(mem, fault, e, off, len, ts), t), fault, e, off, len).0.mem
         == Fill(mem, e.off + off, e.off + off + CeilTo(len, e.sector))
    decreases |ts|
  {
    hide FlatErase, Fill, CeilTo;
    if ts == [] {
      EraseContent(Flat(mem, t), fault, e, off, len);
    } else {
      var first := FlatErase(Flat(mem, ts[0]), fault, e, off, len).0.mem;
      EraseRetry(first, fault, e, off, len, ts[1..], t);
      var limit := EraseIsFill(Flat(mem, ts[0]), fault, e, off, len);
      FillAgain(mem, e.off + off, limit, e.off + off + CeilTo(len, e.sector));
    }
  }

  /** Whatever its outcome, an erase sets a prefix of the sectors that cover the request. */
  lemma EraseIsFill(f: Flat, fault: Schedule, e: Extent, off: nat, len: nat) returns (limit: nat)
    requires e.sector > 0
    ensures limit <= e.off + off + CeilTo(len, e.sector)
    ensures FlatErase(f, fault, e, off, len).0.mem == Fill(f.mem, e.off + off, limit)
  {
    hide FirstFault, StepsToCover, Steps, CeilTo;
    var n := StepsToCover(len, e.sector);
    var k := FirstFault(fault, f.tick, n);
    StepsAreCeil(len, e.sector);
    StepsMono(k, n, e.sector);
    limit := if InExtent(e, off, len) && (len == 0 || OnSector(e, off)) then e.off + off + Steps(k, e.sector) else 0;
  }

  lemma FillAgain(mem: seq<byte>, lo: nat, mid: nat, hi: nat)
    requires mid <= hi
    ensures Fill(Fill(mem, lo, mid), lo, hi) == Fill(mem, lo, hi)
  {
  }

  /** However a write ends, it changes no byte outside the request, and only clears bits inside it. */
  lemma WriteStaysInside(f: Flat, c: Config, e: Extent, off: nat, src: seq<byte>, x: nat)
    requires c.pu > 0 && x < |f.mem|
    ensures |FlatWrite(f, c, e, off, src).0.mem| == |f.mem|
    ensures !(InExtent(e, off, |src|) && e.off + off <= x < e.off + off + |src|) ==>
      FlatWrite(f, c, e, off, src).0.mem[x] == f.mem[x]
    ensures FlatWrite(f, c, e, off, src).0.mem[x] & f.mem[x] == FlatWrite(f, c, e, off, src).0.mem[x]
  {
    hide FlatWrite, Landed;
    var limit := WriteIsCommit(f, c, e, off, src);
    var d := Landed(src, off % c.pu, c.pu);
    if e.off + off <= x < e.off + off + |src| && x < limit {
      AndClears(f.mem[x], d[x - (e.off + off)]);
    } else {
      AndSelf(f.mem[x]);
    }
  }

  lemma AndClears(m: byte, d: byte)
    ensures (m & d) & m == m & d
  {
  }
}
