/** Safety over whole runs of area calls: isolation of areas, and erase-write-read round trips. */
module RunLaws {
  import opened Bits
  import opened Words
  import opened FlatFlash
  import opened FlashLaws
  import opened FlashRuns

  predicate Within(e: Extent, x: nat) {
    e.off <= x < e.off + e.size
  }

  predicate Changes(call: Call) {
    call.Write? || call.Erase?
  }

  /** Address x lies outside every area that a call of the run may change. */
  predicate Untouched(es: seq<Extent>, calls: seq<Call>, x: nat)
    requires ValidCalls(|es|, calls)
  {
    forall i :: 0 <= i < |calls| && Changes(calls[i]) ==> !Within(es[calls[i].area], x)
  }

  predicate SectorAlignedMap(es: seq<Extent>) {
    forall i :: 0 <= i < |es| ==> SectorAligned(es[i])
  }

  lemma StepKeepsOutside(f: Flat, c: Config, e: Extent, call: Call, x: nat)
    requires c.pu > 0 && SectorAligned(e) && e.off + e.size <= |f.mem| && x < |f.mem|
    requires Changes(call) ==> !Within(e, x)
    ensures FlatStep(f, c, e, call).0.mem[x] == f.mem[x]
  {
    hide FlatWrite, FlatErase;
    match call
    case Read(_, off, len) =>
    case Write(_, off, src) => WriteStaysInside(f, c, e, off, src, x);
    case Erase(_, off, len) => EraseStaysInside(f, c.fault, e, off, len, x);
    case IsEmpty(_, off, len) =>
  }

  /** No run, with any rejected or failing calls in it, changes a byte outside the areas it writes or erases. */
  lemma {:induction false} RunKeepsOutside(f: Flat, c: Config, es: seq<Extent>, calls: seq<Call>, x: nat)
    requires c.pu > 0 && ValidExtents(es, |f.mem|) && ValidCalls(|es|, calls)
    requires SectorAlignedMap(es) && x < |f.mem| && Untouched(es, calls, x)
    ensures |FlatRun(f, c, es, calls).0.mem| == |f.mem|
    ensures FlatRun(f, c, es, calls).0.mem[x] == f.mem[x]
    decreases |calls|
  {
    hide FlatStep, Changes, Within;
    if calls != [] {
      var e := es[calls[0].area];
      StepKeepsSize(f, c, e, calls[0]);
      StepKeepsOutside(f, c, e, calls[0], x);
      RunKeepsOutside(FlatStep(f, c, e, calls[0]).0, c, es, calls[1..], x);
    }
  }

  predicate Disjoint(e1: Extent, e2: Extent) {
    e1.off + e1.size <= e2.off || e2.off + e2.size <= e1.off
  }

  /** The areas of a map overlap neither each other nor the bootloader region [0, boot). */
  predicate DisjointMap(es: seq<Extent>, boot: nat) {
    && (forall i, j :: 0 <= i < j < |es| ==> Disjoint(es[i], es[j]))
    && (forall i :: 0 <= i < |es| ==> boot <= es[i].off)
  }

  /** Writes and erases on other areas leave an area, and the bootloader, byte for byte as they were. */
  lemma AreaIsolation(f: Flat, c: Config, es: seq<Extent>, calls: seq<Call>, boot: nat, j: nat)
    requires c.pu > 0 && ValidExtents(es, |f.mem|) && ValidCalls(|es|, calls)
    requires SectorAlignedMap(es) && DisjointMap(es, boot) && boot <= |f.mem| && j < |es|
    requires forall i :: 0 <= i < |calls| && Changes(calls[i]) ==> calls[i].area != j
    ensures var mem := FlatRun(f, c, es, calls).0.mem;
      && |mem| == |f.mem|
      && mem[es[j].off..es[j].off + es[j].size] == f.mem[es[j].off..es[j].off + es[j].size]
      && mem[..boot] == f.mem[..boot]
  {
    hide FlatRun;
    var mem := FlatRun(f, c, es, calls).0.mem;
    forall x | 0 <= x < |f.mem| && (Within(es[j], x) || x < boot) ensures |mem| == |f.mem| && mem[x] == f.mem[x] {
      forall i | 0 <= i < |calls| && Changes(calls[i]) ensures !Within(es[calls[i].area], x) {
        assert Disjoint(es[j], es[calls[i].area]);
      }
      RunKeepsOutside(f, c, es, calls, x);
    }
    RunKeepsSize(f, c, es, calls);
  }

  lemma {:induction false} RunKeepsSize(f: Flat, c: Config, es: seq<Extent>, calls: seq<Call>)
    requires c.pu > 0 && ValidExtents(es, |f.mem|) && ValidCalls(|es|, calls)
    ensures |FlatRun(f, c, es, calls).0.mem| == |f.mem|
    decreases |calls|
  {
    hide FlatStep;
    if calls != [] {
      StepKeepsSize(f, c, es[calls[0].area], calls[0]);
      RunKeepsSize(FlatStep(f, c, es[calls[0].area], calls[0]).0, c, es, calls[1..]);
    }
  }

  /** Without an erase, a run only clears bits: nothing programmed is ever lost. */
  lemma {:induction false} RunOnlyClears(f: Flat, c: Config, es: seq<Extent>, calls: seq<Call>, x: nat)
    requires c.pu > 0 && ValidExtents(es, |f.mem|) && ValidCalls(|es|, calls) && x < |f.mem|
    requires forall i :: 0 <= i < |calls| ==> !calls[i].Erase?
    ensures |FlatRun(f, c, es, calls).0.mem| == |f.mem|
    ensures FlatRun(f, c, es, calls).0.mem[x] & f.mem[x] == FlatRun(f, c, es, calls).0.mem[x]
    decreases |calls|
  {
    hide FlatWrite;
    if calls == [] {
      AndSelf(f.mem[x]);
    } else {
      var e := es[calls[0].area];
      var g := FlatStep(f, c, e, calls[0]).0;
      StepKeepsSize(f, c, e, calls[0]);
      StepOnlyClears(f, c, e, calls[0], x);
      RunOnlyClears(g, c, es, calls[1..], x);
      AndChain(f.mem[x], g.mem[x], FlatRun(g, c, es, calls[1..]).0.mem[x]);
    }
  }

  lemma StepOnlyClears(f: Flat, c: Config, e: Extent, call: Call, x: nat)
    requires c.pu > 0 && e.sector > 0 && e.off + e.size <= |f.mem| && x < |f.mem| && !call.Erase?
    ensures |FlatStep(f, c, e, call).0.mem| == |f.mem|
    ensures FlatStep(f, c, e, call).0.mem[x] & f.mem[x] == FlatStep(f, c, e, call).0.mem[x]
  {
    hide FlatWrite, FlatErase, FlatIsEmpty, FlatRead;
    StepKeepsSize(f, c, e, call);
    AndSelf(f.mem[x]);
    match call
    case Read(_, off, len) => ReadSucceedsIff(f, c.fault, e, off, len);
    case Write(_, off, src) => WriteStaysInside(f, c, e, off, src, x);
    case IsEmpty(_, off, len) => IsEmptyMeans(f, c.fault, e, off, len);
  }

  lemma AndChain(a: byte, b: byte, d: byte)
    requires b & a == b && d & b == d
    ensures d & a == d
  {
  }

  // ---------------------------------------------------------------- runs without a failing operation

  predicate NoFaultIn(fault: Schedule, from: nat, to: nat) {
    forall i :: from <= i < to ==> !fault(i)
  }

  /** None of the operations that the run performs fails; the device may fail before and after. */
  predicate RunHasNoFault(f: Flat, c: Config, es: seq<Extent>, calls: seq<Call>)
    requires c.pu > 0 && ValidExtents(es, |f.mem|) && ValidCalls(|es|, calls)
  {
    NoFaultIn(c.fault, f.tick, FlatRun(f, c, es, calls).0.tick)
  }

  lemma StepTicks(f: Flat, c: Config, e: Extent, call: Call)
    requires c.pu > 0 && e.sector > 0 && e.off + e.size <= |f.mem|
    ensures FlatStep(f, c, e, call).0.tick >= f.tick
  {
  }

  lemma {:induction false} RunTicks(f: Flat, c: Config, es: seq<Extent>, calls: seq<Call>)
    requires c.pu > 0 && ValidExtents(es, |f.mem|) && ValidCalls(|es|, calls)
    ensures FlatRun(f, c, es, calls).0.tick >= f.tick
    decreases |calls|
  {
    hide FlatStep;
    if calls != [] {
      var e := es[calls[0].area];
      StepTicks(f, c, e, calls[0]);
      StepKeepsSize(f, c, e, calls[0]);
      RunTicks(FlatStep(f, c, e, calls[0]).0, c, es, calls[1..]);
    }
  }

  /** A loop of operations in which none that was performed fails has performed all of them. */
  lemma RunsThrough(fault: Schedule, t: nat, n: nat)
    requires NoFaultIn(fault, t, After(t, FirstFault(fault, t, n), n))
    ensures NoFaults(fault, t, n)
  {
    FirstFaultMeans(fault, t, n, FirstFault(fault, t, n));
  }

  lemma WriteRunsThrough(f: Flat, c: Config, e: Extent, off: nat, src: seq<byte>)
    requires c.pu > 0 && WriteInRange(c.pu, e, off, |src|)
    requires NoFaultIn(c.fault, f.tick, FlatWrite(f, c, e, off, src).0.tick)
    ensures NoFaults(c.fault, f.tick, WriteOps(c, off, |src|))
  {
    RunsThrough(c.fault, f.tick, WriteOps(c, off, |src|));
  }

  lemma ReadRunsThrough(f: Flat, fault: Schedule, e: Extent, off: nat, len: nat)
    requires e.off + e.size <= |f.mem| && InExtent(e, off, len)
    requires NoFaultIn(fault, f.tick, FlatRead(f, fault, e, off, len).0.tick)
    ensures NoFaults(fault, f.tick, WordsTouched(off, len))
  {
    RunsThrough(fault, f.tick, WordsTouched(off, len));
  }

  lemma EraseRunsThrough(f: Flat, fault: Schedule, e: Extent, off: nat, len: nat)
    requires e.sector > 0 && InExtent(e, off, len) && (len == 0 || OnSector(e, off))
    requires NoFaultIn(fault, f.tick, FlatErase(f, fault, e, off, len).0.tick)
    ensures NoFaults(fault, f.tick, StepsToCover(len, e.sector))
  {
    RunsThrough(fault, f.tick, StepsToCover(len, e.sector));
  }

  // ---------------------------------------------------------------- round trip of a whole update

  predicate IsUpdate(calls: seq<Call>, j: nat, e: Extent, off: u32, src: seq<byte>, s: nat, n: nat) {
    && |calls| == 3 && s + n <= |src| && off + s < TWO32 && n < TWO32
    && calls[0] == Erase(j, 0, e.size) && calls[1] == Write(j, off, src) && calls[2] == Read(j, off + s, n)
  }

  /** Erase an area, write into it, read any part back. If none of the run's operations fails, the replies are
      success, success, and the bytes of the source, if the write was in range and sent as given. */
  lemma UpdateRoundTrip(f: Flat, c: Config, es: seq<Extent>, calls: seq<Call>, j: nat, off: u32, src: seq<byte>,
                        s: nat, n: nat)
    requires ValidConfig(c) && j < |es| && ValidExtents(es, |f.mem|) && SectorAlignedMap(es)
    requires WriteInRange(c.pu, es[j], off, |src|) && SentAsGiven(off % c.pu, |src|, c.pu)
    requires IsUpdate(calls, j, es[j], off, src, s, n) && ValidCalls(|es|, calls) && RunHasNoFault(f, c, es, calls)
    ensures FlatRun(f, c, es, calls).1 == [Reply(0, [])] + ([Reply(0, [])] + [Reply(0, src[s..s + n])])
  {
    hide FlatRun, FlatRead, FlatWrite, FlatErase, WriteInRange, SentAsGiven, UnitAligned, SectorAligned;
    var e := es[j];
    var f1, f2, f3, r1, r2, r3 := ThreeCalls(f, c, es, calls);
    EraseWhole(f, c.fault, e);
    WriteRead(f1, c, e, off, src, s, n);
  }

  lemma WriteRead(f: Flat, c: Config, e: Extent, off: u32, src: seq<byte>, s: nat, n: nat)
    requires ValidConfig(c) && e.off + e.size <= |f.mem|
    requires forall x :: e.off <= x < e.off + e.size ==> f.mem[x] == ERASED
    requires WriteInRange(c.pu, e, off, |src|) && SentAsGiven(off % c.pu, |src|, c.pu) && s + n <= |src|
    requires NoFaultIn(c.fault, f.tick, FlatWrite(f, c, e, off, src).0.tick)
    requires var g := FlatWrite(f, c, e, off, src).0;
      |g.mem| == |f.mem| && NoFaultIn(c.fault, g.tick, FlatRead(g, c.fault, e, off + s, n).0.tick)
    ensures var (g, rc) := FlatWrite(f, c, e, off, src);
      rc == 0 && FlatRead(g, c.fault, e, off + s, n).1 == Reply(0, src[s..s + n])
  {
    hide FlatRead, FlatWrite, WriteInRange, SentAsGiven, WriteOps, Landed;
    WriteSucceedsIff(f, c, e, off, src);
    WriteRunsThrough(f, c, e, off, src);
    RangeInside(c, e, off, |src|);
    var g := FlatWrite(f, c, e, off, src).0;
    WriteContent(f, c, e, off, src);
    ReadSucceedsIff(g, c.fault, e, off + s, n);
    ReadRunsThrough(g, c.fault, e, off + s, n);
    WriteReadBack(f, c, e, off, src, g.tick, s, n);
  }

  lemma EraseWhole(f: Flat, fault: Schedule, e: Extent)
    requires SectorAligned(e) && e.off + e.size <= |f.mem|
    requires NoFaultIn(fault, f.tick, FlatErase(f, fault, e, 0, e.size).0.tick)
    ensures var (g, rc) := FlatErase(f, fault, e, 0, e.size);
      rc == 0 && |g.mem| == |f.mem| && forall x :: e.off <= x < e.off + e.size ==> g.mem[x] == ERASED
  {
    hide FlatErase, StepsToCover, CeilTo;
    EraseRunsThrough(f, fault, e, 0, e.size);
    EraseSucceedsIff(f, fault, e, 0, e.size);
    EraseContent(f, fault, e, 0, e.size);
    CeilToFacts(e.size, e.sector);
  }

  /** The three steps of a run of three calls. */
  lemma ThreeCalls(f: Flat, c: Config, es: seq<Extent>, calls: seq<Call>)
    returns (f1: Flat, f2: Flat, f3: Flat, r1: Reply, r2: Reply, r3: Reply)
    requires c.pu > 0 && ValidExtents(es, |f.mem|) && ValidCalls(|es|, calls) && |calls| == 3
    ensures |f1.mem| == |f2.mem| == |f.mem| && f.tick <= f1.tick <= f2.tick <= f3.tick
    ensures (f1, r1) == FlatStep(f, c, es[calls[0].area], calls[0])
    ensures (f2, r2) == FlatStep(f1, c, es[calls[1].area], calls[1])
    ensures (f3, r3) == FlatStep(f2, c, es[calls[2].area], calls[2])
    ensures FlatRun(f, c, es, calls) == (f3, [r1] + ([r2] + [r3]))
  {
    hide FlatStep, FlatRun;
    f1, r1 := FirstCall(f, c, es, calls);
    f2, r2 := FirstCall(f1, c, es, calls[1..]);
    f3, r3 := FirstCall(f2, c, es, calls[1..][1..]);
    NoCalls(f3, c, es, calls[1..][1..][1..]);
    assert [r3] + [] == [r3];
  }

  lemma FirstCall(f: Flat, c: Config, es: seq<Extent>, calls: seq<Call>) returns (g: Flat, r: Reply)
    requires c.pu > 0 && ValidExtents(es, |f.mem|) && ValidCalls(|es|, calls) && calls != []
    ensures (g, r) == FlatStep(f, c, es[calls[0].area], calls[0])
    ensures |g.mem| == |f.mem| && g.tick >= f.tick && ValidCalls(|es|, calls[1..])
    ensures FlatRun(f, c, es, calls) == (FlatRun(g, c, es, calls[1..]).0, [r] + FlatRun(g, c, es, calls[1..]).1)
  {
    hide FlatStep;
    StepKeepsSize(f, c, es[calls[0].area], calls[0]);
    StepTicks(f, c, es[calls[0].area], calls[0]);
    var step := FlatStep(f, c, es[calls[0].area], calls[0]);
    g, r := step.0, step.1;
  }

  lemma NoCalls(f: Flat, c: Config, es: seq<Extent>, calls: seq<Call>)
    requires c.pu > 0 && ValidExtents(es, |f.mem|) && ValidCalls(|es|, calls) && calls == []
    ensures FlatRun(f, c, es, calls) == (f, [])
  {
  }

  // ---------------------------------------------------------------- the plain byte array

  /** A call on a plain byte array: no units, no sectors, no device operations. */
  function ByteStep(mem: seq<byte>, e: Extent, call: Call): (seq<byte>, Reply)
    requires e.off + e.size <= |mem|
  {
    match call
    case Read(_, off, len) =>
      (mem, if off + len > e.size then Reply(-1, []) else Reply(0, mem[e.off + off..e.off + off + len]))
    case Write(_, off, src) =>
      if off + |src| > e.size then (mem, Reply(-1, [])) else (ByteWrite(mem, e.off + off, src), Reply(0, []))
    case Erase(_, off, len) =>
      if off + len > e.size then (mem, Reply(-1, [])) else (Fill(mem, e.off + off, e.off + off + len), Reply(0, []))
    case IsEmpty(_, off, len) =>
      (mem, if off + len > e.size then Reply(-1, [])
            else
              Reply(if forall x :: e.off + off <= x < e.off + off + len ==> mem[x] == ERASED then 1 else 0,
                    mem[e.off + off..e.off + off + len]))
  }

  lemma ByteStepKeepsSize(mem: seq<byte>, e: Extent, call: Call)
    requires e.off + e.size <= |mem|
    ensures |ByteStep(mem, e, call).0| == |mem|
  {
  }

  function ByteRun(mem: seq<byte>, es: seq<Extent>, calls: seq<Call>): (seq<byte>, seq<Reply>)
    requires ValidExtents(es, |mem|) && ValidCalls(|es|, calls)
    decreases |calls|
  {
    if calls == [] then (mem, [])
    else
      var (mem1, r) := ByteStep(mem, es[calls[0].area], calls[0]);
      ByteStepKeepsSize(mem, es[calls[0].area], calls[0]);
      var (mem2, rs) := ByteRun(mem1, es, calls[1..]);
      (mem2, [r] + rs)
  }

  /** The areas end on program units and sectors. */
  predicate Granular(c: Config, e: Extent)
    requires c.pu > 0
  {
    SectorAligned(e) && e.size % c.pu == 0
  }

  /** A write that is sent as given, an erase of whole sectors; reads and emptiness checks are unrestricted. */
  predicate Plain(c: Config, e: Extent, call: Call)
    requires c.pu > 0 && e.sector > 0
  {
    match call
    case Write(_, off, src) => SentAsGiven(off % c.pu, |src|, c.pu)
    case Erase(_, off, len) => WholeSectors(e, off, len)
    case _ => true
  }

  lemma StepIsByteStep(f: Flat, c: Config, e: Extent, call: Call)
    requires ValidConfig(c) && e.sector > 0 && e.off + e.size <= |f.mem| && Granular(c, e) && Plain(c, e, call)
    requires NoFaultIn(c.fault, f.tick, FlatStep(f, c, e, call).0.tick)
    ensures FlatStep(f, c, e, call).0.mem == ByteStep(f.mem, e, call).0
    ensures FlatStep(f, c, e, call).1 == ByteStep(f.mem, e, call).1
  {
    hide FlatRead, FlatWrite, FlatErase, FlatIsEmpty, ByteStep;
    match call
    case Read(_, off, len) => ReadIsByteRead(f, c, e, call);
    case Write(_, off, src) => WriteIsByteWrite(f, c, e, call);
    case Erase(_, off, len) => EraseIsByteErase(f, c, e, call);
    case IsEmpty(_, off, len) => CheckIsByteCheck(f, c, e, call);
  }

  lemma ReadIsByteRead(f: Flat, c: Config, e: Extent, call: Call)
    requires call.Read? && c.pu > 0 && e.sector > 0 && e.off + e.size <= |f.mem|
    requires NoFaultIn(c.fault, f.tick, FlatStep(f, c, e, call).0.tick)
    ensures FlatStep(f, c, e, call).0.mem == ByteStep(f.mem, e, call).0
    ensures FlatStep(f, c, e, call).1 == ByteStep(f.mem, e, call).1
  {
    hide FlatRead, WordsTouched;
    ReadSucceedsIff(f, c.fault, e, call.off, call.len);
    ReadRejected(f, c.fault, e, call.off, call.len);
    if InExtent(e, call.off, call.len) {
      ReadRunsThrough(f, c.fault, e, call.off, call.len);
    }
  }

  lemma WriteIsByteWrite(f: Flat, c: Config, e: Extent, call: Call)
    requires call.Write? && ValidConfig(c) && e.sector > 0 && e.off + e.size <= |f.mem|
    requires Granular(c, e) && Plain(c, e, call) && NoFaultIn(c.fault, f.tick, FlatStep(f, c, e, call).0.tick)
    ensures FlatStep(f, c, e, call).0.mem == ByteStep(f.mem, e, call).0
    ensures FlatStep(f, c, e, call).1 == ByteStep(f.mem, e, call).1
  {
    hide FlatWrite, WriteOps, SentAsGiven, Landed, UnitAligned, CeilTo, Commit;
    var off, src := call.off, call.src;
    if InExtent(e, off, |src|) {
      UnitsInside(c.pu, e, off, |src|);
      WriteRunsThrough(f, c, e, off, src);
      WriteSucceedsIff(f, c, e, off, src);
      PlainWrite(f, c, e, off, src);
    } else {
      WriteRejected(f, c, e, off, src);
    }
  }

  /** A successful write of a request that is sent as given is the plain byte-array write. */
  lemma PlainWrite(f: Flat, c: Config, e: Extent, off: nat, src: seq<byte>)
    requires ValidConfig(c) && SentAsGiven(off % c.pu, |src|, c.pu) && FlatWrite(f, c, e, off, src).1 == 0
    ensures FlatWrite(f, c, e, off, src).0.mem == ByteWrite(f.mem, e.off + off, src)
  {
    hide FlatWrite, SentAsGiven, Commit, Landed;
    WriteContent(f, c, e, off, src);
    LandedIsSourceIff(|src|, off % c.pu, c.pu);
  }

  lemma EraseIsByteErase(f: Flat, c: Config, e: Extent, call: Call)
    requires call.Erase? && c.pu > 0 && e.sector > 0 && e.off + e.size <= |f.mem|
    requires Plain(c, e, call) && NoFaultIn(c.fault, f.tick, FlatStep(f, c, e, call).0.tick)
    ensures FlatStep(f, c, e, call).0.mem == ByteStep(f.mem, e, call).0
    ensures FlatStep(f, c, e, call).1 == ByteStep(f.mem, e, call).1
  {
    hide FlatErase, StepsToCover, CeilTo;
    if InExtent(e, call.off, call.len) {
      EraseRunsThrough(f, c.fault, e, call.off, call.len);
      WholeErase(f, c.fault, e, call.off, call.len);
    } else {
      EraseRejected(f, c.fault, e, call.off, call.len);
    }
  }

  lemma CheckIsByteCheck(f: Flat, c: Config, e: Extent, call: Call)
    requires call.IsEmpty? && c.pu > 0 && e.sector > 0 && e.off + e.size <= |f.mem|
    requires NoFaultIn(c.fault, f.tick, FlatStep(f, c, e, call).0.tick)
    ensures FlatStep(f, c, e, call).0.mem == ByteStep(f.mem, e, call).0
    ensures FlatStep(f, c, e, call).1 == ByteStep(f.mem, e, call).1
  {
    hide FlatRead, WordsTouched;
    assert FlatIsEmpty(f, c.fault, e, call.off, call.len).0 == FlatRead(f, c.fault, e, call.off, call.len).0;
    if InExtent(e, call.off, call.len) {
      ReadRunsThrough(f, c.fault, e, call.off, call.len);
    }
    IsEmptyMeans(f, c.fault, e, call.off, call.len);
  }

  lemma ReadRejected(f: Flat, fault: Schedule, e: Extent, off: nat, len: nat)
    requires e.off + e.size <= |f.mem|
    ensures !InExtent(e, off, len) ==> FlatRead(f, fault, e, off, len) == (f, Reply(-1, []))
  {
  }

  lemma WriteRejected(f: Flat, c: Config, e: Extent, off: nat, src: seq<byte>)
    requires c.pu > 0 && !InExtent(e, off, |src|)
    ensures FlatWrite(f, c, e, off, src) == (f, -1)
  {
  }

  lemma EraseRejected(f: Flat, fault: Schedule, e: Extent, off: nat, len: nat)
    requires e.sector > 0 && !InExtent(e, off, len)
    ensures FlatErase(f, fault, e, off, len) == (f, -1)
  {
  }

  /** In an area that ends on a program unit, the units around a request in range are in range. */
  lemma UnitsInside(pu: nat, e: Extent, off: nat, len: nat)
    requires pu > 0 && e.size % pu == 0 && InExtent(e, off, len)
    ensures WriteInRange(pu, e, off, len)
  {
    var a := off % pu;
    FloorToFacts(off, pu);
    CeilToFacts(a + len, pu);
    var end := FloorTo(off, pu) + CeilTo(a + len, pu);
    ModAdd(FloorTo(off, pu), CeilTo(a + len, pu), pu);
    if end > e.size {
      assert end - e.size < pu;
      MultipleUnique(end, e.size, pu);
    }
  }

  /** Every run of plain calls, in or out of range, of which no device operation fails, is the run on a plain byte
      array: same replies, same content. */
  lemma {:induction false} RunIsByteRun(f: Flat, c: Config, es: seq<Extent>, calls: seq<Call>)
    requires ValidConfig(c) && ValidExtents(es, |f.mem|) && ValidCalls(|es|, calls) && RunHasNoFault(f, c, es, calls)
    requires forall i :: 0 <= i < |es| ==> Granular(c, es[i])
    requires forall i :: 0 <= i < |calls| ==> Plain(c, es[calls[i].area], calls[i])
    ensures FlatRun(f, c, es, calls).0.mem == ByteRun(f.mem, es, calls).0
    ensures FlatRun(f, c, es, calls).1 == ByteRun(f.mem, es, calls).1
    decreases |calls|
  {
    hide FlatStep, ByteStep, Plain, Granular, UnitAligned;
    if calls != [] {
      var e := es[calls[0].area];
      StepKeepsSize(f, c, e, calls[0]);
      StepTicks(f, c, e, calls[0]);
      RunTicks(FlatStep(f, c, e, calls[0]).0, c, es, calls[1..]);
      StepIsByteStep(f, c, e, calls[0]);
      RunIsByteRun(FlatStep(f, c, e, calls[0]).0, c, es, calls[1..]);
    }
  }
}
