/**
The flat view of the flash: a byte sequence indexed by address, on which a program can only clear bits
and an erase sets bytes to 0xFF. Device operations are numbered; a schedule says which of them fail.
A call's effect is the effect of the operations before the first failing one.
*/
module FlatFlash {
  import opened Bits
  import opened Words

  const ERASED: byte := 0xFF
  const ARM_DRIVER_ERROR: int := -1
  const ARM_DRIVER_ERROR_PARAMETER: int := -5

  /** True at the number of an operation that the device reports as failed. */
  type Schedule = nat -> bool

  /** The two controllers: the FMC programs 8 bytes at a time, the RMC 4. */
  datatype Kind = FMC | RMC

  function UnitSize(kind: Kind): u32 {
    match kind
    case FMC => 8
    case RMC => 4
  }

  function Span(kind: Kind, n: nat): nat {
    match kind
    case FMC => 8 * n
    case RMC => 4 * n
  }

  function Units(kind: Kind, size: nat): nat {
    match kind
    case FMC => size / 8
    case RMC => size / 4
  }

  lemma UnitsAdd(kind: Kind, x: nat, y: nat)
    requires UnitAligned(kind, x)
    ensures Units(kind, x + y) == Units(kind, x) + Units(kind, y)
    ensures Span(kind, Units(kind, x)) == x
  {
  }

  /** The build constants: FLASH_PROGRAM_UNIT of the area layer, the controller, and the device's failures. */
  datatype Config = Config(pu: u32, kind: Kind, fault: Schedule)

  /** What the upper layer knows of an area: its first address, its size, the sector size of its device. */
  datatype Extent = Extent(off: u32, size: u32, sector: u32)

  datatype Flat = Flat(mem: seq<byte>, tick: nat)

  // ---------------------------------------------------------------- failures

  /** How many of the `n` operations from number `t` succeed before the first failure. */
  function FirstFault(fault: Schedule, t: nat, n: nat): (k: nat)
    ensures k <= n
  {
    if n == 0 then 0
    else
      var k := FirstFault(fault, t, n - 1);
      if k < n - 1 || fault(t + n - 1) then k else n
  }

  /** The operation counter after a loop of `n` operations that stops at the first failure. */
  function After(t: nat, k: nat, n: nat): nat {
    if k < n then t + k + 1 else t + n
  }

  /** FirstFault is the only number with none failing before it and a failure at it. */
  lemma {:induction false} FirstFaultMeans(fault: Schedule, t: nat, n: nat, k: nat)
    ensures FirstFault(fault, t, n) == k <==>
      k <= n && (forall i :: t <= i < t + k ==> !fault(i)) && (k < n ==> fault(t + k))
  {
    if n > 0 {
      FirstFaultMeans(fault, t, n - 1, FirstFault(fault, t, n - 1));
      var f := FirstFault(fault, t, n);
      assert (forall i :: t <= i < t + f ==> !fault(i)) && (f < n ==> fault(t + f));
    }
  }

  /** No operations, no failure, no progress of the counter. */
  lemma FirstFaultNone(fault: Schedule, t: nat)
    ensures FirstFault(fault, t, 0) == 0 && After(t, 0, 0) == t
  {
  }

  lemma FirstFaultOne(fault: Schedule, t: nat)
    ensures FirstFault(fault, t, 1) == if fault(t) then 0 else 1
  {
  }

  /** A longer run of operations that fails within the shorter one fails at the same place. */
  lemma {:induction false} FirstFaultStays(fault: Schedule, t: nat, m: nat, n: nat)
    requires m <= n && FirstFault(fault, t, m) < m
    ensures FirstFault(fault, t, n) == FirstFault(fault, t, m)
    decreases n
  {
    if m < n {
      FirstFaultStays(fault, t, m, n - 1);
    }
  }

  /** Two loops of operations one after the other fail where the joined loop fails. */
  lemma {:induction false} FirstFaultJoin(fault: Schedule, t: nat, m: nat, n: nat)
    ensures FirstFault(fault, t, m) < m ==> FirstFault(fault, t, m + n) == FirstFault(fault, t, m)
    ensures FirstFault(fault, t, m) == m ==> FirstFault(fault, t, m + n) == m + FirstFault(fault, t + m, n)
    decreases n
  {
    if n > 0 {
      FirstFaultJoin(fault, t, m, n - 1);
    }
  }

  /** A call that has done `done` operations and goes on with `c` of its `n`: where it stands afterwards. */
  lemma FirstFaultPhase(fault: Schedule, t: nat, done: nat, c: nat, n: nat)
    requires FirstFault(fault, t, done) == done && done + c <= n
    ensures FirstFault(fault, t + done, c) == c ==> FirstFault(fault, t, done + c) == done + c
    ensures FirstFault(fault, t + done, c) < c ==> FirstFault(fault, t, n) == done + FirstFault(fault, t + done, c)
  {
    FirstFaultJoin(fault, t, done, c);
    if FirstFault(fault, t + done, c) < c {
      FirstFaultStays(fault, t, done + c, n);
    }
  }

  predicate UnitAligned(kind: Kind, x: nat) {
    match kind
    case FMC => x % 8 == 0
    case RMC => x % 4 == 0
  }

  lemma UnitAlignedMeans(kind: Kind, x: nat)
    ensures UnitAligned(kind, x) <==> x % UnitSize(kind) == 0
  {
  }

  predicate LegalUnit(size: nat, addr: nat, kind: Kind) {
    UnitAligned(kind, addr) && addr + UnitSize(kind) <= size
  }

  /** How many of `n` unit-sized operations from address `addr` succeed before the first that fails or
      has an address outside the controller's range. */
  function Reached(fault: Schedule, t: nat, size: nat, addr: nat, kind: Kind, n: nat): (k: nat)
    ensures k <= n
  {
    if n == 0 then 0
    else
      var k := Reached(fault, t, size, addr, kind, n - 1);
      if k < n - 1 || fault(t + n - 1) || !LegalUnit(size, addr + Span(kind, n - 1), kind) then k else n
  }

  /** One more operation. */
  lemma ReachedNext(fault: Schedule, t: nat, size: nat, addr: nat, kind: Kind, k: nat)
    requires Reached(fault, t, size, addr, kind, k) == k
    ensures Reached(fault, t, size, addr, kind, k + 1) ==
      if !fault(t + k) && LegalUnit(size, addr + Span(kind, k), kind) then k + 1 else k
  {
  }

  lemma ReachedNone(fault: Schedule, t: nat, size: nat, addr: nat, kind: Kind)
    ensures Reached(fault, t, size, addr, kind, 0) == 0 && Span(kind, 0) == 0
  {
  }

  lemma SpanNext(kind: Kind, k: nat, n: nat)
    ensures Span(kind, k + 1) == Span(kind, k) + UnitSize(kind)
    ensures Span(kind, k) < Span(kind, n) <==> k < n
    ensures k < n ==> Span(kind, k + 1) <= Span(kind, n)
  {
  }

  lemma {:induction false} ReachedStays(fault: Schedule, t: nat, size: nat, addr: nat, kind: Kind, m: nat, n: nat)
    requires m <= n && Reached(fault, t, size, addr, kind, m) < m
    ensures Reached(fault, t, size, addr, kind, n) == Reached(fault, t, size, addr, kind, m)
    decreases n
  {
    if m < n {
      ReachedStays(fault, t, size, addr, kind, m, n - 1);
    }
  }

  lemma UnitAlignedSpan(kind: Kind, addr: nat, n: nat)
    requires UnitAligned(kind, addr)
    ensures UnitAligned(kind, addr + Span(kind, n)) && Span(kind, n + 1) == Span(kind, n) + UnitSize(kind)
  {
    match kind
    case FMC =>
      MultipleMod(n, 8);
      ModAdd(addr, 8 * n, 8);
    case RMC =>
      MultipleMod(n, 4);
      ModAdd(addr, 4 * n, 4);
  }

  /** Inside the controller's range only the schedule decides. */
  lemma {:induction false} ReachedInRange(fault: Schedule, t: nat, size: nat, addr: nat, kind: Kind, n: nat)
    requires UnitAligned(kind, addr) && addr + Span(kind, n) <= size
    ensures Reached(fault, t, size, addr, kind, n) == FirstFault(fault, t, n)
  {
    hide UnitAligned, Span, UnitSize;
    if n > 0 {
      UnitAlignedSpan(kind, addr, n - 1);
      ReachedInRange(fault, t, size, addr, kind, n - 1);
    }
  }

  /** A multiple of the area layer's program unit is a whole number of the controller's units. */
  lemma UnitOfPu(kind: Kind, pu: nat, x: nat)
    requires pu > 0 && UnitAligned(kind, pu) && x % pu == 0
    ensures UnitAligned(kind, x) && Span(kind, Units(kind, x)) == x
  {
    match kind
    case FMC => ModDivides(x, pu, 8);
    case RMC => ModDivides(x, pu, 4);
  }

  // ---------------------------------------------------------------- bytes

  /** Programming `data` at address `at`, of which only the addresses below `limit` are reached. */
  function Commit(mem: seq<byte>, at: nat, data: seq<byte>, limit: nat): (r: seq<byte>)
    ensures |r| == |mem|
    ensures forall x :: 0 <= x < |mem| ==>
      r[x] == if at <= x < at + |data| && x < limit then mem[x] & data[x - at] else mem[x]
  {
    seq(|mem|, x requires 0 <= x < |mem| =>
      if at <= x < at + |data| && x < limit then mem[x] & data[x - at] else mem[x])
  }

  /** Erasing the addresses [lo, hi). */
  function Fill(mem: seq<byte>, lo: nat, hi: nat): (r: seq<byte>)
    ensures |r| == |mem|
    ensures forall x :: 0 <= x < |mem| ==> r[x] == if lo <= x < hi then ERASED else mem[x]
  {
    seq(|mem|, x requires 0 <= x < |mem| => if lo <= x < hi then ERASED else mem[x])
  }

  /** The byte that a program unit must carry at address x: new data inside the request, the present
      content in the padding around it. */
  function Patched(mem: seq<byte>, at: nat, data: seq<byte>, x: nat): byte
    requires x < |mem|
  {
    if at <= x < at + |data| then data[x - at] else mem[x]
  }

  /** Programming whole units that carry patched content continues a partial program of the request:
      the padding keeps its value, because x & x == x. */
  lemma CommitExtend(mem: seq<byte>, at: nat, data: seq<byte>, lo: nat, d: seq<byte>, cut: nat)
    requires lo + |d| <= |mem| && lo <= cut <= lo + |d|
    requires forall i :: 0 <= i < |d| ==> d[i] == Patched(mem, at, data, lo + i)
    ensures Commit(Commit(mem, at, data, lo), lo, d, cut) == Commit(mem, at, data, cut)
  {
    var l, r := Commit(Commit(mem, at, data, lo), lo, d, cut), Commit(mem, at, data, cut);
    forall x | 0 <= x < |mem| ensures l[x] == r[x] {
      if lo <= x < cut {
        assert d[x - lo] == Patched(mem, at, data, lo + (x - lo));
        AndSelf(mem[x]);
      }
    }
  }

  lemma AndSelf(b: byte)
    ensures b & b == b
  {
  }

  lemma AndAgain(m: byte, d: byte)
    ensures (m & d) & d == m & d
  {
  }

  lemma AndErased(d: byte)
    ensures ERASED & d == d
  {
  }

  // ---------------------------------------------------------------- the three calls

  predicate InExtent(e: Extent, off: nat, len: nat) {
    off + len <= e.size
  }

  /** Words of four bytes that contain a byte of a request (one if an empty request starts inside a word). */
  function WordsTouched(off: nat, len: nat): nat {
    (off % 4 + len + 3) / 4
  }

  /** The bytes of a request that lie in the word it starts inside. */
  function HeadBytes(off: nat, len: nat): nat {
    if off % 4 == 0 then 0 else if off % 4 + len >= 4 then 4 - off % 4 else len
  }

  /** Number of driver reads for a piece that is read only if its condition holds. */
  function OneIf(b: bool): nat {
    if b then 1 else 0
  }

  function HeadReads(off: nat): nat {
    OneIf(off % 4 != 0)
  }

  /** The words of a request: one if it starts inside a word, then the `q` whole ones, then one for what remains. */
  lemma WordSplit(off: nat, len: nat, q: nat, left: nat)
    requires HeadBytes(off, len) + 4 * q + left == len && left < 4
    ensures WordsTouched(off, len) == HeadReads(off) + q + OneIf(left != 0)
  {
  }

  datatype Reply = Reply(rc: int, data: seq<byte>)

  /** Read: the bytes of the request, or the driver's error if a word read fails. */
  function FlatRead(f: Flat, fault: Schedule, e: Extent, off: nat, len: nat): (Flat, Reply)
    requires e.off + e.size <= |f.mem|
  {
    if !InExtent(e, off, len) then (f, Reply(-1, []))
    else
      var n := WordsTouched(off, len);
      var k := FirstFault(fault, f.tick, n);
      (Flat(f.mem, After(f.tick, k, n)),
       if k == n then Reply(0, f.mem[e.off + off .. e.off + off + len]) else Reply(ARM_DRIVER_ERROR, []))
  }

  /** The number of source bytes that go into the first, partly filled program unit. */
  function HeadRoom(a: nat, pu: nat): nat
    requires a < pu
  {
    if a == 0 then 0 else pu - a
  }

  /** The number of bytes in the whole units after the head. */
  function MiddleLen(len: nat, a: nat, pu: nat): nat
    requires a < pu
  {
    if len <= HeadRoom(a, pu) then 0 else FloorTo(len - HeadRoom(a, pu), pu)
  }

  /** The data that reach [off, off + |src|) when `off` lies `a` bytes into a program unit. The middle run
      is sent from the start of `src`, not from where the head stopped. */
  function Landed(src: seq<byte>, a: nat, pu: nat): (r: seq<byte>)
    requires a < pu
    ensures |r| == |src|
  {
    var h, m := HeadRoom(a, pu), MiddleLen(|src|, a, pu);
    seq(|src|, t requires 0 <= t < |src| => if h <= t < h + m then src[t - h] else src[t])
  }

  /** The number of padding bytes after the request, up to the end of its last program unit. */
  function TailPadding(a: nat, len: nat, pu: nat): (r: nat)
    requires pu > 0
    ensures a + len + r == CeilTo(a + len, pu)
  {
    CeilToFacts(a + len, pu);
    CeilTo(a + len, pu) - a - len
  }

  /** How the units of a request split: the head unit (if the request starts inside a unit), the middle run,
      the tail unit (if bytes remain after the run). */
  lemma WriteLayout(len: nat, a: nat, pu: nat)
    requires a < pu
    ensures var h, m := HeadRoom(a, pu), MiddleLen(len, a, pu);
      var pad, whole := TailPadding(a, len, pu), CeilTo(a + len, pu);
      && pad < pu && whole == a + len + pad
      && (a > 0 && len <= h ==> whole == pu && m == 0)
      && (a == 0 || len > h ==>
            && h + m <= len && (pad > 0 <==> h + m < len)
            && whole == a + h + m + (if pad > 0 then pu else 0)
            && (pad > 0 ==> len - h - m + pad == pu))
  {
    var h, m, pad, whole := HeadRoom(a, pu), MiddleLen(len, a, pu), TailPadding(a, len, pu), CeilTo(a + len, pu);
    CeilToFacts(a + len, pu);
    if a > 0 && len <= h {
      MultipleMod(1, pu);
      MultipleMod(0, pu);
      MultipleUnique(whole, pu, pu);
    } else {
      MiddleFacts(len, a, pu);
      var rest := len - h - m;
      var end := a + h + m + if rest > 0 then pu else 0;
      MultipleMod(1, pu);
      ModAdd(a + h, m, pu);
      if rest > 0 {
        ModAdd(a + h + m, pu, pu);
      }
      MultipleUnique(whole, end, pu);
    }
  }

  lemma MiddleFacts(len: nat, a: nat, pu: nat)
    requires a < pu && (a == 0 || len > HeadRoom(a, pu))
    ensures var h, m := HeadRoom(a, pu), MiddleLen(len, a, pu);
      m % pu == 0 && (a + h) % pu == 0 && h + m <= len < h + m + pu
  {
    var h := HeadRoom(a, pu);
    MultipleMod(1, pu);
    MultipleMod(0, pu);
    FloorToFacts(len - h, pu);
    assert len == h ==> FloorTo(0, pu) == 0;
  }

  /** Word reads that fetch the head padding, and those that fetch the tail padding. */
  function HeadFetches(off: nat, pu: nat): nat
    requires pu > 0
  {
    WordsTouched(FloorTo(off, pu), off % pu)
  }

  function TailFetches(off: nat, len: nat, pu: nat): nat
    requires pu > 0
  {
    WordsTouched(off + len, TailPadding(off % pu, len, pu))
  }

  /** Write: the padding reads, then the units of the request in ascending order. The check that the last
      unit fits comes after the head padding has been read. */
  function FlatWrite(f: Flat, c: Config, e: Extent, off: nat, src: seq<byte>): (Flat, int)
    requires c.pu > 0
  {
    var a := off % c.pu;
    var whole := CeilTo(a + |src|, c.pu);
    var head := HeadFetches(off, c.pu);
    if !InExtent(e, off, |src|) then (f, -1)
    else if !InExtent(e, FloorTo(off, c.pu), whole) then
      (Flat(f.mem, After(f.tick, FirstFault(c.fault, f.tick, head), head)), -1)
    else
      var fetches := head + TailFetches(off, |src|, c.pu);
      var n := fetches + Units(c.kind, whole);
      var k := FirstFault(c.fault, f.tick, n);
      var done := if k < fetches then 0 else k - fetches;
      (Flat(Commit(f.mem, e.off + off, Landed(src, a, c.pu), e.off + FloorTo(off, c.pu) + Span(c.kind, done)),
            After(f.tick, k, n)),
       if k == n then 0 else -1)
  }

  /** The number of steps of `n` bytes until `len` bytes are covered, and the length of `k` steps. */
  function StepsToCover(len: nat, n: nat): nat
    requires n > 0
  {
    (len + n - 1) / n
  }

  function Steps(k: nat, n: nat): nat {
    k * n
  }

  /** Erase: whole sectors from `off` until `len` bytes are covered. */
  function FlatErase(f: Flat, fault: Schedule, e: Extent, off: nat, len: nat): (Flat, int)
    requires e.sector > 0
  {
    if !InExtent(e, off, len) then (f, -1)
    else if len > 0 && (e.off + off) % e.sector != 0 then (f, ARM_DRIVER_ERROR_PARAMETER)
    else
      var n := StepsToCover(len, e.sector);
      var k := FirstFault(fault, f.tick, n);
      (Flat(Fill(f.mem, e.off + off, e.off + off + Steps(k, e.sector)), After(f.tick, k, n)),
       if k == n then 0 else ARM_DRIVER_ERROR)
  }

  /** Emptiness check: 1 if every byte read is erased, 0 if one is not, with the bytes; -1 if the read fails. */
  function FlatIsEmpty(f: Flat, fault: Schedule, e: Extent, off: nat, len: nat): (Flat, Reply)
    requires e.off + e.size <= |f.mem|
  {
    var (g, r) := FlatRead(f, fault, e, off, len);
    (g, if r.rc != 0 then Reply(-1, [])
        else Reply(if forall i :: 0 <= i < len ==> r.data[i] == ERASED then 1 else 0, r.data))
  }

  // ---------------------------------------------------------------- phases of the calls

  lemma FlatReadInside(f: Flat, fault: Schedule, e: Extent, off: nat, len: nat)
    requires e.off + e.size <= |f.mem| && InExtent(e, off, len)
    ensures var n := WordsTouched(off, len);
      var k := FirstFault(fault, f.tick, n);
      var (g, r) := FlatRead(f, fault, e, off, len);
      && g == Flat(f.mem, After(f.tick, k, n))
      && (r.rc == 0 <==> k == n)
      && (r.rc == 0 ==> r.data == f.mem[e.off + off..e.off + off + len])
  {
  }

  /** A write that fails among its first `m` reads has no other effect than the reads it made. */
  lemma FlatWriteReadFails(f: Flat, c: Config, e: Extent, off: nat, src: seq<byte>, m: nat)
    requires c.pu > 0 && InExtent(e, off, |src|) && FirstFault(c.fault, f.tick, m) < m
    requires m == HeadFetches(off, c.pu)
      || (m == HeadFetches(off, c.pu) + TailFetches(off, |src|, c.pu)
          && InExtent(e, FloorTo(off, c.pu), CeilTo(off % c.pu + |src|, c.pu)))
    ensures FlatWrite(f, c, e, off, src) == (Flat(f.mem, After(f.tick, FirstFault(c.fault, f.tick, m), m)), -1)
  {
    hide CeilTo, FloorTo, HeadFetches, TailFetches, Units, Landed, Commit, FirstFault;
    var a, whole := off % c.pu, CeilTo(off % c.pu + |src|, c.pu);
    if InExtent(e, FloorTo(off, c.pu), whole) {
      var fetches := HeadFetches(off, c.pu) + TailFetches(off, |src|, c.pu);
      FirstFaultStays(c.fault, f.tick, m, fetches + Units(c.kind, whole));
      if m < fetches {
        FirstFaultStays(c.fault, f.tick, m, fetches);
      }
      FloorToFacts(off, c.pu);
      CommitNothing(f.mem, e.off + off, Landed(src, a, c.pu), e.off + FloorTo(off, c.pu));
    }
  }

  lemma CommitNothing(mem: seq<byte>, at: nat, data: seq<byte>, limit: nat)
    requires limit <= at
    ensures Commit(mem, at, data, limit) == mem
  {
  }

  /** A write whose reads succeed is its program phase. */
  lemma FlatWriteProgram(f: Flat, c: Config, e: Extent, off: nat, src: seq<byte>, t: nat)
    requires c.pu > 0 && InExtent(e, off, |src|) && InExtent(e, FloorTo(off, c.pu), CeilTo(off % c.pu + |src|, c.pu))
    requires var fetches := HeadFetches(off, c.pu) + TailFetches(off, |src|, c.pu);
      FirstFault(c.fault, f.tick, fetches) == fetches && t == f.tick + fetches
    ensures var units := Units(c.kind, CeilTo(off % c.pu + |src|, c.pu));
      var k := FirstFault(c.fault, t, units);
      FlatWrite(f, c, e, off, src) ==
        (Flat(Commit(f.mem, e.off + off, Landed(src, off % c.pu, c.pu), e.off + FloorTo(off, c.pu) + Span(c.kind, k)),
              After(t, k, units)),
         if k == units then 0 else -1)
  {
    hide CeilTo, FloorTo, HeadFetches, TailFetches, Units, Landed, Commit, FirstFault, Span;
    FirstFaultJoin(c.fault, f.tick, t - f.tick, Units(c.kind, CeilTo(off % c.pu + |src|, c.pu)));
  }

  /** A loop that covers `len` bytes in steps of `n` is still running exactly while fewer than all steps are done. */
  lemma StepsCover(k: nat, len: nat, n: nat)
    requires n > 0
    ensures Steps(k, n) < len <==> k < StepsToCover(len, n)
    ensures Steps(k + 1, n) == Steps(k, n) + n
  {
    var q := StepsToCover(len, n);
    FloorToFacts(len + n - 1, n);
    assert q * n <= len + n - 1 < q * n + n;
    if k < q {
      StepsMono(k + 1, q, n);
    } else {
      StepsMono(q, k, n);
    }
  }

  lemma StepsMono(k: nat, j: nat, n: nat)
    requires k <= j
    ensures Steps(k, n) <= Steps(j, n)
  {
    assert (j - k) * n >= 0;
  }

  /** Erasing the next stretch extends the erased range. */
  lemma FillNext(mem: seq<byte>, lo: nat, mid: nat, hi: nat)
    requires lo <= mid <= hi
    ensures Fill(Fill(mem, lo, mid), mid, hi) == Fill(mem, lo, hi)
    ensures Fill(mem, lo, lo) == mem
  {
  }

  lemma StepsZero(n: nat)
    ensures Steps(0, n) == 0
  {
  }
}
