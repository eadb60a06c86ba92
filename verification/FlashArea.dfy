/**
The byte-granular area layer, bl2/src/flash_map.c: reads, writes and erases at any offset and length on
top of a driver that works in data items, program units and sectors.
*/
module FlashAreaLayer {
  import opened Wrappers
  import opened Bits
  import opened Words
  import opened FlatFlash
  import opened NvmController
  import opened FlashDriver

  /** struct flash_area. `off` is used as an address of the driver, not as an offset from its base. */
  datatype FlashArea = FlashArea(driver: Driver, off: u32, size: u32)

  function ExtentOf(area: FlashArea): Extent {
    Extent(area.off, area.size, area.driver.info.sectorSize)
  }

  function ConfigOf(area: FlashArea, pu: u32): Config {
    Config(pu, area.driver.nvmc.kind, area.driver.nvmc.fault)
  }

  /** The area lies inside its device and starts on a program unit; `pu` is FLASH_PROGRAM_UNIT. */
  predicate ValidArea(area: FlashArea, pu: u32)
    reads area.driver.nvmc`mem
  {
    ValidAreaFor(area, pu, |area.driver.nvmc.mem|)
  }

  predicate ValidAreaFor(area: FlashArea, pu: u32, size: nat) {
    && area.driver.Describes(size)
    && IsPow2(pu) && UnitAligned(area.driver.nvmc.kind, pu)
    && area.driver.info.sectorSize % pu == 0
    && area.off % pu == 0
    && area.driver.memoryBase <= area.off && area.off + area.size <= area.driver.End()
  }

  /** A checked 32-bit addition, then the comparison with the area's size. */
  method IsRangeValid(areaSize: u32, off: u32, len: u32) returns (ok: bool)
    ensures ok <==> off + len <= areaSize
  {
    var size := SafeAdd(off, len);
    match size
    case None => return false;
    case Some(s) => return !(areaSize < s);
  }

  function SafeAdd(a: u32, b: u32): Option<u32> {
    if a + b < TWO32 then Some(a + b) else None
  }

  // ---------------------------------------------------------------- read

  predicate ItemAligned(addr: nat) {
    addr % 4 == 0
  }

  /** What the data-item reads of an area rely on. */
  predicate Readable(area: FlashArea)
    reads area.driver.nvmc`mem
  {
    && area.driver.Valid()
    && ItemAligned(area.off)
    && area.driver.memoryBase <= area.off && area.off + area.size <= area.driver.End()
  }

  lemma ValidIsReadable(area: FlashArea, pu: u32)
    requires ValidArea(area, pu)
    ensures Readable(area) && pu > 0 && IsPow2(pu) && area.off + area.size <= |area.driver.nvmc.mem|
  {
    EndFacts(area.driver);
    hide Driver.Valid, Driver.End;
    PuFacts(area.driver.nvmc.kind, pu, area.off);
  }

  lemma PuFacts(kind: Kind, pu: u32, x: nat)
    requires pu > 0 && UnitAligned(kind, pu) && x % pu == 0
    ensures ItemAligned(x) && UnitAligned(kind, x)
  {
    UnitOfPu(kind, pu, x);
  }

  lemma EndFacts(d: Driver)
    requires d.Valid()
    ensures d.End() <= |d.nvmc.mem| < TWO32 && d.info.sectorSize > 0
    ensures forall addr: nat :: ItemAligned(addr) && addr < d.End() ==> addr + 4 <= d.End()
  {
    d.EndAligned();
    ModDivides(d.End(), d.info.sectorSize, 4);
  }

  /** The outcome of `c` data-item reads that started at operation number `t`: a negative code exactly on a failure. */
  predicate ReadOutcome(nvmc: Nvmc, t: nat, c: nat, ret: int)
    reads nvmc
  {
    var k := FirstFault(nvmc.fault, t, c);
    nvmc.tick == After(t, k, c) && if k == c then ret >= 0 else ret == ARM_DRIVER_ERROR
  }

  /** DRV_FLASH_AREA(area)->ReadData on items inside the device: accepted, no 32-bit expression wraps, and only
      the schedule decides whether it succeeds. */
  method ReadItems(area: FlashArea, addr: nat, dst: array<byte>, at: nat, cnt: u32) returns (ret: int)
    requires area.driver.Valid() && cnt > 0 && at + 4 * cnt <= dst.Length
    requires area.driver.memoryBase <= addr && ItemAligned(addr) && addr + 4 * cnt <= area.driver.End()
    modifies dst, area.driver.nvmc`tick
    ensures ReadOutcome(area.driver.nvmc, old(area.driver.nvmc.tick), cnt, ret)
    ensures ret >= 0 ==> forall j :: at <= j < at + 4 * cnt ==> dst[j] == area.driver.nvmc.mem[addr + (j - at)]
    ensures forall j :: 0 <= j < dst.Length && !(at <= j < at + 4 * cnt) ==> dst[j] == old(dst[j])
  {
    hide Driver.Valid, Driver.End, Driver.IsRangeValid, Reached, FirstFault, Wrap, DataWidth, ItemAligned;
    ReadAccepted(area.driver, addr, cnt);
    ret := area.driver.ReadData(addr, dst, at, cnt);
  }

  lemma ReadAccepted(d: Driver, addr: nat, cnt: u32)
    requires d.Valid() && cnt > 0
    requires d.memoryBase <= addr && ItemAligned(addr) && addr + 4 * cnt <= d.End()
    ensures DataWidth() == 4 && Wrap(cnt * DataWidth()) == 4 * cnt && 4 * cnt / 4 == cnt && AsInt32(cnt) == cnt
    ensures addr < TWO32
    ensures d.IsRangeValid(Wrap(addr + 4 * cnt - 1))
    ensures Reached(d.nvmc.fault, d.nvmc.tick, |d.nvmc.mem|, addr, RMC, cnt)
         == FirstFault(d.nvmc.fault, d.nvmc.tick, cnt)
  {
    WrapId(4 * cnt);
    WrapId(addr + 4 * cnt - 1);
    d.RangeValidMeans(addr + 4 * cnt - 1);
    ReachedInRange(d.nvmc.fault, d.nvmc.tick, |d.nvmc.mem|, addr, RMC, cnt);
  }

  /** The bytes [lo, hi) of `dst` hold the flash content from `addr + lo`. */
  predicate Holds(dst: array<byte>, mem: seq<byte>, addr: nat, lo: nat, hi: nat)
    requires hi <= dst.Length
    reads dst
  {
    addr + hi <= |mem| && forall j :: lo <= j < hi ==> dst[j] == mem[addr + j]
  }

  /** The copy loops: `cnt` bytes of `src` from `skip` go to `dst` from `at`. */
  method CopyBytes(dst: array<byte>, at: nat, src: array<byte>, skip: nat, cnt: nat)
    requires dst != src && at + cnt <= dst.Length && skip + cnt <= src.Length
    modifies dst
    ensures forall j :: at <= j < at + cnt ==> dst[j] == src[skip + (j - at)]
    ensures forall j :: 0 <= j < dst.Length && !(at <= j < at + cnt) ==> dst[j] == old(dst[j])
  {
    for n := 0 to cnt
      invariant forall j :: at <= j < at + n ==> dst[j] == src[skip + (j - at)]
      invariant forall j :: 0 <= j < dst.Length && !(at <= j < at + n) ==> dst[j] == old(dst[j])
    {
      dst[at + n] := src[skip + n];
    }
  }

  /** If `off` is not item-aligned: the item that contains it, of which `i` bytes belong to the request. */
  method ReadHead(area: FlashArea, off: u32, dst: array<byte>, len: u32) returns (ret: int, i: u32)
    requires Readable(area) && InExtent(ExtentOf(area), off, len) && len <= dst.Length
    modifies dst, area.driver.nvmc`tick
    ensures ReadOutcome(area.driver.nvmc, old(area.driver.nvmc.tick), HeadReads(off), ret)
    ensures ret >= 0 ==> i == HeadBytes(off, len) && Holds(dst, area.driver.nvmc.mem, area.off + off, 0, i)
    ensures ret >= 0 && i < len ==> ItemAligned(area.off + off + i)
    ensures i <= len && forall j :: i <= j < dst.Length ==> dst[j] == old(dst[j])
  {
    hide Driver.Valid, Driver.End, FirstFault, After, DataWidth, ItemAligned, FloorAlign, FloorTo, HeadBytes;
    EndFacts(area.driver);
    FirstFaultNone(area.driver.nvmc.fault, area.driver.nvmc.tick);
    FloorAlignRoundsDown(off, DataWidth());
    HeadAligned(area.off, off, len);
    var dataWidth := DataWidth();
    var alignedOff := FloorAlign(off, dataWidth);
    ret, i := 0, 0;
    if alignedOff != off {
      var tempBuffer := new byte[4];
      var skip: u32 := off - alignedOff;
      ret := ReadItems(area, area.off + alignedOff, tempBuffer, 0, 1);
      if ret < 0 {
        return;
      }
      i := if skip + len >= dataWidth then dataWidth - skip else len;
      CopyBytes(dst, 0, tempBuffer, skip, i);
    }
  }

  /** remaining_len / data_width. */
  function ItemCount(remaining: u32): u32 {
    remaining / DataWidth()
  }

  lemma ItemsIn(addr: nat, remaining: u32)
    ensures 4 * ItemCount(remaining) <= remaining < 4 * ItemCount(remaining) + 4
    ensures ItemAligned(addr) ==> ItemAligned(addr + 4 * ItemCount(remaining))
  {
  }

  /** The whole items of the remaining request, straight into `dst`; `left` bytes stay. */
  method ReadWhole(area: FlashArea, base: nat, dst: array<byte>, at: u32, remaining: u32)
    returns (ret: int, itemNumber: u32, left: u32)
    requires Readable(area) && at + remaining <= dst.Length && (remaining > 0 ==> ItemAligned(base + at))
    requires area.driver.memoryBase <= base && base + at + remaining <= area.driver.End()
    requires Holds(dst, area.driver.nvmc.mem, base, 0, at)
    modifies dst, area.driver.nvmc`tick
    ensures 4 * itemNumber + left == remaining && left < 4
    ensures left > 0 ==> ItemAligned(base + (at + 4 * itemNumber))
    ensures ReadOutcome(area.driver.nvmc, old(area.driver.nvmc.tick), itemNumber, ret)
    ensures ret >= 0 ==> Holds(dst, area.driver.nvmc.mem, base, 0, at + 4 * itemNumber)
    ensures forall j :: at + remaining <= j < dst.Length ==> dst[j] == old(dst[j])
  {
    hide Driver.Valid, Driver.End, FirstFault, After, DataWidth, ItemAligned, ItemCount;
    EndFacts(area.driver);
    FirstFaultNone(area.driver.nvmc.fault, area.driver.nvmc.tick);
    ItemsIn(base + at, remaining);
    ret, itemNumber, left := 0, 0, remaining;
    if remaining != 0 {
      itemNumber := ItemCount(remaining);
      if itemNumber != 0 {
        ret := ReadItems(area, base + at, dst, at, itemNumber);
        left := remaining - itemNumber * DataWidth();
      }
    }
  }

  /** If the request ends inside an item: the first `left` bytes of that item. */
  method ReadTail(area: FlashArea, base: nat, dst: array<byte>, at: nat, left: u32) returns (ret: int)
    requires Readable(area) && left < 4 && at + left <= dst.Length && (left > 0 ==> ItemAligned(base + at))
    requires area.driver.memoryBase <= base && base + at + left <= area.driver.End()
    requires Holds(dst, area.driver.nvmc.mem, base, 0, at)
    modifies dst, area.driver.nvmc`tick
    ensures ReadOutcome(area.driver.nvmc, old(area.driver.nvmc.tick), OneIf(left != 0), ret)
    ensures ret >= 0 ==> Holds(dst, area.driver.nvmc.mem, base, 0, at + left)
    ensures forall j :: at + left <= j < dst.Length ==> dst[j] == old(dst[j])
  {
    hide Driver.Valid, Driver.End, FirstFault, After, DataWidth, ItemAligned;
    EndFacts(area.driver);
    FirstFaultNone(area.driver.nvmc.fault, area.driver.nvmc.tick);
    ret := 0;
    if left != 0 {
      var tempBuffer := new byte[4];
      ret := ReadItems(area, base + at, tempBuffer, 0, 1);
      if ret < 0 {
        return;
      }
      CopyBytes(dst, at, tempBuffer, 0, left);
    }
  }

  /** flash_area_read: any alignment; head item, run of whole items, tail item. */
  method FlashAreaRead(area: FlashArea, off: u32, dst: array<byte>, len: u32) returns (rc: int)
    requires Readable(area) && len <= dst.Length
    modifies dst, area.driver.nvmc`tick
    ensures var (g, r) := FlatRead(old(area.driver.nvmc.State()), area.driver.nvmc.fault, ExtentOf(area), off, len);
      area.driver.nvmc.State() == g && rc == r.rc && (rc == 0 ==> dst[..len] == r.data)
    ensures forall j :: len <= j < dst.Length ==> dst[j] == old(dst[j])
    ensures !InExtent(ExtentOf(area), off, len) ==> dst[..] == old(dst[..])
  {
    hide Driver.Valid, Driver.End;
    EndFacts(area.driver);
    var valid := IsRangeValid(area.size, off, len);
    if !valid {
      return -1;
    }
    rc := ReadPieces(area, off, dst, len);
  }

  method ReadPieces(area: FlashArea, off: u32, dst: array<byte>, len: u32) returns (rc: int)
    requires Readable(area) && InExtent(ExtentOf(area), off, len) && len <= dst.Length
    modifies dst, area.driver.nvmc`tick
    ensures rc <= 0 && ReadOutcome(area.driver.nvmc, old(area.driver.nvmc.tick), WordsTouched(off, len), rc)
    ensures rc == 0 ==> Holds(dst, area.driver.nvmc.mem, area.off + off, 0, len)
    ensures forall j :: len <= j < dst.Length ==> dst[j] == old(dst[j])
  {
    hide Driver.Valid, Driver.End, FirstFault, WordsTouched, HeadBytes, After, DataWidth, ReadOutcome, ItemAligned,
      HeadReads;
    EndFacts(area.driver);
    ghost var nvmc, t0, n := area.driver.nvmc, area.driver.nvmc.tick, WordsTouched(off, len);
    ghost var h := HeadReads(off);
    NothingRead(nvmc, off, len);

    var ret, i := ReadHead(area, off, dst, len);
    ReadOutcomeJoin(nvmc, t0, 0, h, n, ret);
    if ret < 0 {
      return ret;
    }
    var itemNumber, left;
    ret, itemNumber, left := ReadWhole(area, area.off + off, dst, i, len - i);
    WordSplit(off, len, itemNumber, left);
    ReadOutcomeJoin(nvmc, t0, h, itemNumber, n, ret);
    if ret < 0 {
      return ret;
    }
    ret := ReadTail(area, area.off + off, dst, i + itemNumber * DataWidth(), left);
    ReadOutcomeJoin(nvmc, t0, h + itemNumber, OneIf(left != 0), n, ret);
    if ret < 0 {
      return ret;
    }
    return 0;
  }

  /** A piece of `c` reads after `done` successful ones, in a call that makes `n` reads if none fails. */
  lemma ReadOutcomeJoin(nvmc: Nvmc, t0: nat, done: nat, c: nat, n: nat, ret: int)
    requires FirstFault(nvmc.fault, t0, done) == done && done + c <= n
    requires ReadOutcome(nvmc, t0 + done, c, ret)
    ensures ret < 0 ==> ReadOutcome(nvmc, t0, n, ret)
    ensures ret >= 0 ==> nvmc.tick == t0 + done + c && FirstFault(nvmc.fault, t0, done + c) == done + c
    ensures ret >= 0 ==> ReadOutcome(nvmc, t0, done + c, 0)
  {
    FirstFaultPhase(nvmc.fault, t0, done, c, n);
  }

  lemma NothingRead(nvmc: Nvmc, off: nat, len: nat)
    ensures FirstFault(nvmc.fault, nvmc.tick, 0) == 0
    ensures HeadReads(off) <= WordsTouched(off, len)
  {
  }

  /** Where the aligned part of a request begins. */
  lemma HeadAligned(base: nat, off: nat, len: nat)
    requires ItemAligned(base)
    ensures HeadBytes(off, len) < len ==> ItemAligned(base + off + HeadBytes(off, len))
    ensures ItemAligned(base + FloorTo(off, 4)) && FloorTo(off, 4) <= off < FloorTo(off, 4) + 4
    ensures FloorTo(off, 4) == off <==> off % 4 == 0
    ensures var skip := off - FloorTo(off, 4);
      HeadBytes(off, len) == if skip == 0 then 0 else if skip + len >= 4 then 4 - skip else len
  {
    hide FloorTo;
    FloorToFacts(off, 4);
    ModAdd(base, FloorTo(off, 4), 4);
    var next := FloorTo(off, 4) + 4;
    ModAdd(base, next, 4);
    if off % 4 == 0 {
      ModAdd(base, off, 4);
    }
  }

  // ---------------------------------------------------------------- write

  /** The program phase of one write: `data` goes to [at, at + |data|) in `units` units from `start`, from
      operation number `tick` on, over the content `mem`. */
  datatype WritePlan = WritePlan(mem: seq<byte>, at: nat, data: seq<byte>, start: nat, tick: nat, units: nat)

  /** The outcome of the first `n` units of a plan: exactly those before the first failure have their new value. */
  predicate WriteOutcome(nvmc: Nvmc, p: WritePlan, n: nat, ok: bool)
    reads nvmc
  {
    nvmc.State() == PlanState(nvmc.kind, nvmc.fault, p, n) && (ok <==> FirstFault(nvmc.fault, p.tick, n) == n)
  }

  function PlanState(kind: Kind, fault: Schedule, p: WritePlan, n: nat): Flat {
    var k := FirstFault(fault, p.tick, n);
    Flat(Commit(p.mem, p.at, p.data, p.start + Span(kind, k)), After(p.tick, k, n))
  }

  /** DRV_FLASH_AREA(area)->ProgramData on the next `q` units of a plan: the request is aligned, inside the
      device and accepted; a failure ends the plan. */
  method ProgramNext(area: FlashArea, addr: nat, data: seq<byte>, cnt: u32, ghost p: WritePlan, ghost done: nat,
                     ghost q: nat)
    returns (ret: int)
    requires area.driver.Valid() && 4 * cnt <= |data|
    requires q > 0 && 4 * cnt == Span(area.driver.nvmc.kind, q) && done + q <= p.units
    requires addr == p.start + Span(area.driver.nvmc.kind, done) && UnitAligned(area.driver.nvmc.kind, addr)
    requires area.driver.memoryBase <= addr && addr + 4 * cnt <= area.driver.End()
    requires WriteOutcome(area.driver.nvmc, p, done, true) && |p.mem| == |area.driver.nvmc.mem|
    requires forall i :: 0 <= i < 4 * cnt ==> data[i] == Patched(p.mem, p.at, p.data, addr + i)
    modifies area.driver.nvmc`mem, area.driver.nvmc`tick
    ensures area.driver.Valid() && |p.mem| == |area.driver.nvmc.mem|
    ensures ret >= 0 ==> WriteOutcome(area.driver.nvmc, p, done + q, true)
    ensures ret < 0 ==> WriteOutcome(area.driver.nvmc, p, p.units, false)
  {
    hide Driver.Valid, Driver.End, Driver.ProgramAccepted, FirstFault, UnitAligned, Units, Reached, Patched, After,
      DataWidth, PlanState;
    var nvmc := area.driver.nvmc;
    ghost var k, d := FirstFault(nvmc.fault, nvmc.tick, q), data[..4 * cnt];
    ghost var reached := addr + Span(nvmc.kind, k);
    PlanProgress(nvmc.kind, nvmc.fault, p, done);
    ProgramAcceptable(area.driver, addr, cnt, q);
    PlanStep(nvmc.kind, nvmc.fault, p, done, q, addr, d, reached);
    ret := area.driver.ProgramData(addr, data, cnt);
    assert nvmc.State() == Flat(Commit(old(nvmc.mem), addr, d, reached), After(old(nvmc.tick), k, q));
  }

  lemma PlanProgress(kind: Kind, fault: Schedule, p: WritePlan, done: nat)
    requires FirstFault(fault, p.tick, done) == done
    ensures PlanState(kind, fault, p, done)
         == Flat(Commit(p.mem, p.at, p.data, p.start + Span(kind, done)), p.tick + done)
  {
  }

  /** Programming the next `q` units, of which some may fail, takes a plan from `done` units to its next outcome. */
  lemma PlanStep(kind: Kind, fault: Schedule, p: WritePlan, done: nat, q: nat, addr: nat, d: seq<byte>, reached: nat)
    requires q > 0 && |d| == Span(kind, q) && done + q <= p.units && addr == p.start + Span(kind, done)
    requires FirstFault(fault, p.tick, done) == done && addr + |d| <= |p.mem|
    requires reached == addr + Span(kind, FirstFault(fault, p.tick + done, q))
    requires forall i :: 0 <= i < |d| ==> d[i] == Patched(p.mem, p.at, p.data, addr + i)
    ensures var k := FirstFault(fault, p.tick + done, q);
      var n := if k == q then done + q else p.units;
      var f := FirstFault(fault, p.tick, n);
      && (f == n <==> k == q)
      && Flat(Commit(Commit(p.mem, p.at, p.data, addr), addr, d, reached), After(p.tick + done, k, q))
         == PlanState(kind, fault, p, n)
  {
    hide FirstFault, Commit, Patched;
    SpanSum(kind, done, FirstFault(fault, p.tick + done, q));
    SpanSum(kind, done, q);
    FirstFaultPhase(fault, p.tick, done, q, p.units);
    CommitExtend(p.mem, p.at, p.data, addr, d, reached);
  }

  lemma SpanSum(kind: Kind, x: nat, y: nat)
    ensures Span(kind, x + y) == Span(kind, x) + Span(kind, y)
  {
  }

  /** A unit-aligned request inside the device passes the driver's checks; no 32-bit expression wraps. */
  lemma ProgramAcceptable(d: Driver, addr: nat, cnt: u32, q: nat)
    requires d.Valid() && q > 0 && 4 * cnt == Span(d.nvmc.kind, q)
    requires d.memoryBase <= addr && UnitAligned(d.nvmc.kind, addr) && addr + 4 * cnt <= d.End()
    ensures Wrap(cnt * DataWidth()) == 4 * cnt && AsInt32(cnt) == cnt > 0
    ensures addr < TWO32 && d.ProgramAccepted(addr, 4 * cnt)
    ensures Units(d.nvmc.kind, 4 * cnt) == q && addr + 4 * cnt <= |d.nvmc.mem|
    ensures Span(d.nvmc.kind, FirstFault(d.nvmc.fault, d.nvmc.tick, q)) <= 4 * cnt
    ensures Reached(d.nvmc.fault, d.nvmc.tick, |d.nvmc.mem|, addr, d.nvmc.kind, q)
         == FirstFault(d.nvmc.fault, d.nvmc.tick, q)
  {
    hide Driver.Valid, Driver.End, UnitAligned, Units, Driver.IsWriteAligned, Driver.IsRangeValid, FirstFault;
    EndFacts(d);
    d.RangeValidMeans(addr + 4 * cnt - 1);
    UnitChecks(d, addr);
    SpanFacts(d.nvmc.kind, q);
    UnitChecks(d, 4 * cnt);
    WrapId(4 * cnt);
    WrapId(addr + 4 * cnt - 1);
    ReachedInRange(d.nvmc.fault, d.nvmc.tick, |d.nvmc.mem|, addr, d.nvmc.kind, q);
  }

  lemma UnitChecks(d: Driver, x: u32)
    requires d.Valid() && UnitAligned(d.nvmc.kind, x)
    ensures d.info.programUnit > 0 && d.IsWriteAligned(x)
  {
    UnitAlignedMeans(d.nvmc.kind, x);
  }

  lemma SpanFacts(kind: Kind, q: nat)
    ensures UnitAligned(kind, Span(kind, q)) && Units(kind, Span(kind, q)) == q
    ensures Span(kind, q) >= 4 * q
    ensures forall k: nat {:trigger Span(kind, k)} :: k <= q ==> Span(kind, k) <= Span(kind, q)
  {
  }

  /** ProgramNext with the progress counted in bytes: `sz` more bytes after the first `done` of `whole`. */
  method ProgramBytes(area: FlashArea, addr: nat, data: seq<byte>, cnt: u32, ghost p: WritePlan, ghost done: nat,
                      ghost whole: nat)
    returns (ret: int)
    requires area.driver.Valid() && 0 < 4 * cnt <= |data|
    requires PlanAligned(area.driver.nvmc.kind, p, whole) && UnitAligned(area.driver.nvmc.kind, done)
    requires UnitAligned(area.driver.nvmc.kind, 4 * cnt) && done + 4 * cnt <= whole && addr == p.start + done
    requires area.driver.memoryBase <= addr && addr + 4 * cnt <= area.driver.End()
    requires Programmed(area.driver.nvmc, p, done) && |p.mem| == |area.driver.nvmc.mem|
    requires forall i :: 0 <= i < 4 * cnt ==> data[i] == Patched(p.mem, p.at, p.data, addr + i)
    modifies area.driver.nvmc`mem, area.driver.nvmc`tick
    ensures area.driver.Valid() && |p.mem| == |area.driver.nvmc.mem|
    ensures if ret >= 0 then Programmed(area.driver.nvmc, p, done + 4 * cnt) else Stopped(area.driver.nvmc, p)
  {
    hide Driver.Valid, Driver.End, UnitAligned, Units, Span, WriteOutcome, Patched;
    ghost var kind := area.driver.nvmc.kind;
    BytesAsUnits(kind, p.start, done, 4 * cnt, whole);
    ret := ProgramNext(area, addr, data, cnt, p, Units(kind, done), Units(kind, 4 * cnt));
  }

  predicate PlanAligned(kind: Kind, p: WritePlan, whole: nat) {
    UnitAligned(kind, p.start) && UnitAligned(kind, whole) && p.units == Units(kind, whole)
  }

  /** The first `done` bytes of the plan's units are programmed and nothing failed. */
  predicate Programmed(nvmc: Nvmc, p: WritePlan, done: nat)
    reads nvmc
  {
    WriteOutcome(nvmc, p, Units(nvmc.kind, done), true)
  }

  /** A unit failed: the ones before it are programmed, the rest of the plan is not. */
  predicate Stopped(nvmc: Nvmc, p: WritePlan)
    reads nvmc
  {
    WriteOutcome(nvmc, p, p.units, false)
  }

  lemma BytesAsUnits(kind: Kind, start: nat, done: nat, sz: nat, whole: nat)
    requires UnitAligned(kind, start) && UnitAligned(kind, done) && UnitAligned(kind, sz) && UnitAligned(kind, whole)
    requires 0 < sz && done + sz <= whole
    ensures UnitAligned(kind, start + done) && Span(kind, Units(kind, done)) == done
    ensures Span(kind, Units(kind, sz)) == sz
    ensures 0 < Units(kind, sz) && Units(kind, done) + Units(kind, sz) == Units(kind, done + sz) <= Units(kind, whole)
  {
    UnitsAdd(kind, done, sz);
    UnitsAdd(kind, sz, 0);
    UnitAlignedAdd(kind, done, sz);
    UnitAlignedAdd(kind, start, done);
    UnitsAdd(kind, done + sz, whole - done - sz);
  }

  lemma UnitAlignedAdd(kind: Kind, x: nat, y: nat)
    requires UnitAligned(kind, x) && UnitAligned(kind, y)
    ensures UnitAligned(kind, x + y)
  {
    match kind
    case FMC => ModAdd(x, y, 8);
    case RMC => ModAdd(x, y, 4);
  }

  /** The loops that fill the first program unit: source bytes after the head padding, then tail padding. */
  method FillHead(addPadding: array<byte>, a: u32, src: seq<byte>, len: u32, lenPadding: array<byte>, pad: u32)
    returns (rc: int, srcWrittenIdx: u32)
    requires addPadding != lenPadding && 0 < a < addPadding.Length < TWO32 && |src| == len && pad <= lenPadding.Length
    requires a + len <= addPadding.Length ==> a + len + pad == addPadding.Length
    modifies addPadding
    ensures rc == 0 && srcWrittenIdx == if len <= addPadding.Length - a then len else addPadding.Length - a
    ensures forall j :: 0 <= j < a ==> addPadding[j] == old(addPadding[j])
    ensures forall j :: a <= j < a + srcWrittenIdx ==> addPadding[j] == src[j - a]
    ensures forall j :: a + srcWrittenIdx <= j < addPadding.Length ==>
      addPadding[j] == lenPadding[j - a - srcWrittenIdx]
  {
    var pu: u32 := addPadding.Length;
    var i: u32 := a;
    srcWrittenIdx := 0;
    while i < pu && srcWrittenIdx < len
      invariant i as int == a + srcWrittenIdx && i <= pu && srcWrittenIdx <= len
      invariant forall j :: 0 <= j < a ==> addPadding[j] == old(addPadding[j])
      invariant forall j :: a <= j < i ==> addPadding[j] == src[j - a]
      decreases pu - i
    {
      addPadding[i] := src[srcWrittenIdx];
      i, srcWrittenIdx := i + 1, srcWrittenIdx + 1;
    }
    if srcWrittenIdx == len {
      var k;
      i, k := FillRest(addPadding, i, lenPadding, pad);
      if k != pad {
        assert false;
        return -1, srcWrittenIdx;
      }
    }
    if i != pu {
      assert false;
      return -1, srcWrittenIdx;
    }
    return 0, srcWrittenIdx;
  }

  /** The loop that puts the tail padding behind the source bytes. */
  method FillRest(addPadding: array<byte>, start: u32, lenPadding: array<byte>, pad: u32) returns (i: u32, k: u32)
    requires addPadding != lenPadding && start <= addPadding.Length < TWO32 && pad <= lenPadding.Length
    modifies addPadding
    ensures k == if start + pad <= addPadding.Length then pad else addPadding.Length - start
    ensures i as int == start + k
    ensures forall j :: 0 <= j < start ==> addPadding[j] == old(addPadding[j])
    ensures forall j :: start <= j < i ==> addPadding[j] == lenPadding[j - start]
    ensures forall j :: i <= j < addPadding.Length ==> addPadding[j] == old(addPadding[j])
  {
    i, k := start, 0;
    while i < addPadding.Length && k < pad
      invariant i as int == start + k && i <= addPadding.Length && k <= pad
      invariant forall j :: 0 <= j < start || i <= j < addPadding.Length ==> addPadding[j] == old(addPadding[j])
      invariant forall j :: start <= j < i ==> addPadding[j] == lenPadding[j - start]
      decreases pad - k
    {
      addPadding[i] := lenPadding[k];
      i, k := i + 1, k + 1;
    }
  }

  /** The loops that fill the last program unit, and its three consistency checks. */
  method FillTail(addPadding: array<byte>, a: u32, src: seq<byte>, len: u32, lastStart: u32, lenPadding: array<byte>,
                  pad: u32, alignedLen: u32)
    returns (rc: int)
    requires addPadding != lenPadding && addPadding.Length < TWO32 && |src| == len && 0 < pad <= lenPadding.Length
    requires lastStart <= len && len - lastStart + pad == addPadding.Length
    requires alignedLen as int == a + lastStart + addPadding.Length
    modifies addPadding
    ensures rc == 0
    ensures forall j :: 0 <= j < len - lastStart ==> addPadding[j] == src[lastStart + j]
    ensures forall j :: len - lastStart <= j < addPadding.Length ==> addPadding[j] == lenPadding[j - (len - lastStart)]
  {
    var pu: u32 := addPadding.Length;
    var i: u32, srcWrittenIdx: u32 := 0, lastStart;
    while i < pu && srcWrittenIdx < len
      invariant srcWrittenIdx as int == lastStart + i && srcWrittenIdx <= len && i <= pu
      invariant forall j :: 0 <= j < i ==> addPadding[j] == src[lastStart + j]
      decreases pu - i
    {
      addPadding[i] := src[srcWrittenIdx];
      i, srcWrittenIdx := i + 1, srcWrittenIdx + 1;
    }
    if srcWrittenIdx != len {
      assert false;
      return -1;
    }
    var k;
    i, k := FillRest(addPadding, i, lenPadding, pad);
    var writeSize: u32 := a + lastStart + pu;
    if i != pu || k != pad || alignedLen != writeSize {
      assert false;
      return -1;
    }
    return 0;
  }

  /** The program phase of one write: the area, where its units start, and what fits into the padding. */
  predicate PlanFits(area: FlashArea, pu: u32, p: WritePlan, src: seq<byte>, a: nat, whole: nat)
    reads area.driver.nvmc`mem
  {
    && area.driver.Valid() && |p.mem| == |area.driver.nvmc.mem|
    && a < pu && |src| < TWO32 && UnitAligned(area.driver.nvmc.kind, pu)
    && PlanAligned(area.driver.nvmc.kind, p, whole) && whole == CeilTo(a + |src|, pu)
    && p.at == p.start + a && p.data == Landed(src, a, pu)
    && area.driver.memoryBase <= p.start && p.start + whole <= area.driver.End()
  }

  /** The buffer holds the padding of the flash before the request, in its first `a` bytes. */
  predicate HeadBuffer(addPadding: array<byte>, p: WritePlan, a: nat)
    reads addPadding
  {
    p.start + a <= |p.mem| && a <= addPadding.Length && forall j :: 0 <= j < a ==> addPadding[j] == p.mem[p.start + j]
  }

  /** The buffer holds the padding of the flash behind the request, in its first `pad` bytes. */
  predicate TailBuffer(lenPadding: array<byte>, p: WritePlan, pad: nat)
    reads lenPadding
  {
    && p.at + |p.data| + pad <= |p.mem| && pad <= lenPadding.Length
    && forall j :: 0 <= j < pad ==> lenPadding[j] == p.mem[p.at + |p.data| + j]
  }

  /** A unit of `n` bytes at `lo` that carries the padding before the request, then `mid` bytes that land at
      the request's byte `from`, then the padding behind it. */
  lemma UnitPatched(b: seq<byte>, p: WritePlan, lo: nat, before: nat, from: nat, mid: nat)
    requires before + mid <= |b| && lo + |b| <= |p.mem| && from + mid <= |p.data|
    requires lo + before == p.at + from
    requires before > 0 ==> from == 0
    requires before + mid < |b| ==> from + mid == |p.data|
    requires forall j :: 0 <= j < before ==> b[j] == p.mem[lo + j]
    requires forall j :: before <= j < before + mid ==> b[j] == p.data[from + (j - before)]
    requires forall j :: before + mid <= j < |b| ==> b[j] == p.mem[lo + j]
    ensures forall j :: 0 <= j < |b| ==> b[j] == Patched(p.mem, p.at, p.data, lo + j)
  {
  }

  /** The head unit carries the first bytes of `src`. */
  lemma HeadPatched(b: seq<byte>, p: WritePlan, src: seq<byte>, a: nat, pu: nat, idx: nat, tail: seq<byte>)
    requires 0 < a < pu == |b| && p.data == Landed(src, a, pu) && p.at == p.start + a && p.start + pu <= |p.mem|
    requires idx == if |src| <= pu - a then |src| else pu - a
    requires forall j :: 0 <= j < a ==> b[j] == p.mem[p.start + j]
    requires forall j :: a <= j < a + idx ==> b[j] == src[j - a]
    requires a + idx < pu ==>
      |tail| == pu - a - idx && forall j :: 0 <= j < |tail| ==> tail[j] == p.mem[p.at + |src| + j]
    requires forall j :: a + idx <= j < pu ==> b[j] == tail[j - a - idx]
    ensures forall j :: 0 <= j < pu ==> b[j] == Patched(p.mem, p.at, p.data, p.start + j)
  {
    forall j | a + idx <= j < pu ensures b[j] == p.mem[p.start + j] {
      assert tail[j - a - idx] == p.mem[p.at + |src| + (j - a - idx)];
    }
    UnitPatched(b, p, p.start, a, 0, idx);
  }

  /** The middle run carries `src` from its start. */
  lemma MiddlePatched(b: seq<byte>, p: WritePlan, src: seq<byte>, a: nat, pu: nat)
    requires a < pu && p.data == Landed(src, a, pu) && b == src[..MiddleLen(|src|, a, pu)]
    requires HeadRoom(a, pu) + |b| <= |src| && p.at + |src| <= |p.mem|
    ensures forall j :: 0 <= j < |b| ==> b[j] == Patched(p.mem, p.at, p.data, p.at + HeadRoom(a, pu) + j)
  {
    UnitPatched(b, p, p.at + HeadRoom(a, pu), 0, HeadRoom(a, pu), |b|);
  }

  /** The tail unit carries the last bytes of `src`. */
  lemma TailPatched(b: seq<byte>, p: WritePlan, src: seq<byte>, a: nat, pu: nat, tail: seq<byte>)
    requires a < pu == |b| && p.data == Landed(src, a, pu)
    requires var last := HeadRoom(a, pu) + MiddleLen(|src|, a, pu);
      && last <= |src| && |src| - last + |tail| == pu && p.at + last + pu <= |p.mem|
      && (forall j :: 0 <= j < |src| - last ==> b[j] == src[last + j])
      && (forall j :: |src| - last <= j < pu ==> b[j] == tail[j - (|src| - last)])
    requires p.at + |src| + |tail| <= |p.mem| && forall j :: 0 <= j < |tail| ==> tail[j] == p.mem[p.at + |src| + j]
    ensures forall j :: 0 <= j < pu ==>
      b[j] == Patched(p.mem, p.at, p.data, p.at + HeadRoom(a, pu) + MiddleLen(|src|, a, pu) + j)
  {
    var last := HeadRoom(a, pu) + MiddleLen(|src|, a, pu);
    var mid := |src| - last;
    forall j | mid <= j < pu ensures b[j] == p.mem[p.at + last + j] {
      assert tail[j - mid] == p.mem[p.at + |src| + (j - mid)];
    }
    UnitPatched(b, p, p.at + last, 0, last, mid);
  }

  /** If the request starts inside a unit: fill that unit's buffer and program it. */
  method WriteHead(area: FlashArea, pu: u32, alignedOff: u32, src: seq<byte>, a: u32, addPadding: array<byte>,
                   lenPadding: array<byte>, pad: u32, ghost p: WritePlan, ghost whole: nat)
    returns (rc: int, srcWrittenIdx: u32)
    requires PlanFits(area, pu, p, src, a, whole) && pad == TailPadding(a, |src|, pu)
    requires p.start == area.off + alignedOff
    requires addPadding != lenPadding && addPadding.Length == pu
    requires HeadBuffer(addPadding, p, a) && TailBuffer(lenPadding, p, pad)
    requires Programmed(area.driver.nvmc, p, 0)
    modifies addPadding, area.driver.nvmc`mem, area.driver.nvmc`tick
    ensures area.driver.Valid() && |p.mem| == |area.driver.nvmc.mem|
    ensures rc == 0 || rc == -1
    ensures srcWrittenIdx == if |src| <= HeadRoom(a, pu) && a > 0 then |src| else HeadRoom(a, pu)
    ensures if rc == 0 then Programmed(area.driver.nvmc, p, if a > 0 then pu else 0) else Stopped(area.driver.nvmc, p)
  {
    hide Driver.Valid, Driver.End, UnitAligned, Units, CeilTo, MiddleLen, TailPadding, Landed, Programmed, Stopped,
      DataWidth, ItemCount, Patched;
    WriteLayout(|src|, a, pu);
    UnitItems(area.driver.nvmc.kind, pu);
    rc, srcWrittenIdx := 0, 0;
    if a != 0 {
      rc, srcWrittenIdx := FillHead(addPadding, a, src, |src|, lenPadding, pad);
      ghost var tail := lenPadding[..pad];
      HeadPatched(addPadding[..], p, src, a, pu, srcWrittenIdx, tail);
      var ret := ProgramBytes(area, area.off + alignedOff, addPadding[..], ItemCount(pu), p, 0, whole);
      if ret < 0 {
        return -1, srcWrittenIdx;
      }
    }
  }

  /** The whole units behind the head: `write_size` bytes, taken from the start of `src`. */
  method WriteMiddle(area: FlashArea, pu: u32, off: u32, src: seq<byte>, a: u32, srcWrittenIdx: u32,
                     ghost p: WritePlan, ghost whole: nat)
    returns (rc: int, newIdx: u32)
    requires PlanFits(area, pu, p, src, a, whole) && p.at == area.off + off
    requires srcWrittenIdx == HeadRoom(a, pu) && (a > 0 ==> |src| > srcWrittenIdx) && IsPow2(pu)
    requires Programmed(area.driver.nvmc, p, a + srcWrittenIdx)
    modifies area.driver.nvmc`mem, area.driver.nvmc`tick
    ensures area.driver.Valid() && |p.mem| == |area.driver.nvmc.mem|
    ensures rc == 0 || rc == -1
    ensures rc == 0 ==> newIdx == HeadRoom(a, pu) + MiddleLen(|src|, a, pu)
    ensures if rc == 0 then Programmed(area.driver.nvmc, p, a + newIdx) else Stopped(area.driver.nvmc, p)
  {
    hide Driver.Valid, Driver.End, UnitAligned, Units, CeilTo, TailPadding, Landed, Programmed, Stopped, DataWidth,
      ItemCount, Patched, FloorAlign, IsPow2, MiddleLen, FloorTo;
    ghost var kind := area.driver.nvmc.kind;
    WriteLayout(|src|, a, pu);
    EndFacts(area.driver);
    MiddleAligned(kind, |src|, a, pu);
    FloorAlignRoundsDown(|src| - srcWrittenIdx, pu);
    UnitItems(kind, MiddleLen(|src|, a, pu));
    rc, newIdx := 0, srcWrittenIdx;
    var writeSize := FloorAlign(|src| - srcWrittenIdx, pu);
    if writeSize > 0 {
      MiddlePatched(src[..writeSize], p, src, a, pu);
      var ret := ProgramBytes(area, area.off + off + srcWrittenIdx, src, ItemCount(writeSize), p, a + srcWrittenIdx,
                              whole);
      if ret < 0 {
        return -1, newIdx;
      }
      newIdx := newIdx + writeSize;
    }
  }

  /** Head and middle run are whole units of the controller. */
  lemma MiddleAligned(kind: Kind, len: nat, a: nat, pu: u32)
    requires a < pu && UnitAligned(kind, pu) && (a == 0 || len > HeadRoom(a, pu))
    ensures UnitAligned(kind, MiddleLen(len, a, pu)) && UnitAligned(kind, a + HeadRoom(a, pu))
    ensures UnitAligned(kind, a + HeadRoom(a, pu) + MiddleLen(len, a, pu))
    ensures MiddleLen(len, a, pu) == FloorTo(len - HeadRoom(a, pu), pu)
  {
    WriteLayout(len, a, pu);
    MiddleFacts(len, a, pu);
    PuFacts(kind, pu, MiddleLen(len, a, pu));
    PuFacts(kind, pu, a + HeadRoom(a, pu));
    ModAdd(a + HeadRoom(a, pu), MiddleLen(len, a, pu), pu);
    PuFacts(kind, pu, a + HeadRoom(a, pu) + MiddleLen(len, a, pu));
  }

  /** If bytes remain behind the middle run: fill the last unit's buffer and program it. */
  method WriteTail(area: FlashArea, pu: u32, off: u32, src: seq<byte>, a: u32, lastStart: u32, addPadding: array<byte>,
                   lenPadding: array<byte>, pad: u32, alignedLen: u32, ghost p: WritePlan, ghost whole: nat)
    returns (rc: int)
    requires PlanFits(area, pu, p, src, a, whole) && pad == TailPadding(a, |src|, pu) && p.at == area.off + off
    requires lastStart == HeadRoom(a, pu) + MiddleLen(|src|, a, pu) && (a > 0 ==> |src| > HeadRoom(a, pu))
    requires addPadding != lenPadding && addPadding.Length == pu && TailBuffer(lenPadding, p, pad)
    requires alignedLen == whole
    requires Programmed(area.driver.nvmc, p, a + lastStart)
    modifies addPadding, area.driver.nvmc`mem, area.driver.nvmc`tick
    ensures rc == 0 || rc == -1
    ensures if rc == 0 then Programmed(area.driver.nvmc, p, whole) else Stopped(area.driver.nvmc, p)
  {
    hide Driver.Valid, Driver.End, UnitAligned, Units, CeilTo, TailPadding, Landed, Programmed, Stopped, DataWidth,
      ItemCount, Patched, MiddleLen, FloorTo;
    ghost var kind := area.driver.nvmc.kind;
    WriteLayout(|src|, a, pu);
    MiddleAligned(kind, |src|, a, pu);
    UnitItems(kind, pu);
    rc := 0;
    if pad != 0 {
      rc := FillTail(addPadding, a, src, |src|, lastStart, lenPadding, pad, alignedLen);
      TailPatched(addPadding[..], p, src, a, pu, lenPadding[..pad]);
      var ret := ProgramBytes(area, area.off + off + lastStart, addPadding[..], ItemCount(pu), p, a + lastStart, whole);
      if ret < 0 {
        return -1;
      }
    }
  }

  lemma UnitItems(kind: Kind, x: u32)
    requires UnitAligned(kind, x)
    ensures 4 * ItemCount(x) == x && UnitAligned(kind, 0)
  {
  }

  /** The program phase: head unit, middle run, tail unit, in ascending address order. */
  method WriteUnits(area: FlashArea, pu: u32, off: u32, alignedOff: u32, src: seq<byte>, a: u32,
                    addPadding: array<byte>,
                    lenPadding: array<byte>, pad: u32, alignedLen: u32, ghost p: WritePlan)
    returns (rc: int)
    requires PlanFits(area, pu, p, src, a, alignedLen) && pad == TailPadding(a, |src|, pu) && IsPow2(pu)
    requires p.start == area.off + alignedOff && p.at == area.off + off
    requires addPadding != lenPadding && addPadding.Length == pu
    requires HeadBuffer(addPadding, p, a) && TailBuffer(lenPadding, p, pad)
    requires Programmed(area.driver.nvmc, p, 0)
    modifies addPadding, area.driver.nvmc`mem, area.driver.nvmc`tick
    ensures rc == 0 || rc == -1
    ensures if rc == 0 then Programmed(area.driver.nvmc, p, alignedLen) else Stopped(area.driver.nvmc, p)
  {
    hide Driver.Valid, Driver.End, UnitAligned, Units, CeilTo, TailPadding, Landed, Programmed, Stopped, MiddleLen,
      IsPow2, FloorTo;
    WriteLayout(|src|, a, pu);
    var srcWrittenIdx;
    rc, srcWrittenIdx := WriteHead(area, pu, alignedOff, src, a, addPadding, lenPadding, pad, p, alignedLen);
    if rc != 0 {
      return -1;
    }
    if srcWrittenIdx < |src| {
      rc, srcWrittenIdx := WriteMiddle(area, pu, off, src, a, srcWrittenIdx, p, alignedLen);
      if rc != 0 {
        return -1;
      }
      rc := WriteTail(area, pu, off, src, a, srcWrittenIdx, addPadding, lenPadding, pad, alignedLen, p, alignedLen);
    }
  }

  /** flash_area_write: any alignment; reads the padding around the request, then programs whole units. */
  method FlashAreaWrite(area: FlashArea, pu: u32, off: u32, src: seq<byte>) returns (rc: int)
    requires ValidArea(area, pu) && |src| < TWO32
    modifies area.driver.nvmc`mem, area.driver.nvmc`tick
    ensures var (g, r) := FlatWrite(old(area.driver.nvmc.State()), ConfigOf(area, pu), ExtentOf(area), off, src);
      area.driver.nvmc.State() == g && rc == r
  {
    hide Driver.Valid, Driver.End, FloorAlign, CeilingAlign, IsPow2, CeilTo, FloorTo, FlatRead, FlatWrite,
      FirstFault, After, UnitAligned, Units, Landed, HeadFetches, TailFetches, TailPadding, Span, Commit, Programmed,
      Stopped, PlanAligned, PlanOf, PlanFits, HeadBuffer, TailBuffer, ValidArea, Readable;
    ghost var f, c, e, nvmc := area.driver.nvmc.State(), ConfigOf(area, pu), ExtentOf(area), area.driver.nvmc;
    var len: u32 := |src|;
    ValidIsReadable(area, pu);
    WriteArithmetic(area, pu, off, len);
    FlatWriteOutside(f, c, e, off, src);
    var addPadding := new byte[pu];
    var lenPadding := new byte[if pu == 1 then 1 else pu - 1];
    var alignedOff := FloorAlign(off, pu);
    var addPaddingSize: u32 := off - alignedOff;
    var valid := IsRangeValid(area.size, off, len);
    if !valid {
      return -1;
    }
    HeadFetchFacts(f, c, e, off, src);
    var ret := FlashAreaRead(area, alignedOff, addPadding, addPaddingSize);
    if ret != 0 {
      return -1;
    }
    rc := WriteBehindHead(area, pu, off, src, alignedOff, addPaddingSize, addPadding, lenPadding, f);
  }

  /** The rest of flash_area_write, once the head padding has been read into `addPadding`. */
  method WriteBehindHead(area: FlashArea, pu: u32, off: u32, src: seq<byte>, alignedOff: u32, addPaddingSize: u32,
                         addPadding: array<byte>, lenPadding: array<byte>, ghost f: Flat)
    returns (rc: int)
    requires ValidArea(area, pu) && pu > 0 && |src| < TWO32 && InExtent(ExtentOf(area), off, |src|)
    requires alignedOff == FloorTo(off, pu) && addPaddingSize == off % pu
    requires addPadding != lenPadding && addPadding.Length == pu && pu - 1 <= lenPadding.Length
    requires HeadFetched(area, pu, off, f, addPadding)
    modifies addPadding, lenPadding, area.driver.nvmc`mem, area.driver.nvmc`tick
    ensures (area.driver.nvmc.State(), rc) == FlatWrite(f, ConfigOf(area, pu), ExtentOf(area), off, src)
  {
    hide Driver.Valid, Driver.End, FloorAlign, CeilingAlign, IsPow2, CeilTo, FloorTo, FlatRead, FlatWrite,
      FirstFault, After, UnitAligned, Units, Landed, HeadFetches, TailFetches, TailPadding, Span, Commit, Programmed,
      Stopped, PlanAligned, PlanOf, PlanFits, HeadBuffer, TailBuffer, ValidArea, Readable;
    ghost var c, e, nvmc := ConfigOf(area, pu), ExtentOf(area), area.driver.nvmc;
    var len: u32 := |src|;
    ValidIsReadable(area, pu);
    WriteArithmetic(area, pu, off, len);
    TailFetchFacts(f, c, e, off, src);
    var alignedLen := CeilingAlign(len + addPaddingSize, pu);
    var lenPaddingSize: u32 := alignedLen - len - addPaddingSize;
    var valid := IsRangeValid(area.size, alignedOff, alignedLen);
    if !valid {
      return -1;
    }
    ghost var head := addPadding[..addPaddingSize];
    var ret := FlashAreaRead(area, off + len, lenPadding, lenPaddingSize);
    if ret != 0 {
      return -1;
    }
    ghost var p := PlanOf(nvmc.State(), c, e, off, src);
    assert head == addPadding[..addPaddingSize];
    PlanReady(area, pu, off, src, alignedLen);
    BuffersReady(addPadding, lenPadding, p, addPaddingSize, lenPaddingSize);
    rc := WriteUnits(area, pu, off, alignedOff, src, addPaddingSize, addPadding, lenPadding, lenPaddingSize,
                     alignedLen, p);
    PlanIsWrite(nvmc, f, c, e, off, src, p, alignedLen, rc);
  }

  /** The first padding read has succeeded from state `f`. */
  predicate HeadFetched(area: FlashArea, pu: u32, off: u32, f: Flat, addPadding: array<byte>)
    requires pu > 0
    reads area.driver.nvmc, addPadding
  {
    var a, n, base := off % pu, HeadFetches(off, pu), area.off + FloorTo(off, pu);
    && FirstFault(area.driver.nvmc.fault, f.tick, n) == n && area.driver.nvmc.State() == Flat(f.mem, f.tick + n)
    && a <= addPadding.Length && base + a <= |f.mem| && addPadding[..a] == f.mem[base..base + a]
  }

  function PlanOf(f: Flat, c: Config, e: Extent, off: nat, src: seq<byte>): WritePlan
    requires c.pu > 0
  {
    var a := off % c.pu;
    WritePlan(f.mem, e.off + off, Landed(src, a, c.pu), e.off + FloorTo(off, c.pu), f.tick,
              Units(c.kind, CeilTo(a + |src|, c.pu)))
  }

  /** The head padding read of a write: what it leaves, and what its failure means for the whole call. */
  lemma HeadFetchFacts(f: Flat, c: Config, e: Extent, off: nat, src: seq<byte>)
    requires c.pu > 0 && InExtent(e, off, |src|) && e.off + e.size <= |f.mem|
    ensures var a, base, n := off % c.pu, FloorTo(off, c.pu), HeadFetches(off, c.pu);
      var (g, r) := FlatRead(f, c.fault, e, base, a);
      && (r.rc != 0 ==> FlatWrite(f, c, e, off, src) == (g, -1))
      && (r.rc == 0 ==>
            && g == Flat(f.mem, f.tick + n) && FirstFault(c.fault, f.tick, n) == n
            && r.data == f.mem[e.off + base..e.off + base + a])
  {
    hide CeilTo, FloorTo, FlatRead, FlatWrite, Landed, TailPadding, WordsTouched, FirstFault;
    var a, base, n := off % c.pu, FloorTo(off, c.pu), HeadFetches(off, c.pu);
    FloorToFacts(off, c.pu);
    FlatReadInside(f, c.fault, e, base, a);
    if FirstFault(c.fault, f.tick, n) < n {
      FlatWriteReadFails(f, c, e, off, src, n);
    }
  }

  /** The same for the second range check and the tail padding read. */
  lemma TailFetchFacts(f: Flat, c: Config, e: Extent, off: nat, src: seq<byte>)
    requires c.pu > 0 && InExtent(e, off, |src|) && e.off + e.size <= |f.mem|
    requires FirstFault(c.fault, f.tick, HeadFetches(off, c.pu)) == HeadFetches(off, c.pu)
    ensures var a, n, m := off % c.pu, HeadFetches(off, c.pu), TailFetches(off, |src|, c.pu);
      var g, pad := Flat(f.mem, f.tick + n), TailPadding(a, |src|, c.pu);
      if InExtent(e, FloorTo(off, c.pu), CeilTo(a + |src|, c.pu)) then
        var (h, s) := FlatRead(g, c.fault, e, off + |src|, pad);
        && (s.rc != 0 ==> FlatWrite(f, c, e, off, src) == (h, -1))
        && (s.rc == 0 ==>
              && h == Flat(f.mem, f.tick + n + m) && FirstFault(c.fault, f.tick, n + m) == n + m
              && s.data == f.mem[e.off + off + |src|..e.off + off + |src| + pad])
      else
        FlatWrite(f, c, e, off, src) == (g, -1)
  {
    hide CeilTo, FloorTo, FlatRead, FlatWrite, Landed, TailPadding, WordsTouched, FirstFault;
    var a, n := off % c.pu, HeadFetches(off, c.pu);
    FloorToFacts(off, c.pu);
    FlatWriteOutside(f, c, e, off, src);
    if InExtent(e, FloorTo(off, c.pu), CeilTo(a + |src|, c.pu)) {
      var m, pad := TailFetches(off, |src|, c.pu), TailPadding(a, |src|, c.pu);
      FlatReadInside(Flat(f.mem, f.tick + n), c.fault, e, off + |src|, pad);
      FirstFaultJoin(c.fault, f.tick, n, m);
      if FirstFault(c.fault, f.tick + n, m) < m {
        FlatWriteReadFails(f, c, e, off, src, n + m);
      }
    }
  }

  /** After the padding reads everything the program phase relies on holds. */
  lemma PlanReady(area: FlashArea, pu: u32, off: u32, src: seq<byte>, alignedLen: u32)
    requires ValidArea(area, pu) && |src| < TWO32
    requires var e, a := ExtentOf(area), off % pu;
      && InExtent(e, FloorTo(off, pu), alignedLen) && alignedLen == CeilTo(a + |src|, pu)
    ensures var nvmc := area.driver.nvmc;
      var p := PlanOf(nvmc.State(), ConfigOf(area, pu), ExtentOf(area), off, src);
      && PlanFits(area, pu, p, src, off % pu, alignedLen) && Programmed(nvmc, p, 0)
      && p.start == area.off + FloorTo(off, pu) && p.at == area.off + off && |p.data| == |src| && p.mem == nvmc.mem
  {
    var nvmc := area.driver.nvmc;
    var p := PlanOf(nvmc.State(), ConfigOf(area, pu), ExtentOf(area), off, src);
    FloorToFacts(off, pu);
    ModAdd(area.off, FloorTo(off, pu), pu);
    CeilToFacts(off % pu + |src|, pu);
    PuFacts(nvmc.kind, pu, area.off + FloorTo(off, pu));
    PuFacts(nvmc.kind, pu, alignedLen);
    CommitNothing(nvmc.mem, p.at, p.data, p.start);
  }

  lemma BuffersReady(addPadding: array<byte>, lenPadding: array<byte>, p: WritePlan, a: nat, pad: nat)
    requires a <= addPadding.Length && pad <= lenPadding.Length
    requires p.start + a <= |p.mem| && addPadding[..a] == p.mem[p.start..p.start + a]
    requires var x := p.at + |p.data|; x + pad <= |p.mem| && lenPadding[..pad] == p.mem[x..x + pad]
    ensures HeadBuffer(addPadding, p, a) && TailBuffer(lenPadding, p, pad)
  {
    var x := p.at + |p.data|;
    forall j | 0 <= j < a ensures addPadding[j] == p.mem[p.start + j] {
      assert addPadding[..a][j] == p.mem[p.start..p.start + a][j];
    }
    forall j | 0 <= j < pad ensures lenPadding[j] == p.mem[x + j] {
      assert lenPadding[..pad][j] == p.mem[x..x + pad][j];
    }
  }

  /** The outcome of the program phase is the outcome of the whole write. */
  lemma PlanIsWrite(nvmc: Nvmc, f: Flat, c: Config, e: Extent, off: nat, src: seq<byte>, p: WritePlan, whole: nat,
                    rc: int)
    requires c.pu > 0 && c.kind == nvmc.kind && c.fault == nvmc.fault && whole == CeilTo(off % c.pu + |src|, c.pu)
    requires InExtent(e, off, |src|) && InExtent(e, FloorTo(off, c.pu), whole)
    requires var fetches := HeadFetches(off, c.pu) + TailFetches(off, |src|, c.pu);
      FirstFault(c.fault, f.tick, fetches) == fetches && p == PlanOf(Flat(f.mem, f.tick + fetches), c, e, off, src)
    requires (rc == 0 && Programmed(nvmc, p, whole)) || (rc == -1 && Stopped(nvmc, p))
    ensures (nvmc.State(), rc) == FlatWrite(f, c, e, off, src)
  {
    hide FlatWrite, HeadFetches, TailFetches, CeilTo, FloorTo, Landed, Commit, Units, FirstFault, Span, After;
    FlatWriteProgram(f, c, e, off, src, p.tick);
  }

  lemma FlatWriteOutside(f: Flat, c: Config, e: Extent, off: nat, src: seq<byte>)
    requires c.pu > 0
    ensures !InExtent(e, off, |src|) ==> FlatWrite(f, c, e, off, src) == (f, -1)
    ensures var n := HeadFetches(off, c.pu);
      InExtent(e, off, |src|) && !InExtent(e, FloorTo(off, c.pu), CeilTo(off % c.pu + |src|, c.pu)) ==>
      FlatWrite(f, c, e, off, src) == (Flat(f.mem, After(f.tick, FirstFault(c.fault, f.tick, n), n)), -1)
  {
  }

  /** The mask arithmetic of a write: no 32-bit sum wraps, and the masks round as intended. */
  lemma WriteArithmetic(area: FlashArea, pu: u32, off: u32, len: u32)
    requires ValidArea(area, pu)
    ensures FloorAlign(off, pu) == FloorTo(off, pu) == off - off % pu
    ensures off % pu < pu
    ensures InExtent(ExtentOf(area), off, len) ==>
      && off + len < TWO32 && len + off % pu < TWO32
      && CeilingAlign(len + off % pu, pu) == CeilTo(off % pu + len, pu)
      && CeilTo(off % pu + len, pu) - len - off % pu == TailPadding(off % pu, len, pu) < pu
  {
    hide FloorAlign, CeilingAlign, FloorTo, CeilTo, Driver.Describes, Driver.End;
    var a := off % pu;
    FloorAlignRoundsDown(off, pu);
    FloorToFacts(off, pu);
    if InExtent(ExtentOf(area), off, len) {
      EndFacts(area.driver);
      CeilToFacts(a + len, pu);
      CeilingAlignRoundsUp(len + a, pu);
      CeilFits(area.driver, pu, area.off + off - a, a + len);
    }
  }

  /** Rounding up inside a device does not pass 2^32, because the device ends on a unit. */
  lemma CeilFits(d: Driver, pu: u32, base: nat, x: nat)
    requires d.Valid() && IsPow2(pu) && d.info.sectorSize % pu == 0 && base + x <= d.End()
    ensures CeilTo(x, pu) < TWO32
  {
    d.EndAligned();
    ModDivides(d.End(), d.info.sectorSize, pu);
    EndFacts(d);
    CeilToFacts(x, pu);
    if CeilTo(x, pu) > d.End() {
      assert CeilTo(x, pu) - d.End() < pu;
      MultipleUnique(CeilTo(x, pu), d.End(), pu);
    }
  }

  // ---------------------------------------------------------------- erase

  predicate InDevice(area: FlashArea)
    reads area.driver.nvmc`mem
  {
    && area.driver.Valid()
    && area.driver.memoryBase <= area.off && area.off + area.size <= area.driver.End()
  }

  /** The first `k` sectors from `start` are erased, and nothing has failed. */
  predicate ErasedSectors(nvmc: Nvmc, f: Flat, start: nat, s: nat, k: nat)
    reads nvmc
  {
    && FirstFault(nvmc.fault, f.tick, k) == k
    && nvmc.State() == Flat(Fill(f.mem, start, start + Steps(k, s)), f.tick + k)
  }

  /** flash_area_erase on a device with uniform sectors. */
  method FlashAreaErase(area: FlashArea, off: u32, len: u32) returns (rc: int)
    requires InDevice(area)
    modifies area.driver.nvmc`mem, area.driver.nvmc`tick
    ensures area.driver.info.sectorSize > 0
    ensures var (g, r) := FlatErase(old(area.driver.nvmc.State()), area.driver.nvmc.fault, ExtentOf(area), off, len);
      area.driver.nvmc.State() == g && rc == r
    ensures InDevice(area)
  {
    hide Driver.Valid, Driver.End, FirstFault, Steps, StepsToCover, Fill, FlatErase, ErasedSectors;
    EndFacts(area.driver);
    var nvmc := area.driver.nvmc;
    ghost var s, start, f := area.driver.info.sectorSize, area.off + off, nvmc.State();
    ghost var n, k := StepsToCover(len, s), 0;
    FlatEraseIs(f, nvmc.fault, ExtentOf(area), off, len);
    var valid := IsRangeValid(area.size, off, len);
    if !valid {
      return -1;
    }
    var at: u32, deletedLen: u32 := off, 0;
    rc := 0;
    NothingErased(nvmc, f, start, s);
    while deletedLen < len
      invariant rc == 0 && InDevice(area)
      invariant deletedLen as int == Steps(k, s) && at as int == off + Steps(k, s)
      invariant k <= n && (k > 0 ==> start % s == 0)
      invariant ErasedSectors(nvmc, f, start, s, k)
      decreases len - deletedLen
    {
      StepsCover(k, len, s);
      SectorStep(area.driver, start, k, area.off + at);
      NoneErased(nvmc, f, start, s, k);
      rc := EraseNext(area, area.off + at, f, start, k, n);
      if rc != 0 {
        break;
      }
      deletedLen := deletedLen + area.driver.info.sectorSize;
      at := at + area.driver.info.sectorSize;
      k := k + 1;
    }
    StepsCover(k, len, s);
    if rc == 0 {
      AllErased(nvmc, f, start, s, k);
    }
  }

  lemma NothingErased(nvmc: Nvmc, f: Flat, start: nat, s: nat)
    requires nvmc.State() == f
    ensures ErasedSectors(nvmc, f, start, s, 0) && Steps(0, s) == 0
  {
    StepsZero(s);
    FillNext(f.mem, start, start, start);
  }

  lemma NoneErased(nvmc: Nvmc, f: Flat, start: nat, s: nat, k: nat)
    requires ErasedSectors(nvmc, f, start, s, k)
    ensures k == 0 ==> nvmc.State() == f
  {
    StepsZero(s);
    FillNext(f.mem, start, start, start);
  }

  lemma AllErased(nvmc: Nvmc, f: Flat, start: nat, s: nat, n: nat)
    requires ErasedSectors(nvmc, f, start, s, n)
    ensures FirstFault(nvmc.fault, f.tick, n) == n && After(f.tick, n, n) == f.tick + n
    ensures nvmc.State() == Flat(Fill(f.mem, start, start + Steps(n, s)), f.tick + n)
  {
  }

  /** Sector k of an erase of n sectors: erased, refused, or failed. */
  method EraseNext(area: FlashArea, addr: u32, ghost f: Flat, ghost start: nat, ghost k: nat, ghost n: nat)
    returns (rc: int)
    requires InDevice(area) && area.driver.info.sectorSize > 0 && k < n
    requires addr == start + Steps(k, area.driver.info.sectorSize) && area.driver.IsRangeValid(addr)
    requires area.driver.IsSectorAligned(addr) <==> start % area.driver.info.sectorSize == 0
    requires ErasedSectors(area.driver.nvmc, f, start, area.driver.info.sectorSize, k)
    modifies area.driver.nvmc`mem, area.driver.nvmc`tick
    ensures InDevice(area)
    ensures var s := area.driver.info.sectorSize;
      if start % s != 0 then
        rc == ARM_DRIVER_ERROR_PARAMETER && area.driver.nvmc.State() == old(area.driver.nvmc.State())
      else if rc == 0 then ErasedSectors(area.driver.nvmc, f, start, s, k + 1)
      else
        && rc == ARM_DRIVER_ERROR && FirstFault(area.driver.nvmc.fault, f.tick, n) == k
        && area.driver.nvmc.State() == Flat(Fill(f.mem, start, start + Steps(k, s)), f.tick + k + 1)
  {
    hide Driver.Valid, Driver.End, FirstFault, Steps, Fill, Driver.IsRangeValid, Driver.IsSectorAligned;
    var nvmc := area.driver.nvmc;
    FirstFaultPhase(nvmc.fault, f.tick, k, 1, n);
    FirstFaultOne(nvmc.fault, f.tick + k);
    StepNext(k, area.driver.info.sectorSize);
    FillNext(f.mem, start, addr, addr + area.driver.info.sectorSize);
    rc := area.driver.EraseSector(addr);
  }

  lemma StepNext(k: nat, n: nat)
    ensures Steps(k + 1, n) == Steps(k, n) + n
  {
  }

  /** The driver accepts sector k of an erase inside the area if the erase starts on a sector. */
  lemma SectorStep(d: Driver, start: nat, k: nat, addr: u32)
    requires d.Valid() && addr == start + Steps(k, d.info.sectorSize)
    requires d.memoryBase <= addr < d.End()
    ensures d.info.sectorSize > 0 && d.IsRangeValid(addr)
    ensures d.IsSectorAligned(addr) <==> start % d.info.sectorSize == 0
    ensures d.IsSectorAligned(addr) ==> addr + d.info.sectorSize <= d.End()
  {
    d.RangeValidMeans(addr);
    var s := d.info.sectorSize;
    MultipleMod(k, s);
    if start % s == 0 {
      ModAdd(start, Steps(k, s), s);
    }
    if addr % s == 0 {
      ModAdd(addr, Steps(k, s), s);
      d.SectorInside(addr);
    }
  }

  lemma FlatEraseIs(f: Flat, fault: Schedule, e: Extent, off: nat, len: nat)
    requires e.sector > 0
    ensures !InExtent(e, off, len) ==> FlatErase(f, fault, e, off, len) == (f, -1)
    ensures InExtent(e, off, len) && len > 0 && (e.off + off) % e.sector != 0 ==>
      FlatErase(f, fault, e, off, len) == (f, ARM_DRIVER_ERROR_PARAMETER)
    ensures InExtent(e, off, len) && (len == 0 || (e.off + off) % e.sector == 0) ==>
      var n := StepsToCover(len, e.sector);
      var k := FirstFault(fault, f.tick, n);
      FlatErase(f, fault, e, off, len) ==
        (Flat(Fill(f.mem, e.off + off, e.off + off + Steps(k, e.sector)), After(f.tick, k, n)),
         if k == n then 0 else ARM_DRIVER_ERROR)
  {
  }
}
