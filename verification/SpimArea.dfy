/**
The area layer of bl2/src/flash_map.c with the serial flash behind it, as for a secondary slot in serial flash:
byte-granular reads, writes in padded program units, and erases in steps that are smaller than an erase block.
*/
module SpimAreaLayer {
  import opened Bits
  import opened Words
  import opened FlatFlash
  import opened FlashLaws
  import opened FlashDriver
  import opened FlashAreaLayer
  import opened SpimNor
  import opened SpimDriver

  /** struct flash_area with the serial driver. */
  datatype SpimArea = SpimArea(driver: SpimFlash, off: u32, size: u32)

  /** The area lies inside the mapped window. */
  predicate ValidSpimArea(area: SpimArea) {
    && area.driver.Valid()
    && area.driver.memoryBase <= area.off && area.off + area.size <= area.driver.memoryBase + area.driver.dmmSize
  }

  /** The window and the area are made of whole program units, and the device has every byte of the area. */
  predicate UnitArea(area: SpimArea, pu: u32)
    reads area.driver.dev`mem
  {
    && ValidSpimArea(area) && IsPow2(pu) && pu % 4 == 0
    && area.driver.memoryBase % pu == 0 && area.driver.dmmSize % pu == 0 && area.off % pu == 0
    && Base(area) + area.size <= |area.driver.dev.mem|
  }

  /** The device address of the area's first byte. */
  function Base(area: SpimArea): nat
    requires ValidSpimArea(area)
  {
    area.off - area.driver.memoryBase
  }

  // ---------------------------------------------------------------- read

  /** The window and the area start and end on data items. */
  predicate ItemArea(area: SpimArea)
    reads area.driver.dev`mem
  {
    && ValidSpimArea(area)
    && area.driver.memoryBase % 4 == 0 && area.driver.dmmSize % 4 == 0 && area.off % 4 == 0
    && Base(area) + area.size <= |area.driver.dev.mem|
  }

  /** ReadData on items inside the window; the device need not have those behind the area. */
  method SpimReadItems(area: SpimArea, addr: u32, dst: array<byte>, at: nat, cnt: u32) returns (ret: int)
    requires ItemArea(area) && area.driver.dev.Idle() && at + 4 * cnt <= dst.Length
    requires area.off <= addr && addr + 4 * cnt <= area.driver.memoryBase + area.driver.dmmSize
    modifies dst, area.driver.dev`log
    ensures ret == ARM_DRIVER_OK && (old(AllProper(area.driver.dev.log)) ==> AllProper(area.driver.dev.log))
    ensures forall j :: at <= j < at + 4 * cnt && addr + (j - at) < area.off + area.size ==>
      dst[j] == area.driver.dev.mem[addr - area.driver.memoryBase + (j - at)]
    ensures forall j :: 0 <= j < dst.Length && !(at <= j < at + 4 * cnt) ==> dst[j] == old(dst[j])
  {
    hide AllProper, Wrap, ReadPosition;
    WrapId(cnt * 4);
    area.driver.AcceptsIff(addr, 4 * cnt);
    ret := area.driver.ReadData(addr, dst, at, cnt);
    ghost var a := addr - area.driver.memoryBase;
    forall j | at <= j < at + 4 * cnt && addr + (j - at) < area.off + area.size
      ensures dst[j] == area.driver.dev.mem[a + (j - at)]
    {
      ReadPositionIs(a, j - at);
      assert dst[at + (j - at)] == area.driver.dev.mem[ReadPosition(a, j - at)];
    }
  }

  /** The bytes [0, hi) of `dst` hold the area's content from `off`. */
  predicate SpimHolds(area: SpimArea, dst: array<byte>, off: nat, hi: nat)
    requires ValidSpimArea(area) && hi <= dst.Length
    reads dst, area.driver.dev`mem
  {
    Holds(dst, area.driver.dev.mem, Base(area) + off, 0, hi)
  }

  /** flash_area_read with the serial driver: head item, run of whole items, tail item. */
  method SpimAreaRead(area: SpimArea, off: u32, dst: array<byte>, len: u32) returns (rc: int)
    requires ItemArea(area) && area.driver.dev.Idle() && len <= dst.Length
    modifies dst, area.driver.dev`log
    ensures old(AllProper(area.driver.dev.log)) ==> AllProper(area.driver.dev.log)
    ensures if off + len > area.size then rc == -1 && dst[..] == old(dst[..])
      else rc == 0 && SpimHolds(area, dst, off, len)
    ensures forall j :: len <= j < dst.Length ==> dst[j] == old(dst[j])
  {
    hide AllProper, SpimHolds;
    var valid := IsRangeValid(area.size, off, len);
    if !valid {
      return -1;
    }
    var i;
    rc, i := SpimReadHead(area, off, dst, len);
    if rc < 0 {
      assert false;
      return rc;
    }
    var itemNumber, left;
    rc, itemNumber, left := SpimReadWhole(area, off, dst, i, len - i);
    if rc < 0 {
      assert false;
      return rc;
    }
    rc := SpimReadTail(area, off, dst, i + itemNumber * DataWidth(), left);
  }

  method SpimReadHead(area: SpimArea, off: u32, dst: array<byte>, len: u32) returns (ret: int, i: u32)
    requires ItemArea(area) && area.driver.dev.Idle() && len <= dst.Length && off + len <= area.size
    modifies dst, area.driver.dev`log
    ensures ret == 0 && (old(AllProper(area.driver.dev.log)) ==> AllProper(area.driver.dev.log))
    ensures i <= len && (i < len ==> (off + i) % 4 == 0) && SpimHolds(area, dst, off, i)
    ensures forall j :: len <= j < dst.Length ==> dst[j] == old(dst[j])
  {
    hide AllProper, FloorAlign, FloorTo, IsPow2;
    FourIsPow2();
    FloorAlignRoundsDown(off, DataWidth());
    FloorFour(off);
    var alignedOff := FloorAlign(off, DataWidth());
    ret, i := 0, 0;
    if alignedOff != off {
      var tempBuffer := new byte[4];
      var skip: u32 := off - alignedOff;
      ItemEnds(area, alignedOff);
      ret := SpimReadItems(area, area.off + alignedOff, tempBuffer, 0, 1);
      if ret < 0 {
        assert false;
        return;
      }
      i := if skip + len >= DataWidth() then DataWidth() - skip else len;
      CopyBytes(dst, 0, tempBuffer, skip, i);
    }
  }

  lemma FloorFour(off: nat)
    ensures FloorTo(off, 4) <= off < FloorTo(off, 4) + 4 && FloorTo(off, 4) % 4 == 0
  {
  }

  method SpimReadWhole(area: SpimArea, off: u32, dst: array<byte>, i: u32, remaining: u32)
    returns (ret: int, itemNumber: u32, left: u32)
    requires ItemArea(area) && area.driver.dev.Idle()
    requires i + remaining <= dst.Length && off + i + remaining <= area.size
    requires (remaining > 0 ==> (off + i) % 4 == 0) && SpimHolds(area, dst, off, i)
    modifies dst, area.driver.dev`log
    ensures ret == 0 && (old(AllProper(area.driver.dev.log)) ==> AllProper(area.driver.dev.log))
    ensures 4 * itemNumber + left == remaining && left < 4 && (left > 0 ==> (off + i + 4 * itemNumber) % 4 == 0)
    ensures SpimHolds(area, dst, off, i + 4 * itemNumber)
    ensures forall j :: i + remaining <= j < dst.Length ==> dst[j] == old(dst[j])
  {
    hide AllProper, ItemCount;
    ItemsIn(off + i, remaining);
    ret, itemNumber, left := 0, 0, remaining;
    if remaining != 0 {
      itemNumber := ItemCount(remaining);
      if itemNumber != 0 {
        ret := SpimReadItems(area, area.off + off + i, dst, i, itemNumber);
        if ret < 0 {
          assert false;
          return;
        }
        left := remaining - itemNumber * DataWidth();
      }
    }
  }

  method SpimReadTail(area: SpimArea, off: u32, dst: array<byte>, at: nat, left: u32) returns (ret: int)
    requires ItemArea(area) && area.driver.dev.Idle() && left < 4
    requires at + left <= dst.Length && off + at + left <= area.size
    requires (left > 0 ==> (off + at) % 4 == 0) && SpimHolds(area, dst, off, at)
    modifies dst, area.driver.dev`log
    ensures ret == 0 && (old(AllProper(area.driver.dev.log)) ==> AllProper(area.driver.dev.log))
    ensures SpimHolds(area, dst, off, at + left)
    ensures forall j :: at + left <= j < dst.Length ==> dst[j] == old(dst[j])
  {
    hide AllProper;
    ret := 0;
    if left != 0 {
      var tempBuffer := new byte[4];
      ItemEnds(area, off + at);
      ret := SpimReadItems(area, area.off + off + at, tempBuffer, 0, 1);
      if ret < 0 {
        assert false;
        return;
      }
      CopyBytes(dst, at, tempBuffer, 0, left);
    }
  }

  const NVT_NVSPIM_ERASED_VALUE: byte := 0xFF

  /** flash_area_read_is_empty with the serial driver. */
  method SpimAreaReadIsEmpty(area: SpimArea, off: u32, dst: array<byte>, len: u32) returns (rc: int)
    requires ItemArea(area) && area.driver.dev.Idle() && len <= dst.Length
    modifies dst, area.driver.dev`log
    ensures old(AllProper(area.driver.dev.log)) ==> AllProper(area.driver.dev.log)
    ensures rc == if off + len > area.size then -1
      else if forall x :: Base(area) + off <= x < Base(area) + off + len ==> area.driver.dev.mem[x] == ERASED then 1
      else 0
    ensures rc >= 0 ==> SpimHolds(area, dst, off, len)
    ensures forall j :: len <= j < dst.Length ==> dst[j] == old(dst[j])
  {
    hide AllProper;
    ghost var at, mem := Base(area) + off, area.driver.dev.mem;
    var ret := SpimAreaRead(area, off, dst, len);
    if ret != 0 {
      return -1;
    }
    var i: u32 := 0;
    while i < len
      invariant i <= len && forall x :: at <= x < at + i ==> mem[x] == ERASED
    {
      assert dst[i] == mem[at + i];
      if dst[i] != NVT_NVSPIM_ERASED_VALUE {
        return 0;
      }
      i := i + 1;
    }
    return 1;
  }

  lemma FourIsPow2()
    ensures IsPow2(4)
  {
    Pow2One();
    Pow2Double(1);
    Pow2Double(2);
  }

  /** An item that starts inside the area ends inside the window. */
  lemma ItemEnds(area: SpimArea, off: nat)
    requires ItemArea(area) && off % 4 == 0 && off < area.size
    ensures area.off + off + 4 <= area.driver.memoryBase + area.driver.dmmSize
  {
    var end := area.driver.memoryBase + area.driver.dmmSize;
    ModAdd(area.driver.memoryBase, area.driver.dmmSize, 4);
    ModAdd(area.off, off, 4);
    MultipleGap(area.off + off, end, 4);
  }

  // ---------------------------------------------------------------- write

  /** The content after some of the program calls of a write, and whether one of them has failed. */
  datatype Progress = Progress(mem: seq<byte>, stopped: bool)

  /** What the units from `lo` must carry: new data inside the request, the former content around it. */
  function UnitData(p: WritePlan, lo: nat, n: nat): (r: seq<byte>)
    requires lo + n <= |p.mem|
    ensures |r| == n
    ensures forall j :: 0 <= j < n ==> r[j] == Patched(p.mem, p.at, p.data, lo + j)
  {
    seq(n, j requires 0 <= j < n => Patched(p.mem, p.at, p.data, lo + j))
  }

  /** One program call of a write, if it has anything to send and none has failed: all its chunks, or the first
      only if the device has another status bit set. */
  function Stage(s: Progress, clean: bool, p: WritePlan, lo: nat, n: nat): (r: Progress)
    requires lo + n <= |p.mem|
    ensures |r.mem| == |s.mem|
  {
    if s.stopped || n == 0 then s
    else Progress(Paged(s.mem, lo, UnitData(p, lo, n)[..if clean || n < PAGE then n else PAGE]), !clean)
  }

  /** The lengths of the head unit and of the tail unit. */
  function HeadLen(a: nat, pu: nat): nat {
    if a > 0 then pu else 0
  }

  function TailLen(a: nat, len: nat, pu: nat): nat
    requires a < pu
  {
    if TailPadding(a, len, pu) == 0 || (a > 0 && len <= HeadRoom(a, pu)) then 0 else pu
  }

  predicate PlanIn(p: WritePlan, a: nat, pu: nat) {
    a < pu && p.at == p.start + a && p.start + CeilTo(a + |p.data|, pu) <= |p.mem|
  }

  /** Head unit, middle run and tail unit lie inside the content. */
  lemma StagesFit(p: WritePlan, a: nat, pu: nat)
    requires PlanIn(p, a, pu)
    ensures p.start + HeadLen(a, pu) <= |p.mem|
    ensures var h, m := HeadRoom(a, pu), MiddleLen(|p.data|, a, pu);
      p.at + h + m <= |p.mem| && p.at + h + m + TailLen(a, |p.data|, pu) <= |p.mem|
  {
    WriteLayout(|p.data|, a, pu);
  }

  /** The content after head, middle and tail. */
  function AfterHead(p: WritePlan, clean: bool, a: nat, pu: nat): (r: Progress)
    requires PlanIn(p, a, pu)
    ensures |r.mem| == |p.mem|
  {
    StagesFit(p, a, pu);
    Stage(Progress(p.mem, false), clean, p, p.start, HeadLen(a, pu))
  }

  function AfterMiddle(p: WritePlan, clean: bool, a: nat, pu: nat): (r: Progress)
    requires PlanIn(p, a, pu)
    ensures |r.mem| == |p.mem|
  {
    StagesFit(p, a, pu);
    Stage(AfterHead(p, clean, a, pu), clean, p, p.at + HeadRoom(a, pu), MiddleLen(|p.data|, a, pu))
  }

  function AfterTail(p: WritePlan, clean: bool, a: nat, pu: nat): (r: Progress)
    requires PlanIn(p, a, pu)
    ensures |r.mem| == |p.mem|
  {
    StagesFit(p, a, pu);
    var last := p.at + HeadRoom(a, pu) + MiddleLen(|p.data|, a, pu);
    Stage(AfterMiddle(p, clean, a, pu), clean, p, last, TailLen(a, |p.data|, pu))
  }

  function SpimPlan(mem: seq<byte>, pu: nat, e: Extent, off: nat, src: seq<byte>): WritePlan
    requires pu > 0
  {
    WritePlan(mem, e.off + off, Landed(src, off % pu, pu), e.off + FloorTo(off, pu), 0, 0)
  }

  lemma SpimPlanIn(mem: seq<byte>, pu: nat, e: Extent, off: nat, src: seq<byte>)
    requires pu > 0 && e.off + e.size <= |mem| && WriteInRange(pu, e, off, |src|)
    ensures PlanIn(SpimPlan(mem, pu, e, off, src), off % pu, pu)
  {
    FloorToFacts(off, pu);
  }

  /** Content and reply of a write over the serial driver; `clean` if the device has no other status bit set. */
  function SpimWrite(mem: seq<byte>, clean: bool, pu: nat, e: Extent, off: nat, src: seq<byte>)
    : (r: (seq<byte>, int))
    requires pu > 0 && e.off + e.size <= |mem|
    ensures |r.0| == |mem|
  {
    if !WriteInRange(pu, e, off, |src|) then (mem, -1)
    else
      SpimPlanIn(mem, pu, e, off, src);
      var s := AfterTail(SpimPlan(mem, pu, e, off, src), clean, off % pu, pu);
      (s.mem, if s.stopped then -1 else 0)
  }

  /** The area in device addresses. */
  function SpimExtent(area: SpimArea): Extent
    requires ValidSpimArea(area)
  {
    Extent(Base(area), area.size, NVT_NVSPIM_SECTOR_SIZE)
  }

  /** What the program phase of one write relies on. */
  predicate SpimPlanFits(area: SpimArea, pu: u32, p: WritePlan, src: seq<byte>, a: nat)
    reads area.driver.dev`mem
  {
    && UnitArea(area, pu) && |p.mem| == |area.driver.dev.mem|
    && PlanIn(p, a, pu) && p.data == Landed(src, a, pu) && |src| < TWO32
    && Base(area) <= p.start && p.start + CeilTo(a + |src|, pu) <= Base(area) + area.size
  }

  /** The device holds what a write has left so far. */
  predicate Left(dev: Nor, s: Progress, rc: int)
    reads dev`mem, dev`busy
  {
    dev.Idle() && dev.mem == s.mem && (rc == 0 || rc == -1) && (rc == 0 <==> !s.stopped)
  }

  predicate KeepsProper(before: seq<Command>, after: seq<Command>) {
    AllProper(before) ==> AllProper(after)
  }

  /** ProgramData on the next units of a write. */
  method SpimProgram(area: SpimArea, pu: u32, lo: nat, data: seq<byte>, n: u32, ghost p: WritePlan, ghost s: Progress)
    returns (rc: int)
    requires UnitArea(area, pu) && Base(area) <= lo && lo + n <= Base(area) + area.size && lo + n <= |p.mem|
    requires n > 0 && n % 4 == 0 && n <= |data| && data[..n] == UnitData(p, lo, n)
    requires Left(area.driver.dev, s, 0)
    modifies area.driver.dev
    ensures Left(area.driver.dev, Stage(s, area.driver.dev.srOther == 0, p, lo, n), rc)
    ensures KeepsProper(old(area.driver.dev.log), area.driver.dev.log)
  {
    hide AllProper, Wrap, PagedWrapping, Paged, IsPow2;
    ghost var clean := area.driver.dev.srOther == 0;
    ghost var a: u32, sent := lo, data[..n][..if clean || n < PAGE then n else PAGE];
    WrapId(n / 4 * 4);
    area.driver.AcceptsIff(area.driver.memoryBase + lo, n);
    WrappingIsPaged(area.driver.dev.mem, a, sent);
    var ret := area.driver.ProgramData(area.driver.memoryBase + lo, data, n / 4);
    rc := if ret < 0 then -1 else 0;
  }

  /** If the request starts inside a unit: fill that unit's buffer and program it. */
  method SpimWriteHead(area: SpimArea, pu: u32, src: seq<byte>, a: u32, addPadding: array<byte>,
                       lenPadding: array<byte>, pad: u32, ghost p: WritePlan, lo: nat)
    returns (rc: int, srcWrittenIdx: u32)
    requires SpimPlanFits(area, pu, p, src, a) && pad == TailPadding(a, |src|, pu) && lo == p.start
    requires addPadding != lenPadding && addPadding.Length == pu
    requires HeadBuffer(addPadding, p, a) && TailBuffer(lenPadding, p, pad)
    requires Left(area.driver.dev, Progress(p.mem, false), 0)
    modifies addPadding, area.driver.dev
    ensures Left(area.driver.dev, AfterHead(p, area.driver.dev.srOther == 0, a, pu), rc)
    ensures KeepsProper(old(area.driver.dev.log), area.driver.dev.log)
    ensures srcWrittenIdx == if |src| <= HeadRoom(a, pu) && a > 0 then |src| else HeadRoom(a, pu)
  {
    hide AllProper, Paged, IsPow2, CeilTo, MiddleLen, Landed, Patched, Stage;
    WriteLayout(|src|, a, pu);
    StagesFit(p, a, pu);
    rc, srcWrittenIdx := 0, 0;
    NoStage(Progress(p.mem, false), area.driver.dev.srOther == 0, p, lo);
    if a != 0 {
      rc, srcWrittenIdx := FillHead(addPadding, a, src, |src|, lenPadding, pad);
      ghost var tail := lenPadding[..pad];
      HeadPatched(addPadding[..], p, src, a, pu, srcWrittenIdx, tail);
      assert addPadding[..][..pu] == UnitData(p, lo, pu);
      rc := SpimProgram(area, pu, lo, addPadding[..], pu, p, Progress(p.mem, false));
    }
  }

  lemma NoStage(s: Progress, clean: bool, p: WritePlan, lo: nat)
    requires lo <= |p.mem|
    ensures Stage(s, clean, p, lo, 0) == s
  {
  }

  /** The whole units behind the head: taken from the start of `src`. */
  method SpimWriteMiddle(area: SpimArea, pu: u32, src: seq<byte>, a: u32, srcWrittenIdx: u32, ghost p: WritePlan,
                         at: nat)
    returns (rc: int, newIdx: u32)
    requires SpimPlanFits(area, pu, p, src, a) && at == p.at
    requires srcWrittenIdx == HeadRoom(a, pu) && (a > 0 ==> |src| > srcWrittenIdx)
    requires Left(area.driver.dev, AfterHead(p, area.driver.dev.srOther == 0, a, pu), 0)
    modifies area.driver.dev
    ensures Left(area.driver.dev, AfterMiddle(p, area.driver.dev.srOther == 0, a, pu), rc)
    ensures KeepsProper(old(area.driver.dev.log), area.driver.dev.log)
    ensures rc == 0 ==> newIdx == HeadRoom(a, pu) + MiddleLen(|src|, a, pu)
  {
    hide AllProper, Paged, IsPow2, CeilTo, FloorTo, FloorAlign, Landed, Patched, Stage, AfterHead, MiddleLen;
    ghost var m, clean := MiddleLen(|src|, a, pu), area.driver.dev.srOther == 0;
    WriteLayout(|src|, a, pu);
    StagesFit(p, a, pu);
    MiddleIs(|src|, a, pu);
    FloorAlignRoundsDown(|src| - srcWrittenIdx, pu);
    NoStage(AfterHead(p, clean, a, pu), clean, p, at + srcWrittenIdx);
    rc, newIdx := 0, srcWrittenIdx;
    var writeSize := FloorAlign(|src| - srcWrittenIdx, pu);
    if writeSize > 0 {
      MiddlePatched(src[..writeSize], p, src, a, pu);
      assert src[..writeSize] == UnitData(p, at + srcWrittenIdx, writeSize);
      rc := SpimProgram(area, pu, at + srcWrittenIdx, src, writeSize, p, AfterHead(p, clean, a, pu));
      newIdx := newIdx + writeSize;
    }
  }

  lemma MiddleIs(len: nat, a: nat, pu: nat)
    requires a < pu && (a == 0 || len > HeadRoom(a, pu)) && pu % 4 == 0
    ensures MiddleLen(len, a, pu) == FloorTo(len - HeadRoom(a, pu), pu) && MiddleLen(len, a, pu) % 4 == 0
  {
    WriteLayout(len, a, pu);
    MiddleFacts(len, a, pu);
    ModDivides(MiddleLen(len, a, pu), pu, 4);
  }

  /** If bytes remain behind the middle run: fill the last unit's buffer and program it. */
  method SpimWriteTail(area: SpimArea, pu: u32, src: seq<byte>, a: u32, lastStart: u32, addPadding: array<byte>,
                       lenPadding: array<byte>, pad: u32, alignedLen: u32, ghost p: WritePlan, at: nat)
    returns (rc: int)
    requires SpimPlanFits(area, pu, p, src, a) && at == p.at && pad == TailPadding(a, |src|, pu)
    requires lastStart == HeadRoom(a, pu) + MiddleLen(|src|, a, pu) && (a > 0 ==> |src| > HeadRoom(a, pu))
    requires addPadding != lenPadding && addPadding.Length == pu && TailBuffer(lenPadding, p, pad)
    requires alignedLen == CeilTo(a + |src|, pu)
    requires Left(area.driver.dev, AfterMiddle(p, area.driver.dev.srOther == 0, a, pu), 0)
    modifies addPadding, area.driver.dev
    ensures Left(area.driver.dev, AfterTail(p, area.driver.dev.srOther == 0, a, pu), rc)
    ensures KeepsProper(old(area.driver.dev.log), area.driver.dev.log)
  {
    hide AllProper, Paged, IsPow2, CeilTo, FloorTo, Landed, Patched, Stage, AfterMiddle, MiddleLen;
    ghost var clean := area.driver.dev.srOther == 0;
    WriteLayout(|src|, a, pu);
    StagesFit(p, a, pu);
    NoStage(AfterMiddle(p, clean, a, pu), clean, p, at + lastStart);
    rc := 0;
    if pad != 0 {
      rc := FillTail(addPadding, a, src, |src|, lastStart, lenPadding, pad, alignedLen);
      TailPatched(addPadding[..], p, src, a, pu, lenPadding[..pad]);
      assert addPadding[..][..pu] == UnitData(p, at + lastStart, pu);
      rc := SpimProgram(area, pu, at + lastStart, addPadding[..], pu, p, AfterMiddle(p, clean, a, pu));
    }
  }

  /** The program phase: head unit, middle run, tail unit. */
  method SpimWriteUnits(area: SpimArea, pu: u32, src: seq<byte>, a: u32, addPadding: array<byte>,
                        lenPadding: array<byte>, pad: u32, alignedLen: u32, ghost p: WritePlan, lo: nat, at: nat)
    returns (rc: int)
    requires SpimPlanFits(area, pu, p, src, a) && pad == TailPadding(a, |src|, pu) && lo == p.start && at == p.at
    requires alignedLen == CeilTo(a + |src|, pu)
    requires addPadding != lenPadding && addPadding.Length == pu
    requires HeadBuffer(addPadding, p, a) && TailBuffer(lenPadding, p, pad)
    requires Left(area.driver.dev, Progress(p.mem, false), 0)
    modifies addPadding, area.driver.dev
    ensures Left(area.driver.dev, AfterTail(p, area.driver.dev.srOther == 0, a, pu), rc)
    ensures KeepsProper(old(area.driver.dev.log), area.driver.dev.log)
  {
    hide AllProper, Paged, IsPow2, CeilTo, MiddleLen, Landed, AfterHead, AfterMiddle, AfterTail, TailPadding;
    ghost var clean := area.driver.dev.srOther == 0;
    WriteLayout(|src|, a, pu);
    StopsStay(p, clean, a, pu);
    var srcWrittenIdx;
    rc, srcWrittenIdx := SpimWriteHead(area, pu, src, a, addPadding, lenPadding, pad, p, lo);
    if rc != 0 {
      return -1;
    }
    if srcWrittenIdx < |src| {
      rc, srcWrittenIdx := SpimWriteMiddle(area, pu, src, a, srcWrittenIdx, p, at);
      if rc != 0 {
        return -1;
      }
      rc := SpimWriteTail(area, pu, src, a, srcWrittenIdx, addPadding, lenPadding, pad, alignedLen, p, at);
    }
  }

  /** A stopped write sends nothing more; neither does one that ends with its head. */
  lemma StopsStay(p: WritePlan, clean: bool, a: nat, pu: nat)
    requires PlanIn(p, a, pu)
    ensures AfterHead(p, clean, a, pu).stopped ==> AfterTail(p, clean, a, pu) == AfterHead(p, clean, a, pu)
    ensures AfterMiddle(p, clean, a, pu).stopped ==> AfterTail(p, clean, a, pu) == AfterMiddle(p, clean, a, pu)
    ensures |p.data| <= HeadRoom(a, pu) ==> AfterTail(p, clean, a, pu) == AfterHead(p, clean, a, pu)
  {
    hide Stage;
    StagesFit(p, a, pu);
    StageStopped(AfterHead(p, clean, a, pu), clean, p, p.at + HeadRoom(a, pu), MiddleLen(|p.data|, a, pu));
    var last := p.at + HeadRoom(a, pu) + MiddleLen(|p.data|, a, pu);
    StageStopped(AfterMiddle(p, clean, a, pu), clean, p, last, TailLen(a, |p.data|, pu));
    if |p.data| <= HeadRoom(a, pu) {
      EmptyTail(|p.data|, a, pu);
    }
  }

  lemma StageStopped(s: Progress, clean: bool, p: WritePlan, lo: nat, n: nat)
    requires lo + n <= |p.mem|
    ensures s.stopped || n == 0 ==> Stage(s, clean, p, lo, n) == s
  {
  }

  lemma EmptyTail(len: nat, a: nat, pu: nat)
    requires a < pu && len <= HeadRoom(a, pu)
    ensures MiddleLen(len, a, pu) == 0 && TailLen(a, len, pu) == 0
  {
    if a == 0 {
      CeilOfZero(pu);
    }
  }

  /** flash_area_write with the serial driver. */
  method SpimAreaWrite(area: SpimArea, pu: u32, off: u32, src: seq<byte>) returns (rc: int)
    requires UnitArea(area, pu) && area.driver.dev.Idle() && |src| < TWO32
    modifies area.driver.dev
    ensures pu > 0 && area.driver.dev.Idle() && KeepsProper(old(area.driver.dev.log), area.driver.dev.log)
    ensures (area.driver.dev.mem, rc) ==
      SpimWrite(old(area.driver.dev.mem), area.driver.dev.srOther == 0, pu, SpimExtent(area), off, src)
  {
    hide AllProper, Paged, IsPow2, CeilTo, FloorTo, FloorAlign, CeilingAlign, Landed, TailPadding, AfterTail, SpimHolds,
      SpimPlanFits, HeadBuffer, TailBuffer;
    var len: u32, dev := |src|, area.driver.dev;
    SpimArithmetic(area, pu, off, len);
    ghost var m, p := dev.mem, SpimPlan(dev.mem, pu, SpimExtent(area), off, src);
    var addPadding := new byte[pu];
    var lenPadding := new byte[if pu == 1 then 1 else pu - 1];
    var alignedOff := FloorAlign(off, pu);
    var addPaddingSize: u32 := off - alignedOff;
    var valid := IsRangeValid(area.size, off, len);
    if !valid {
      return -1;
    }
    var ret := SpimAreaRead(area, alignedOff, addPadding, addPaddingSize);
    if ret != 0 {
      assert false;
      return -1;
    }
    var alignedLen := CeilingAlign(len + addPaddingSize, pu);
    var lenPaddingSize: u32 := alignedLen - len - addPaddingSize;
    valid := IsRangeValid(area.size, alignedOff, alignedLen);
    if !valid {
      return -1;
    }
    ret := SpimAreaRead(area, off + len, lenPadding, lenPaddingSize);
    if ret != 0 {
      assert false;
      return -1;
    }
    SpimPlanIn(m, pu, SpimExtent(area), off, src);
    SpimBuffers(area, pu, off, src, addPadding, lenPadding, p, lenPaddingSize);
    var lo: nat := Base(area) + alignedOff;
    var at: nat := Base(area) + off;
    rc := SpimWriteUnits(area, pu, src, addPaddingSize, addPadding, lenPadding, lenPaddingSize, alignedLen, p, lo, at);
  }

  /** The two buffers hold the padding around the request, and the program phase fits. */
  lemma SpimBuffers(area: SpimArea, pu: u32, off: u32, src: seq<byte>, addPadding: array<byte>, lenPadding: array<byte>,
                    p: WritePlan, pad: nat)
    requires UnitArea(area, pu) && |src| < TWO32 && pu > 0 && WriteInRange(pu, SpimExtent(area), off, |src|)
    requires p == SpimPlan(area.driver.dev.mem, pu, SpimExtent(area), off, src) && PlanIn(p, off % pu, pu)
    requires off % pu <= addPadding.Length && SpimHolds(area, addPadding, FloorTo(off, pu), off % pu)
    requires pad <= lenPadding.Length && SpimHolds(area, lenPadding, off + |src|, pad)
    ensures SpimPlanFits(area, pu, p, src, off % pu)
    ensures HeadBuffer(addPadding, p, off % pu) && TailBuffer(lenPadding, p, pad)
  {
    hide IsPow2, CeilTo, FloorTo, Landed;
  }

  /** The mask arithmetic of a write inside the window. */
  lemma SpimArithmetic(area: SpimArea, pu: u32, off: u32, len: u32)
    requires UnitArea(area, pu)
    ensures pu > 0 && ItemArea(area)
    ensures FloorAlign(off, pu) == FloorTo(off, pu) == off - off % pu
    ensures off + len <= area.size ==>
      && len + off % pu < TWO32
      && CeilingAlign(len + off % pu, pu) == CeilTo(off % pu + len, pu)
      && CeilTo(off % pu + len, pu) - len - off % pu == TailPadding(off % pu, len, pu) < pu
  {
    hide FloorAlign, CeilingAlign, FloorTo, CeilTo;
    var a := off % pu;
    FloorAlignRoundsDown(off, pu);
    FloorToFacts(off, pu);
    UnitItemArea(area, pu);
    if off + len <= area.size {
      CeilToFacts(a + len, pu);
      CeilingAlignRoundsUp(len + a, pu);
      WindowFits(area, pu, area.off + off - a, a + len);
    }
  }

  lemma UnitItemArea(area: SpimArea, pu: u32)
    requires UnitArea(area, pu)
    ensures ItemArea(area)
  {
    ModDivides(area.driver.memoryBase, pu, 4);
    ModDivides(area.driver.dmmSize, pu, 4);
    ModDivides(area.off, pu, 4);
  }

  /** Rounding up inside the window does not pass 2^32, because the window ends on a unit. */
  lemma WindowFits(area: SpimArea, pu: u32, base: nat, x: nat)
    requires UnitArea(area, pu) && base + x <= area.driver.memoryBase + area.driver.dmmSize
    ensures CeilTo(x, pu) < TWO32
  {
    var end := area.driver.memoryBase + area.driver.dmmSize;
    ModAdd(area.driver.memoryBase, area.driver.dmmSize, pu);
    CeilToFacts(x, pu);
    if CeilTo(x, pu) > end {
      assert CeilTo(x, pu) - end < pu;
      MultipleUnique(CeilTo(x, pu), end, pu);
    }
  }

  // ---------------------------------------------------------------- area erase over 4 KiB blocks

  /** `n` erase commands, one every 256 bytes from `start`. */
  function StepsErased(mem: seq<byte>, start: nat, n: nat): (r: seq<byte>)
    ensures |r| == |mem|
  {
    if n == 0 then mem
    else BlockErased(StepsErased(mem, start, n - 1), start + NVT_NVSPIM_SECTOR_SIZE * (n - 1))
  }

  /** The content after an erase of `len` bytes at device address `at`. */
  function AreaErased(mem: seq<byte>, at: nat, len: nat): (r: seq<byte>)
    ensures |r| == |mem|
  {
    StepsErased(mem, at, StepsToCover(len, NVT_NVSPIM_SECTOR_SIZE))
  }

  /** flash_area_erase with the serial driver: steps of the advertised 256 bytes, each erasing a 4 KiB block. */
  method SpimAreaErase(area: SpimArea, off: u32, len: u32) returns (rc: int)
    requires ValidSpimArea(area) && area.driver.dev.Idle() && area.size <= TWO32 - NVT_NVSPIM_SECTOR_SIZE
    modifies area.driver.dev
    ensures area.driver.dev.Idle() && (old(AllProper(area.driver.dev.log)) ==> AllProper(area.driver.dev.log))
    ensures if off + len > area.size then
        rc == -1 && area.driver.dev.mem == old(area.driver.dev.mem)
      else
        rc == 0 && area.driver.dev.mem ==
          AreaErased(old(area.driver.dev.mem), Base(area) + off, len)
  {
    hide BlockErased, StepsErased, EraseAddress, AllProper;
    var valid := IsRangeValid(area.size, off, len);
    if !valid {
      return -1;
    }
    var dev := area.driver.dev;
    rc := 0;
    var at: u32, deletedLen: u32 := off, 0;
    ghost var m, start, k: nat := dev.mem, Base(area) + off, 0;
    NoSteps(m, start);
    while deletedLen < len
      invariant dev.Idle() && (old(AllProper(dev.log)) ==> AllProper(dev.log))
      invariant rc == 0 && deletedLen as int == 256 * k && at as int == off + 256 * k
      invariant k <= StepsToCover(len, NVT_NVSPIM_SECTOR_SIZE)
      invariant dev.mem == StepsErased(m, start, k)
      decreases len - deletedLen
    {
      EraseStepNext(m, start, k);
      rc := area.driver.EraseSector(area.off + at);
      if rc != 0 {
        assert false;
        break;
      }
      deletedLen := deletedLen + NVT_NVSPIM_SECTOR_SIZE;
      at := at + NVT_NVSPIM_SECTOR_SIZE;
      k := k + 1;
    }
  }

  lemma NoSteps(mem: seq<byte>, start: nat)
    ensures StepsErased(mem, start, 0) == mem
  {
  }

  lemma EraseStepNext(mem: seq<byte>, start: nat, k: nat)
    ensures StepsErased(mem, start, k + 1)
         == BlockErased(StepsErased(mem, start, k), start + NVT_NVSPIM_SECTOR_SIZE * k)
  {
  }
}
