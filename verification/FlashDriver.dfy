/** The CMSIS flash driver of the on-chip flash: bl2/platform/common/Driver_Flash.c, APROM and LDROM. */
module FlashDriver {
  import opened Bits
  import opened Words
  import opened FlatFlash
  import opened NvmController

  const ARM_DRIVER_OK: int := 0

  /** data_width_byte[DriverCapabilities.data_width], the capability being 2 (32 bit). */
  const DATA_WIDTH_BYTE: seq<u32> := [1, 2, 4]
  const DATA_WIDTH_32BIT: nat := 2

  function DataWidth(): (r: u32)
    ensures r == 4
  {
    DATA_WIDTH_BYTE[DATA_WIDTH_32BIT]
  }

  /** ARM_FLASH_INFO with a uniform sector layout. */
  datatype FlashInfo = FlashInfo(sectorCount: u32, sectorSize: u32, pageSize: u32, programUnit: u32, erasedValue: byte)

  class Driver {
    const nvmc: Nvmc
    const memoryBase: u32
    const info: FlashInfo

    constructor (nvmc: Nvmc, memoryBase: u32, info: FlashInfo)
      ensures this.nvmc == nvmc && this.memoryBase == memoryBase && this.info == info
    {
      this.nvmc := nvmc;
      this.memoryBase := memoryBase;
      this.info := info;
    }

    /** The driver describes a sector-aligned part of the controller's address space. */
    predicate Valid()
      reads nvmc`mem
    {
      Describes(|nvmc.mem|)
    }

    /** The same for an address space of `size` bytes. */
    predicate Describes(size: nat) {
      && nvmc.ValidFor(size)
      && info.sectorSize == nvmc.sectorSize
      && info.programUnit == UnitSize(nvmc.kind)
      && info.erasedValue == ERASED
      && memoryBase % info.sectorSize == 0
      && memoryBase + Steps(info.sectorCount, info.sectorSize) <= size
    }

    function End(): nat {
      memoryBase + Steps(info.sectorCount, info.sectorSize)
    }

    /** is_range_valid_internal: the subtraction wraps below the base. */
    predicate IsRangeValid(addr: u32) {
      Wrap(addr - memoryBase) < Wrap(Steps(info.sectorCount, info.sectorSize))
    }

    predicate IsWriteAligned(param: u32)
      requires info.programUnit > 0
    {
      param % info.programUnit == 0
    }

    predicate IsSectorAligned(addr: u32)
      requires info.sectorSize > 0
    {
      addr % info.sectorSize == 0
    }

    lemma RangeValidMeans(addr: u32)
      requires Valid()
      ensures IsRangeValid(addr) <==> memoryBase <= addr < End()
    {
      hide Steps;
      DifferenceWraps(addr, memoryBase);
      WrapId(Steps(info.sectorCount, info.sectorSize));
    }

    lemma DifferenceWraps(a: u32, b: u32)
      ensures Wrap(a - b) == if a >= b then a - b else a - b + TWO32
    {
    }

    /** The read and program checks look at the last byte only: together with a first byte at or above the base
        and no wrap they place the whole request in the device; without, a request that starts below passes. */
    lemma LastByteCheckIff(addr: u32, sz: u32)
      requires Valid() && sz > 0
      ensures memoryBase <= addr && addr + sz <= End() <==>
        IsRangeValid(Wrap(addr + sz - 1)) && memoryBase <= addr && addr + sz <= TWO32
      ensures addr < memoryBase < addr + sz <= End() ==> IsRangeValid(Wrap(addr + sz - 1))
    {
      hide Driver.IsRangeValid, Driver.Describes, Driver.End, Wrap;
      RangeValidMeans(Wrap(addr + sz - 1));
      LastByte(addr, sz);
      EndFits();
    }

    /** With an LDROM of two 2 KiB sectors at 1 MiB behind a controller with 64-bit units, a program of 16 bytes that
        starts 8 bytes below it is accepted. */
    lemma BelowBaseExample()
      requires Valid() && nvmc.kind == FMC && memoryBase == 0x10_0000
      requires info.sectorSize == 0x800 && info.sectorCount == 2
      ensures ProgramAccepted(0xF_FFF8, 16) && 0xF_FFF8 < memoryBase
    {
      hide Driver.IsRangeValid, Driver.Describes;
      LastByteCheckIff(0xF_FFF8, 16);
      TwoSectors();
      UnitOf8();
    }

    lemma TwoSectors()
      requires info.sectorSize == 0x800 && info.sectorCount == 2
      ensures End() == memoryBase + 0x1000
    {
    }

    lemma UnitOf8()
      requires Valid() && nvmc.kind == FMC
      ensures info.programUnit == 8 && IsWriteAligned(0xF_FFF8) && IsWriteAligned(16)
    {
    }

    lemma LastByte(addr: u32, sz: u32)
      requires sz > 0
      ensures Wrap(addr + sz - 1) == if addr + sz <= TWO32 then addr + sz - 1 else addr + sz - 1 - TWO32
    {
    }

    lemma EndFits()
      requires Valid()
      ensures memoryBase <= End() < TWO32
    {
    }

    // ------------------------------------------------------------ read

    method ReadDataInternal(startAddr: u32, dst: array<byte>, at: nat, sz: u32)
      returns (rc: int, ghost done: nat)
      requires |nvmc.mem| < TWO32 && at + sz <= dst.Length
      modifies dst, nvmc`tick
      ensures done == Reached(nvmc.fault, old(nvmc.tick), |nvmc.mem|, startAddr, RMC, WordsTouched(0, sz))
      ensures nvmc.tick == After(old(nvmc.tick), done, WordsTouched(0, sz))
      ensures rc == if done == WordsTouched(0, sz) then ARM_DRIVER_OK else ARM_DRIVER_ERROR
      ensures rc == ARM_DRIVER_OK && sz > 0 ==>
        startAddr + sz <= |nvmc.mem| && forall j :: at <= j < at + sz ==> dst[j] == nvmc.mem[startAddr + (j - at)]
      ensures forall j :: 0 <= j < dst.Length && !(at <= j < at + sz) ==> dst[j] == old(dst[j])
    {
      hide UnitAligned, WordsTouched, Reached, After, LegalUnit;
      ghost var t0, n, m := nvmc.tick, WordsTouched(0, sz), nvmc.mem;
      WordsCover(sz);
      ReachedNone(nvmc.fault, t0, |m|, startAddr, RMC);
      AfterMeans(t0, n);
      var dest := at;
      var remain: u32 := sz;
      var addr := startAddr;
      done := 0;
      while remain > 0
        invariant (remain as int) + 4 * done == sz && dest == at + 4 * done
        invariant addr as int == startAddr + 4 * done
        invariant nvmc.tick == t0 + done && Reached(nvmc.fault, t0, |m|, startAddr, RMC, done) == done
        invariant done > 0 ==> addr <= |m|
        invariant forall j :: at <= j < dest ==> dst[j] == m[startAddr + (j - at)]
        invariant forall j :: 0 <= j < dst.Length && !(at <= j < at + sz) ==> dst[j] == old(dst[j])
      {
        ReachedNext(nvmc.fault, t0, |m|, startAddr, RMC, done);
        LegalBelow(|m|, addr, RMC);
        var ret := ReadWord(addr, dst, dest, if remain > 4 then 4 else remain);
        if ret != NVT_NVMC_OK {
          ReachedStays(nvmc.fault, t0, |m|, startAddr, RMC, done + 1, n);
          return ARM_DRIVER_ERROR, done;
        }
        done := done + 1;
        if remain > 4 {
          dest := dest + 4;
          addr := addr + 4;
          remain := remain - 4;
        } else {
          break;
        }
      }
      return ARM_DRIVER_OK, done;
    }

    lemma LegalBelow(size: nat, addr: nat, kind: Kind)
      ensures LegalUnit(size, addr, kind) ==> addr + UnitSize(kind) <= size
    {
    }

    /** One turn of the read loop: NVT_NVMC_Read and the `memcpy` of `chunk` bytes of the word. */
    method ReadWord(addr: u32, dst: array<byte>, at: nat, chunk: nat) returns (ret: int)
      requires chunk <= 4 && at + chunk <= dst.Length
      modifies dst, nvmc`tick
      ensures nvmc.tick == old(nvmc.tick) + 1
      ensures ret == NVT_NVMC_OK <==> LegalUnit(|nvmc.mem|, addr, RMC) && !nvmc.fault(old(nvmc.tick))
      ensures ret == NVT_NVMC_OK ==> forall j :: at <= j < at + chunk ==> dst[j] == nvmc.mem[addr + (j - at)]
      ensures forall j :: 0 <= j < dst.Length && !(at <= j < at + chunk) ==> dst[j] == old(dst[j])
    {
      var rData;
      ret, rData := nvmc.Read(addr);
      if ret == NVT_NVMC_OK {
        var b := WordBytes(rData);
        for i := 0 to chunk
          invariant nvmc.tick == old(nvmc.tick) + 1
          invariant forall j :: at <= j < at + i ==> dst[j] == b[j - at]
          invariant forall j :: 0 <= j < dst.Length && !(at <= j < at + i) ==> dst[j] == old(dst[j])
        {
          dst[at + i] := b[i];
        }
      }
    }

    lemma WordsCover(sz: nat)
      ensures 4 * WordsTouched(0, sz) - 3 <= sz <= 4 * WordsTouched(0, sz)
    {
    }

    lemma ItemsWhole(cnt: u32)
      ensures Wrap(cnt * 4) % 4 == 0
      ensures WordsTouched(0, Wrap(cnt * 4)) == Wrap(cnt * 4) / 4
    {
    }

    /** ARM_Flash_ReadData_APROM / _LDROM: only the last byte is checked against the device. */
    method ReadData(addr: u32, dst: array<byte>, at: nat, cnt: u32) returns (rc: int)
      requires Valid() && at + Wrap(cnt * DataWidth()) <= dst.Length
      modifies dst, nvmc`tick
      ensures var sz := Wrap(cnt * DataWidth());
        if !IsRangeValid(Wrap(addr + sz - 1)) then
          rc == ARM_DRIVER_ERROR_PARAMETER && nvmc.tick == old(nvmc.tick) && dst[..] == old(dst[..])
        else
          var n := sz / 4;
          var k := Reached(nvmc.fault, old(nvmc.tick), |nvmc.mem|, addr, RMC, n);
          && nvmc.tick == After(old(nvmc.tick), k, n)
          && rc == (if k == n then AsInt32(cnt) else ARM_DRIVER_ERROR)
          && (k == n && n > 0 ==>
                addr + sz <= |nvmc.mem| && forall j :: at <= j < at + sz ==> dst[j] == nvmc.mem[addr + (j - at)])
          && forall j :: 0 <= j < dst.Length && !(at <= j < at + sz) ==> dst[j] == old(dst[j])
    {
      var sz := Wrap(cnt * DataWidth());
      if !IsRangeValid(Wrap(addr + sz - 1)) {
        return ARM_DRIVER_ERROR_PARAMETER;
      }
      ItemsWhole(cnt);
      var ret, done := ReadDataInternal(addr, dst, at, sz);
      if ret != ARM_DRIVER_OK {
        return ARM_DRIVER_ERROR;
      }
      return AsInt32(cnt);
    }

    // ------------------------------------------------------------ program

    method ProgramDataInternal(addr: u32, data: seq<byte>, sz: u32, progUnit: u32, ghost n: nat)
      returns (rc: int, ghost done: nat, ghost reached: nat)
      requires |nvmc.mem| < TWO32 && progUnit == UnitSize(nvmc.kind) && sz == Span(nvmc.kind, n) == |data|
      modifies nvmc`mem, nvmc`tick
      ensures done == Reached(nvmc.fault, old(nvmc.tick), |old(nvmc.mem)|, addr, nvmc.kind, n)
      ensures nvmc.tick == After(old(nvmc.tick), done, n)
      ensures rc == if done == n then ARM_DRIVER_OK else ARM_DRIVER_ERROR
      ensures reached == addr + Span(nvmc.kind, done) && nvmc.mem == Commit(old(nvmc.mem), addr, data, reached)
    {
      hide Commit, UnitAligned, Wrap, Reached, Span, UnitSize, After, LegalUnit;
      ghost var t0, m, kind := nvmc.tick, nvmc.mem, nvmc.kind;
      reached := addr;
      ReachedNone(nvmc.fault, t0, |m|, addr, kind);
      AfterMeans(t0, n);
      var srcOffst := 0;
      var dstOffst := 0;
      var dword: bv64 := *;
      done := 0;
      while dstOffst < sz
        invariant dstOffst == srcOffst == Span(kind, done) && done <= n
        invariant nvmc.tick == t0 + done && Reached(nvmc.fault, t0, |m|, addr, kind, done) == done
        invariant reached == addr + dstOffst && (done > 0 ==> reached <= |m|)
        invariant nvmc.mem == Commit(m, addr, data, reached)
        decreases n - done
      {
        SpanNext(kind, done, n);
        LegalBelow(|m|, reached, kind);
        ReachedNext(nvmc.fault, t0, |m|, addr, kind, done);
        WrapId(reached);
        var b := data[srcOffst..srcOffst + progUnit];
        var ret;
        ghost var hi;
        dword, ret, hi := ProgramUnit(Wrap(addr + dstOffst), dword, b);
        if ret != NVT_NVMC_OK {
          ReachedStays(nvmc.fault, t0, |m|, addr, kind, done + 1, n);
          return ARM_DRIVER_ERROR, done, reached;
        }
        CommitNext(m, addr, data, srcOffst, reached, b, hi);
        reached := hi;
        srcOffst := srcOffst + progUnit;
        dstOffst := dstOffst + progUnit;
        done := done + 1;
      }
      SpanNext(kind, done, n);
      return ARM_DRIVER_OK, done, reached;
    }

    lemma AfterMeans(t: nat, n: nat)
      ensures After(t, n, n) == t + n
      ensures forall k: nat {:trigger After(t, k, n)} :: k < n ==> After(t, k, n) == t + k + 1
    {
    }

    /** One turn of the program loop: the `memcpy` into the local double word and NVT_NVMC_Program. */
    method ProgramUnit(addr: u32, stale: bv64, b: seq<byte>) returns (dword: bv64, ret: int, ghost reached: nat)
      requires |b| == UnitSize(nvmc.kind)
      modifies nvmc`mem, nvmc`tick
      ensures nvmc.tick == old(nvmc.tick) + 1
      ensures ret == NVT_NVMC_OK <==>
        LegalUnit(|old(nvmc.mem)|, addr, nvmc.kind) && !nvmc.fault(old(nvmc.tick))
      ensures reached == if ret == NVT_NVMC_OK then addr + |b| else addr
      ensures nvmc.mem == if ret == NVT_NVMC_OK then Commit(old(nvmc.mem), addr, b, reached) else old(nvmc.mem)
    {
      dword := Overlay(stale, b);
      PackRoundTrip(stale, b);
      ret := nvmc.Program(addr, dword);
      reached := if ret == NVT_NVMC_OK then addr + |b| else addr;
    }

    /** One more unit of `data` continues the partial program. */
    lemma CommitNext(m: seq<byte>, at: nat, data: seq<byte>, i: nat, lo: nat, b: seq<byte>, hi: nat)
      requires i + |b| <= |data| && lo == at + i && hi == lo + |b| && b == data[i..i + |b|]
      ensures Commit(Commit(m, at, data, lo), lo, b, hi) == Commit(m, at, data, hi)
    {
      var l, r := Commit(Commit(m, at, data, lo), lo, b, hi), Commit(m, at, data, hi);
      forall x | 0 <= x < |m| ensures l[x] == r[x] {
      }
    }

    /** The three checks before a program. */
    predicate ProgramAccepted(addr: u32, sz: u32)
      reads nvmc
      requires Valid()
    {
      IsRangeValid(Wrap(addr + sz - 1)) && IsWriteAligned(addr) && IsWriteAligned(sz)
    }

    /** A program is refused exactly if its last byte, after the wrap, lies outside the device, or its address or its
        size is not a multiple of the program unit. */
    lemma ProgramRefusedIff(addr: u32, sz: u32)
      requires Valid()
      ensures !ProgramAccepted(addr, sz) <==>
        var last := if sz == 0 && addr == 0 then TWO32 - 1
                    else if addr + sz <= TWO32 then addr + sz - 1 else addr + sz - 1 - TWO32;
        || last < memoryBase || last >= End()
        || addr % UnitSize(nvmc.kind) != 0 || sz % UnitSize(nvmc.kind) != 0
    {
      hide Driver.IsRangeValid, Wrap, Driver.End;
      LastAddress(addr, sz);
      RangeValidMeans(Wrap(addr + sz - 1));
    }

    lemma LastAddress(addr: u32, sz: u32)
      ensures Wrap(addr + sz - 1) ==
        if sz == 0 && addr == 0 then TWO32 - 1
        else if addr + sz <= TWO32 then addr + sz - 1 else addr + sz - 1 - TWO32
    {
    }

    /** ARM_Flash_ProgramData_APROM / _LDROM. */
    method ProgramData(addr: u32, data: seq<byte>, cnt: u32) returns (rc: int)
      requires Valid() && Wrap(cnt * DataWidth()) <= |data|
      modifies nvmc`mem, nvmc`tick
      ensures var sz := Wrap(cnt * DataWidth());
        if !old(ProgramAccepted(addr, sz)) then
          rc == ARM_DRIVER_ERROR_PARAMETER && nvmc.State() == old(nvmc.State())
        else
          var n := Units(nvmc.kind, sz);
          var k := Reached(nvmc.fault, old(nvmc.tick), |old(nvmc.mem)|, addr, nvmc.kind, n);
          && nvmc.tick == After(old(nvmc.tick), k, n)
          && rc == (if k == n then AsInt32(cnt) else ARM_DRIVER_ERROR)
          && nvmc.mem == Commit(old(nvmc.mem), addr, data[..sz], addr + Span(nvmc.kind, k))
      ensures Valid()
    {
      var sz := Wrap(cnt * DataWidth());
      if !ProgramAccepted(addr, sz) {
        return ARM_DRIVER_ERROR_PARAMETER;
      }
      UnitAlignedMeans(nvmc.kind, sz);
      var ret, done, reached := ProgramDataInternal(addr, data[..sz], sz, info.programUnit, Units(nvmc.kind, sz));
      if ret != ARM_DRIVER_OK {
        return ARM_DRIVER_ERROR;
      }
      return AsInt32(cnt);
    }

    // ------------------------------------------------------------ erase

    /** ARM_Flash_EraseSector_APROM / _LDROM. */
    method EraseSector(addr: u32) returns (rc: int)
      requires Valid()
      modifies nvmc`mem, nvmc`tick
      ensures
        if !IsRangeValid(addr) || !IsSectorAligned(addr) then
          rc == ARM_DRIVER_ERROR_PARAMETER && nvmc.State() == old(nvmc.State())
        else
          && nvmc.tick == old(nvmc.tick) + 1
          && rc == (if nvmc.fault(old(nvmc.tick)) then ARM_DRIVER_ERROR else ARM_DRIVER_OK)
          && nvmc.mem ==
            (if rc == ARM_DRIVER_OK then Fill(old(nvmc.mem), addr, addr + info.sectorSize) else old(nvmc.mem))
      ensures Valid()
    {
      if !IsRangeValid(addr) || !IsSectorAligned(addr) {
        return ARM_DRIVER_ERROR_PARAMETER;
      }
      SectorInside(addr);
      var ret := nvmc.Erase(addr);
      if ret != NVT_NVMC_OK {
        return ARM_DRIVER_ERROR;
      }
      return ARM_DRIVER_OK;
    }

    /** A sector whose first byte lies in the device lies in it whole. */
    lemma SectorInside(addr: u32)
      requires Valid() && IsRangeValid(addr) && IsSectorAligned(addr)
      ensures addr + info.sectorSize <= End()
    {
      RangeValidMeans(addr);
      EndAligned();
      if End() - addr < info.sectorSize {
        MultipleUnique(End(), addr, info.sectorSize);
      }
    }

    lemma EndAligned()
      requires Valid()
      ensures End() % info.sectorSize == 0
    {
      MultipleMod(info.sectorCount, info.sectorSize);
      ModAdd(memoryBase, Steps(info.sectorCount, info.sectorSize), info.sectorSize);
    }
  }
}
