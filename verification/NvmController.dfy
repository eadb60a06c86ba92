/**
The on-chip flash controller behind NVT_NVMC_Read/Program/Erase: bl2/platform/common/fmc_drv.c (64-bit
program unit) or bl2/platform/common/rmc_drv.c (32-bit). The register sequence and its polling are the
four `Hw` operations; each either happens completely or reports a failure and changes no byte.
*/
module NvmController {
  import opened Bits
  import opened Words
  import opened FlatFlash

  const NVT_NVMC_OK: int := 0
  const NVT_NVMC_ERROR: int := -1
  const NVT_NVMC_ISPFF: int := -3

  class Nvmc {
    const kind: Kind
    const sectorSize: u32
    const fault: Schedule  // which operation numbers time out or raise the fail flag
    var mem: seq<byte>     // indexed by absolute address
    var tick: nat          // number of operations triggered so far

    constructor (kind: Kind, sectorSize: u32, fault: Schedule, mem: seq<byte>)
      requires 0 < sectorSize && sectorSize % 8 == 0
      requires |mem| < TWO32 && |mem| % 8 == 0
      ensures Valid() && tick == 0
      ensures this.kind == kind && this.sectorSize == sectorSize && this.fault == fault && this.mem == mem
    {
      this.kind := kind;
      this.sectorSize := sectorSize;
      this.fault := fault;
      this.mem := mem;
      this.tick := 0;
    }

    predicate Valid()
      reads `mem
    {
      ValidFor(|mem|)
    }

    predicate ValidFor(size: nat) {
      0 < sectorSize && sectorSize % 8 == 0 && size < TWO32 && size % 8 == 0
    }

    function State(): Flat
      reads this
    {
      Flat(mem, tick)
    }

    predicate Legal(addr: nat, width: nat)
      requires width > 0
      reads this
    {
      addr % width == 0 && addr + width <= |mem|
    }

    // ------------------------------------------------------------ hardware operations

    method HwRead(addr: u32) returns (ok: bool, word: bv32)
      modifies `tick
      ensures tick == old(tick) + 1
      ensures ok <==> Legal(addr, 4) && !fault(old(tick))
      ensures ok ==> word == BytesWord(mem[addr..addr + 4])
    {
      ok := Legal(addr, 4) && !fault(tick);
      word := if ok then BytesWord(mem[addr..addr + 4]) else 0;
      tick := tick + 1;
    }

    method HwProgram(addr: u32, b: seq<byte>)
      returns (ok: bool)
      requires |b| == 4 || |b| == 8
      modifies `mem, `tick
      ensures tick == old(tick) + 1
      ensures ok <==> old(Legal(addr, |b|)) && !fault(old(tick))
      ensures mem == if ok then Commit(old(mem), addr, b, addr + |b|) else old(mem)
    {
      ok := Legal(addr, |b|) && !fault(tick);
      if ok {
        mem := Commit(mem, addr, b, addr + |b|);
      }
      tick := tick + 1;
    }

    method HwErase(addr: u32) returns (ok: bool)
      requires Valid()
      modifies `mem, `tick
      ensures tick == old(tick) + 1
      ensures ok <==> old(Legal(addr, sectorSize)) && !fault(old(tick))
      ensures mem == if ok then Fill(old(mem), addr, addr + sectorSize) else old(mem)
    {
      ok := Legal(addr, sectorSize) && !fault(tick);
      if ok {
        mem := Fill(mem, addr, addr + sectorSize);
      }
      tick := tick + 1;
    }

    // ------------------------------------------------------------ the NVT_NVMC interface

    function FailCode(): int {
      if kind.FMC? then NVT_NVMC_ISPFF else NVT_NVMC_ERROR
    }

    method Read(addr: u32) returns (ret: int, data: bv32)
      modifies `tick
      ensures tick == old(tick) + 1
      ensures ret == NVT_NVMC_OK <==> Legal(addr, 4) && !fault(old(tick))
      ensures ret != NVT_NVMC_OK ==> ret == FailCode()
      ensures ret == NVT_NVMC_OK ==> WordBytes(data) == mem[addr..addr + 4]
    {
      var ok;
      ok, data := HwRead(addr);
      ret := if ok then NVT_NVMC_OK else FailCode();
      if ok {
        WordRoundTrip(mem[addr..addr + 4]);
      }
    }

    /** Program one unit: the FMC takes the two halves of `dword`, the RMC its low half. */
    method Program(addr: u32, dword: bv64) returns (ret: int)
      modifies `mem, `tick
      ensures tick == old(tick) + 1
      ensures ret == NVT_NVMC_OK <==>
        UnitAligned(kind, addr) && addr + UnitSize(kind) <= |old(mem)| && !fault(old(tick))
      ensures ret != NVT_NVMC_OK ==> ret == FailCode() && mem == old(mem)
      ensures ret == NVT_NVMC_OK ==> mem == Commit(old(mem), addr, UnitBytes(dword), addr + UnitSize(kind))
    {
      var ok;
      match kind
      case FMC =>
        var mpdat0 := LowWord(dword);
        var mpdat1 := HighWord(dword);
        ok := HwProgram(addr, WordBytes(mpdat0) + WordBytes(mpdat1));
        ret := if ok then NVT_NVMC_OK else FailCode();
      case RMC =>
        var word := LowWord(dword);
        ok := HwProgram(addr, WordBytes(word));
        ret := if ok then NVT_NVMC_OK else FailCode();
    }

    /** The bytes of `dword` that reach the flash. */
    function UnitBytes(dword: bv64): (b: seq<byte>)
      ensures |b| == UnitSize(kind)
    {
      match kind
      case FMC => WordBytes(LowWord(dword)) + WordBytes(HighWord(dword))
      case RMC => WordBytes(LowWord(dword))
    }

    method Erase(addr: u32) returns (ret: int)
      requires Valid()
      modifies `mem, `tick
      ensures tick == old(tick) + 1
      ensures ret == NVT_NVMC_OK <==> old(Legal(addr, sectorSize)) && !fault(old(tick))
      ensures ret != NVT_NVMC_OK ==> mem == old(mem)
      ensures ret == NVT_NVMC_OK ==> mem == Fill(old(mem), addr, addr + sectorSize)
    {
      var ok := HwErase(addr);
      ret := if ok then NVT_NVMC_OK else FailCode();
    }
  }
}
