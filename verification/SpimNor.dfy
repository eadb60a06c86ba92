/**
The serial NOR flash on the SPIM controller at command level: the device, and the command sequences of
bl2/platform/common/spim_drv.c. The device stays busy for a number of status polls after a program or erase
command, ignores commands while busy, and programs or erases only with the write-enable latch set.
*/
module SpimNor {
  import opened Bits
  import opened Words
  import opened FlatFlash

  const SR_WIP: bv8 := 0x01
  const SR_WEL: bv8 := 0x02
  const PAGE: nat := 256
  const BLOCK: nat := 4096

  /** A page program wraps inside its page: the source index of the byte that lands at address x, counted from
      the start of the page of `addr`. */
  function PageIndex(addr: nat, x: nat): nat {
    (x % PAGE + PAGE - addr % PAGE) % PAGE
  }

  function PageProgrammed(mem: seq<byte>, addr: nat, data: seq<byte>): (r: seq<byte>)
    ensures |r| == |mem|
    ensures forall x :: 0 <= x < |mem| ==>
      r[x] ==
        if x / PAGE == addr / PAGE && PageIndex(addr, x) < |data| then mem[x] & data[PageIndex(addr, x)] else mem[x]
  {
    seq(|mem|, x requires 0 <= x < |mem| =>
      if x / PAGE == addr / PAGE && PageIndex(addr, x) < |data| then mem[x] & data[PageIndex(addr, x)] else mem[x])
  }

  /** The erase command carries three address bytes. */
  function EraseAddress(addr: nat): nat {
    addr % 0x100_0000
  }

  /** The first address of the 4 KiB block that an erase command for `addr` hits. */
  function BlockAddress(addr: nat): nat {
    FloorTo(EraseAddress(addr), BLOCK)
  }

  function BlockErased(mem: seq<byte>, addr: nat): seq<byte> {
    Fill(mem, BlockAddress(addr), BlockAddress(addr) + BLOCK)
  }

  /** A command as the device sees it, with the state of the latch and the busy flag at that moment. */
  datatype Command =
    | WriteEnable(busy: bool)
    | PageProgram(addr: nat, size: nat, wel: bool, busy: bool)
    | SectorErase(addr: nat, wel: bool, busy: bool)
    | DataRead(addr: nat, size: nat, busy: bool)

  predicate Proper(c: Command) {
    match c
    case WriteEnable(busy) => !busy
    case PageProgram(_, _, wel, busy) => wel && !busy
    case SectorErase(_, wel, busy) => wel && !busy
    case DataRead(_, _, busy) => !busy
  }

  predicate AllProper(log: seq<Command>) {
    forall i :: 0 <= i < |log| ==> Proper(log[i])
  }

  class Nor {
    const srOther: bv8           // the status bits besides WIP and WEL
    const latency: nat -> nat    // busy polls after the n-th program or erase
    var mem: seq<byte>
    var wel: bool
    var busy: nat
    var ops: nat
    var log: seq<Command>

    constructor (srOther: bv8, latency: nat -> nat, mem: seq<byte>)
      requires srOther & 0x03 == 0
      ensures Idle() && log == [] && this.mem == mem && this.srOther == srOther && this.latency == latency
    {
      this.srOther := srOther;
      this.latency := latency;
      this.mem := mem;
      this.wel, this.busy, this.ops, this.log := false, 0, 0, [];
    }

    predicate Idle()
      reads `busy
    {
      busy == 0 && srOther & 0x03 == 0
    }

    function Status(): bv8
      reads `busy, `wel
    {
      srOther | (if wel then SR_WEL else 0) | (if busy > 0 then SR_WIP else 0)
    }

    // ------------------------------------------------------------ device commands

    method WriteEnableCommand()
      modifies `wel, `log
      ensures wel == (old(wel) || busy == 0) && log == old(log) + [WriteEnable(busy > 0)]
    {
      log := log + [WriteEnable(busy > 0)];
      wel := wel || busy == 0;
    }

    /** One status poll: time passes, and the latch clears when the operation completes. */
    method ReadStatus() returns (status: bv8)
      modifies `busy, `wel
      ensures busy == if old(busy) > 0 then old(busy) - 1 else 0
      ensures wel == (old(wel) && old(busy) != 1)
      ensures status == Status()
    {
      if busy == 1 {
        wel := false;
      }
      if busy > 0 {
        busy := busy - 1;
      }
      status := Status();
    }

    method PageProgramCommand(addr: nat, data: seq<byte>)
      requires |data| <= PAGE
      modifies `mem, `wel, `busy, `ops, `log
      ensures log == old(log) + [PageProgram(addr, |data|, old(wel), old(busy) > 0)]
      ensures old(wel) && old(busy) == 0 ==> mem == PageProgrammed(old(mem), addr, data) && (busy == 0 ==> !wel)
      ensures !(old(wel) && old(busy) == 0) ==> mem == old(mem) && busy == old(busy) && wel == old(wel)
    {
      log := log + [PageProgram(addr, |data|, wel, busy > 0)];
      if wel && busy == 0 {
        mem := PageProgrammed(mem, addr, data);
        Started();
      }
    }

    /** The command byte is followed by the three address bytes, most significant first. */
    method SectorEraseCommand(a2: nat, a1: nat, a0: nat)
      requires a2 < 0x100 && a1 < 0x100 && a0 < 0x100
      modifies `mem, `wel, `busy, `ops, `log
      ensures var addr := Address24(a2, a1, a0);
        && log == old(log) + [SectorErase(addr, old(wel), old(busy) > 0)]
        && (old(wel) && old(busy) == 0 ==> mem == BlockErased(old(mem), addr) && (busy == 0 ==> !wel))
        && (!(old(wel) && old(busy) == 0) ==> mem == old(mem) && busy == old(busy) && wel == old(wel))
    {
      hide BlockErased, Address24;
      var addr := Address24(a2, a1, a0);
      log := log + [SectorErase(addr, wel, busy > 0)];
      if wel && busy == 0 {
        mem := BlockErased(mem, addr);
        Started();
      }
    }

    method Started()
      modifies `wel, `busy, `ops
      ensures busy == 0 ==> !wel
    {
      busy := latency(ops);
      ops := ops + 1;
      if busy == 0 {
        wel := false;
      }
    }

    /** A busy device does not return its content. */
    method ReadCommand(addr: nat, size: nat) returns (data: seq<byte>)
      modifies `log
      ensures log == old(log) + [DataRead(addr, size, busy > 0)]
      ensures |data| == size
      ensures busy == 0 ==> forall j :: 0 <= j < size && addr + j < |mem| ==> data[j] == mem[addr + j]
    {
      log := log + [DataRead(addr, size, busy > 0)];
      var content, idle := mem, busy == 0;
      data := seq(size, j requires 0 <= j => if idle && addr + j < |content| then content[addr + j] else ERASED);
    }

    // ------------------------------------------------------------ spim_drv.c

    /** SPIFLASH_CheckStatus: polls until the flagged bits have the value. The two uses end: waiting for WIP to
        clear, and waiting for WEL on an idle device whose latch has just been set. */
    method CheckStatus(flag: bv8, value: bv8) returns (status: bv8)
      requires srOther & 0x03 == 0
      requires (flag == SR_WIP && value == 0) || (flag == SR_WEL | SR_WIP && value == SR_WEL && wel && busy == 0)
      modifies `busy, `wel
      ensures status == Status() && status & flag == value
      ensures flag == SR_WIP ==> busy == 0 && wel == (old(wel) && old(busy) == 0)
      ensures flag != SR_WIP ==> busy == 0 && wel
    {
      status := ReadStatus();
      StatusBits(srOther, wel, busy > 0);
      while status & flag != value
        invariant status == Status()
        invariant status & SR_WIP == 0 <==> busy == 0
        invariant flag == SR_WIP ==> wel == (old(wel) && (old(busy) == 0 || busy > 0))
        invariant flag != SR_WIP ==> busy == 0 && wel && status & flag == value
        decreases busy
      {
        status := ReadStatus();
        StatusBits(srOther, wel, busy > 0);
      }
    }

    /** SPIFLASH_WriteEnable. */
    method EnableWrite() returns (status: bv8)
      requires Idle()
      modifies `wel, `log, `busy
      ensures Idle() && wel && status & SR_WEL != 0
      ensures log == old(log) + [WriteEnable(false)]
    {
      WriteEnableCommand();
      status := CheckStatus(SR_WEL | SR_WIP, SR_WEL);
      StatusBits(srOther, wel, busy > 0);
    }

    /** NVT_NVSPIM_Program: reports failure after programming if any other status bit is set. */
    method Program(addr: u32, buf: seq<byte>) returns (rc: int)
      requires Idle() && |buf| <= PAGE
      modifies this
      ensures Idle() && !wel
      ensures mem == PageProgrammed(old(mem), addr, buf)
      ensures rc == if srOther == 0 then 0 else 1
      ensures log == old(log) + [WriteEnable(false), PageProgram(addr, |buf|, true, false)]
      ensures old(AllProper(log)) ==> AllProper(log)
    {
      var status := EnableWrite();
      if status & SR_WEL == 0 {
        assert false;
        return 1;
      }
      PageProgramCommand(addr, buf);
      status := CheckStatus(SR_WIP, 0);
      StatusBits(srOther, wel, busy > 0);
      if status != 0 {
        return 1;
      }
      return 0;
    }

    /** NVT_NVSPIM_Erase. */
    method Erase(addr: u32) returns (rc: int)
      requires Idle()
      modifies this
      ensures Idle() && !wel && rc == 0
      ensures mem == BlockErased(old(mem), addr)
      ensures log == old(log) + [WriteEnable(false), SectorErase(EraseAddress(addr), true, false)]
      ensures old(AllProper(log)) ==> AllProper(log)
    {
      hide BlockErased, Address24, EraseAddress, AddressByte;
      var status := EnableWrite();
      if status & SR_WEL == 0 {
        assert false;
        return 1;
      }
      ThreeBytes(addr);
      BlockOf24(mem, addr);
      SectorEraseCommand(AddressByte(addr, 2), AddressByte(addr, 1), AddressByte(addr, 0));
      status := CheckStatus(SR_WIP, 0);
      return 0;
    }

    /** NVT_NVSPIM_Read. */
    method Read(addr: u32, size: nat) returns (rc: int, data: seq<byte>)
      requires Idle()
      modifies `log
      ensures rc == 0 && |data| == size && log == old(log) + [DataRead(addr, size, false)]
      ensures old(AllProper(log)) ==> AllProper(log)
      ensures forall j :: 0 <= j < size && addr + j < |mem| ==> data[j] == mem[addr + j]
    {
      data := ReadCommand(addr, size);
      rc := 0;
    }
  }

  lemma StatusBits(other: bv8, wel: bool, busy: bool)
    requires other & 0x03 == 0
    ensures var s := other | (if wel then SR_WEL else 0) | (if busy then SR_WIP else 0);
      && (s & SR_WIP == 0 <==> !busy)
      && (s & SR_WEL == 0 <==> !wel)
      && (s & (SR_WEL | SR_WIP) == SR_WEL <==> wel && !busy)
      && (!wel && !busy ==> s == other)
  {
  }

  /** Byte `i` of an address: (addr >> 8 * i) & 0xFF. */
  function AddressByte(addr: nat, i: nat): (r: nat)
    requires i < 3
    ensures r < 0x100
  {
    (if i == 2 then addr / 0x1_0000 else if i == 1 then addr / 0x100 else addr) % 0x100
  }

  function Address24(a2: nat, a1: nat, a0: nat): nat {
    a2 * 0x1_0000 + a1 * 0x100 + a0
  }

  /** The three bytes sent are the address without its bits from 24 on. */
  lemma ThreeBytes(addr: nat)
    ensures Address24(AddressByte(addr, 2), AddressByte(addr, 1), AddressByte(addr, 0)) == EraseAddress(addr)
    ensures BlockAddress(EraseAddress(addr)) == BlockAddress(addr)
  {
    var b0, r1 := addr % 0x100, addr / 0x100;
    var b1, r2 := r1 % 0x100, r1 / 0x100;
    var b2, r3 := r2 % 0x100, r2 / 0x100;
    assert addr == 0x100_0000 * r3 + 0x1_0000 * b2 + 0x100 * b1 + b0;
    assert addr / 0x1_0000 == r2;
    Low24(addr, r3, 0x1_0000 * b2 + 0x100 * b1 + b0);
  }

  lemma BlockOf24(mem: seq<byte>, addr: nat)
    ensures BlockErased(mem, EraseAddress(addr)) == BlockErased(mem, addr)
  {
    ThreeBytes(addr);
  }

  lemma Low24(addr: nat, high: nat, low: nat)
    requires addr == 0x100_0000 * high + low && low < 0x100_0000
    ensures EraseAddress(addr) == low && EraseAddress(low) == low
  {
  }
}
