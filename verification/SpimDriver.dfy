/**
The CMSIS driver of the serial flash on the SPIM controller (bl2/platform/common/Driver_Flash.c).
*/
module SpimDriver {
  import opened Bits
  import opened Words
  import opened FlatFlash
  import opened FlashDriver
  import opened SpimNor

  const NVT_NVSPIM_PAGE_SIZE: u32 := 256
  const NVT_NVSPIM_SECTOR_SIZE: u32 := 256

  // ---------------------------------------------------------------- the effect of a chunked program

  /** The source byte that lands at address x when `data` is sent in chunks of a page from address a. */
  function PagedIndex(a: nat, x: nat): nat
    requires a / PAGE <= x / PAGE
  {
    PAGE * (x / PAGE - a / PAGE) + PageIndex(a, x)
  }

  function Paged(mem: seq<byte>, a: nat, data: seq<byte>): (r: seq<byte>)
    ensures |r| == |mem|
  {
    seq(|mem|, x requires 0 <= x < |mem| =>
      if a / PAGE <= x / PAGE && PagedIndex(a, x) < |data| then mem[x] & data[PagedIndex(a, x)] else mem[x])
  }

  lemma PageShift(a: nat, k: nat, x: nat)
    ensures (a + PAGE * k) / PAGE == a / PAGE + k && PageIndex(a + PAGE * k, x) == PageIndex(a, x) < PAGE
  {
  }

  /** One more chunk continues the chunked program. */
  lemma PagedStep(mem: seq<byte>, a: nat, data: seq<byte>, k: nat, from: nat, to: nat, off: nat)
    requires from == PAGE * k && from <= to <= from + PAGE && to <= |data| && off == a + from
    ensures PageProgrammed(Paged(mem, a, data[..from]), off, data[from..to]) == Paged(mem, a, data[..to])
  {
    hide PageIndex;
    var l, r := PageProgrammed(Paged(mem, a, data[..from]), off, data[from..to]), Paged(mem, a, data[..to]);
    forall x | 0 <= x < |mem| ensures l[x] == r[x] {
      PageShift(a, k, x);
      if a / PAGE <= x / PAGE {
        ChunkCase(a, k, to - from, x);
      }
    }
  }

  /** Which chunk an address belongs to. */
  lemma ChunkCase(a: nat, k: nat, len: nat, x: nat)
    requires len <= PAGE && PageIndex(a, x) < PAGE && a / PAGE <= x / PAGE
    ensures x / PAGE < a / PAGE + k ==> PagedIndex(a, x) < PAGE * k
    ensures x / PAGE == a / PAGE + k ==> PagedIndex(a, x) == PAGE * k + PageIndex(a, x)
    ensures x / PAGE > a / PAGE + k ==> PagedIndex(a, x) >= PAGE * k + len
  {
    hide PageIndex;
    var p, q := x / PAGE, a / PAGE;
    if p < q + k {
      assert p - q <= k - 1;
    } else if p > q + k {
      assert p - q >= k + 1;
    }
  }

  predicate StaysInPage(a: nat, sz: nat) {
    sz == 0 || a % PAGE == 0 || a % PAGE + sz <= PAGE
  }

  lemma PagedIndexIs(a: nat, x: nat)
    requires a / PAGE <= x / PAGE
    ensures a % PAGE == 0 ==> x >= a && PagedIndex(a, x) == x - a
    ensures x % PAGE >= a % PAGE ==> x >= a && PagedIndex(a, x) == x - a
    ensures x % PAGE < a % PAGE ==> PagedIndex(a, x) == x - a + PAGE
  {
  }

  /** On a device of `total` bytes, the chunked program is the plain byte-array program, for every content and every
      data, exactly if no chunk leaves its page. */
  lemma PagedIsFlatIff(a: nat, sz: nat, total: nat)
    requires a + sz <= total
    ensures StaysInPage(a, sz) <==>
      forall mem: seq<byte>, data: seq<byte> | |data| == sz && |mem| == total ::
        Paged(mem, a, data) == Commit(mem, a, data, a + sz)
  {
    hide PagedIndex;
    if StaysInPage(a, sz) {
      forall mem: seq<byte>, data: seq<byte> | |data| == sz && |mem| == total
        ensures Paged(mem, a, data) == Commit(mem, a, data, a + sz)
      {
        PagedIsFlat(mem, a, data);
      }
    } else {
      var w := PAGE - a % PAGE;
      var mem: seq<byte> := seq(total, _ => ERASED);
      var data: seq<byte> := seq(sz, i => if i == w then 0 else ERASED);
      var x := a + w;
      PageEnd(a);
      PagedIndexIs(a, x);
      assert Commit(mem, a, data, a + sz)[x] == 0;
      assert Paged(mem, a, data)[x] == ERASED;
    }
  }

  lemma PageEnd(a: nat)
    ensures var x := a + (PAGE - a % PAGE); x / PAGE == a / PAGE + 1 && x % PAGE == 0
  {
  }

  lemma PagedIsFlat(mem: seq<byte>, a: nat, data: seq<byte>)
    requires StaysInPage(a, |data|) && a + |data| <= |mem|
    ensures Paged(mem, a, data) == Commit(mem, a, data, a + |data|)
  {
    hide PagedIndex;
    var l, r := Paged(mem, a, data), Commit(mem, a, data, a + |data|);
    forall x | 0 <= x < |mem| ensures l[x] == r[x] {
      FlatCase(a, |data|, x);
    }
  }

  lemma FlatCase(a: nat, sz: nat, x: nat)
    requires StaysInPage(a, sz)
    ensures a <= x < a + sz <==> a / PAGE <= x / PAGE && PagedIndex(a, x) < sz
    ensures a <= x < a + sz ==> PagedIndex(a, x) == x - a
  {
    hide PagedIndex;
    if a / PAGE <= x / PAGE {
      PagedIndexIs(a, x);
    }
  }

  // ---------------------------------------------------------------- addresses that pass 2^32

  /** The length of the chunks that start below 2^32. */
  function BeforeWrap(a: u32): nat {
    PAGE * ((TWO32 - a + PAGE - 1) / PAGE)
  }

  lemma BeforeWrapIs(a: u32)
    ensures TWO32 - a <= BeforeWrap(a) < TWO32 - a + PAGE
    ensures BeforeWrap(a) % PAGE == 0
  {
  }

  /** The chunked program with a 32-bit address that wraps between chunks. */
  function PagedWrapping(mem: seq<byte>, a: u32, data: seq<byte>): (r: seq<byte>)
    ensures |r| == |mem|
  {
    BeforeWrapIs(a);
    PagedAround(mem, a, data, BeforeWrap(a))
  }

  /** The same with the wrap after `w` bytes. */
  function PagedAround(mem: seq<byte>, a: nat, data: seq<byte>, w: nat): seq<byte>
    requires a + w >= TWO32
  {
    if |data| <= w then Paged(mem, a, data) else Paged(Paged(mem, a, data[..w]), a + w - TWO32, data[w..])
  }

  lemma WrappingIsPaged(mem: seq<byte>, a: u32, data: seq<byte>)
    requires a + |data| <= TWO32
    ensures PagedWrapping(mem, a, data) == Paged(mem, a, data)
  {
    BeforeWrapIs(a);
  }

  /** One more chunk continues the chunked program, on either side of the wrap. */
  lemma WrappingStep(mem: seq<byte>, a: u32, data: seq<byte>, k: nat, from: nat, to: nat, off: u32)
    requires from == PAGE * k && from < to <= from + PAGE && to <= |data| < TWO32 && off == Wrap(a + from)
    ensures PageProgrammed(PagedWrapping(mem, a, data[..from]), off, data[from..to])
         == PagedWrapping(mem, a, data[..to])
  {
    hide Paged, PageProgrammed, BeforeWrap, Wrap, PagedWrapping;
    BeforeWrapIs(a);
    if a + from < TWO32 {
      WrapId(a + from);
      ChunkEnds(a, from, to);
      WrappingWithin(mem, a, data[..from]);
      WrappingWithin(mem, a, data[..to]);
      PagedStep(mem, a, data, k, from, to, off);
    } else {
      WrapLess(a + from);
      StepBehindWrap(mem, a, data, k, from, to, off);
    }
  }

  lemma ChunkEnds(a: u32, from: nat, to: nat)
    requires from % PAGE == 0 && to <= from + PAGE && a + from < TWO32
    ensures to <= BeforeWrap(a)
  {
    hide BeforeWrap;
    BeforeWrapIs(a);
    MultipleGap(from, BeforeWrap(a), PAGE);
  }

  lemma WrappingWithin(mem: seq<byte>, a: u32, d: seq<byte>)
    requires |d| <= BeforeWrap(a)
    ensures PagedWrapping(mem, a, d) == Paged(mem, a, d)
  {
    hide Paged, BeforeWrap;
  }

  lemma StepBehindWrap(mem: seq<byte>, a: u32, data: seq<byte>, k: nat, from: nat, to: nat, off: nat)
    requires from == PAGE * k && from < to <= from + PAGE && to <= |data| < TWO32
    requires a + from >= TWO32 && off == a + from - TWO32
    ensures PageProgrammed(PagedWrapping(mem, a, data[..from]), off, data[from..to])
         == PagedWrapping(mem, a, data[..to])
  {
    hide Paged, PageProgrammed, BeforeWrap, PagedWrapping;
    BeforeWrapIs(a);
    var w := BeforeWrap(a);
    WrapReached(a, from, k);
    WrappingSplit(mem, a, data, from);
    WrappingSplit(mem, a, data, to);
    RestStep(Paged(mem, a, data[..w]), a + w - TWO32, data, w, k - w / PAGE, from, to, off);
  }

  /** One more chunk of the rest that starts at address b. */
  lemma RestStep(base: seq<byte>, b: nat, data: seq<byte>, w: nat, k: nat, from: nat, to: nat, off: nat)
    requires w <= from < to <= from + PAGE && to <= |data| && from - w == PAGE * k && off == b + from - w
    ensures PageProgrammed(Paged(base, b, data[w..][..from - w]), off, data[from..to])
         == Paged(base, b, data[w..][..to - w])
  {
    hide Paged, PageProgrammed;
    Slices(data, w, from, to);
    PagedStep(base, b, data[w..], k, from - w, to - w, off);
  }

  lemma WrapReached(a: u32, from: nat, k: nat)
    requires from == PAGE * k && a + from >= TWO32
    ensures BeforeWrap(a) <= from && from - BeforeWrap(a) == PAGE * (k - BeforeWrap(a) / PAGE)
  {
    hide BeforeWrap;
    BeforeWrapIs(a);
    if BeforeWrap(a) > from {
      MultipleGap(from, BeforeWrap(a), PAGE);
    }
  }

  lemma Slices(data: seq<byte>, w: nat, from: nat, to: nat)
    requires w <= from <= to <= |data|
    ensures data[w..][from - w..to - w] == data[from..to]
  {
  }

  /** The part before the wrap, then the rest from the first address behind it. */
  lemma WrappingSplit(mem: seq<byte>, a: u32, data: seq<byte>, to: nat)
    requires BeforeWrap(a) <= to <= |data|
    ensures var w := BeforeWrap(a);
      && w >= TWO32 - a
      && PagedWrapping(mem, a, data[..to]) == Paged(Paged(mem, a, data[..w]), a + w - TWO32, data[w..][..to - w])
  {
    hide Paged, BeforeWrap, PagedWrapping, PagedAround;
    BeforeWrapIs(a);
    var w := BeforeWrap(a);
    Parts(data, w, to);
    if to == w {
      WrappingWithin(mem, a, data[..to]);
      PagedNothing(Paged(mem, a, data[..w]), a + w - TWO32, data[w..]);
    } else {
      WrappingIs(mem, a, data[..to]);
      AroundBeyond(mem, a, data[..to], w);
    }
  }

  lemma WrappingIs(mem: seq<byte>, a: u32, d: seq<byte>)
    ensures a + BeforeWrap(a) >= TWO32 && PagedWrapping(mem, a, d) == PagedAround(mem, a, d, BeforeWrap(a))
  {
    hide BeforeWrap, PagedAround;
    BeforeWrapIs(a);
  }

  lemma AroundBeyond(mem: seq<byte>, a: nat, d: seq<byte>, w: nat)
    requires w < |d| && a + w >= TWO32
    ensures PagedAround(mem, a, d, w) == Paged(Paged(mem, a, d[..w]), a + w - TWO32, d[w..])
  {
  }

  lemma Parts(data: seq<byte>, w: nat, to: nat)
    requires w <= to <= |data|
    ensures data[..to][..w] == data[..w] && data[..to][w..] == data[w..][..to - w]
  {
  }

  lemma PagedNothing(mem: seq<byte>, a: nat, data: seq<byte>)
    ensures Paged(mem, a, data[..0]) == mem
  {
  }

  lemma WrapAdd(x: nat, y: nat)
    ensures Wrap(Wrap(x) + y) == Wrap(x + y)
  {
    ModSum(Wrap(x) + y, FloorTo(x, TWO32), TWO32);
    FloorToFacts(x, TWO32);
  }

  /** The device address of byte t of a read in chunks from address a. */
  function ReadPosition(a: u32, t: nat): nat {
    Wrap(a + t / PAGE * PAGE) + t % PAGE
  }

  lemma ReadPositionIs(a: u32, t: nat)
    ensures a + t < TWO32 ==> ReadPosition(a, t) == a + t
  {
    if a + t < TWO32 {
      WrapId(a + t / PAGE * PAGE);
    }
  }

  lemma ReadPositionIn(a: u32, from: nat, i: nat)
    requires from % PAGE == 0 && i < PAGE
    ensures ReadPosition(a, from + i) == Wrap(a + from) + i
  {
    hide Wrap;
    assert (from + i) / PAGE * PAGE == from && (from + i) % PAGE == i;
  }

  // ---------------------------------------------------------------- commands

  /** The number of chunks of `n` bytes, and the length of chunk i. */
  function Chunks(n: nat): nat {
    (n + PAGE - 1) / PAGE
  }

  function ChunkSize(n: nat, i: nat): nat {
    if PAGE * i + PAGE <= n then PAGE else if PAGE * i <= n then n - PAGE * i else 0
  }

  lemma ChunksIs(n: nat, k: nat)
    requires n <= PAGE * k && (k > 0 ==> PAGE * (k - 1) < n)
    ensures Chunks(n) == k
  {
  }

  /** The commands of the first k chunks of a read of `n` bytes from address a: one each. */
  function ReadCommands(a: u32, n: nat, k: nat): (r: seq<Command>)
    ensures |r| == k
  {
    seq(k, i requires 0 <= i => DataRead(Wrap(a + PAGE * i), ChunkSize(n, i), false))
  }

  /** The commands of the first k chunks of a program: each is enabled, then sent. */
  function ProgramCommands(a: u32, n: nat, k: nat): (r: seq<Command>)
    ensures |r| == 2 * k
  {
    if k == 0 then []
    else
      ProgramCommands(a, n, k - 1)
      + [WriteEnable(false), PageProgram(Wrap(a + PAGE * (k - 1)), ChunkSize(n, k - 1), true, false)]
  }

  /** The two commands of chunk i. */
  lemma {:induction false} ProgramCommandsAt(a: u32, n: nat, k: nat, i: nat)
    requires i < k
    ensures ProgramCommands(a, n, k)[2 * i] == WriteEnable(false)
    ensures ProgramCommands(a, n, k)[2 * i + 1] == PageProgram(Wrap(a + PAGE * i), ChunkSize(n, i), true, false)
  {
    hide Wrap, ChunkSize;
    if i < k - 1 {
      ProgramCommandsAt(a, n, k - 1, i);
    }
  }

  function EraseCommands(a: nat): seq<Command> {
    [WriteEnable(false), SectorErase(EraseAddress(a), true, false)]
  }

  lemma ReadCommandsNext(log: seq<Command>, a: u32, n: nat, k: nat)
    ensures log + ReadCommands(a, n, k) + [DataRead(Wrap(a + PAGE * k), ChunkSize(n, k), false)]
         == log + ReadCommands(a, n, k + 1)
    ensures log + ReadCommands(a, n, 0) == log
  {
  }

  lemma ProgramCommandsNext(log: seq<Command>, a: u32, n: nat, k: nat)
    ensures log + ProgramCommands(a, n, k)
              + [WriteEnable(false), PageProgram(Wrap(a + PAGE * k), ChunkSize(n, k), true, false)]
         == log + ProgramCommands(a, n, k + 1)
    ensures log + ProgramCommands(a, n, 0) == log
  {
    hide Wrap, ChunkSize;
    var c := [WriteEnable(false), PageProgram(Wrap(a + PAGE * k), ChunkSize(n, k), true, false)];
    assert log + ProgramCommands(a, n, k) + c == log + (ProgramCommands(a, n, k) + c);
  }

  /** Every such command reaches an idle device, and a program or erase finds the latch set. */
  lemma {:induction false} CommandsProper(a: u32, n: nat, k: nat)
    ensures AllProper(ReadCommands(a, n, k)) && AllProper(ProgramCommands(a, n, k)) && AllProper(EraseCommands(a))
  {
    hide Wrap, ChunkSize;
    if k > 0 {
      CommandsProper(a, n, k - 1);
    }
  }

  // ---------------------------------------------------------------- the driver

  class SpimFlash {
    const dev: Nor
    const memoryBase: u32
    const dmmSize: u32

    constructor (dev: Nor, memoryBase: u32, dmmSize: u32)
      ensures this.dev == dev && this.memoryBase == memoryBase && this.dmmSize == dmmSize
    {
      this.dev, this.memoryBase, this.dmmSize := dev, memoryBase, dmmSize;
    }

    /** The mapped window ends inside the 32-bit address space. */
    predicate Valid() {
      memoryBase + dmmSize < TWO32
    }

    /** The range check of read and program; the sum addr + sz wraps. */
    predicate Accepts(addr: u32, sz: u32)
      requires Valid()
    {
      !(addr < memoryBase || Wrap(addr + sz) > memoryBase + dmmSize)
    }

    /** The intended check. */
    predicate InWindow(addr: u32, sz: u32) {
      memoryBase <= addr && addr + sz <= memoryBase + dmmSize
    }

    /** The end of the request is compared after it has lost its bits from 32 on. */
    lemma AcceptsIff(addr: u32, sz: u32)
      requires Valid()
      ensures Accepts(addr, sz) <==>
        (&& memoryBase <= addr
         && if addr + sz < TWO32 then addr + sz <= memoryBase + dmmSize else addr + sz - TWO32 <= memoryBase + dmmSize)
    {
    }

    /** The verdict is the intended one exactly if the sum does not wrap or the request is refused all the same. */
    lemma AcceptsAsIntendedIff(addr: u32, sz: u32)
      requires Valid()
      ensures (Accepts(addr, sz) <==> InWindow(addr, sz))
        <==> addr + sz < TWO32 || addr < memoryBase || addr + sz - TWO32 > memoryBase + dmmSize
    {
      AcceptsIff(addr, sz);
    }

    /** With a window of 32 MiB at address 0, the last 256 bytes of the address space are accepted. */
    lemma WrapExample()
      requires memoryBase == 0 && dmmSize == 0x200_0000
      ensures Accepts(0xFFFF_FF00, 0x100) && !InWindow(0xFFFF_FF00, 0x100)
    {
      AcceptsIff(0xFFFF_FF00, 0x100);
    }

    /** ARM_Flash_ProgramData_SPIM: chunks of at most a page, whatever the alignment of the address. */
    method ProgramData(addr: u32, data: seq<byte>, cnt: u32) returns (rc: int)
      requires Valid() && dev.Idle() && Wrap(cnt * 4) <= |data|
      modifies dev
      ensures dev.Idle() && (old(AllProper(dev.log)) ==> AllProper(dev.log))
      ensures var sz := Wrap(cnt * 4);
        && (!Accepts(addr, sz) ==> rc == ARM_DRIVER_ERROR_PARAMETER && dev.mem == old(dev.mem))
        && (Accepts(addr, sz) ==> rc == if dev.srOther == 0 || sz == 0 then ARM_DRIVER_OK else ARM_DRIVER_ERROR)
        && (Accepts(addr, sz) ==>
              dev.mem == PagedWrapping(old(dev.mem), addr - memoryBase, data[..sz][..Sent(sz)]))
        && dev.log == old(dev.log)
             + (if Accepts(addr, sz) then ProgramCommands(addr - memoryBase, sz, ChunksSent(sz)) else [])
    {
      hide PagedWrapping, Wrap, AllProper, Sent, ProgramCommands, ChunksSent;
      var sz := Wrap(cnt * 4);
      if addr < memoryBase || Wrap(addr + sz) > memoryBase + dmmSize {
        return ARM_DRIVER_ERROR_PARAMETER;
      }
      rc := SendChunks(addr - memoryBase, data[..sz]);
    }

    /** How much of a program reaches the flash: all of it, or only the first chunk if other status bits are set. */
    function Sent(sz: nat): (r: nat)
      ensures r <= sz
    {
      if dev.srOther == 0 || sz < PAGE then sz else PAGE
    }

    /** The number of chunks sent. */
    function ChunksSent(sz: nat): nat {
      if dev.srOther == 0 || sz == 0 then Chunks(sz) else 1
    }

    /** The chunk loop, from a device address that is already relative to the window. */
    method SendChunks(a: u32, data: seq<byte>) returns (rc: int)
      requires dev.Idle() && |data| < TWO32
      modifies dev
      ensures dev.Idle() && (old(AllProper(dev.log)) ==> AllProper(dev.log))
      ensures rc == if dev.srOther == 0 || data == [] then ARM_DRIVER_OK else ARM_DRIVER_ERROR
      ensures dev.mem == PagedWrapping(old(dev.mem), a, data[..Sent(|data|)])
      ensures dev.log == old(dev.log) + ProgramCommands(a, |data|, ChunksSent(|data|))
    {
      hide PagedWrapping, PageProgrammed, Wrap, AllProper, ProgramCommands, Chunks;
      var sz: u32, off: u32, from: nat := |data|, a, 0;
      ghost var m, k: nat, proper, log := dev.mem, 0, AllProper(dev.log), dev.log;
      NothingSent(m, a, data);
      ProgramCommandsNext(log, a, |data|, 0);
      while sz != 0
        invariant dev.Idle() && (proper ==> AllProper(dev.log))
        invariant from + (sz as int) == |data| && 0 <= (sz as int)
        invariant sz > 0 ==> from == PAGE * k
        invariant from > 0 ==> dev.srOther == 0
        invariant off == Wrap(a + from) && dev.mem == PagedWrapping(m, a, data[..from])
        invariant dev.log == log + ProgramCommands(a, |data|, k)
        invariant from <= PAGE * k && (k > 0 ==> PAGE * (k - 1) < from)
        decreases sz
      {
        var u32Len: u32 := sz;
        if u32Len > NVT_NVSPIM_PAGE_SIZE {
          u32Len := NVT_NVSPIM_PAGE_SIZE;
        }
        var to := from + u32Len;
        WrappingStep(m, a, data, k, from, to, off);
        ProgramCommandsNext(log, a, |data|, k);
        WrapAdd(a + from, u32Len);
        var ret := dev.Program(off, data[from..to]);
        if ret != 0 {
          return ARM_DRIVER_ERROR;
        }
        off := Wrap(off + u32Len);
        from := to;
        sz := sz - u32Len;
        k := k + 1;
      }
      ChunksIs(|data|, k);
      return ARM_DRIVER_OK;
    }

    lemma NothingSent(mem: seq<byte>, a: u32, data: seq<byte>)
      ensures PagedWrapping(mem, a, data[..0]) == mem && Wrap(a) == a
    {
      WrappingIsPaged(mem, a, data[..0]);
      PagedNothing(mem, a, data);
    }

    /** The first `n` bytes of a read in chunks from address a: each byte that the device has. */
    predicate Received(dst: array<byte>, at: nat, n: nat, a: u32)
      requires at + n <= dst.Length
      reads dst, dev`mem
    {
      forall t :: 0 <= t < n && ReadPosition(a, t) < |dev.mem| ==> dst[at + t] == dev.mem[ReadPosition(a, t)]
    }

    /** ARM_Flash_ReadData_SPIM. */
    method ReadData(addr: u32, dst: array<byte>, at: nat, cnt: u32) returns (rc: int)
      requires Valid() && dev.Idle() && at + Wrap(cnt * 4) <= dst.Length
      modifies dst, dev`log
      ensures old(AllProper(dev.log)) ==> AllProper(dev.log)
      ensures var sz := Wrap(cnt * 4);
        && (!Accepts(addr, sz) ==> rc == ARM_DRIVER_ERROR_PARAMETER && dst[..] == old(dst[..]))
        && (Accepts(addr, sz) ==> rc == ARM_DRIVER_OK)
        && (Accepts(addr, sz) ==> Received(dst, at, sz, addr - memoryBase))
        && dev.log == old(dev.log) + (if Accepts(addr, sz) then ReadCommands(addr - memoryBase, sz, Chunks(sz)) else [])
        && (forall j :: 0 <= j < dst.Length && !(at <= j < at + sz) ==> dst[j] == old(dst[j]))
    {
      hide Wrap, AllProper, ReadPosition, ReadCommands, Chunks;
      var total := Wrap(cnt * 4);
      if addr < memoryBase || Wrap(addr + total) > memoryBase + dmmSize {
        return ARM_DRIVER_ERROR_PARAMETER;
      }
      ghost var a, k: nat, log := addr - memoryBase, 0, dev.log;
      ReadCommandsNext(log, a, total, 0);
      var sz: u32, off: u32, dest: nat := total, addr - memoryBase, at;
      WrapId(a);
      while sz != 0
        invariant old(AllProper(dev.log)) ==> AllProper(dev.log)
        invariant (dest - at) + (sz as int) == total && 0 <= (sz as int) && dest >= at
        invariant sz > 0 ==> dest - at == PAGE * k
        invariant off == Wrap(a + (dest - at))
        invariant Received(dst, at, dest - at, a)
        invariant dev.log == log + ReadCommands(a, total, k)
        invariant dest - at <= PAGE * k && (k > 0 ==> PAGE * (k - 1) < dest - at)
        invariant forall j :: 0 <= j < dst.Length && !(at <= j < dest) ==> dst[j] == old(dst[j])
        decreases sz
      {
        var u32Len: u32 := sz;
        if u32Len > NVT_NVSPIM_PAGE_SIZE {
          u32Len := NVT_NVSPIM_PAGE_SIZE;
        }
        ReadCommandsNext(log, a, total, k);
        var rc0, data := dev.Read(off, u32Len);
        CopyData(dst, dest, data);
        WrapAdd(a + (dest - at), u32Len);
        forall t | dest - at <= t < dest - at + u32Len ensures ReadPosition(a, t) == off + (t - (dest - at)) {
          ReadPositionIn(a, dest - at, t - (dest - at));
        }
        off := Wrap(off + u32Len);
        dest := dest + u32Len;
        sz := sz - u32Len;
        k := k + 1;
      }
      ChunksIs(total, k);
      return ARM_DRIVER_OK;
    }

    method CopyData(dst: array<byte>, at: nat, data: seq<byte>)
      requires at + |data| <= dst.Length
      modifies dst
      ensures forall j :: at <= j < at + |data| ==> dst[j] == data[j - at]
      ensures forall j :: 0 <= j < dst.Length && !(at <= j < at + |data|) ==> dst[j] == old(dst[j])
    {
      for i := 0 to |data|
        invariant forall j :: at <= j < at + i ==> dst[j] == data[j - at]
        invariant forall j :: 0 <= j < dst.Length && !(at <= j < at + i) ==> dst[j] == old(dst[j])
      {
        dst[at + i] := data[i];
      }
    }

    /** ARM_Flash_EraseSector_SPIM: the address one past the window is still accepted. */
    method EraseSector(addr: u32) returns (rc: int)
      requires Valid() && dev.Idle()
      modifies dev
      ensures dev.Idle() && (old(AllProper(dev.log)) ==> AllProper(dev.log))
      ensures if addr < memoryBase || addr > memoryBase + dmmSize then
          rc == ARM_DRIVER_ERROR_PARAMETER && dev.mem == old(dev.mem) && dev.log == old(dev.log)
        else
          && rc == ARM_DRIVER_OK && dev.mem == BlockErased(old(dev.mem), addr - memoryBase)
          && dev.log == old(dev.log) + EraseCommands(addr - memoryBase)
    {
      hide BlockErased, EraseAddress, AllProper;
      if addr < memoryBase || addr > memoryBase + dmmSize {
        return ARM_DRIVER_ERROR_PARAMETER;
      }
      var ret := dev.Erase(addr - memoryBase);
      if ret != 0 {
        assert false;
        return ARM_DRIVER_ERROR;
      }
      return ARM_DRIVER_OK;
    }
  }
}
