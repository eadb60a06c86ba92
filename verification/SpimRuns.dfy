/** Finite sequences of calls of the serial driver: content, commands and replies. */
module SpimRuns {
  import opened Bits
  import opened Words
  import opened FlatFlash
  import opened FlashDriver
  import opened SpimNor
  import opened SpimDriver

  // ---------------------------------------------------------------- runs

  datatype SpimCall =
    | SpimRead(addr: u32, cnt: u32)
    | SpimProgram(addr: u32, data: seq<byte>, cnt: u32)
    | SpimErase(addr: u32)

  datatype SpimReply = SpimReply(rc: int, data: seq<byte>)

  /** What a run leaves: the content, and the commands sent so far. */
  datatype Spim = Spim(mem: seq<byte>, log: seq<Command>)

  predicate ValidSpimCalls(calls: seq<SpimCall>) {
    forall i :: 0 <= i < |calls| && calls[i].SpimProgram? ==> Wrap(calls[i].cnt * 4) <= |calls[i].data|
  }

  /** Content and commands after one driver call. */
  function SpimEffect(driver: SpimFlash, s: Spim, call: SpimCall): Spim
    requires driver.Valid() && (call.SpimProgram? ==> Wrap(call.cnt * 4) <= |call.data|)
  {
    match call
    case SpimRead(addr, cnt) =>
      var sz := Wrap(cnt * 4);
      if !driver.Accepts(addr, sz) then s
      else Spim(s.mem, s.log + ReadCommands(addr - driver.memoryBase, sz, Chunks(sz)))
    case SpimProgram(addr, data, cnt) =>
      var sz := Wrap(cnt * 4);
      if !driver.Accepts(addr, sz) then s
      else
        var a := addr - driver.memoryBase;
        Spim(PagedWrapping(s.mem, a, data[..sz][..driver.Sent(sz)]),
             s.log + ProgramCommands(a, sz, driver.ChunksSent(sz)))
    case SpimErase(addr) =>
      if addr < driver.memoryBase || addr > driver.memoryBase + driver.dmmSize then s
      else
        Spim(BlockErased(s.mem, addr - driver.memoryBase), s.log + EraseCommands(addr - driver.memoryBase))
  }

  /** The return code of a driver call; it does not depend on the content. */
  function SpimCode(driver: SpimFlash, call: SpimCall): int
    requires driver.Valid()
  {
    match call
    case SpimRead(addr, cnt) =>
      if driver.Accepts(addr, Wrap(cnt * 4)) then ARM_DRIVER_OK else ARM_DRIVER_ERROR_PARAMETER
    case SpimProgram(addr, _, cnt) =>
      if !driver.Accepts(addr, Wrap(cnt * 4)) then ARM_DRIVER_ERROR_PARAMETER
      else if driver.dev.srOther == 0 || Wrap(cnt * 4) == 0 then ARM_DRIVER_OK
      else ARM_DRIVER_ERROR
    case SpimErase(addr) =>
      if addr < driver.memoryBase || addr > driver.memoryBase + driver.dmmSize then ARM_DRIVER_ERROR_PARAMETER
      else ARM_DRIVER_OK
  }

  /** Code and bytes of a reply, over the content at the call. */
  predicate SpimReplyMeans(driver: SpimFlash, mem: seq<byte>, call: SpimCall, reply: SpimReply)
    requires driver.Valid()
  {
    && reply.rc == SpimCode(driver, call)
    && (call.SpimRead? && reply.rc == ARM_DRIVER_OK ==>
          && |reply.data| == Wrap(call.cnt * 4)
          && forall t :: 0 <= t < |reply.data| && ReadPosition(call.addr - driver.memoryBase, t) < |mem| ==>
               reply.data[t] == mem[ReadPosition(call.addr - driver.memoryBase, t)])
  }

  /** Content and commands after a run. */
  function SpimFold(driver: SpimFlash, s: Spim, calls: seq<SpimCall>): Spim
    requires driver.Valid() && ValidSpimCalls(calls)
    decreases |calls|
  {
    if calls == [] then s
    else
      var n := |calls| - 1;
      SpimEffect(driver, SpimFold(driver, s, calls[..n]), calls[n])
  }

  /** One driver call. */
  method SpimCallStep(driver: SpimFlash, call: SpimCall) returns (reply: SpimReply)
    requires driver.Valid() && driver.dev.Idle() && (call.SpimProgram? ==> Wrap(call.cnt * 4) <= |call.data|)
    modifies driver.dev
    ensures driver.dev.Idle()
    ensures Spim(driver.dev.mem, driver.dev.log)
         == SpimEffect(driver, Spim(old(driver.dev.mem), old(driver.dev.log)), call)
    ensures SpimReplyMeans(driver, old(driver.dev.mem), call, reply)
  {
    hide Wrap, SpimFlash.Accepts, AllProper, PagedWrapping, BlockErased, ReadPosition, ReadCommands, ProgramCommands,
      EraseCommands, Chunks, SpimFlash.Sent, SpimFlash.ChunksSent;
    ghost var log := driver.dev.log;
    assert log + [] == log;
    match call
    case SpimRead(addr, cnt) =>
      var dst := new byte[Wrap(cnt * 4)];
      var rc := driver.ReadData(addr, dst, 0, cnt);
      reply := SpimReply(rc, dst[..]);
    case SpimProgram(addr, data, cnt) =>
      var rc := driver.ProgramData(addr, data, cnt);
      reply := SpimReply(rc, []);
    case SpimErase(addr) =>
      var rc := driver.EraseSector(addr);
      reply := SpimReply(rc, []);
  }

  /** Every run of driver calls that starts on an idle device leaves the content and has sent the commands that its
      calls ask for, in order, and gives their replies. The device is idle between calls. */
  method RunSpim(driver: SpimFlash, calls: seq<SpimCall>) returns (replies: seq<SpimReply>)
    requires driver.Valid() && driver.dev.Idle() && ValidSpimCalls(calls)
    modifies driver.dev
    ensures driver.dev.Idle()
    ensures Spim(driver.dev.mem, driver.dev.log)
         == SpimFold(driver, Spim(old(driver.dev.mem), old(driver.dev.log)), calls)
    ensures |replies| == |calls|
      && RepliesMean(driver, Spim(old(driver.dev.mem), old(driver.dev.log)), calls, replies)
    ensures old(AllProper(driver.dev.log)) ==> AllProper(driver.dev.log)
  {
    hide Wrap, AllProper, SpimEffect, SpimReplyMeans, SpimFold, ValidSpimCalls, RepliesMean;
    ghost var s := Spim(driver.dev.mem, driver.dev.log);
    replies := [];
    FoldNone(driver, s, calls);
    for i := 0 to |calls|
      invariant driver.dev.Idle() && |replies| == i
      invariant ValidSpimCalls(calls[..i]) && RepliesMean(driver, s, calls, replies)
      invariant Spim(driver.dev.mem, driver.dev.log) == SpimFold(driver, s, calls[..i])
    {
      CallsValid(calls, i);
      var reply := SpimCallStep(driver, calls[i]);
      FoldNext(driver, s, calls, i);
      RepliesNext(driver, s, calls, replies, reply);
      replies := replies + [reply];
    }
    assert calls[..|calls|] == calls;
    FoldProper(driver, s, calls);
  }

  /** Each reply is that of its call over the content that the calls before it left. */
  predicate RepliesMean(driver: SpimFlash, s: Spim, calls: seq<SpimCall>, replies: seq<SpimReply>)
    requires driver.Valid() && ValidSpimCalls(calls) && |replies| <= |calls|
  {
    forall i :: 0 <= i < |replies| ==>
      SpimReplyMeans(driver, SpimFold(driver, s, calls[..i]).mem, calls[i], replies[i])
  }

  lemma CallsValid(calls: seq<SpimCall>, i: nat)
    requires ValidSpimCalls(calls) && i < |calls|
    ensures ValidSpimCalls(calls[..i]) && ValidSpimCalls(calls[..i + 1])
    ensures calls[i].SpimProgram? ==> Wrap(calls[i].cnt * 4) <= |calls[i].data|
  {
  }

  lemma RepliesNext(driver: SpimFlash, s: Spim, calls: seq<SpimCall>, replies: seq<SpimReply>, reply: SpimReply)
    requires driver.Valid() && ValidSpimCalls(calls) && |replies| < |calls|
    requires RepliesMean(driver, s, calls, replies)
    requires SpimReplyMeans(driver, SpimFold(driver, s, calls[..|replies|]).mem, calls[|replies|], reply)
    ensures RepliesMean(driver, s, calls, replies + [reply])
  {
    hide SpimReplyMeans, SpimFold;
  }

  lemma FoldNone(driver: SpimFlash, s: Spim, calls: seq<SpimCall>)
    requires driver.Valid() && ValidSpimCalls(calls)
    ensures ValidSpimCalls(calls[..0]) && SpimFold(driver, s, calls[..0]) == s && RepliesMean(driver, s, calls, [])
  {
  }

  lemma FoldNext(driver: SpimFlash, s: Spim, calls: seq<SpimCall>, i: nat)
    requires driver.Valid() && ValidSpimCalls(calls) && i < |calls|
    ensures SpimFold(driver, s, calls[..i + 1]) == SpimEffect(driver, SpimFold(driver, s, calls[..i]), calls[i])
  {
    hide SpimEffect;
    assert calls[..i + 1][..i] == calls[..i];
  }

  /** Every command of a run reaches an idle device, and every program and erase finds the latch set. */
  lemma {:induction false} FoldProper(driver: SpimFlash, s: Spim, calls: seq<SpimCall>)
    requires driver.Valid() && ValidSpimCalls(calls)
    ensures AllProper(s.log) ==> AllProper(SpimFold(driver, s, calls).log)
    decreases |calls|
  {
    hide SpimEffect, AllProper;
    if calls != [] {
      var n := |calls| - 1;
      FoldProper(driver, s, calls[..n]);
      EffectProper(driver, SpimFold(driver, s, calls[..n]), calls[n]);
    }
  }

  lemma EffectProper(driver: SpimFlash, s: Spim, call: SpimCall)
    requires driver.Valid() && (call.SpimProgram? ==> Wrap(call.cnt * 4) <= |call.data|)
    ensures AllProper(s.log) ==> AllProper(SpimEffect(driver, s, call).log)
  {
    hide Wrap, AllProper, PagedWrapping, BlockErased, ReadCommands, ProgramCommands, EraseCommands, Chunks,
      SpimFlash.Accepts, SpimFlash.Sent, SpimFlash.ChunksSent;
    match call
    case SpimErase(addr) =>
      if driver.memoryBase <= addr {
        var a: nat := addr - driver.memoryBase;
        CommandsProper(a, 0, 0);
        ProperJoin(s.log, EraseCommands(a));
      }
    case SpimRead(addr, cnt) =>
      if driver.Accepts(addr, Wrap(cnt * 4)) {
        WindowStart(driver, addr, Wrap(cnt * 4));
        var a, n: nat := addr - driver.memoryBase, Wrap(cnt * 4);
        CommandsProper(a, n, Chunks(n));
        ProperJoin(s.log, ReadCommands(a, n, Chunks(n)));
      }
    case SpimProgram(addr, data, cnt) =>
      if driver.Accepts(addr, Wrap(cnt * 4)) {
        WindowStart(driver, addr, Wrap(cnt * 4));
        var a, n: nat := addr - driver.memoryBase, Wrap(cnt * 4);
        CommandsProper(a, n, driver.ChunksSent(n));
        ProperJoin(s.log, ProgramCommands(a, n, driver.ChunksSent(n)));
      }
  }

  lemma WindowStart(driver: SpimFlash, addr: u32, sz: u32)
    requires driver.Valid() && driver.Accepts(addr, sz)
    ensures driver.memoryBase <= addr
  {
  }

  lemma ProperJoin(l1: seq<Command>, l2: seq<Command>)
    requires AllProper(l2)
    ensures AllProper(l1) ==> AllProper(l1 + l2)
  {
  }

  // ---------------------------------------------------------------- what a run does, call by call

  /** Every call of a run, from the state the calls before it left: a read leaves the content and sends one command
      per chunk; a program that is accepted puts its chunks in order and sends two commands per chunk; an erase in the
      window, or one past it, clears the 4 KiB block of its 24 address bits. A refused call does nothing. */
  lemma EverySpimCall(driver: SpimFlash, s: Spim, calls: seq<SpimCall>, i: nat, x: nat)
    requires driver.Valid() && ValidSpimCalls(calls) && i < |calls| && x < |s.mem|
    ensures SpimFold(driver, s, []) == s
    ensures var before, after := SpimFold(driver, s, calls[..i]), SpimFold(driver, s, calls[..i + 1]);
      && |before.mem| == |after.mem| == |s.mem|
      && match calls[i]
         case SpimRead(addr, cnt) =>
           var sz := Wrap(cnt * 4);
           && after.mem == before.mem
           && after.log == before.log + if !InWindow32(driver, addr, sz) then [] else
                ReadCommands(addr - driver.memoryBase, sz, Chunks(sz))
         case SpimProgram(addr, data, cnt) =>
           var sz := Wrap(cnt * 4);
           if !InWindow32(driver, addr, sz) then after == before
           else
             var a, clean := addr - driver.memoryBase, driver.dev.srOther == 0;
             && after.log == before.log +
                  ProgramCommands(a, sz, if clean || sz == 0 then Chunks(sz) else 1)
             && after.mem[x] == SentByte(before.mem[x], a, data[..if clean || sz < PAGE then sz else PAGE], x)
         case SpimErase(addr) =>
           if addr < driver.memoryBase || addr > driver.memoryBase + driver.dmmSize then after == before
           else
             var a := addr - driver.memoryBase;
             && after.log == before.log + [WriteEnable(false), SectorErase(a % 0x100_0000, true, false)]
             && after.mem[x] == if a % 0x100_0000 / BLOCK == x / BLOCK then ERASED else before.mem[x]
  {
    hide Wrap, AllProper, PagedWrapping, ReadCommands, ProgramCommands, Chunks, SpimFlash.Accepts, SentByte,
      BlockErased;
    FoldNext(driver, s, calls, i);
    FoldKeepsSize(driver, s, calls[..i]);
    FoldKeepsSize(driver, s, calls[..i + 1]);
    var before := SpimFold(driver, s, calls[..i]);
    match calls[i]
    case SpimRead(addr, cnt) => driver.AcceptsIff(addr, Wrap(cnt * 4));
    case SpimProgram(addr, data, cnt) =>
      var sz := Wrap(cnt * 4);
      driver.AcceptsIff(addr, sz);
      if driver.Accepts(addr, sz) {
        ProgramAt(before.mem, addr - driver.memoryBase, data[..sz][..driver.Sent(sz)], x);
        assert data[..sz][..driver.Sent(sz)] == data[..driver.Sent(sz)];
      }
    case SpimErase(addr) =>
      if driver.memoryBase <= addr {
        BlockAt(before.mem, addr - driver.memoryBase, x);
      }
  }

  /** The range check, over the sum that has lost its bits from 32 on. */
  predicate InWindow32(driver: SpimFlash, addr: u32, sz: u32) {
    var end := if addr + sz < TWO32 then addr + sz else addr + sz - TWO32;
    driver.memoryBase <= addr && end <= driver.memoryBase + driver.dmmSize
  }

  /** The byte at x after `data` is sent in chunks from address a, each into the page of its address. */
  function PagedValue(was: byte, a: nat, data: seq<byte>, x: nat): byte {
    if a / PAGE <= x / PAGE && PagedIndex(a, x) < |data| then was & data[PagedIndex(a, x)] else was
  }

  /** The same if the chunk address may wrap past 2^32. */
  function SentByte(was: byte, a: u32, data: seq<byte>, x: nat): byte {
    BeforeWrapIs(a);
    var w := BeforeWrap(a);
    if |data| <= w then PagedValue(was, a, data, x)
    else PagedValue(PagedValue(was, a, data[..w], x), a + w - TWO32, data[w..], x)
  }

  lemma ProgramAt(mem: seq<byte>, a: u32, data: seq<byte>, x: nat)
    requires x < |mem|
    ensures PagedWrapping(mem, a, data)[x] == SentByte(mem[x], a, data, x)
  {
    hide Paged, BeforeWrap, PagedWrapping, PagedValue;
    BeforeWrapIs(a);
    if |data| <= BeforeWrap(a) {
      WrappingWithin(mem, a, data);
      PagedAt(mem, a, data, x);
    } else {
      ProgramBeyond(mem, a, data, x);
    }
  }

  lemma ProgramBeyond(mem: seq<byte>, a: u32, data: seq<byte>, x: nat)
    requires x < |mem| && BeforeWrap(a) < |data|
    ensures PagedWrapping(mem, a, data)[x] == SentByte(mem[x], a, data, x)
  {
    hide Paged, BeforeWrap, PagedWrapping, PagedValue, PagedAround;
    BeforeWrapIs(a);
    var w := BeforeWrap(a);
    WrappingIs(mem, a, data);
    AroundBeyond(mem, a, data, w);
    PagedAt(mem, a, data[..w], x);
    PagedAt(Paged(mem, a, data[..w]), a + w - TWO32, data[w..], x);
  }

  lemma PagedAt(mem: seq<byte>, a: nat, data: seq<byte>, x: nat)
    requires x < |mem|
    ensures Paged(mem, a, data)[x] == PagedValue(mem[x], a, data, x)
  {
  }

  lemma BlockAt(mem: seq<byte>, a: nat, x: nat)
    requires x < |mem|
    ensures BlockErased(mem, a)[x] == if a % 0x100_0000 / BLOCK == x / BLOCK then ERASED else mem[x]
  {
  }

  lemma {:induction false} FoldKeepsSize(driver: SpimFlash, s: Spim, calls: seq<SpimCall>)
    requires driver.Valid() && ValidSpimCalls(calls)
    ensures |SpimFold(driver, s, calls).mem| == |s.mem|
    decreases |calls|
  {
    if calls != [] {
      FoldKeepsSize(driver, s, calls[..|calls| - 1]);
    }
  }
}
