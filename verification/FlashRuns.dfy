/** Finite sequences of area calls on one controller: the stack does what the flat specification does. */
module FlashRuns {
  import opened Bits
  import opened Words
  import opened FlatFlash
  import opened NvmController
  import opened FlashDriver
  import opened FlashAreaLayer
  import opened FlashMapExtended

  datatype Call =
    | Read(area: nat, off: u32, len: u32)
    | Write(area: nat, off: u32, src: seq<byte>)
    | Erase(area: nat, off: u32, len: u32)
    | IsEmpty(area: nat, off: u32, len: u32)

  // ---------------------------------------------------------------- the flat specification of a run

  predicate ValidCalls(n: nat, calls: seq<Call>) {
    forall i :: 0 <= i < |calls| ==> calls[i].area < n && (calls[i].Write? ==> |calls[i].src| < TWO32)
  }

  predicate ValidExtents(extents: seq<Extent>, size: nat) {
    forall i :: 0 <= i < |extents| ==> extents[i].off + extents[i].size <= size && extents[i].sector > 0
  }

  function FlatStep(f: Flat, c: Config, e: Extent, call: Call): (Flat, Reply)
    requires c.pu > 0 && e.sector > 0 && e.off + e.size <= |f.mem|
  {
    match call
    case Read(_, off, len) => FlatRead(f, c.fault, e, off, len)
    case Write(_, off, src) =>
      var (g, rc) := FlatWrite(f, c, e, off, src);
      (g, Reply(rc, []))
    case Erase(_, off, len) =>
      var (g, rc) := FlatErase(f, c.fault, e, off, len);
      (g, Reply(rc, []))
    case IsEmpty(_, off, len) =>
      FlatIsEmpty(f, c.fault, e, off, len)
  }

  lemma StepKeepsSize(f: Flat, c: Config, e: Extent, call: Call)
    requires c.pu > 0 && e.sector > 0 && e.off + e.size <= |f.mem|
    ensures |FlatStep(f, c, e, call).0.mem| == |f.mem|
  {
  }

  function FlatRun(f: Flat, c: Config, extents: seq<Extent>, calls: seq<Call>): (Flat, seq<Reply>)
    requires c.pu > 0 && ValidExtents(extents, |f.mem|) && ValidCalls(|extents|, calls)
    decreases |calls|
  {
    if calls == [] then (f, [])
    else
      var (g, r) := FlatStep(f, c, extents[calls[0].area], calls[0]);
      StepKeepsSize(f, c, extents[calls[0].area], calls[0]);
      var (h, rs) := FlatRun(g, c, extents, calls[1..]);
      (h, [r] + rs)
  }

  // ---------------------------------------------------------------- the stack refines it

  /** Areas of one flash map on one controller. */
  predicate ValidMap(areas: seq<FlashArea>, nvmc: Nvmc, pu: u32)
    reads set i | 0 <= i < |areas| :: areas[i].driver.nvmc
  {
    forall i :: 0 <= i < |areas| ==> areas[i].driver.nvmc == nvmc && ValidArea(areas[i], pu)
  }

  function Extents(areas: seq<FlashArea>): (r: seq<Extent>)
    ensures |r| == |areas|
    ensures forall i :: 0 <= i < |areas| ==> r[i] == ExtentOf(areas[i])
  {
    seq(|areas|, i requires 0 <= i < |areas| => ExtentOf(areas[i]))
  }

  /** One call through the stack. */
  method StackStep(area: FlashArea, pu: u32, call: Call) returns (reply: Reply)
    requires ValidArea(area, pu) && (call.Write? ==> |call.src| < TWO32)
    requires ExtentOf(area).sector > 0 && area.off + area.size <= |area.driver.nvmc.mem|
    modifies area.driver.nvmc`mem, area.driver.nvmc`tick
    ensures (area.driver.nvmc.State(), reply)
         == FlatStep(old(area.driver.nvmc.State()), ConfigOf(area, pu), ExtentOf(area), call)
  {
    hide Driver.Valid, FlatRead, FlatWrite, FlatErase, FlatIsEmpty, Driver.End;
    ValidIsReadable(area, pu);
    match call
    case Read(_, off, len) =>
      var dst := new byte[len];
      ReadReply(area.driver.nvmc.State(), area.driver.nvmc.fault, ExtentOf(area), off, len);
      var rc := FlashAreaRead(area, off, dst, len);
      reply := Reply(rc, if rc == 0 then dst[..] else []);
      assert dst[..len] == dst[..];
    case Write(_, off, src) =>
      var rc := FlashAreaWrite(area, pu, off, src);
      reply := Reply(rc, []);
    case Erase(_, off, len) =>
      var rc := FlashAreaErase(area, off, len);
      reply := Reply(rc, []);
    case IsEmpty(_, off, len) =>
      var dst := new byte[len];
      ErasedVal(area, pu);
      EmptyReply(area.driver.nvmc.State(), area.driver.nvmc.fault, ExtentOf(area), off, len);
      var rc := FlashAreaReadIsEmpty(area, off, dst, len);
      reply := Reply(rc, if rc >= 0 then dst[..] else []);
      assert dst[..len] == dst[..];
  }

  lemma ReadReply(f: Flat, fault: Schedule, e: Extent, off: nat, len: nat)
    requires e.off + e.size <= |f.mem|
    ensures FlatRead(f, fault, e, off, len).1.rc != 0 ==> FlatRead(f, fault, e, off, len).1.data == []
  {
  }

  lemma EmptyReply(f: Flat, fault: Schedule, e: Extent, off: nat, len: nat)
    requires e.off + e.size <= |f.mem|
    ensures FlatIsEmpty(f, fault, e, off, len).1.rc < 0 ==> FlatIsEmpty(f, fault, e, off, len).1.data == []
  {
  }

  lemma ErasedVal(area: FlashArea, pu: u32)
    requires ValidArea(area, pu)
    ensures FlashAreaErasedVal(area) == ERASED
  {
  }

  lemma MapFacts(areas: seq<FlashArea>, nvmc: Nvmc, pu: u32)
    requires ValidMap(areas, nvmc, pu)
    ensures ValidExtents(Extents(areas), |nvmc.mem|)
  {
    hide Driver.Valid, Driver.End;
    forall i | 0 <= i < |areas| ensures areas[i].off + areas[i].size <= |nvmc.mem| && ExtentOf(areas[i]).sector > 0 {
      ValidIsReadable(areas[i], pu);
      EndFacts(areas[i].driver);
    }
  }

  /** Every finite run of area calls, with any offsets and lengths and any failing device operations, gives the
      replies, the flash content and the operation count of the flat specification. */
  method RunStack(areas: seq<FlashArea>, nvmc: Nvmc, pu: u32, calls: seq<Call>) returns (replies: seq<Reply>)
    requires ValidMap(areas, nvmc, pu) && ValidCalls(|areas|, calls) && pu > 0
    modifies nvmc`mem, nvmc`tick
    ensures ValidExtents(Extents(areas), |old(nvmc.mem)|)
    ensures (nvmc.State(), replies)
         == FlatRun(old(nvmc.State()), Config(pu, nvmc.kind, nvmc.fault), Extents(areas), calls)
  {
    hide FlatStep, FlatRun, Prepend, ValidAreaFor;
    MapFacts(areas, nvmc, pu);
    ghost var c, es, f := Config(pu, nvmc.kind, nvmc.fault), Extents(areas), nvmc.State();
    ghost var rest := calls;
    replies := [];
    PrependNone(FlatRun(f, c, es, calls));
    var i := 0;
    while i < |calls|
      invariant 0 <= i <= |calls| && rest == calls[i..]
      invariant |nvmc.mem| == |f.mem| && ValidMap(areas, nvmc, pu)
      invariant ValidCalls(|es|, rest)
      invariant FlatRun(f, c, es, calls) == Prepend(replies, FlatRun(nvmc.State(), c, es, rest))
    {
      assert rest[0] == calls[i];
      RunUnfolds(nvmc.State(), c, es, rest, replies);
      var area := areas[calls[i].area];
      var reply := StackStep(area, pu, calls[i]);
      replies := replies + [reply];
      rest := rest[1..];
      i := i + 1;
    }
    RunEnds(nvmc.State(), c, es, rest, replies);
  }

  /** The replies so far in front of a run. */
  function Prepend(replies: seq<Reply>, run: (Flat, seq<Reply>)): (Flat, seq<Reply>) {
    (run.0, replies + run.1)
  }

  lemma PrependNone(run: (Flat, seq<Reply>))
    ensures Prepend([], run) == run
  {
    assert [] + run.1 == run.1;
  }

  lemma RunUnfolds(f: Flat, c: Config, es: seq<Extent>, calls: seq<Call>, replies: seq<Reply>)
    requires c.pu > 0 && ValidExtents(es, |f.mem|) && ValidCalls(|es|, calls) && calls != []
    ensures ValidCalls(|es|, calls[1..])
    ensures var (g, r) := FlatStep(f, c, es[calls[0].area], calls[0]);
      && |g.mem| == |f.mem|
      && Prepend(replies, FlatRun(f, c, es, calls)) == Prepend(replies + [r], FlatRun(g, c, es, calls[1..]))
  {
    hide FlatStep;
    var (g, r) := FlatStep(f, c, es[calls[0].area], calls[0]);
    StepKeepsSize(f, c, es[calls[0].area], calls[0]);
    assert replies + ([r] + FlatRun(g, c, es, calls[1..]).1) == (replies + [r]) + FlatRun(g, c, es, calls[1..]).1;
  }

  lemma RunEnds(f: Flat, c: Config, es: seq<Extent>, calls: seq<Call>, replies: seq<Reply>)
    requires c.pu > 0 && ValidExtents(es, |f.mem|) && ValidCalls(|es|, calls) && calls == []
    ensures Prepend(replies, FlatRun(f, c, es, calls)) == (f, replies)
  {
    assert replies + [] == replies;
  }
}
