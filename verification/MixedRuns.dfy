/**
Finite sequences of area calls on a flash map whose areas lie on two devices: on-chip areas behind the flash
controller, and areas on the serial flash, as for a secondary slot in serial flash. The stack does what the flat
specification of the two devices does.
*/
module MixedRuns {
  import opened Bits
  import opened Words
  import opened FlatFlash
  import opened FlashRuns
  import opened NvmController
  import opened FlashAreaLayer
  import opened SpimNor
  import opened SpimDriver
  import opened SpimAreaLayer

  // ---------------------------------------------------------------- the flat specification

  /** Reply and content of one call on the serial flash; `clean` if the device has no other status bit set. */
  function SerialStep(mem: seq<byte>, clean: bool, pu: nat, e: Extent, call: Call): (seq<byte>, Reply)
    requires pu > 0 && e.off + e.size <= |mem|
  {
    match call
    case Read(_, off, len) =>
      (mem, if off + len > e.size then Reply(-1, []) else Reply(0, mem[e.off + off..e.off + off + len]))
    case Write(_, off, src) =>
      var (m, rc) := SpimWrite(mem, clean, pu, e, off, src);
      (m, Reply(rc, []))
    case Erase(_, off, len) =>
      if off + len > e.size then (mem, Reply(-1, [])) else (AreaErased(mem, e.off + off, len), Reply(0, []))
    case IsEmpty(_, off, len) =>
      (mem, if off + len > e.size then Reply(-1, [])
            else
              Reply(if forall x :: e.off + off <= x < e.off + off + len ==> mem[x] == ERASED then 1 else 0,
                    mem[e.off + off..e.off + off + len]))
  }

  lemma SerialStepKeepsSize(mem: seq<byte>, clean: bool, pu: nat, e: Extent, call: Call)
    requires pu > 0 && e.off + e.size <= |mem|
    ensures |SerialStep(mem, clean, pu, e, call).0| == |mem|
  {
  }

  /** A call on an on-chip area or on a serial one; its area counts among those of its kind. */
  datatype MixedCall = OnChip(call: Call) | OnSerial(call: Call)

  /** What the specification knows of the map: the on-chip areas, the serial ones and the state of the serial device's
      other status bits. */
  datatype Board = Board(c: Config, chips: seq<Extent>, serials: seq<Extent>, clean: bool)

  datatype Mixed = Mixed(chip: Flat, serial: seq<byte>)

  predicate ValidBoard(b: Board, s: Mixed) {
    && b.c.pu > 0 && ValidExtents(b.chips, |s.chip.mem|) && ValidExtents(b.serials, |s.serial|)
  }

  predicate ValidCall(b: Board, call: MixedCall) {
    && call.call.area < (if call.OnChip? then |b.chips| else |b.serials|)
    && (call.call.Write? ==> |call.call.src| < TWO32)
  }

  predicate ValidMixed(b: Board, calls: seq<MixedCall>) {
    forall i :: 0 <= i < |calls| ==> ValidCall(b, calls[i])
  }

  function MixedStep(s: Mixed, b: Board, call: MixedCall): (Mixed, Reply)
    requires ValidBoard(b, s) && ValidCall(b, call)
  {
    match call
    case OnChip(k) =>
      var (g, r) := FlatStep(s.chip, b.c, b.chips[k.area], k);
      (Mixed(g, s.serial), r)
    case OnSerial(k) =>
      var (m, r) := SerialStep(s.serial, b.clean, b.c.pu, b.serials[k.area], k);
      (Mixed(s.chip, m), r)
  }

  lemma MixedStepKeepsBoard(s: Mixed, b: Board, call: MixedCall)
    requires ValidBoard(b, s) && ValidCall(b, call)
    ensures ValidBoard(b, MixedStep(s, b, call).0)
    ensures |MixedStep(s, b, call).0.chip.mem| == |s.chip.mem| && |MixedStep(s, b, call).0.serial| == |s.serial|
  {
    hide FlatStep, SerialStep;
    match call
    case OnChip(k) => StepKeepsSize(s.chip, b.c, b.chips[k.area], k);
    case OnSerial(k) => SerialStepKeepsSize(s.serial, b.clean, b.c.pu, b.serials[k.area], k);
  }

  function MixedRun(s: Mixed, b: Board, calls: seq<MixedCall>): (Mixed, seq<Reply>)
    requires ValidBoard(b, s) && ValidMixed(b, calls)
    decreases |calls|
  {
    if calls == [] then (s, [])
    else
      var (s1, r) := MixedStep(s, b, calls[0]);
      MixedStepKeepsBoard(s, b, calls[0]);
      var (s2, rs) := MixedRun(s1, b, calls[1..]);
      (s2, [r] + rs)
  }

  // ---------------------------------------------------------------- the stack refines it

  /** Serial areas of one flash map on one device. */
  predicate ValidSerialMap(areas: seq<SpimArea>, dev: Nor, pu: u32)
    reads dev, set i | 0 <= i < |areas| :: areas[i].driver.dev
  {
    forall i :: 0 <= i < |areas| ==> areas[i].driver.dev == dev && UnitArea(areas[i], pu) && Erasable(areas[i])
  }

  /** The counter of the erase loop does not wrap. */
  predicate Erasable(area: SpimArea) {
    area.size <= TWO32 - NVT_NVSPIM_SECTOR_SIZE
  }

  function SerialExtents(areas: seq<SpimArea>): (r: seq<Extent>)
    requires forall i :: 0 <= i < |areas| ==> ValidSpimArea(areas[i])
    ensures |r| == |areas|
    ensures forall i :: 0 <= i < |areas| ==> r[i] == SpimExtent(areas[i])
  {
    seq(|areas|, i requires 0 <= i < |areas| => SpimExtent(areas[i]))
  }

  /** One call through the area layer and the serial driver. */
  method SpimStep(area: SpimArea, pu: u32, call: Call) returns (reply: Reply)
    requires UnitArea(area, pu) && Erasable(area) && area.driver.dev.Idle() && (call.Write? ==> |call.src| < TWO32)
    modifies area.driver.dev
    ensures area.driver.dev.Idle() && KeepsProper(old(area.driver.dev.log), area.driver.dev.log)
    ensures pu > 0 && |area.driver.dev.mem| == |old(area.driver.dev.mem)|
    ensures (area.driver.dev.mem, reply)
         == SerialStep(old(area.driver.dev.mem), area.driver.dev.srOther == 0, pu, SpimExtent(area), call)
  {
    hide AllProper, SpimWrite, AreaErased, UnitArea, ItemArea, SpimHolds;
    UnitItemArea(area, pu);
    UnitPositive(area, pu);
    match call
    case Read(_, off, len) =>
      var dst := new byte[len];
      var rc := SpimAreaRead(area, off, dst, len);
      reply := Reply(rc, if rc == 0 then dst[..] else []);
      if rc == 0 {
        HoldsAll(area, dst, off);
      }
    case Write(_, off, src) =>
      var rc := SpimAreaWrite(area, pu, off, src);
      reply := Reply(rc, []);
    case Erase(_, off, len) =>
      var rc := SpimAreaErase(area, off, len);
      reply := Reply(rc, []);
    case IsEmpty(_, off, len) =>
      var dst := new byte[len];
      var rc := SpimAreaReadIsEmpty(area, off, dst, len);
      reply := Reply(rc, if rc >= 0 then dst[..] else []);
      if rc >= 0 {
        HoldsAll(area, dst, off);
      }
  }

  lemma HoldsAll(area: SpimArea, dst: array<byte>, off: nat)
    requires ValidSpimArea(area) && SpimHolds(area, dst, off, dst.Length)
    ensures var at := Base(area) + off;
      at + dst.Length <= |area.driver.dev.mem| && dst[..] == area.driver.dev.mem[at..at + dst.Length]
  {
  }

  lemma UnitPositive(area: SpimArea, pu: u32)
    requires UnitArea(area, pu)
    ensures pu > 0 && ValidSpimArea(area) && Base(area) + area.size <= |area.driver.dev.mem|
  {
  }

  predicate ValidMaps(areas: seq<FlashArea>, nvmc: Nvmc, serials: seq<SpimArea>, dev: Nor, pu: u32)
    reads set i | 0 <= i < |areas| :: areas[i].driver.nvmc
    reads dev, set i | 0 <= i < |serials| :: serials[i].driver.dev
  {
    pu > 0 && ValidMap(areas, nvmc, pu) && ValidSerialMap(serials, dev, pu)
  }

  /** Every finite run of area calls on the two devices, with any offsets and lengths and any failing operations of the
      controller, gives the replies and the content of the flat specification, and follows the serial protocol. */
  method RunMixed(areas: seq<FlashArea>, nvmc: Nvmc, serials: seq<SpimArea>, dev: Nor, pu: u32, calls: seq<MixedCall>,
                  ghost b: Board)
    returns (replies: seq<Reply>)
    requires ValidMaps(areas, nvmc, serials, dev, pu) && dev.Idle()
    requires b == Board(Config(pu, nvmc.kind, nvmc.fault), Extents(areas), SerialExtents(serials), dev.srOther == 0)
    requires ValidMixed(b, calls)
    modifies nvmc`mem, nvmc`tick, dev
    ensures dev.Idle() && KeepsProper(old(dev.log), dev.log)
    ensures ValidBoard(b, Mixed(old(nvmc.State()), old(dev.mem)))
    ensures (Mixed(nvmc.State(), dev.mem), replies) == MixedRun(Mixed(old(nvmc.State()), old(dev.mem)), b, calls)
  {
    hide MixedStep, MixedRun, PrependMixed, ValidAreaFor, UnitArea, AllProper, FlatStep, SerialStep;
    BoardFacts(areas, nvmc, serials, dev, pu, b);
    ghost var s, rest := Mixed(nvmc.State(), dev.mem), calls;
    replies := [];
    PrependMixedNone(MixedRun(s, b, calls));
    var i := 0;
    while i < |calls|
      invariant 0 <= i <= |calls| && rest == calls[i..] && ValidMixed(b, rest)
      invariant ValidMaps(areas, nvmc, serials, dev, pu) && dev.Idle() && KeepsProper(old(dev.log), dev.log)
      invariant ValidBoard(b, Mixed(nvmc.State(), dev.mem))
      invariant MixedRun(s, b, calls) == PrependMixed(replies, MixedRun(Mixed(nvmc.State(), dev.mem), b, rest))
    {
      assert rest[0] == calls[i] && ValidCall(b, rest[0]);
      MixedUnfolds(Mixed(nvmc.State(), dev.mem), b, rest, replies);
      var reply := MixedCallStep(areas, nvmc, serials, dev, pu, calls[i], b);
      replies := replies + [reply];
      rest := rest[1..];
      i := i + 1;
    }
    MixedEnds(Mixed(nvmc.State(), dev.mem), b, rest, replies);
  }

  method MixedCallStep(areas: seq<FlashArea>, nvmc: Nvmc, serials: seq<SpimArea>, dev: Nor, pu: u32, call: MixedCall,
                       ghost b: Board)
    returns (reply: Reply)
    requires ValidMaps(areas, nvmc, serials, dev, pu) && dev.Idle()
    requires b == Board(Config(pu, nvmc.kind, nvmc.fault), Extents(areas), SerialExtents(serials), dev.srOther == 0)
    requires ValidCall(b, call) && ValidBoard(b, Mixed(nvmc.State(), dev.mem))
    modifies nvmc`mem, nvmc`tick, dev
    ensures dev.Idle() && KeepsProper(old(dev.log), dev.log) && ValidMaps(areas, nvmc, serials, dev, pu)
    ensures (Mixed(nvmc.State(), dev.mem), reply) == MixedStep(Mixed(old(nvmc.State()), old(dev.mem)), b, call)
  {
    hide FlatStep, SerialStep, AllProper, ValidAreaFor;
    match call
    case OnChip(k) =>
      var area := areas[k.area];
      StepKeepsSize(nvmc.State(), b.c, b.chips[k.area], k);
      reply := StackStep(area, pu, k);
    case OnSerial(k) =>
      var area := serials[k.area];
      reply := SpimStep(area, pu, k);
  }

  lemma BoardFacts(areas: seq<FlashArea>, nvmc: Nvmc, serials: seq<SpimArea>, dev: Nor, pu: u32, b: Board)
    requires ValidMaps(areas, nvmc, serials, dev, pu)
    requires b == Board(Config(pu, nvmc.kind, nvmc.fault), Extents(areas), SerialExtents(serials), dev.srOther == 0)
    ensures ValidBoard(b, Mixed(nvmc.State(), dev.mem))
  {
    hide ValidAreaFor;
    MapFacts(areas, nvmc, pu);
  }

  /** The replies so far in front of a run. */
  function PrependMixed(replies: seq<Reply>, run: (Mixed, seq<Reply>)): (Mixed, seq<Reply>) {
    (run.0, replies + run.1)
  }

  lemma PrependMixedNone(run: (Mixed, seq<Reply>))
    ensures PrependMixed([], run) == run
  {
    assert [] + run.1 == run.1;
  }

  lemma MixedUnfolds(s: Mixed, b: Board, calls: seq<MixedCall>, replies: seq<Reply>)
    requires ValidBoard(b, s) && ValidMixed(b, calls) && calls != []
    ensures ValidMixed(b, calls[1..])
    ensures var (s1, r) := MixedStep(s, b, calls[0]);
      && ValidBoard(b, s1)
      && PrependMixed(replies, MixedRun(s, b, calls)) == PrependMixed(replies + [r], MixedRun(s1, b, calls[1..]))
  {
    hide MixedStep;
    var (s1, r) := MixedStep(s, b, calls[0]);
    MixedStepKeepsBoard(s, b, calls[0]);
    assert replies + ([r] + MixedRun(s1, b, calls[1..]).1) == (replies + [r]) + MixedRun(s1, b, calls[1..]).1;
  }

  lemma MixedEnds(s: Mixed, b: Board, calls: seq<MixedCall>, replies: seq<Reply>)
    requires ValidBoard(b, s) && ValidMixed(b, calls) && calls == []
    ensures PrependMixed(replies, MixedRun(s, b, calls)) == (s, replies)
  {
    assert replies + [] == replies;
  }
}
