/** The flash layouts of the supported platforms (each has its own flash_layout.h) with both slots in
    on-chip flash. */
module FlashLayouts {
  import opened Bits
  import opened FlatFlash
  import opened FlashRuns
  import opened RunLaws
  import opened FlashSectors
  import opened SpimAreaLayer
  import opened SpimAreaLaws
  import opened SpimDriver
  import opened MixedRuns
  import opened MixedLaws

  datatype Platform = M2351 | M2354 | M261 | M2L31 | M3331 | M460 | M480 | M55M1

  datatype Layout = Layout(sectorSize: u32, bl2Offset: u32, bl2Size: u32, area0: u32, area2: u32,
                           slotSize: u32, scratch: u32)

  function LayoutOf(p: Platform): Layout {
    match p
    case M2351 => Layout(0x800, 0x0, 0x15000, 0x2_0000, 0x6_0000, 0x8000, 0x10_0000)
    case M2354 => Layout(0x800, 0x0, 0x15000, 0x2_0000, 0xA_0000, 0x8000, 0x10_0000 + 0x800)
    case M261 => Layout(0x800, 0x0, 0x15000, 0x2_0000, 0x6_0000, 0x8000, 0x10_0000 + 0x800)
    case M2L31 => Layout(0x1000, 0x0, 0x15000, 0x2_0000, 0x6_0000, 0x8000, 0x0F10_0000)
    case M3331 => Layout(0x400, 0x0, 0x15000, 0x2_0000, 0x6_0000, 0x8000, 0x0F10_0000 + 0x400)
    case M460 => Layout(0x1000, 0x0, 0x15000, 0x2_0000, 0xA_0000, 0x8000, 0x0F10_0000 + 0x1000)
    case M480 => Layout(0x1000, 0x0, 0x15000, 0x2_0000, 0x6_0000, 0x8000, 0x10_0000)
    case M55M1 => Layout(0x2000, 0x10_0000, 0x15000, 0x12_0000, 0x1A_0000, 0x8000, 0x0F10_0000)
  }

  function Bl2End(l: Layout): nat {
    l.bl2Offset + l.bl2Size
  }

  /** Primary slot, secondary slot, scratch area, in the order of the flash map. */
  function LayoutMap(l: Layout): seq<Extent> {
    [Extent(l.area0, l.slotSize, l.sectorSize),
     Extent(l.area2, l.slotSize, l.sectorSize),
     Extent(l.scratch, l.sectorSize, l.sectorSize)]
  }

  /** Bootloader, primary slot, secondary slot and scratch area lie in this order, each area in whole sectors. */
  predicate InOrder(l: Layout) {
    && l.sectorSize > 0 && l.area0 % l.sectorSize == 0 && l.area2 % l.sectorSize == 0
    && l.slotSize % l.sectorSize == 0 && l.scratch % l.sectorSize == 0
    && Bl2End(l) <= l.area0 && l.area0 + l.slotSize <= l.area2 && l.area2 + l.slotSize <= l.scratch
    && l.scratch + l.sectorSize <= 0x1000_0000
  }

  lemma LayoutsInOrder(p: Platform)
    ensures InOrder(LayoutOf(p))
  {
    match p
    case M2351 =>
    case M2354 =>
    case M261 =>
    case M2L31 =>
    case M3331 =>
    case M460 =>
    case M480 =>
    case M55M1 =>
  }

  lemma LayoutsAreDisjoint(p: Platform)
    ensures SectorAlignedMap(LayoutMap(LayoutOf(p)))
    ensures DisjointMap(LayoutMap(LayoutOf(p)), Bl2End(LayoutOf(p)))
    ensures ValidExtents(LayoutMap(LayoutOf(p)), 0x1000_0000)
  {
    hide LayoutOf, Bl2End;
    LayoutsInOrder(p);
    MultipleMod(1, LayoutOf(p).sectorSize);
  }

  /** On every platform: while calls change other areas only, slot or scratch area `j` and the bootloader keep every
      byte. */
  lemma PlatformIsolation(p: Platform, f: Flat, c: Config, calls: seq<Call>, j: nat)
    requires c.pu > 0 && |f.mem| >= 0x1000_0000 && j < 3 && ValidCalls(3, calls)
    requires forall i :: 0 <= i < |calls| && Changes(calls[i]) ==> calls[i].area != j
    ensures var l := LayoutOf(p);
      var es := LayoutMap(l);
      && ValidExtents(es, |f.mem|)
      && var mem := FlatRun(f, c, es, calls).0.mem;
         && |mem| == |f.mem|
         && mem[es[j].off..es[j].off + es[j].size] == f.mem[es[j].off..es[j].off + es[j].size]
         && mem[l.bl2Offset..Bl2End(l)] == f.mem[l.bl2Offset..Bl2End(l)]
  {
    hide FlatRun;
    LayoutsAreDisjoint(p);
    var l := LayoutOf(p);
    AreaIsolation(f, c, LayoutMap(l), calls, Bl2End(l), j);
    var mem := FlatRun(f, c, LayoutMap(l), calls).0.mem;
    assert mem[l.bl2Offset..Bl2End(l)] == mem[..Bl2End(l)][l.bl2Offset..];
  }

  /** The ids and sizes of the map's entries. */
  function LayoutIds(l: Layout): seq<MapEntry> {
    [MapEntry(1, l.slotSize), MapEntry(2, l.slotSize), MapEntry(255, l.sectorSize)]
  }

  /** On every platform with a scratch area, opening area -1 opens the scratch area. */
  lemma MinusOneOpensScratch(p: Platform)
    ensures FirstEntry(LayoutIds(LayoutOf(p)), -1, 2)
  {
  }

  // ---------------------------------------------------------------- M460 with its secondary slot in serial flash

  const SERIAL_SIZE: nat := 0x200_0000

  /** Primary slot and scratch area on chip, the secondary slot at the start of the serial flash. */
  function M460Serial(c: Config, clean: bool): Board {
    var l := LayoutOf(M460);
    Board(c, [Extent(l.area0, l.slotSize, l.sectorSize), Extent(l.scratch, l.sectorSize, l.sectorSize)],
          [Extent(0, l.slotSize, NVT_NVSPIM_SECTOR_SIZE)], clean)
  }

  /** Whatever is done to the secondary slot, an on-chip area that no on-chip call changes and the bootloader keep
      every byte. */
  lemma M460ChipIsolation(s: Mixed, b: Board, calls: seq<MixedCall>, j: nat)
    requires b == M460Serial(b.c, b.clean) && b.c.pu > 0 && ValidMixed(b, calls) && j < 2
    requires |s.chip.mem| >= 0x1000_0000 && |s.serial| == SERIAL_SIZE
    requires forall i :: 0 <= i < |calls| && calls[i].OnChip? && Changes(calls[i].call) ==> calls[i].call.area != j
    ensures ValidBoard(b, s)
    ensures var e, mem := b.chips[j], MixedRun(s, b, calls).0.chip.mem;
      && |mem| == |s.chip.mem|
      && mem[e.off..e.off + e.size] == s.chip.mem[e.off..e.off + e.size]
      && mem[..Bl2End(LayoutOf(M460))] == s.chip.mem[..Bl2End(LayoutOf(M460))]
  {
    hide MixedRun;
    M460Disjoint(b, s);
    ChipIsolation(s, b, calls, Bl2End(LayoutOf(M460)), j);
  }

  lemma M460Disjoint(b: Board, s: Mixed)
    requires b == M460Serial(b.c, b.clean) && b.c.pu > 0
    requires |s.chip.mem| >= 0x1000_0000 && |s.serial| == SERIAL_SIZE
    ensures ValidBoard(b, s) && SectorAlignedMap(b.chips) && DisjointMap(b.chips, Bl2End(LayoutOf(M460)))
  {
  }

  /** The serial flash behind the secondary slot keeps every byte, whatever is erased, if the writes to the slot keep
      their middle runs in their pages. */
  lemma M460SlotIsolation(s: Mixed, b: Board, calls: seq<MixedCall>, x: nat)
    requires b == M460Serial(b.c, b.clean) && b.c.pu == 8 && ValidMixed(b, calls)
    requires |s.chip.mem| >= 0x1000_0000 && |s.serial| == SERIAL_SIZE && 0x8000 <= x < SERIAL_SIZE
    requires forall i :: 0 <= i < |calls| && calls[i].OnSerial? && calls[i].call.Write? ==>
      KeepsInside(8, b.serials[0], calls[i].call)
    ensures ValidBoard(b, s) && |MixedRun(s, b, calls).0.serial| == |s.serial|
    ensures MixedRun(s, b, calls).0.serial[x] == s.serial[x]
  {
    hide MixedRun, MiddleStays, IsPow2;
    M460Disjoint(b, s);
    EightIsPow2();
    forall i | 0 <= i < |calls| && calls[i].OnSerial? ensures KeepsInside(8, b.serials[0], calls[i].call) {
      assert ValidCall(b, calls[i]);
    }
    forall i | 0 <= i < |calls| && calls[i].OnSerial? ensures calls[i].call.area == 0 {
      assert ValidCall(b, calls[i]);
    }
    SerialIsolation(s, b, calls, x);
  }

  lemma EightIsPow2()
    ensures IsPow2(8)
  {
    FourIsPow2();
    Pow2Double(4);
  }
}
