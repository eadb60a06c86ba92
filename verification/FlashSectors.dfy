/**
Sector enumeration, bl2/ext/mcuboot/flash_map_legacy.c, and direct sector lookup,
bl2/ext/mcuboot/include/flash_map_backend/flash_map_backend.h.
*/
module FlashSectors {
  import opened Wrappers
  import opened Bits
  import opened FlatFlash
  import opened FlashLaws
  import opened FlashRuns
  import opened RunLaws

  datatype FlashSector = FlashSector(off: u32, size: u32)

  /** One entry of flash_map[]: its id, and the size of the area. */
  datatype MapEntry = MapEntry(id: nat, size: u32)

  predicate NoEntry(flashMap: seq<MapEntry>, idx: int) {
    forall j :: 0 <= j < |flashMap| ==> flashMap[j].id != idx % 256
  }

  predicate FirstEntry(flashMap: seq<MapEntry>, idx: int, i: nat) {
    i < |flashMap| && flashMap[i].id == idx % 256 && forall j :: 0 <= j < i ==> flashMap[j].id != idx % 256
  }

  /** flash_area_open: the first entry with the id, which is passed as a uint8_t. */
  method FlashAreaOpen(flashMap: seq<MapEntry>, idx: int) returns (found: Option<nat>)
    ensures match found
      case Some(i) => FirstEntry(flashMap, idx, i)
      case None => NoEntry(flashMap, idx)
  {
    var id := idx % 256;
    var i := 0;
    while i < |flashMap|
      invariant 0 <= i <= |flashMap| && forall j :: 0 <= j < i ==> flashMap[j].id != id
    {
      if id == flashMap[i].id {
        return Some(i);
      }
      i := i + 1;
    }
    return None;
  }

  function SectorAt(i: nat, s: u32): FlashSector
    requires Steps(i, s) < TWO32
  {
    FlashSector(Steps(i, s), s)
  }

  /** flash_area_get_sectors: fills `ret` and returns the result code and the new value of `*cnt`. The result
      is 0 exactly when the sector size divides the area or the buffer is full first. */
  method FlashAreaGetSectors(flashMap: seq<MapEntry>, idx: int, maxCnt: u32, ret: array<FlashSector>, s: u32)
    returns (rc: int, cnt: u32)
    requires s > 0 && maxCnt <= ret.Length
    modifies ret
    ensures NoEntry(flashMap, idx) || maxCnt == 0 ==> rc == -1 && cnt == maxCnt && ret[..] == old(ret[..])
    ensures forall i: nat :: maxCnt > 0 && FirstEntry(flashMap, idx, i) ==>
      && (rc == 0 <==> flashMap[i].size % s == 0 || maxCnt <= flashMap[i].size / s)
      && (rc == 0 || rc == -1)
      && cnt == (if maxCnt <= flashMap[i].size / s then maxCnt else flashMap[i].size / s)
      && ret[..cnt] == Enumeration(flashMap[i].size, s)[..cnt]
    ensures forall k :: cnt <= k < ret.Length ==> ret[k] == old(ret[k])
  {
    var fa := FlashAreaOpen(flashMap, idx);
    match fa
    case None => return -1, maxCnt;
    case Some(i) =>
      if maxCnt < 1 {
        return -1, maxCnt;
      }
      rc, cnt := FillSectors(flashMap[i].size, maxCnt, ret, s);
  }

  /** The filling loop of flash_area_get_sectors for an area of `size` bytes. */
  method FillSectors(size: u32, maxCnt: u32, ret: array<FlashSector>, s: u32) returns (rc: int, cnt: u32)
    requires s > 0 && 0 < maxCnt <= ret.Length
    modifies ret
    ensures rc == 0 || rc == -1
    ensures rc == 0 <==> size % s == 0 || maxCnt <= size / s
    ensures cnt == if maxCnt <= size / s then maxCnt else size / s
    ensures cnt <= size / s && ret[..cnt] == Enumeration(size, s)[..cnt]
    ensures forall k :: cnt <= k < ret.Length ==> ret[k] == old(ret[k])
  {
    hide Steps;
    ghost var q := size / s;
    DivisionFacts(size, s);
    var remLen := size;
    cnt := 0;
    StepsZero(s);
    while remLen > 0 && cnt < maxCnt
      invariant cnt <= maxCnt && (remLen as int) + Steps(cnt, s) == size
      invariant cnt <= q
      invariant forall k :: 0 <= k < cnt ==> Steps(k, s) < TWO32 && ret[k] == SectorAt(k, s)
      invariant forall k :: cnt <= k < ret.Length ==> ret[k] == old(ret[k])
      decreases remLen
    {
      QuotientSteps(size, s, cnt);
      if remLen < s {
        return -1, cnt;
      }
      ret[cnt] := FlashSector(Steps(cnt, s), s);
      cnt := cnt + 1;
      remLen := remLen - s;
    }
    QuotientSteps(size, s, cnt);
    if cnt > maxCnt {
      assert false;
      return -1, cnt;
    }
    return 0, cnt;
  }

  /** A negative area index is not refused: -1 becomes id 255, which the flash layouts give the scratch area. */
  lemma OpenMinusOne(flashMap: seq<MapEntry>, i: nat)
    ensures FirstEntry(flashMap, -1, i) <==> FirstEntry(flashMap, 255, i)
  {
  }

  lemma DivisionFacts(size: nat, s: nat)
    requires s > 0
    ensures size % s == 0 <==> Steps(size / s, s) == size
    ensures Steps(size / s, s) <= size < Steps(size / s, s) + s
  {
    FloorToFacts(size, s);
  }

  /** Where the loop stands after `cnt` sectors. */
  lemma QuotientSteps(size: nat, s: nat, cnt: nat)
    requires s > 0 && cnt <= size / s
    ensures Steps(cnt, s) <= size && Steps(cnt + 1, s) == Steps(cnt, s) + s
    ensures cnt < size / s <==> size - Steps(cnt, s) >= s
  {
    var q := size / s;
    DivisionFacts(size, s);
    StepsMono(cnt, q, s);
    if cnt < q {
      StepsMono(cnt + 1, q, s);
    }
  }

  /** The full enumeration of an area of `size` bytes. */
  function Enumeration(size: u32, s: u32): (r: seq<FlashSector>)
    requires s > 0
    ensures |r| == size / s
  {
    seq(size / s, k requires 0 <= k < size / s => (EntryInside(size, s, k); SectorAt(k, s)))
  }

  lemma EntryInside(size: u32, s: u32, k: nat)
    requires s > 0 && k < size / s
    ensures Steps(k, s) + s <= size < TWO32
  {
    QuotientSteps(size, s, k);
  }

  predicate Contains(sector: FlashSector, off: nat) {
    sector.off <= off < sector.off + sector.size
  }

  /** The enumeration starts at 0 and is contiguous; its entries have the sector size and end inside the area,
      at its end exactly if the sector size divides the area. */
  lemma EnumerationTiles(size: u32, s: u32)
    requires s > 0
    ensures var r := Enumeration(size, s);
      && (forall k :: 0 <= k < |r| ==> r[k].size == s && r[k].off + s <= size)
      && (|r| > 0 ==> r[0].off == 0)
      && (forall k :: 0 <= k < |r| - 1 ==> r[k + 1].off == r[k].off + r[k].size)
      && (size > 0 ==> (size % s == 0 <==> |r| > 0 && r[|r| - 1].off + s == size))
  {
    var r := Enumeration(size, s);
    forall k | 0 <= k < |r| ensures r[k].size == s && r[k].off + s <= size {
      EntryInside(size, s, k);
    }
    forall k | 0 <= k < |r| - 1 ensures r[k + 1].off == r[k].off + r[k].size {
      QuotientSteps(size, s, k);
    }
    DivisionFacts(size, s);
    if |r| > 0 {
      QuotientSteps(size, s, |r| - 1);
      StepsZero(s);
    } else {
      StepsZero(s);
    }
  }

  /** flash_area_get_sector: the result code and the struct after the call. */
  method FlashAreaGetSector(size: u32, pageSize: u32, off: u32, sector: FlashSector) returns (rc: int, out: FlashSector)
    requires pageSize > 0
    ensures off >= size ==> rc == -1 && out == sector
    ensures off < size ==> rc == 0 && out.size == pageSize && Contains(out, off) && out.off % pageSize == 0
  {
    out := sector;
    if off >= size {
      return -1, out;
    }
    FloorToFacts(off, pageSize);
    out := FlashSector(off / pageSize * pageSize, pageSize);
    return 0, out;
  }

  function EntryIndex(off: nat, s: nat): nat
    requires s > 0
  {
    off / s
  }

  /** A page-aligned sector of the page size that contains an offset is entry off / s of the enumeration, and
      no other entry contains the offset, if pages are sectors and the sector size divides the area. */
  lemma LookupIsEntry(size: u32, s: u32, off: u32, sector: FlashSector)
    requires s > 0 && size % s == 0 && off < size
    requires sector.size == s && Contains(sector, off) && sector.off % s == 0
    ensures var r, k := Enumeration(size, s), EntryIndex(off, s);
      && k < |r| && r[k] == sector
      && forall i :: 0 <= i < |r| && Contains(r[i], off) ==> i == k
  {
    hide Enumeration, Steps;
    var r, k := Enumeration(size, s), EntryIndex(off, s);
    EntryOf(size, s, off);
    EnumerationAt(size, s, k);
    MultipleUnique(sector.off, Steps(k, s), s);
    forall i | 0 <= i < |r| && Contains(r[i], off) ensures i == k {
      EnumerationAt(size, s, i);
      EntryOnly(i, k, s, off);
    }
  }

  lemma EnumerationAt(size: u32, s: u32, k: nat)
    requires s > 0 && k < size / s
    ensures Steps(k, s) < TWO32 && Enumeration(size, s)[k] == FlashSector(Steps(k, s), s)
  {
    EntryInside(size, s, k);
  }

  lemma EntryOf(size: nat, s: nat, off: nat)
    requires s > 0 && size % s == 0 && off < size
    ensures off / s < size / s
    ensures Steps(off / s, s) <= off < Steps(off / s, s) + s && Steps(off / s, s) % s == 0
  {
    DivisionFacts(off, s);
    DivisionFacts(size, s);
    MultipleMod(off / s, s);
    if off / s >= size / s {
      StepsMono(size / s, off / s, s);
    }
  }

  lemma EntryOnly(i: nat, k: nat, s: nat, off: nat)
    requires Steps(i, s) <= off < Steps(i, s) + s && Steps(k, s) <= off < Steps(k, s) + s
    ensures i == k
  {
    if i < k {
      StepsMono(i + 1, k, s);
    } else if k < i {
      StepsMono(k + 1, i, s);
    }
  }

  /** The direct lookup stays inside the area for every offset exactly if the page size divides the area. */
  lemma LookupInsideIff(size: u32, pageSize: u32)
    requires pageSize > 0 && size > 0
    ensures size % pageSize == 0 <==> forall off :: 0 <= off < size ==> FloorTo(off, pageSize) + pageSize <= size
  {
    if size % pageSize == 0 {
      forall off | 0 <= off < size ensures FloorTo(off, pageSize) + pageSize <= size {
        FloorToFacts(off, pageSize);
        if FloorTo(off, pageSize) + pageSize > size {
          MultipleUnique(size, FloorTo(off, pageSize), pageSize);
        }
      }
    } else {
      FloorToFacts(size - 1, pageSize);
      FloorToFacts(size, pageSize);
      var last := FloorTo(size - 1, pageSize);
      if last + pageSize <= size {
        assert last + pageSize == size;
        MultipleMod(1, pageSize);
        ModAdd(last, pageSize, pageSize);
      }
    }
  }

  // ---------------------------------------------------------------- sector-wise erase

  /** The number of sectors of an area, and the sector that an address of the area belongs to. */
  function SectorCount(e: Extent): nat
    requires e.sector > 0
  {
    e.size / e.sector
  }

  function SectorOf(e: Extent, x: nat): nat
    requires e.sector > 0 && Within(e, x)
  {
    (x - e.off) / e.sector
  }

  lemma SectorOfInside(e: Extent, x: nat)
    requires SectorAligned(e) && Within(e, x)
    ensures SectorOf(e, x) < SectorCount(e)
  {
    EntryOf(e.size, e.sector, x - e.off);
  }

  /** Erase calls for the listed sectors of area `j`, in the given order. */
  function SectorErases(j: nat, e: Extent, order: seq<nat>): (r: seq<Call>)
    requires e.sector > 0 && SectorList(e, order)
    ensures |r| == |order|
  {
    seq(|order|, i requires 0 <= i < |order| =>
      var sector := Enumeration(e.size, e.sector)[order[i]];
      Erase(j, sector.off, sector.size))
  }

  predicate SectorList(e: Extent, order: seq<nat>)
    requires e.sector > 0
  {
    forall i :: 0 <= i < |order| ==> order[i] < SectorCount(e)
  }

  predicate AllOk(replies: seq<Reply>) {
    forall i :: 0 <= i < |replies| ==> replies[i].rc == 0
  }

  /** Erasing sectors of an area one by one, in any order and with repetitions, all succeeding, sets exactly
      the bytes of the listed sectors. */
  lemma {:induction false} SectorWiseErase(f: Flat, c: Config, es: seq<Extent>, j: nat, order: seq<nat>, x: nat)
    requires c.pu > 0 && ValidExtents(es, |f.mem|) && j < |es| && SectorAligned(es[j]) && x < |f.mem|
    requires SectorList(es[j], order)
    requires ValidCalls(|es|, SectorErases(j, es[j], order))
    requires AllOk(FlatRun(f, c, es, SectorErases(j, es[j], order)).1)
    ensures var mem := FlatRun(f, c, es, SectorErases(j, es[j], order)).0.mem;
      |mem| == |f.mem|
      && mem[x] == if Within(es[j], x) && SectorOf(es[j], x) in order then ERASED else f.mem[x]
    decreases |order|
  {
    hide FlatErase, Enumeration;
    var e := es[j];
    var calls := SectorErases(j, e, order);
    if order != [] {
      var k := order[0];
      StepKeepsSize(f, c, e, calls[0]);
      var (g, r) := FlatStep(f, c, e, calls[0]);
      assert calls[1..] == SectorErases(j, e, order[1..]);
      var tail := FlatRun(g, c, es, calls[1..]).1;
      assert FlatRun(f, c, es, calls).1 == [r] + tail;
      assert forall i :: 0 <= i < |tail| ==> tail[i] == ([r] + tail)[i + 1];
      assert r == ([r] + tail)[0];
      SectorWiseErase(g, c, es, j, order[1..], x);
      OneSector(f, c.fault, e, k, x);
    }
  }

  /** A successful erase of entry k sets exactly the bytes of sector k. */
  lemma OneSector(f: Flat, fault: Schedule, e: Extent, k: nat, x: nat)
    requires SectorAligned(e) && k < SectorCount(e) && e.off + e.size <= |f.mem| && x < |f.mem|
    requires var sector := Enumeration(e.size, e.sector)[k]; FlatErase(f, fault, e, sector.off, sector.size).1 == 0
    ensures var sector := Enumeration(e.size, e.sector)[k];
      FlatErase(f, fault, e, sector.off, sector.size).0.mem[x]
        == if Within(e, x) && SectorOf(e, x) == k then ERASED else f.mem[x]
  {
    hide FlatErase;
    var sector := Enumeration(e.size, e.sector)[k];
    EraseContent(f, fault, e, sector.off, sector.size);
    CeilToFacts(e.sector, e.sector);
    MultipleMod(1, e.sector);
    MultipleUnique(CeilTo(e.sector, e.sector), e.sector, e.sector);
    EntryInside(e.size, e.sector, k);
    if Within(e, x) {
      EntryOf(e.size, e.sector, x - e.off);
      if sector.off <= x - e.off < sector.off + e.sector {
        EntryOnly((x - e.off) / e.sector, k, e.sector, x - e.off);
      }
    }
  }

  /** Erasing every listed sector once or more, in any order, is the erase of the whole area. */
  lemma SectorWiseIsAreaErase(f: Flat, c: Config, es: seq<Extent>, j: nat, order: seq<nat>)
    requires c.pu > 0 && ValidExtents(es, |f.mem|) && j < |es| && SectorAligned(es[j])
    requires SectorList(es[j], order)
    requires forall k :: 0 <= k < SectorCount(es[j]) ==> k in order
    requires ValidCalls(|es|, SectorErases(j, es[j], order))
    requires AllOk(FlatRun(f, c, es, SectorErases(j, es[j], order)).1)
    ensures FlatRun(f, c, es, SectorErases(j, es[j], order)).0.mem
         == Fill(f.mem, es[j].off, es[j].off + es[j].size)
  {
    hide FlatRun, SectorErases, AllOk, ValidCalls, SectorAligned, SectorCount, SectorOf, SectorList;
    var e := es[j];
    var mem := FlatRun(f, c, es, SectorErases(j, e, order)).0.mem;
    RunKeepsSize(f, c, es, SectorErases(j, e, order));
    forall x | 0 <= x < |f.mem| ensures mem[x] == if Within(e, x) then ERASED else f.mem[x] {
      SectorWiseErase(f, c, es, j, order, x);
      if Within(e, x) {
        SectorOfInside(e, x);
      }
    }
  }

  /** Over an erased area, the emptiness check answers 1 for every request in range whose read does not fail. */
  lemma ErasedIsEmpty(f: Flat, fault: Schedule, e: Extent, off: nat, len: nat)
    requires e.off + e.size <= |f.mem| && f.mem == Fill(f.mem, e.off, e.off + e.size)
    ensures FlatIsEmpty(f, fault, e, off, len).1.rc ==
      if InExtent(e, off, len) && NoFaults(fault, f.tick, WordsTouched(off, len)) then 1 else -1
  {
    hide FlatIsEmpty, WordsTouched, NoFaults;
    IsEmptyMeans(f, fault, e, off, len);
  }
}
