/** The emptiness check, bl2/ext/mcuboot/flash_map_extended.c. */
module FlashMapExtended {
  import opened Bits
  import opened Words
  import opened FlatFlash
  import opened FlashAreaLayer

  function FlashAreaErasedVal(area: FlashArea): byte {
    area.driver.info.erasedValue
  }

  /** flash_area_read_is_empty: 1 if erased, 0 if not, -1 if the read fails. */
  method FlashAreaReadIsEmpty(area: FlashArea, off: u32, dst: array<byte>, len: u32) returns (rc: int)
    requires Readable(area) && len <= dst.Length && FlashAreaErasedVal(area) == ERASED
    requires area.off + area.size <= |area.driver.nvmc.mem|
    modifies dst, area.driver.nvmc`tick
    ensures var (g, r) := FlatIsEmpty(old(area.driver.nvmc.State()), area.driver.nvmc.fault, ExtentOf(area), off, len);
      area.driver.nvmc.State() == g && rc == r.rc && (rc >= 0 ==> dst[..len] == r.data)
    ensures rc >= 0 ==>
      area.off + off + len <= |area.driver.nvmc.mem|
      && dst[..len] == area.driver.nvmc.mem[area.off + off..area.off + off + len]
    ensures forall j :: len <= j < dst.Length ==> dst[j] == old(dst[j])
  {
    hide FlatRead;
    ghost var f := area.driver.nvmc.State();
    var ret := FlashAreaRead(area, off, dst, len);
    if ret != 0 {
      return -1;
    }
    ghost var data := dst[..len];
    ReadSucceeded(f, area.driver.nvmc.fault, ExtentOf(area), off, len);
    var i: u32 := 0;
    while i < len
      invariant i <= len
      invariant forall j :: 0 <= j < i ==> data[j] == ERASED
    {
      if dst[i] != FlashAreaErasedVal(area) {
        assert data[i] != ERASED;
        return 0;
      }
      i := i + 1;
    }
    return 1;
  }

  lemma ReadSucceeded(f: Flat, fault: Schedule, e: Extent, off: nat, len: nat)
    requires e.off + e.size <= |f.mem| && FlatRead(f, fault, e, off, len).1.rc == 0
    ensures InExtent(e, off, len)
    ensures FlatRead(f, fault, e, off, len).1.data == f.mem[e.off + off..e.off + off + len]
    ensures FlatRead(f, fault, e, off, len).0.mem == f.mem
  {
  }
}
