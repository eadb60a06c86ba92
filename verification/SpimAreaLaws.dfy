/** What writes and erases of an area on the serial flash leave: content, exactness and isolation. */
module SpimAreaLaws {
  import opened Bits
  import opened Words
  import opened FlatFlash
  import opened FlashLaws
  import opened FlashCuts
  import opened FlashAreaLayer
  import opened SpimNor
  import opened SpimDriver
  import opened SpimAreaLayer

  // ---------------------------------------------------------------- what a write over the serial driver leaves

  /** A program unit never leaves a page, and a multiple of it does so only with more than one unit. */
  lemma UnitInPage(lo: nat, pu: nat)
    requires pu > 0 && IsPow2(pu) && lo % pu == 0
    ensures StaysInPage(lo, pu)
  {
    hide IsPow2;
    PageIsPow2();
    if pu <= PAGE {
      Pow2Divides(pu, PAGE);
      OffsetInPage(lo, pu);
    } else {
      Pow2Divides(PAGE, pu);
      ModDivides(lo, pu, PAGE);
    }
  }

  lemma PageIsPow2()
    ensures IsPow2(PAGE)
  {
    Pow2One();
    Pow2Times16(1);
    Pow2Times16(16);
  }

  /** A multiple of a unit lies on a page or at least a unit behind its start, and ends at least a unit before its
      end. */
  lemma OffsetInPage(lo: nat, pu: nat)
    requires pu > 0 && lo % pu == 0 && PAGE % pu == 0
    ensures lo % PAGE == 0 || lo % PAGE >= pu
    ensures lo % PAGE + pu <= PAGE
  {
    FloorToFacts(lo, PAGE);
    ModDivides(FloorTo(lo, PAGE), PAGE, pu);
    ModAdd(lo, FloorTo(lo, PAGE), pu);
    MultipleMod(0, pu);
    MultipleGap(lo % PAGE, PAGE, pu);
    if lo % PAGE > 0 {
      MultipleGap(0, lo % PAGE, pu);
    }
  }

  /** A program call inside its page continues the plain byte-array write. */
  lemma StageFlat(s: Progress, p: WritePlan, lo: nat, n: nat)
    requires lo + n <= |p.mem| && StaysInPage(lo, n)
    requires s == Progress(Commit(p.mem, p.at, p.data, lo), false)
    ensures Stage(s, true, p, lo, n) == Progress(Commit(p.mem, p.at, p.data, lo + n), false)
  {
    hide Paged, Commit, Patched, StaysInPage;
    var d := UnitData(p, lo, n);
    assert d[..n] == d;
    PagedIsFlat(s.mem, lo, d);
    CommitExtend(p.mem, p.at, p.data, lo, d, lo + n);
  }

  /** The middle run of a request at device address `at` does not leave its page. */
  predicate MiddleStays(at: nat, len: nat, a: nat, pu: nat)
    requires a < pu
  {
    StaysInPage(at + HeadRoom(a, pu), MiddleLen(len, a, pu))
  }

  predicate UnitExtent(pu: nat, e: Extent, total: nat) {
    pu > 0 && IsPow2(pu) && e.off % pu == 0 && e.off + e.size <= total
  }

  /** If the middle run stays in its page, the write is that of the on-chip stack. */
  lemma SerialContent(mem: seq<byte>, pu: nat, e: Extent, off: nat, src: seq<byte>)
    requires UnitExtent(pu, e, |mem|) && WriteInRange(pu, e, off, |src|)
    requires MiddleStays(e.off + off, |src|, off % pu, pu)
    ensures SpimWrite(mem, true, pu, e, off, src)
         == (ByteWrite(mem, e.off + off, Landed(src, off % pu, pu)), 0)
  {
    hide IsPow2, CeilTo, MiddleLen, Landed, Commit, AfterTail, FloorTo, MiddleStays, TailLen;
    var a, p := off % pu, SpimPlan(mem, pu, e, off, src);
    SpimPlanIn(mem, pu, e, off, src);
    StageAligned(pu, e, off, |src|);
    TailInPage(pu, e, off, |src|);
    StagesFlat(p, a, pu);
    CommitWhole(mem, p.at, p.data, p.at + HeadRoom(a, pu) + MiddleLen(|src|, a, pu) + TailLen(a, |src|, pu));
  }

  /** The three stages of a write, each inside its page. */
  lemma StagesFlat(p: WritePlan, a: nat, pu: nat)
    requires PlanIn(p, a, pu) && IsPow2(pu) && p.start % pu == 0 && MiddleStays(p.at, |p.data|, a, pu)
    requires p.start + HeadLen(a, pu) == p.at + HeadRoom(a, pu)
    requires StaysInPage(p.at + HeadRoom(a, pu) + MiddleLen(|p.data|, a, pu), TailLen(a, |p.data|, pu))
    ensures var end := p.at + HeadRoom(a, pu) + MiddleLen(|p.data|, a, pu) + TailLen(a, |p.data|, pu);
      AfterTail(p, true, a, pu) == Progress(Commit(p.mem, p.at, p.data, end), false)
  {
    hide IsPow2, CeilTo, MiddleLen, Commit, Stage, StaysInPage, TailLen;
    StagesFit(p, a, pu);
    CommitNothing(p.mem, p.at, p.data, p.start);
    NoStage(Progress(p.mem, false), true, p, p.start);
    if a > 0 {
      UnitInPage(p.start, pu);
      StageFlat(Progress(p.mem, false), p, p.start, pu);
    }
    var mid, m := p.at + HeadRoom(a, pu), MiddleLen(|p.data|, a, pu);
    StageFlat(AfterHead(p, true, a, pu), p, mid, m);
    StageFlat(AfterMiddle(p, true, a, pu), p, mid + m, TailLen(a, |p.data|, pu));
  }

  /** Head unit and middle run start on units. */
  lemma StageAligned(pu: nat, e: Extent, off: nat, len: nat)
    requires pu > 0 && e.off % pu == 0
    ensures var a, start := off % pu, e.off + FloorTo(off, pu);
      && start % pu == 0 && start + a == e.off + off
      && (start + HeadLen(a, pu)) % pu == 0 && start + HeadLen(a, pu) == e.off + off + HeadRoom(a, pu)
  {
    FloorToFacts(off, pu);
    ModAdd(e.off, FloorTo(off, pu), pu);
    MultipleMod(1, pu);
    ModAdd(e.off + FloorTo(off, pu), pu, pu);
  }

  /** So does the tail unit, if there is one; the units reach the end of the request. */
  lemma TailInPage(pu: nat, e: Extent, off: nat, len: nat)
    requires pu > 0 && IsPow2(pu) && e.off % pu == 0
    ensures var a := off % pu;
      var last := e.off + off + HeadRoom(a, pu) + MiddleLen(len, a, pu);
      && StaysInPage(last, TailLen(a, len, pu))
      && last + TailLen(a, len, pu) >= e.off + off + len
  {
    hide IsPow2, StaysInPage, CeilTo, FloorTo, MiddleLen;
    var a := off % pu;
    var last := e.off + off + HeadRoom(a, pu) + MiddleLen(len, a, pu);
    WriteLayout(len, a, pu);
    StageAligned(pu, e, off, len);
    EmptyStays(last);
    if TailLen(a, len, pu) > 0 {
      MiddleFacts(len, a, pu);
      ModAdd(e.off + off + HeadRoom(a, pu), MiddleLen(len, a, pu), pu);
      UnitInPage(last, pu);
    }
  }

  lemma EmptyStays(lo: nat)
    ensures StaysInPage(lo, 0)
  {
  }

  /** How much of a call reaches the flash. */
  function Reaching(clean: bool, n: nat): (r: nat)
    ensures r <= n
  {
    if clean || n < PAGE then n else PAGE
  }

  /** A program call inside its page, complete or cut after its first chunk, continues the byte-array write. */
  lemma StagePrefix(s: Progress, clean: bool, p: WritePlan, lo: nat, n: nat)
    requires lo + n <= |p.mem| && StaysInPage(lo, n) && s == Progress(Commit(p.mem, p.at, p.data, lo), false)
    ensures Stage(s, clean, p, lo, n).mem == Commit(p.mem, p.at, p.data, lo + Reaching(clean, n))
  {
    hide Paged, Commit, Patched;
    var m := Reaching(clean, n);
    var d := UnitData(p, lo, n)[..m];
    PagedIsFlat(s.mem, lo, d);
    CommitExtend(p.mem, p.at, p.data, lo, d, lo + m);
  }

  /** Where the first chunk of a request at device address `at` ends: in its head unit if it starts inside a unit, else
      in its middle run, else in its tail unit; an empty request that starts on a unit has none. */
  function FirstChunkEnd(at: nat, len: nat, a: nat, pu: nat): nat
    requires a < pu && a <= at
  {
    var unit := if pu < PAGE then pu else PAGE;
    var run := MiddleLen(len, a, pu);
    if a > 0 then at - a + unit
    else if run > 0 then at + (if run < PAGE then run else PAGE)
    else if len > 0 then at + unit
    else at
  }

  /** If its middle run stays in its page, a write, successful or not, leaves a prefix of what the on-chip write
      leaves. */
  lemma SerialPrefix(mem: seq<byte>, clean: bool, pu: nat, e: Extent, off: nat, src: seq<byte>) returns (limit: nat)
    requires UnitExtent(pu, e, |mem|) && WriteInRange(pu, e, off, |src|)
    requires MiddleStays(e.off + off, |src|, off % pu, pu)
    ensures SpimWrite(mem, clean, pu, e, off, src).0
         == Commit(mem, e.off + off, Landed(src, off % pu, pu), limit)
    ensures off % pu <= off
    ensures limit == if clean then e.off + off + |src| else FirstChunkEnd(e.off + off, |src|, off % pu, pu)
  {
    hide IsPow2, CeilTo, MiddleLen, Landed, Commit, AfterTail, FloorTo, MiddleStays, TailLen, FirstChunkEnd;
    var a, p := off % pu, SpimPlan(mem, pu, e, off, src);
    FloorToFacts(off, pu);
    SpimPlanIn(mem, pu, e, off, src);
    if clean {
      SerialContent(mem, pu, e, off, src);
      limit := e.off + off + |src|;
    } else {
      StageAligned(pu, e, off, |src|);
      TailInPage(pu, e, off, |src|);
      limit := UncleanPrefix(p, a, pu);
    }
  }

  /** With another status bit set, only the first call that has anything to send gets through. */
  lemma UncleanPrefix(p: WritePlan, a: nat, pu: nat) returns (limit: nat)
    requires PlanIn(p, a, pu) && IsPow2(pu) && p.start % pu == 0 && MiddleStays(p.at, |p.data|, a, pu)
    requires p.start + HeadLen(a, pu) == p.at + HeadRoom(a, pu)
    requires StaysInPage(p.at + HeadRoom(a, pu) + MiddleLen(|p.data|, a, pu), TailLen(a, |p.data|, pu))
    ensures AfterTail(p, false, a, pu).mem == Commit(p.mem, p.at, p.data, limit)
    ensures limit == FirstChunkEnd(p.at, |p.data|, a, pu)
  {
    hide IsPow2, CeilTo, MiddleLen, Commit, Stage, StaysInPage, TailLen;
    TailIs(|p.data|, a, pu);
    StagesFit(p, a, pu);
    CommitNothing(p.mem, p.at, p.data, p.start);
    var mid, m := p.at + HeadRoom(a, pu), MiddleLen(|p.data|, a, pu);
    var last, t := mid + m, TailLen(a, |p.data|, pu);
    UncleanStage(Progress(p.mem, false), p, p.start, HeadLen(a, pu));
    UncleanStage(AfterHead(p, false, a, pu), p, mid, m);
    UncleanStage(AfterMiddle(p, false, a, pu), p, last, t);
    if a > 0 {
      UnitInPage(p.start, pu);
      StagePrefix(Progress(p.mem, false), false, p, p.start, HeadLen(a, pu));
      limit := p.start + Reaching(false, HeadLen(a, pu));
    } else if m > 0 {
      StagePrefix(AfterHead(p, false, a, pu), false, p, mid, m);
      limit := mid + Reaching(false, m);
    } else {
      StagePrefix(AfterMiddle(p, false, a, pu), false, p, last, t);
      limit := last + Reaching(false, t);
    }
  }

  /** There is a tail unit exactly if bytes remain behind head and middle run. */
  lemma TailIs(len: nat, a: nat, pu: nat)
    requires a < pu
    ensures TailLen(a, len, pu) == if HeadRoom(a, pu) + MiddleLen(len, a, pu) < len then pu else 0
  {
    hide CeilTo, MiddleLen;
    WriteLayout(len, a, pu);
    if a == 0 && len == 0 {
      CeilOfZero(pu);
    }
  }

  lemma UncleanStage(s: Progress, p: WritePlan, lo: nat, n: nat)
    requires lo + n <= |p.mem|
    ensures s.stopped || n == 0 ==> Stage(s, false, p, lo, n) == s
    ensures n > 0 ==> Stage(s, false, p, lo, n).stopped
  {
  }

  /** Such a write changes no byte outside its area. */
  lemma SerialWriteStays(mem: seq<byte>, clean: bool, pu: nat, e: Extent, off: nat, src: seq<byte>, x: nat)
    requires UnitExtent(pu, e, |mem|) && x < |mem| && !(e.off <= x < e.off + e.size)
    requires !WriteInRange(pu, e, off, |src|) || MiddleStays(e.off + off, |src|, off % pu, pu)
    ensures SpimWrite(mem, clean, pu, e, off, src).0[x] == mem[x]
  {
    hide IsPow2, MiddleStays, Landed, AfterTail, CeilTo, FloorTo;
    if WriteInRange(pu, e, off, |src|) {
      var limit := SerialPrefix(mem, clean, pu, e, off, src);
    }
  }

  /** A byte that is 0 after a call, or that the call ANDs with 0, is 0 from then on. */
  lemma StageZero(s: Progress, p: WritePlan, lo: nat, n: nat, x: nat)
    requires lo + n <= |p.mem| && x < |s.mem|
    requires s.mem[x] == 0 || (!s.stopped && lo / PAGE <= x / PAGE && PagedIndex(lo, x) < n
                               && Patched(p.mem, p.at, p.data, lo + PagedIndex(lo, x)) == 0)
    ensures Stage(s, true, p, lo, n).mem[x] == 0
  {
    hide Patched;
    if !s.stopped && n > 0 {
      assert UnitData(p, lo, n)[..n] == UnitData(p, lo, n);
      if lo / PAGE <= x / PAGE && PagedIndex(lo, x) < n {
        AndZero(s.mem[x], UnitData(p, lo, n)[PagedIndex(lo, x)]);
      }
    }
  }

  lemma AndZero(m: byte, d: byte)
    requires m == 0 || d == 0
    ensures m & d == 0
  {
  }

  lemma CleanNeverStops(s: Progress, p: WritePlan, lo: nat, n: nat)
    requires lo + n <= |p.mem|
    ensures Stage(s, true, p, lo, n).stopped == s.stopped
  {
  }

  /** A zero that the middle run puts at x stays. */
  lemma MiddleZero(mem: seq<byte>, pu: nat, e: Extent, off: nat, src: seq<byte>, x: nat, i: nat)
    requires pu > 0 && e.off + e.size <= |mem| && WriteInRange(pu, e, off, |src|) && x < |mem|
    requires i < |src| && i < MiddleLen(|src|, off % pu, pu) && src[i] == 0
    requires LandsAt(e.off + off + HeadRoom(off % pu, pu), x, i)
    ensures SpimWrite(mem, true, pu, e, off, src).0[x] == 0
  {
    hide CeilTo, MiddleLen, Landed, FloorTo, PagedIndex, AfterTail;
    SpimPlanIn(mem, pu, e, off, src);
    PlanZero(SpimPlan(mem, pu, e, off, src), src, off % pu, pu, x, i);
  }

  /** Byte i of data sent in chunks from lo lands at x. */
  predicate LandsAt(lo: nat, x: nat, i: nat) {
    lo / PAGE <= x / PAGE && PagedIndex(lo, x) == i
  }

  lemma PlanZero(p: WritePlan, src: seq<byte>, a: nat, pu: nat, x: nat, i: nat)
    requires PlanIn(p, a, pu) && p.data == Landed(src, a, pu) && x < |p.mem|
    requires i < |src| && i < MiddleLen(|src|, a, pu) && src[i] == 0
    requires LandsAt(p.at + HeadRoom(a, pu), x, i)
    ensures AfterTail(p, true, a, pu).mem[x] == 0
  {
    hide CeilTo, MiddleLen, Landed, Stage, TailLen, FloorTo, PagedIndex, Patched;
    StagesFit(p, a, pu);
    WriteLayout(|src|, a, pu);
    var mid, m := p.at + HeadRoom(a, pu), MiddleLen(|src|, a, pu);
    MiddleSource(p, src, a, pu, i);
    CleanNeverStops(Progress(p.mem, false), p, p.start, HeadLen(a, pu));
    StageZero(AfterHead(p, true, a, pu), p, mid, m, x);
    StageZero(AfterMiddle(p, true, a, pu), p, mid + m, TailLen(a, |src|, pu), x);
  }

  lemma MiddleSource(p: WritePlan, src: seq<byte>, a: nat, pu: nat, i: nat)
    requires a < pu && p.data == Landed(src, a, pu) && p.at + |src| <= |p.mem| && i < MiddleLen(|src|, a, pu)
    ensures i < |src| && p.at + HeadRoom(a, pu) + i < |p.mem|
    ensures Patched(p.mem, p.at, p.data, p.at + HeadRoom(a, pu) + i) == src[i]
  {
    FloorToFacts(|src| - HeadRoom(a, pu), pu);
  }

  /** A middle run that leaves its page wraps to the start of that page, which lies before the request. */
  lemma WrapHits(pu: nat, e: Extent, off: nat, len: nat) returns (x: nat, i: nat)
    requires pu > 0 && IsPow2(pu) && e.off % pu == 0 && !MiddleStays(e.off + off, len, off % pu, pu)
    ensures x < e.off + off && i < MiddleLen(len, off % pu, pu)
    ensures LandsAt(e.off + off + HeadRoom(off % pu, pu), x, i)
  {
    hide IsPow2, MiddleLen;
    var lo := e.off + off + HeadRoom(off % pu, pu);
    StageAligned(pu, e, off, len);
    x, i := lo - lo % PAGE, PAGE - lo % PAGE;
    PageIsPow2();
    if pu <= PAGE {
      Pow2Divides(pu, PAGE);
      OffsetInPage(lo, pu);
    } else {
      Pow2Divides(PAGE, pu);
      ModDivides(lo, pu, PAGE);
    }
    PagedIndexIs(lo, x);
  }

  /** Over the serial driver, on a device that never fails, the write of every source over every content is the plain
      byte-array write exactly if it is in range, no middle run follows a partial head unit, and the middle run
      does not leave its page. The two faults never cancel out. */
  lemma SpimWriteIsByteWriteIff(pu: nat, e: Extent, total: nat, off: nat, len: nat)
    requires UnitExtent(pu, e, total)
    ensures WriteInRange(pu, e, off, len) && SentAsGiven(off % pu, len, pu)
            && MiddleStays(e.off + off, len, off % pu, pu) <==>
      forall mem: seq<byte>, src: seq<byte> | |mem| == total && |src| == len ::
        SpimWrite(mem, true, pu, e, off, src) == (ByteWrite(mem, e.off + off, src), 0)
  {
    hide IsPow2, SpimWrite, ByteWrite, SentAsGiven, MiddleStays, Landed;
    var a, at := off % pu, e.off + off;
    var erased: seq<byte>, zeros: seq<byte> := seq(total, _ => ERASED), seq(len, _ => 0);
    if !WriteInRange(pu, e, off, len) {
      Refused(erased, true, pu, e, off, zeros);
    } else if !MiddleStays(at, len, a, pu) {
      WrapShows(pu, e, total, off, len);
    } else {
      LandedIsSourceIff(len, a, pu);
      forall mem: seq<byte>, src: seq<byte> | |mem| == total && |src| == len
        ensures SpimWrite(mem, true, pu, e, off, src) == (ByteWrite(mem, at, Landed(src, a, pu)), 0)
      {
        SerialContent(mem, pu, e, off, src);
      }
      if !SentAsGiven(a, len, pu) {
        var src: seq<byte> :| |src| == len && Landed(src, a, pu) != src;
        ByteWriteTells(erased, at, Landed(src, a, pu), src);
      }
    }
  }

  // ---------------------------------------------------------------- the content of every write

  /** The byte that a padded unit carries for address y. */
  function UnitByte(mem: seq<byte>, at: nat, src: seq<byte>, y: nat): byte
    requires y < |mem|
  {
    if at <= y < at + |src| then src[y - at] else mem[y]
  }

  /** A byte of the head unit is ANDed with what the unit carries. */
  function HeadValue(mem: seq<byte>, at: nat, src: seq<byte>, a: nat, pu: nat, x: nat): byte
    requires a <= at && x < |mem|
  {
    if a > 0 && at - a <= x < at - a + pu then mem[x] & UnitByte(mem, at, src, x) else mem[x]
  }

  /** A byte that the chunks of a middle run of `m` bytes at `mid` hit is ANDed with the source, from its start. */
  function RunValue(was: byte, mid: nat, src: seq<byte>, m: nat, x: nat): byte {
    if mid / PAGE <= x / PAGE && PagedIndex(mid, x) < m && PagedIndex(mid, x) < |src| then was & src[PagedIndex(mid, x)]
    else was
  }

  /** A byte of the last unit, if bytes remain behind the first `run`, is ANDed with what the unit carries. */
  function TailValue(was: byte, mem: seq<byte>, at: nat, src: seq<byte>, run: nat, pu: nat, x: nat): byte
    requires x < |mem|
  {
    if run < |src| && at + run <= x < at + run + pu then was & UnitByte(mem, at, src, x) else was
  }

  /** The byte at x after a successful write at device address `at`, `a` bytes into a unit: the head unit if the
      request starts inside one, then the middle run in chunks that wrap inside their pages, from the start of `src`,
      then the last unit if bytes remain. */
  function WrittenByte(mem: seq<byte>, at: nat, src: seq<byte>, a: nat, pu: nat, x: nat): byte
    requires a < pu && a <= at && x < |mem|
  {
    var h, m := HeadRoom(a, pu), MiddleLen(|src|, a, pu);
    TailValue(RunValue(HeadValue(mem, at, src, a, pu, x), at + h, src, m, x), mem, at, src, h + m, pu, x)
  }

  /** The content of every write in range on a clean device, whether or not its middle run leaves its page. */
  lemma SpimWriteContent(mem: seq<byte>, pu: nat, e: Extent, off: nat, src: seq<byte>, x: nat)
    requires UnitExtent(pu, e, |mem|) && WriteInRange(pu, e, off, |src|) && x < |mem|
    ensures off % pu <= off && SpimWrite(mem, true, pu, e, off, src).1 == 0
    ensures SpimWrite(mem, true, pu, e, off, src).0[x] == WrittenByte(mem, e.off + off, src, off % pu, pu, x)
  {
    hide IsPow2, CeilTo, MiddleLen, Landed, AfterTail, FloorTo, TailLen, WrittenByte;
    var a, p := off % pu, SpimPlan(mem, pu, e, off, src);
    FloorToFacts(off, pu);
    SpimPlanIn(mem, pu, e, off, src);
    StageAligned(pu, e, off, |src|);
    TailInPage(pu, e, off, |src|);
    PlanByte(p, src, a, pu, x);
  }

  lemma PlanByte(p: WritePlan, src: seq<byte>, a: nat, pu: nat, x: nat)
    requires PlanIn(p, a, pu) && IsPow2(pu) && p.start % pu == 0 && p.data == Landed(src, a, pu) && x < |p.mem|
    requires StaysInPage(p.at + HeadRoom(a, pu) + MiddleLen(|src|, a, pu), TailLen(a, |src|, pu))
    ensures !AfterTail(p, true, a, pu).stopped
    ensures AfterTail(p, true, a, pu).mem[x] == WrittenByte(p.mem, p.at, src, a, pu, x)
  {
    hide IsPow2, CeilTo, MiddleLen, Landed, TailLen, StaysInPage, AfterHead, AfterMiddle, AfterTail, HeadValue,
      RunValue, TailValue;
    HeadStage(p, src, a, pu, x);
    MiddleStage(p, src, a, pu, x);
    TailStage(p, src, a, pu, x);
  }

  lemma HeadStage(p: WritePlan, src: seq<byte>, a: nat, pu: nat, x: nat)
    requires PlanIn(p, a, pu) && IsPow2(pu) && p.start % pu == 0 && p.data == Landed(src, a, pu) && x < |p.mem|
    ensures !AfterHead(p, true, a, pu).stopped
    ensures AfterHead(p, true, a, pu).mem[x] == HeadValue(p.mem, p.at, src, a, pu, x)
  {
    hide IsPow2, CeilTo, Landed, Stage, StaysInPage, Patched, UnitByte;
    StagesFit(p, a, pu);
    UnitInPage(p.start, pu);
    EmptyStays(p.start);
    StageInPage(Progress(p.mem, false), p, p.start, HeadLen(a, pu), x);
    HeadByte(p, src, a, pu, x);
  }

  lemma MiddleStage(p: WritePlan, src: seq<byte>, a: nat, pu: nat, x: nat)
    requires PlanIn(p, a, pu) && p.data == Landed(src, a, pu) && x < |p.mem| && !AfterHead(p, true, a, pu).stopped
    ensures !AfterMiddle(p, true, a, pu).stopped
    ensures AfterMiddle(p, true, a, pu).mem[x] ==
      RunValue(AfterHead(p, true, a, pu).mem[x], p.at + HeadRoom(a, pu), src, MiddleLen(|src|, a, pu), x)
  {
    hide CeilTo, MiddleLen, Landed, Stage, Patched, AfterHead, PagedIndex;
    StagesFit(p, a, pu);
    WriteLayout(|src|, a, pu);
    var mid, m := p.at + HeadRoom(a, pu), MiddleLen(|src|, a, pu);
    StageByte(AfterHead(p, true, a, pu), p, mid, m, x);
    if mid / PAGE <= x / PAGE && PagedIndex(mid, x) < m {
      MiddleSource(p, src, a, pu, PagedIndex(mid, x));
    }
  }

  lemma TailStage(p: WritePlan, src: seq<byte>, a: nat, pu: nat, x: nat)
    requires PlanIn(p, a, pu) && p.data == Landed(src, a, pu) && x < |p.mem| && !AfterMiddle(p, true, a, pu).stopped
    requires StaysInPage(p.at + HeadRoom(a, pu) + MiddleLen(|src|, a, pu), TailLen(a, |src|, pu))
    ensures !AfterTail(p, true, a, pu).stopped
    ensures AfterTail(p, true, a, pu).mem[x] ==
      TailValue(AfterMiddle(p, true, a, pu).mem[x], p.mem, p.at, src, HeadRoom(a, pu) + MiddleLen(|src|, a, pu), pu, x)
  {
    hide CeilTo, MiddleLen, Landed, Stage, Patched, AfterMiddle, StaysInPage, TailLen, UnitByte;
    StagesFit(p, a, pu);
    TailIs(|src|, a, pu);
    var last := p.at + HeadRoom(a, pu) + MiddleLen(|src|, a, pu);
    StageInPage(AfterMiddle(p, true, a, pu), p, last, TailLen(a, |src|, pu), x);
    TailByte(p, src, a, pu, x);
  }

  /** One complete call: a byte is ANDed with the data that lands on it. */
  lemma StageByte(s: Progress, p: WritePlan, lo: nat, n: nat, x: nat)
    requires lo + n <= |p.mem| && !s.stopped && x < |s.mem|
    ensures !Stage(s, true, p, lo, n).stopped
    ensures Stage(s, true, p, lo, n).mem[x] ==
      if lo / PAGE <= x / PAGE && PagedIndex(lo, x) < n
      then s.mem[x] & Patched(p.mem, p.at, p.data, lo + PagedIndex(lo, x)) else s.mem[x]
  {
    hide Patched;
    if n > 0 {
      var d := UnitData(p, lo, n);
      assert d[..n] == d;
    }
  }

  /** Inside its page a call changes its own bytes. */
  lemma StageInPage(s: Progress, p: WritePlan, lo: nat, n: nat, x: nat)
    requires lo + n <= |p.mem| && !s.stopped && x < |s.mem| && |s.mem| == |p.mem| && StaysInPage(lo, n)
    ensures !Stage(s, true, p, lo, n).stopped
    ensures Stage(s, true, p, lo, n).mem[x] ==
      if lo <= x < lo + n then s.mem[x] & Patched(p.mem, p.at, p.data, x) else s.mem[x]
  {
    hide Patched, Stage, PagedIndex, StaysInPage;
    StageByte(s, p, lo, n, x);
    FlatCase(lo, n, x);
  }

  lemma HeadByte(p: WritePlan, src: seq<byte>, a: nat, pu: nat, x: nat)
    requires a < pu && p.at == p.start + a && p.data == Landed(src, a, pu) && x < |p.mem|
    ensures a > 0 && p.start <= x < p.start + pu ==>
      Patched(p.mem, p.at, p.data, x) == UnitByte(p.mem, p.at, src, x)
  {
  }

  lemma TailByte(p: WritePlan, src: seq<byte>, a: nat, pu: nat, x: nat)
    requires a < pu && p.data == Landed(src, a, pu) && x < |p.mem|
    ensures p.at + HeadRoom(a, pu) + MiddleLen(|src|, a, pu) <= x ==>
      Patched(p.mem, p.at, p.data, x) == UnitByte(p.mem, p.at, src, x)
  {
    hide MiddleLen;
  }

  /** A write that another status bit cuts off: exactly the bytes of the first chunk of its first call. */
  lemma UncleanContent(mem: seq<byte>, pu: nat, e: Extent, off: nat, src: seq<byte>, x: nat)
    requires UnitExtent(pu, e, |mem|) && WriteInRange(pu, e, off, |src|) && x < |mem|
    ensures SpimWrite(mem, false, pu, e, off, src).1 == if off % pu == 0 && src == [] then 0 else -1
    ensures off % pu <= off
    ensures SpimWrite(mem, false, pu, e, off, src).0[x] == FirstChunkByte(mem, e.off + off, src, off % pu, pu, x)
  {
    hide IsPow2, CeilTo, MiddleLen, Landed, AfterTail, FloorTo, TailLen, FirstChunkByte, Stage;
    var a, p := off % pu, SpimPlan(mem, pu, e, off, src);
    FloorToFacts(off, pu);
    SpimWriteSucceedsIff(mem, false, pu, e, off, src);
    SpimPlanIn(mem, pu, e, off, src);
    StageAligned(pu, e, off, |src|);
    UncleanByte(p, src, a, pu, x);
    SpimWriteCodes(mem, false, pu, e, off, src);
  }

  lemma SpimWriteCodes(mem: seq<byte>, clean: bool, pu: nat, e: Extent, off: nat, src: seq<byte>)
    requires pu > 0 && e.off + e.size <= |mem|
    ensures SpimWrite(mem, clean, pu, e, off, src).1 in {0, -1}
  {
    hide AfterTail, CeilTo, FloorTo;
  }

  /** The byte at x after the first chunk of the first call: of the head unit, of the middle run, or of the only
      unit. */
  function FirstChunkByte(mem: seq<byte>, at: nat, src: seq<byte>, a: nat, pu: nat, x: nat): byte
    requires a < pu && a <= at && x < |mem|
  {
    var unit, m := if pu < PAGE then pu else PAGE, MiddleLen(|src|, a, pu);
    if a > 0 then
      if at - a <= x < at - a + unit then mem[x] & UnitByte(mem, at, src, x) else mem[x]
    else if m > 0 then
      if at / PAGE == x / PAGE && PageIndex(at, x) < m && PageIndex(at, x) < |src|
      then mem[x] & src[PageIndex(at, x)] else mem[x]
    else if at <= x < at + unit && src != [] then mem[x] & UnitByte(mem, at, src, x)
    else mem[x]
  }

  lemma UncleanByte(p: WritePlan, src: seq<byte>, a: nat, pu: nat, x: nat)
    requires PlanIn(p, a, pu) && IsPow2(pu) && p.start % pu == 0 && p.data == Landed(src, a, pu) && x < |p.mem|
    ensures AfterTail(p, false, a, pu).mem[x] == FirstChunkByte(p.mem, p.at, src, a, pu, x)
  {
    hide IsPow2, CeilTo, MiddleLen, Landed, TailLen, StaysInPage, Patched, PageIndex, Stage, UnitByte;
    StagesFit(p, a, pu);
    FirstStage(p, a, pu);
    TailIs(|src|, a, pu);
    UnitInPage(p.start, pu);
    HeadByte(p, src, a, pu, x);
    TailByte(p, src, a, pu, x);
    var s0, m := Progress(p.mem, false), MiddleLen(|src|, a, pu);
    if a > 0 {
      ChunkInPage(s0, p, p.start, pu, x);
    } else if m > 0 {
      FirstRunByte(p, src, pu, x);
    } else if src != [] {
      ChunkInPage(s0, p, p.start, pu, x);
    } else {
      NoStage(s0, false, p, p.start);
    }
  }

  lemma FirstRunByte(p: WritePlan, src: seq<byte>, pu: nat, x: nat)
    requires pu > 0 && p.data == Landed(src, 0, pu) && x < |p.mem| && MiddleLen(|src|, 0, pu) > 0
    requires p.at + |src| <= |p.mem| && p.at + MiddleLen(|src|, 0, pu) <= |p.mem|
    ensures Stage(Progress(p.mem, false), false, p, p.at, MiddleLen(|src|, 0, pu)).mem[x] ==
      if p.at / PAGE == x / PAGE && PageIndex(p.at, x) < MiddleLen(|src|, 0, pu) && PageIndex(p.at, x) < |src|
      then p.mem[x] & src[PageIndex(p.at, x)] else p.mem[x]
  {
    hide MiddleLen, Landed, Stage, Patched, PageIndex;
    ChunkByte(Progress(p.mem, false), p, p.at, MiddleLen(|src|, 0, pu), x);
    if PageIndex(p.at, x) < MiddleLen(|src|, 0, pu) {
      MiddleSource(p, src, 0, pu, PageIndex(p.at, x));
    }
  }

  /** On a device with another status bit set, a write is its first call that has anything to send. */
  lemma FirstStage(p: WritePlan, a: nat, pu: nat)
    requires PlanIn(p, a, pu)
    ensures p.at + |p.data| <= |p.mem| && p.start + HeadLen(a, pu) <= |p.mem|
    ensures p.at + MiddleLen(|p.data|, a, pu) <= |p.mem|
    ensures a == 0 && MiddleLen(|p.data|, a, pu) == 0 ==> p.start + TailLen(a, |p.data|, pu) <= |p.mem|
    ensures var s0, m, t := Progress(p.mem, false), MiddleLen(|p.data|, a, pu), TailLen(a, |p.data|, pu);
      AfterTail(p, false, a, pu) ==
        if a > 0 then Stage(s0, false, p, p.start, pu)
        else if m > 0 then Stage(s0, false, p, p.at, m)
        else Stage(s0, false, p, p.start, t)
  {
    hide CeilTo, MiddleLen, Stage, TailLen;
    StagesFit(p, a, pu);
    WriteLayout(|p.data|, a, pu);
    var s0, mid, m := Progress(p.mem, false), p.at + HeadRoom(a, pu), MiddleLen(|p.data|, a, pu);
    UncleanStage(s0, p, p.start, HeadLen(a, pu));
    UncleanStage(AfterHead(p, false, a, pu), p, mid, m);
    UncleanStage(AfterMiddle(p, false, a, pu), p, mid + m, TailLen(a, |p.data|, pu));
  }

  /** The first chunk of a call that is cut off. */
  lemma ChunkByte(s: Progress, p: WritePlan, lo: nat, n: nat, x: nat)
    requires 0 < n && lo + n <= |p.mem| && !s.stopped && x < |s.mem|
    ensures Stage(s, false, p, lo, n).mem[x] ==
      if lo / PAGE == x / PAGE && PageIndex(lo, x) < n
      then s.mem[x] & Patched(p.mem, p.at, p.data, lo + PageIndex(lo, x)) else s.mem[x]
  {
    hide Patched, PageIndex;
    var k := Reaching(false, n);
    var d := UnitData(p, lo, n)[..k];
    PageShift(lo, 0, x);
    if lo / PAGE <= x / PAGE {
      ChunkCase(lo, 0, k, x);
    }
  }

  lemma ChunkInPage(s: Progress, p: WritePlan, lo: nat, n: nat, x: nat)
    requires 0 < n && lo + n <= |p.mem| && !s.stopped && x < |s.mem| && |s.mem| == |p.mem| && StaysInPage(lo, n)
    ensures Stage(s, false, p, lo, n).mem[x] ==
      if lo <= x < lo + (if n < PAGE then n else PAGE) then s.mem[x] & Patched(p.mem, p.at, p.data, x) else s.mem[x]
  {
    hide Patched, Stage, PageIndex;
    ChunkByte(s, p, lo, n, x);
    PageShift(lo, 0, x);
    FlatCase(lo, if n < PAGE then n else PAGE, x);
    if lo / PAGE <= x / PAGE {
      ChunkCase(lo, 0, if n < PAGE then n else PAGE, x);
    }
  }

  lemma Refused(mem: seq<byte>, clean: bool, pu: nat, e: Extent, off: nat, src: seq<byte>)
    requires pu > 0 && e.off + e.size <= |mem| && !WriteInRange(pu, e, off, |src|)
    ensures SpimWrite(mem, clean, pu, e, off, src) == (mem, -1)
  {
  }

  /** Zeros written over an erased device clear a byte before the request. */
  lemma WrapShows(pu: nat, e: Extent, total: nat, off: nat, len: nat)
    requires UnitExtent(pu, e, total) && WriteInRange(pu, e, off, len)
    requires !MiddleStays(e.off + off, len, off % pu, pu)
    ensures var mem: seq<byte>, src: seq<byte> := seq(total, _ => ERASED), seq(len, _ => 0);
      && SpimWrite(mem, true, pu, e, off, src).0 != ByteWrite(mem, e.off + off, src)
      && exists x :: 0 <= x < total && !(e.off + off <= x < e.off + off + len)
           && SpimWrite(mem, true, pu, e, off, src).0[x] != mem[x]
  {
    hide IsPow2, SpimWrite, MiddleStays, MiddleLen, PagedIndex, FloorTo, CeilTo;
    var mem: seq<byte>, src: seq<byte> := seq(total, _ => ERASED), seq(len, _ => 0);
    var x, i := WrapHits(pu, e, off, len);
    MiddleInRequest(len, off % pu, pu);
    MiddleZero(mem, pu, e, off, src, x, i);
    assert SpimWrite(mem, true, pu, e, off, src).0[x] != mem[x];
  }

  /** 256 zeros at offset 128 of a page-aligned erased area: the call returns 0, and the second half of the data
      lands on the 128 bytes before the request. */
  lemma WrapBeforeRequest(mem: seq<byte>, src: seq<byte>, e: Extent)
    requires mem == seq(4096, _ => ERASED) && src == seq(256, _ => 0) && e == Extent(0, 4096, NVT_NVSPIM_SECTOR_SIZE)
    ensures SpimWrite(mem, true, 8, e, 128, src).1 == 0
    ensures forall x :: 0 <= x < 128 ==> SpimWrite(mem, true, 8, e, 128, src).0[x] == 0
  {
    hide SpimWrite, MiddleLen;
    assert MiddleLen(256, 0, 8) == 256 by {
      MiddleOf256();
    }
    SpimWriteSucceedsIff(mem, true, 8, e, 128, src);
    forall x | 0 <= x < 128 ensures SpimWrite(mem, true, 8, e, 128, src).0[x] == 0 {
      MiddleZero(mem, 8, e, 128, src, x, 128 + x);
    }
  }

  lemma MiddleOf256()
    ensures MiddleLen(256, 0, 8) == 256
  {
  }

  lemma MiddleInRequest(len: nat, a: nat, pu: nat)
    requires a < pu
    ensures MiddleLen(len, a, pu) <= len
  {
    if len > HeadRoom(a, pu) {
      FloorToFacts(len - HeadRoom(a, pu), pu);
    }
  }

  /** A write over the serial driver changes only bytes of its own request, for every source and content, exactly if
      it is refused or its middle run does not leave its page. */
  lemma SpimWriteStaysInsideIff(pu: nat, e: Extent, total: nat, off: nat, len: nat)
    requires UnitExtent(pu, e, total)
    ensures !WriteInRange(pu, e, off, len) || MiddleStays(e.off + off, len, off % pu, pu) <==>
      forall mem: seq<byte>, src: seq<byte>, x | |mem| == total && |src| == len && 0 <= x < total
        && !(e.off + off <= x < e.off + off + len) :: SpimWrite(mem, true, pu, e, off, src).0[x] == mem[x]
  {
    hide IsPow2, SpimWrite, MiddleStays, Landed;
    if !WriteInRange(pu, e, off, len) {
      forall mem: seq<byte>, src: seq<byte> | |mem| == total && |src| == len
        ensures SpimWrite(mem, true, pu, e, off, src) == (mem, -1)
      {
        Refused(mem, true, pu, e, off, src);
      }
    } else if MiddleStays(e.off + off, len, off % pu, pu) {
      forall mem: seq<byte>, src: seq<byte> | |mem| == total && |src| == len
        ensures SpimWrite(mem, true, pu, e, off, src)
             == (ByteWrite(mem, e.off + off, Landed(src, off % pu, pu)), 0)
      {
        SerialContent(mem, pu, e, off, src);
      }
    } else {
      WrapShows(pu, e, total, off, len);
    }
  }

  /** A write over the serial driver returns 0 exactly if it is in range and the device reports no other status
      bit, or has nothing to send. */
  lemma SpimWriteSucceedsIff(mem: seq<byte>, clean: bool, pu: nat, e: Extent, off: nat, src: seq<byte>)
    requires pu > 0 && e.off + e.size <= |mem|
    ensures SpimWrite(mem, clean, pu, e, off, src).1 == 0 <==>
      WriteInRange(pu, e, off, |src|) && (clean || (off % pu == 0 && src == []))
  {
    hide CeilTo, MiddleLen, Landed, FloorTo, Paged;
    if WriteInRange(pu, e, off, |src|) {
      var a, p := off % pu, SpimPlan(mem, pu, e, off, src);
      SpimPlanIn(mem, pu, e, off, src);
      StagesFit(p, a, pu);
      WriteLayout(|src|, a, pu);
      if src == [] && a == 0 {
        EmptyTail(0, 0, pu);
      }
    }
  }

  // ---------------------------------------------------------------- what an erase over the serial driver sets

  predicate Hits(addr: nat, x: nat) {
    BlockAddress(addr) <= x < BlockAddress(addr) + BLOCK
  }

  /** What an area erase on the serial flash erases: exactly the 4 KiB blocks that one of its steps hits,
      however often; the order and the repetitions do not show. */
  lemma {:induction false} ErasedIsUnionOfBlocks(mem: seq<byte>, start: nat, n: nat, x: nat)
    requires x < |mem|
    ensures StepsErased(mem, start, n)[x] ==
      if exists i :: 0 <= i < n && Hits(start + NVT_NVSPIM_SECTOR_SIZE * i, x) then ERASED else mem[x]
  {
    hide BlockAddress;
    if n > 0 {
      ErasedIsUnionOfBlocks(mem, start, n - 1, x);
    }
  }

  /** Below 16 MiB the blocks hit adjoin: they are those from the first step's to the last step's. */
  lemma {:induction false} StepsEraseRange(mem: seq<byte>, start: nat, n: nat)
    requires n > 0 && start + NVT_NVSPIM_SECTOR_SIZE * (n - 1) < 0x100_0000
    ensures StepsErased(mem, start, n) ==
      Fill(mem, FloorTo(start, BLOCK), FloorTo(start + NVT_NVSPIM_SECTOR_SIZE * (n - 1), BLOCK) + BLOCK)
  {
    hide FloorTo;
    var last := start + NVT_NVSPIM_SECTOR_SIZE * (n - 1);
    assert EraseAddress(last) == last;
    if n > 1 {
      StepsEraseRange(mem, start, n - 1);
      BlockNext(last - NVT_NVSPIM_SECTOR_SIZE, last);
      BlockMono(start, last - NVT_NVSPIM_SECTOR_SIZE);
    }
  }

  lemma BlockNext(x: nat, y: nat)
    requires y == x + NVT_NVSPIM_SECTOR_SIZE
    ensures FloorTo(y, BLOCK) == FloorTo(x, BLOCK) || FloorTo(y, BLOCK) == FloorTo(x, BLOCK) + BLOCK
  {
  }

  lemma BlockMono(x: nat, y: nat)
    requires x <= y
    ensures FloorTo(x, BLOCK) <= FloorTo(y, BLOCK)
  {
  }

  lemma BlockOfMeans(x: nat)
    ensures FloorTo(x, BLOCK) <= x < FloorTo(x, BLOCK) + BLOCK
    ensures FloorTo(x, BLOCK) % BLOCK == 0
  {
  }

  /** An erase of 256 bytes at 256 of a programmed device clears the whole first block, and nothing else. */
  lemma EraseAroundRequest(mem: seq<byte>, x: nat)
    requires mem == seq(8192, _ => 0) && x < 8192
    ensures AreaErased(mem, 256, 256)[x] == if x < 4096 then ERASED else 0
  {
    hide StepsErased, AreaErased;
    EraseMeans(mem, 256, 256, x);
    assert x < 4096 ==> Hits(256 + 256 * 0, x);
  }

  /** One of the commands of an erase, one every 256 bytes as long as fewer than `len` are covered, hits x. */
  ghost predicate Cleared(at: nat, len: nat, x: nat) {
    exists i: nat :: 256 * i < len && Hits(at + 256 * i, x)
  }

  /** An area erase of any length: a byte is cleared exactly if one of the commands, one every 256 bytes as long as
      fewer than `len` are covered, hits its 4 KiB block. */
  lemma EraseMeans(mem: seq<byte>, at: nat, len: nat, x: nat)
    requires x < |mem|
    ensures AreaErased(mem, at, len)[x] == if Cleared(at, len, x) then ERASED else mem[x]
  {
    hide StepsErased, StepsToCover, Hits;
    var n := StepsToCover(len, NVT_NVSPIM_SECTOR_SIZE);
    ErasedIsUnionOfBlocks(mem, at, n, x);
    forall i: nat ensures 256 * i < len <==> i < n {
      StepBelowIff(len, i);
    }
  }

  lemma StepBelowIff(len: nat, i: nat)
    ensures NVT_NVSPIM_SECTOR_SIZE * i < len <==> i < StepsToCover(len, NVT_NVSPIM_SECTOR_SIZE)
  {
  }

  /** Below 16 MiB it clears one range: from the block of its first byte to the block of its last command. */
  lemma EraseRange(mem: seq<byte>, at: nat, len: nat)
    requires len > 0 && at + len <= 0x100_0000
    ensures AreaErased(mem, at, len) ==
      Fill(mem, at / 4096 * 4096, (at + (len - 1) / 256 * 256) / 4096 * 4096 + 4096)
  {
    hide StepsErased, Fill;
    LastStep(len);
    LastCommand(len);
    StepsEraseRange(mem, at, StepsToCover(len, NVT_NVSPIM_SECTOR_SIZE));
  }

  lemma LastCommand(len: nat)
    requires len > 0
    ensures NVT_NVSPIM_SECTOR_SIZE * (StepsToCover(len, NVT_NVSPIM_SECTOR_SIZE) - 1) == (len - 1) / 256 * 256
  {
  }

  /** On a device of `total` bytes, an area erase on the serial flash erases exactly the requested bytes, over every
      content, if and only if it is empty, or offset and length are multiples of 4 KiB and the request ends within
      the first 16 MiB. */
  lemma SpimEraseIsByteEraseIff(start: nat, len: nat, total: nat)
    requires start + len <= total && total % BLOCK == 0
    ensures len == 0 || (start % BLOCK == 0 && len % BLOCK == 0 && start + len <= 0x100_0000) <==>
      forall mem: seq<byte> | |mem| == total :: AreaErased(mem, start, len) == Fill(mem, start, start + len)
  {
    hide FloorTo, StepsToCover, Fill, StepsErased;
    NoStepsNeeded();
    var n := StepsToCover(len, NVT_NVSPIM_SECTOR_SIZE);
    var zeros: seq<byte> := seq(total, _ => 0);
    if len == 0 {
      forall mem: seq<byte> ensures StepsErased(mem, start, n) == Fill(mem, start, start + len) {
        FillNext(mem, start, start, start);
        NoSteps(mem, start);
      }
    } else if start + len > 0x100_0000 {
      MissedAbove(zeros, start, n, start + len - 1);
      assert Fill(zeros, start, start + len)[start + len - 1] == ERASED;
    } else {
      ErasedEnds(start, len);
      LastStep(len);
      var lo, hi := FloorTo(start, BLOCK), FloorTo(start + NVT_NVSPIM_SECTOR_SIZE * (n - 1), BLOCK) + BLOCK;
      forall mem: seq<byte> ensures StepsErased(mem, start, n) == Fill(mem, lo, hi) {
        StepsEraseRange(mem, start, n);
      }
      if !(start % BLOCK == 0 && len % BLOCK == 0) {
        if start % BLOCK == 0 && start + len == total {
          ModAdd(total, start, BLOCK);
        }
        var x := if lo < start then lo else start + len;
        assert Fill(zeros, lo, hi)[x] == ERASED && Fill(zeros, start, start + len)[x] == 0;
      }
    }
  }

  /** No erase command reaches a byte above 16 MiB. */
  lemma MissedAbove(mem: seq<byte>, start: nat, n: nat, x: nat)
    requires 0x100_0000 <= x < |mem|
    ensures StepsErased(mem, start, n)[x] == mem[x]
  {
    hide FloorTo, StepsErased;
    ErasedIsUnionOfBlocks(mem, start, n, x);
    forall i: nat ensures !Hits(start + NVT_NVSPIM_SECTOR_SIZE * i, x) {
      BlockBelow(start + NVT_NVSPIM_SECTOR_SIZE * i);
    }
  }

  lemma BlockBelow(addr: nat)
    ensures BlockAddress(addr) + BLOCK <= 0x100_0000
  {
  }

  lemma NoStepsNeeded()
    ensures StepsToCover(0, NVT_NVSPIM_SECTOR_SIZE) == 0
  {
  }

  lemma ErasedEnds(start: nat, len: nat)
    requires len > 0
    ensures var n := StepsToCover(len, NVT_NVSPIM_SECTOR_SIZE);
      && n > 0
      && var lo, hi := FloorTo(start, BLOCK), FloorTo(start + NVT_NVSPIM_SECTOR_SIZE * (n - 1), BLOCK) + BLOCK;
         && lo <= start && lo < hi < start + len + BLOCK && (lo == start <==> start % BLOCK == 0)
         && (start % BLOCK == 0 ==> start + len <= hi && (hi == start + len <==> len % BLOCK == 0))
  {
    hide FloorTo, StepsToCover;
    LastStep(len);
    var last := start + NVT_NVSPIM_SECTOR_SIZE * (StepsToCover(len, NVT_NVSPIM_SECTOR_SIZE) - 1);
    FloorToFacts(start, BLOCK);
    FloorToFacts(last, BLOCK);
    BlockMono(start, last);
    if start % BLOCK == 0 {
      LastInBlock(start, StepsToCover(len, NVT_NVSPIM_SECTOR_SIZE) - 1);
      var hi := FloorTo(last, BLOCK) + BLOCK;
      ModAdd(FloorTo(last, BLOCK), BLOCK, BLOCK);
      if len % BLOCK == 0 {
        ModAdd(start, len, BLOCK);
        MultipleUnique(hi, start + len, BLOCK);
      }
      if hi == start + len {
        ModAdd(hi, start, BLOCK);
      }
    }
  }

  lemma LastStep(len: nat)
    requires len > 0
    ensures var n := StepsToCover(len, NVT_NVSPIM_SECTOR_SIZE);
      n > 0 && NVT_NVSPIM_SECTOR_SIZE * (n - 1) < len <= NVT_NVSPIM_SECTOR_SIZE * n
  {
  }

  lemma LastInBlock(start: nat, k: nat)
    requires start % BLOCK == 0
    ensures var last := start + NVT_NVSPIM_SECTOR_SIZE * k;
      last + NVT_NVSPIM_SECTOR_SIZE <= FloorTo(last, BLOCK) + BLOCK
  {
    hide FloorTo;
    var last := start + NVT_NVSPIM_SECTOR_SIZE * k;
    var end := FloorTo(last, BLOCK) + BLOCK;
    ModDivides(start, BLOCK, 256);
    MultipleMod(k, 256);
    ModAdd(start, k * 256, 256);
    FloorToFacts(last, BLOCK);
    ModDivides(FloorTo(last, BLOCK), BLOCK, 256);
    ModAdd(FloorTo(last, BLOCK), BLOCK, 256);
    MultipleGap(last, end, 256);
  }

  /** The erase command reaches the block of its address exactly below 16 MiB; above, another block is erased. */
  lemma EraseHitsItsBlockIff(addr: nat)
    ensures BlockAddress(addr) == FloorTo(addr, BLOCK) <==> addr < 0x100_0000
  {
    BlockOfMeans(addr);
    BlockOfMeans(EraseAddress(addr));
  }

  // ---------------------------------------------------------------- isolation of erases

  /** Whole blocks within the first 16 MiB; or everything that an erase command can reach. */
  predicate WholeBlocks(start: nat, size: nat) {
    || size == 0
    || (start % BLOCK == 0 && size % BLOCK == 0 && start + size <= 0x100_0000)
    || (start == 0 && size >= 0x100_0000)
  }

  /** The erases in an area never change a byte outside it, over every content, exactly if the area consists of
      whole 4 KiB blocks within the first 16 MiB, or contains all of the first 16 MiB. */
  lemma SpimEraseStaysInsideIff(start: nat, size: nat, total: nat)
    requires start + size <= total && total % BLOCK == 0
    ensures WholeBlocks(start, size) <==>
      forall mem: seq<byte>, at: nat, len: nat, x | |mem| == total && start <= at && at + len <= start + size
        && 0 <= x < total && !(start <= x < start + size) :: AreaErased(mem, at, len)[x] == mem[x]
  {
    hide StepsErased, Hits, WholeBlocks, StepsToCover;
    if WholeBlocks(start, size) {
      forall mem: seq<byte>, at: nat, len: nat, x | |mem| == total && start <= at && at + len <= start + size
        && 0 <= x < total && !(start <= x < start + size)
        ensures AreaErased(mem, at, len)[x] == mem[x]
      {
        ErasedIsUnionOfBlocks(mem, at, StepsToCover(len, NVT_NVSPIM_SECTOR_SIZE), x);
        forall i | 0 <= i < StepsToCover(len, NVT_NVSPIM_SECTOR_SIZE)
          ensures !Hits(at + NVT_NVSPIM_SECTOR_SIZE * i, x)
        {
          StepBelow(len, i);
          if Hits(at + NVT_NVSPIM_SECTOR_SIZE * i, x) {
            HitsInside(start, size, at + NVT_NVSPIM_SECTOR_SIZE * i, x);
          }
        }
      }
    } else {
      var y, x := HitsOutside(start, size, total);
      var mem: seq<byte> := seq(total, _ => 0);
      OneStep();
      ErasedIsUnionOfBlocks(mem, y, 1, x);
      assert Hits(y + NVT_NVSPIM_SECTOR_SIZE * 0, x);
      assert AreaErased(mem, y, 1)[x] != mem[x];
    }
  }

  lemma OneStep()
    ensures StepsToCover(1, NVT_NVSPIM_SECTOR_SIZE) == 1
  {
  }

  lemma StepBelow(len: nat, i: nat)
    requires i < StepsToCover(len, NVT_NVSPIM_SECTOR_SIZE)
    ensures NVT_NVSPIM_SECTOR_SIZE * i < len
  {
  }

  lemma HitsInside(start: nat, size: nat, y: nat, x: nat)
    requires WholeBlocks(start, size) && start <= y < start + size && Hits(y, x)
    ensures start <= x < start + size
  {
    hide FloorTo;
    BlockBelow(y);
    if start + size <= 0x100_0000 && size % BLOCK == 0 && start % BLOCK == 0 {
      assert EraseAddress(y) == y;
      BlockOfMeans(y);
      ModAdd(start, size, BLOCK);
      MultipleGap(FloorTo(y, BLOCK), start + size, BLOCK);
      if FloorTo(y, BLOCK) < start {
        MultipleGap(FloorTo(y, BLOCK), start, BLOCK);
      }
    }
  }

  lemma HitsOutside(start: nat, size: nat, total: nat) returns (y: nat, x: nat)
    requires start + size <= total && total % BLOCK == 0 && !WholeBlocks(start, size)
    ensures start <= y < start + size && x < total && !(start <= x < start + size) && Hits(y, x)
  {
    hide FloorTo;
    if start + size > 0x100_0000 {
      y := if start >= 0x100_0000 then start else 0x100_0000;
      x := BlockAddress(y);
      BlockBelow(y);
      BlockOfMeans(EraseAddress(y));
      assert start < 0x100_0000 ==> EraseAddress(y) == 0;
    } else if start % BLOCK != 0 {
      y := start;
      assert EraseAddress(y) == y;
      BlockOfMeans(y);
      x := FloorTo(y, BLOCK);
    } else {
      y, x := start + size - 1, start + size;
      assert EraseAddress(y) == y;
      BlockOfMeans(y);
      if FloorTo(y, BLOCK) + BLOCK == x {
        ModAdd(FloorTo(y, BLOCK), BLOCK, BLOCK);
        ModAdd(x, start, BLOCK);
      }
      if x == total {
        ModAdd(total, start, BLOCK);
      }
    }
  }
}
