/** Safety over whole runs on two devices: the devices do not disturb each other, and areas keep to themselves. */
module MixedLaws {
  import opened Bits
  import opened Words
  import opened FlatFlash
  import opened FlashLaws
  import opened FlashRuns
  import opened RunLaws
  import opened SpimNor
  import opened SpimAreaLayer
  import opened SpimAreaLaws
  import opened MixedRuns

  // ---------------------------------------------------------------- the two parts of a run

  /** The calls of a run on one of the two devices, in order. */
  function Part(calls: seq<MixedCall>, onChip: bool): seq<Call> {
    if calls == [] then []
    else (if calls[0].OnChip? == onChip then [calls[0].call] else []) + Part(calls[1..], onChip)
  }

  /** The replies to them. */
  function PartReplies(calls: seq<MixedCall>, replies: seq<Reply>, onChip: bool): seq<Reply>
    requires |calls| == |replies|
  {
    if calls == [] then []
    else (if calls[0].OnChip? == onChip then [replies[0]] else []) + PartReplies(calls[1..], replies[1..], onChip)
  }

  lemma {:induction false} PartMembers(calls: seq<MixedCall>, onChip: bool, k: nat) returns (i: nat)
    requires k < |Part(calls, onChip)|
    ensures i < |calls| && calls[i].OnChip? == onChip && calls[i].call == Part(calls, onChip)[k]
  {
    if calls[0].OnChip? == onChip && k == 0 {
      i := 0;
    } else {
      var j := PartMembers(calls[1..], onChip, if calls[0].OnChip? == onChip then k - 1 else k);
      i := j + 1;
    }
  }

  lemma PartsValid(b: Board, calls: seq<MixedCall>)
    requires ValidMixed(b, calls)
    ensures ValidCalls(|b.chips|, Part(calls, true)) && ValidCalls(|b.serials|, Part(calls, false))
  {
    forall k | 0 <= k < |Part(calls, true)|
      ensures Part(calls, true)[k].area < |b.chips|
      ensures Part(calls, true)[k].Write? ==> |Part(calls, true)[k].src| < TWO32
    {
      var i := PartMembers(calls, true, k);
      assert ValidCall(b, calls[i]);
    }
    forall k | 0 <= k < |Part(calls, false)|
      ensures Part(calls, false)[k].area < |b.serials|
      ensures Part(calls, false)[k].Write? ==> |Part(calls, false)[k].src| < TWO32
    {
      var i := PartMembers(calls, false, k);
      assert ValidCall(b, calls[i]);
    }
  }

  /** A run of calls on the serial flash alone. */
  function SerialRun(mem: seq<byte>, clean: bool, pu: nat, es: seq<Extent>, calls: seq<Call>): (seq<byte>, seq<Reply>)
    requires pu > 0 && ValidExtents(es, |mem|) && ValidCalls(|es|, calls)
    decreases |calls|
  {
    if calls == [] then (mem, [])
    else
      var (m, r) := SerialStep(mem, clean, pu, es[calls[0].area], calls[0]);
      SerialStepKeepsSize(mem, clean, pu, es[calls[0].area], calls[0]);
      var (m2, rs) := SerialRun(m, clean, pu, es, calls[1..]);
      (m2, [r] + rs)
  }

  lemma {:induction false} ChipPart(s: Mixed, b: Board, calls: seq<MixedCall>)
    requires ValidBoard(b, s) && ValidMixed(b, calls) && ValidCalls(|b.chips|, Part(calls, true))
    ensures |MixedRun(s, b, calls).1| == |calls|
    ensures FlatRun(s.chip, b.c, b.chips, Part(calls, true))
         == (MixedRun(s, b, calls).0.chip, PartReplies(calls, MixedRun(s, b, calls).1, true))
    decreases |calls|
  {
    hide FlatStep, MixedStep, MixedRun, PartReplies, Part;
    if calls == [] {
      NoMixedCalls(s, b, calls);
    } else {
      var s1, rs := MixedFirst(s, b, calls);
      PartsStep(calls);
      PartsValid(b, calls[1..]);
      ChipPart(s1, b, calls[1..]);
      RepliesStep(calls, rs);
    }
  }

  lemma {:induction false} SerialPart(s: Mixed, b: Board, calls: seq<MixedCall>)
    requires ValidBoard(b, s) && ValidMixed(b, calls) && ValidCalls(|b.serials|, Part(calls, false))
    ensures |MixedRun(s, b, calls).1| == |calls|
    ensures SerialRun(s.serial, b.clean, b.c.pu, b.serials, Part(calls, false))
         == (MixedRun(s, b, calls).0.serial, PartReplies(calls, MixedRun(s, b, calls).1, false))
    decreases |calls|
  {
    hide SerialStep, MixedStep, MixedRun, PartReplies, Part;
    if calls == [] {
      NoMixedCalls(s, b, calls);
    } else {
      var s1, rs := MixedFirst(s, b, calls);
      PartsStep(calls);
      PartsValid(b, calls[1..]);
      SerialPart(s1, b, calls[1..]);
      RepliesStep(calls, rs);
    }
  }

  /** The first call of a run: what it does to either device, and what is left. */
  lemma MixedFirst(s: Mixed, b: Board, calls: seq<MixedCall>) returns (s1: Mixed, rs: seq<Reply>)
    requires ValidBoard(b, s) && ValidMixed(b, calls) && calls != []
    ensures ValidBoard(b, s1) && ValidMixed(b, calls[1..]) && ValidCall(b, calls[0])
    ensures MixedRun(s, b, calls).0 == MixedRun(s1, b, calls[1..]).0 && rs == MixedRun(s, b, calls).1 && rs != []
    ensures rs[1..] == MixedRun(s1, b, calls[1..]).1
    ensures calls[0].OnChip? ==>
      (s1.chip, rs[0]) == FlatStep(s.chip, b.c, b.chips[calls[0].call.area], calls[0].call) && s1.serial == s.serial
    ensures calls[0].OnSerial? ==>
      && (s1.serial, rs[0]) == SerialStep(s.serial, b.clean, b.c.pu, b.serials[calls[0].call.area], calls[0].call)
      && s1.chip == s.chip
  {
    hide FlatStep, SerialStep;
    var step := MixedStep(s, b, calls[0]);
    MixedStepKeepsBoard(s, b, calls[0]);
    s1 := step.0;
    rs := [step.1] + MixedRun(s1, b, calls[1..]).1;
  }

  lemma NoMixedCalls(s: Mixed, b: Board, calls: seq<MixedCall>)
    requires ValidBoard(b, s) && ValidMixed(b, calls) && calls == []
    ensures MixedRun(s, b, calls) == (s, [])
    ensures forall onChip :: Part(calls, onChip) == [] && PartReplies(calls, [], onChip) == []
  {
  }

  lemma RepliesStep(calls: seq<MixedCall>, rs: seq<Reply>)
    requires calls != [] && |rs| == |calls|
    ensures var same, k, l := calls[0].OnChip?, calls[1..], rs[1..];
      && PartReplies(calls, rs, same) == [rs[0]] + PartReplies(k, l, same)
      && PartReplies(calls, rs, !same) == PartReplies(k, l, !same)
  {
  }

  lemma PartsStep(calls: seq<MixedCall>)
    requires calls != []
    ensures var k, on, off := calls[0].call, Part(calls, calls[0].OnChip?), Part(calls, !calls[0].OnChip?);
      && on != [] && on[0] == k && on[1..] == Part(calls[1..], calls[0].OnChip?)
      && off == Part(calls[1..], !calls[0].OnChip?)
  {
  }

  /** A mixed run is the on-chip run of its on-chip calls and the serial run of its serial calls: neither device
      shows in the content or the replies of the other, in whatever order the calls come. */
  lemma MixedRunSplits(s: Mixed, b: Board, calls: seq<MixedCall>)
    requires ValidBoard(b, s) && ValidMixed(b, calls)
    ensures ValidCalls(|b.chips|, Part(calls, true)) && ValidCalls(|b.serials|, Part(calls, false))
    ensures var (t, rs) := MixedRun(s, b, calls);
      && |rs| == |calls|
      && FlatRun(s.chip, b.c, b.chips, Part(calls, true)) == (t.chip, PartReplies(calls, rs, true))
      && SerialRun(s.serial, b.clean, b.c.pu, b.serials, Part(calls, false))
         == (t.serial, PartReplies(calls, rs, false))
  {
    hide FlatRun, SerialRun, MixedRun, Part, PartReplies;
    PartsValid(b, calls);
    ChipPart(s, b, calls);
    SerialPart(s, b, calls);
  }

  // ---------------------------------------------------------------- isolation

  /** Whatever the calls on the serial flash, an on-chip area that no on-chip call changes, and the bootloader, keep
      every byte. */
  lemma ChipIsolation(s: Mixed, b: Board, calls: seq<MixedCall>, boot: nat, j: nat)
    requires ValidBoard(b, s) && ValidMixed(b, calls)
    requires SectorAlignedMap(b.chips) && DisjointMap(b.chips, boot) && boot <= |s.chip.mem| && j < |b.chips|
    requires forall i :: 0 <= i < |calls| && calls[i].OnChip? && Changes(calls[i].call) ==> calls[i].call.area != j
    ensures var e, mem := b.chips[j], MixedRun(s, b, calls).0.chip.mem;
      && |mem| == |s.chip.mem|
      && mem[e.off..e.off + e.size] == s.chip.mem[e.off..e.off + e.size]
      && mem[..boot] == s.chip.mem[..boot]
  {
    hide FlatRun, MixedRun, SerialRun, Changes, Part, PartReplies;
    MixedRunSplits(s, b, calls);
    var part := Part(calls, true);
    forall k | 0 <= k < |part| && Changes(part[k]) ensures part[k].area != j {
      var i := PartMembers(calls, true, k);
    }
    AreaIsolation(s.chip, b.c, b.chips, part, boot, j);
  }

  /** What keeps a call on a serial area inside it: a write that is refused or whose middle run stays in its page; an
      erase in an area of whole blocks. */
  predicate KeepsInside(pu: nat, e: Extent, call: Call)
    requires pu > 0
  {
    match call
    case Write(_, off, src) =>
      !WriteInRange(pu, e, off, |src|) || MiddleStays(e.off + off, |src|, off % pu, pu)
    case Erase(_, _, _) => WholeBlocks(e.off, e.size)
    case _ => true
  }

  lemma SerialStepKeepsOutside(mem: seq<byte>, clean: bool, pu: nat, e: Extent, call: Call, x: nat)
    requires UnitExtent(pu, e, |mem|) && KeepsInside(pu, e, call) && x < |mem|
    requires |mem| % BLOCK == 0 && (Changes(call) ==> !Within(e, x))
    ensures |SerialStep(mem, clean, pu, e, call).0| == |mem|
    ensures SerialStep(mem, clean, pu, e, call).0[x] == mem[x]
  {
    hide IsPow2, SpimWrite, AreaErased, MiddleStays, WholeBlocks, WriteInRange;
    match call
    case Read(_, off, len) =>
    case Write(_, off, src) => SerialWriteStays(mem, clean, pu, e, off, src, x);
    case Erase(_, off, len) =>
      if off + len <= e.size {
        EraseStays(mem, e, e.off + off, len, x);
      }
    case IsEmpty(_, off, len) =>
  }

  lemma EraseStays(mem: seq<byte>, e: Extent, at: nat, len: nat, x: nat)
    requires e.off + e.size <= |mem| && |mem| % BLOCK == 0 && WholeBlocks(e.off, e.size)
    requires e.off <= at && at + len <= e.off + e.size && x < |mem| && !Within(e, x)
    ensures AreaErased(mem, at, len)[x] == mem[x]
  {
    hide AreaErased, WholeBlocks;
    SpimEraseStaysInsideIff(e.off, e.size, |mem|);
  }

  /** No run of calls that keep inside changes a byte of the serial flash outside the areas it writes or erases,
      whether or not other status bits make its programs fail. */
  lemma {:induction false} SerialRunKeepsOutside(mem: seq<byte>, clean: bool, pu: nat, es: seq<Extent>,
                                                 calls: seq<Call>, x: nat)
    requires pu > 0 && ValidExtents(es, |mem|) && ValidCalls(|es|, calls) && x < |mem| && |mem| % BLOCK == 0
    requires forall i :: 0 <= i < |es| ==> UnitExtent(pu, es[i], |mem|)
    requires forall i :: 0 <= i < |calls| ==> KeepsInside(pu, es[calls[i].area], calls[i])
    requires Untouched(es, calls, x)
    ensures |SerialRun(mem, clean, pu, es, calls).0| == |mem|
    ensures SerialRun(mem, clean, pu, es, calls).0[x] == mem[x]
    decreases |calls|
  {
    hide SerialStep, KeepsInside, Changes, Within, IsPow2;
    if calls != [] {
      var e := es[calls[0].area];
      SerialStepKeepsOutside(mem, clean, pu, e, calls[0], x);
      SerialRunKeepsOutside(SerialStep(mem, clean, pu, e, calls[0]).0, clean, pu, es, calls[1..], x);
    }
  }

  /** The serial content outside the changed serial areas survives every mixed run whose serial calls keep inside. */
  lemma SerialIsolation(s: Mixed, b: Board, calls: seq<MixedCall>, x: nat)
    requires ValidBoard(b, s) && ValidMixed(b, calls) && x < |s.serial| && |s.serial| % BLOCK == 0
    requires forall i :: 0 <= i < |b.serials| ==> UnitExtent(b.c.pu, b.serials[i], |s.serial|)
    requires forall i :: 0 <= i < |calls| && calls[i].OnSerial? ==>
      var e := b.serials[calls[i].call.area];
      KeepsInside(b.c.pu, e, calls[i].call) && (Changes(calls[i].call) ==> !Within(e, x))
    ensures |MixedRun(s, b, calls).0.serial| == |s.serial| && MixedRun(s, b, calls).0.serial[x] == s.serial[x]
  {
    hide FlatRun, MixedRun, SerialRun, Changes, Part, PartReplies, KeepsInside, Within, IsPow2;
    MixedRunSplits(s, b, calls);
    var part := Part(calls, false);
    forall k | 0 <= k < |part|
      ensures KeepsInside(b.c.pu, b.serials[part[k].area], part[k])
      ensures Changes(part[k]) ==> !Within(b.serials[part[k].area], x)
    {
      var i := PartMembers(calls, false, k);
      assert ValidCall(b, calls[i]);
    }
    SerialRunKeepsOutside(s.serial, b.clean, b.c.pu, b.serials, part, x);
  }

  // ---------------------------------------------------------------- the plain byte array

  /** A write that is sent as given in chunks inside their pages, an erase of whole blocks within 16 MiB; reads and
      emptiness checks are unrestricted. */
  predicate SerialPlain(pu: nat, e: Extent, call: Call)
    requires pu > 0
  {
    match call
    case Write(_, off, src) =>
      SentAsGiven(off % pu, |src|, pu) && MiddleStays(e.off + off, |src|, off % pu, pu)
    case Erase(_, off, len) =>
      len == 0 || ((e.off + off) % BLOCK == 0 && len % BLOCK == 0 && e.off + off + len <= 0x100_0000)
    case _ => true
  }

  lemma SerialStepIsByteStep(mem: seq<byte>, pu: nat, e: Extent, call: Call)
    requires UnitExtent(pu, e, |mem|) && e.size % pu == 0 && |mem| % BLOCK == 0 && SerialPlain(pu, e, call)
    ensures SerialStep(mem, true, pu, e, call) == ByteStep(mem, e, call)
  {
    hide IsPow2, SpimWrite, AreaErased, ByteWrite, Fill, SentAsGiven, MiddleStays, WriteInRange;
    match call
    case Read(_, off, len) =>
    case Write(_, off, src) => SerialWriteIsByteWrite(mem, pu, e, off, src);
    case Erase(_, off, len) => SerialEraseIsByteErase(mem, e, off, len);
    case IsEmpty(_, off, len) =>
  }

  lemma SerialWriteIsByteWrite(mem: seq<byte>, pu: nat, e: Extent, off: nat, src: seq<byte>)
    requires UnitExtent(pu, e, |mem|) && e.size % pu == 0
    requires SentAsGiven(off % pu, |src|, pu) && MiddleStays(e.off + off, |src|, off % pu, pu)
    ensures SpimWrite(mem, true, pu, e, off, src)
         == if off + |src| > e.size then (mem, -1) else (ByteWrite(mem, e.off + off, src), 0)
  {
    hide IsPow2, SpimWrite, ByteWrite, SentAsGiven, MiddleStays, WriteInRange;
    if off + |src| <= e.size {
      UnitsInside(pu, e, off, |src|);
      SpimWriteIsByteWriteIff(pu, e, |mem|, off, |src|);
    } else {
      BeyondArea(pu, e, off, |src|);
      Refused(mem, true, pu, e, off, src);
    }
  }

  lemma SerialEraseIsByteErase(mem: seq<byte>, e: Extent, off: nat, len: nat)
    requires e.off + e.size <= |mem| && |mem| % BLOCK == 0
    requires len == 0 || ((e.off + off) % BLOCK == 0 && len % BLOCK == 0 && e.off + off + len <= 0x100_0000)
    ensures off + len <= e.size ==> AreaErased(mem, e.off + off, len) == Fill(mem, e.off + off, e.off + off + len)
  {
    hide AreaErased, Fill;
    if off + len <= e.size {
      SpimEraseIsByteEraseIff(e.off + off, len, |mem|);
    }
  }

  lemma BeyondArea(pu: nat, e: Extent, off: nat, len: nat)
    requires pu > 0 && off + len > e.size
    ensures !WriteInRange(pu, e, off, len)
  {
  }

  /** Every run of plain calls on a clean serial flash, in or out of range, is the run on a plain byte array. */
  lemma {:induction false} SerialRunIsByteRun(mem: seq<byte>, pu: nat, es: seq<Extent>, calls: seq<Call>)
    requires pu > 0 && ValidExtents(es, |mem|) && ValidCalls(|es|, calls) && |mem| % BLOCK == 0
    requires forall i :: 0 <= i < |es| ==> UnitExtent(pu, es[i], |mem|) && es[i].size % pu == 0
    requires forall i :: 0 <= i < |calls| ==> SerialPlain(pu, es[calls[i].area], calls[i])
    ensures SerialRun(mem, true, pu, es, calls) == ByteRun(mem, es, calls)
    decreases |calls|
  {
    hide SerialStep, ByteStep, SerialPlain, IsPow2;
    if calls != [] {
      var e := es[calls[0].area];
      SerialStepKeepsSize(mem, true, pu, e, calls[0]);
      SerialStepIsByteStep(mem, pu, e, calls[0]);
      SerialRunIsByteRun(SerialStep(mem, true, pu, e, calls[0]).0, pu, es, calls[1..]);
    }
  }
}
