/**
What every call of a run does, whether it is refused, fails or succeeds, byte by byte and without the functions that
specify runs; and that a run is the only one whose calls do this.
*/
module CallLaws {
  import opened Bits
  import opened Words
  import opened FlatFlash
  import opened FlashLaws
  import opened FlashCuts
  import opened FlashRuns
  import opened RunLaws
  import opened SpimAreaLayer
  import opened SpimAreaLaws
  import opened MixedRuns

  // ---------------------------------------------------------------- one call on an on-chip area

  /** `n` operations from number t, up to the first that fails, leave the counter at `end`. */
  predicate Ran(fault: Schedule, t: nat, n: nat, end: nat) {
    if NoFaults(fault, t, n) then end == t + n
    else t < end <= t + n && fault(end - 1) && NoFaults(fault, t, end - 1 - t)
  }

  /** How many of them succeeded. */
  function Succeeded(fault: Schedule, t: nat, n: nat, end: nat): nat
    requires Ran(fault, t, n, end)
  {
    if NoFaults(fault, t, n) then n else end - 1 - t
  }

  predicate ReadMeans(f: Flat, fault: Schedule, e: Extent, off: nat, len: nat, g: Flat, reply: Reply)
    requires e.off + e.size <= |f.mem|
  {
    var n := (off % 4 + len + 3) / 4;
    if off + len > e.size then g == f && reply == Reply(-1, [])
    else
      && g.mem == f.mem && Ran(fault, f.tick, n, g.tick)
      && reply == if NoFaults(fault, f.tick, n) then Reply(0, f.mem[e.off + off..e.off + off + len])
                  else Reply(ARM_DRIVER_ERROR, [])
  }

  predicate CheckMeans(f: Flat, fault: Schedule, e: Extent, off: nat, len: nat, g: Flat, reply: Reply)
    requires e.off + e.size <= |f.mem|
  {
    var n := (off % 4 + len + 3) / 4;
    if off + len > e.size then g == f && reply == Reply(-1, [])
    else
      && g.mem == f.mem && Ran(fault, f.tick, n, g.tick)
      && reply ==
        if NoFaults(fault, f.tick, n) then
          Reply(if forall x :: e.off + off <= x < e.off + off + len ==> f.mem[x] == ERASED then 1 else 0,
                f.mem[e.off + off..e.off + off + len])
        else Reply(-1, [])
  }

  /** A write in range runs its padding reads and its units up to the first failure; the units that succeeded have the
      data that lands in them. It replies 0 exactly if none failed. */
  predicate WriteMeans(f: Flat, c: Config, e: Extent, off: nat, src: seq<byte>, g: Flat, reply: Reply)
    requires c.pu > 0
  {
    var a, at, fetches := off % c.pu, e.off + off, HeadFetches(off, c.pu) + TailFetches(off, |src|, c.pu);
    var ops := WriteOps(c, off, |src|);
    && |g.mem| == |f.mem| && reply.data == []
    && (reply.rc == 0 <==> WriteInRange(c.pu, e, off, |src|) && NoFaults(c.fault, f.tick, ops))
    && (reply.rc == 0 || reply.rc == -1)
    && if off + |src| > e.size then g == f
       else if !WriteInRange(c.pu, e, off, |src|) then
         g.mem == f.mem && Ran(c.fault, f.tick, HeadFetches(off, c.pu), g.tick)
       else
         && Ran(c.fault, f.tick, ops, g.tick)
         && var k := Succeeded(c.fault, f.tick, ops, g.tick);
            var cut := at - a + Span(c.kind, if k < fetches then 0 else k - fetches);
            forall x :: 0 <= x < |f.mem| ==>
              g.mem[x] == if at <= x < at + |src| && x < cut then f.mem[x] & LandedByte(src, a, c.pu, x - at)
                          else f.mem[x]
  }

  /** The source byte that lands at place t of a request that starts `a` bytes into a unit. */
  function LandedByte(src: seq<byte>, a: nat, pu: nat, t: nat): byte
    requires a < pu && t < |src|
  {
    var h, m := HeadRoom(a, pu), MiddleLen(|src|, a, pu);
    if h <= t < h + m then src[t - h] else src[t]
  }

  /** An erase on a sector clears the sectors that cover it, up to the first that fails. */
  predicate EraseMeaning(f: Flat, fault: Schedule, e: Extent, off: nat, len: nat, g: Flat, reply: Reply)
    requires e.sector > 0
  {
    var n, at := (len + e.sector - 1) / e.sector, e.off + off;
    && |g.mem| == |f.mem|
    && if off + len > e.size then g == f && reply == Reply(-1, [])
       else if len > 0 && at % e.sector != 0 then g == f && reply == Reply(ARM_DRIVER_ERROR_PARAMETER, [])
       else
         && Ran(fault, f.tick, n, g.tick)
         && reply == Reply(if NoFaults(fault, f.tick, n) then 0 else ARM_DRIVER_ERROR, [])
         && forall x :: 0 <= x < |f.mem| ==>
              g.mem[x] == if at <= x < at + Succeeded(fault, f.tick, n, g.tick) * e.sector then ERASED else f.mem[x]
  }

  predicate CallMeans(f: Flat, c: Config, e: Extent, call: Call, g: Flat, reply: Reply)
    requires c.pu > 0 && e.sector > 0 && e.off + e.size <= |f.mem|
  {
    match call
    case Read(_, off, len) => ReadMeans(f, c.fault, e, off, len, g, reply)
    case Write(_, off, src) => WriteMeans(f, c, e, off, src, g, reply)
    case Erase(_, off, len) => EraseMeaning(f, c.fault, e, off, len, g, reply)
    case IsEmpty(_, off, len) => CheckMeans(f, c.fault, e, off, len, g, reply)
  }

  lemma RanTo(fault: Schedule, t: nat, n: nat)
    ensures var k := FirstFault(fault, t, n);
      && Ran(fault, t, n, After(t, k, n)) && Succeeded(fault, t, n, After(t, k, n)) == k
      && (NoFaults(fault, t, n) <==> k == n)
  {
    FirstFaultMeans(fault, t, n, FirstFault(fault, t, n));
    FirstFaultMeans(fault, t, n, n);
  }

  lemma WriteStep(f: Flat, c: Config, e: Extent, off: nat, src: seq<byte>)
    requires c.pu > 0
    ensures var (g, rc) := FlatWrite(f, c, e, off, src); WriteMeans(f, c, e, off, src, g, Reply(rc, []))
  {
    hide FirstFault, FloorTo, CeilTo, HeadFetches, TailFetches, Units, Span, MiddleLen, Landed, Ran, Succeeded;
    RanTo(c.fault, f.tick, HeadFetches(off, c.pu));
    RanTo(c.fault, f.tick, WriteOps(c, off, |src|));
    FloorToFacts(off, c.pu);
    forall t | 0 <= t < |src| ensures Landed(src, off % c.pu, c.pu)[t] == LandedByte(src, off % c.pu, c.pu, t) {
      LandedAs(src, off % c.pu, c.pu, t);
    }
  }

  lemma LandedAs(src: seq<byte>, a: nat, pu: nat, t: nat)
    requires a < pu && t < |src|
    ensures Landed(src, a, pu)[t] == LandedByte(src, a, pu, t)
  {
  }

  /** Every call does this. */
  lemma StepMeans(f: Flat, c: Config, e: Extent, call: Call)
    requires c.pu > 0 && e.sector > 0 && e.off + e.size <= |f.mem|
    ensures var (g, r) := FlatStep(f, c, e, call); CallMeans(f, c, e, call, g, r)
  {
    hide FirstFault, FlatWrite, WriteMeans, Ran;
    match call
    case Read(_, off, len) => RanTo(c.fault, f.tick, WordsTouched(off, len));
    case Write(_, off, src) => WriteStep(f, c, e, off, src);
    case Erase(_, off, len) => RanTo(c.fault, f.tick, StepsToCover(len, e.sector));
    case IsEmpty(_, off, len) => RanTo(c.fault, f.tick, WordsTouched(off, len));
  }

  /** What a call does leaves nothing open: state and reply are determined. */
  lemma CallMeansOne(f: Flat, c: Config, e: Extent, call: Call, g1: Flat, r1: Reply, g2: Flat, r2: Reply)
    requires c.pu > 0 && e.sector > 0 && e.off + e.size <= |f.mem|
    requires CallMeans(f, c, e, call, g1, r1) && CallMeans(f, c, e, call, g2, r2)
    ensures g1 == g2 && r1 == r2
  {
    hide LandedByte, WordsTouched, HeadFetches, TailFetches, WriteOps, WriteInRange, NoFaults;
    match call
    case Read(_, off, len) =>
      RanOnce(c.fault, f.tick, (off % 4 + len + 3) / 4, g1.tick, g2.tick);
    case Write(_, off, src) =>
      RanOnce(c.fault, f.tick, HeadFetches(off, c.pu), g1.tick, g2.tick);
      RanOnce(c.fault, f.tick, WriteOps(c, off, |src|), g1.tick, g2.tick);
      assert g1.mem == g2.mem;
    case Erase(_, off, len) =>
      RanOnce(c.fault, f.tick, (len + e.sector - 1) / e.sector, g1.tick, g2.tick);
      assert g1.mem == g2.mem;
    case IsEmpty(_, off, len) =>
      RanOnce(c.fault, f.tick, (off % 4 + len + 3) / 4, g1.tick, g2.tick);
  }

  lemma RanOnce(fault: Schedule, t: nat, n: nat, end1: nat, end2: nat)
    ensures Ran(fault, t, n, end1) && Ran(fault, t, n, end2) ==> end1 == end2
  {
  }

  // ---------------------------------------------------------------- every call of a run

  /** The states and replies of a run, one call after the other. */
  predicate Follows(states: seq<Flat>, replies: seq<Reply>, f: Flat, c: Config, es: seq<Extent>, calls: seq<Call>)
    requires c.pu > 0 && ValidExtents(es, |f.mem|) && ValidCalls(|es|, calls)
  {
    && |states| == |calls| + 1 && |replies| == |calls| && states[0] == f
    && (forall i :: 0 <= i < |states| ==> |states[i].mem| == |f.mem|)
    && forall i :: 0 <= i < |calls| ==> Step(states[i], c, es[calls[i].area], calls[i], states[i + 1], replies[i])
  }

  predicate Step(f: Flat, c: Config, e: Extent, call: Call, g: Flat, reply: Reply) {
    c.pu > 0 && e.sector > 0 && e.off + e.size <= |f.mem| && CallMeans(f, c, e, call, g, reply)
  }

  /** The flat run follows its calls, plain or not, failing or not. */
  lemma {:induction false} RunFollows(f: Flat, c: Config, es: seq<Extent>, calls: seq<Call>) returns (states: seq<Flat>)
    requires c.pu > 0 && ValidExtents(es, |f.mem|) && ValidCalls(|es|, calls)
    ensures var (g, replies) := FlatRun(f, c, es, calls);
      Follows(states, replies, f, c, es, calls) && states[|calls|] == g
    decreases |calls|
  {
    hide FlatStep, CallMeans;
    if calls == [] {
      states := [f];
    } else {
      var g, r := FirstCall(f, c, es, calls);
      StepMeans(f, c, es[calls[0].area], calls[0]);
      var rest := RunFollows(g, c, es, calls[1..]);
      states := [f] + rest;
      FollowsCons(states, f, c, es, calls, g, r, rest, FlatRun(g, c, es, calls[1..]).1);
    }
  }

  lemma FollowsCons(states: seq<Flat>, f: Flat, c: Config, es: seq<Extent>, calls: seq<Call>, g: Flat, r: Reply,
                    rest: seq<Flat>, rs: seq<Reply>)
    requires c.pu > 0 && ValidExtents(es, |f.mem|) && ValidCalls(|es|, calls) && calls != [] && |g.mem| == |f.mem|
    requires ValidCalls(|es|, calls[1..]) && Follows(rest, rs, g, c, es, calls[1..]) && states == [f] + rest
    requires CallMeans(f, c, es[calls[0].area], calls[0], g, r)
    ensures Follows(states, [r] + rs, f, c, es, calls)
  {
    hide CallMeans;
    var replies := [r] + rs;
    forall i | 0 <= i < |calls|
      ensures Step(states[i], c, es[calls[i].area], calls[i], states[i + 1], replies[i])
    {
      if i > 0 {
        assert calls[1..][i - 1] == calls[i] && rest[i - 1] == states[i] && rest[i] == states[i + 1];
      }
    }
  }

  /** Nothing else does: states and replies that follow the calls are those of the flat run. */
  lemma {:induction false} RunIsOnlyOne(states: seq<Flat>, replies: seq<Reply>, f: Flat, c: Config, es: seq<Extent>,
                                        calls: seq<Call>)
    requires c.pu > 0 && ValidExtents(es, |f.mem|) && ValidCalls(|es|, calls)
    requires Follows(states, replies, f, c, es, calls)
    ensures FlatRun(f, c, es, calls) == (states[|calls|], replies)
    decreases |calls|
  {
    hide FlatStep, CallMeans;
    if calls != [] {
      var g, r := FirstCall(f, c, es, calls);
      var e := es[calls[0].area];
      StepMeans(f, c, e, calls[0]);
      assert Step(states[0], c, e, calls[0], states[1], replies[0]);
      CallMeansOne(f, c, e, calls[0], g, r, states[1], replies[0]);
      FollowsTail(states, replies, f, c, es, calls);
      RunIsOnlyOne(states[1..], replies[1..], g, c, es, calls[1..]);
      assert replies == [replies[0]] + replies[1..];
    }
  }

  lemma FollowsTail(states: seq<Flat>, replies: seq<Reply>, f: Flat, c: Config, es: seq<Extent>, calls: seq<Call>)
    requires c.pu > 0 && ValidExtents(es, |f.mem|) && ValidCalls(|es|, calls) && calls != []
    requires Follows(states, replies, f, c, es, calls)
    ensures |states[1].mem| == |f.mem| && ValidCalls(|es|, calls[1..])
    ensures Follows(states[1..], replies[1..], states[1], c, es, calls[1..])
  {
    hide CallMeans;
    var l, rs, k := states[1..], replies[1..], calls[1..];
    forall i | 0 <= i < |k| ensures Step(l[i], c, es[k[i].area], k[i], l[i + 1], rs[i]) {
      assert Step(states[i + 1], c, es[calls[i + 1].area], calls[i + 1], states[i + 2], replies[i + 1]);
    }
  }

  /** A run of one misaligned write: twelve bytes, four bytes into a unit of eight, over an erased area. The reply is
      0, and the middle run repeats the first bytes. */
  lemma MisalignedRun(calls: seq<Call>, src: seq<byte>, es: seq<Extent>)
    requires src == [1, 2, 3, 4, 5, 6, 7, 8, 9, 10, 11, 12] && calls == [Write(0, 4, src)] && es == [SmallArea()]
    ensures ValidExtents(es, |Erased32().mem|) && ValidCalls(|es|, calls) && SmallConfig().pu > 0
    ensures MisalignedOutcome(FlatRun(Erased32(), SmallConfig(), es, calls))
  {
    hide FlatWrite, Erased32, HoldsFrom;
    MisalignedExample();
    OverErased32(0, []);
    var g, r := FirstCall(Erased32(), SmallConfig(), es, calls);
    NoCalls(g, SmallConfig(), es, calls[1..]);
  }

  predicate MisalignedOutcome(run: (Flat, seq<Reply>)) {
    && run.1 == [Reply(0, [])]
    && HoldsFrom(run.0.mem, 4, [1, 2, 3, 4] + [1, 2, 3, 4, 5, 6, 7, 8])
  }

  // ---------------------------------------------------------------- calls on the serial flash

  /** What a call on a serial area does, byte by byte; `clean` if the device has no other status bit set. */
  ghost predicate SerialMeans(mem: seq<byte>, clean: bool, pu: nat, e: Extent, call: Call, after: seq<byte>,
                              reply: Reply)
    requires pu > 0 && e.off + e.size <= |mem|
  {
    && |after| == |mem|
    && match call
       case Read(_, off, len) =>
         && after == mem
         && reply == if off + len > e.size then Reply(-1, [])
                     else Reply(0, mem[e.off + off..e.off + off + len])
       case Write(_, off, src) =>
         if !WriteInRange(pu, e, off, |src|) then after == mem && reply == Reply(-1, [])
         else
           && reply == Reply(if clean || (off % pu == 0 && src == []) then 0 else -1, [])
           && forall x :: 0 <= x < |mem| ==> after[x] == SerialByte(mem, clean, pu, e, off, src, x)
       case Erase(_, off, len) =>
         if off + len > e.size then after == mem && reply == Reply(-1, [])
         else
           && reply == Reply(0, [])
           && forall x :: 0 <= x < |mem| ==> after[x] == if Cleared(e.off + off, len, x) then ERASED else mem[x]
       case IsEmpty(_, off, len) =>
         && after == mem
         && reply == if off + len > e.size then Reply(-1, [])
                     else
                       Reply(if AllErased(mem, e.off + off, len) then 1 else 0,
                             mem[e.off + off..e.off + off + len])
  }

  predicate AllErased(mem: seq<byte>, at: nat, len: nat)
    requires at + len <= |mem|
  {
    forall x :: at <= x < at + len ==> mem[x] == ERASED
  }

  function SerialByte(mem: seq<byte>, clean: bool, pu: nat, e: Extent, off: nat, src: seq<byte>, x: nat): byte
    requires pu > 0 && x < |mem|
  {
    FloorToFacts(off, pu);
    if clean then WrittenByte(mem, e.off + off, src, off % pu, pu, x)
    else FirstChunkByte(mem, e.off + off, src, off % pu, pu, x)
  }

  lemma SerialStepMeans(mem: seq<byte>, clean: bool, pu: nat, e: Extent, call: Call)
    requires UnitExtent(pu, e, |mem|)
    ensures var (after, reply) := SerialStep(mem, clean, pu, e, call);
      SerialMeans(mem, clean, pu, e, call, after, reply)
  {
    hide IsPow2, SpimWrite, AreaErased, WrittenByte, FirstChunkByte, WriteInRange, Cleared;
    match call
    case Read(_, off, len) =>
    case Write(_, off, src) => SerialWriteMeans(mem, clean, pu, e, off, src);
    case Erase(_, off, len) => SerialEraseMeans(mem, e.off + off, len);
    case IsEmpty(_, off, len) =>
  }

  lemma SerialEraseMeans(mem: seq<byte>, at: nat, len: nat)
    ensures forall x :: 0 <= x < |mem| ==>
      AreaErased(mem, at, len)[x] == if Cleared(at, len, x) then ERASED else mem[x]
  {
    hide AreaErased, Cleared;
    forall x | 0 <= x < |mem| ensures AreaErased(mem, at, len)[x] == if Cleared(at, len, x) then ERASED else mem[x] {
      EraseMeans(mem, at, len, x);
    }
  }

  lemma SerialWriteMeans(mem: seq<byte>, clean: bool, pu: nat, e: Extent, off: nat, src: seq<byte>)
    requires UnitExtent(pu, e, |mem|)
    ensures !WriteInRange(pu, e, off, |src|) ==> SpimWrite(mem, clean, pu, e, off, src) == (mem, -1)
    ensures WriteInRange(pu, e, off, |src|) ==>
      && SpimWrite(mem, clean, pu, e, off, src).1 == (if clean || (off % pu == 0 && src == []) then 0 else -1)
      && forall x :: 0 <= x < |mem| ==>
           SpimWrite(mem, clean, pu, e, off, src).0[x] == SerialByte(mem, clean, pu, e, off, src, x)
  {
    hide IsPow2, WrittenByte, FirstChunkByte, WriteInRange, AfterTail, SpimWrite;
    if !WriteInRange(pu, e, off, |src|) {
      Refused(mem, clean, pu, e, off, src);
    } else {
      SpimWriteSucceedsIff(mem, clean, pu, e, off, src);
      SpimWriteCodes(mem, clean, pu, e, off, src);
      forall x | 0 <= x < |mem|
        ensures SpimWrite(mem, clean, pu, e, off, src).0[x] == SerialByte(mem, clean, pu, e, off, src, x)
      {
        if clean {
          SpimWriteContent(mem, pu, e, off, src, x);
        } else {
          UncleanContent(mem, pu, e, off, src, x);
        }
      }
    }
  }

  lemma SerialMeansOne(mem: seq<byte>, clean: bool, pu: nat, e: Extent, call: Call, m1: seq<byte>, r1: Reply,
                       m2: seq<byte>, r2: Reply)
    requires pu > 0 && e.off + e.size <= |mem|
    requires SerialMeans(mem, clean, pu, e, call, m1, r1) && SerialMeans(mem, clean, pu, e, call, m2, r2)
    ensures m1 == m2 && r1 == r2
  {
    hide SerialByte, WriteInRange, Cleared;
  }

  // ---------------------------------------------------------------- every call of a mixed run

  /** A call on one device does there what it would do alone, and nothing on the other. */
  ghost predicate MixedMeans(s: Mixed, b: Board, call: MixedCall, t: Mixed, reply: Reply) {
    && ValidBoard(b, s) && ValidCall(b, call)
    && match call
       case OnChip(k) => t.serial == s.serial && Step(s.chip, b.c, b.chips[k.area], k, t.chip, reply)
       case OnSerial(k) =>
         t.chip == s.chip && SerialMeans(s.serial, b.clean, b.c.pu, b.serials[k.area], k, t.serial, reply)
  }

  ghost predicate FollowsMixed(states: seq<Mixed>, replies: seq<Reply>, s: Mixed, b: Board, calls: seq<MixedCall>) {
    && |states| == |calls| + 1 && |replies| == |calls| && states[0] == s
    && forall i :: 0 <= i < |calls| ==> MixedMeans(states[i], b, calls[i], states[i + 1], replies[i])
  }

  predicate UnitBoard(b: Board, s: Mixed) {
    forall i :: 0 <= i < |b.serials| ==> UnitExtent(b.c.pu, b.serials[i], |s.serial|)
  }

  lemma MixedStepMeans(s: Mixed, b: Board, call: MixedCall)
    requires ValidBoard(b, s) && ValidCall(b, call) && UnitBoard(b, s)
    ensures var (t, r) := MixedStep(s, b, call); MixedMeans(s, b, call, t, r)
  {
    hide FlatStep, SerialStep, CallMeans, SerialMeans, IsPow2;
    match call
    case OnChip(k) => StepMeans(s.chip, b.c, b.chips[k.area], k);
    case OnSerial(k) => SerialStepMeans(s.serial, b.clean, b.c.pu, b.serials[k.area], k);
  }

  lemma MixedMeansOne(s: Mixed, b: Board, call: MixedCall, t1: Mixed, r1: Reply, t2: Mixed, r2: Reply)
    requires MixedMeans(s, b, call, t1, r1) && MixedMeans(s, b, call, t2, r2)
    ensures t1 == t2 && r1 == r2
  {
    hide CallMeans, SerialMeans;
    match call
    case OnChip(k) => CallMeansOne(s.chip, b.c, b.chips[k.area], k, t1.chip, r1, t2.chip, r2);
    case OnSerial(k) =>
      SerialMeansOne(s.serial, b.clean, b.c.pu, b.serials[k.area], k, t1.serial, r1, t2.serial, r2);
  }

  /** The mixed run follows its calls. */
  lemma {:induction false} MixedFollows(s: Mixed, b: Board, calls: seq<MixedCall>) returns (states: seq<Mixed>)
    requires ValidBoard(b, s) && ValidMixed(b, calls) && UnitBoard(b, s)
    ensures var (t, replies) := MixedRun(s, b, calls);
      FollowsMixed(states, replies, s, b, calls) && states[|calls|] == t
    decreases |calls|
  {
    hide MixedStep, MixedMeans;
    if calls == [] {
      states := [s];
    } else {
      assert ValidCall(b, calls[0]);
      var step := MixedStep(s, b, calls[0]);
      MixedStepKeepsBoard(s, b, calls[0]);
      MixedStepMeans(s, b, calls[0]);
      var rest := MixedFollows(step.0, b, calls[1..]);
      states := [s] + rest;
      ghost var rs := MixedRun(step.0, b, calls[1..]).1;
      forall i | 0 <= i < |calls| ensures MixedMeans(states[i], b, calls[i], states[i + 1], ([step.1] + rs)[i]) {
        if i > 0 {
          assert MixedMeans(rest[i - 1], b, calls[1..][i - 1], rest[i], rs[i - 1]);
        }
      }
    }
  }

  /** Nothing else does. */
  lemma {:induction false} MixedIsOnlyOne(states: seq<Mixed>, replies: seq<Reply>, s: Mixed, b: Board,
                                          calls: seq<MixedCall>)
    requires ValidBoard(b, s) && ValidMixed(b, calls) && UnitBoard(b, s) && FollowsMixed(states, replies, s, b, calls)
    ensures MixedRun(s, b, calls) == (states[|calls|], replies)
    decreases |calls|
  {
    hide MixedStep, MixedMeans;
    if calls != [] {
      assert ValidCall(b, calls[0]);
      var step := MixedStep(s, b, calls[0]);
      MixedStepKeepsBoard(s, b, calls[0]);
      MixedStepMeans(s, b, calls[0]);
      assert MixedMeans(states[0], b, calls[0], states[1], replies[0]);
      MixedMeansOne(s, b, calls[0], step.0, step.1, states[1], replies[0]);
      var l, rs, k := states[1..], replies[1..], calls[1..];
      forall i | 0 <= i < |k| ensures MixedMeans(l[i], b, k[i], l[i + 1], rs[i]) {
        assert MixedMeans(states[i + 1], b, calls[i + 1], states[i + 2], replies[i + 1]);
      }
      MixedIsOnlyOne(l, rs, step.0, b, k);
      assert replies == [replies[0]] + rs;
    }
  }
}
