/** When a write can be cut in two, and the two concrete requests that show the misplaced middle run. */
module FlashCuts {
  import opened Bits
  import opened Words
  import opened FlatFlash
  import opened FlashLaws

  // ---------------------------------------------------------------- cutting a write in two

  /** The source index of the byte that lands at place t of a request. */
  function LandedIndex(t: nat, len: nat, a: nat, pu: nat): nat
    requires a < pu
  {
    var h, m := HeadRoom(a, pu), MiddleLen(len, a, pu);
    if h <= t < h + m then t - h else t
  }

  lemma LandedAt(src: seq<byte>, a: nat, pu: nat, t: nat)
    requires a < pu && t < |src|
    ensures LandedIndex(t, |src|, a, pu) <= t && Landed(src, a, pu)[t] == src[LandedIndex(t, |src|, a, pu)]
  {
  }

  /** The first piece is empty; or the second piece is sent as given, and the request starts on a program unit or
      its middle run is that of the first piece. */
  predicate CutsCleanly(n1: nat, n2: nat, a: nat, pu: nat)
    requires a < pu
  {
    n1 == 0
    || (SentAsGiven((a + n1) % pu, n2, pu) && (a == 0 || MiddleLen(n1, a, pu) == MiddleLen(n1 + n2, a, pu)))
  }

  /** The source index of the byte that lands at place t of two adjoining requests. */
  function CutIndex(t: nat, n1: nat, n2: nat, a: nat, pu: nat): nat
    requires a < pu
  {
    if t < n1 then LandedIndex(t, n1, a, pu) else n1 + LandedIndex(t - n1, n2, (a + n1) % pu, pu)
  }

  lemma MiddleInside(len: nat, a: nat, pu: nat)
    requires a < pu
    ensures MiddleLen(len, a, pu) > 0 ==> HeadRoom(a, pu) + MiddleLen(len, a, pu) <= len
    ensures len <= HeadRoom(a, pu) ==> MiddleLen(len, a, pu) == 0
  {
    if len > HeadRoom(a, pu) {
      FloorToFacts(len - HeadRoom(a, pu), pu);
    }
  }

  lemma MiddleGrows(n1: nat, n: nat, a: nat, pu: nat)
    requires a < pu && n1 <= n
    ensures MiddleLen(n1, a, pu) <= MiddleLen(n, a, pu)
  {
    hide FloorTo;
    var h := HeadRoom(a, pu);
    if n1 > h {
      FloorMono(n1 - h, n - h, pu);
    }
  }

  /** After a clean cut every byte comes from the place of the source it would come from uncut. */
  lemma CleanCut(t: nat, n1: nat, n2: nat, a: nat, pu: nat)
    requires a < pu && t < n1 + n2 && CutsCleanly(n1, n2, a, pu)
    ensures CutIndex(t, n1, n2, a, pu) == LandedIndex(t, n1 + n2, a, pu)
  {
    hide MiddleLen, LandedIndex, SentAsGiven;
    if n1 > 0 {
      SameMiddle(t, n1, n1 + n2, a, pu);
      if t >= n1 {
        GivenIndex(t - n1, n2, (a + n1) % pu, pu);
      }
    }
  }

  lemma SameMiddle(t: nat, n1: nat, n: nat, a: nat, pu: nat)
    requires a < pu && n1 <= n && (a == 0 || MiddleLen(n1, a, pu) == MiddleLen(n, a, pu))
    ensures LandedIndex(t, n, a, pu) == LandedIndex(t, n1, a, pu)
    ensures t >= n1 ==> LandedIndex(t, n, a, pu) == t
  {
    hide MiddleLen;
    MiddleInside(n1, a, pu);
  }

  lemma GivenIndex(t: nat, len: nat, a: nat, pu: nat)
    requires a < pu && t < len && SentAsGiven(a, len, pu)
    ensures LandedIndex(t, len, a, pu) == t
  {
    if a > 0 && len > HeadRoom(a, pu) {
      FloorOfSmall(len - HeadRoom(a, pu), pu);
    }
  }

  /** After any other cut some byte comes from another place of the source. */
  lemma UncleanCut(n1: nat, n2: nat, a: nat, pu: nat) returns (t: nat)
    requires a < pu && !CutsCleanly(n1, n2, a, pu)
    ensures t < n1 + n2 && CutIndex(t, n1, n2, a, pu) != LandedIndex(t, n1 + n2, a, pu)
  {
    hide MiddleLen;
    var h, m1, m := HeadRoom(a, pu), MiddleLen(n1, a, pu), MiddleLen(n1 + n2, a, pu);
    MiddleInside(n1, a, pu);
    MiddleInside(n1 + n2, a, pu);
    MiddleGrows(n1, n1 + n2, a, pu);
    if a > 0 && m1 != m {
      t := h + m1;
    } else {
      var a2 := (a + n1) % pu;
      MiddleRuns(n2, a2, pu);
      t := n1 + HeadRoom(a2, pu);
    }
  }

  lemma SameLanding(s1: seq<byte>, s2: seq<byte>, a: nat, pu: nat)
    requires a < pu && CutsCleanly(|s1|, |s2|, a, pu)
    ensures LandedCut(s1, s2, a, pu) == Landed(s1 + s2, a, pu)
  {
    hide CutsCleanly, LandedIndex, Landed, LandedCut;
    forall t | 0 <= t < |s1| + |s2| ensures LandedCut(s1, s2, a, pu)[t] == Landed(s1 + s2, a, pu)[t] {
      CleanCut(t, |s1|, |s2|, a, pu);
      CutAt(s1, s2, a, pu, t);
    }
  }

  lemma OtherLanding(n1: nat, n2: nat, a: nat, pu: nat) returns (s1: seq<byte>, s2: seq<byte>)
    requires a < pu && !CutsCleanly(n1, n2, a, pu)
    ensures |s1| == n1 && |s2| == n2 && LandedCut(s1, s2, a, pu) != Landed(s1 + s2, a, pu)
  {
    hide CutsCleanly, LandedIndex, Landed, LandedCut;
    var t := UncleanCut(n1, n2, a, pu);
    var i := LandedIndex(t, n1 + n2, a, pu);
    s1 := seq(n1, k => if k == i then 0 else ERASED);
    s2 := seq(n2, k => if n1 + k == i then 0 else ERASED);
    CutAt(s1, s2, a, pu, t);
  }

  lemma CutAt(s1: seq<byte>, s2: seq<byte>, a: nat, pu: nat, t: nat)
    requires a < pu && t < |s1| + |s2|
    ensures CutIndex(t, |s1|, |s2|, a, pu) < |s1| + |s2| && LandedIndex(t, |s1| + |s2|, a, pu) < |s1| + |s2|
    ensures LandedCut(s1, s2, a, pu)[t] == (s1 + s2)[CutIndex(t, |s1|, |s2|, a, pu)]
    ensures Landed(s1 + s2, a, pu)[t] == (s1 + s2)[LandedIndex(t, |s1| + |s2|, a, pu)]
  {
    hide Landed, LandedIndex;
    LandedAt(s1 + s2, a, pu, t);
    if t < |s1| {
      LandedAt(s1, a, pu, t);
    } else {
      LandedAt(s2, (a + |s1|) % pu, pu, t - |s1|);
    }
  }

  /** What two successful adjoining writes leave, the second from operation number t. */
  lemma TwoWrites(f: Flat, c: Config, e: Extent, off: nat, s1: seq<byte>, s2: seq<byte>, t: nat)
    requires ValidConfig(c) && FlatWrite(f, c, e, off, s1).1 == 0
    requires FlatWrite(Flat(FlatWrite(f, c, e, off, s1).0.mem, t), c, e, off + |s1|, s2).1 == 0
    ensures FlatWrite(Flat(FlatWrite(f, c, e, off, s1).0.mem, t), c, e, off + |s1|, s2).0.mem
         == ByteWrite(f.mem, e.off + off, LandedCut(s1, s2, off % c.pu, c.pu))
  {
    hide FlatWrite, Commit, Landed, UnitAligned;
    WriteContent(f, c, e, off, s1);
    WriteContent(Flat(FlatWrite(f, c, e, off, s1).0.mem, t), c, e, off + |s1|, s2);
    OffsetIn(off, |s1|, c.pu);
    CommitJoin(f.mem, e.off + off, Landed(s1, off % c.pu, c.pu), Landed(s2, (off + |s1|) % c.pu, c.pu));
  }

  lemma OffsetIn(off: nat, n: nat, pu: nat)
    requires pu > 0
    ensures (off + n) % pu == (off % pu + n) % pu
  {
    hide FloorTo;
    FloorToFacts(off, pu);
    ModSum(off % pu + n, FloorTo(off, pu), pu);
    assert off + n == off % pu + n + FloorTo(off, pu);
  }

  /** Two adjoining writes after a clean cut leave what one write of the joined data leaves, wherever failed
      operations lie between the calls. */
  lemma WriteSplit(f: Flat, c: Config, e: Extent, off: nat, s1: seq<byte>, s2: seq<byte>, t: nat)
    requires ValidConfig(c) && CutsCleanly(|s1|, |s2|, off % c.pu, c.pu)
    requires FlatWrite(f, c, e, off, s1 + s2).1 == 0 && FlatWrite(f, c, e, off, s1).1 == 0
    requires FlatWrite(Flat(FlatWrite(f, c, e, off, s1).0.mem, t), c, e, off + |s1|, s2).1 == 0
    ensures FlatWrite(Flat(FlatWrite(f, c, e, off, s1).0.mem, t), c, e, off + |s1|, s2).0.mem
         == FlatWrite(f, c, e, off, s1 + s2).0.mem
  {
    hide FlatWrite, CutsCleanly, Landed, Commit, UnitAligned;
    TwoWrites(f, c, e, off, s1, s2, t);
    WriteContent(f, c, e, off, s1 + s2);
    SameLanding(s1, s2, off % c.pu, c.pu);
  }

  /** The content after two adjoining writes, and after one of the joined data. */
  function CutWrite(f: Flat, c: Config, e: Extent, off: nat, s1: seq<byte>, s2: seq<byte>): seq<byte>
    requires c.pu > 0
  {
    FlatWrite(FlatWrite(f, c, e, off, s1).0, c, e, off + |s1|, s2).0.mem
  }

  function JoinedWrite(f: Flat, c: Config, e: Extent, off: nat, s1: seq<byte>, s2: seq<byte>): seq<byte>
    requires c.pu > 0
  {
    FlatWrite(f, c, e, off, s1 + s2).0.mem
  }

  /** The cut of a request in range is clean; of a request that is refused, the first piece is empty or refused. */
  predicate CutLeavesContent(c: Config, e: Extent, off: nat, n1: nat, n2: nat)
    requires c.pu > 0
  {
    if WriteInRange(c.pu, e, off, n1 + n2) then CutsCleanly(n1, n2, off % c.pu, c.pu)
    else n1 == 0 || !WriteInRange(c.pu, e, off, n1)
  }

  /** On a device that never fails, cutting a write in two leaves its content, over every content and for every
      source, exactly if the cut is clean; cutting a refused write, exactly if the first piece writes nothing. */
  lemma WriteSplitIff(c: Config, e: Extent, size: nat, off: nat, n1: nat, n2: nat)
    requires ValidConfig(c) && e.off + e.size <= size && forall i: nat :: !c.fault(i)
    ensures CutLeavesContent(c, e, off, n1, n2) <==>
      forall f: Flat, s1: seq<byte>, s2: seq<byte> | |f.mem| == size && |s1| == n1 && |s2| == n2 ::
        CutWrite(f, c, e, off, s1, s2) == JoinedWrite(f, c, e, off, s1, s2)
  {
    hide CutWrite, JoinedWrite, CutLeavesContent, UnitAligned;
    if CutLeavesContent(c, e, off, n1, n2) {
      forall f: Flat, s1: seq<byte>, s2: seq<byte> | |s1| == n1 && |s2| == n2
        ensures CutWrite(f, c, e, off, s1, s2) == JoinedWrite(f, c, e, off, s1, s2)
      {
        CutSame(f, c, e, off, s1, s2);
      }
    } else {
      var f, s1, s2 := CutShowing(c, e, size, off, n1, n2);
    }
  }

  lemma CutSame(f: Flat, c: Config, e: Extent, off: nat, s1: seq<byte>, s2: seq<byte>)
    requires ValidConfig(c) && (forall i: nat :: !c.fault(i)) && CutLeavesContent(c, e, off, |s1|, |s2|)
    ensures CutWrite(f, c, e, off, s1, s2) == JoinedWrite(f, c, e, off, s1, s2)
  {
    hide CutWrite, JoinedWrite, CutsCleanly, WriteInRange, UnitAligned, LandedCut, Landed, ByteWrite;
    if WriteInRange(c.pu, e, off, |s1| + |s2|) {
      CutContent(f, c, e, off, s1, s2);
      SameLanding(s1, s2, off % c.pu, c.pu);
    } else {
      RefusedCut(f, c, e, off, s1, s2);
      if s1 == [] {
        NothingWritten(f.mem, e.off + off, Landed(s1, off % c.pu, c.pu));
      }
    }
  }

  lemma NothingWritten(mem: seq<byte>, at: nat, d: seq<byte>)
    requires d == []
    ensures ByteWrite(mem, at, d) == mem
  {
  }

  /** If the joined request is refused, so is the second piece. */
  lemma RefusedCut(f: Flat, c: Config, e: Extent, off: nat, s1: seq<byte>, s2: seq<byte>)
    requires ValidConfig(c) && !WriteInRange(c.pu, e, off, |s1| + |s2|) && forall i: nat :: !c.fault(i)
    ensures JoinedWrite(f, c, e, off, s1, s2) == f.mem
    ensures CutWrite(f, c, e, off, s1, s2) ==
      if WriteInRange(c.pu, e, off, |s1|) then ByteWrite(f.mem, e.off + off, Landed(s1, off % c.pu, c.pu)) else f.mem
  {
    hide FlatWrite, Landed, Commit, WriteInRange, WriteOps, UnitAligned;
    PiecesInRange(c, e, off, |s1|, |s2|);
    var g := FlatWrite(f, c, e, off, s1).0;
    WriteRefused(f, c, e, off, s1 + s2);
    WriteRefused(g, c, e, off + |s1|, s2);
    if WriteInRange(c.pu, e, off, |s1|) {
      WriteSucceedsIff(f, c, e, off, s1);
      WriteContent(f, c, e, off, s1);
    } else {
      WriteRefused(f, c, e, off, s1);
    }
  }

  lemma WriteRefused(f: Flat, c: Config, e: Extent, off: nat, src: seq<byte>)
    requires ValidConfig(c) && !WriteInRange(c.pu, e, off, |src|)
    ensures FlatWrite(f, c, e, off, src).0.mem == f.mem
  {
    hide FlatWrite, WriteInRange, WriteOps, UnitAligned;
    WriteSucceedsIff(f, c, e, off, src);
    WriteFailsAtPrefix(f, c, e, off, src);
  }

  /** Over an erased area, any other cut shows. */
  lemma CutShowing(c: Config, e: Extent, size: nat, off: nat, n1: nat, n2: nat)
    returns (f: Flat, s1: seq<byte>, s2: seq<byte>)
    requires ValidConfig(c) && e.off + e.size <= size && forall i: nat :: !c.fault(i)
    requires !CutLeavesContent(c, e, off, n1, n2)
    ensures |f.mem| == size && |s1| == n1 && |s2| == n2
    ensures CutWrite(f, c, e, off, s1, s2) != JoinedWrite(f, c, e, off, s1, s2)
  {
    hide CutWrite, JoinedWrite, CutsCleanly, WriteInRange, UnitAligned, LandedCut, Landed, ByteWrite;
    var at, a := e.off + off, off % c.pu;
    f := Flat(seq(size, _ => ERASED), 0);
    if WriteInRange(c.pu, e, off, n1 + n2) {
      s1, s2 := OtherLanding(n1, n2, a, c.pu);
      RangeInside(c, e, off, n1 + n2);
      CutContent(f, c, e, off, s1, s2);
      ByteWriteTells(f.mem, at, LandedCut(s1, s2, a, c.pu), Landed(s1 + s2, a, c.pu));
    } else {
      s1, s2 := seq(n1, _ => 0), seq(n2, _ => 0);
      RangeInside(c, e, off, n1);
      RefusedCut(f, c, e, off, s1, s2);
      ZerosShow(f.mem, at, s1, a, c.pu);
    }
  }

  lemma ZerosShow(mem: seq<byte>, at: nat, zeros: seq<byte>, a: nat, pu: nat)
    requires a < pu && zeros != [] && at + |zeros| <= |mem| && mem[at] == ERASED
    requires forall i :: 0 <= i < |zeros| ==> zeros[i] == 0
    ensures ByteWrite(mem, at, Landed(zeros, a, pu)) != mem
  {
    LandedAt(zeros, a, pu, 0);
    assert ByteWrite(mem, at, Landed(zeros, a, pu))[at] == 0;
  }

  function LandedCut(s1: seq<byte>, s2: seq<byte>, a: nat, pu: nat): (r: seq<byte>)
    requires a < pu
    ensures |r| == |s1| + |s2|
  {
    Landed(s1, a, pu) + Landed(s2, (a + |s1|) % pu, pu)
  }

  lemma CutContent(f: Flat, c: Config, e: Extent, off: nat, s1: seq<byte>, s2: seq<byte>)
    requires ValidConfig(c) && WriteInRange(c.pu, e, off, |s1| + |s2|) && forall i: nat :: !c.fault(i)
    ensures CutWrite(f, c, e, off, s1, s2) == ByteWrite(f.mem, e.off + off, LandedCut(s1, s2, off % c.pu, c.pu))
    ensures JoinedWrite(f, c, e, off, s1, s2) == ByteWrite(f.mem, e.off + off, Landed(s1 + s2, off % c.pu, c.pu))
  {
    hide FlatWrite, Landed, Commit, WriteInRange, WriteOps, UnitAligned;
    PiecesInRange(c, e, off, |s1|, |s2|);
    WriteSucceedsIff(f, c, e, off, s1 + s2);
    WriteSucceedsIff(f, c, e, off, s1);
    var g := FlatWrite(f, c, e, off, s1).0;
    WriteSucceedsIff(g, c, e, off + |s1|, s2);
    TwoWrites(f, c, e, off, s1, s2, g.tick);
    WriteContent(f, c, e, off, s1 + s2);
  }

  lemma ByteWriteTells(mem: seq<byte>, at: nat, d1: seq<byte>, d2: seq<byte>)
    requires |d1| == |d2| && at + |d1| <= |mem| && d1 != d2
    requires forall x :: at <= x < at + |d1| ==> mem[x] == ERASED
    ensures ByteWrite(mem, at, d1) != ByteWrite(mem, at, d2)
  {
    hide Commit;
    CommitTells(mem, at, d1, d2);
  }

  /** The pieces of a request in range are in range; the second piece is in range only with the whole request. */
  lemma PiecesInRange(c: Config, e: Extent, off: nat, n1: nat, n2: nat)
    requires c.pu > 0
    ensures WriteInRange(c.pu, e, off, n1 + n2) ==> WriteInRange(c.pu, e, off, n1)
    ensures WriteInRange(c.pu, e, off, n1 + n2) <==> WriteInRange(c.pu, e, off + n1, n2)
  {
    hide FloorTo, CeilTo;
    var pu := c.pu;
    UnitsEnd(off, n1, pu);
    UnitsEnd(off, n1 + n2, pu);
    UnitsEnd(off + n1, n2, pu);
    CeilMono(off + n1, off + n1 + n2, pu);
  }

  /** The units of a request end where its end, rounded up, lies. */
  lemma UnitsEnd(off: nat, len: nat, pu: nat)
    requires pu > 0
    ensures FloorTo(off, pu) + CeilTo(off % pu + len, pu) == CeilTo(off + len, pu)
  {
    hide FloorTo, CeilTo;
    FloorToFacts(off, pu);
    CeilToFacts(off % pu + len, pu);
    CeilToFacts(off + len, pu);
    ModAdd(FloorTo(off, pu), CeilTo(off % pu + len, pu), pu);
    MultipleUnique(FloorTo(off, pu) + CeilTo(off % pu + len, pu), CeilTo(off + len, pu), pu);
  }

  // ---------------------------------------------------------------- the failing inputs

  /** A device without failures, an erased area of 32 bytes, program unit 8. */
  function SmallConfig(): Config {
    Config(8, FMC, _ => false)
  }

  function SmallArea(): Extent {
    Extent(0, 32, 32)
  }

  function Erased32(): Flat {
    Flat(seq(32, _ => ERASED), 0)
  }

  /** The smallest kind of request that goes wrong: twelve bytes, four bytes into a unit. The call returns 0, and
      the middle run repeats the first bytes. */
  lemma MisalignedExample()
    ensures var (g, rc) :=
        FlatWrite(Erased32(), SmallConfig(), SmallArea(), 4, [1, 2, 3, 4, 5, 6, 7, 8, 9, 10, 11, 12]);
      rc == 0 && HoldsFrom(g.mem, 4, [1, 2, 3, 4] + [1, 2, 3, 4, 5, 6, 7, 8])
  {
    hide FlatWrite, Landed, MiddleLen, Commit, SmallConfig, SmallArea, Erased32;
    var src: seq<byte> := [1, 2, 3, 4, 5, 6, 7, 8, 9, 10, 11, 12];
    TwelveLanded(src);
    SmallWrite(Erased32(), 4, src);
    assert src[..4] == [1, 2, 3, 4] && src[..8] == [1, 2, 3, 4, 5, 6, 7, 8];
    OverErased32(4, [1, 2, 3, 4] + [1, 2, 3, 4, 5, 6, 7, 8]);
  }

  /** Twelve bytes, four bytes into a unit of eight. */
  lemma TwelveLanded(s: seq<byte>)
    requires |s| == 12
    ensures Landed(s, 4, 8) == s[..4] + s[..8]
  {
    assert MiddleLen(12, 4, 8) == 8;
  }

  lemma OverErased32(off: nat, d: seq<byte>)
    requires off + |d| <= 32
    ensures |Erased32().mem| == 32 && Commit(Erased32().mem, off, d, off + |d|)[off..off + |d|] == d
  {
    CommitOverErased(Erased32().mem, off, d);
  }

  /** All three calls return 0: sixteen bytes from a unit's start land as given, but cut after four bytes, the
      second piece repeats its first four. */
  lemma CutExample(f: Flat, c: Config, e: Extent, s1: seq<byte>, s2: seq<byte>)
    requires f == Erased32() && c == SmallConfig() && e == SmallArea()
    requires s1 == [1, 2, 3, 4] && s2 == [5, 6, 7, 8, 9, 10, 11, 12, 13, 14, 15, 16]
    ensures c.pu == 8 && AllSucceed(f, c, e, s1, s2) && CutShows(f, c, e, s1, s2, [9, 10, 11, 12], [5, 6, 7, 8])
  {
    hide FlatWrite, SmallArea, Erased32, CutWrite, JoinedWrite, HoldsFrom;
    SmallWrite(f, 0, s1);
    SmallWrite(FlatWrite(f, c, e, 0, s1).0, 4, s2);
    SmallWrite(f, 0, s1 + s2);
    CutAfterFour(s1, s2);
    assert s2[..4] == [5, 6, 7, 8] && s2[4..8] == [9, 10, 11, 12];
  }

  /** In the second unit, the joined write leaves `joined` and the cut one leaves `cut`. */
  predicate CutShows(f: Flat, c: Config, e: Extent, s1: seq<byte>, s2: seq<byte>, joined: seq<byte>, cut: seq<byte>)
    requires c.pu > 0
  {
    HoldsFrom(JoinedWrite(f, c, e, 0, s1, s2), 8, joined) && HoldsFrom(CutWrite(f, c, e, 0, s1, s2), 8, cut)
  }

  predicate AllSucceed(f: Flat, c: Config, e: Extent, s1: seq<byte>, s2: seq<byte>)
    requires c.pu > 0
  {
    && FlatWrite(f, c, e, 0, s1).1 == 0
    && FlatWrite(FlatWrite(f, c, e, 0, s1).0, c, e, |s1|, s2).1 == 0
    && FlatWrite(f, c, e, 0, s1 + s2).1 == 0
  }

  predicate HoldsFrom(mem: seq<byte>, at: nat, d: seq<byte>) {
    at + |d| <= |mem| && mem[at..at + |d|] == d
  }

  lemma CutAfterFour(s1: seq<byte>, s2: seq<byte>)
    requires |s1| == 4 && |s2| == 12
    ensures HoldsFrom(CutWrite(Erased32(), SmallConfig(), SmallArea(), 0, s1, s2), 8, s2[..4])
    ensures HoldsFrom(JoinedWrite(Erased32(), SmallConfig(), SmallArea(), 0, s1, s2), 8, s2[4..8])
  {
    hide FlatWrite, Landed, MiddleLen, Commit, CutWrite, JoinedWrite, Erased32, WriteInRange;
    CutLanded(s1, s2);
    TwelveLanded(s2);
    SmallRange();
    CutContent(Erased32(), SmallConfig(), SmallArea(), 0, s1, s2);
    OverErased32(0, LandedCut(s1, s2, 0, 8));
    OverErased32(0, s1 + s2);
    Eighth(s1, s2[..4] + s2[..8], s2[..4]);
    Eighth(s1, s2, s2[4..8]);
  }

  lemma SmallRange()
    ensures WriteInRange(SmallConfig().pu, SmallArea(), 0, 16) && ValidConfig(SmallConfig())
  {
  }

  lemma Eighth(s1: seq<byte>, d: seq<byte>, q: seq<byte>)
    requires |s1| == 4 && |d| == 12 && |q| == 4 && d[4..8] == q
    ensures (s1 + d)[8..12] == q
  {
  }

  lemma CutLanded(s1: seq<byte>, s2: seq<byte>)
    requires |s1| == 4 && |s2| == 12
    ensures Landed(s1, 0, 8) == s1 && Landed(s1 + s2, 0, 8) == s1 + s2
  {
    LandedIsSourceIff(4, 0, 8);
    LandedIsSourceIff(16, 0, 8);
  }

  lemma SmallWrite(f: Flat, off: nat, src: seq<byte>)
    requires off + |src| <= 32
    ensures FlatWrite(f, SmallConfig(), SmallArea(), off, src).1 == 0
    ensures FlatWrite(f, SmallConfig(), SmallArea(), off, src).0.mem
         == Commit(f.mem, off, Landed(src, off % 8, 8), off + |src|)
  {
    hide FlatWrite, WriteOps, Landed, Commit;
    WriteSucceedsIff(f, SmallConfig(), SmallArea(), off, src);
    WriteContent(f, SmallConfig(), SmallArea(), off, src);
  }

  lemma CommitJoin(mem: seq<byte>, at: nat, s1: seq<byte>, s2: seq<byte>)
    ensures Commit(Commit(mem, at, s1, at + |s1|), at + |s1|, s2, at + |s1| + |s2|)
         == Commit(mem, at, s1 + s2, at + |s1 + s2|)
  {
    var l := Commit(Commit(mem, at, s1, at + |s1|), at + |s1|, s2, at + |s1| + |s2|);
    var r := Commit(mem, at, s1 + s2, at + |s1 + s2|);
    forall x | 0 <= x < |mem| ensures l[x] == r[x] {
    }
  }
}
