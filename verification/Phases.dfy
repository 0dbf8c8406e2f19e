/**
  The phases of the stock-driver memory test (`smi/src/validate.cpp`): which queue ids, addresses and
  channels the buffers of each phase get, in 32-bit index arithmetic.  Buffers of one phase are live
  together, so within a phase ids must differ and address ranges must be disjoint.
 */
module Phases {
  import opened Common
  import opened Placement

  datatype Buffer = Buffer(qid: U32, address: U64, channel: Channel)

  /** N buffers with consecutive queue ids, at positions plus, plus + mult, plus + 2 * mult, ... */
  datatype Group = Group(base: nat, firstQid: nat, mult: nat, plus: nat)

  ghost predicate IsGroup(o: Options, g: Group, bufs: seq<Buffer>) {
    && |bufs| == o.threads
    && forall i | 0 <= i < |bufs| ::
         && bufs[i].qid == g.firstQid + i && g.mult * i + g.plus < o.Positions()
         && (|o.mmChannels| == 1 || g.mult * i + g.plus < |o.mmChannels|)
         && bufs[i].address == RawAddressFor(g.base, o, g.mult * i + g.plus)
         && bufs[i].channel == ChannelFor(o, g.mult * i + g.plus)
  }

  predicate Clash(a: Buffer, b: Buffer, size: nat) {
    a.qid == b.qid || !Apart(a.address, b.address, size)
  }

  /** In the named memory, page-aligned, and within the provisioned queues. */
  predicate IsGood(o: Options, b: Buffer, qmax: nat) {
    && b.qid < qmax && b.address % ALIGNMENT == 0
    && (|| (!o.ddrOnly && HBM_BASE <= b.address && b.address + o.bufferSize <= HBM_BASE + SPACE_SIZE)
        || (!o.hbmOnly && DDR_BASE <= b.address && b.address + o.bufferSize <= DDR_BASE + SPACE_SIZE))
  }

  /** Every buffer lies in the memory at `base`. */
  ghost predicate AllIn(o: Options, phase: seq<Buffer>, base: nat) {
    forall i | 0 <= i < |phase| :: base <= phase[i].address && phase[i].address + o.bufferSize <= base + SPACE_SIZE
  }

  /** The buffer is at a position of one of the memories and has that position's channel: the only one
      listed, or the one listed for it. */
  ghost predicate HasItsChannel(o: Options, b: Buffer) {
    exists p: nat ::
      && p < o.Positions() && (b.address == HBM_BASE + Place(o, p) || b.address == DDR_BASE + Place(o, p))
      && if |o.mmChannels| == 1 then b.channel == o.mmChannels[0]
         else p < |o.mmChannels| && b.channel == o.mmChannels[p]
  }

  /** No two buffers of the phase clash and every one is good. */
  ghost predicate PhaseIsSound(o: Options, phase: seq<Buffer>, qmax: nat) {
    && (forall i | 0 <= i < |phase| :: IsGood(o, phase[i], qmax) && HasItsChannel(o, phase[i]))
    && (forall i, j | 0 <= i < j < |phase| :: !Clash(phase[i], phase[j], o.bufferSize))
  }

  // ---------------------------------------------------------------------------------------------
  // Groups
  // ---------------------------------------------------------------------------------------------

  /** Two groups that share no queue id and no position. */
  predicate GroupsDiffer(o: Options, g: Group, h: Group) {
    && (g.firstQid + o.threads <= h.firstQid || h.firstQid + o.threads <= g.firstQid)
    && (g.base != h.base || (g.mult == h.mult == 2 && g.plus < 2 && h.plus < 2 && g.plus != h.plus))
  }

  lemma MemberIsGood(o: Options, g: Group, bufs: seq<Buffer>, qmax: nat, i: nat)
    requires ValidatePlacement(o) && Uses(o, g.base) && IsGroup(o, g, bufs)
    requires g.firstQid + o.threads <= qmax && i < |bufs|
    ensures IsGood(o, bufs[i], qmax) && HasItsChannel(o, bufs[i])
  {
    hide ValidatePlacement, RawAddressFor;
    var p := g.mult * i + g.plus;
    BufferIsPlaced(o, g.base, p);
    assert bufs[i].address == g.base + Place(o, p);
  }

  lemma MembersDoNotClash(o: Options, g: Group, bufs: seq<Buffer>, i: nat, j: nat)
    requires ValidatePlacement(o) && Uses(o, g.base) && IsGroup(o, g, bufs) && 1 <= g.mult <= 2
    requires i < j < |bufs|
    ensures !Clash(bufs[i], bufs[j], o.bufferSize)
  {
    hide ValidatePlacement, RawAddressFor;
    assert g.mult * i < g.mult * j;
    BuffersAreApart(o, g.base, g.mult * i + g.plus, g.base, g.mult * j + g.plus);
  }

  lemma GroupIsSound(o: Options, g: Group, bufs: seq<Buffer>, qmax: nat)
    requires ValidatePlacement(o) && Uses(o, g.base) && IsGroup(o, g, bufs)
    requires g.firstQid + o.threads <= qmax && 1 <= g.mult <= 2
    ensures PhaseIsSound(o, bufs, qmax)
  {
    hide ValidatePlacement, IsGroup, Uses, IsGood, HasItsChannel, Clash;
    forall i | 0 <= i < |bufs| ensures IsGood(o, bufs[i], qmax) && HasItsChannel(o, bufs[i]) {
      MemberIsGood(o, g, bufs, qmax, i);
    }
    forall i, j | 0 <= i < j < |bufs| ensures !Clash(bufs[i], bufs[j], o.bufferSize) {
      MembersDoNotClash(o, g, bufs, i, j);
    }
  }

  lemma GroupIsIn(o: Options, g: Group, bufs: seq<Buffer>)
    requires ValidatePlacement(o) && Uses(o, g.base) && IsGroup(o, g, bufs)
    ensures AllIn(o, bufs, g.base) && |bufs| == o.threads
  {
    hide ValidatePlacement, RawAddressFor;
    forall i | 0 <= i < |bufs|
      ensures g.base <= bufs[i].address && bufs[i].address + o.bufferSize <= g.base + SPACE_SIZE
    {
      BufferIsPlaced(o, g.base, g.mult * i + g.plus);
    }
  }

  lemma JoinedIsIn(o: Options, a: seq<Buffer>, b: seq<Buffer>, base: nat)
    requires AllIn(o, a, base) && AllIn(o, b, base)
    ensures AllIn(o, a + b, base)
  {}

  lemma GroupsDoNotClash(o: Options, g: Group, a: seq<Buffer>, h: Group, b: seq<Buffer>, i: nat, j: nat)
    requires ValidatePlacement(o) && Uses(o, g.base) && Uses(o, h.base)
    requires IsGroup(o, g, a) && IsGroup(o, h, b) && GroupsDiffer(o, g, h)
    requires i < |a| && j < |b|
    ensures !Clash(a[i], b[j], o.bufferSize)
  {
    hide ValidatePlacement, RawAddressFor;
    assert g.base == h.base ==> 2 * i + g.plus != 2 * j + h.plus;
    BuffersAreApart(o, g.base, g.mult * i + g.plus, h.base, h.mult * j + h.plus);
  }

  /** Adding a group that differs from all the others keeps a phase sound. */
  lemma JoinedIsSound(o: Options, a: seq<Buffer>, b: seq<Buffer>, qmax: nat)
    requires PhaseIsSound(o, a, qmax) && PhaseIsSound(o, b, qmax)
    requires forall i, j | 0 <= i < |a| && 0 <= j < |b| :: !Clash(a[i], b[j], o.bufferSize)
    ensures PhaseIsSound(o, a + b, qmax)
  {
    hide Clash, IsGood, HasItsChannel;
  }

  lemma TwoGroups(o: Options, g: Group, a: seq<Buffer>, h: Group, b: seq<Buffer>, qmax: nat)
    requires ValidatePlacement(o) && Uses(o, g.base) && Uses(o, h.base)
    requires IsGroup(o, g, a) && IsGroup(o, h, b) && GroupsDiffer(o, g, h)
    requires 1 <= g.mult <= 2 && 1 <= h.mult <= 2
    requires g.firstQid + o.threads <= qmax && h.firstQid + o.threads <= qmax
    ensures PhaseIsSound(o, a + b, qmax)
  {
    hide ValidatePlacement, IsGroup, GroupsDiffer, Clash;
    GroupIsSound(o, g, a, qmax);
    GroupIsSound(o, h, b, qmax);
    forall i, j | 0 <= i < |a| && 0 <= j < |b| ensures !Clash(a[i], b[j], o.bufferSize) {
      GroupsDoNotClash(o, g, a, h, b, i, j);
    }
    JoinedIsSound(o, a, b, qmax);
  }

  // ---------------------------------------------------------------------------------------------
  // The loops
  // ---------------------------------------------------------------------------------------------

  /** One buffer per thread, at positions 0 .. N-1. */
  method OnePerThread(o: Options, base: nat, firstQid: nat, ghost uses: nat) returns (bufs: seq<Buffer>)
    requires ValidatePlacement(o) && Uses(o, uses) && firstQid <= o.threads
    ensures IsGroup(o, Group(base, firstQid, 1, 0), bufs)
  {
    hide ValidatePlacement, RawAddressFor, ChannelFor;
    ThreadsAreFew(o, uses);
    ChannelsCover(o);
    bufs := [];
    for i := 0 to o.threads
      invariant |bufs| == i
      invariant forall k | 0 <= k < i ::
                  bufs[k] == Buffer(firstQid + k, RawAddressFor(base, o, k), ChannelFor(o, k))
    {
      bufs := bufs + [Buffer(W32(firstQid + i), RawAddressFor(base, o, i), ChannelFor(o, i))];
    }
  }

  /** A read and a write buffer per thread, at the even and the odd positions. */
  method TwoPerThread(o: Options, base: nat, readQid: nat, writeQid: nat, ghost uses: nat)
    returns (readBufs: seq<Buffer>, writeBufs: seq<Buffer>)
    requires ValidatePlacement(o) && Uses(o, uses) && readQid <= 3 * o.threads && writeQid <= 3 * o.threads
    ensures IsGroup(o, Group(base, readQid, 2, 0), readBufs) && IsGroup(o, Group(base, writeQid, 2, 1), writeBufs)
  {
    hide ValidatePlacement, RawAddressFor, ChannelFor, W32;
    ThreadsAreFew(o, uses);
    ChannelsCover(o);
    readBufs, writeBufs := [], [];
    for i := 0 to o.threads
      invariant |readBufs| == |writeBufs| == i
      invariant forall k | 0 <= k < i ::
                  readBufs[k] == Buffer(readQid + k, RawAddressFor(base, o, 2 * k), ChannelFor(o, 2 * k))
      invariant forall k | 0 <= k < i ::
                  writeBufs[k] == Buffer(writeQid + k, RawAddressFor(base, o, 2 * k + 1), ChannelFor(o, 2 * k + 1))
    {
      SmallIndex(2 * i);
      SmallIndex(2 * i + 1);
      SmallIndex(readQid + i);
      SmallIndex(writeQid + i);
      var even, odd := W32(2 * i), W32(2 * i + 1);
      readBufs := readBufs + [Buffer(W32(readQid + i), RawAddressFor(base, o, even), ChannelFor(o, even))];
      writeBufs := writeBufs + [Buffer(W32(writeQid + i), RawAddressFor(base, o, odd), ChannelFor(o, odd))];
    }
  }

  lemma SmallIndex(x: nat)
    requires x < TWO32
    ensures W32(x) == x
  {}

  lemma ChannelsCover(o: Options)
    requires ValidatePlacement(o)
    ensures |o.mmChannels| == 1 || |o.mmChannels| == o.Positions()
  {}

  // ---------------------------------------------------------------------------------------------
  // The run
  // ---------------------------------------------------------------------------------------------

  method OneMemory(o: Options, base: nat, qmax: nat) returns (integrity: seq<Buffer>, bidirectional: seq<Buffer>)
    requires ValidatePlacement(o) && Uses(o, base) && 2 * o.threads <= qmax
    ensures PhaseIsSound(o, integrity, qmax) && |integrity| == o.threads
    ensures PhaseIsSound(o, bidirectional, qmax) && |bidirectional| == 2 * o.threads
    ensures AllIn(o, integrity, base) && AllIn(o, bidirectional, base)
  {
    hide ValidatePlacement, PhaseIsSound, IsGroup, AllIn;
    var n: nat := o.threads;
    integrity := OnePerThread(o, base, 0, base);
    GroupIsSound(o, Group(base, 0, 1, 0), integrity, qmax);
    GroupIsIn(o, Group(base, 0, 1, 0), integrity);
    var readBufs, writeBufs := TwoPerThread(o, base, 0, n, base);
    TwoGroups(o, Group(base, 0, 2, 0), readBufs, Group(base, n, 2, 1), writeBufs, qmax);
    GroupIsIn(o, Group(base, 0, 2, 0), readBufs);
    GroupIsIn(o, Group(base, n, 2, 1), writeBufs);
    JoinedIsIn(o, readBufs, writeBufs, base);
    bidirectional := readBufs + writeBufs;
  }

  method BothMemories(o: Options, qmax: nat) returns (parallel: seq<Buffer>, bidirectional: seq<Buffer>)
    requires ValidatePlacement(o) && !o.ddrOnly && !o.hbmOnly && 4 * o.threads <= qmax
    ensures PhaseIsSound(o, parallel, qmax) && |parallel| == 2 * o.threads
    ensures PhaseIsSound(o, bidirectional, qmax) && |bidirectional| == 4 * o.threads
  {
    hide ValidatePlacement, PhaseIsSound, Clash;
    var n: nat := o.threads;
    var hbm := OnePerThread(o, HBM_BASE, 0, HBM_BASE);
    var ddr := OnePerThread(o, DDR_BASE, n, DDR_BASE);
    TwoGroups(o, Group(HBM_BASE, 0, 1, 0), hbm, Group(DDR_BASE, n, 1, 0), ddr, qmax);
    parallel := hbm + ddr;

    var hbmReads, hbmWrites := TwoPerThread(o, HBM_BASE, 0, 2 * n, HBM_BASE);
    var ddrReads, ddrWrites := TwoPerThread(o, DDR_BASE, n, 3 * n, DDR_BASE);
    FourGroups(o, hbmReads, hbmWrites, ddrReads, ddrWrites, qmax);
    bidirectional := hbmReads + hbmWrites + (ddrReads + ddrWrites);
  }

  lemma FourGroups(o: Options, hr: seq<Buffer>, hw: seq<Buffer>, dr: seq<Buffer>, dw: seq<Buffer>, qmax: nat)
    requires ValidatePlacement(o) && !o.ddrOnly && !o.hbmOnly && 4 * o.threads <= qmax
    requires IsGroup(o, Group(HBM_BASE, 0, 2, 0), hr) && IsGroup(o, Group(HBM_BASE, 2 * o.threads, 2, 1), hw)
    requires IsGroup(o, Group(DDR_BASE, o.threads, 2, 0), dr) && IsGroup(o, Group(DDR_BASE, 3 * o.threads, 2, 1), dw)
    ensures PhaseIsSound(o, hr + hw + (dr + dw), qmax)
  {
    hide ValidatePlacement, IsGroup, Clash;
    var n: nat := o.threads;
    var ghr, ghw := Group(HBM_BASE, 0, 2, 0), Group(HBM_BASE, 2 * n, 2, 1);
    var gdr, gdw := Group(DDR_BASE, n, 2, 0), Group(DDR_BASE, 3 * n, 2, 1);
    TwoGroups(o, ghr, hr, ghw, hw, qmax);
    TwoGroups(o, gdr, dr, gdw, dw, qmax);
    var h, d := hr + hw, dr + dw;
    forall i, j | 0 <= i < |h| && 0 <= j < |d| ensures !Clash(h[i], d[j], o.bufferSize) {
      if i < |hr| && j < |dr| {
        GroupsDoNotClash(o, ghr, hr, gdr, dr, i, j);
      } else if i < |hr| {
        GroupsDoNotClash(o, ghr, hr, gdw, dw, i, j - |dr|);
      } else if j < |dr| {
        GroupsDoNotClash(o, ghw, hw, gdr, dr, i - |hr|, j);
      } else {
        GroupsDoNotClash(o, ghw, hw, gdw, dw, i - |hr|, j - |dr|);
      }
    }
    JoinedIsSound(o, h, d, qmax);
  }

  /** The test runs exactly the accepted option sets, and every phase of it is sound. */
  method RunPhases(o: Options) returns (accepted: bool, qmax: nat, phases: seq<seq<Buffer>>)
    ensures accepted == ValidatePlacement(o)
    ensures accepted ==>
              forall k | 0 <= k < |phases| :: PhaseIsSound(o, phases[k], qmax) && |phases[k]| >= o.threads
    ensures accepted ==> |phases| == (if o.ddrOnly then 0 else 2) + (if o.hbmOnly then 0 else 2)
                                     + (if o.ddrOnly || o.hbmOnly then 0 else 2)
    ensures accepted && 0 < |phases| ==> qmax == (if o.ddrOnly || o.hbmOnly then 2 else 4) * o.threads
    ensures accepted && !o.ddrOnly ==> AllIn(o, phases[0], HBM_BASE) && AllIn(o, phases[1], HBM_BASE)
    ensures accepted && !o.hbmOnly ==>
              var k := if o.ddrOnly then 0 else 2;
              AllIn(o, phases[k], DDR_BASE) && AllIn(o, phases[k + 1], DDR_BASE)
  {
    hide ValidatePlacement, PhaseIsSound, AllIn;
    accepted, qmax, phases := ValidatePlacement(o), 0, [];
    if !accepted {
      return;
    }
    var n: nat := o.threads;
    var parallel := !o.ddrOnly && !o.hbmOnly;
    qmax := if parallel then W32(4 * n) else W32(2 * n);
    if !o.ddrOnly {
      ThreadsAreFew(o, HBM_BASE);
      var integrity, bidirectional := OneMemory(o, HBM_BASE, qmax);
      phases := [integrity, bidirectional];
    }
    if !o.hbmOnly {
      ThreadsAreFew(o, DDR_BASE);
      var integrity, bidirectional := OneMemory(o, DDR_BASE, qmax);
      phases := phases + [integrity, bidirectional];
    }
    if parallel {
      var both, bidirectional := BothMemories(o, qmax);
      phases := phases + [both, bidirectional];
    }
  }
}
