/**
  Buffer placement of the memory validation tool (smi/src/validate.cpp): the 64-bit, overflow-guarded
  checks on the options, the linear and the paired address layout, and the buffers and queue ids that
  each phase of the stock-driver test uses.
 */
module Placement {
  import opened Common

  const HBM_BASE: nat := 0x40_0000_0000
  const DDR_BASE: nat := 0x600_0000_0000
  const REGION_SIZE: nat := 512 * 1024 * 1024
  const SPACE_SIZE: nat := 64 * REGION_SIZE
  const MAX_BUFFER: nat := REGION_SIZE
  const ALIGNMENT: nat := 4096

  datatype Channel = Auto | Ch0 | Ch1

  datatype Options = Options(
    threads: U32, mmChannels: seq<Channel>, bufferSize: U64, offset: U64, startingOffset: U64,
    channelRegionStride: U64, paired: bool, rawTransferTest: bool, useQdmaDriver: bool,
    bandwidthIterations: nat, bandwidthDuration: real, ringSizeIndex: Option<nat>, ddrOnly: bool, hbmOnly: bool)
  {
    function Positions(): nat { 2 * threads }
  }

  // ---------------------------------------------------------------------------------------------
  // Addresses
  // ---------------------------------------------------------------------------------------------

  function RegionStride(o: Options): U64 {
    if o.channelRegionStride != 0 then o.channelRegionStride else SPACE_SIZE / 2
  }

  function AddressFor(base: nat, o: Options, position: nat): U64 {
    W64(base + o.startingOffset + position * o.offset)
  }

  function RawAddressFor(base: nat, o: Options, position: nat): U64 {
    if o.paired then
      W64(base + position % 2 * RegionStride(o) + o.startingOffset + position / 2 * o.offset)
    else
      AddressFor(base, o, position)
  }

  /** The offset into its memory that a position is meant to have, in unbounded arithmetic. */
  function Place(o: Options, position: nat): nat {
    if o.paired then position % 2 * RegionStride(o) + o.startingOffset + position / 2 * o.offset
    else o.startingOffset + position * o.offset
  }

  /** The offset into its channel's region. */
  function InRegion(o: Options, position: nat): nat { o.startingOffset + position / 2 * o.offset }

  // ---------------------------------------------------------------------------------------------
  // The checks
  // ---------------------------------------------------------------------------------------------

  /** start + last * offset stays below 2^64, decided without computing it. */
  predicate GuardPasses(o: Options, last: nat) {
    last == 0 || o.offset <= (U64_MAX - o.startingOffset) / last
  }

  predicate LinearRange(o: Options, positions: nat) {
    positions == 0 ||
    (&& GuardPasses(o, positions - 1)
     && var lastStart := W64(o.startingOffset + (positions - 1) * o.offset);
        lastStart <= SPACE_SIZE && o.bufferSize <= SPACE_SIZE - lastStart)
  }

  predicate PairedRange(o: Options, positions: nat) {
    positions == 0 ||
    (var stride := RegionStride(o);
     var maxIndex := (positions - 1) / 2;
     && stride != 0 && stride % ALIGNMENT == 0 && stride <= SPACE_SIZE
     && GuardPasses(o, maxIndex)
     && var lastStart := W64(o.startingOffset + maxIndex * o.offset);
        && lastStart <= stride && o.bufferSize <= stride - lastStart
        && W64(lastStart + o.bufferSize) <= SPACE_SIZE - stride)
  }

  predicate InRange(o: Options, positions: nat) {
    if o.paired then PairedRange(o, positions) else LinearRange(o, positions)
  }

  predicate SizesAccepted(o: Options) {
    && (|o.mmChannels| == 1 || |o.mmChannels| == o.Positions())
    && 0 < o.bufferSize <= MAX_BUFFER && 0 < o.offset
    && o.bufferSize % ALIGNMENT == 0 && o.offset % ALIGNMENT == 0 && o.startingOffset % ALIGNMENT == 0
    && o.bufferSize <= o.offset
  }

  predicate ModesAccepted(o: Options) {
    && (o.paired ==> o.rawTransferTest || o.useQdmaDriver)
    && (o.bandwidthIterations > 1 || o.bandwidthDuration > 0.0 ==> o.rawTransferTest || o.useQdmaDriver)
    && (o.ringSizeIndex.Some? ==> o.rawTransferTest || o.useQdmaDriver)
    && o.bandwidthDuration >= 0.0
    && (o.ringSizeIndex.Some? ==> o.ringSizeIndex.value <= 15)
  }

  predicate ValidatePlacement(o: Options) {
    && SizesAccepted(o) && ModesAccepted(o)
    && (!o.ddrOnly ==> InRange(o, o.Positions()))
    && (!o.hbmOnly ==> InRange(o, o.Positions()))
  }

  // ---------------------------------------------------------------------------------------------
  // What the checks mean
  // ---------------------------------------------------------------------------------------------

  lemma QuotientBound(x: nat, n: nat, q: nat)
    requires n > 0
    ensures x <= q / n <==> n * x <= q
  {
    if x <= q / n {
      assert n * x <= n * (q / n);
    } else {
      assert n * x >= n * (q / n + 1);
    }
  }

  lemma GuardIsExact(o: Options, last: nat)
    ensures GuardPasses(o, last) <==> o.startingOffset + last * o.offset <= U64_MAX
  {
    if last > 0 {
      QuotientBound(o.offset, last, U64_MAX - o.startingOffset);
    }
  }

  lemma {:induction false} Multiples(i: nat, j: nat, x: nat)
    requires i <= j
    ensures i * x <= j * x
    ensures i < j ==> i * x + x <= j * x
    decreases j
  {
    if i < j {
      assert j * x == (j - 1) * x + x;
      Multiples(i, j - 1, x);
    }
  }

  lemma EarlierIsLower(o: Options, i: nat, j: nat)
    requires i <= j
    ensures i * o.offset <= j * o.offset
    ensures i < j ==> i * o.offset + o.offset <= j * o.offset
  {
    Multiples(i, j, o.offset);
  }

  /** The linear check accepts exactly the placements whose every buffer lies in the memory. */
  lemma LinearIsExact(o: Options, positions: nat)
    requires !o.paired
    ensures LinearRange(o, positions) <==>
            forall p | 0 <= p < positions :: Place(o, p) + o.bufferSize <= SPACE_SIZE
  {
    if positions > 0 {
      var last := positions - 1;
      GuardIsExact(o, last);
      assert Place(o, last) == o.startingOffset + last * o.offset;
      forall p | 0 <= p < positions ensures Place(o, p) <= Place(o, last) {
        EarlierIsLower(o, p, last);
      }
    }
  }

  lemma PlaceOfRegion(o: Options, p: nat)
    requires o.paired
    ensures Place(o, p) == InRegion(o, p) + if p % 2 == 0 then 0 else RegionStride(o)
  {}

  lemma PairedClosed(o: Options, positions: nat)
    requires o.paired && positions > 0 && o.bufferSize <= MAX_BUFFER
    ensures var s := InRegion(o, positions - 1);
            PairedRange(o, positions) <==>
            && RegionStride(o) % ALIGNMENT == 0
            && s + o.bufferSize <= RegionStride(o) && RegionStride(o) + s + o.bufferSize <= SPACE_SIZE
  {
    hide GuardPasses, W64;
    var s := InRegion(o, positions - 1);
    GuardIsExact(o, (positions - 1) / 2);
    if s <= U64_MAX {
      W64Small(s);
      if s <= SPACE_SIZE {
        W64Small(s + o.bufferSize);
      }
    }
  }

  lemma W64Small(x: nat)
    requires x < TWO64
    ensures W64(x) == x
  {}

  lemma RegionsGrow(o: Options, positions: nat, p: nat)
    requires o.paired && positions % 2 == 0 && p < positions
    ensures InRegion(o, p) <= InRegion(o, positions - 1) && Place(o, p) <= Place(o, positions - 1)
    ensures Place(o, positions - 1) == RegionStride(o) + InRegion(o, positions - 1)
  {
    EarlierIsLower(o, p / 2, (positions - 1) / 2);
    PlaceOfRegion(o, p);
    PlaceOfRegion(o, positions - 1);
  }

  /**
    The paired check accepts exactly the placements whose regions are page-aligned and in which every
    buffer lies in its channel's region and in the memory.
   */
  lemma PairedIsExact(o: Options, positions: nat)
    requires o.paired && positions % 2 == 0 && positions > 0 && o.bufferSize <= MAX_BUFFER
    ensures PairedRange(o, positions) <==>
            && RegionStride(o) % ALIGNMENT == 0
            && forall p | 0 <= p < positions ::
                 InRegion(o, p) + o.bufferSize <= RegionStride(o) && Place(o, p) + o.bufferSize <= SPACE_SIZE
  {
    hide PairedRange, InRegion, Place;
    PairedClosed(o, positions);
    forall p | 0 <= p < positions
      ensures InRegion(o, p) <= InRegion(o, positions - 1) && Place(o, p) <= Place(o, positions - 1)
    {
      RegionsGrow(o, positions, p);
    }
    RegionsGrow(o, positions, positions - 1);
  }

  /** Which memories an option set uses. */
  predicate Uses(o: Options, base: nat) {
    (base == HBM_BASE && !o.ddrOnly) || (base == DDR_BASE && !o.hbmOnly)
  }

  /** Every buffer of an accepted option set is page-aligned, in its memory, and its address does not wrap. */
  lemma BufferIsPlaced(o: Options, base: nat, p: nat)
    requires ValidatePlacement(o) && Uses(o, base) && p < o.Positions()
    ensures RawAddressFor(base, o, p) == base + Place(o, p)
    ensures base <= RawAddressFor(base, o, p) && RawAddressFor(base, o, p) + o.bufferSize <= base + SPACE_SIZE
    ensures RawAddressFor(base, o, p) % ALIGNMENT == 0
  {
    hide SizesAccepted, ModesAccepted, LinearRange, PairedRange;
    var n := o.Positions();
    if o.paired {
      SizeIsBounded(o);
      PairedIsExact(o, n);
      PairedIsAligned(o, p);
    } else {
      LinearIsExact(o, n);
      LinearIsAligned(o, p);
    }
    W64Small(base + Place(o, p));
    AlignedSum(base, Place(o, p));
  }

  lemma SizeIsBounded(o: Options)
    requires SizesAccepted(o)
    ensures 0 < o.bufferSize <= MAX_BUFFER && o.bufferSize <= o.offset
    ensures o.offset % ALIGNMENT == 0 && o.startingOffset % ALIGNMENT == 0
  {}

  lemma AlignedSum(x: nat, y: nat)
    requires x % ALIGNMENT == 0 && y % ALIGNMENT == 0
    ensures (x + y) % ALIGNMENT == 0
  {}

  lemma AlignedProduct(n: nat, x: nat)
    requires x % ALIGNMENT == 0
    ensures n * x % ALIGNMENT == 0
  {
    var q := x / ALIGNMENT;
    assert n * x == n * q * ALIGNMENT;
    MultipleIsAligned(n * q);
  }

  lemma MultipleIsAligned(m: nat)
    ensures m * ALIGNMENT % ALIGNMENT == 0
  {}

  lemma LinearIsAligned(o: Options, p: nat)
    requires !o.paired && SizesAccepted(o)
    ensures Place(o, p) % ALIGNMENT == 0
  {
    AlignedProduct(p, o.offset);
    AlignedSum(o.startingOffset, p * o.offset);
  }

  lemma PairedIsAligned(o: Options, p: nat)
    requires o.paired && SizesAccepted(o) && RegionStride(o) % ALIGNMENT == 0
    ensures Place(o, p) % ALIGNMENT == 0
  {
    hide RegionStride;
    AlignedProduct(p / 2, o.offset);
    AlignedSum(o.startingOffset, p / 2 * o.offset);
    PlaceOfRegion(o, p);
    AlignedSum(InRegion(o, p), if p % 2 == 0 then 0 else RegionStride(o));
  }

  predicate Apart(a: nat, b: nat, size: nat) { a + size <= b || b + size <= a }

  /** Distinct positions never overlap, in either layout. */
  lemma PlacesAreApart(o: Options, p: nat, q: nat)
    requires SizesAccepted(o) && (o.paired ==> PairedRange(o, o.Positions()))
    requires p < q < o.Positions()
    ensures Apart(Place(o, p), Place(o, q), o.bufferSize)
  {
    hide SizesAccepted, PairedRange;
    SizeIsBounded(o);
    if !o.paired {
      EarlierIsLower(o, p, q);
    } else {
      PlaceOfRegion(o, p);
      PlaceOfRegion(o, q);
      if p % 2 == q % 2 {
        EarlierIsLower(o, p / 2, q / 2);
        assert p / 2 < q / 2;
      } else {
        PairedIsExact(o, o.Positions());
      }
    }
  }

  /** Two buffers of one accepted run are disjoint unless they are the same position of the same memory. */
  lemma BuffersAreApart(o: Options, base1: nat, p: nat, base2: nat, q: nat)
    requires ValidatePlacement(o) && Uses(o, base1) && Uses(o, base2)
    requires p < o.Positions() && q < o.Positions() && (base1 != base2 || p != q)
    ensures Apart(RawAddressFor(base1, o, p), RawAddressFor(base2, o, q), o.bufferSize)
  {
    hide SizesAccepted, ModesAccepted, LinearRange, PairedRange, RawAddressFor, Place;
    BufferIsPlaced(o, base1, p);
    BufferIsPlaced(o, base2, q);
    if base1 == base2 {
      if p < q {
        PlacesAreApart(o, p, q);
      } else {
        PlacesAreApart(o, q, p);
      }
    }
  }

  /** The per-buffer channel lookup. */
  function ChannelFor(o: Options, position: nat): Channel
    requires |o.mmChannels| == 1 || position < |o.mmChannels|
  {
    if |o.mmChannels| == 1 then o.mmChannels[0] else o.mmChannels[position]
  }

  /** Acceptance bounds the thread count of a run that uses any memory, so 32-bit indexes do not wrap. */
  lemma ThreadsAreFew(o: Options, base: nat)
    requires ValidatePlacement(o) && Uses(o, base)
    ensures o.Positions() * ALIGNMENT <= SPACE_SIZE
  {
    hide ModesAccepted, LinearRange, PairedRange;
    if o.threads > 0 {
      var last := o.Positions() - 1;
      OffsetIsAPage(o);
      BufferIsPlaced(o, base, last);
      if o.paired {
        PlaceOfRegion(o, last);
        PairedIsExact(o, o.Positions());
        PagesFit(last / 2, o.offset);
      } else {
        PagesFit(last, o.offset);
      }
    }
  }

  lemma OffsetIsAPage(o: Options)
    requires SizesAccepted(o)
    ensures o.offset >= ALIGNMENT && o.bufferSize >= ALIGNMENT
  {}

  lemma PagesFit(n: nat, offset: nat)
    requires offset >= ALIGNMENT
    ensures n * ALIGNMENT <= n * offset
  {}

  /** The default paired layout: even positions in the lower half of the memory, odd ones in the upper. */
  lemma DefaultHalves(o: Options, base: nat, p: nat)
    requires ValidatePlacement(o) && Uses(o, base) && p < o.Positions() && o.paired && o.channelRegionStride == 0
    ensures var a := RawAddressFor(base, o, p);
            if p % 2 == 0 then base <= a && a + o.bufferSize <= base + SPACE_SIZE / 2
            else base + SPACE_SIZE / 2 <= a && a + o.bufferSize <= base + SPACE_SIZE
  {
    hide ModesAccepted, LinearRange, PairedRange, RawAddressFor, Place, InRegion;
    BufferIsPlaced(o, base, p);
    SizeIsBounded(o);
    PairedIsExact(o, o.Positions());
    PlaceOfRegion(o, p);
  }

  /** Neighbouring positions of one channel are `offset` apart, the first at the starting offset. */
  lemma PlacesAreSpaced(o: Options, p: nat)
    ensures Place(o, 0) == o.startingOffset
    ensures o.paired ==> Place(o, p + 2) == Place(o, p) + o.offset
    ensures !o.paired ==> Place(o, p + 1) == Place(o, p) + o.offset
    ensures o.paired && o.channelRegionStride != 0 ==> Place(o, 1) == o.startingOffset + o.channelRegionStride
    ensures o.paired && o.channelRegionStride == 0 ==> Place(o, 1) == o.startingOffset + SPACE_SIZE / 2
  {
    assert (p + 2) / 2 == p / 2 + 1 && (p + 2) % 2 == p % 2;
  }

  /** Exactly which option sets are accepted, with every placement condition in unbounded arithmetic. */
  lemma AcceptedIff(o: Options)
    ensures ValidatePlacement(o) <==>
            && (|o.mmChannels| == 1 || |o.mmChannels| == 2 * o.threads)
            && 0 < o.bufferSize <= 512 * 1024 * 1024 && o.bufferSize <= o.offset
            && o.bufferSize % 4096 == 0 && o.offset % 4096 == 0 && o.startingOffset % 4096 == 0
            && (o.rawTransferTest || o.useQdmaDriver ||
                (!o.paired && o.bandwidthIterations <= 1 && o.bandwidthDuration <= 0.0 && o.ringSizeIndex == None))
            && o.bandwidthDuration >= 0.0 && (o.ringSizeIndex == None || o.ringSizeIndex.value <= 15)
            && (!(o.ddrOnly && o.hbmOnly) && o.threads > 0 ==>
                  && (o.paired ==> o.channelRegionStride % 4096 == 0)
                  && forall p: nat | p < 2 * o.threads ::
                       && Place(o, p) + o.bufferSize <= 64 * 512 * 1024 * 1024
                       && (o.paired ==> InRegion(o, p) + o.bufferSize <= RegionStride(o)))
  {
    hide LinearRange, PairedRange, Place, InRegion;
    var n := o.Positions();
    if o.paired {
      if n > 0 && o.bufferSize <= MAX_BUFFER {
        PairedIsExact(o, n);
      }
    } else {
      LinearIsExact(o, n);
    }
    if n == 0 {
      NothingToPlace(o);
    }
  }

  lemma NothingToPlace(o: Options)
    ensures InRange(o, 0)
  {}
}
