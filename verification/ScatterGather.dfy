/**
  Kernel DMA buffers and the scatter-gather list of one sub-transfer: `slash_qdma_buf_alloc`,
  `slash_qdma_buf_dma_map` / `_unmap` and `slash_qdma_xfer_prep` of driver/slash_qdma.c.
 */
module ScatterGather {
  import opened Common

  const PAGE_SIZE: nat := 4096
  const UINT_MAX: nat := U32_MAX
  const EINVAL: int := 22
  const ENODEV: int := 19
  const ENOMEM: int := 12

  /** `struct qdma_sw_sg`: `page` is the index of the page in its buffer, `next` an index in the same
      list. */
  datatype Sg = Sg(page: nat, offset: nat, len: nat, dma: nat, next: Option<nat>)

  function Add64(a: U64, b: U64): U64 {
    (a + b) % TWO64
  }

  // ------------------------------------------------------------- what a list means

  /** The entries libqdma visits: `n` of them from `head`, following `next`. */
  function Walk(sgl: seq<Sg>, head: nat, n: nat): seq<Sg>
    decreases n
  {
    if n == 0 || head >= |sgl| then []
    else if n == 1 || sgl[head].next.None? then [sgl[head]]
    else [sgl[head]] + Walk(sgl, sgl[head].next.value, n - 1)
  }

  function Range(lo: nat, n: nat): (r: seq<nat>)
    ensures |r| == n && forall i :: 0 <= i < n ==> r[i] == lo + i
  {
    seq(n, i requires 0 <= i => lo + i)
  }

  /** The buffer bytes a list of entries touches, in order. */
  function Bytes(s: seq<Sg>): seq<nat> {
    if s == [] then []
    else
      var last := s[|s| - 1];
      Bytes(s[..|s| - 1]) + Range(last.page * PAGE_SIZE + last.offset, last.len)
  }

  /** Entry i of the list built once at creation: one whole page, chained to the end of the buffer. */
  predicate CachedAt(x: Sg, i: nat, n: nat) {
    x.page == i && x.offset == 0 && x.len == PAGE_SIZE && x.next == if i + 1 < n then Some(i + 1) else None
  }

  predicate Cached(sgl: seq<Sg>) {
    forall i :: 0 <= i < |sgl| ==> CachedAt(sgl[i], i, |sgl|)
  }

  lemma {:induction false} WalkChain(sgl: seq<Sg>, head: nat, n: nat)
    requires head + n <= |sgl|
    requires forall i :: head <= i < head + n - 1 ==> sgl[i].next == Some(i + 1)
    ensures Walk(sgl, head, n) == sgl[head..head + n]
    decreases n
  {
    if n > 1 {
      WalkChain(sgl, head + 1, n - 1);
    }
  }

  /** Consecutive pages, the last one clipped, cover one unbroken run of bytes. */
  lemma {:induction false} ConsecutivePages(s: seq<Sg>, start: nat, length: nat)
    requires forall i :: 0 <= i < |s| ==> s[i].page == start + i && s[i].offset == 0
    requires forall i :: 0 <= i < |s| - 1 ==> s[i].len == PAGE_SIZE
    requires s == [] ==> length == 0
    requires s != [] ==> length == (|s| - 1) * PAGE_SIZE + s[|s| - 1].len
    ensures Bytes(s) == Range(start * PAGE_SIZE, length)
  {
    hide Range;
    if s == [] {
      NoBytes(start * PAGE_SIZE);
    } else {
      var init, last := s[..|s| - 1], s[|s| - 1];
      ConsecutivePages(init, start, |init| * PAGE_SIZE);
      RangeConcat(start * PAGE_SIZE, |init| * PAGE_SIZE, last.len);
    }
  }

  lemma NoBytes(lo: nat)
    ensures Range(lo, 0) == []
  {}

  lemma RangeConcat(lo: nat, m: nat, n: nat)
    ensures Range(lo, m) + Range(lo + m, n) == Range(lo, m + n)
  {}

  // ------------------------------------------------------------------ the buffer

  /** Pages and DMA mappings outstanding. */
  class Memory {
    var pages: nat
    var maps: nat

    constructor ()
      ensures pages == 0 && maps == 0
    {
      pages, maps := 0, 0;
    }
  }

  /** How many of the first k entries have a non-zero DMA address. */
  function NonZero(sgl: seq<Sg>, k: nat): nat
    requires k <= |sgl|
  {
    if k == 0 then 0 else NonZero(sgl, k - 1) + (if sgl[k - 1].dma != 0 then 1 else 0)
  }

  lemma {:induction false} NonZeroMonotone(s: seq<Sg>, j: nat, k: nat)
    requires j <= k <= |s|
    ensures NonZero(s, j) <= NonZero(s, k)
  {
    if j < k {
      NonZeroMonotone(s, j, k - 1);
    }
  }

  /** The index of the first page that cannot be mapped, n if there is none. */
  function FirstError(dmaAddr: nat -> Option<nat>, n: nat): (k: nat)
    ensures k <= n && (k < n ==> dmaAddr(k).None?) && forall j :: 0 <= j < k ==> dmaAddr(j).Some?
  {
    if n == 0 then 0
    else
      var k := FirstError(dmaAddr, n - 1);
      if k < n - 1 || dmaAddr(n - 1).None? then k else n
  }

  /** How many of the first k pages are mapped at address zero. */
  function ZeroAddrs(dmaAddr: nat -> Option<nat>, k: nat): nat {
    if k == 0 then 0 else ZeroAddrs(dmaAddr, k - 1) + (if dmaAddr(k - 1) == Some(0) then 1 else 0)
  }

  /** Nothing is lost exactly when no page was mapped at address zero. */
  lemma {:induction false} ZeroAddrsIff(dmaAddr: nat -> Option<nat>, k: nat)
    ensures ZeroAddrs(dmaAddr, k) <= k
    ensures ZeroAddrs(dmaAddr, k) == 0 <==> forall j :: 0 <= j < k ==> dmaAddr(j) != Some(0)
  {
    if k > 0 {
      ZeroAddrsIff(dmaAddr, k - 1);
    }
  }

  /** An unmap pass over pages mapped at the given addresses misses exactly those at zero. */
  lemma {:induction false} UnmapMissesZeros(sgl: seq<Sg>, dmaAddr: nat -> Option<nat>, k: nat)
    requires k <= |sgl| && forall j :: 0 <= j < k ==> dmaAddr(j) == Some(sgl[j].dma)
    ensures NonZero(sgl, k) + ZeroAddrs(dmaAddr, k) == k
  {
    if k > 0 {
      UnmapMissesZeros(sgl, dmaAddr, k - 1);
      assert dmaAddr(k - 1) == Some(sgl[k - 1].dma);
    }
  }

  class Buffer {
    const mem: Memory
    const length: U64
    var sgl: array<Sg>
    var pagesHeld: nat           // non-null entries of the page array

    constructor (mem: Memory, length: U64)
      ensures this.mem == mem && this.length == length && sgl.Length == 0 && pagesHeld == 0 && fresh(sgl)
    {
      this.mem, this.length := mem, length;
      sgl, pagesHeld := new Sg[0], 0;
    }

    /** `slash_qdma_buf_dma_unmap` over the first n entries: skips entries whose address is zero. */
    method DmaUnmap(n: nat)
      requires n <= sgl.Length && NonZero(sgl[..], n) <= mem.maps
      modifies mem`maps, sgl
      ensures mem.maps == old(mem.maps) - old(NonZero(sgl[..], n))
    {
      ghost var was := sgl[..];
      var i := 0;
      while i < n
        invariant 0 <= i <= n && forall j :: i <= j < n ==> sgl[j] == was[j]
        invariant mem.maps == old(mem.maps) - NonZero(was, i)
      {
        NonZeroMonotone(was, i + 1, n);
        if sgl[i].dma != 0 {
          mem.maps := mem.maps - 1;
          sgl[i] := sgl[i].(dma := 0);
        }
        i := i + 1;
      }
    }

    /** `slash_qdma_buf_alloc`.  `arraysOk`, `pageOk` and `dmaAddr` are the answers of kvcalloc(),
        alloc_page() and dma_map_page(), None being a mapping error.  Success builds the cached list
        with each page's address; a failure gives back every page, and every mapping but those at
        address zero. */
    method Alloc(arraysOk: bool, pageOk: nat -> bool, dmaAddr: nat -> Option<nat>) returns (rv: int)
      requires sgl.Length == 0 && pagesHeld == 0
      modifies this, mem
      ensures rv == 0 <==>
                CanAlloc(length, arraysOk, pageOk) && FirstError(dmaAddr, length / PAGE_SIZE) == length / PAGE_SIZE
      ensures rv == 0 ==>
                && sgl.Length == length / PAGE_SIZE == pagesHeld && Cached(sgl[..]) && fresh(sgl)
                && (forall j :: 0 <= j < sgl.Length ==> dmaAddr(j) == Some(sgl[j].dma))
                && mem.pages == old(mem.pages) + sgl.Length && mem.maps == old(mem.maps) + sgl.Length
      ensures rv == -EINVAL <==> length == 0 || length % PAGE_SIZE != 0 || length / PAGE_SIZE > UINT_MAX
      ensures rv in {0, -EINVAL, -ENOMEM}
      ensures rv != 0 ==> mem.pages == old(mem.pages)
      ensures rv != 0 ==>
                mem.maps == old(mem.maps) + ZeroAddrs(dmaAddr, Mapped(length, arraysOk, pageOk, dmaAddr))
    {
      hide FirstError;
      if length == 0 || length % PAGE_SIZE != 0 || length / PAGE_SIZE > UINT_MAX {
        return -EINVAL;
      }
      if !arraysOk {
        return -ENOMEM;
      }
      var entries := length / PAGE_SIZE;
      sgl := new Sg[entries](_ => Sg(0, 0, 0, 0, None));
      var i := 0;
      while i < entries
        invariant 0 <= i <= entries && sgl.Length == entries && fresh(sgl)
        invariant pagesHeld == i && mem.pages == old(mem.pages) + i && mem.maps == old(mem.maps)
        invariant forall j :: 0 <= j < i ==> pageOk(j)
        invariant forall j :: 0 <= j < i ==>
                    sgl[j] == Sg(j, 0, PAGE_SIZE, 0, if j + 1 < entries then Some(j + 1) else None)
      {
        if !pageOk(i) {
          mem.pages := mem.pages - pagesHeld;
          pagesHeld, sgl := 0, new Sg[0];
          return -ENOMEM;
        }
        mem.pages := mem.pages + 1;
        pagesHeld := pagesHeld + 1;
        sgl[i] := Sg(i, 0, PAGE_SIZE, 0, if i + 1 < entries then Some(i + 1) else None);
        i := i + 1;
      }
      rv := DmaMap(dmaAddr);
      if rv < 0 {
        mem.pages := mem.pages - pagesHeld;
        pagesHeld, sgl := 0, new Sg[0];
      }
    }

    /** `slash_qdma_buf_dma_map`: all entries at the addresses they were given; or, at the first error,
        the mappings made so far are undone except those at address zero. */
    method DmaMap(dmaAddr: nat -> Option<nat>) returns (rv: int)
      requires forall j :: 0 <= j < sgl.Length ==> CachedAt(sgl[j], j, sgl.Length)
      modifies mem`maps, sgl
      ensures rv in {0, -ENOMEM} && (rv == 0 <==> FirstError(dmaAddr, sgl.Length) == sgl.Length)
      ensures rv == 0 ==> (forall j :: 0 <= j < sgl.Length ==> CachedAt(sgl[j], j, sgl.Length))
      ensures rv == 0 ==> (forall j :: 0 <= j < sgl.Length ==> dmaAddr(j) == Some(sgl[j].dma))
      ensures rv == 0 ==> mem.maps == old(mem.maps) + sgl.Length
      ensures rv != 0 ==> mem.maps == old(mem.maps) + ZeroAddrs(dmaAddr, FirstError(dmaAddr, sgl.Length))
    {
      hide FirstError, ZeroAddrs, NonZero;
      ghost var first := FirstError(dmaAddr, sgl.Length);
      var i := 0;
      while i < sgl.Length
        invariant 0 <= i <= first && forall j :: 0 <= j < sgl.Length ==> CachedAt(sgl[j], j, sgl.Length)
        invariant forall j :: 0 <= j < i ==> dmaAddr(j) == Some(sgl[j].dma)
        invariant mem.maps == old(mem.maps) + i
      {
        var a := dmaAddr(i);
        if a.None? {
          UnmapMissesZeros(sgl[..], dmaAddr, i);
          DmaUnmap(i);                       // the entries from i on still have address zero
          return -ENOMEM;
        }
        sgl[i] := sgl[i].(dma := a.value);
        mem.maps := mem.maps + 1;
        i := i + 1;
      }
      rv := 0;
    }

    /** `slash_qdma_buf_release`: gives back every page, and every mapping whose address is not zero. */
    method Release()
      requires NonZero(sgl[..], sgl.Length) <= mem.maps && pagesHeld <= mem.pages
      modifies this, mem, sgl
      ensures mem.pages == old(mem.pages) - old(pagesHeld) && pagesHeld == 0
      ensures mem.maps == old(mem.maps) - old(NonZero(sgl[..], sgl.Length))
    {
      DmaUnmap(sgl.Length);
      mem.pages := mem.pages - pagesHeld;
      pagesHeld, sgl := 0, new Sg[0];
    }
  }

  /** Everything buf_alloc needs before it maps anything. */
  ghost predicate CanAlloc(length: U64, arraysOk: bool, pageOk: nat -> bool) {
    && 0 < length && length % PAGE_SIZE == 0 && length / PAGE_SIZE <= UINT_MAX && arraysOk
    && forall i: nat :: i < length / PAGE_SIZE ==> pageOk(i)
  }

  /** How many pages a creation maps before it succeeds or meets an error. */
  ghost function Mapped(length: U64, arraysOk: bool, pageOk: nat -> bool, dmaAddr: nat -> Option<nat>): nat {
    if CanAlloc(length, arraysOk, pageOk) then FirstError(dmaAddr, length / PAGE_SIZE) else 0
  }

  /** The life of a buffer, successful or not: all pages come back, and every DMA mapping comes back if
      and only if no page was mapped at address zero. */
  method AllocThenRelease(mem: Memory, length: U64, arraysOk: bool, pageOk: nat -> bool, dmaAddr: nat -> Option<nat>)
    modifies mem
    ensures mem.pages == old(mem.pages)
    ensures mem.maps == old(mem.maps) + ZeroAddrs(dmaAddr, Mapped(length, arraysOk, pageOk, dmaAddr))
    ensures mem.maps == old(mem.maps) <==>
            forall j :: 0 <= j < Mapped(length, arraysOk, pageOk, dmaAddr) ==> dmaAddr(j) != Some(0)
  {
    var buf := new Buffer(mem, length);
    var rv := buf.Alloc(arraysOk, pageOk, dmaAddr);
    if rv == 0 {
      UnmapMissesZeros(buf.sgl[..], dmaAddr, buf.sgl.Length);
      buf.Release();
    }
    ZeroAddrsIff(dmaAddr, Mapped(length, arraysOk, pageOk, dmaAddr));
  }

  /** One page mapped at address zero stays mapped after its buffer is gone. */
  method ZeroAddressStaysMapped() returns (mem: Memory)
    ensures fresh(mem) && mem.pages == 0 && mem.maps == 1
  {
    mem := new Memory();
    var zero: nat -> Option<nat> := _ => Some(0);
    AllocThenRelease(mem, PAGE_SIZE, true, _ => true, zero);
    assert ZeroAddrs(zero, 1) == 1;
  }

  // ----------------------------------------------------------- one sub-transfer

  const XFER_H2C: int := 1
  const XFER_C2H: int := 2
  const EBADF: int := 9

  datatype Descriptor = Descriptor(direction: int, bufOffset: U64, length: U64, devAddr: U64)

  /** What the descriptor's buffer fd turned out to be. */
  datatype Lookup = NoFile | NotABuffer | OtherDevice | Found

  /** The parts of `struct qdma_request` that say which bytes move. */
  datatype Request = Request(sgl: array<Sg>, head: nat, sgcnt: nat, count: nat, write: bool, epAddr: U64)

  /** The request names, through the entries libqdma visits, exactly the bytes offset .. offset +
      length - 1 of the buffer in order, each through its cached DMA mapping. */
  ghost predicate Covers(visited: seq<Sg>, cached: seq<Sg>, sgcnt: nat, offset: nat, length: nat) {
    && |visited| == sgcnt
    && Bytes(visited) == Range(offset, length)
    && forall i :: 0 <= i < sgcnt ==>
         visited[i].page == offset / PAGE_SIZE + i < |cached| && visited[i].dma == cached[visited[i].page].dma
  }

  /** The list of an accepted sub-transfer: the cached entries themselves when it ends on a page
      boundary, else a copy with a clipped tail. */
  method BuildList(buf: Buffer, start: nat, n: nat, length: nat) returns (sgl: array<Sg>, head: nat)
    requires forall i :: 0 <= i < buf.sgl.Length ==> CachedAt(buf.sgl[i], i, buf.sgl.Length)
    requires 0 < n && start + n <= buf.sgl.Length
    requires length == (n - 1) * PAGE_SIZE + (if length % PAGE_SIZE == 0 then PAGE_SIZE else length % PAGE_SIZE)
    ensures Covers(Walk(sgl[..], head, n), buf.sgl[..], n, start * PAGE_SIZE, length)
  {
    if length % PAGE_SIZE == 0 {
      sgl, head := buf.sgl, start;
      SliceCovers(sgl[..], start, n, length);
    } else {
      sgl := ClippedCopy(buf.sgl, start, n, length % PAGE_SIZE);
      head := 0;
      CopyCovers(sgl[..], start, n, length);
    }
  }

  /** `slash_qdma_xfer_prep`.  The method has no `modifies` clause: the cached list is never changed.
      The contract gives the exact condition of acceptance and of each error code; the page-count check
      has no part in them, because it never fires. */
  method XferPrep(d: Descriptor, look: Lookup, buf: Buffer, alive: bool, queueOk: bool, allocOk: bool)
      returns (rv: int, req: Option<Request>)
    requires buf.length % PAGE_SIZE == 0 && buf.sgl.Length == buf.length / PAGE_SIZE <= UINT_MAX
    requires forall i :: 0 <= i < buf.sgl.Length ==> CachedAt(buf.sgl[i], i, buf.sgl.Length)
    ensures rv == 0 <==>
            && (d.direction == XFER_H2C || d.direction == XFER_C2H) && 0 < d.length <= UINT_MAX && look == Found
            && d.bufOffset % PAGE_SIZE == 0 && d.bufOffset + d.length <= buf.length && alive && queueOk
            && (d.length % PAGE_SIZE == 0 || allocOk)
    ensures rv == -EBADF <==>
            (d.direction == XFER_H2C || d.direction == XFER_C2H) && 0 < d.length <= UINT_MAX && look == NoFile
    ensures rv == -ENODEV <==>
            && (d.direction == XFER_H2C || d.direction == XFER_C2H) && 0 < d.length <= UINT_MAX && look == Found
            && d.bufOffset % PAGE_SIZE == 0 && d.bufOffset + d.length <= buf.length && !(alive && queueOk)
    ensures rv == -ENOMEM <==>
            && (d.direction == XFER_H2C || d.direction == XFER_C2H) && 0 < d.length <= UINT_MAX && look == Found
            && d.bufOffset % PAGE_SIZE == 0 && d.bufOffset + d.length <= buf.length && alive && queueOk
            && d.length % PAGE_SIZE != 0 && !allocOk
    ensures rv in {0, -EBADF, -ENODEV, -ENOMEM, -EINVAL} && (rv == 0 <==> req.Some?)
    ensures req.Some? ==>
              var r := req.value;
              && r.count == d.length && r.write == (d.direction == XFER_H2C) && r.epAddr == d.devAddr
              && d.bufOffset + d.length <= buf.length
              && Covers(Walk(r.sgl[..], r.head, r.sgcnt), buf.sgl[..], r.sgcnt, d.bufOffset, d.length)
  {
    hide Covers, Walk, Bytes, Range;
    if d.direction != XFER_H2C && d.direction != XFER_C2H { return -EINVAL, None; }
    if d.length == 0 || d.length > UINT_MAX { return -EINVAL, None; }
    if look == NoFile { return -EBADF, None; }
    if look != Found { return -EINVAL, None; }
    if d.bufOffset % PAGE_SIZE != 0 { return -EINVAL, None; }
    if d.bufOffset > buf.length || d.length > buf.length - d.bufOffset { return -EINVAL, None; }
    var start := d.bufOffset / PAGE_SIZE;
    var n := Add64(d.length, PAGE_SIZE - 1) / PAGE_SIZE;
    PageCountFits(d.bufOffset, d.length, buf.length);
    if Add64(start, n) > buf.sgl.Length { return -EINVAL, None; }
    if !alive || !queueOk { return -ENODEV, None; }
    if d.length % PAGE_SIZE != 0 && !allocOk { return -ENOMEM, None; }
    var sgl, head := BuildList(buf, start, n, d.length);
    var sgcnt, count := n % (UINT_MAX + 1), d.length % (UINT_MAX + 1);
    rv, req := 0, Some(Request(sgl, head, sgcnt, count, d.direction == XFER_H2C, d.devAddr));
  }

  /** The arithmetic of the page-count check: nothing wraps and the sum stays within the buffer. */
  lemma PageCountFits(offset: U64, length: U64, bufLength: U64)
    requires offset % PAGE_SIZE == 0 && bufLength % PAGE_SIZE == 0 && 0 < length <= UINT_MAX
    requires offset <= bufLength && length <= bufLength - offset && bufLength / PAGE_SIZE <= UINT_MAX
    ensures var start, n := offset / PAGE_SIZE, Add64(length, PAGE_SIZE - 1) / PAGE_SIZE;
            && Add64(length, PAGE_SIZE - 1) == length + PAGE_SIZE - 1
            && 0 < n <= UINT_MAX && Add64(start, n) == start + n <= bufLength / PAGE_SIZE
            && length == (n - 1) * PAGE_SIZE + (if length % PAGE_SIZE == 0 then PAGE_SIZE else length % PAGE_SIZE)
  {
  }

  /** Copies a slice of the cached list and clips its last entry. */
  method ClippedCopy(sgl: array<Sg>, start: nat, n: nat, tail: nat) returns (own: array<Sg>)
    requires 0 < n && start + n <= sgl.Length
    ensures fresh(own) && own.Length == n
    ensures forall i :: 0 <= i < n ==>
              own[i] == sgl[start + i].(next := if i + 1 < n then Some(i + 1) else None,
                                       len := if i + 1 < n then sgl[start + i].len else tail)
  {
    own := new Sg[n](_ => Sg(0, 0, 0, 0, None));
    var i := 0;
    while i < n
      invariant 0 <= i <= n && fresh(own) && own.Length == n
      invariant forall j :: 0 <= j < i ==> own[j] == sgl[start + j].(next := if j + 1 < n then Some(j + 1) else None)
    {
      own[i] := sgl[start + i].(next := if i + 1 < n then Some(i + 1) else None);
      i := i + 1;
    }
    own[n - 1] := own[n - 1].(len := tail);
  }

  lemma SliceCovers(sgl: seq<Sg>, start: nat, n: nat, length: nat)
    requires Cached(sgl) && 0 < n && start + n <= |sgl| && length == n * PAGE_SIZE
    ensures Walk(sgl, start, n) == sgl[start..start + n]
    ensures Bytes(Walk(sgl, start, n)) == Range(start * PAGE_SIZE, length)
  {
    assert forall i :: start <= i < start + n ==> CachedAt(sgl[i], i, |sgl|);
    WalkChain(sgl, start, n);
    ConsecutivePages(sgl[start..start + n], start, length);
  }

  lemma CopyCovers(own: seq<Sg>, start: nat, n: nat, length: nat)
    requires |own| == n > 0 && length == (n - 1) * PAGE_SIZE + own[n - 1].len
    requires forall i :: 0 <= i < n ==> own[i].page == start + i && own[i].offset == 0
    requires forall i :: 0 <= i < n - 1 ==> own[i].len == PAGE_SIZE && own[i].next == Some(i + 1)
    ensures Walk(own, 0, n) == own
    ensures Bytes(own) == Range(start * PAGE_SIZE, length)
  {
    WalkChain(own, 0, n);
    assert own[0..n] == own;
    ConsecutivePages(own, start, length);
  }
}
