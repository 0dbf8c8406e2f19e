/**
  The userspace transfer fallback of driver/libslash/src/qdma.c: a sub-transfer bounced chunk by
  chunk between the host buffer's file and the file that stands in for device memory, and the batch
  that runs sub-transfers one after the other.
 */
module Fallback {
  import opened Common
  import opened Files

  const BOUNCE_CHUNK: nat := 0x10_0000
  const FD_MAX_QPAIRS: nat := 2
  const XFER_H2C: nat := 1
  const XFER_C2H: nat := 2

  datatype Subxfer = Subxfer(qpairIndex: nat, direction: nat, bufFd: int, bufOffset: U64, devAddr: U64, length: U64) {
    predicate IsDirected() { direction == XFER_H2C || direction == XFER_C2H }

    function FromFd(qpairFd: int): int { if direction == XFER_H2C then bufFd else qpairFd }
    function ToFd(qpairFd: int): int { if direction == XFER_H2C then qpairFd else bufFd }
    function FromOff(): nat { if direction == XFER_H2C then bufOffset else devAddr }
    function ToOff(): nat { if direction == XFER_H2C then devAddr else bufOffset }
  }

  // ---------------------------------------------------------------------------------------------
  // The meaning of a sub-transfer: copy this slice
  // ---------------------------------------------------------------------------------------------

  type Table = map<nat, nat>
  type Disk = map<nat, Bytes>

  /** Device memory as a card-to-host transfer finds it: grown with zeros to the end of the range. */
  ghost predicate IsBase(x: Subxfer, qpairFd: int, fds: Table, was: Disk, base: Disk) {
    || base == was
    || (&& x.direction == XFER_C2H && qpairFd in fds && fds[qpairFd] in was
        && |was[fds[qpairFd]]| < Off(x.devAddr + x.length)
        && base == was[fds[qpairFd] := Grown(was[fds[qpairFd]], Off(x.devAddr + x.length))])
  }

  /** The first k bytes have arrived, and nothing else has changed since `base`. */
  ghost predicate Landed(x: Subxfer, qpairFd: int, fds: Table, base: Disk, now: Disk, k: nat) {
    if k == 0 then now == base
    else
      && x.FromFd(qpairFd) in fds && x.ToFd(qpairFd) in fds
      && fds[x.FromFd(qpairFd)] in base && fds[x.ToFd(qpairFd)] in base
      && var from, to := base[fds[x.FromFd(qpairFd)]], fds[x.ToFd(qpairFd)];
      && x.FromOff() + k <= |from| <= MAX_FILE && x.ToOff() + k <= MAX_FILE
      && now == base[to := Splice(base[to], x.ToOff(), from[x.FromOff()..x.FromOff() + k])]
  }

  /** The two descriptors do not name one file. */
  ghost predicate AreDistinct(x: Subxfer, qpairFd: int, fds: Table) {
    x.bufFd in fds && qpairFd in fds ==> fds[x.bufFd] != fds[qpairFd]
  }

  /** The slice law, for the files it is about. */
  ghost predicate Lands(x: Subxfer, qpairFd: int, fds: Table, base: Disk, now: Disk, k: nat) {
    AreDistinct(x, qpairFd, fds) ==> Landed(x, qpairFd, fds, base, now, k)
  }

  /** Files the transfer does not name are as they were. */
  ghost predicate OthersKept(x: Subxfer, qpairFd: int, fds: Table, was: Disk, now: Disk) {
    forall ino | ino in was && (x.bufFd in fds ==> fds[x.bufFd] != ino) && (qpairFd in fds ==> fds[qpairFd] != ino) ::
      ino in now && now[ino] == was[ino]
  }

  ghost predicate NoneShrinks(was: Disk, now: Disk) {
    forall ino | ino in was :: ino in now && |was[ino]| <= |now[ino]|
  }

  /** Both files are there, the source slice exists (device memory grows to it) and the destination is
      within what a file can hold. */
  ghost predicate CanTransfer(x: Subxfer, qpairFd: int, fds: Table, disk: Disk) {
    && x.IsDirected() && x.bufFd in fds && qpairFd in fds && fds[x.bufFd] in disk && fds[qpairFd] in disk
    && x.bufOffset + x.length <= (if x.direction == XFER_H2C then |disk[fds[x.bufFd]]| else MAX_FILE)
    && x.devAddr + x.length <= MAX_FILE
  }

  lemma PieceAppended(from: Bytes, to: Bytes, fromOff: nat, toOff: nat, k: nat, w: nat)
    requires fromOff + k + w <= |from|
    ensures Splice(Splice(to, toOff, from[fromOff..fromOff + k]), toOff + k, from[fromOff + k..fromOff + k + w]) ==
            Splice(to, toOff, from[fromOff..fromOff + k + w])
  {
    hide Splice;
    var a, b := from[fromOff..fromOff + k], from[fromOff + k..fromOff + k + w];
    SpliceTwice(to, toOff, a, b);
    assert a + b == from[fromOff..fromOff + k + w];
  }

  lemma LandsMore(x: Subxfer, qpairFd: int, fds: Table, base: Disk, now: Disk, next: Disk, k: nat, w: nat)
    requires AreDistinct(x, qpairFd, fds) && Landed(x, qpairFd, fds, base, now, k) && w > 0
    requires x.FromFd(qpairFd) in fds && x.ToFd(qpairFd) in fds
    requires fds[x.FromFd(qpairFd)] in now && fds[x.ToFd(qpairFd)] in now
    requires var from, to := now[fds[x.FromFd(qpairFd)]], fds[x.ToFd(qpairFd)];
             && x.FromOff() + k + w <= |from| <= MAX_FILE && x.ToOff() + k + w <= MAX_FILE
             && next == now[to := Splice(now[to], x.ToOff() + k, from[x.FromOff() + k..x.FromOff() + k + w])]
    ensures Landed(x, qpairFd, fds, base, next, k + w)
  {
    hide Splice;
    var from, to := fds[x.FromFd(qpairFd)], fds[x.ToFd(qpairFd)];
    assert now[from] == base[from];
    if k > 0 {
      PieceAppended(base[from], base[to], x.FromOff(), x.ToOff(), k, w);
    }
  }

  // ---------------------------------------------------------------------------------------------
  // The bounce loop
  // ---------------------------------------------------------------------------------------------

  /** `wrote` bytes were copied from one place to another, and nothing else happened. */
  ghost predicate Moved(fds: Table, was: Disk, now: Disk, fromFd: int, fromOff: int, toFd: int, toOff: int,
                        wrote: nat)
  {
    if wrote == 0 then now == was
    else
      && fromFd in fds && toFd in fds && fds[fromFd] in was && fds[toFd] in was && 0 <= fromOff && 0 <= toOff
      && fromOff + wrote <= |was[fds[fromFd]]| <= MAX_FILE && toOff + wrote <= MAX_FILE
      && now == was[fds[toFd] := Splice(was[fds[toFd]], toOff, was[fds[fromFd]][fromOff..fromOff + wrote])]
  }

  /** The chunk exists where it is to be read and fits where it is to be written. */
  ghost predicate PieceFits(fds: Table, disk: Disk, fromFd: int, fromOff: int, toFd: int, toOff: int, chunk: nat) {
    && fromFd in fds && toFd in fds && fds[fromFd] in disk && 0 <= fromOff && 0 <= toOff && chunk > 0
    && fromOff + chunk <= |disk[fds[fromFd]]| && toOff + chunk <= MAX_FILE
  }

  /** One read and one write; r is what the loop goes on with, -1 unless all that was read was written. */
  method CopyPiece(fs: FileSystem, fromFd: int, fromOff: int, toFd: int, toOff: int, chunk: nat)
    returns (r: int, ghost wrote: nat)
    requires fs.Valid()
    modifies fs
    ensures fs.Valid() && fs.fds == old(fs.fds) && old(fs.calls) <= fs.calls
    ensures -1 <= r <= chunk && wrote <= chunk && (r > 0 ==> wrote == r)
    ensures Moved(fs.fds, old(fs.files), fs.files, fromFd, fromOff, toFd, toOff, wrote)
    ensures fs.AnswersInFull(old(fs.calls)) && PieceFits(fs.fds, old(fs.files), fromFd, fromOff, toFd, toOff, chunk) ==>
              r == chunk
  {
    hide Splice;
    wrote := 0;
    var data;
    r, data := fs.PRead(fromFd, chunk, fromOff);
    if r <= 0 {
      return -1, 0;
    }
    ghost var from := fs.Contents(fromFd);
    var w := fs.PWrite(toFd, data, toOff);
    if w > 0 {
      wrote := w;
      assert data[..w] == from[fromOff..fromOff + w];
    }
    if w != r {
      r := -1;
    }
  }

  lemma MovedKeeps(fds: Table, was: Disk, now: Disk, fromFd: int, fromOff: int, toFd: int, toOff: int, wrote: nat,
                   x: Subxfer, qpairFd: int)
    requires Moved(fds, was, now, fromFd, fromOff, toFd, toOff, wrote) && (toFd == x.bufFd || toFd == qpairFd)
    ensures NoneShrinks(was, now) && OthersKept(x, qpairFd, fds, was, now)
  {
    hide Splice;
  }

  lemma MovedLands(x: Subxfer, qpairFd: int, fds: Table, base: Disk, was: Disk, now: Disk, k: nat, wrote: nat)
    requires Lands(x, qpairFd, fds, base, was, k)
    requires Moved(fds, was, now, x.FromFd(qpairFd), Off(x.FromOff() + k), x.ToFd(qpairFd), Off(x.ToOff() + k), wrote)
    ensures Lands(x, qpairFd, fds, base, now, k + wrote)
  {
    hide Splice, Landed, Off;
    if wrote > 0 && AreDistinct(x, qpairFd, fds) {
      LandedInRange(x, qpairFd, fds, base, was, k);
      OffsetIsPlain(x.FromOff(), k);
      OffsetIsPlain(x.ToOff(), k);
      LandsMore(x, qpairFd, fds, base, was, now, k, wrote);
    }
  }

  lemma ReadyFits(x: Subxfer, qpairFd: int, fds: Table, disk: Disk, k: nat, chunk: nat)
    requires IsReady(x, qpairFd, fds, disk) && k + chunk <= x.length && chunk > 0
    ensures PieceFits(fds, disk, x.FromFd(qpairFd), Off(x.FromOff() + k), x.ToFd(qpairFd), Off(x.ToOff() + k), chunk)
  {
    OffIsPlain(x.FromOff() + k);
    OffIsPlain(x.ToOff() + k);
    hide Off;
  }

  method Bounce(fs: FileSystem, qpairFd: int, x: Subxfer, chunk: nat, ghost base: Disk, k: nat)
    returns (r: int, ghost wrote: nat)
    requires fs.Valid() && x.IsDirected() && k + chunk <= x.length
    requires Lands(x, qpairFd, fs.fds, base, fs.files, k)
    modifies fs
    ensures fs.Valid() && fs.fds == old(fs.fds) && old(fs.calls) <= fs.calls
    ensures -1 <= r <= chunk && wrote <= chunk && (r > 0 ==> wrote == r)
    ensures Lands(x, qpairFd, fs.fds, base, fs.files, k + wrote)
    ensures NoneShrinks(old(fs.files), fs.files) && OthersKept(x, qpairFd, fs.fds, old(fs.files), fs.files)
    ensures fs.AnswersInFull(old(fs.calls)) && IsReady(x, qpairFd, fs.fds, old(fs.files)) && chunk > 0 ==> r == chunk
  {
    hide Moved, PieceFits, Lands, IsReady, Off, NoneShrinks, OthersKept;
    ghost var was := fs.files;
    if IsReady(x, qpairFd, fs.fds, was) && chunk > 0 {
      ReadyFits(x, qpairFd, fs.fds, was, k, chunk);
    }
    if x.direction == XFER_H2C {
      r, wrote := CopyPiece(fs, x.bufFd, Off(x.bufOffset + k), qpairFd, Off(x.devAddr + k), chunk);
    } else {
      r, wrote := CopyPiece(fs, qpairFd, Off(x.devAddr + k), x.bufFd, Off(x.bufOffset + k), chunk);
    }
    MovedLands(x, qpairFd, fs.fds, base, was, fs.files, k, wrote);
    MovedKeeps(fs.fds, was, fs.files, x.FromFd(qpairFd), Off(x.FromOff() + k), x.ToFd(qpairFd), Off(x.ToOff() + k),
               wrote, x, qpairFd);
  }

  /** The whole slice can be read where it is and written where it goes. */
  ghost predicate IsReady(x: Subxfer, qpairFd: int, fds: Table, disk: Disk) {
    && x.FromFd(qpairFd) in fds && x.ToFd(qpairFd) in fds && fds[x.FromFd(qpairFd)] in disk
    && x.FromOff() + x.length <= |disk[fds[x.FromFd(qpairFd)]]| <= MAX_FILE && x.ToOff() + x.length <= MAX_FILE
  }

  lemma OffIsPlain(y: nat)
    requires y <= MAX_FILE
    ensures Off(y) == y
  {}

  lemma LandedInRange(x: Subxfer, qpairFd: int, fds: Table, base: Disk, now: Disk, k: nat)
    requires Landed(x, qpairFd, fds, base, now, k)
    ensures k > 0 ==> x.FromOff() + k <= MAX_FILE && x.ToOff() + k <= MAX_FILE
  {}

  lemma OffsetIsPlain(off: nat, k: nat)
    requires off < TWO64 && Off(off + k) >= 0 && (k > 0 ==> off + k <= MAX_FILE)
    ensures Off(off + k) == off + k
  {}

  /** Device memory as a transfer is to find it: for a card-to-host one, grown to the end of the range
      if it can be. */
  method GrowForRead(fs: FileSystem, qpairFd: int, x: Subxfer) returns (ok: bool)
    requires fs.Valid()
    modifies fs
    ensures fs.Valid() && fs.fds == old(fs.fds) && old(fs.calls) <= fs.calls
    ensures IsBase(x, qpairFd, fs.fds, old(fs.files), fs.files)
    ensures NoneShrinks(old(fs.files), fs.files) && OthersKept(x, qpairFd, fs.fds, old(fs.files), fs.files)
    ensures fs.AnswersInFull(old(fs.calls)) && CanTransfer(x, qpairFd, fs.fds, old(fs.files)) ==>
              ok && IsReady(x, qpairFd, fs.fds, fs.files)
  {
    ok := true;
    if x.direction == XFER_C2H {
      var err, size := fs.Size(qpairFd);
      var want := Off(x.devAddr + x.length);
      if err == 0 && size < want {
        var grown := fs.Grow(qpairFd, want);
        ok := grown == 0;
      }
    }
  }

  /**
    Every exit leaves some prefix of the slice moved and nothing else changed; success moves exactly
    the whole slice, and is certain when the file calls are answered in full and the slice is there.
    When host buffer and device memory are one file, only the files besides it are spoken of.
   */
  method FallbackSubxfer(fs: FileSystem, qpairFd: int, x: Subxfer) returns (n: int, ghost base: Disk, ghost moved: nat)
    requires fs.Valid()
    modifies fs
    ensures fs.Valid() && fs.fds == old(fs.fds) && old(fs.calls) <= fs.calls
    ensures IsBase(x, qpairFd, fs.fds, old(fs.files), base)
    ensures Lands(x, qpairFd, fs.fds, base, fs.files, moved) && moved <= x.length
    ensures NoneShrinks(old(fs.files), fs.files) && OthersKept(x, qpairFd, fs.fds, old(fs.files), fs.files)
    ensures n == -1 || n == x.length == moved
    ensures n >= 0 ==> x.bufFd >= 0 && x.IsDirected()
    ensures fs.AnswersInFull(old(fs.calls)) && CanTransfer(x, qpairFd, fs.fds, old(fs.files)) ==> n == x.length
  {
    hide Lands, Landed, IsReady, IsBase, NoneShrinks, OthersKept;
    base, moved := fs.files, 0;
    NothingChanged(x, qpairFd, fs.fds, base);
    NothingLanded(x, qpairFd, fs.fds, base);
    if x.bufFd < 0 || !x.IsDirected() {
      NoGrowth(x, qpairFd, fs.fds, base);
      return -1, base, 0;
    }
    ghost var can := fs.AnswersInFull(fs.calls) && CanTransfer(x, qpairFd, fs.fds, fs.files);
    hide CanTransfer;
    var ok := GrowForRead(fs, qpairFd, x);
    base := fs.files;
    NothingLanded(x, qpairFd, fs.fds, base);
    if !ok {
      return -1, base, 0;
    }
    var tmp := fs.Pick(0);
    if tmp < 0 {
      return -1, base, 0;
    }
    var done: nat := 0;
    while done < x.length
      invariant fs.Valid() && fs.fds == old(fs.fds) && done == moved <= x.length && old(fs.calls) <= fs.calls
      invariant Lands(x, qpairFd, fs.fds, base, fs.files, moved)
      invariant NoneShrinks(old(fs.files), fs.files) && OthersKept(x, qpairFd, fs.fds, old(fs.files), fs.files)
      invariant can ==> IsReady(x, qpairFd, fs.fds, fs.files)
    {
      var remaining := x.length - done;
      var chunk := if remaining < BOUNCE_CHUNK then remaining else BOUNCE_CHUNK;
      var r;
      ghost var wrote, was := 0, fs.files;
      r, wrote := Bounce(fs, qpairFd, x, chunk, base, done);
      KeptTwice(x, qpairFd, fs.fds, old(fs.files), was, fs.files);
      if can {
        StaysReady(x, qpairFd, fs.fds, was, fs.files);
      }
      moved := moved + wrote;
      if r <= 0 {
        return -1, base, moved;
      }
      done := done + r;
    }
    n := done;
  }

  lemma NoGrowth(x: Subxfer, qpairFd: int, fds: Table, disk: Disk)
    ensures IsBase(x, qpairFd, fds, disk, disk)
  {}

  lemma StaysReady(x: Subxfer, qpairFd: int, fds: Table, was: Disk, now: Disk)
    requires IsReady(x, qpairFd, fds, was) && NoneShrinks(was, now)
    requires forall ino | ino in now :: |now[ino]| <= MAX_FILE
    ensures IsReady(x, qpairFd, fds, now)
  {}

  lemma NothingLanded(x: Subxfer, qpairFd: int, fds: Table, base: Disk)
    ensures Lands(x, qpairFd, fds, base, base, 0)
  {}

  lemma NothingChanged(x: Subxfer, qpairFd: int, fds: Table, disk: Disk)
    ensures NoneShrinks(disk, disk) && OthersKept(x, qpairFd, fds, disk, disk)
  {}

  lemma KeptTwice(x: Subxfer, qpairFd: int, fds: Table, a: Disk, b: Disk, c: Disk)
    requires NoneShrinks(a, b) && NoneShrinks(b, c)
    requires OthersKept(x, qpairFd, fds, a, b) && OthersKept(x, qpairFd, fds, b, c)
    ensures NoneShrinks(a, c) && OthersKept(x, qpairFd, fds, a, c)
  {}

  // ---------------------------------------------------------------------------------------------
  // What a sub-transfer can and cannot change
  // ---------------------------------------------------------------------------------------------

  /** `now` is reachable from `was` by moving the first k bytes of x. */
  ghost predicate Transferred(x: Subxfer, qpairFd: int, fds: Table, was: Disk, base: Disk, now: Disk, k: nat) {
    IsBase(x, qpairFd, fds, was, base) && Landed(x, qpairFd, fds, base, now, k)
  }

  /** Byte i of a file may differ only inside the slice that was written. */
  ghost predicate Written(x: Subxfer, qpairFd: int, fds: Table, ino: nat, i: nat, k: nat) {
    x.ToFd(qpairFd) in fds && fds[x.ToFd(qpairFd)] == ino && x.ToOff() <= i < x.ToOff() + k
  }

  /** No file shrinks, and every byte that existed is unchanged unless it lies in the slice written. */
  lemma NothingElseChanges(x: Subxfer, qpairFd: int, fds: Table, was: Disk, base: Disk, now: Disk, k: nat,
                           ino: nat, i: nat)
    requires Transferred(x, qpairFd, fds, was, base, now, k)
    requires ino in was && i < |was[ino]|
    ensures ino in now && |was[ino]| <= |now[ino]|
    ensures Written(x, qpairFd, fds, ino, i, k) || now[ino][i] == was[ino][i]
  {
    assert ino in base && |was[ino]| <= |base[ino]| && base[ino][i] == was[ino][i];
    if k > 0 {
      var from, to := base[fds[x.FromFd(qpairFd)]], fds[x.ToFd(qpairFd)];
      SpliceAt(base[to], x.ToOff(), from[x.FromOff()..x.FromOff() + k], if ino == to then i else 0);
    }
  }

  /** Only the file written and, for a card-to-host transfer, device memory can differ at all. */
  lemma OtherFilesKept(x: Subxfer, qpairFd: int, fds: Table, was: Disk, base: Disk, now: Disk, k: nat, ino: nat)
    requires Transferred(x, qpairFd, fds, was, base, now, k)
    requires ino in was && (x.bufFd in fds ==> fds[x.bufFd] != ino) && (qpairFd in fds ==> fds[qpairFd] != ino)
    ensures ino in now && now[ino] == was[ino]
  {}

  /** A host-to-card transfer leaves the host buffer alone. */
  lemma SourceKept(x: Subxfer, qpairFd: int, fds: Table, was: Disk, base: Disk, now: Disk, k: nat)
    requires Transferred(x, qpairFd, fds, was, base, now, k) && AreDistinct(x, qpairFd, fds)
    requires x.direction == XFER_H2C && x.bufFd in fds && fds[x.bufFd] in was
    ensures fds[x.bufFd] in now && now[fds[x.bufFd]] == was[fds[x.bufFd]]
  {}

  /** A whole transfer puts the source slice at the destination. */
  lemma SliceArrives(x: Subxfer, qpairFd: int, fds: Table, base: Disk, now: Disk, k: nat)
    requires Landed(x, qpairFd, fds, base, now, k) && k > 0
    ensures var to := now[fds[x.ToFd(qpairFd)]];
            && x.ToOff() + k <= |to|
            && to[x.ToOff()..x.ToOff() + k] == base[fds[x.FromFd(qpairFd)]][x.FromOff()..x.FromOff() + k]
  {
    var from, to := base[fds[x.FromFd(qpairFd)]], base[fds[x.ToFd(qpairFd)]];
    SpliceReads(to, x.ToOff(), from[x.FromOff()..x.FromOff() + k]);
  }

  /**
    Host to card and back: whatever queue pair index each sub-transfer names, the bytes read from a
    device address are the bytes last written there through the same descriptor.
   */
  lemma HostToCardAndBack(x: Subxfer, y: Subxfer, qpairFd: int, fds: Table,
                          d0: Disk, b0: Disk, d1: Disk, b1: Disk, d2: Disk)
    requires x.direction == XFER_H2C && y.direction == XFER_C2H
    requires x.devAddr == y.devAddr && x.length == y.length > 0
    requires AreDistinct(x, qpairFd, fds) && AreDistinct(y, qpairFd, fds)
    requires Transferred(x, qpairFd, fds, d0, b0, d1, x.length)
    requires Transferred(y, qpairFd, fds, d1, b1, d2, y.length)
    ensures d2[fds[y.bufFd]][y.bufOffset..y.bufOffset + y.length] ==
            d0[fds[x.bufFd]][x.bufOffset..x.bufOffset + x.length]
  {
    hide Splice, Grown;
    SliceArrives(x, qpairFd, fds, b0, d1, x.length);
    SliceArrives(y, qpairFd, fds, b1, d2, y.length);
    assert b1 == d1;
  }

  // ---------------------------------------------------------------------------------------------
  // The batch
  // ---------------------------------------------------------------------------------------------

  function TotalLength(xfers: seq<Subxfer>, n: nat): nat
    requires n <= |xfers|
  {
    if n == 0 then 0 else TotalLength(xfers, n - 1) + xfers[n - 1].length
  }

  /** The disks a batch passes through: one completed sub-transfer from each to the next. */
  ghost predicate RanThrough(xfers: seq<Subxfer>, qpairFd: int, fds: Table,
                             bases: seq<Disk>, disks: seq<Disk>, n: nat)
  {
    && n <= |xfers| && |bases| == n && |disks| == n + 1
    && forall i | 0 <= i < n && AreDistinct(xfers[i], qpairFd, fds) ::
         Transferred(xfers[i], qpairFd, fds, disks[i], bases[i], disks[i + 1], xfers[i].length)
  }

  ghost predicate AllCanTransfer(xfers: seq<Subxfer>, qpairFd: int, fds: Table, disk: Disk) {
    forall i | 0 <= i < |xfers| :: CanTransfer(xfers[i], qpairFd, fds, disk)
  }

  method TransferBatch(fs: FileSystem, qpairFd: int, xfers: seq<Subxfer>)
    returns (ret: int, ghost ok: bool, ghost bases: seq<Disk>, ghost disks: seq<Disk>)
    requires fs.Valid()
    modifies fs
    ensures fs.Valid() && fs.fds == old(fs.fds)
    ensures ret >= 0 ==> ok
    ensures fs.AnswersInFull(old(fs.calls)) && AllCanTransfer(xfers, qpairFd, fs.fds, old(fs.files)) &&
            1 <= |xfers| <= FD_MAX_QPAIRS && qpairFd >= 0 ==>
              ok
    ensures ok ==> 1 <= |xfers| <= FD_MAX_QPAIRS && ret == Off(TotalLength(xfers, |xfers|))
    ensures ok ==> RanThrough(xfers, qpairFd, fs.fds, bases, disks, |xfers|)
                   && disks[0] == old(fs.files) && disks[|xfers|] == fs.files
    ensures !(1 <= |xfers| <= FD_MAX_QPAIRS && qpairFd >= 0 && forall i | 0 <= i < |xfers| :: xfers[i].IsDirected()) ==>
              ret == -1 && fs.files == old(fs.files)
  {
    hide Landed, IsBase, Off;
    ok, bases, disks := false, [], [fs.files];
    if qpairFd < 0 || |xfers| == 0 || |xfers| > FD_MAX_QPAIRS {
      return -1, false, [], [];
    }
    for i := 0 to |xfers|
      invariant forall j | 0 <= j < i :: xfers[j].IsDirected()
    {
      if !xfers[i].IsDirected() {
        return -1, false, [], [];
      }
    }
    var total: nat := 0;
    ghost var can := fs.AnswersInFull(fs.calls) && AllCanTransfer(xfers, qpairFd, fs.fds, fs.files);
    for i := 0 to |xfers|
      invariant can ==> fs.AnswersInFull(fs.calls) && AllCanTransfer(xfers, qpairFd, fs.fds, fs.files)
      invariant fs.Valid() && fs.fds == old(fs.fds) && total == TotalLength(xfers, i)
      invariant RanThrough(xfers, qpairFd, fs.fds, bases, disks, i)
      invariant disks[0] == old(fs.files) && disks[i] == fs.files
    {
      var n;
      ghost var base, moved;
      n, base, moved := FallbackSubxfer(fs, qpairFd, xfers[i]);
      if n < 0 {
        return -1, false, [], [];
      }
      total := total + n;
      bases, disks := bases + [base], disks + [fs.files];
    }
    ret, ok := Off(total), true;
  }
}
