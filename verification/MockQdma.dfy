/**
  The mock queue-pair table of driver/libslash/src/qdma_mock.c: 64 slots, each backed by a file that
  stands in for device memory.
 */
module MockQdma {
  import opened Common
  import opened Files
  import opened Fallback

  const MAX_QUEUES: nat := 64
  const EINVAL: int := 22
  const ENOSPC: int := 28
  const EMFILE: int := 24

  datatype Slot = Slot(inUse: bool, started: bool, fd: int)

  const FREE: Slot := Slot(false, false, -1)

  class Mock {
    const fs: FileSystem
    const queues: array<Slot>

    /** Slots in use own one open descriptor each, on files of their own; free slots are blank. */
    ghost predicate Valid()
      reads this, fs, queues
    {
      && fs.Valid() && queues.Length == MAX_QUEUES
      && (forall i | 0 <= i < MAX_QUEUES :: if queues[i].inUse then queues[i].fd in fs.fds else queues[i] == FREE)
      && (forall i, j | 0 <= i < j < MAX_QUEUES && queues[i].inUse && queues[j].inUse ::
            queues[i].fd != queues[j].fd && fs.fds[queues[i].fd] != fs.fds[queues[j].fd])
    }

    constructor (fs: FileSystem)
      requires fs.Valid()
      ensures Valid() && this.fs == fs && fresh(queues)
      ensures forall i | 0 <= i < MAX_QUEUES :: !queues[i].inUse
    {
      this.fs, queues := fs, new Slot[MAX_QUEUES](_ => FREE);
    }

    predicate InUse(qid: nat)
      requires queues.Length == MAX_QUEUES
      reads this, queues
    {
      qid < MAX_QUEUES && queues[qid].inUse
    }

    predicate IsStarted(qid: nat)
      requires queues.Length == MAX_QUEUES
      reads this, queues
    {
      InUse(qid) && queues[qid].started
    }

    /** Takes the lowest free slot; the table is full exactly when all slots are in use. */
    method QpairAdd() returns (err: int, qid: nat)
      requires Valid()
      modifies fs, queues
      ensures Valid()
      ensures err == ENOSPC <==> forall i | 0 <= i < MAX_QUEUES :: old(queues[i].inUse)
      ensures err == 0 || err == ENOSPC || err == EMFILE
      ensures fs.AnswersInFull(old(fs.calls)) ==> err != EMFILE
      ensures err == 0 ==>
                && qid < MAX_QUEUES && !old(queues[qid].inUse) && (forall i | 0 <= i < qid :: old(queues[i].inUse))
                && queues[..] == old(queues[..])[qid := Slot(true, false, queues[qid].fd)]
                && fs.Contents(queues[qid].fd) == [] && fs.fds[queues[qid].fd] !in old(fs.files)
      ensures err != 0 ==> queues[..] == old(queues[..]) && fs.fds == old(fs.fds) && fs.files == old(fs.files)
    {
      qid := 0;
      while qid < MAX_QUEUES && queues[qid].inUse
        invariant qid <= MAX_QUEUES && forall i | 0 <= i < qid :: queues[i].inUse
      {
        qid := qid + 1;
      }
      if qid == MAX_QUEUES {
        return ENOSPC, qid;
      }
      var fd := fs.Create();
      if fd < 0 {
        return EMFILE, qid;
      }
      queues[qid] := Slot(true, false, fd);
      err := 0;
    }

    method QpairOp(qid: nat, start: bool) returns (err: int)
      requires Valid()
      modifies queues
      ensures Valid()
      ensures err == if old(InUse(qid)) then 0 else EINVAL
      ensures queues[..] ==
              if err == 0 then old(queues[..])[qid := old(queues[qid]).(started := start)] else old(queues[..])
    {
      if qid >= MAX_QUEUES || !queues[qid].inUse {
        return EINVAL;
      }
      queues[qid] := queues[qid].(started := start);
      err := 0;
    }

    /** The slot is free again; files reached through other descriptors keep their contents. */
    method QpairDel(qid: nat) returns (err: int)
      requires Valid()
      modifies fs, queues
      ensures Valid() && fs.files == old(fs.files)
      ensures err == if old(InUse(qid)) then 0 else EINVAL
      ensures err == 0 ==>
                && queues[..] == old(queues[..])[qid := FREE]
                && fs.fds == map g <- old(fs.fds) | g != old(queues[qid].fd) :: old(fs.fds)[g]
      ensures err != 0 ==> queues[..] == old(queues[..]) && fs.fds == old(fs.fds)
    {
      if qid >= MAX_QUEUES || !queues[qid].inUse {
        return EINVAL;
      }
      fs.Close(queues[qid].fd);
      queues[qid] := FREE;
      err := 0;
    }

    /** A descriptor for one or two started queue pairs: a copy of the first one's. */
    method GetFdMulti(qids: seq<nat>) returns (fd: int)
      requires Valid()
      modifies fs
      ensures Valid() && fs.files == old(fs.files)
      ensures fd == -1 || (fd >= 0 && fd !in old(fs.fds))
      ensures fd >= 0 ==> 1 <= |qids| <= FD_MAX_QPAIRS && forall i | 0 <= i < |qids| :: IsStarted(qids[i])
      ensures fd >= 0 ==> IsStarted(qids[0]) && queues[qids[0]].fd in old(fs.fds)
      ensures fs.AnswersInFull(old(fs.calls)) ==>
                (fd >= 0 <==> 1 <= |qids| <= FD_MAX_QPAIRS && forall i | 0 <= i < |qids| :: IsStarted(qids[i]))
      ensures fs.fds == if fd < 0 then old(fs.fds) else old(fs.fds)[fd := old(fs.fds)[queues[qids[0]].fd]]
    {
      if |qids| == 0 || |qids| > FD_MAX_QPAIRS {
        return -1;
      }
      for i := 0 to |qids|
        invariant forall j | 0 <= j < i :: IsStarted(qids[j])
      {
        if qids[i] >= MAX_QUEUES || !queues[qids[i]].inUse || !queues[qids[i]].started {
          return -1;
        }
      }
      fd := fs.Dup(queues[qids[0]].fd);
    }

    /** Neither buffer is a file that some queue pair uses as device memory. */
    ghost predicate AreHostBuffers(x: Subxfer, y: Subxfer)
      requires Valid()
      reads this, fs, queues
    {
      && x.bufFd in fs.fds && y.bufFd in fs.fds
      && forall i | 0 <= i < MAX_QUEUES && queues[i].inUse ::
           fs.fds[x.bufFd] != fs.fds[queues[i].fd] && fs.fds[y.bufFd] != fs.fds[queues[i].fd]
    }

    /**
      A batch that writes to the card and reads back, through a descriptor for any started queue
      pairs and with any queue pair index in either sub-transfer, returns the original bytes.
     */
    method BounceThroughCard(qids: seq<nat>, x: Subxfer, y: Subxfer) returns (fd: int, ret: int)
      requires Valid()
      modifies fs
      ensures fs.Valid()
      ensures ret >= 0 && old(AreHostBuffers(x, y)) && x.direction == XFER_H2C && y.direction == XFER_C2H
              && x.devAddr == y.devAddr && x.length == y.length > 0 ==>
                && y.bufFd in fs.fds
                && x.bufOffset + x.length <= |old(fs.Contents(x.bufFd))|
                && y.bufOffset + y.length <= |fs.Contents(y.bufFd)|
                && fs.Contents(y.bufFd)[y.bufOffset..y.bufOffset + y.length] ==
                   old(fs.Contents(x.bufFd))[x.bufOffset..x.bufOffset + x.length]
    {
      hide Off;
      ret := -1;
      fd := GetFdMulti(qids);
      if fd >= 0 {
        ghost var ok, bases, disks;
        ret, ok, bases, disks := TransferBatch(fs, fd, [x, y]);
        if ret >= 0 && old(AreHostBuffers(x, y)) && x.direction == XFER_H2C && y.direction == XFER_C2H
           && x.devAddr == y.devAddr && x.length == y.length > 0 {
          assert AreDistinct([x, y][0], fd, fs.fds) && AreDistinct([x, y][1], fd, fs.fds);
          assert Transferred([x, y][0], fd, fs.fds, disks[0], bases[0], disks[1], x.length);
          assert Transferred([x, y][1], fd, fs.fds, disks[1], bases[1], disks[2], y.length);
          HostToCardAndBack(x, y, fd, fs.fds, disks[0], bases[0], disks[1], bases[1], disks[2]);
        }
      }
    }
  }
}
