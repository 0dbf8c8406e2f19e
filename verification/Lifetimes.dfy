/**
  Lifetimes in driver/slash_qdma.c: one bound QDMA device, its queue-pair entries and its DMA
  buffers, under every interleaving of open, close, qpair add / delete / get-fd, buffer create,
  mmap, fork, munmap, transfers and device removal.  A step is one critical section of the device
  lock or one reference-count operation outside it.

  The device structure embeds its character device, and a file of that device keeps the embedded
  object in use without holding a device reference: from the lookup of the node until the driver's
  open is over, and again from the driver's release until the file is gone.  `badTouch` records an
  access on that path to a device that has been freed.
 */
module Lifetimes {
  import opened Common
  import opened Krefs

  const DEV: nat := 0
  const MAX_QPAIRS: nat := 256

  /** Who stands behind the reference a buffer is created with: the creating call before its pages are
      allocated, on its way out after a failure, after the allocation, then the buffer fd. */
  datatype Owner = Nobody | Creator | Failing | Ready | File

  /** `pin` is the buffer's own device reference, dropped at the end of its release. */
  datatype BufUse = BufUse(owner: Owner, vmas: nat, preparing: nat, prepared: nat, inflight: nat, pin: bool)

  datatype FdState = Live | Closing | Gone

  /** A queue-pair fd context: what it has not dropped yet, and the system calls and io_uring commands
      in progress on the file, during which the VFS does not release it. */
  datatype QpairFd = QpairFd(state: FdState, entries: seq<nat>, calls: nat)

  datatype Teardown = NotBegun | Begun | Halfway | Over

  datatype World = World(
    devs: Pool, entries: Pool, bufs: Pool,
    bound: bool,                   // the PCI binding's own reference
    node: bool,                    // the character device is registered
    entering: nat,                 // opens between the node lookup and the driver's locked check
    opens: nat,                    // open files of the character device
    leaving: nat,                  // files done with the driver whose character device is still in use
    slots: seq<Option<nat>>,       // the qpair xarray: qid -> entry
    fds: seq<QpairFd>,
    uses: seq<BufUse>,             // who uses buffer i
    shutdown: bool, handle: bool,
    closes: nat,                   // calls of qdma_device_close()
    teardown: Teardown,
    badTouch: bool,
    heldAtFree: Option<nat>)       // uses of the embedded character device when the device was freed

  datatype DevStep =
    | OpenEnter | OpenOk | OpenRefused | ClosePut | CdevPut | Refuse
    | DestroyBegin | Unregister | DestroyFinish | Unbind

  datatype QpairStep =
    | Add(qid: nat) | AddRolledBack(qid: nat) | Delete(qid: nat)
    | GetFd(qids: seq<nat>) | GetFdMissing(qids: seq<nat>, missing: nat)
    | ReleaseBegin(fd: nat) | ReleaseEntry(fd: nat) | ReleaseDev(fd: nat)

  datatype BufStep =
    | Begin(viaFd: Option<nat>) | AllocRefused(b: nat) | FailPut(b: nat) | FailFree(b: nat)
    | Allocated(b: nat) | FileFailed(b: nat) | Install(b: nat) | CloseFile(b: nat)
    | Mmap(b: nat) | Fork(b: nat) | Munmap(b: nat) | DropPin(b: nat)

  datatype XferStep =
    | PrepGet(fd: nat, b: nat) | PrepCheck(fd: nat, q: nat) | PrepOk(fd: nat, b: nat, q: nat)
    | PrepDrop(fd: nat, b: nat) | PrepUndo(fd: nat, b: nat) | Submit(fd: nat, b: nat) | XferDone(fd: nat, b: nat)

  datatype Step = Device(d: DevStep) | Qpair(p: QpairStep) | Buffer(u: BufStep) | Xfer(x: XferStep)

  /** A device at the end of probe, or on one of its error exits (no handle, or no node yet). */
  function Init(handle: bool, node: bool): World {
    World(Create(EMPTY), EMPTY, EMPTY, true, node, 0, 0, 0, seq(MAX_QPAIRS, _ => None), [], [],
          false, handle, 0, NotBegun, false, None)
  }

  predicate Alive(w: World) {
    !w.shutdown && w.handle
  }

  predicate Resolvable(slots: seq<Option<nat>>, qid: nat) {
    qid < |slots| && slots[qid].Some?
  }

  predicate AllResolvable(slots: seq<Option<nat>>, qids: seq<nat>) {
    forall i :: 0 <= i < |qids| ==> Resolvable(slots, qids[i])
  }

  function EntryAt(slots: seq<Option<nat>>, qid: nat): nat {
    if Resolvable(slots, qid) then slots[qid].value else 0
  }

  function EntriesAt(slots: seq<Option<nat>>, qids: seq<nat>): (ids: seq<nat>)
    ensures |ids| == |qids| && forall i :: 0 <= i < |ids| ==> ids[i] == EntryAt(slots, qids[i])
  {
    seq(|qids|, i requires 0 <= i < |qids| => EntryAt(slots, qids[i]))
  }

  predicate InUse(w: World, fd: nat) {
    fd < |w.fds| && w.fds[fd].state == Live && w.fds[fd].calls > 0
  }

  predicate DevEnabled(w: World, st: DevStep) {
    match st
    case OpenEnter => w.node
    case OpenOk => w.entering > 0 && Alive(w)
    case OpenRefused => w.entering > 0 && !Alive(w)
    case ClosePut => w.opens > 0
    case CdevPut => w.leaving > 0
    case Refuse => w.opens > 0
    case DestroyBegin => w.bound
    case Unregister => w.teardown == Begun
    case DestroyFinish => w.teardown == Halfway
    case Unbind => w.teardown == Over && w.bound
  }

  predicate QpairEnabled(w: World, st: QpairStep) {
    match st
    case Add(q) =>
      // xa_alloc() picks the lowest free id
      w.opens > 0 && Alive(w) && q < |w.slots| && w.slots[q].None? && forall i :: 0 <= i < q ==> w.slots[i].Some?
    case AddRolledBack(q) => w.opens > 0 && Alive(w) && q < |w.slots| && w.slots[q].None?
    case Delete(q) => w.opens > 0 && Alive(w) && Resolvable(w.slots, q)
    case GetFd(qids) => w.opens > 0 && Alive(w) && qids != [] && AllResolvable(w.slots, qids)
    case GetFdMissing(qids, missing) =>
      w.opens > 0 && Alive(w) && !Resolvable(w.slots, missing) && AllResolvable(w.slots, qids)
    case ReleaseBegin(fd) => fd < |w.fds| && w.fds[fd].state == Live && w.fds[fd].calls == 0
    case ReleaseEntry(fd) => fd < |w.fds| && w.fds[fd].state == Closing && w.fds[fd].entries != []
    case ReleaseDev(fd) => fd < |w.fds| && w.fds[fd].state == Closing && w.fds[fd].entries == []
  }

  predicate BufEnabled(w: World, st: BufStep) {
    match st
    case Begin(via) => if via.None? then w.opens > 0 else via.value < |w.fds| && w.fds[via.value].state == Live
    case AllocRefused(b) => b < |w.uses| && w.uses[b].owner == Creator
    case FailPut(b) => b < |w.uses| && w.uses[b].owner == Failing && w.uses[b].pin
    case FailFree(b) => b < |w.uses| && w.uses[b].owner == Failing && !w.uses[b].pin
    case Allocated(b) => b < |w.uses| && w.uses[b].owner == Creator && Alive(w)
    case FileFailed(b) => b < |w.uses| && w.uses[b].owner == Ready
    case Install(b) => b < |w.uses| && w.uses[b].owner == Ready
    case CloseFile(b) => b < |w.uses| && w.uses[b].owner == File
    case Mmap(b) => b < |w.uses| && w.uses[b].owner == File
    case Fork(b) => b < |w.uses| && w.uses[b].vmas > 0
    case Munmap(b) => b < |w.uses| && w.uses[b].vmas > 0
    case DropPin(b) => b < |w.uses| && UseCount(w.uses[b]) == 0 && w.uses[b].pin
  }

  predicate XferEnabled(w: World, st: XferStep) {
    match st
    case PrepGet(fd, b) => fd < |w.fds| && w.fds[fd].state == Live && b < |w.uses| && w.uses[b].owner == File
    case PrepCheck(fd, q) => InUse(w, fd) && q < |w.fds[fd].entries|
    case PrepOk(fd, b, q) =>
      InUse(w, fd) && b < |w.uses| && w.uses[b].preparing > 0 && Alive(w) && q < |w.fds[fd].entries|
    case PrepDrop(fd, b) => InUse(w, fd) && b < |w.uses| && w.uses[b].preparing > 0
    case PrepUndo(fd, b) => InUse(w, fd) && b < |w.uses| && w.uses[b].prepared > 0
    case Submit(fd, b) => InUse(w, fd) && b < |w.uses| && w.uses[b].prepared > 0
    case XferDone(fd, b) => InUse(w, fd) && b < |w.uses| && w.uses[b].inflight > 0
  }

  predicate Enabled(w: World, st: Step) {
    match st
    case Device(d) => DevEnabled(w, d)
    case Qpair(p) => QpairEnabled(w, p)
    case Buffer(u) => BufEnabled(w, u)
    case Xfer(x) => XferEnabled(w, x)
  }

  /** Lookups, open files and files on their way out: all of them use the embedded character device. */
  function CdevHolds(w: World): nat { w.entering + w.opens + w.leaving }

  /** An access to the device through its character device, with no device reference behind it. */
  function CdevTouch(w: World): World {
    w.(badTouch := w.badTouch || DEV !in w.devs.live)
  }

  /** kref_put() on the device. */
  function PutDev(w: World): World {
    var devs := Put(w.devs, DEV);
    w.(devs := devs,
       heldAtFree := if DEV in w.devs.live && DEV !in devs.live then Some(CdevHolds(w)) else w.heldAtFree)
  }

  function PutBuf(w: World, b: nat, use: BufUse): World
    requires b < |w.uses|
  {
    w.(bufs := Put(w.bufs, b), uses := w.uses[b := use])
  }

  function GetBuf(w: World, b: nat, use: BufUse): World
    requires b < |w.uses|
  {
    w.(bufs := Get(w.bufs, b), uses := w.uses[b := use])
  }

  function Reuse(w: World, b: nat, use: BufUse): World
    requires b < |w.uses|
  {
    w.(uses := w.uses[b := use])
  }

  function SetFd(w: World, fd: nat, f: QpairFd): World
    requires fd < |w.fds|
  {
    w.(fds := w.fds[fd := f])
  }

  function AddCalls(w: World, fd: nat, n: int): World
    requires fd < |w.fds| && w.fds[fd].calls + n >= 0
  {
    SetFd(w, fd, w.fds[fd].(calls := w.fds[fd].calls + n))
  }

  function TouchDev(w: World): World { w.(devs := Touch(w.devs, DEV)) }

  function DevApply(w: World, st: DevStep): World
    requires DevEnabled(w, st)
  {
    match st
    case OpenEnter => CdevTouch(w).(entering := w.entering + 1)
    case OpenOk => CdevTouch(w).(devs := Get(w.devs, DEV), entering := w.entering - 1, opens := w.opens + 1)
    case OpenRefused => CdevTouch(w).(entering := w.entering - 1, leaving := w.leaving + 1)
    case ClosePut => PutDev(w.(opens := w.opens - 1, leaving := w.leaving + 1))
    case CdevPut => CdevTouch(w).(leaving := w.leaving - 1)
    case Refuse => TouchDev(w)
    case DestroyBegin =>
      if w.shutdown then TouchDev(w) else TouchDev(w).(shutdown := true, teardown := Begun)
    case Unregister => TouchDev(w).(node := false, teardown := Halfway)
    case DestroyFinish =>
      TouchDev(w).(entries := PutAll(w.entries, Occupants(w.slots)),
         slots := seq(|w.slots|, _ => None),
         closes := if w.handle then w.closes + 1 else w.closes, handle := false, teardown := Over)
    case Unbind => PutDev(w.(bound := false))
  }

  function QpairApply(w: World, st: QpairStep): World
    requires QpairEnabled(w, st)
  {
    match st
    case Add(q) =>
      TouchDev(w).(entries := Create(w.entries), slots := w.slots[q := Some(w.entries.next)])
    case AddRolledBack(_) =>
      TouchDev(w).(entries := Put(Create(w.entries), w.entries.next))
    case Delete(q) =>
      TouchDev(w).(entries := Put(w.entries, w.slots[q].value), slots := w.slots[q := None])
    case GetFd(qids) =>
      w.(entries := GetAll(w.entries, EntriesAt(w.slots, qids)), devs := Get(w.devs, DEV),
         fds := w.fds + [QpairFd(Live, EntriesAt(w.slots, qids), 0)])
    case GetFdMissing(qids, _) =>
      TouchDev(w).(
         entries := PutAllBackwards(GetAll(w.entries, EntriesAt(w.slots, qids)), EntriesAt(w.slots, qids)))
    case ReleaseBegin(fd) => SetFd(w, fd, w.fds[fd].(state := Closing))
    case ReleaseEntry(fd) =>
      SetFd(w, fd, w.fds[fd].(entries := w.fds[fd].entries[1..])).(entries := Put(w.entries, w.fds[fd].entries[0]))
    case ReleaseDev(fd) => PutDev(SetFd(w, fd, QpairFd(Gone, [], 0)))
  }

  function BufApply(w: World, st: BufStep): World
    requires BufEnabled(w, st)
  {
    match st
    case Begin(_) =>
      w.(bufs := Create(w.bufs), devs := Get(w.devs, DEV), uses := w.uses + [BufUse(Creator, 0, 0, 0, 0, true)])
    case AllocRefused(b) => Reuse(TouchDev(w), b, w.uses[b].(owner := Failing))
    case FailPut(b) => PutDev(Reuse(w, b, w.uses[b].(pin := false)))
    case FailFree(b) => Reuse(w, b, w.uses[b].(owner := Nobody)).(bufs := FreeDirect(w.bufs, b))
    case Allocated(b) => Reuse(TouchDev(w), b, w.uses[b].(owner := Ready))
    case FileFailed(b) => PutBuf(w, b, w.uses[b].(owner := Nobody))
    case Install(b) => Reuse(w, b, w.uses[b].(owner := File))
    case CloseFile(b) => PutBuf(w, b, w.uses[b].(owner := Nobody))
    case Mmap(b) => GetBuf(w, b, w.uses[b].(vmas := w.uses[b].vmas + 1))
    case Fork(b) => GetBuf(w, b, w.uses[b].(vmas := w.uses[b].vmas + 1))
    case Munmap(b) => PutBuf(w, b, w.uses[b].(vmas := w.uses[b].vmas - 1))
    case DropPin(b) => PutDev(Reuse(w, b, w.uses[b].(pin := false)))
  }

  function XferApply(w: World, st: XferStep): World
    requires XferEnabled(w, st)
  {
    match st
    case PrepGet(fd, b) =>
      AddCalls(GetBuf(w, b, w.uses[b].(preparing := w.uses[b].preparing + 1)), fd, 1)
    case PrepCheck(fd, q) => TouchDev(w).(entries := Touch(w.entries, w.fds[fd].entries[q]))
    case PrepOk(fd, b, q) =>
      var u := w.uses[b];
      Reuse(TouchDev(w).(entries := Touch(w.entries, w.fds[fd].entries[q])), b,
            u.(preparing := u.preparing - 1, prepared := u.prepared + 1))
    case PrepDrop(fd, b) =>
      AddCalls(PutBuf(w, b, w.uses[b].(preparing := w.uses[b].preparing - 1)), fd, -1)
    case PrepUndo(fd, b) =>
      AddCalls(PutBuf(w, b, w.uses[b].(prepared := w.uses[b].prepared - 1)), fd, -1)
    case Submit(fd, b) =>
      // qdma_request_submit() on the device's handle, without the lock
      var u := w.uses[b];
      Reuse(TouchDev(w), b, u.(prepared := u.prepared - 1, inflight := u.inflight + 1))
    case XferDone(fd, b) =>
      AddCalls(PutBuf(w, b, w.uses[b].(inflight := w.uses[b].inflight - 1)), fd, -1)
  }

  function Apply(w: World, st: Step): World
    requires Enabled(w, st)
  {
    match st
    case Device(d) => DevApply(w, d)
    case Qpair(p) => QpairApply(w, p)
    case Buffer(u) => BufApply(w, u)
    case Xfer(x) => XferApply(w, x)
  }

  ghost predicate Run(w: World, steps: seq<Step>, e: World)
    decreases |steps|
  {
    if steps == [] then w == e
    else Enabled(w, steps[0]) && Run(Apply(w, steps[0]), steps[1..], e)
  }

  // ------------------------------------------------------------------ the census

  function SlotIds(o: Option<nat>): seq<nat> {
    if o.Some? then [o.value] else []
  }

  function Occupants(slots: seq<Option<nat>>): seq<nat> {
    if slots == [] then [] else Occupants(slots[..|slots| - 1]) + SlotIds(slots[|slots| - 1])
  }

  function BoundIds(fds: seq<QpairFd>): seq<nat> {
    if fds == [] then [] else BoundIds(fds[..|fds| - 1]) + fds[|fds| - 1].entries
  }

  function FdCount(f: QpairFd): nat { if f.state == Gone then 0 else 1 }

  /** Fds that have not dropped their device reference. */
  function OpenFds(fds: seq<QpairFd>): nat {
    if fds == [] then 0 else OpenFds(fds[..|fds| - 1]) + FdCount(fds[|fds| - 1])
  }

  function PinCount(u: BufUse): nat { if u.pin then 1 else 0 }

  /** Buffers that have not dropped their device reference. */
  function Pins(uses: seq<BufUse>): nat {
    if uses == [] then 0 else Pins(uses[..|uses| - 1]) + PinCount(uses[|uses| - 1])
  }

  function UseCount(u: BufUse): nat {
    (if u.owner == Nobody then 0 else 1) + u.vmas + u.preparing + u.prepared + u.inflight
  }

  /** Table slot + fd bindings, counting an fd that binds an entry twice twice. */
  function EntryHolders(slots: seq<Option<nat>>, fds: seq<QpairFd>, e: nat): nat {
    Occ(Occupants(slots), e) + Occ(BoundIds(fds), e)
  }

  /** Fd (or its creator) + VMAs + transfers. */
  function BufHolders(uses: seq<BufUse>, b: nat): nat {
    if b < |uses| then UseCount(uses[b]) else 0
  }

  /** Binding + opens + queue-pair fds + buffers. */
  function DevHolders(w: World): nat {
    (if w.bound then 1 else 0) + w.opens + OpenFds(w.fds) + Pins(w.uses)
  }

  ghost predicate EntriesExact(entries: Pool, slots: seq<Option<nat>>, fds: seq<QpairFd>) {
    Exact(entries, (e: nat) => EntryHolders(slots, fds, e))
  }

  ghost predicate BufsExact(bufs: Pool, uses: seq<BufUse>) {
    bufs.next == |uses| && Exact(bufs, (b: nat) => BufHolders(uses, b))
  }

  ghost predicate DevExact(devs: Pool, holders: nat) {
    devs.next == 1 && Exact(devs, (d: nat) => if d == DEV then holders else 0)
  }

  predicate TidyFd(f: QpairFd) {
    (f.state != Live ==> f.calls == 0) && (f.state == Gone ==> f.entries == [])
  }

  ghost predicate TidyFds(fds: seq<QpairFd>) {
    forall i :: 0 <= i < |fds| ==> TidyFd(fds[i])
  }

  /** A buffer nobody can have seen yet is used by its creator only, and every buffer in use pins the
      device, except one that failed and is about to be freed. */
  predicate TidyUse(u: BufUse) {
    && (u.owner == Creator || u.owner == Failing || u.owner == Ready ==> UseCount(u) == 1)
    && (UseCount(u) > 0 && u.owner != Failing ==> u.pin)
  }

  ghost predicate TidyUses(uses: seq<BufUse>) {
    forall b :: 0 <= b < |uses| ==> TidyUse(uses[b])
  }

  ghost predicate Tidy(w: World) {
    && |w.slots| == MAX_QPAIRS
    && TidyFds(w.fds) && TidyUses(w.uses)
    && (w.shutdown <==> w.teardown != NotBegun)
    && (w.node ==> w.bound && (w.teardown == NotBegun || w.teardown == Begun))
    && (!w.bound ==> w.teardown == Over)
    && (w.teardown == Over ==> !w.handle && forall q :: 0 <= q < |w.slots| ==> w.slots[q] == None)
    && w.closes <= 1 && (w.closes == 1 ==> w.teardown == Over)
    && (w.fds != [] && !w.handle ==> w.teardown == Over)
  }

  /** While the device lives nothing has gone wrong; once it is freed something goes wrong, or will,
      exactly if its character device was in use at that moment. */
  ghost predicate CdevInv(w: World) {
    if DEV in w.devs.live then !w.badTouch && w.heldAtFree == None
    else
      && w.heldAtFree.Some? && !w.node
      && if w.heldAtFree.value == 0 then CdevHolds(w) == 0 && !w.badTouch else w.badTouch || CdevHolds(w) > 0
  }

  /** Counts equal holders, and the flags are consistent. */
  ghost predicate Counted(w: World) {
    && EntriesExact(w.entries, w.slots, w.fds)
    && BufsExact(w.bufs, w.uses)
    && DevExact(w.devs, DevHolders(w))
    && Tidy(w)
  }

  ghost predicate Inv(w: World) {
    Counted(w) && CdevInv(w)
  }

  // --------------------------------------------------------- how the census moves

  lemma {:induction false} OccupantsUpdate(slots: seq<Option<nat>>, q: nat, o: Option<nat>, x: nat)
    requires q < |slots|
    ensures Occ(Occupants(slots[q := o]), x) + Occ(SlotIds(slots[q]), x) ==
            Occ(Occupants(slots), x) + Occ(SlotIds(o), x)
  {
    hide Occ, SlotIds;
    var last := |slots| - 1;
    var slots' := slots[q := o];
    OccConcat(Occupants(slots[..last]), SlotIds(slots[last]), x);
    OccConcat(Occupants(slots'[..last]), SlotIds(slots'[last]), x);
    if q == last {
      assert slots'[..last] == slots[..last];
    } else {
      assert slots'[..last] == slots[..last][q := o];
      OccupantsUpdate(slots[..last], q, o, x);
    }
  }

  lemma {:induction false} OccupantsNone(slots: seq<Option<nat>>)
    requires forall q :: 0 <= q < |slots| ==> slots[q] == None
    ensures Occupants(slots) == []
  {
    if slots != [] {
      OccupantsNone(slots[..|slots| - 1]);
    }
  }

  lemma OccOne(e: nat, x: nat)
    ensures Occ([], x) == 0 && Occ([e], x) == if e == x then 1 else 0
  {
    assert [e][..0] == [];
  }

  lemma {:induction false} FdsUpdate(fds: seq<QpairFd>, i: nat, f: QpairFd, x: nat)
    requires i < |fds|
    ensures Occ(BoundIds(fds[i := f]), x) + Occ(fds[i].entries, x) == Occ(BoundIds(fds), x) + Occ(f.entries, x)
    ensures OpenFds(fds[i := f]) + FdCount(fds[i]) == OpenFds(fds) + FdCount(f)
  {
    hide FdCount;
    var last := |fds| - 1;
    var fds' := fds[i := f];
    OccConcat(BoundIds(fds[..last]), fds[last].entries, x);
    OccConcat(BoundIds(fds'[..last]), fds'[last].entries, x);
    if i == last {
      assert fds'[..last] == fds[..last];
    } else {
      assert fds'[..last] == fds[..last][i := f];
      FdsUpdate(fds[..last], i, f, x);
    }
  }

  lemma FdsAppend(fds: seq<QpairFd>, f: QpairFd, x: nat)
    ensures Occ(BoundIds(fds + [f]), x) == Occ(BoundIds(fds), x) + Occ(f.entries, x)
    ensures OpenFds(fds + [f]) == OpenFds(fds) + FdCount(f)
  {
    assert (fds + [f])[..|fds|] == fds;
    OccConcat(BoundIds(fds), f.entries, x);
  }

  lemma {:induction false} OpenFdCounts(fds: seq<QpairFd>, i: nat)
    requires i < |fds| && fds[i].state != Gone
    ensures OpenFds(fds) > 0
  {
    if i < |fds| - 1 {
      OpenFdCounts(fds[..|fds| - 1], i);
    }
  }

  lemma {:induction false} PinsUpdate(uses: seq<BufUse>, b: nat, u: BufUse)
    requires b < |uses|
    ensures Pins(uses[b := u]) + PinCount(uses[b]) == Pins(uses) + PinCount(u)
  {
    hide PinCount;
    var last := |uses| - 1;
    var uses' := uses[b := u];
    if b == last {
      assert uses'[..last] == uses[..last];
    } else {
      assert uses'[..last] == uses[..last][b := u];
      PinsUpdate(uses[..last], b, u);
    }
  }

  lemma PinsAppend(uses: seq<BufUse>, u: BufUse)
    ensures Pins(uses + [u]) == Pins(uses) + PinCount(u)
  {
    assert (uses + [u])[..|uses|] == uses;
  }

  /** An entry bound to an fd, or in the table, has a holder. */
  lemma {:induction false} BoundHolds(fds: seq<QpairFd>, i: nat, k: nat)
    requires i < |fds| && k < |fds[i].entries|
    ensures Occ(BoundIds(fds), fds[i].entries[k]) > 0
  {
    var last := |fds| - 1;
    var e := fds[i].entries[k];
    OccConcat(BoundIds(fds[..last]), fds[last].entries, e);
    if i == last {
      OccIn(fds[i].entries, e);
    } else {
      BoundHolds(fds[..last], i, k);
    }
  }

  lemma {:induction false} SlotHolds(slots: seq<Option<nat>>, q: nat)
    requires q < |slots| && slots[q].Some?
    ensures Occ(Occupants(slots), slots[q].value) > 0
  {
    hide Occ;
    var last := |slots| - 1;
    OccConcat(Occupants(slots[..last]), SlotIds(slots[last]), slots[q].value);
    if q == last {
      OccOne(slots[q].value, slots[q].value);
    } else {
      SlotHolds(slots[..last], q);
    }
  }

  lemma DevGet(devs: Pool, n: nat)
    requires DevExact(devs, n) && n > 0
    ensures DevExact(Get(devs, DEV), n + 1) && Touch(devs, DEV) == devs && DEV in devs.live
    ensures DEV in Get(devs, DEV).live
  {
    var h, h' := (d: nat) => if d == DEV then n else 0, (d: nat) => if d == DEV then n + 1 else 0;
    assert h(DEV) == n;
    GetExact(devs, h, h', DEV);
  }

  lemma DevPut(devs: Pool, n: nat)
    requires DevExact(devs, n + 1)
    ensures DevExact(Put(devs, DEV), n) && DEV in devs.live
    ensures DEV in Put(devs, DEV).live <==> n > 0
  {
    var h, h' := (d: nat) => if d == DEV then n + 1 else 0, (d: nat) => if d == DEV then n else 0;
    assert OneMore(h', h, DEV);
    PutExact(devs, h, h', DEV);
    assert h'(DEV) == n;
  }

  lemma BufGet(bufs: Pool, uses: seq<BufUse>, b: nat, u: BufUse)
    requires BufsExact(bufs, uses) && b < |uses| && UseCount(uses[b]) > 0 && UseCount(u) == UseCount(uses[b]) + 1
    ensures BufsExact(Get(bufs, b), uses[b := u])
  {
    var h, h' := (x: nat) => BufHolders(uses, x), (x: nat) => BufHolders(uses[b := u], x);
    assert h(b) > 0;
    GetExact(bufs, h, h', b);
  }

  lemma BufPut(bufs: Pool, uses: seq<BufUse>, b: nat, u: BufUse)
    requires BufsExact(bufs, uses) && b < |uses| && UseCount(uses[b]) == UseCount(u) + 1
    ensures BufsExact(Put(bufs, b), uses[b := u])
    ensures UseCount(u) == 0 ==> FreeDirect(bufs, b) == Put(bufs, b)
  {
    var h, h' := (x: nat) => BufHolders(uses, x), (x: nat) => BufHolders(uses[b := u], x);
    assert forall x: nat :: h(x) == h'(x) + (if x == b then 1 else 0);
    PutExact(bufs, h, h', b);
    assert h(b) == UseCount(uses[b]) && h'(b) == UseCount(u);
  }

  lemma BufCreate(bufs: Pool, uses: seq<BufUse>, u: BufUse)
    requires BufsExact(bufs, uses) && UseCount(u) == 1
    ensures BufsExact(Create(bufs), uses + [u])
  {
    var h, h' := (x: nat) => BufHolders(uses, x), (x: nat) => BufHolders(uses + [u], x);
    assert forall x: nat :: h'(x) == h(x) + (if x == bufs.next then 1 else 0);
    CreateExact(bufs, h, h');
  }

  lemma BufRelabel(bufs: Pool, uses: seq<BufUse>, b: nat, u: BufUse)
    requires BufsExact(bufs, uses) && b < |uses| && UseCount(u) == UseCount(uses[b])
    ensures BufsExact(bufs, uses[b := u])
  {
    var h, h' := (x: nat) => BufHolders(uses, x), (x: nat) => BufHolders(uses[b := u], x);
    assert forall x: nat :: h'(x) == h(x);
  }

  // --------------------------------------------------- every step keeps the counts

  lemma InitInv(handle: bool, node: bool)
    requires node ==> handle
    ensures Inv(Init(handle, node))
  {
    OccupantsNone(Init(handle, node).slots);
  }

  lemma DeviceHeld(w: World)
    requires Counted(w) && DevHolders(w) > 0
    ensures TouchDev(w) == w && DEV in w.devs.live
  {
    hide EntriesExact, BufsExact, DevExact, Tidy, DevHolders;
    DevGet(w.devs, DevHolders(w));
  }

  lemma DevicePresent(w: World)
    requires Counted(w) && (w.opens > 0 || w.bound)
    ensures DevHolders(w) > 0 && TouchDev(w) == w && DEV in w.devs.live
  {
    hide EntriesExact, BufsExact, DevExact, Tidy, OpenFds, Pins;
    DeviceHeld(w);
  }

  lemma FdHoldsDevice(w: World, fd: nat)
    requires Counted(w) && fd < |w.fds| && w.fds[fd].state != Gone
    ensures DevHolders(w) > 0 && TouchDev(w) == w && DEV in w.devs.live
  {
    hide EntriesExact, BufsExact, DevExact, Tidy, OpenFds, Pins;
    OpenFdCounts(w.fds, fd);
    DeviceHeld(w);
  }

  lemma PinHoldsDevice(w: World, b: nat)
    requires Counted(w) && b < |w.uses| && w.uses[b].pin
    ensures DevHolders(w) > 0 && TouchDev(w) == w && DEV in w.devs.live
  {
    hide EntriesExact, BufsExact, DevExact, Tidy, OpenFds, Pins;
    PinsUpdate(w.uses, b, w.uses[b].(pin := false));
    DeviceHeld(w);
  }

  /** A step that gives up one device holder and drops one device reference. */
  lemma PutDevKeeps(was: World, w: World)
    requires DevExact(was.devs, DevHolders(was)) && w.devs == was.devs && DevHolders(was) == DevHolders(w) + 1
    requires EntriesExact(w.entries, w.slots, w.fds) && BufsExact(w.bufs, w.uses) && Tidy(w)
    ensures Counted(PutDev(w)) && DEV in w.devs.live
  {
    hide EntriesExact, BufsExact, DevExact, TidyFds, TidyUses, OpenFds, Pins, Put;
    DevPut(w.devs, DevHolders(w));
  }

  lemma DeviceKeepsCounts(w: World, st: DevStep)
    requires Counted(w) && DevEnabled(w, st)
    ensures Counted(DevApply(w, st))
  {
    hide EntriesExact, BufsExact, DevExact, TidyFds, TidyUses, OpenFds, Pins, PutDev, Get, PutAll, Occupants;
    if st == OpenOk {
      assert w.bound;
      DevicePresent(w);
      DevGet(w.devs, DevHolders(w));
    } else if st == ClosePut {
      PutDevKeeps(w, w.(opens := w.opens - 1, leaving := w.leaving + 1));
    } else if st == Unbind {
      PutDevKeeps(w, w.(bound := false));
    } else if st == DestroyFinish {
      DevicePresent(w);
      DestroyKeepsEntries(w);
    } else if st.Refuse? || st.DestroyBegin? || st.Unregister? {
      DevicePresent(w);
    }
  }

  lemma DestroyKeepsEntries(w: World)
    requires EntriesExact(w.entries, w.slots, w.fds)
    ensures EntriesExact(PutAll(w.entries, Occupants(w.slots)), seq(|w.slots|, _ => None), w.fds)
  {
    hide Occ;
    var none := seq(|w.slots|, _ => None);
    var h, h' := (e: nat) => EntryHolders(w.slots, w.fds, e), (e: nat) => EntryHolders(none, w.fds, e);
    OccupantsNone(none);
    forall e: nat
      ensures h(e) == h'(e) + Occ(Occupants(w.slots), e)
    {
      OccOne(0, e);
    }
    PutAllExact(w.entries, h, h', Occupants(w.slots));
  }

  lemma AddKeepsEntries(w: World, q: nat)
    requires EntriesExact(w.entries, w.slots, w.fds) && q < |w.slots| && w.slots[q].None?
    ensures EntriesExact(Create(w.entries), w.slots[q := Some(w.entries.next)], w.fds)
    ensures EntriesExact(Put(Create(w.entries), w.entries.next), w.slots, w.fds)
  {
    hide Occ;
    var n := w.entries.next;
    var slots' := w.slots[q := Some(n)];
    var h, h' := (e: nat) => EntryHolders(w.slots, w.fds, e), (e: nat) => EntryHolders(slots', w.fds, e);
    forall e: nat
      ensures h'(e) == h(e) + (if e == n then 1 else 0)
    {
      OccupantsUpdate(w.slots, q, Some(n), e);
      OccOne(n, e);
    }
    CreateExact(w.entries, h, h');
    PutExact(Create(w.entries), h', h, n);
  }

  lemma DeleteKeepsEntries(w: World, q: nat)
    requires EntriesExact(w.entries, w.slots, w.fds) && Resolvable(w.slots, q)
    ensures EntriesExact(Put(w.entries, w.slots[q].value), w.slots[q := None], w.fds)
  {
    hide Occ;
    var v := w.slots[q].value;
    var slots' := w.slots[q := None];
    var h, h' := (e: nat) => EntryHolders(w.slots, w.fds, e), (e: nat) => EntryHolders(slots', w.fds, e);
    forall e: nat
      ensures h(e) == h'(e) + (if e == v then 1 else 0)
    {
      OccupantsUpdate(w.slots, q, None, e);
      OccOne(v, e);
    }
    PutExact(w.entries, h, h', v);
  }

  lemma GetFdKeepsEntries(w: World, qids: seq<nat>)
    requires EntriesExact(w.entries, w.slots, w.fds) && AllResolvable(w.slots, qids)
    ensures EntriesExact(GetAll(w.entries, EntriesAt(w.slots, qids)), w.slots,
                         w.fds + [QpairFd(Live, EntriesAt(w.slots, qids), 0)])
    ensures PutAllBackwards(GetAll(w.entries, EntriesAt(w.slots, qids)), EntriesAt(w.slots, qids)) == w.entries
  {
    hide Occ;
    var ids := EntriesAt(w.slots, qids);
    var fds' := w.fds + [QpairFd(Live, ids, 0)];
    var h, h' := (e: nat) => EntryHolders(w.slots, w.fds, e), (e: nat) => EntryHolders(w.slots, fds', e);
    forall i | 0 <= i < |ids|
      ensures h(ids[i]) > 0
    {
      SlotHolds(w.slots, qids[i]);
    }
    forall e: nat
      ensures h'(e) == h(e) + Occ(ids, e)
    {
      FdsAppend(w.fds, QpairFd(Live, ids, 0), e);
    }
    GetAllExact(w.entries, h, h', ids);
    RollBackRestores(w.entries, h, ids);
  }

  /** Changing an fd without touching its bindings. */
  lemma FdRelabel(w: World, fd: nat, f: QpairFd)
    requires EntriesExact(w.entries, w.slots, w.fds) && fd < |w.fds| && f.entries == w.fds[fd].entries
    ensures EntriesExact(w.entries, w.slots, w.fds[fd := f])
  {
    hide Occ;
    var fds' := w.fds[fd := f];
    var h, h' := (e: nat) => EntryHolders(w.slots, w.fds, e), (e: nat) => EntryHolders(w.slots, fds', e);
    forall e: nat
      ensures h(e) == h'(e)
    {
      FdsUpdate(w.fds, fd, f, e);
    }
  }

  lemma ReleaseEntryKeepsEntries(w: World, fd: nat)
    requires EntriesExact(w.entries, w.slots, w.fds) && fd < |w.fds| && w.fds[fd].entries != []
    ensures EntriesExact(Put(w.entries, w.fds[fd].entries[0]), w.slots,
                         w.fds[fd := w.fds[fd].(entries := w.fds[fd].entries[1..])])
  {
    hide Occ;
    var f := w.fds[fd].(entries := w.fds[fd].entries[1..]);
    var v := w.fds[fd].entries[0];
    var fds' := w.fds[fd := f];
    var h, h' := (e: nat) => EntryHolders(w.slots, w.fds, e), (e: nat) => EntryHolders(w.slots, fds', e);
    forall e: nat
      ensures h(e) == h'(e) + (if e == v then 1 else 0)
    {
      FdsUpdate(w.fds, fd, f, e);
      OccFront(w.fds[fd].entries, e);
    }
    PutExact(w.entries, h, h', v);
  }

  lemma TableKeepsCounts(w: World, st: QpairStep)
    requires Counted(w) && QpairEnabled(w, st) && (st.Add? || st.AddRolledBack? || st.Delete?)
    ensures Counted(QpairApply(w, st))
  {
    hide EntriesExact, BufsExact, DevExact, TidyFds, TidyUses, OpenFds, Pins, Put, Create;
    DevicePresent(w);
    if st.Delete? {
      DeleteKeepsEntries(w, st.qid);
    } else {
      AddKeepsEntries(w, st.qid);
    }
  }

  lemma GetFdKeepsCounts(w: World, qids: seq<nat>)
    requires Counted(w) && QpairEnabled(w, GetFd(qids))
    ensures Counted(QpairApply(w, GetFd(qids)))
  {
    hide EntriesExact, BufsExact, DevExact, TidyFds, TidyUses, GetAll, EntriesAt, AllResolvable, Get, OpenFds, Pins;
    var f := QpairFd(Live, EntriesAt(w.slots, qids), 0);
    DevicePresent(w);
    DevGet(w.devs, DevHolders(w));
    GetFdKeepsEntries(w, qids);
    FdsAppend(w.fds, f, 0);
    TidyAppend(w.fds, f);
  }

  lemma TidyAppend(fds: seq<QpairFd>, f: QpairFd)
    requires TidyFds(fds) && TidyFd(f)
    ensures TidyFds(fds + [f])
  {
    hide TidyFd;
  }

  lemma GetFdMissingKeeps(w: World, qids: seq<nat>, missing: nat)
    requires Counted(w) && QpairEnabled(w, GetFdMissing(qids, missing))
    ensures QpairApply(w, GetFdMissing(qids, missing)) == w
  {
    DevicePresent(w);
    GetFdKeepsEntries(w, qids);
    hide Counted, GetAll, PutAllBackwards, EntriesAt;
  }

  /** What the steps on the id table do to it: an add fills the lowest free id with a new entry, a delete
      empties exactly its own id and gives up exactly that id's entry, and the others leave it alone. */
  lemma TableSteps(w: World, st: QpairStep)
    requires QpairEnabled(w, st)
    ensures var e := QpairApply(w, st);
            && |e.slots| == |w.slots|
            && (st.Add? ==> w.slots[st.qid] == None && e.slots[st.qid] == Some(w.entries.next))
            && (st.Add? ==> forall i :: 0 <= i < st.qid ==> w.slots[i].Some?)
            && (st.Delete? ==> e.slots[st.qid] == None && w.slots[st.qid].Some?)
            && (st.Delete? ==> e.entries == Put(w.entries, w.slots[st.qid].value))
            && forall q :: 0 <= q < |w.slots| && !((st.Add? || st.Delete?) && q == st.qid) ==> e.slots[q] == w.slots[q]
  {
    hide Put, Get, GetAll, PutAllBackwards, EntriesAt, Create;
  }

  /** A new fd is bound to the very entries its ids have in the table. */
  lemma GetFdBinds(w: World, qids: seq<nat>)
    requires QpairEnabled(w, GetFd(qids))
    ensures var fds := QpairApply(w, GetFd(qids)).fds;
            && |fds| == |w.fds| + 1 && fds[..|w.fds|] == w.fds
            && var f := fds[|w.fds|];
            && f.state == Live && f.calls == 0 && |f.entries| == |qids|
            && forall i :: 0 <= i < |qids| ==> qids[i] < |w.slots| && w.slots[qids[i]] == Some(f.entries[i])
  {
    hide GetAll, Get;
    forall i | 0 <= i < |qids| ensures Resolvable(w.slots, qids[i]) {}
  }

  /** Any change of an fd that keeps its device reference. */
  lemma SetFdKeeps(w: World, fd: nat, f: QpairFd, entries: Pool)
    requires Counted(w) && fd < |w.fds| && TidyFd(f) && FdCount(f) == FdCount(w.fds[fd])
    requires EntriesExact(entries, w.slots, w.fds[fd := f])
    ensures Counted(SetFd(w, fd, f).(entries := entries))
  {
    hide EntriesExact, BufsExact, DevExact, TidyUses, OpenFds, Pins, TidyFd, FdCount;
    FdsUpdate(w.fds, fd, f, 0);
  }

  lemma ReleaseKeepsCounts(w: World, st: QpairStep)
    requires Counted(w) && QpairEnabled(w, st) && (st.ReleaseBegin? || st.ReleaseEntry?)
    ensures Counted(QpairApply(w, st))
  {
    hide EntriesExact, BufsExact, DevExact, TidyUses, OpenFds, Pins, Put;
    assert TidyFd(w.fds[st.fd]);
    if st.ReleaseBegin? {
      var f := w.fds[st.fd].(state := Closing);
      FdRelabel(w, st.fd, f);
      SetFdKeeps(w, st.fd, f, w.entries);
    } else {
      ReleaseEntryKeepsEntries(w, st.fd);
      var f := w.fds[st.fd];
      SetFdKeeps(w, st.fd, f.(entries := f.entries[1..]), Put(w.entries, f.entries[0]));
    }
  }

  lemma ReleaseDevKeepsCounts(w: World, fd: nat)
    requires Counted(w) && QpairEnabled(w, ReleaseDev(fd))
    ensures Counted(QpairApply(w, ReleaseDev(fd)))
  {
    hide EntriesExact, BufsExact, DevExact, TidyUses, OpenFds, Pins, PutDev;
    var f := QpairFd(Gone, [], 0);
    FdRelabel(w, fd, f);
    FdsUpdate(w.fds, fd, f, 0);
    assert TidyFd(f);
    PutDevKeeps(w, SetFd(w, fd, f));
  }

  lemma BeginKeepsCounts(w: World, via: Option<nat>)
    requires Counted(w) && BufEnabled(w, Begin(via))
    ensures Counted(BufApply(w, Begin(via)))
  {
    hide EntriesExact, BufsExact, DevExact, TidyFds, OpenFds, Pins, Get, Create;
    if via.Some? {
      FdHoldsDevice(w, via.value);
    } else {
      DevicePresent(w);
    }
    DevGet(w.devs, DevHolders(w));
    BufCreate(w.bufs, w.uses, BufUse(Creator, 0, 0, 0, 0, true));
    PinsAppend(w.uses, BufUse(Creator, 0, 0, 0, 0, true));
  }

  /** Any change of a buffer's use, with the matching change of its count, that keeps its pin. */
  lemma ReuseKeeps(w: World, b: nat, u: BufUse, bufs: Pool)
    requires Counted(w) && b < |w.uses| && TidyUse(u) && u.pin == w.uses[b].pin
    requires BufsExact(bufs, w.uses[b := u])
    ensures Counted(Reuse(w, b, u).(bufs := bufs))
  {
    hide EntriesExact, BufsExact, DevExact, TidyFds, TidyUse, OpenFds, Pins;
    PinsUpdate(w.uses, b, u);
  }

  lemma OwnerKeepsCounts(w: World, st: BufStep)
    requires Counted(w) && BufEnabled(w, st) && (st.Allocated? || st.Install? || st.AllocRefused?)
    ensures Counted(BufApply(w, st))
  {
    hide EntriesExact, BufsExact, DevExact, TidyFds, OpenFds, Pins;
    var u := w.uses[st.b];
    assert TidyUse(u);
    PinHoldsDevice(w, st.b);
    var u' := u.(owner := if st.Allocated? then Ready else if st.Install? then File else Failing);
    BufRelabel(w.bufs, w.uses, st.b, u');
    ReuseKeeps(w, st.b, u', w.bufs);
  }

  lemma PutBufKeeps(w: World, b: nat, u: BufUse)
    requires Counted(w) && b < |w.uses| && UseCount(w.uses[b]) == UseCount(u) + 1 && TidyUse(u)
    requires u.pin == w.uses[b].pin
    ensures Counted(PutBuf(w, b, u))
  {
    hide Counted, EntriesExact, BufsExact, DevExact, Tidy, TidyUse, UseCount, Put;
    assert BufsExact(w.bufs, w.uses) by { CountedBufs(w); }
    BufPut(w.bufs, w.uses, b, u);
    ReuseKeeps(w, b, u, Put(w.bufs, b));
  }

  lemma CountedBufs(w: World)
    requires Counted(w)
    ensures BufsExact(w.bufs, w.uses) && EntriesExact(w.entries, w.slots, w.fds)
  {}

  lemma GetBufKeeps(w: World, b: nat, u: BufUse)
    requires Counted(w) && b < |w.uses| && UseCount(w.uses[b]) > 0
    requires UseCount(u) == UseCount(w.uses[b]) + 1 && TidyUse(u) && u.pin == w.uses[b].pin
    ensures Counted(GetBuf(w, b, u))
  {
    hide Counted, EntriesExact, BufsExact, DevExact, Tidy, TidyUse, UseCount, Get;
    CountedBufs(w);
    BufGet(w.bufs, w.uses, b, u);
    ReuseKeeps(w, b, u, Get(w.bufs, b));
  }

  lemma BufUseKeepsCounts(w: World, st: BufStep)
    requires Counted(w) && BufEnabled(w, st)
    requires st.FileFailed? || st.CloseFile? || st.Mmap? || st.Fork? || st.Munmap?
    ensures Counted(BufApply(w, st))
  {
    hide EntriesExact, BufsExact, DevExact, TidyFds, PutBuf, GetBuf, OpenFds, Pins;
    var u := w.uses[st.b];
    assert TidyUse(u);
    hide Counted;
    if st.FileFailed? || st.CloseFile? {
      PutBufKeeps(w, st.b, u.(owner := Nobody));
    } else if st.Munmap? {
      PutBufKeeps(w, st.b, u.(vmas := u.vmas - 1));
    } else {
      GetBufKeeps(w, st.b, u.(vmas := u.vmas + 1));
    }
  }

  lemma UnpinKeepsCounts(w: World, st: BufStep)
    requires Counted(w) && BufEnabled(w, st) && (st.FailPut? || st.DropPin?)
    ensures Counted(BufApply(w, st))
  {
    hide EntriesExact, BufsExact, DevExact, TidyFds, OpenFds, Pins, PutDev;
    var u := w.uses[st.b].(pin := false);
    assert TidyUse(w.uses[st.b]);
    BufRelabel(w.bufs, w.uses, st.b, u);
    PinsUpdate(w.uses, st.b, u);
    PutDevKeeps(w, Reuse(w, st.b, u));
  }

  lemma FailFreeKeepsCounts(w: World, b: nat)
    requires Counted(w) && BufEnabled(w, FailFree(b))
    ensures Counted(BufApply(w, FailFree(b)))
  {
    hide EntriesExact, BufsExact, DevExact, TidyFds, OpenFds, Pins, Put, FreeDirect;
    var u := w.uses[b].(owner := Nobody);
    assert TidyUse(w.uses[b]);
    BufPut(w.bufs, w.uses, b, u);
    ReuseKeeps(w, b, u, Put(w.bufs, b));
  }

  lemma CallsKeep(w: World, fd: nat, n: int)
    requires Counted(w) && fd < |w.fds| && w.fds[fd].state == Live && w.fds[fd].calls + n >= 0
    ensures Counted(AddCalls(w, fd, n))
  {
    hide EntriesExact, BufsExact, DevExact, Tidy;
    var f := w.fds[fd].(calls := w.fds[fd].calls + n);
    FdRelabel(w, fd, f);
    hide Counted;
    SetFdKeeps(w, fd, f, w.entries);
  }

  lemma BoundEntryLive(w: World, fd: nat, k: nat)
    requires EntriesExact(w.entries, w.slots, w.fds) && fd < |w.fds| && k < |w.fds[fd].entries|
    ensures Touch(w.entries, w.fds[fd].entries[k]) == w.entries
  {
    hide Occ;
    var e := w.fds[fd].entries[k];
    var h := (e: nat) => EntryHolders(w.slots, w.fds, e);
    BoundHolds(w.fds, fd, k);
    assert h(e) > 0;
    ExactLive(w.entries, h, e);
  }

  lemma PrepGetKeepsCounts(w: World, fd: nat, b: nat)
    requires Counted(w) && XferEnabled(w, PrepGet(fd, b))
    ensures Counted(XferApply(w, PrepGet(fd, b)))
  {
    hide EntriesExact, BufsExact, DevExact, TidyFds, Get, OpenFds, Pins;
    assert TidyUse(w.uses[b]);
    hide Counted;
    var u := w.uses[b].(preparing := w.uses[b].preparing + 1);
    GetBufKeeps(w, b, u);
    CallsKeep(GetBuf(w, b, u), fd, 1);
  }

  lemma XferEndKeepsCounts(w: World, st: XferStep)
    requires Counted(w) && XferEnabled(w, st) && (st.PrepDrop? || st.PrepUndo? || st.XferDone?)
    ensures Counted(XferApply(w, st))
  {
    hide EntriesExact, BufsExact, DevExact, TidyFds, Put, OpenFds, Pins;
    var u := w.uses[st.b];
    assert TidyUse(u);
    hide Counted;
    var u' := if st.PrepDrop? then u.(preparing := u.preparing - 1)
              else if st.PrepUndo? then u.(prepared := u.prepared - 1)
              else u.(inflight := u.inflight - 1);
    PutBufKeeps(w, st.b, u');
    CallsKeep(PutBuf(w, st.b, u'), st.fd, -1);
  }

  lemma PrepCheckKeeps(w: World, fd: nat, q: nat)
    requires Counted(w) && XferEnabled(w, PrepCheck(fd, q))
    ensures TouchDev(w) == w && Touch(w.entries, w.fds[fd].entries[q]) == w.entries
  {
    hide EntriesExact, BufsExact, DevExact, Tidy, OpenFds, Pins;
    FdHoldsDevice(w, fd);
    BoundEntryLive(w, fd, q);
  }

  lemma PrepOkKeepsCounts(w: World, st: XferStep)
    requires Counted(w) && XferEnabled(w, st) && st.PrepOk?
    ensures Counted(XferApply(w, st))
  {
    hide EntriesExact, BufsExact, DevExact, TidyFds, OpenFds, Pins;
    var u := w.uses[st.b];
    assert TidyUse(u);
    PrepCheckKeeps(w, st.fd, st.q);
    var u' := u.(preparing := u.preparing - 1, prepared := u.prepared + 1);
    BufRelabel(w.bufs, w.uses, st.b, u');
    ReuseKeeps(w, st.b, u', w.bufs);
  }

  lemma SubmitKeepsCounts(w: World, st: XferStep)
    requires Counted(w) && XferEnabled(w, st) && st.Submit?
    ensures Counted(XferApply(w, st))
  {
    hide EntriesExact, BufsExact, DevExact, TidyFds, OpenFds, Pins;
    var u := w.uses[st.b];
    assert TidyUse(u);
    FdHoldsDevice(w, st.fd);
    var u' := u.(prepared := u.prepared - 1, inflight := u.inflight + 1);
    BufRelabel(w.bufs, w.uses, st.b, u');
    ReuseKeeps(w, st.b, u', w.bufs);
  }

  lemma QpairKeepsCounts(w: World, st: QpairStep)
    requires Counted(w) && QpairEnabled(w, st)
    ensures Counted(QpairApply(w, st))
  {
    hide Counted, QpairEnabled;
    match st
    case GetFd(qids) => GetFdKeepsCounts(w, qids);
    case GetFdMissing(qids, missing) => GetFdMissingKeeps(w, qids, missing);
    case ReleaseBegin(_) => ReleaseKeepsCounts(w, st);
    case ReleaseEntry(_) => ReleaseKeepsCounts(w, st);
    case ReleaseDev(fd) => ReleaseDevKeepsCounts(w, fd);
    case Add(_) => TableKeepsCounts(w, st);
    case AddRolledBack(_) => TableKeepsCounts(w, st);
    case Delete(_) => TableKeepsCounts(w, st);
  }

  lemma BufKeepsCounts(w: World, st: BufStep)
    requires Counted(w) && BufEnabled(w, st)
    ensures Counted(BufApply(w, st))
  {
    hide Counted, BufEnabled;
    if st.Begin? {
      BeginKeepsCounts(w, st.viaFd);
    } else if st.AllocRefused? || st.Allocated? || st.Install? {
      OwnerKeepsCounts(w, st);
    } else if st.FailPut? || st.DropPin? {
      UnpinKeepsCounts(w, st);
    } else if st.FailFree? {
      FailFreeKeepsCounts(w, st.b);
    } else {
      BufUseKeepsCounts(w, st);
    }
  }

  lemma XferKeepsCounts(w: World, st: XferStep)
    requires Counted(w) && XferEnabled(w, st)
    ensures Counted(XferApply(w, st))
  {
    hide Counted, XferEnabled;
    match st
    case PrepGet(fd, b) => PrepGetKeepsCounts(w, fd, b);
    case PrepCheck(fd, q) => PrepCheckKeeps(w, fd, q);
    case PrepOk(_, _, _) => PrepOkKeepsCounts(w, st);
    case PrepDrop(_, _) => XferEndKeepsCounts(w, st);
    case PrepUndo(_, _) => XferEndKeepsCounts(w, st);
    case Submit(_, _) => SubmitKeepsCounts(w, st);
    case XferDone(_, _) => XferEndKeepsCounts(w, st);
  }

  lemma StepKeepsCounts(w: World, st: Step)
    requires Counted(w) && Enabled(w, st)
    ensures Counted(Apply(w, st))
  {
    hide Counted, DevEnabled, QpairEnabled, BufEnabled, XferEnabled;
    match st
    case Device(d) => DeviceKeepsCounts(w, d);
    case Qpair(p) => QpairKeepsCounts(w, p);
    case Buffer(u) => BufKeepsCounts(w, u);
    case Xfer(x) => XferKeepsCounts(w, x);
  }

  // ------------------------------------------- the character device inside the device

  /** Nothing happened to the character device or the libqdma handle. */
  ghost predicate SameCdev(w: World, e: World) {
    && (DEV in w.devs.live <==> DEV in e.devs.live) && w.badTouch == e.badTouch && w.heldAtFree == e.heldAtFree
    && w.node == e.node && CdevHolds(w) == CdevHolds(e) && w.handle == e.handle
  }

  lemma NodeMeansLive(w: World)
    requires Counted(w) && (w.node || !w.shutdown)
    ensures DEV in w.devs.live
  {
    hide EntriesExact, BufsExact, DevExact, TidyFds, TidyUses, DevHolders;
    DevicePresent(w);
  }

  lemma PutDevKeepsCdev(w: World)
    requires CdevInv(w) && DEV in w.devs.live && Counted(PutDev(w))
    ensures CdevInv(PutDev(w))
  {
    hide Counted, Put;
    if PutDev(w).node {
      NodeMeansLive(PutDev(w));
    }
  }

  lemma DeviceKeepsCdev(w: World, st: DevStep)
    requires Inv(w) && DevEnabled(w, st) && Counted(DevApply(w, st))
    ensures CdevInv(DevApply(w, st))
  {
    hide Counted, Put, PutAll, Occupants, PutDev;
    if st == ClosePut {
      DevicePresent(w);
      PutDevKeepsCdev(w.(opens := w.opens - 1, leaving := w.leaving + 1));
    } else if st == Unbind {
      DevicePresent(w);
      PutDevKeepsCdev(w.(bound := false));
    } else if st == OpenEnter || st == OpenOk {
      NodeMeansLive(w);
    }
  }

  lemma QpairKeepsCdev(w: World, st: QpairStep)
    requires Inv(w) && QpairEnabled(w, st) && Counted(QpairApply(w, st))
    ensures CdevInv(QpairApply(w, st))
  {
    hide Counted, Put, PutAllBackwards, GetAll, EntriesAt, Create, PutDev;
    if st.ReleaseDev? {
      FdHoldsDevice(w, st.fd);
      var w' := SetFd(w, st.fd, QpairFd(Gone, [], 0));
      assert SameCdev(w, w');
      PutDevKeepsCdev(w');
    } else {
      assert SameCdev(w, QpairApply(w, st));
    }
  }

  lemma BufKeepsCdev(w: World, st: BufStep)
    requires Inv(w) && BufEnabled(w, st) && Counted(BufApply(w, st))
    ensures CdevInv(BufApply(w, st))
  {
    hide Counted, Put, FreeDirect, Create, PutDev, UseCount;
    if st.FailPut? || st.DropPin? {
      PinHoldsDevice(w, st.b);
      var w' := Reuse(w, st.b, w.uses[st.b].(pin := false));
      assert SameCdev(w, w');
      PutDevKeepsCdev(w');
    } else {
      assert SameCdev(w, BufApply(w, st));
    }
  }

  lemma XferKeepsCdev(w: World, st: XferStep)
    requires CdevInv(w) && XferEnabled(w, st)
    ensures CdevInv(XferApply(w, st))
  {
    hide Put, Get;
    assert SameCdev(w, XferApply(w, st));
  }

  lemma StepKeepsInv(w: World, st: Step)
    requires Inv(w) && Enabled(w, st)
    ensures Inv(Apply(w, st))
  {
    hide Counted, CdevInv, DevEnabled, QpairEnabled, BufEnabled, XferEnabled, DevApply, QpairApply, BufApply,
      XferApply;
    StepKeepsCounts(w, st);
    match st
    case Device(d) => DeviceKeepsCdev(w, d);
    case Qpair(p) => QpairKeepsCdev(w, p);
    case Buffer(u) => BufKeepsCdev(w, u);
    case Xfer(x) => XferKeepsCdev(w, x);
  }

  lemma {:induction false} RunKeepsInv(w: World, steps: seq<Step>, e: World)
    requires Inv(w) && Run(w, steps, e)
    ensures Inv(e)
    decreases |steps|
  {
    hide Inv, Enabled, Apply;
    if steps != [] {
      StepKeepsInv(w, steps[0]);
      RunKeepsInv(Apply(w, steps[0]), steps[1..], e);
    }
  }

  // -------------------------------------------------------------- main results

  ghost predicate Reachable(handle: bool, node: bool, steps: seq<Step>, w: World) {
    (node ==> handle) && Run(Init(handle, node), steps, w)
  }

  lemma ReachableInv(handle: bool, node: bool, steps: seq<Step>, w: World)
    requires Reachable(handle, node, steps, w)
    ensures Inv(w)
  {
    InitInv(handle, node);
    RunKeepsInv(Init(handle, node), steps, w);
  }

  /** Over every run each reference count equals the number of live holders; no holder of a reference
      finds its object freed, and an object is freed exactly when its last holder is gone. */
  lemma CountsEqualHolders(handle: bool, node: bool, steps: seq<Step>, w: World)
    requires Reachable(handle, node, steps, w)
    ensures !w.devs.fault && !w.entries.fault && !w.bufs.fault
    ensures forall e: nat :: e in w.entries.live ==> w.entries.live[e] == EntryHolders(w.slots, w.fds, e)
    ensures forall e: nat :: e < w.entries.next ==>
              (EntryHolders(w.slots, w.fds, e) > 0 <==> e in w.entries.live) &&
              (EntryHolders(w.slots, w.fds, e) == 0 <==> e in w.entries.freed)
    ensures forall b: nat :: b in w.bufs.live ==> w.bufs.live[b] == BufHolders(w.uses, b)
    ensures forall b: nat :: b < w.bufs.next ==>
              (BufHolders(w.uses, b) > 0 <==> b in w.bufs.live) && (BufHolders(w.uses, b) == 0 <==> b in w.bufs.freed)
    ensures DEV in w.devs.live ==> w.devs.live[DEV] == DevHolders(w)
    ensures (DevHolders(w) > 0 <==> DEV in w.devs.live) && (DevHolders(w) == 0 <==> DEV in w.devs.freed)
  {
    ReachableInv(handle, node, steps, w);
    EntriesExactMeans(w.entries, w.slots, w.fds);
    BufsExactMeans(w.bufs, w.uses);
    DevExactMeans(w.devs, DevHolders(w));
    hide *;
  }

  lemma EntriesExactMeans(p: Pool, slots: seq<Option<nat>>, fds: seq<QpairFd>)
    requires EntriesExact(p, slots, fds)
    ensures !p.fault
    ensures forall e: nat :: e in p.live ==> p.live[e] == EntryHolders(slots, fds, e)
    ensures forall e: nat :: e < p.next ==>
              (EntryHolders(slots, fds, e) > 0 <==> e in p.live) && (EntryHolders(slots, fds, e) == 0 <==> e in p.freed)
  {
    hide EntryHolders;
    var h := (e: nat) => EntryHolders(slots, fds, e);
    assert forall e: nat :: h(e) == EntryHolders(slots, fds, e);
  }

  lemma BufsExactMeans(p: Pool, uses: seq<BufUse>)
    requires BufsExact(p, uses)
    ensures !p.fault
    ensures forall b: nat :: b in p.live ==> p.live[b] == BufHolders(uses, b)
    ensures forall b: nat :: b < p.next ==>
              (BufHolders(uses, b) > 0 <==> b in p.live) && (BufHolders(uses, b) == 0 <==> b in p.freed)
  {
    hide BufHolders;
    var h := (b: nat) => BufHolders(uses, b);
    assert forall b: nat :: h(b) == BufHolders(uses, b);
  }

  lemma DevExactMeans(p: Pool, n: nat)
    requires DevExact(p, n)
    ensures !p.fault && (DEV in p.live ==> p.live[DEV] == n)
    ensures (n > 0 <==> DEV in p.live) && (n == 0 <==> DEV in p.freed)
  {
    var h := (d: nat) => if d == DEV then n else 0;
    assert h(DEV) == n;
  }

  /** No leaks: once the binding, every file, every mapping and every transfer is gone, every object
      ever created has been freed. */
  lemma NothingLeaks(handle: bool, node: bool, steps: seq<Step>, w: World)
    requires Reachable(handle, node, steps, w)
    requires !w.bound && w.opens == 0
    requires forall i :: 0 <= i < |w.fds| ==> w.fds[i].state == Gone
    requires forall b :: 0 <= b < |w.uses| ==> UseCount(w.uses[b]) == 0 && !w.uses[b].pin
    ensures w.entries.live == map[] && w.bufs.live == map[] && w.devs.live == map[]
  {
    ReachableInv(handle, node, steps, w);
    hide EntriesExact, BufsExact, DevExact;
    assert w.bufs.live == map[] by { NoBuffers(w.bufs, w.uses); }
    assert OpenFds(w.fds) == 0 && BoundIds(w.fds) == [] by { NoFds(w.fds); }
    assert Pins(w.uses) == 0 by { NoPins(w.uses); }
    OccupantsNone(w.slots);
    NoEntries(w.entries, w.slots, w.fds);
    NoDevice(w.devs);
  }

  lemma NoBuffers(bufs: Pool, uses: seq<BufUse>)
    requires BufsExact(bufs, uses) && forall b :: 0 <= b < |uses| ==> UseCount(uses[b]) == 0
    ensures bufs.live == map[]
  {
    var h := (x: nat) => BufHolders(uses, x);
    forall b: nat
      ensures b !in bufs.live
    {
      assert h(b) == 0;
    }
  }

  lemma NoEntries(entries: Pool, slots: seq<Option<nat>>, fds: seq<QpairFd>)
    requires EntriesExact(entries, slots, fds) && Occupants(slots) == [] && BoundIds(fds) == []
    ensures entries.live == map[]
  {
    var h := (x: nat) => EntryHolders(slots, fds, x);
    forall e: nat
      ensures e !in entries.live
    {
      OccOne(0, e);
      assert h(e) == 0;
    }
  }

  lemma NoDevice(devs: Pool)
    requires DevExact(devs, 0)
    ensures devs.live == map[]
  {
    var h := (d: nat) => if d == DEV then 0 else 0;
    forall d: nat
      ensures d !in devs.live
    {
      assert h(d) == 0;
    }
  }

  lemma {:induction false} NoFds(fds: seq<QpairFd>)
    requires TidyFds(fds) && forall i :: 0 <= i < |fds| ==> fds[i].state == Gone
    ensures OpenFds(fds) == 0 && BoundIds(fds) == []
  {
    if fds != [] {
      assert TidyFd(fds[|fds| - 1]);
      NoFds(fds[..|fds| - 1]);
    }
  }

  lemma {:induction false} NoPins(uses: seq<BufUse>)
    requires forall b :: 0 <= b < |uses| ==> !uses[b].pin
    ensures Pins(uses) == 0
  {
    if uses != [] {
      NoPins(uses[..|uses| - 1]);
    }
  }

  // ---------------------------------------------------------------------- shutdown

  /** The operations that hand out something new. */
  predicate GrantsAccess(st: Step) {
    match st
    case Device(d) => d.OpenOk?
    case Qpair(p) => p.Add? || p.GetFd?
    case Buffer(u) => u.Allocated?
    case Xfer(x) => x.PrepOk?
  }

  /** No table slot is filled in `e` that was not filled with the same entry in `w`. */
  ghost predicate TableShrinks(w: World, e: World) {
    |e.slots| == |w.slots| && forall q :: 0 <= q < |w.slots| ==> e.slots[q] == None || e.slots[q] == w.slots[q]
  }

  /** What a step after shutdown leaves of the table and of the teardown. */
  ghost predicate StaysShut(w: World, e: World) {
    && e.shutdown && TableShrinks(w, e)
    && (w.teardown == Over ==> e.teardown == Over && e.closes == w.closes)
  }

  lemma ShutdownDeviceStep(w: World, st: DevStep)
    requires w.shutdown && DevEnabled(w, st) && Tidy(w)
    ensures !GrantsAccess(Device(st)) && StaysShut(w, DevApply(w, st))
  {
    hide TidyFds, TidyUses, Put, PutAll, Get, Occupants, Touch;
  }

  lemma ShutdownQpairStep(w: World, st: QpairStep)
    requires w.shutdown && QpairEnabled(w, st)
    ensures !GrantsAccess(Qpair(st)) && StaysShut(w, QpairApply(w, st))
  {
    hide Put, PutAllBackwards, Get, GetAll, Create, Touch, EntriesAt;
  }

  lemma ShutdownBufStep(w: World, st: BufStep)
    requires w.shutdown && BufEnabled(w, st)
    ensures !GrantsAccess(Buffer(st)) && StaysShut(w, BufApply(w, st))
  {
    hide Put, Get, Create, Touch, FreeDirect, UseCount;
  }

  lemma ShutdownXferStep(w: World, st: XferStep)
    requires w.shutdown && XferEnabled(w, st)
    ensures !GrantsAccess(Xfer(st)) && StaysShut(w, XferApply(w, st))
  {
    hide Put, Get, Touch;
  }

  lemma ShutdownStep(w: World, st: Step)
    requires w.shutdown && Enabled(w, st) && Tidy(w)
    ensures !GrantsAccess(st) && StaysShut(w, Apply(w, st))
  {
    hide Tidy, DevEnabled, QpairEnabled, BufEnabled, XferEnabled, DevApply, QpairApply, BufApply, XferApply;
    hide GrantsAccess, StaysShut;
    match st
    case Device(d) => ShutdownDeviceStep(w, d);
    case Qpair(p) => ShutdownQpairStep(w, p);
    case Buffer(u) => ShutdownBufStep(w, u);
    case Xfer(x) => ShutdownXferStep(w, x);
  }

  lemma {:induction false} RunOneMore(w: World, steps: seq<Step>, e: World, st: Step)
    requires Run(w, steps, e) && Enabled(e, st)
    ensures Run(w, steps + [st], Apply(e, st))
    decreases |steps|
  {
    hide Enabled, Apply;
    if steps == [] {
      assert (steps + [st])[1..] == [];
    } else {
      RunOneMore(Apply(w, steps[0]), steps[1..], e, st);
      assert (steps + [st])[1..] == steps[1..] + [st];
    }
  }

  /** Once shutdown is set, in every later interleaving: nothing new is granted, the table only
      shrinks, and after teardown it stays empty with no further close of the libqdma handle. */
  lemma {:induction false} NothingGrantedAfterShutdown(
      handle: bool, node: bool, before: seq<Step>, w: World, steps: seq<Step>, e: World)
    requires Reachable(handle, node, before, w) && w.shutdown && Run(w, steps, e)
    ensures forall k :: 0 <= k < |steps| ==> !GrantsAccess(steps[k])
    ensures e.shutdown && TableShrinks(w, e) && e.closes <= 1
    ensures w.teardown == Over ==>
              && e.teardown == Over && e.closes == w.closes && !e.handle
              && forall q :: 0 <= q < |e.slots| ==> e.slots[q] == None
    decreases |steps|
  {
    hide EntriesExact, BufsExact, DevExact, TidyFds, TidyUses, Enabled, Apply;
    ReachableInv(handle, node, before, w);
    if steps != [] {
      ShutdownStep(w, steps[0]);
      RunOneMore(Init(handle, node), before, w, steps[0]);
      NothingGrantedAfterShutdown(handle, node, before + [steps[0]], Apply(w, steps[0]), steps[1..], e);
      forall k | 0 <= k < |steps|
        ensures !GrantsAccess(steps[k])
      {
        assert k > 0 ==> steps[k] == steps[1..][k - 1];
      }
    }
  }

  /** A destroy that finds teardown begun changes nothing, however often it is repeated. */
  lemma DestroyIsIdempotent(w: World)
    requires Inv(w) && w.bound
    ensures var once := DevApply(w, DestroyBegin); once.bound && DevApply(once, DestroyBegin) == once
    ensures w.shutdown ==> DevApply(w, DestroyBegin) == w
  {
    DevicePresent(w);
  }

  // ------------------------------------------------ the device freed under its own files

  /** `u`, reached by the first k steps, is the last state with the device alive. */
  ghost predicate FreesDevice(handle: bool, node: bool, steps: seq<Step>, k: nat, u: World) {
    && k < |steps| && Run(Init(handle, node), steps[..k], u) && Enabled(u, steps[k])
    && DEV in u.devs.live && DEV !in Apply(u, steps[k]).devs.live
  }

  /** Runs are deterministic: what follows the first k steps starts where they end. */
  lemma {:induction false} RunSplits(w: World, steps: seq<Step>, e: World, k: nat, u: World)
    requires k <= |steps| && Run(w, steps, e) && Run(w, steps[..k], u)
    ensures Run(u, steps[k..], e)
    decreases k
  {
    hide Enabled, Apply;
    if k == 0 {
      assert steps[..0] == [];
      assert steps[0..] == steps;
    } else {
      TailOfPrefix(steps, k);
      hide Run;
      assert Run(Apply(w, steps[0]), steps[1..], e) by { RunUnfolds(w, steps, e); }
      assert Run(Apply(w, steps[0]), steps[1..][..k - 1], u) by { RunUnfolds(w, steps[..k], u); }
      RunSplits(Apply(w, steps[0]), steps[1..], e, k - 1, u);
    }
  }

  lemma RunUnfolds(w: World, steps: seq<Step>, e: World)
    requires Run(w, steps, e) && steps != []
    ensures Enabled(w, steps[0]) && Run(Apply(w, steps[0]), steps[1..], e)
  {}

  lemma TailOfPrefix<T>(s: seq<T>, k: nat)
    requires 0 < k <= |s|
    ensures s[..k] != [] && s[..k][0] == s[0]
    ensures s[..k][1..] == s[1..][..k - 1] && s[1..][k - 1..] == s[k..]
  {}

  /** A step frees the device only by dropping its last reference, and then records who was there. */
  ghost predicate FreesOrKeeps(w: World, e: World) {
    if DEV in w.devs.live && DEV !in e.devs.live then
      CdevHolds(e) == CdevHolds(w) && e.heldAtFree == Some(CdevHolds(w))
    else (DEV in e.devs.live <==> DEV in w.devs.live) && e.heldAtFree == w.heldAtFree
  }

  lemma PutDevFrees(w: World, w': World)
    requires SameCdev(w, w')
    ensures FreesOrKeeps(w, PutDev(w')) && PutDev(w').handle == w.handle
  {}

  lemma DeviceFrees(w: World, st: DevStep)
    requires DevEnabled(w, st)
    ensures FreesOrKeeps(w, DevApply(w, st)) && DevApply(w, st).handle == (w.handle && st != DestroyFinish)
  {
    hide PutAll, Occupants, PutDev;
    if st == ClosePut {
      PutDevFrees(w, w.(opens := w.opens - 1, leaving := w.leaving + 1));
    } else if st == Unbind {
      PutDevFrees(w, w.(bound := false));
    }
  }

  lemma QpairFrees(w: World, st: QpairStep)
    requires QpairEnabled(w, st)
    ensures FreesOrKeeps(w, QpairApply(w, st)) && QpairApply(w, st).handle == w.handle
  {
    hide Put, GetAll, PutAllBackwards, EntriesAt, Create, PutDev, FreesOrKeeps;
    if st.ReleaseDev? {
      PutDevFrees(w, SetFd(w, st.fd, QpairFd(Gone, [], 0)));
    } else {
      SameCdevKeeps(w, QpairApply(w, st));
    }
  }

  lemma SameCdevKeeps(w: World, e: World)
    requires SameCdev(w, e)
    ensures FreesOrKeeps(w, e) && e.handle == w.handle
  {}

  lemma BufFrees(w: World, st: BufStep)
    requires BufEnabled(w, st)
    ensures FreesOrKeeps(w, BufApply(w, st)) && BufApply(w, st).handle == w.handle
  {
    hide Put, Create, FreeDirect, UseCount, PutDev, FreesOrKeeps;
    if st.FailPut? || st.DropPin? {
      PutDevFrees(w, Reuse(w, st.b, w.uses[st.b].(pin := false)));
    } else {
      SameCdevKeeps(w, BufApply(w, st));
    }
  }

  lemma XferFrees(w: World, st: XferStep)
    requires XferEnabled(w, st)
    ensures FreesOrKeeps(w, XferApply(w, st)) && XferApply(w, st).handle == w.handle
  {
    hide Get, Put, FreesOrKeeps;
    SameCdevKeeps(w, XferApply(w, st));
  }

  lemma StepFrees(w: World, st: Step)
    requires Enabled(w, st)
    ensures FreesOrKeeps(w, Apply(w, st))
    ensures Apply(w, st).handle == (w.handle && st != Device(DestroyFinish))
  {
    hide FreesOrKeeps, DevEnabled, QpairEnabled, BufEnabled, XferEnabled, DevApply, QpairApply, BufApply, XferApply;
    match st
    case Device(d) => DeviceFrees(w, d);
    case Qpair(p) => QpairFrees(w, p);
    case Buffer(u) => BufFrees(w, u);
    case Xfer(x) => XferFrees(w, x);
  }

  lemma {:induction false} RunStaysFreed(w: World, steps: seq<Step>, e: World)
    requires Run(w, steps, e) && DEV !in w.devs.live
    ensures DEV !in e.devs.live && e.heldAtFree == w.heldAtFree
    decreases |steps|
  {
    hide Enabled, Apply;
    if steps != [] {
      StepFrees(w, steps[0]);
      RunStaysFreed(Apply(w, steps[0]), steps[1..], e);
    }
  }

  /** Every run that ends with the device freed has a step that freed it. */
  lemma SomeStepFrees(handle: bool, node: bool, steps: seq<Step>, w: World) returns (k: nat, u: World)
    requires Reachable(handle, node, steps, w) && DEV !in w.devs.live
    ensures FreesDevice(handle, node, steps, k, u)
  {
    k, u := FindFreeing(Init(handle, node), steps, w);
  }

  lemma {:induction false} FindFreeing(w: World, steps: seq<Step>, e: World) returns (k: nat, u: World)
    requires Run(w, steps, e) && DEV in w.devs.live && DEV !in e.devs.live
    ensures k < |steps| && Run(w, steps[..k], u) && Enabled(u, steps[k])
    ensures DEV in u.devs.live && DEV !in Apply(u, steps[k]).devs.live
    decreases |steps|
  {
    hide Enabled, Apply;
    var next := Apply(w, steps[0]);
    if DEV in next.devs.live {
      k, u := FindFreeing(next, steps[1..], e);
      assert steps[..k + 1][1..] == steps[1..][..k];
      k := k + 1;
    } else {
      k, u := 0, w;
      assert steps[..0] == [];
    }
  }

  /**
    The one access without a reference.  The run touches the freed device exactly if a lookup or a file
    is using the embedded character device when the last device reference is about to be dropped:
    without such a use it never does, and with one it has done so by the time those uses are over.
   */
  lemma BadTouchIff(handle: bool, node: bool, steps: seq<Step>, w: World, k: nat, u: World)
    requires Reachable(handle, node, steps, w) && FreesDevice(handle, node, steps, k, u)
    ensures w.badTouch ==> CdevHolds(u) > 0
    ensures CdevHolds(w) == 0 ==> (w.badTouch <==> CdevHolds(u) > 0)
  {
    hide Enabled, Apply, Counted;
    var next := Apply(u, steps[k]);
    ReachableInv(handle, node, steps, w);
    RunSplits(Init(handle, node), steps, w, k, u);
    assert steps[k..][0] == steps[k] && steps[k..][1..] == steps[k + 1..];
    StepFrees(u, steps[k]);
    RunStaysFreed(next, steps[k + 1..], w);
  }

  lemma NoBadTouchWhileAlive(handle: bool, node: bool, steps: seq<Step>, w: World)
    requires Reachable(handle, node, steps, w) && (DEV in w.devs.live || w.bound || w.opens > 0)
    ensures !w.badTouch
  {
    ReachableInv(handle, node, steps, w);
    hide EntriesExact, BufsExact, DevExact, Tidy, OpenFds, Pins;
    if w.bound || w.opens > 0 {
      DevicePresent(w);
    }
  }

  lemma StepOn(handle: bool, node: bool, steps: seq<Step>, w: World, st: Step) returns (e: World)
    requires Reachable(handle, node, steps, w) && Enabled(w, st)
    ensures Reachable(handle, node, steps + [st], e) && e == Apply(w, st)
  {
    hide Enabled, Apply, Init;
    e := Apply(w, st);
    RunOneMore(Init(handle, node), steps, w, st);
  }

  const REMOVAL: seq<Step> := [Device(DestroyBegin), Device(Unregister), Device(DestroyFinish), Device(Unbind)]

  /** Removal, from the first flag to the binding's reference, whatever files and lookups there are. */
  lemma Removal(steps: seq<Step>, w: World) returns (e: World)
    requires Reachable(true, true, steps, w) && w.teardown == NotBegun && !w.shutdown && w.bound
    ensures Reachable(true, true, steps + REMOVAL, e) && e.shutdown
    ensures e.devs == Put(w.devs, DEV) && e.opens == w.opens && e.badTouch == w.badTouch
    ensures e.entering == w.entering && e.leaving == w.leaving
  {
    hide Reachable, Put;
    var w2 := RemovalBegins(steps, w);
    var w3 := StepOn(true, true, steps + [Device(DestroyBegin)] + [Device(Unregister)], w2, Device(DestroyFinish));
    hide PutAll, Occupants;
    StillHeld(steps + [Device(DestroyBegin)] + [Device(Unregister)], w2);
    e := StepOn(true, true, steps + [Device(DestroyBegin)] + [Device(Unregister)] + [Device(DestroyFinish)],
                   w3, Device(Unbind));
    assert steps + [Device(DestroyBegin)] + [Device(Unregister)] + [Device(DestroyFinish)] + [Device(Unbind)] ==
           steps + REMOVAL;
  }

  lemma StillHeld(steps: seq<Step>, w: World)
    requires Reachable(true, true, steps, w) && w.bound
    ensures TouchDev(w) == w
  {
    ReachableInv(true, true, steps, w);
    hide EntriesExact, BufsExact, DevExact, Tidy, OpenFds, Pins;
    DevicePresent(w);
  }

  lemma RemovalBegins(steps: seq<Step>, w: World) returns (e: World)
    requires Reachable(true, true, steps, w) && w.teardown == NotBegun && !w.shutdown && w.bound
    ensures Reachable(true, true, steps + [Device(DestroyBegin)] + [Device(Unregister)], e)
    ensures e == w.(shutdown := true, node := false, teardown := Halfway)
  {
    hide Reachable;
    StillHeld(steps, w);
    var w1 := StepOn(true, true, steps, w, Device(DestroyBegin));
    e := StepOn(true, true, steps + [Device(DestroyBegin)], w1, Device(Unregister));
  }

  /** No queue pair, queue-pair fd or buffer exists. */
  predicate IsBlank(w: World) {
    |w.slots| == MAX_QPAIRS && w.slots[0].None? && w.fds == [] && w.uses == []
  }

  lemma Fresh() returns (w: World)
    ensures Reachable(true, true, [], w) && Alive(w) && w.node && w.bound && w.teardown == NotBegun
    ensures w.devs == Create(EMPTY) && w.entering == w.opens == w.leaving == 0
    ensures IsBlank(w)
  {
    w := Init(true, true);
  }

  lemma Lookup() returns (e: World)
    ensures Reachable(true, true, [Device(OpenEnter)], e) && Alive(e) && e.bound && e.teardown == NotBegun
    ensures e.devs == Create(EMPTY) && e.entering == 1 && e.opens == e.leaving == 0 && IsBlank(e)
  {
    hide Reachable, Create;
    var w := Fresh();
    e := StepOn(true, true, [], w, Device(OpenEnter));
    assert [] + [Device(OpenEnter)] == [Device(OpenEnter)];
  }

  /** An open that is refused because the device went away between the lookup and the check. */
  lemma RefusedOpenTouchesFreed() returns (e: World)
    ensures Reachable(true, true, [Device(OpenEnter)] + REMOVAL + [Device(OpenRefused)], e) && e.badTouch
  {
    hide Reachable;
    var w1 := Lookup();
    var w2 := Removal([Device(OpenEnter)], w1);
    e := StepOn(true, true, [Device(OpenEnter)] + REMOVAL, w2, Device(OpenRefused));
  }

  lemma Opened() returns (e: World)
    ensures Reachable(true, true, [Device(OpenEnter)] + [Device(OpenOk)], e) && Alive(e) && e.bound
    ensures e.teardown == NotBegun && e.devs == Get(Create(EMPTY), DEV) && e.opens == 1 && IsBlank(e)
  {
    hide Reachable, Create, Get;
    var w := Lookup();
    e := StepOn(true, true, [Device(OpenEnter)], w, Device(OpenOk));
  }

  /** The last reference dropped by a file that is being closed. */
  lemma CloseLast(steps: seq<Step>, w: World) returns (e: World)
    requires Reachable(true, true, steps, w) && w.opens > 0 && DEV !in Put(w.devs, DEV).live
    ensures Reachable(true, true, steps + [Device(ClosePut)] + [Device(CdevPut)], e) && e.badTouch
  {
    hide Reachable, Put;
    var w1 := StepOn(true, true, steps, w, Device(ClosePut));
    e := StepOn(true, true, steps + [Device(ClosePut)], w1, Device(CdevPut));
  }

  /** A file that is closed last, after the device has been removed. */
  lemma LastCloseTouchesFreed() returns (e: World)
    ensures Reachable(true, true, [Device(OpenEnter)] + [Device(OpenOk)] + REMOVAL + [Device(ClosePut)] +
                                  [Device(CdevPut)], e)
    ensures e.badTouch
  {
    hide Reachable;
    var w2 := Opened();
    var w3 := Removal([Device(OpenEnter)] + [Device(OpenOk)], w2);
    e := CloseLast([Device(OpenEnter)] + [Device(OpenOk)] + REMOVAL, w3);
  }

  // ------------------------------------------------ submitting after the lock is dropped

  /** The libqdma handle is open until the locked end of teardown, and never again. */
  lemma {:induction false} HandleUntilFinish(w: World, steps: seq<Step>, e: World)
    requires Run(w, steps, e)
    ensures e.handle <==> w.handle && Device(DestroyFinish) !in steps
    decreases |steps|
  {
    hide Enabled, Apply;
    if steps != [] {
      StepFrees(w, steps[0]);
      HandleUntilFinish(Apply(w, steps[0]), steps[1..], e);
      assert steps == [steps[0]] + steps[1..];
    }
  }

  /** In every reachable state a submit finds the handle open exactly if teardown has not finished. */
  lemma SubmitFindsHandle(handle: bool, node: bool, steps: seq<Step>, w: World, fd: nat, b: nat)
    requires Reachable(handle, node, steps, w) && XferEnabled(w, Submit(fd, b))
    ensures w.handle <==> w.teardown != Over
  {
    ReachableInv(handle, node, steps, w);
    hide EntriesExact, BufsExact, DevExact, TidyFds, TidyUses, CdevInv;
  }

  /** In every run, exactly if teardown has not finished between its preparation and its submit. */
  lemma SubmitFindsHandleIff(handle: bool, node: bool, steps: seq<Step>, w: World, j: nat, v: World,
                             fd: nat, b: nat, q: nat)
    requires Reachable(handle, node, steps, w) && XferEnabled(w, Submit(fd, b))
    requires j < |steps| && steps[j] == Xfer(PrepOk(fd, b, q)) && Run(Init(handle, node), steps[..j], v)
    ensures w.handle <==> Device(DestroyFinish) !in steps[j..]
  {
    hide Apply, XferApply, Init, Inv;
    RunSplits(Init(handle, node), steps, w, j, v);
    assert v.handle by {
      RunUnfolds(v, steps[j..], w);
      assert steps[j..][0] == steps[j];
    }
    HandleUntilFinish(v, steps[j..], w);
  }

  lemma BoundFd() returns (steps: seq<Step>, e: World)
    ensures Reachable(true, true, steps, e) && Alive(e) && e.bound && e.teardown == NotBegun
    ensures e.opens == 1 && |e.fds| == 1 && e.fds[0].state == Live && |e.fds[0].entries| == 1 && e.uses == []
  {
    hide Reachable, Get, Create, Touch, GetAll;
    e := Opened();
    steps := [Device(OpenEnter)] + [Device(OpenOk)];
    e := StepOn(true, true, steps, e, Qpair(Add(0)));
    steps := steps + [Qpair(Add(0))];
    e := StepOn(true, true, steps, e, Qpair(GetFd([0])));
    steps := steps + [Qpair(GetFd([0]))];
  }

  lemma PreparedTransfer() returns (steps: seq<Step>, e: World)
    ensures Reachable(true, true, steps, e) && Alive(e) && e.bound && e.teardown == NotBegun
    ensures XferEnabled(e, Submit(0, 0))
  {
    hide Reachable, Get, Create, Touch;
    steps, e := BoundFd();
    e := StepOn(true, true, steps, e, Buffer(Begin(None)));
    steps := steps + [Buffer(Begin(None))];
    e := StepOn(true, true, steps, e, Buffer(Allocated(0)));
    steps := steps + [Buffer(Allocated(0))];
    e := StepOn(true, true, steps, e, Buffer(Install(0)));
    steps := steps + [Buffer(Install(0))];
    e := StepOn(true, true, steps, e, Xfer(PrepGet(0, 0)));
    steps := steps + [Xfer(PrepGet(0, 0))];
    e := StepOn(true, true, steps, e, Xfer(PrepOk(0, 0, 0)));
    steps := steps + [Xfer(PrepOk(0, 0, 0))];
  }

  /** A transfer prepared before a removal and submitted after the locked end of its teardown. */
  lemma SubmitMeetsClosedHandle() returns (steps: seq<Step>, e: World)
    ensures Reachable(true, true, steps, e) && XferEnabled(e, Submit(0, 0)) && !e.handle
  {
    hide Reachable, PutAll, Occupants;
    var w;
    steps, w := PreparedTransfer();
    var w2 := RemovalBegins(steps, w);
    steps := steps + [Device(DestroyBegin)] + [Device(Unregister)];
    e := StepOn(true, true, steps, w2, Device(DestroyFinish));
    steps := steps + [Device(DestroyFinish)];
  }
}
