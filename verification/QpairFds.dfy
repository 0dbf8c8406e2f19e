/**
  The loops behind three critical sections of driver/slash_qdma.c: binding queue pairs to an fd with
  rollback, releasing an fd context, and emptying the id table at teardown.  Each computes exactly
  the transition of module Lifetimes.
 */
module QpairFds {
  import opened Common
  import opened Krefs
  import opened Lifetimes

  class Device {
    var entries: Pool
    var devs: Pool
    var slots: seq<Option<nat>>

    constructor ()
      ensures entries == EMPTY && devs == Create(EMPTY) && slots == seq(MAX_QPAIRS, _ => None)
    {
      entries, devs, slots := EMPTY, Create(EMPTY), seq(MAX_QPAIRS, _ => None);
    }

    /** The lookup loop of `slash_qdma_ioctl_qpair_get_fd_w`: all ids resolve and each entry gains one
        reference per binding, or the references taken so far are dropped again, last one first. */
    method BindAll(qids: seq<nat>) returns (ctx: Option<seq<nat>>)
      modifies this`entries, this`devs
      ensures ctx.Some? <==> AllResolvable(slots, qids)
      ensures ctx.Some? ==>
                |ctx.value| == |qids| &&
                forall i :: 0 <= i < |qids| ==> qids[i] < |slots| && slots[qids[i]] == Some(ctx.value[i])
      ensures ctx.Some? ==>
                && ctx.value == EntriesAt(slots, qids)
                && entries == GetAll(old(entries), EntriesAt(slots, qids)) && devs == Get(old(devs), DEV)
      ensures ctx.None? ==>
                && devs == old(devs)
                && exists k :: 0 <= k < |qids| && AllResolvable(slots, qids[..k]) && !Resolvable(slots, qids[k]) &&
                               entries == PutAllBackwards(GetAll(old(entries), EntriesAt(slots, qids[..k])),
                                                          EntriesAt(slots, qids[..k]))
    {
      var bound: seq<nat> := [];
      var i := 0;
      while i < |qids|
        invariant i <= |qids| && AllResolvable(slots, qids[..i]) && bound == EntriesAt(slots, qids[..i])
        invariant forall j :: 0 <= j < i ==> qids[j] < |slots| && slots[qids[j]] == Some(bound[j])
        invariant entries == GetAll(old(entries), bound) && devs == old(devs)
      {
        if !Resolvable(slots, qids[i]) {
          Unbind(bound);
          return None;
        }
        var e := slots[qids[i]].value;
        assert (bound + [e])[..i] == bound;
        entries := Get(entries, e);
        bound := bound + [e];
        assert qids[..i + 1][..i] == qids[..i];
        i := i + 1;
        assert bound == EntriesAt(slots, qids[..i]);
      }
      assert qids[..i] == qids;
      devs := Get(devs, DEV);
      ctx := Some(bound);
    }

    /** The `while (i-- > 0)` rollback. */
    method Unbind(bound: seq<nat>)
      modifies this`entries
      ensures entries == PutAllBackwards(old(entries), bound)
    {
      var i := |bound|;
      assert bound[..i] == bound;
      while i > 0
        invariant 0 <= i <= |bound|
        invariant PutAllBackwards(entries, bound[..i]) == PutAllBackwards(old(entries), bound)
      {
        assert bound[..i][..i - 1] == bound[..i - 1];
        i := i - 1;
        entries := Put(entries, bound[i]);
      }
    }

    /** `slash_qdma_qpair_release`. */
    method Release(ctx: seq<nat>)
      modifies this`entries, this`devs
      ensures entries == PutAll(old(entries), ctx) && devs == Put(old(devs), DEV)
    {
      var i := 0;
      while i < |ctx|
        invariant 0 <= i <= |ctx| && devs == old(devs)
        invariant PutAll(entries, ctx[i..]) == PutAll(old(entries), ctx)
      {
        assert ctx[i..][1..] == ctx[i + 1..];
        entries := Put(entries, ctx[i]);
        i := i + 1;
      }
      devs := Put(devs, DEV);
    }

    /** The `xa_for_each` loop of `slash_qdma_destroy_qdma_device`. */
    method EmptyTable()
      modifies this`entries, this`slots
      ensures entries == PutAll(old(entries), Occupants(old(slots)))
      ensures |slots| == |old(slots)| && forall q :: 0 <= q < |slots| ==> slots[q] == None
    {
      hide Put, PutAll, Occupants;
      var q := 0;
      assert slots[..0] == [];
      NoSlotYet(entries);
      while q < |slots|
        invariant 0 <= q <= |slots| == |old(slots)|
        invariant forall i :: 0 <= i < q ==> slots[i] == None
        invariant forall i :: q <= i < |slots| ==> slots[i] == old(slots)[i]
        invariant entries == PutAll(old(entries), Occupants(old(slots)[..q]))
      {
        OneMoreSlot(old(entries), old(slots), q);
        if slots[q].Some? {
          entries := Put(entries, slots[q].value);
          slots := slots[q := None];
        }
        q := q + 1;
      }
      assert old(slots)[..q] == old(slots);
    }
  }

  lemma NoSlotYet(p: Pool)
    ensures PutAll(p, Occupants([])) == p
  {}

  lemma OneMoreSlot(p: Pool, slots: seq<Option<nat>>, q: nat)
    requires q < |slots|
    ensures PutAll(p, Occupants(slots[..q + 1])) ==
            if slots[q].Some? then Put(PutAll(p, Occupants(slots[..q])), slots[q].value)
            else PutAll(p, Occupants(slots[..q]))
  {
    var before := Occupants(slots[..q]);
    assert slots[..q + 1][..q] == slots[..q];
    assert Occupants(slots[..q + 1]) == before + SlotIds(slots[q]);
    if slots[q].Some? {
      var e := slots[q].value;
      PutAllConcat(p, before, [e]);
      assert [e][1..] == [];
      assert PutAll(PutAll(p, before), [e]) == Put(PutAll(p, before), e);
    } else {
      assert before + [] == before;
    }
  }

  lemma {:induction false} PutAllConcat(p: Pool, a: seq<nat>, b: seq<nat>)
    ensures PutAll(p, a + b) == PutAll(PutAll(p, a), b)
    decreases |a|
  {
    if a == [] {
      assert a + b == b;
    } else {
      assert (a + b)[1..] == a[1..] + b;
      PutAllConcat(Put(p, a[0]), a[1..], b);
    }
  }

  /** The release steps of one fd, taken one after the other. */
  ghost function Drained(w: World, fd: nat): World
    requires fd < |w.fds| && w.fds[fd].state == Closing
    decreases |w.fds[fd].entries|
  {
    if w.fds[fd].entries == [] then QpairApply(w, ReleaseDev(fd))
    else Drained(QpairApply(w, ReleaseEntry(fd)), fd)
  }

  /** Without interference the release steps do what the release loop does. */
  lemma {:induction false} ReleaseIsSteps(w: World, fd: nat)
    requires fd < |w.fds| && w.fds[fd].state == Closing
    ensures Drained(w, fd).entries == PutAll(w.entries, w.fds[fd].entries)
    ensures Drained(w, fd).devs == Put(w.devs, DEV)
    decreases |w.fds[fd].entries|
  {
    hide Put;
    if w.fds[fd].entries != [] {
      ReleaseIsSteps(QpairApply(w, ReleaseEntry(fd)), fd);
    }
  }
}
