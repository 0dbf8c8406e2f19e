/**
  Kernel reference counts.  A pool holds the counts of all objects of one kind; an object leaves the
  pool when its count reaches zero.  Anything that would be a use after free, a double free or a
  free of a shared object raises `fault`.
 */
module Krefs {

  datatype Pool = Pool(live: map<nat, nat>, freed: set<nat>, next: nat, fault: bool)

  const EMPTY := Pool(map[], {}, 0, false)

  /** kzalloc + kref_init: a fresh object with one reference. */
  function Create(p: Pool): Pool {
    p.(live := p.live[p.next := 1], next := p.next + 1)
  }

  /** Reading or locking an object. */
  function Touch(p: Pool, id: nat): Pool {
    if id in p.live then p else p.(fault := true)
  }

  function Get(p: Pool, id: nat): Pool {
    if id in p.live then p.(live := p.live[id := p.live[id] + 1]) else p.(fault := true)
  }

  function Free(p: Pool, id: nat): Pool {
    p.(live := p.live - {id}, freed := p.freed + {id}, fault := p.fault || id in p.freed)
  }

  function Put(p: Pool, id: nat): Pool {
    if id !in p.live || p.live[id] == 0 then p.(fault := true)
    else if p.live[id] == 1 then Free(p, id)
    else p.(live := p.live[id := p.live[id] - 1])
  }

  /** kfree without a kref_put: only right while the creator holds the one reference. */
  function FreeDirect(p: Pool, id: nat): Pool {
    if id !in p.live || p.live[id] != 1 then p.(fault := true) else Free(p, id)
  }

  function GetAll(p: Pool, ids: seq<nat>): Pool {
    if ids == [] then p else Get(GetAll(p, ids[..|ids| - 1]), ids[|ids| - 1])
  }

  /** Drops one reference per element, last one first. */
  function PutAllBackwards(p: Pool, ids: seq<nat>): Pool
    decreases |ids|
  {
    if ids == [] then p else PutAllBackwards(Put(p, ids[|ids| - 1]), ids[..|ids| - 1])
  }

  /** Drops one reference per element, first one first. */
  function PutAll(p: Pool, ids: seq<nat>): Pool
    decreases |ids|
  {
    if ids == [] then p else PutAll(Put(p, ids[0]), ids[1..])
  }

  // ------------------------------------------------------------------ exactness

  /** The pool agrees with a census of holders: every object that was ever created is either live
      with exactly as many references as it has holders, or was freed and has none. */
  ghost predicate Exact(p: Pool, holders: nat -> nat) {
    && !p.fault
    && (forall id: nat :: id in p.live ==> id < p.next && p.live[id] == holders(id) && holders(id) > 0)
    && (forall id: nat :: id !in p.live ==> holders(id) == 0)
    && (forall id: nat :: id in p.freed <==> id < p.next && id !in p.live)
  }

  /** `h'` counts one holder of `id` more than `h`. */
  ghost predicate OneMore(h: nat -> nat, h': nat -> nat, id: nat) {
    forall x: nat :: h'(x) == h(x) + (if x == id then 1 else 0)
  }

  lemma ExactLive(p: Pool, h: nat -> nat, id: nat)
    requires Exact(p, h) && h(id) > 0
    ensures id in p.live && Touch(p, id) == p
  {
  }

  lemma CreateExact(p: Pool, h: nat -> nat, h': nat -> nat)
    requires Exact(p, h) && OneMore(h, h', p.next)
    ensures Exact(Create(p), h')
  {
    assert p.next !in p.live;
    forall id: nat
      ensures id in Create(p).live ==>
                id < p.next + 1 && Create(p).live[id] == h'(id) && h'(id) > 0
      ensures id !in Create(p).live ==> h'(id) == 0
    {
      assert h'(id) == h(id) + (if id == p.next then 1 else 0);
    }
  }

  lemma GetExact(p: Pool, h: nat -> nat, h': nat -> nat, id: nat)
    requires Exact(p, h) && OneMore(h, h', id) && h(id) > 0
    ensures Exact(Get(p, id), h') && Get(p, id).live.Keys == p.live.Keys
  {
    var p' := Get(p, id);
    assert p'.live.Keys == p.live.Keys;
    forall x: nat
      ensures x in p'.live ==> p'.live[x] == h'(x) && h'(x) > 0
      ensures x !in p'.live ==> h'(x) == 0
    {
      assert h'(x) == h(x) + (if x == id then 1 else 0);
    }
  }

  lemma PutExact(p: Pool, h: nat -> nat, h': nat -> nat, id: nat)
    requires Exact(p, h) && OneMore(h', h, id)
    ensures id in p.live && Exact(Put(p, id), h')
    ensures Put(p, id).live.Keys == if h'(id) == 0 then p.live.Keys - {id} else p.live.Keys
  {
    assert h(id) == h'(id) + 1;
    var p' := Put(p, id);
    forall x: nat
      ensures x in p'.live ==> x < p'.next && p'.live[x] == h'(x) && h'(x) > 0
      ensures x !in p'.live ==> h'(x) == 0
      ensures x in p'.freed <==> x < p'.next && x !in p'.live
    {
      assert h(x) == h'(x) + (if x == id then 1 else 0);
      assert x in p.freed <==> x < p.next && x !in p.live;
    }
  }

  // ------------------------------------------------------------ counting holders

  function Occ(s: seq<nat>, x: nat): nat {
    if s == [] then 0 else Occ(s[..|s| - 1], x) + (if s[|s| - 1] == x then 1 else 0)
  }

  lemma {:induction false} OccConcat(a: seq<nat>, b: seq<nat>, x: nat)
    ensures Occ(a + b, x) == Occ(a, x) + Occ(b, x)
  {
    if b == [] {
      assert a + b == a;
    } else {
      var last := |b| - 1;
      assert (a + b)[..|a + b| - 1] == a + b[..last];
      OccConcat(a, b[..last], x);
    }
  }

  lemma {:induction false} OccIn(s: seq<nat>, x: nat)
    ensures Occ(s, x) > 0 <==> x in s
  {
    if s != [] {
      OccIn(s[..|s| - 1], x);
      assert s == s[..|s| - 1] + [s[|s| - 1]];
    }
  }

  lemma {:induction false} GetAllExact(p: Pool, h: nat -> nat, h': nat -> nat, ids: seq<nat>)
    requires Exact(p, h) && (forall i :: 0 <= i < |ids| ==> h(ids[i]) > 0)
    requires forall x: nat :: h'(x) == h(x) + Occ(ids, x)
    ensures Exact(GetAll(p, ids), h')
  {
    if ids != [] {
      var init, last := ids[..|ids| - 1], ids[|ids| - 1];
      var mid := (x: nat) => h(x) + Occ(init, x);
      GetAllExact(p, h, mid, init);
      assert OneMore(mid, h', last);
      assert h(last) > 0;
      GetExact(GetAll(p, init), mid, h', last);
    }
  }

  lemma {:induction false} OccFront(s: seq<nat>, x: nat)
    requires s != []
    ensures Occ(s, x) == (if s[0] == x then 1 else 0) + Occ(s[1..], x)
  {
    if |s| > 1 {
      OccFront(s[..|s| - 1], x);
      assert s[..|s| - 1][1..] == s[1..][..|s| - 2];
    }
  }

  lemma {:induction false} PutAllExact(p: Pool, h: nat -> nat, h': nat -> nat, ids: seq<nat>)
    requires Exact(p, h)
    requires forall x: nat :: h(x) == h'(x) + Occ(ids, x)
    ensures Exact(PutAll(p, ids), h')
    decreases |ids|
  {
    if ids == [] {
      assert forall x: nat :: h(x) == h'(x) + Occ(ids, x) == h'(x);
    } else {
      var mid := (x: nat) => h'(x) + Occ(ids[1..], x);
      forall x: nat
        ensures h(x) == mid(x) + (if x == ids[0] then 1 else 0)
      {
        OccFront(ids, x);
      }
      PutExact(p, h, mid, ids[0]);
      PutAllExact(Put(p, ids[0]), mid, h', ids[1..]);
    }
  }

  /** Rolling back references just taken restores the pool exactly. */
  lemma {:induction false} RollBackRestores(p: Pool, h: nat -> nat, ids: seq<nat>)
    requires Exact(p, h) && forall i :: 0 <= i < |ids| ==> h(ids[i]) > 0
    ensures PutAllBackwards(GetAll(p, ids), ids) == p
  {
    if ids != [] {
      var init, last := ids[..|ids| - 1], ids[|ids| - 1];
      RollBackRestores(p, h, init);
      GetAllKeeps(p, init, last);
      assert h(last) > 0;
      var q := GetAll(p, init);
      assert Put(Get(q, last), last).live == q.live;
    }
  }

  lemma {:induction false} GetAllKeeps(p: Pool, ids: seq<nat>, x: nat)
    requires x in p.live && p.live[x] > 0
    ensures x in GetAll(p, ids).live && GetAll(p, ids).live[x] > 0
  {
    if ids != [] {
      GetAllKeeps(p, ids[..|ids| - 1], x);
    }
  }
}
