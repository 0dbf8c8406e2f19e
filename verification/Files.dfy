/**
  The file calls the userspace transfer fallback is built on: positioned reads and writes, growing a
  file, and descriptors that share a file.  A call may fail, and a read or write may be short, in any
  pattern: the `choose` oracle decides each call.
 */
module Files {

  import opened Common

  const MAX_FILE: nat := TWO63 - 1

  /** An unsigned 64-bit sum cast to a signed file offset. */
  function Off(x: nat): int {
    var u := x % TWO64;
    if u < TWO63 then u else u - TWO64
  }

  function Min(a: int, b: int): int { if a < b then a else b }

  function Max(a: int, b: int): int { if a < b then b else a }

  function Grown(f: Bytes, n: nat): (r: Bytes)
    ensures |r| == Max(|f|, n)
  {
    seq(Max(|f|, n), i requires 0 <= i < Max(|f|, n) => if i < |f| then f[i] else 0)
  }

  /** f with d written at `off`; a gap before `off` reads as zeros. */
  function Splice(f: Bytes, off: nat, d: Bytes): (r: Bytes)
    ensures |r| == if d == [] then |f| else Max(|f|, off + |d|)
  {
    if d == [] then f
    else
      seq(Max(|f|, off + |d|), i requires 0 <= i < Max(|f|, off + |d|) =>
        if off <= i < off + |d| then d[i - off] else if i < |f| then f[i] else 0)
  }

  lemma SpliceAt(f: Bytes, off: nat, d: Bytes, i: nat)
    requires i < |Splice(f, off, d)|
    ensures Splice(f, off, d)[i] == if off <= i < off + |d| then d[i - off] else if i < |f| then f[i] else 0
  {}

  /** Writing two adjacent pieces is writing their concatenation. */
  lemma SpliceTwice(f: Bytes, off: nat, d: Bytes, e: Bytes)
    ensures Splice(Splice(f, off, d), off + |d|, e) == Splice(f, off, d + e)
  {
    hide Splice;
    var one := Splice(f, off, d);
    var two, both := Splice(one, off + |d|, e), Splice(f, off, d + e);
    forall i | 0 <= i < |two| ensures two[i] == both[i] {
      SpliceAt(one, off + |d|, e, i);
      SpliceAt(f, off, d + e, i);
      if i < |one| {
        SpliceAt(f, off, d, i);
      }
    }
  }

  /** Bytes written are the bytes read back from the same place. */
  lemma SpliceReads(f: Bytes, off: nat, d: Bytes)
    requires d != []
    ensures Splice(f, off, d)[off..off + |d|] == d
  {}

  class FileSystem {
    const choose: nat -> int
    var calls: nat
    var files: map<nat, Bytes>
    var fds: map<nat, nat>

    ghost predicate Valid()
      reads this
    {
      && (forall fd <- fds :: fds[fd] in files)
      && (forall ino <- files :: |files[ino]| <= MAX_FILE)
    }

    constructor (choose: nat -> int)
      ensures Valid() && files == map[] && fds == map[]
    {
      this.choose, calls, files, fds := choose, 0, map[], map[];
    }

    ghost function Contents(fd: int): Bytes
      requires Valid() && fd in fds
      reads this
    {
      files[fds[fd]]
    }

    /** Every call from number `first` on is answered in full. */
    ghost predicate AnswersInFull(first: nat) {
      forall i :: first <= i ==> choose(i) >= MAX_FILE
    }

    /** The oracle's answer, cut to what the call can return. */
    method Pick(limit: nat) returns (n: int)
      modifies this`calls
      ensures -1 <= n <= limit && calls == old(calls) + 1
      ensures AnswersInFull(old(calls)) && limit <= MAX_FILE ==> n == limit
    {
      n := Max(-1, Min(choose(calls), limit));
      calls := calls + 1;
    }

    method PRead(fd: int, n: nat, off: int) returns (r: int, data: Bytes)
      requires Valid()
      modifies this`calls
      ensures -1 <= r <= n
      ensures r > 0 ==> fd in fds && 0 <= off && off + r <= |Contents(fd)| && data == Contents(fd)[off..off + r]
      ensures old(calls) <= calls
      ensures AnswersInFull(old(calls)) && fd in fds && 0 <= off && off + n <= |Contents(fd)| ==> r == n
    {
      data := [];
      if fd !in fds || off < 0 {
        return -1, [];
      }
      var f := files[fds[fd]];
      r := Pick(Max(0, Min(n, |f| - off)));
      if r > 0 {
        data := f[off..off + r];
      }
    }

    method PWrite(fd: int, data: Bytes, off: int) returns (w: int)
      requires Valid()
      modifies this`calls, this`files
      ensures Valid() && -1 <= w <= |data|
      ensures w > 0 ==> fd in fds && 0 <= off && off + w <= MAX_FILE
                        && files == old(files)[fds[fd] := Splice(old(Contents(fd)), off, data[..w])]
      ensures w <= 0 ==> files == old(files)
      ensures old(calls) <= calls
      ensures AnswersInFull(old(calls)) && fd in fds && 0 <= off && off + |data| <= MAX_FILE ==> w == |data|
    {
      if fd !in fds || off < 0 {
        return -1;
      }
      w := Pick(Max(0, Min(|data|, MAX_FILE - off)));
      if w > 0 {
        files := files[fds[fd] := Splice(files[fds[fd]], off, data[..w])];
      }
    }

    method Size(fd: int) returns (err: int, size: nat)
      requires Valid()
      modifies this`calls
      ensures err == 0 || err == -1
      ensures err == 0 ==> fd in fds && size == |Contents(fd)|
      ensures old(calls) <= calls && (AnswersInFull(old(calls)) && fd in fds ==> err == 0)
    {
      err := Pick(0);
      size := 0;
      if fd !in fds {
        err := -1;
      } else if err == 0 {
        size := |files[fds[fd]]|;
      }
    }

    /** Set the size of a file to a larger one. */
    method Grow(fd: int, size: nat) returns (err: int)
      requires Valid() && fd in fds && |Contents(fd)| <= size <= MAX_FILE
      modifies this`calls, this`files
      ensures Valid() && (err == 0 || err == -1)
      ensures err == 0 ==> files == old(files)[fds[fd] := Grown(old(Contents(fd)), size)]
      ensures err != 0 ==> files == old(files)
      ensures old(calls) <= calls && (AnswersInFull(old(calls)) ==> err == 0)
    {
      err := Pick(0);
      if err == 0 {
        files := files[fds[fd] := Grown(files[fds[fd]], size)];
      }
    }

    /** A new empty file with its first descriptor, or -1. */
    method Create() returns (fd: int)
      requires Valid()
      modifies this
      ensures Valid() && (fd == -1 || (fd >= 0 && fd !in old(fds)))
      ensures fd == -1 ==> fds == old(fds) && files == old(files)
      ensures fd >= 0 ==> fd in fds && fds[fd] !in old(files) && fds == old(fds)[fd := fds[fd]]
                          && files == old(files)[fds[fd] := []]
      ensures old(calls) <= calls && (AnswersInFull(old(calls)) ==> fd >= 0)
    {
      fd := Pick(0);
      if fd == 0 {
        fd := Unused(fds.Keys);
        var ino := Unused(files.Keys);
        fds, files := fds[fd := ino], files[ino := []];
      }
    }

    /** Another descriptor of the same file, or -1. */
    method Dup(fd: int) returns (copy: int)
      requires Valid()
      modifies this`calls, this`fds
      ensures Valid() && (copy == -1 || (fd in old(fds) && copy >= 0 && copy !in old(fds)))
      ensures fds == if copy == -1 then old(fds) else old(fds)[copy := old(fds)[fd]]
      ensures old(calls) <= calls && (AnswersInFull(old(calls)) && fd in old(fds) ==> copy >= 0)
    {
      copy := Pick(0);
      if fd !in fds {
        copy := -1;
      } else if copy == 0 {
        copy := Unused(fds.Keys);
        fds := fds[copy := fds[fd]];
      }
    }

    method Close(fd: int)
      requires Valid()
      modifies this`fds
      ensures Valid() && fds == map g <- old(fds) | g != fd :: old(fds)[g]
    {
      fds := map g <- fds | g != fd :: fds[g];
    }
  }

  /** The smallest number above every member of s. */
  method Unused(s: set<nat>) returns (n: nat)
    ensures n !in s
  {
    n := 0;
    var left := s;
    while left != {}
      invariant left <= s && forall m <- s :: m in left || m < n
      decreases |left|
    {
      var m :| m in left;
      if n <= m {
        n := m + 1;
      }
      left := left - {m};
    }
  }
}
