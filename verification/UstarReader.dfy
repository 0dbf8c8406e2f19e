/**
  The extraction loop of `Vrtbin::extract` and its helpers (vrt/src/vrtbin.cpp) as they run: a cursor
  that moves over the archive in chunks, a pending long name, and the entries made so far.  Each is
  proved to compute the corresponding function of module Ustar.
 */
module UstarReader {
  import opened Common
  import opened Ustar

  const SKIP_CHUNK: nat := 0x10_0000

  method ParseOctal(field: Bytes) returns (value: nat)
    ensures value == Octal(field)
  {
    value := 0;
    var seenDigit := false;
    var i := 0;
    while i < |field|
      invariant i <= |field|
      invariant Octal(field) == OctalFrom(field, i, seenDigit, value)
    {
      var c := field[i];
      if c == NUL || c == SPACE {
        if seenDigit {
          break;
        }
      } else if c < ZERO || c > SEVEN {
        break;
      } else {
        seenDigit := true;
        value := (value * 8 + (c - ZERO)) % TWO64;
      }
      i := i + 1;
    }
  }

  lemma {:induction false} UpToNulIsPrefix(field: Bytes, n: nat)
    requires n <= |field| && (forall i | 0 <= i < n :: field[i] != NUL) && (n == |field| || field[n] == NUL)
    ensures UpToNul(field) == field[..n]
    decreases n
  {
    if n > 0 {
      UpToNulIsPrefix(field[1..], n - 1);
      assert field[..n] == [field[0]] + field[1..][..n - 1];
    }
  }

  method ReadField(field: Bytes) returns (s: Bytes)
    ensures s == UpToNul(field)
  {
    var n := 0;
    while n < |field| && field[n] != NUL
      invariant n <= |field|
      invariant forall i | 0 <= i < n :: field[i] != NUL
    {
      n := n + 1;
    }
    s := field[..n];
    UpToNulIsPrefix(field, n);
  }

  method HasOnlyZeros(block: Bytes) returns (zero: bool)
    ensures zero == IsZeroBlock(block)
  {
    for i := 0 to |block|
      invariant forall j | 0 <= j < i :: block[j] == NUL
    {
      if block[i] != NUL {
        return false;
      }
    }
    return true;
  }

  method HasValidChecksum(raw: Bytes) returns (valid: bool)
    requires |raw| == BLOCK
    ensures valid == ValidChecksum(raw)
  {
    var expected := ParseOctal(raw[148..156]);
    var actual := 0;
    for i := 0 to BLOCK
      invariant actual == SumTo(raw, i)
    {
      if 148 <= i < 156 {
        actual := actual + SPACE;
      } else {
        actual := actual + raw[i];
      }
    }
    valid := expected == actual;
  }

  class Extractor {
    const archive: Bytes
    const env: Env
    var cursor: nat
    var made: seq<Entry>

    ghost predicate Valid()
      reads this
    {
      cursor <= |archive|
    }

    constructor (archive: Bytes, env: Env)
      ensures Valid() && this.archive == archive && this.env == env && cursor == 0 && made == []
    {
      this.archive, this.env, cursor, made := archive, env, 0, [];
    }

    ghost function Rest(): Bytes
      requires Valid()
      reads this
    {
      archive[cursor..]
    }

    /** Read at most n bytes; a short result means the end of the archive was met. */
    method Read(n: nat) returns (got: Bytes)
      requires Valid()
      modifies this`cursor
      ensures Valid() && cursor == old(cursor) + |got|
      ensures got == old(Rest())[..|got|]
      ensures |got| == if |old(Rest())| < n then |old(Rest())| else n
    {
      var end := if |archive| - cursor < n then |archive| else cursor + n;
      got := archive[cursor..end];
      cursor := end;
    }

    /** Skip `size` bytes in chunks; false if the archive ends first. */
    method StreamSkip(size: nat) returns (ok: bool)
      requires Valid()
      modifies this`cursor
      ensures Valid()
      ensures ok == (size <= |old(Rest())|)
      ensures old(cursor) <= cursor && (ok ==> cursor == old(cursor) + size)
    {
      var left: nat := size;
      while left > 0
        invariant Valid() && left <= size && cursor == old(cursor) + size - left
      {
        var chunk := if left < SKIP_CHUNK then left else SKIP_CHUNK;
        var got := Read(chunk);
        if |got| != chunk {
          return false;
        }
        left := left - chunk;
      }
      ok := true;
    }

    /** Copy `size` bytes to the file at `path` in chunks, up to the first short read or failed write. */
    method StreamCopy(path: Bytes, size: nat) returns (fault: Option<Fault>, out: Bytes)
      requires Valid()
      modifies this`cursor
      ensures Valid() && old(cursor) <= cursor
      ensures fault == CopyFault(env, path, |old(Rest())|, size, 0)
      ensures fault == None ==> size <= |old(Rest())| && cursor == old(cursor) + size && out == old(Rest())[..size]
    {
      out := [];
      var left: nat := size;
      while left > 0
        invariant Valid() && left <= size && cursor == old(cursor) + size - left
        invariant out == archive[old(cursor)..cursor]
        invariant CopyFault(env, path, |old(Rest())|, size, 0) == CopyFault(env, path, |old(Rest())|, size, size - left)
      {
        var chunk := if left < COPY_CHUNK then left else COPY_CHUNK;
        var got := Read(chunk);
        if |got| != chunk {
          return Some(ShortPayload), out;
        }
        if env.writeFails(path, size - left) {
          return Some(WriteFailed), out;
        }
        out := out + got;
        left := left - chunk;
      }
      fault := None;
    }

    /** The end of a pass; `start` is where its header was read. */
    method FinishPass(ghost start: nat, left: nat, size: nat, ghost pending: Bytes, ghost was: seq<Entry>)
      returns (ok: bool)
      requires Valid() && start <= cursor && was <= made
      modifies this`cursor
      ensures Valid() && old(cursor) <= cursor
      ensures var p := Finish(archive[start..], old(cursor) - start, left, size, pending, made[|was|..]);
              if ok then p == Next(cursor - start, pending, made[|was|..]) else p == Throw(ShortSkip, made[|was|..])
    {
      ok := true;
      if left > 0 {
        ok := StreamSkip(left);
      }
      if ok {
        var padding := (BLOCK - size % BLOCK) % BLOCK;
        if padding > 0 {
          ok := StreamSkip(padding);
        }
      }
    }

    /** A type 'L' entry: the next entry's name is its payload up to the first NUL. */
    method LongNameEntry(ghost start: nat, size: nat) returns (fault: Option<Fault>, pending: Bytes)
      requires Valid() && start + BLOCK == cursor
      modifies this`cursor
      ensures Valid() && start <= cursor
      ensures LongNamePass(archive[start..], size) ==
              match fault
              case Some(f) => Throw(f, [])
              case None => Next(cursor - start, pending, [])
    {
      pending := [];
      var text := Read(size);
      if |text| != size {
        return Some(TruncatedLongName), [];
      }
      assert text == archive[start..][BLOCK..BLOCK + size];
      pending := ReadField(text);
      var ok := FinishPass(start, 0, size, pending, made);
      fault := if ok then None else Some(ShortSkip);
    }

    /** A regular file at a path that was kept. */
    method FileEntry(ghost start: nat, h: Bytes, size: nat, path: Bytes) returns (fault: Option<Fault>)
      requires Valid() && start + BLOCK == cursor && |h| == BLOCK
      modifies this`cursor, this`made
      ensures Valid() && start <= cursor && old(made) <= made
      ensures FilePass(env, archive[start..], h, size, path) ==
              match fault
              case Some(f) => Throw(f, made[|old(made)|..])
              case None => Next(cursor - start, [], made[|old(made)|..])
    {
      ghost var was := made;
      var payload;
      fault, payload := StreamCopy(path, size);
      if fault.Some? {
        return;
      }
      if env.sealFails(path) {
        return Some(SealFailed);
      }
      var mode := ParseOctal(h[100..108]);
      assert payload == archive[start..][BLOCK..BLOCK + size];
      made := made + [File(path, mode % 4096, payload)];
      var ok := FinishPass(start, 0, size, [], was);
      fault := if ok then None else Some(ShortSkip);
    }

    /** A directory, a regular file, or a type that is skipped, at a path that was kept. */
    method KeptEntry(ghost start: nat, h: Bytes, size: nat, path: Bytes) returns (fault: Option<Fault>)
      requires Valid() && start + BLOCK == cursor && |h| == BLOCK
      modifies this`cursor, this`made
      ensures Valid() && start <= cursor && old(made) <= made
      ensures KeptPass(env, archive[start..], h, size, path) ==
              match fault
              case Some(f) => Throw(f, made[|old(made)|..])
              case None => Next(cursor - start, [], made[|old(made)|..])
    {
      hide FilePass;
      ghost var was := made;
      if h[156] == DIR_TYPE {
        if env.refuses(path, true) {
          return Some(Refused);
        }
        made := made + [Directory(path)];
      } else if IsRegular(h[156]) {
        if env.refuses(path, false) {
          return Some(Refused);
        }
        fault := FileEntry(start, h, size, path);
        return;
      }
      var ok := FinishPass(start, size, size, [], was);
      fault := if ok then None else Some(ShortSkip);
    }

    method NormalEntry(ghost start: nat, h: Bytes, size: nat, name: Bytes) returns (fault: Option<Fault>)
      requires Valid() && start + BLOCK == cursor && |h| == BLOCK
      modifies this`cursor, this`made
      ensures Valid() && start <= cursor && old(made) <= made
      ensures EntryPass(env, archive[start..], h, size, name) ==
              match fault
              case Some(f) => Throw(f, made[|old(made)|..])
              case None => Next(cursor - start, [], made[|old(made)|..])
    {
      hide KeptPass;
      match env.sanitize(name)
      case Reject =>
        fault := Some(BadPath);
      case Skip =>
        var ok := FinishPass(start, size, size, [], made);
        fault := if ok then None else Some(ShortSkip);
      case Keep(path) =>
        fault := KeptEntry(start, h, size, path);
    }

    method EntryName(h: Bytes, pending: Bytes) returns (name: Bytes)
      requires |h| == BLOCK
      ensures name == if pending != [] then pending else NameOf(h)
    {
      if pending != [] {
        return pending;
      }
      name := ReadField(h[..100]);
      var prefix := ReadField(h[345..500]);
      if prefix != [] {
        name := prefix + [SLASH] + name;
      }
    }

    /** One turn of the loop: `fault` and `stop` say how it ended. */
    method Turn(pending: Bytes) returns (stop: bool, fault: Option<Fault>, pending': Bytes)
      requires Valid()
      modifies this`cursor, this`made
      ensures Valid() && old(cursor) <= cursor && old(made) <= made
      ensures OnePass(env, old(Rest()), pending) ==
              if stop then Stop
              else match fault
                   case Some(f) => Throw(f, made[|old(made)|..])
                   case None => Next(cursor - old(cursor), pending', made[|old(made)|..])
      ensures stop ==> made == old(made)
    {
      hide LongNamePass, EntryPass, IsZeroBlock, ValidChecksum, NameOf;
      ghost var start := cursor;
      stop, fault, pending' := false, None, [];
      var raw := Read(BLOCK);
      if |raw| == 0 {
        return true, None, [];
      }
      if |raw| != BLOCK {
        return false, Some(TruncatedHeader), [];
      }
      assert raw == archive[start..][..BLOCK];
      var zero := HasOnlyZeros(raw);
      if zero {
        return true, None, [];
      }
      var valid := HasValidChecksum(raw);
      if !valid {
        return false, Some(BadChecksum), [];
      }
      var size := ParseOctal(raw[124..136]);
      var name := EntryName(raw, pending);
      if raw[156] == LONG_NAME {
        fault, pending' := LongNameEntry(start, size);
      } else {
        fault := NormalEntry(start, raw, size, name);
      }
    }

    /** The extraction loop, on any byte string. */
    method Run() returns (fault: Option<Fault>)
      requires Valid() && cursor == 0 && made == []
      modifies this
      ensures Valid()
      ensures Extract(env, archive, []) ==
              match fault
              case Some(f) => Failed(f, made)
              case None => Finished(made)
    {
      hide OnePass;
      var pending: Bytes := [];
      assert archive[cursor..] == archive;
      PrependNothing(Extract(env, archive, []));
      while true
        invariant Valid() && cursor % BLOCK == 0
        invariant Extract(env, archive, []) == Prepend(made, Extract(env, Rest(), pending))
        decreases |archive| - cursor
      {
        ghost var rest, was, from := Rest(), made, cursor;
        var stop, thrown, pending' := Turn(pending);
        if stop {
          return None;
        }
        if thrown.Some? {
          return thrown;
        }
        PassConsumesBlocks(env, rest, pending);
        assert rest[cursor - from..] == Rest();
        PrependTwice(was, made[|was|..], Extract(env, Rest(), pending'));
        assert was + made[|was|..] == made;
        pending := pending';
      }
    }
  }

}
