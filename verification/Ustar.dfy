/**
  The tar reader of `Vrtbin::extract` (vrt/src/vrtbin.cpp) as a function of the byte stream: the
  header layout, checksum, block padding and name/prefix rule of the ustar Interchange Format (pax
  utility, IEEE Std 1003.1-2017), and GNU type 'L' long names.

  Path clean-up and the file system are parameters: `sanitize` says what `sanitizeArchivePath` makes
  of an entry name, `refuses` whether a directory or file cannot be created, `writeFails` whether the
  chunk at some offset of a file cannot be written, and `sealFails` whether the file cannot be flushed,
  closed and given its permissions.
 */
module Ustar {
  import opened Common

  const BLOCK: nat := 512
  const COPY_CHUNK: nat := 0x1_0000

  const NUL: Byte := 0
  const SPACE: Byte := 32
  const ZERO: Byte := 48
  const SEVEN: Byte := 55
  const SLASH: Byte := 47
  const LONG_NAME: Byte := 76
  const DIR_TYPE: Byte := 53
  const REG_TYPE: Byte := 48

  // ---------------------------------------------------------------------------------------------
  // Fields
  // ---------------------------------------------------------------------------------------------

  predicate IsBlank(c: Byte) { c == NUL || c == SPACE }

  predicate IsOctal(c: Byte) { ZERO <= c <= SEVEN }

  /** The value `parseOctal` ends with, from index i on. */
  function OctalFrom(field: Bytes, i: nat, seen: bool, value: nat): nat
    requires i <= |field|
    decreases |field| - i
  {
    if i == |field| then value
    else if IsBlank(field[i]) then
      if seen then value else OctalFrom(field, i + 1, false, value)
    else if !IsOctal(field[i]) then value
    else OctalFrom(field, i + 1, true, (value * 8 + (field[i] - ZERO)) % TWO64)
  }

  function Octal(field: Bytes): nat { OctalFrom(field, 0, false, 0) }

  /** A field up to its first NUL. */
  function UpToNul(field: Bytes): Bytes {
    if |field| == 0 || field[0] == NUL then [] else [field[0]] + UpToNul(field[1..])
  }

  predicate IsZeroBlock(block: Bytes) { forall i | 0 <= i < |block| :: block[i] == NUL }

  /** Sum of the first n bytes of a header, the checksum field counted as spaces. */
  function SumTo(raw: Bytes, n: nat): nat
    requires n <= |raw|
  {
    if n == 0 then 0
    else SumTo(raw, n - 1) + if 148 <= n - 1 < 156 then SPACE else raw[n - 1]
  }

  predicate ValidChecksum(raw: Bytes)
    requires |raw| == BLOCK
  {
    Octal(raw[148..156]) == SumTo(raw, BLOCK)
  }

  function SizeOf(h: Bytes): nat
    requires |h| == BLOCK
  {
    Octal(h[124..136])
  }

  /** The permission bits taken from the mode field. */
  function PermsOf(h: Bytes): nat
    requires |h| == BLOCK
  {
    Octal(h[100..108]) % 4096
  }

  function NameOf(h: Bytes): Bytes
    requires |h| == BLOCK
  {
    var name, prefix := UpToNul(h[..100]), UpToNul(h[345..500]);
    if prefix == [] then name else prefix + [SLASH] + name
  }

  predicate IsRegular(t: Byte) { t == REG_TYPE || t == NUL }

  function Padding(size: nat): nat { (BLOCK - size % BLOCK) % BLOCK }

  function RoundUp(size: nat): nat { size + Padding(size) }

  // ---------------------------------------------------------------------------------------------
  // One pass of the extraction loop
  // ---------------------------------------------------------------------------------------------

  datatype Verdict = Keep(path: Bytes) | Skip | Reject

  datatype Env = Env(
    sanitize: Bytes -> Verdict, refuses: (Bytes, bool) -> bool, writeFails: (Bytes, nat) -> bool,
    sealFails: Bytes -> bool)

  datatype Entry = Directory(path: Bytes) | File(path: Bytes, perms: nat, payload: Bytes)

  datatype Fault =
    | TruncatedHeader | BadChecksum | TruncatedLongName | BadPath | Refused
    | ShortPayload | WriteFailed | SealFailed | ShortSkip

  /** What a pass over `rest` does: entries made, and how it ends. */
  datatype Pass =
    | Stop
    | Throw(fault: Fault, thrown: seq<Entry>)
    | Next(consumed: nat, pending: Bytes, made: seq<Entry>)

  /** The end of a pass: skip what is left of the payload, then the padding. */
  function Finish(rest: Bytes, at: nat, left: nat, size: nat, pending: Bytes, made: seq<Entry>): Pass
    requires at <= |rest|
  {
    if |rest| < at + left then Throw(ShortSkip, made)
    else if |rest| < at + left + Padding(size) then Throw(ShortSkip, made)
    else Next(at + left + Padding(size), pending, made)
  }

  function LongNamePass(rest: Bytes, size: nat): Pass
    requires BLOCK <= |rest|
  {
    if |rest| < BLOCK + size then Throw(TruncatedLongName, [])
    else Finish(rest, BLOCK + size, 0, size, UpToNul(rest[BLOCK..BLOCK + size]), [])
  }

  /** What stops the copy of a payload of which `avail` bytes are left in the archive, chunk by chunk. */
  function CopyFault(env: Env, path: Bytes, avail: nat, size: nat, done: nat): Option<Fault>
    requires done <= size
    decreases size - done
  {
    if done == size then None
    else
      var chunk := if size - done < COPY_CHUNK then size - done else COPY_CHUNK;
      if avail < done + chunk then Some(ShortPayload)
      else if env.writeFails(path, done) then Some(WriteFailed)
      else CopyFault(env, path, avail, size, done + chunk)
  }

  lemma {:induction false} CopiedMeansAvailable(env: Env, path: Bytes, avail: nat, size: nat, done: nat)
    requires done <= size && done <= avail && CopyFault(env, path, avail, size, done) == None
    ensures size <= avail
    decreases size - done
  {
    if done < size {
      var chunk := if size - done < COPY_CHUNK then size - done else COPY_CHUNK;
      CopiedMeansAvailable(env, path, avail, size, done + chunk);
    }
  }

  function FilePass(env: Env, rest: Bytes, h: Bytes, size: nat, path: Bytes): Pass
    requires BLOCK <= |rest| && |h| == BLOCK
  {
    match CopyFault(env, path, |rest| - BLOCK, size, 0)
    case Some(fault) => Throw(fault, [])
    case None =>
      if env.sealFails(path) then Throw(SealFailed, [])
      else
        CopiedMeansAvailable(env, path, |rest| - BLOCK, size, 0);
        Finish(rest, BLOCK + size, 0, size, [], [File(path, PermsOf(h), rest[BLOCK..BLOCK + size])])
  }

  function KeptPass(env: Env, rest: Bytes, h: Bytes, size: nat, path: Bytes): Pass
    requires BLOCK <= |rest| && |h| == BLOCK
  {
    if h[156] == DIR_TYPE then
      if env.refuses(path, true) then Throw(Refused, [])
      else Finish(rest, BLOCK, size, size, [], [Directory(path)])
    else if IsRegular(h[156]) then
      if env.refuses(path, false) then Throw(Refused, []) else FilePass(env, rest, h, size, path)
    else Finish(rest, BLOCK, size, size, [], [])
  }

  function EntryPass(env: Env, rest: Bytes, h: Bytes, size: nat, name: Bytes): Pass
    requires BLOCK <= |rest| && |h| == BLOCK
  {
    match env.sanitize(name)
    case Reject => Throw(BadPath, [])
    case Skip => Finish(rest, BLOCK, size, size, [], [])
    case Keep(path) => KeptPass(env, rest, h, size, path)
  }

  function OnePass(env: Env, rest: Bytes, pending: Bytes): Pass {
    if |rest| == 0 then Stop
    else if |rest| < BLOCK then Throw(TruncatedHeader, [])
    else
      var h := rest[..BLOCK];
      if IsZeroBlock(h) then Stop
      else if !ValidChecksum(h) then Throw(BadChecksum, [])
      else if h[156] == LONG_NAME then LongNamePass(rest, SizeOf(h))
      else EntryPass(env, rest, h, SizeOf(h), if pending != [] then pending else NameOf(h))
  }

  /**
    Whatever entry type it meets, a pass that does not throw consumes the header and the payload
    rounded up to whole blocks.
   */
  lemma PassConsumesBlocks(env: Env, rest: Bytes, pending: Bytes)
    requires OnePass(env, rest, pending).Next?
    ensures var n := OnePass(env, rest, pending).consumed;
            BLOCK <= n <= |rest| && n == BLOCK + RoundUp(SizeOf(rest[..BLOCK])) && n % BLOCK == 0
  {
    RoundUpIsBlocks(SizeOf(rest[..BLOCK]));
  }

  /** A pass ends the extraction only at the end of the archive or at a block of zeros. */
  lemma StopsOnlyAtEnd(env: Env, rest: Bytes, pending: Bytes)
    requires OnePass(env, rest, pending) == Stop
    ensures rest == [] || (BLOCK <= |rest| && IsZeroBlock(rest[..BLOCK]))
  {}

  lemma RoundUpIsBlocks(size: nat)
    ensures RoundUp(size) % BLOCK == 0 && size <= RoundUp(size) < size + BLOCK
  {}

  // ---------------------------------------------------------------------------------------------
  // The whole extraction
  // ---------------------------------------------------------------------------------------------

  datatype Outcome = Finished(made: seq<Entry>) | Failed(fault: Fault, made: seq<Entry>)

  function Prepend(made: seq<Entry>, o: Outcome): Outcome {
    match o
    case Finished(m) => Finished(made + m)
    case Failed(f, m) => Failed(f, made + m)
  }

  function Extract(env: Env, rest: Bytes, pending: Bytes): Outcome
    decreases |rest|
  {
    match OnePass(env, rest, pending)
    case Stop => Finished([])
    case Throw(fault, made) => Failed(fault, made)
    case Next(n, pending', made) =>
      PassConsumesBlocks(env, rest, pending);
      Prepend(made, Extract(env, rest[n..], pending'))
  }

  lemma PrependNothing(o: Outcome)
    ensures Prepend([], o) == o
  {}

  lemma PrependTwice(a: seq<Entry>, b: seq<Entry>, o: Outcome)
    ensures Prepend(a, Prepend(b, o)) == Prepend(a + b, o)
  {
    assert a + (b + o.made) == (a + b) + o.made;
  }

  /** The offsets at which extraction reads a header, `at` being the offset of `rest` in the archive. */
  function HeaderOffsets(env: Env, rest: Bytes, pending: Bytes, at: nat): seq<nat>
    decreases |rest|
  {
    match OnePass(env, rest, pending)
    case Next(n, pending', _) =>
      PassConsumesBlocks(env, rest, pending);
      [at] + HeaderOffsets(env, rest[n..], pending', at + n)
    case _ => [at]
  }

  /**
    On every byte string extraction ends after finitely many headers, each read at a block boundary
    inside the archive or at its end.
   */
  lemma {:induction false} HeadersAreAligned(env: Env, rest: Bytes, pending: Bytes, at: nat)
    requires at % BLOCK == 0
    ensures var offsets := HeaderOffsets(env, rest, pending, at);
            && (|offsets| - 1) * BLOCK <= |rest|
            && forall i | 0 <= i < |offsets| :: offsets[i] % BLOCK == 0 && at <= offsets[i] <= at + |rest|
    decreases |rest|
  {
    hide OnePass, SizeOf, RoundUp;
    if OnePass(env, rest, pending).Next? {
      var p := OnePass(env, rest, pending);
      PassConsumesBlocks(env, rest, pending);
      HeadersAreAligned(env, rest[p.consumed..], p.pending, at + p.consumed);
    }
  }

  // ---------------------------------------------------------------------------------------------
  // What is rejected and what is passed over
  // ---------------------------------------------------------------------------------------------

  /** The type flags of the format, as characters. */
  lemma TypeFlags()
    ensures [REG_TYPE as char, DIR_TYPE as char, LONG_NAME as char] == "05L"
    ensures [SLASH as char, SPACE as char, ZERO as char, SEVEN as char] == "/ 07"
  {}

  lemma {:induction false} SumAtLeast(raw: Bytes, n: nat)
    requires n <= |raw|
    ensures SumTo(raw, n) >= if n >= 156 then 8 * SPACE else if n > 148 then (n - 148) * SPACE else 0
  {
    if n > 0 {
      SumAtLeast(raw, n - 1);
    }
  }

  lemma {:induction false} BlankFieldIsZero(field: Bytes, i: nat)
    requires i <= |field| && forall j | i <= j < |field| :: field[j] == NUL
    ensures OctalFrom(field, i, false, 0) == 0
    decreases |field| - i
  {
    if i < |field| {
      BlankFieldIsZero(field, i + 1);
    }
  }

  /** A valid header stays distinct from the end marker whatever happens outside its checksum field. */
  lemma ChecksumFieldIsNotZero(h: Bytes)
    requires |h| == BLOCK && ValidChecksum(h)
    ensures exists i :: 148 <= i < 156 && h[i] != NUL
  {
    SumAtLeast(h, BLOCK);
    if forall i | 148 <= i < 156 :: h[i] == NUL {
      BlankFieldIsZero(h[148..156], 0);
    }
  }

  lemma {:induction false} OneByteChangesSum(h: Bytes, i: nat, c: Byte, n: nat)
    requires i < |h| && n <= |h| && !(148 <= i < 156)
    ensures SumTo(h[i := c], n) == SumTo(h, n) + if i < n then c - h[i] else 0
  {
    if n > 0 {
      OneByteChangesSum(h, i, c, n - 1);
    }
  }

  /** Any change of one byte of a valid header outside its checksum field is detected. */
  lemma ChangedHeaderIsRejected(env: Env, h: Bytes, rest: Bytes, pending: Bytes, i: nat, c: Byte)
    requires |h| == BLOCK && ValidChecksum(h) && i < BLOCK && !(148 <= i < 156) && c != h[i]
    ensures Extract(env, h[i := c] + rest, pending) == Failed(BadChecksum, [])
  {
    hide Octal, SumTo;
    var h' := h[i := c];
    ChecksumFieldIsNotZero(h);
    OneByteChangesSum(h, i, c, BLOCK);
    assert h'[148..156] == h[148..156];
    assert (h' + rest)[..BLOCK] == h';
    assert !ValidChecksum(h');
    var k :| 148 <= k < 156 && h[k] != NUL;
    assert h'[k] != NUL;
    assert OnePass(env, h' + rest, pending) == Throw(BadChecksum, []);
  }

  /** An entry that is no directory, no regular file and no long name makes nothing: its payload is
      passed over. */
  lemma OtherTypesMakeNothing(env: Env, rest: Bytes, pending: Bytes)
    requires BLOCK <= |rest|
    requires var t := rest[156]; t as char != '5' && t as char != '0' && t != 0 && t as char != 'L'
    ensures match OnePass(env, rest, pending)
            case Stop => true
            case Throw(_, made) => made == []
            case Next(_, pending', made) => made == [] && pending' == []
  {
    assert rest[..BLOCK][156] == rest[156];
  }
}
