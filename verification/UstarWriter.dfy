/**
  An archive writer for the ustar Interchange Format (pax utility, IEEE Std 1003.1-2017) with GNU
  type 'L' long names, and the proof that the reader of vrt/src/vrtbin.cpp gives back what was
  written.  Every header field the reader ignores (owner, times, links, device numbers, magic) is an
  arbitrary byte string.
 */
module UstarWriter {
  import opened Common
  import opened Ustar

  // ---------------------------------------------------------------------------------------------
  // Octal fields
  // ---------------------------------------------------------------------------------------------

  function Pow8(n: nat): (p: nat)
    ensures p > 0
  {
    if n == 0 then 1 else 8 * Pow8(n - 1)
  }

  function Digits(v: nat, n: nat): (d: Bytes)
    ensures |d| == n && forall i | 0 <= i < n :: IsOctal(d[i])
  {
    if n == 0 then [] else Digits(v / 8, n - 1) + [ZERO + v % 8]
  }

  /** The value after n more digits that read as v. */
  function Appended(value: nat, v: nat, n: nat): nat { value * Pow8(n) + v }

  lemma AppendedStep(value: nat, v: nat, n: nat)
    requires 0 < n && v < Pow8(n)
    ensures v / 8 < Pow8(n - 1)
    ensures Appended(value, v, n) == Appended(value, v / 8, n - 1) * 8 + v % 8
  {
    var p := Pow8(n - 1);
    assert value * (8 * p) == (value * p) * 8;
  }

  lemma OneDigit(field: Bytes, i: nat, seen: bool, value: nat, d: nat)
    requires i < |field| && d < 8 && field[i] == ZERO + d && value * 8 + d < TWO64
    ensures OctalFrom(field, i, seen, value) == OctalFrom(field, i + 1, true, value * 8 + d)
  {}

  lemma LastDigit(v: nat, n: nat)
    requires 0 < n
    ensures Digits(v, n)[..n - 1] == Digits(v / 8, n - 1) && Digits(v, n)[n - 1] == ZERO + v % 8
  {}

  /** Reading n printed digits appends them to the value read so far. */
  lemma {:induction false} DigitsRead(field: Bytes, i: nat, seen: bool, value: nat, v: nat, n: nat)
    requires i + n <= |field| && field[i..i + n] == Digits(v, n)
    requires v < Pow8(n) && Appended(value, v, n) < TWO64
    ensures OctalFrom(field, i, seen, value) == OctalFrom(field, i + n, seen || n > 0, Appended(value, v, n))
    decreases n
  {
    hide Appended, OctalFrom, Digits;
    if n == 0 {
      NothingAppended(value, v);
    } else {
      LastDigit(v, n);
      AppendedStep(value, v, n);
      assert field[i..i + n - 1] == field[i..i + n][..n - 1];
      DigitsRead(field, i, seen, value, v / 8, n - 1);
      assert field[i + n - 1] == field[i..i + n][n - 1];
      OneDigit(field, i + n - 1, seen || n > 1, Appended(value, v / 8, n - 1), v % 8);
    }
  }

  lemma NothingAppended(value: nat, v: nat)
    requires v < Pow8(0)
    ensures Appended(value, v, 0) == value
  {}

  lemma {:induction false} BlanksSkipped(field: Bytes, i: nat, n: nat)
    requires i + n <= |field| && forall k | i <= k < i + n :: IsBlank(field[k])
    ensures OctalFrom(field, i, false, 0) == OctalFrom(field, i + n, false, 0)
    decreases n
  {
    if n > 0 {
      BlanksSkipped(field, i + 1, n - 1);
    }
  }

  /** Any blank-led run of digits that ends at the field's end or before a non-digit reads as printed. */
  lemma OctalRoundTrip(lead: Bytes, v: nat, n: nat, rest: Bytes)
    requires forall k | 0 <= k < |lead| :: IsBlank(lead[k])
    requires 0 < n && v < Pow8(n) && v < TWO64
    requires rest == [] || !IsOctal(rest[0])
    ensures Octal(lead + Digits(v, n) + rest) == v
  {
    var field := lead + Digits(v, n) + rest;
    BlanksSkipped(field, 0, |lead|);
    assert field[|lead|..|lead| + n] == Digits(v, n);
    DigitsRead(field, |lead|, false, 0, v, n);
    assert field[|lead| + n..] == rest;
    assert rest != [] ==> field[|lead| + n] == rest[0];
  }

  lemma TerminatedOctal(v: nat, n: nat, rest: Bytes)
    requires 0 < n && v < Pow8(n) && v < TWO64 && (rest == [] || !IsOctal(rest[0]))
    ensures Octal(Digits(v, n) + rest) == v
  {
    OctalRoundTrip([], v, n, rest);
    assert [] + Digits(v, n) + rest == Digits(v, n) + rest;
  }

  // ---------------------------------------------------------------------------------------------
  // Name fields
  // ---------------------------------------------------------------------------------------------

  function Nuls(n: nat): (s: Bytes)
    ensures |s| == n && IsZeroBlock(s)
  {
    seq(n, _ => NUL)
  }

  predicate HasNoNul(s: Bytes) { forall i | 0 <= i < |s| :: s[i] != NUL }

  lemma {:induction false} UpToNulReads(s: Bytes, rest: Bytes)
    requires HasNoNul(s) && (rest == [] || rest[0] == NUL)
    ensures UpToNul(s + rest) == s
    decreases |s|
  {
    if s == [] {
      assert s + rest == rest;
    } else {
      UpToNulReads(s[1..], rest);
      assert (s + rest)[1..] == s[1..] + rest;
    }
  }

  function Padded(s: Bytes, n: nat): (r: Bytes)
    requires |s| <= n
    ensures |r| == n
  {
    s + Nuls(n - |s|)
  }

  // ---------------------------------------------------------------------------------------------
  // Headers
  // ---------------------------------------------------------------------------------------------

  const SPACES: Bytes := [SPACE, SPACE, SPACE, SPACE, SPACE, SPACE, SPACE, SPACE]

  /** The fields the reader ignores. */
  datatype Meta = Meta(owner: Bytes, mtime: Bytes, middle: Bytes, pad: Bytes) {
    predicate Valid() { |owner| == 16 && |mtime| == 12 && |middle| == 188 && |pad| == 12 }
  }

  datatype Header = Header(name: Bytes, prefix: Bytes, mode: nat, size: nat, typeflag: Byte, meta: Meta) {
    predicate Valid() {
      && |name| <= 100 && HasNoNul(name) && |prefix| <= 155 && HasNoNul(prefix)
      && mode < Pow8(7) && size < Pow8(11) && meta.Valid()
    }

    function Front(): (r: Bytes)
      requires Valid()
      ensures |r| == 148
    {
      Padded(name, 100) + (Digits(mode, 7) + [NUL]) + meta.owner + (Digits(size, 11) + [NUL]) + meta.mtime
    }

    function Back(): (r: Bytes)
      requires Valid()
      ensures |r| == 356
    {
      [typeflag] + meta.middle + Padded(prefix, 155) + meta.pad
    }

    function WithChecksum(field: Bytes): (r: Bytes)
      requires Valid() && |field| == 8
      ensures |r| == BLOCK
    {
      Front() + field + Back()
    }

    /** The header block, with the checksum taken over the block that has spaces in its place. */
    function Print(): (r: Bytes)
      requires Valid()
      ensures |r| == BLOCK
    {
      var blank := WithChecksum(SPACES);
      WithChecksum(Digits(SumTo(blank, BLOCK), 6) + [NUL, SPACE])
    }
  }

  lemma {:induction false} SumIgnoresChecksumField(a: Bytes, b: Bytes, n: nat)
    requires n <= |a| == |b|
    requires forall i | 0 <= i < n :: 148 <= i < 156 || a[i] == b[i]
    ensures SumTo(a, n) == SumTo(b, n)
  {
    if n > 0 {
      SumIgnoresChecksumField(a, b, n - 1);
    }
  }

  lemma {:induction false} SumIsSmall(a: Bytes, n: nat)
    requires n <= |a|
    ensures SumTo(a, n) <= 255 * n
  {
    if n > 0 {
      SumIsSmall(a, n - 1);
    }
  }

  lemma Pow8Values()
    ensures Pow8(6) == 262144 && Pow8(7) == 2097152 && Pow8(11) == 8589934592
  {
    assert Pow8(3) == 512;
    assert Pow8(6) == 512 * Pow8(3);
    assert Pow8(9) == 512 * Pow8(6);
  }

  /** Where each field of a block of the given shape lies. */
  lemma FrontSlices(a: Bytes, b: Bytes, c: Bytes, d: Bytes, e: Bytes, rest: Bytes)
    requires |a| == 100 && |b| == 8 && |c| == 16 && |d| == 12 && |e| == 12
    ensures var h := (a + b + c + d + e) + rest;
            h[..100] == a && h[100..108] == b && h[124..136] == d
  {}

  lemma BackSlices(front: Bytes, field: Bytes, t: Byte, m: Bytes, p: Bytes, z: Bytes)
    requires |front| == 148 && |field| == 8 && |m| == 188 && |p| == 155 && |z| == 12
    ensures var h := front + field + ([t] + m + p + z);
            h[148..156] == field && h[156] == t && h[345..500] == p
  {}

  lemma PrintedSlices(h: Header, field: Bytes)
    requires h.Valid() && |field| == 8
    ensures var b := h.WithChecksum(field);
            && b[..100] == Padded(h.name, 100) && b[100..108] == Digits(h.mode, 7) + [NUL]
            && b[124..136] == Digits(h.size, 11) + [NUL] && b[148..156] == field
            && b[156] == h.typeflag && b[345..500] == Padded(h.prefix, 155)
  {
    hide Padded, Digits;
    var m := h.meta;
    FrontSlices(Padded(h.name, 100), Digits(h.mode, 7) + [NUL], m.owner, Digits(h.size, 11) + [NUL], m.mtime,
                field + h.Back());
    assert h.WithChecksum(field) == h.Front() + (field + h.Back());
    BackSlices(h.Front(), field, h.typeflag, m.middle, Padded(h.prefix, 155), m.pad);
  }

  lemma PrintedChecksum(h: Header)
    requires h.Valid()
    ensures ValidChecksum(h.Print())
  {
    hide Digits, h.Front, h.Back, Octal;
    var blank := h.WithChecksum(SPACES);
    var sum := SumTo(blank, BLOCK);
    SumIsSmall(blank, BLOCK);
    Pow8Values();
    var field := Digits(sum, 6) + [NUL, SPACE];
    TerminatedOctal(sum, 6, [NUL, SPACE]);
    PrintedSlices(h, field);
    var raw := h.WithChecksum(field);
    SumIgnoresChecksumField(raw, blank, BLOCK);
  }

  /** The reader finds in a printed header what was put into it. */
  lemma PrintedReads(h: Header)
    requires h.Valid()
    ensures var b := h.Print();
            && SizeOf(b) == h.size && PermsOf(b) == h.mode % 4096 && b[156] == h.typeflag
            && UpToNul(b[..100]) == h.name && UpToNul(b[345..500]) == h.prefix
            && ValidChecksum(b) && !IsZeroBlock(b)
  {
    hide Digits, Octal, SumTo, UpToNul, ValidChecksum;
    PrintedChecksum(h);
    var blank := h.WithChecksum(SPACES);
    PrintedSlices(h, Digits(SumTo(blank, BLOCK), 6) + [NUL, SPACE]);
    Pow8Values();
    TerminatedOctal(h.size, 11, [NUL]);
    TerminatedOctal(h.mode, 7, [NUL]);
    UpToNulReads(h.name, Nuls(100 - |h.name|));
    UpToNulReads(h.prefix, Nuls(155 - |h.prefix|));
    assert h.Print()[100] == h.Print()[100..108][0];
  }

  // ---------------------------------------------------------------------------------------------
  // Archives
  // ---------------------------------------------------------------------------------------------

  /** How an item's name is stored; a long name leaves any `stub` in the item's own header. */
  datatype Naming =
    | Short(name: Bytes)
    | Split(prefix: Bytes, base: Bytes)
    | Long(full: Bytes, link: Header, stub: Bytes)
  {
    predicate Valid() {
      match this
      case Short(name) => |name| <= 100 && HasNoNul(name)
      case Split(prefix, base) => 0 < |prefix| <= 155 && HasNoNul(prefix) && |base| <= 100 && HasNoNul(base)
      case Long(full, link, stub) =>
        && 0 < |full| && HasNoNul(full) && |stub| <= 100 && HasNoNul(stub)
        && link.Valid() && link.typeflag == LONG_NAME && link.size == |full| + 1
    }

    function Name(): Bytes {
      match this
      case Short(name) => name
      case Split(prefix, base) => prefix + [SLASH] + base
      case Long(full, _, _) => full
    }

    function NameField(): Bytes {
      match this
      case Short(name) => name
      case Split(_, base) => base
      case Long(_, _, stub) => stub
    }

    function PrefixField(): Bytes {
      if Split? then prefix else []
    }
  }

  datatype Item = Item(naming: Naming, mode: nat, typeflag: Byte, payload: Bytes, meta: Meta) {
    predicate Valid() {
      && naming.Valid() && mode < 4096 && |payload| < Pow8(11) && meta.Valid()
      && (IsRegular(typeflag) || (typeflag == DIR_TYPE && payload == []))
    }

    function Head(): (h: Header)
      requires Valid()
      ensures h.Valid()
    {
      Pow8Values();
      Header(naming.NameField(), naming.PrefixField(), mode, |payload|, typeflag, meta)
    }

    /** The entry the reader is to make of the item at `path`. */
    function Made(path: Bytes): Entry {
      if typeflag == DIR_TYPE then Directory(path) else File(path, mode, payload)
    }
  }

  function Blocks(h: Header, payload: Bytes): Bytes
    requires h.Valid()
  {
    h.Print() + payload + Nuls(Padding(|payload|))
  }

  function WriteItem(item: Item): Bytes
    requires item.Valid()
  {
    var own := Blocks(item.Head(), item.payload);
    match item.naming
    case Long(full, link, _) => Blocks(link, full + [NUL]) + own
    case _ => own
  }

  ghost predicate AllValid(items: seq<Item>) { forall i | 0 <= i < |items| :: items[i].Valid() }

  function WriteAll(items: seq<Item>): Bytes
    requires AllValid(items)
  {
    if items == [] then [] else WriteItem(items[0]) + WriteAll(items[1..])
  }

  /** The archive ends where the file does, or at a block of zeros whatever follows it. */
  ghost predicate IsTrailer(tail: Bytes) {
    tail == [] || (|tail| >= BLOCK && IsZeroBlock(tail[..BLOCK]))
  }

  // ---------------------------------------------------------------------------------------------
  // Reading back
  // ---------------------------------------------------------------------------------------------

  /** What the file system has against making the item at `path`, if anything. */
  function OutputFault(env: Env, item: Item, path: Bytes): Option<Fault> {
    var size := |item.payload|;
    if env.refuses(path, item.typeflag == DIR_TYPE) then Some(Refused)
    else if item.typeflag == DIR_TYPE then None
    else if CopyFault(env, path, size, size, 0).Some? then CopyFault(env, path, size, size, 0)
    else if env.sealFails(path) then Some(SealFailed)
    else None
  }

  /** Bytes behind the payload make no difference to its copy. */
  lemma {:induction false} CopyOfWhole(env: Env, path: Bytes, avail: nat, size: nat, done: nat)
    requires done <= size <= avail
    ensures CopyFault(env, path, avail, size, done) == CopyFault(env, path, size, size, done)
    decreases size - done
  {
    if done < size {
      var chunk := if size - done < COPY_CHUNK then size - done else COPY_CHUNK;
      CopyOfWhole(env, path, avail, size, done + chunk);
    }
  }

  /** What extracting these items is to do, given what becomes of each name. */
  function Expected(env: Env, items: seq<Item>): Outcome {
    if items == [] then Finished([])
    else
      match env.sanitize(items[0].naming.Name())
      case Reject => Failed(BadPath, [])
      case Skip => Expected(env, items[1..])
      case Keep(path) =>
        match OutputFault(env, items[0], path)
        case Some(fault) => Failed(fault, [])
        case None => Prepend([items[0].Made(path)], Expected(env, items[1..]))
  }

  lemma BlocksShape(h: Header, payload: Bytes, tail: Bytes)
    requires h.Valid()
    ensures var s := Blocks(h, payload) + tail; var n := BLOCK + |payload| + Padding(|payload|);
            && |s| == n + |tail| && s[..BLOCK] == h.Print()
            && s[BLOCK..BLOCK + |payload|] == payload && s[n..] == tail
  {
    hide Padding, Nuls;
    var s := Blocks(h, payload) + tail;
    assert s == h.Print() + (payload + (Nuls(Padding(|payload|)) + tail));
  }

  /** An entry that is cut short anywhere is an error, whatever its type and whatever becomes of it. */
  lemma CutEntryFails(env: Env, h: Header, payload: Bytes, k: nat, pending: Bytes)
    requires h.Valid() && h.size == |payload| && 0 < k < |Blocks(h, payload)|
    ensures Extract(env, Blocks(h, payload)[..k], pending).Failed?
  {
    hide Padding, UpToNul, IsZeroBlock, ValidChecksum, SizeOf, PermsOf, LongNamePass, EntryPass;
    var s := Blocks(h, payload);
    BlocksShape(h, payload, []);
    assert s + [] == s;
    PrintedReads(h);
    if BLOCK <= k {
      assert s[..k][..BLOCK] == s[..BLOCK];
      if OnePass(env, s[..k], pending).Next? {
        PassConsumesBlocks(env, s[..k], pending);
      } else if OnePass(env, s[..k], pending).Stop? {
        StopsOnlyAtEnd(env, s[..k], pending);
      }
    }
  }

  lemma LongNameRead(env: Env, link: Header, full: Bytes, tail: Bytes, pending: Bytes)
    requires link.Valid() && link.typeflag == LONG_NAME && link.size == |full| + 1 && HasNoNul(full)
    ensures OnePass(env, Blocks(link, full + [NUL]) + tail, pending) ==
            Next(|Blocks(link, full + [NUL])|, full, [])
  {
    hide Padding, UpToNul, IsZeroBlock, ValidChecksum, SizeOf;
    var payload := full + [NUL];
    var s := Blocks(link, payload) + tail;
    BlocksShape(link, payload, tail);
    PrintedReads(link);
    UpToNulReads(full, [NUL]);
    assert s[156] == s[..BLOCK][156];
  }

  lemma OwnHeaderRead(env: Env, item: Item, tail: Bytes, pending: Bytes)
    requires item.Valid() && pending == (if item.naming.Long? then item.naming.full else [])
    ensures var s := Blocks(item.Head(), item.payload) + tail;
            && BLOCK <= |s|
            && OnePass(env, s, pending) ==
               EntryPass(env, s, item.Head().Print(), |item.payload|, item.naming.Name())
  {
    hide EntryPass, Padding, UpToNul, IsZeroBlock, ValidChecksum, SizeOf, PermsOf;
    var s := Blocks(item.Head(), item.payload) + tail;
    BlocksShape(item.Head(), item.payload, tail);
    PrintedReads(item.Head());
  }

  /** The pass over an item's own header, with the long name (if any) already pending. */
  lemma OwnBlocksRead(env: Env, item: Item, tail: Bytes, pending: Bytes)
    requires item.Valid() && pending == (if item.naming.Long? then item.naming.full else [])
    ensures OnePass(env, Blocks(item.Head(), item.payload) + tail, pending) ==
            var n := |Blocks(item.Head(), item.payload)|;
            match env.sanitize(item.naming.Name())
            case Reject => Throw(BadPath, [])
            case Skip => Next(n, [], [])
            case Keep(path) =>
              match OutputFault(env, item, path)
              case Some(fault) => Throw(fault, [])
              case None => Next(n, [], [item.Made(path)])
  {
    hide OnePass, Padding, SizeOf, PermsOf, IsZeroBlock, ValidChecksum, UpToNul;
    BlocksShape(item.Head(), item.payload, tail);
    OwnHeaderRead(env, item, tail, pending);
    PrintedReads(item.Head());
    var v := env.sanitize(item.naming.Name());
    if v.Keep? {
      var s := Blocks(item.Head(), item.payload) + tail;
      CopyOfWhole(env, v.path, |s| - BLOCK, |item.payload|, 0);
    }
  }

  /** One pass, unfolded at the point where the bytes it consumes end. */
  lemma ExtractStep(env: Env, front: Bytes, tail: Bytes, pending: Bytes)
    requires OnePass(env, front + tail, pending).Next?
    requires OnePass(env, front + tail, pending).consumed == |front|
    ensures var p := OnePass(env, front + tail, pending);
            Extract(env, front + tail, pending) == Prepend(p.made, Extract(env, tail, p.pending))
  {
    assert (front + tail)[|front|..] == tail;
  }

  lemma ItemRead(env: Env, item: Item, tail: Bytes)
    requires item.Valid()
    ensures Extract(env, WriteItem(item) + tail, []) ==
            match env.sanitize(item.naming.Name())
            case Reject => Failed(BadPath, [])
            case Skip => Extract(env, tail, [])
            case Keep(path) =>
              match OutputFault(env, item, path)
              case Some(fault) => Failed(fault, [])
              case None => Prepend([item.Made(path)], Extract(env, tail, []))
  {
    hide OnePass, Blocks;
    var own := Blocks(item.Head(), item.payload);
    if item.naming.Long? {
      var link, full := item.naming.link, item.naming.full;
      var long := Blocks(link, full + [NUL]);
      assert WriteItem(item) + tail == long + (own + tail);
      LongNameRead(env, link, full, own + tail, []);
      ExtractStep(env, long, own + tail, []);
      PrependNothing(Extract(env, own + tail, full));
      OwnItemRead(env, item, tail, full);
    } else {
      OwnItemRead(env, item, tail, []);
    }
  }

  lemma OwnItemRead(env: Env, item: Item, tail: Bytes, pending: Bytes)
    requires item.Valid() && pending == (if item.naming.Long? then item.naming.full else [])
    ensures Extract(env, Blocks(item.Head(), item.payload) + tail, pending) ==
            match env.sanitize(item.naming.Name())
            case Reject => Failed(BadPath, [])
            case Skip => Extract(env, tail, [])
            case Keep(path) =>
              match OutputFault(env, item, path)
              case Some(fault) => Failed(fault, [])
              case None => Prepend([item.Made(path)], Extract(env, tail, []))
  {
    hide OnePass, Blocks;
    var own := Blocks(item.Head(), item.payload);
    OwnBlocksRead(env, item, tail, pending);
    if OnePass(env, own + tail, pending).Next? {
      ExtractStep(env, own, tail, pending);
      PrependNothing(Extract(env, tail, []));
    }
  }

  /**
    Reading back an archive: for any list of files and directories with short, prefix-split or long
    names, any payloads, any ignored header fields and any trailer, the reader makes exactly the
    entries the names call for, in order, and stops with an error only where a name is rejected or
    the file system fails.
   */
  lemma {:induction false} RoundTrip(env: Env, items: seq<Item>, tail: Bytes)
    requires AllValid(items) && IsTrailer(tail)
    ensures Extract(env, WriteAll(items) + tail, []) == Expected(env, items)
    decreases |items|
  {
    hide Extract, WriteItem, IsTrailer;
    if items == [] {
      assert WriteAll(items) + tail == tail;
      TrailerStops(env, tail);
    } else {
      var others := WriteAll(items[1..]) + tail;
      assert WriteAll(items) + tail == WriteItem(items[0]) + others;
      ItemRead(env, items[0], others);
      RoundTrip(env, items[1..], tail);
    }
  }

  lemma TrailerStops(env: Env, tail: Bytes)
    requires IsTrailer(tail)
    ensures Extract(env, tail, []) == Finished([])
  {}

  lemma {:induction false} NoCopyFault(env: Env, path: Bytes, size: nat, done: nat)
    requires done <= size && forall offset :: !env.writeFails(path, offset)
    ensures CopyFault(env, path, size, size, done) == None
    decreases size - done
  {
    if done < size {
      NoCopyFault(env, path, size, if size - done < COPY_CHUNK then size else done + COPY_CHUNK);
    }
  }

  /** With every name kept as it is, the extraction is the list of items itself. */
  lemma {:induction false} ExpectedPlain(env: Env, items: seq<Item>)
    requires forall name :: env.sanitize(name) == Keep(name)
    requires forall path, dir :: !env.refuses(path, dir)
    requires forall path, offset :: !env.writeFails(path, offset)
    requires forall path :: !env.sealFails(path)
    ensures Expected(env, items) ==
            Finished(seq(|items|, i requires 0 <= i < |items| => items[i].Made(items[i].naming.Name())))
  {
    if items != [] {
      ExpectedPlain(env, items[1..]);
      NoCopyFault(env, items[0].naming.Name(), |items[0].payload|, 0);
      assert env.sanitize(items[0].naming.Name()) == Keep(items[0].naming.Name());
    }
  }
}
