/**
  Staging kernel arguments and launching (vrt/src/kernel.cpp): the completeness check, the register
  map with its batched BAR write, and the sequence of single register writes it stands in for.
  Address arithmetic is 64-bit and register offsets are 32-bit, both wrapping.
 */
module KernelArgs {
  import opened Common

  const WORD: nat := 4

  datatype FunctionalArg = FunctionalArg(idx: U32, offset: U32, bits: U32, writable: bool)

  datatype RegWrite = RegWrite(offset: U32, value: U32)

  // ---------------------------------------------------------------------------------------------
  // Words of an argument
  // ---------------------------------------------------------------------------------------------

  function WordCount(arg: FunctionalArg): (n: nat)
    ensures n >= 1
  {
    var bits := if arg.bits == 0 then 32 else arg.bits;
    var n := W32(bits + 31) / 32;
    if n < 1 then 1 else n
  }

  function WordValue(value: U64, i: nat): U32 {
    if i == 0 then value % TWO32 else if i == 1 then value / TWO32 else 0
  }

  /** The first n register writes of one argument. */
  function ArgWrites(arg: FunctionalArg, value: U64, n: nat): seq<RegWrite> {
    if n == 0 then []
    else ArgWrites(arg, value, n - 1) + [RegWrite(W32(arg.offset + (n - 1) * WORD), WordValue(value, n - 1))]
  }

  /** The words hold the whole argument exactly when rounding its width up does not wrap. */
  lemma WordCountIsExact(arg: FunctionalArg)
    ensures arg.bits <= 32 * WordCount(arg) <==> arg.bits <= TWO32 - 32
    ensures arg.bits <= TWO32 - 32 ==> arg.bits > 32 * (WordCount(arg) - 1) || WordCount(arg) == 1
    ensures WordCount(arg) * WORD <= TWO32
  {}

  /** A width just past the bound gets one word. */
  lemma WideArgumentGetsOneWord()
    ensures WordCount(FunctionalArg(0, 0, TWO32 - 31, true)) == 1
  {}

  /** The first two words make up the value, and the rest are zero. */
  lemma WordsRebuildValue(value: U64, i: nat)
    ensures WordValue(value, 0) + TWO32 * WordValue(value, 1) == value
    ensures i >= 2 ==> WordValue(value, i) == 0
  {}

  ghost predicate AreComplete(args: seq<FunctionalArg>, values: map<U32, U64>) {
    forall i | 0 <= i < |args| && args[i].writable :: args[i].idx in values
  }

  /** The register writes of the first n arguments, in launch order. */
  function AllWrites(args: seq<FunctionalArg>, values: map<U32, U64>, n: nat): seq<RegWrite>
    requires n <= |args| && AreComplete(args, values)
  {
    if n == 0 then []
    else if !args[n - 1].writable then AllWrites(args, values, n - 1)
    else AllWrites(args, values, n - 1) + ArgWrites(args[n - 1], values[args[n - 1].idx], WordCount(args[n - 1]))
  }

  /** The register map a sequence of writes leaves behind: later writes win. */
  function Staged(writes: seq<RegWrite>): map<U32, U32> {
    if writes == [] then map[]
    else
      var last := writes[|writes| - 1];
      Staged(writes[..|writes| - 1])[last.offset := last.value]
  }

  // ---------------------------------------------------------------------------------------------
  // The BAR window
  // ---------------------------------------------------------------------------------------------

  /** Whether an access resolves to a place in the BAR, and where. */
  predicate Resolves(address: U64, size: nat, barLen: nat) {
    barLen != 0 && W64(address % barLen + size) <= barLen
  }

  function BarOffset(address: U64, barLen: nat): nat
    requires barLen != 0
  {
    address % barLen
  }

  /** The range check is right exactly when its own sum does not wrap. */
  lemma ResolvesIsExactIff(address: U64, size: nat, barLen: U64)
    requires size <= TWO32 + WORD
    ensures (Resolves(address, size, barLen) <==> barLen != 0 && address % barLen + size <= barLen) <==>
            barLen == 0 || address % barLen + size < TWO64
  {
    if barLen != 0 {
      var r := address % barLen;
      if r + size < TWO64 {
        SmallMod(r + size, TWO64);
      } else {
        ModUnique(r + size, TWO64, 1, r + size - TWO64);
      }
    }
  }

  lemma SmallMod(a: nat, n: nat)
    requires a < n
    ensures a % n == a
  {}

  lemma FactorIsNotNegative(k: int, n: int)
    requires n > 0 && k * n > -n
    ensures k >= 0
  {}

  lemma ModUnique(x: nat, n: nat, q: int, r: nat)
    requires n > 0 && r < n && x == q * n + r
    ensures x % n == r
  {
    assert (x / n - q) * n == r - x % n by { Distribute(x / n, q, n); }
    FactorIsNotNegative(x / n - q, n);
    assert (q - x / n) * n == x % n - r by { Distribute(q, x / n, n); }
    FactorIsNotNegative(q - x / n, n);
  }

  /**
    One resolution of the base stands for the resolution of a register: when the register lies in the
    window that starts at the base, both reach the same BAR word if and only if adding the offset does
    not wrap the 64-bit address, or the window length divides 2^64.
   */
  lemma SameWord(base: U64, offset: U32, barLen: nat)
    requires barLen != 0 && base % barLen + offset < barLen
    ensures BarOffset(W64(base + offset), barLen) == base % barLen + offset <==>
            base + offset < TWO64 || TWO64 % barLen == 0
  {
    var q, r := base / barLen, base % barLen;
    assert base == q * barLen + r;
    if base + offset < TWO64 {
      SmallMod(base + offset, TWO64);
      ModUnique(base + offset, barLen, q, r + offset);
    } else {
      var x := base + offset - TWO64;
      ModUnique(base + offset, TWO64, 1, x);
      WrapsWhole(x, q, r + offset, barLen);
    }
  }

  /** x + 2^64 has remainder r; so has x exactly when 2^64 is a multiple of n. */
  lemma WrapsWhole(x: nat, q: nat, r: nat, n: nat)
    requires n > 0 && r < n && x + TWO64 == q * n + r
    ensures x % n == r <==> TWO64 % n == 0
  {
    if x % n == r {
      Distribute(q, x / n, n);
      ModUnique(TWO64, n, q - x / n, 0);
    }
    if TWO64 % n == 0 {
      Distribute(q, TWO64 / n, n);
      ModUnique(x, n, q - TWO64 / n, r);
    }
  }

  lemma Distribute(a: int, b: int, n: int)
    ensures (a - b) * n == a * n - b * n
  {}

  /** A kernel placed so that its registers run over the end of the address space. */
  lemma WrappedRegisterDiffers()
    ensures var base: U64, offset: U32, barLen := TWO64 - 0x1000, 0x1000, 0x3000;
            && Resolves(base, offset + WORD, barLen)
            && BarOffset(W64(base + offset), barLen) != BarOffset(base, barLen) + offset
  {}

  // ---------------------------------------------------------------------------------------------
  // One register at a time
  // ---------------------------------------------------------------------------------------------

  type Bar = nat -> U32

  /** The word at BAR offset k after the given register writes, each resolved on its own. */
  ghost function Poked(bar: Bar, base: U64, barLen: nat, writes: seq<RegWrite>, k: nat): U32
    decreases |writes|
  {
    if writes == [] || barLen == 0 then bar(k)
    else
      var last := writes[|writes| - 1];
      if BarOffset(W64(base + last.offset), barLen) == k then last.value
      else Poked(bar, base, barLen, writes[..|writes| - 1], k)
  }

  lemma PokedMore(bar: Bar, base: U64, barLen: nat, writes: seq<RegWrite>, w: RegWrite)
    requires barLen != 0
    ensures forall k: nat :: Poked(bar, base, barLen, writes + [w], k) ==
              if BarOffset(W64(base + w.offset), barLen) == k then w.value else Poked(bar, base, barLen, writes, k)
  {
    assert (writes + [w])[..|writes|] == writes;
  }

  ghost predicate AllResolve(base: U64, barLen: nat, writes: seq<RegWrite>) {
    forall i | 0 <= i < |writes| :: Resolves(W64(base + writes[i].offset), WORD, barLen)
  }

  lemma BrokenPart(base: U64, barLen: nat, front: seq<RegWrite>, part: seq<RegWrite>, all: seq<RegWrite>)
    requires front + part <= all && !AllResolve(base, barLen, part)
    ensures !AllResolve(base, barLen, all)
  {
    hide Resolves, W64;
    var i :| 0 <= i < |part| && !Resolves(W64(base + part[i].offset), WORD, barLen);
    assert all[|front| + i] == (front + part)[|front| + i] == part[i];
  }

  lemma {:induction false} ArgWritesGrow(arg: FunctionalArg, value: U64, m: nat, n: nat)
    requires m <= n
    ensures ArgWrites(arg, value, m) <= ArgWrites(arg, value, n)
    decreases n
  {
    if m < n {
      ArgWritesGrow(arg, value, m, n - 1);
    }
  }

  lemma {:induction false} AllWritesGrow(args: seq<FunctionalArg>, values: map<U32, U64>, m: nat, n: nat)
    requires m <= n <= |args| && AreComplete(args, values)
    ensures AllWrites(args, values, m) <= AllWrites(args, values, n)
    decreases n
  {
    if m < n {
      AllWritesGrow(args, values, m, n - 1);
    }
  }

  /** Every register reaches the word it has in a window starting at the base. */
  ghost predicate AllInWindow(base: U64, barLen: nat, writes: seq<RegWrite>)
    requires barLen != 0
  {
    forall i | 0 <= i < |writes| :: BarOffset(W64(base + writes[i].offset), barLen) == base % barLen + writes[i].offset
  }

  /** Writing registers one at a time leaves in each BAR word what the register map holds for it. */
  lemma {:induction false} PokedIsStaged(bar: Bar, base: U64, barLen: nat, writes: seq<RegWrite>, k: nat)
    requires barLen != 0 && AllInWindow(base, barLen, writes)
    ensures var r := base % barLen;
            Poked(bar, base, barLen, writes, k) ==
            if k >= r && k - r in Staged(writes) then Staged(writes)[k - r] else bar(k)
    decreases |writes|
  {
    if writes != [] {
      var n := |writes| - 1;
      assert BarOffset(W64(base + writes[n].offset), barLen) == base % barLen + writes[n].offset;
      PokedIsStaged(bar, base, barLen, writes[..n], k);
    }
  }

  lemma StagedMore(writes: seq<RegWrite>, w: RegWrite)
    ensures Staged(writes + [w]) == Staged(writes)[w.offset := w.value]
  {
    assert (writes + [w])[..|writes|] == writes;
  }

  lemma {:induction false} StagedOffsets(writes: seq<RegWrite>, i: nat)
    requires i < |writes|
    ensures writes[i].offset in Staged(writes)
    decreases |writes|
  {
    if i < |writes| - 1 {
      StagedOffsets(writes[..|writes| - 1], i);
    }
  }

  /** Every word of an argument is in its own register once the argument has been written. */
  lemma {:induction false} ArgumentArrives(before: seq<RegWrite>, arg: FunctionalArg, value: U64, n: nat, i: nat)
    requires i < n && n * WORD <= TWO32
    ensures var regs := Staged(before + ArgWrites(arg, value, n));
            var off := W32(arg.offset + i * WORD);
            off in regs && regs[off] == WordValue(value, i)
  {
    hide Staged, WordValue, W32;
    var last := RegWrite(W32(arg.offset + (n - 1) * WORD), WordValue(value, n - 1));
    assert before + ArgWrites(arg, value, n) == before + ArgWrites(arg, value, n - 1) + [last];
    StagedMore(before + ArgWrites(arg, value, n - 1), last);
    if i < n - 1 {
      ArgumentArrives(before, arg, value, n - 1, i);
      RegistersDiffer(arg.offset, i, n - 1);
    }
  }

  function Register(arg: FunctionalArg, i: nat): U32 { W32(arg.offset + i * WORD) }

  /** No two writable arguments share a register. */
  ghost predicate AreSeparate(args: seq<FunctionalArg>) {
    forall a, b, i: nat, j: nat |
      && 0 <= a < b < |args| && args[a].writable && args[b].writable
      && i < WordCount(args[a]) && j < WordCount(args[b]) ::
      Register(args[a], i) != Register(args[b], j)
  }

  lemma {:induction false} OthersUntouched(before: seq<RegWrite>, arg: FunctionalArg, value: U64, n: nat, off: U32)
    requires off in Staged(before) && forall j: nat | j < n :: Register(arg, j) != off
    ensures var regs := Staged(before + ArgWrites(arg, value, n)); off in regs && regs[off] == Staged(before)[off]
  {
    hide Staged, WordValue, W32;
    if n == 0 {
      assert before + ArgWrites(arg, value, 0) == before;
    } else {
      var last := RegWrite(W32(arg.offset + (n - 1) * WORD), WordValue(value, n - 1));
      assert before + ArgWrites(arg, value, n) == before + ArgWrites(arg, value, n - 1) + [last];
      StagedMore(before + ArgWrites(arg, value, n - 1), last);
      OthersUntouched(before, arg, value, n - 1, off);
      assert Register(arg, n - 1) != off;
    }
  }

  /** With separate arguments, every word of every argument is in its own register at launch. */
  lemma {:induction false} AllArgumentsArrive(args: seq<FunctionalArg>, values: map<U32, U64>, n: nat, a: nat, i: nat)
    requires n <= |args| && AreComplete(args, values) && AreSeparate(args)
    requires a < n && args[a].writable && i < WordCount(args[a])
    ensures var regs := Staged(AllWrites(args, values, n));
            Register(args[a], i) in regs && regs[Register(args[a], i)] == WordValue(values[args[a].idx], i)
  {
    hide Staged, WordValue, WordCount, W32, ArgWrites;
    var last := args[n - 1];
    if a == n - 1 {
      WordCountIsExact(last);
      ArgumentArrives(AllWrites(args, values, n - 1), last, values[last.idx], WordCount(last), i);
    } else {
      AllArgumentsArrive(args, values, n - 1, a, i);
      if last.writable {
        OthersUntouched(AllWrites(args, values, n - 1), last, values[last.idx], WordCount(last), Register(args[a], i));
      }
    }
  }

  lemma RegistersDiffer(offset: U32, i: nat, j: nat)
    requires i < j && j * WORD < TWO32
    ensures W32(offset + i * WORD) != W32(offset + j * WORD)
  {}

  // ---------------------------------------------------------------------------------------------
  // The batch
  // ---------------------------------------------------------------------------------------------

  ghost predicate IsAligned(regs: map<U32, U32>) { forall off <- regs :: off % WORD == 0 }

  ghost predicate IsHighest(regs: map<U32, U32>, max: nat) {
    max in regs && forall off <- regs :: off <= max
  }

  /** v is the value of the highest register in word i, or zero if there is none. */
  ghost predicate IsWordOf(regs: map<U32, U32>, i: nat, v: U32) {
    IsWordOfDone(regs, {}, i, v)
  }

  /** The same for the registers that are not left to be written. */
  ghost predicate IsWordOfDone(regs: map<U32, U32>, left: set<U32>, i: nat, v: U32) {
    if exists off :: off in regs && off !in left && off / WORD == i then
      exists off :: off in regs && off !in left && off / WORD == i && v == regs[off]
        && forall other | other in regs && other !in left && other / WORD == i :: other <= off
    else v == 0
  }

  /** v is the word at BAR offset k after the whole map is written behind one base resolution. */
  ghost predicate IsBatched(bar: Bar, r: nat, regs: map<U32, U32>, max: nat, k: nat, v: U32) {
    if r <= k <= r + max && (k - r) % WORD == 0 then IsWordOf(regs, (k - r) / WORD, v) else v == bar(k)
  }

  /** The same for aligned registers, which never share a word. */
  ghost function Batched(bar: Bar, r: nat, regs: map<U32, U32>, max: nat, k: nat): U32 {
    if r <= k <= r + max && (k - r) % WORD == 0 then
      if k - r in regs then regs[k - r] else 0
    else bar(k)
  }

  lemma AlignedBatch(bar: Bar, r: nat, regs: map<U32, U32>, max: nat, k: nat, v: U32)
    requires IsAligned(regs) && IsBatched(bar, r, regs, max, k, v)
    ensures v == Batched(bar, r, regs, max, k)
  {
    if r <= k <= r + max && (k - r) % WORD == 0 {
      var i := (k - r) / WORD;
      assert k - r == i * WORD;
      assert forall off | off in regs && off / WORD == i :: off == i * WORD;
      if k - r in regs {
        assert (k - r) / WORD == i;
      }
    }
  }

  lemma RegisterFits(base: U64, barLen: nat, offset: U32, max: nat)
    requires barLen != 0 && offset <= max
    requires base % barLen + max + WORD <= barLen < TWO64 && (base + max < TWO64 || TWO64 % barLen == 0)
    ensures BarOffset(W64(base + offset), barLen) == base % barLen + offset
    ensures Resolves(W64(base + offset), WORD, barLen)
  {
    hide W64;
    SameWord(base, offset, barLen);
    PlainW64(base % barLen + offset + WORD);
  }

  lemma PlainW64(x: nat)
    requires x < TWO64
    ensures W64(x) == x
  {}

  lemma AllRegistersFit(base: U64, barLen: nat, writes: seq<RegWrite>, max: nat)
    requires barLen != 0 && IsHighest(Staged(writes), max)
    requires base % barLen + max + WORD <= barLen < TWO64 && (base + max < TWO64 || TWO64 % barLen == 0)
    ensures AllInWindow(base, barLen, writes) && AllResolve(base, barLen, writes)
  {
    hide BarOffset, Resolves, W64, Staged;
    forall i | 0 <= i < |writes|
      ensures BarOffset(W64(base + writes[i].offset), barLen) == base % barLen + writes[i].offset
      ensures Resolves(W64(base + writes[i].offset), WORD, barLen)
    {
      StagedOffsets(writes, i);
      RegisterFits(base, barLen, writes[i].offset, max);
    }
  }

  /**
    The batch and the single writes agree on every argument register; elsewhere the batch clears the
    words in the gaps up to the highest register and neither touches anything more.
   */
  lemma BatchAgrees(bar: Bar, base: U64, barLen: nat, writes: seq<RegWrite>, max: nat, k: nat)
    requires barLen != 0 && IsAligned(Staged(writes)) && IsHighest(Staged(writes), max)
    requires base % barLen + max + WORD <= barLen < TWO64 && (base + max < TWO64 || TWO64 % barLen == 0)
    ensures AllResolve(base, barLen, writes)
    ensures var r := base % barLen;
            var single := Poked(bar, base, barLen, writes, k);
            var batch := Batched(bar, r, Staged(writes), max, k);
            if k >= r && k - r in Staged(writes) then batch == single == Staged(writes)[k - r]
            else if r <= k <= r + max && (k - r) % WORD == 0 then batch == 0 && single == bar(k)
            else batch == single == bar(k)
  {
    hide AllInWindow, AllResolve, Poked, Staged;
    AllRegistersFit(base, barLen, writes, max);
    PokedIsStaged(bar, base, barLen, writes, k);
  }

  class Kernel {
    const args: seq<FunctionalArg>
    const base: U64
    const barLen: U64
    var values: map<U32, U64>
    var regs: map<U32, U32>
    var bar: Bar

    constructor (args: seq<FunctionalArg>, base: U64, barLen: U64, bar: Bar)
      ensures values == map[] && regs == map[] && this.args == args && this.bar == bar
    {
      this.args, this.base, this.barLen, this.bar := args, base, barLen, bar;
      values, regs := map[], map[];
    }

    /** Only a known argument index can be staged. */
    method SetArgResolved(idx: U32, value: U64) returns (ok: bool)
      modifies this`values
      ensures ok <==> exists i | 0 <= i < |args| :: args[i].idx == idx
      ensures values == if ok then old(values)[idx := value] else old(values)
    {
      for i := 0 to |args|
        invariant forall j | 0 <= j < i :: args[j].idx != idx
        invariant values == old(values)
      {
        if args[i].idx == idx {
          values := values[idx := value];
          return true;
        }
      }
      ok := false;
    }

    /** The indexes of the writable arguments that have no value. */
    method MissingArgs() returns (missing: seq<U32>)
      ensures missing == [] <==> AreComplete(args, values)
      ensures forall idx :: idx in missing <==>
                exists i | 0 <= i < |args| :: args[i].idx == idx && args[i].writable && idx !in values
    {
      missing := [];
      for i := 0 to |args|
        invariant forall idx :: idx in missing <==>
                    exists j | 0 <= j < i :: args[j].idx == idx && args[j].writable && idx !in values
      {
        if args[i].writable && args[i].idx !in values {
          missing := missing + [args[i].idx];
        }
      }
      if missing != [] {
        assert missing[0] in missing;
      } else {
        assert forall idx :: idx !in missing;
      }
    }

    method WriteArgToRegisterMap(arg: FunctionalArg, value: U64, ghost before: seq<RegWrite>)
      requires regs == Staged(before)
      modifies this`regs
      ensures regs == Staged(before + ArgWrites(arg, value, WordCount(arg)))
    {
      hide Staged, W32, WordValue, WordCount;
      assert before + ArgWrites(arg, value, 0) == before;
      for i := 0 to WordCount(arg)
        invariant regs == Staged(before + ArgWrites(arg, value, i))
      {
        ghost var more := RegWrite(W32(arg.offset + i * WORD), WordValue(value, i));
        assert before + ArgWrites(arg, value, i + 1) == before + ArgWrites(arg, value, i) + [more];
        StagedMore(before + ArgWrites(arg, value, i), more);
        regs := regs[W32(arg.offset + i * WORD) := WordValue(value, i)];
      }
    }

    method ApplySetArgsToRegisterMap()
      requires AreComplete(args, values)
      modifies this`regs
      ensures regs == Staged(AllWrites(args, values, |args|))
    {
      regs := map[];
      for i := 0 to |args|
        invariant regs == Staged(AllWrites(args, values, i))
      {
        if args[i].writable {
          WriteArgToRegisterMap(args[i], values[args[i].idx], AllWrites(args, values, i));
        }
      }
    }

    method Write(offset: U32, value: U32) returns (ok: bool)
      modifies this`bar
      ensures ok == Resolves(W64(base + offset), WORD, barLen) && (ok ==> barLen != 0)
      ensures forall k: nat :: bar(k) ==
                if ok && BarOffset(W64(base + offset), barLen) == k then value else old(bar)(k)
    {
      ok := Resolves(W64(base + offset), WORD, barLen);
      if ok {
        var was, at := bar, BarOffset(W64(base + offset), barLen);
        bar := (k: nat) => if k == at then value else was(k);
      }
    }

    method WriteArgByWord(arg: FunctionalArg, value: U64, ghost start: Bar, ghost before: seq<RegWrite>)
      returns (ok: bool)
      requires forall k: nat :: bar(k) == Poked(start, base, barLen, before, k)
      modifies this`bar
      ensures ok == AllResolve(base, barLen, ArgWrites(arg, value, WordCount(arg)))
      ensures ok ==> forall k: nat ::
                bar(k) == Poked(start, base, barLen, before + ArgWrites(arg, value, WordCount(arg)), k)
    {
      hide BarOffset, W64, W32, Resolves, Poked, WordValue, WordCount;
      assert before + ArgWrites(arg, value, 0) == before;
      for i := 0 to WordCount(arg)
        invariant forall k: nat :: bar(k) == Poked(start, base, barLen, before + ArgWrites(arg, value, i), k)
        invariant AllResolve(base, barLen, ArgWrites(arg, value, i))
      {
        ArgWritesGrow(arg, value, i + 1, WordCount(arg));
        ghost var more := RegWrite(W32(arg.offset + i * WORD), WordValue(value, i));
        assert before + ArgWrites(arg, value, i + 1) == before + ArgWrites(arg, value, i) + [more];
        ok := Write(W32(arg.offset + i * WORD), WordValue(value, i));
        if ok {
          PokedMore(start, base, barLen, before + ArgWrites(arg, value, i), more);
        } else {
          assert !Resolves(W64(base + [more][0].offset), WORD, barLen);
          BrokenPart(base, barLen, ArgWrites(arg, value, i), [more], ArgWrites(arg, value, WordCount(arg)));
          return;
        }
      }
      ok := true;
    }

    method ApplySetArgsByWord() returns (ok: bool)
      requires AreComplete(args, values)
      modifies this`bar
      ensures ok == AllResolve(base, barLen, AllWrites(args, values, |args|))
      ensures ok ==> forall k: nat ::
                bar(k) == Poked(old(bar), base, barLen, AllWrites(args, values, |args|), k)
    {
      hide ArgWrites, Resolves;
      for i := 0 to |args|
        invariant AllResolve(base, barLen, AllWrites(args, values, i))
        invariant forall k: nat :: bar(k) == Poked(old(bar), base, barLen, AllWrites(args, values, i), k)
      {
        AllWritesGrow(args, values, i + 1, |args|);
        if args[i].writable {
          ok := WriteArgByWord(args[i], values[args[i].idx], old(bar), AllWrites(args, values, i));
          if !ok {
            BrokenPart(base, barLen, AllWrites(args, values, i),
                       ArgWrites(args[i], values[args[i].idx], WordCount(args[i])), AllWrites(args, values, |args|));
            return;
          }
        }
      }
      ok := true;
    }

    method MaxOffset() returns (max: U32)
      requires regs != map[]
      ensures IsHighest(regs, max)
    {
      var left := regs.Keys;
      assert exists off :: off in regs;
      max :| max in regs;
      while left != {}
        invariant left <= regs.Keys && max in regs
        invariant forall off <- regs :: off in left || off <= max
        decreases |left|
      {
        var off :| off in left;
        if max < off {
          max := off;
        }
        left := left - {off};
      }
    }

    /** The staged words in address order, the gaps cleared; the map is walked in ascending order, so
        where offsets share a word the highest one wins. */
    method FillBuffer(max: U32) returns (buf: array<U32>)
      requires IsHighest(regs, max)
      ensures fresh(buf) && buf.Length == max / WORD + 1
      ensures forall i: nat | i < buf.Length :: IsWordOf(regs, i, buf[i])
    {
      buf := new U32[(max + WORD) / WORD](_ => 0);
      var left := regs.Keys;
      while left != {}
        invariant left <= regs.Keys
        invariant forall off, more | off in regs && off !in left && more in left :: off < more
        invariant forall i: nat | i < buf.Length :: IsWordOfDone(regs, left, i, buf[i])
        decreases |left|
      {
        var off := LeastOf(left);
        assert off <= max;
        ghost var was := buf[..];
        buf[off / WORD] := regs[off];
        forall i: nat | i < buf.Length ensures IsWordOfDone(regs, left - {off}, i, buf[i]) {
          assert IsWordOfDone(regs, left, i, was[i]);
        }
        left := left - {off};
      }
      forall i: nat | i < buf.Length ensures IsWordOf(regs, i, buf[i]) {
        assert IsWordOfDone(regs, {}, i, buf[i]);
      }
    }

    method CopyWords(at: nat, words: seq<U32>)
      modifies this`bar
      ensures forall k: nat :: bar(k) == Copied(old(bar), at, words, |words|, k)
    {
      for i := 0 to |words|
        invariant forall k: nat :: bar(k) == Copied(old(bar), at, words, i, k)
      {
        var was, to, word := bar, at + i * WORD, words[i];
        bar := (k: nat) => if k == to then word else was(k);
      }
    }

    /** The whole map behind one resolution of the base; an empty map writes nothing. */
    method WriteBatch() returns (ok: bool)
      modifies this`bar
      ensures regs == map[] ==> ok && bar == old(bar)
      ensures !ok ==> bar == old(bar)
      ensures forall max: nat | IsHighest(regs, max) ::
                && ok == Resolves(base, (max / WORD + 1) * WORD, barLen)
                && (ok ==> forall k: nat :: IsBatched(old(bar), base % barLen, regs, max, k, bar(k)))
    {
      if regs == map[] {
        return true;
      }
      var max := MaxOffset();
      var buf := FillBuffer(max);
      ok := Resolves(base, buf.Length * WORD, barLen);
      if ok {
        var at, words := BarOffset(base, barLen), buf[..];
        CopyWords(at, words);
        CopiedIsBatched(old(bar), at, regs, max, words);
      }
    }

    /**
      A staged launch: complete arguments, the register map, then the batch.  In every argument
      register it leaves what the single writes would have left.
     */
    method StagedLaunch() returns (missing: seq<U32>, ok: bool)
      modifies this`regs, this`bar
      ensures missing == [] <==> AreComplete(args, values)
      ensures missing == [] ==> regs == Staged(AllWrites(args, values, |args|))
      ensures missing != [] || !ok ==> bar == old(bar)
      ensures missing == [] && ok && barLen != 0 ==>
                forall max: nat | LaunchFits(args, regs, base, barLen, max) ::
                  && (forall k: nat | k >= base % barLen && k - base % barLen in regs ::
                        bar(k) == Poked(old(bar), base, barLen, AllWrites(args, values, |args|), k))
                  && (AreSeparate(args) ==> InPlace(bar, base, barLen, args, values))
    {
      hide Batched, IsBatched, Staged, AllWrites, Poked, InPlace, AreSeparate;
      ok := false;
      missing := MissingArgs();
      if missing != [] {
        return;
      }
      ApplySetArgsToRegisterMap();
      ghost var writes := AllWrites(args, values, |args|);
      ok := WriteBatch();
      if ok && barLen != 0 {
        forall max: nat | LaunchFits(args, regs, base, barLen, max)
          ensures forall k: nat | k >= base % barLen && k - base % barLen in regs ::
                    bar(k) == Poked(old(bar), base, barLen, writes, k)
          ensures AreSeparate(args) ==> InPlace(bar, base, barLen, args, values)
        {
          LaunchAgrees(old(bar), bar, base, barLen, args, values, max);
        }
      }
    }
  }

  /** Aligned registers, and neither the range check nor an address wraps. */
  ghost predicate LaunchFits(args: seq<FunctionalArg>, regs: map<U32, U32>, base: U64, barLen: U64, max: nat)
    requires barLen != 0
  {
    && IsHighest(regs, max) && AreAligned(args) && base % barLen + max + WORD < TWO64
    && (base + max < TWO64 || TWO64 % barLen == 0)
  }

  /** Every word of every writable argument is at the BAR word its own register resolves to. */
  ghost predicate InPlace(bar: Bar, base: U64, barLen: U64, args: seq<FunctionalArg>, values: map<U32, U64>)
    requires barLen != 0 && AreComplete(args, values)
  {
    forall a, i: nat | 0 <= a < |args| && args[a].writable && i < WordCount(args[a]) ::
      bar(BarOffset(W64(base + Register(args[a], i)), barLen)) == WordValue(values[args[a].idx], i)
  }

  lemma LaunchAgrees(was: Bar, bar: Bar, base: U64, barLen: U64, args: seq<FunctionalArg>, values: map<U32, U64>,
                     max: nat)
    requires barLen != 0 && AreComplete(args, values)
    requires var regs := Staged(AllWrites(args, values, |args|));
             && LaunchFits(args, regs, base, barLen, max) && Resolves(base, (max / WORD + 1) * WORD, barLen)
             && forall k: nat :: IsBatched(was, base % barLen, regs, max, k, bar(k))
    ensures var writes := AllWrites(args, values, |args|);
            forall k: nat | k >= base % barLen && k - base % barLen in Staged(writes) ::
              bar(k) == Poked(was, base, barLen, writes, k)
    ensures AreSeparate(args) ==> InPlace(bar, base, barLen, args, values)
  {
    hide IsBatched, Staged, AllWrites, Poked, Resolves, AreSeparate, BarOffset, W64, WordCount, WordValue, Register;
    var writes := AllWrites(args, values, |args|);
    var regs := Staged(writes);
    StagedIsAligned(args, values, |args|);
    ResolvedFits(base, max, barLen);
    forall k: nat | k >= base % barLen && k - base % barLen in regs
      ensures bar(k) == Poked(was, base, barLen, writes, k) == regs[k - base % barLen]
    {
      AlignedBatch(was, base % barLen, regs, max, k, bar(k));
      BatchAgrees(was, base, barLen, writes, max, k);
    }
    if AreSeparate(args) {
      forall a, i: nat | 0 <= a < |args| && args[a].writable && i < WordCount(args[a])
        ensures bar(BarOffset(W64(base + Register(args[a], i)), barLen)) == WordValue(values[args[a].idx], i)
      {
        AllArgumentsArrive(args, values, |args|, a, i);
        RegisterFits(base, barLen, Register(args[a], i), max);
      }
    }
  }

  method LeastOf(s: set<U32>) returns (least: U32)
    requires s != {}
    ensures least in s && forall x <- s :: least <= x
  {
    least :| least in s;
    var left := s;
    while left != {}
      invariant left <= s && least in s && forall x <- s :: x in left || least <= x
      decreases |left|
    {
      var x :| x in left;
      if x < least {
        least := x;
      }
      left := left - {x};
    }
  }

  ghost function Copied(bar: Bar, at: nat, words: seq<U32>, n: nat, k: nat): U32
    requires n <= |words|
  {
    if at <= k && (k - at) % WORD == 0 && (k - at) / WORD < n then words[(k - at) / WORD] else bar(k)
  }

  lemma CopiedIsBatched(bar: Bar, r: nat, regs: map<U32, U32>, max: nat, words: seq<U32>)
    requires IsHighest(regs, max) && |words| == max / WORD + 1
    requires forall i: nat | i < |words| :: IsWordOf(regs, i, words[i])
    ensures forall k: nat :: IsBatched(bar, r, regs, max, k, Copied(bar, r, words, |words|, k))
  {
    hide IsWordOf;
  }

  ghost predicate AreAligned(args: seq<FunctionalArg>) {
    forall i | 0 <= i < |args| && args[i].writable :: args[i].offset % WORD == 0
  }

  ghost predicate WritesAligned(writes: seq<RegWrite>) {
    forall i | 0 <= i < |writes| :: writes[i].offset % WORD == 0
  }

  lemma {:induction false} ArgIsAligned(arg: FunctionalArg, value: U64, n: nat)
    requires arg.offset % WORD == 0
    ensures WritesAligned(ArgWrites(arg, value, n))
  {
    hide W32, WordValue;
    if n > 0 {
      ArgIsAligned(arg, value, n - 1);
      WrapKeepsAlignment(arg.offset, n - 1);
    }
  }

  lemma WrapKeepsAlignment(offset: U32, k: nat)
    requires offset % WORD == 0
    ensures W32(offset + k * WORD) % WORD == 0
  {}

  lemma {:induction false} AllAreAligned(args: seq<FunctionalArg>, values: map<U32, U64>, n: nat)
    requires n <= |args| && AreComplete(args, values) && AreAligned(args)
    ensures WritesAligned(AllWrites(args, values, n))
  {
    if n > 0 {
      AllAreAligned(args, values, n - 1);
      if args[n - 1].writable {
        ArgIsAligned(args[n - 1], values[args[n - 1].idx], WordCount(args[n - 1]));
      }
    }
  }

  lemma {:induction false} AlignedWritesStage(writes: seq<RegWrite>)
    requires WritesAligned(writes)
    ensures IsAligned(Staged(writes))
    decreases |writes|
  {
    if writes != [] {
      AlignedWritesStage(writes[..|writes| - 1]);
    }
  }

  lemma StagedIsAligned(args: seq<FunctionalArg>, values: map<U32, U64>, n: nat)
    requires n <= |args| && AreComplete(args, values) && AreAligned(args)
    ensures IsAligned(Staged(AllWrites(args, values, n)))
  {
    AllAreAligned(args, values, n);
    AlignedWritesStage(AllWrites(args, values, n));
  }

  lemma ResolvedFits(base: U64, max: nat, barLen: nat)
    requires Resolves(base, (max / WORD + 1) * WORD, barLen) && base % barLen + max + WORD < TWO64
    ensures max % WORD == 0 ==> base % barLen + max + WORD <= barLen
  {}
}
