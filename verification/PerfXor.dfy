/**
  The XOR check of the bandwidth example: the device kernel's write and accumulate loops
  (examples/05_perf/hls/perf.cpp) and the closed form the host compares with
  (examples/05_perf/05_perf.cpp), on 32-bit words.
 */
module PerfXor {

  /** A 256-bit word: the low lane and the seven above it. */
  datatype Word256 = Word256(low: bv32, upper: seq<bv32>)

  const NO_UPPER: seq<bv32> := seq(7, _ => 0)

  function Inc(c: bv32): bv32 { c + 1 }

  function Dec(c: bv32): bv32 { c - 1 }

  function Xor(a: bv32, b: bv32): bv32 { a ^ b }

  /** A 32-bit loop counter after n increments. */
  function Counter(n: nat): bv32 {
    if n == 0 then 0 else Inc(Counter(n - 1))
  }

  lemma CounterSteps(n: nat)
    ensures Counter(0) == 0 && Counter(n + 1) == Inc(Counter(n))
  {}

  /** The XOR of 0 through n. */
  function XorTo(n: nat): bv32 {
    if n == 0 then Counter(0) else Xor(XorTo(n - 1), Counter(n))
  }

  function XorZeroToN(n: bv32): bv32 {
    if n & 3 == 0 then n
    else if n & 3 == 1 then 1
    else if n & 3 == 2 then n + 1
    else 0
  }

  lemma OneMore(c: bv32)
    ensures XorZeroToN(Inc(c)) == Xor(XorZeroToN(c), Inc(c))
  {}

  lemma OfZero()
    ensures XorZeroToN(0) == 0
  {}

  /** The closed form is the XOR of 0 through n, for every n. */
  lemma {:induction false} ClosedFormIsXor(n: nat)
    ensures XorZeroToN(Counter(n)) == XorTo(n)
  {
    hide XorZeroToN, Inc, Xor;
    if n == 0 {
      OfZero();
    } else {
      ClosedFormIsXor(n - 1);
      OneMore(Counter(n - 1));
    }
  }

  /** Folds the low lanes of the first n words. */
  ghost function Folded(words: seq<Word256>, n: nat): bv32
    requires n <= |words|
  {
    if n == 0 then 0 else Xor(Folded(words, n - 1), words[n - 1].low)
  }

  lemma {:induction false} FoldOfCounters(words: seq<Word256>, n: nat)
    requires n <= |words| && forall i | 0 <= i < n :: words[i].low == Counter(i)
    ensures Folded(words, n) == if n == 0 then 0 else XorTo(n - 1)
  {
    hide Inc, Xor;
    if n > 0 {
      FoldOfCounters(words, n - 1);
      if n == 1 {
        XorZero(words[0].low);
      }
    }
  }

  lemma XorZero(x: bv32)
    ensures Xor(0, x) == x
  {}

  method WritePass(mem: array<Word256>)
    modifies mem
    ensures forall i | 0 <= i < mem.Length :: mem[i] == Word256(Counter(i), NO_UPPER)
  {
    hide Inc, Counter;
    var i: bv32 := 0;
    CounterSteps(0);
    for n := 0 to mem.Length
      invariant i == Counter(n)
      invariant forall k | 0 <= k < n :: mem[k] == Word256(Counter(k), NO_UPPER)
    {
      CounterSteps(n);
      mem[n] := Word256(i, NO_UPPER);
      i := Inc(i);
    }
  }

  method ReadPass(mem: array<Word256>) returns (acc: bv32)
    ensures acc == Folded(mem[..], mem.Length)
  {
    hide Xor;
    acc := 0;
    for n := 0 to mem.Length
      invariant acc == Folded(mem[..], n)
    {
      acc := Xor(acc, mem[n].low);
    }
  }

  /** After a write pass the read pass accumulates what the host expects, for every length. */
  method WriteThenRead(mem: array<Word256>) returns (acc: bv32, expected: bv32)
    modifies mem
    ensures acc == expected == XorZeroToN(Dec(Counter(mem.Length)))
  {
    hide XorZeroToN, Counter, XorTo, Folded, Inc, Dec, Xor;
    WritePass(mem);
    acc := ReadPass(mem);
    FoldOfCounters(mem[..], mem.Length);
    expected := XorZeroToN(Dec(Counter(mem.Length)));
    if mem.Length > 0 {
      LastCounter(mem.Length);
      ClosedFormIsXor(mem.Length - 1);
    } else {
      NoWords();
    }
  }

  lemma LastCounter(n: nat)
    requires n > 0
    ensures Dec(Counter(n)) == Counter(n - 1)
  {}

  lemma NoWords()
    ensures XorZeroToN(Dec(Counter(0))) == 0
  {}
}
