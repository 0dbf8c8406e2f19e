/**
  Bit fields of the 256-bit host profile context: `slash_qdma_hp_set_field` / `_get_field` and the
  profile programmed by `slash_qdma_write_host_profile` in driver/slash_qdma.c.  A bit position has
  eight bits, which is exactly the range of the context, and word i holds bits [32*i+31 : 32*i].
 */
module HostProfile {

  const NUM_WORDS: nat := 8

  function FieldMask(width: bv8): bv32 {
    if width >= 32 then 0xFFFF_FFFF else (1 << width) - 1
  }

  function Masked(x: bv32, width: bv8): bv32 { And(x, FieldMask(width)) }

  function And(x: bv32, y: bv32): bv32 { x & y }

  function Or(x: bv32, y: bv32): bv32 { x | y }

  function Not(x: bv32): bv32 { !x }

  // ---------------------------------------------------------------------------------------------
  // One bit at a time
  // ---------------------------------------------------------------------------------------------

  predicate WordBit(x: bv32, j: bv8) {
    j < 32 && (x >> j) & 1 == 1
  }

  function WordOf(k: bv8): nat
    ensures WordOf(k) < NUM_WORDS
  {
    (k >> 5) as nat
  }

  function OffsetOf(k: bv8): bv8 { k & 31 }

  /** Bit k of the context. */
  predicate Bit(words: seq<bv32>, k: bv8)
    requires |words| == NUM_WORDS
  {
    WordBit(words[WordOf(k)], OffsetOf(k))
  }

  predicate Field(hi: bv8, lo: bv8) { lo <= hi && hi - lo < 32 }

  function Width(hi: bv8, lo: bv8): bv8 { hi - lo + 1 }

  predicate Within(k: bv8, hi: bv8, lo: bv8) { lo <= k <= hi }

  function Above(k: bv8, lo: bv8): bv8 { k - lo }

  function Plus(n: bv8, j: bv8): bv8 { n + j }

  function Rest(off: bv8): (n: bv8)
    ensures off < 32 ==> n <= 32
  {
    32 - off
  }

  /** `after` is `before` with bits [hi:lo] replaced by the low bits of `val`. */
  ghost predicate IsSet(before: seq<bv32>, after: seq<bv32>, hi: bv8, lo: bv8, val: bv32)
    requires |before| == |after| == NUM_WORDS && Field(hi, lo)
  {
    forall k: bv8 :: Bit(after, k) == if Within(k, hi, lo) then WordBit(val, Above(k, lo)) else Bit(before, k)
  }

  /** `r` is the value held in bits [hi:lo]. */
  ghost predicate IsField(words: seq<bv32>, hi: bv8, lo: bv8, r: bv32)
    requires |words| == NUM_WORDS && Field(hi, lo)
  {
    forall i: bv8 :: WordBit(r, i) == (i < Width(hi, lo) && Bit(words, Plus(lo, i)))
  }

  // ---------------------------------------------------------------------------------------------
  // A value is its bits
  // ---------------------------------------------------------------------------------------------

  predicate AgreeBelow(x: bv32, y: bv32, n: bv8) {
    Masked(x, n) == Masked(y, n)
  }

  lemma AgreeBelowZero(x: bv32, y: bv32)
    ensures AgreeBelow(x, y, 0)
  {}

  lemma OneMoreBit(x: bv32, y: bv32, n: bv8)
    requires n < 32 && AgreeBelow(x, y, n) && WordBit(x, n) == WordBit(y, n)
    ensures AgreeBelow(x, y, n + 1)
  {}

  lemma {:induction false} LowBitsDetermine(x: bv32, y: bv32, n: bv8)
    requires n <= 32
    requires forall i: bv8 | i < n :: WordBit(x, i) == WordBit(y, i)
    ensures AgreeBelow(x, y, n)
    decreases n
  {
    hide WordBit, FieldMask, AgreeBelow;
    if n == 0 {
      AgreeBelowZero(x, y);
    } else {
      LowBitsDetermine(x, y, n - 1);
      OneMoreBit(x, y, n - 1);
    }
  }

  lemma SameBitsSameWord(x: bv32, y: bv32)
    requires forall i: bv8 :: WordBit(x, i) == WordBit(y, i)
    ensures x == y
  {
    hide WordBit;
    LowBitsDetermine(x, y, 32);
  }

  lemma MaskBit(n: bv8, i: bv8)
    requires n <= 32
    ensures WordBit(FieldMask(n), i) == (i < n)
  {}

  lemma AndBit(x: bv32, y: bv32, i: bv8)
    ensures WordBit(And(x, y), i) == (WordBit(x, i) && WordBit(y, i))
  {}

  lemma OrBit(x: bv32, y: bv32, i: bv8)
    ensures WordBit(Or(x, y), i) == (WordBit(x, i) || WordBit(y, i))
  {}

  lemma NotBit(x: bv32, i: bv8)
    requires i < 32
    ensures WordBit(Not(x), i) == !WordBit(x, i)
  {}

  lemma MaskedBit(x: bv32, n: bv8, i: bv8)
    requires n <= 32
    ensures WordBit(Masked(x, n), i) == (i < n && WordBit(x, i))
  {
    hide WordBit, And, FieldMask;
    AndBit(x, FieldMask(n), i);
    MaskBit(n, i);
  }

  // ---------------------------------------------------------------------------------------------
  // The two-word window a field is shifted into, one half at a time
  // ---------------------------------------------------------------------------------------------

  function Low(x: bv64): bv32 { (x & 0xFFFF_FFFF) as bv32 }

  function High(x: bv64): bv32 { (x >> 32) as bv32 }

  /** The low word of two adjacent words taken as one value and shifted down. */
  function Window(low: bv32, high: bv32, off: bv8): bv32
    requires off < 32
  {
    (((low as bv64 | (high as bv64 << 32)) >> off) & 0xFFFF_FFFF) as bv32
  }

  function Up(x: bv32, off: bv8): bv64
    requires off < 32
  {
    x as bv64 << off
  }

  function Left(x: bv32, n: bv8): bv32
    requires n <= 32
  {
    x << n
  }

  function Right(x: bv32, n: bv8): bv32
    requires n <= 32
  {
    x >> n
  }

  function Blend(w: bv32, m: bv32, v: bv32): bv32 { Or(And(w, Not(m)), v) }

  lemma RightWithin(x: bv32, n: bv8, j: bv8)
    requires n <= 32 && j < 32 && n + j < 32
    ensures ((x >> n) >> j) & 1 == (x >> (n + j)) & 1
  {}

  lemma RightBeyond(x: bv32, n: bv8, j: bv8)
    requires n <= 32 && j < 32 && 32 <= n + j
    ensures ((x >> n) >> j) & 1 == 0
  {}

  lemma LeftWithin(x: bv32, n: bv8, j: bv8)
    requires n <= j < 32
    ensures ((x << n) >> j) & 1 == (x >> (j - n)) & 1
  {}

  lemma LeftBelow(x: bv32, n: bv8, j: bv8)
    requires j < n <= 32
    ensures ((x << n) >> j) & 1 == 0
  {}

  lemma ShiftedRightBit(x: bv32, n: bv8, j: bv8)
    requires n <= 32 && j < 32
    ensures WordBit(x >> n, j) == WordBit(x, n + j)
  {
    if n + j < 32 {
      RightWithin(x, n, j);
    } else {
      RightBeyond(x, n, j);
    }
  }

  lemma RightBit(x: bv32, n: bv8, j: bv8)
    requires n <= 32 && j < 32
    ensures WordBit(Right(x, n), j) == WordBit(x, Plus(n, j))
  {
    hide WordBit;
    ShiftedRightBit(x, n, j);
  }

  lemma ShiftedLeftBit(x: bv32, n: bv8, j: bv8)
    requires n <= 32 && j < 32
    ensures WordBit(x << n, j) == (n <= j && WordBit(x, j - n))
  {
    if n <= j {
      LeftWithin(x, n, j);
    } else {
      LeftBelow(x, n, j);
    }
  }

  lemma LeftBit(x: bv32, n: bv8, j: bv8)
    requires n <= 32 && j < 32
    ensures WordBit(Left(x, n), j) == (n <= j && WordBit(x, Above(j, n)))
  {
    hide WordBit;
    ShiftedLeftBit(x, n, j);
  }

  lemma BlendBit(w: bv32, m: bv32, v: bv32, j: bv8)
    requires j < 32 && (WordBit(v, j) ==> WordBit(m, j))
    ensures WordBit(Blend(w, m, v), j) == if WordBit(m, j) then WordBit(v, j) else WordBit(w, j)
  {
    hide WordBit, And, Not, Or;
    NotBit(m, j);
    AndBit(w, Not(m), j);
    OrBit(And(w, Not(m)), v, j);
  }

  lemma LowHalf(x: bv32, off: bv8, y: bv64)
    requires off < 32 && y == x as bv64 << off
    ensures Low(y) == Left(x, off)
  {}

  lemma HighHalf(x: bv32, off: bv8, n: bv8)
    requires off < 32 && n <= 32 && n == 32 - off
    ensures High(Up(x, off)) == Right(x, n)
  {}

  lemma HalvesOfUp(x: bv32, off: bv8)
    requires off < 32
    ensures Low(Up(x, off)) == Left(x, off) && High(Up(x, off)) == Right(x, Rest(off))
  {
    hide Low, High, Left, Right;
    LowHalf(x, off, Up(x, off));
    HighHalf(x, off, Rest(off));
  }

  /** The word a field starts in, after the field has been set. */
  function NewLow(w: bv32, width: bv8, off: bv8, val: bv32): bv32
    requires off < 32
  {
    Blend(w, Low(Up(FieldMask(width), off)), Low(Up(Masked(val, width), off)))
  }

  /** The word a straddling field continues in. */
  function NewHigh(w: bv32, width: bv8, off: bv8, val: bv32): bv32
    requires off < 32
  {
    Blend(w, High(Up(FieldMask(width), off)), High(Up(Masked(val, width), off)))
  }

  predicate HitsLow(width: bv8, off: bv8, b: bv8) { off <= b && Above(b, off) < width }

  predicate HitsHigh(width: bv8, off: bv8, b: bv8) { Plus(Rest(off), b) < width }

  lemma NewLowBit(w: bv32, width: bv8, off: bv8, val: bv32, b: bv8)
    requires off < 32 && b < 32 && width <= 32
    ensures WordBit(NewLow(w, width, off, val), b) ==
              if HitsLow(width, off, b) then WordBit(val, Above(b, off)) else WordBit(w, b)
  {
    hide WordBit, Blend, Low, High, Up, FieldMask, Masked, Left, Right, Above;
    HalvesOfUp(FieldMask(width), off);
    HalvesOfUp(Masked(val, width), off);
    LeftBit(FieldMask(width), off, b);
    LeftBit(Masked(val, width), off, b);
    MaskBit(width, Above(b, off));
    MaskedBit(val, width, Above(b, off));
    BlendBit(w, Left(FieldMask(width), off), Left(Masked(val, width), off), b);
  }

  lemma NewHighBit(w: bv32, width: bv8, off: bv8, val: bv32, b: bv8)
    requires off < 32 && b < 32 && width <= 32
    ensures WordBit(NewHigh(w, width, off, val), b) ==
              if HitsHigh(width, off, b) then WordBit(val, Plus(Rest(off), b)) else WordBit(w, b)
  {
    hide WordBit, Blend, Low, High, Up, FieldMask, Masked, Left, Right, Plus, Rest;
    var n := Rest(off);
    HalvesOfUp(FieldMask(width), off);
    HalvesOfUp(Masked(val, width), off);
    RightBit(FieldMask(width), n, b);
    RightBit(Masked(val, width), n, b);
    MaskBit(width, Plus(Rest(off), b));
    MaskedBit(val, width, Plus(Rest(off), b));
    BlendBit(w, Right(FieldMask(width), n), Right(Masked(val, width), n), b);
  }

  // ---------------------------------------------------------------------------------------------
  // Where a bit of the context lies
  // ---------------------------------------------------------------------------------------------

  lemma SameWordRaw(hi: bv8, lo: bv8, k: bv8)
    requires lo <= hi && hi - lo < 32 && k >> 5 == lo >> 5
    ensures lo <= k <= hi <==> (lo & 31) <= (k & 31) && (k & 31) - (lo & 31) < hi - lo + 1
    ensures k - lo == (k & 31) - (lo & 31)
  {}

  lemma NextWordRaw(hi: bv8, lo: bv8, k: bv8)
    requires lo <= hi && hi - lo < 32 && k >> 5 == (lo >> 5) + 1
    ensures lo <= k <= hi <==> 32 - (lo & 31) + (k & 31) < hi - lo + 1
    ensures k - lo == 32 - (lo & 31) + (k & 31)
  {}

  lemma OtherWordRaw(hi: bv8, lo: bv8, k: bv8)
    requires lo <= hi && hi - lo < 32 && k >> 5 != lo >> 5
    requires k >> 5 != (lo >> 5) + 1 || (lo & 31) + (hi - lo + 1) <= 32
    ensures !(lo <= k <= hi)
  {}

  lemma WordOfMeans(k: bv8, lo: bv8)
    ensures WordOf(k) == WordOf(lo) <==> k >> 5 == lo >> 5
    ensures WordOf(k) == WordOf(lo) + 1 <==> k >> 5 == (lo >> 5) + 1
  {}

  lemma FieldFits(hi: bv8, lo: bv8)
    requires Field(hi, lo)
    ensures 1 <= Width(hi, lo) <= 32 && OffsetOf(lo) < 32
  {}

  predicate Straddles(hi: bv8, lo: bv8) { OffsetOf(lo) + Width(hi, lo) > 32 }

  lemma OffsetFits(k: bv8)
    ensures OffsetOf(k) < 32
  {}

  lemma SameWord(hi: bv8, lo: bv8, k: bv8)
    requires Field(hi, lo) && WordOf(k) == WordOf(lo)
    ensures Within(k, hi, lo) == HitsLow(Width(hi, lo), OffsetOf(lo), OffsetOf(k))
    ensures Above(k, lo) == Above(OffsetOf(k), OffsetOf(lo))
  {
    hide WordOf;
    WordOfMeans(k, lo);
    SameWordRaw(hi, lo, k);
  }

  lemma NextWord(hi: bv8, lo: bv8, k: bv8)
    requires Field(hi, lo) && WordOf(k) == WordOf(lo) + 1
    ensures Within(k, hi, lo) == HitsHigh(Width(hi, lo), OffsetOf(lo), OffsetOf(k))
    ensures Above(k, lo) == Plus(Rest(OffsetOf(lo)), OffsetOf(k))
  {
    hide WordOf;
    WordOfMeans(k, lo);
    NextWordRaw(hi, lo, k);
  }

  lemma OtherWord(hi: bv8, lo: bv8, k: bv8)
    requires Field(hi, lo) && WordOf(k) != WordOf(lo)
    requires WordOf(k) != WordOf(lo) + 1 || !Straddles(hi, lo)
    ensures !Within(k, hi, lo)
  {
    hide WordOf;
    WordOfMeans(k, lo);
    OtherWordRaw(hi, lo, k);
  }

  // ---------------------------------------------------------------------------------------------
  // Setting a field
  // ---------------------------------------------------------------------------------------------

  function SetFirst(words: seq<bv32>, hi: bv8, lo: bv8, val: bv32): (after: seq<bv32>)
    requires |words| == NUM_WORDS && Field(hi, lo)
    ensures |after| == NUM_WORDS
  {
    FieldFits(hi, lo);
    words[WordOf(lo) := NewLow(words[WordOf(lo)], Width(hi, lo), OffsetOf(lo), val)]
  }

  /** The context after a field has been set. */
  function SetWords(words: seq<bv32>, hi: bv8, lo: bv8, val: bv32): (after: seq<bv32>)
    requires |words| == NUM_WORDS && Field(hi, lo)
    ensures |after| == NUM_WORDS
  {
    FieldFits(hi, lo);
    var first, word := SetFirst(words, hi, lo, val), WordOf(lo);
    if Straddles(hi, lo) && word + 1 < NUM_WORDS then
      first[word + 1 := NewHigh(first[word + 1], Width(hi, lo), OffsetOf(lo), val)]
    else
      first
  }

  predicate BitAfter(before: seq<bv32>, hi: bv8, lo: bv8, val: bv32, k: bv8)
    requires |before| == NUM_WORDS && Field(hi, lo)
  {
    if Within(k, hi, lo) then WordBit(val, Above(k, lo)) else Bit(before, k)
  }

  lemma SetBitFirst(words: seq<bv32>, hi: bv8, lo: bv8, val: bv32, k: bv8)
    requires |words| == NUM_WORDS && Field(hi, lo) && WordOf(k) == WordOf(lo)
    ensures Bit(SetWords(words, hi, lo, val), k) == BitAfter(words, hi, lo, val, k)
  {
    hide WordBit, NewLow, NewHigh, WordOf, OffsetOf, Width, Above, Within, Field, HitsLow, Straddles;
    FieldFits(hi, lo);
    OffsetFits(k);
    SameWord(hi, lo, k);
    NewLowBit(words[WordOf(lo)], Width(hi, lo), OffsetOf(lo), val, OffsetOf(k));
  }

  lemma SetBitSecond(words: seq<bv32>, hi: bv8, lo: bv8, val: bv32, k: bv8)
    requires |words| == NUM_WORDS && Field(hi, lo)
    requires WordOf(k) == WordOf(lo) + 1 && Straddles(hi, lo)
    ensures Bit(SetWords(words, hi, lo, val), k) == BitAfter(words, hi, lo, val, k)
  {
    hide WordBit, NewLow, NewHigh, WordOf, OffsetOf, Width, Above, Within, Field, HitsHigh, Straddles,
      Plus, Rest;
    FieldFits(hi, lo);
    OffsetFits(k);
    NextWord(hi, lo, k);
    NewHighBit(words[WordOf(k)], Width(hi, lo), OffsetOf(lo), val, OffsetOf(k));
  }

  lemma SetBitElsewhere(words: seq<bv32>, hi: bv8, lo: bv8, val: bv32, k: bv8)
    requires |words| == NUM_WORDS && Field(hi, lo) && WordOf(k) != WordOf(lo)
    requires WordOf(k) != WordOf(lo) + 1 || !Straddles(hi, lo)
    ensures Bit(SetWords(words, hi, lo, val), k) == BitAfter(words, hi, lo, val, k)
  {
    hide WordBit, NewLow, NewHigh, WordOf, OffsetOf, Width, Above, Within, Field, Straddles;
    OtherWord(hi, lo, k);
  }

  lemma SetWordsIsSet(words: seq<bv32>, hi: bv8, lo: bv8, val: bv32)
    requires |words| == NUM_WORDS && Field(hi, lo)
    ensures IsSet(words, SetWords(words, hi, lo, val), hi, lo, val)
  {
    hide WordBit, Bit, SetWords, WordOf, OffsetOf, Field, Straddles, Above, Within;
    forall k: bv8 ensures Bit(SetWords(words, hi, lo, val), k) == BitAfter(words, hi, lo, val, k) {
      if WordOf(k) == WordOf(lo) {
        SetBitFirst(words, hi, lo, val, k);
      } else if WordOf(k) == WordOf(lo) + 1 && Straddles(hi, lo) {
        SetBitSecond(words, hi, lo, val, k);
      } else {
        SetBitElsewhere(words, hi, lo, val, k);
      }
    }
  }

  method SetField(words: array<bv32>, hi: bv8, lo: bv8, val: bv32)
    requires words.Length == NUM_WORDS && Field(hi, lo)
    modifies words
    ensures IsSet(old(words[..]), words[..], hi, lo, val)
  {
    hide WordBit, Bit, Blend, Low, High, Up, FieldMask, Masked, WordOf, OffsetOf, IsSet, Width, Straddles, Field;
    FieldFits(hi, lo);
    var width := Width(hi, lo);
    var fmask := FieldMask(width);
    var word := WordOf(lo);
    var off := OffsetOf(lo);
    var wmask := Up(fmask, off);
    var wval := Up(Masked(val, width), off);

    words[word] := Blend(words[word], Low(wmask), Low(wval));
    if Straddles(hi, lo) && word + 1 < NUM_WORDS {
      words[word + 1] := Blend(words[word + 1], High(wmask), High(wval));
    }
    assert words[..] == SetWords(old(words[..]), hi, lo, val);
    SetWordsIsSet(old(words[..]), hi, lo, val);
  }

  // ---------------------------------------------------------------------------------------------
  // Getting a field
  // ---------------------------------------------------------------------------------------------

  lemma WindowAt(low: bv32, high: bv32, off: bv8, n: bv8)
    requires off < 32 && n <= 32 && n == 32 - off
    ensures Window(low, high, off) == Or(Right(low, off), Left(high, n))
  {}

  lemma LowOfWindow(low: bv32, high: bv32, off: bv8)
    requires off < 32
    ensures Window(low, high, off) == Or(Right(low, off), Left(high, Rest(off)))
  {
    hide Window, Or, Right, Left;
    WindowAt(low, high, off, Rest(off));
  }

  lemma StepsWithinRaw(hi: bv8, lo: bv8, i: bv8)
    requires lo <= hi && hi - lo < 32 && i < hi - lo + 1
    ensures lo <= lo + i <= hi
  {}

  lemma StepsSameRaw(lo: bv8, i: bv8)
    requires i < 32 && (lo & 31) + i < 32
    ensures (lo + i) >> 5 == lo >> 5 && (lo + i) & 31 == (lo & 31) + i && i < 32 - (lo & 31)
  {}

  lemma StepsNextRaw(lo: bv8, i: bv8)
    requires i < 32 && 32 <= (lo & 31) + i && lo <= lo + i
    ensures (lo + i) >> 5 == (lo >> 5) + 1 && (lo + i) & 31 == i - (32 - (lo & 31)) && 32 - (lo & 31) <= i
  {}

  lemma AbovePlus(lo: bv8, i: bv8)
    ensures Above(Plus(lo, i), lo) == i
  {}

  lemma StepsWithin(hi: bv8, lo: bv8, i: bv8)
    requires Field(hi, lo) && i < Width(hi, lo)
    ensures lo <= lo + i <= hi && i < 32
  {
    StepsWithinRaw(hi, lo, i);
  }

  lemma PlusWithin(hi: bv8, lo: bv8, i: bv8)
    requires Field(hi, lo) && i < Width(hi, lo)
    ensures lo <= Plus(lo, i) <= hi && Within(Plus(lo, i), hi, lo) && i < 32
  {
    hide Field, Width;
    StepsWithin(hi, lo, i);
  }

  lemma StepsSame(lo: bv8, i: bv8)
    requires i < 32 && Plus(OffsetOf(lo), i) < 32
    ensures WordOf(Plus(lo, i)) == WordOf(lo)
    ensures OffsetOf(Plus(lo, i)) == Plus(OffsetOf(lo), i) && i < Rest(OffsetOf(lo))
  {
    hide WordOf;
    StepsSameRaw(lo, i);
    WordOfMeans(Plus(lo, i), lo);
  }

  lemma StepsNext(lo: bv8, i: bv8)
    requires i < 32 && 32 <= Plus(OffsetOf(lo), i) && lo <= Plus(lo, i)
    ensures WordOf(Plus(lo, i)) == WordOf(lo) + 1
    ensures OffsetOf(Plus(lo, i)) == Above(i, Rest(OffsetOf(lo))) && Rest(OffsetOf(lo)) <= i
  {
    hide WordOf;
    StepsNextRaw(lo, i);
    WordOfMeans(Plus(lo, i), lo);
  }

  lemma BeyondWord(x: bv32, j: bv8)
    requires 32 <= j
    ensures !WordBit(x, j)
  {}

  lemma GetBit(words: seq<bv32>, hi: bv8, lo: bv8, high: bv32, i: bv8)
    requires |words| == NUM_WORDS && Field(hi, lo) && i < Width(hi, lo) && OffsetOf(lo) < 32
    requires WordOf(lo) + 1 < NUM_WORDS ==> high == words[WordOf(lo) + 1]
    ensures WordBit(Window(words[WordOf(lo)], high, OffsetOf(lo)), i) == Bit(words, Plus(lo, i))
  {
    hide WordBit, Window, WordOf, OffsetOf, Plus, Rest, Left, Right, Or, Field, Width, Above;
    var low, off := words[WordOf(lo)], OffsetOf(lo);
    FieldFits(hi, lo);
    LowOfWindow(low, high, off);
    OrBit(Right(low, off), Left(high, Rest(off)), i);
    RightBit(low, off, i);
    LeftBit(high, Rest(off), i);
    PlusWithin(hi, lo, i);
    if 32 <= Plus(off, i) {
      StepsNext(lo, i);
      BeyondWord(low, Plus(off, i));
    } else {
      StepsSame(lo, i);
    }
  }

  method GetField(words: array<bv32>, hi: bv8, lo: bv8) returns (r: bv32)
    requires words.Length == NUM_WORDS && Field(hi, lo)
    ensures IsField(words[..], hi, lo, r)
  {
    hide WordBit, Bit, Window, WordOf, OffsetOf, Field, Width, Masked, Plus;
    FieldFits(hi, lo);
    var word := WordOf(lo);
    var high := 0;
    if word + 1 < NUM_WORDS {
      high := words[word + 1];
    }
    r := Masked(Window(words[word], high, OffsetOf(lo)), Width(hi, lo));
    forall i: bv8 ensures WordBit(r, i) == (i < Width(hi, lo) && Bit(words[..], Plus(lo, i))) {
      MaskedBit(Window(words[word], high, OffsetOf(lo)), Width(hi, lo), i);
      if i < Width(hi, lo) {
        GetBit(words[..], hi, lo, high, i);
      }
    }
  }

  // ---------------------------------------------------------------------------------------------
  // Laws
  // ---------------------------------------------------------------------------------------------

  predicate Disjoint(hi1: bv8, lo1: bv8, hi2: bv8, lo2: bv8) { hi1 < lo2 || hi2 < lo1 }

  lemma DisjointMeans(hi1: bv8, lo1: bv8, hi2: bv8, lo2: bv8, k: bv8)
    requires Disjoint(hi1, lo1, hi2, lo2)
    ensures !(Within(k, hi1, lo1) && Within(k, hi2, lo2))
  {}

  /** A field holds one value. */
  lemma FieldIsUnique(words: seq<bv32>, hi: bv8, lo: bv8, r1: bv32, r2: bv32)
    requires |words| == NUM_WORDS && Field(hi, lo)
    requires IsField(words, hi, lo, r1) && IsField(words, hi, lo, r2)
    ensures r1 == r2
  {
    hide WordBit, Bit, Width, Field;
    SameBitsSameWord(r1, r2);
  }

  /** Get after set: the field holds the written value cut to its width. */
  lemma SetThenField(before: seq<bv32>, after: seq<bv32>, hi: bv8, lo: bv8, val: bv32)
    requires |before| == |after| == NUM_WORDS && Field(hi, lo) && IsSet(before, after, hi, lo, val)
    ensures IsField(after, hi, lo, Masked(val, Width(hi, lo)))
  {
    hide WordBit, Bit, Width, Field, Plus, Above, Within, Masked;
    FieldFits(hi, lo);
    forall i: bv8
      ensures WordBit(Masked(val, Width(hi, lo)), i) == (i < Width(hi, lo) && Bit(after, Plus(lo, i)))
    {
      MaskedBit(val, Width(hi, lo), i);
      if i < Width(hi, lo) {
        PlusWithin(hi, lo, i);
        AbovePlus(lo, i);
      }
    }
  }

  /** Setting one field leaves every disjoint field as it was. */
  lemma SetKeepsField(before: seq<bv32>, after: seq<bv32>, hi: bv8, lo: bv8, val: bv32,
                      hi2: bv8, lo2: bv8, r: bv32)
    requires |before| == |after| == NUM_WORDS && Field(hi, lo) && Field(hi2, lo2)
    requires IsSet(before, after, hi, lo, val) && IsField(before, hi2, lo2, r)
    requires Disjoint(hi, lo, hi2, lo2)
    ensures IsField(after, hi2, lo2, r)
  {
    hide WordBit, Bit, Width, Field, Plus, Above, Within, Disjoint;
    forall i: bv8 ensures WordBit(r, i) == (i < Width(hi2, lo2) && Bit(after, Plus(lo2, i))) {
      if i < Width(hi2, lo2) {
        PlusWithin(hi2, lo2, i);
        DisjointMeans(hi, lo, hi2, lo2, Plus(lo2, i));
      }
    }
  }

  /** The context position of bit i of word n. */
  function PositionOf(n: bv8, i: bv8): bv8 { (n << 5) + i }

  lemma PositionRaw(n: bv8, i: bv8)
    requires n < 8 && i < 32
    ensures ((n << 5) + i) >> 5 == n && ((n << 5) + i) & 31 == i
  {}

  lemma PositionMeans(n: bv8, i: bv8)
    requires n < 8 && i < 32
    ensures WordOf(PositionOf(n, i)) == n as nat && OffsetOf(PositionOf(n, i)) == i
  {
    PositionRaw(n, i);
  }

  function IndexOf(n: nat): (m: bv8)
    requires n < NUM_WORDS
    ensures m < 8 && m as nat == n
  {
    if n < 4 then if n == 0 then 0 else if n == 1 then 1 else if n == 2 then 2 else 3
    else if n == 4 then 4 else if n == 5 then 5 else if n == 6 then 6 else 7
  }

  lemma SameBitsSameContext(a: seq<bv32>, b: seq<bv32>)
    requires |a| == |b| == NUM_WORDS
    requires forall k: bv8 :: Bit(a, k) == Bit(b, k)
    ensures a == b
  {
    hide WordBit, WordOf, OffsetOf, PositionOf, IndexOf;
    forall n | 0 <= n < NUM_WORDS ensures a[n] == b[n] {
      var m := IndexOf(n);
      forall i: bv8 ensures WordBit(a[n], i) == WordBit(b[n], i) {
        if i < 32 {
          PositionMeans(m, i);
          assert Bit(a, PositionOf(m, i)) == Bit(b, PositionOf(m, i));
        } else {
          BeyondWord(a[n], i);
          BeyondWord(b[n], i);
        }
      }
      SameBitsSameWord(a[n], b[n]);
    }
  }

  /** Two sets of disjoint fields commute. */
  lemma DisjointSetsCommute(w: seq<bv32>, w1: seq<bv32>, w12: seq<bv32>, w2: seq<bv32>, w21: seq<bv32>,
                            hi1: bv8, lo1: bv8, val1: bv32, hi2: bv8, lo2: bv8, val2: bv32)
    requires |w| == |w1| == |w12| == |w2| == |w21| == NUM_WORDS && Field(hi1, lo1) && Field(hi2, lo2)
    requires Disjoint(hi1, lo1, hi2, lo2)
    requires IsSet(w, w1, hi1, lo1, val1) && IsSet(w1, w12, hi2, lo2, val2)
    requires IsSet(w, w2, hi2, lo2, val2) && IsSet(w2, w21, hi1, lo1, val1)
    ensures w12 == w21
  {
    hide WordBit, Bit, Width, Field, Above, Within, Disjoint;
    forall k: bv8 ensures Bit(w12, k) == Bit(w21, k) {
      DisjointMeans(hi1, lo1, hi2, lo2, k);
    }
    SameBitsSameContext(w12, w21);
  }
}
