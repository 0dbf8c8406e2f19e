/**
  Programming one host profile through the indirect-context registers and reading it back:
  `slash_qdma_write_host_profile`, `slash_qdma_read_host_profile` and `slash_qdma_hp_wait_ready` in
  driver/slash_qdma.c.  Any register access may fail and the busy bit may stay set for any time; the
  controller's storage is faithful (a write command stores the data words where the mask is set, a
  read command loads them back).
 */
module ProfileWriter {
  import opened HostProfile

  const EIO: int := 5
  const ETIMEDOUT: int := 110
  const POLL_US: nat := 1000
  const OP_WR: bv32 := 1
  const OP_RD: bv32 := 2
  const SEL: bv32 := 0xA
  const SMID_BASE: bv32 := 0x100
  const ZEROS: seq<bv32> := [0, 0, 0, 0, 0, 0, 0, 0]

  // ---------------------------------------------------------------------------------------------
  // What a profile is
  // ---------------------------------------------------------------------------------------------

  function Smid(host: bv32): bv32 { SMID_BASE + host }

  predicate InProfile(k: bv8) {
    Within(k, 201, 192) || Within(k, 181, 178) || Within(k, 97, 94)
  }

  /** The three fields hold the master id and the steering value, and every other bit is clear. */
  ghost predicate IsProfile(words: seq<bv32>, host: bv32)
    requires |words| == NUM_WORDS
  {
    && IsField(words, 201, 192, Masked(Smid(host), 10))
    && IsField(words, 181, 178, Masked(host, 4))
    && IsField(words, 97, 94, Masked(host, 4))
    && forall k: bv8 :: InProfile(k) || !Bit(words, k)
  }

  /** The id a host's profile carries is 0x100 above the host's own, so hosts are told apart. */
  lemma HostsAreDistinct(host: bv32, other: bv32)
    requires host < 16 && other < 16
    ensures Masked(Smid(host), 10) == 0x100 + host && Masked(host, 4) == host
    ensures host != other ==> Masked(Smid(host), 10) != Masked(Smid(other), 10)
  {}

  lemma ZerosAreClear(k: bv8)
    ensures !Bit(ZEROS, k)
  {
    hide WordOf, OffsetOf, WordBit;
    assert ZEROS[WordOf(k)] == 0;
    ZeroBit(OffsetOf(k));
  }

  lemma ZeroBit(j: bv8)
    ensures !WordBit(0, j)
  {}

  lemma Layout()
    ensures Field(201, 192) && Field(181, 178) && Field(97, 94)
    ensures Width(201, 192) == 10 && Width(181, 178) == 4 && Width(97, 94) == 4
    ensures Disjoint(181, 178, 201, 192) && Disjoint(97, 94, 201, 192) && Disjoint(97, 94, 181, 178)
  {}

  /** Setting the three fields one after the other builds the profile. */
  lemma ThreeSets(w1: seq<bv32>, w2: seq<bv32>, w3: seq<bv32>, host: bv32)
    requires |w1| == |w2| == |w3| == NUM_WORDS
    requires Field(201, 192) && Field(181, 178) && Field(97, 94)
    requires IsSet(ZEROS, w1, 201, 192, Smid(host)) && IsSet(w1, w2, 181, 178, host) && IsSet(w2, w3, 97, 94, host)
    ensures IsProfile(w3, host)
  {
    hide IsSet, IsField, Masked, Smid;
    Layout();
    SetThenField(ZEROS, w1, 201, 192, Smid(host));
    SetKeepsField(w1, w2, 181, 178, host, 201, 192, Masked(Smid(host), 10));
    SetKeepsField(w2, w3, 97, 94, host, 201, 192, Masked(Smid(host), 10));
    SetThenField(w1, w2, 181, 178, host);
    SetKeepsField(w2, w3, 97, 94, host, 181, 178, Masked(host, 4));
    SetThenField(w2, w3, 97, 94, host);
    forall k: bv8 ensures InProfile(k) || !Bit(w3, k) {
      ClearElsewhere(w1, w2, w3, host, k);
    }
  }

  lemma ClearElsewhere(w1: seq<bv32>, w2: seq<bv32>, w3: seq<bv32>, host: bv32, k: bv8)
    requires |w1| == |w2| == |w3| == NUM_WORDS
    requires Field(201, 192) && Field(181, 178) && Field(97, 94)
    requires IsSet(ZEROS, w1, 201, 192, Smid(host)) && IsSet(w1, w2, 181, 178, host) && IsSet(w2, w3, 97, 94, host)
    ensures InProfile(k) || !Bit(w3, k)
  {
    hide Bit, WordBit, Within, Above, Smid;
    ZerosAreClear(k);
  }

  method BuildProfile(host: bv32) returns (words: seq<bv32>)
    ensures |words| == NUM_WORDS && IsProfile(words, host)
  {
    hide IsSet, IsProfile, Smid;
    Layout();
    var data := new bv32[NUM_WORDS](_ => 0);
    assert data[..] == ZEROS;
    SetField(data, 201, 192, Smid(host));
    ghost var w1 := data[..];
    SetField(data, 181, 178, host);
    ghost var w2 := data[..];
    SetField(data, 97, 94, host);
    words := data[..];
    ThreeSets(w1, w2, words, host);
  }

  // ---------------------------------------------------------------------------------------------
  // The controller
  // ---------------------------------------------------------------------------------------------

  function Command(host: bv32, op: bv32): bv32 { (host << 7) | (op << 5) | (SEL << 1) }

  /** The command words of the first two hosts. */
  lemma CommandValues()
    ensures Command(0, OP_WR) == 0x34 && Command(1, OP_WR) == 0xB4
    ensures Command(0, OP_RD) == 0x54 && Command(1, OP_RD) == 0xD4
  {}

  /** A context of the controller, by the id the command carries. */
  datatype Slot = Slot(id: bv32)

  function SlotOf(cmd: bv32): Slot { Slot(cmd >> 7) }

  function OpOf(cmd: bv32): bv32 { (cmd >> 5) & 3 }

  lemma CommandBits(host: bv32, op: bv32)
    requires op < 4
    ensures (((host << 7) | (op << 5) | (0xA << 1)) >> 5) & 3 == op
    ensures ((host << 7) | (op << 5) | (0xA << 1)) >> 7 == (host << 7) >> 7
  {}

  lemma CommandDecodes(host: bv32, op: bv32)
    requires op < 4
    ensures OpOf(Command(host, op)) == op && SlotOf(Command(host, op)) == Slot((host << 7) >> 7)
  {
    CommandBits(host, op);
  }

  function Stored(was: seq<bv32>, data: seq<bv32>, mask: seq<bv32>): (r: seq<bv32>)
    requires |was| == |data| == |mask| == NUM_WORDS
    ensures |r| == NUM_WORDS
  {
    seq(NUM_WORDS, i requires 0 <= i < NUM_WORDS => (was[i] & !mask[i]) | (data[i] & mask[i]))
  }

  lemma FullMaskStoresAll(was: seq<bv32>, data: seq<bv32>, mask: seq<bv32>)
    requires |was| == |data| == |mask| == NUM_WORDS
    requires forall i | 0 <= i < NUM_WORDS :: mask[i] == 0xFFFF_FFFF
    ensures Stored(was, data, mask) == data
  {
    forall i | 0 <= i < NUM_WORDS ensures Stored(was, data, mask)[i] == data[i] {
      FullMask(was[i], data[i]);
    }
  }

  lemma FullMask(was: bv32, data: bv32)
    ensures (was & !0xFFFF_FFFF) | (data & 0xFFFF_FFFF) == data
  {}

  /** The comparison made on the words read back. */
  lemma ReadbackMatches(host: bv32)
    ensures (Masked(Smid(host), 10) == Smid(host) && Masked(host, 4) == host) <==> host < 16
  {}

  class Controller {
    const fails: nat -> bool
    const busy: nat -> bool
    var accesses: nat
    var data: seq<bv32>
    var mask: seq<bv32>
    var profiles: map<Slot, seq<bv32>>

    ghost predicate Valid()
      reads this
    {
      |data| == NUM_WORDS && |mask| == NUM_WORDS && forall s <- profiles :: |profiles[s]| == NUM_WORDS
    }

    function Profile(slot: Slot): (p: seq<bv32>)
      requires Valid()
      reads this
      ensures |p| == NUM_WORDS
    {
      if slot in profiles then profiles[slot] else ZEROS
    }

    constructor (fails: nat -> bool, busy: nat -> bool)
      ensures Valid()
    {
      this.fails, this.busy, accesses := fails, busy, 0;
      data, mask, profiles := ZEROS, ZEROS, map[];
    }

    /** From some access on no register access fails and the controller is never busy. */
    ghost predicate Untroubled(first: nat) {
      forall n :: first <= n ==> !fails(n) && !busy(n)
    }

    method Access() returns (err: int)
      modifies this`accesses
      ensures err == (if fails(old(accesses)) then -EIO else 0) && accesses == old(accesses) + 1
    {
      err := if fails(accesses) then -EIO else 0;
      accesses := accesses + 1;
    }

    /** Load the eight data registers and open every mask bit. */
    method LoadRegisters(words: seq<bv32>) returns (err: int)
      requires Valid() && |words| == NUM_WORDS
      modifies this`accesses, this`data, this`mask
      ensures Valid() && old(accesses) <= accesses
      ensures err == 0 || err == -EIO
      ensures Untroubled(old(accesses)) ==> err == 0
      ensures err == 0 ==> data == words && forall i | 0 <= i < NUM_WORDS :: mask[i] == 0xFFFF_FFFF
    {
      for i := 0 to NUM_WORDS
        invariant Valid() && old(accesses) <= accesses
        invariant forall j | 0 <= j < i :: data[j] == words[j]
      {
        err := Access();
        if err != 0 {
          return;
        }
        data := data[i := words[i]];
      }
      for i := 0 to NUM_WORDS
        invariant Valid() && data == words && old(accesses) <= accesses
        invariant forall j | 0 <= j < i :: mask[j] == 0xFFFF_FFFF
      {
        err := Access();
        if err != 0 {
          return;
        }
        mask := mask[i := 0xFFFF_FFFF];
      }
      err := 0;
    }

    method Issue(cmd: bv32) returns (err: int)
      requires Valid()
      modifies this`accesses, this`data, this`profiles
      ensures Valid() && old(accesses) <= accesses
      ensures err == if fails(old(accesses)) then -EIO else 0
      ensures err != 0 || OpOf(cmd) != OP_WR ==> profiles == old(profiles)
      ensures err == 0 && OpOf(cmd) == OP_WR ==>
                profiles == old(profiles)[SlotOf(cmd) := Stored(old(Profile(SlotOf(cmd))), old(data), mask)]
      ensures err == 0 && OpOf(cmd) == OP_RD ==> data == Profile(SlotOf(cmd))
    {
      hide OpOf, SlotOf;
      err := Access();
      if err == 0 {
        if OpOf(cmd) == OP_WR {
          profiles := profiles[SlotOf(cmd) := Stored(Profile(SlotOf(cmd)), data, mask)];
        } else if OpOf(cmd) == OP_RD {
          data := Profile(SlotOf(cmd));
        }
      }
    }

    /** Poll the busy bit; on a timeout the bit was read set every time. */
    method WaitReady() returns (err: int)
      modifies this`accesses
      ensures err == 0 || err == -EIO || err == -ETIMEDOUT
      ensures old(accesses) < accesses
      ensures err == 0 ==> !busy(accesses - 1)
      ensures err == -EIO ==> fails(accesses - 1)
      ensures Untroubled(old(accesses)) ==> err == 0
      ensures err == -ETIMEDOUT ==>
                accesses == old(accesses) + POLL_US && forall n | old(accesses) <= n < accesses :: busy(n)
      ensures accesses <= old(accesses) + POLL_US
    {
      var waited := 0;
      while waited < POLL_US
        invariant waited <= POLL_US && accesses == old(accesses) + waited
        invariant forall n | old(accesses) <= n < accesses :: busy(n)
      {
        var stillBusy := busy(accesses);
        err := if fails(accesses) then -EIO else 0;
        accesses := accesses + 1;
        if err != 0 || !stillBusy {
          return;
        }
        waited := waited + 1;
      }
      assert busy(old(accesses));
      err := -ETIMEDOUT;
    }

    method ReadHostProfile(host: bv32) returns (err: int, words: seq<bv32>)
      requires Valid()
      modifies this`accesses, this`data, this`profiles
      ensures Valid() && profiles == old(profiles) && |words| == NUM_WORDS
      ensures err == 0 ==> words == Profile(SlotOf(Command(host, OP_RD)))
      ensures Untroubled(old(accesses)) ==> err == 0
    {
      hide SlotOf, OpOf, Command;
      words := ZEROS;
      CommandDecodes(host, OP_RD);
      err := Issue(Command(host, OP_RD));
      if err != 0 {
        return;
      }
      err := WaitReady();
      if err != 0 {
        return;
      }
      for i := 0 to NUM_WORDS
        invariant Valid() && |words| == NUM_WORDS && profiles == old(profiles) && old(accesses) <= accesses
        invariant data == Profile(SlotOf(Command(host, OP_RD)))
        invariant forall j | 0 <= j < i :: words[j] == data[j]
      {
        err := Access();
        if err != 0 {
          return;
        }
        words := words[i := data[i]];
      }
      err := 0;
    }

    method CompareFields(words: seq<bv32>, host: bv32) returns (matches: bool)
      requires |words| == NUM_WORDS
      ensures IsProfile(words, host) ==> (matches <==> host < 16)
    {
      hide IsField, Masked, Smid;
      Layout();
      var rb := new bv32[NUM_WORDS](i requires 0 <= i < NUM_WORDS => words[i]);
      assert rb[..] == words;
      var smid := GetField(rb, 201, 192);
      var h2c := GetField(rb, 181, 178);
      var c2h := GetField(rb, 97, 94);
      matches := smid == Smid(host) && h2c == host && c2h == host;
      if IsProfile(words, host) {
        FieldIsUnique(words, 201, 192, smid, Masked(Smid(host), 10));
        FieldIsUnique(words, 181, 178, h2c, Masked(host, 4));
        FieldIsUnique(words, 97, 94, c2h, Masked(host, 4));
        ReadbackMatches(host);
      }
    }

    /**
      Success means that the controller holds the profile of `host`, whether or not it could be read
      back; a readback that completes reports a match exactly when the id fits the four-bit steering
      fields.
     */
    method WriteHostProfile(host: bv32) returns (err: int, readErr: int, verified: bool)
      requires Valid()
      modifies this
      ensures Valid()
      ensures err == 0 || err == -EIO || err == -ETIMEDOUT
      ensures err == 0 ==> IsProfile(Profile(SlotOf(Command(host, OP_WR))), host)
      ensures err == 0 && readErr == 0 ==> (verified <==> host < 16)
      ensures Untroubled(old(accesses)) ==> err == 0 && readErr == 0
      ensures forall s | s != SlotOf(Command(host, OP_WR)) :: Profile(s) == old(Profile(s))
    {
      hide SlotOf, OpOf, Command, IsProfile;
      readErr, verified := 0, false;
      var words := BuildProfile(host);
      err := LoadRegisters(words);
      if err != 0 {
        return;
      }
      CommandDecodes(host, OP_WR);
      CommandDecodes(host, OP_RD);
      ghost var slot := SlotOf(Command(host, OP_WR));
      FullMaskStoresAll(Profile(slot), words, mask);
      err := Issue(Command(host, OP_WR));
      if err != 0 {
        return;
      }
      assert Profile(slot) == words;
      err := WaitReady();
      if err != 0 {
        return;
      }
      var readBack;
      readErr, readBack := ReadHostProfile(host);
      if readErr == 0 {
        verified := CompareFields(readBack, host);
      }
    }
  }
}
