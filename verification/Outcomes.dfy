/**
  What libqdma may answer for one sub-transfer of a batch, and the two quantities a batch is judged
  by: the bytes moved and the errors reported.  Shared by the io_uring and the blocking batch.
 */
module Outcomes {

  const UINT_MAX := 0xFFFF_FFFF

  /** The contract of `qdma_request_submit`: a negative return is an error and `fp_done` never fires;
      otherwise `fp_done(bytes, err)` fires exactly once, with an `unsigned int` byte count and `err` a
      negative errno or zero. */
  datatype Outcome =
    | Refused(code: int)
    | Reported(bytes: nat, err: int)
  {
    predicate Legal() {
      if Refused? then code < 0 else err <= 0 && bytes <= UINT_MAX
    }

    function Bytes(): nat {
      if Refused? then 0 else bytes
    }

    function Err(): int {
      if Refused? then code else err
    }
  }

  ghost function TotalBytes(os: seq<Outcome>): nat {
    if os == [] then 0 else TotalBytes(os[..|os| - 1]) + os[|os| - 1].Bytes()
  }

  ghost predicate AnyError(os: seq<Outcome>) {
    exists i :: 0 <= i < |os| && os[i].Err() != 0
  }

  ghost predicate IsErrorOf(os: seq<Outcome>, e: int) {
    e != 0 && exists i :: 0 <= i < |os| && os[i].Err() == e
  }

  /** The error at the lowest index, or 0. */
  ghost function LowestError(os: seq<Outcome>): int {
    if os == [] then 0
    else if LowestError(os[..|os| - 1]) != 0 then LowestError(os[..|os| - 1])
    else os[|os| - 1].Err()
  }

  lemma {:induction false} LowestErrorMeaning(os: seq<Outcome>)
    ensures LowestError(os) == 0 <==> !AnyError(os)
    ensures LowestError(os) != 0 ==>
              exists i :: 0 <= i < |os| && os[i].Err() == LowestError(os) && forall j :: 0 <= j < i ==> os[j].Err() == 0
  {
    if os != [] {
      var init := os[..|os| - 1];
      LowestErrorMeaning(init);
      if LowestError(init) != 0 {
        var i :| 0 <= i < |init| && init[i].Err() == LowestError(init) && forall j :: 0 <= j < i ==> init[j].Err() == 0;
        assert os[i].Err() == LowestError(os) && forall j :: 0 <= j < i ==> os[j].Err() == init[j].Err();
      } else {
        assert forall j :: 0 <= j < |init| ==> os[j] == init[j] && os[j].Err() == 0;
        assert os[|os| - 1].Err() == LowestError(os);
      }
    }
  }

  /** The byte counter of a batch fits its C type: with at most 2^31 sub-transfers no 64-bit `long`
      overflows. */
  lemma {:induction false} TotalBytesFits(os: seq<Outcome>)
    requires forall i :: 0 <= i < |os| ==> os[i].Legal()
    ensures TotalBytes(os) <= |os| * UINT_MAX
    ensures |os| <= 0x8000_0000 ==> TotalBytes(os) < 0x8000_0000_0000_0000
  {
    if os != [] {
      TotalBytesFits(os[..|os| - 1]);
    }
  }
}
