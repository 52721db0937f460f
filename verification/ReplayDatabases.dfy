/**
 The replay databases as the C structures they are, updated in place over 32-bit words.
 Every operation is proved to act on the window's value as ReplayWindow and RtcpReplay say.
 */
module ReplayDatabases {
  import opened Errors
  import opened Words
  import opened BitVectors
  import RW = ReplayWindow
  import RC = RtcpReplay

  // ---------- srtp_rdbx_t itself ----------

  class Rdbx {
    var index: nat
    const bitmask: BitVector
    const simd: bool  // whether the SSSE3 shift was compiled in

    ghost predicate Valid()
      reads bitmask.words
    {
      bitmask.Valid()
    }

    ghost function Value(): (w: RW.Window)
      requires Valid()
      reads this, bitmask.words
      ensures |w.bits| == bitmask.length
    {
      RW.Window(index, bitmask.Bits())
    }

    constructor (size: nat, simd: bool)
      requires 0 < size
      ensures Valid() && fresh(bitmask) && fresh(bitmask.words)
      ensures Value() == RW.Fresh((size + 31) / 32 * 32)
    {
      bitmask := new BitVector(size);
      index := 0;
      this.simd := simd;
    }

    method Check(delta: int) returns (status: Status)
      requires Valid()
      ensures status == RW.Check(Value(), delta)
    {
      if delta > 0 {
        return Ok;
      } else if bitmask.length - 1 + delta < 0 {
        return ReplayOld;
      }
      var seen := bitmask.GetBit(bitmask.length - 1 + delta);
      return if seen then ReplayFail else Ok;
    }

    method AddIndex(delta: int)
      requires Valid() && 0 <= bitmask.length - 1 + delta && delta < RW.ROC_LIMIT
      modifies this, bitmask.words
      ensures Valid()
      ensures Value() == RW.Add(old(Value()), delta)
    {
      if delta > 0 {
        index := index + delta % RW.SEQ_MAX;
        if simd {
          bitmask.LeftShiftSsse3(delta);
        } else {
          bitmask.LeftShiftPortable(delta);
        }
        bitmask.SetBit(bitmask.length - 1);
      } else {
        bitmask.SetBit(bitmask.length - 1 + delta);
      }
    }

    method SetRocSeq(roc: nat, s: nat) returns (status: Status)
      requires Valid()
      modifies this, bitmask.words
      ensures Valid()
      ensures status == if roc < old(index) / RW.SEQ_MAX then ReplayOld else Ok
      ensures Value() == if status == Ok then RW.SetRocSeq(old(Value()), roc, s) else old(Value())
    {
      if roc < index / RW.SEQ_MAX {
        return ReplayOld;
      }
      index := roc * RW.SEQ_MAX + s;
      bitmask.SetToZero();
      return Ok;
    }
  }

  // srtp_rdbx_init
  method Init(size: nat, simd: bool) returns (status: Status, db: Rdbx?)
    ensures size == 0 ==> status == BadParam && db == null
    ensures size != 0 ==> status == Ok && db != null && fresh(db) && db.Valid() && db.Value() == RW.Fresh((size + 31) / 32 * 32)
  {
    if size == 0 {
      return BadParam, null;
    }
    db := new Rdbx(size, simd);
    status := Ok;
  }

  // ---------- srtp_rdb_t itself ----------

  class Rdb {
    var start: nat
    const bitmask: array<Word>
    const simd: bool

    ghost predicate Valid()
    {
      bitmask.Length == 4
    }

    ghost function Bits(): (bits: seq<bool>)
      requires Valid()
      reads bitmask
      ensures |bits| == RC.WINDOW
    {
      BitsOf(bitmask[..], RC.WINDOW)
    }

    ghost function Value(): (w: RC.RtcpWindow)
      requires Valid()
      reads this, bitmask
    {
      RC.RtcpWindow(start, Bits())
    }

    constructor (simd: bool)
      ensures Valid() && fresh(bitmask) && Value() == RC.Fresh()
    {
      start := 0;
      bitmask := new Word[4](_ => ZERO);
      this.simd := simd;
      new;
      AllZeroBits(bitmask[..], RC.WINDOW);
    }

    method Check(index: nat) returns (status: Status)
      requires Valid()
      ensures status == RC.Check(Value(), index)
    {
      if index >= start + RC.WINDOW {
        return Ok;
      }
      if index < start {
        return ReplayOld;
      }
      var i := index - start;
      if Bit(bitmask[i / 32], i % 32) {
        return ReplayFail;
      }
      return Ok;
    }

    method SetBit(i: nat)
      requires Valid() && i < RC.WINDOW
      modifies bitmask
      ensures Bits() == old(Bits())[i := true]
    {
      hide Amount, SetBitOf, Bit;
      ghost var was := bitmask[..];
      bitmask[i / 32] := SetBitOf(bitmask[i / 32], Amount(i % 32));
      assert bitmask[..] == WithBit(was, i);
      forall k | 0 <= k < RC.WINDOW ensures BitAt(bitmask[..], k) == (k == i || BitAt(was, k)) {
        WithBitIs(was, i, k);
      }
    }

    method LeftShift(shift: nat)
      requires Valid()
      modifies bitmask
      ensures Bits() == ShiftedBits(old(Bits()), shift)
    {
      hide BitsOf, ShiftedWords;
      ghost var was := bitmask[..];
      if simd {
        V128ShiftSsse3(bitmask, shift);
      } else {
        V128ShiftPortable(bitmask, shift);
      }
      BitsOfShift(was, bitmask[..], shift, RC.WINDOW);
    }

    method AddIndex(index: nat) returns (status: Status)
      requires Valid()
      modifies this, bitmask
      ensures Value() == RC.Add(old(Value()), index)
      ensures status == if index < old(start) then ReplayFail else Ok
    {
      hide Bits;
      if index < start {
        return ReplayFail;
      }
      var delta := index - start;
      if delta < RC.WINDOW {
        SetBit(delta);
      } else {
        delta := delta - (RC.WINDOW - 1);
        LeftShift(delta);
        SetBit(RC.WINDOW - 1);
        start := start + delta;
      }
      return Ok;
    }

    method IncrementStart() returns (status: Status)
      requires Valid()
      modifies this
      ensures (status, Value()) == RC.Increment(old(Value()))
    {
      if start >= RC.INDEX_MAX {
        return KeyExpired;
      }
      start := start + 1;
      assert Bits() == old(Bits());
      return Ok;
    }
  }
}
