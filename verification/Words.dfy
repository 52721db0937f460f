/**
 Bits of 32-bit words, and the word-level meaning of "shift a vector of words
 towards index zero".  Bit i of a word vector is bit i % 32 of word i / 32, as in
 the bit macros of datatypes.h.
 */
module Words {

  // A shift amount or bit position; six bits, so that 32 is an amount.
  function Amount(n: nat): bv6 {
    if n == 0 then 0 else (Amount(n / 2) << 1) | (if n % 2 == 1 then 1 else 0)
  }

  // A 32-bit machine word.
  datatype Word = Word(bits: bv32)

  const ZERO := Word(0)

  predicate BitOf(w: Word, a: bv6) {
    BitOfBits(w.bits, a)
  }

  predicate Bit(w: Word, j: nat) {
    BitOf(w, Amount(j))
  }

  predicate BitAt(words: seq<Word>, i: nat)
    requires i < 32 * |words|
  {
    Bit(words[i / 32], i % 32)
  }

  function WordAt(words: seq<Word>, k: nat): Word {
    if k < |words| then words[k] else ZERO
  }

  // The machine operations; shifting by the width gives zero.
  function Shr(x: Word, s: bv6): Word {
    Word(ShrBits(x.bits, s))
  }

  function Shl(x: Word, s: bv6): Word {
    Word(ShlBits(x.bits, s))
  }

  function Or(x: Word, y: Word): Word {
    Word(OrBits(x.bits, y.bits))
  }

  function Xor(x: Word, y: Word): Word {
    Word(XorBits(x.bits, y.bits))
  }

  predicate BitOfBits(x: bv32, a: bv6) {
    a < 32 && (x >> a) & 1 == 1
  }

  function ShrBits(x: bv32, s: bv6): bv32 {
    if s <= 32 then x >> s else 0
  }

  function ShlBits(x: bv32, s: bv6): bv32 {
    if s <= 32 then x << s else 0
  }

  function OrBits(x: bv32, y: bv32): bv32 {
    x | y
  }

  function XorBits(x: bv32, y: bv32): bv32 {
    x ^ y
  }

  // The 32-bit slice that starts s bits into the 64-bit string y:x.
  function Funnel(x: Word, y: Word, s: bv6): Word {
    Or(Shr(x, s), Shl(y, 32 - s))
  }

  function ShiftedWords(words: seq<Word>, shift: nat): (r: seq<Word>)
    ensures |r| == |words|
  {
    seq(|words|, (i: nat) => Funnel(WordAt(words, i + shift / 32), WordAt(words, i + shift / 32 + 1),
                                    Amount(shift % 32)))
  }

  lemma ShiftedWordAt(words: seq<Word>, shift: nat, i: nat)
    requires i < |words|
    ensures ShiftedWords(words, shift)[i] ==
            Funnel(WordAt(words, i + shift / 32), WordAt(words, i + shift / 32 + 1), Amount(shift % 32))
  {}

  // ---------- amounts behave like numbers ----------

  lemma {:induction false} SuccAmount(a: nat)
    requires a < 63
    ensures Amount(a + 1) == Amount(a) + 1
  {
    var h := Amount(a / 2);
    if a % 2 == 0 {
      assert (h << 1) | 1 == (h << 1) + 1;
    } else {
      SuccAmount(a / 2);
      assert (h + 1) << 1 == ((h << 1) | 1) + 1;
    }
  }

  lemma {:induction false} AddAmounts(a: nat, b: nat)
    requires a + b < 64
    ensures Amount(a + b) == Amount(a) + Amount(b)
  {
    if b > 0 {
      AddAmounts(a, b - 1);
      SuccAmount(b - 1);
      SuccAmount(a + b - 1);
    }
  }

  lemma AmountBelow32(a: nat)
    requires a < 32
    ensures Amount(a) < 32
    ensures Amount(a / 2) < 16
  {
    assert Amount(a / 16) < 2;
    assert Amount(a / 8) < 4;
    assert Amount(a / 4) < 8;
    assert Amount(a / 2) < 16;
  }

  lemma AmountFrom32(a: nat)
    requires 32 <= a < 64
    ensures Amount(a) >= 32
    ensures Amount(a) - 32 == Amount(a - 32)
  {
    AmountBelow32(a - 32);
    AddAmounts(a - 32, 32);
    assert Amount(32) == 32 by {
      assert Amount(2) == 2;
      assert Amount(4) == 4;
      assert Amount(8) == 8;
      assert Amount(16) == 16;
    }
  }

  lemma {:induction false} AmountIsPositive(a: nat)
    requires 0 < a < 64
    ensures Amount(a) != 0
  {
    if a < 32 {
      if a % 2 == 0 {
        AmountIsPositive(a / 2);
        AmountBelow32(a);
      }
    } else {
      AmountFrom32(a);
    }
  }

  lemma AmountsDiffer(a: nat, b: nat)
    requires a < b < 64
    ensures Amount(a) != Amount(b)
  {
    AddAmounts(a, b - a);
    AmountIsPositive(b - a);
  }

  // ---------- shifting and setting bits ----------

  lemma OrBit(x: bv32, y: bv32, j: bv6)
    ensures BitOfBits(OrBits(x, y), j) == (BitOfBits(x, j) || BitOfBits(y, j))
  {}

  lemma ShrBit(x: bv32, s: bv6, j: bv6)
    requires s < 32 && j < 32
    ensures BitOfBits(ShrBits(x, s), j) == (j + s < 32 && BitOfBits(x, j + s))
  {}

  lemma ShlBit(x: bv32, s: bv6, j: bv6)
    requires s <= 32 && j < 32
    ensures BitOfBits(ShlBits(x, s), j) == (j >= s && BitOfBits(x, j - s))
  {}

  lemma FunnelBitOf(x: Word, y: Word, s: bv6, j: bv6)
    requires s < 32 && j < 32
    ensures BitOf(Funnel(x, y, s), j) == if j + s < 32 then BitOf(x, j + s) else BitOf(y, j + s - 32)
  {
    hide BitOfBits, OrBits, ShrBits, ShlBits;
    OrBit(ShrBits(x.bits, s), ShlBits(y.bits, 32 - s), j);
    ShrBit(x.bits, s, j);
    ShlBit(y.bits, 32 - s, j);
    assert j - (32 - s) == j + s - 32;
  }

  // Bit j of the slice is bit j + s of the 64-bit string it was cut from.
  lemma FunnelBit(x: Word, y: Word, s: nat, j: nat)
    requires s < 32 && j < 32
    ensures Bit(Funnel(x, y, Amount(s)), j) == if j + s < 32 then Bit(x, j + s) else Bit(y, j + s - 32)
  {
    hide Amount, BitOf, Funnel;
    AmountBelow32(s);
    AmountBelow32(j);
    AddAmounts(j, s);
    FunnelBitOf(x, y, Amount(s), Amount(j));
    if j + s < 32 {
      AmountBelow32(j + s);
    } else {
      AmountFrom32(j + s);
    }
  }

  lemma ZeroBits(a: bv6)
    ensures !BitOf(ZERO, a)
  {}

  // Result bit i is old bit i + shift, and zero where there is no such bit.
  lemma ShiftedBit(words: seq<Word>, shift: nat, i: nat)
    requires i < 32 * |words|
    ensures BitAt(ShiftedWords(words, shift), i) ==
            (i + shift < 32 * |words| && BitAt(words, i + shift))
  {
    hide Amount, BitOf, Funnel;
    var k, j, s := i / 32, i % 32, shift % 32;
    var x, y := WordAt(words, k + shift / 32), WordAt(words, k + shift / 32 + 1);
    FunnelBit(x, y, s, j);
    var t := i + shift;
    if j + s < 32 {
      assert t / 32 == k + shift / 32 && t % 32 == j + s;
      ZeroBits(Amount(j + s));
    } else {
      assert t / 32 == k + shift / 32 + 1 && t % 32 == j + s - 32;
      ZeroBits(Amount(j + s - 32));
    }
  }

  function SetBitOf(w: Word, a: bv6): Word {
    Or(w, Shl(Word(1), a))
  }

  function WithBit(words: seq<Word>, i: nat): (r: seq<Word>)
    requires i < 32 * |words|
    ensures |r| == |words|
  {
    words[i / 32 := SetBitOf(words[i / 32], Amount(i % 32))]
  }

  lemma SetBitOfIs(w: Word, a: bv6, b: bv6)
    requires a < 32 && b < 32
    ensures BitOf(SetBitOf(w, a), b) == (a == b || BitOf(w, b))
  {}

  // Setting a bit sets that bit and no other.
  lemma WithBitIs(words: seq<Word>, i: nat, k: nat)
    requires i < 32 * |words| && k < 32 * |words|
    ensures BitAt(WithBit(words, i), k) == (k == i || BitAt(words, k))
  {
    hide Amount, BitOf, SetBitOf;
    var a, b := i % 32, k % 32;
    if i / 32 == k / 32 {
      AmountBelow32(a);
      AmountBelow32(b);
      SetBitOfIs(words[i / 32], Amount(a), Amount(b));
      if a < b {
        AmountsDiffer(a, b);
      } else if b < a {
        AmountsDiffer(b, a);
      }
    }
  }

  lemma FunnelOfZeros(s: bv6)
    requires s <= 32
    ensures Funnel(ZERO, ZERO, s) == ZERO
  {}

  // Trailing zero words neither disturb a shift nor are disturbed by it.
  lemma ShiftIgnoresZeroPadding(words: seq<Word>, n: nat, shift: nat)
    requires n <= |words|
    requires forall i :: n <= i < |words| ==> words[i] == ZERO
    ensures ShiftedWords(words, shift)[..n] == ShiftedWords(words[..n], shift)
    ensures forall i :: n <= i < |words| ==> ShiftedWords(words, shift)[i] == ZERO
  {
    hide Amount, Funnel;
    AmountBelow32(shift % 32);
    FunnelOfZeros(Amount(shift % 32));
    assert forall k: nat :: WordAt(words, k) == WordAt(words[..n], k);
  }

  lemma ShiftOutEverything(words: seq<Word>, shift: nat)
    requires 32 * |words| <= shift
    ensures forall i :: 0 <= i < |words| ==> ShiftedWords(words, shift)[i] == ZERO
  {
    hide Amount, Funnel;
    AmountBelow32(shift % 32);
    FunnelOfZeros(Amount(shift % 32));
    forall i | 0 <= i < |words| ensures ShiftedWords(words, shift)[i] == ZERO {
      assert WordAt(words, i + shift / 32) == ZERO == WordAt(words, i + shift / 32 + 1);
    }
  }
}
