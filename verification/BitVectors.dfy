/**
 The window shifts of datatypes.c: the portable word loops and the SSSE3 versions,
 both in place, both proved to compute Words.ShiftedWords; and the bit vector that
 the SRTP replay window is kept in.
 */
module BitVectors {
  import opened Words

  // ---------- 128-bit vectors as four words, and the instructions used ----------

  datatype Vec = Vec(w0: Word, w1: Word, w2: Word, w3: Word) {
    function At(i: nat): Word {
      if i == 0 then w0 else if i == 1 then w1 else if i == 2 then w2 else if i == 3 then w3 else ZERO
    }
  }

  function SrlEpi32(v: Vec, s: bv6): Vec {
    Vec(Shr(v.w0, s), Shr(v.w1, s), Shr(v.w2, s), Shr(v.w3, s))
  }

  function SllEpi32(v: Vec, s: bv6): Vec {
    Vec(Shl(v.w0, s), Shl(v.w1, s), Shl(v.w2, s), Shl(v.w3, s))
  }

  function OrSi128(a: Vec, b: Vec): Vec {
    Vec(Or(a.w0, b.w0), Or(a.w1, b.w1), Or(a.w2, b.w2), Or(a.w3, b.w3))
  }

  // _mm_srli_si128(v, 4): four octets to the right, zeros in.
  function SrliSi128By4(v: Vec): Vec {
    Vec(v.w1, v.w2, v.w3, ZERO)
  }

  // _mm_alignr_epi8(hi, lo, 4): octets 4..19 of hi:lo.
  function AlignrBy4(hi: Vec, lo: Vec): Vec {
    Vec(lo.w1, lo.w2, lo.w3, hi.w0)
  }

  function OctetIn(w: Word, k: nat): bv8 {
    if k == 0 then (w.bits & 0xff) as bv8
    else if k == 1 then ((w.bits >> 8) & 0xff) as bv8
    else if k == 2 then ((w.bits >> 16) & 0xff) as bv8
    else (w.bits >> 24) as bv8
  }

  function Pack(b0: bv8, b1: bv8, b2: bv8, b3: bv8): Word {
    Word((b0 as bv32) | ((b1 as bv32) << 8) | ((b2 as bv32) << 16) | ((b3 as bv32) << 24))
  }

  // Octet k of row `row` of left_shift_masks and of right_shift_masks.
  function LeftShiftMask(row: nat, k: nat): nat {
    if k + 4 * row < 16 then k + 4 * row else 0x80
  }

  function RightShiftMask(row: nat, k: nat): nat {
    if k < 4 * row then 0x80 else k - 4 * row
  }

  // One octet of _mm_shuffle_epi8: the high bit of a mask octet selects zero.
  function ShuffledOctet(v: Vec, m: nat): bv8 {
    if m >= 0x80 then 0 else OctetIn(v.At(m % 16 / 4), m % 4)
  }

  function ShuffledWord(v: Vec, mask: nat -> nat, i: nat): Word {
    Pack(ShuffledOctet(v, mask(4 * i)), ShuffledOctet(v, mask(4 * i + 1)),
         ShuffledOctet(v, mask(4 * i + 2)), ShuffledOctet(v, mask(4 * i + 3)))
  }

  function ShuffleEpi8(v: Vec, mask: nat -> nat): Vec {
    Vec(ShuffledWord(v, mask, 0), ShuffledWord(v, mask, 1), ShuffledWord(v, mask, 2), ShuffledWord(v, mask, 3))
  }

  lemma PackOctets(w: Word)
    ensures Pack(OctetIn(w, 0), OctetIn(w, 1), OctetIn(w, 2), OctetIn(w, 3)) == w
  {}

  lemma PackZeros()
    ensures Pack(0, 0, 0, 0) == ZERO
  {}

  lemma FourOctets(v: Vec, k: nat)
    requires k < 4
    ensures Pack(ShuffledOctet(v, 4 * k), ShuffledOctet(v, 4 * k + 1), ShuffledOctet(v, 4 * k + 2),
                 ShuffledOctet(v, 4 * k + 3)) == v.At(k)
  {
    hide Pack, OctetIn, Vec.At;
    PackOctets(v.At(k));
    assert ShuffledOctet(v, 4 * k) == OctetIn(v.At(k), 0);
    assert ShuffledOctet(v, 4 * k + 1) == OctetIn(v.At(k), 1);
    assert ShuffledOctet(v, 4 * k + 2) == OctetIn(v.At(k), 2);
    assert ShuffledOctet(v, 4 * k + 3) == OctetIn(v.At(k), 3);
  }

  // The octet masks move whole words.
  lemma ShuffleLeft(v: Vec, row: nat, i: nat)
    requires row < 4 && i < 4
    ensures ShuffledWord(v, k => LeftShiftMask(row, k), i) == if i + row < 4 then v.At(i + row) else ZERO
  {
    hide Pack, OctetIn, Vec.At;
    if i + row < 4 {
      hide ShuffledOctet;
      FourOctets(v, i + row);
    } else {
      PackZeros();
    }
  }

  lemma ShuffleRight(v: Vec, row: nat, i: nat)
    requires row < 5 && i < 4
    ensures ShuffledWord(v, k => RightShiftMask(row, k), i) == if i < row then ZERO else v.At(i - row)
  {
    hide Pack, OctetIn, Vec.At;
    if i >= row {
      hide ShuffledOctet;
      FourOctets(v, i - row);
    } else {
      PackZeros();
    }
  }

  // ---------- one vector of the SSSE3 shift ----------

  // What the vector loop stores when another vector follows the current one.
  function JoinedVec(current: Vec, next: Vec, base: nat, s: bv6): Vec
    requires base < 4
  {
    var c := OrSi128(SrlEpi32(current, s), AlignrBy4(SllEpi32(next, 32 - s), SllEpi32(current, 32 - s)));
    var n := OrSi128(SrlEpi32(next, s), SrliSi128By4(SllEpi32(next, 32 - s)));
    OrSi128(ShuffleEpi8(n, k => RightShiftMask(4 - base, k)), ShuffleEpi8(c, k => LeftShiftMask(base, k)))
  }

  // What is stored for the last vector that holds any bits.
  function LastVec(current: Vec, base: nat, s: bv6): Vec
    requires base < 4
  {
    ShuffleEpi8(OrSi128(SrlEpi32(current, s), SrliSi128By4(SllEpi32(current, 32 - s))), k => LeftShiftMask(base, k))
  }

  // Word i of the eight words current:next.
  function PairAt(current: Vec, next: Vec, i: nat): Word {
    if i < 4 then current.At(i) else next.At(i - 4)
  }

  lemma OrZero(a: Word)
    ensures Or(a, ZERO) == a && Or(ZERO, a) == a
  {}

  lemma ShiftsOfZero(s: bv6)
    ensures Shl(ZERO, s) == ZERO && Shr(ZERO, s) == ZERO
  {}

  lemma FunnelIsOr(x: Word, y: Word, s: bv6)
    ensures Funnel(x, y, s) == Or(Shr(x, s), Shl(y, 32 - s))
  {}

  lemma JoinedVecIs(current: Vec, next: Vec, base: nat, s: bv6, i: nat)
    requires base < 4 && i < 4
    ensures JoinedVec(current, next, base, s).At(i) ==
            Funnel(PairAt(current, next, i + base), PairAt(current, next, i + base + 1), s)
  {
    hide Shr, Shl, Or, Funnel, ShuffledWord;
    var c := OrSi128(SrlEpi32(current, s), AlignrBy4(SllEpi32(next, 32 - s), SllEpi32(current, 32 - s)));
    var n := OrSi128(SrlEpi32(next, s), SrliSi128By4(SllEpi32(next, 32 - s)));
    ShuffleLeft(c, base, i);
    ShuffleRight(n, 4 - base, i);
    FunnelIsOr(PairAt(current, next, i + base), PairAt(current, next, i + base + 1), s);
    if i + base < 4 {
      OrZero(c.At(i + base));
    } else {
      OrZero(n.At(i + base - 4));
    }
  }

  lemma LastVecIs(current: Vec, base: nat, s: bv6, i: nat)
    requires base < 4 && i < 4
    ensures LastVec(current, base, s).At(i) == Funnel(current.At(i + base), current.At(i + base + 1), s)
  {
    hide Shr, Shl, Or, Funnel, ShuffledWord;
    var c := OrSi128(SrlEpi32(current, s), SrliSi128By4(SllEpi32(current, 32 - s)));
    ShuffleLeft(c, base, i);
    FunnelIsOr(current.At(i + base), current.At(i + base + 1), s);
    OrZero(ZERO);
    ShiftsOfZero(s);
    ShiftsOfZero(32 - s);
  }

  // ---------- the shifts, in place ----------

  lemma UnshiftedBits(x: bv32, y: bv32)
    ensures OrBits(ShrBits(x, 0), ShlBits(y, 32)) == x
  {}

  lemma HighBitsClear(x: bv32, s: bv6)
    ensures ShrBits(x, s) & !ShrBits(0xFFFF_FFFF, s) == 0
  {}

  lemma MaskSplits(a: bv32, mask: bv32)
    ensures OrBits(a & mask, a & !mask) == a && OrBits(a & mask, 0) == a & mask
  {}

  lemma LowBitsOnly(x: bv32, s: bv6)
    ensures ShrBits(x, s) & ShrBits(0xFFFF_FFFF, s) == ShrBits(x, s)
  {
    hide OrBits, ShrBits;
    HighBitsClear(x, s);
    MaskSplits(ShrBits(x, s), ShrBits(0xFFFF_FFFF, s));
  }

  lemma HighBitsOnly(y: bv32, s: bv6)
    requires 0 < s <= 32
    ensures ShlBits(y, 32 - s) & !ShrBits(0xFFFF_FFFF, s) == ShlBits(y, 32 - s)
  {}

  lemma XorOfDisjoint(a: bv32, b: bv32, mask: bv32)
    ensures XorBits(a & mask, b & !mask) == OrBits(a & mask, b & !mask)
  {}

  // The two shifted words have no bit in common.
  lemma DisjointBits(x: bv32, y: bv32, s: bv6)
    requires 0 < s <= 32
    ensures XorBits(ShrBits(x, s), ShlBits(y, 32 - s)) == OrBits(ShrBits(x, s), ShlBits(y, 32 - s))
  {
    hide XorBits, OrBits, ShrBits, ShlBits;
    LowBitsOnly(x, s);
    HighBitsOnly(y, s);
    XorOfDisjoint(ShrBits(x, s), ShlBits(y, 32 - s), ShrBits(0xFFFF_FFFF, s));
  }

  lemma OrZeroBits(x: bv32, s: bv6)
    requires s <= 32
    ensures OrBits(x, ShlBits(0, 32 - s)) == x
  {}

  lemma PortableWord(x: Word, y: Word, s: bv6)
    requires s <= 32
    ensures s == 0 ==> x == Funnel(x, y, s)
    ensures 0 < s ==> Xor(Shr(x, s), Shl(y, 32 - s)) == Funnel(x, y, s)
    ensures Shr(x, s) == Funnel(x, ZERO, s)
  {
    hide XorBits, OrBits, ShrBits, ShlBits;
    UnshiftedBits(x.bits, y.bits);
    if 0 < s {
      DisjointBits(x.bits, y.bits, s);
    }
    OrZeroBits(ShrBits(x.bits, s), s);
  }

  method ShiftPortable(words: array<Word>, n: nat, shift: nat)
    requires n <= words.Length && shift < 32 * n
    modifies words
    ensures words[..n] == ShiftedWords(old(words[..n]), shift)
    ensures words[n..] == old(words[n..])
  {
    hide Amount, Funnel, Shr, Shl, Xor, ShiftedWords;
    ghost var was := words[..n];
    ghost var goal := ShiftedWords(was, shift);
    var base, s := shift / 32, Amount(shift % 32);
    AmountBelow32(shift % 32);
    if s == 0 {
      for i := 0 to n - base
        invariant forall k :: 0 <= k < i ==> words[k] == goal[k]
        invariant forall k :: i <= k < words.Length ==> words[k] == old(words[k])
      {
        words[i] := words[i + base];
        PortableWord(was[i + base], WordAt(was, i + base + 1), s);
        ShiftedWordAt(was, shift, i);
      }
    } else {
      for i := 0 to n - base - 1
        invariant forall k :: 0 <= k < i ==> words[k] == goal[k]
        invariant forall k :: i <= k < words.Length ==> words[k] == old(words[k])
      {
        words[i] := Xor(Shr(words[i + base], s), Shl(words[i + base + 1], 32 - s));
        PortableWord(was[i + base], was[i + base + 1], s);
        ShiftedWordAt(was, shift, i);
      }
      words[n - base - 1] := Shr(words[n - 1], s);
      PortableWord(was[n - 1], ZERO, s);
      ShiftedWordAt(was, shift, n - base - 1);
    }
    FunnelOfZeros(s);
    for i := n - base to n
      invariant forall k :: 0 <= k < i ==> words[k] == goal[k]
      invariant forall k :: n <= k < words.Length ==> words[k] == old(words[k])
    {
      words[i] := ZERO;
      ShiftedWordAt(was, shift, i);
    }
  }

  function Load(words: seq<Word>, k: nat): Vec
    requires 4 * k + 4 <= |words|
  {
    Vec(words[4 * k], words[4 * k + 1], words[4 * k + 2], words[4 * k + 3])
  }

  method Store(words: array<Word>, k: nat, v: Vec)
    requires 4 * k + 4 <= words.Length
    modifies words
    ensures words[..] == old(words[..4 * k]) + [v.w0, v.w1, v.w2, v.w3] + old(words[4 * k + 4..])
  {
    words[4 * k], words[4 * k + 1], words[4 * k + 2], words[4 * k + 3] := v.w0, v.w1, v.w2, v.w3;
  }

  lemma VecsEqual(a: Vec, b: Vec)
    requires a.At(0) == b.At(0) && a.At(1) == b.At(1) && a.At(2) == b.At(2) && a.At(3) == b.At(3)
    ensures a == b
  {}

  // What the loops store is the vector at `to` of the shifted word sequence.
  lemma JoinedVecShifts(was: seq<Word>, to: nat, from: nat, base: nat, shift: nat, s: bv6)
    requires base < 4 && to <= from && 4 * from + base == 4 * to + shift / 32 && 4 * from + 8 <= |was|
    requires s == Amount(shift % 32)
    ensures JoinedVec(Load(was, from), Load(was, from + 1), base, s) == Load(ShiftedWords(was, shift), to)
  {
    hide Funnel, Amount, JoinedVec, ShiftedWords;
    var goal := ShiftedWords(was, shift);
    var v := JoinedVec(Load(was, from), Load(was, from + 1), base, s);
    forall i | 0 <= i < 4 ensures v.At(i) == Load(goal, to).At(i) {
      JoinedVecIs(Load(was, from), Load(was, from + 1), base, s, i);
      ShiftedWordAt(was, shift, 4 * to + i);
    }
    VecsEqual(v, Load(goal, to));
  }

  lemma LastVecShifts(was: seq<Word>, to: nat, from: nat, base: nat, shift: nat, s: bv6)
    requires base < 4 && to <= from && 4 * from + base == 4 * to + shift / 32 && 4 * from + 4 == |was|
    requires s == Amount(shift % 32)
    ensures LastVec(Load(was, from), base, s) == Load(ShiftedWords(was, shift), to)
  {
    hide Funnel, Amount, LastVec, ShiftedWords;
    var goal := ShiftedWords(was, shift);
    var v := LastVec(Load(was, from), base, s);
    forall i | 0 <= i < 4 ensures v.At(i) == Load(goal, to).At(i) {
      LastVecIs(Load(was, from), base, s, i);
      ShiftedWordAt(was, shift, 4 * to + i);
    }
    VecsEqual(v, Load(goal, to));
  }

  const ZEROS := Vec(ZERO, ZERO, ZERO, ZERO)

  lemma BeyondLastVec(was: seq<Word>, to: nat, shift: nat)
    requires 4 * to + 4 <= |was| <= 4 * to + shift / 32
    ensures Load(ShiftedWords(was, shift), to) == ZEROS
  {
    hide Funnel, Amount, ShiftedWords;
    AmountBelow32(shift % 32);
    FunnelOfZeros(Amount(shift % 32));
    forall i | 0 <= i < 4 ensures Load(ShiftedWords(was, shift), to).At(i) == ZERO {
      ShiftedWordAt(was, shift, 4 * to + i);
    }
    VecsEqual(Load(ShiftedWords(was, shift), to), ZEROS);
  }

  lemma PrefixGrows(goal: seq<Word>, was: seq<Word>, now: seq<Word>, to: nat)
    requires 4 * to + 4 <= |goal| == |was| == |now|
    requires was[..4 * to] == goal[..4 * to]
    requires now == was[..4 * to] + [goal[4 * to], goal[4 * to + 1], goal[4 * to + 2], goal[4 * to + 3]] + was[4 * to + 4..]
    ensures now[..4 * (to + 1)] == goal[..4 * (to + 1)]
    ensures now[4 * (to + 1)..] == was[4 * (to + 1)..]
  {}

  // One more vector of the goal in place.
  method StoreGoal(words: array<Word>, to: nat, v: Vec, ghost goal: seq<Word>, ghost was: seq<Word>)
    requires 4 * to + 4 <= words.Length == |goal| == |was| && v == Load(goal, to)
    requires words[..4 * to] == goal[..4 * to] && words[4 * to..] == was[4 * to..]
    modifies words
    ensures words[..4 * (to + 1)] == goal[..4 * (to + 1)] && words[4 * (to + 1)..] == was[4 * (to + 1)..]
  {
    ghost var before := words[..];
    Store(words, to, v);
    PrefixGrows(goal, before, words[..], to);
    SuffixShrinks(before, was, to);
  }

  // The vector loop and the store after it: `skip` whole vectors, then `base` words, then s bits.
  method ShiftVectors(words: array<Word>, end: nat, shift: nat, skip: nat, base: nat, s: bv6) returns (to: nat)
    requires words.Length == 4 * end && skip < end && base < 4
    requires shift / 32 == 4 * skip + base && s == Amount(shift % 32)
    modifies words
    ensures to + skip == end
    ensures words[..4 * to] == ShiftedWords(old(words[..]), shift)[..4 * to]
  {
    hide Amount, ShiftedWords, JoinedVec, LastVec;
    ghost var was := words[..];
    ghost var goal := ShiftedWords(was, shift);
    var from := skip;
    to := 0;
    var current := Load(words[..], from);
    while end - from >= 2
      invariant 0 <= to && from == to + skip < end
      invariant words[4 * to..] == was[4 * to..]
      invariant words[..4 * to] == goal[..4 * to]
      invariant current == Load(was, from)
    {
      from := from + 1;
      var next := Load(words[..], from);
      LoadSuffix(words[..], was, 4 * to, from);
      JoinedVecShifts(was, to, from - 1, base, shift, s);
      StoreGoal(words, to, JoinedVec(current, next, base, s), goal, was);
      to := to + 1;
      current := next;
    }
    LastVecShifts(was, to, from, base, shift, s);
    StoreGoal(words, to, LastVec(current, base, s), goal, was);
    to := to + 1;
  }

  lemma SplitShift(shift: nat)
    ensures shift / 32 == 4 * (shift / 128) + shift / 32 % 4
  {}

  method ShiftSsse3(words: array<Word>, end: nat, shift: nat)
    requires words.Length == 4 * end && shift < 128 * end
    modifies words
    ensures words[..] == ShiftedWords(old(words[..]), shift)
  {
    hide Amount, ShiftedWords;
    ghost var was := words[..];
    ghost var goal := ShiftedWords(was, shift);
    SplitShift(shift);
    var to := ShiftVectors(words, end, shift, shift / 128, shift / 32 % 4, Amount(shift % 32));
    while to < end
      invariant to <= end && 4 * end <= 4 * to + shift / 32
      invariant words[..4 * to] == goal[..4 * to]
    {
      ghost var before := words[..];
      BeyondLastVec(was, to, shift);
      Store(words, to, ZEROS);
      PrefixGrows(goal, before, words[..], to);
      to := to + 1;
    }
  }

  lemma LoadSuffix(a: seq<Word>, b: seq<Word>, k: nat, from: nat)
    requires |a| == |b| && k <= 4 * from && 4 * from + 4 <= |a|
    requires a[k..] == b[k..]
    ensures Load(a, from) == Load(b, from)
  {
    assert forall i :: k <= i < |a| ==> a[i] == a[k..][i - k] && b[i] == b[k..][i - k];
  }

  lemma SuffixShrinks(a: seq<Word>, b: seq<Word>, to: nat)
    requires |a| == |b| && 4 * to + 4 <= |a|
    requires a[4 * to..] == b[4 * to..]
    ensures a[4 * (to + 1)..] == b[4 * (to + 1)..]
  {
    assert a[4 * (to + 1)..] == a[4 * to..][4..];
    assert b[4 * (to + 1)..] == b[4 * to..][4..];
  }

  // ---------- v128_left_shift: the 128-bit window of rdb.c ----------

  method V128ShiftPortable(x: array<Word>, shift: nat)
    requires x.Length == 4
    modifies x
    ensures x[..] == ShiftedWords(old(x[..]), shift)
  {
    if shift > 127 {
      ShiftOutEverything(x[..], shift);
      x[0], x[1], x[2], x[3] := ZERO, ZERO, ZERO, ZERO;
      return;
    }
    assert x[..4] == x[..];
    ShiftPortable(x, 4, shift);
    assert x[..4] == x[..];
  }

  method V128ShiftSsse3(x: array<Word>, shift: nat)
    requires x.Length == 4
    modifies x
    ensures x[..] == ShiftedWords(old(x[..]), shift)
  {
    hide Amount, ShiftedWords, ShuffleEpi8;
    if shift > 127 {
      ShiftOutEverything(x[..], shift);
      x[0], x[1], x[2], x[3] := ZERO, ZERO, ZERO, ZERO;
      return;
    }
    var base, s := shift / 32, Amount(shift % 32);
    ghost var was := x[..];
    var mm := ShuffleEpi8(Load(x[..], 0), k => LeftShiftMask(base, k));
    var mm1 := OrSi128(SrlEpi32(mm, s), SrliSi128By4(SllEpi32(mm, 32 - s)));
    V128Shuffled(was, base, s, shift);
    Store(x, 0, mm1);
    assert x[..] == [mm1.w0, mm1.w1, mm1.w2, mm1.w3];
    assert ShiftedWords(was, shift) == [mm1.w0, mm1.w1, mm1.w2, mm1.w3];
  }

  // Here the shuffle comes before the bit shift; the result is the same.
  lemma V128Shuffled(was: seq<Word>, base: nat, s: bv6, shift: nat)
    requires |was| == 4 && shift < 128 && base == shift / 32 && s == Amount(shift % 32)
    ensures var mm := ShuffleEpi8(Load(was, 0), k => LeftShiftMask(base, k));
            OrSi128(SrlEpi32(mm, s), SrliSi128By4(SllEpi32(mm, 32 - s))) == Load(ShiftedWords(was, shift), 0)
  {
    hide Funnel, Amount, ShiftedWords, ShuffledWord, Shl, Shr, Or;
    var goal := ShiftedWords(was, shift);
    var mm := ShuffleEpi8(Load(was, 0), k => LeftShiftMask(base, k));
    var mm1 := OrSi128(SrlEpi32(mm, s), SrliSi128By4(SllEpi32(mm, 32 - s)));
    ShuffleLeft(Load(was, 0), base, 0);
    ShuffleLeft(Load(was, 0), base, 1);
    ShuffleLeft(Load(was, 0), base, 2);
    ShuffleLeft(Load(was, 0), base, 3);
    ShiftsOfZero(32 - s);
    forall i | 0 <= i < 4 ensures mm1.At(i) == Load(goal, 0).At(i) {
      ShiftedWordAt(was, shift, i);
      FunnelIsOr(WordAt(was, i + base), WordAt(was, i + base + 1), s);
      assert mm.At(i) == WordAt(was, i + base);
      assert (if i < 3 then mm.At(i + 1) else ZERO) == WordAt(was, i + base + 1);
    }
    VecsEqual(mm1, Load(goal, 0));
  }

  // ---------- bitvector_t ----------

  function ShiftedBits(bits: seq<bool>, shift: nat): (r: seq<bool>)
    ensures |r| == |bits|
  {
    seq(|bits|, (i: nat) => i + shift < |bits| && bits[i + shift])
  }

  // The SSSE3 code compares (uint32_t)shift with the length but shifts by all of shift.
  predicate TruncationHarmless(shift: nat, length: nat) {
    shift % 0x1_0000_0000 < length ==> shift < 0x1_0000_0000
  }

  /** Once the guard has let a shift through, the first vector loaded lies inside the bit vector exactly
      when truncating the shift lost nothing. */
  lemma FirstLoadInside(shift: nat, length: nat)
    requires shift % 0x1_0000_0000 < length < 0x8000_0000
    ensures shift / 32 / 4 < VectorCount(length) <==> TruncationHarmless(shift, length)
  {
    assert shift / 32 / 4 == shift / 128;
  }

  // Vectors needed for so many bits.
  function VectorCount(length: nat): (n: nat)
    ensures length <= 128 * n && length / 32 <= 4 * n
  {
    (length + 127) / 128
  }

  ghost function BitsOf(words: seq<Word>, length: nat): (bits: seq<bool>)
    requires length <= 32 * |words|
    ensures |bits| == length
  {
    seq(length, (i: nat) requires i < length => BitAt(words, i))
  }

  class BitVector {
    const length: nat
    const words: array<Word>

    // Words past the length exist to fill the last vector, and are zero.
    ghost predicate Valid()
      reads words
    {
      && length % 32 == 0 && 0 < length
      && words.Length == 4 * VectorCount(length)
      && forall k :: length / 32 <= k < words.Length ==> words[k] == ZERO
    }

    ghost function Bits(): (bits: seq<bool>)
      requires Valid()
      reads words
      ensures |bits| == length
    {
      BitsOf(words[..], length)
    }

    // srtp_crypto_alloc hands out zeroed memory.
    constructor (size: nat)
      requires 0 < size
      ensures Valid() && fresh(words)
      ensures length == (size + 31) / 32 * 32
      ensures Bits() == seq(length, _ => false)
    {
      var rounded := (size + 31) / 32 * 32;
      length := rounded;
      words := new Word[4 * VectorCount(rounded)](_ => ZERO);
      new;
      AllZeroBits(words[..], length);
    }

    method SetToZero()
      requires Valid()
      modifies words
      ensures Valid()
      ensures words[..] == seq(words.Length, _ => ZERO)
      ensures Bits() == seq(length, _ => false)
    {
      for k := 0 to length / 32
        invariant forall i :: 0 <= i < k ==> words[i] == ZERO
        invariant forall i :: length / 32 <= i < words.Length ==> words[i] == ZERO
      {
        words[k] := ZERO;
      }
      AllZeroBits(words[..], length);
    }

    method GetBit(i: nat) returns (b: bool)
      requires Valid() && i < length
      ensures b == Bits()[i]
    {
      b := Bit(words[i / 32], i % 32);
    }

    method SetBit(i: nat)
      requires Valid() && i < length
      modifies words
      ensures Valid()
      ensures Bits() == old(Bits())[i := true]
    {
      hide Amount, SetBitOf, Bit;
      ghost var was := words[..];
      words[i / 32] := SetBitOf(words[i / 32], Amount(i % 32));
      assert words[..] == WithBit(was, i);
      forall k | 0 <= k < length ensures BitAt(words[..], k) == (k == i || BitAt(was, k)) {
        WithBitIs(was, i, k);
      }
    }

    method ShiftWordsPortable(shift: nat)
      requires Valid()
      modifies words
      ensures Valid()
      ensures words[..] == ShiftedWords(old(words[..]), shift)
    {
      hide ShiftedWords, VectorCount;
      ghost var was := words[..];
      var n := length / 32;
      ShiftIgnoresZeroPadding(was, n, shift);
      if shift >= length {
        SetToZero();
        ShiftOutEverything(was[..n], shift);
      } else {
        ShiftPortable(words, n, shift);
      }
      assert words[..] == words[..n] + words[n..];
    }

    method LeftShiftPortable(shift: nat)
      requires Valid()
      modifies words
      ensures Valid()
      ensures Bits() == ShiftedBits(old(Bits()), shift)
      ensures words[..] == ShiftedWords(old(words[..]), shift)
    {
      hide ShiftedWords, BitsOf, VectorCount;
      ghost var was := words[..];
      ShiftWordsPortable(shift);
      BitsOfShift(was, words[..], shift, length);
    }

    method ShiftWordsSsse3(shift: nat)
      requires Valid() && TruncationHarmless(shift, length)
      modifies words
      ensures Valid()
      ensures words[..] == ShiftedWords(old(words[..]), shift)
    {
      hide ShiftedWords, VectorCount;
      ghost var was := words[..];
      ShiftIgnoresZeroPadding(was, length / 32, shift);
      if shift % 0x1_0000_0000 >= length {
        SetToZero();
        ShiftOutEverything(was[..length / 32], shift);
      } else {
        ShiftSsse3(words, VectorCount(length), shift);
      }
    }

    method LeftShiftSsse3(shift: nat)
      requires Valid() && TruncationHarmless(shift, length)
      modifies words
      ensures Valid()
      ensures Bits() == ShiftedBits(old(Bits()), shift)
      ensures words[..] == ShiftedWords(old(words[..]), shift)
    {
      hide ShiftedWords, BitsOf, VectorCount, TruncationHarmless;
      ghost var was := words[..];
      ShiftWordsSsse3(shift);
      BitsOfShift(was, words[..], shift, length);
    }
  }

  /** bitvector_alloc: fails for no bits, and where there is no memory. */
  method Allocate(size: nat, available: bool) returns (v: BitVector?)
    ensures v == null <==> size == 0 || !available
    ensures v != null ==> fresh(v) && v.Valid() && fresh(v.words) && size <= v.length < size + 32 && v.length % 32 == 0
    ensures v != null ==> v.Bits() == seq(v.length, _ => false)
  {
    if size == 0 || !available {
      return null;
    }
    v := new BitVector(size);
  }

  lemma AllZeroBits(words: seq<Word>, length: nat)
    requires length <= 32 * |words|
    requires forall k :: 0 <= k < |words| ==> words[k] == ZERO
    ensures forall i :: 0 <= i < length ==> !BitAt(words, i)
  {
    hide Amount, BitOf;
    forall i | 0 <= i < length ensures !BitAt(words, i) { ZeroBits(Amount(i % 32)); }
  }

  lemma BitsOfShift(was: seq<Word>, now: seq<Word>, shift: nat, length: nat)
    requires |was| == |now| && length <= 32 * |was| && length % 32 == 0
    requires now == ShiftedWords(was, shift)
    requires forall k :: length / 32 <= k < |was| ==> was[k] == ZERO
    ensures BitsOf(now, length) == ShiftedBits(BitsOf(was, length), shift)
  {
    hide ShiftedWords, Amount, BitOf;
    forall i | 0 <= i < length ensures BitAt(now, i) == (i + shift < length && BitAt(was, i + shift)) {
      ShiftedBit(was, shift, i);
      ZeroBits(Amount((i + shift) % 32));
    }
  }
}
