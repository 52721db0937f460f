/**
 AES as aes.c computes it on an 8-bit-table machine (CPU_CISC): table rounds, expanded keys,
 and decryption with the reversed, InvMixColumns-transformed schedule of section 5.3.5 of
 FIPS 197.  The S-box is any bijection on octets; the T and U tables are the products that
 their comments and generator define.  A uint32_t holding a column is its four octets in
 memory order.
 */
module AesCipher {
  import opened Errors

  // ---------- GF(2^8) ----------

  function Plus(a: bv8, b: bv8): bv8 {
    a ^ b
  }

  function Reduction(a: bv8): bv8 {
    if a & 128 != 0 then 0x1b else 0
  }

  // gf2_8_shift
  function Times2(a: bv8): bv8 {
    Plus(a << 1, Reduction(a))
  }

  function Times3(a: bv8): bv8 {
    Plus(Times2(a), a)
  }

  function Times4(a: bv8): bv8 {
    Times2(Times2(a))
  }

  function Times8(a: bv8): bv8 {
    Times2(Times4(a))
  }

  function Plus4(a: bv8, b: bv8, c: bv8, d: bv8): bv8 {
    Plus(Plus(a, b), Plus(c, d))
  }

  function Times9(a: bv8): bv8 {
    Plus4(Times8(a), 0, 0, a)
  }

  function TimesB(a: bv8): bv8 {
    Plus4(Times8(a), 0, Times2(a), a)
  }

  function TimesD(a: bv8): bv8 {
    Plus4(Times8(a), Times4(a), 0, a)
  }

  function TimesE(a: bv8): bv8 {
    Plus4(Times8(a), Times4(a), Times2(a), 0)
  }

  // One row of MixColumns and of its inverse, sections 5.1.3 and 5.3.3 of FIPS 197.
  function MixRow(a: bv8, b: bv8, c: bv8, d: bv8): bv8 {
    Plus4(Times2(a), Times3(b), c, d)
  }

  function InvMixRow(a: bv8, b: bv8, c: bv8, d: bv8): bv8 {
    Plus4(TimesE(a), TimesB(b), TimesD(c), Times9(d))
  }

  lemma Commutative(a: bv8, b: bv8)
    ensures Plus(a, b) == Plus(b, a)
  {}

  lemma Associative(a: bv8, b: bv8, c: bv8)
    ensures Plus(Plus(a, b), c) == Plus(a, Plus(b, c))
  {}

  lemma Interchange(a: bv8, b: bv8, c: bv8, d: bv8)
    ensures Plus(Plus(a, b), Plus(c, d)) == Plus(Plus(a, c), Plus(b, d))
  {
    hide Plus;
    Associative(Plus(a, b), c, d);
    Associative(a, b, c);
    Commutative(b, c);
    Associative(a, c, b);
    Associative(Plus(a, c), b, d);
  }

  lemma Plus4Plus(a0: bv8, a1: bv8, a2: bv8, a3: bv8, b0: bv8, b1: bv8, b2: bv8, b3: bv8)
    ensures Plus(Plus4(a0, a1, a2, a3), Plus4(b0, b1, b2, b3)) ==
            Plus4(Plus(a0, b0), Plus(a1, b1), Plus(a2, b2), Plus(a3, b3))
  {
    hide Plus;
    Interchange(Plus(a0, a1), Plus(a2, a3), Plus(b0, b1), Plus(b2, b3));
    Interchange(a0, a1, b0, b1);
    Interchange(a2, a3, b2, b3);
  }

  // Sixteen summands, by rows or by columns.
  lemma Transpose(a0: bv8, a1: bv8, a2: bv8, a3: bv8, b0: bv8, b1: bv8, b2: bv8, b3: bv8,
                  c0: bv8, c1: bv8, c2: bv8, c3: bv8, d0: bv8, d1: bv8, d2: bv8, d3: bv8)
    ensures Plus4(Plus4(a0, a1, a2, a3), Plus4(b0, b1, b2, b3), Plus4(c0, c1, c2, c3), Plus4(d0, d1, d2, d3)) ==
            Plus4(Plus4(a0, b0, c0, d0), Plus4(a1, b1, c1, d1), Plus4(a2, b2, c2, d2), Plus4(a3, b3, c3, d3))
  {
    hide Plus;
    Plus4Plus(a0, a1, a2, a3, b0, b1, b2, b3);
    Plus4Plus(c0, c1, c2, c3, d0, d1, d2, d3);
    Plus4Plus(Plus(a0, b0), Plus(a1, b1), Plus(a2, b2), Plus(a3, b3),
              Plus(c0, d0), Plus(c1, d1), Plus(c2, d2), Plus(c3, d3));
  }

  lemma Times2Linear(a: bv8, b: bv8)
    ensures Times2(Plus(a, b)) == Plus(Times2(a), Times2(b))
  {
    assert Plus(a, b) << 1 == Plus(a << 1, b << 1);
    assert Reduction(Plus(a, b)) == Plus(Reduction(a), Reduction(b));
    hide Plus, Reduction;
    Interchange(a << 1, Reduction(a), b << 1, Reduction(b));
  }

  lemma PlusZero(a: bv8)
    ensures Plus(a, 0) == a && Plus(0, a) == a && Plus(a, a) == 0
  {}

  lemma Plus4Zeros(a: bv8)
    ensures Plus4(a, 0, 0, 0) == a
  {}

  // Summands in rotated order.
  lemma Rotate(a: bv8, b: bv8, c: bv8, d: bv8)
    ensures Plus4(a, b, c, d) == Plus4(d, a, b, c)
  {
    hide Plus;
    Commutative(Plus(a, b), Plus(c, d));
    Commutative(c, d);
    Interchange(d, c, a, b);
    Commutative(c, b);
  }

  lemma Rotations(a: bv8, b: bv8, c: bv8, d: bv8)
    ensures Plus4(a, b, c, d) == Plus4(d, a, b, c) == Plus4(c, d, a, b) == Plus4(b, c, d, a)
  {
    hide Plus4;
    Rotate(a, b, c, d);
    Rotate(d, a, b, c);
    Rotate(c, d, a, b);
  }

  lemma Linear(a: bv8, b: bv8)
    ensures TimesE(Plus(a, b)) == Plus(TimesE(a), TimesE(b))
    ensures TimesB(Plus(a, b)) == Plus(TimesB(a), TimesB(b))
    ensures TimesD(Plus(a, b)) == Plus(TimesD(a), TimesD(b))
    ensures Times9(Plus(a, b)) == Plus(Times9(a), Times9(b))
  {
    hide Times2, Plus, Plus4;
    Times2Linear(a, b);
    Times2Linear(Times2(a), Times2(b));
    Times2Linear(Times4(a), Times4(b));
    PlusZero(0);
    Plus4Plus(Times8(a), Times4(a), Times2(a), 0, Times8(b), Times4(b), Times2(b), 0);
    Plus4Plus(Times8(a), 0, Times2(a), a, Times8(b), 0, Times2(b), b);
    Plus4Plus(Times8(a), Times4(a), 0, a, Times8(b), Times4(b), 0, b);
    Plus4Plus(Times8(a), 0, 0, a, Times8(b), 0, 0, b);
  }

  lemma Linear4(a: bv8, b: bv8, c: bv8, d: bv8)
    ensures TimesE(Plus4(a, b, c, d)) == Plus4(TimesE(a), TimesE(b), TimesE(c), TimesE(d))
    ensures TimesB(Plus4(a, b, c, d)) == Plus4(TimesB(a), TimesB(b), TimesB(c), TimesB(d))
    ensures TimesD(Plus4(a, b, c, d)) == Plus4(TimesD(a), TimesD(b), TimesD(c), TimesD(d))
    ensures Times9(Plus4(a, b, c, d)) == Plus4(Times9(a), Times9(b), Times9(c), Times9(d))
  {
    hide Plus, TimesE, TimesB, TimesD, Times9;
    Linear(a, b);
    Linear(c, d);
    Linear(Plus(a, b), Plus(c, d));
  }

  // The matrix product of the two circulants, one octet at a time.
  lemma Product0(a: bv8)
    ensures Plus4(TimesE(Times2(a)), TimesB(a), TimesD(a), Times9(Times3(a))) == a
  {}

  // Multiples of a0 = a, with a1 to a4 its products by 2, 4, 8 and 16, in which every summand occurs an even number of times.
  lemma Even1(a0: bv8, a1: bv8, a2: bv8, a3: bv8, a4: bv8)
    ensures Plus4(Plus(Plus4(a4, a3, a2, 0), Plus4(a3, a2, a1, 0)), Plus4(a4, 0, a2, a1), Plus4(a3, a2, 0, a0), Plus4(a3, 0, 0, a0)) == 0
  {}

  lemma Pairs(x: bv8, y: bv8)
    ensures Plus4(x, Plus(y, x), y, x) == x && Plus4(x, Plus(0, 0), y, 0) == Plus(x, y)
    ensures Plus4(x, Plus(y, x), 0, 0) == y && Plus4(0, Plus(x, y), x, y) == 0
    ensures Plus4(x, Plus(y, x), y, 0) == 0
  {}

  lemma Even2(a0: bv8, a1: bv8, a2: bv8, a3: bv8, a4: bv8)
    ensures Plus4(Plus4(a3, a2, a1, 0), Plus(Plus4(a4, 0, a2, a1), Plus4(a3, 0, a1, a0)), Plus4(a4, a3, 0, a1), Plus4(a3, 0, 0, a0)) == 0
  {
    hide Plus, Plus4;
    Plus4Plus(a4, 0, a2, a1, a3, 0, a1, a0);
    Transpose(a3, a2, a1, 0, Plus(a4, a3), Plus(0, 0), Plus(a2, a1), Plus(a1, a0), a4, a3, 0, a1, a3, 0, 0, a0);
    Pairs(a3, a4);
    Pairs(a2, a3);
    Pairs(a1, a2);
    Pairs(a1, a0);
    Pairs(a3, a2);
  }

  lemma Even3(a0: bv8, a1: bv8, a2: bv8, a3: bv8, a4: bv8)
    ensures Plus4(Plus4(a3, a2, a1, 0), Plus4(a3, 0, a1, a0), Plus(Plus4(a4, a3, 0, a1), Plus4(a3, a2, 0, a0)), Plus4(a4, 0, 0, a1)) == 0
  {}

  lemma Product1(a: bv8)
    ensures Plus4(TimesE(Times3(a)), TimesB(Times2(a)), TimesD(a), Times9(a)) == 0
  {
    hide Plus, Plus4, Times2;
    Linear(Times2(a), a);
    Even1(a, Times2(a), Times4(a), Times8(a), Times8(Times2(a)));
  }

  lemma Product2(a: bv8)
    ensures Plus4(TimesE(a), TimesB(Times3(a)), TimesD(Times2(a)), Times9(a)) == 0
  {
    hide Plus, Plus4, Times2;
    Linear(Times2(a), a);
    Even2(a, Times2(a), Times4(a), Times8(a), Times8(Times2(a)));
  }

  lemma Product3(a: bv8)
    ensures Plus4(TimesE(a), TimesB(a), TimesD(Times3(a)), Times9(Times2(a))) == 0
  {
    hide Plus, Plus4, Times2;
    Linear(Times2(a), a);
    Even3(a, Times2(a), Times4(a), Times8(a), Times8(Times2(a)));
  }

  /** InvMixColumns undoes MixColumns, row by row. */
  lemma InvMixRowCancels(a: bv8, b: bv8, c: bv8, d: bv8)
    ensures InvMixRow(MixRow(a, b, c, d), MixRow(b, c, d, a), MixRow(c, d, a, b), MixRow(d, a, b, c)) == a
  {
    hide Plus, Plus4, TimesE, TimesB, TimesD, Times9, Times2, Times3;
    Linear4(Times2(a), Times3(b), c, d);
    Linear4(Times2(b), Times3(c), d, a);
    Linear4(Times2(c), Times3(d), a, b);
    Linear4(Times2(d), Times3(a), b, c);
    Rotations(TimesB(Times2(b)), TimesB(Times3(c)), TimesB(d), TimesB(a));
    Rotations(TimesD(Times2(c)), TimesD(Times3(d)), TimesD(a), TimesD(b));
    Rotations(Times9(Times2(d)), Times9(Times3(a)), Times9(b), Times9(c));
    Transpose(TimesE(Times2(a)), TimesE(Times3(b)), TimesE(c), TimesE(d),
              TimesB(a), TimesB(Times2(b)), TimesB(Times3(c)), TimesB(d),
              TimesD(a), TimesD(b), TimesD(Times2(c)), TimesD(Times3(d)),
              Times9(Times3(a)), Times9(b), Times9(c), Times9(Times2(d)));
    Product0(a);
    Product1(b);
    Product2(c);
    Product3(d);
    Plus4Zeros(a);
  }

  // ---------- FIPS 197 on columns and states ----------

  datatype Col = Col(r0: bv8, r1: bv8, r2: bv8, r3: bv8)
  datatype State = State(c0: Col, c1: Col, c2: Col, c3: Col)

  datatype SBox = SBox(sub: bv8 -> bv8, inv: bv8 -> bv8) {
    ghost predicate Bijective() {
      forall x :: inv(sub(x)) == x
    }
  }

  function AddCol(a: Col, b: Col): Col {
    Col(Plus(a.r0, b.r0), Plus(a.r1, b.r1), Plus(a.r2, b.r2), Plus(a.r3, b.r3))
  }

  function AddKey(s: State, k: State): State {
    State(AddCol(s.c0, k.c0), AddCol(s.c1, k.c1), AddCol(s.c2, k.c2), AddCol(s.c3, k.c3))
  }

  function MapCol(f: bv8 -> bv8, c: Col): Col {
    Col(f(c.r0), f(c.r1), f(c.r2), f(c.r3))
  }

  // SubBytes and InvSubBytes
  function MapOctets(f: bv8 -> bv8, s: State): State {
    State(MapCol(f, s.c0), MapCol(f, s.c1), MapCol(f, s.c2), MapCol(f, s.c3))
  }

  function ShiftRows(s: State): State {
    State(Col(s.c0.r0, s.c1.r1, s.c2.r2, s.c3.r3), Col(s.c1.r0, s.c2.r1, s.c3.r2, s.c0.r3),
          Col(s.c2.r0, s.c3.r1, s.c0.r2, s.c1.r3), Col(s.c3.r0, s.c0.r1, s.c1.r2, s.c2.r3))
  }

  function InvShiftRows(s: State): State {
    State(Col(s.c0.r0, s.c3.r1, s.c2.r2, s.c1.r3), Col(s.c1.r0, s.c0.r1, s.c3.r2, s.c2.r3),
          Col(s.c2.r0, s.c1.r1, s.c0.r2, s.c3.r3), Col(s.c3.r0, s.c2.r1, s.c1.r2, s.c0.r3))
  }

  function MixCol(c: Col): Col {
    Col(MixRow(c.r0, c.r1, c.r2, c.r3), MixRow(c.r1, c.r2, c.r3, c.r0),
        MixRow(c.r2, c.r3, c.r0, c.r1), MixRow(c.r3, c.r0, c.r1, c.r2))
  }

  function InvMixCol(c: Col): Col {
    Col(InvMixRow(c.r0, c.r1, c.r2, c.r3), InvMixRow(c.r1, c.r2, c.r3, c.r0),
        InvMixRow(c.r2, c.r3, c.r0, c.r1), InvMixRow(c.r3, c.r0, c.r1, c.r2))
  }

  function MixColumns(s: State): State {
    State(MixCol(s.c0), MixCol(s.c1), MixCol(s.c2), MixCol(s.c3))
  }

  function InvMixColumns(s: State): State {
    State(InvMixCol(s.c0), InvMixCol(s.c1), InvMixCol(s.c2), InvMixCol(s.c3))
  }

  // The state before MixColumns, and after a whole round.
  function Scrambled(b: SBox, s: State): State {
    ShiftRows(MapOctets(b.sub, s))
  }

  function Unscrambled(b: SBox, s: State): State {
    InvShiftRows(MapOctets(b.inv, s))
  }

  function RoundOf(b: SBox, s: State, k: State): State {
    AddKey(MixColumns(Scrambled(b, s)), k)
  }

  function InvRoundOf(b: SBox, s: State, k: State): State {
    AddKey(InvMixColumns(Unscrambled(b, s)), k)
  }

  function AfterRounds(b: SBox, keys: seq<State>, block: State, n: nat): State
    requires n < |keys|
  {
    if n == 0 then AddKey(block, keys[0]) else RoundOf(b, AfterRounds(b, keys, block, n - 1), keys[n])
  }

  function AfterInvRounds(b: SBox, keys: seq<State>, block: State, n: nat): State
    requires n < |keys|
  {
    if n == 0 then AddKey(block, keys[0]) else InvRoundOf(b, AfterInvRounds(b, keys, block, n - 1), keys[n])
  }

  // Section 5.1 of FIPS 197 with nr rounds.
  function Cipher(b: SBox, keys: seq<State>, nr: nat, block: State): State
    requires 0 < nr < |keys|
  {
    AddKey(Scrambled(b, AfterRounds(b, keys, block, nr - 1)), keys[nr])
  }

  // Section 5.3.5: the equivalent inverse cipher, for a transformed schedule.
  function InvCipher(b: SBox, keys: seq<State>, nr: nat, block: State): State
    requires 0 < nr < |keys|
  {
    AddKey(Unscrambled(b, AfterInvRounds(b, keys, block, nr - 1)), keys[nr])
  }

  // The schedule with entries 0..nr reversed, and all but the ends put through InvMixColumns.
  function InverseSchedule(keys: seq<State>, nr: nat): (r: seq<State>)
    requires nr < |keys|
    ensures |r| == |keys|
  {
    seq(|keys|, (i: nat) requires i < |keys| =>
      if i > nr then keys[i] else if 0 < i < nr then InvMixColumns(keys[nr - i]) else keys[nr - i])
  }

  lemma AddColCancels(a: Col, b: Col)
    ensures AddCol(AddCol(a, b), b) == a
  {
    hide Plus;
    PlusCancels(a.r0, b.r0);
    PlusCancels(a.r1, b.r1);
    PlusCancels(a.r2, b.r2);
    PlusCancels(a.r3, b.r3);
  }

  lemma PlusCancels(a: bv8, b: bv8)
    ensures Plus(Plus(a, b), b) == a
  {}

  lemma AddKeyCancels(s: State, k: State)
    ensures AddKey(AddKey(s, k), k) == s
  {
    hide AddCol;
    AddColCancels(s.c0, k.c0);
    AddColCancels(s.c1, k.c1);
    AddColCancels(s.c2, k.c2);
    AddColCancels(s.c3, k.c3);
  }

  lemma InvMixColCancels(c: Col)
    ensures InvMixCol(MixCol(c)) == c
  {
    hide MixRow, InvMixRow;
    InvMixRowCancels(c.r0, c.r1, c.r2, c.r3);
    InvMixRowCancels(c.r1, c.r2, c.r3, c.r0);
    InvMixRowCancels(c.r2, c.r3, c.r0, c.r1);
    InvMixRowCancels(c.r3, c.r0, c.r1, c.r2);
  }

  lemma InvMixRowLinear(a0: bv8, a1: bv8, a2: bv8, a3: bv8, b0: bv8, b1: bv8, b2: bv8, b3: bv8)
    ensures InvMixRow(Plus(a0, b0), Plus(a1, b1), Plus(a2, b2), Plus(a3, b3)) ==
            Plus(InvMixRow(a0, a1, a2, a3), InvMixRow(b0, b1, b2, b3))
  {
    hide Plus, Plus4, TimesE, TimesB, TimesD, Times9;
    Linear(a0, b0);
    Linear(a1, b1);
    Linear(a2, b2);
    Linear(a3, b3);
    Plus4Plus(TimesE(a0), TimesB(a1), TimesD(a2), Times9(a3), TimesE(b0), TimesB(b1), TimesD(b2), Times9(b3));
  }

  lemma InvMixColLinear(a: Col, b: Col)
    ensures InvMixCol(AddCol(a, b)) == AddCol(InvMixCol(a), InvMixCol(b))
  {
    hide Plus, InvMixRow;
    InvMixRowLinear(a.r0, a.r1, a.r2, a.r3, b.r0, b.r1, b.r2, b.r3);
    InvMixRowLinear(a.r1, a.r2, a.r3, a.r0, b.r1, b.r2, b.r3, b.r0);
    InvMixRowLinear(a.r2, a.r3, a.r0, a.r1, b.r2, b.r3, b.r0, b.r1);
    InvMixRowLinear(a.r3, a.r0, a.r1, a.r2, b.r3, b.r0, b.r1, b.r2);
  }

  // Applying the transformed key after InvMixColumns undoes MixColumns and the key.
  lemma RoundKeyMoves(s: State, k: State)
    ensures AddKey(InvMixColumns(AddKey(MixColumns(s), k)), InvMixColumns(k)) == s
  {
    hide MixCol, InvMixCol, AddCol;
    var m := MixColumns(s);
    InvMixColLinear(m.c0, k.c0);
    InvMixColLinear(m.c1, k.c1);
    InvMixColLinear(m.c2, k.c2);
    InvMixColLinear(m.c3, k.c3);
    InvMixColCancels(s.c0);
    InvMixColCancels(s.c1);
    InvMixColCancels(s.c2);
    InvMixColCancels(s.c3);
    AddKeyCancels(s, InvMixColumns(k));
  }

  lemma UnscrambledCancels(b: SBox, s: State)
    requires b.Bijective()
    ensures Unscrambled(b, Scrambled(b, s)) == s
  {}

  lemma {:induction false} BackThroughRounds(b: SBox, keys: seq<State>, nr: nat, block: State, j: nat)
    requires b.Bijective() && j < nr < |keys|
    ensures AfterInvRounds(b, InverseSchedule(keys, nr), Cipher(b, keys, nr, block), j) ==
            Scrambled(b, AfterRounds(b, keys, block, nr - 1 - j))
  {
    hide AddKey, MixColumns, InvMixColumns, Scrambled, Unscrambled;
    var dk, c := InverseSchedule(keys, nr), Cipher(b, keys, nr, block);
    if j == 0 {
      AddKeyCancels(Scrambled(b, AfterRounds(b, keys, block, nr - 1)), keys[nr]);
    } else {
      BackThroughRounds(b, keys, nr, block, j - 1);
      var x := AfterRounds(b, keys, block, nr - j);
      UnscrambledCancels(b, x);
      RoundKeyMoves(Scrambled(b, AfterRounds(b, keys, block, nr - 1 - j)), keys[nr - j]);
    }
  }

  /** Decryption under the reversed and transformed schedule inverts encryption, for every schedule,
      number of rounds and block. */
  lemma DecryptInvertsEncrypt(b: SBox, keys: seq<State>, nr: nat, block: State)
    requires b.Bijective() && 0 < nr < |keys|
    ensures InvCipher(b, InverseSchedule(keys, nr), nr, Cipher(b, keys, nr, block)) == block
  {
    hide AddKey, Scrambled, Unscrambled;
    BackThroughRounds(b, keys, nr, block, nr - 1);
    UnscrambledCancels(b, AfterRounds(b, keys, block, 0));
    AddKeyCancels(block, keys[0]);
  }

  // ---------- aes.c: tables and rounds on the sixteen octets ----------

  function T0(b: SBox, x: bv8): Col { var s := b.sub(x); Col(Times2(s), s, s, Times3(s)) }
  function T1(b: SBox, x: bv8): Col { var s := b.sub(x); Col(Times3(s), Times2(s), s, s) }
  function T2(b: SBox, x: bv8): Col { var s := b.sub(x); Col(s, Times3(s), Times2(s), s) }
  function T3(b: SBox, x: bv8): Col { var s := b.sub(x); Col(s, s, Times3(s), Times2(s)) }

  function U0(b: SBox, x: bv8): Col { var s := b.inv(x); Col(TimesE(s), Times9(s), TimesD(s), TimesB(s)) }
  function U1(b: SBox, x: bv8): Col { var s := b.inv(x); Col(TimesB(s), TimesE(s), Times9(s), TimesD(s)) }
  function U2(b: SBox, x: bv8): Col { var s := b.inv(x); Col(TimesD(s), TimesB(s), TimesE(s), Times9(s)) }
  function U3(b: SBox, x: bv8): Col { var s := b.inv(x); Col(Times9(s), TimesD(s), TimesB(s), TimesE(s)) }

  function AddCol4(a: Col, b: Col, c: Col, d: Col): Col {
    AddCol(AddCol(AddCol(a, b), c), d)
  }

  lemma LeftSum(a: bv8, b: bv8, c: bv8, d: bv8)
    ensures Plus(Plus(Plus(a, b), c), d) == Plus4(a, b, c, d)
  {
    hide Plus;
    Associative(Plus(a, b), c, d);
  }

  lemma LeftSums(a: bv8, b: bv8, c: bv8, d: bv8)
    ensures Plus(Plus(Plus(a, b), c), d) == Plus4(a, b, c, d) == Plus4(b, c, d, a) == Plus4(c, d, a, b) == Plus4(d, a, b, c)
  {
    hide Plus, Plus4;
    LeftSum(a, b, c, d);
    Rotations(a, b, c, d);
  }

  // The four table look-ups of a column are substitution and MixColumns.
  lemma TableColumn(b: SBox, x: bv8, y: bv8, z: bv8, w: bv8)
    ensures AddCol4(T0(b, x), T1(b, y), T2(b, z), T3(b, w)) == MixCol(MapCol(b.sub, Col(x, y, z, w)))
  {
    hide Plus, Plus4, Times2, Times3;
    var p, q, r, s := b.sub(x), b.sub(y), b.sub(z), b.sub(w);
    LeftSums(Times2(p), Times3(q), r, s);
    LeftSums(p, Times2(q), Times3(r), s);
    LeftSums(p, q, Times2(r), Times3(s));
    LeftSums(Times3(p), q, r, Times2(s));
  }

  lemma InvTableColumn(b: SBox, x: bv8, y: bv8, z: bv8, w: bv8)
    ensures AddCol4(U0(b, x), U1(b, y), U2(b, z), U3(b, w)) == InvMixCol(MapCol(b.inv, Col(x, y, z, w)))
  {
    hide Plus, Plus4, TimesE, TimesB, TimesD, Times9;
    var p, q, r, s := b.inv(x), b.inv(y), b.inv(z), b.inv(w);
    LeftSums(TimesE(p), TimesB(q), TimesD(r), Times9(s));
    LeftSums(Times9(p), TimesE(q), TimesB(r), TimesD(s));
    LeftSums(TimesD(p), Times9(q), TimesE(r), TimesB(s));
    LeftSums(TimesB(p), TimesD(q), Times9(r), TimesE(s));
  }

  function StateOf(v: seq<bv8>): State
    requires |v| == 16
  {
    State(Col(v[0], v[1], v[2], v[3]), Col(v[4], v[5], v[6], v[7]),
          Col(v[8], v[9], v[10], v[11]), Col(v[12], v[13], v[14], v[15]))
  }

  method StoreState(state: array<bv8>, s: State)
    requires state.Length == 16
    modifies state
    ensures StateOf(state[..]) == s
  {
    state[0], state[1], state[2], state[3] := s.c0.r0, s.c0.r1, s.c0.r2, s.c0.r3;
    state[4], state[5], state[6], state[7] := s.c1.r0, s.c1.r1, s.c1.r2, s.c1.r3;
    state[8], state[9], state[10], state[11] := s.c2.r0, s.c2.r1, s.c2.r2, s.c2.r3;
    state[12], state[13], state[14], state[15] := s.c3.r0, s.c3.r1, s.c3.r2, s.c3.r3;
  }

  method AesRound(b: SBox, v: array<bv8>, key: State)
    requires v.Length == 16
    modifies v
    ensures StateOf(v[..]) == RoundOf(b, old(StateOf(v[..])), key)
  {
    hide MixCol, AddCol, T0, T1, T2, T3, AddCol4;
    var column0 := AddCol4(T0(b, v[0]), T1(b, v[5]), T2(b, v[10]), T3(b, v[15]));
    var column1 := AddCol4(T0(b, v[4]), T1(b, v[9]), T2(b, v[14]), T3(b, v[3]));
    var column2 := AddCol4(T0(b, v[8]), T1(b, v[13]), T2(b, v[2]), T3(b, v[7]));
    var column3 := AddCol4(T0(b, v[12]), T1(b, v[1]), T2(b, v[6]), T3(b, v[11]));
    TableColumn(b, v[0], v[5], v[10], v[15]);
    TableColumn(b, v[4], v[9], v[14], v[3]);
    TableColumn(b, v[8], v[13], v[2], v[7]);
    TableColumn(b, v[12], v[1], v[6], v[11]);
    StoreState(v, State(AddCol(column0, key.c0), AddCol(column1, key.c1), AddCol(column2, key.c2), AddCol(column3, key.c3)));
  }

  method AesInvRound(b: SBox, v: array<bv8>, key: State)
    requires v.Length == 16
    modifies v
    ensures StateOf(v[..]) == InvRoundOf(b, old(StateOf(v[..])), key)
  {
    hide InvMixCol, AddCol, U0, U1, U2, U3, AddCol4;
    var column0 := AddCol4(U0(b, v[0]), U1(b, v[13]), U2(b, v[10]), U3(b, v[7]));
    var column1 := AddCol4(U0(b, v[4]), U1(b, v[1]), U2(b, v[14]), U3(b, v[11]));
    var column2 := AddCol4(U0(b, v[8]), U1(b, v[5]), U2(b, v[2]), U3(b, v[15]));
    var column3 := AddCol4(U0(b, v[12]), U1(b, v[9]), U2(b, v[6]), U3(b, v[3]));
    InvTableColumn(b, v[0], v[13], v[10], v[7]);
    InvTableColumn(b, v[4], v[1], v[14], v[11]);
    InvTableColumn(b, v[8], v[5], v[2], v[15]);
    InvTableColumn(b, v[12], v[9], v[6], v[3]);
    StoreState(v, State(AddCol(column0, key.c0), AddCol(column1, key.c1), AddCol(column2, key.c2), AddCol(column3, key.c3)));
  }

  // v128_xor_eq
  method XorEq(v: array<bv8>, key: State)
    requires v.Length == 16
    modifies v
    ensures StateOf(v[..]) == AddKey(old(StateOf(v[..])), key)
  {
    hide AddKey;
    StoreState(v, AddKey(StateOf(v[..]), key));
  }

  // Substitution and row shifts in place, one row at a time.
  method AesFinalRound(b: SBox, v: array<bv8>, key: State)
    requires v.Length == 16
    modifies v
    ensures StateOf(v[..]) == AddKey(Scrambled(b, old(StateOf(v[..]))), key)
  {
    hide AddKey;
    v[0], v[4], v[8], v[12] := b.sub(v[0]), b.sub(v[4]), b.sub(v[8]), b.sub(v[12]);
    var tmp := b.sub(v[1]);
    v[1] := b.sub(v[5]);
    v[5] := b.sub(v[9]);
    v[9] := b.sub(v[13]);
    v[13] := tmp;
    tmp := b.sub(v[10]);
    v[10] := b.sub(v[2]);
    v[2] := tmp;
    tmp := b.sub(v[14]);
    v[14] := b.sub(v[6]);
    v[6] := tmp;
    tmp := b.sub(v[15]);
    v[15] := b.sub(v[11]);
    v[11] := b.sub(v[7]);
    v[7] := b.sub(v[3]);
    v[3] := tmp;
    assert StateOf(v[..]) == Scrambled(b, old(StateOf(v[..])));
    XorEq(v, key);
  }

  method AesInvFinalRound(b: SBox, v: array<bv8>, key: State)
    requires v.Length == 16
    modifies v
    ensures StateOf(v[..]) == AddKey(Unscrambled(b, old(StateOf(v[..]))), key)
  {
    hide AddKey;
    v[0], v[4], v[8], v[12] := b.inv(v[0]), b.inv(v[4]), b.inv(v[8]), b.inv(v[12]);
    var tmp := b.inv(v[13]);
    v[13] := b.inv(v[9]);
    v[9] := b.inv(v[5]);
    v[5] := b.inv(v[1]);
    v[1] := tmp;
    tmp := b.inv(v[2]);
    v[2] := b.inv(v[10]);
    v[10] := tmp;
    tmp := b.inv(v[6]);
    v[6] := b.inv(v[14]);
    v[14] := tmp;
    tmp := b.inv(v[3]);
    v[3] := b.inv(v[7]);
    v[7] := b.inv(v[11]);
    v[11] := b.inv(v[15]);
    v[15] := tmp;
    assert StateOf(v[..]) == Unscrambled(b, old(StateOf(v[..])));
    XorEq(v, key);
  }

  // ---------- key expansion ----------

  function RotWord(c: Col): Col {
    Col(c.r1, c.r2, c.r3, c.r0)
  }

  // Successive powers of x.
  function Rcon(i: nat): bv8 {
    if i <= 1 then 1 else Times2(Rcon(i - 1))
  }

  // Word i of the expanded key, section 5.2 of FIPS 197, for |key| = 4 or 8 words.
  function KeyWord(b: SBox, key: seq<Col>, i: nat): Col
    requires |key| == 4 || |key| == 8
  {
    var nk := |key|;
    if i < nk then key[i]
    else
      var temp := KeyWord(b, key, i - 1);
      AddCol(KeyWord(b, key, i - nk),
             if i % nk == 0 then AddCol(MapCol(b.sub, RotWord(temp)), Col(Rcon(i / nk), 0, 0, 0))
             else if nk > 6 && i % nk == 4 then MapCol(b.sub, temp)
             else temp)
  }

  function RoundKey(b: SBox, key: seq<Col>, i: nat): State
    requires |key| == 4 || |key| == 8
  {
    State(KeyWord(b, key, 4 * i), KeyWord(b, key, 4 * i + 1), KeyWord(b, key, 4 * i + 2), KeyWord(b, key, 4 * i + 3))
  }

  lemma AddColCommutes(a: Col, b: Col)
    ensures AddCol(a, b) == AddCol(b, a)
  {
    hide Plus;
    Commutative(a.r0, b.r0);
    Commutative(a.r1, b.r1);
    Commutative(a.r2, b.r2);
    Commutative(a.r3, b.r3);
  }

  // The first word of a round key, and the chain of the other three.
  function NextRoundKey(first: Col, older: State): State {
    var w0 := AddCol(first, older.c0);
    var w1 := AddCol(w0, older.c1);
    var w2 := AddCol(w1, older.c2);
    State(w0, w1, w2, AddCol(w2, older.c3))
  }

  // sbox of octets 13, 14, 15, 12 of the previous round key, with the round constant
  function Munged(b: SBox, prev: State, rc: bv8): Col {
    Col(Plus(b.sub(prev.c3.r1), rc), b.sub(prev.c3.r2), b.sub(prev.c3.r3), b.sub(prev.c3.r0))
  }

  lemma MungedIs(b: SBox, prev: State, rc: bv8)
    ensures Munged(b, prev, rc) == AddCol(MapCol(b.sub, RotWord(prev.c3)), Col(rc, 0, 0, 0))
  {
    hide Plus;
    PlusZero(b.sub(prev.c3.r2));
    PlusZero(b.sub(prev.c3.r3));
    PlusZero(b.sub(prev.c3.r0));
  }

  // Three words of every round key are plain sums; the first one is not.
  lemma PlainWord(b: SBox, key: seq<Col>, i: nat)
    requires (|key| == 4 || |key| == 8) && |key| <= i && i % 4 != 0
    ensures KeyWord(b, key, i) == AddCol(KeyWord(b, key, i - 1), KeyWord(b, key, i - |key|))
  {
    hide AddCol, MapCol, RotWord, Rcon;
    NotEvenHalf(i, |key|);
    AddColCommutes(KeyWord(b, key, i - 1), KeyWord(b, key, i - |key|));
  }

  lemma NotEvenHalf(i: nat, nk: nat)
    requires (nk == 4 || nk == 8) && i % 4 != 0
    ensures i % nk != 0 && (nk > 6 ==> i % nk != 4)
  {
    if nk == 8 {
      assert i == i / 8 * 8 + i % 8;
    }
  }

  lemma ChainedRoundKey(b: SBox, key: seq<Col>, i: nat, first: Col)
    requires (|key| == 4 || |key| == 8) && |key| <= 4 * i
    requires KeyWord(b, key, 4 * i) == AddCol(KeyWord(b, key, 4 * i - |key|), first)
    ensures NextRoundKey(first, RoundKey(b, key, i - |key| / 4)) == RoundKey(b, key, i)
  {
    hide AddCol, KeyWord;
    AddColCommutes(first, KeyWord(b, key, 4 * i - |key|));
    PlainWord(b, key, 4 * i + 1);
    PlainWord(b, key, 4 * i + 2);
    PlainWord(b, key, 4 * i + 3);
  }

  lemma Step128(b: SBox, key: seq<Col>, i: nat)
    requires |key| == 4 && 1 <= i
    ensures NextRoundKey(Munged(b, RoundKey(b, key, i - 1), Rcon(i)), RoundKey(b, key, i - 1)) == RoundKey(b, key, i)
  {
    hide AddCol, Munged, Rcon, MapCol, NextRoundKey;
    MungedIs(b, RoundKey(b, key, i - 1), Rcon(i));
    assert 4 * i / 4 == i && 4 * i % 4 == 0;
    ChainedRoundKey(b, key, i, Munged(b, RoundKey(b, key, i - 1), Rcon(i)));
  }

  lemma Step256(b: SBox, key: seq<Col>, i: nat)
    requires |key| == 8 && 2 <= i
    ensures var prev := RoundKey(b, key, i - 1);
            NextRoundKey(if i % 2 == 0 then Munged(b, prev, Rcon(i / 2)) else MapCol(b.sub, prev.c3),
                         RoundKey(b, key, i - 2)) == RoundKey(b, key, i)
  {
    hide AddCol, Munged, Rcon, MapCol, NextRoundKey;
    var prev := RoundKey(b, key, i - 1);
    if i % 2 == 0 {
      MungedIs(b, prev, Rcon(i / 2));
      assert 4 * i % 8 == 0 && 4 * i / 8 == i / 2;
      ChainedRoundKey(b, key, i, Munged(b, prev, Rcon(i / 2)));
    } else {
      assert 4 * i % 8 == 4;
      ChainedRoundKey(b, key, i, MapCol(b.sub, prev.c3));
    }
  }

  lemma FirstRoundKey(b: SBox, key: seq<Col>)
    requires |key| == 4
    ensures RoundKey(b, key, 0) == State(key[0], key[1], key[2], key[3])
  {}

  lemma FirstRoundKeys(b: SBox, key: seq<Col>)
    requires |key| == 8
    ensures RoundKey(b, key, 0) == State(key[0], key[1], key[2], key[3])
    ensures RoundKey(b, key, 1) == State(key[4], key[5], key[6], key[7])
  {}

  lemma RconStep(i: nat)
    ensures Rcon(1) == 1
    ensures 1 <= i ==> Rcon(i + 1) == Times2(Rcon(i))
  {}

  // srtp_aes_expanded_key_t
  class ExpandedKey {
    const round: array<State>
    var numRounds: nat

    constructor ()
      ensures round.Length == 15 && fresh(round) && numRounds == 0
    {
      var zero := Col(0, 0, 0, 0);
      round := new State[15](_ => State(zero, zero, zero, zero));
      numRounds := 0;
    }

    // One turn of the 128-bit loop.
    method NextKey128(b: SBox, ghost key: seq<Col>, i: nat, rc: bv8) returns (rc': bv8)
      requires |key| == 4 && round.Length == 15 && 1 <= i < 11 && rc == Rcon(i) && round[i - 1] == RoundKey(b, key, i - 1)
      modifies round
      ensures rc' == Rcon(i + 1)
      ensures round[..] == old(round[..])[i := RoundKey(b, key, i)]
    {
      hide Munged, NextRoundKey, Times2, RoundKey, Rcon;
      Step128(b, key, i);
      RconStep(i);
      round[i] := NextRoundKey(Munged(b, round[i - 1], rc), round[i - 1]);
      rc' := Times2(rc);
    }

    // aes_128_expand_encryption_key
    method Expand128(b: SBox, key: seq<Col>)
      requires |key| == 4 && round.Length == 15
      modifies this, round
      ensures numRounds == 10
      ensures forall i :: 0 <= i <= 10 ==> round[i] == RoundKey(b, key, i)
      ensures forall i :: 10 < i < 15 ==> round[i] == old(round[i])
    {
      hide RoundKey;
      var rc: bv8 := 1;
      numRounds := 10;
      round[0] := State(key[0], key[1], key[2], key[3]);
      FirstRoundKey(b, key);
      for i := 1 to 11
        modifies round
        invariant rc == Rcon(i)
        invariant forall k :: 0 <= k < i ==> round[k] == RoundKey(b, key, k)
        invariant forall k :: 10 < k < 15 ==> round[k] == old(round[k])
      {
        rc := NextKey128(b, key, i, rc);
      }
    }

    // One turn of the 256-bit loop.
    method NextKey256(b: SBox, ghost key: seq<Col>, i: nat, rc: bv8) returns (rc': bv8)
      requires |key| == 8 && round.Length == 15 && 2 <= i < 15 && rc == Rcon((i + 1) / 2)
      requires round[i - 1] == RoundKey(b, key, i - 1) && round[i - 2] == RoundKey(b, key, i - 2)
      modifies round
      ensures rc' == Rcon((i + 2) / 2)
      ensures round[..] == old(round[..])[i := RoundKey(b, key, i)]
    {
      hide Munged, NextRoundKey, Times2, RoundKey, MapCol, Rcon;
      var first;
      if i % 2 == 0 {
        first := Munged(b, round[i - 1], rc);
        rc' := Times2(rc);
        RconStep(i / 2);
        assert (i + 2) / 2 == i / 2 + 1;
      } else {
        first := MapCol(b.sub, round[i - 1].c3);
        rc' := rc;
      }
      Step256(b, key, i);
      round[i] := NextRoundKey(first, round[i - 2]);
    }

    // aes_256_expand_encryption_key
    method Expand256(b: SBox, key: seq<Col>)
      requires |key| == 8 && round.Length == 15
      modifies this, round
      ensures numRounds == 14
      ensures forall i :: 0 <= i <= 14 ==> round[i] == RoundKey(b, key, i)
    {
      hide RoundKey;
      var rc: bv8 := 1;
      numRounds := 14;
      round[0] := State(key[0], key[1], key[2], key[3]);
      round[1] := State(key[4], key[5], key[6], key[7]);
      FirstRoundKeys(b, key);
      for i := 2 to 15
        modifies round
        invariant rc == Rcon((i + 1) / 2)
        invariant forall k :: 0 <= k < i ==> round[k] == RoundKey(b, key, k)
      {
        rc := NextKey256(b, key, i, rc);
      }
    }

    // srtp_aes_expand_encryption_key, on a key of len octets given as columns
    method ExpandEncryptionKey(b: SBox, key: seq<Col>, len: nat) returns (status: Status)
      requires 4 * |key| == len && round.Length == 15
      modifies this, round
      ensures status == if len == 16 || len == 32 then Ok else BadParam
      ensures status == Ok ==> numRounds == len / 4 + 6 && forall i :: 0 <= i <= numRounds ==> round[i] == RoundKey(b, key, i)
      ensures status == Ok ==> forall i :: numRounds < i < 15 ==> round[i] == old(round[i])
      ensures status != Ok ==> numRounds == old(numRounds) && round[..] == old(round[..])
    {
      if len == 16 {
        Expand128(b, key);
        return Ok;
      } else if len == 32 {
        Expand256(b, key);
        return Ok;
      }
      return BadParam;
    }

    // The exchange loop: entries 0..n in reverse order, except for the two in the middle if n is odd.
    method ReverseRounds(n: nat)
      requires round.Length == 15 && n <= 14
      modifies round
      ensures forall i :: 0 <= i < 15 ==> round[i] == old(round[Mirror(n, i)])
    {
      for i := 0 to n / 2
        invariant forall k :: 0 <= k < i ==> round[k] == old(round[n - k])
        invariant forall k :: n - i < k <= n ==> round[k] == old(round[n - k])
        invariant forall k :: i <= k <= n - i ==> round[k] == old(round[k])
        invariant forall k :: n < k < 15 ==> round[k] == old(round[k])
      {
        round[n - i], round[i] := round[i], round[n - i];
      }
    }

    // InvMixColumns of entries 1..n - 1, by the U tables.
    method UnmixRounds(b: SBox, n: nat)
      requires round.Length == 15 && n <= 14 && b.Bijective()
      modifies round
      ensures forall i :: 0 <= i < 15 ==> round[i] == if 1 <= i < n then InvMixColumns(old(round[i])) else old(round[i])
    {
      var i := 1;
      while i < n
        invariant 1 <= i
        invariant forall k :: 0 <= k < 15 ==> round[k] == if 1 <= k < i && k < n then InvMixColumns(old(round[k])) else old(round[k])
      {
        hide InvMixCol, UnmixedByTables;
        var r := round[i];
        round[i] := State(UnmixedByTables(b, r.c0), UnmixedByTables(b, r.c1), UnmixedByTables(b, r.c2), UnmixedByTables(b, r.c3));
        UnmixedIs(b, r.c0);
        UnmixedIs(b, r.c1);
        UnmixedIs(b, r.c2);
        UnmixedIs(b, r.c3);
        i := i + 1;
      }
    }

    /** srtp_aes_expand_decryption_key.  The count that rules the transformation is read on entry: the
        schedule is the one for decryption if the count is right by then, and is as expanded if the count
        is 0 as in fresh memory. */
    method ExpandDecryptionKey(b: SBox, key: seq<Col>, len: nat) returns (status: Status)
      requires 4 * |key| == len && round.Length == 15 && numRounds <= 14 && b.Bijective()
      modifies this, round
      ensures status == if len == 16 || len == 32 then Ok else BadParam
      ensures status == Ok ==> numRounds == len / 4 + 6
      ensures status == Ok ==> round[..] == Inverted(Expanded(b, key, old(round[..])), old(numRounds))
      ensures status == Ok && old(numRounds) == numRounds ==>
                forall i :: 0 <= i <= numRounds ==> round[i] == InverseSchedule(FullSchedule(b, key), numRounds)[i]
      ensures status == Ok && old(numRounds) < 2 ==> forall i :: 0 <= i <= numRounds ==> round[i] == FullSchedule(b, key)[i]
    {
      hide InvMixColumns, RoundKey;
      var n := numRounds;
      status := ExpandEncryptionKey(b, key, len);
      if status != Ok {
        return;
      }
      ghost var expanded := round[..];
      assert expanded == Expanded(b, key, old(round[..]));
      ReverseRounds(n);
      UnmixRounds(b, n);
      assert round[..] == Inverted(expanded, n);
    }
  }

  // The place that the exchange loop takes an entry from.
  function Mirror(n: nat, i: nat): nat {
    if i < n / 2 || n - n / 2 < i <= n then n - i else i
  }

  function Inverted(keys: seq<State>, n: nat): (r: seq<State>)
    requires |keys| == 15 && n <= 14
    ensures |r| == 15
  {
    seq(15, (i: nat) requires i < 15 => if 1 <= i < n then InvMixColumns(keys[Mirror(n, i)]) else keys[Mirror(n, i)])
  }

  // A schedule written over the memory of another.
  function Expanded(b: SBox, key: seq<Col>, was: seq<State>): (r: seq<State>)
    requires (|key| == 4 || |key| == 8) && |was| == 15
    ensures |r| == 15
  {
    seq(15, (i: nat) requires i < 15 => if i <= |key| + 6 then RoundKey(b, key, i) else was[i])
  }

  function FullSchedule(b: SBox, key: seq<Col>): (r: seq<State>)
    requires |key| == 4 || |key| == 8
    ensures |r| == 15
  {
    seq(15, (i: nat) => RoundKey(b, key, i))
  }

  // The U tables applied to the S-box of each octet: the two substitutions cancel.
  function UnmixedByTables(b: SBox, c: Col): Col {
    AddCol4(U0(b, b.sub(c.r0)), U1(b, b.sub(c.r1)), U2(b, b.sub(c.r2)), U3(b, b.sub(c.r3)))
  }

  lemma UnmixedIs(b: SBox, c: Col)
    requires b.Bijective()
    ensures UnmixedByTables(b, c) == InvMixCol(c)
  {
    InvTableColumn(b, b.sub(c.r0), b.sub(c.r1), b.sub(c.r2), b.sub(c.r3));
    hide InvMixCol, U0, U1, U2, U3, AddCol4;
  }

  // ---------- srtp_aes_encrypt and srtp_aes_decrypt ----------

  // A count other than 10, 12 or 14 stops after nine rounds, without a final one.
  function CipherFor(b: SBox, keys: seq<State>, numRounds: nat, block: State): State
    requires |keys| == 15
  {
    if numRounds in {10, 12, 14} then Cipher(b, keys, numRounds, block) else AfterRounds(b, keys, block, 9)
  }

  function InvCipherFor(b: SBox, keys: seq<State>, numRounds: nat, block: State): State
    requires |keys| == 15
  {
    if numRounds in {10, 12, 14} then InvCipher(b, keys, numRounds, block) else AfterInvRounds(b, keys, block, 9)
  }

  method Encrypt(b: SBox, v: array<bv8>, k: ExpandedKey)
    requires v.Length == 16 && k.round.Length == 15
    modifies v
    ensures StateOf(v[..]) == CipherFor(b, k.round[..], k.numRounds, old(StateOf(v[..])))
  {
    hide AddKey, RoundOf, Scrambled, StateOf;
    ghost var block, keys := StateOf(v[..]), k.round[..];
    XorEq(v, k.round[0]);
    var last := if k.numRounds in {10, 12, 14} then k.numRounds - 1 else 9;
    for i := 1 to last + 1
      invariant StateOf(v[..]) == AfterRounds(b, keys, block, i - 1)
    {
      AesRound(b, v, k.round[i]);
    }
    if k.numRounds in {10, 12, 14} {
      AesFinalRound(b, v, k.round[k.numRounds]);
    }
  }

  method Decrypt(b: SBox, v: array<bv8>, k: ExpandedKey)
    requires v.Length == 16 && k.round.Length == 15
    modifies v
    ensures StateOf(v[..]) == InvCipherFor(b, k.round[..], k.numRounds, old(StateOf(v[..])))
  {
    hide AddKey, InvRoundOf, Unscrambled, StateOf;
    ghost var block, keys := StateOf(v[..]), k.round[..];
    XorEq(v, k.round[0]);
    var last := if k.numRounds in {10, 12, 14} then k.numRounds - 1 else 9;
    for i := 1 to last + 1
      invariant StateOf(v[..]) == AfterInvRounds(b, keys, block, i - 1)
    {
      AesInvRound(b, v, k.round[i]);
    }
    if k.numRounds in {10, 12, 14} {
      AesInvFinalRound(b, v, k.round[k.numRounds]);
    }
  }

  lemma {:induction false} RoundsReadPrefix(b: SBox, keys: seq<State>, keys': seq<State>, block: State, n: nat)
    requires n < |keys| && n < |keys'| && forall i :: 0 <= i <= n ==> keys[i] == keys'[i]
    ensures AfterRounds(b, keys, block, n) == AfterRounds(b, keys', block, n)
    ensures AfterInvRounds(b, keys, block, n) == AfterInvRounds(b, keys', block, n)
  {
    hide RoundOf, InvRoundOf;
    if n > 0 {
      RoundsReadPrefix(b, keys, keys', block, n - 1);
    }
  }

  /** Expanding a 128- or 256-bit key both ways, encrypting and decrypting a block gives the block
      back, provided the count in the decryption key is right before it is expanded. */
  method EncryptThenDecrypt(b: SBox, key: seq<Col>, len: nat, v: array<bv8>, ek: ExpandedKey, dk: ExpandedKey)
    requires b.Bijective() && 4 * |key| == len && (len == 16 || len == 32) && v.Length == 16
    requires ek != dk && ek.round != dk.round && ek.round.Length == 15 == dk.round.Length
    requires dk.numRounds == len / 4 + 6
    modifies v, ek, dk, ek.round, dk.round
    ensures StateOf(v[..]) == old(StateOf(v[..]))
  {
    hide StateOf, Cipher, InvCipher, InvMixColumns, RoundKey;
    ghost var block := StateOf(v[..]);
    var status := ek.ExpandEncryptionKey(b, key, len);
    status := dk.ExpandDecryptionKey(b, key, len);
    ghost var full, nr := FullSchedule(b, key), len / 4 + 6;
    Encrypt(b, v, ek);
    CipherReadsPrefix(b, ek.round[..], full, nr, block);
    ghost var c := StateOf(v[..]);
    Decrypt(b, v, dk);
    CipherReadsPrefix(b, dk.round[..], InverseSchedule(full, nr), nr, c);
    DecryptInvertsEncrypt(b, full, nr, block);
  }

  lemma CipherReadsPrefix(b: SBox, keys: seq<State>, keys': seq<State>, nr: nat, block: State)
    requires 0 < nr < |keys| && nr < |keys'| && forall i :: 0 <= i <= nr ==> keys[i] == keys'[i]
    ensures Cipher(b, keys, nr, block) == Cipher(b, keys', nr, block)
    ensures InvCipher(b, keys, nr, block) == InvCipher(b, keys', nr, block)
  {
    hide AddKey, Scrambled, Unscrambled, AfterRounds, AfterInvRounds;
    RoundsReadPrefix(b, keys, keys', block, nr - 1);
  }
}
