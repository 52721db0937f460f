/**
 What AES is made of, told apart from its definition: products in the field by polynomials and remainders, rows
 and columns by position, and the examples that FIPS 197 prints.
 */
module Fips197 {
  import opened AesCipher

  // ---------- section 4.2: the field ----------

  predicate Odd(a: bv16) {
    a & 1 != 0
  }

  function Half(a: bv16): bv16 {
    a >> 1
  }

  function Double(a: bv16): bv16 {
    a << 1
  }

  function Sum(a: bv16, b: bv16): bv16 {
    a ^ b
  }

  function Term(present: bool, b: bv16): bv16 {
    if present then b else 0
  }

  // The product of two polynomials over the field of two elements: b, moved up, for every term of a.
  function Polynomial(a: bv16, b: bv16): bv16
    decreases a
  {
    if a == 0 then 0 else HalfIsLess(a); Sum(Term(Odd(a), b), Double(Polynomial(Half(a), b)))
  }

  lemma HalfIsLess(a: bv16)
    requires a != 0
    ensures Half(a) < a
  {}

  function Wide(a: bv8): bv16 {
    a as bv16
  }

  // r is the remainder of a times b by x^8 + x^4 + x^3 + x + 1, with quotient q.
  predicate Divides(a: bv8, b: bv8, q: bv16, r: bv8) {
    q < 0x80 && Polynomial(Wide(a), Wide(b)) == Sum(Polynomial(q, 0x11b), Wide(r))
  }

  ghost predicate IsProduct(a: bv8, b: bv8, r: bv8) {
    exists q: bv16 :: Divides(a, b, q, r)
  }

  lemma XorShifts(a: bv16, b: bv16)
    ensures (a ^ b) >> 1 == (a >> 1) ^ (b >> 1) && (a ^ b) << 1 == (a << 1) ^ (b << 1)
  {}

  lemma SumShifts(a: bv16, b: bv16)
    ensures Half(Sum(a, b)) == Sum(Half(a), Half(b)) && Double(Sum(a, b)) == Sum(Double(a), Double(b))
  {
    XorShifts(a, b);
  }

  // The lowest bit as a number.
  function Low(a: bv16): bv16 {
    a & 1
  }

  lemma LowOfSum(a: bv16, b: bv16)
    ensures Low(Sum(a, b)) == Sum(Low(a), Low(b)) && (Low(a) == 0 || Low(a) == 1)
  {}

  lemma OneBit(a: bv16, b: bv16)
    requires (a == 0 || a == 1) && (b == 0 || b == 1)
    ensures Sum(a, b) != 0 <==> a != b
  {}

  lemma OddIsLow(a: bv16)
    ensures Odd(a) == (Low(a) != 0)
  {}

  lemma OddOfSum(a: bv16, b: bv16)
    ensures Odd(Sum(a, b)) == (Odd(a) != Odd(b))
  {
    hide Sum, Low, Odd;
    LowOfSum(a, b);
    LowOfSum(b, a);
    OneBit(Low(a), Low(b));
    OddIsLow(a);
    OddIsLow(b);
    OddIsLow(Sum(a, b));
  }

  lemma SumAssociates(a: bv16, b: bv16, c: bv16)
    ensures Sum(Sum(a, b), c) == Sum(a, Sum(b, c))
  {}

  lemma SumCommutes(a: bv16, b: bv16)
    ensures Sum(a, b) == Sum(b, a)
  {}

  lemma SumInterchanges(a: bv16, b: bv16, c: bv16, d: bv16)
    ensures Sum(Sum(a, b), Sum(c, d)) == Sum(Sum(a, c), Sum(b, d))
  {
    hide Sum;
    SumAssociates(Sum(a, b), c, d);
    SumAssociates(a, b, c);
    SumCommutes(b, c);
    SumAssociates(a, c, b);
    SumAssociates(Sum(a, c), b, d);
  }

  lemma SumZero(a: bv16)
    ensures Sum(a, 0) == a && Sum(0, a) == a && Sum(a, a) == 0
  {}

  lemma TermSum(p: bool, q: bool, b: bv16)
    ensures Sum(Term(p, b), Term(q, b)) == Term(p != q, b)
  {
    hide Sum;
    SumZero(b);
    SumZero(0);
  }

  lemma PolynomialStep(a: bv16, x: bv16)
    ensures Polynomial(a, x) == Sum(Term(Odd(a), x), Double(Polynomial(Half(a), x)))
  {
    if a == 0 {
      assert !Odd(0) && Half(0) == 0 && Double(0) == 0 && Sum(0, 0) == 0;
    }
  }

  lemma {:induction false} PolynomialSum(a: bv16, b: bv16, x: bv16)
    ensures Polynomial(Sum(a, b), x) == Sum(Polynomial(a, x), Polynomial(b, x))
    decreases a
  {
    hide Sum, Odd, Half, Double, Term;
    if a == 0 {
      SumZero(b);
      SumZero(Polynomial(b, x));
    } else {
      HalfIsLess(a);
      PolynomialSum(Half(a), Half(b), x);
      PolynomialStep(a, x);
      PolynomialStep(b, x);
      PolynomialStep(Sum(a, b), x);
      OddOfSum(a, b);
      SumShifts(a, b);
      TermSum(Odd(a), Odd(b), x);
      SumShifts(Polynomial(Half(a), x), Polynomial(Half(b), x));
      SumInterchanges(Term(Odd(a), x), Double(Polynomial(Half(a), x)), Term(Odd(b), x), Double(Polynomial(Half(b), x)));
    }
  }

  lemma Doubled(a: bv16)
    ensures !Odd(Double(a)) && (a < 0x8000 ==> Half(Double(a)) == a)
  {}

  lemma PolynomialDouble(a: bv16, x: bv16)
    requires a < 0x8000
    ensures Polynomial(Double(a), x) == Double(Polynomial(a, x))
  {
    hide Sum, Odd, Half, Double, Polynomial;
    PolynomialStep(Double(a), x);
    Doubled(a);
    SumZero(Double(Polynomial(a, x)));
  }

  lemma PolynomialOne(x: bv16)
    ensures Polynomial(1, x) == x && Polynomial(0, x) == 0
  {
    assert Odd(1) && Half(1) == 0 && Double(0) == 0;
    SumZero(x);
  }

  // Times2 subtracts the modulus when the leading term moves out.
  lemma Times2Remainder(r: bv8)
    ensures Double(Wide(r)) == Sum(Term(r & 0x80 != 0, 0x11b), Wide(Times2(r)))
  {}

  lemma WideFacts(a: bv8, b: bv8)
    ensures Wide(Plus(a, b)) == Sum(Wide(a), Wide(b)) && Wide(a) < 0x100 && (a < 0x80 ==> Wide(a << 1) == Double(Wide(a)))
  {}

  lemma RoomAbove(q: bv16, odd: bool)
    requires q < 0x40
    ensures var next := Sum(Double(q), Term(odd, 1)); next < 0x80 && (q == 0 ==> next < 2) && (q < 2 ==> next < 4)
  {}

  lemma Itself(b: bv8)
    ensures Divides(1, b, 0, b) && Divides(0, b, 0, 0)
  {
    hide Sum, Polynomial;
    PolynomialOne(Wide(b));
    PolynomialOne(0x11b);
    SumZero(Wide(b));
    SumZero(0);
  }

  /** Times2 is multiplication by x: it takes a product to the product of twice the factor. */
  lemma Times2Doubles(a: bv8, b: bv8, q: bv16, r: bv8) returns (next: bv16)
    requires a < 0x80 && Divides(a, b, q, r) && q < 0x40
    ensures Divides(a << 1, b, next, Times2(r)) && (q == 0 ==> next < 2) && (q < 2 ==> next < 4)
  {
    hide Sum, Double, Term, Wide, Polynomial, Times2;
    var m: bv16 := 0x11b;
    next := Sum(Double(q), Term(r & 0x80 != 0, 1));
    WideFacts(a, 0);
    PolynomialDouble(Wide(a), Wide(b));
    SumShifts(Polynomial(q, m), Wide(r));
    PolynomialDouble(q, m);
    Times2Remainder(r);
    PolynomialSum(Double(q), Term(r & 0x80 != 0, 1), m);
    PolynomialOne(m);
    assert Polynomial(Term(r & 0x80 != 0, 1), m) == Term(r & 0x80 != 0, m) by { TermOne(r & 0x80 != 0, m); }
    SumAssociates(Polynomial(Double(q), m), Term(r & 0x80 != 0, m), Wide(Times2(r)));
    RoomAbove(q, r & 0x80 != 0);
  }

  lemma TermOne(present: bool, x: bv16)
    ensures Polynomial(Term(present, 1), x) == Term(present, x)
  {
    hide Polynomial;
    PolynomialOne(x);
  }

  /** The sum of two products is the product with the sum of the factors. */
  lemma PlusAdds(a: bv8, c: bv8, b: bv8, q: bv16, p: bv16, r: bv8, s: bv8)
    requires Divides(a, b, q, r) && Divides(c, b, p, s)
    ensures Divides(Plus(a, c), b, Sum(q, p), Plus(r, s))
  {
    hide Sum, Wide, Polynomial, Plus;
    var m: bv16 := 0x11b;
    WideFacts(a, c);
    WideFacts(r, s);
    PolynomialSum(Wide(a), Wide(c), Wide(b));
    PolynomialSum(q, p, m);
    SumInterchanges(Polynomial(q, m), Wide(r), Polynomial(p, m), Wide(s));
    SumStaysLow(q, p);
  }

  lemma SumStaysLow(q: bv16, p: bv16)
    requires q < 0x80 && p < 0x80
    ensures Sum(q, p) < 0x80
  {}

  lemma Plus4Adds(b: bv8, a0: bv8, q0: bv16, r0: bv8, a1: bv8, q1: bv16, r1: bv8, a2: bv8, q2: bv16, r2: bv8,
                  a3: bv8, q3: bv16, r3: bv8)
    requires Divides(a0, b, q0, r0) && Divides(a1, b, q1, r1) && Divides(a2, b, q2, r2) && Divides(a3, b, q3, r3)
    ensures IsProduct(Plus4(a0, a1, a2, a3), b, Plus4(r0, r1, r2, r3))
  {
    hide Divides, Plus, Sum;
    PlusAdds(a0, a1, b, q0, q1, r0, r1);
    PlusAdds(a2, a3, b, q2, q3, r2, r3);
    PlusAdds(Plus(a0, a1), Plus(a2, a3), b, Sum(q0, q1), Sum(q2, q3), Plus(r0, r1), Plus(r2, r3));
  }

  lemma Factors()
    ensures Plus(2, 1) == 3 && Plus4(8, 0, 0, 1) == 9 && Plus4(8, 0, 2, 1) == 0x0b && Plus4(8, 4, 0, 1) == 0x0d && Plus4(8, 4, 2, 0) == 0x0e
  {}

  lemma Powers(b: bv8) returns (q2: bv16, q4: bv16, q8: bv16)
    ensures Divides(2, b, q2, Times2(b)) && Divides(4, b, q4, Times4(b)) && Divides(8, b, q8, Times8(b))
  {
    hide Divides, Times2, Sum, Double, Term;
    Itself(b);
    assert (1 as bv8) << 1 == 2 && (2 as bv8) << 1 == 4 && (4 as bv8) << 1 == 8;
    q2 := Times2Doubles(1, b, 0, b);
    q4 := Times2Doubles(2, b, q2, Times2(b));
    q8 := Times2Doubles(4, b, q4, Times4(b));
  }

  /** The multiples in the tables are products in the field. */
  lemma Multiples(b: bv8)
    ensures IsProduct(2, b, Times2(b)) && IsProduct(3, b, Times3(b)) && IsProduct(9, b, Times9(b))
    ensures IsProduct(0x0b, b, TimesB(b)) && IsProduct(0x0d, b, TimesD(b)) && IsProduct(0x0e, b, TimesE(b))
  {
    hide Divides, Times2, Times4, Times8, Sum, Plus, Plus4;
    var q2, q4, q8 := Powers(b);
    Itself(b);
    Factors();
    PlusAdds(2, 1, b, q2, 0, Times2(b), b);
    Plus4Adds(b, 8, q8, Times8(b), 0, 0, 0, 0, 0, 0, 1, 0, b);
    Plus4Adds(b, 8, q8, Times8(b), 0, 0, 0, 2, q2, Times2(b), 1, 0, b);
    Plus4Adds(b, 8, q8, Times8(b), 4, q4, Times4(b), 0, 0, 0, 1, 0, b);
    Plus4Adds(b, 8, q8, Times8(b), 4, q4, Times4(b), 2, q2, Times2(b), 0, 0, 0);
  }

  lemma DoubleStays(p: bv16, q: bv16, h: bv16)
    requires h in {1, 2, 4, 8, 16, 32, 64} && p < h << 8 && q < h << 1
    ensures p << 1 < h << 9 && (p << 1) ^ 0x11b < h << 9 && q >> 1 < h
    ensures 0x100 <= p ==> 0x100 <= p << 1 && 0x100 <= (p << 1) ^ 0x11b
    ensures q >> 1 == 0 && q != 0 ==> q & 1 != 0
  {}

  // Multiples of the modulus by polynomials of low degree are of degree 8 and more, and do not reach sixteen bits.
  lemma {:induction false} MultipleOfModulus(q: bv16, h: bv16)
    requires h in {1, 2, 4, 8, 16, 32, 64} && 0 < q < h << 1
    ensures 0x100 <= Polynomial(q, 0x11b) < h << 9
    decreases h
  {
    var half, odd := Half(q), Odd(q);
    var p := Polynomial(half, 0x11b);
    PolynomialStep(q, 0x11b);
    if half == 0 {
      DoubleStays(0, q, h);
      PolynomialOne(0x11b);
    } else {
      DoubleStays(0, q, h);
      assert h != 1 && h >> 1 in {1, 2, 4, 8, 16, 32} && (h >> 1) << 1 == h && (h >> 1) << 9 == h << 8;
      MultipleOfModulus(half, h >> 1);
      DoubleStays(p, q, h);
      SumZero(Double(p));
      SumCommutes(0x11b, Double(p));
    }
  }

  /** There is only one product. */
  lemma ProductUnique(a: bv8, b: bv8, r: bv8, s: bv8)
    requires IsProduct(a, b, r) && IsProduct(a, b, s)
    ensures r == s
  {
    hide Sum, Wide, Polynomial;
    var m: bv16 := 0x11b;
    var q: bv16 :| Divides(a, b, q, r);
    var p: bv16 :| Divides(a, b, p, s);
    PolynomialSum(q, p, m);
    SumStaysLow(q, p);
    SumInterchanges(Polynomial(q, m), Wide(r), Polynomial(p, m), Wide(s));
    SumZero(Polynomial(Wide(a), Wide(b)));
    PolynomialOne(m);
    if Sum(q, p) != 0 {
      MultipleOfModulus(Sum(q, p), 64);
    }
    SameOctets(Polynomial(Sum(q, p), m), r, s);
  }

  lemma SameOctets(x: bv16, r: bv8, s: bv8)
    requires Sum(x, Sum(Wide(r), Wide(s))) == 0 && (x == 0 || 0x100 <= x)
    ensures r == s
  {}

  /** Section 4.2.1: {57} times {02}, {04}, {08}, {10} and {13}; section 5.2: the round constants. */
  lemma PrintedProducts()
    ensures Times2(0x57) == 0xae && Times4(0x57) == 0x47 && Times8(0x57) == 0x8e && Times2(Times8(0x57)) == 0x07
    ensures Plus(Plus(0x57, Times2(0x57)), Times2(Times8(0x57))) == 0xfe
  {}

  lemma PrintedConstants()
    ensures Rcon(1) == 0x01 && Rcon(2) == 0x02 && Rcon(3) == 0x04 && Rcon(4) == 0x08 && Rcon(5) == 0x10
    ensures Rcon(6) == 0x20 && Rcon(7) == 0x40 && Rcon(8) == 0x80 && Rcon(9) == 0x1b && Rcon(10) == 0x36
  {}

  // ---------- section 5: rows and columns ----------

  function ColumnAt(s: State, c: nat): Col
    requires c < 4
  {
    if c == 0 then s.c0 else if c == 1 then s.c1 else if c == 2 then s.c2 else s.c3
  }

  function RowAt(c: Col, r: nat): bv8
    requires r < 4
  {
    if r == 0 then c.r0 else if r == 1 then c.r1 else if r == 2 then c.r2 else c.r3
  }

  function At(s: State, r: nat, c: nat): bv8
    requires r < 4 && c < 4
  {
    RowAt(ColumnAt(s, c), r)
  }

  lemma Turned(r: nat, c: nat)
    requires r < 4 && c < 4
    ensures (c + r) % 4 == if c + r < 4 then c + r else c + r - 4
  {}

  /** Row r moves by r places to the left. */
  lemma RowsShift(s: State, r: nat, c: nat)
    requires r < 4 && c < 4
    ensures At(ShiftRows(s), r, c) == At(s, r, (c + r) % 4)
  {
    Turned(r, c);
  }

  /** And back. */
  lemma RowsShiftBack(s: State, r: nat, c: nat)
    requires r < 4 && c < 4
    ensures At(InvShiftRows(s), r, (c + r) % 4) == At(s, r, c)
  {
    Turned(r, c);
  }

  /** A word of the key turns by one octet. */
  lemma WordTurns(c: Col, r: nat)
    requires r < 4
    ensures RowAt(RotWord(c), r) == RowAt(c, (r + 1) % 4)
  {}

  // ---------- appendices A and B ----------

  // The S-box agrees with FIPS 197 on the octets that the examples substitute.
  predicate Agrees(b: SBox) {
    && b.sub(0x19) == 0xd4 && b.sub(0x3d) == 0x27 && b.sub(0xe3) == 0x11 && b.sub(0xbe) == 0xae
    && b.sub(0xa0) == 0xe0 && b.sub(0xf4) == 0xbf && b.sub(0xe2) == 0x98 && b.sub(0x2b) == 0xf1
    && b.sub(0x9a) == 0xb8 && b.sub(0xc6) == 0xb4 && b.sub(0x8d) == 0x5d && b.sub(0x2a) == 0xe5
    && b.sub(0xe9) == 0x1e && b.sub(0xf8) == 0x41 && b.sub(0x48) == 0x52 && b.sub(0x08) == 0x30
    && b.sub(0xcf) == 0x8a && b.sub(0x4f) == 0x84 && b.sub(0x3c) == 0xeb && b.sub(0x09) == 0x01
    && b.sub(0x14) == 0xfa && b.sub(0xdf) == 0x9e
    && b.sub(0x20) == 0xb7 && b.sub(0x67) == 0x85 && b.sub(0xfc) == 0xb0 && b.sub(0xde) == 0x1d
  }

  // The key of appendices A.1 and B, and the key of appendix A.3.
  const KEY128 := [Col(0x2b, 0x7e, 0x15, 0x16), Col(0x28, 0xae, 0xd2, 0xa6), Col(0xab, 0xf7, 0x15, 0x88), Col(0x09, 0xcf, 0x4f, 0x3c)]
  const KEY256 := [Col(0x60, 0x3d, 0xeb, 0x10), Col(0x15, 0xca, 0x71, 0xbe), Col(0x2b, 0x73, 0xae, 0xf0), Col(0x85, 0x7d, 0x77, 0x81),
                   Col(0x1f, 0x35, 0x2c, 0x07), Col(0x3b, 0x61, 0x08, 0xd7), Col(0x2d, 0x98, 0x10, 0xa3), Col(0x09, 0x14, 0xdf, 0xf4)]

  /** Appendix A.1: the second round key. */
  lemma Expands128(b: SBox)
    requires Agrees(b)
    ensures RoundKey(b, KEY128, 0) == State(KEY128[0], KEY128[1], KEY128[2], KEY128[3])
    ensures RoundKey(b, KEY128, 1) ==
            State(Col(0xa0, 0xfa, 0xfe, 0x17), Col(0x88, 0x54, 0x2c, 0xb1), Col(0x23, 0xa3, 0x39, 0x39), Col(0x2a, 0x6c, 0x76, 0x05))
  {
    assert KeyWord(b, KEY128, 4) == Col(0xa0, 0xfa, 0xfe, 0x17);
    assert KeyWord(b, KEY128, 5) == Col(0x88, 0x54, 0x2c, 0xb1);
    assert KeyWord(b, KEY128, 6) == Col(0x23, 0xa3, 0x39, 0x39);
  }

  /** Appendix A.3: the words up to the one that is only substituted. */
  lemma Expands256(b: SBox)
    requires Agrees(b)
    ensures RoundKey(b, KEY256, 2) ==
            State(Col(0x9b, 0xa3, 0x54, 0x11), Col(0x8e, 0x69, 0x25, 0xaf), Col(0xa5, 0x1a, 0x8b, 0x5f), Col(0x20, 0x67, 0xfc, 0xde))
    ensures KeyWord(b, KEY256, 12) == Col(0xa8, 0xb0, 0x9c, 0x1a)
  {
    assert KeyWord(b, KEY256, 8) == Col(0x9b, 0xa3, 0x54, 0x11);
    assert KeyWord(b, KEY256, 9) == Col(0x8e, 0x69, 0x25, 0xaf);
    assert KeyWord(b, KEY256, 10) == Col(0xa5, 0x1a, 0x8b, 0x5f);
    assert KeyWord(b, KEY256, 11) == Col(0x20, 0x67, 0xfc, 0xde);
  }

  /** Appendix B: the input under the first round key, and the first round. */
  lemma FirstRound(b: SBox)
    requires Agrees(b)
    ensures var block := StateOf([0x32, 0x43, 0xf6, 0xa8, 0x88, 0x5a, 0x30, 0x8d, 0x31, 0x31, 0x98, 0xa2, 0xe0, 0x37, 0x07, 0x34]);
            AfterRounds(b, FullSchedule(b, KEY128), block, 1) ==
            StateOf([0xa4, 0x9c, 0x7f, 0xf2, 0x68, 0x9f, 0x35, 0x2b, 0x6b, 0x5b, 0xea, 0x43, 0x02, 0x6a, 0x50, 0x49])
  {
    Expands128(b);
    var block := StateOf([0x32, 0x43, 0xf6, 0xa8, 0x88, 0x5a, 0x30, 0x8d, 0x31, 0x31, 0x98, 0xa2, 0xe0, 0x37, 0x07, 0x34]);
    var start := StateOf([0x19, 0x3d, 0xe3, 0xbe, 0xa0, 0xf4, 0xe2, 0x2b, 0x9a, 0xc6, 0x8d, 0x2a, 0xe9, 0xf8, 0x48, 0x08]);
    assert AfterRounds(b, FullSchedule(b, KEY128), block, 0) == start;
    assert Scrambled(b, start) ==
           StateOf([0xd4, 0xbf, 0x5d, 0x30, 0xe0, 0xb4, 0x52, 0xae, 0xb8, 0x41, 0x11, 0xf1, 0x1e, 0x27, 0x98, 0xe5]);
    assert MixColumns(Scrambled(b, start)) ==
           StateOf([0x04, 0x66, 0x81, 0xe5, 0xe0, 0xcb, 0x19, 0x9a, 0x48, 0xf8, 0xd3, 0x7a, 0x28, 0x06, 0x26, 0x4c]);
  }
}
