/**
 srtp_octet_string_equal of datatypes.c: a comparison whose control flow depends only
 on the length.  Differences are OR-ed into accumulators, eight octets at a time and
 then four and one in the portable form, 32, 16, 8 and one in the SSE2 form.
 */
module OctetStrings {
  import opened Words
  import opened BitVectors

  // memcpy of four octets into a little-endian word.
  function Load32(s: seq<bv8>, i: nat): Word
    requires i + 4 <= |s|
  {
    Pack(s[i], s[i + 1], s[i + 2], s[i + 3])
  }

  // _mm_loadu_si128 and _mm_loadl_epi64
  function Load128(s: seq<bv8>, i: nat): Vec
    requires i + 16 <= |s|
  {
    Vec(Load32(s, i), Load32(s, i + 4), Load32(s, i + 8), Load32(s, i + 12))
  }

  function Load64(s: seq<bv8>, i: nat): Vec
    requires i + 8 <= |s|
  {
    Vec(Load32(s, i), Load32(s, i + 4), ZERO, ZERO)
  }

  function XorSi128(a: Vec, b: Vec): Vec {
    Vec(Xor(a.w0, b.w0), Xor(a.w1, b.w1), Xor(a.w2, b.w2), Xor(a.w3, b.w3))
  }

  // The lane that the three folding instructions leave in the low 32 bits.
  function Folded(v: Vec): Word {
    var v1 := OrSi128(v, Vec(v.w2, v.w3, v.w2, v.w3));
    OrSi128(v1, SrliSi128By4(v1)).w0
  }

  lemma OrZeroBits(x: bv32, y: bv32)
    ensures OrBits(x, y) == 0 <==> x == 0 && y == 0
  {}

  lemma XorTwiceBits(x: bv32, y: bv32)
    ensures XorBits(XorBits(x, y), y) == x && XorBits(0, y) == y && XorBits(y, y) == 0
  {}

  lemma XorZeroBits(x: bv32, y: bv32)
    ensures XorBits(x, y) == 0 <==> x == y
  {
    hide XorBits;
    XorTwiceBits(x, y);
  }

  // An accumulator stays zero exactly when nothing differs.
  lemma Accumulate(acc: Word, x: Word, y: Word)
    ensures Or(acc, Xor(x, y)) == ZERO <==> acc == ZERO && x == y
    ensures Or(x, y) == ZERO <==> x == ZERO && y == ZERO
  {
    hide OrBits, XorBits;
    XorZeroBits(x.bits, y.bits);
    OrZeroBits(acc.bits, XorBits(x.bits, y.bits));
    OrZeroBits(x.bits, y.bits);
  }

  lemma PackInjective(a0: bv8, a1: bv8, a2: bv8, a3: bv8, b0: bv8, b1: bv8, b2: bv8, b3: bv8)
    ensures Pack(a0, a1, a2, a3) == Pack(b0, b1, b2, b3) <==> a0 == b0 && a1 == b1 && a2 == b2 && a3 == b3
  {
    if Pack(a0, a1, a2, a3) == Pack(b0, b1, b2, b3) {
      UnpackOctets(a0, a1, a2, a3);
      UnpackOctets(b0, b1, b2, b3);
    }
  }

  lemma UnpackOctets(b0: bv8, b1: bv8, b2: bv8, b3: bv8)
    ensures OctetIn(Pack(b0, b1, b2, b3), 0) == b0 && OctetIn(Pack(b0, b1, b2, b3), 1) == b1
    ensures OctetIn(Pack(b0, b1, b2, b3), 2) == b2 && OctetIn(Pack(b0, b1, b2, b3), 3) == b3
  {}

  lemma OneOctet(acc: Word, x: bv8, y: bv8)
    ensures Or(acc, Xor(Word(x as bv32), Word(y as bv32))) == ZERO <==> acc == ZERO && x == y
  {
    Accumulate(acc, Word(x as bv32), Word(y as bv32));
    assert (x as bv32) == (y as bv32) <==> x == y;
  }

  predicate Same(a: seq<bv8>, b: seq<bv8>, i: nat)
    requires i <= |a| && i <= |b|
  {
    a[..i] == b[..i]
  }

  lemma Same4(a: seq<bv8>, b: seq<bv8>, i: nat)
    requires i + 4 <= |a| == |b|
    ensures Same(a, b, i + 4) <==> Same(a, b, i) && Load32(a, i) == Load32(b, i)
  {
    hide Pack;
    PackInjective(a[i], a[i + 1], a[i + 2], a[i + 3], b[i], b[i + 1], b[i + 2], b[i + 3]);
    if Same(a, b, i + 4) {
      assert forall k :: 0 <= k < i + 4 ==> a[k] == a[..i + 4][k] && b[k] == b[..i + 4][k];
    }
    if Same(a, b, i) {
      assert a[..i + 4] == a[..i] + [a[i], a[i + 1], a[i + 2], a[i + 3]];
      assert b[..i + 4] == b[..i] + [b[i], b[i + 1], b[i + 2], b[i + 3]];
    }
  }

  lemma Same1(a: seq<bv8>, b: seq<bv8>, i: nat)
    requires i < |a| == |b|
    ensures Same(a, b, i + 1) <==> Same(a, b, i) && a[i] == b[i]
  {
    if Same(a, b, i + 1) {
      assert a[..i] == a[..i + 1][..i] && b[..i] == b[..i + 1][..i];
      assert a[i] == a[..i + 1][i] && b[i] == b[..i + 1][i];
    }
  }

  // The last octets, one at a time; both forms end with this loop.
  method TailEqual(a: seq<bv8>, b: seq<bv8>, start: nat, acc0: Word) returns (equal: bool)
    requires start <= |a| == |b|
    requires acc0 == ZERO <==> Same(a, b, start)
    ensures equal <==> a == b
  {
    hide Or, Xor;
    var i, acc := start, acc0;
    while i < |b|
      invariant start <= i <= |b|
      invariant acc == ZERO <==> Same(a, b, i)
    {
      OneOctet(acc, a[i], b[i]);
      acc := Or(acc, Xor(Word(a[i] as bv32), Word(b[i] as bv32)));
      Same1(a, b, i);
      i := i + 1;
    }
    equal := acc == ZERO;
    assert a[..|a|] == a && b[..|b|] == b;
  }

  method EqualPortable(a: seq<bv8>, b: seq<bv8>) returns (equal: bool)
    requires |a| == |b|
    ensures equal <==> a == b
  {
    hide Or, Xor, Load32;
    var acc, acc2, i := ZERO, ZERO, 0;
    while 8 * i < |a| / 8 * 8
      invariant 0 <= 8 * i <= |a|
      invariant acc == ZERO && acc2 == ZERO <==> Same(a, b, 8 * i)
    {
      var p := 8 * i;
      Accumulate(acc, Load32(a, p), Load32(b, p));
      Accumulate(acc2, Load32(a, p + 4), Load32(b, p + 4));
      acc := Or(acc, Xor(Load32(a, p), Load32(b, p)));
      acc2 := Or(acc2, Xor(Load32(a, p + 4), Load32(b, p + 4)));
      Same4(a, b, p);
      Same4(a, b, p + 4);
      i := i + 1;
    }
    Accumulate(ZERO, acc, acc2);
    acc := Or(acc, acc2);
    var p := 8 * i;
    if |a| - p >= 4 {
      Accumulate(acc, Load32(a, p), Load32(b, p));
      acc := Or(acc, Xor(Load32(a, p), Load32(b, p)));
      Same4(a, b, p);
      p := p + 4;
    }
    equal := TailEqual(a, b, p, acc);
  }

  predicate IsZero(v: Vec) {
    v == Vec(ZERO, ZERO, ZERO, ZERO)
  }

  lemma AccumulateVec(acc: Vec, x: Vec, y: Vec)
    ensures IsZero(OrSi128(acc, XorSi128(x, y))) <==> IsZero(acc) && x == y
    ensures IsZero(OrSi128(x, y)) <==> IsZero(x) && IsZero(y)
  {
    hide Or, Xor;
    Accumulate(acc.w0, x.w0, y.w0);
    Accumulate(acc.w1, x.w1, y.w1);
    Accumulate(acc.w2, x.w2, y.w2);
    Accumulate(acc.w3, x.w3, y.w3);
  }

  lemma FoldedIsZero(v: Vec)
    ensures Folded(v) == ZERO <==> IsZero(v)
  {
    hide Or, Xor;
    Accumulate(ZERO, v.w0, v.w2);
    Accumulate(ZERO, v.w1, v.w3);
    Accumulate(ZERO, Or(v.w0, v.w2), Or(v.w1, v.w3));
  }

  lemma Same16(a: seq<bv8>, b: seq<bv8>, i: nat)
    requires i + 16 <= |a| == |b|
    ensures Same(a, b, i + 16) <==> Same(a, b, i) && Load128(a, i) == Load128(b, i)
  {
    hide Load32, Same;
    Same4(a, b, i);
    Same4(a, b, i + 4);
    Same4(a, b, i + 8);
    Same4(a, b, i + 12);
  }

  lemma Same8(a: seq<bv8>, b: seq<bv8>, i: nat)
    requires i + 8 <= |a| == |b|
    ensures Same(a, b, i + 8) <==> Same(a, b, i) && Load64(a, i) == Load64(b, i)
  {
    hide Load32, Same;
    Same4(a, b, i);
    Same4(a, b, i + 4);
  }

  method EqualSse2(a: seq<bv8>, b: seq<bv8>) returns (equal: bool)
    requires |a| == |b|
    ensures equal <==> a == b
  {
    hide OrSi128, XorSi128, IsZero, Load128, Load64, Folded;
    var acc1, acc2, i := Vec(ZERO, ZERO, ZERO, ZERO), Vec(ZERO, ZERO, ZERO, ZERO), 0;
    AllZero();
    while 32 * i < |a| / 32 * 32
      invariant 0 <= 32 * i <= |a|
      invariant IsZero(acc1) && IsZero(acc2) <==> Same(a, b, 32 * i)
    {
      var p := 32 * i;
      AccumulateVec(acc1, Load128(a, p), Load128(b, p));
      AccumulateVec(acc2, Load128(a, p + 16), Load128(b, p + 16));
      acc1 := OrSi128(acc1, XorSi128(Load128(a, p), Load128(b, p)));
      acc2 := OrSi128(acc2, XorSi128(Load128(a, p + 16), Load128(b, p + 16)));
      Same16(a, b, p);
      Same16(a, b, p + 16);
      i := i + 1;
    }
    AccumulateVec(acc1, acc1, acc2);
    acc1 := OrSi128(acc1, acc2);
    var p := 32 * i;
    if |a| - p >= 16 {
      AccumulateVec(acc1, Load128(a, p), Load128(b, p));
      acc1 := OrSi128(acc1, XorSi128(Load128(a, p), Load128(b, p)));
      Same16(a, b, p);
      p := p + 16;
    }
    if |a| - p >= 8 {
      AccumulateVec(acc1, Load64(a, p), Load64(b, p));
      acc1 := OrSi128(acc1, XorSi128(Load64(a, p), Load64(b, p)));
      Same8(a, b, p);
      p := p + 8;
    }
    FoldedIsZero(acc1);
    equal := TailEqual(a, b, p, Folded(acc1));
  }

  lemma AllZero()
    ensures IsZero(Vec(ZERO, ZERO, ZERO, ZERO))
  {}
}
