/**
 What SHA-1 and HMAC are made of, told apart from their definitions: where the constants come from, rotations,
 the schedule and the rounds by position, padding and key pads octet by octet.
 */
module Fips180 {
  import opened Words
  import opened Sha1Hash
  import HmacSha1

  // ---------- constants ----------

  // The integer square root of n, with thirty fractional bits.
  predicate IsRoot(k: nat, n: nat) {
    k * k <= n * 0x1000_0000_0000_0000 < (k + 1) * (k + 1)
  }

  /** The constants are the square roots of 2, 3, 5 and 10. */
  lemma Roots()
    ensures IsRoot(K(0).bits as nat, 2) && IsRoot(K(20).bits as nat, 3) && IsRoot(K(40).bits as nat, 5) && IsRoot(K(60).bits as nat, 10)
  {}

  /** Each holds for twenty rounds. */
  lemma TwentyRounds(t: nat)
    requires t < 80
    ensures K(t) == K(t / 20 * 20)
  {}

  /** The octets of the initial value count up in nibbles and down again, in words with the low octet first. */
  lemma InitialCounts()
    ensures WordOctets(INITIAL.a) == [0x67, 0x45, 0x23, 0x01] && WordOctets(INITIAL.b) == [0xef, 0xcd, 0xab, 0x89]
    ensures WordOctets(INITIAL.c) == [0x98, 0xba, 0xdc, 0xfe] && WordOctets(INITIAL.d) == [0x10, 0x32, 0x54, 0x76]
    ensures WordOctets(INITIAL.e) == [0xc3, 0xd2, 0xe1, 0xf0]
  {}

  // ---------- words ----------

  /** Rotations by 1, 5 and 30; the choice, the odd one out and the majority, over all combinations of bits. */
  lemma WordFunctions()
    ensures S1(Word(0x89ab_cdef)) == Word(0x1357_9bdf) && S5(Word(0x89ab_cdef)) == Word(0x3579_bdf1)
    ensures S30(Word(0x89ab_cdef)) == Word(0xe26a_f37b)
    ensures var b, c, d := Word(0xf0f0_f0f0), Word(0xcccc_cccc), Word(0xaaaa_aaaa);
            Ch(b, c, d) == Word(0xcaca_caca) && Parity(b, c, d) == Word(0x9696_9696) && Maj(b, c, d) == Word(0xe8e8_e8e8)
  {}

  /** Words are big-endian, both ways. */
  lemma BigEndian(w: Word)
    ensures BeWord(0x61, 0x62, 0x63, 0x80) == Word(0x6162_6380) && WordOctets(Word(0x6162_6380)) == [0x61, 0x62, 0x63, 0x80]
    ensures var o := WordOctets(w); BeWord(o[0], o[1], o[2], o[3]) == w
  {}

  // ---------- section 6.1.2 ----------

  /** Word t of the schedule comes from words t - 3, t - 8, t - 14 and t - 16. */
  lemma {:induction false} ScheduleIs(m: seq<Word>, n: nat, t: nat)
    requires |m| == 16 && 16 <= n && t < n
    ensures var w := Schedule(m, n);
            w[t] == if t < 16 then m[t] else S1(Xor(Xor(Xor(w[t - 3], w[t - 8]), w[t - 14]), w[t - 16]))
    decreases n
  {
    hide S1, Xor;
    if n > 16 && t < n - 1 {
      ScheduleIs(m, n - 1, t);
    }
  }

  lemma FunctionIs(t: nat, b: Word, c: Word, d: Word)
    requires t < 80
    ensures F(t, b, c, d) == if t / 20 == 0 then Ch(b, c, d) else if t / 20 == 2 then Maj(b, c, d) else Parity(b, c, d)
  {}

  /** The first two rounds of the example that hashes "abc". */
  lemma FirstRounds(w: seq<Word>)
    requires |w| == 80 && w[0] == Word(0x6162_6380) && w[1] == Word(0)
    ensures Rounds(INITIAL, w, 1) == Hash(Word(0x0116_fc33), Word(0x6745_2301), Word(0x7bf3_6ae2), Word(0x98ba_dcfe), Word(0x1032_5476))
    ensures Rounds(INITIAL, w, 2) == Hash(Word(0x8990_536d), Word(0x0116_fc33), Word(0x59d1_48c0), Word(0x7bf3_6ae2), Word(0x98ba_dcfe))
  {
    assert Rounds(INITIAL, w, 0) == INITIAL;
  }

  /** After the last round the value before is added, modulo 2^32; the digest is the five words in order. */
  lemma CompressAdds(h: Hash, m: seq<Word>)
    requires |m| == 16
    ensures var s := Rounds(h, Schedule(m, 80), 80);
            Compress(h, m) == Hash(Plus(s.a, h.a), Plus(s.b, h.b), Plus(s.c, h.c), Plus(s.d, h.d), Plus(s.e, h.e))
    ensures Plus(Word(0xffff_fffe), Word(5)) == Word(3)
    ensures Digest(INITIAL) == [0x67, 0x45, 0x23, 0x01, 0xef, 0xcd, 0xab, 0x89, 0x98, 0xba, 0xdc, 0xfe, 0x10, 0x32, 0x54, 0x76,
                                0xc3, 0xd2, 0xe1, 0xf0]
  {
    var s := Rounds(h, Schedule(m, 80), 80);
    InitialCounts();
    hide Rounds, Schedule, Plus, WordOctets;
    PlusCommutes(s.a, h.a);
    PlusCommutes(s.b, h.b);
    PlusCommutes(s.c, h.c);
    PlusCommutes(s.d, h.d);
    PlusCommutes(s.e, h.e);
    PlusWraps();
  }

  lemma PlusCommutes(x: Word, y: Word)
    ensures Plus(x, y) == Plus(y, x)
  {}

  lemma PlusWraps()
    ensures Plus(Word(0xffff_fffe), Word(5)) == Word(3)
  {}

  // ---------- section 5.1.1, and RFC 2104 ----------

  /** A one bit, zeros, and the number of bits in eight octets, to the next multiple of 64. */
  lemma PaddingIs(n: nat)
    requires n < SHORT_MESSAGE
    ensures var p := Padding(n);
            && (n + |p|) % 64 == 0 && 9 <= |p| < 73 && p[0] == 0x80
            && (forall i :: 1 <= i < |p| - 8 ==> p[i] == 0) && p[|p| - 8..] == LengthOctets(n)
  {
    hide LengthOctets;
  }

  lemma LengthIs(n: nat)
    requires n < SHORT_MESSAGE
    ensures LengthOctets(n)[..4] == [0, 0, 0, 0] && LengthOctets(n)[4..] == WordOctets(Word((8 * n) as bv32))
  {
    hide WordOctets;
    ZeroWord();
  }

  lemma ZeroWord()
    ensures WordOctets(Word(0)) == [0, 0, 0, 0]
  {}

  /** Section 2 of RFC 2104: the key, filled with zeros to 64 octets, XOR-ed with 0x36 inside and with 0x5c outside. */
  lemma HmacIs(key: seq<bv8>, msg: seq<bv8>) returns (inner: seq<bv8>, outer: seq<bv8>)
    requires |key| <= 64 && 64 + |msg| < SHORT_MESSAGE
    ensures |inner| == 64 == |outer|
    ensures forall i :: 0 <= i < 64 ==> inner[i] == (if i < |key| then key[i] else 0) ^ 0x36
    ensures forall i :: 0 <= i < 64 ==> outer[i] == (if i < |key| then key[i] else 0) ^ 0x5c
    ensures HmacSha1.Hmac(key, msg) == Sha1(outer + Sha1(inner + msg))
  {
    hide Sha1;
    inner, outer := HmacSha1.PaddedKey(key, 0x36), HmacSha1.PaddedKey(key, 0x5c);
  }
}
