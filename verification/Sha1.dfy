/**
 SHA-1.  First the one-shot hash of sections 5.1.1 and 6.1.2 of FIPS 180-4, then the
 incremental context of sha1.c, which buffers a partial block and pads in place when it
 finishes.
 */
module Sha1Hash {
  import opened Words

  const SHORT_MESSAGE := 0x2000_0000  // 2^29 octets: the bit count is kept in 32 bits

  // ---------- word operations ----------

  function S1(x: Word): Word {
    Word((x.bits << 1) | (x.bits >> 31))
  }

  function S5(x: Word): Word {
    Word((x.bits << 5) | (x.bits >> 27))
  }

  function S30(x: Word): Word {
    Word((x.bits << 30) | (x.bits >> 2))
  }

  function Ch(b: Word, c: Word, d: Word): Word {
    Word((b.bits & c.bits) | (!b.bits & d.bits))
  }

  function Parity(b: Word, c: Word, d: Word): Word {
    Word(b.bits ^ c.bits ^ d.bits)
  }

  function Maj(b: Word, c: Word, d: Word): Word {
    Word((b.bits & c.bits) | (b.bits & d.bits) | (c.bits & d.bits))
  }

  function Plus(x: Word, y: Word): Word {
    Word(x.bits + y.bits)
  }

  function BeWord(b0: bv8, b1: bv8, b2: bv8, b3: bv8): Word {
    Word(((b0 as bv32) << 24) | ((b1 as bv32) << 16) | ((b2 as bv32) << 8) | (b3 as bv32))
  }

  function WordOctets(w: Word): (r: seq<bv8>)
    ensures |r| == 4
  {
    [(w.bits >> 24) as bv8, ((w.bits >> 16) & 0xff) as bv8, ((w.bits >> 8) & 0xff) as bv8, (w.bits & 0xff) as bv8]
  }

  // ---------- FIPS 180-4 ----------

  datatype Hash = Hash(a: Word, b: Word, c: Word, d: Word, e: Word)

  const INITIAL := Hash(Word(0x67452301), Word(0xefcdab89), Word(0x98badcfe), Word(0x10325476), Word(0xc3d2e1f0))

  const K0 := Word(0x5A827999)
  const K1 := Word(0x6ED9EBA1)
  const K2 := Word(0x8F1BBCDC)
  const K3 := Word(0xCA62C1D6)

  function F(t: nat, b: Word, c: Word, d: Word): Word {
    if t < 20 then Ch(b, c, d) else if t < 40 then Parity(b, c, d) else if t < 60 then Maj(b, c, d) else Parity(b, c, d)
  }

  function K(t: nat): Word {
    if t < 20 then K0 else if t < 40 then K1 else if t < 60 then K2 else K3
  }

  function Round(s: Hash, f: Word, w: Word, k: Word): Hash {
    Hash(Plus(Plus(Plus(Plus(S5(s.a), f), s.e), w), k), s.a, S30(s.b), s.c, s.d)
  }

  function ScheduleWord(w3: Word, w8: Word, w14: Word, w16: Word): Word {
    S1(Xor(Xor(Xor(w3, w8), w14), w16))
  }

  // The first t words of the message schedule.
  function Schedule(m: seq<Word>, t: nat): (w: seq<Word>)
    requires |m| == 16 && 16 <= t
    ensures |w| == t
  {
    if t == 16 then m
    else
      var w := Schedule(m, t - 1);
      w + [ScheduleWord(w[t - 4], w[t - 9], w[t - 15], w[t - 17])]
  }

  function Rounds(s: Hash, w: seq<Word>, t: nat): Hash
    requires t <= |w|
  {
    if t == 0 then s
    else
      var r := Rounds(s, w, t - 1);
      Round(r, F(t - 1, r.b, r.c, r.d), w[t - 1], K(t - 1))
  }

  function Compress(h: Hash, m: seq<Word>): Hash
    requires |m| == 16
  {
    var r := Rounds(h, Schedule(m, 80), 80);
    Hash(Plus(h.a, r.a), Plus(h.b, r.b), Plus(h.c, r.c), Plus(h.d, r.d), Plus(h.e, r.e))
  }

  function WordIn(m: seq<bv8>, j: nat): Word
    requires 4 * j + 4 <= |m|
  {
    BeWord(m[4 * j], m[4 * j + 1], m[4 * j + 2], m[4 * j + 3])
  }

  function BlockWords(block: seq<bv8>): (m: seq<Word>)
    requires |block| == 64
    ensures |m| == 16
  {
    seq(16, (j: nat) requires j < 16 => WordIn(block, j))
  }

  function HashBlocks(h: Hash, data: seq<bv8>): Hash
    requires |data| % 64 == 0
  {
    if data == [] then h
    else Compress(HashBlocks(h, data[..|data| - 64]), BlockWords(data[|data| - 64..]))
  }

  // The message length in bits, as a 64-bit big-endian integer.
  function LengthOctets(octets: nat): (r: seq<bv8>)
    requires octets < 0x2000_0000_0000_0000
    ensures |r| == 8
  {
    WordOctets(Word((8 * octets / 0x1_0000_0000) as bv32)) + WordOctets(Word((8 * octets % 0x1_0000_0000) as bv32))
  }

  // Zeros up to 448 modulo 512 bits.
  function ZeroCount(octets: nat): (zeros: nat)
    ensures (octets + 9 + zeros) % 64 == 0 && zeros < 64
  {
    (55 - octets) % 64
  }

  // Section 5.1.1: a one bit, the zeros, the length.
  function Padding(octets: nat): (r: seq<bv8>)
    requires octets < 0x2000_0000_0000_0000
    ensures |r| == 9 + ZeroCount(octets)
  {
    [0x80] + seq(ZeroCount(octets), _ => 0) + LengthOctets(octets)
  }

  function Digest(h: Hash): (r: seq<bv8>)
    ensures |r| == 20
  {
    WordOctets(h.a) + WordOctets(h.b) + WordOctets(h.c) + WordOctets(h.d) + WordOctets(h.e)
  }

  function Sha1(msg: seq<bv8>): (r: seq<bv8>)
    requires |msg| < SHORT_MESSAGE
    ensures |r| == 20
  {
    Digest(HashBlocks(INITIAL, msg + Padding(|msg|)))
  }

  lemma {:induction false} HashBlocksAppend(h: Hash, a: seq<bv8>, b: seq<bv8>)
    requires |a| % 64 == 0 && |b| % 64 == 0
    ensures HashBlocks(h, a + b) == HashBlocks(HashBlocks(h, a), b)
    decreases |b|
  {
    if b == [] {
      assert a + b == a;
    } else {
      var n := |b| - 64;
      HashBlocksAppend(h, a, b[..n]);
      assert (a + b)[..|a + b| - 64] == a + b[..n];
      assert (a + b)[|a + b| - 64..] == b[n..];
    }
  }

  lemma OneBlock(h: Hash, block: seq<bv8>)
    requires |block| == 64
    ensures HashBlocks(h, block) == Compress(h, BlockWords(block))
  {
    assert block[..0] == [] && block[0..] == block;
  }

  // ---------- sha1.c ----------

  // The schedule loop and the four round loops, which sha1.c writes out three times.
  method CompressInPlace(w: array<Word>, h: Hash) returns (r: Hash)
    requires w.Length == 80
    modifies w
    ensures r == Compress(h, old(w[..16]))
  {
    hide ScheduleWord, Round, Ch, Parity, Maj, Plus;
    ghost var m := w[..16];
    for t := 16 to 80
      invariant w[..t] == Schedule(m, t)
    {
      w[t] := ScheduleWord(w[t - 3], w[t - 8], w[t - 14], w[t - 16]);
      assert w[..t + 1] == w[..t] + [w[t]];
    }
    ghost var ws := w[..];
    assert ws == Schedule(m, 80);
    hide Schedule;
    var s := h;
    for t := 0 to 20
      invariant s == Rounds(h, ws, t)
    {
      s := Round(s, Ch(s.b, s.c, s.d), w[t], K0);
    }
    for t := 20 to 40
      invariant s == Rounds(h, ws, t)
    {
      s := Round(s, Parity(s.b, s.c, s.d), w[t], K1);
    }
    for t := 40 to 60
      invariant s == Rounds(h, ws, t)
    {
      s := Round(s, Maj(s.b, s.c, s.d), w[t], K2);
    }
    for t := 60 to 80
      invariant s == Rounds(h, ws, t)
    {
      s := Round(s, Parity(s.b, s.c, s.d), w[t], K3);
    }
    r := Hash(Plus(h.a, s.a), Plus(h.b, s.b), Plus(h.c, s.c), Plus(h.d, s.d), Plus(h.e, s.e));
  }

  // srtp_sha1_core on a full message buffer
  method Core(buffer: array<bv8>, h: Hash) returns (r: Hash)
    requires buffer.Length == 64
    ensures r == Compress(h, BlockWords(buffer[..]))
  {
    hide WordIn, Compress;
    var w := new Word[80](_ => ZERO);
    for j := 0 to 16
      invariant w[..j] == BlockWords(buffer[..])[..j]
    {
      w[j] := WordIn(buffer[..], j);
    }
    ghost var m := BlockWords(buffer[..]);
    assert w[..16] == m;
    r := CompressInPlace(w, h);
  }

  // ---------- padding ----------

  // The low 32 bits of a bit count.
  function LengthWord(bits: nat): Word {
    Word((bits % 0x1_0000_0000) as bv32)
  }

  lemma LengthWordWraps(bits: nat)
    ensures LengthWord(bits % 0x1_0000_0000) == LengthWord(bits)
  {}

  // The block that ends the message: with the length if it fits, else with zeros.
  function LastBlock(tail: seq<bv8>, bits: Word): (r: seq<bv8>)
    requires |tail| < 64
    ensures |r| == 64
  {
    if |tail| < 56
    then tail + [0x80] + seq(59 - |tail|, _ => 0) + WordOctets(bits)
    else tail + [0x80] + seq(63 - |tail|, _ => 0)
  }

  function ExtraBlock(bits: Word): (r: seq<bv8>)
    ensures |r| == 64
  {
    seq(60, _ => 0) + WordOctets(bits)
  }

  lemma WordOctetsOfZero()
    ensures WordOctets(ZERO) == [0, 0, 0, 0]
  {}

  lemma BeWordOctets(w: Word)
    ensures var o := WordOctets(w); BeWord(o[0], o[1], o[2], o[3]) == w
  {}

  lemma LengthOfShortMessage(octets: nat)
    requires octets < SHORT_MESSAGE
    ensures LengthOctets(octets) == [0, 0, 0, 0] + WordOctets(LengthWord(8 * octets))
  {
    assert 8 * octets / 0x1_0000_0000 == 0;
    WordOctetsOfZero();
  }

  // The padded message: its whole blocks, the last block, and one more if the length did not fit.
  lemma PaddedMessage(full: seq<bv8>, tail: seq<bv8>)
    requires |full| % 64 == 0 && |tail| < 64 && |full| + |tail| < SHORT_MESSAGE
    ensures var n := |full| + |tail|;
            full + tail + Padding(n) ==
            full + LastBlock(tail, LengthWord(8 * n)) + if |tail| < 56 then [] else ExtraBlock(LengthWord(8 * n))
  {
    hide LengthWord, WordOctets, LengthOctets;
    var n := |full| + |tail|;
    LengthOfShortMessage(n);
    assert n % 64 == |tail|;
    var bits := WordOctets(LengthWord(8 * n));
    if |tail| < 56 {
      assert ZeroCount(n) == 55 - |tail|;
      assert Padding(n) == [0x80] + seq(59 - |tail|, _ => 0) + bits;
    } else {
      assert ZeroCount(n) == 119 - |tail|;
      assert Padding(n) == [0x80] + seq(63 - |tail|, _ => 0) + (seq(60, _ => 0) + bits);
    }
  }

  // Setting the high bit of the octet after the message, when k octets of the word are message.
  function Marked(w: Word, k: nat): Word {
    if k == 3 then Word((w.bits & 0xffffff00) | 0x80)
    else if k == 2 then Word((w.bits & 0xffff0000) | 0x8000)
    else if k == 1 then Word((w.bits & 0xff000000) | 0x800000)
    else Word(0x80000000)
  }

  lemma Marked3(b0: bv8, b1: bv8, b2: bv8, b3: bv8)
    ensures Marked(BeWord(b0, b1, b2, b3), 3) == BeWord(b0, b1, b2, 0x80)
  {}

  lemma Marked2(b0: bv8, b1: bv8, b2: bv8, b3: bv8)
    ensures Marked(BeWord(b0, b1, b2, b3), 2) == BeWord(b0, b1, 0x80, 0)
  {}

  lemma Marked1(b0: bv8, b1: bv8, b2: bv8, b3: bv8)
    ensures Marked(BeWord(b0, b1, b2, b3), 1) == BeWord(b0, 0x80, 0, 0)
  {}

  lemma Marked0()
    ensures Marked(ZERO, 0) == BeWord(0x80, 0, 0, 0)
    ensures BeWord(0, 0, 0, 0) == ZERO
  {}

  // Word j of the last block, from a buffer whose first r octets are message.
  function PadWord(m: seq<bv8>, r: nat, bits: Word, j: nat): Word
    requires |m| == 64 && r < 64 && j < 16
  {
    if j < r / 4 then WordIn(m, j)
    else if j == r / 4 then Marked(if r % 4 == 0 then ZERO else WordIn(m, j), r % 4)
    else if j == 15 && r < 56 then bits
    else ZERO
  }

  lemma PadWordCases(m: seq<bv8>, r: nat, bits: Word)
    requires |m| == 64 && r < 64
    ensures forall k :: 0 <= k < r / 4 ==> PadWord(m, r, bits, k) == WordIn(m, k)
    ensures PadWord(m, r, bits, r / 4) == Marked(if r % 4 == 0 then ZERO else WordIn(m, r / 4), r % 4)
    ensures forall k :: r / 4 < k < 15 ==> PadWord(m, r, bits, k) == ZERO
    ensures r < 60 ==> PadWord(m, r, bits, 15) == if r < 56 then bits else ZERO
  {}

  method ZeroWords(w: array<Word>, from: nat)
    requires w.Length == 80
    modifies w
    ensures forall k :: from <= k < 15 ==> w[k] == ZERO
    ensures forall k :: 0 <= k < 80 && !(from <= k < 15) ==> w[k] == old(w[k])
  {
    var i := from;
    while i < 15
      invariant from <= i
      invariant forall k :: from <= k < i && k < 15 ==> w[k] == ZERO
      invariant forall k :: 0 <= k < 80 && !(from <= k < 15) ==> w[k] == old(w[k])
    {
      w[i] := ZERO;
      i := i + 1;
    }
  }

  lemma LastBlockOctet(m: seq<bv8>, r: nat, bits: Word, k: nat)
    requires |m| == 64 && r < 64 && k < 64
    ensures LastBlock(m[..r], bits)[k] ==
            if k < r then m[k] else if k == r then 0x80
            else if r < 56 && k >= 60 then WordOctets(bits)[k - 60] else 0
  {}

  lemma PadWordIs(m: seq<bv8>, r: nat, bits: Word, j: nat)
    requires |m| == 64 && r < 64 && j < 16
    ensures PadWord(m, r, bits, j) == WordIn(LastBlock(m[..r], bits), j)
  {
    hide Marked, BeWord, WordOctets, LastBlock;
    LastBlockOctet(m, r, bits, 4 * j);
    LastBlockOctet(m, r, bits, 4 * j + 1);
    LastBlockOctet(m, r, bits, 4 * j + 2);
    LastBlockOctet(m, r, bits, 4 * j + 3);
    var q, b0, b1, b2, b3 := r - 4 * j, m[4 * j], m[4 * j + 1], m[4 * j + 2], m[4 * j + 3];
    if q < 0 {
      assert j > r / 4;
      Marked0();
      BeWordOctets(bits);
    } else if q < 4 {
      assert j == r / 4 && r % 4 == q;
      Marked0();
      Marked1(b0, b1, b2, b3);
      Marked2(b0, b1, b2, b3);
      Marked3(b0, b1, b2, b3);
    }
  }

  lemma PieceFed(fed: seq<bv8>, piece: seq<bv8>)
    requires |fed| % 64 + |piece| < 64
    ensures var r, both := |fed| % 64 + |piece|, fed + piece;
            && |both| % 64 == r
            && both[..|both| - r] == fed[..|fed| - |fed| % 64]
            && both[|both| - r..] == fed[|fed| - |fed| % 64..] + piece
  {}

  lemma BlockFed(fed: seq<bv8>, piece: seq<bv8>)
    requires |fed| % 64 + |piece| == 64
    ensures var full, both := fed[..|fed| - |fed| % 64], fed + piece;
            && |both| % 64 == 0 && |full| % 64 == 0
            && HashBlocks(INITIAL, both) == Compress(HashBlocks(INITIAL, full), BlockWords(fed[|fed| - |fed| % 64..] + piece))
  {
    hide Compress, BlockWords;
    var full, both := fed[..|fed| - |fed| % 64], fed + piece;
    assert both[..|both| - 64] == full;
    assert both[|both| - 64..] == fed[|fed| - |fed| % 64..] + piece;
  }

  // Finishing: one compression if the length fitted, two otherwise.
  lemma Finished(full: seq<bv8>, tail: seq<bv8>, h: Hash, h1: Hash, h2: Hash)
    requires |full| % 64 == 0 && |tail| < 64 && |full| + |tail| < SHORT_MESSAGE
    requires h == HashBlocks(INITIAL, full)
    requires h1 == Compress(h, BlockWords(LastBlock(tail, LengthWord(8 * (|full| + |tail|)))))
    requires h2 == if |tail| < 56 then h1 else Compress(h1, BlockWords(ExtraBlock(LengthWord(8 * (|full| + |tail|)))))
    ensures Digest(h2) == Sha1(full + tail)
  {
    hide Compress, BlockWords, LastBlock, ExtraBlock, LengthWord, Digest, Padding, HashBlocks;
    var bits := LengthWord(8 * (|full| + |tail|));
    var last, extra := LastBlock(tail, bits), ExtraBlock(bits);
    PaddedMessage(full, tail);
    HashBlocksAppend(INITIAL, full, last);
    OneBlock(h, last);
    if |tail| < 56 {
      assert full + last + [] == full + last;
    } else {
      HashBlocksAppend(INITIAL, full + last, extra);
      OneBlock(h1, extra);
    }
  }

  lemma ExtraWordIs(bits: Word, j: nat)
    requires j < 16
    ensures WordIn(ExtraBlock(bits), j) == if j == 15 then bits else ZERO
  {
    hide BeWord, WordOctets;
    BeWordOctets(bits);
    Marked0();
  }

  lemma BitsAdd(m: nat, n: nat)
    ensures (8 * m % 0x1_0000_0000 + n * 8) % 0x1_0000_0000 == 8 * (m + n) % 0x1_0000_0000
  {}

  // ---------- srtp_sha1_ctx_t ----------

  class Sha1Ctx {
    var h: Hash
    const buffer: array<bv8>
    var inBuffer: nat
    var bits: nat  // num_bits_in_msg, modulo 2^32

    // The state after a message has been fed in, in whatever pieces, bit count aside.
    ghost predicate Fed(msg: seq<bv8>)
      reads this`h, this`inBuffer, buffer
      ensures Fed(msg) ==> inBuffer < 64 == buffer.Length
    {
      && buffer.Length == 64
      && inBuffer == |msg| % 64
      && h == HashBlocks(INITIAL, msg[..|msg| - inBuffer])
      && buffer[..inBuffer] == msg[|msg| - inBuffer..]
    }

    ghost predicate Absorbed(msg: seq<bv8>)
      reads this, buffer
    {
      Fed(msg) && bits == 8 * |msg| % 0x1_0000_0000
    }

    constructor ()
      ensures Absorbed([]) && fresh(buffer)
    {
      h := INITIAL;
      buffer := new bv8[64](_ => 0);
      inBuffer := 0;
      bits := 0;
    }

    method Init()
      requires buffer.Length == 64
      modifies this
      ensures Absorbed([])
    {
      h := INITIAL;
      inBuffer := 0;
      bits := 0;
    }

    // Structure assignment, as memcpy does it.
    method CopyFrom(other: Sha1Ctx, ghost msg: seq<bv8>)
      requires other.Absorbed(msg) && buffer.Length == 64 && other != this && other.buffer != buffer
      modifies this, buffer
      ensures Absorbed(msg)
    {
      forall i | 0 <= i < 64 { buffer[i] := other.buffer[i]; }
      h, inBuffer, bits := other.h, other.inBuffer, other.bits;
    }

    // One turn of the update loop: fill the buffer, and run the core when it is full.
    method Feed(piece: seq<bv8>, ghost fed: seq<bv8>)
      requires Fed(fed) && inBuffer + |piece| <= 64
      modifies this`h, this`inBuffer, buffer
      ensures Fed(fed + piece)
    {
      hide Compress, BlockWords, HashBlocks;
      ghost var was := buffer[..inBuffer];
      for i := 0 to |piece|
        modifies buffer
        invariant buffer[..inBuffer + i] == was + piece[..i]
      {
        buffer[inBuffer + i] := piece[i];
        assert piece[..i + 1] == piece[..i] + [piece[i]];
      }
      assert piece[..|piece|] == piece;
      if inBuffer + |piece| == 64 {
        assert buffer[..] == buffer[..64];
        BlockFed(fed, piece);
        h := Core(buffer, h);
        inBuffer := 0;
        assert (fed + piece)[..|fed + piece|] == fed + piece;
      } else {
        PieceFed(fed, piece);
        inBuffer := inBuffer + |piece|;
      }
    }

    // srtp_sha1_update
    method Update(data: seq<bv8>, ghost msg: seq<bv8>)
      requires Absorbed(msg)
      modifies this, buffer
      ensures Absorbed(msg + data)
    {
      hide Fed;
      BitsAdd(|msg|, |data|);
      bits := (bits + |data| * 8) % 0x1_0000_0000;
      var done := 0;
      assert msg + data[..0] == msg;
      while done < |data|
        modifies this`h, this`inBuffer, buffer
        invariant 0 <= done <= |data|
        invariant Fed(msg + data[..done])
      {
        var n := if |data| - done + inBuffer >= 64 then 64 - inBuffer else |data| - done;
        Feed(data[done..done + n], msg + data[..done]);
        assert msg + data[..done + n] == msg + data[..done] + data[done..done + n];
        done := done + n;
      }
      assert data[..done] == data;
    }

    // The message words and the one that gets the high bit; `i` is the next word to zero.
    method MarkWords(w: array<Word>, ghost bits: Word) returns (i: nat)
      requires buffer.Length == 64 && inBuffer < 64 && w.Length == 80
      modifies w
      ensures forall k :: 0 <= k <= inBuffer / 4 ==> w[k] == PadWord(buffer[..], inBuffer, bits, k)
      ensures inBuffer / 4 + 1 <= i && forall k :: inBuffer / 4 < k < i && k < 80 ==> w[k] == ZERO
    {
      hide Marked, WordIn, PadWord;
      var r := inBuffer;
      i := (r + 3) / 4;
      PadWordCases(buffer[..], r, bits);
      for j := 0 to i
        invariant forall k :: 0 <= k < j ==> w[k] == WordIn(buffer[..], k)
      {
        w[j] := WordIn(buffer[..], j);
      }
      if r % 4 == 0 {
        w[i] := Marked(ZERO, 0);
      } else {
        w[i - 1] := Marked(w[i - 1], r % 4);
        w[i] := ZERO;
      }
      i := i + 1;
    }

    // The words of the last block, built over the words of the buffer.
    method PadWords(w: array<Word>)
      requires buffer.Length == 64 && inBuffer < 64 && w.Length == 80
      modifies w
      ensures w[..16] == BlockWords(LastBlock(buffer[..inBuffer], LengthWord(bits)))
    {
      hide WordIn, PadWord, LastBlock, LengthWord;
      var length := LengthWord(bits);
      var i := MarkWords(w, length);
      ZeroWords(w, i);
      if inBuffer < 56 {
        w[15] := length;
      } else if inBuffer < 60 {
        w[15] := ZERO;
      }
      PadWordCases(buffer[..], inBuffer, length);
      assert forall k :: 0 <= k < 16 ==> w[k] == PadWord(buffer[..], inBuffer, length, k);
      forall k | 0 <= k < 16 ensures w[k] == BlockWords(LastBlock(buffer[..][..inBuffer], length))[k] {
        PadWordIs(buffer[..], inBuffer, length, k);
      }
      assert buffer[..][..inBuffer] == buffer[..inBuffer];
    }

    // srtp_sha1_final: the context must be initialized again before further use.
    method Final(ghost msg: seq<bv8>) returns (digest: seq<bv8>)
      requires Absorbed(msg) && |msg| < SHORT_MESSAGE
      modifies this
      ensures digest == Sha1(msg)
      ensures buffer.Length == 64
    {
      hide Compress, BlockWords, LastBlock, ExtraBlock, HashBlocks, Digest, Sha1, LengthWord;
      LengthWordWraps(8 * |msg|);
      var w := new Word[80](_ => ZERO);
      ghost var h0 := h;
      PadWords(w);
      h := CompressInPlace(w, h);
      ghost var h1 := h;
      if inBuffer >= 56 {
        ExtraWords(w);
        h := CompressInPlace(w, h);
      }
      assert msg[..|msg| - inBuffer] + msg[|msg| - inBuffer..] == msg;
      Finished(msg[..|msg| - inBuffer], msg[|msg| - inBuffer..], h0, h1, h);
      digest := Digest(h);
      inBuffer := 0;
    }

    // All zeros but for the length.
    method ExtraWords(w: array<Word>)
      requires w.Length == 80
      modifies w
      ensures w[..16] == BlockWords(ExtraBlock(LengthWord(bits)))
    {
      hide WordIn, ExtraBlock, LengthWord;
      for i := 0 to 15
        invariant forall k :: 0 <= k < i ==> w[k] == ZERO
      {
        w[i] := ZERO;
      }
      var length := LengthWord(bits);
      w[15] := length;
      forall k | 0 <= k < 16 ensures w[k] == BlockWords(ExtraBlock(length))[k] { ExtraWordIs(length, k); }
    }
  }
}
