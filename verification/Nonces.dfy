/** Initialization vectors never collide: distinct (SSRC, index) pairs use disjoint counter blocks. */
module Nonces {
  import opened CounterMode
  import opened Packets
  import opened Transforms
  import RW = ReplayWindow

  lemma XorOctetInjective(o: bv8, a: bv8, b: bv8)
    requires XorOctet(o, a) == XorOctet(o, b) || XorOctet(a, o) == XorOctet(b, o)
    ensures a == b
  {}

  lemma ZeroXorZero()
    ensures XorOctet(0, 0) == 0
  {}

  // A field two octets longer is the quotient's field and the two low octets.
  lemma OctetsSplit(n: nat, k: nat)
    ensures Octets(n, k + 2) == Octets(n / 0x1_0000, k) + Octets(n, 2)
  {
    hide OctetOf;
    assert n / 256 / 256 == n / 0x1_0000;
    assert Octets(n, 2) == Octets(n / 256, 1) + [OctetOf(n)];
    assert Octets(n / 256, 1) == [OctetOf(n / 256)];
    assert Octets(n / 256, k + 1) == Octets(n / 256 / 256, k) + [OctetOf(n / 256)];
  }

  lemma LowOctets(n: nat)
    ensures Octets(n % 0x1_0000, 2) == Octets(n, 2)
  {
    hide OctetOf;
    var m := n % 0x1_0000;
    assert Octets(m / 256, 1) == [OctetOf(m / 256)];
    assert Octets(n / 256, 1) == [OctetOf(n / 256)];
    Residues(n);
    SameOctet(m, n);
    SameOctet(m / 256, n / 256);
  }

  lemma SameOctet(m: nat, n: nat)
    requires m % 256 == n % 256
    ensures OctetOf(m) == OctetOf(n)
  {}

  lemma Residues(n: nat)
    ensures n % 0x1_0000 % 256 == n % 256 && n % 0x1_0000 / 256 % 256 == n / 256 % 256
  {
    var q, m := n / 0x1_0000, n % 0x1_0000;
    assert n == 256 * (256 * q) + m;
    assert n / 256 == 256 * q + m / 256;
  }

  // ---------- counter mode ----------

  /** The SRTCP vector has the SRTP layout, with the 31-bit index in the place of the 48-bit one. */
  lemma RtcpIcmIvLayout(ssrc: Ssrc, index: nat)
    requires index < 0x1_0000_0000
    ensures RtcpIcmIv(ssrc, index) == IcmIv(ssrc, index)
  {
    hide Octets;
    var high, low := index / 0x1_0000, index * 0x1_0000 % 0x1_0000_0000;
    OctetsSplit(index, 4);
    LowWord(index);
    assert IcmIv(ssrc, index) == [0, 0, 0, 0] + ssrc + (Octets(high, 4) + Octets(index, 2)) + [0, 0];
  }

  // The low half of the index, moved up.
  lemma LowWord(index: nat)
    ensures Octets(index * 0x1_0000 % 0x1_0000_0000, 4) == Octets(index, 2) + [0, 0]
  {
    hide Octets;
    var low := index * 0x1_0000 % 0x1_0000_0000;
    LowHalf(index);
    OctetsSplit(low, 2);
    LowOctets(low);
    LowOctets(index);
    ZeroOctets();
  }

  lemma LowHalf(index: nat)
    ensures var low := index * 0x1_0000 % 0x1_0000_0000; low / 0x1_0000 == index % 0x1_0000 && low % 0x1_0000 == 0
  {
    var q, m := index / 0x1_0000, index % 0x1_0000;
    assert index * 0x1_0000 == 0x1_0000_0000 * q + 0x1_0000 * m;
  }

  lemma ZeroOctets()
    ensures Octets(0, 2) == [0, 0]
  {
    assert Octets(0, 1) == [0];
  }

  lemma IcmIvInjective(s: Ssrc, i: nat, t: Ssrc, j: nat)
    requires i < RW.INDEX_LIMIT && j < RW.INDEX_LIMIT
    requires IcmIv(s, i) == IcmIv(t, j)
    ensures s == t && i == j
  {
    hide Octets;
    assert IcmIv(s, i)[4..8] == s && IcmIv(t, j)[4..8] == t;
    assert IcmIv(s, i)[8..14] == Octets(i, 6) && IcmIv(t, j)[8..14] == Octets(j, 6);
    Powers();
    OctetsInjective(i, j, 6);
  }

  /** Encryption starts with the block counter at zero, so a packet has all 2^16 - 1 blocks before the
      counter runs out. */
  lemma OriginCounter(key: IcmKey, ssrc: Ssrc, index: nat)
    requires |key.salt| == 14
    ensures Counter(Origin(key, IcmIv(ssrc, index))) == 0
  {
    hide Octets, XorOctet, XorBlock;
    var c, offset, iv: seq<bv8> := Origin(key, IcmIv(ssrc, index)), key.salt + [0, 0], IcmIv(ssrc, index);
    assert offset[14] == 0 && offset[15] == 0 && iv[14] == 0 && iv[15] == 0;
    ZeroXorZero();
    assert c[14] == 0 && c[15] == 0;
  }

  lemma OriginInjective(key: IcmKey, iv: Block, other: Block)
    requires |key.salt| == 14 && Origin(key, iv)[..14] == Origin(key, other)[..14]
    ensures iv[..14] == other[..14]
  {
    hide XorOctet, XorBlock;
    var offset: Block := key.salt + [0, 0];
    forall i | 0 <= i < 14 ensures iv[i] == other[i] {
      assert Origin(key, iv)[..14][i] == Origin(key, other)[..14][i];
      XorOctetInjective(offset[i], iv[i], other[i]);
    }
  }

  /** Under one key, the counter blocks of two packets coincide only if it is the same block of the same
      SSRC and index. */
  lemma CounterBlocksDisjoint(key: IcmKey, s: Ssrc, i: nat, m: nat, t: Ssrc, j: nat, n: nat)
    requires |key.salt| == 14 && i < RW.INDEX_LIMIT && j < RW.INDEX_LIMIT
    requires m <= COUNTER_MAX && n <= COUNTER_MAX
    requires Advanced(Origin(key, IcmIv(s, i)), m) == Advanced(Origin(key, IcmIv(t, j)), n)
    ensures s == t && i == j && m == n
  {
    hide Octets, XorOctet, XorBlock, IcmIv, Origin, Advanced, Counter;
    var a, b := IcmIv(s, i), IcmIv(t, j);
    OriginCounter(key, s, i);
    OriginCounter(key, t, j);
    CounterBlocksDiffer(Origin(key, a), Origin(key, b), m, n);
    OriginInjective(key, a, b);
    SameEnd(s, i, t, j);
    IcmIvInjective(s, i, t, j);
  }

  lemma SameEnd(s: Ssrc, i: nat, t: Ssrc, j: nat)
    requires IcmIv(s, i)[..14] == IcmIv(t, j)[..14]
    ensures IcmIv(s, i) == IcmIv(t, j)
  {
    hide Octets;
    assert IcmIv(s, i)[14..] == [0, 0] == IcmIv(t, j)[14..];
    assert IcmIv(s, i) == IcmIv(s, i)[..14] + IcmIv(s, i)[14..];
    assert IcmIv(t, j) == IcmIv(t, j)[..14] + IcmIv(t, j)[14..];
  }

  // ---------- AEAD ----------

  lemma XorOctetsInjective(a: seq<bv8>, b: seq<bv8>, salt: seq<bv8>)
    requires |a| == |b| == |salt| && XorOctets(a, salt) == XorOctets(b, salt)
    ensures a == b
  {
    hide XorOctet;
    forall i | 0 <= i < |a| ensures a[i] == b[i] {
      assert XorOctets(a, salt)[i] == XorOctets(b, salt)[i];
      XorOctetInjective(salt[i], a[i], b[i]);
    }
  }

  /** Under one salt, two packets share an AEAD vector only if they share SSRC and index. */
  lemma AeadIvInjective(salt: seq<bv8>, s: Ssrc, i: nat, t: Ssrc, j: nat)
    requires |salt| == SALT && i < RW.INDEX_LIMIT && j < RW.INDEX_LIMIT
    requires AeadIv(salt, s, i) == AeadIv(salt, t, j)
    ensures s == t && i == j
  {
    hide Octets, XorOctets;
    var a := [0, 0] + s + Octets(i / 0x1_0000, 4) + Octets(i % 0x1_0000, 2);
    var b := [0, 0] + t + Octets(j / 0x1_0000, 4) + Octets(j % 0x1_0000, 2);
    XorOctetsInjective(a, b, salt);
    assert a[2..6] == s && b[2..6] == t;
    assert a[6..10] == Octets(i / 0x1_0000, 4) && b[6..10] == Octets(j / 0x1_0000, 4);
    assert a[10..] == Octets(i % 0x1_0000, 2) && b[10..] == Octets(j % 0x1_0000, 2);
    Powers();
    OctetsInjective(i / 0x1_0000, j / 0x1_0000, 4);
    OctetsInjective(i % 0x1_0000, j % 0x1_0000, 2);
  }

  lemma RtcpAeadIvInjective(salt: seq<bv8>, s: Ssrc, i: nat, t: Ssrc, j: nat)
    requires |salt| == SALT && i < 0x1_0000_0000 && j < 0x1_0000_0000
    requires RtcpAeadIv(salt, s, i) == RtcpAeadIv(salt, t, j)
    ensures s == t && i == j
  {
    hide Octets, XorOctets;
    var a, b := [0, 0] + s + [0, 0] + Octets(i, 4), [0, 0] + t + [0, 0] + Octets(j, 4);
    XorOctetsInjective(a, b, salt);
    assert a[2..6] == s && b[2..6] == t;
    assert a[8..] == Octets(i, 4) && b[8..] == Octets(j, 4);
    Powers();
    OctetsInjective(i, j, 4);
  }
}
