/**
 Initialization vectors octet by octet: counter mode as in section 4.1.1 of RFC 3711, AEAD as in sections 8.1
 and 9.1 of RFC 7714.
 */
module Layouts {
  import opened CounterMode
  import opened Packets
  import opened Transforms
  import RW = ReplayWindow
  import Nonces
  import Slices

  function Difference(a: seq<bv8>, b: seq<bv8>): (r: seq<bv8>)
    requires |a| == |b|
    ensures |r| == |a|
  {
    seq(|a|, (i: nat) requires i < |a| => a[i] ^ b[i])
  }

  lemma XorTwice(a: bv8, b: bv8)
    ensures (a ^ b) ^ a == b && (a ^ b) ^ b == a && a ^ 0 == a && 0 ^ a == a
  {}

  /** Block n of the packet with this index: the salt, with the SSRC XOR-ed into octets 4-7 and the index into
      octets 8-13, and n in the last two octets. */
  ghost predicate CounterBlock(b: Block, salt: seq<bv8>, ssrc: Ssrc, index: nat, n: nat) {
    && |salt| == 14
    && (forall i :: 0 <= i < 4 ==> b[i] == salt[i])
    && (forall i :: 4 <= i < 8 ==> b[i] == salt[i] ^ ssrc[i - 4])
    && Number(Difference(b[8..14], salt[8..14])) == index
    && 256 * (b[14] as nat) + b[15] as nat == n
  }

  /** Octets 0-1 are the salt's, the SSRC is XOR-ed into octets 2-5, the index into octets 6-11. */
  ghost predicate AeadVector(iv: seq<bv8>, salt: seq<bv8>, ssrc: Ssrc, index: nat) {
    && |iv| == 12 == |salt|
    && iv[0] == salt[0] && iv[1] == salt[1]
    && (forall i :: 2 <= i < 6 ==> iv[i] == salt[i] ^ ssrc[i - 2])
    && Number(Difference(iv[6..12], salt[6..12])) == index
  }

  /** The same with the index in octets 8-11. */
  ghost predicate RtcpAeadVector(iv: seq<bv8>, salt: seq<bv8>, ssrc: Ssrc, index: nat) {
    && |iv| == 12 == |salt|
    && iv[0] == salt[0] && iv[1] == salt[1] && iv[6] == salt[6] && iv[7] == salt[7]
    && (forall i :: 2 <= i < 6 ==> iv[i] == salt[i] ^ ssrc[i - 2])
    && Number(Difference(iv[8..12], salt[8..12])) == index
  }

  lemma IcmIvFields(ssrc: Ssrc, index: nat)
    requires index < RW.INDEX_LIMIT
    ensures var iv := IcmIv(ssrc, index);
            && (forall i :: 0 <= i < 4 ==> iv[i] == 0) && (forall i :: 4 <= i < 8 ==> iv[i] == ssrc[i - 4])
            && Number(iv[8..14]) == index && iv[14] == 0 && iv[15] == 0
  {
    hide Octets, Number;
    assert IcmIv(ssrc, index)[8..14] == Octets(index, 6);
    Powers();
    NumberOfOctets(index, 6);
  }

  // XOR-ing the salt in is undone by XOR-ing it again.
  lemma Unsalted(salt: seq<bv8>, iv: seq<bv8>, b: seq<bv8>)
    requires |salt| == |iv| == |b| && forall i :: 0 <= i < |salt| ==> b[i] == salt[i] ^ iv[i]
    ensures Difference(b, salt) == iv
  {
    forall i | 0 <= i < |salt| ensures Difference(b, salt)[i] == iv[i] {
      XorTwice(salt[i], iv[i]);
    }
  }

  lemma OriginOctets(key: IcmKey, iv: Block)
    requires |key.salt| == 14
    ensures forall i :: 0 <= i < 14 ==> Origin(key, iv)[i] == key.salt[i] ^ iv[i]
  {}

  /** Counter mode runs on these blocks. */
  lemma CounterBlockIs(key: IcmKey, ssrc: Ssrc, index: nat, n: nat)
    requires |key.salt| == 14 && index < RW.INDEX_LIMIT && n <= COUNTER_MAX
    ensures CounterBlock(Advanced(Origin(key, IcmIv(ssrc, index)), n), key.salt, ssrc, index, n)
  {
    hide Advanced, Origin, IcmIv, Number, Difference;
    var salt, iv, o := key.salt, IcmIv(ssrc, index), Origin(key, IcmIv(ssrc, index));
    var b := Advanced(o, n);
    IcmIvFields(ssrc, index);
    OriginOctets(key, iv);
    Nonces.OriginCounter(key, ssrc, index);
    AdvancedCounts(o, n);
    forall i | 0 <= i < 14 ensures b[i] == salt[i] ^ iv[i] {
      assert b[i] == b[..14][i] == o[i];
    }
    forall i | 0 <= i < 4 ensures b[i] == salt[i] {
      XorTwice(salt[i], 0);
    }
    Unsalted(salt[8..14], iv[8..14], b[8..14]);
  }

  lemma SaltedFields(fields: seq<bv8>, salt: seq<bv8>)
    requires |fields| == |salt| == 12 && fields[0] == 0 && fields[1] == 0
    ensures var iv := XorOctets(fields, salt);
            && iv[0] == salt[0] && iv[1] == salt[1] && forall i :: 0 <= i < 12 ==> iv[i] == salt[i] ^ fields[i]
  {
    forall i | 0 <= i < 12 ensures XorOctets(fields, salt)[i] == salt[i] ^ fields[i] {
      assert fields[i] ^ salt[i] == salt[i] ^ fields[i];
    }
    XorTwice(salt[0], 0);
    XorTwice(salt[1], 0);
  }

  /** srtp_calc_aead_iv */
  lemma AeadIvIs(salt: seq<bv8>, ssrc: Ssrc, index: nat)
    requires |salt| == SALT && index < RW.INDEX_LIMIT
    ensures AeadVector(AeadIv(salt, ssrc, index), salt, ssrc, index)
  {
    hide Octets, Number, XorOctets, Difference;
    var fields := [0, 0] + ssrc + Octets(index / 0x1_0000, 4) + Octets(index % 0x1_0000, 2);
    var iv := AeadIv(salt, ssrc, index);
    SaltedFields(fields, salt);
    assert fields[6..12] == Octets(index / 0x1_0000, 4) + Octets(index % 0x1_0000, 2);
    Nonces.LowOctets(index);
    Nonces.OctetsSplit(index, 4);
    Powers();
    NumberOfOctets(index, 6);
    Unsalted(salt[6..12], fields[6..12], iv[6..12]);
  }

  /** srtp_calc_aead_iv_srtcp */
  lemma RtcpAeadIvIs(salt: seq<bv8>, ssrc: Ssrc, index: nat)
    requires |salt| == SALT && index < 0x1_0000_0000
    ensures RtcpAeadVector(RtcpAeadIv(salt, ssrc, index), salt, ssrc, index)
  {
    hide Octets, Number, XorOctets, Difference;
    var fields := [0, 0] + ssrc + [0, 0] + Octets(index, 4);
    var iv := RtcpAeadIv(salt, ssrc, index);
    SaltedFields(fields, salt);
    XorTwice(salt[6], 0);
    XorTwice(salt[7], 0);
    assert fields[8..12] == Octets(index, 4);
    Powers();
    NumberOfOctets(index, 4);
    Unsalted(salt[8..12], fields[8..12], iv[8..12]);
  }

  // The salted field determines the octets.
  lemma SameDifference(a: seq<bv8>, b: seq<bv8>, salt: seq<bv8>)
    requires |a| == |b| == |salt| && Number(Difference(a, salt)) == Number(Difference(b, salt))
    ensures a == b
  {
    hide Number;
    OctetsOfNumber(Difference(a, salt));
    OctetsOfNumber(Difference(b, salt));
    forall i | 0 <= i < |a| ensures a[i] == b[i] {
      assert Difference(a, salt)[i] == Difference(b, salt)[i];
      XorTwice(a[i], salt[i]);
      XorTwice(b[i], salt[i]);
    }
  }

  /** There is one such block. */
  lemma CounterBlockUnique(a: Block, b: Block, salt: seq<bv8>, ssrc: Ssrc, index: nat, n: nat)
    requires CounterBlock(a, salt, ssrc, index, n) && CounterBlock(b, salt, ssrc, index, n)
    ensures a == b
  {
    hide Number, Difference;
    SameDifference(a[8..14], b[8..14], salt[8..14]);
    LastTwo(a[14], a[15], b[14], b[15]);
    forall i | 0 <= i < 16 ensures a[i] == b[i] {
      if 8 <= i < 14 {
        assert a[i] == a[8..14][i - 8] && b[i] == b[8..14][i - 8];
      }
    }
  }

  lemma LastTwo(a: bv8, b: bv8, c: bv8, d: bv8)
    requires 256 * (a as nat) + b as nat == 256 * (c as nat) + d as nat
    ensures a == c && b == d
  {
    TwoOctets(a, b);
    TwoOctets(c, d);
    OctetsOfNumber([a, b]);
    OctetsOfNumber([c, d]);
  }
}
