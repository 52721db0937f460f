/**
 The default transforms of RFC 3711, put together from the primitives: AES in counter mode and
 HMAC-SHA1 with a truncated tag.
 */
module Suites {
  import opened Errors
  import opened CounterMode
  import opened Transforms
  import AES = AesCipher
  import H = HmacSha1
  import S = Sha1Hash

  // The octets of a state, column by column.
  function OctetsOf(s: AES.State): Block {
    [s.c0.r0, s.c0.r1, s.c0.r2, s.c0.r3, s.c1.r0, s.c1.r1, s.c1.r2, s.c1.r3,
     s.c2.r0, s.c2.r1, s.c2.r2, s.c2.r3, s.c3.r0, s.c3.r1, s.c3.r2, s.c3.r3]
  }

  function AesBlock(b: AES.SBox, key: seq<AES.Col>, x: Block): Block
    requires |key| == 4 || |key| == 8
  {
    OctetsOf(AES.Cipher(b, AES.FullSchedule(b, key), |key| + 6, AES.StateOf(x)))
  }

  function AesIcm(b: AES.SBox, key: seq<AES.Col>, salt: seq<bv8>): IcmKey
    requires |key| == 4 || |key| == 8
  {
    IcmKey(x => AesBlock(b, key, x), salt)
  }

  // Messages too long for the hash have no tag worth the name.
  function HmacTag(key: seq<bv8>, tagLen: nat, msg: seq<bv8>): (tag: seq<bv8>)
    requires |key| <= H.MAX_KEY && tagLen <= 20
    ensures |tag| == tagLen
  {
    if H.PAD + |msg| < S.SHORT_MESSAGE then H.Hmac(key, msg)[..tagLen] else seq(tagLen, _ => 0)
  }

  /** A tag is the start of the HMAC. */
  lemma TagIsPrefix(key: seq<bv8>, tagLen: nat, msg: seq<bv8>)
    requires |key| <= H.MAX_KEY && tagLen <= 20 && H.PAD + |msg| < S.SHORT_MESSAGE
    ensures |HmacTag(key, tagLen, msg)| == tagLen && HmacTag(key, tagLen, msg) <= H.Hmac(key, msg)
  {}

  function HmacMac(key: seq<bv8>, tagLen: nat): Mac
    requires |key| <= H.MAX_KEY && tagLen <= 20
  {
    Mac(tagLen, msg => HmacTag(key, tagLen, msg))
  }

  // What the key derivation hands to one cipher and its authenticator.
  datatype Material = Material(key: seq<AES.Col>, salt: seq<bv8>, auth: seq<bv8>) {
    predicate Fits() {
      (|key| == 4 || |key| == 8) && |salt| == 14 && |auth| <= H.MAX_KEY
    }
  }

  // Header extensions have a cipher of their own, and no authenticator.
  datatype MasterKey = MasterKey(rtp: Material, xtn: Option<Material>, rtcp: Material, mki: seq<bv8>) {
    predicate Fits() {
      rtp.Fits() && rtcp.Fits() && (xtn.Some? ==> xtn.value.Fits())
    }
  }

  function AesHmacKeys(b: AES.SBox, m: MasterKey, rtpTag: nat, rtcpTag: nat): SessionKeys
    requires m.Fits() && rtpTag <= TAG_LIMIT && rtcpTag <= TAG_LIMIT
  {
    SessionKeys(IcmCipher(AesIcm(b, m.rtp.key, m.rtp.salt)),
                if m.xtn.None? then None else Some(AesIcm(b, m.xtn.value.key, m.xtn.value.salt)),
                HmacMac(m.rtp.auth, rtpTag), m.rtp.salt[..SALT],
                IcmCipher(AesIcm(b, m.rtcp.key, m.rtcp.salt)), HmacMac(m.rtcp.auth, rtcpTag), m.rtcp.salt[..SALT], m.mki)
  }

  lemma OneOfASuite(b: AES.SBox, m: MasterKey, rtpTag: nat, rtcpTag: nat)
    requires m.Fits() && rtpTag <= TAG_LIMIT && rtcpTag <= TAG_LIMIT
    ensures var k := AesHmacKeys(b, m, rtpTag, rtcpTag);
            LawfulKeys(k, |m.mki|) && !k.rtp.GcmCipher? && k.auth.tagLen == rtpTag && k.rtcpAuth.tagLen == rtcpTag
  {
    hide HmacTag, AesBlock;
    var k := AesHmacKeys(b, m, rtpTag, rtcpTag);
    assert LawfulMac(k.auth) && LawfulMac(k.rtcpAuth);
  }

  /** Any number of master keys, AES-128 or AES-256 each, with or without header extension encryption, under
      any services and tag lengths: the suite meets what the protocol asks of its transforms. */
  lemma SuiteIsLawful(b: AES.SBox, masters: seq<MasterKey>, rtpTag: nat, rtcpTag: nat, p: Policy)
    requires masters != [] && forall i :: 0 <= i < |masters| ==> masters[i].Fits() && |masters[i].mki| == p.mkiSize
    requires rtpTag <= TAG_LIMIT && rtcpTag <= TAG_LIMIT && p.mkiSize <= MKI_LIMIT && p.useMki == (p.mkiSize > 0)
    requires |p.keys| == |masters| && forall i :: 0 <= i < |masters| ==> p.keys[i] == AesHmacKeys(b, masters[i], rtpTag, rtcpTag)
    ensures Lawful(p)
  {
    hide AesHmacKeys, MasterKey.Fits, LawfulKeys;
    forall k | k in p.keys ensures LawfulKeys(k, p.mkiSize) && SameSuite(p.keys[0], k) {
      var i :| 0 <= i < |p.keys| && p.keys[i] == k;
      OneOfASuite(b, masters[i], rtpTag, rtcpTag);
      OneOfASuite(b, masters[0], rtpTag, rtcpTag);
    }
  }

  /** srtp_aes_encrypt under an expanded key is the block function that counter mode runs on. */
  method EncryptBlock(b: AES.SBox, key: seq<AES.Col>, ek: AES.ExpandedKey, v: array<bv8>)
    requires (|key| == 4 || |key| == 8) && v.Length == 16 && ek.round.Length == 15
    requires ek.numRounds == |key| + 6 && forall i :: 0 <= i <= ek.numRounds ==> ek.round[i] == AES.RoundKey(b, key, i)
    modifies v
    ensures v[..] == AesBlock(b, key, old(v[..]))
  {
    hide AES.Cipher, AES.RoundKey;
    ghost var block := AES.StateOf(v[..]);
    AES.CipherReadsPrefix(b, ek.round[..], AES.FullSchedule(b, key), |key| + 6, block);
    AES.Encrypt(b, v, ek);
    OctetsReturn(v[..]);
  }

  lemma OctetsReturn(v: seq<bv8>)
    requires |v| == 16
    ensures OctetsOf(AES.StateOf(v)) == v
  {}

  /** srtp_auth_start, srtp_auth_update over the packet and srtp_auth_compute over the rollover counter
      yield the tag that the protocol puts into the packet, whatever the context was used for before. */
  method PacketTag(ctx: H.HmacCtx, tagLen: nat, body: seq<bv8>, roc: seq<bv8>) returns (tag: seq<bv8>)
    requires ctx.Valid() && tagLen <= 20 && H.PAD + |body| + |roc| < S.SHORT_MESSAGE
    modifies ctx, ctx.ctx, ctx.ctx.buffer
    ensures ctx.Valid() && ctx.key == old(ctx.key)
    ensures tag == HmacMac(ctx.key, tagLen).compute(body + roc)
  {
    hide H.Hmac, H.HmacCtx.Valid, H.PaddedKey;
    ctx.Start();
    ctx.Update(body);
    assert [] + body == body;
    var status;
    status, tag := ctx.Compute(roc, tagLen);
  }
}
