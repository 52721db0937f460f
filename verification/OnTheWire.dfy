/**
 What goes out and what is let in, octet by octet: headers, extension elements, payload, index word, MKI and tag
 of protected packets, and what must hold of a packet for it to be accepted.
 */
module OnTheWire {
  import opened Errors
  import opened CounterMode
  import opened Packets
  import opened Transforms
  import opened Sessions
  import opened Layouts
  import RW = ReplayWindow
  import RC = RtcpReplay
  import HX = HeaderExtensions
  import EM = ExtensionMasks
  import Nonces
  import RoundTrips

  // ---------- one octet ----------

  // XOR-ed with octet `at` of the keystream for this SSRC and index.
  ghost predicate Xored(key: IcmKey, ssrc: Ssrc, index: nat, at: nat, now: bv8, was: bv8) {
    exists b: Block :: CounterBlock(b, key.salt, ssrc, index, at / 16) && now == was ^ key.E(b)[at % 16]
  }

  // An octet of the payload, under confidentiality or not.
  ghost predicate PayloadOctet(conf: bool, c: Cipher, ssrc: Ssrc, index: nat, at: nat, now: bv8, was: bv8) {
    if conf && c.IcmCipher? then Xored(c.key, ssrc, index, at, now, was) else now == was
  }

  lemma KeystreamXors(key: IcmKey, ssrc: Ssrc, index: nat, at: nat, now: bv8, was: bv8)
    requires |key.salt| == 14 && index < RW.INDEX_LIMIT && at / 16 <= COUNTER_MAX
    requires now == was ^ key.E(Advanced(Origin(key, IcmIv(ssrc, index)), at / 16))[at % 16]
    ensures Xored(key, ssrc, index, at, now, was)
  {
    hide Advanced, Origin, IcmIv, CounterBlock;
    CounterBlockIs(key, ssrc, index, at / 16);
  }

  lemma PayloadOctets(conf: bool, c: Cipher, ssrc: Ssrc, index: nat, data: seq<bv8>, i: nat)
    requires (c.IcmCipher? ==> |c.key.salt| == 14) && index < RW.INDEX_LIMIT && i < |data|
    requires Payload(conf, c, IcmIv(ssrc, index), data).Some?
    ensures PayloadOctet(conf, c, ssrc, index, i, Payload(conf, c, IcmIv(ssrc, index), data).value[i], data[i])
  {
    hide Advanced, Origin, IcmIv, Xored, Counter;
    if conf && c.IcmCipher? {
      Nonces.OriginCounter(c.key, ssrc, index);
      KeystreamXors(c.key, ssrc, index, i, Payload(conf, c, IcmIv(ssrc, index), data).value[i], data[i]);
    }
  }

  // ---------- the RTP header ----------

  // The elements of the header extension, and the octets of the profile.
  function Elements(pkt: seq<bv8>): seq<bv8>
    requires ValidateHeader(pkt) == Ok && HasExtension(pkt)
  {
    pkt[HeaderLen(pkt) + 4..EncStart(pkt)]
  }

  function Profile(pkt: seq<bv8>): HX.MaybeForm
    requires ValidateHeader(pkt) == Ok && HasExtension(pkt)
  {
    HX.FormOf(pkt[HeaderLen(pkt)], pkt[HeaderLen(pkt) + 1])
  }

  // An octet of the header: as it was, unless it is data of an element whose id is listed.
  ghost predicate HeaderOctet(p: Policy, k: SessionKeys, pkt: seq<bv8>, est: nat, i: nat, now: bv8)
    requires ValidateHeader(pkt) == Ok && i < EncStart(pkt)
  {
    var j := i - (HeaderLen(pkt) + 4);
    if k.xtn.None? || !HasExtension(pkt) || j < 0 then now == pkt[i]
    else
      && Profile(pkt).Supported?
      && if HX.Covered(p.ids, Profile(pkt).form, Elements(pkt))[j]
         then Xored(k.xtn.value, RtpSsrc(pkt), est, j - EM.PaddingBefore(Profile(pkt).form, Elements(pkt), j), now, pkt[i])
         else now == pkt[i]
  }

  lemma HeaderOctets(p: Policy, k: SessionKeys, pkt: seq<bv8>, est: nat, i: nat)
    requires ValidateHeader(pkt) == Ok && (k.xtn.Some? ==> |k.xtn.value.salt| == 14) && est < RW.INDEX_LIMIT
    requires MaskedHeader(p, k, pkt, est).Good? && i < EncStart(pkt)
    ensures HeaderOctet(p, k, pkt, est, i, MaskedHeader(p, k, pkt, est).octets[i])
  {
    hide ValidateHeader, HX.Transform, HX.Process, HX.Covered, EM.PaddingBefore, Xored, IcmIv, Origin, XtnKeys;
    var h, e := HeaderLen(pkt), EncStart(pkt);
    if MasksExtension(k, pkt) {
      var x, ext := XtnKeys(p, k, RtpSsrc(pkt), est), pkt[h..e];
      TransformParts(x, ext);
      if i >= h + 4 {
        assert ext[4..] == Elements(pkt);
        ElementOctet(p, k, pkt, est, i - (h + 4));
      } else if i >= h {
        assert ext[..4][i - h] == pkt[i];
      }
    }
  }

  lemma TransformParts(x: HX.Keys, ext: seq<bv8>)
    requires 4 <= |ext| && HX.Transform(x, ext).Done?
    ensures HX.FormOf(ext[0], ext[1]).Supported? && HX.Process(x, HX.FormOf(ext[0], ext[1]).form, ext[4..], 0).Done?
    ensures var r := HX.Transform(x, ext).data;
            r[..4] == ext[..4] && r[4..] == HX.Process(x, HX.FormOf(ext[0], ext[1]).form, ext[4..], 0).data
  {
    hide HX.Process, HX.FormOf;
  }

  // Octet j of the elements.
  lemma ElementOctet(p: Policy, k: SessionKeys, pkt: seq<bv8>, est: nat, j: nat)
    requires ValidateHeader(pkt) == Ok && HasExtension(pkt) && k.xtn.Some? && |k.xtn.value.salt| == 14 && est < RW.INDEX_LIMIT
    requires Profile(pkt).Supported? && j < |Elements(pkt)|
    requires HX.Process(XtnKeys(p, k, RtpSsrc(pkt), est), Profile(pkt).form, Elements(pkt), 0).Done?
    ensures var r := HX.Process(XtnKeys(p, k, RtpSsrc(pkt), est), Profile(pkt).form, Elements(pkt), 0).data;
            HeaderOctet(p, k, pkt, est, HeaderLen(pkt) + 4 + j, r[j])
  {
    hide ValidateHeader, HX.Process, HX.Covered, EM.PaddingBefore, Xored, IcmIv, Origin, Number;
    var x, form, d := XtnKeys(p, k, RtpSsrc(pkt), est), Profile(pkt).form, Elements(pkt);
    if HX.Covered(p.ids, form, d)[j] {
      EM.ProcessMasks(x, form, d, 0, j);
      ElementsShort(pkt);
      var at := j - EM.PaddingBefore(form, d, j);
      KeystreamXors(k.xtn.value, RtpSsrc(pkt), est, at, HX.Process(x, form, d, 0).data[j], d[j]);
    } else {
      HX.ProcessCovers(x, form, d, 0);
    }
  }

  lemma ElementsShort(pkt: seq<bv8>)
    requires ValidateHeader(pkt) == Ok && HasExtension(pkt)
    ensures |Elements(pkt)| <= 4 * 0xffff
  {
    var h := HeaderLen(pkt);
    NumberBound(pkt[h + 2..h + 4]);
    Powers();
  }

  // ---------- RTP ----------

  // The tag is the MAC of these octets followed by four octets of rollover counter.
  ghost predicate Tagged(m: Mac, body: seq<bv8>, index: nat, tag: seq<bv8>) {
    exists roc: seq<bv8> :: |roc| == 4 && Number(roc) == index / 0x1_0000 && tag == m.compute(body + roc)
  }

  lemma RocIs(est: nat)
    requires est < RW.INDEX_LIMIT
    ensures |Roc(est)| == 4 && Number(Roc(est)) == est / 0x1_0000
  {
    Powers();
    NumberOfOctets(est / 0x1_0000, 4);
  }

  ghost predicate Headed(p: Policy, k: SessionKeys, pkt: seq<bv8>, est: nat, now: seq<bv8>)
    requires ValidateHeader(pkt) == Ok
  {
    EncStart(pkt) <= |now| && forall i :: 0 <= i < EncStart(pkt) ==> HeaderOctet(p, k, pkt, est, i, now[i])
  }

  /** A protected packet without AEAD: header, payload from EncStart on, MKI, and the tag, or what was there before
      if the packet is not authenticated. */
  ghost predicate Sealed(p: Policy, k: SessionKeys, pkt: seq<bv8>, est: nat, leftover: seq<bv8>, q: seq<bv8>)
    requires ValidateHeader(pkt) == Ok
  {
    var n, e := |pkt|, EncStart(pkt);
    && |q| == n + p.mkiSize + k.auth.tagLen && Headed(p, k, pkt, est, q)
    && (forall i :: e <= i < n ==> PayloadOctet(p.conf, k.rtp, RtpSsrc(pkt), est, i - e, q[i], pkt[i]))
    && q[n..n + p.mkiSize] == k.mki
    && (if p.auth then Tagged(k.auth, q[..n], est, q[n + p.mkiSize..]) else q[n + p.mkiSize..] == leftover)
  }

  /** With AEAD: the header is the associated data, and what follows is sealed under the vector of SSRC and index. */
  ghost predicate SealedAead(p: Policy, k: SessionKeys, pkt: seq<bv8>, est: nat, q: seq<bv8>)
    requires ValidateHeader(pkt) == Ok && k.rtp.GcmCipher?
  {
    var e := EncStart(pkt);
    && Headed(p, k, pkt, est, q)
    && exists iv :: AeadVector(iv, k.salt, RtpSsrc(pkt), est) && q == q[..e] + k.rtp.aead.seal(iv, q[..e], pkt[e..]) + k.mki
  }

  /** What srtp_protect makes of a packet. */
  lemma SealedIs(p: Policy, k: SessionKeys, pkt: seq<bv8>, est: nat, leftover: seq<bv8>)
    requires Lawful(p) && k in p.keys && ValidateHeader(pkt) == Ok && est < RW.INDEX_LIMIT && |leftover| == k.auth.tagLen
    requires Seal(p, k, pkt, est, leftover).Good?
    ensures var q := Seal(p, k, pkt, est, leftover).octets;
            if k.rtp.GcmCipher? then SealedAead(p, k, pkt, est, q) else Sealed(p, k, pkt, est, leftover, q)
  {
    hide MaskedHeader, Payload, ValidateHeader, Lawful, AeadIv, IcmIv, HeaderOctet, PayloadOctet, LawfulAead, AeadVector;
    assert LawfulKeys(k, p.mkiSize) by { KeysLawful(p, k); }
    var header, e := MaskedHeader(p, k, pkt, est).octets, EncStart(pkt);
    forall i | 0 <= i < e ensures HeaderOctet(p, k, pkt, est, i, header[i]) {
      HeaderOctets(p, k, pkt, est, i);
    }
    if k.rtp.GcmCipher? {
      AeadIvIs(k.salt, RtpSsrc(pkt), est);
      assert Seal(p, k, pkt, est, leftover).octets[..e] == header;
    } else {
      SealedIcmIs(p, k, pkt, est, leftover);
    }
  }

  lemma Parts(q: seq<bv8>, header: seq<bv8>, payload: seq<bv8>)
    requires |header| + |payload| <= |q| && q[..|header| + |payload|] == header + payload
    ensures forall i :: 0 <= i < |header| ==> q[i] == header[i]
    ensures forall i :: |header| <= i < |header| + |payload| ==> q[i] == payload[i - |header|]
  {
    forall i | 0 <= i < |header| + |payload| ensures q[i] == (header + payload)[i] {
      assert q[i] == q[..|header| + |payload|][i];
    }
  }

  lemma SealedIcmIs(p: Policy, k: SessionKeys, pkt: seq<bv8>, est: nat, leftover: seq<bv8>)
    requires Lawful(p) && k in p.keys && ValidateHeader(pkt) == Ok && est < RW.INDEX_LIMIT && |leftover| == k.auth.tagLen
    requires !k.rtp.GcmCipher? && SealIcm(p, k, pkt, est, leftover).Good?
    requires MaskedHeader(p, k, pkt, est).Good? && Headed(p, k, pkt, est, MaskedHeader(p, k, pkt, est).octets)
    ensures Sealed(p, k, pkt, est, leftover, SealIcm(p, k, pkt, est, leftover).octets)
  {
    hide MaskedHeader, Payload, ValidateHeader, Lawful, IcmIv, HeaderOctet, PayloadOctet, Roc, Number;
    assert LawfulKeys(k, p.mkiSize) by { KeysLawful(p, k); }
    var e, data, ssrc := EncStart(pkt), pkt[EncStart(pkt)..], RtpSsrc(pkt);
    var header, payload := MaskedHeader(p, k, pkt, est).octets, Payload(p.conf, k.rtp, IcmIv(ssrc, est), data).value;
    var q, body := SealIcm(p, k, pkt, est, leftover).octets, header + payload;
    RoundTrips.Layout(body, k.mki, if p.auth then k.auth.compute(body + Roc(est)) else leftover, q);
    Parts(q, header, payload);
    forall i | e <= i < |pkt| ensures PayloadOctet(p.conf, k.rtp, ssrc, est, i - e, q[i], pkt[i]) {
      PayloadOctets(p.conf, k.rtp, ssrc, est, data, i - e);
      assert q[i] == payload[i - e] && pkt[i] == data[i - e];
    }
    assert Headed(p, k, pkt, est, q);
    RocIs(est);
  }

  /** A packet that is let in is as long as it should be, its key has not expired, it is authentic under the
      index it is placed at, and the plain packet is decrypted under that index. */
  ghost predicate Opened(p: Policy, k: SessionKeys, q: seq<bv8>, est: nat, room: nat, o: seq<bv8>)
    requires ValidateHeader(q) == Ok
  {
    var n, e := |q| - p.mkiSize - k.auth.tagLen, EncStart(q);
    && e <= n == |o| <= room && Headed(p, k, q, est, o)
    && if k.rtp.GcmCipher?
       then exists iv :: AeadVector(iv, k.salt, RtpSsrc(q), est) && k.rtp.aead.open(iv, q[..e], q[e..|q| - p.mkiSize]) == Some(o[e..])
       else
         && (p.auth ==> Tagged(k.auth, q[..n], est, q[n + p.mkiSize..]))
         && (forall i :: e <= i < n ==> PayloadOctet(p.conf, k.rtp, RtpSsrc(q), est, i - e, o[i], q[i]))
  }

  lemma OpenedIs(p: Policy, k: SessionKeys, q: seq<bv8>, est: nat, room: nat, expired: bool)
    requires Lawful(p) && k in p.keys && ValidateHeader(q) == Ok && est < RW.INDEX_LIMIT
    requires Open(p, k, q, est, room, expired).Good?
    ensures !expired && Opened(p, k, q, est, room, Open(p, k, q, est, room, expired).octets)
  {
    hide MaskedHeader, Payload, ValidateHeader, Lawful, AeadIv, IcmIv, HeaderOctet, PayloadOctet, LawfulAead, AeadVector, Tagged;
    assert LawfulKeys(k, p.mkiSize) by { KeysLawful(p, k); }
    var header, e := MaskedHeader(p, k, q, est).octets, EncStart(q);
    var o := Open(p, k, q, est, room, expired).octets;
    forall i | 0 <= i < e ensures HeaderOctet(p, k, q, est, i, header[i]) {
      HeaderOctets(p, k, q, est, i);
    }
    if k.rtp.GcmCipher? {
      AeadIvIs(k.salt, RtpSsrc(q), est);
      var iv, sealed := AeadIv(k.salt, RtpSsrc(q), est), q[e..|q| - p.mkiSize];
      AeadLength(k, iv, q[..e], sealed);
      assert o[e..] == Unsealed(k.rtp.aead, iv, q[..e], sealed).value;
    } else {
      OpenedIcmIs(p, k, q, est, room, expired);
    }
  }

  lemma AeadLength(k: SessionKeys, iv: seq<bv8>, aad: seq<bv8>, sealed: seq<bv8>)
    requires k.rtp.GcmCipher? && LawfulAead(k.rtp.aead, k.auth.tagLen) && Unsealed(k.rtp.aead, iv, aad, sealed).Some?
    ensures |Unsealed(k.rtp.aead, iv, aad, sealed).value| + k.auth.tagLen == |sealed|
  {}

  lemma OpenedIcmIs(p: Policy, k: SessionKeys, q: seq<bv8>, est: nat, room: nat, expired: bool)
    requires Lawful(p) && k in p.keys && ValidateHeader(q) == Ok && est < RW.INDEX_LIMIT && !k.rtp.GcmCipher?
    requires OpenIcm(p, k, q, est, room, expired).Good?
    requires MaskedHeader(p, k, q, est).Good? && Headed(p, k, q, est, MaskedHeader(p, k, q, est).octets)
    ensures !expired && Opened(p, k, q, est, room, OpenIcm(p, k, q, est, room, expired).octets)
  {
    hide MaskedHeader, Payload, ValidateHeader, Lawful, IcmIv, HeaderOctet, PayloadOctet, Roc, Number;
    assert LawfulKeys(k, p.mkiSize) by { KeysLawful(p, k); }
    var n, e := |q| - p.mkiSize - k.auth.tagLen, EncStart(q);
    var data, o := q[e..n], OpenIcm(p, k, q, est, room, expired).octets;
    forall i | e <= i < n ensures PayloadOctet(p.conf, k.rtp, RtpSsrc(q), est, i - e, o[i], q[i]) {
      PayloadOctets(p.conf, k.rtp, RtpSsrc(q), est, data, i - e);
      assert q[i] == data[i - e];
    }
    RocIs(est);
  }

  // ---------- RTCP ----------

  // The index word: 31 bits of index, and the E bit above them.
  ghost predicate IndexWord(word: seq<bv8>, encrypted: bool, index: nat) {
    |word| == 4 && index < 0x8000_0000 && Number(word) == index + if encrypted then 0x8000_0000 else 0
  }

  /** Header, payload, index word, MKI, and the tag of all that precedes the MKI. */
  ghost predicate SealedRtcp(p: Policy, k: SessionKeys, pkt: seq<bv8>, index: nat, q: seq<bv8>)
    requires 8 <= |pkt|
  {
    var n := |pkt|;
    && |q| == n + 4 + p.mkiSize + k.rtcpAuth.tagLen && q[..8] == pkt[..8]
    && (forall i :: 8 <= i < n ==> PayloadOctet(p.rtcpConf, k.rtcp, RtcpSsrc(pkt), index, i - 8, q[i], pkt[i]))
    && IndexWord(q[n..n + 4], p.rtcpConf, index)
    && q[n + 4..n + 4 + p.mkiSize] == k.mki && q[n + 4 + p.mkiSize..] == k.rtcpAuth.compute(q[..n + 4])
  }

  /** With AEAD: only the first eight octets stay in the clear, or all of them; what does, and the index word, is
      the associated data. */
  ghost predicate SealedRtcpAead(p: Policy, k: SessionKeys, pkt: seq<bv8>, index: nat, q: seq<bv8>)
    requires 8 <= |pkt| && k.rtcp.GcmCipher?
  {
    var c := if p.rtcpConf then 8 else |pkt|;
    exists iv, word ::
      && RtcpAeadVector(iv, k.rtcpSalt, RtcpSsrc(pkt), index) && IndexWord(word, p.rtcpConf, index)
      && q == pkt[..c] + k.rtcp.aead.seal(iv, pkt[..c] + word, pkt[c..]) + word + k.mki
  }

  lemma TrailerIs(p: Policy, index: nat)
    requires index < E_BIT
    ensures IndexWord(Trailer(p, index), p.rtcpConf, index)
  {
    Powers();
    NumberOfOctets(index + if p.rtcpConf then E_BIT else 0, 4);
  }

  /** What srtp_protect_rtcp makes of a packet. */
  lemma SealedRtcpIs(p: Policy, k: SessionKeys, pkt: seq<bv8>, index: nat)
    requires Lawful(p) && k in p.keys && 8 <= |pkt| && index < E_BIT && SealRtcp(p, k, pkt, index).Good?
    ensures var q := SealRtcp(p, k, pkt, index).octets;
            if k.rtcp.GcmCipher? then SealedRtcpAead(p, k, pkt, index, q) else SealedRtcp(p, k, pkt, index, q)
  {
    hide Payload, Lawful, LawfulAead, RtcpAeadIv, RtcpIcmIv, PayloadOctet, RtcpAeadVector, IndexWord, Trailer;
    assert LawfulKeys(k, p.mkiSize) by { KeysLawful(p, k); }
    TrailerIs(p, index);
    if k.rtcp.GcmCipher? {
      RtcpAeadIvIs(k.rtcpSalt, RtcpSsrc(pkt), index);
    } else {
      SealedRtcpIcmIs(p, k, pkt, index);
    }
  }

  lemma SealedRtcpIcmIs(p: Policy, k: SessionKeys, pkt: seq<bv8>, index: nat)
    requires Lawful(p) && k in p.keys && 8 <= |pkt| && index < E_BIT && !k.rtcp.GcmCipher? && SealRtcpIcm(p, k, pkt, index).Good?
    ensures SealedRtcp(p, k, pkt, index, SealRtcpIcm(p, k, pkt, index).octets)
  {
    hide Payload, Lawful, RtcpIcmIv, IcmIv, PayloadOctet, IndexWord, Trailer;
    assert LawfulKeys(k, p.mkiSize) by { KeysLawful(p, k); }
    var ssrc, data, trailer := RtcpSsrc(pkt), pkt[8..], Trailer(p, index);
    Nonces.RtcpIcmIvLayout(ssrc, index);
    TrailerIs(p, index);
    var payload, q := Payload(p.rtcpConf, k.rtcp, IcmIv(ssrc, index), data).value, SealRtcpIcm(p, k, pkt, index).octets;
    var body := pkt[..8] + payload;
    RoundTrips.RtcpLayout(body, trailer, k.mki, k.rtcpAuth.compute(body + trailer), q);
    assert q[..8] == q[..|pkt|][..8] == pkt[..8];
    forall i | 8 <= i < |pkt| ensures PayloadOctet(p.rtcpConf, k.rtcp, ssrc, index, i - 8, q[i], pkt[i]) {
      PayloadOctets(p.rtcpConf, k.rtcp, ssrc, index, data, i - 8);
      assert q[i] == q[..|pkt|][i] == payload[i - 8] && pkt[i] == data[i - 8];
    }
  }

  /** An RTCP packet that is let in has the E bit its policy asks for, is authentic, its index passes the replay
      check, and the plain packet is decrypted under that index. */
  ghost predicate OpenedRtcp(p: Policy, k: SessionKeys, q: seq<bv8>, index: nat, rtcp: RC.RtcpWindow, room: nat, o: seq<bv8>) {
    var n := |q| - 4 - p.mkiSize - k.rtcpAuth.tagLen;
    && 8 <= n == |o| <= room && |rtcp.bits| == RC.WINDOW && RC.Check(rtcp, index) == Ok
    && if k.rtcp.GcmCipher? then OpenedRtcpAead(p, k, q, index, n, o)
       else
         && IndexWord(q[n..n + 4], p.rtcpConf, index)
         && q[n + 4 + p.mkiSize..] == k.rtcpAuth.compute(q[..n + 4])
         && o[..8] == q[..8]
         && (forall i :: 8 <= i < n ==> PayloadOctet(p.rtcpConf, k.rtcp, RtcpSsrc(q), index, i - 8, o[i], q[i]))
  }

  ghost predicate OpenedRtcpAead(p: Policy, k: SessionKeys, q: seq<bv8>, index: nat, n: nat, o: seq<bv8>)
    requires 8 <= n == |o| && n + k.rtcpAuth.tagLen + 4 + p.mkiSize == |q| && k.rtcp.GcmCipher?
  {
    var t := n + k.rtcpAuth.tagLen;
    var encrypted := Number(q[t..t + 4]) >= 0x8000_0000;
    var c := if encrypted then 8 else n;
    && IndexWord(q[t..t + 4], encrypted, index) && o[..c] == q[..c]
    && exists iv :: RtcpAeadVector(iv, k.rtcpSalt, RtcpSsrc(q), index) &&
                    k.rtcp.aead.open(iv, q[..c] + q[t..t + 4], q[c..t]) == Some(o[c..])
  }

  lemma WordIs(p: Policy, k: SessionKeys, q: seq<bv8>)
    requires RTCP_HEADER + TRAILER + p.mkiSize + k.rtcpAuth.tagLen <= |q|
    ensures var t, word := TrailerAt(p, k, q), TrailerWord(p, k, q);
            word < 0x1_0000_0000 && IndexWord(q[t..t + 4], word >= E_BIT, word % E_BIT)
  {
    var t := TrailerAt(p, k, q);
    NumberBound(q[t..t + 4]);
    Powers();
  }

  lemma OpenedRtcpIs(p: Policy, k: SessionKeys, q: seq<bv8>, rtcp: RC.RtcpWindow, room: nat)
    requires Lawful(p) && k in p.keys && |rtcp.bits| == RC.WINDOW && OpenRtcp(p, k, q, rtcp, room).Good?
    ensures RTCP_HEADER + TRAILER + p.mkiSize + k.rtcpAuth.tagLen <= |q|
    ensures OpenedRtcp(p, k, q, RtcpIndex(p, k, q), rtcp, room, OpenRtcp(p, k, q, rtcp, room).octets)
  {
    hide Payload, Lawful, LawfulAead, RtcpAeadIv, RtcpIcmIv, IcmIv, PayloadOctet, RtcpAeadVector, IndexWord, TrailerWord, RC.Check;
    assert LawfulKeys(k, p.mkiSize) by { KeysLawful(p, k); }
    WordIs(p, k, q);
    if k.rtcp.GcmCipher? {
      OpenedRtcpAeadIs(p, k, q, TrailerWord(p, k, q) >= E_BIT, RtcpIndex(p, k, q), room);
    } else {
      OpenedRtcpIcmIs(p, k, q, RtcpIndex(p, k, q), room);
    }
  }

  lemma OpenedRtcpAeadIs(p: Policy, k: SessionKeys, q: seq<bv8>, encrypted: bool, index: nat, room: nat)
    requires Lawful(p) && k in p.keys && RTCP_HEADER + TRAILER + p.mkiSize + k.rtcpAuth.tagLen <= |q| && k.rtcp.GcmCipher?
    requires OpenRtcpAead(p, k, q, encrypted, index, room).Good?
    requires var t := TrailerAt(p, k, q); IndexWord(q[t..t + 4], encrypted, index)
    ensures var n, o := |q| - 4 - p.mkiSize - k.rtcpAuth.tagLen, OpenRtcpAead(p, k, q, encrypted, index, room).octets;
            8 <= n == |o| <= room && OpenedRtcpAead(p, k, q, index, n, o)
  {
    hide Lawful, LawfulAead, RtcpAeadIv, RtcpAeadVector;
    assert LawfulKeys(k, p.mkiSize) by { KeysLawful(p, k); }
    var n := |q| - 4 - p.mkiSize - k.rtcpAuth.tagLen;
    var t, c, iv := n + k.rtcpAuth.tagLen, if encrypted then 8 else n, RtcpAeadIv(k.rtcpSalt, RtcpSsrc(q), index);
    RtcpAeadIvIs(k.rtcpSalt, RtcpSsrc(q), index);
    RtcpAeadLength(k, iv, q[..c] + q[t..t + 4], q[c..t]);
    var o := OpenRtcpAead(p, k, q, encrypted, index, room).octets;
    assert o[..c] == q[..c] && o[c..] == Unsealed(k.rtcp.aead, iv, q[..c] + q[t..t + 4], q[c..t]).value;
  }

  lemma RtcpAeadLength(k: SessionKeys, iv: seq<bv8>, aad: seq<bv8>, sealed: seq<bv8>)
    requires k.rtcp.GcmCipher? && LawfulAead(k.rtcp.aead, k.rtcpAuth.tagLen) && Unsealed(k.rtcp.aead, iv, aad, sealed).Some?
    ensures |Unsealed(k.rtcp.aead, iv, aad, sealed).value| + k.rtcpAuth.tagLen == |sealed|
  {}

  lemma OpenedRtcpIcmIs(p: Policy, k: SessionKeys, q: seq<bv8>, index: nat, room: nat)
    requires Lawful(p) && k in p.keys && RTCP_HEADER + TRAILER + p.mkiSize + k.rtcpAuth.tagLen <= |q| && !k.rtcp.GcmCipher?
    requires index < E_BIT && OpenRtcpIcm(p, k, q, index, room).Good?
    ensures var n, o := |q| - 4 - p.mkiSize - k.rtcpAuth.tagLen, OpenRtcpIcm(p, k, q, index, room).octets;
            && 8 <= n == |o| <= room && o[..8] == q[..8] && q[n + 4 + p.mkiSize..] == k.rtcpAuth.compute(q[..n + 4])
            && (forall i :: 8 <= i < n ==> PayloadOctet(p.rtcpConf, k.rtcp, RtcpSsrc(q), index, i - 8, o[i], q[i]))
  {
    hide Payload, Lawful, RtcpIcmIv, IcmIv, PayloadOctet;
    assert LawfulKeys(k, p.mkiSize) by { KeysLawful(p, k); }
    var n, ssrc, o := |q| - 4 - p.mkiSize - k.rtcpAuth.tagLen, RtcpSsrc(q), OpenRtcpIcm(p, k, q, index, room).octets;
    Nonces.RtcpIcmIvLayout(ssrc, index);
    forall i | 8 <= i < n ensures PayloadOctet(p.rtcpConf, k.rtcp, ssrc, index, i - 8, o[i], q[i]) {
      PayloadOctets(p.rtcpConf, k.rtcp, ssrc, index, q[8..n], i - 8);
      assert q[i] == q[8..n][i - 8];
    }
  }

  // ---------- the calls ----------

  lemma BelowLimit(roc: nat, s: nat)
    requires roc < 0x1_0000_0000 && s < 0x1_0000
    ensures roc * 0x1_0000 + s < 0x1_0000_0000_0000 && (roc * 0x1_0000 + s) % 0x1_0000 == s
  {}

  // Whatever the local index, a packet is placed below 2^48, at an index with its sequence number.
  lemma Placed(index: nat, pendingRoc: nat, s: nat)
    requires pendingRoc < RW.ROC_LIMIT && s < RW.SEQ_MAX
    ensures var est := RW.PacketIndex(index, pendingRoc, s).1; est < 0x1_0000_0000_0000 && est % 0x1_0000 == s
  {
    if pendingRoc != 0 {
      BelowLimit(pendingRoc, s);
    } else if index > RW.SEQ_MEDIAN {
      var roc := index / RW.SEQ_MAX % RW.ROC_LIMIT;
      BelowLimit(roc, s);
      BelowLimit((roc + 1) % RW.ROC_LIMIT, s);
      BelowLimit((roc - 1) % RW.ROC_LIMIT, s);
    } else {
      BelowLimit(0, s);
    }
  }

  /** srtp_stream_set_roc: the next packet of the stream is placed under the rollover counter announced. */
  lemma RocTakes(s: Session, ssrc: Ssrc, roc: nat, number: nat)
    requires Find(s.streams, ssrc).Some? && 0 < roc && number < 0x1_0000
    ensures var o := SetRoc(s, ssrc, roc);
            && o.status == Ok && |o.session.streams| == |s.streams|
            && var stream := o.session.streams[Find(s.streams, ssrc).value];
               stream.ssrc == ssrc && RW.PacketIndex(stream.window.index, stream.pendingRoc, number).1 == 0x1_0000 * roc + number
  {
    RW.AnnouncedIs(s.streams[Find(s.streams, ssrc).value].window.index, roc, number);
  }

  // The key a sender is told to use: without identifiers, the only one.
  function Chosen(p: Policy, mkiIndex: nat): nat {
    if p.useMki then mkiIndex else 0
  }

  lemma TurnIs(s: Session, pkt: seq<bv8>, room: nat, mkiIndex: nat, expired: bool)
    requires Valid(s) && TakeIndex(s, pkt, room, mkiIndex, expired).status == Ok
    ensures ValidateHeader(pkt) == Ok && !expired && (Find(s.streams, RtpSsrc(pkt)).Some? || s.template.Some?)
    ensures var t := TakeIndex(s, pkt, room, mkiIndex, expired);
            var p := StreamFor(s, RtpSsrc(pkt)).policy;
            && t.session.streams[t.at].policy == p && Lawful(p)
            && Chosen(p, mkiIndex) < |p.keys| && KeyForIndex(p, mkiIndex) == Some(Chosen(p, mkiIndex))
            && |pkt| + p.mkiSize + p.keys[Chosen(p, mkiIndex)].auth.tagLen <= room
            && t.index < 0x1_0000_0000_0000 && t.index % 0x1_0000 == SequenceNumber(pkt)
  {
    hide Valid, Lawful, HasExtension, RW.PacketIndex, RW.Check, RW.Add, RW.SetRocSeq;
    var found := WithSender(s, RtpSsrc(pkt), Sender).value;
    SenderValid(s, RtpSsrc(pkt), Sender);
    var i := Find(found.streams, RtpSsrc(pkt)).value;
    StreamsValid(found, i);
    Placed(found.streams[i].window.index, found.streams[i].pendingRoc, SequenceNumber(pkt));
  }

  /** srtp_protect: what goes out is sealed under the key asked for, at an index with the packet's sequence number;
      not with an expired key, and only if it fits. */
  lemma ProtectedIs(s: Session, pkt: seq<bv8>, dst: seq<bv8>, mkiIndex: nat, expired: bool)
    requires Valid(s) && Protect(s, pkt, dst, mkiIndex, expired).status == Ok
    ensures ValidateHeader(pkt) == Ok && !expired && (Find(s.streams, RtpSsrc(pkt)).Some? || s.template.Some?)
    ensures var p := StreamFor(s, RtpSsrc(pkt)).policy;
            var index, q := TakeIndex(s, pkt, |dst|, mkiIndex, expired).index, Protect(s, pkt, dst, mkiIndex, expired).octets;
            && Chosen(p, mkiIndex) < |p.keys| && index < 0x1_0000_0000_0000 && index % 0x1_0000 == SequenceNumber(pkt)
            && var k, n := p.keys[Chosen(p, mkiIndex)], |pkt| + p.mkiSize;
               && n + k.auth.tagLen <= |dst|
               && if k.rtp.GcmCipher? then SealedAead(p, k, pkt, index, q) else Sealed(p, k, pkt, index, dst[n..n + k.auth.tagLen], q)
  {
    hide Valid, Lawful, TakeIndex, Seal, SealedAead, Sealed, Find;
    TurnIs(s, pkt, |dst|, mkiIndex, expired);
    var t, p := TakeIndex(s, pkt, |dst|, mkiIndex, expired), StreamFor(s, RtpSsrc(pkt)).policy;
    var k := p.keys[Chosen(p, mkiIndex)];
    SealedIs(p, k, pkt, t.index, Leftover(p, k, pkt, dst));
  }

  // The key whose identifier the packet carries where it is looked for; without identifiers, the only one.
  ghost predicate Named(p: Policy, key: nat, q: seq<bv8>)
    requires p.keys != []
  {
    var tagLen := if p.keys[0].rtp.GcmCipher? then 0 else p.keys[0].auth.tagLen;
    && key < |p.keys|
    && if p.useMki then tagLen + p.mkiSize <= |q| && q[|q| - tagLen - p.mkiSize..|q| - tagLen] == p.keys[key].mki else key == 0
  }

  /** A packet is let in only if it is authentic under a key of the stream, named by the packet, and at the index
      where the packet is recorded. */
  ghost predicate LetIn(s: Session, q: seq<bv8>, room: nat, o: seq<bv8>)
    requires ValidateHeader(q) == Ok && (Find(s.streams, RtpSsrc(q)).Some? || s.template.Some?)
  {
    var p, index := StreamFor(s, RtpSsrc(q)).policy, PlaceReceived(s, q).1;
    && p.keys != [] && index < 0x1_0000_0000_0000 && index % 0x1_0000 == SequenceNumber(q)
    && exists key: nat :: Named(p, key, q) && Opened(p, p.keys[key], q, index, room, o)
  }

  /** srtp_unprotect */
  lemma UnprotectedIs(s: Session, q: seq<bv8>, room: nat, expired: bool)
    requires Valid(s) && Unprotect(s, q, room, expired).status == Ok
    ensures ValidateHeader(q) == Ok && !expired && (Find(s.streams, RtpSsrc(q)).Some? || s.template.Some?)
    ensures LetIn(s, q, room, Unprotect(s, q, room, expired).octets)
  {
    hide Valid, Lawful, HasExtension, Open, Opened, RW.PacketIndex, RW.Check, Received, Find;
    var l := Locate(s, q);
    StreamForValid(s, RtpSsrc(q));
    var stream := StreamFor(s, RtpSsrc(q));
    Placed(stream.window.index, stream.pendingRoc, SequenceNumber(q));
    OpenedIs(l.policy, l.policy.keys[l.key], q, l.est, room, expired);
    assert Named(l.policy, l.key, q);
  }

  lemma RtcpTurnIs(s: Session, pkt: seq<bv8>, room: nat, mkiIndex: nat)
    requires Valid(s) && TakeRtcpIndex(s, pkt, room, mkiIndex).status == Ok
    ensures 8 <= |pkt| && (Find(s.streams, RtcpSsrc(pkt)).Some? || s.template.Some?)
    ensures var t := TakeRtcpIndex(s, pkt, room, mkiIndex);
            var stream := StreamFor(s, RtcpSsrc(pkt));
            && t.session.streams[t.at].policy == stream.policy && Lawful(stream.policy)
            && Chosen(stream.policy, mkiIndex) < |stream.policy.keys|
            && KeyForIndex(stream.policy, mkiIndex) == Some(Chosen(stream.policy, mkiIndex))
            && |pkt| + 4 + stream.policy.mkiSize + stream.policy.keys[Chosen(stream.policy, mkiIndex)].rtcpAuth.tagLen <= room
            && t.index == stream.rtcp.start + 1 < 0x8000_0000
  {
    hide Lawful;
    var direction := if s.template.Some? then s.template.value.direction else Unknown;
    var found := WithSender(s, RtcpSsrc(pkt), direction).value;
    SenderValid(s, RtcpSsrc(pkt), direction);
    StreamsValid(found, Find(found.streams, RtcpSsrc(pkt)).value);
  }

  /** srtp_protect_rtcp: sealed under the key asked for, at the next index. */
  lemma ProtectedRtcpIs(s: Session, pkt: seq<bv8>, room: nat, mkiIndex: nat)
    requires Valid(s) && ProtectRtcp(s, pkt, room, mkiIndex).status == Ok
    ensures 8 <= |pkt| && (Find(s.streams, RtcpSsrc(pkt)).Some? || s.template.Some?)
    ensures var stream, q := StreamFor(s, RtcpSsrc(pkt)), ProtectRtcp(s, pkt, room, mkiIndex).octets;
            var p, index := stream.policy, stream.rtcp.start + 1;
            && Chosen(p, mkiIndex) < |p.keys| && index < 0x8000_0000
            && var k := p.keys[Chosen(p, mkiIndex)];
               && |pkt| + 4 + p.mkiSize + k.rtcpAuth.tagLen <= room
               && if k.rtcp.GcmCipher? then SealedRtcpAead(p, k, pkt, index, q) else SealedRtcp(p, k, pkt, index, q)
  {
    hide Valid, Lawful, TakeRtcpIndex, SealRtcp, SealedRtcpAead, SealedRtcp, Find;
    RtcpTurnIs(s, pkt, room, mkiIndex);
    var t, p := TakeRtcpIndex(s, pkt, room, mkiIndex), StreamFor(s, RtcpSsrc(pkt)).policy;
    SealedRtcpIs(p, p.keys[Chosen(p, mkiIndex)], pkt, t.index);
  }

  /** An RTCP packet is let in only if it is authentic under a key of the stream, named by the packet, at the index
      that it carries, which passes the replay check. */
  ghost predicate RtcpLetIn(s: Session, q: seq<bv8>, room: nat, o: seq<bv8>)
    requires 8 <= |q| && (Find(s.streams, RtcpSsrc(q)).Some? || s.template.Some?)
  {
    var stream := StreamFor(s, RtcpSsrc(q));
    && stream.policy.keys != []
    && exists key: nat, index: nat :: Named(stream.policy, key, q) &&
         OpenedRtcp(stream.policy, stream.policy.keys[key], q, index, stream.rtcp, room, o)
  }

  /** srtp_unprotect_rtcp */
  lemma UnprotectedRtcpIs(s: Session, q: seq<bv8>, room: nat)
    requires Valid(s) && UnprotectRtcp(s, q, room).status == Ok
    ensures 8 <= |q| && (Find(s.streams, RtcpSsrc(q)).Some? || s.template.Some?)
    ensures RtcpLetIn(s, q, room, UnprotectRtcp(s, q, room).octets)
  {
    hide Valid, Lawful, OpenRtcp, OpenedRtcp, ReceivedRtcp, Find, RtcpIndex;
    var l := LocateRtcp(s, q);
    assert l.RtcpKeys?;
    OpenedRtcpIs(l.policy, l.policy.keys[l.key], q, l.rtcp, room);
    assert Named(l.policy, l.key, q);
  }

  // ---------- directions ----------

  // Once a stream sends, or receives, it is known to; what is known stays.
  predicate Settled(was: Direction, role: Direction, now: Direction) {
    now != Unknown && (was == Unknown ==> now == role) && (was != Unknown ==> now == was)
  }

  /** A stream that takes a packet to send is a sender, one that has let a packet in is a receiver, unless it was
      known to be something else. */
  lemma DirectionsSettle(s: Session, pkt: seq<bv8>, dst: seq<bv8>, mkiIndex: nat, room: nat, expired: bool)
    requires Valid(s)
    ensures var t := TakeIndex(s, pkt, |dst|, mkiIndex, expired);
            t.status == Ok ==>
              Settled(if t.at < |s.streams| then s.streams[t.at].direction else Unknown, Sender, t.session.streams[t.at].direction)
    ensures var t := TakeRtcpIndex(s, pkt, room, mkiIndex);
            t.status == Ok ==>
              Settled(if t.at < |s.streams| then s.streams[t.at].direction else s.template.value.direction, Sender,
                      t.session.streams[t.at].direction)
  {
    hide Valid, Lawful, ProtectChecks, ProtectRtcpChecks, RW.Admit, RC.Increment, ValidateHeader;
  }

  lemma ReceiverSettles(s: Session, q: seq<bv8>, room: nat, expired: bool)
    requires Valid(s)
    ensures var o := Unprotect(s, q, room, expired);
            o.status == Ok ==>
              && ValidateHeader(q) == Ok && Find(o.session.streams, RtpSsrc(q)).Some?
              && (Find(s.streams, RtpSsrc(q)).Some? || s.template.Some?)
              && Settled(StreamFor(s, RtpSsrc(q)).direction, Receiver, StreamFor(o.session, RtpSsrc(q)).direction)
  {
    hide Valid, Lawful, Open, RW.Place, RW.Add, RW.SetRocSeq, HasExtension;
    var o := Unprotect(s, q, room, expired);
    if o.status == Ok {
      SameStream(s.streams, o.session.streams, RtpSsrc(q));
    }
  }

  // The stream of an SSRC stays at its place, or is the one that was appended.
  lemma SameStream(was: seq<Stream>, now: seq<Stream>, ssrc: Ssrc)
    requires |was| <= |now| && forall i :: 0 <= i < |was| ==> now[i].ssrc == was[i].ssrc
    requires Find(was, ssrc).None? ==> |now| == |was| + 1 && now[|was|].ssrc == ssrc
    ensures Find(now, ssrc) == Some(if Find(was, ssrc).Some? then Find(was, ssrc).value else |was|)
  {
    hide Find;
    var i := if Find(was, ssrc).Some? then Find(was, ssrc).value else |was|;
    assert now[i].ssrc == ssrc;
  }

  // ---------- forgeries ----------

  /** The tag does not fit the packet under this key, with any rollover counter; or no vector opens it. */
  ghost predicate Mismatched(p: Policy, k: SessionKeys, q: seq<bv8>)
    requires ValidateHeader(q) == Ok
  {
    var n, e := |q| - p.mkiSize - k.auth.tagLen, EncStart(q);
    e <= n ==>
      if k.rtp.GcmCipher? then forall iv: seq<bv8> :: |iv| == 12 ==> k.rtp.aead.open(iv, q[..e], q[e..|q| - p.mkiSize]) == None
      else p.auth && forall roc: seq<bv8> :: |roc| == 4 ==> q[n + p.mkiSize..] != k.auth.compute(q[..n] + roc)
  }

  lemma MismatchShut(p: Policy, k: SessionKeys, q: seq<bv8>, est: nat, room: nat, o: seq<bv8>)
    requires ValidateHeader(q) == Ok && Mismatched(p, k, q)
    ensures !Opened(p, k, q, est, room, o)
  {
    hide ValidateHeader, Headed, PayloadOctet, Number;
  }

  /** The tag does not fit the packet under this key; or no vector opens it, as encrypted or in the clear. */
  ghost predicate RtcpMismatched(p: Policy, k: SessionKeys, q: seq<bv8>) {
    var n := |q| - 4 - p.mkiSize - k.rtcpAuth.tagLen;
    8 <= n ==>
      if k.rtcp.GcmCipher? then
        var t := n + k.rtcpAuth.tagLen;
        forall iv: seq<bv8>, c: nat :: |iv| == 12 && c in {8, n} ==> k.rtcp.aead.open(iv, q[..c] + q[t..t + 4], q[c..t]) == None
      else q[n + 4 + p.mkiSize..] != k.rtcpAuth.compute(q[..n + 4])
  }

  lemma RtcpMismatchShut(p: Policy, k: SessionKeys, q: seq<bv8>, index: nat, rtcp: RC.RtcpWindow, room: nat, o: seq<bv8>)
    requires RtcpMismatched(p, k, q)
    ensures !OpenedRtcp(p, k, q, index, rtcp, room, o)
  {
    hide PayloadOctet, IndexWord, RC.Check;
  }

  /** A packet that is long enough and has been placed, but whose tag does not fit, is an authentication failure,
      and nothing changes. */
  lemma MismatchFails(s: Session, q: seq<bv8>, room: nat, expired: bool)
    requires Valid(s) && Locate(s, q).Somewhere?
    requires var l := Locate(s, q);
             var k := l.policy.keys[l.key];
             && EncStart(q) + l.policy.mkiSize + k.auth.tagLen <= |q| <= room + l.policy.mkiSize + k.auth.tagLen
             && !k.rtp.GcmCipher? && Mismatched(l.policy, k, q)
    ensures Unprotect(s, q, room, expired) == Outcome(AuthFail, [], s)
  {
    hide Valid, ValidateHeader, Lawful, Locate, MaskedHeader, Payload, Number;
    var l := Locate(s, q);
    assert |Roc(l.est)| == 4;
  }

  /** The same for RTCP. */
  lemma RtcpMismatchFails(s: Session, q: seq<bv8>, room: nat)
    requires Valid(s) && LocateRtcp(s, q).RtcpKeys?
    requires var l := LocateRtcp(s, q);
             var k := l.policy.keys[l.key];
             var n := |q| - 4 - l.policy.mkiSize - k.rtcpAuth.tagLen;
             && 8 <= n && !k.rtcp.GcmCipher? && RtcpMismatched(l.policy, k, q)
             && exists index :: IndexWord(q[n..n + 4], l.policy.rtcpConf, index) && RC.Check(l.rtcp, index) == Ok
    ensures UnprotectRtcp(s, q, room) == Outcome(AuthFail, [], s)
  {
    hide Valid, Lawful, LocateRtcp, Payload, Number, RC.Check;
    var l := LocateRtcp(s, q);
    WordIs(l.policy, l.policy.keys[l.key], q);
  }
}
