/** Unprotecting undoes protecting, octet for octet, for every packet, cipher and MKI setting. */
module RoundTrips {
  import opened Errors
  import opened CounterMode
  import opened Packets
  import opened Transforms
  import HX = HeaderExtensions
  import Slices

  lemma PayloadTwice(conf: bool, c: Cipher, iv: Block, data: seq<bv8>)
    requires c.IcmCipher? ==> |c.key.salt| == 14
    requires Payload(conf, c, iv, data).Some?
    ensures Payload(conf, c, iv, Payload(conf, c, iv, data).value) == Some(data)
  {
    if c.IcmCipher? && conf {
      CryptCancels(c.key.E, Origin(c.key, iv), 0, data);
    }
  }

  /** A masked header still validates, keeps its layout, and unmasks to the original. */
  lemma HeaderRestored(p: Policy, k: SessionKeys, pkt: seq<bv8>, est: nat, q: seq<bv8>)
    requires ValidateHeader(pkt) == Ok && (k.xtn.Some? ==> |k.xtn.value.salt| == 14)
    requires MaskedHeader(p, k, pkt, est).Good?
    requires EncStart(pkt) <= |q| && q[..EncStart(pkt)] == MaskedHeader(p, k, pkt, est).octets
    ensures ValidateHeader(q) == Ok && EncStart(q) == EncStart(pkt)
    ensures RtpSsrc(q) == RtpSsrc(pkt) && SequenceNumber(q) == SequenceNumber(pkt)
    ensures MaskedHeader(p, k, q, est) == Good(pkt[..EncStart(pkt)])
  {
    hide HX.Transform, ValidateHeader, SequenceNumber;
    var h, e := HeaderLen(pkt), EncStart(pkt);
    Slices.SliceOfSlice(q, 0, e, 0, h);
    Slices.SliceOfSlice(pkt, 0, e, 0, h);
    assert q[..h] == q[..e][..h];
    if MasksExtension(k, pkt) {
      var data := MaskedExtension(p, k, pkt, est);
      assert q[..e] == pkt[..h] + data;
      HeadAndTail(q, pkt[..h], data);
      ExtensionHeaderKept(q, pkt, h, e, data);
      LayoutDependsOnPrefix(pkt, q);
      HX.TransformCancels(XtnKeys(p, k, RtpSsrc(pkt), est), pkt[h..e]);
      Slices.ThreeSlices(pkt, h, e, e);
    } else {
      if HasExtension(pkt) {
        assert q[h..h + 4] == q[..e][h..h + 4] == pkt[..e][h..h + 4] == pkt[h..h + 4];
      }
      LayoutDependsOnPrefix(pkt, q);
    }
  }

  // The masked extension of a packet that masks.
  function MaskedExtension(p: Policy, k: SessionKeys, pkt: seq<bv8>, est: nat): (r: seq<bv8>)
    requires ValidateHeader(pkt) == Ok && MasksExtension(k, pkt) && |k.xtn.value.salt| == 14
    requires MaskedHeader(p, k, pkt, est).Good?
    ensures var h, e := HeaderLen(pkt), EncStart(pkt);
            h + 4 <= e && HX.Transform(XtnKeys(p, k, RtpSsrc(pkt), est), pkt[h..e]).Done? &&
            r == HX.Transform(XtnKeys(p, k, RtpSsrc(pkt), est), pkt[h..e]).data &&
            MaskedHeader(p, k, pkt, est).octets == pkt[..h] + r && |r| == e - h && r[..4] == pkt[h..e][..4]
  {
    HX.Transform(XtnKeys(p, k, RtpSsrc(pkt), est), pkt[HeaderLen(pkt)..EncStart(pkt)]).data
  }

  lemma HeadAndTail(q: seq<bv8>, head: seq<bv8>, tail: seq<bv8>)
    requires |head| + |tail| <= |q| && q[..|head| + |tail|] == head + tail
    ensures q[..|head|] == head && q[|head|..|head| + |tail|] == tail
  {
    Slices.SliceOfSlice(q, 0, |head| + |tail|, 0, |head|);
    Slices.SliceOfSlice(q, 0, |head| + |tail|, |head|, |head| + |tail|);
    assert q[..|head| + |tail|] == q[0..|head| + |tail|];
  }

  lemma ExtensionHeaderKept(q: seq<bv8>, pkt: seq<bv8>, h: nat, e: nat, data: seq<bv8>)
    requires h + 4 <= e <= |q| && e <= |pkt| && q[h..e] == data && data[..4] == pkt[h..e][..4]
    ensures q[h..h + 4] == pkt[h..h + 4]
  {
    Slices.SliceOfSlice(q, h, e, 0, 4);
    Slices.SliceOfSlice(pkt, h, e, 0, 4);
  }

  // ---------- RTP ----------

  // What a packet body | mki | tag looks like from its end.
  lemma Layout(body: seq<bv8>, a: seq<bv8>, b: seq<bv8>, q: seq<bv8>)
    requires q == body + a + b
    ensures |q| == |body| + |a| + |b|
    ensures q[..|q| - |a| - |b|] == body && q[|q| - |b|..] == b
    ensures q[|q| - |a| - |b|..|q| - |b|] == a && q[..|q| - |b|] == body + a
  {}

  lemma BodySplit(q: seq<bv8>, header: seq<bv8>, payload: seq<bv8>)
    requires |header| + |payload| <= |q| && q[..|header| + |payload|] == header + payload
    ensures q[..|header|] == header && q[|header|..|header| + |payload|] == payload
  {
    HeadAndTail(q, header, payload);
  }

  // The parts of a packet sealed without AEAD.
  lemma SealIcmParts(p: Policy, k: SessionKeys, pkt: seq<bv8>, est: nat, leftover: seq<bv8>)
    requires Lawful(p) && k in p.keys && ValidateHeader(pkt) == Ok && !k.rtp.GcmCipher?
    requires |leftover| == k.auth.tagLen && SealIcm(p, k, pkt, est, leftover).Good?
    ensures MaskedHeader(p, k, pkt, est).Good? && Payload(p.conf, k.rtp, IcmIv(RtpSsrc(pkt), est), pkt[EncStart(pkt)..]).Some?
    ensures var header := MaskedHeader(p, k, pkt, est).octets;
            var payload := Payload(p.conf, k.rtp, IcmIv(RtpSsrc(pkt), est), pkt[EncStart(pkt)..]).value;
            var q, n := SealIcm(p, k, pkt, est, leftover).octets, |header| + |payload|;
            && |q| == n + p.mkiSize + k.auth.tagLen && q[..n] == header + payload
            && q[..|header|] == header && q[|header|..n] == payload
            && (p.auth ==> q[|q| - k.auth.tagLen..] == k.auth.compute(header + payload + Roc(est)))
  {
    hide MaskedHeader, Payload, ValidateHeader, RtpSsrc, Roc, IcmIv, Lawful, LawfulAead, EncStart;
    assert LawfulKeys(k, p.mkiSize) by { KeysLawful(p, k); }
    var header := MaskedHeader(p, k, pkt, est).octets;
    var payload := Payload(p.conf, k.rtp, IcmIv(RtpSsrc(pkt), est), pkt[EncStart(pkt)..]).value;
    var tag := if p.auth then k.auth.compute(header + payload + Roc(est)) else leftover;
    var q := SealIcm(p, k, pkt, est, leftover).octets;
    Layout(header + payload, k.mki, tag, q);
    BodySplit(q, header, payload);
  }

  lemma OpenUndoesSealIcm(p: Policy, k: SessionKeys, pkt: seq<bv8>, est: nat, leftover: seq<bv8>, room: nat)
    requires Lawful(p) && k in p.keys && ValidateHeader(pkt) == Ok && !k.rtp.GcmCipher?
    requires |leftover| == k.auth.tagLen && |pkt| <= room
    requires SealIcm(p, k, pkt, est, leftover).Good?
    ensures var q := SealIcm(p, k, pkt, est, leftover).octets;
            && ValidateHeader(q) == Ok && RtpSsrc(q) == RtpSsrc(pkt) && SequenceNumber(q) == SequenceNumber(pkt)
            && OpenIcm(p, k, q, est, room, false) == Good(pkt)
            && |q| == |pkt| + p.mkiSize + k.auth.tagLen
  {
    hide MaskedHeader, Payload, ValidateHeader, SequenceNumber, RtpSsrc, Roc, IcmIv, Lawful, LawfulAead, EncStart, SealIcm;
    assert LawfulKeys(k, p.mkiSize) by { KeysLawful(p, k); }
    var e, iv := EncStart(pkt), IcmIv(RtpSsrc(pkt), est);
    var data := pkt[e..];
    var q := SealIcm(p, k, pkt, est, leftover).octets;
    SealIcmParts(p, k, pkt, est, leftover);
    HeaderRestored(p, k, pkt, est, q);
    PayloadTwice(p.conf, k.rtp, iv, data);
    assert pkt[..e] + data == pkt;
  }

  lemma OpenUndoesSealAead(p: Policy, k: SessionKeys, pkt: seq<bv8>, est: nat, room: nat)
    requires Lawful(p) && k in p.keys && ValidateHeader(pkt) == Ok && k.rtp.GcmCipher?
    requires |pkt| <= room && SealAead(p, k, pkt, est).Good?
    ensures var q := SealAead(p, k, pkt, est).octets;
            && ValidateHeader(q) == Ok && RtpSsrc(q) == RtpSsrc(pkt) && SequenceNumber(q) == SequenceNumber(pkt)
            && OpenAead(p, k, q, est, room, false) == Good(pkt)
            && |q| == |pkt| + p.mkiSize + k.auth.tagLen
  {
    hide MaskedHeader, ValidateHeader, SequenceNumber, RtpSsrc, AeadIv;
    var e := EncStart(pkt);
    var header, data := MaskedHeader(p, k, pkt, est).octets, pkt[e..];
    var sealed := k.rtp.aead.seal(AeadIv(k.salt, RtpSsrc(pkt), est), header, data);
    var q := SealAead(p, k, pkt, est).octets;
    Layout(header + sealed, k.mki, [], q);
    BodySplit(q, header, sealed);
    HeaderRestored(p, k, pkt, est, q);
    assert pkt[..e] + data == pkt;
  }

  /** The central law: under the same keys and packet index, opening a sealed packet gives back exactly
      the octets that went in, and the headers of the two agree on what selects stream and index. */
  lemma OpenUndoesSeal(p: Policy, k: SessionKeys, pkt: seq<bv8>, est: nat, leftover: seq<bv8>, room: nat)
    requires Lawful(p) && k in p.keys && ValidateHeader(pkt) == Ok
    requires |leftover| == k.auth.tagLen && |pkt| <= room
    requires Seal(p, k, pkt, est, leftover).Good?
    ensures var q := Seal(p, k, pkt, est, leftover).octets;
            && ValidateHeader(q) == Ok && RtpSsrc(q) == RtpSsrc(pkt) && SequenceNumber(q) == SequenceNumber(pkt)
            && Open(p, k, q, est, room, false) == Good(pkt)
            && |q| == |pkt| + p.mkiSize + k.auth.tagLen
  {
    if k.rtp.GcmCipher? {
      OpenUndoesSealAead(p, k, pkt, est, room);
    } else {
      OpenUndoesSealIcm(p, k, pkt, est, leftover, room);
    }
  }

  // ---------- RTCP ----------

  function TrailerValue(p: Policy, index: nat): nat {
    index + if p.rtcpConf then E_BIT else 0
  }

  lemma TrailerRead(p: Policy, k: SessionKeys, q: seq<bv8>, index: nat)
    requires index < E_BIT && RTCP_HEADER + TRAILER + p.mkiSize + k.rtcpAuth.tagLen <= |q|
    requires var t := TrailerAt(p, k, q); q[t..t + TRAILER] == Trailer(p, index)
    ensures TrailerWord(p, k, q) == TrailerValue(p, index)
  {
    Powers();
    NumberOfOctets(TrailerValue(p, index), TRAILER);
  }

  // Slices of a packet body | trailer | mki | tag.
  lemma RtcpLayout(body: seq<bv8>, trailer: seq<bv8>, mki: seq<bv8>, tag: seq<bv8>, q: seq<bv8>)
    requires q == body + trailer + mki + tag
    ensures |q| == |body| + |trailer| + |mki| + |tag|
    ensures q[..|body|] == body && q[|body|..|body| + |trailer|] == trailer
    ensures q[..|body| + |trailer|] == body + trailer && q[|q| - |tag|..] == tag
    ensures q[|q| - |tag| - |mki|..|q| - |tag|] == mki
  {}

  lemma OpenUndoesSealRtcpIcm(p: Policy, k: SessionKeys, pkt: seq<bv8>, index: nat, room: nat)
    requires Lawful(p) && k in p.keys && RTCP_HEADER <= |pkt| <= room && !k.rtcp.GcmCipher? && index < E_BIT
    requires SealRtcpIcm(p, k, pkt, index).Good?
    ensures var q := SealRtcpIcm(p, k, pkt, index).octets;
            && |q| == |pkt| + TRAILER + p.mkiSize + k.rtcpAuth.tagLen
            && RtcpSsrc(q) == RtcpSsrc(pkt) && TrailerWord(p, k, q) == TrailerValue(p, index)
            && OpenRtcpIcm(p, k, q, index, room) == Good(pkt)
  {
    hide Payload, RtcpIcmIv, LawfulAead, Trailer, TrailerWord, Number;
    var iv, data := RtcpIcmIv(RtcpSsrc(pkt), index), pkt[RTCP_HEADER..];
    var payload := Payload(p.rtcpConf, k.rtcp, iv, data).value;
    var body, trailer := pkt[..RTCP_HEADER] + payload, Trailer(p, index);
    var tag := k.rtcpAuth.compute(body + trailer);
    var q := SealRtcpIcm(p, k, pkt, index).octets;
    RtcpLayout(body, trailer, k.mki, tag, q);
    BodySplit(q, pkt[..RTCP_HEADER], payload);
    SameSsrc(pkt, q);
    TrailerRead(p, k, q, index);
    PayloadTwice(p.rtcpConf, k.rtcp, iv, data);
    assert pkt[..RTCP_HEADER] + data == pkt;
  }

  lemma SameSsrc(pkt: seq<bv8>, q: seq<bv8>)
    requires RTCP_HEADER <= |pkt| && RTCP_HEADER <= |q| && q[..RTCP_HEADER] == pkt[..RTCP_HEADER]
    ensures RtcpSsrc(q) == RtcpSsrc(pkt)
  {
    assert q[4..8] == q[..8][4..8] == pkt[..8][4..8] == pkt[4..8];
  }

  lemma OpenUndoesSealRtcpAead(p: Policy, k: SessionKeys, pkt: seq<bv8>, index: nat, room: nat)
    requires Lawful(p) && k in p.keys && RTCP_HEADER <= |pkt| <= room && k.rtcp.GcmCipher? && index < E_BIT
    ensures var q := SealRtcpAead(p, k, pkt, index).octets;
            && |q| == |pkt| + TRAILER + p.mkiSize + k.rtcpAuth.tagLen
            && RtcpSsrc(q) == RtcpSsrc(pkt) && TrailerWord(p, k, q) == TrailerValue(p, index)
            && OpenRtcpAead(p, k, q, p.rtcpConf, index, room) == Good(pkt)
  {
    hide RtcpAeadIv, Trailer, TrailerWord, Number;
    var iv, trailer := RtcpAeadIv(k.rtcpSalt, RtcpSsrc(pkt), index), Trailer(p, index);
    var clear := if p.rtcpConf then RTCP_HEADER else |pkt|;
    var sealed := k.rtcp.aead.seal(iv, pkt[..clear] + trailer, pkt[clear..]);
    var q := SealRtcpAead(p, k, pkt, index).octets;
    assert q == pkt[..clear] + sealed + trailer + k.mki + [];
    RtcpLayout(pkt[..clear] + sealed, trailer, k.mki, [], q);
    BodySplit(q, pkt[..clear], sealed);
    assert q[..RTCP_HEADER] == q[..clear][..RTCP_HEADER] == pkt[..RTCP_HEADER];
    SameSsrc(pkt, q);
    TrailerRead(p, k, q, index);
    assert pkt[..clear] + pkt[clear..] == pkt;
  }

  /** Not encrypted, an AEAD packet overruns every separate buffer that is just as long as the plain packet:
      it is opened, and its tag is written behind the room the caller gave. */
  lemma ExactRoomOverruns(p: Policy, k: SessionKeys, pkt: seq<bv8>, index: nat)
    requires Lawful(p) && k in p.keys && RTCP_HEADER <= |pkt| && k.rtcp.GcmCipher? && index < E_BIT
    requires !p.rtcpConf && k.rtcpAuth.tagLen > 0
    ensures var q := SealRtcpAead(p, k, pkt, index).octets;
            && |q| == |pkt| + TRAILER + p.mkiSize + k.rtcpAuth.tagLen
            && OpenRtcpAead(p, k, q, false, index, |pkt|) == Good(pkt)
            && Overruns(p, k, q, false, false, |pkt|)
  {
    hide OpenRtcpAead, SealRtcpAead;
    OpenUndoesSealRtcpAead(p, k, pkt, index, |pkt|);
  }

  lemma SealRtcpLength(p: Policy, k: SessionKeys, pkt: seq<bv8>, index: nat)
    requires Lawful(p) && k in p.keys && |pkt| >= RTCP_HEADER
    ensures match SealRtcp(p, k, pkt, index)
            case Bad(status) => status == CipherFail
            case Good(octets) => |octets| == |pkt| + TRAILER + p.mkiSize + k.rtcpAuth.tagLen
  {
    hide Payload;
    assert LawfulKeys(k, p.mkiSize);
  }

  // ---------- the MKI ----------

  ghost predicate DistinctMkis(p: Policy) {
    forall i, j :: 0 <= i < j < |p.keys| ==> p.keys[i].mki != p.keys[j].mki
  }

  lemma MkiFound(p: Policy, i: nat, q: seq<bv8>, tagLen: nat)
    requires Lawful(p) && i < |p.keys| && p.useMki && DistinctMkis(p)
    requires tagLen == if p.keys[0].rtp.GcmCipher? then 0 else p.keys[0].auth.tagLen
    requires tagLen + p.mkiSize <= |q| && q[|q| - tagLen - p.mkiSize..|q| - tagLen] == p.keys[i].mki
    ensures KeyForPacket(p, q) == Some(i)
  {
    var r := FindMki(p.keys, p.keys[i].mki);
    assert r.Some?;
  }

  /** The identifier a sender put into a packet leads the receiver to the same keys. */
  lemma RtpKeyFound(p: Policy, i: nat, pkt: seq<bv8>, est: nat, leftover: seq<bv8>)
    requires Lawful(p) && i < |p.keys| && (if p.useMki then DistinctMkis(p) else i == 0) && ValidateHeader(pkt) == Ok
    requires |leftover| == p.keys[i].auth.tagLen && Seal(p, p.keys[i], pkt, est, leftover).Good?
    ensures KeyForPacket(p, Seal(p, p.keys[i], pkt, est, leftover).octets) == Some(i)
  {
    hide MaskedHeader, Payload, AeadIv, IcmIv;
    var k, q := p.keys[i], Seal(p, p.keys[i], pkt, est, leftover).octets;
    if p.useMki {
      var header := MaskedHeader(p, k, pkt, est).octets;
      if k.rtp.GcmCipher? {
        Layout(header + k.rtp.aead.seal(AeadIv(k.salt, RtpSsrc(pkt), est), header, pkt[EncStart(pkt)..]), k.mki, [], q);
        MkiFound(p, i, q, 0);
      } else {
        var body := header + Payload(p.conf, k.rtp, IcmIv(RtpSsrc(pkt), est), pkt[EncStart(pkt)..]).value;
        Layout(body, k.mki, if p.auth then k.auth.compute(body + Roc(est)) else leftover, q);
        MkiFound(p, i, q, k.auth.tagLen);
      }
    }
  }

  /** RTCP packets are searched for the identifier at the RTP tag length: the search works when the two
      tag lengths agree, or when the transform is AEAD. */
  lemma RtcpKeyFound(p: Policy, i: nat, pkt: seq<bv8>, index: nat)
    requires Lawful(p) && i < |p.keys| && (if p.useMki then DistinctMkis(p) else i == 0) && |pkt| >= RTCP_HEADER
    requires SealRtcp(p, p.keys[i], pkt, index).Good?
    requires p.useMki && !p.keys[0].rtp.GcmCipher? ==> p.keys[0].auth.tagLen == p.keys[0].rtcpAuth.tagLen
    ensures KeyForPacket(p, SealRtcp(p, p.keys[i], pkt, index).octets) == Some(i)
  {
    hide Payload, RtcpAeadIv, RtcpIcmIv, Trailer;
    var k, q := p.keys[i], SealRtcp(p, p.keys[i], pkt, index).octets;
    if p.useMki {
      var trailer := Trailer(p, index);
      if k.rtcp.GcmCipher? {
        var clear := if p.rtcpConf then RTCP_HEADER else |pkt|;
        var sealed := k.rtcp.aead.seal(RtcpAeadIv(k.rtcpSalt, RtcpSsrc(pkt), index), pkt[..clear] + trailer, pkt[clear..]);
        assert q == pkt[..clear] + sealed + trailer + k.mki + [];
        RtcpLayout(pkt[..clear] + sealed, trailer, k.mki, [], q);
        MkiFound(p, i, q, 0);
      } else {
        var body := pkt[..RTCP_HEADER] + Payload(p.rtcpConf, k.rtcp, RtcpIcmIv(RtcpSsrc(pkt), index), pkt[RTCP_HEADER..]).value;
        RtcpLayout(body, trailer, k.mki, k.rtcpAuth.compute(body + trailer), q);
        MkiFound(p, i, q, k.rtcpAuth.tagLen);
      }
    }
  }

  // The same policy with another identifier for one key.
  function Renamed(p: Policy, i: nat, mki: seq<bv8>): Policy
    requires i < |p.keys|
  {
    p.(keys := p.keys[i := p.keys[i].(mki := mki)])
  }

  // What an RTCP packet is made of apart from the identifier.
  function RtcpBody(p: Policy, k: SessionKeys, pkt: seq<bv8>, index: nat): (r: seq<bv8>)
    requires Lawful(p) && k in p.keys && |pkt| >= RTCP_HEADER && !k.rtcp.GcmCipher?
    requires SealRtcp(p, k, pkt, index).Good?
  {
    pkt[..RTCP_HEADER] + Payload(p.rtcpConf, k.rtcp, RtcpIcmIv(RtcpSsrc(pkt), index), pkt[RTCP_HEADER..]).value + Trailer(p, index)
  }

  lemma RenamedLawful(p: Policy, i: nat, mki: seq<bv8>)
    requires Lawful(p) && i < |p.keys| && |mki| == p.mkiSize
    ensures Lawful(Renamed(p, i, mki))
  {
    hide LawfulMac, LawfulCipher;
    var r := Renamed(p, i, mki);
    assert p.keys[i] in p.keys && p.keys[0] in p.keys;
    forall k | k in r.keys ensures LawfulKeys(k, r.mkiSize) && SameSuite(r.keys[0], k) {
      var j :| 0 <= j < |r.keys| && r.keys[j] == k;
      assert p.keys[j] in p.keys;
    }
  }

  // Body and tag do not depend on the identifier.
  lemma RenamedPacket(p: Policy, i: nat, pkt: seq<bv8>, index: nat, mki: seq<bv8>)
    requires Lawful(p) && i < |p.keys| && |pkt| >= RTCP_HEADER && !p.keys[i].rtcp.GcmCipher? && |mki| == p.mkiSize
    requires SealRtcp(p, p.keys[i], pkt, index).Good?
    ensures Lawful(Renamed(p, i, mki))
    ensures var body := RtcpBody(p, p.keys[i], pkt, index);
            SealRtcp(Renamed(p, i, mki), Renamed(p, i, mki).keys[i], pkt, index) == Good(body + mki + p.keys[i].rtcpAuth.compute(body))
  {
    hide Payload, Lawful, LawfulKeys, RtcpIcmIv;
    RenamedLawful(p, i, mki);
  }

  // An octet unlike this one.
  function Unlike(b: bv8): (r: bv8)
    ensures r != b
  {
    if b == 0 then 1 else 0
  }

  // An identifier that a search at the wrong distance from the end does not meet.
  function Elusive(body: seq<bv8>, tag: seq<bv8>, rtpTag: nat, size: nat): (mki: seq<bv8>)
    requires 0 < size && |tag| != rtpTag
    ensures |mki| == size
  {
    if rtpTag < |tag| then seq(size, _ => Unlike(tag[|tag| - rtpTag - 1]))
    else if rtpTag - |tag| <= |body| then seq(size, _ => Unlike(body[|body| - (rtpTag - |tag|)]))
    else seq(size, _ => 0)
  }

  lemma ElusiveIs(body: seq<bv8>, tag: seq<bv8>, rtpTag: nat, size: nat, q: seq<bv8>)
    requires 0 < size && |tag| != rtpTag && q == body + Elusive(body, tag, rtpTag, size) + tag
    ensures rtpTag + size <= |q| ==> q[|q| - rtpTag - size..|q| - rtpTag] != Elusive(body, tag, rtpTag, size)
  {
    hide Unlike;
    var mki := Elusive(body, tag, rtpTag, size);
    if rtpTag + size <= |q| {
      var slice := q[|q| - rtpTag - size..|q| - rtpTag];
      if rtpTag < |tag| {
        assert slice[size - 1] == q[|q| - rtpTag - 1] == tag[|tag| - rtpTag - 1];
        assert mki[size - 1] == Unlike(tag[|tag| - rtpTag - 1]);
      } else {
        assert slice[0] == q[|q| - rtpTag - size] == body[|body| - (rtpTag - |tag|)];
        assert mki[0] == Unlike(body[|body| - (rtpTag - |tag|)]);
      }
    }
  }

  /** When the tag lengths differ the search misses, under any ciphers and authenticators: for every key of a
      policy and every packet there is an identifier with which the receiver does not find the key. */
  lemma RtcpKeyMissed(p: Policy, i: nat, pkt: seq<bv8>, index: nat) returns (mki: seq<bv8>)
    requires Lawful(p) && i < |p.keys| && p.useMki && !p.keys[i].rtcp.GcmCipher? && |pkt| >= RTCP_HEADER
    requires p.keys[i].auth.tagLen != p.keys[i].rtcpAuth.tagLen
    requires SealRtcp(p, p.keys[i], pkt, index).Good?
    ensures |mki| == p.mkiSize && Lawful(Renamed(p, i, mki))
    ensures SealRtcp(Renamed(p, i, mki), Renamed(p, i, mki).keys[i], pkt, index).Good?
    ensures KeyForPacket(Renamed(p, i, mki), SealRtcp(Renamed(p, i, mki), Renamed(p, i, mki).keys[i], pkt, index).octets) != Some(i)
  {
    hide RtcpBody, SealRtcp, Elusive, LawfulAead, LawfulCipher;
    var k, body := p.keys[i], RtcpBody(p, p.keys[i], pkt, index);
    assert k in p.keys && p.keys[0] in p.keys;
    var tag, rtpTag := k.rtcpAuth.compute(body), k.auth.tagLen;
    mki := Elusive(body, tag, rtpTag, p.mkiSize);
    RenamedPacket(p, i, pkt, index, mki);
    var q := SealRtcp(Renamed(p, i, mki), Renamed(p, i, mki).keys[i], pkt, index).octets;
    ElusiveIs(body, tag, rtpTag, p.mkiSize, q);
    assert Renamed(p, i, mki).keys[i].mki == mki;
  }
}
