/**
 What protecting and unprotecting one packet does to its octets, once the packet index and the
 session keys are known: srtp_protect, srtp_unprotect and their AEAD and RTCP counterparts
 without the replay databases.
 */
module Transforms {
  import opened Errors
  import opened CounterMode
  import opened Packets
  import HX = HeaderExtensions

  // ---------- keys and policies ----------

  datatype IcmKey = IcmKey(E: Block -> Block, salt: seq<bv8>)

  // iv, associated data, and plaintext or (ciphertext and tag)
  datatype Aead = Aead(seal: (seq<bv8>, seq<bv8>, seq<bv8>) -> seq<bv8>,
                       open: (seq<bv8>, seq<bv8>, seq<bv8>) -> Option<seq<bv8>>)

  function Unsealed(a: Aead, iv: seq<bv8>, aad: seq<bv8>, sealed: seq<bv8>): Option<seq<bv8>> {
    a.open(iv, aad, sealed)
  }

  datatype Cipher = NullCipher | IcmCipher(key: IcmKey) | GcmCipher(aead: Aead)

  // compute yields a whole tag of tagLen octets
  datatype Mac = Mac(tagLen: nat, compute: seq<bv8> -> seq<bv8>)

  datatype SessionKeys = SessionKeys(rtp: Cipher, xtn: Option<IcmKey>, auth: Mac, salt: seq<bv8>,
                                     rtcp: Cipher, rtcpAuth: Mac, rtcpSalt: seq<bv8>, mki: seq<bv8>)

  datatype Policy = Policy(keys: seq<SessionKeys>, useMki: bool, mkiSize: nat, conf: bool, auth: bool, rtcpConf: bool,
                           allowRepeat: bool, ids: seq<bv8>)

  datatype Result = Good(octets: seq<bv8>) | Bad(status: Status)

  const SALT := 12
  const TAG_LIMIT := 16
  const MKI_LIMIT := 128

  ghost predicate LawfulAead(a: Aead, tagLen: nat) {
    && (forall iv, aad, text :: |a.seal(iv, aad, text)| == |text| + tagLen)
    && (forall iv, aad, text :: a.open(iv, aad, a.seal(iv, aad, text)) == Some(text))
    && (forall iv, aad, sealed :: a.open(iv, aad, sealed).Some? ==> |a.open(iv, aad, sealed).value| + tagLen == |sealed|)
  }

  ghost predicate LawfulCipher(c: Cipher, tagLen: nat) {
    match c
    case NullCipher => true
    case IcmCipher(key) => |key.salt| == 14
    case GcmCipher(aead) => LawfulAead(aead, tagLen)
  }

  ghost predicate LawfulMac(m: Mac) {
    m.tagLen <= TAG_LIMIT && forall text :: |m.compute(text)| == m.tagLen
  }

  ghost predicate LawfulKeys(k: SessionKeys, mkiSize: nat) {
    && LawfulMac(k.auth) && LawfulMac(k.rtcpAuth)
    && LawfulCipher(k.rtp, k.auth.tagLen) && LawfulCipher(k.rtcp, k.rtcpAuth.tagLen)
    && (k.xtn.Some? ==> |k.xtn.value.salt| == 14 && !k.rtp.NullCipher?)
    && |k.salt| == SALT && |k.rtcpSalt| == SALT && |k.mki| == mkiSize
    && k.rtp.GcmCipher? == k.rtcp.GcmCipher?
  }

  // All keys of a stream come from one crypto policy: same transforms, same tag lengths.
  predicate SameSuite(j: SessionKeys, k: SessionKeys) {
    j.rtp.GcmCipher? == k.rtp.GcmCipher? && j.auth.tagLen == k.auth.tagLen && j.rtcpAuth.tagLen == k.rtcpAuth.tagLen
  }

  ghost predicate Lawful(p: Policy) {
    && p.keys != [] && p.mkiSize <= MKI_LIMIT && (p.useMki <==> p.mkiSize > 0)
    && (forall k :: k in p.keys ==> LawfulKeys(k, p.mkiSize) && SameSuite(p.keys[0], k))
  }

  lemma KeysLawful(p: Policy, k: SessionKeys)
    requires Lawful(p) && k in p.keys
    ensures LawfulKeys(k, p.mkiSize) && p.mkiSize <= MKI_LIMIT
  {}

  // ---------- initialization vectors ----------

  // Counter mode: SSRC in octets 4-7, the 48-bit index in octets 8-13, the block counter after it.
  function IcmIv(ssrc: Ssrc, index: nat): Block {
    [0, 0, 0, 0] + ssrc + Octets(index, 6) + [0, 0]
  }

  function Origin(key: IcmKey, iv: Block): Block
    requires |key.salt| == 14
  {
    XorBlock(key.salt + [0, 0], iv)
  }

  function XorOctets(a: seq<bv8>, b: seq<bv8>): (r: seq<bv8>)
    requires |a| == |b|
    ensures |r| == |a|
  {
    seq(|a|, (i: nat) requires i < |a| => XorOctet(a[i], b[i]))
  }

  // srtp_calc_aead_iv
  function AeadIv(salt: seq<bv8>, ssrc: Ssrc, index: nat): (r: seq<bv8>)
    requires |salt| == SALT
    ensures |r| == SALT
  {
    XorOctets([0, 0] + ssrc + Octets(index / 0x1_0000, 4) + Octets(index % 0x1_0000, 2), salt)
  }

  // The index in two words, its halves meeting in the middle of octets 8-15.
  function RtcpIcmIv(ssrc: Ssrc, index: nat): Block {
    [0, 0, 0, 0] + ssrc + Octets(index / 0x1_0000, 4) + Octets(index * 0x1_0000 % 0x1_0000_0000, 4)
  }

  // srtp_calc_aead_iv_srtcp
  function RtcpAeadIv(salt: seq<bv8>, ssrc: Ssrc, index: nat): (r: seq<bv8>)
    requires |salt| == SALT
    ensures |r| == SALT
  {
    XorOctets([0, 0] + ssrc + [0, 0] + Octets(index, 4), salt)
  }

  // ---------- RTP ----------

  function Encrypted(c: Cipher, iv: Block, data: seq<bv8>): (r: Option<seq<bv8>>)
    requires c.IcmCipher? ==> |c.key.salt| == 14
    ensures r.Some? ==> |r.value| == |data|
  {
    match c
    case IcmCipher(key) =>
      if WithinSegment(Origin(key, iv), |data|) then Some(Crypt(key.E, Origin(key, iv), 0, data)) else None
    case _ => Some(data)
  }

  predicate MasksExtension(k: SessionKeys, pkt: seq<bv8>)
    requires HasHeader(pkt)
  {
    HasExtension(pkt) && k.xtn.Some?
  }

  function XtnKeys(p: Policy, k: SessionKeys, ssrc: Ssrc, est: nat): HX.Keys
    requires k.xtn.Some? && |k.xtn.value.salt| == 14
  {
    HX.Keys(k.xtn.value.E, Origin(k.xtn.value, IcmIv(ssrc, est)), p.ids)
  }

  // The header, its extension encrypted or decrypted as RFC 6904 asks.
  function MaskedHeader(p: Policy, k: SessionKeys, pkt: seq<bv8>, est: nat): (r: Result)
    requires ValidateHeader(pkt) == Ok && (k.xtn.Some? ==> |k.xtn.value.salt| == 14)
    ensures if r.Good? then |r.octets| == EncStart(pkt) else r.status == ParseErr || r.status == CipherFail
  {
    var h, e := HeaderLen(pkt), EncStart(pkt);
    if MasksExtension(k, pkt) then
      match HX.Transform(XtnKeys(p, k, RtpSsrc(pkt), est), pkt[h..e])
      case Done(data, _) => Good(pkt[..h] + data)
      case Failed(status) => Bad(status)
    else
      Good(pkt[..e])
  }

  // The payload under the confidentiality service, or in the clear.
  function Payload(conf: bool, c: Cipher, iv: Block, data: seq<bv8>): (r: Option<seq<bv8>>)
    requires c.IcmCipher? ==> |c.key.salt| == 14
    ensures r.Some? ==> |r.value| == |data|
  {
    if conf then Encrypted(c, iv, data) else Some(data)
  }

  function Roc(est: nat): seq<bv8> {
    Octets(est / 0x1_0000, 4)
  }

  function SealIcm(p: Policy, k: SessionKeys, pkt: seq<bv8>, est: nat, leftover: seq<bv8>): (r: Result)
    requires Lawful(p) && k in p.keys && ValidateHeader(pkt) == Ok
    ensures r.Bad? ==> r.status != Ok
  {
    match MaskedHeader(p, k, pkt, est)
    case Bad(status) => Bad(status)
    case Good(header) =>
      match Payload(p.conf, k.rtp, IcmIv(RtpSsrc(pkt), est), pkt[EncStart(pkt)..])
      case None => Bad(CipherFail)
      case Some(payload) =>
        var body := header + payload;
        Good(body + k.mki + if p.auth then k.auth.compute(body + Roc(est)) else leftover)
  }

  function SealAead(p: Policy, k: SessionKeys, pkt: seq<bv8>, est: nat): (r: Result)
    requires Lawful(p) && k in p.keys && ValidateHeader(pkt) == Ok && k.rtp.GcmCipher?
    ensures r.Bad? ==> r.status != Ok
  {
    match MaskedHeader(p, k, pkt, est)
    case Bad(status) => Bad(status)
    case Good(header) =>
      Good(header + k.rtp.aead.seal(AeadIv(k.salt, RtpSsrc(pkt), est), header, pkt[EncStart(pkt)..]) + k.mki)
  }

  /** The protected packet.  Without the authentication service nothing is written where the tag would
      go: the destination keeps its leftover octets. */
  function Seal(p: Policy, k: SessionKeys, pkt: seq<bv8>, est: nat, leftover: seq<bv8>): (r: Result)
    requires Lawful(p) && k in p.keys && ValidateHeader(pkt) == Ok
    ensures r.Bad? ==> r.status != Ok
  {
    if k.rtp.GcmCipher? then SealAead(p, k, pkt, est) else SealIcm(p, k, pkt, est, leftover)
  }

  // The checks on the length of the packet; the unsigned differences wrap when tag and MKI do not fit.
  function OpenLength(p: Policy, k: SessionKeys, pkt: seq<bv8>, room: nat): Status
    requires ValidateHeader(pkt) == Ok
  {
    var n, e, overhead := |pkt|, EncStart(pkt), k.auth.tagLen + p.mkiSize;
    if n < overhead then
      if k.rtp.GcmCipher? && e + p.mkiSize <= n then CipherFail else BufferSmall
    else if e + overhead > n then ParseErr
    else if room < n - overhead then BufferSmall
    else Ok
  }

  function OpenIcm(p: Policy, k: SessionKeys, pkt: seq<bv8>, est: nat, room: nat, expired: bool): (r: Result)
    requires Lawful(p) && k in p.keys && ValidateHeader(pkt) == Ok
    ensures r.Bad? ==> r.status != Ok
  {
    if OpenLength(p, k, pkt, room) != Ok then Bad(OpenLength(p, k, pkt, room)) else
    var tag := |pkt| - k.auth.tagLen;
    var end := tag - p.mkiSize;
    if p.auth && k.auth.compute(pkt[..end] + Roc(est)) != pkt[tag..] then Bad(AuthFail)
    else if expired then Bad(KeyExpired)
    else
      match MaskedHeader(p, k, pkt, est)
      case Bad(status) => Bad(status)
      case Good(header) =>
        match Payload(p.conf, k.rtp, IcmIv(RtpSsrc(pkt), est), pkt[EncStart(pkt)..end])
        case None => Bad(CipherFail)
        case Some(payload) => Good(header + payload)
  }

  function OpenAead(p: Policy, k: SessionKeys, pkt: seq<bv8>, est: nat, room: nat, expired: bool): (r: Result)
    requires Lawful(p) && k in p.keys && ValidateHeader(pkt) == Ok && k.rtp.GcmCipher?
    ensures r.Bad? ==> r.status != Ok
  {
    if OpenLength(p, k, pkt, room) != Ok then Bad(OpenLength(p, k, pkt, room)) else
    if expired then Bad(KeyExpired) else
    var e, end := EncStart(pkt), |pkt| - p.mkiSize;
    match Unsealed(k.rtp.aead, AeadIv(k.salt, RtpSsrc(pkt), est), pkt[..e], pkt[e..end])
    case None => Bad(AuthFail)
    case Some(payload) =>
      match MaskedHeader(p, k, pkt, est)
      case Bad(status) => Bad(status)
      case Good(header) => Good(header + payload)
  }

  function Open(p: Policy, k: SessionKeys, pkt: seq<bv8>, est: nat, room: nat, expired: bool): (r: Result)
    requires Lawful(p) && k in p.keys && ValidateHeader(pkt) == Ok
    ensures r.Bad? ==> r.status != Ok
  {
    if k.rtp.GcmCipher? then OpenAead(p, k, pkt, est, room, expired) else OpenIcm(p, k, pkt, est, room, expired)
  }

  // ---------- the MKI ----------

  // Index of the first key carrying this identifier.
  function FindMki(keys: seq<SessionKeys>, mki: seq<bv8>): (r: Option<nat>)
    ensures r.Some? ==> r.value < |keys| && keys[r.value].mki == mki &&
                        forall i :: 0 <= i < r.value ==> keys[i].mki != mki
    ensures r.None? ==> forall i :: 0 <= i < |keys| ==> keys[i].mki != mki
  {
    if keys == [] then None
    else if keys[0].mki == mki then Some(0)
    else
      match FindMki(keys[1..], mki)
      case None => None
      case Some(i) => Some(i + 1)
  }

  // srtp_get_session_keys_for_packet, called for RTP and RTCP alike
  function KeyForPacket(p: Policy, pkt: seq<bv8>): (r: Option<nat>)
    requires p.keys != []
    ensures r.Some? ==> r.value < |p.keys|
  {
    if !p.useMki then Some(0) else
    var tagLen := if p.keys[0].rtp.GcmCipher? then 0 else p.keys[0].auth.tagLen;
    if tagLen + p.mkiSize > |pkt| then None
    else FindMki(p.keys, pkt[|pkt| - tagLen - p.mkiSize..|pkt| - tagLen])
  }

  // srtp_get_session_keys
  function KeyForIndex(p: Policy, mkiIndex: nat): (r: Option<nat>)
    requires p.keys != []
    ensures r.Some? ==> r.value < |p.keys|
  {
    if !p.useMki then Some(0) else if mkiIndex < |p.keys| then Some(mkiIndex) else None
  }

  // ---------- RTCP ----------

  const E_BIT := 0x8000_0000

  function Trailer(p: Policy, index: nat): (r: seq<bv8>)
    ensures |r| == TRAILER
  {
    Octets(index + if p.rtcpConf then E_BIT else 0, TRAILER)
  }

  function SealRtcpIcm(p: Policy, k: SessionKeys, pkt: seq<bv8>, index: nat): (r: Result)
    requires Lawful(p) && k in p.keys && |pkt| >= RTCP_HEADER
    ensures r.Bad? ==> r.status != Ok
  {
    match Payload(p.rtcpConf, k.rtcp, RtcpIcmIv(RtcpSsrc(pkt), index), pkt[RTCP_HEADER..])
    case None => Bad(CipherFail)
    case Some(payload) =>
      var body := pkt[..RTCP_HEADER] + payload + Trailer(p, index);
      Good(body + k.mki + k.rtcpAuth.compute(body))
  }

  function SealRtcpAead(p: Policy, k: SessionKeys, pkt: seq<bv8>, index: nat): (r: Result)
    requires Lawful(p) && k in p.keys && |pkt| >= RTCP_HEADER && k.rtcp.GcmCipher?
    ensures r.Bad? ==> r.status != Ok
  {
    var iv, trailer := RtcpAeadIv(k.rtcpSalt, RtcpSsrc(pkt), index), Trailer(p, index);
    var clear := if p.rtcpConf then RTCP_HEADER else |pkt|;
    Good(pkt[..clear] + k.rtcp.aead.seal(iv, pkt[..clear] + trailer, pkt[clear..]) + trailer + k.mki)
  }

  function SealRtcp(p: Policy, k: SessionKeys, pkt: seq<bv8>, index: nat): (r: Result)
    requires Lawful(p) && k in p.keys && |pkt| >= RTCP_HEADER
    ensures r.Bad? ==> r.status != Ok
  {
    if k.rtcp.GcmCipher? then SealRtcpAead(p, k, pkt, index) else SealRtcpIcm(p, k, pkt, index)
  }

  // Where the trailer starts: before tag and MKI, or before the MKI only.
  function TrailerAt(p: Policy, k: SessionKeys, pkt: seq<bv8>): nat
    requires RTCP_HEADER + TRAILER + p.mkiSize + k.rtcpAuth.tagLen <= |pkt|
  {
    |pkt| - TRAILER - p.mkiSize - if k.rtcp.GcmCipher? then 0 else k.rtcpAuth.tagLen
  }

  function TrailerWord(p: Policy, k: SessionKeys, pkt: seq<bv8>): nat
    requires RTCP_HEADER + TRAILER + p.mkiSize + k.rtcpAuth.tagLen <= |pkt|
  {
    var t := TrailerAt(p, k, pkt);
    Number(pkt[t..t + TRAILER])
  }

  function OpenRtcpIcm(p: Policy, k: SessionKeys, pkt: seq<bv8>, index: nat, room: nat): (r: Result)
    requires Lawful(p) && k in p.keys
    requires RTCP_HEADER + TRAILER + p.mkiSize + k.rtcpAuth.tagLen <= |pkt| && !k.rtcp.GcmCipher?
    ensures r.Bad? ==> r.status != Ok
  {
    var t, tag := TrailerAt(p, k, pkt), |pkt| - k.rtcpAuth.tagLen;
    if k.rtcpAuth.compute(pkt[..t + TRAILER]) != pkt[tag..] then Bad(AuthFail)
    else if room < t then Bad(BufferSmall)
    else
      match Payload(p.rtcpConf, k.rtcp, RtcpIcmIv(RtcpSsrc(pkt), index), pkt[RTCP_HEADER..t])
      case None => Bad(CipherFail)
      case Some(payload) => Good(pkt[..RTCP_HEADER] + payload)
  }

  function OpenRtcpAead(p: Policy, k: SessionKeys, pkt: seq<bv8>, encrypted: bool, index: nat, room: nat): (r: Result)
    requires Lawful(p) && k in p.keys
    requires RTCP_HEADER + TRAILER + p.mkiSize + k.rtcpAuth.tagLen <= |pkt| && k.rtcp.GcmCipher?
    ensures r.Bad? ==> r.status != Ok
  {
    var t := TrailerAt(p, k, pkt);
    var clear := if encrypted then RTCP_HEADER else t - k.rtcpAuth.tagLen;
    if room < t - k.rtcpAuth.tagLen then Bad(BufferSmall) else
    var aad := pkt[..clear] + pkt[t..t + TRAILER];
    match Unsealed(k.rtcp.aead, RtcpAeadIv(k.rtcpSalt, RtcpSsrc(pkt), index), aad, pkt[clear..t])
    case None => Bad(AuthFail)
    case Some(payload) => Good(pkt[..clear] + payload)
  }

  // The tag of an AEAD packet, right before the trailer.
  function RtcpAeadTag(p: Policy, k: SessionKeys, pkt: seq<bv8>): (r: seq<bv8>)
    requires RTCP_HEADER + TRAILER + p.mkiSize + k.rtcpAuth.tagLen <= |pkt| && k.rtcp.GcmCipher?
    ensures |r| == k.rtcpAuth.tagLen
  {
    var t := TrailerAt(p, k, pkt);
    pkt[t - k.rtcpAuth.tagLen..t]
  }

  // What a receiver writes behind the plain packet: an unencrypted AEAD packet is copied with its tag.
  function Spill(p: Policy, k: SessionKeys, pkt: seq<bv8>, encrypted: bool, same: bool): seq<bv8>
    requires RTCP_HEADER + TRAILER + p.mkiSize + k.rtcpAuth.tagLen <= |pkt| && k.rtcp.GcmCipher?
  {
    if encrypted || same then [] else RtcpAeadTag(p, k, pkt)
  }

  /** An unencrypted AEAD packet is copied, tag included, to a buffer with room for the packet but not for
      the tag. */
  predicate Overruns(p: Policy, k: SessionKeys, pkt: seq<bv8>, encrypted: bool, same: bool, room: nat)
    requires RTCP_HEADER + TRAILER + p.mkiSize + k.rtcpAuth.tagLen <= |pkt|
  {
    var t := TrailerAt(p, k, pkt);
    k.rtcp.GcmCipher? && !encrypted && !same && t - k.rtcpAuth.tagLen <= room < t
  }
}
