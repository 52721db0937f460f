/**
 Protecting and unprotecting a packet in buffers.  Source and destination may be the same array:
 either way the destination ends up with the octets that Transforms defines.
 */
module PacketBuffers {
  import opened Errors
  import opened CounterMode
  import opened Packets
  import opened Transforms
  import HX = HeaderExtensions
  import OctetStrings
  import Slices

  // ---------- writing ----------

  // A buffer with data written at a place.
  function Spliced(was: seq<bv8>, at: nat, data: seq<bv8>): (r: seq<bv8>)
    requires at + |data| <= |was|
    ensures |r| == |was|
  {
    was[..at] + data + was[at + |data|..]
  }

  /** The data where it was written, and everything else as it was. */
  lemma SplicedAt(was: seq<bv8>, at: nat, data: seq<bv8>)
    requires at + |data| <= |was|
    ensures var now := Spliced(was, at, data);
            now[at..at + |data|] == data && now[..at] == was[..at] && now[at + |data|..] == was[at + |data|..]
  {}

  // memcpy of computed octets
  method Put(dst: array<bv8>, at: nat, data: seq<bv8>)
    requires at + |data| <= dst.Length
    modifies dst
    ensures dst[..] == Spliced(old(dst[..]), at, data)
  {
    ghost var was := dst[..];
    forall i | 0 <= i < |data| {
      dst[at + i] := data[i];
    }
    forall j | 0 <= j < dst.Length ensures dst[j] == Spliced(was, at, data)[j] {
      if at <= j < at + |data| {
        assert dst[at + (j - at)] == data[j - at];
      }
    }
  }

  // memcpy between buffers, left out when they are the same
  method CopyUnlessSame(src: array<bv8>, dst: array<bv8>, at: nat, n: nat)
    requires at + n <= src.Length && at + n <= dst.Length
    modifies dst
    ensures dst[..] == Spliced(old(dst[..]), at, old(src[at..at + n]))
  {
    if src != dst {
      Put(dst, at, src[at..at + n]);
    } else {
      Slices.ThreeSlices(dst[..], at, at + n, dst.Length);
    }
  }

  lemma SplicedParts(was: seq<bv8>, at: nat, data: seq<bv8>)
    requires at + |data| <= |was|
    ensures var now := Spliced(was, at, data);
            now[..at] == was[..at] && now[at..at + |data|] == data && now[at + |data|..] == was[at + |data|..]
  {}

  // Outside the stretch written, nothing changes.
  lemma SplicedElsewhere(was: seq<bv8>, at: nat, data: seq<bv8>, a: nat, b: nat)
    requires at + |data| <= |was| && a <= b <= |was| && (b <= at || at + |data| <= a)
    ensures Spliced(was, at, data)[a..b] == was[a..b]
  {
    var now := Spliced(was, at, data);
    forall i | a <= i < b ensures now[i] == was[i] {}
  }

  // ---------- the pieces ----------

  // The header: copied, and its extension masked where it lies.
  method WriteHeader(p: Policy, k: SessionKeys, src: array<bv8>, len: nat, dst: array<bv8>, est: nat) returns (status: Status)
    requires len <= src.Length && ValidateHeader(src[..len]) == Ok && (k.xtn.Some? ==> |k.xtn.value.salt| == 14)
    requires EncStart(src[..len]) <= dst.Length < SIZE_LIMIT / 2
    modifies dst
    ensures match MaskedHeader(p, k, old(src[..len]), est)
            case Bad(st) => status == st
            case Good(header) => status == Ok && dst[..] == Spliced(old(dst[..]), 0, header)
  {
    hide HX.Transform, ValidateHeader, Origin, IcmIv, Spliced;
    var pkt := src[..len];
    var h, e := HeaderLen(pkt), EncStart(pkt);
    ghost var was := dst[..];
    assert src[0..e] == pkt[..e];
    CopyUnlessSame(src, dst, 0, e);
    status := Ok;
    if MasksExtension(k, pkt) {
      HeaderCopied(was, pkt, h, e);
      status := WriteExtension(dst, h, e, k.xtn.value, IcmIv(RtpSsrc(pkt), est), p.ids);
      if status == Ok {
        ExtensionWritten(was, pkt, h, e, dst[h..e]);
      }
    }
  }

  method WriteExtension(dst: array<bv8>, h: nat, e: nat, key: IcmKey, iv: Block, ids: seq<bv8>) returns (status: Status)
    requires h + 4 <= e <= dst.Length < SIZE_LIMIT / 2 && |key.salt| == 14
    modifies dst
    ensures match HX.Transform(HX.Keys(key.E, Origin(key, iv), ids), old(dst[h..e]))
            case Failed(st) => status == st
            case Done(data, _) => status == Ok && dst[h..e] == data && dst[..] == Spliced(old(dst[..]), h, data)
  {
    hide HX.Transform;
    var cipher := new Icm(key.E, key.salt);
    cipher.SetIv(iv);
    status := HX.ProcessHeaderEncryption(dst, h, e - h, cipher, ids);
    Slices.ThreeSlices(dst[..], h, e, dst.Length);
  }

  lemma HeaderCopied(was: seq<bv8>, pkt: seq<bv8>, h: nat, e: nat)
    requires h <= e <= |pkt| && e <= |was|
    ensures Spliced(was, 0, pkt[..e])[h..e] == pkt[h..e]
  {}

  lemma ExtensionWritten(was: seq<bv8>, pkt: seq<bv8>, h: nat, e: nat, data: seq<bv8>)
    requires h <= e <= |pkt| && e <= |was| && |data| == e - h
    ensures Spliced(Spliced(was, 0, pkt[..e]), h, data) == Spliced(was, 0, pkt[..h] + data)
  {}

  // The payload: run through the cipher, or copied.
  method WritePayload(conf: bool, c: Cipher, iv: Block, src: array<bv8>, at: nat, n: nat, dst: array<bv8>) returns (status: Status)
    requires at + n <= src.Length && at + n <= dst.Length && n < SIZE_LIMIT / 2 && (c.IcmCipher? ==> |c.key.salt| == 14)
    modifies dst
    ensures match Payload(conf, c, iv, old(src[at..at + n]))
            case None => status == CipherFail && dst[..] == old(dst[..])
            case Some(data) => status == Ok && dst[..] == Spliced(old(dst[..]), at, data)
  {
    if conf && c.IcmCipher? {
      var cipher := new Icm(c.key.E, c.key.salt);
      cipher.SetIv(iv);
      status := cipher.Encrypt(src, at, n, dst, at, n);
      if status != Ok {
        status := CipherFail;
      }
    } else {
      CopyUnlessSame(src, dst, at, n);
      status := Ok;
    }
  }

  // Header and payload, the one after the other.
  method WritePacket(p: Policy, k: SessionKeys, src: array<bv8>, len: nat, end: nat, dst: array<bv8>, est: nat) returns (status: Status)
    requires LawfulKeys(k, p.mkiSize) && end <= len <= src.Length && ValidateHeader(src[..len]) == Ok
    requires EncStart(src[..len]) <= end <= dst.Length < SIZE_LIMIT / 2
    modifies dst
    ensures var pkt := old(src[..len]);
            match MaskedHeader(p, k, pkt, est)
            case Bad(st) => status == st
            case Good(header) =>
              match Payload(p.conf, k.rtp, IcmIv(RtpSsrc(pkt), est), pkt[EncStart(pkt)..end])
              case None => status == CipherFail
              case Some(payload) => status == Ok && dst[..] == Spliced(old(dst[..]), 0, header + payload)
  {
    hide MaskedHeader, Payload, IcmIv, LawfulAead, ValidateHeader, Spliced;
    var pkt := src[..len];
    var e := EncStart(pkt);
    ghost var was := dst[..];
    assert pkt[e..end] == src[e..end] by { Slices.SliceOfSlice(src[..], 0, len, e, end); }
    status := WriteHeader(p, k, src, len, dst, est);
    if status != Ok {
      return;
    }
    ghost var header := MaskedHeader(p, k, pkt, est).octets;
    assert src[e..end] == pkt[e..end] by {
      if src == dst { SplicedElsewhere(was, 0, header, e, end); }
    }
    status := WritePayload(p.conf, k.rtp, IcmIv(RtpSsrc(pkt), est), src, e, end - e, dst);
    if status == Ok {
      SplicedTwice(was, 0, header, Payload(p.conf, k.rtp, IcmIv(RtpSsrc(pkt), est), pkt[e..end]).value);
    }
  }

  // Writing two stretches side by side is writing them as one.
  lemma SplicedTwice(was: seq<bv8>, at: nat, a: seq<bv8>, b: seq<bv8>)
    requires at + |a| + |b| <= |was|
    ensures Spliced(Spliced(was, at, a), at + |a|, b) == Spliced(was, at, a + b)
  {
    var whole, parts := Spliced(was, at, a + b), Spliced(Spliced(was, at, a), at + |a|, b);
    forall i | 0 <= i < |was| ensures parts[i] == whole[i] {}
  }

  // The same, the right one first.
  lemma SplicedBefore(was: seq<bv8>, at: nat, a: seq<bv8>, b: seq<bv8>)
    requires at + |a| + |b| <= |was|
    ensures Spliced(Spliced(was, at + |a|, b), at, a) == Spliced(was, at, a + b)
  {
    var whole, parts := Spliced(was, at, a + b), Spliced(Spliced(was, at + |a|, b), at, a);
    forall i | 0 <= i < |was| ensures parts[i] == whole[i] {}
  }

  // ---------- srtp_protect ----------

  // A failed transform says why; a good one is in the destination, with nothing after it touched.
  ghost predicate Written(status: Status, r: Result, now: seq<bv8>, was: seq<bv8>) {
    match r
    case Bad(st) => status == st
    case Good(octets) => status == Ok && |octets| <= |was| && now == Spliced(was, 0, octets)
  }

  // The same with more octets written behind the packet.
  ghost predicate WrittenWith(status: Status, r: Result, spill: seq<bv8>, now: seq<bv8>, was: seq<bv8>) {
    match r
    case Bad(st) => status == st
    case Good(octets) => status == Ok && |octets + spill| <= |was| && now == Spliced(was, 0, octets + spill)
  }

  method SealIcmInto(p: Policy, k: SessionKeys, src: array<bv8>, len: nat, dst: array<bv8>, est: nat) returns (status: Status)
    requires Lawful(p) && k in p.keys && len <= src.Length && ValidateHeader(src[..len]) == Ok && !k.rtp.GcmCipher?
    requires len + p.mkiSize + k.auth.tagLen <= dst.Length < SIZE_LIMIT / 2
    modifies dst
    ensures Written(status, SealIcm(p, k, old(src[..len]), est,
                                    old(dst[len + p.mkiSize..len + p.mkiSize + k.auth.tagLen])), dst[..], old(dst[..]))
  {
    hide MaskedHeader, Payload, Lawful, Roc, IcmIv, LawfulAead, ValidateHeader, Spliced;
    assert LawfulKeys(k, p.mkiSize) by { KeysLawful(p, k); }
    ghost var pkt, was := src[..len], dst[..];
    assert pkt[EncStart(pkt)..len] == pkt[EncStart(pkt)..];
    Put(dst, len, k.mki);
    assert src[..len] == pkt by {
      if src == dst { SplicedElsewhere(was, len, k.mki, 0, len); }
    }
    status := WritePacket(p, k, src, len, len, dst, est);
    if status != Ok {
      return;
    }
    ghost var header := MaskedHeader(p, k, pkt, est).octets;
    ghost var body := header + Payload(p.conf, k.rtp, IcmIv(RtpSsrc(pkt), est), pkt[EncStart(pkt)..]).value;
    SplicedBefore(was, 0, body, k.mki);
    WriteTag(p, k, dst, len, est, body, was);
  }

  method WriteTag(p: Policy, k: SessionKeys, dst: array<bv8>, len: nat, est: nat, ghost body: seq<bv8>, ghost was: seq<bv8>)
    requires LawfulMac(k.auth) && |k.mki| == p.mkiSize && |body| == len && len + p.mkiSize + k.auth.tagLen <= |was|
    requires dst[..] == Spliced(was, 0, body + k.mki)
    modifies dst
    ensures var tagAt := len + p.mkiSize;
            var tag := if p.auth then k.auth.compute(body + Roc(est)) else was[tagAt..tagAt + k.auth.tagLen];
            dst[..] == Spliced(was, 0, body + k.mki + tag)
  {
    hide Spliced, Roc;
    assert dst[..len] == body by { BodyWritten(was, body, k.mki); }
    if p.auth {
      Put(dst, len + p.mkiSize, k.auth.compute(dst[..len] + Roc(est)));
      SplicedTwice(was, 0, body + k.mki, k.auth.compute(body + Roc(est)));
    } else {
      LeftAlone(was, body + k.mki, k.auth.tagLen);
    }
  }

  lemma MacLength(m: Mac, text: seq<bv8>)
    requires LawfulMac(m)
    ensures |m.compute(text)| == m.tagLen
  {}

  lemma BodyWritten(was: seq<bv8>, body: seq<bv8>, mki: seq<bv8>)
    requires |body| + |mki| <= |was|
    ensures Spliced(was, 0, body + mki)[..|body|] == body
  {}

  // Octets that nobody wrote may be counted as written.
  lemma LeftAlone(was: seq<bv8>, a: seq<bv8>, n: nat)
    requires |a| + n <= |was|
    ensures Spliced(was, 0, a) == Spliced(was, 0, a + was[|a|..|a| + n])
  {}

  method SealAeadInto(p: Policy, k: SessionKeys, src: array<bv8>, len: nat, dst: array<bv8>, est: nat) returns (status: Status)
    requires Lawful(p) && k in p.keys && len <= src.Length && ValidateHeader(src[..len]) == Ok && k.rtp.GcmCipher?
    requires len + p.mkiSize + k.auth.tagLen <= dst.Length < SIZE_LIMIT / 2
    modifies dst
    ensures Written(status, SealAead(p, k, old(src[..len]), est), dst[..], old(dst[..]))
  {
    hide MaskedHeader, Lawful, ValidateHeader, Spliced, AeadIv;
    assert LawfulKeys(k, p.mkiSize) by { KeysLawful(p, k); }
    var pkt := src[..len];
    ghost var was := dst[..];
    var e := EncStart(pkt);
    status := WriteHeader(p, k, src, len, dst, est);
    if status != Ok {
      return;
    }
    ghost var header := MaskedHeader(p, k, pkt, est).octets;
    assert dst[..e] == header by { SplicedParts(was, 0, header); }
    assert src[e..len] == pkt[e..] by {
      Slices.SliceOfSlice(was, 0, len, e, len);
      if src == dst { SplicedElsewhere(was, 0, header, e, len); }
    }
    var sealed := k.rtp.aead.seal(AeadIv(k.salt, RtpSsrc(pkt), est), dst[..e], src[e..len]);
    Put(dst, e, sealed);
    SplicedTwice(was, 0, header, sealed);
    Put(dst, e + |sealed|, k.mki);
    SplicedTwice(was, 0, header + sealed, k.mki);
  }

  /** srtp_protect after the index is known: in place or from one buffer to another. */
  method SealInto(p: Policy, k: SessionKeys, src: array<bv8>, len: nat, dst: array<bv8>, est: nat) returns (status: Status)
    requires Lawful(p) && k in p.keys && len <= src.Length && ValidateHeader(src[..len]) == Ok
    requires len + p.mkiSize + k.auth.tagLen <= dst.Length < SIZE_LIMIT / 2
    modifies dst
    ensures Written(status, Seal(p, k, old(src[..len]), est, old(dst[len + p.mkiSize..len + p.mkiSize + k.auth.tagLen])),
                    dst[..], old(dst[..]))
  {
    if k.rtp.GcmCipher? {
      status := SealAeadInto(p, k, src, len, dst, est);
    } else {
      status := SealIcmInto(p, k, src, len, dst, est);
    }
  }

  // ---------- srtp_unprotect ----------

  // Unsigned 64-bit difference.
  function Minus(a: int, b: int): nat {
    (a - b) % SIZE_LIMIT
  }

  lemma Wraps(a: nat, b: nat)
    requires a < SIZE_LIMIT && b < SIZE_LIMIT
    ensures Minus(a, b) == if a < b then a - b + SIZE_LIMIT else a - b
  {}

  // The length checks, on differences that wrap.
  method CheckLength(p: Policy, k: SessionKeys, pkt: seq<bv8>, room: nat) returns (status: Status)
    requires ValidateHeader(pkt) == Ok && |pkt| < SIZE_LIMIT / 2 && room < SIZE_LIMIT / 2
    requires k.auth.tagLen <= TAG_LIMIT && p.mkiSize <= MKI_LIMIT
    ensures status == OpenLength(p, k, pkt, room)
  {
    hide Minus, ValidateHeader;
    var e, n := EncStart(pkt), |pkt|;
    Wraps(n, k.auth.tagLen);
    Wraps(Minus(n, k.auth.tagLen), p.mkiSize);
    Wraps(n, e);
    Wraps(Minus(n, e), p.mkiSize);
    var left := Minus(Minus(n, k.auth.tagLen), p.mkiSize);
    if e > left {
      return ParseErr;
    }
    if k.rtp.GcmCipher? && Minus(Minus(n, e), p.mkiSize) < k.auth.tagLen {
      return CipherFail;
    }
    if room < left {
      return BufferSmall;
    }
    return Ok;
  }

  method OpenIcmInto(p: Policy, k: SessionKeys, src: array<bv8>, len: nat, dst: array<bv8>, room: nat, est: nat, expired: bool)
    returns (status: Status)
    requires Lawful(p) && k in p.keys && len <= src.Length < SIZE_LIMIT / 2 && ValidateHeader(src[..len]) == Ok
    requires room <= dst.Length < SIZE_LIMIT / 2 && !k.rtp.GcmCipher?
    modifies dst
    ensures Written(status, OpenIcm(p, k, old(src[..len]), est, room, expired), dst[..], old(dst[..]))
  {
    hide MaskedHeader, Payload, Lawful, ValidateHeader, Spliced, IcmIv, Roc, LawfulAead;
    assert LawfulKeys(k, p.mkiSize) && p.mkiSize <= MKI_LIMIT by { KeysLawful(p, k); }
    ghost var was := dst[..];
    var pkt := src[..len];
    status := CheckLength(p, k, pkt, room);
    if status != Ok {
      return;
    }
    var tag := len - k.auth.tagLen;
    var end := tag - p.mkiSize;
    if p.auth {
      MacLength(k.auth, pkt[..end] + Roc(est));
      var equal := OctetStrings.EqualPortable(k.auth.compute(pkt[..end] + Roc(est)), pkt[tag..]);
      if !equal {
        return AuthFail;
      }
    }
    if expired {
      return KeyExpired;
    }
    status := WritePacket(p, k, src, len, end, dst, est);
  }

  lemma UnsealedLength(a: Aead, tagLen: nat, iv: seq<bv8>, aad: seq<bv8>, sealed: seq<bv8>)
    requires LawfulAead(a, tagLen) && Unsealed(a, iv, aad, sealed).Some?
    ensures |Unsealed(a, iv, aad, sealed).value| + tagLen == |sealed|
  {}

  method OpenAeadInto(p: Policy, k: SessionKeys, src: array<bv8>, len: nat, dst: array<bv8>, room: nat, est: nat, expired: bool)
    returns (status: Status)
    requires Lawful(p) && k in p.keys && len <= src.Length < SIZE_LIMIT / 2 && ValidateHeader(src[..len]) == Ok
    requires room <= dst.Length < SIZE_LIMIT / 2 && k.rtp.GcmCipher?
    modifies dst
    ensures Written(status, OpenAead(p, k, old(src[..len]), est, room, expired), dst[..], old(dst[..]))
  {
    hide MaskedHeader, Lawful, LawfulAead, ValidateHeader, Spliced, AeadIv;
    assert LawfulKeys(k, p.mkiSize) && p.mkiSize <= MKI_LIMIT by { KeysLawful(p, k); }
    ghost var was := dst[..];
    var pkt := src[..len];
    status := CheckLength(p, k, pkt, room);
    if status != Ok {
      return;
    }
    if expired {
      return KeyExpired;
    }
    var e, end := EncStart(pkt), len - p.mkiSize;
    var clear := Unsealed(k.rtp.aead, AeadIv(k.salt, RtpSsrc(pkt), est), pkt[..e], pkt[e..end]);
    if clear.None? {
      return AuthFail;
    }
    var payload := clear.value;
    UnsealedLength(k.rtp.aead, k.auth.tagLen, AeadIv(k.salt, RtpSsrc(pkt), est), pkt[..e], pkt[e..end]);
    status := WriteHeader(p, k, src, len, dst, est);
    if status == Ok {
      Put(dst, e, payload);
      SplicedTwice(was, 0, MaskedHeader(p, k, pkt, est).octets, payload);
    }
  }

  /** srtp_unprotect after the index is known: in place or from one buffer to another. */
  method OpenInto(p: Policy, k: SessionKeys, src: array<bv8>, len: nat, dst: array<bv8>, room: nat, est: nat, expired: bool)
    returns (status: Status)
    requires Lawful(p) && k in p.keys && len <= src.Length < SIZE_LIMIT / 2 && ValidateHeader(src[..len]) == Ok
    requires room <= dst.Length < SIZE_LIMIT / 2
    modifies dst
    ensures Written(status, Open(p, k, old(src[..len]), est, room, expired), dst[..], old(dst[..]))
  {
    if k.rtp.GcmCipher? {
      status := OpenAeadInto(p, k, src, len, dst, room, est, expired);
    } else {
      status := OpenIcmInto(p, k, src, len, dst, room, est, expired);
    }
  }

  // ---------- RTCP ----------

  // Header, identifier, trailer and payload.
  method WriteRtcp(p: Policy, k: SessionKeys, src: array<bv8>, len: nat, dst: array<bv8>, iv: Block, trailer: seq<bv8>)
    returns (status: Status)
    requires LawfulKeys(k, p.mkiSize) && RTCP_HEADER <= len <= src.Length && |trailer| == TRAILER
    requires len + TRAILER + p.mkiSize <= dst.Length < SIZE_LIMIT / 2
    modifies dst
    ensures var pkt := old(src[..len]);
            match Payload(p.rtcpConf, k.rtcp, iv, pkt[RTCP_HEADER..])
            case None => status == CipherFail
            case Some(payload) =>
              status == Ok && dst[..] == Spliced(old(dst[..]), 0, pkt[..RTCP_HEADER] + payload + trailer + k.mki)
  {
    hide Payload, Spliced, LawfulAead;
    ghost var pkt, was := src[..len], dst[..];
    var header := src[..RTCP_HEADER];
    assert pkt[..RTCP_HEADER] == header;
    CopyUnlessSame(src, dst, 0, RTCP_HEADER);
    Put(dst, len + TRAILER, k.mki);
    Put(dst, len, trailer);
    assert src[RTCP_HEADER..len] == pkt[RTCP_HEADER..] by {
      Slices.SliceOfSlice(was, 0, len, RTCP_HEADER, len);
      if src == dst { RtcpPayloadKept(was, header, len, trailer, k.mki); }
    }
    status := WritePayload(p.rtcpConf, k.rtcp, iv, src, RTCP_HEADER, len - RTCP_HEADER, dst);
    if status == Ok {
      RtcpAssembled(was, header, Payload(p.rtcpConf, k.rtcp, iv, pkt[RTCP_HEADER..]).value, trailer, k.mki);
    }
  }

  lemma RtcpPayloadKept(was: seq<bv8>, header: seq<bv8>, len: nat, trailer: seq<bv8>, mki: seq<bv8>)
    requires |header| <= len && len + |trailer| + |mki| <= |was|
    ensures Spliced(Spliced(Spliced(was, 0, header), len + |trailer|, mki), len, trailer)[|header|..len] == was[|header|..len]
  {
    hide Spliced;
    SplicedElsewhere(was, 0, header, |header|, len);
    SplicedElsewhere(Spliced(was, 0, header), len + |trailer|, mki, |header|, len);
    SplicedElsewhere(Spliced(Spliced(was, 0, header), len + |trailer|, mki), len, trailer, |header|, len);
  }

  /** srtp_protect_rtcp after the index is known, without AEAD. */
  method SealRtcpIcmInto(p: Policy, k: SessionKeys, src: array<bv8>, len: nat, dst: array<bv8>, index: nat) returns (status: Status)
    requires Lawful(p) && k in p.keys && RTCP_HEADER <= len <= src.Length && !k.rtcp.GcmCipher?
    requires len + TRAILER + p.mkiSize + k.rtcpAuth.tagLen <= dst.Length < SIZE_LIMIT / 2
    modifies dst
    ensures Written(status, SealRtcpIcm(p, k, old(src[..len]), index), dst[..], old(dst[..]))
  {
    hide Payload, Lawful, Spliced, RtcpIcmIv, Trailer, LawfulAead;
    assert LawfulKeys(k, p.mkiSize) by { KeysLawful(p, k); }
    var pkt := src[..len];
    ghost var was := dst[..];
    var iv, trailer := RtcpIcmIv(RtcpSsrc(pkt), index), Trailer(p, index);
    status := WriteRtcp(p, k, src, len, dst, iv, trailer);
    if status == Ok {
      ghost var body := pkt[..RTCP_HEADER] + Payload(p.rtcpConf, k.rtcp, iv, pkt[RTCP_HEADER..]).value + trailer;
      assert dst[..len + TRAILER] == body by { BodyWritten(was, body, k.mki); }
      Put(dst, len + TRAILER + p.mkiSize, k.rtcpAuth.compute(dst[..len + TRAILER]));
      SplicedTwice(was, 0, body + k.mki, k.rtcpAuth.compute(body));
    }
  }

  // Header, identifier, trailer and payload, in the order in which they are written.
  lemma RtcpAssembled(was: seq<bv8>, header: seq<bv8>, payload: seq<bv8>, trailer: seq<bv8>, mki: seq<bv8>)
    requires |header| + |payload| + |trailer| + |mki| <= |was|
    ensures var h, len := |header|, |header| + |payload|;
            Spliced(Spliced(Spliced(Spliced(was, 0, header), len + |trailer|, mki), len, trailer), h, payload)
            == Spliced(was, 0, header + payload + trailer + mki)
  {
    hide Spliced;
    var h, len := |header|, |header| + |payload|;
    var d := Spliced(was, 0, header);
    SplicedBefore(d, len, trailer, mki);
    SplicedBefore(d, h, payload, trailer + mki);
    SplicedTwice(was, 0, header, payload + (trailer + mki));
    Slices.Associative(header, payload, trailer + mki);
    Slices.Associative(header + payload, trailer, mki);
  }

  /** srtp_protect_rtcp_aead after the index is known. */
  method SealRtcpAeadInto(p: Policy, k: SessionKeys, src: array<bv8>, len: nat, dst: array<bv8>, index: nat)
    requires Lawful(p) && k in p.keys && RTCP_HEADER <= len <= src.Length && k.rtcp.GcmCipher?
    requires len + TRAILER + p.mkiSize + k.rtcpAuth.tagLen <= dst.Length < SIZE_LIMIT / 2
    modifies dst
    ensures Written(Ok, SealRtcpAead(p, k, old(src[..len]), index), dst[..], old(dst[..]))
  {
    hide Lawful, Spliced, RtcpAeadIv, Trailer;
    assert LawfulKeys(k, p.mkiSize) by { KeysLawful(p, k); }
    var pkt, tagLen := src[..len], k.rtcpAuth.tagLen;
    ghost var was := dst[..];
    var trailer := Trailer(p, index);
    var clear := if p.rtcpConf then RTCP_HEADER else len;
    assert src[0..clear] == pkt[..clear];
    var sealed := k.rtcp.aead.seal(RtcpAeadIv(k.rtcpSalt, RtcpSsrc(pkt), index), pkt[..clear] + trailer, pkt[clear..]);
    CopyUnlessSame(src, dst, 0, clear);
    Put(dst, len + tagLen + TRAILER, k.mki);
    Put(dst, len + tagLen, trailer);
    Put(dst, clear, sealed);
    RtcpAssembled(was, pkt[..clear], sealed, trailer, k.mki);
  }

  /** srtp_unprotect_rtcp after the replay check, without AEAD. */
  method OpenRtcpIcmInto(p: Policy, k: SessionKeys, src: array<bv8>, len: nat, dst: array<bv8>, room: nat, index: nat)
    returns (status: Status)
    requires Lawful(p) && k in p.keys && len <= src.Length < SIZE_LIMIT / 2 && room <= dst.Length
    requires RTCP_HEADER + TRAILER + p.mkiSize + k.rtcpAuth.tagLen <= len && !k.rtcp.GcmCipher?
    modifies dst
    ensures Written(status, OpenRtcpIcm(p, k, old(src[..len]), index, room), dst[..], old(dst[..]))
    ensures dst[room..] == old(dst[room..])
  {
    hide Payload, Lawful, Spliced, RtcpIcmIv, LawfulAead;
    assert LawfulKeys(k, p.mkiSize) by { KeysLawful(p, k); }
    ghost var was := dst[..];
    var pkt := src[..len];
    var tag := len - k.rtcpAuth.tagLen;
    var t := tag - p.mkiSize - TRAILER;
    MacLength(k.rtcpAuth, pkt[..t + TRAILER]);
    var equal := OctetStrings.EqualPortable(k.rtcpAuth.compute(pkt[..t + TRAILER]), pkt[tag..]);
    if !equal {
      return AuthFail;
    }
    if room < t {
      return BufferSmall;
    }
    var header, iv := src[..RTCP_HEADER], RtcpIcmIv(RtcpSsrc(pkt), index);
    assert header == pkt[..RTCP_HEADER];
    assert src[RTCP_HEADER..t] == pkt[RTCP_HEADER..t] by { Slices.SliceOfSlice(src[..], 0, len, RTCP_HEADER, t); }
    CopyUnlessSame(src, dst, 0, RTCP_HEADER);
    assert src[RTCP_HEADER..t] == pkt[RTCP_HEADER..t] by {
      if src == dst { SplicedElsewhere(was, 0, header, RTCP_HEADER, t); }
    }
    status := WritePayload(p.rtcpConf, k.rtcp, iv, src, RTCP_HEADER, t - RTCP_HEADER, dst);
    ghost var payload := if status == Ok then Payload(p.rtcpConf, k.rtcp, iv, pkt[RTCP_HEADER..t]).value else [];
    RestUntouched(was, header, payload, room);
    assert dst[room..] == dst[..][room..];
  }

  // Writing header and payload is writing both at once, and leaves what is behind them.
  lemma RestUntouched(was: seq<bv8>, header: seq<bv8>, payload: seq<bv8>, room: nat)
    requires |header| + |payload| <= room <= |was|
    ensures Spliced(was, 0, header)[room..] == was[room..]
    ensures Spliced(Spliced(was, 0, header), |header|, payload) == Spliced(was, 0, header + payload)
    ensures Spliced(was, 0, header + payload)[room..] == was[room..]
  {
    hide Spliced;
    SplicedTwice(was, 0, header, payload);
    SplicedElsewhere(was, 0, header, room, |was|);
    SplicedElsewhere(was, 0, header + payload, room, |was|);
  }

  // From position `room` on, nothing is written, or exactly what an overrun writes.
  ghost predicate Beyond(p: Policy, k: SessionKeys, pkt: seq<bv8>, overruns: bool, room: nat, now: seq<bv8>, was: seq<bv8>)
    requires RTCP_HEADER + TRAILER + p.mkiSize + k.rtcpAuth.tagLen <= |pkt| && room <= |was| == |now|
  {
    var t := TrailerAt(p, k, pkt);
    if overruns then room < t <= |was| && now[room..t] == pkt[room..t] && now[t..] == was[t..] else now[room..] == was[room..]
  }

  /** srtp_unprotect_rtcp_aead after the replay check.  `dst` stands for the memory at the destination, of which
      the caller owns `room` octets: octets behind those are written exactly if Overruns. */
  method OpenRtcpAeadInto(p: Policy, k: SessionKeys, src: array<bv8>, len: nat, dst: array<bv8>, room: nat, encrypted: bool, index: nat)
    returns (status: Status)
    requires Lawful(p) && k in p.keys && len <= src.Length < SIZE_LIMIT / 2 && room <= dst.Length
    requires RTCP_HEADER + TRAILER + p.mkiSize + k.rtcpAuth.tagLen <= len && k.rtcp.GcmCipher?
    requires Overruns(p, k, src[..len], encrypted, src == dst, room) ==> len <= dst.Length
    modifies dst
    ensures WrittenWith(status, OpenRtcpAead(p, k, old(src[..len]), encrypted, index, room),
                        Spill(p, k, old(src[..len]), encrypted, src == dst), dst[..], old(dst[..]))
    ensures Beyond(p, k, old(src[..len]), Overruns(p, k, old(src[..len]), encrypted, src == dst, room), room, dst[..], old(dst[..]))
  {
    hide Lawful, LawfulAead, Spliced, RtcpAeadIv;
    assert LawfulKeys(k, p.mkiSize) by { KeysLawful(p, k); }
    ghost var was := dst[..];
    var pkt := src[..len];
    var t := len - TRAILER - p.mkiSize;
    var plain := t - k.rtcpAuth.tagLen;
    if room < plain {
      return BufferSmall;
    }
    var iv, trailer := RtcpAeadIv(k.rtcpSalt, RtcpSsrc(pkt), index), pkt[t..t + TRAILER];
    if encrypted {
      ghost var r := OpenRtcpAead(p, k, pkt, encrypted, index, room);
      assert r.Good? ==> r.octets + [] == r.octets;
      status := DecryptInto(p, k, src, len, dst, room, iv, trailer);
    } else {
      status := AuthenticateInto(p, k, src, len, dst, iv, trailer);
      CopiedBeyond(was, pkt, src == dst, plain, t, room);
    }
  }

  // An AEAD packet that is only authenticated: copied, tag and all, and the tag checked.
  method AuthenticateInto(p: Policy, k: SessionKeys, src: array<bv8>, len: nat, dst: array<bv8>, iv: seq<bv8>, trailer: seq<bv8>)
    returns (status: Status)
    requires LawfulKeys(k, p.mkiSize) && len <= src.Length && k.rtcp.GcmCipher?
    requires RTCP_HEADER + TRAILER + p.mkiSize + k.rtcpAuth.tagLen <= len && len - TRAILER - p.mkiSize <= dst.Length
    modifies dst
    ensures var pkt, t := old(src[..len]), len - TRAILER - p.mkiSize;
            var plain := t - k.rtcpAuth.tagLen;
            && dst[..] == (if src == dst then old(dst[..]) else Spliced(old(dst[..]), 0, pkt[..t]))
            && match Unsealed(k.rtcp.aead, iv, pkt[..plain] + trailer, pkt[plain..t])
               case None => status == AuthFail
               case Some(payload) => status == Ok && payload == []
  {
    hide LawfulAead, Spliced;
    var pkt, t := src[..len], len - TRAILER - p.mkiSize;
    var plain := t - k.rtcpAuth.tagLen;
    assert src[..t] == pkt[..t];
    CopyTwice(src, dst, RTCP_HEADER, t);
    var decrypted := Unsealed(k.rtcp.aead, iv, pkt[..plain] + trailer, pkt[plain..t]);
    if decrypted.None? {
      return AuthFail;
    }
    UnsealedLength(k.rtcp.aead, k.rtcpAuth.tagLen, iv, pkt[..plain] + trailer, pkt[plain..t]);
    return Ok;
  }

  // Header, then the rest, up to t.
  method CopyTwice(src: array<bv8>, dst: array<bv8>, h: nat, t: nat)
    requires h <= t <= src.Length && t <= dst.Length
    modifies dst
    ensures dst[..] == if src == dst then old(dst[..]) else Spliced(old(dst[..]), 0, old(src[..t]))
  {
    hide Spliced;
    ghost var was := dst[..];
    if src == dst {
      return;
    }
    CopyUnlessSame(src, dst, 0, h);
    CopyUnlessSame(src, dst, h, t - h);
    SplicedTwice(was, 0, src[0..h], src[h..t]);
    assert src[0..h] + src[h..t] == src[..t];
  }

  lemma CopiedBeyond(was: seq<bv8>, pkt: seq<bv8>, same: bool, plain: nat, t: nat, room: nat)
    requires plain <= room <= |was| && plain <= t <= |pkt| && t <= |was| && (same ==> was[..t] == pkt[..t])
    ensures var now := if same then was else Spliced(was, 0, pkt[..t]);
            && now == Spliced(was, 0, pkt[..plain] + [] + if same then [] else pkt[plain..t])
            && (if !same && room < t then now[room..t] == pkt[room..t] && now[t..] == was[t..] else now[room..] == was[room..])
  {
    assert pkt[..plain] + [] + pkt[plain..t] == pkt[..t];
    if same {
      assert was[..plain] == was[..t][..plain] == pkt[..plain];
      assert pkt[..plain] + [] + [] == pkt[..plain];
      assert Spliced(was, 0, pkt[..plain]) == was;
    }
  }

  // An encrypted AEAD packet: the header copied, the payload decrypted.
  method DecryptInto(p: Policy, k: SessionKeys, src: array<bv8>, len: nat, dst: array<bv8>, room: nat, iv: seq<bv8>, trailer: seq<bv8>)
    returns (status: Status)
    requires LawfulKeys(k, p.mkiSize) && len <= src.Length && k.rtcp.GcmCipher?
    requires RTCP_HEADER + TRAILER + p.mkiSize + k.rtcpAuth.tagLen <= len
    requires len - TRAILER - p.mkiSize - k.rtcpAuth.tagLen <= room <= dst.Length
    modifies dst
    ensures var pkt, t := old(src[..len]), len - TRAILER - p.mkiSize;
            match Unsealed(k.rtcp.aead, iv, pkt[..RTCP_HEADER] + trailer, pkt[RTCP_HEADER..t])
            case None => status == AuthFail
            case Some(payload) =>
              && status == Ok && RTCP_HEADER + |payload| <= room
              && dst[..] == Spliced(old(dst[..]), 0, pkt[..RTCP_HEADER] + payload)
    ensures dst[room..] == old(dst[room..])
  {
    hide LawfulAead, Spliced;
    ghost var was := dst[..];
    var pkt, t := src[..len], len - TRAILER - p.mkiSize;
    var header := pkt[..RTCP_HEADER];
    assert src[0..RTCP_HEADER] == header;
    CopyUnlessSame(src, dst, 0, RTCP_HEADER);
    var decrypted := Unsealed(k.rtcp.aead, iv, header + trailer, pkt[RTCP_HEADER..t]);
    if decrypted.None? {
      RestUntouched(was, header, [], room);
      assert dst[room..] == dst[..][room..];
      return AuthFail;
    }
    var payload := decrypted.value;
    UnsealedLength(k.rtcp.aead, k.rtcpAuth.tagLen, iv, header + trailer, pkt[RTCP_HEADER..t]);
    Put(dst, RTCP_HEADER, payload);
    RestUntouched(was, header, payload, room);
    assert dst[room..] == dst[..][room..];
    return Ok;
  }

  // ---------- in place or not ----------

  /** Whichever buffer the packet is written to, the same octets go out if a tag is written, by the
      authentication service or by AEAD; otherwise exactly if the buffers held the same leftovers. */
  lemma BufferDoesNotMatter(p: Policy, k: SessionKeys, pkt: seq<bv8>, est: nat, left: seq<bv8>, other: seq<bv8>)
    requires Lawful(p) && k in p.keys && ValidateHeader(pkt) == Ok && |left| == |other| == k.auth.tagLen
    ensures Seal(p, k, pkt, est, left).Good? ==>
              (Seal(p, k, pkt, est, left) == Seal(p, k, pkt, est, other) <==>
               k.rtp.GcmCipher? || p.auth || left == other)
    ensures Seal(p, k, pkt, est, left).Bad? ==> Seal(p, k, pkt, est, left) == Seal(p, k, pkt, est, other)
  {
    hide MaskedHeader, Payload, Lawful, ValidateHeader, IcmIv, Roc, AeadIv, LawfulAead;
    assert LawfulKeys(k, p.mkiSize) by { KeysLawful(p, k); }
    if !k.rtp.GcmCipher? && Seal(p, k, pkt, est, left).Good? && !p.auth {
      var body := MaskedHeader(p, k, pkt, est).octets + Payload(p.conf, k.rtp, IcmIv(RtpSsrc(pkt), est), pkt[EncStart(pkt)..]).value;
      SameTail(body + k.mki, left, other);
    }
  }

  lemma SameTail(front: seq<bv8>, a: seq<bv8>, b: seq<bv8>)
    ensures front + a == front + b <==> a == b
  {
    assert (front + a)[|front|..] == a && (front + b)[|front|..] == b;
  }
}
