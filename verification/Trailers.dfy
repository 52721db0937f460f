/** How much longer protection makes a packet: srtp_get_protect_trailer_length. */
module Trailers {
  import opened Errors
  import opened Packets
  import opened Transforms
  import opened Sessions
  import RoundTrips

  const MAX_TRAILER := TAG_LIMIT + MKI_LIMIT

  // stream_get_protect_trailer_length; none stands for bad_mki
  function StreamTrailer(p: Policy, rtp: bool, mkiIndex: nat): Option<nat>
    requires p.keys != []
  {
    match KeyForIndex(p, mkiIndex)
    case None => None
    case Some(i) =>
      var mki := if p.useMki then p.mkiSize else 0;
      Some(mki + if rtp then p.keys[i].auth.tagLen else p.keys[i].rtcpAuth.tagLen + TRAILER)
  }

  // The trailers a packet may get: those of the listed streams, and those of streams yet to be cloned.
  ghost predicate Possible(s: Session, rtp: bool, mkiIndex: nat, n: nat)
    requires Valid(s)
  {
    || (exists i :: 0 <= i < |s.streams| && StreamTrailer(s.streams[i].policy, rtp, mkiIndex) == Some(n))
    || (s.template.Some? && StreamTrailer(s.template.value.policy, rtp, mkiIndex) == Some(n))
  }

  /** The greatest trailer that any stream of the session can produce.  With a template the call succeeds
      even when no stream has that key, and reports zero. */
  method GetTrailerLength(s: Session, rtp: bool, mkiIndex: nat) returns (status: Status, length: nat)
    requires Valid(s)
    ensures status == Ok <==> s.template.Some? || exists n: nat :: Possible(s, rtp, mkiIndex, n)
    ensures status != Ok ==> status == BadParam
    ensures status == Ok ==> forall n: nat :: Possible(s, rtp, mkiIndex, n) ==> n <= length
    ensures status == Ok ==> Possible(s, rtp, mkiIndex, length) || length == 0
  {
    hide StreamTrailer, LawfulKeys;
    var found := s.template.Some?;
    length := 0;
    if found {
      length := match StreamTrailer(s.template.value.policy, rtp, mkiIndex) case None => 0 case Some(n) => n;
    }
    for i := 0 to |s.streams|
      invariant (s.template.Some? ==> found) && (!found ==> length == 0)
      invariant found && s.template.None? ==> Possible(s, rtp, mkiIndex, length)
      invariant Possible(s, rtp, mkiIndex, length) || length == 0
      invariant s.template.Some? && StreamTrailer(s.template.value.policy, rtp, mkiIndex).Some? ==>
                  StreamTrailer(s.template.value.policy, rtp, mkiIndex).value <= length
      invariant forall j :: 0 <= j < i && StreamTrailer(s.streams[j].policy, rtp, mkiIndex).Some? ==>
                  found && StreamTrailer(s.streams[j].policy, rtp, mkiIndex).value <= length
    {
      var own := StreamTrailer(s.streams[i].policy, rtp, mkiIndex);
      if own.Some? {
        found := true;
        if own.value > length {
          length := own.value;
        }
        assert Possible(s, rtp, mkiIndex, own.value);
      }
    }
    status := if found then Ok else BadParam;
  }

  // A length that covers all trailers a session can produce.
  ghost predicate Covers(s: Session, rtp: bool, mkiIndex: nat, n: nat)
    requires Valid(s)
  {
    forall m: nat :: Possible(s, rtp, mkiIndex, m) ==> m <= n
  }

  lemma TrailerIsExact(p: Policy, mkiIndex: nat)
    requires Lawful(p) && KeyForIndex(p, mkiIndex).Some?
    ensures var k := p.keys[KeyForIndex(p, mkiIndex).value];
            && StreamTrailer(p, true, mkiIndex) == Some(p.mkiSize + k.auth.tagLen)
            && StreamTrailer(p, false, mkiIndex) == Some(p.mkiSize + k.rtcpAuth.tagLen + TRAILER)
            && p.mkiSize + k.auth.tagLen <= MAX_TRAILER
  {
    var k := p.keys[KeyForIndex(p, mkiIndex).value];
    assert k in p.keys && LawfulKeys(k, p.mkiSize);
  }

  // The stream that a sender ends up with is one whose trailer counts.
  lemma SenderPossible(s: Session, ssrc: Ssrc, direction: Direction, rtp: bool, mkiIndex: nat, n: nat)
    requires Valid(s) && WithSender(s, ssrc, direction).Some?
    requires var found := WithSender(s, ssrc, direction).value;
             var p := found.streams[Find(found.streams, ssrc).value].policy;
             p.keys != [] && StreamTrailer(p, rtp, mkiIndex) == Some(n)
    ensures Possible(s, rtp, mkiIndex, n)
  {
    hide Valid, StreamTrailer;
    var found := WithSender(s, ssrc, direction).value;
    var i := Find(found.streams, ssrc).value;
    if Find(s.streams, ssrc).Some? {
      assert StreamTrailer(s.streams[i].policy, rtp, mkiIndex) == Some(n);
    } else {
      assert i == |s.streams|;
      assert found.streams[i].policy == s.template.value.policy;
    }
  }

  lemma TurnPolicy(s: Session, pkt: seq<bv8>, room: nat, mkiIndex: nat, expired: bool)
    requires Valid(s) && ValidateHeader(pkt) == Ok && WithSender(s, RtpSsrc(pkt), Sender).Some?
    ensures var found := WithSender(s, RtpSsrc(pkt), Sender).value;
            var i := Find(found.streams, RtpSsrc(pkt)).value;
            var t := TakeIndex(s, pkt, room, mkiIndex, expired);
            && Lawful(found.streams[i].policy)
            && (t.status == Ok ==> t.at == i && t.session.streams[i].policy == found.streams[i].policy)
            && (t.status == Ok ==> t.session.streams[i].ssrc == RtpSsrc(pkt))
            && (t.status == BufferSmall ==> ProtectChecks(found.streams[i].policy, pkt, room, mkiIndex, expired) == BufferSmall)
  {
    hide Valid;
    SenderValid(s, RtpSsrc(pkt), Sender);
    var found := WithSender(s, RtpSsrc(pkt), Sender).value;
    StreamsValid(found, Find(found.streams, RtpSsrc(pkt)).value);
  }

  lemma SealStatus(p: Policy, k: SessionKeys, pkt: seq<bv8>, est: nat, leftover: seq<bv8>)
    requires Lawful(p) && k in p.keys && ValidateHeader(pkt) == Ok
    ensures Seal(p, k, pkt, est, leftover).Bad? ==>
              Seal(p, k, pkt, est, leftover).status == ParseErr || Seal(p, k, pkt, est, leftover).status == CipherFail
  {
    hide MaskedHeader, Payload, Lawful;
  }

  // The trailer of the stream of this SSRC.
  function TrailerOf(s: Session, ssrc: Ssrc, rtp: bool, mkiIndex: nat): Option<nat>
    requires Valid(s)
  {
    match Find(s.streams, ssrc)
    case None => None
    case Some(i) => StreamTrailer(s.streams[i].policy, rtp, mkiIndex)
  }

  // The stream whose turn it is, is the one of the SSRC.
  lemma TurnTrailer(s: Session, pkt: seq<bv8>, room: nat, mkiIndex: nat, expired: bool)
    requires Valid(s) && TakeIndex(s, pkt, room, mkiIndex, expired).status == Ok
    ensures var t := TakeIndex(s, pkt, room, mkiIndex, expired);
            var p := t.session.streams[t.at].policy;
            && Valid(t.session) && Lawful(p) && ProtectChecks(p, pkt, room, mkiIndex, expired) == Ok
            && TrailerOf(t.session, RtpSsrc(pkt), true, mkiIndex) == StreamTrailer(p, true, mkiIndex)
  {
    hide Valid, TakeIndex, Lawful, KeyForIndex, StreamTrailer, ProtectChecks;
    TurnValid(s, pkt, room, mkiIndex, expired);
    if WithSender(s, RtpSsrc(pkt), Sender).None? {
      NoTurn(s, pkt, room, mkiIndex, expired);
    }
    TurnPolicy(s, pkt, room, mkiIndex, expired);
    var t := TakeIndex(s, pkt, room, mkiIndex, expired);
    OnlyOne(t.session, t.at);
  }

  /** A protected packet is longer than the packet by exactly the trailer of its stream. */
  lemma ProtectAddsTrailer(s: Session, pkt: seq<bv8>, dst: seq<bv8>, mkiIndex: nat, expired: bool)
    requires Valid(s)
    ensures var o := Protect(s, pkt, dst, mkiIndex, expired);
            && Valid(o.session)
            && (o.status == Ok ==> TrailerOf(o.session, RtpSsrc(pkt), true, mkiIndex) == Some(|o.octets| - |pkt|))
  {
    hide Valid, TakeIndex, Seal, Lawful, KeyForIndex, TrailerOf, StreamTrailer;
    TurnValid(s, pkt, |dst|, mkiIndex, expired);
    var t := TakeIndex(s, pkt, |dst|, mkiIndex, expired);
    if Protect(s, pkt, dst, mkiIndex, expired).status == Ok {
      var p := t.session.streams[t.at].policy;
      TurnTrailer(s, pkt, |dst|, mkiIndex, expired);
      TrailerIsExact(p, mkiIndex);
      var k := p.keys[KeyForIndex(p, mkiIndex).value];
      RoundTrips.OpenUndoesSeal(p, k, pkt, t.index, Leftover(p, k, pkt, dst), |pkt|);
    }
  }

  /** The length reported is what a caller needs: with that much room beyond the packet srtp_protect never
      finds the buffer too small, and what it writes fits. */
  lemma RoomSuffices(s: Session, pkt: seq<bv8>, dst: seq<bv8>, mkiIndex: nat, expired: bool, n: nat)
    requires Valid(s) && Covers(s, true, mkiIndex, n) && |pkt| + n <= |dst|
    ensures var o := Protect(s, pkt, dst, mkiIndex, expired);
            o.status != BufferSmall && (o.status == Ok ==> |pkt| <= |o.octets| <= |pkt| + n)
  {
    hide Valid, TakeIndex, Seal, Covers, Possible, Lawful, StreamTrailer, KeyForIndex;
    if ValidateHeader(pkt) == Ok && WithSender(s, RtpSsrc(pkt), Sender).Some? {
      TurnValid(s, pkt, |dst|, mkiIndex, expired);
      TurnPolicy(s, pkt, |dst|, mkiIndex, expired);
      var found := WithSender(s, RtpSsrc(pkt), Sender).value;
      var p := found.streams[Find(found.streams, RtpSsrc(pkt)).value].policy;
      assert p.keys != [] by { NotEmpty(p); }
      if KeyForIndex(p, mkiIndex).Some? {
        TrailerIsExact(p, mkiIndex);
        var k := p.keys[KeyForIndex(p, mkiIndex).value];
        var own := p.mkiSize + k.auth.tagLen;
        SenderPossible(s, RtpSsrc(pkt), Sender, true, mkiIndex, own);
        assert own <= n by { Covered(s, true, mkiIndex, n, own); }
        var t := TakeIndex(s, pkt, |dst|, mkiIndex, expired);
        if t.status == Ok {
          SealStatus(p, k, pkt, t.index, Leftover(p, k, pkt, dst));
          OnlyOne(t.session, t.at);
          ProtectAddsTrailer(s, pkt, dst, mkiIndex, expired);
        }
      }
    } else {
      NoTurn(s, pkt, |dst|, mkiIndex, expired);
    }
  }

  lemma NotEmpty(p: Policy)
    requires Lawful(p)
    ensures p.keys != []
  {}

  lemma Covered(s: Session, rtp: bool, mkiIndex: nat, n: nat, own: nat)
    requires Valid(s) && Covers(s, rtp, mkiIndex, n) && Possible(s, rtp, mkiIndex, own)
    ensures own <= n
  {}

  lemma NoTurn(s: Session, pkt: seq<bv8>, room: nat, mkiIndex: nat, expired: bool)
    requires Valid(s) && (ValidateHeader(pkt) != Ok || WithSender(s, RtpSsrc(pkt), Sender).None?)
    ensures TakeIndex(s, pkt, room, mkiIndex, expired).status in {BadParam, NoCtx}
  {}

  // ---------- RTCP ----------

  lemma RtcpTurnPolicy(s: Session, pkt: seq<bv8>, room: nat, mkiIndex: nat, direction: Direction)
    requires Valid(s) && |pkt| >= RTCP_HEADER && direction == (if s.template.Some? then s.template.value.direction else Unknown)
    requires WithSender(s, RtcpSsrc(pkt), direction).Some?
    ensures var found := WithSender(s, RtcpSsrc(pkt), direction).value;
            var i := Find(found.streams, RtcpSsrc(pkt)).value;
            var t := TakeRtcpIndex(s, pkt, room, mkiIndex);
            && Lawful(found.streams[i].policy)
            && (t.status == Ok ==> t.at == i && t.session.streams[i].policy == found.streams[i].policy)
            && (t.status == Ok ==> t.session.streams[i].ssrc == RtcpSsrc(pkt))
            && (t.status == BufferSmall ==> ProtectRtcpChecks(found.streams[i].policy, pkt, room, mkiIndex) == BufferSmall)
  {
    hide Valid;
    SenderValid(s, RtcpSsrc(pkt), direction);
    var found := WithSender(s, RtcpSsrc(pkt), direction).value;
    StreamsValid(found, Find(found.streams, RtcpSsrc(pkt)).value);
  }

  /** A protected RTCP packet is longer than the packet by exactly the trailer of its stream. */
  lemma ProtectRtcpAddsTrailer(s: Session, pkt: seq<bv8>, room: nat, mkiIndex: nat)
    requires Valid(s)
    ensures var o := ProtectRtcp(s, pkt, room, mkiIndex);
            && Valid(o.session)
            && (o.status == Ok ==> TrailerOf(o.session, RtcpSsrc(pkt), false, mkiIndex) == Some(|o.octets| - |pkt|))
  {
    hide Valid, TakeRtcpIndex, SealRtcp, Lawful, KeyForIndex;
    var direction := if s.template.Some? then s.template.value.direction else Unknown;
    RtcpTurnValid(s, pkt, room, mkiIndex);
    var t := TakeRtcpIndex(s, pkt, room, mkiIndex);
    if ProtectRtcp(s, pkt, room, mkiIndex).status == Ok {
      if WithSender(s, RtcpSsrc(pkt), direction).None? {
        NoRtcpTurn(s, pkt, room, mkiIndex);
      }
      RtcpTurnPolicy(s, pkt, room, mkiIndex, direction);
      OnlyOne(t.session, t.at);
      var p := t.session.streams[t.at].policy;
      TrailerIsExact(p, mkiIndex);
      RoundTrips.SealRtcpLength(p, p.keys[KeyForIndex(p, mkiIndex).value], pkt, t.index);
    }
  }

  /** The same for srtp_protect_rtcp. */
  lemma RtcpRoomSuffices(s: Session, pkt: seq<bv8>, room: nat, mkiIndex: nat, n: nat)
    requires Valid(s) && Covers(s, false, mkiIndex, n) && |pkt| + n <= room
    ensures var o := ProtectRtcp(s, pkt, room, mkiIndex);
            o.status != BufferSmall && (o.status == Ok ==> |pkt| <= |o.octets| <= |pkt| + n)
  {
    hide Valid, TakeRtcpIndex, SealRtcp, Covers, Possible, Lawful, StreamTrailer, KeyForIndex;
    var direction := if s.template.Some? then s.template.value.direction else Unknown;
    if |pkt| >= RTCP_HEADER && WithSender(s, RtcpSsrc(pkt), direction).Some? {
      RtcpTurnValid(s, pkt, room, mkiIndex);
      RtcpTurnPolicy(s, pkt, room, mkiIndex, direction);
      var found := WithSender(s, RtcpSsrc(pkt), direction).value;
      var p := found.streams[Find(found.streams, RtcpSsrc(pkt)).value].policy;
      assert p.keys != [] by { NotEmpty(p); }
      if KeyForIndex(p, mkiIndex).Some? {
        TrailerIsExact(p, mkiIndex);
        var own := p.mkiSize + p.keys[KeyForIndex(p, mkiIndex).value].rtcpAuth.tagLen + TRAILER;
        SenderPossible(s, RtcpSsrc(pkt), direction, false, mkiIndex, own);
        assert own <= n by { Covered(s, false, mkiIndex, n, own); }
        var t := TakeRtcpIndex(s, pkt, room, mkiIndex);
        if t.status == Ok {
          RoundTrips.SealRtcpLength(p, p.keys[KeyForIndex(p, mkiIndex).value], pkt, t.index);
          OnlyOne(t.session, t.at);
          ProtectRtcpAddsTrailer(s, pkt, room, mkiIndex);
        }
      }
    } else {
      NoRtcpTurn(s, pkt, room, mkiIndex);
    }
  }

  lemma NoRtcpTurn(s: Session, pkt: seq<bv8>, room: nat, mkiIndex: nat)
    requires Valid(s)
    requires |pkt| < RTCP_HEADER ||
             WithSender(s, RtcpSsrc(pkt), if s.template.Some? then s.template.value.direction else Unknown).None?
    ensures TakeRtcpIndex(s, pkt, room, mkiIndex).status in {BadParam, NoCtx}
  {}
}
