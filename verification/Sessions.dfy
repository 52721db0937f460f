/**
 An SRTP session as a value: its streams, its template, and what srtp_protect, srtp_unprotect,
 srtp_protect_rtcp, srtp_unprotect_rtcp and srtp_stream_set_roc make of it.
 */
module Sessions {
  import opened Errors
  import opened Packets
  import opened Transforms
  import RW = ReplayWindow
  import RC = RtcpReplay

  datatype Direction = Unknown | Sender | Receiver

  datatype Stream = Stream(ssrc: Ssrc, policy: Policy, window: RW.Window, rtcp: RC.RtcpWindow, direction: Direction,
                           pendingRoc: nat)

  datatype Session = Session(streams: seq<Stream>, template: Option<Stream>)

  // What a call returns, and the session it leaves.
  datatype Outcome = Outcome(status: Status, octets: seq<bv8>, session: Session)

  ghost predicate ValidStream(s: Stream) {
    && Lawful(s.policy) && RW.LegalLength(|s.window.bits|) && |s.rtcp.bits| == RC.WINDOW
    && s.pendingRoc < RW.ROC_LIMIT
  }

  // The template only lends itself: its RTCP replay window is never used.
  ghost predicate Valid(s: Session) {
    && (forall i :: 0 <= i < |s.streams| ==> ValidStream(s.streams[i]))
    && (forall i, j :: 0 <= i < j < |s.streams| ==> s.streams[i].ssrc != s.streams[j].ssrc)
    && (s.template.Some? ==> ValidStream(s.template.value) && s.template.value.rtcp == RC.Fresh())
  }

  // srtp_get_stream
  function Find(streams: seq<Stream>, ssrc: Ssrc): (r: Option<nat>)
    ensures r.Some? ==> r.value < |streams| && streams[r.value].ssrc == ssrc
    ensures r.Some? ==> forall i :: 0 <= i < r.value ==> streams[i].ssrc != ssrc
    ensures r.None? ==> forall i :: 0 <= i < |streams| ==> streams[i].ssrc != ssrc
  {
    if streams == [] then None
    else if streams[0].ssrc == ssrc then Some(0)
    else
      match Find(streams[1..], ssrc)
      case None => None
      case Some(i) => Some(i + 1)
  }

  // srtp_stream_clone, as far as values go
  function Clone(t: Stream, ssrc: Ssrc): Stream {
    Stream(ssrc, t.policy, RW.Fresh(|t.window.bits|), RC.Fresh(), t.direction, 0)
  }

  function Claimed(d: Direction, role: Direction): Direction {
    if d == Unknown then role else d
  }

  // The session in which a sender finds a stream for this SSRC, creating it from the template.
  function WithSender(s: Session, ssrc: Ssrc, direction: Direction): (r: Option<Session>)
    ensures r.Some? ==> Find(r.value.streams, ssrc).Some?
  {
    if Find(s.streams, ssrc).Some? then Some(s)
    else if s.template.None? then None
    else
      var clone := Clone(s.template.value, ssrc).(direction := direction);
      var r := s.(streams := s.streams + [clone]);
      assert r.streams[|s.streams|].ssrc == ssrc;
      Some(r)
  }

  // The stream of this SSRC, or the template in its place.
  function StreamFor(s: Session, ssrc: Ssrc): Stream
    requires Find(s.streams, ssrc).Some? || s.template.Some?
  {
    match Find(s.streams, ssrc)
    case Some(i) => s.streams[i]
    case None => s.template.value
  }

  lemma StreamForValid(s: Session, ssrc: Ssrc)
    requires Valid(s) && (Find(s.streams, ssrc).Some? || s.template.Some?)
    ensures ValidStream(StreamFor(s, ssrc))
    ensures Find(s.streams, ssrc).None? ==> StreamFor(s, ssrc).rtcp == RC.Fresh()
  {}

  // ---------- RTP ----------

  // What the checks before the replay database say.
  function ProtectChecks(p: Policy, pkt: seq<bv8>, room: nat, mkiIndex: nat, expired: bool): Status
    requires p.keys != []
  {
    match KeyForIndex(p, mkiIndex)
    case None => BadMki
    case Some(i) =>
      if expired then KeyExpired
      else if room < |pkt| + p.mkiSize + p.keys[i].auth.tagLen then BufferSmall
      else Ok
  }

  // The octets of the destination that no step writes unless the packet is authenticated.
  function Leftover(p: Policy, k: SessionKeys, pkt: seq<bv8>, dst: seq<bv8>): (r: seq<bv8>)
    requires |pkt| + p.mkiSize + k.auth.tagLen <= |dst|
    ensures |r| == k.auth.tagLen
  {
    dst[|pkt| + p.mkiSize..|pkt| + p.mkiSize + k.auth.tagLen]
  }

  // A sender's call up to the transform: which stream it is for and which index it was given.
  datatype Turn = Turn(status: Status, session: Session, at: nat, index: nat)

  function TakeIndex(s: Session, pkt: seq<bv8>, room: nat, mkiIndex: nat, expired: bool): (t: Turn)
    requires Valid(s)
    ensures t.status == Ok ==> t.at < |t.session.streams| && ValidateHeader(pkt) == Ok
  {
    if ValidateHeader(pkt) != Ok then Turn(ValidateHeader(pkt), s, 0, 0) else
    match WithSender(s, RtpSsrc(pkt), Sender)
    case None => Turn(NoCtx, s, 0, 0)
    case Some(found) =>
      var i := Find(found.streams, RtpSsrc(pkt)).value;
      SenderValid(s, RtpSsrc(pkt), Sender);
      var stream := found.streams[i].(direction := Claimed(found.streams[i].direction, Sender));
      var claimed := found.(streams := found.streams[i := stream]);
      var checks := ProtectChecks(stream.policy, pkt, room, mkiIndex, expired);
      if checks != Ok then Turn(checks, claimed, i, 0) else
      var a := RW.Admit(stream.window, stream.pendingRoc, SequenceNumber(pkt), stream.policy.allowRepeat);
      if a.status != Ok then Turn(a.status, claimed, i, 0) else
      Turn(Ok, found.(streams := found.streams[i := stream.(window := a.window, pendingRoc := a.pendingRoc)]), i, a.est)
  }

  /** srtp_protect.  The index is taken before the packet is transformed, so a failing transform has
      used it up too. */
  function Protect(s: Session, pkt: seq<bv8>, dst: seq<bv8>, mkiIndex: nat, expired: bool): Outcome
    requires Valid(s)
  {
    var t := TakeIndex(s, pkt, |dst|, mkiIndex, expired);
    if t.status != Ok then Outcome(t.status, [], t.session) else
    TurnValid(s, pkt, |dst|, mkiIndex, expired);
    var p := t.session.streams[t.at].policy;
    var k := p.keys[KeyForIndex(p, mkiIndex).value];
    match Seal(p, k, pkt, t.index, Leftover(p, k, pkt, dst))
    case Bad(status) => Outcome(status, [], t.session)
    case Good(octets) => Outcome(Ok, octets, t.session)
  }

  lemma TurnValid(s: Session, pkt: seq<bv8>, room: nat, mkiIndex: nat, expired: bool)
    requires Valid(s)
    ensures var t := TakeIndex(s, pkt, room, mkiIndex, expired);
            && Valid(t.session)
            && (t.status == Ok ==> ProtectChecks(t.session.streams[t.at].policy, pkt, room, mkiIndex, expired) == Ok)
  {
    hide RW.Admit, KeyForIndex, Lawful, Valid;
    if ValidateHeader(pkt) == Ok && WithSender(s, RtpSsrc(pkt), Sender).Some? {
      SenderValid(s, RtpSsrc(pkt), Sender);
      var found := WithSender(s, RtpSsrc(pkt), Sender).value;
      var i := Find(found.streams, RtpSsrc(pkt)).value;
      var stream := found.streams[i];
      assert ValidStream(stream) by { StreamsValid(found, i); }
      AdmitKeepsRoc(stream.window, stream.pendingRoc, SequenceNumber(pkt), stream.policy.allowRepeat);
      UpdateValid(found, i, TakeIndex(s, pkt, room, mkiIndex, expired).session.streams[i]);
    }
  }

  lemma StreamsValid(s: Session, i: nat)
    requires Valid(s) && i < |s.streams|
    ensures ValidStream(s.streams[i])
  {}

  lemma OnlyOne(s: Session, i: nat)
    requires Valid(s) && i < |s.streams|
    ensures Find(s.streams, s.streams[i].ssrc) == Some(i)
  {
    var r := Find(s.streams, s.streams[i].ssrc);
    assert r.Some?;
  }

  lemma UpdateValid(s: Session, i: nat, stream: Stream)
    requires Valid(s) && i < |s.streams| && ValidStream(stream) && stream.ssrc == s.streams[i].ssrc
    ensures Valid(s.(streams := s.streams[i := stream]))
  {}

  lemma AdmitKeepsRoc(w: RW.Window, pendingRoc: nat, s: nat, allowRepeat: bool)
    requires w.bits != []
    ensures RW.Admit(w, pendingRoc, s, allowRepeat).pendingRoc <= pendingRoc
  {}

  lemma SenderValid(s: Session, ssrc: Ssrc, direction: Direction)
    requires Valid(s) && WithSender(s, ssrc, direction).Some?
    ensures Valid(WithSender(s, ssrc, direction).value)
  {
    var r := WithSender(s, ssrc, direction).value;
    if Find(s.streams, ssrc).None? {
      assert ValidStream(r.streams[|s.streams|]);
    }
  }

  // Where the packet of a known stream, or of one that the template would create, is placed.
  function PlaceReceived(s: Session, pkt: seq<bv8>): (Status, nat, int)
    requires ValidateHeader(pkt) == Ok && (Find(s.streams, RtpSsrc(pkt)).Some? || s.template.Some?)
  {
    match Find(s.streams, RtpSsrc(pkt))
    case Some(i) => RW.Place(s.streams[i].window, s.streams[i].pendingRoc, SequenceNumber(pkt))
    case None => (Ok, SequenceNumber(pkt), SequenceNumber(pkt))
  }

  // Recording an authenticated packet.
  function Recorded(stream: Stream, status: Status, est: nat, delta: int): Stream
    requires status == Ok ==> 0 <= |stream.window.bits| - 1 + delta
    requires stream.window.bits != []
  {
    if status == PktIdxAdv
    then stream.(window := RW.Add(RW.SetRocSeq(stream.window, est / RW.SEQ_MAX, est % RW.SEQ_MAX), 0), pendingRoc := 0)
    else if status == Ok then stream.(window := RW.Add(stream.window, delta))
    else stream
  }

  // Only an authenticated packet of an unknown SSRC makes the template beget a stream.
  function Received(s: Session, pkt: seq<bv8>, status: Status, est: nat, delta: int): Session
    requires Valid(s) && ValidateHeader(pkt) == Ok && (Find(s.streams, RtpSsrc(pkt)).Some? || s.template.Some?)
    requires (status, est, delta) == PlaceReceived(s, pkt)
  {
    match Find(s.streams, RtpSsrc(pkt))
    case Some(i) =>
      var stream := s.streams[i].(direction := Claimed(s.streams[i].direction, Receiver));
      s.(streams := s.streams[i := Recorded(stream, status, est, delta)])
    case None =>
      var template := s.template.value.(direction := Claimed(s.template.value.direction, Receiver));
      s.(streams := s.streams + [Recorded(Clone(template, RtpSsrc(pkt)), status, est, delta)], template := Some(template))
  }

  // Under which keys and at which index a received packet is to be opened; or why it is not.
  datatype Location = Nowhere(why: Status) | Somewhere(policy: Policy, key: nat, status: Status, est: nat, delta: int)

  function Locate(s: Session, pkt: seq<bv8>): (l: Location)
    requires Valid(s)
    ensures l.Nowhere? ==> l.why != Ok
    ensures l.Somewhere? ==>
              && ValidateHeader(pkt) == Ok && (Find(s.streams, RtpSsrc(pkt)).Some? || s.template.Some?)
              && (l.status, l.est, l.delta) == PlaceReceived(s, pkt) && (l.status == Ok || l.status == PktIdxAdv)
              && Lawful(l.policy) && l.key < |l.policy.keys|
  {
    if ValidateHeader(pkt) != Ok then Nowhere(ValidateHeader(pkt)) else
    var found := Find(s.streams, RtpSsrc(pkt));
    if found.None? && s.template.None? then Nowhere(NoCtx) else
    var policy := if found.Some? then s.streams[found.value].policy else s.template.value.policy;
    var (status, est, delta) := PlaceReceived(s, pkt);
    if status != Ok && status != PktIdxAdv then Nowhere(status) else
    match KeyForPacket(policy, pkt)
    case None => Nowhere(BadMki)
    case Some(i) => Somewhere(policy, i, status, est, delta)
  }

  /** srtp_unprotect.  Nothing is recorded until the packet has been opened. */
  function Unprotect(s: Session, pkt: seq<bv8>, room: nat, expired: bool): Outcome
    requires Valid(s)
  {
    match Locate(s, pkt)
    case Nowhere(why) => Outcome(why, [], s)
    case Somewhere(policy, key, status, est, delta) =>
      match Open(policy, policy.keys[key], pkt, est, room, expired)
      case Bad(failure) => Outcome(failure, [], s)
      case Good(octets) => Outcome(Ok, octets, Received(s, pkt, status, est, delta))
  }

  // srtp_stream_set_roc
  function SetRoc(s: Session, ssrc: Ssrc, roc: nat): Outcome {
    match Find(s.streams, ssrc)
    case None => Outcome(BadParam, [], s)
    case Some(i) => Outcome(Ok, [], s.(streams := s.streams[i := s.streams[i].(pendingRoc := roc)]))
  }

  // ---------- RTCP ----------

  function ProtectRtcpChecks(p: Policy, pkt: seq<bv8>, room: nat, mkiIndex: nat): Status
    requires p.keys != []
  {
    match KeyForIndex(p, mkiIndex)
    case None => BadMki
    case Some(i) => if room < |pkt| + TRAILER + p.mkiSize + p.keys[i].rtcpAuth.tagLen then BufferSmall else Ok
  }

  function TakeRtcpIndex(s: Session, pkt: seq<bv8>, room: nat, mkiIndex: nat): (t: Turn)
    requires Valid(s)
    ensures t.status == Ok ==> t.at < |t.session.streams| && RTCP_HEADER <= |pkt|
  {
    if |pkt| < RTCP_HEADER then Turn(BadParam, s, 0, 0) else
    var direction := if s.template.Some? then s.template.value.direction else Unknown;
    match WithSender(s, RtcpSsrc(pkt), direction)
    case None => Turn(NoCtx, s, 0, 0)
    case Some(found) =>
      var i := Find(found.streams, RtcpSsrc(pkt)).value;
      SenderValid(s, RtcpSsrc(pkt), direction);
      var stream := found.streams[i].(direction := Claimed(found.streams[i].direction, Sender));
      var claimed := found.(streams := found.streams[i := stream]);
      var checks := ProtectRtcpChecks(stream.policy, pkt, room, mkiIndex);
      if checks != Ok then Turn(checks, claimed, i, 0) else
      var (status, rtcp) := RC.Increment(stream.rtcp);
      if status != Ok then Turn(status, claimed, i, 0) else
      Turn(Ok, found.(streams := found.streams[i := stream.(rtcp := rtcp)]), i, rtcp.start)
  }

  // A sender's call once its stream has been found, and claimed.
  lemma RtcpTurnAt(s: Session, pkt: seq<bv8>, room: nat, mkiIndex: nat, direction: Direction, i: nat)
    requires Valid(s) && RTCP_HEADER <= |pkt| && direction == (if s.template.Some? then s.template.value.direction else Unknown)
    requires WithSender(s, RtcpSsrc(pkt), direction).Some?
    requires Find(WithSender(s, RtcpSsrc(pkt), direction).value.streams, RtcpSsrc(pkt)) == Some(i)
    ensures var found := WithSender(s, RtcpSsrc(pkt), direction).value;
            var stream := found.streams[i].(direction := Claimed(found.streams[i].direction, Sender));
            && Valid(found) && stream.policy.keys != []
            && var checks, (counted, rtcp) := ProtectRtcpChecks(stream.policy, pkt, room, mkiIndex), RC.Increment(stream.rtcp);
               var status := if checks != Ok then checks else counted;
               TakeRtcpIndex(s, pkt, room, mkiIndex) ==
               if status == Ok then Turn(Ok, found.(streams := found.streams[i := stream.(rtcp := rtcp)]), i, rtcp.start)
               else Turn(status, found.(streams := found.streams[i := stream]), i, 0)
  {
    hide Valid, ProtectRtcpChecks, Lawful;
    SenderValid(s, RtcpSsrc(pkt), direction);
    StreamsValid(WithSender(s, RtcpSsrc(pkt), direction).value, i);
    KeysExist(WithSender(s, RtcpSsrc(pkt), direction).value.streams[i].policy);
  }

  lemma KeysExist(p: Policy)
    requires Lawful(p)
    ensures p.keys != []
  {}

  // The same for RTP.
  lemma TurnAt(s: Session, pkt: seq<bv8>, room: nat, mkiIndex: nat, expired: bool, i: nat)
    requires Valid(s) && ValidateHeader(pkt) == Ok && WithSender(s, RtpSsrc(pkt), Sender).Some?
    requires Find(WithSender(s, RtpSsrc(pkt), Sender).value.streams, RtpSsrc(pkt)) == Some(i)
    ensures var found := WithSender(s, RtpSsrc(pkt), Sender).value;
            var stream := found.streams[i].(direction := Claimed(found.streams[i].direction, Sender));
            && Valid(found) && stream.policy.keys != [] && stream.window.bits != []
            && var checks := ProtectChecks(stream.policy, pkt, room, mkiIndex, expired);
               var a := RW.Admit(stream.window, stream.pendingRoc, SequenceNumber(pkt), stream.policy.allowRepeat);
               var status := if checks != Ok then checks else a.status;
               TakeIndex(s, pkt, room, mkiIndex, expired) ==
               if status == Ok
               then Turn(Ok, found.(streams := found.streams[i := stream.(window := a.window, pendingRoc := a.pendingRoc)]), i, a.est)
               else Turn(status, found.(streams := found.streams[i := stream]), i, 0)
  {
    hide Valid, ProtectChecks, Lawful, RW.Admit;
    SenderValid(s, RtpSsrc(pkt), Sender);
    StreamsValid(WithSender(s, RtpSsrc(pkt), Sender).value, i);
    KeysExist(WithSender(s, RtpSsrc(pkt), Sender).value.streams[i].policy);
  }

  lemma RtcpTurnValid(s: Session, pkt: seq<bv8>, room: nat, mkiIndex: nat)
    requires Valid(s)
    ensures var t := TakeRtcpIndex(s, pkt, room, mkiIndex);
            && Valid(t.session)
            && (t.status == Ok ==> ProtectRtcpChecks(t.session.streams[t.at].policy, pkt, room, mkiIndex) == Ok)
  {
    hide KeyForIndex, Lawful, Valid;
    var direction := if s.template.Some? then s.template.value.direction else Unknown;
    if |pkt| >= RTCP_HEADER && WithSender(s, RtcpSsrc(pkt), direction).Some? {
      SenderValid(s, RtcpSsrc(pkt), direction);
      var found := WithSender(s, RtcpSsrc(pkt), direction).value;
      var i := Find(found.streams, RtcpSsrc(pkt)).value;
      assert ValidStream(found.streams[i]) by { StreamsValid(found, i); }
      UpdateValid(found, i, TakeRtcpIndex(s, pkt, room, mkiIndex).session.streams[i]);
    }
  }

  /** srtp_protect_rtcp */
  function ProtectRtcp(s: Session, pkt: seq<bv8>, room: nat, mkiIndex: nat): Outcome
    requires Valid(s)
  {
    var t := TakeRtcpIndex(s, pkt, room, mkiIndex);
    if t.status != Ok then Outcome(t.status, [], t.session) else
    RtcpTurnValid(s, pkt, room, mkiIndex);
    var p := t.session.streams[t.at].policy;
    match SealRtcp(p, p.keys[KeyForIndex(p, mkiIndex).value], pkt, t.index)
    case Bad(status) => Outcome(status, [], t.session)
    case Good(octets) => Outcome(Ok, octets, t.session)
  }

  // The transform after the checks of length, E bit and replay.
  function OpenRtcp(p: Policy, k: SessionKeys, pkt: seq<bv8>, rtcp: RC.RtcpWindow, room: nat): (r: Result)
    requires Lawful(p) && k in p.keys && |rtcp.bits| == RC.WINDOW
    ensures r.Bad? ==> r.status != Ok
  {
    if |pkt| < RTCP_HEADER + TRAILER + p.mkiSize + k.rtcpAuth.tagLen then Bad(BadParam) else
    var word := TrailerWord(p, k, pkt);
    var encrypted, index := word >= E_BIT, word % E_BIT;
    if !k.rtcp.GcmCipher? && encrypted != p.rtcpConf then Bad(CantCheck)
    else if RC.Check(rtcp, index) != Ok then Bad(RC.Check(rtcp, index))
    else if k.rtcp.GcmCipher? then OpenRtcpAead(p, k, pkt, encrypted, index, room)
    else OpenRtcpIcm(p, k, pkt, index, room)
  }

  function RtcpIndex(p: Policy, k: SessionKeys, pkt: seq<bv8>): nat
    requires RTCP_HEADER + TRAILER + p.mkiSize + k.rtcpAuth.tagLen <= |pkt|
  {
    TrailerWord(p, k, pkt) % E_BIT
  }

  function ReceivedRtcp(s: Session, ssrc: Ssrc, index: nat): Session
    requires Valid(s) && (Find(s.streams, ssrc).Some? || s.template.Some?)
  {
    match Find(s.streams, ssrc)
    case Some(i) =>
      var stream := s.streams[i];
      s.(streams := s.streams[i := stream.(direction := Claimed(stream.direction, Receiver), rtcp := RC.Add(stream.rtcp, index))])
    case None =>
      var template := s.template.value.(direction := Claimed(s.template.value.direction, Receiver));
      var clone := Clone(template, ssrc);
      s.(streams := s.streams + [clone.(rtcp := RC.Add(clone.rtcp, index))], template := Some(template))
  }

  // Whether an RTCP packet that is opened is written past the room given, and what is written behind it.
  predicate OpenRtcpOverruns(p: Policy, k: SessionKeys, pkt: seq<bv8>, rtcp: RC.RtcpWindow, room: nat, same: bool)
    requires |rtcp.bits| == RC.WINDOW
  {
    && RTCP_HEADER + TRAILER + p.mkiSize + k.rtcpAuth.tagLen <= |pkt|
    && RC.Check(rtcp, RtcpIndex(p, k, pkt)) == Ok
    && Overruns(p, k, pkt, TrailerWord(p, k, pkt) >= E_BIT, same, room)
  }

  function OpenRtcpSpill(p: Policy, k: SessionKeys, pkt: seq<bv8>, same: bool): seq<bv8> {
    if RTCP_HEADER + TRAILER + p.mkiSize + k.rtcpAuth.tagLen <= |pkt| && k.rtcp.GcmCipher?
    then Spill(p, k, pkt, TrailerWord(p, k, pkt) >= E_BIT, same) else []
  }

  // Under which keys and against which window a received RTCP packet is to be opened; or why it is not.
  datatype RtcpLocation = NoRtcpKeys(why: Status) | RtcpKeys(policy: Policy, key: nat, rtcp: RC.RtcpWindow)

  function LocateRtcp(s: Session, pkt: seq<bv8>): (l: RtcpLocation)
    requires Valid(s)
    ensures l.NoRtcpKeys? ==> l.why != Ok
    ensures l.RtcpKeys? ==>
              && |pkt| >= RTCP_HEADER + TRAILER && (Find(s.streams, RtcpSsrc(pkt)).Some? || s.template.Some?)
              && Lawful(l.policy) && l.key < |l.policy.keys| && |l.rtcp.bits| == RC.WINDOW
  {
    if |pkt| < RTCP_HEADER + TRAILER then NoRtcpKeys(BadParam) else
    var found := Find(s.streams, RtcpSsrc(pkt));
    if found.None? && s.template.None? then NoRtcpKeys(NoCtx) else
    var stream := if found.Some? then s.streams[found.value] else s.template.value;
    match KeyForPacket(stream.policy, pkt)
    case None => NoRtcpKeys(BadMki)
    case Some(i) => RtcpKeys(stream.policy, i, stream.rtcp)
  }

  /** srtp_unprotect_rtcp.  A packet of an unknown SSRC is checked against the template's own window. */
  function UnprotectRtcp(s: Session, pkt: seq<bv8>, room: nat): Outcome
    requires Valid(s)
  {
    match LocateRtcp(s, pkt)
    case NoRtcpKeys(why) => Outcome(why, [], s)
    case RtcpKeys(policy, key, rtcp) =>
      var k := policy.keys[key];
      match OpenRtcp(policy, k, pkt, rtcp, room)
      case Bad(failure) => Outcome(failure, [], s)
      case Good(octets) => Outcome(Ok, octets, ReceivedRtcp(s, RtcpSsrc(pkt), RtcpIndex(policy, k, pkt)))
  }

  // The call writes past the room given; all of this is known before the call.
  predicate RtcpOverruns(s: Session, pkt: seq<bv8>, room: nat, same: bool)
    requires Valid(s)
  {
    var l := LocateRtcp(s, pkt);
    l.RtcpKeys? && OpenRtcpOverruns(l.policy, l.policy.keys[l.key], pkt, l.rtcp, room, same)
  }

  function RtcpSpill(s: Session, pkt: seq<bv8>, same: bool): seq<bv8>
    requires Valid(s)
  {
    match LocateRtcp(s, pkt)
    case NoRtcpKeys(_) => []
    case RtcpKeys(policy, key, _) => OpenRtcpSpill(policy, policy.keys[key], pkt, same)
  }
}
