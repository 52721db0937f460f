/**
 Whole runs of a session.  Whatever calls are made, in whatever order, on however many streams: no
 packet index of an SSRC is used twice, hence no counter block and no AEAD vector is.
 */
module SessionRuns {
  import opened Errors
  import opened CounterMode
  import opened Packets
  import opened Transforms
  import opened Sessions
  import RW = ReplayWindow
  import RC = RtcpReplay
  import Nonces

  datatype Call =
    | CallProtect(pkt: seq<bv8>, dst: seq<bv8>, mkiIndex: nat, expired: bool)
    | CallUnprotect(pkt: seq<bv8>, room: nat, expired: bool)
    | CallSetRoc(ssrc: Ssrc, roc: nat)
    | CallProtectRtcp(pkt: seq<bv8>, room: nat, mkiIndex: nat)
    | CallUnprotectRtcp(pkt: seq<bv8>, room: nat)

  predicate Legal(c: Call) {
    c.CallSetRoc? ==> c.roc < RW.ROC_LIMIT
  }

  function Made(s: Session, c: Call): Outcome
    requires Valid(s)
  {
    match c
    case CallProtect(pkt, dst, mkiIndex, expired) => Protect(s, pkt, dst, mkiIndex, expired)
    case CallUnprotect(pkt, room, expired) => Unprotect(s, pkt, room, expired)
    case CallSetRoc(ssrc, roc) => SetRoc(s, ssrc, roc)
    case CallProtectRtcp(pkt, room, mkiIndex) => ProtectRtcp(s, pkt, room, mkiIndex)
    case CallUnprotectRtcp(pkt, room) => UnprotectRtcp(s, pkt, room)
  }

  // ---------- every call keeps the session valid ----------

  lemma RecordedValid(stream: Stream, status: Status, est: nat, delta: int)
    requires ValidStream(stream) && (status == Ok ==> 0 <= |stream.window.bits| - 1 + delta)
    ensures ValidStream(Recorded(stream, status, est, delta))
    ensures Recorded(stream, status, est, delta).ssrc == stream.ssrc
  {}

  lemma AppendValid(s: Session, stream: Stream)
    requires Valid(s) && ValidStream(stream) && Find(s.streams, stream.ssrc).None?
    ensures Valid(s.(streams := s.streams + [stream]))
  {
    var r := s.streams + [stream];
    assert r[|s.streams|] == stream;
  }

  lemma CloneValid(t: Stream, ssrc: Ssrc)
    requires ValidStream(t)
    ensures ValidStream(Clone(t, ssrc))
  {}

  lemma ReceivedValid(s: Session, pkt: seq<bv8>, status: Status, est: nat, delta: int)
    requires Valid(s) && ValidateHeader(pkt) == Ok && (Find(s.streams, RtpSsrc(pkt)).Some? || s.template.Some?)
    requires (status, est, delta) == PlaceReceived(s, pkt)
    ensures Valid(Received(s, pkt, status, est, delta))
  {
    hide RW.Add, RW.SetRocSeq, Lawful;
    match Find(s.streams, RtpSsrc(pkt))
    case Some(i) =>
      var stream := s.streams[i].(direction := Claimed(s.streams[i].direction, Receiver));
      RecordedValid(stream, status, est, delta);
      UpdateValid(s, i, Recorded(stream, status, est, delta));
    case None =>
      var template := s.template.value.(direction := Claimed(s.template.value.direction, Receiver));
      CloneValid(template, RtpSsrc(pkt));
      RecordedValid(Clone(template, RtpSsrc(pkt)), status, est, delta);
      AppendValid(s.(template := Some(template)), Recorded(Clone(template, RtpSsrc(pkt)), status, est, delta));
  }

  lemma ReceivedRtcpValid(s: Session, ssrc: Ssrc, index: nat)
    requires Valid(s) && (Find(s.streams, ssrc).Some? || s.template.Some?)
    ensures Valid(ReceivedRtcp(s, ssrc, index))
  {
    hide Lawful, RC.Add;
    match Find(s.streams, ssrc)
    case Some(i) =>
      UpdateValid(s, i, ReceivedRtcp(s, ssrc, index).streams[i]);
    case None =>
      var r := ReceivedRtcp(s, ssrc, index);
      AppendValid(s.(template := r.template), r.streams[|s.streams|]);
  }

  /** No call, whatever its arguments and however it ends, breaks the session. */
  lemma CallKeepsValid(s: Session, c: Call)
    requires Valid(s) && Legal(c)
    ensures Valid(Made(s, c).session)
  {
    hide Valid, TakeIndex, TakeRtcpIndex, Received, ReceivedRtcp, PlaceReceived, KeyForPacket;
    hide Open, OpenRtcpIcm, OpenRtcpAead, Seal, SealRtcp;
    match c {
      case CallProtect(pkt, dst, mkiIndex, expired) =>
        TurnValid(s, pkt, |dst|, mkiIndex, expired);
      case CallUnprotect(pkt, room, expired) =>
        if ValidateHeader(pkt) == Ok && (Find(s.streams, RtpSsrc(pkt)).Some? || s.template.Some?) {
          var (status, est, delta) := PlaceReceived(s, pkt);
          ReceivedValid(s, pkt, status, est, delta);
        }
      case CallSetRoc(ssrc, roc) =>
        if Find(s.streams, ssrc).Some? {
          var i := Find(s.streams, ssrc).value;
          assert ValidStream(s.streams[i]) by { StreamsValid(s, i); }
          UpdateValid(s, i, s.streams[i].(pendingRoc := roc));
        }
      case CallProtectRtcp(pkt, room, mkiIndex) =>
        RtcpTurnValid(s, pkt, room, mkiIndex);
      case CallUnprotectRtcp(pkt, room) =>
        if |pkt| >= RTCP_HEADER + TRAILER && Made(s, c).status == Ok {
          var l := LocateRtcp(s, pkt);
          ReceivedRtcpValid(s, RtcpSsrc(pkt), RtcpIndex(l.policy, l.policy.keys[l.key], pkt));
        }
    }
  }

  // ---------- which indices a call uses ----------

  type Use = (Ssrc, nat)

  // The RTP index under which a call seals a packet, or delivers one.
  function RtpUse(s: Session, c: Call): seq<Use>
    requires Valid(s)
  {
    match c
    case CallProtect(pkt, dst, mkiIndex, expired) =>
      var t := TakeIndex(s, pkt, |dst|, mkiIndex, expired);
      if t.status == Ok then [(RtpSsrc(pkt), t.index)] else []
    case CallUnprotect(pkt, room, expired) =>
      if Unprotect(s, pkt, room, expired).status == Ok then [(RtpSsrc(pkt), PlaceReceived(s, pkt).1)] else []
    case _ => []
  }

  // The SRTCP index under which a call seals a packet.
  function RtcpUse(s: Session, c: Call): seq<Use>
    requires Valid(s)
  {
    match c
    case CallProtectRtcp(pkt, room, mkiIndex) =>
      var t := TakeRtcpIndex(s, pkt, room, mkiIndex);
      if t.status == Ok then [(RtcpSsrc(pkt), t.index)] else []
    case _ => []
  }

  datatype History = History(session: Session, uses: seq<Use>, rtcpUses: seq<Use>)

  predicate AllLegal(calls: seq<Call>) {
    forall i :: 0 <= i < |calls| ==> Legal(calls[i])
  }

  function Run(s: Session, calls: seq<Call>): (h: History)
    requires Valid(s) && AllLegal(calls)
    ensures Valid(h.session)
  {
    if calls == [] then History(s, [], []) else
    var h, c := Run(s, calls[..|calls| - 1]), calls[|calls| - 1];
    CallKeepsValid(h.session, c);
    History(Made(h.session, c).session, h.uses + RtpUse(h.session, c), h.rtcpUses + RtcpUse(h.session, c))
  }

  // ---------- the invariant ----------

  predicate Distinct(uses: seq<Use>) {
    forall i, j :: 0 <= i < j < |uses| ==> uses[i] != uses[j]
  }

  function UsedBy(uses: seq<Use>, ssrc: Ssrc): set<nat> {
    set u | u in uses && u.0 == ssrc :: u.1
  }

  // Every replay window represents exactly the indices used under its SSRC.
  ghost predicate Faithful(s: Session, uses: seq<Use>) {
    && (forall i :: 0 <= i < |s.streams| ==> RW.Represents(s.streams[i].window, UsedBy(uses, s.streams[i].ssrc)))
    && (forall u :: u in uses ==> Find(s.streams, u.0).Some?)
    && Distinct(uses)
  }

  ghost predicate Bounded(s: Session) {
    forall i :: 0 <= i < |s.streams| ==> s.streams[i].window.index < RW.INDEX_LIMIT
  }

  // The policies do not ask for repeated transmission.
  predicate NoRepeats(s: Session) {
    && (forall i :: 0 <= i < |s.streams| ==> !s.streams[i].policy.allowRepeat)
    && (s.template.Some? ==> !s.template.value.policy.allowRepeat)
  }

  lemma FoundAfter(streams: seq<Stream>, more: seq<Stream>, ssrc: Ssrc)
    requires Find(streams, ssrc).Some? && |streams| <= |more|
    requires forall i :: 0 <= i < |streams| ==> more[i].ssrc == streams[i].ssrc
    ensures Find(more, ssrc).Some?
  {
    assert more[Find(streams, ssrc).value].ssrc == ssrc;
  }

  lemma FaithfulAppend(s: Session, uses: seq<Use>, stream: Stream, template: Option<Stream>)
    requires Faithful(s, uses) && Find(s.streams, stream.ssrc).None? && RW.Represents(stream.window, {})
    ensures Faithful(Session(s.streams + [stream], template), uses)
  {
    hide RW.Represents, Find;
    var r := s.streams + [stream];
    assert UsedBy(uses, stream.ssrc) == {} by {
      forall u | u in uses && u.0 == stream.ssrc ensures false {}
    }
    forall u | u in uses ensures Find(r, u.0).Some? {
      FoundAfter(s.streams, r, u.0);
    }
  }

  lemma FaithfulUpdate(s: Session, uses: seq<Use>, i: nat, stream: Stream)
    requires Faithful(s, uses) && i < |s.streams| && stream.ssrc == s.streams[i].ssrc && stream.window == s.streams[i].window
    ensures Faithful(s.(streams := s.streams[i := stream]), uses)
  {
    hide RW.Represents, Find;
    forall u | u in uses ensures Find(s.streams[i := stream], u.0).Some? {
      FoundAfter(s.streams, s.streams[i := stream], u.0);
    }
  }

  lemma FaithfulUse(s: Session, uses: seq<Use>, i: nat, stream: Stream, index: nat)
    requires Valid(s) && Faithful(s, uses) && i < |s.streams| && stream.ssrc == s.streams[i].ssrc
    requires index !in UsedBy(uses, stream.ssrc)
    requires RW.Represents(stream.window, UsedBy(uses, stream.ssrc) + {index})
    ensures Faithful(s.(streams := s.streams[i := stream]), uses + [(stream.ssrc, index)])
  {
    hide RW.Represents, Find, ValidStream;
    var r, more := s.streams[i := stream], uses + [(stream.ssrc, index)];
    forall j | 0 <= j < |r| ensures RW.Represents(r[j].window, UsedBy(more, r[j].ssrc)) {
      if j == i {
        assert UsedBy(more, stream.ssrc) == UsedBy(uses, stream.ssrc) + {index};
      } else {
        assert r[j].ssrc != stream.ssrc;
        assert UsedBy(more, r[j].ssrc) == UsedBy(uses, r[j].ssrc);
      }
    }
    forall u | u in more ensures Find(r, u.0).Some? {
      if u in uses {
        FoundAfter(s.streams, r, u.0);
      } else {
        assert r[i].ssrc == u.0;
        NotMissing(r, i);
      }
    }
    assert (stream.ssrc, index) !in uses;
  }

  lemma NotMissing(streams: seq<Stream>, i: nat)
    requires i < |streams|
    ensures Find(streams, streams[i].ssrc).Some?
  {}

  // ---------- the calls that use an index ----------

  lemma FreshRepresents(length: nat)
    requires RW.LegalLength(length)
    ensures RW.Represents(RW.Fresh(length), {})
  {}

  lemma SenderFaithful(s: Session, uses: seq<Use>, ssrc: Ssrc, direction: Direction)
    requires Valid(s) && Faithful(s, uses) && WithSender(s, ssrc, direction).Some?
    ensures Faithful(WithSender(s, ssrc, direction).value, uses)
  {
    hide Faithful, RW.Represents;
    if Find(s.streams, ssrc).None? {
      var clone := Clone(s.template.value, ssrc).(direction := direction);
      FreshRepresents(|clone.window.bits|);
      FaithfulAppend(s, uses, clone, s.template);
    }
  }

  // Admission at stream i, seen from the session.
  lemma AdmitFaithful(s: Session, uses: seq<Use>, i: nat, number: nat, stream: Stream)
    requires Valid(s) && Faithful(s, uses) && i < |s.streams| && number < RW.SEQ_MAX
    requires s.streams[i].window.index < RW.INDEX_LIMIT && stream.ssrc == s.streams[i].ssrc
    requires var a := RW.Admit(s.streams[i].window, s.streams[i].pendingRoc, number, false);
             a.status == Ok && stream.window == a.window && a.window.index < RW.INDEX_LIMIT
    ensures var a := RW.Admit(s.streams[i].window, s.streams[i].pendingRoc, number, false);
            Faithful(s.(streams := s.streams[i := stream]), uses + [(stream.ssrc, a.est)])
  {
    hide RW.Admit, RW.Represents;
    var w, roc := s.streams[i].window, s.streams[i].pendingRoc;
    assert ValidStream(s.streams[i]);
    assert RW.Represents(w, UsedBy(uses, stream.ssrc));
    RW.AdmitRepresents(w, UsedBy(uses, stream.ssrc), roc, number);
    FaithfulUse(s, uses, i, stream, RW.Admit(w, roc, number, false).est);
  }

  lemma TakeIndexFaithful(s: Session, uses: seq<Use>, pkt: seq<bv8>, room: nat, mkiIndex: nat, expired: bool)
    requires Valid(s) && Faithful(s, uses) && NoRepeats(s) && Bounded(s)
    requires Bounded(TakeIndex(s, pkt, room, mkiIndex, expired).session)
    ensures var t := TakeIndex(s, pkt, room, mkiIndex, expired);
            Faithful(t.session, uses + if t.status == Ok then [(RtpSsrc(pkt), t.index)] else [])
  {
    hide Faithful, RW.Admit, ProtectChecks, Valid;
    var t := TakeIndex(s, pkt, room, mkiIndex, expired);
    if ValidateHeader(pkt) == Ok && WithSender(s, RtpSsrc(pkt), Sender).Some? {
      var found := WithSender(s, RtpSsrc(pkt), Sender).value;
      SenderValid(s, RtpSsrc(pkt), Sender);
      SenderFaithful(s, uses, RtpSsrc(pkt), Sender);
      var i := Find(found.streams, RtpSsrc(pkt)).value;
      if t.status == Ok {
        assert !found.streams[i].policy.allowRepeat;
        assert found.streams[i].window.index < RW.INDEX_LIMIT;
        AdmitFaithful(found, uses, i, SequenceNumber(pkt), t.session.streams[i]);
      } else {
        FaithfulUpdate(found, uses, i, t.session.streams[i]);
      }
    }
    assert uses + [] == uses;
  }

  /** Receiving estimates, checks, authenticates and only then records; what it records is what an
      admission on the spot would have recorded. */
  lemma RecordedIsAdmission(stream: Stream, number: nat)
    requires stream.window.bits != []
    ensures var (status, est, delta) := RW.Place(stream.window, stream.pendingRoc, number);
            var a := RW.Admit(stream.window, stream.pendingRoc, number, false);
            && (a.status == Ok <==> status == Ok || status == PktIdxAdv)
            && (a.status == Ok ==> a.est == est)
            && (a.status == Ok ==>
                Recorded(stream, status, est, delta) == stream.(window := a.window, pendingRoc := a.pendingRoc))
  {
    hide RW.PacketIndex, RW.Add, RW.SetRocSeq;
  }

  /** A provisional stream needs no replay check: a fresh window places every packet at its sequence
      number, and accepts it. */
  lemma FreshPlace(length: nat, number: nat)
    requires 0 < length && number < RW.SEQ_MAX
    ensures RW.Place(RW.Fresh(length), 0, number) == (Ok, number, number)
  {}

  lemma ReceivedFaithful(s: Session, uses: seq<Use>, pkt: seq<bv8>, status: Status, est: nat, delta: int)
    requires Valid(s) && Faithful(s, uses) && Bounded(s)
    requires ValidateHeader(pkt) == Ok && (Find(s.streams, RtpSsrc(pkt)).Some? || s.template.Some?)
    requires (status, est, delta) == PlaceReceived(s, pkt) && (status == Ok || status == PktIdxAdv)
    requires Bounded(Received(s, pkt, status, est, delta))
    ensures Faithful(Received(s, pkt, status, est, delta), uses + [(RtpSsrc(pkt), est)])
  {
    hide Faithful, RW.Admit, RW.Place, Recorded;
    var number, r := SequenceNumber(pkt), Received(s, pkt, status, est, delta);
    match Find(s.streams, RtpSsrc(pkt))
    case Some(i) =>
      var stream := s.streams[i].(direction := Claimed(s.streams[i].direction, Receiver));
      RecordedIsAdmission(stream, number);
      assert r.streams[i].window.index < RW.INDEX_LIMIT;
      AdmitFaithful(s, uses, i, number, r.streams[i]);
    case None =>
      var template := s.template.value.(direction := Claimed(s.template.value.direction, Receiver));
      var clone := Clone(template, RtpSsrc(pkt));
      var i, grown := |s.streams|, Session(s.streams + [clone], Some(template));
      FreshRepresents(|clone.window.bits|);
      FaithfulAppend(s, uses, clone, Some(template));
      FreshPlace(|clone.window.bits|, number);
      RecordedIsAdmission(clone, number);
      assert ValidStream(clone);
      AppendValid(s.(template := Some(template)), clone);
      assert r.streams[i].window.index < RW.INDEX_LIMIT;
      AdmitFaithful(grown, uses, i, number, r.streams[i]);
      assert grown.streams[i := r.streams[i]] == r.streams;
  }

  lemma ReceivedRtcpFaithful(s: Session, uses: seq<Use>, ssrc: Ssrc, index: nat)
    requires Valid(s) && Faithful(s, uses) && (Find(s.streams, ssrc).Some? || s.template.Some?)
    ensures Faithful(ReceivedRtcp(s, ssrc, index), uses)
  {
    hide Faithful, RC.Add;
    var r := ReceivedRtcp(s, ssrc, index);
    match Find(s.streams, ssrc)
    case Some(i) =>
      FaithfulUpdate(s, uses, i, r.streams[i]);
    case None =>
      FreshRepresents(|s.template.value.window.bits|);
      FaithfulAppend(s, uses, r.streams[|s.streams|], r.template);
  }

  lemma TakeRtcpIndexFaithful(s: Session, uses: seq<Use>, pkt: seq<bv8>, room: nat, mkiIndex: nat)
    requires Valid(s) && Faithful(s, uses)
    ensures Faithful(TakeRtcpIndex(s, pkt, room, mkiIndex).session, uses)
  {
    hide Faithful, ProtectRtcpChecks, Valid;
    var direction := if s.template.Some? then s.template.value.direction else Unknown;
    if |pkt| >= RTCP_HEADER && WithSender(s, RtcpSsrc(pkt), direction).Some? {
      var found := WithSender(s, RtcpSsrc(pkt), direction).value;
      SenderFaithful(s, uses, RtcpSsrc(pkt), direction);
      var i := Find(found.streams, RtcpSsrc(pkt)).value;
      FaithfulUpdate(found, uses, i, TakeRtcpIndex(s, pkt, room, mkiIndex).session.streams[i]);
    }
  }

  lemma CallFaithful(s: Session, uses: seq<Use>, c: Call)
    requires Valid(s) && Legal(c) && Faithful(s, uses) && NoRepeats(s) && Bounded(s) && Bounded(Made(s, c).session)
    ensures Faithful(Made(s, c).session, uses + RtpUse(s, c))
  {
    hide Faithful, Valid, TakeIndex, TakeRtcpIndex, Received, ReceivedRtcp, PlaceReceived, KeyForPacket, Open, OpenRtcpIcm, OpenRtcpAead,
         Seal, SealRtcp, Bounded, NoRepeats;
    assert uses + [] == uses;
    match c {
      case CallProtect(pkt, dst, mkiIndex, expired) =>
        TakeIndexFaithful(s, uses, pkt, |dst|, mkiIndex, expired);
      case CallUnprotect(pkt, room, expired) =>
        if Unprotect(s, pkt, room, expired).status == Ok {
          var (status, est, delta) := PlaceReceived(s, pkt);
          ReceivedFaithful(s, uses, pkt, status, est, delta);
        }
      case CallSetRoc(ssrc, roc) =>
        if Find(s.streams, ssrc).Some? {
          var i := Find(s.streams, ssrc).value;
          FaithfulUpdate(s, uses, i, s.streams[i].(pendingRoc := roc));
        }
      case CallProtectRtcp(pkt, room, mkiIndex) =>
        TakeRtcpIndexFaithful(s, uses, pkt, room, mkiIndex);
      case CallUnprotectRtcp(pkt, room) =>
        if Made(s, c).status == Ok {
          var l := LocateRtcp(s, pkt);
          ReceivedRtcpFaithful(s, uses, RtcpSsrc(pkt), RtcpIndex(l.policy, l.policy.keys[l.key], pkt));
        }
    }
  }

  // ---------- growth ----------

  // Streams stay where they are with their keys, and their counters never run backwards.
  ghost predicate Grown(s: Session, r: Session) {
    && |s.streams| <= |r.streams|
    && (forall i :: 0 <= i < |s.streams| ==> Older(s.streams[i], r.streams[i]))
    && s.template.Some? == r.template.Some? && (s.template.Some? ==> r.template.value.policy == s.template.value.policy)
    && (forall i :: |s.streams| <= i < |r.streams| ==> Cloned(s.template, r.streams[i]))
  }

  ghost predicate Cloned(template: Option<Stream>, r: Stream) {
    template.Some? && r.policy == template.value.policy
  }

  ghost predicate Older(s: Stream, r: Stream) {
    r.ssrc == s.ssrc && r.policy == s.policy && s.window.index <= r.window.index && s.rtcp.start <= r.rtcp.start
  }

  lemma GrownUpdate(s: Session, i: nat, stream: Stream)
    requires i < |s.streams| && Older(s.streams[i], stream)
    ensures Grown(s, s.(streams := s.streams[i := stream]))
  {}

  lemma GrownTwice(s: Session, m: Session, r: Session)
    requires Grown(s, m) && Grown(m, r)
    ensures Grown(s, r)
  {
    forall i | 0 <= i < |s.streams| ensures Older(s.streams[i], r.streams[i]) {
      assert Older(s.streams[i], m.streams[i]) && Older(m.streams[i], r.streams[i]);
    }
    forall i | |s.streams| <= i < |r.streams| ensures Cloned(s.template, r.streams[i]) {
      if i < |m.streams| {
        assert Older(m.streams[i], r.streams[i]) && Cloned(s.template, m.streams[i]);
      } else {
        assert Cloned(m.template, r.streams[i]);
      }
    }
  }

  lemma SenderGrown(s: Session, ssrc: Ssrc, direction: Direction)
    requires WithSender(s, ssrc, direction).Some?
    ensures Grown(s, WithSender(s, ssrc, direction).value)
  {}

  lemma TakeIndexGrown(s: Session, pkt: seq<bv8>, room: nat, mkiIndex: nat, expired: bool)
    requires Valid(s)
    ensures Grown(s, TakeIndex(s, pkt, room, mkiIndex, expired).session)
  {
    hide Valid, Grown, ProtectChecks, RW.Place;
    var r := TakeIndex(s, pkt, room, mkiIndex, expired).session;
    if ValidateHeader(pkt) == Ok && WithSender(s, RtpSsrc(pkt), Sender).Some? {
      var found := WithSender(s, RtpSsrc(pkt), Sender).value;
      SenderValid(s, RtpSsrc(pkt), Sender);
      SenderGrown(s, RtpSsrc(pkt), Sender);
      var i := Find(found.streams, RtpSsrc(pkt)).value;
      StreamsValid(found, i);
      AdmitForward(found.streams[i], SequenceNumber(pkt), found.streams[i].policy.allowRepeat);
      GrownUpdate(found, i, r.streams[i]);
      GrownTwice(s, found, r);
    } else {
      GrownReflexive(s);
    }
  }

  lemma GrownReflexive(s: Session)
    ensures Grown(s, s)
  {}

  lemma AdmitForward(stream: Stream, number: nat, allowRepeat: bool)
    requires stream.window.bits != []
    ensures stream.window.index <= RW.Admit(stream.window, stream.pendingRoc, number, allowRepeat).window.index
  {}

  lemma RecordedForward(stream: Stream, number: nat)
    requires stream.window.bits != []
    ensures var (status, est, delta) := RW.Place(stream.window, stream.pendingRoc, number);
            stream.window.index <= Recorded(stream, status, est, delta).window.index
  {}

  lemma ReceivedGrown(s: Session, pkt: seq<bv8>, status: Status, est: nat, delta: int)
    requires Valid(s) && ValidateHeader(pkt) == Ok && (Find(s.streams, RtpSsrc(pkt)).Some? || s.template.Some?)
    requires (status, est, delta) == PlaceReceived(s, pkt)
    ensures Grown(s, Received(s, pkt, status, est, delta))
  {
    if Find(s.streams, RtpSsrc(pkt)).Some? {
      hide RW.Place, Grown;
      var i := Find(s.streams, RtpSsrc(pkt)).value;
      RecordedForward(s.streams[i], SequenceNumber(pkt));
      GrownUpdate(s, i, Received(s, pkt, status, est, delta).streams[i]);
    }
  }

  lemma ReceivedRtcpGrown(s: Session, ssrc: Ssrc, index: nat)
    requires Valid(s) && (Find(s.streams, ssrc).Some? || s.template.Some?)
    ensures Grown(s, ReceivedRtcp(s, ssrc, index))
  {
    if Find(s.streams, ssrc).Some? {
      var i := Find(s.streams, ssrc).value;
      GrownUpdate(s, i, ReceivedRtcp(s, ssrc, index).streams[i]);
    }
  }

  lemma TakeRtcpIndexGrown(s: Session, pkt: seq<bv8>, room: nat, mkiIndex: nat)
    requires Valid(s)
    ensures Grown(s, TakeRtcpIndex(s, pkt, room, mkiIndex).session)
  {
    hide Valid, Grown, ProtectRtcpChecks;
    var direction := if s.template.Some? then s.template.value.direction else Unknown;
    var r := TakeRtcpIndex(s, pkt, room, mkiIndex).session;
    if |pkt| >= RTCP_HEADER && WithSender(s, RtcpSsrc(pkt), direction).Some? {
      var found := WithSender(s, RtcpSsrc(pkt), direction).value;
      SenderGrown(s, RtcpSsrc(pkt), direction);
      var i := Find(found.streams, RtcpSsrc(pkt)).value;
      GrownUpdate(found, i, r.streams[i]);
      GrownTwice(s, found, r);
    } else {
      GrownReflexive(s);
    }
  }

  lemma CallGrows(s: Session, c: Call)
    requires Valid(s) && Legal(c)
    ensures Grown(s, Made(s, c).session)
  {
    hide Grown, Valid, TakeIndex, TakeRtcpIndex, Received, ReceivedRtcp, PlaceReceived, KeyForPacket, Open, OpenRtcpIcm, OpenRtcpAead,
         Seal, SealRtcp;
    GrownReflexive(s);
    match c {
      case CallProtect(pkt, dst, mkiIndex, expired) =>
        TakeIndexGrown(s, pkt, |dst|, mkiIndex, expired);
      case CallUnprotect(pkt, room, expired) =>
        if Unprotect(s, pkt, room, expired).status == Ok {
          var (status, est, delta) := PlaceReceived(s, pkt);
          ReceivedGrown(s, pkt, status, est, delta);
        }
      case CallSetRoc(ssrc, roc) =>
        if Find(s.streams, ssrc).Some? {
          var i := Find(s.streams, ssrc).value;
          GrownUpdate(s, i, s.streams[i].(pendingRoc := roc));
        }
      case CallProtectRtcp(pkt, room, mkiIndex) =>
        TakeRtcpIndexGrown(s, pkt, room, mkiIndex);
      case CallUnprotectRtcp(pkt, room) =>
        if Made(s, c).status == Ok {
          var l := LocateRtcp(s, pkt);
          ReceivedRtcpGrown(s, RtcpSsrc(pkt), RtcpIndex(l.policy, l.policy.keys[l.key], pkt));
        }
    }
  }

  lemma GrownKeeps(s: Session, r: Session)
    requires Grown(s, r)
    ensures Bounded(r) ==> Bounded(s)
    ensures NoRepeats(s) ==> NoRepeats(r)
  {
    forall i | 0 <= i < |s.streams| ensures Older(s.streams[i], r.streams[i]) {}
    forall i | 0 <= i < |r.streams| && NoRepeats(s) ensures !r.streams[i].policy.allowRepeat {
      if i < |s.streams| {
        assert Older(s.streams[i], r.streams[i]);
      } else {
        assert Cloned(s.template, r.streams[i]);
      }
    }
  }

  // ---------- runs ----------

  /** Safety of whole runs: from a session whose windows are empty, under policies that forbid repeated
      transmission, after any calls on any streams, every replay window represents exactly the indices
      used under its SSRC and no (SSRC, index) pair was used twice, as long as no index left 48 bits. */
  lemma {:induction false} NoIndexTwice(s: Session, calls: seq<Call>)
    requires Valid(s) && AllLegal(calls) && Faithful(s, []) && NoRepeats(s) && Bounded(Run(s, calls).session)
    ensures var h := Run(s, calls); Faithful(h.session, h.uses) && Distinct(h.uses) && NoRepeats(h.session)
    decreases |calls|
  {
    hide Valid, Faithful, NoRepeats, Bounded, Grown, Made, RtpUse;
    var h := Run(s, calls);
    if calls != [] {
      var before, c := Run(s, calls[..|calls| - 1]), calls[|calls| - 1];
      assert Legal(c);
      CallGrows(before.session, c);
      GrownKeeps(before.session, h.session);
      NoIndexTwice(s, calls[..|calls| - 1]);
      CallFaithful(before.session, before.uses, c);
    }
    FaithfulDistinct(h.session, h.uses);
  }

  lemma FaithfulDistinct(s: Session, uses: seq<Use>)
    requires Faithful(s, uses)
    ensures Distinct(uses)
  {}

  // ---------- SRTCP indices ----------

  // A sender's counter is at least every index it has given out.
  ghost predicate Counted(s: Session, uses: seq<Use>) {
    && (forall u :: u in uses ==> Find(s.streams, u.0).Some?)
    && (forall u, i :: u in uses && 0 <= i < |s.streams| && s.streams[i].ssrc == u.0 ==> u.1 <= s.streams[i].rtcp.start)
    && Distinct(uses)
  }

  lemma CountedGrown(s: Session, r: Session, uses: seq<Use>)
    requires Valid(r) && Counted(s, uses) && Grown(s, r)
    ensures Counted(r, uses)
  {
    hide ValidStream;
    forall u | u in uses
      ensures Find(r.streams, u.0).Some?
      ensures forall i :: 0 <= i < |r.streams| && r.streams[i].ssrc == u.0 ==> u.1 <= r.streams[i].rtcp.start
    {
      var j := Find(s.streams, u.0).value;
      assert Older(s.streams[j], r.streams[j]);
      NotMissing(r.streams, j);
    }
  }

  // The call that takes an index moves the counter to it.
  lemma TakesNextRtcp(s: Session, pkt: seq<bv8>, room: nat, mkiIndex: nat)
    requires Valid(s) && TakeRtcpIndex(s, pkt, room, mkiIndex).status == Ok
    ensures var t := TakeRtcpIndex(s, pkt, room, mkiIndex);
            && t.session.streams[t.at].ssrc == RtcpSsrc(pkt) && t.session.streams[t.at].rtcp.start == t.index
            && 1 <= t.index <= RC.INDEX_MAX
            && (t.at < |s.streams| ==> s.streams[t.at].ssrc == RtcpSsrc(pkt) && s.streams[t.at].rtcp.start < t.index)
            && (t.at >= |s.streams| ==> Find(s.streams, RtcpSsrc(pkt)).None?)
  {
    hide Valid, ProtectRtcpChecks;
  }

  lemma RtcpCallCounted(s: Session, uses: seq<Use>, pkt: seq<bv8>, room: nat, mkiIndex: nat)
    requires Valid(s) && Counted(s, uses) && TakeRtcpIndex(s, pkt, room, mkiIndex).status == Ok
    requires Valid(TakeRtcpIndex(s, pkt, room, mkiIndex).session)
    ensures var t := TakeRtcpIndex(s, pkt, room, mkiIndex); Counted(t.session, uses + [(RtcpSsrc(pkt), t.index)])
  {
    hide TakeRtcpIndex, Grown, ValidStream, Find;
    var t, ssrc := TakeRtcpIndex(s, pkt, room, mkiIndex), RtcpSsrc(pkt);
    TakesNextRtcp(s, pkt, room, mkiIndex);
    TakeRtcpIndexGrown(s, pkt, room, mkiIndex);
    CountedGrown(s, t.session, uses);
    var u := (ssrc, t.index);
    assert u !in uses;
    NotMissing(t.session.streams, t.at);
    forall v, i | v in uses + [u] && 0 <= i < |t.session.streams| && t.session.streams[i].ssrc == v.0
      ensures v.1 <= t.session.streams[i].rtcp.start
    {
      if v == u {
        assert i == t.at;
      }
    }
  }

  /** Over any run, a sender never gives out an SRTCP index of an SSRC twice: the 31-bit counter only
      moves forward, and expires instead of wrapping. */
  lemma {:induction false} NoRtcpIndexTwice(s: Session, calls: seq<Call>)
    requires Valid(s) && AllLegal(calls)
    ensures var h := Run(s, calls); Counted(h.session, h.rtcpUses) && Distinct(h.rtcpUses)
    ensures forall u :: u in Run(s, calls).rtcpUses ==> 1 <= u.1 <= RC.INDEX_MAX
    decreases |calls|
  {
    hide Valid, Counted, Grown, TakeRtcpIndex;
    var h := Run(s, calls);
    if calls == [] {
      NothingCounted(s);
    } else {
      var before, c := Run(s, calls[..|calls| - 1]), calls[|calls| - 1];
      assert Legal(c);
      CallGrows(before.session, c);
      NoRtcpIndexTwice(s, calls[..|calls| - 1]);
      CountedGrown(before.session, h.session, before.rtcpUses);
      if c.CallProtectRtcp? && TakeRtcpIndex(before.session, c.pkt, c.room, c.mkiIndex).status == Ok {
        TakesNextRtcp(before.session, c.pkt, c.room, c.mkiIndex);
        RtcpCallCounted(before.session, before.rtcpUses, c.pkt, c.room, c.mkiIndex);
      } else {
        assert before.rtcpUses + [] == before.rtcpUses;
      }
    }
    CountedDistinct(h.session, h.rtcpUses);
  }

  lemma NothingCounted(s: Session)
    ensures Counted(s, [])
  {}

  lemma CountedDistinct(s: Session, uses: seq<Use>)
    requires Counted(s, uses)
    ensures Distinct(uses)
  {}

  // ---------- what distinct indices are for ----------

  lemma UsesBounded(s: Session, uses: seq<Use>, i: nat)
    requires Faithful(s, uses) && Bounded(s) && i < |uses|
    ensures uses[i].1 < RW.INDEX_LIMIT
  {
    hide RW.LegalLength;
    var u := uses[i];
    var j := Find(s.streams, u.0).value;
    assert u.1 in UsedBy(uses, s.streams[j].ssrc);
  }

  /** No two RTP packets of a run, of whatever streams, share a counter block or an AEAD vector, even
      under the same key: streams cloned from one template share theirs. */
  lemma NoKeystreamTwice(s: Session, calls: seq<Call>, key: IcmKey, salt: seq<bv8>, i: nat, j: nat, m: nat, n: nat)
    requires Valid(s) && AllLegal(calls) && Faithful(s, []) && NoRepeats(s) && Bounded(Run(s, calls).session)
    requires |key.salt| == 14 && |salt| == SALT && i < j < |Run(s, calls).uses| && m <= COUNTER_MAX && n <= COUNTER_MAX
    ensures var a, b := Run(s, calls).uses[i], Run(s, calls).uses[j];
            && Advanced(Origin(key, IcmIv(a.0, a.1)), m) != Advanced(Origin(key, IcmIv(b.0, b.1)), n)
            && AeadIv(salt, a.0, a.1) != AeadIv(salt, b.0, b.1)
  {
    hide Run, Faithful, Bounded, Valid, NoRepeats, Advanced, Origin, IcmIv, AeadIv;
    var h := Run(s, calls);
    NoIndexTwice(s, calls);
    var a, b := h.uses[i], h.uses[j];
    UsesBounded(h.session, h.uses, i);
    UsesBounded(h.session, h.uses, j);
    if Advanced(Origin(key, IcmIv(a.0, a.1)), m) == Advanced(Origin(key, IcmIv(b.0, b.1)), n) {
      Nonces.CounterBlocksDisjoint(key, a.0, a.1, m, b.0, b.1, n);
    }
    if AeadIv(salt, a.0, a.1) == AeadIv(salt, b.0, b.1) {
      Nonces.AeadIvInjective(salt, a.0, a.1, b.0, b.1);
    }
  }

  /** The same for the RTCP packets of a run. */
  lemma NoRtcpKeystreamTwice(s: Session, calls: seq<Call>, key: IcmKey, salt: seq<bv8>, i: nat, j: nat, m: nat, n: nat)
    requires Valid(s) && AllLegal(calls)
    requires |key.salt| == 14 && |salt| == SALT && i < j < |Run(s, calls).rtcpUses| && m <= COUNTER_MAX && n <= COUNTER_MAX
    ensures var a, b := Run(s, calls).rtcpUses[i], Run(s, calls).rtcpUses[j];
            && Advanced(Origin(key, RtcpIcmIv(a.0, a.1)), m) != Advanced(Origin(key, RtcpIcmIv(b.0, b.1)), n)
            && RtcpAeadIv(salt, a.0, a.1) != RtcpAeadIv(salt, b.0, b.1)
  {
    hide Run, Valid, Advanced, Origin, IcmIv, RtcpIcmIv, RtcpAeadIv, Counted;
    var h := Run(s, calls);
    NoRtcpIndexTwice(s, calls);
    var a, b := h.rtcpUses[i], h.rtcpUses[j];
    assert a in h.rtcpUses && b in h.rtcpUses;
    Nonces.RtcpIcmIvLayout(a.0, a.1);
    Nonces.RtcpIcmIvLayout(b.0, b.1);
    if Advanced(Origin(key, RtcpIcmIv(a.0, a.1)), m) == Advanced(Origin(key, RtcpIcmIv(b.0, b.1)), n) {
      Nonces.CounterBlocksDisjoint(key, a.0, a.1, m, b.0, b.1, n);
    }
    if RtcpAeadIv(salt, a.0, a.1) == RtcpAeadIv(salt, b.0, b.1) {
      Nonces.RtcpAeadIvInjective(salt, a.0, a.1, b.0, b.1);
    }
  }

  // ---------- the provisional stream ----------

  // The session in which the stream has been cloned beforehand.
  function Eager(s: Session, ssrc: Ssrc): (r: Session)
    requires Valid(s) && s.template.Some? && Find(s.streams, ssrc).None?
    ensures Valid(r)
  {
    var template := s.template.value.(direction := Claimed(s.template.value.direction, Receiver));
    CloneValid(template, ssrc);
    AppendValid(s.(template := Some(template)), Clone(template, ssrc));
    Session(s.streams + [Clone(template, ssrc)], Some(template))
  }

  lemma FindLast(streams: seq<Stream>, stream: Stream)
    requires Find(streams, stream.ssrc).None?
    ensures Find(streams + [stream], stream.ssrc) == Some(|streams|)
  {
    var r := Find(streams + [stream], stream.ssrc);
    assert (streams + [stream])[|streams|] == stream;
    assert r.Some?;
  }

  /** Using the template as a provisional stream is invisible: a packet of an unknown SSRC gets the
      status and the octets it would have got had its stream been cloned beforehand; on success the
      sessions are the same too, on failure no stream appears. */
  lemma ProvisionalIsEager(s: Session, pkt: seq<bv8>, room: nat, expired: bool)
    requires Valid(s) && ValidateHeader(pkt) == Ok && Find(s.streams, RtpSsrc(pkt)).None? && s.template.Some?
    ensures var o, e := Unprotect(s, pkt, room, expired), Unprotect(Eager(s, RtpSsrc(pkt)), pkt, room, expired);
            && o.status == e.status && o.octets == e.octets
            && o.session == if o.status == Ok then e.session else s
  {
    hide Valid, KeyForPacket, Open, RW.Place;
    var eager := Eager(s, RtpSsrc(pkt));
    var clone := eager.streams[|s.streams|];
    FindLast(s.streams, clone);
    assert RW.LegalLength(|s.template.value.window.bits|) by { TemplateValid(s); }
    FreshPlace(|clone.window.bits|, SequenceNumber(pkt));
    assert PlaceReceived(eager, pkt) == PlaceReceived(s, pkt);
    var r := Recorded(clone, Ok, SequenceNumber(pkt), SequenceNumber(pkt));
    assert eager.streams[|s.streams| := r] == s.streams + [r];
  }

  /** The same for RTCP: the template's window is as new as a clone's. */
  lemma ProvisionalRtcpIsEager(s: Session, pkt: seq<bv8>, room: nat)
    requires Valid(s) && |pkt| >= RTCP_HEADER + TRAILER && Find(s.streams, RtcpSsrc(pkt)).None? && s.template.Some?
    ensures var o, e := UnprotectRtcp(s, pkt, room), UnprotectRtcp(Eager(s, RtcpSsrc(pkt)), pkt, room);
            && o.status == e.status && o.octets == e.octets
            && o.session == if o.status == Ok then e.session else s
  {
    hide KeyForPacket, OpenRtcp, RtcpIndex, RC.Add, RC.Fresh, ValidStream;
    var eager := Eager(s, RtcpSsrc(pkt));
    var clone := eager.streams[|s.streams|];
    FindLast(s.streams, clone);
    var o := UnprotectRtcp(s, pkt, room);
    if o.status == Ok {
      var r := o.session.streams[|s.streams|];
      assert eager.streams[|s.streams| := r] == s.streams + [r];
    }
  }

  lemma TemplateValid(s: Session)
    requires Valid(s) && s.template.Some?
    ensures ValidStream(s.template.value)
  {}

  // ---------- received SRTCP indices ----------

  // The SRTCP indices of this SSRC that a call accepts.
  function RtcpAccepted(s: Session, c: Call, ssrc: Ssrc): seq<nat>
    requires Valid(s)
  {
    if c.CallUnprotectRtcp? && UnprotectRtcp(s, c.pkt, c.room).status == Ok && RtcpSsrc(c.pkt) == ssrc
    then [AcceptedIndex(s, c.pkt, c.room)] else []
  }

  function AcceptedIndex(s: Session, pkt: seq<bv8>, room: nat): nat
    requires Valid(s) && UnprotectRtcp(s, pkt, room).status == Ok
  {
    var l := LocateRtcp(s, pkt);
    RtcpIndex(l.policy, l.policy.keys[l.key], pkt)
  }

  function AcceptedBy(s: Session, calls: seq<Call>, ssrc: Ssrc): seq<nat>
    requires Valid(s) && AllLegal(calls)
  {
    if calls == [] then []
    else
      AcceptedBy(s, calls[..|calls| - 1], ssrc) +
      RtcpAccepted(Run(s, calls[..|calls| - 1]).session, calls[|calls| - 1], ssrc)
  }

  predicate SendsOn(c: Call, ssrc: Ssrc) {
    c.CallProtectRtcp? && |c.pkt| >= RTCP_HEADER && RtcpSsrc(c.pkt) == ssrc
  }

  // The window of this SSRC represents exactly what was accepted.
  ghost predicate Accounts(s: Session, ssrc: Ssrc, log: seq<nat>) {
    && (forall i :: 0 <= i < |s.streams| && s.streams[i].ssrc == ssrc ==> RC.Represents(s.streams[i].rtcp, RW.Elements(log)))
    && (log != [] ==> Find(s.streams, ssrc).Some?) && RW.Distinct(log)
  }

  // Every window of this SSRC is what it was, or new.
  ghost predicate RtcpKept(s: Session, r: Session, ssrc: Ssrc) {
    && |s.streams| <= |r.streams|
    && (forall i :: 0 <= i < |s.streams| ==> r.streams[i].ssrc == s.streams[i].ssrc)
    && (forall i :: 0 <= i < |s.streams| && s.streams[i].ssrc == ssrc ==> r.streams[i].rtcp == s.streams[i].rtcp)
    && (forall i :: |s.streams| <= i < |r.streams| && r.streams[i].ssrc == ssrc ==> NewWindow(s, ssrc, r.streams[i]))
  }

  ghost predicate NewWindow(s: Session, ssrc: Ssrc, r: Stream) {
    Find(s.streams, ssrc).None? && r.rtcp == RC.Fresh()
  }

  lemma KeptAccounts(s: Session, r: Session, ssrc: Ssrc, log: seq<nat>)
    requires Accounts(s, ssrc, log) && RtcpKept(s, r, ssrc)
    ensures Accounts(r, ssrc, log)
  {
    hide RC.Represents, Find;
    if log != [] {
      FoundAfter(s.streams, r.streams, ssrc);
    }
    forall i | 0 <= i < |r.streams| && r.streams[i].ssrc == ssrc ensures RC.Represents(r.streams[i].rtcp, RW.Elements(log)) {
      if i >= |s.streams| {
        assert NewWindow(s, ssrc, r.streams[i]);
        assert RW.Elements(log) == {};
        FreshRtcpRepresents();
      }
    }
  }

  lemma FreshRtcpRepresents()
    ensures RC.Represents(RC.Fresh(), {})
  {}

  lemma SenderKept(s: Session, found: Ssrc, direction: Direction, ssrc: Ssrc, i: nat, stream: Stream)
    requires WithSender(s, found, direction).Some? && i < |WithSender(s, found, direction).value.streams|
    requires var w := WithSender(s, found, direction).value;
             stream.ssrc == w.streams[i].ssrc && (stream.ssrc == ssrc ==> stream.rtcp == w.streams[i].rtcp)
    ensures var w := WithSender(s, found, direction).value; RtcpKept(s, w.(streams := w.streams[i := stream]), ssrc)
  {}

  lemma ProtectKept(s: Session, pkt: seq<bv8>, room: nat, mkiIndex: nat, expired: bool, ssrc: Ssrc)
    requires Valid(s)
    ensures RtcpKept(s, TakeIndex(s, pkt, room, mkiIndex, expired).session, ssrc)
  {
    hide Valid, RtcpKept, ProtectChecks, RW.Admit;
    KeptReflexive(s, ssrc);
    if ValidateHeader(pkt) == Ok && WithSender(s, RtpSsrc(pkt), Sender).Some? {
      SenderValid(s, RtpSsrc(pkt), Sender);
      var found := WithSender(s, RtpSsrc(pkt), Sender).value;
      var i := Find(found.streams, RtpSsrc(pkt)).value;
      SenderKept(s, RtpSsrc(pkt), Sender, ssrc, i, TakeIndex(s, pkt, room, mkiIndex, expired).session.streams[i]);
    }
  }

  lemma ProtectRtcpKept(s: Session, pkt: seq<bv8>, room: nat, mkiIndex: nat, ssrc: Ssrc)
    requires Valid(s) && (|pkt| >= RTCP_HEADER ==> RtcpSsrc(pkt) != ssrc)
    ensures RtcpKept(s, TakeRtcpIndex(s, pkt, room, mkiIndex).session, ssrc)
  {
    hide Valid, RtcpKept, ProtectRtcpChecks;
    KeptReflexive(s, ssrc);
    var direction := if s.template.Some? then s.template.value.direction else Unknown;
    if |pkt| >= RTCP_HEADER && WithSender(s, RtcpSsrc(pkt), direction).Some? {
      SenderValid(s, RtcpSsrc(pkt), direction);
      var found := WithSender(s, RtcpSsrc(pkt), direction).value;
      var i := Find(found.streams, RtcpSsrc(pkt)).value;
      SenderKept(s, RtcpSsrc(pkt), direction, ssrc, i, TakeRtcpIndex(s, pkt, room, mkiIndex).session.streams[i]);
    }
  }

  // All calls but two leave every SRTCP window alone.
  lemma OtherCallKeeps(s: Session, c: Call, ssrc: Ssrc)
    requires Valid(s) && Legal(c) && !SendsOn(c, ssrc) && !c.CallUnprotectRtcp?
    ensures RtcpKept(s, Made(s, c).session, ssrc)
  {
    hide Valid, RtcpKept, TakeIndex, TakeRtcpIndex, KeyForIndex, Open, Seal, SealRtcp, Locate, SetRoc;
    KeptReflexive(s, ssrc);
    match c {
      case CallProtect(pkt, dst, mkiIndex, expired) =>
        ProtectKept(s, pkt, |dst|, mkiIndex, expired, ssrc);
      case CallUnprotect(pkt, room, expired) =>
        if Unprotect(s, pkt, room, expired).status == Ok {
          ReceivedKept(s, pkt, ssrc);
        }
      case CallSetRoc(at, roc) =>
        RocKept(s, at, roc, ssrc);
      case CallProtectRtcp(pkt, room, mkiIndex) =>
        ProtectRtcpKept(s, pkt, room, mkiIndex, ssrc);
    }
  }

  lemma KeptReflexive(s: Session, ssrc: Ssrc)
    ensures RtcpKept(s, s, ssrc)
  {}

  lemma RocKept(s: Session, at: Ssrc, roc: nat, ssrc: Ssrc)
    ensures RtcpKept(s, SetRoc(s, at, roc).session, ssrc)
  {}

  lemma ReceivedKept(s: Session, pkt: seq<bv8>, ssrc: Ssrc)
    requires Valid(s) && Locate(s, pkt).Somewhere?
    ensures var l := Locate(s, pkt); RtcpKept(s, Received(s, pkt, l.status, l.est, l.delta), ssrc)
  {
    hide RW.Place, RW.Add, RW.SetRocSeq, Lawful;
  }

  // Receiving: the index was not accepted before, and now it is.
  lemma ReceivedAccounts(s: Session, pkt: seq<bv8>, room: nat, ssrc: Ssrc, log: seq<nat>)
    requires Valid(s) && Accounts(s, ssrc, log) && UnprotectRtcp(s, pkt, room).status == Ok
    ensures Accounts(UnprotectRtcp(s, pkt, room).session, ssrc, log + RtcpAccepted(s, CallUnprotectRtcp(pkt, room), ssrc))
  {
    hide KeyForPacket, OpenRtcpIcm, OpenRtcpAead, RtcpIndex, Lawful, RC.Represents, RC.Add, RC.Check;
    var found, index := Find(s.streams, RtcpSsrc(pkt)), AcceptedIndex(s, pkt, room);
    var r := UnprotectRtcp(s, pkt, room).session;
    assert r == ReceivedRtcp(s, RtcpSsrc(pkt), index);
    if RtcpSsrc(pkt) != ssrc {
      ReceivedElsewhere(s, RtcpSsrc(pkt), index, ssrc);
      KeptAccounts(s, r, ssrc, log);
      assert log + [] == log;
    } else {
      CheckedRtcp(s, pkt, room);
      RecordedRtcp(s, ssrc, index, log);
    }
  }

  lemma ReceivedElsewhere(s: Session, at: Ssrc, index: nat, ssrc: Ssrc)
    requires Valid(s) && (Find(s.streams, at).Some? || s.template.Some?) && at != ssrc
    ensures RtcpKept(s, ReceivedRtcp(s, at, index), ssrc)
  {
    hide RC.Add;
  }

  // What was accepted had passed the check of the stream's own window.
  lemma CheckedRtcp(s: Session, pkt: seq<bv8>, room: nat)
    requires Valid(s) && UnprotectRtcp(s, pkt, room).status == Ok
    ensures var found := Find(s.streams, RtcpSsrc(pkt));
            found.Some? ==> RC.Check(s.streams[found.value].rtcp, AcceptedIndex(s, pkt, room)) == Ok
  {
    hide KeyForPacket, OpenRtcpIcm, OpenRtcpAead, TrailerWord, Lawful, RC.Check;
  }

  lemma RecordedRtcp(s: Session, ssrc: Ssrc, index: nat, log: seq<nat>)
    requires Valid(s) && Accounts(s, ssrc, log) && (Find(s.streams, ssrc).Some? || s.template.Some?)
    requires var found := Find(s.streams, ssrc); found.Some? ==> RC.Check(s.streams[found.value].rtcp, index) == Ok
    ensures Accounts(ReceivedRtcp(s, ssrc, index), ssrc, log + [index])
  {
    hide RC.Represents, RC.Add, RC.Check, ValidStream;
    var r, found := ReceivedRtcp(s, ssrc, index), Find(s.streams, ssrc);
    assert RW.Elements(log + [index]) == RW.Elements(log) + {index};
    var i := if found.Some? then found.value else |s.streams|;
    if found.Some? {
      RC.CheckIsExact(s.streams[i].rtcp, RW.Elements(log), index);
      RC.AddRepresents(s.streams[i].rtcp, RW.Elements(log), index);
    } else {
      assert RW.Elements(log) == {};
      FreshRtcpRepresents();
      RC.AddRepresents(RC.Fresh(), {}, index);
    }
    assert r.streams[i].ssrc == ssrc && RC.Represents(r.streams[i].rtcp, RW.Elements(log + [index]));
    NotMissing(r.streams, i);
  }

  /** Over any run that does not also send RTCP under the SSRC, no SRTCP index of it is accepted twice: the
      window represents exactly what was accepted.  A stream that sends as well loses this, as
      RtcpReplay.AcceptedAgain shows. */
  lemma {:induction false} NoRtcpAcceptedTwice(s: Session, calls: seq<Call>, ssrc: Ssrc)
    requires Valid(s) && AllLegal(calls) && Accounts(s, ssrc, [])
    requires forall i :: 0 <= i < |calls| ==> !SendsOn(calls[i], ssrc)
    ensures Accounts(Run(s, calls).session, ssrc, AcceptedBy(s, calls, ssrc)) && RW.Distinct(AcceptedBy(s, calls, ssrc))
    decreases |calls|
  {
    hide Valid, Accounts, Made, RtcpKept, UnprotectRtcp;
    if calls != [] {
      var before, c := Run(s, calls[..|calls| - 1]).session, calls[|calls| - 1];
      var log := AcceptedBy(s, calls[..|calls| - 1], ssrc);
      assert Legal(c) && !SendsOn(c, ssrc);
      NoRtcpAcceptedTwice(s, calls[..|calls| - 1], ssrc);
      AnyCallAccounts(before, c, ssrc, log);
    }
    AccountsDistinct(Run(s, calls).session, ssrc, AcceptedBy(s, calls, ssrc));
  }

  lemma AnyCallAccounts(s: Session, c: Call, ssrc: Ssrc, log: seq<nat>)
    requires Valid(s) && Legal(c) && !SendsOn(c, ssrc) && Accounts(s, ssrc, log)
    ensures Accounts(Made(s, c).session, ssrc, log + RtcpAccepted(s, c, ssrc))
  {
    hide Valid, Accounts, RtcpKept, UnprotectRtcp, Protect, ProtectRtcp, Unprotect;
    assert log + [] == log;
    if !c.CallUnprotectRtcp? {
      OtherCallKeeps(s, c, ssrc);
      KeptAccounts(s, Made(s, c).session, ssrc, log);
    } else if UnprotectRtcp(s, c.pkt, c.room).status == Ok {
      ReceivedAccounts(s, c.pkt, c.room, ssrc, log);
    } else {
      RefusedRtcp(s, c.pkt, c.room);
    }
  }

  lemma RefusedRtcp(s: Session, pkt: seq<bv8>, room: nat)
    requires Valid(s) && UnprotectRtcp(s, pkt, room).status != Ok
    ensures UnprotectRtcp(s, pkt, room).session == s
  {
    hide KeyForPacket, OpenRtcp, RtcpIndex;
  }

  lemma AccountsDistinct(s: Session, ssrc: Ssrc, log: seq<nat>)
    requires Accounts(s, ssrc, log)
    ensures RW.Distinct(log)
  {}
}
