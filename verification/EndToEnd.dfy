/**
 A sender and a receiver with a network between them that loses, duplicates and reorders packets and
 slips in foreign ones: the receiver delivers the packets that went in, each at most once.
 */
module EndToEnd {
  import opened Errors
  import opened Packets
  import opened Transforms
  import opened Sessions
  import opened SessionRuns
  import RW = ReplayWindow
  import RoundTrips
  import OnTheWire

  // ---------- the sender ----------

  // A packet, what it became, and how.
  datatype Sent = Sent(pkt: seq<bv8>, octets: seq<bv8>, index: nat, key: nat, leftover: seq<bv8>)

  ghost predicate Genuine(p: Policy, ssrc: Ssrc, m: Sent) {
    && ValidateHeader(m.pkt) == Ok && RtpSsrc(m.pkt) == ssrc
    && m.index < RW.INDEX_LIMIT && m.index % RW.SEQ_MAX == SequenceNumber(m.pkt)
    && m.key < |p.keys| && (p.useMki || m.key == 0)
    && |m.leftover| == p.keys[m.key].auth.tagLen
    && Lawful(p) && Seal(p, p.keys[m.key], m.pkt, m.index, m.leftover) == Good(m.octets)
  }

  // What a call sent under this SSRC.
  function SentNow(s: Session, c: Call, ssrc: Ssrc): seq<Sent>
    requires Valid(s)
  {
    if !c.CallProtect? || Protect(s, c.pkt, c.dst, c.mkiIndex, c.expired).status != Ok || RtpSsrc(c.pkt) != ssrc then []
    else
      TurnValid(s, c.pkt, |c.dst|, c.mkiIndex, c.expired);
      var t := TakeIndex(s, c.pkt, |c.dst|, c.mkiIndex, c.expired);
      var p := t.session.streams[t.at].policy;
      var key := KeyForIndex(p, c.mkiIndex).value;
      [Sent(c.pkt, Protect(s, c.pkt, c.dst, c.mkiIndex, c.expired).octets, t.index, key, Leftover(p, p.keys[key], c.pkt, c.dst))]
  }

  // Everything a run sent under this SSRC.
  function SentBy(s: Session, calls: seq<Call>, ssrc: Ssrc): seq<Sent>
    requires Valid(s) && AllLegal(calls)
  {
    if calls == [] then []
    else SentBy(s, calls[..|calls| - 1], ssrc) + SentNow(Run(s, calls[..|calls| - 1]).session, calls[|calls| - 1], ssrc)
  }

  // The stream of this SSRC has, or would get, this policy.
  ghost predicate Governs(s: Session, ssrc: Ssrc, p: Policy) {
    match Find(s.streams, ssrc)
    case Some(i) => s.streams[i].policy == p
    case None => s.template.Some? ==> s.template.value.policy == p
  }

  lemma GovernsGrown(s: Session, r: Session, ssrc: Ssrc, p: Policy)
    requires Governs(s, ssrc, p) && Grown(s, r)
    ensures Governs(r, ssrc, p)
  {
    hide Find;
    match Find(r.streams, ssrc) {
      case Some(i) =>
        if i < |s.streams| {
          assert Older(s.streams[i], r.streams[i]);
        } else {
          assert Cloned(s.template, r.streams[i]);
          assert forall j :: 0 <= j < |s.streams| ==> Older(s.streams[j], r.streams[j]);
        }
        assert forall j :: 0 <= j < i && j < |s.streams| ==> Older(s.streams[j], r.streams[j]);
      case None =>
        assert forall j :: 0 <= j < |s.streams| ==> Older(s.streams[j], r.streams[j]);
    }
  }

  // The index a sender takes carries the packet's sequence number.
  lemma TakenIndex(s: Session, pkt: seq<bv8>, room: nat, mkiIndex: nat, expired: bool)
    requires Valid(s) && Bounded(s) && TakeIndex(s, pkt, room, mkiIndex, expired).status == Ok
    ensures var t := TakeIndex(s, pkt, room, mkiIndex, expired);
            && t.session.streams[t.at].ssrc == RtpSsrc(pkt)
            && t.index < RW.INDEX_LIMIT && t.index % RW.SEQ_MAX == SequenceNumber(pkt)
  {
    hide Valid, ProtectChecks, RW.PacketIndex;
    var found := WithSender(s, RtpSsrc(pkt), Sender).value;
    SenderValid(s, RtpSsrc(pkt), Sender);
    var i := Find(found.streams, RtpSsrc(pkt)).value;
    StreamsValid(found, i);
    assert found.streams[i].window.index < RW.INDEX_LIMIT;
    RW.PacketIndexIs(found.streams[i].window.index, found.streams[i].pendingRoc, SequenceNumber(pkt));
  }

  lemma SentNowGenuine(s: Session, c: Call, ssrc: Ssrc, p: Policy)
    requires Valid(s) && Bounded(s) && Governs(s, ssrc, p)
    ensures forall m :: m in SentNow(s, c, ssrc) ==> Genuine(p, ssrc, m)
  {
    hide Valid, Bounded, Governs, Grown, TakeIndex, Lawful;
    if SentNow(s, c, ssrc) != [] {
      var t := TakeIndex(s, c.pkt, |c.dst|, c.mkiIndex, c.expired);
      TurnValid(s, c.pkt, |c.dst|, c.mkiIndex, c.expired);
      TakenIndex(s, c.pkt, |c.dst|, c.mkiIndex, c.expired);
      TakeIndexGrown(s, c.pkt, |c.dst|, c.mkiIndex, c.expired);
      GovernsGrown(s, t.session, ssrc, p);
      assert t.session.streams[t.at].policy == p by { Governed(t.session, t.at, ssrc, p); }
      assert Lawful(p) by { StreamsValid(t.session, t.at); }
    }
  }

  lemma Governed(s: Session, i: nat, ssrc: Ssrc, p: Policy)
    requires Valid(s) && Governs(s, ssrc, p) && i < |s.streams| && s.streams[i].ssrc == ssrc
    ensures s.streams[i].policy == p
  {
    hide ValidStream;
    OnlyOne(s, i);
  }

  /** All that a run sends is genuine: sealed under the stream's keys at an index that carries its
      sequence number. */
  lemma {:induction false} SentIsGenuine(s: Session, calls: seq<Call>, ssrc: Ssrc, p: Policy)
    requires Valid(s) && AllLegal(calls) && Governs(s, ssrc, p) && Bounded(Run(s, calls).session)
    ensures forall m :: m in SentBy(s, calls, ssrc) ==> Genuine(p, ssrc, m)
    ensures Governs(Run(s, calls).session, ssrc, p)
    decreases |calls|
  {
    hide Valid, Bounded, Governs, Grown, Genuine, SentNow, Made;
    if calls != [] {
      var before, c := Run(s, calls[..|calls| - 1]), calls[|calls| - 1];
      assert Legal(c);
      CallGrows(before.session, c);
      GrownKeeps(before.session, Run(s, calls).session);
      SentIsGenuine(s, calls[..|calls| - 1], ssrc, p);
      SentNowGenuine(before.session, c, ssrc, p);
      GovernsGrown(before.session, Run(s, calls).session, ssrc, p);
    }
  }

  // ---------- the network ----------

  // The n-th packet sent, once more or for the first time, or octets from elsewhere.
  datatype Arrival = Copy(n: nat) | Foreign(octets: seq<bv8>)

  function OnWire(sent: seq<Sent>, a: Arrival): seq<bv8>
    requires a.Copy? ==> a.n < |sent|
  {
    match a
    case Copy(n) => sent[n].octets
    case Foreign(octets) => octets
  }

  // The tag is wrong under every key of the policy and with every rollover counter.
  ghost predicate Forged(p: Policy, octets: seq<bv8>) {
    ValidateHeader(octets) == Ok ==> forall i :: 0 <= i < |p.keys| ==> OnTheWire.Mismatched(p, p.keys[i], octets)
  }

  // ---------- the receiver ----------

  datatype Reception = Reception(session: Session, delivered: seq<seq<bv8>>)

  function Receive(s: Session, inputs: seq<seq<bv8>>, room: nat): (r: Reception)
    requires Valid(s)
    ensures Valid(r.session)
  {
    if inputs == [] then Reception(s, []) else
    var before := Receive(s, inputs[..|inputs| - 1], room);
    var o := Unprotect(before.session, inputs[|inputs| - 1], room, false);
    CallKeepsValid(before.session, CallUnprotect(inputs[|inputs| - 1], room, false));
    Reception(o.session, if o.status == Ok then before.delivered + [o.octets] else before.delivered)
  }

  // What a receiver told the true indices would do.
  datatype Expectation = Expectation(ideal: RW.Ideal, delivered: seq<seq<bv8>>)

  function Expected(length: nat, sent: seq<Sent>, arrivals: seq<Arrival>): Expectation
    requires forall i :: 0 <= i < |arrivals| && arrivals[i].Copy? ==> arrivals[i].n < |sent|
  {
    if arrivals == [] then Expectation(RW.Ideal([], 0), []) else
    var before, last := Expected(length, sent, arrivals[..|arrivals| - 1]), arrivals[|arrivals| - 1];
    if last.Foreign? then before else
    var ideal := RW.IdealStep(before.ideal, length, sent[last.n].index);
    Expectation(ideal, if ideal == before.ideal then before.delivered else before.delivered + [sent[last.n].pkt])
  }

  // The first copy to arrive has the announced rollover counter; later copies are less than 2^15 from
  // the highest index accepted so far.
  ghost predicate InStep(length: nat, sent: seq<Sent>, arrivals: seq<Arrival>, roc: nat) {
    && (forall i :: 0 <= i < |arrivals| && arrivals[i].Copy? ==> arrivals[i].n < |sent|)
    && (forall i :: 0 <= i < |arrivals| && arrivals[i].Copy? ==>
          OnTime(Expected(length, sent, arrivals[..i]).ideal, sent[arrivals[i].n].index, roc))
  }

  predicate OnTime(ideal: RW.Ideal, index: nat, roc: nat) {
    if ideal.accepted == [] then index / RW.SEQ_MAX == roc else RW.Distance(index, ideal.highest) < RW.SEQ_MEDIAN
  }

  // The receiver's stream is where the ideal receiver is.
  ghost predicate Tracks(stream: Stream, ideal: RW.Ideal, length: nat, roc: nat) {
    if ideal.accepted == []
    then ideal == RW.Ideal([], 0) && stream.window == RW.Fresh(length) && stream.pendingRoc == roc
    else RW.Agree(RW.RunState(stream.window, stream.pendingRoc, ideal.accepted), ideal, length)
  }

  // The stream of this SSRC, or the one that the template would create, is where the ideal receiver is.
  ghost predicate Listening(s: Session, ssrc: Ssrc, p: Policy, ideal: RW.Ideal, length: nat, roc: nat) {
    match Find(s.streams, ssrc)
    case Some(i) => s.streams[i].policy == p && Tracks(s.streams[i], ideal, length, roc)
    case None =>
      && s.template.Some? && s.template.value.policy == p && ideal.accepted == []
      && Tracks(Clone(s.template.value, ssrc), ideal, length, roc)
  }

  // The stream at i after an admission.
  function After(s: Session, i: nat, a: RW.Admission): Session
    requires i < |s.streams|
  {
    var stream := s.streams[i];
    s.(streams := s.streams[i := stream.(direction := Claimed(stream.direction, Receiver), window := a.window, pendingRoc := a.pendingRoc)])
  }

  // One arrival for a listed stream.
  lemma UnprotectAt(s: Session, i: nat, octets: seq<bv8>, room: nat, key: nat)
    requires Valid(s) && ValidateHeader(octets) == Ok && Find(s.streams, RtpSsrc(octets)) == Some(i)
    requires ValidStream(s.streams[i]) && KeyForPacket(s.streams[i].policy, octets) == Some(key)
    ensures var stream := s.streams[i];
            var a := RW.Admit(stream.window, stream.pendingRoc, SequenceNumber(octets), false);
            var o := Unprotect(s, octets, room, false);
            && (a.status != Ok ==> o.status != Ok && o.session == s)
            && (a.status == Ok ==>
                var clear := Open(stream.policy, stream.policy.keys[key], octets, a.est, room, false);
                clear.Good? ==> o == Outcome(Ok, clear.octets, After(s, i, a)))
  {
    hide Valid, Open, KeyForPacket, RW.Place, RW.Admit, Recorded, SequenceNumber;
    var stream := s.streams[i];
    RecordedIsAdmission(stream.(direction := Claimed(stream.direction, Receiver)), SequenceNumber(octets));
  }

  lemma TrackStep(stream: Stream, ideal: RW.Ideal, length: nat, roc: nat, t: nat)
    requires RW.LegalLength(length) && Tracks(stream, ideal, length, roc) && OnTime(ideal, t, roc) && t < RW.INDEX_LIMIT
    ensures stream.window.bits != []
    ensures var a := RW.Admit(stream.window, stream.pendingRoc, t % RW.SEQ_MAX, false);
            var next := RW.IdealStep(ideal, length, t);
            && Tracks(stream.(window := a.window, pendingRoc := a.pendingRoc), next, length, roc)
            && (a.status == Ok <==> next != ideal) && (a.status == Ok ==> a.est == t)
  {
    if ideal.accepted == [] {
      RW.FirstStepAgrees(length, t);
    } else {
      RW.LaterStepAgrees(RW.RunState(stream.window, stream.pendingRoc, ideal.accepted), ideal, length, t);
    }
    hide RW.Admit, RW.Represents;
    var a := RW.Admit(stream.window, stream.pendingRoc, t % RW.SEQ_MAX, false);
    var next := RW.IdealStep(ideal, length, t);
    if a.status == Ok {
      assert (ideal.accepted + [a.est])[|ideal.accepted|] == a.est;
    }
  }

  // A copy of a genuine packet is delivered, as it was before protection, if the ideal receiver accepts it.
  ghost predicate Served(s: Session, o: Outcome, m: Sent, ssrc: Ssrc, p: Policy, ideal: RW.Ideal, length: nat, roc: nat) {
    var next := RW.IdealStep(ideal, length, m.index);
    && (o.status == Ok <==> next != ideal) && (o.status == Ok ==> o.octets == m.pkt)
    && (o.status != Ok ==> o.session == s)
    && Listening(o.session, ssrc, p, next, length, roc)
  }

  lemma CopyArrives(s: Session, p: Policy, ideal: RW.Ideal, length: nat, roc: nat, m: Sent, ssrc: Ssrc, room: nat)
    requires Valid(s) && Genuine(p, ssrc, m) && |m.pkt| <= room && (p.useMki ==> RoundTrips.DistinctMkis(p))
    requires RW.LegalLength(length) && Listening(s, ssrc, p, ideal, length, roc) && OnTime(ideal, m.index, roc)
    ensures ValidateHeader(m.octets) == Ok && RtpSsrc(m.octets) == ssrc
    ensures Served(s, Unprotect(s, m.octets, room, false), m, ssrc, p, ideal, length, roc)
  {
    hide Valid, Open, Seal, KeyForPacket, Lawful, Tracks, OnTime, Unprotect, SequenceNumber, Eager, RW.IdealStep;
    RoundTrips.OpenUndoesSeal(p, p.keys[m.key], m.pkt, m.index, m.leftover, room);
    if Find(s.streams, ssrc).Some? {
      CopyArrivesAt(s, p, ideal, length, roc, m, ssrc, room);
    } else {
      var eager := Eager(s, ssrc);
      EagerListens(s, ssrc, p, ideal, length, roc);
      ProvisionalIsEager(s, m.octets, room, false);
      CopyArrivesAt(eager, p, ideal, length, roc, m, ssrc, room);
    }
  }

  lemma EagerListens(s: Session, ssrc: Ssrc, p: Policy, ideal: RW.Ideal, length: nat, roc: nat)
    requires Valid(s) && Find(s.streams, ssrc).None? && Listening(s, ssrc, p, ideal, length, roc)
    ensures Find(Eager(s, ssrc).streams, ssrc).Some? && Listening(Eager(s, ssrc), ssrc, p, ideal, length, roc)
  {
    hide Valid, Tracks;
    var eager := Eager(s, ssrc);
    FindLast(s.streams, eager.streams[|s.streams|]);
    TracksIgnoresDirection(Clone(s.template.value, ssrc), eager.streams[|s.streams|], ideal, length, roc);
  }

  lemma CopyArrivesAt(s: Session, p: Policy, ideal: RW.Ideal, length: nat, roc: nat, m: Sent, ssrc: Ssrc, room: nat)
    requires Valid(s) && Genuine(p, ssrc, m) && |m.pkt| <= room && (p.useMki ==> RoundTrips.DistinctMkis(p))
    requires RW.LegalLength(length) && Listening(s, ssrc, p, ideal, length, roc) && OnTime(ideal, m.index, roc)
    requires Find(s.streams, ssrc).Some? && ValidateHeader(m.octets) == Ok && RtpSsrc(m.octets) == ssrc
    ensures Served(s, Unprotect(s, m.octets, room, false), m, ssrc, p, ideal, length, roc)
  {
    hide Valid, Open, Seal, KeyForPacket, Lawful, Tracks, OnTime, RW.Admit, Unprotect, SequenceNumber, RW.IdealStep;
    var i := Find(s.streams, ssrc).value;
    var stream := s.streams[i];
    StreamsValid(s, i);
    RoundTrips.OpenUndoesSeal(p, p.keys[m.key], m.pkt, m.index, m.leftover, room);
    RoundTrips.RtpKeyFound(p, m.key, m.pkt, m.index, m.leftover);
    TrackStep(stream, ideal, length, roc, m.index);
    UnprotectAt(s, i, m.octets, room, m.key);
    var a := RW.Admit(stream.window, stream.pendingRoc, SequenceNumber(m.octets), false);
    var next := RW.IdealStep(ideal, length, m.index);
    if a.status == Ok {
      var r := After(s, i, a);
      FoundStill(s, r, i);
      TracksIgnoresDirection(stream.(window := a.window, pendingRoc := a.pendingRoc), r.streams[i], next, length, roc);
    }
  }

  lemma FoundStill(s: Session, r: Session, i: nat)
    requires i < |s.streams| == |r.streams| && Find(s.streams, s.streams[i].ssrc) == Some(i)
    requires forall j :: 0 <= j < |s.streams| ==> r.streams[j].ssrc == s.streams[j].ssrc
    ensures Find(r.streams, s.streams[i].ssrc) == Some(i)
  {
    hide Find;
    assert r.streams[i].ssrc == s.streams[i].ssrc;
  }

  lemma TracksIgnoresDirection(stream: Stream, r: Stream, ideal: RW.Ideal, length: nat, roc: nat)
    requires Tracks(stream, ideal, length, roc) && r.window == stream.window && r.pendingRoc == stream.pendingRoc
    ensures Tracks(r, ideal, length, roc)
  {}

  // Forged for every stream of the session, listed or to be cloned.
  ghost predicate ForgedFor(s: Session, octets: seq<bv8>) {
    && (forall i :: 0 <= i < |s.streams| ==> Forged(s.streams[i].policy, octets))
    && (s.template.Some? ==> Forged(s.template.value.policy, octets))
  }

  lemma ForgedGrown(s: Session, r: Session, octets: seq<bv8>)
    requires Grown(s, r) && ForgedFor(s, octets)
    ensures ForgedFor(r, octets)
  {
    hide Forged;
    forall i | 0 <= i < |r.streams| ensures Forged(r.streams[i].policy, octets) {
      if i < |s.streams| {
        assert Older(s.streams[i], r.streams[i]);
      } else {
        assert Cloned(s.template, r.streams[i]);
      }
    }
  }

  lemma ForeignArrives(s: Session, octets: seq<bv8>, room: nat)
    requires Valid(s) && ForgedFor(s, octets)
    ensures Unprotect(s, octets, room, false).status != Ok && Unprotect(s, octets, room, false).session == s
  {
    hide Valid, Unprotect, Find, OnTheWire.Mismatched, OnTheWire.Opened, PlaceReceived, Forged;
    Refused(s, octets, room);
    if Unprotect(s, octets, room, false).status == Ok {
      OnTheWire.UnprotectedIs(s, octets, room, false);
      var p, index := StreamFor(s, RtpSsrc(octets)).policy, PlaceReceived(s, octets).1;
      var key: nat :| OnTheWire.Named(p, key, octets) &&
                      OnTheWire.Opened(p, p.keys[key], octets, index, room, Unprotect(s, octets, room, false).octets);
      ForgedShut(p, octets, key, index, room, Unprotect(s, octets, room, false).octets);
    }
  }

  lemma Refused(s: Session, octets: seq<bv8>, room: nat)
    requires Valid(s)
    ensures Unprotect(s, octets, room, false).status != Ok ==> Unprotect(s, octets, room, false).session == s
  {
    hide Valid, Open, Locate, Received;
  }

  lemma ForgedShut(p: Policy, octets: seq<bv8>, key: nat, index: nat, room: nat, o: seq<bv8>)
    requires ValidateHeader(octets) == Ok && Forged(p, octets) && p.keys != [] && OnTheWire.Named(p, key, octets)
    ensures !OnTheWire.Opened(p, p.keys[key], octets, index, room, o)
  {
    hide OnTheWire.Mismatched, OnTheWire.Opened;
    OnTheWire.MismatchShut(p, p.keys[key], octets, index, room, o);
  }

  // ---------- delivery ----------

  function Inputs(sent: seq<Sent>, arrivals: seq<Arrival>): (r: seq<seq<bv8>>)
    requires forall i :: 0 <= i < |arrivals| && arrivals[i].Copy? ==> arrivals[i].n < |sent|
    ensures |r| == |arrivals|
  {
    seq(|arrivals|, (i: nat) requires i < |arrivals| => OnWire(sent, arrivals[i]))
  }

  // The receiver as it starts, and what it may be fed.
  ghost predicate Ready(s: Session, ssrc: Ssrc, p: Policy, length: nat, roc: nat) {
    && Valid(s) && RW.LegalLength(length) && Listening(s, ssrc, p, RW.Ideal([], 0), length, roc)
    && (p.useMki ==> RoundTrips.DistinctMkis(p))
  }

  ghost predicate Feed(s: Session, ssrc: Ssrc, p: Policy, sent: seq<Sent>, arrivals: seq<Arrival>, room: nat)
    requires Valid(s)
  {
    && (forall m :: m in sent ==> Genuine(p, ssrc, m) && |m.pkt| <= room)
    && (forall i :: 0 <= i < |arrivals| && arrivals[i].Foreign? ==> ForgedFor(s, arrivals[i].octets))
  }

  ghost predicate Caught(start: Session, r: Reception, e: Expectation, ssrc: Ssrc, p: Policy, length: nat, roc: nat) {
    r.delivered == e.delivered && Grown(start, r.session) && Listening(r.session, ssrc, p, e.ideal, length, roc)
  }

  lemma InStepPrefix(length: nat, sent: seq<Sent>, arrivals: seq<Arrival>, roc: nat)
    requires arrivals != [] && InStep(length, sent, arrivals, roc)
    ensures InStep(length, sent, arrivals[..|arrivals| - 1], roc)
  {
    var front := arrivals[..|arrivals| - 1];
    forall i | 0 <= i < |front| && front[i].Copy?
      ensures OnTime(Expected(length, sent, front[..i]).ideal, sent[front[i].n].index, roc)
    {
      assert front[i] == arrivals[i];
      assert front[..i] == arrivals[..i];
    }
  }

  // One more arrival.
  lemma StepCaught(s: Session, before: Reception, e: Expectation, ssrc: Ssrc, p: Policy, sent: seq<Sent>, arrivals: seq<Arrival>,
                   room: nat, length: nat, roc: nat)
    requires Ready(s, ssrc, p, length, roc) && Feed(s, ssrc, p, sent, arrivals, room) && InStep(length, sent, arrivals, roc)
    requires arrivals != [] && e == Expected(length, sent, arrivals[..|arrivals| - 1])
    requires Valid(before.session) && Caught(s, before, e, ssrc, p, length, roc)
    ensures var o := Unprotect(before.session, OnWire(sent, arrivals[|arrivals| - 1]), room, false);
            Caught(s, Reception(o.session, if o.status == Ok then before.delivered + [o.octets] else before.delivered),
                   Expected(length, sent, arrivals), ssrc, p, length, roc)
  {
    hide Unprotect, Genuine, OnTime, Forged, ForgedFor, Listening, Valid, Grown;
    var last := arrivals[|arrivals| - 1];
    var call := CallUnprotect(OnWire(sent, last), room, false);
    CallGrows(before.session, call);
    GrownTwice(s, before.session, Made(before.session, call).session);
    match last {
      case Foreign(octets) =>
        ForgedGrown(s, before.session, octets);
        ForeignArrives(before.session, octets, room);
      case Copy(n) =>
        assert sent[n] in sent;
        assert OnTime(Expected(length, sent, arrivals[..|arrivals| - 1]).ideal, sent[n].index, roc);
        CopyArrives(before.session, p, e.ideal, length, roc, sent[n], ssrc, room);
    }
  }

  /** A receiver that sees only octets delivers what a receiver told the true indices would deliver. */
  lemma {:induction false} ReceiverCatches(s: Session, ssrc: Ssrc, p: Policy, sent: seq<Sent>, arrivals: seq<Arrival>,
                                           room: nat, length: nat, roc: nat)
    requires Ready(s, ssrc, p, length, roc) && Feed(s, ssrc, p, sent, arrivals, room) && InStep(length, sent, arrivals, roc)
    ensures Caught(s, Receive(s, Inputs(sent, arrivals), room), Expected(length, sent, arrivals), ssrc, p, length, roc)
    decreases |arrivals|
  {
    hide Unprotect, Listening, InStep, Genuine, Grown, ForgedFor, Valid;
    assert forall i :: 0 <= i < |arrivals| && arrivals[i].Copy? ==> arrivals[i].n < |sent| by { InRange(length, sent, arrivals, roc); }
    if arrivals == [] {
      GrownReflexive(s);
    } else {
      var front := arrivals[..|arrivals| - 1];
      InStepPrefix(length, sent, arrivals, roc);
      assert Inputs(sent, front) == Inputs(sent, arrivals)[..|arrivals| - 1];
      ReceiverCatches(s, ssrc, p, sent, front, room, length, roc);
      var before := Receive(s, Inputs(sent, front), room);
      StepCaught(s, before, Expected(length, sent, front), ssrc, p, sent, arrivals, room, length, roc);
    }
  }

  lemma InRange(length: nat, sent: seq<Sent>, arrivals: seq<Arrival>, roc: nat)
    requires InStep(length, sent, arrivals, roc)
    ensures forall i :: 0 <= i < |arrivals| && arrivals[i].Copy? ==> arrivals[i].n < |sent|
  {}

  // Each delivery is of a packet sent, at its own index; no index is delivered twice.
  ghost predicate Faithfully(sent: seq<Sent>, e: Expectation) {
    && |e.delivered| == |e.ideal.accepted| && RW.Distinct(e.ideal.accepted)
    && (forall d :: 0 <= d < |e.delivered| ==> FromSender(sent, e.delivered[d], e.ideal.accepted[d]))
  }

  ghost predicate FromSender(sent: seq<Sent>, pkt: seq<bv8>, index: nat) {
    exists n :: 0 <= n < |sent| && sent[n].pkt == pkt && sent[n].index == index
  }

  lemma {:induction false} ExpectedOnce(length: nat, sent: seq<Sent>, arrivals: seq<Arrival>)
    requires forall i :: 0 <= i < |arrivals| && arrivals[i].Copy? ==> arrivals[i].n < |sent|
    ensures Faithfully(sent, Expected(length, sent, arrivals))
    decreases |arrivals|
  {
    hide FromSender;
    if arrivals != [] {
      var before, last := Expected(length, sent, arrivals[..|arrivals| - 1]), arrivals[|arrivals| - 1];
      ExpectedOnce(length, sent, arrivals[..|arrivals| - 1]);
      if last.Copy? {
        assert FromSender(sent, sent[last.n].pkt, sent[last.n].index) by { Itself(sent, last.n); }
      }
    }
  }

  lemma Itself(sent: seq<Sent>, n: nat)
    requires n < |sent|
    ensures FromSender(sent, sent[n].pkt, sent[n].index)
  {}

  /** End to end: a sender makes any calls; a network loses, duplicates and reorders what it sent under
      one SSRC and mixes in octets whose tag is wrong; a receiver with the same policy, on a listed stream
      or by its template, among any other streams, delivers exactly what a receiver that is told the true
      indices would, octet for octet as they were before protection, and no packet index twice. */
  lemma Delivery(sender: Session, calls: seq<Call>, receiver: Session, ssrc: Ssrc, p: Policy, arrivals: seq<Arrival>,
                 room: nat, length: nat, roc: nat)
    requires Valid(sender) && AllLegal(calls) && Governs(sender, ssrc, p) && Bounded(Run(sender, calls).session)
    requires Ready(receiver, ssrc, p, length, roc)
    requires InStep(length, SentBy(sender, calls, ssrc), arrivals, roc)
    requires forall m :: m in SentBy(sender, calls, ssrc) ==> |m.pkt| <= room
    requires forall i :: 0 <= i < |arrivals| && arrivals[i].Foreign? ==> ForgedFor(receiver, arrivals[i].octets)
    ensures var sent := SentBy(sender, calls, ssrc);
            var e := Expected(length, sent, arrivals);
            && Receive(receiver, Inputs(sent, arrivals), room).delivered == e.delivered
            && Faithfully(sent, e)
  {
    hide Valid, Bounded, Governs, Listening, SentBy, Receive, Genuine, ForgedFor, Run, Faithfully, InStep, Grown;
    var sent := SentBy(sender, calls, ssrc);
    SentIsGenuine(sender, calls, ssrc, p);
    assert forall i :: 0 <= i < |arrivals| && arrivals[i].Copy? ==> arrivals[i].n < |sent| by { InRange(length, sent, arrivals, roc); }
    ReceiverCatches(receiver, ssrc, p, sent, arrivals, room, length, roc);
    ExpectedOnce(length, sent, arrivals);
  }
}
