/**
 The same for RTCP: what srtp_protect_rtcp made of a packet is a packet again after srtp_unprotect_rtcp, and
 over a network that loses, duplicates, reorders and forges, each packet is delivered at most once.
 */
module RtcpEndToEnd {
  import opened Errors
  import opened Packets
  import opened Transforms
  import opened Sessions
  import opened SessionRuns
  import RW = ReplayWindow
  import RC = RtcpReplay
  import RoundTrips
  import EndToEnd
  import OnTheWire

  // ---------- one packet ----------

  // A receiver finds the key that a sender used, by its identifier if there are identifiers.
  ghost predicate Findable(p: Policy)
    requires p.keys != []
  {
    p.useMki ==>
      && RoundTrips.DistinctMkis(p)
      && (p.keys[0].rtp.GcmCipher? || p.keys[0].auth.tagLen == p.keys[0].rtcpAuth.tagLen)
  }

  // Opening, with all checks, gives back what was sealed, exactly if the index passes the replay check.
  lemma OpenRtcpUndoesSeal(p: Policy, k: SessionKeys, pkt: seq<bv8>, index: nat, rtcp: RC.RtcpWindow, room: nat)
    requires Lawful(p) && k in p.keys && RTCP_HEADER <= |pkt| <= room && index < E_BIT && |rtcp.bits| == RC.WINDOW
    requires SealRtcp(p, k, pkt, index).Good?
    ensures var q, seen := SealRtcp(p, k, pkt, index).octets, RC.Check(rtcp, index);
            && |q| == |pkt| + TRAILER + p.mkiSize + k.rtcpAuth.tagLen
            && RtcpSsrc(q) == RtcpSsrc(pkt) && RtcpIndex(p, k, q) == index
            && OpenRtcp(p, k, q, rtcp, room) == if seen == Ok then Good(pkt) else Bad(seen)
  {
    hide Lawful, SealRtcpIcm, SealRtcpAead, OpenRtcpIcm, OpenRtcpAead, TrailerWord, RC.Check;
    if k.rtcp.GcmCipher? {
      RoundTrips.OpenUndoesSealRtcpAead(p, k, pkt, index, room);
    } else {
      RoundTrips.OpenUndoesSealRtcpIcm(p, k, pkt, index, room);
    }
  }

  /** Unprotecting undoes protecting, through key lookup, E bit check, replay check and recording: the packet
      comes back and its index is recorded if the index passes the check of the stream, or else nothing
      changes and the status is that of the check. */
  lemma UnprotectUndoesSeal(s: Session, i: nat, pkt: seq<bv8>, index: nat, room: nat)
    requires Valid(s) && RTCP_HEADER <= |pkt| <= room && index < E_BIT
    requires Find(s.streams, RtcpSsrc(pkt)).Some? || s.template.Some?
    requires var p := StreamFor(s, RtcpSsrc(pkt)).policy;
             Lawful(p) && i < |p.keys| && (p.useMki || i == 0) && Findable(p) && SealRtcp(p, p.keys[i], pkt, index).Good?
    ensures var stream := StreamFor(s, RtcpSsrc(pkt));
            && |stream.rtcp.bits| == RC.WINDOW
            && var q := SealRtcp(stream.policy, stream.policy.keys[i], pkt, index).octets;
               var seen := RC.Check(stream.rtcp, index);
               && RTCP_HEADER <= |q| && RtcpSsrc(q) == RtcpSsrc(pkt)
               && UnprotectRtcp(s, q, room) ==
                  (if seen == Ok then Outcome(Ok, pkt, ReceivedRtcp(s, RtcpSsrc(pkt), index)) else Outcome(seen, [], s))
               && (seen == Ok ==> AcceptedIndex(s, q, room) == index)
  {
    hide Lawful, SealRtcp, OpenRtcp, RtcpIndex, KeyForPacket, ReceivedRtcp, RC.Check, Find;
    var stream := StreamFor(s, RtcpSsrc(pkt));
    StreamForValid(s, RtcpSsrc(pkt));
    hide Valid, ValidStream;
    var p := stream.policy;
    OpenRtcpUndoesSeal(p, p.keys[i], pkt, index, stream.rtcp, room);
    RoundTrips.RtcpKeyFound(p, i, pkt, index);
  }

  /** The two calls joined: whatever one session protected, another that has the policy for the SSRC unprotects,
      exactly if its window has not seen the index. */
  lemma UnprotectUndoesProtect(sender: Session, receiver: Session, pkt: seq<bv8>, sendRoom: nat, mkiIndex: nat, room: nat)
    requires Valid(sender) && Valid(receiver) && ProtectRtcp(sender, pkt, sendRoom, mkiIndex).status == Ok && |pkt| <= room
    requires RTCP_HEADER <= |pkt| && (Find(receiver.streams, RtcpSsrc(pkt)).Some? || receiver.template.Some?)
    requires var t, p := TakeRtcpIndex(sender, pkt, sendRoom, mkiIndex), StreamFor(receiver, RtcpSsrc(pkt)).policy;
             t.status == Ok && t.session.streams[t.at].policy == p && p.keys != [] && Findable(p)
    ensures var q, index := ProtectRtcp(sender, pkt, sendRoom, mkiIndex).octets, TakeRtcpIndex(sender, pkt, sendRoom, mkiIndex).index;
            var stream := StreamFor(receiver, RtcpSsrc(pkt));
            && |stream.rtcp.bits| == RC.WINDOW
            && var seen := RC.Check(stream.rtcp, index);
               UnprotectRtcp(receiver, q, room) ==
               if seen == Ok then Outcome(Ok, pkt, ReceivedRtcp(receiver, RtcpSsrc(pkt), index)) else Outcome(seen, [], receiver)
  {
    hide Valid, Lawful, Findable, TakeRtcpIndex, SealRtcp, UnprotectRtcp, ReceivedRtcp, AcceptedIndex, StreamFor, Find, RC.Check;
    var t := TakeRtcpIndex(sender, pkt, sendRoom, mkiIndex);
    RtcpTurnValid(sender, pkt, sendRoom, mkiIndex);
    TakesNextRtcp(sender, pkt, sendRoom, mkiIndex);
    assert Lawful(t.session.streams[t.at].policy) by { StreamsValid(t.session, t.at); }
    UnprotectUndoesSeal(receiver, KeyForIndex(t.session.streams[t.at].policy, mkiIndex).value, pkt, t.index, room);
  }

  // ---------- the sender ----------

  // A packet, what it became, and how.
  datatype Sent = Sent(pkt: seq<bv8>, octets: seq<bv8>, index: nat, key: nat)

  ghost predicate Genuine(p: Policy, ssrc: Ssrc, m: Sent) {
    && RTCP_HEADER <= |m.pkt| && RtcpSsrc(m.pkt) == ssrc && 1 <= m.index <= RC.INDEX_MAX
    && Lawful(p) && m.key < |p.keys| && (p.useMki || m.key == 0)
    && SealRtcp(p, p.keys[m.key], m.pkt, m.index) == Good(m.octets)
  }

  // What a call sent under this SSRC.
  function SentNow(s: Session, c: Call, ssrc: Ssrc): (r: seq<Sent>)
    requires Valid(s)
    ensures |r| <= 1
  {
    if !SendsOn(c, ssrc) || ProtectRtcp(s, c.pkt, c.room, c.mkiIndex).status != Ok then []
    else
      RtcpTurnValid(s, c.pkt, c.room, c.mkiIndex);
      var t := TakeRtcpIndex(s, c.pkt, c.room, c.mkiIndex);
      var p := t.session.streams[t.at].policy;
      [Sent(c.pkt, ProtectRtcp(s, c.pkt, c.room, c.mkiIndex).octets, t.index, KeyForIndex(p, c.mkiIndex).value)]
  }

  // Everything a run sent under this SSRC.
  function SentBy(s: Session, calls: seq<Call>, ssrc: Ssrc): seq<Sent>
    requires Valid(s) && AllLegal(calls)
  {
    if calls == [] then []
    else SentBy(s, calls[..|calls| - 1], ssrc) + SentNow(Run(s, calls[..|calls| - 1]).session, calls[|calls| - 1], ssrc)
  }

  lemma SentNowGenuine(s: Session, c: Call, ssrc: Ssrc, p: Policy)
    requires Valid(s) && EndToEnd.Governs(s, ssrc, p)
    ensures forall m :: m in SentNow(s, c, ssrc) ==> Genuine(p, ssrc, m)
    ensures forall m :: m in SentNow(s, c, ssrc) ==> RtcpUse(s, c) == [(ssrc, m.index)]
  {
    hide Valid, EndToEnd.Governs, Grown, TakeRtcpIndex, Lawful, SealRtcp;
    if SentNow(s, c, ssrc) != [] {
      var t := TakeRtcpIndex(s, c.pkt, c.room, c.mkiIndex);
      RtcpTurnValid(s, c.pkt, c.room, c.mkiIndex);
      TakesNextRtcp(s, c.pkt, c.room, c.mkiIndex);
      TakeRtcpIndexGrown(s, c.pkt, c.room, c.mkiIndex);
      EndToEnd.GovernsGrown(s, t.session, ssrc, p);
      assert t.session.streams[t.at].policy == p by { EndToEnd.Governed(t.session, t.at, ssrc, p); }
      assert Lawful(p) by { StreamsValid(t.session, t.at); }
    }
  }

  // Each packet is sealed at an index that the run used for it.
  ghost predicate AllGenuine(p: Policy, ssrc: Ssrc, sent: seq<Sent>, uses: seq<Use>) {
    && (forall m :: m in sent ==> Genuine(p, ssrc, m) && (ssrc, m.index) in uses)
    && (forall i, j :: 0 <= i < j < |sent| ==> sent[i].index != sent[j].index)
  }

  /** All that a run sends is sealed under the stream's keys, every packet at an index of its own. */
  lemma {:induction false} SentIsGenuine(s: Session, calls: seq<Call>, ssrc: Ssrc, p: Policy)
    requires Valid(s) && AllLegal(calls) && EndToEnd.Governs(s, ssrc, p)
    ensures AllGenuine(p, ssrc, SentBy(s, calls, ssrc), Run(s, calls).rtcpUses)
    ensures EndToEnd.Governs(Run(s, calls).session, ssrc, p)
    decreases |calls|
  {
    hide Valid, EndToEnd.Governs, Grown, Genuine, SentNow, Made, RtcpUse, Counted;
    if calls != [] {
      var before, c := Run(s, calls[..|calls| - 1]), calls[|calls| - 1];
      assert Legal(c);
      CallGrows(before.session, c);
      SentIsGenuine(s, calls[..|calls| - 1], ssrc, p);
      SentNowGenuine(before.session, c, ssrc, p);
      EndToEnd.GovernsGrown(before.session, Run(s, calls).session, ssrc, p);
      NoRtcpIndexTwice(s, calls);
      OneMoreSent(p, ssrc, SentBy(s, calls[..|calls| - 1], ssrc), before.rtcpUses, SentNow(before.session, c, ssrc),
                  RtcpUse(before.session, c));
    }
  }

  lemma OneMoreSent(p: Policy, ssrc: Ssrc, sent: seq<Sent>, uses: seq<Use>, now: seq<Sent>, next: seq<Use>)
    requires AllGenuine(p, ssrc, sent, uses) && Distinct(uses + next) && |now| <= 1
    requires forall m :: m in now ==> Genuine(p, ssrc, m) && next == [(ssrc, m.index)]
    ensures AllGenuine(p, ssrc, sent + now, uses + next)
  {
    hide Genuine;
    if now != [] {
      var u := (ssrc, now[0].index);
      assert now[0] in now && (uses + next)[|uses|] == u;
      forall j | 0 <= j < |uses| ensures uses[j] != u {
        assert (uses + next)[j] == uses[j];
      }
      assert forall m :: m in sent ==> (ssrc, m.index) in uses;
      assert u in uses + next;
    }
  }

  // ---------- a receiver told the indices ----------

  // What it accepted, in order, and the lowest index it would still accept.
  datatype Ideal = Ideal(accepted: seq<nat>, low: nat)

  predicate Wanted(ideal: Ideal, index: nat) {
    index !in ideal.accepted && ideal.low <= index
  }

  // It remembers the 128 indices up to the highest.
  function IdealStep(ideal: Ideal, index: nat): Ideal {
    if !Wanted(ideal, index) then ideal
    else Ideal(ideal.accepted + [index], if index < ideal.low + 128 then ideal.low else index - (127))
  }

  // The window is where the ideal receiver is.
  ghost predicate Tracks(w: RC.RtcpWindow, ideal: Ideal) {
    RC.Represents(w, RW.Elements(ideal.accepted)) && w.start == ideal.low
  }

  lemma TrackStep(w: RC.RtcpWindow, ideal: Ideal, index: nat)
    requires Tracks(w, ideal)
    ensures |w.bits| == RC.WINDOW && (RC.Check(w, index) == Ok <==> Wanted(ideal, index))
    ensures Wanted(ideal, index) ==> Tracks(RC.Add(w, index), IdealStep(ideal, index))
  {
    RC.CheckIsExact(w, RW.Elements(ideal.accepted), index);
    if Wanted(ideal, index) {
      RC.AddRepresents(w, RW.Elements(ideal.accepted), index);
      assert RW.Elements(ideal.accepted + [index]) == RW.Elements(ideal.accepted) + {index};
    }
  }

  lemma FreshTracks()
    ensures Tracks(RC.Fresh(), Ideal([], 0))
  {
    assert RW.Elements([]) == {};
  }

  // The stream of this SSRC, or the one that the template would create, is where the ideal receiver is.
  ghost predicate Listening(s: Session, ssrc: Ssrc, p: Policy, ideal: Ideal) {
    match Find(s.streams, ssrc)
    case Some(i) => s.streams[i].policy == p && Tracks(s.streams[i].rtcp, ideal)
    case None => s.template.Some? && s.template.value.policy == p && ideal == Ideal([], 0)
  }

  lemma ListeningFor(s: Session, ssrc: Ssrc, p: Policy, ideal: Ideal)
    requires Valid(s) && Listening(s, ssrc, p, ideal)
    ensures Find(s.streams, ssrc).Some? || s.template.Some?
    ensures StreamFor(s, ssrc).policy == p && Lawful(p) && Tracks(StreamFor(s, ssrc).rtcp, ideal)
  {
    hide Tracks, Find;
    FreshTracks();
    StreamForValid(s, ssrc);
  }

  // A call that leaves the windows of this SSRC alone is not noticed.
  lemma ListeningKept(s: Session, r: Session, ssrc: Ssrc, p: Policy, ideal: Ideal)
    requires Listening(s, ssrc, p, ideal) && RtcpKept(s, r, ssrc) && Grown(s, r)
    ensures Listening(r, ssrc, p, ideal)
  {
    hide Tracks, Find;
    FreshTracks();
    match Find(r.streams, ssrc) {
      case Some(j) =>
        if j < |s.streams| {
          assert Older(s.streams[j], r.streams[j]);
          assert Find(s.streams, ssrc) == Some(j);
        } else {
          assert Cloned(s.template, r.streams[j]) && NewWindow(s, ssrc, r.streams[j]);
        }
      case None =>
        if Find(s.streams, ssrc).Some? {
          FoundAfter(s.streams, r.streams, ssrc);
        }
    }
  }

  lemma ListeningAfter(s: Session, ssrc: Ssrc, p: Policy, ideal: Ideal, index: nat)
    requires Valid(s) && Listening(s, ssrc, p, ideal) && Wanted(ideal, index)
    requires Find(s.streams, ssrc).Some? || s.template.Some?
    ensures Listening(ReceivedRtcp(s, ssrc, index), ssrc, p, IdealStep(ideal, index))
  {
    hide Tracks, RC.Add, RC.Check, ValidStream;
    var r := ReceivedRtcp(s, ssrc, index);
    match Find(s.streams, ssrc) {
      case Some(i) =>
        TrackStep(s.streams[i].rtcp, ideal, index);
        EndToEnd.FoundStill(s, r, i);
      case None =>
        FreshTracks();
        TrackStep(RC.Fresh(), ideal, index);
        FindLast(s.streams, r.streams[|s.streams|]);
    }
  }

  // ---------- arrivals ----------

  // A copy of a genuine packet is delivered, as it was before protection, exactly if the ideal receiver wants it.
  ghost predicate Served(s: Session, o: Outcome, m: Sent, ssrc: Ssrc, p: Policy, ideal: Ideal) {
    && (o.status == Ok <==> Wanted(ideal, m.index)) && (o.status == Ok ==> o.octets == m.pkt)
    && (o.status != Ok ==> o.session == s)
    && Listening(o.session, ssrc, p, IdealStep(ideal, m.index))
  }

  lemma CopyArrives(s: Session, p: Policy, ideal: Ideal, m: Sent, ssrc: Ssrc, room: nat)
    requires Valid(s) && Genuine(p, ssrc, m) && |m.pkt| <= room && Findable(p) && Listening(s, ssrc, p, ideal)
    ensures RTCP_HEADER <= |m.octets| && RtcpSsrc(m.octets) == ssrc
    ensures Served(s, UnprotectRtcp(s, m.octets, room), m, ssrc, p, ideal)
    ensures UnprotectRtcp(s, m.octets, room).status == Ok ==> AcceptedIndex(s, m.octets, room) == m.index
  {
    hide Valid, Listening, Lawful, Findable, Tracks, SealRtcp, UnprotectRtcp, ReceivedRtcp, AcceptedIndex, Find, RC.Check, StreamFor;
    ListeningFor(s, ssrc, p, ideal);
    UnprotectUndoesSeal(s, m.key, m.pkt, m.index, room);
    TrackStep(StreamFor(s, ssrc).rtcp, ideal, m.index);
    if Wanted(ideal, m.index) {
      ListeningAfter(s, ssrc, p, ideal, m.index);
    }
  }

  // If these octets claim to be of this SSRC, their tag is wrong under every key of the policy.
  ghost predicate Forged(p: Policy, ssrc: Ssrc, octets: seq<bv8>) {
    |octets| >= RTCP_HEADER && RtcpSsrc(octets) == ssrc ==>
      forall i :: 0 <= i < |p.keys| ==> OnTheWire.RtcpMismatched(p, p.keys[i], octets)
  }

  // No packet with a wrong tag gets in.
  lemma ForgedShut(s: Session, p: Policy, octets: seq<bv8>, ssrc: Ssrc, room: nat)
    requires Valid(s) && (Find(s.streams, ssrc).Some? || s.template.Some?) && StreamFor(s, ssrc).policy == p && Forged(p, ssrc, octets)
    ensures UnprotectRtcp(s, octets, room).status == Ok ==> |octets| >= RTCP_HEADER && RtcpSsrc(octets) != ssrc
  {
    hide Valid, UnprotectRtcp, Find, OnTheWire.RtcpMismatched, OnTheWire.OpenedRtcp;
    if UnprotectRtcp(s, octets, room).status == Ok {
      OnTheWire.UnprotectedRtcpIs(s, octets, room);
      if RtcpSsrc(octets) == ssrc {
        var o, rtcp := UnprotectRtcp(s, octets, room).octets, StreamFor(s, ssrc).rtcp;
        var key: nat, index: nat :| OnTheWire.Named(p, key, octets) && OnTheWire.OpenedRtcp(p, p.keys[key], octets, index, rtcp, room, o);
        OnTheWire.RtcpMismatchShut(p, p.keys[key], octets, index, rtcp, room, o);
      }
    }
  }

  lemma ForeignArrives(s: Session, p: Policy, ideal: Ideal, octets: seq<bv8>, ssrc: Ssrc, room: nat)
    requires Valid(s) && Listening(s, ssrc, p, ideal) && Forged(p, ssrc, octets)
    ensures var o := UnprotectRtcp(s, octets, room);
            && (o.status == Ok ==> |octets| >= RTCP_HEADER && RtcpSsrc(octets) != ssrc)
            && Listening(o.session, ssrc, p, ideal)
  {
    hide Listening, Forged, OpenRtcp, KeyForPacket, RtcpIndex, ReceivedRtcp, RtcpKept, Grown, Find, Lawful;
    var o := UnprotectRtcp(s, octets, room);
    ListeningFor(s, ssrc, p, ideal);
    ForgedShut(s, p, octets, ssrc, room);
    if o.status == Ok {
      var index := AcceptedIndex(s, octets, room);
      ReceivedElsewhere(s, RtcpSsrc(octets), index, ssrc);
      ReceivedRtcpGrown(s, RtcpSsrc(octets), index);
      ListeningKept(s, o.session, ssrc, p, ideal);
    }
  }

  // ---------- delivery ----------

  // The n-th packet sent, once more or for the first time; octets from elsewhere; or the receiver does
  // something else.
  datatype Arrival = Copy(n: nat) | Foreign(octets: seq<bv8>) | Meanwhile(call: Call)

  predicate InRange(sent: seq<Sent>, arrivals: seq<Arrival>, ssrc: Ssrc) {
    forall i :: 0 <= i < |arrivals| ==> Possible(sent, arrivals[i], ssrc)
  }

  // The receiver may make any call, but does not send RTCP under the SSRC.
  predicate Possible(sent: seq<Sent>, a: Arrival, ssrc: Ssrc) {
    match a
    case Copy(n) => n < |sent|
    case Foreign(_) => true
    case Meanwhile(c) => Legal(c) && !SendsOn(c, ssrc) && !c.CallUnprotectRtcp?
  }

  function CallFor(sent: seq<Sent>, a: Arrival, ssrc: Ssrc, room: nat): (c: Call)
    requires Possible(sent, a, ssrc)
    ensures Legal(c)
  {
    match a
    case Copy(n) => CallUnprotectRtcp(sent[n].octets, room)
    case Foreign(octets) => CallUnprotectRtcp(octets, room)
    case Meanwhile(call) => call
  }

  function Calls(sent: seq<Sent>, arrivals: seq<Arrival>, ssrc: Ssrc, room: nat): (r: seq<Call>)
    requires InRange(sent, arrivals, ssrc)
    ensures |r| == |arrivals| && AllLegal(r)
  {
    seq(|arrivals|, (i: nat) requires i < |arrivals| => CallFor(sent, arrivals[i], ssrc, room))
  }

  // The RTCP packets of this SSRC that a call, or a run, delivers.
  function DeliveredNow(s: Session, c: Call, ssrc: Ssrc): seq<seq<bv8>>
    requires Valid(s)
  {
    if RtcpAccepted(s, c, ssrc) == [] then [] else [UnprotectRtcp(s, c.pkt, c.room).octets]
  }

  function DeliveredBy(s: Session, calls: seq<Call>, ssrc: Ssrc): seq<seq<bv8>>
    requires Valid(s) && AllLegal(calls)
  {
    if calls == [] then []
    else
      DeliveredBy(s, calls[..|calls| - 1], ssrc) +
      DeliveredNow(Run(s, calls[..|calls| - 1]).session, calls[|calls| - 1], ssrc)
  }

  datatype Expectation = Expectation(ideal: Ideal, delivered: seq<seq<bv8>>)

  function ExpectedNext(e: Expectation, sent: seq<Sent>, a: Arrival, ssrc: Ssrc): Expectation
    requires Possible(sent, a, ssrc)
  {
    if !a.Copy? || !Wanted(e.ideal, sent[a.n].index) then e
    else Expectation(IdealStep(e.ideal, sent[a.n].index), e.delivered + [sent[a.n].pkt])
  }

  // What a receiver told the true indices would do that starts at index `low`.
  function Expected(low: nat, sent: seq<Sent>, arrivals: seq<Arrival>, ssrc: Ssrc): Expectation
    requires InRange(sent, arrivals, ssrc)
  {
    if arrivals == [] then Expectation(Ideal([], low), [])
    else ExpectedNext(Expected(low, sent, arrivals[..|arrivals| - 1], ssrc), sent, arrivals[|arrivals| - 1], ssrc)
  }

  // What the receiver may be fed.
  ghost predicate Feed(p: Policy, ssrc: Ssrc, sent: seq<Sent>, arrivals: seq<Arrival>, room: nat) {
    && Lawful(p) && Findable(p) && InRange(sent, arrivals, ssrc)
    && (forall m :: m in sent ==> Genuine(p, ssrc, m) && |m.pkt| <= room)
    && (forall i :: 0 <= i < |arrivals| && arrivals[i].Foreign? ==> Forged(p, ssrc, arrivals[i].octets))
  }

  // One more arrival.
  lemma StepServed(s: Session, e: Expectation, p: Policy, ssrc: Ssrc, sent: seq<Sent>, a: Arrival, room: nat)
    requires Valid(s) && Listening(s, ssrc, p, e.ideal) && Lawful(p) && Findable(p) && Possible(sent, a, ssrc)
    requires a.Copy? ==> Genuine(p, ssrc, sent[a.n]) && |sent[a.n].pkt| <= room
    requires a.Foreign? ==> Forged(p, ssrc, a.octets)
    ensures var c, next := CallFor(sent, a, ssrc, room), ExpectedNext(e, sent, a, ssrc);
            && Listening(Made(s, c).session, ssrc, p, next.ideal)
            && next.ideal.accepted == e.ideal.accepted + RtcpAccepted(s, c, ssrc)
            && next.delivered == e.delivered + DeliveredNow(s, c, ssrc)
  {
    hide Valid, Listening, Genuine, Forged, UnprotectRtcp, AcceptedIndex, Protect, ProtectRtcp, Unprotect, SetRoc, Lawful, Findable,
         RtcpKept, Grown;
    assert e.ideal.accepted + [] == e.ideal.accepted && e.delivered + [] == e.delivered;
    match a {
      case Copy(n) =>
        CopyArrives(s, p, e.ideal, sent[n], ssrc, room);
      case Foreign(octets) =>
        ForeignArrives(s, p, e.ideal, octets, ssrc, room);
      case Meanwhile(c) =>
        OtherCallKeeps(s, c, ssrc);
        CallGrows(s, c);
        ListeningKept(s, Made(s, c).session, ssrc, p, e.ideal);
    }
  }

  /** A receiver that sees only octets delivers what a receiver told the true indices would deliver, whatever
      else it does meanwhile, as long as it does not send RTCP under the SSRC. */
  lemma {:induction false} ReceiverCatches(s: Session, ssrc: Ssrc, p: Policy, sent: seq<Sent>, arrivals: seq<Arrival>, room: nat,
                                           low: nat)
    requires Valid(s) && Listening(s, ssrc, p, Ideal([], low)) && Feed(p, ssrc, sent, arrivals, room)
    ensures var calls, e := Calls(sent, arrivals, ssrc, room), Expected(low, sent, arrivals, ssrc);
            && Listening(Run(s, calls).session, ssrc, p, e.ideal)
            && AcceptedBy(s, calls, ssrc) == e.ideal.accepted && DeliveredBy(s, calls, ssrc) == e.delivered
    decreases |arrivals|
  {
    hide Valid, Listening, Genuine, Forged, Made, RtcpAccepted, DeliveredNow, ExpectedNext, Lawful, Findable, CallFor;
    if arrivals != [] {
      var front, last := arrivals[..|arrivals| - 1], arrivals[|arrivals| - 1];
      var calls := Calls(sent, arrivals, ssrc, room);
      assert Calls(sent, front, ssrc, room) == calls[..|arrivals| - 1];
      ReceiverCatches(s, ssrc, p, sent, front, room, low);
      assert Possible(sent, last, ssrc);
      if last.Copy? {
        assert sent[last.n] in sent;
      }
      StepServed(Run(s, calls[..|arrivals| - 1]).session, Expected(low, sent, front, ssrc), p, ssrc, sent, last, room);
    }
  }

  // Each delivery is of a packet sent, at its own index; no index is delivered twice.
  ghost predicate Faithfully(sent: seq<Sent>, e: Expectation, low: nat) {
    && |e.delivered| == |e.ideal.accepted| && RW.Distinct(e.ideal.accepted)
    && (forall d :: 0 <= d < |e.delivered| ==> FromSender(sent, e.delivered[d], e.ideal.accepted[d]))
    && RemembersHighest(e.ideal, low)
  }

  ghost predicate FromSender(sent: seq<Sent>, pkt: seq<bv8>, index: nat) {
    exists n :: 0 <= n < |sent| && sent[n].pkt == pkt && sent[n].index == index
  }

  // What is below `low` was below from the start, or is 128 or more below the highest index accepted.
  ghost predicate RemembersHighest(ideal: Ideal, low: nat) {
    && low <= ideal.low && (forall a :: a in ideal.accepted ==> a < ideal.low + 128)
    && (low < ideal.low ==> ideal.low + 127 in ideal.accepted)
  }

  lemma {:induction false} ExpectedOnce(low: nat, sent: seq<Sent>, arrivals: seq<Arrival>, ssrc: Ssrc)
    requires InRange(sent, arrivals, ssrc)
    ensures Faithfully(sent, Expected(low, sent, arrivals, ssrc), low)
    decreases |arrivals|
  {
    hide FromSender;
    if arrivals != [] {
      var last := arrivals[|arrivals| - 1];
      ExpectedOnce(low, sent, arrivals[..|arrivals| - 1], ssrc);
      assert Possible(sent, last, ssrc);
      if last.Copy? {
        assert FromSender(sent, sent[last.n].pkt, sent[last.n].index) by { Itself(sent, last.n); }
      }
    }
  }

  lemma Itself(sent: seq<Sent>, n: nat)
    requires n < |sent|
    ensures FromSender(sent, sent[n].pkt, sent[n].index)
  {}

  /** End to end: a sender makes any calls; a network loses, duplicates and reorders the RTCP packets it sent
      under one SSRC and mixes in octets whose tag is wrong; a receiver with the same policy, on a listed stream
      or by its template, among any other streams and between any other calls, delivers exactly what a receiver
      that is told the true indices would, octet for octet as it was before protection, and no index twice.
      No two packets sent have the same index, so no packet is delivered twice. */
  lemma Delivery(sender: Session, calls: seq<Call>, receiver: Session, ssrc: Ssrc, p: Policy, arrivals: seq<Arrival>, room: nat,
                 low: nat)
    requires Valid(sender) && AllLegal(calls) && EndToEnd.Governs(sender, ssrc, p)
    requires Valid(receiver) && Listening(receiver, ssrc, p, Ideal([], low)) && Lawful(p) && Findable(p)
    requires InRange(SentBy(sender, calls, ssrc), arrivals, ssrc)
    requires forall m :: m in SentBy(sender, calls, ssrc) ==> |m.pkt| <= room
    requires forall i :: 0 <= i < |arrivals| && arrivals[i].Foreign? ==> Forged(p, ssrc, arrivals[i].octets)
    ensures var sent := SentBy(sender, calls, ssrc);
            var made, e := Calls(sent, arrivals, ssrc, room), Expected(low, sent, arrivals, ssrc);
            && DeliveredBy(receiver, made, ssrc) == e.delivered && AcceptedBy(receiver, made, ssrc) == e.ideal.accepted
            && Faithfully(sent, e, low)
            && (forall i, j :: 0 <= i < j < |sent| ==> sent[i].index != sent[j].index)
  {
    hide Valid, EndToEnd.Governs, Listening, SentBy, Run, Genuine, Forged, Faithfully, Lawful, Findable, AcceptedBy, DeliveredBy,
         Expected, Calls;
    var sent := SentBy(sender, calls, ssrc);
    SentIsGenuine(sender, calls, ssrc, p);
    ReceiverCatches(receiver, ssrc, p, sent, arrivals, room, low);
    ExpectedOnce(low, sent, arrivals, ssrc);
  }

  /** Of every genuine arrival in such a run: it is delivered if and only if its index has not been accepted yet
      and is not below the window, that is, not 128 or more below the highest accepted. */
  lemma DeliveredIff(receiver: Session, ssrc: Ssrc, p: Policy, sent: seq<Sent>, arrivals: seq<Arrival>, room: nat, low: nat, i: nat)
    requires Valid(receiver) && Listening(receiver, ssrc, p, Ideal([], low)) && Feed(p, ssrc, sent, arrivals, room)
    requires i < |arrivals| && arrivals[i].Copy?
    ensures var before := Calls(sent, arrivals, ssrc, room)[..i];
            && AllLegal(before) && arrivals[i].n < |sent|
            && var m, ideal := sent[arrivals[i].n], Expected(low, sent, arrivals[..i], ssrc).ideal;
               var o := UnprotectRtcp(Run(receiver, before).session, m.octets, room);
               && (o.status == Ok <==> m.index !in AcceptedBy(receiver, before, ssrc) && ideal.low <= m.index)
               && (o.status == Ok ==> o.octets == m.pkt)
               && RemembersHighest(ideal, low)
  {
    hide Valid, Listening, Genuine, Forged, UnprotectRtcp, Run, Lawful, Findable, AcceptedBy, DeliveredBy, Expected, CallFor;
    var front := arrivals[..i];
    assert Possible(sent, arrivals[i], ssrc);
    assert Calls(sent, front, ssrc, room) == Calls(sent, arrivals, ssrc, room)[..i];
    FeedPrefix(p, ssrc, sent, arrivals, room, i);
    ReceiverCatches(receiver, ssrc, p, sent, front, room, low);
    ExpectedOnce(low, sent, front, ssrc);
    assert sent[arrivals[i].n] in sent;
    CopyArrives(Run(receiver, Calls(sent, front, ssrc, room)).session, p, Expected(low, sent, front, ssrc).ideal,
                sent[arrivals[i].n], ssrc, room);
  }

  lemma FeedPrefix(p: Policy, ssrc: Ssrc, sent: seq<Sent>, arrivals: seq<Arrival>, room: nat, i: nat)
    requires Feed(p, ssrc, sent, arrivals, room) && i <= |arrivals|
    ensures Feed(p, ssrc, sent, arrivals[..i], room)
  {}

  // ---------- a receiver that sends ----------

  // Any index but 0 that a new window has accepted is accepted again once the window has been used to send.
  lemma ForgottenBySending(index: nat)
    requires 1 <= index
    ensures var w := RC.Add(RC.Fresh(), index);
            && RC.Check(RC.Fresh(), index) == Ok && RC.Check(w, index) == ReplayFail
            && (RC.Increment(w).0 == Ok ==> RC.Check(RC.Increment(w).1, index) == Ok)
  {
    assert RW.Elements([]) == {};
    RC.AddRepresents(RC.Fresh(), {}, index);
    var w := RC.Add(RC.Fresh(), index);
    if RC.Increment(w).0 == Ok {
      RC.SendingMisaligns(w, {} + {index}, index);
    }
  }

  lemma AfterReceipt(s: Session, ssrc: Ssrc, index: nat)
    requires Valid(s) && (Find(s.streams, ssrc).Some? || s.template.Some?)
    ensures var r, was := ReceivedRtcp(s, ssrc, index), StreamFor(s, ssrc);
            && Valid(r) && Find(r.streams, ssrc).Some? && |was.rtcp.bits| == RC.WINDOW
            && StreamFor(r, ssrc).policy == was.policy && StreamFor(r, ssrc).rtcp == RC.Add(was.rtcp, index)
  {
    hide RC.Add, RC.Fresh;
    var r := ReceivedRtcp(s, ssrc, index);
    ReceivedRtcpValid(s, ssrc, index);
    match Find(s.streams, ssrc) {
      case Some(i) => EndToEnd.FoundStill(s, r, i);
      case None => FindLast(s.streams, r.streams[|s.streams|]);
    }
  }

  lemma AfterSending(s: Session, out: seq<bv8>, room: nat, mkiIndex: nat)
    requires Valid(s) && |out| >= RTCP_HEADER && Find(s.streams, RtcpSsrc(out)).Some?
    ensures var o, was := ProtectRtcp(s, out, room, mkiIndex), StreamFor(s, RtcpSsrc(out));
            && Valid(o.session)
            && (o.status == Ok ==>
                && Find(o.session.streams, RtcpSsrc(out)).Some? && StreamFor(o.session, RtcpSsrc(out)).policy == was.policy
                && RC.Increment(was.rtcp).0 == Ok && StreamFor(o.session, RtcpSsrc(out)).rtcp == RC.Increment(was.rtcp).1)
  {
    hide Valid, ProtectRtcpChecks, SealRtcp, RC.Increment;
    RtcpTurnValid(s, out, room, mkiIndex);
    var t := TakeRtcpIndex(s, out, room, mkiIndex);
    if t.status == Ok {
      EndToEnd.FoundStill(s, t.session, Find(s.streams, RtcpSsrc(out)).value);
    }
  }

  /** Without the condition that the receiver does not send, the promise fails for every packet: a receiver that
      is new to the SSRC delivers it and refuses the same octets, but once it has itself protected an RTCP packet
      under that SSRC, it delivers them again. */
  lemma DeliveredAgain(s: Session, p: Policy, m: Sent, ssrc: Ssrc, room: nat, out: seq<bv8>, outRoom: nat, mkiIndex: nat)
    requires Valid(s) && Genuine(p, ssrc, m) && |m.pkt| <= room && Findable(p)
    requires (Find(s.streams, ssrc).Some? || s.template.Some?) && StreamFor(s, ssrc).policy == p
    requires StreamFor(s, ssrc).rtcp == RC.Fresh() && |out| >= RTCP_HEADER && RtcpSsrc(out) == ssrc
    ensures var first := UnprotectRtcp(s, m.octets, room);
            && first.status == Ok && first.octets == m.pkt && Valid(first.session)
            && UnprotectRtcp(first.session, m.octets, room).status == ReplayFail
            && var sends := ProtectRtcp(first.session, out, outRoom, mkiIndex);
               && Valid(sends.session)
               && (sends.status == Ok ==>
                   var again := UnprotectRtcp(sends.session, m.octets, room); again.status == Ok && again.octets == m.pkt)
  {
    hide Valid, Lawful, Findable, SealRtcp, UnprotectRtcp, ReceivedRtcp, ProtectRtcp, AcceptedIndex, StreamFor, Find, RC.Check, RC.Add,
         RC.Increment, RC.Fresh;
    ForgottenBySending(m.index);
    UnprotectUndoesSeal(s, m.key, m.pkt, m.index, room);
    AfterReceipt(s, ssrc, m.index);
    var first := ReceivedRtcp(s, ssrc, m.index);
    UnprotectUndoesSeal(first, m.key, m.pkt, m.index, room);
    AfterSending(first, out, outRoom, mkiIndex);
    var sends := ProtectRtcp(first, out, outRoom, mkiIndex);
    if sends.status == Ok {
      UnprotectUndoesSeal(sends.session, m.key, m.pkt, m.index, room);
    }
  }
}
