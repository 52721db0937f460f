/**
 The SRTP replay window of rdbx.c and the index estimation of section 3.3.1 and
 Appendix A of RFC 3711.  A Window is the value of an srtp_rdbx_t.
 */
module ReplayWindow {
  import opened Errors
  import opened BitVectors

  const SEQ_MEDIAN := 0x8000
  const SEQ_MAX := 0x1_0000
  const ROC_LIMIT := 0x1_0000_0000
  const INDEX_LIMIT := 0x1_0000_0000_0000

  // ---------- estimation ----------

  // srtp_index_guess: the rollover counter arithmetic is 32-bit.
  function IndexGuess(local: nat, s: nat): (nat, int) {
    var roc, seq_ := local / SEQ_MAX % ROC_LIMIT, local % SEQ_MAX;
    if seq_ < SEQ_MEDIAN then
      if s - seq_ > SEQ_MEDIAN
      then ((roc - 1) % ROC_LIMIT * SEQ_MAX + s, s - seq_ - SEQ_MAX)
      else (roc * SEQ_MAX + s, s - seq_)
    else
      if seq_ - SEQ_MEDIAN > s
      then ((roc + 1) % ROC_LIMIT * SEQ_MAX + s, s - seq_ + SEQ_MAX)
      else (roc * SEQ_MAX + s, s - seq_)
  }

  // srtp_rdbx_estimate_index
  function EstimateIndex(index: nat, s: nat): (nat, int) {
    if index > SEQ_MEDIAN then IndexGuess(index, s) else (s, s - index)
  }

  // srtp_estimate_index: the caller has announced the rollover counter.
  function EstimateWithRoc(index: nat, roc: nat, s: nat): (Status, nat, int) {
    var est := roc * SEQ_MAX + s;
    if est > index && est - index > SEQ_MEDIAN then (PktIdxAdv, est, 0)
    else if est < index && index - est > SEQ_MEDIAN then (PktIdxOld, est, 0)
    else (Ok, est, est - index)
  }

  // srtp_get_est_pkt_index
  function PacketIndex(index: nat, pendingRoc: nat, s: nat): (Status, nat, int) {
    if pendingRoc != 0 then EstimateWithRoc(index, pendingRoc, s)
    else var (est, delta) := EstimateIndex(index, s); (Ok, est, delta)
  }

  /** The estimate is the index that delta points at, taken modulo 2^48; so the two agree exactly
      when that index has not run past the last rollover counter. */
  lemma EstimateFollowsDelta(index: nat, s: nat)
    requires index < INDEX_LIMIT && s < SEQ_MAX
    ensures var (est, delta) := EstimateIndex(index, s);
            && 0 <= index + delta < INDEX_LIMIT + SEQ_MAX && est < INDEX_LIMIT
            && est % SEQ_MAX == s
            && est == (index + delta) % INDEX_LIMIT
            && (est == index + delta <==> index + delta < INDEX_LIMIT)
  {
    var (est, delta) := EstimateIndex(index, s);
    var roc, q := index / SEQ_MAX, index % SEQ_MAX;
    if index > SEQ_MEDIAN && q >= SEQ_MEDIAN && q - SEQ_MEDIAN > s && roc + 1 == ROC_LIMIT {
      assert est == s && index + delta == INDEX_LIMIT + s;
    }
  }

  // A packet of the cycle after the last, in the second half of the last one.
  predicate Outgrows(index: nat, s: nat) {
    index >= INDEX_LIMIT - SEQ_MEDIAN && s < index - (INDEX_LIMIT - SEQ_MEDIAN)
  }

  // No index with this sequence number is nearer to the local index.
  ghost predicate Nearest(est: nat, index: nat, s: nat) {
    forall other: nat :: other < INDEX_LIMIT && other % SEQ_MAX == s ==> Distance(est, index) <= Distance(other, index)
  }

  lemma NoneNearer(index: nat, s: nat, other: nat)
    requires index < INDEX_LIMIT && s < SEQ_MAX && other % SEQ_MAX == s && !Outgrows(index, s)
    ensures Distance(EstimateIndex(index, s).0, index) <= Distance(other, index)
  {
    EstimateFollowsDelta(index, s);
    var (est, delta) := EstimateIndex(index, s);
    var m := other / SEQ_MAX - est / SEQ_MAX;
    assert other - est == m * SEQ_MAX;
  }

  /** Appendix A of RFC 3711: of all indices with this sequence number the estimate is the one nearest to the
      local index, if and only if there is no need for an index beyond the last; away from the very first half
      cycle delta is within 2^15. */
  lemma EstimateIsNearest(index: nat, s: nat)
    requires index < INDEX_LIMIT && s < SEQ_MAX
    ensures index > SEQ_MEDIAN ==> -SEQ_MEDIAN <= EstimateIndex(index, s).1 <= SEQ_MEDIAN
    ensures Nearest(EstimateIndex(index, s).0, index, s) <==> !Outgrows(index, s)
  {
    EstimateFollowsDelta(index, s);
    var est := EstimateIndex(index, s).0;
    if Outgrows(index, s) {
      var other := INDEX_LIMIT - SEQ_MAX + s;
      assert other % SEQ_MAX == s;
      assert Distance(other, index) < Distance(est, index);
    } else {
      forall other: nat | other < INDEX_LIMIT && other % SEQ_MAX == s ensures Distance(est, index) <= Distance(other, index) {
        NoneNearer(index, s, other);
      }
    }
  }

  function Distance(a: nat, b: nat): nat {
    if a < b then b - a else a - b
  }

  /** A packet whose true index is less than 2^15 away from the local index is placed at that
      true index. */
  lemma EstimateFindsTrueIndex(index: nat, t: nat)
    requires t < INDEX_LIMIT && index < INDEX_LIMIT
    requires Distance(t, index) < SEQ_MEDIAN
    ensures EstimateIndex(index, t % SEQ_MAX) == (t, t - index)
  {
    var s := t % SEQ_MAX;
    EstimateFollowsDelta(index, s);
    var (est, delta) := EstimateIndex(index, s);
    assert -SEQ_MEDIAN <= delta <= SEQ_MEDIAN || index <= SEQ_MEDIAN;
    SameResidue(t, (index + delta) as nat);
  }

  lemma SameResidue(a: nat, b: nat)
    requires a % SEQ_MAX == b % SEQ_MAX && -SEQ_MAX < a - b < SEQ_MAX
    ensures a == b
  {}

  // ---------- the window ----------

  // Bit |bits| - 1 - k stands for index - k.
  datatype Window = Window(index: nat, bits: seq<bool>)

  function Fresh(length: nat): Window {
    Window(0, seq(length, _ => false))
  }

  // srtp_rdbx_check
  function Check(w: Window, delta: int): Status {
    if delta > 0 then Ok
    else if |w.bits| - 1 + delta < 0 then ReplayOld
    else if w.bits[|w.bits| - 1 + delta] then ReplayFail
    else Ok
  }

  // srtp_rdbx_add_index; the advance is cut to a 16-bit sequence number, the shift is not.
  function Add(w: Window, delta: int): (r: Window)
    requires 0 <= |w.bits| - 1 + delta
    ensures |r.bits| == |w.bits|
  {
    if delta > 0
    then Window(w.index + delta % SEQ_MAX, if w.bits == [] then [] else ShiftedBits(w.bits, delta)[|w.bits| - 1 := true])
    else Window(w.index, w.bits[|w.bits| - 1 + delta := true])
  }

  // srtp_rdbx_set_roc_seq when it succeeds
  function SetRocSeq(w: Window, roc: nat, s: nat): Window {
    Window(roc * SEQ_MAX + s, seq(|w.bits|, _ => false))
  }

  // The window lengths that srtp_stream_init allows, rounded up to whole words.
  predicate LegalLength(length: nat) {
    32 <= length <= SEQ_MEDIAN
  }

  /** The window represents the set of accepted indices: the bits are exactly that set restricted
      to the last |bits| indices, and nothing accepted is beyond the index. */
  ghost predicate Represents(w: Window, accepted: set<nat>) {
    && LegalLength(|w.bits|)
    && (forall i :: 0 <= i < |w.bits| ==> w.bits[i] == (w.index - (|w.bits| - 1 - i) in accepted))
    && (forall a :: a in accepted ==> a <= w.index)
  }

  lemma CheckIsExact(w: Window, accepted: set<nat>, delta: int)
    requires Represents(w, accepted) && 0 <= w.index + delta
    ensures Check(w, delta) == ReplayOld <==> w.index + delta + |w.bits| <= w.index
    ensures Check(w, delta) == ReplayFail <==> w.index < w.index + delta + |w.bits| && w.index + delta in accepted
    ensures Check(w, delta) == Ok <==> w.index < w.index + delta + |w.bits| && w.index + delta !in accepted
  {
    var i := |w.bits| - 1 + delta;
    if 0 <= i < |w.bits| {
      assert w.bits[i] == (w.index + delta in accepted);
    }
  }

  lemma AddRepresents(w: Window, accepted: set<nat>, delta: int)
    requires Represents(w, accepted) && 0 <= w.index + delta && delta < SEQ_MAX
    requires Check(w, delta) != ReplayOld
    ensures Represents(Add(w, delta), accepted + {w.index + delta})
  {
    var r, L := Add(w, delta), |w.bits|;
    var t := w.index + delta;
    forall i | 0 <= i < L ensures r.bits[i] == (r.index - (L - 1 - i) in accepted + {t}) {
      if delta > 0 && i < L - 1 && i + delta < L {
        assert w.bits[i + delta] == (w.index - (L - 1 - (i + delta)) in accepted);
      }
    }
  }

  /** Jumping to an announced rollover counter clears the bits.  That is sound because a jump is
      longer than 2^15, hence longer than the window. */
  lemma JumpRepresents(w: Window, accepted: set<nat>, est: nat)
    requires Represents(w, accepted) && est > w.index + SEQ_MEDIAN
    ensures Represents(Add(SetRocSeq(w, est / SEQ_MAX, est % SEQ_MAX), 0), accepted + {est})
  {}

  // ---------- what srtp_protect and srtp_unprotect do with it ----------

  datatype Admission = Admission(status: Status, est: nat, window: Window, pendingRoc: nat)

  // Placing a packet: estimate, then either jump or check.
  function Place(w: Window, pendingRoc: nat, s: nat): (Status, nat, int) {
    var (status, est, delta) := PacketIndex(w.index, pendingRoc, s);
    if status == Ok then (Check(w, delta), est, delta) else (status, est, delta)
  }

  function Admit(w: Window, pendingRoc: nat, s: nat, allowRepeat: bool): (r: Admission)
    requires w.bits != []
    ensures |r.window.bits| == |w.bits|
  {
    var (status, est, delta) := Place(w, pendingRoc, s);
    if status == PktIdxAdv then
      Admission(Ok, est, Add(SetRocSeq(w, est / SEQ_MAX, est % SEQ_MAX), 0), 0)
    else if status == Ok || (status == ReplayFail && allowRepeat) then
      Admission(Ok, est, Add(w, delta), pendingRoc)
    else
      Admission(status, est, w, pendingRoc)
  }

  /** With an announced rollover counter a packet is placed there, ahead, behind or within 2^15 of the local index. */
  lemma AnnouncedIs(index: nat, roc: nat, s: nat)
    requires 0 < roc && s < SEQ_MAX
    ensures var (status, est, delta) := PacketIndex(index, roc, s);
            && est == 0x1_0000 * roc + s
            && (status == PktIdxAdv <==> est > index + 0x8000) && (status == PktIdxOld <==> est + 0x8000 < index)
            && (status == Ok ==> delta == est - index && -0x8000 <= delta <= 0x8000) && status in {Ok, PktIdxAdv, PktIdxOld}
  {}

  // Where a packet is placed, with or without an announced rollover counter.
  lemma PacketIndexIs(index: nat, pendingRoc: nat, s: nat)
    requires index < INDEX_LIMIT && pendingRoc < ROC_LIMIT && s < SEQ_MAX
    ensures var (status, est, delta) := PacketIndex(index, pendingRoc, s);
            && est % SEQ_MAX == s && est < INDEX_LIMIT
            && status in {Ok, PktIdxAdv, PktIdxOld}
            && (status == PktIdxAdv ==> est > index + SEQ_MEDIAN)
            && (status == PktIdxOld ==> est + SEQ_MEDIAN < index)
            && (status == Ok ==> 0 <= index + delta && delta < SEQ_MAX)
            && (status == Ok && index + delta < INDEX_LIMIT ==> est == index + delta)
  {
    EstimateFollowsDelta(index, s);
  }

  ghost predicate Admitted(w: Window, accepted: set<nat>, a: Admission) {
    && a.est !in accepted
    && Represents(a.window, accepted + {a.est})
    && a.window.index == (if a.est > w.index then a.est else w.index)
  }

  /** One admission step: an admitted index is new, enters the set, and nothing else changes; a
      refusal changes nothing and says exactly why. */
  lemma AdmitRepresents(w: Window, accepted: set<nat>, pendingRoc: nat, s: nat)
    requires Represents(w, accepted) && w.index < INDEX_LIMIT && pendingRoc < ROC_LIMIT && s < SEQ_MAX
    requires Admit(w, pendingRoc, s, false).window.index < INDEX_LIMIT
    ensures var a := Admit(w, pendingRoc, s, false);
            && a.est % SEQ_MAX == s && a.est < INDEX_LIMIT
            && a.status in {Ok, ReplayFail, ReplayOld, PktIdxOld}
            && (a.status == Ok ==> Admitted(w, accepted, a))
            && (a.status != Ok ==> a.window == w && a.pendingRoc == pendingRoc)
            && a.pendingRoc <= pendingRoc
            && (a.status == ReplayFail ==> a.est in accepted)
            && (a.status == ReplayOld ==> a.est + |w.bits| <= w.index)
            && (a.status == PktIdxOld ==> a.est + SEQ_MEDIAN < w.index)
  {
    PacketIndexIs(w.index, pendingRoc, s);
    hide PacketIndex, Represents;
    var (status, est, delta) := PacketIndex(w.index, pendingRoc, s);
    assert LegalLength(|w.bits|) && (est > w.index ==> est !in accepted) by { RepresentsBound(w, accepted, est); }
    if status == PktIdxAdv {
      JumpRepresents(w, accepted, est);
    } else if status == Ok {
      CheckIsExact(w, accepted, delta);
      if Check(w, delta) == Ok {
        AddRepresents(w, accepted, delta);
      }
    }
  }

  /** The index outgrows 48 bits exactly when a packet of the next cycle arrives in the second half of the
      last one and no rollover counter has been announced; the packet is then given the index its number had in
      the very first cycle. */
  lemma OutgrownIff(w: Window, pendingRoc: nat, s: nat, allowRepeat: bool)
    requires LegalLength(|w.bits|) && w.index < INDEX_LIMIT && pendingRoc < ROC_LIMIT && s < SEQ_MAX
    ensures var a := Admit(w, pendingRoc, s, allowRepeat);
            && (a.window.index >= INDEX_LIMIT <==> pendingRoc == 0 && Outgrows(w.index, s))
            && (a.window.index >= INDEX_LIMIT ==> a.status == Ok && a.est == s)
  {
    EstimateFollowsDelta(w.index, s);
    var (est, delta) := EstimateIndex(w.index, s);
    if w.index >= INDEX_LIMIT - SEQ_MEDIAN {
      assert w.index / SEQ_MAX == ROC_LIMIT - 1 && w.index % SEQ_MAX == w.index - (INDEX_LIMIT - SEQ_MAX);
    }
  }

  /** With repeated transmission allowed the promise fails, for exactly the packets that the window
      still holds: those are given their old index again. */
  lemma RepeatIff(w: Window, accepted: set<nat>, pendingRoc: nat, s: nat, allowRepeat: bool)
    requires Represents(w, accepted) && w.index < INDEX_LIMIT && pendingRoc < ROC_LIMIT && s < SEQ_MAX
    requires Admit(w, pendingRoc, s, allowRepeat).window.index < INDEX_LIMIT
    ensures var a := Admit(w, pendingRoc, s, allowRepeat);
            a.status == Ok && a.est in accepted <==> allowRepeat && Place(w, pendingRoc, s).0 == ReplayFail
  {
    PacketIndexIs(w.index, pendingRoc, s);
    hide PacketIndex, Represents;
    var (status, est, delta) := PacketIndex(w.index, pendingRoc, s);
    RepresentsBound(w, accepted, est);
    if status == Ok {
      CheckIsExact(w, accepted, delta);
    }
  }

  /** So a repeated packet goes out under the index it went out under before. */
  lemma RepeatedIndex(w: Window, accepted: set<nat>, pendingRoc: nat, s: nat)
    requires Represents(w, accepted) && w.index < INDEX_LIMIT && pendingRoc < ROC_LIMIT && s < SEQ_MAX
    requires Admit(w, pendingRoc, s, true).status == Ok && Admit(w, pendingRoc, s, true).window.index < INDEX_LIMIT
    ensures var first := Admit(w, pendingRoc, s, true);
            var again := Admit(first.window, first.pendingRoc, s, true);
            again.status == Ok && again.est == first.est && again.window == first.window
  {
    PacketIndexIs(w.index, pendingRoc, s);
    var first := Admit(w, pendingRoc, s, true);
    PlacedAgain(w.index, pendingRoc, s, first.window.index, first.pendingRoc);
    hide PacketIndex, Represents;
    RepresentsBound(w, accepted, first.est);
  }

  // Once its index has been recorded, a packet is placed at that index again.
  lemma PlacedAgain(index: nat, pendingRoc: nat, s: nat, now: nat, roc: nat)
    requires index < INDEX_LIMIT && pendingRoc < ROC_LIMIT && s < SEQ_MAX && now < INDEX_LIMIT
    requires var (status, est, delta) := PacketIndex(index, pendingRoc, s);
             if status == PktIdxAdv then now == est && roc == 0
             else status == Ok && roc == pendingRoc && now == if delta > 0 then index + delta else index
    ensures var (_, est, _) := PacketIndex(index, pendingRoc, s); PacketIndex(now, roc, s) == (Ok, est, est - now)
  {
    PacketIndexIs(index, pendingRoc, s);
    var (_, est, _) := PacketIndex(index, pendingRoc, s);
    EstimateFindsTrueIndex(est, est);
  }

  lemma RepresentsBound(w: Window, accepted: set<nat>, est: nat)
    requires Represents(w, accepted)
    ensures LegalLength(|w.bits|) && (est > w.index ==> est !in accepted)
  {}

  // ---------- whole runs ----------

  // srtp_stream_set_roc only records the counter; packets carry sequence numbers.
  datatype Event = Packet(s: nat) | AnnounceRoc(roc: nat)

  // `log` lists the admitted indices in the order of admission.
  datatype RunState = RunState(window: Window, pendingRoc: nat, log: seq<nat>)

  function Step(st: RunState, e: Event): RunState
    requires st.window.bits != []
  {
    match e
    case AnnounceRoc(roc) => st.(pendingRoc := roc)
    case Packet(s) =>
      var a := Admit(st.window, st.pendingRoc, s, false);
      RunState(a.window, a.pendingRoc, if a.status == Ok then st.log + [a.est] else st.log)
  }

  function Run(st: RunState, events: seq<Event>): (r: RunState)
    requires st.window.bits != []
    ensures |r.window.bits| == |st.window.bits|
  {
    if events == [] then st else Step(Run(st, events[..|events| - 1]), events[|events| - 1])
  }

  predicate LegalEvent(e: Event) {
    match e
    case Packet(s) => s < SEQ_MAX
    case AnnounceRoc(roc) => roc < ROC_LIMIT
  }

  predicate WellFormed(events: seq<Event>) {
    forall i :: 0 <= i < |events| ==> LegalEvent(events[i])
  }

  predicate Distinct(log: seq<nat>) {
    forall i, j :: 0 <= i < j < |log| ==> log[i] != log[j]
  }

  function Elements(log: seq<nat>): set<nat> {
    set t | t in log
  }

  lemma StepIsMonotone(st: RunState, e: Event)
    requires st.window.bits != []
    ensures st.window.index <= Step(st, e).window.index
  {}

  /** In every state reachable by any events from a window with nothing accepted, as long as the
      index stays within 48 bits: the window represents exactly the admitted indices, and no index
      was admitted twice. */
  lemma {:induction false} RunRepresents(w: Window, events: seq<Event>)
    requires Represents(w, {}) && WellFormed(events)
    requires Run(RunState(w, 0, []), events).window.index < INDEX_LIMIT
    ensures var st := Run(RunState(w, 0, []), events);
            Represents(st.window, Elements(st.log)) && Distinct(st.log) && st.pendingRoc < ROC_LIMIT
  {
    if events == [] {
      assert Elements([]) == {};
    } else {
      var before := Run(RunState(w, 0, []), events[..|events| - 1]);
      var e := events[|events| - 1];
      assert LegalEvent(e);
      StepIsMonotone(before, e);
      RunRepresents(w, events[..|events| - 1]);
      if e.Packet? {
        hide Admit, Represents;
        AdmitRepresents(before.window, Elements(before.log), before.pendingRoc, e.s);
        var a := Admit(before.window, before.pendingRoc, e.s, false);
        assert Elements(before.log + [a.est]) == Elements(before.log) + {a.est};
        assert a.est !in Elements(before.log) ==> a.est !in before.log;
      }
    }
  }

  // ---------- a receiver against one that is told the true indices ----------

  datatype Ideal = Ideal(accepted: seq<nat>, highest: nat)

  function IdealStep(st: Ideal, length: nat, t: nat): Ideal {
    if st.accepted == [] then Ideal([t], t)
    else if t in st.accepted || t + length <= st.highest then st
    else Ideal(st.accepted + [t], if t > st.highest then t else st.highest)
  }

  function IdealRun(length: nat, ts: seq<nat>): Ideal {
    if ts == [] then Ideal([], 0) else IdealStep(IdealRun(length, ts[..|ts| - 1]), length, ts[|ts| - 1])
  }

  // Arrival i is less than 2^15 away from the highest index accepted before it.
  ghost predicate InSync(length: nat, ts: seq<nat>) {
    && (forall i :: 0 <= i < |ts| ==> ts[i] < INDEX_LIMIT)
    && (forall i :: 1 <= i < |ts| ==> Distance(ts[i], IdealRun(length, ts[..i]).highest) < SEQ_MEDIAN)
  }

  function Arrivals(ts: seq<nat>): seq<Event> {
    seq(|ts|, (i: nat) requires i < |ts| => Packet(ts[i] % SEQ_MAX))
  }

  lemma FirstArrival(length: nat, t: nat)
    requires LegalLength(length) && t < INDEX_LIMIT
    ensures var a := Admit(Fresh(length), t / SEQ_MAX, t % SEQ_MAX, false);
            a.status == Ok && a.est == t && a.window.index == t && a.pendingRoc == 0
  {
    var w := Fresh(length);
    if t >= SEQ_MAX {
      assert PacketIndex(0, t / SEQ_MAX, t % SEQ_MAX) == (PktIdxAdv, t, 0);
    } else {
      assert PacketIndex(0, 0, t) == (Ok, t, t);
    }
  }

  lemma LaterArrival(w: Window, accepted: set<nat>, t: nat)
    requires Represents(w, accepted) && w.index < INDEX_LIMIT && t < INDEX_LIMIT && Distance(t, w.index) < SEQ_MEDIAN
    ensures var a := Admit(w, 0, t % SEQ_MAX, false);
            && a.pendingRoc == 0
            && (a.status == Ok <==> t !in accepted && t + |w.bits| > w.index)
            && (a.status == Ok ==> a.est == t && a.window.index == if t > w.index then t else w.index)
            && (a.status != Ok ==> a.window == w)
  {
    EstimateFindsTrueIndex(w.index, t);
    hide EstimateIndex, Represents;
    assert LegalLength(|w.bits|) by { RepresentsBound(w, accepted, t); }
    CheckIsExact(w, accepted, t - w.index);
  }

  // The receiver has admitted what the ideal receiver accepted.
  ghost predicate Agree(st: RunState, ideal: Ideal, length: nat) {
    && st.log == ideal.accepted != [] && st.window.index == ideal.highest < INDEX_LIMIT
    && |st.window.bits| == length && Represents(st.window, Elements(st.log)) && Distinct(st.log)
    && st.pendingRoc == 0
  }

  lemma FirstStepAgrees(length: nat, t: nat)
    requires LegalLength(length) && t < INDEX_LIMIT
    ensures Agree(Step(RunState(Fresh(length), t / SEQ_MAX, []), Packet(t % SEQ_MAX)),
                  IdealStep(Ideal([], 0), length, t), length)
  {
    FirstArrival(length, t);
    assert Represents(Fresh(length), {});
    AdmitRepresents(Fresh(length), {}, t / SEQ_MAX, t % SEQ_MAX);
    hide Admit, Represents;
    assert Elements([t]) == {t};
  }

  lemma LaterStepAgrees(st: RunState, ideal: Ideal, length: nat, t: nat)
    requires Agree(st, ideal, length) && t < INDEX_LIMIT && Distance(t, ideal.highest) < SEQ_MEDIAN
    ensures Agree(Step(st, Packet(t % SEQ_MAX)), IdealStep(ideal, length, t), length)
  {
    hide Admit, Represents;
    assert LegalLength(length) by { RepresentsBound(st.window, Elements(st.log), t); }
    LaterArrival(st.window, Elements(st.log), t);
    AdmitRepresents(st.window, Elements(st.log), 0, t % SEQ_MAX);
    assert Elements(st.log + [t]) == Elements(st.log) + {t};
    assert t in st.log <==> t in Elements(st.log);
  }

  /** Over every run of a network that loses, duplicates and reorders packets, a receiver that sees
      only 16-bit sequence numbers admits exactly what an ideal receiver, told the true 48-bit
      indices, would admit, and at those indices.  The caller announces the first rollover counter
      unless it is zero; every later arrival is less than 2^15 from the highest accepted index. */
  lemma {:induction false} ReceiverAgrees(length: nat, ts: seq<nat>)
    requires LegalLength(length) && ts != [] && InSync(length, ts)
    ensures Agree(Run(RunState(Fresh(length), ts[0] / SEQ_MAX, []), Arrivals(ts)), IdealRun(length, ts), length)
    decreases |ts|
  {
    hide Agree, Step, IdealStep;
    var n := |ts| - 1;
    var start := RunState(Fresh(length), ts[0] / SEQ_MAX, []);
    assert Arrivals(ts)[..n] == Arrivals(ts[..n]);
    if n == 0 {
      FirstStepAgrees(length, ts[0]);
    } else {
      assert InSync(length, ts[..n]) by {
        forall i | 1 <= i < n ensures ts[..n][..i] == ts[..i] {}
      }
      ReceiverAgrees(length, ts[..n]);
      LaterStepAgrees(Run(start, Arrivals(ts[..n])), IdealRun(length, ts[..n]), length, ts[n]);
    }
  }

  /** The ideal receiver accepts nothing twice, and its highest index is the greatest accepted. */
  lemma {:induction false} IdealIsSound(length: nat, ts: seq<nat>)
    ensures var ideal := IdealRun(length, ts);
            && Distinct(ideal.accepted)
            && (forall t :: t in ideal.accepted ==> t in ts && t <= ideal.highest)
            && (ts != [] ==> ideal.highest in ideal.accepted)
  {
    if ts != [] {
      IdealIsSound(length, ts[..|ts| - 1]);
    }
  }
}
