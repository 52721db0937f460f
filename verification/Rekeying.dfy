/**
 Adding, removing and re-keying streams, on session values: srtp_stream_add, srtp_stream_remove and
 srtp_stream_update.
 */
module Rekeying {
  import opened Errors
  import opened Packets
  import opened Transforms
  import opened Sessions
  import RW = ReplayWindow
  import RC = RtcpReplay
  import Runs = SessionRuns

  datatype Kind = Specific | AnyOutbound | AnyInbound

  const DEFAULT_WINDOW := 128

  // The window sizes that srtp_stream_init accepts; zero asks for the default.
  predicate AcceptedWindow(size: nat) {
    size == 0 || 64 <= size < 0x8000
  }

  // Bit vectors are whole words.
  function WindowLength(size: nat): (n: nat)
    requires AcceptedWindow(size)
    ensures RW.LegalLength(n)
  {
    ((if size == 0 then DEFAULT_WINDOW else size) + 31) / 32 * 32
  }

  /** A policy asks for 64 to 32767 packets, or leaves it at 128; it gets the next multiple of 32. */
  lemma WindowSizes(size: nat)
    ensures AcceptedWindow(size) <==> size == 0 || 64 <= size <= 32767
    ensures AcceptedWindow(size) ==>
              var n, wanted := WindowLength(size), if size == 0 then 128 else size; n % 32 == 0 && wanted <= n < wanted + 32
  {}

  function NewStream(ssrc: Ssrc, policy: Policy, size: nat, direction: Direction): Stream
    requires AcceptedWindow(size)
  {
    Stream(ssrc, policy, RW.Fresh(WindowLength(size)), RC.Fresh(), direction, 0)
  }

  // srtp_stream_add
  function Added(s: Session, kind: Kind, ssrc: Ssrc, policy: Policy, size: nat): Outcome {
    if !AcceptedWindow(size) || (!kind.Specific? && s.template.Some?) then Outcome(BadParam, [], s)
    else if kind.Specific? then
      Outcome(Ok, [], s.(streams := s.streams + [NewStream(ssrc, policy, size, Unknown)]))
    else
      Outcome(Ok, [], s.(template := Some(NewStream(ssrc, policy, size, if kind.AnyOutbound? then Sender else Receiver))))
  }

  function Without<T>(s: seq<T>, i: nat): (r: seq<T>)
    requires i < |s|
    ensures |r| == |s| - 1
  {
    s[..i] + s[i + 1..]
  }

  // srtp_stream_remove
  function Removed(s: Session, ssrc: Ssrc): Outcome {
    match Find(s.streams, ssrc)
    case None => Outcome(NoCtx, [], s)
    case Some(i) => Outcome(Ok, [], s.(streams := Without(s.streams, i)))
  }

  // is_update_policy_compatable
  predicate Compatible(was: Policy, now: Policy) {
    was.useMki == now.useMki && (was.useMki ==> was.mkiSize == now.mkiSize)
  }

  // A new stream that goes on counting where the old one stopped.
  /** A re-key may change everything but the room that the identifier takes. */
  lemma CompatibleIff(was: Policy, now: Policy)
    requires Lawful(was) && Lawful(now)
    ensures Compatible(was, now) <==> was.mkiSize == now.mkiSize
  {
    hide LawfulKeys;
  }

  function Continued(was: Stream, now: Stream): Stream {
    now.(window := RW.Window(was.window.index, now.window.bits), rtcp := was.rtcp)
  }

  // stream_update: remove, add, restore.
  function StreamUpdated(s: Session, ssrc: Ssrc, policy: Policy, size: nat): Outcome {
    match Find(s.streams, ssrc)
    case None => Outcome(BadParam, [], s)
    case Some(i) =>
      if !Compatible(s.streams[i].policy, policy) then Outcome(BadParam, [], s)
      else if !AcceptedWindow(size) then Outcome(BadParam, [], s.(streams := Without(s.streams, i)))
      else
        var now := Continued(s.streams[i], NewStream(ssrc, policy, size, Unknown));
        Outcome(Ok, [], s.(streams := Without(s.streams, i) + [now]))
  }

  // One stream under a new template: cloned anew if it was a clone of the old one, else left as it is.
  function UnderTemplate(was: Stream, isClone: bool, t: Stream): Stream {
    if isClone then Continued(was, Clone(t, was.ssrc)) else was
  }

  // update_template_streams when it succeeds
  function TemplateUpdated(s: Session, clones: seq<bool>, t: Stream): (r: Session)
    requires |clones| == |s.streams|
    ensures |r.streams| == |s.streams|
  {
    Session(seq(|s.streams|, (i: nat) requires i < |s.streams| => UnderTemplate(s.streams[i], clones[i], t)), Some(t))
  }

  // The population is kept: the same SSRCs in the same order, each with its packet index and its RTCP replay
  // state; streams with keys of their own are not touched.
  ghost predicate Repopulated(was: seq<Stream>, clones: seq<bool>, t: Stream, now: seq<Stream>) {
    && |was| == |clones| == |now|
    && forall i :: 0 <= i < |was| ==>
         && now[i].ssrc == was[i].ssrc && now[i].window.index == was[i].window.index && now[i].rtcp == was[i].rtcp
         && (clones[i] ==> now[i].policy == t.policy && now[i].direction == t.direction && now[i].pendingRoc == 0)
         && (!clones[i] ==> now[i] == was[i])
  }

  lemma TemplateUpdateKeeps(s: Session, clones: seq<bool>, t: Stream)
    requires |clones| == |s.streams|
    ensures Repopulated(s.streams, clones, t, TemplateUpdated(s, clones, t).streams)
  {}

  lemma TemplateUpdateValid(s: Session, clones: seq<bool>, t: Stream)
    requires Valid(s) && |clones| == |s.streams| && ValidStream(t) && t.rtcp == RC.Fresh()
    ensures Valid(TemplateUpdated(s, clones, t))
  {
    hide Lawful;
    var r := TemplateUpdated(s, clones, t);
    forall i | 0 <= i < |r.streams| ensures ValidStream(r.streams[i]) {
      assert ValidStream(s.streams[i]);
    }
    forall i, j | 0 <= i < j < |r.streams| ensures r.streams[i].ssrc != r.streams[j].ssrc {
      assert s.streams[i].ssrc != s.streams[j].ssrc;
    }
  }

  lemma ContinuedIsBlank(was: Stream, now: Stream)
    requires RW.Represents(now.window, {})
    ensures RW.Represents(Continued(was, now).window, {})
  {
    var w := now.window;
    forall i | 0 <= i < |w.bits| ensures !w.bits[i] {
      assert w.bits[i] == (w.index - (|w.bits| - 1 - i) in {});
    }
  }

  /** After a re-key of a session whose streams are all clones, nothing has been used under the new keys
      and the windows say so: the guarantees over whole runs hold again from there. */
  lemma TemplateUpdateIsBlank(s: Session, clones: seq<bool>, t: Stream)
    requires Valid(s) && |clones| == |s.streams| && ValidStream(t) && forall i :: 0 <= i < |clones| ==> clones[i]
    ensures Runs.Faithful(TemplateUpdated(s, clones, t), [])
  {
    hide RW.Represents;
    var r := TemplateUpdated(s, clones, t);
    Runs.FreshRepresents(|t.window.bits|);
    forall i | 0 <= i < |r.streams| ensures RW.Represents(r.streams[i].window, Runs.UsedBy([], r.streams[i].ssrc)) {
      assert Runs.UsedBy([], r.streams[i].ssrc) == {};
      ContinuedIsBlank(s.streams[i], Clone(t, s.streams[i].ssrc));
    }
  }

  // ---------- single streams ----------

  lemma AddedValid(s: Session, kind: Kind, ssrc: Ssrc, policy: Policy, size: nat)
    requires Valid(s) && Lawful(policy) && (kind.Specific? ==> Find(s.streams, ssrc).None?)
    ensures Valid(Added(s, kind, ssrc, policy, size).session)
  {
    hide Lawful;
    if AcceptedWindow(size) && kind.Specific? {
      Runs.AppendValid(s, NewStream(ssrc, policy, size, Unknown));
    }
  }

  lemma WithoutValid(s: Session, i: nat)
    requires Valid(s) && i < |s.streams|
    ensures Valid(s.(streams := Without(s.streams, i)))
    ensures Find(Without(s.streams, i), s.streams[i].ssrc).None?
  {
    hide ValidStream;
    var r := Without(s.streams, i);
    assert forall j :: 0 <= j < |r| ==> r[j] == s.streams[if j < i then j else j + 1];
  }

  lemma RemovedValid(s: Session, ssrc: Ssrc)
    requires Valid(s)
    ensures Valid(Removed(s, ssrc).session) && Find(Removed(s, ssrc).session.streams, ssrc).None?
  {
    if Find(s.streams, ssrc).Some? {
      WithoutValid(s, Find(s.streams, ssrc).value);
    }
  }

  lemma StreamUpdatedValid(s: Session, ssrc: Ssrc, policy: Policy, size: nat)
    requires Valid(s) && Lawful(policy)
    ensures Valid(StreamUpdated(s, ssrc, policy, size).session)
  {
    hide Lawful;
    if Find(s.streams, ssrc).Some? {
      var i := Find(s.streams, ssrc).value;
      WithoutValid(s, i);
      if AcceptedWindow(size) && Compatible(s.streams[i].policy, policy) {
        var now := Continued(s.streams[i], NewStream(ssrc, policy, size, Unknown));
        assert ValidStream(s.streams[i]) && ValidStream(now);
        Runs.AppendValid(s.(streams := Without(s.streams, i)), now);
      }
    }
  }

  /** A stream survives its own re-key unless the new policy asks for a window that cannot be had: then,
      and only then, the call takes the old stream away and puts nothing in its place. */
  lemma StreamUpdateLoses(s: Session, ssrc: Ssrc, policy: Policy, size: nat)
    requires Valid(s) && Lawful(policy) && Find(s.streams, ssrc).Some?
    ensures var i := Find(s.streams, ssrc).value;
            var r := StreamUpdated(s, ssrc, policy, size).session;
            && (Find(r.streams, ssrc).None? <==> Compatible(s.streams[i].policy, policy) && !AcceptedWindow(size))
            && (forall j :: 0 <= j < |s.streams| && j != i ==> s.streams[j] in r.streams)
            && (Find(r.streams, ssrc).Some? ==>
                var now := r.streams[Find(r.streams, ssrc).value];
                now.window.index == s.streams[i].window.index && now.rtcp == s.streams[i].rtcp)
  {
    hide Lawful, Valid;
    var i := Find(s.streams, ssrc).value;
    WithoutValid(s, i);
    var rest := Without(s.streams, i);
    forall j | 0 <= j < |s.streams| && j != i ensures s.streams[j] in rest {
      assert s.streams[j] == rest[if j < i then j else j - 1];
    }
    if AcceptedWindow(size) && Compatible(s.streams[i].policy, policy) {
      Runs.FindLast(rest, Continued(s.streams[i], NewStream(ssrc, policy, size, Unknown)));
    }
  }
}
