/** A stream as an object: its replay state, and the allocations behind it. */
module StreamObjects {
  import opened Packets
  import opened Transforms
  import opened Sessions
  import opened Allocations
  import RW = ReplayWindow
  import RC = RtcpReplay

  // srtp_stream_ctx_t; its replay databases are embedded, hence values.
  class StreamCtx {
    const ssrc: Ssrc
    const policy: Policy
    const refs: Refs
    var window: RW.Window
    var rtcp: RC.RtcpWindow
    var direction: Direction
    var pendingRoc: nat

    ghost function Value(): Stream
      reads this
    {
      Stream(ssrc, policy, window, rtcp, direction, pendingRoc)
    }

    constructor (ssrc: Ssrc, policy: Policy, length: nat, direction: Direction, refs: Refs)
      ensures Value() == Stream(ssrc, policy, RW.Fresh(length), RC.Fresh(), direction, 0) && this.refs == refs
    {
      this.ssrc := ssrc;
      this.policy := policy;
      this.refs := refs;
      window := RW.Fresh(length);
      rtcp := RC.Fresh();
      this.direction := direction;
      pendingRoc := 0;
    }
  }

  function RefsOf(streams: seq<StreamCtx>): (r: seq<Refs>)
    ensures |r| == |streams| && forall i :: 0 <= i < |streams| ==> r[i] == streams[i].refs
  {
    seq(|streams|, (i: nat) requires i < |streams| => streams[i].refs)
  }

  function TemplateRefs(t: StreamCtx?): MaybeRefs {
    if t == null then NoRefs else SomeRefs(t.refs)
  }
}
