/**
 A session as the C structures it is made of: stream objects in a list, a template, and the
 allocations behind them.  The calls act on packets in buffers and are proved to do what Sessions
 says; the heap always holds exactly what the session's streams will free.
 */
module SessionObjects {
  import opened Errors
  import CM = CounterMode
  import opened Packets
  import opened Transforms
  import opened Sessions
  import opened PacketBuffers
  import opened Allocations
  import opened StreamObjects
  import opened StreamLists
  import RW = ReplayWindow
  import RC = RtcpReplay
  import Runs = SessionRuns
  import RoundTrips
  import Rekeying

  // Each stream has a key, and shares everything with the template, or nothing.
  ghost predicate AllOrNothing(streams: seq<Refs>, t: MaybeRefs) {
    && (forall i :: 0 <= i < |streams| ==> streams[i].keys != [])
    && (t.SomeRefs? ==> t.refs.keys != [])
    && (t.SomeRefs? ==> forall i :: 0 <= i < |streams| ==> IsClone(streams[i], t.refs) || IsApart(streams[i], t.refs))
  }

  ghost predicate AllApart(streams: seq<Refs>, t: Refs) {
    forall i :: 0 <= i < |streams| ==> IsApart(streams[i], t)
  }

  ghost predicate Different(streams: seq<StreamCtx>) {
    forall i, j :: 0 <= i < j < |streams| ==> streams[i] != streams[j]
  }

  // A stream under a new template.
  ghost function Renewed(s: StreamCtx, before: Refs, t: StreamCtx): Stream
    reads s, t
  {
    Rekeying.UnderTemplate(s.Value(), IsClone(s.refs, before), t.Value())
  }

  class Srtp {
    const heap: Heap
    var list: StreamList
    ghost var streams: seq<StreamCtx>  // the contents of the list
    var template: StreamCtx?
    ghost var others: multiset<Block>  // allocations that are not this session's

    ghost function Values(): (r: seq<Stream>)
      reads this`streams, streams
      ensures |r| == |streams| && forall i :: 0 <= i < |streams| ==> r[i] == streams[i].Value()
    {
      var all := streams;
      seq(|all|, (i: nat) requires i < |all| reads all => all[i].Value())
    }

    ghost function Value(): Session
      reads this`streams, streams, this`template, template
    {
      Session(Values(), if template == null then None else Some(template.Value()))
    }

    ghost predicate Linked()
      reads this`list, this`streams, list, list.entries
    {
      list.Valid() && list.Contents() == streams
    }

    // No stream is listed twice, and the template is not listed.
    ghost predicate Shape()
      reads this`list, this`streams, this`template, list, list.entries
    {
      Linked() && Different(streams) && template !in streams
    }

    // A packet buffer is not memory of the list.
    ghost predicate Outside(buffer: array<bv8>)
      reads this`list, list`entries
    {
      (buffer as object) != (list.entries as object)
    }

    // The list is still the same, though it may have grown into a new buffer.
    twostate predicate SameList()
      reads this`list, list`entries
    {
      list == old(list) && (list.entries == old(list.entries) || fresh(list.entries))
    }

    // The heap holds what the streams and the template will free, each block once, and nothing more.
    ghost predicate Accounted()
      reads this`streams, this`template, this`others, heap
    {
      && multiset(heap.live) == HeldBySession(RefsOf(streams), TemplateRefs(template)) + others
      && AllOrNothing(RefsOf(streams), TemplateRefs(template))
    }

    ghost predicate Valid()
      reads this, list, list.entries, streams, template, heap
    {
      Shape() && Sessions.Valid(Value()) && Accounted()
    }

    /** Nothing dangles: whatever a stream or the template points to has not been freed, whoever owns it. */
    lemma NothingDangles(b: Block)
      requires Valid()
      requires (exists i :: 0 <= i < |streams| && Points(streams[i].refs, b)) || (template != null && Points(template.refs, b))
      ensures b in heap.live
    {
      hide Freed, Held, Points, IsClone, IsApart, Sessions.Valid, Linked;
      if template != null && Points(template.refs, b) {
        PointsFreed(template.refs, b);
      } else {
        var i :| 0 <= i < |streams| && Points(streams[i].refs, b);
        var r := RefsOf(streams)[i];
        PointsFreed(r, b);
        if template != null {
          if IsClone(r, template.refs) {
            ClonePoints(r, template.refs, b);
          } else {
            ApartFreed(r, template.refs);
          }
        }
        FreedIsHeld(RefsOf(streams), i, TemplateRefs(template), b);
      }
      assert b in multiset(heap.live);
    }

    constructor (heap: Heap)
      ensures Valid() && this.heap == heap && Value() == Session([], None) && others == multiset(heap.live)
      ensures fresh(list) && fresh(list.entries)
    {
      this.heap := heap;
      list := new StreamList();
      streams := [];
      template := null;
      others := multiset(heap.live);
      new;
      hide HeldBySession, AllOrNothing, Sessions.Valid;
      NothingYet(others);
      assert RefsOf(streams) == [] && Values() == [];
    }

    // ---------- streams ----------

    // srtp_get_stream; -1 stands for NULL
    method Lookup(ssrc: Ssrc) returns (i: int)
      requires Linked()
      ensures i == match Find(Values(), ssrc) case None => -1 case Some(n) => n
    {
      hide Find;
      var n := list.FindFirst(ssrc);
      i := if n < list.size then n else -1;
      assert n < |streams| ==> Values()[n].ssrc == ssrc;
    }

    function StreamAt(i: nat): (s: StreamCtx)
      requires Linked() && i < |streams|
      reads this`list, this`streams, list, list.entries
      ensures s == streams[i]
    {
      list.At(i)
    }

    function Count(): (n: nat)
      requires Linked()
      reads this`list, this`streams, list, list.entries
      ensures n == |streams|
    {
      list.size
    }

    lemma FirstEntry()
      requires Linked()
      ensures list.size == |streams| <= list.entries.Length
      ensures 0 < list.size ==> list.entries[0].stream == streams[0] && FirstWith(streams, streams[0].ssrc) == 0
    {}

    // srtp_stream_list_insert
    method Append(stream: StreamCtx)
      requires Linked()
      modifies this`streams, list, list.entries
      ensures Linked() && SameList() && streams == old(streams) + [stream]
    {
      list.Insert(stream);
      streams := streams + [stream];
    }

    // srtp_stream_list_remove
    method Detach(stream: StreamCtx, ghost i: nat)
      requires Linked() && i < |streams| && streams[i] == stream && i == FirstWith(streams, stream.ssrc)
      modifies this`streams, list, list.entries
      ensures Linked() && SameList() && list.entries == old(list.entries) && streams == Rekeying.Without(old(streams), i)
      ensures list.size == old(list.size) - 1
    {
      list.Remove(stream);
      streams := Rekeying.Without(streams, i);
    }

    // Writing one stream's fields changes its entry and nothing else.
    method Write(i: nat, window: RW.Window, rtcp: RC.RtcpWindow, direction: Direction, pendingRoc: nat)
      requires Shape() && i < |streams|
      modifies streams[i]
      ensures Values() == old(Values())[i := Stream(streams[i].ssrc, streams[i].policy, window, rtcp, direction, pendingRoc)]
      ensures template != null ==> template.Value() == old(template.Value())
    {
      var s := StreamAt(i);
      s.window, s.rtcp, s.direction, s.pendingRoc := window, rtcp, direction, pendingRoc;
    }

    // srtp_stream_clone and srtp_insert_or_dealloc_stream
    method InsertClone(ssrc: Ssrc, direction: Direction)
      requires Valid() && template != null && Find(Values(), ssrc).None?
      modifies this`streams, list, list.entries, heap
      ensures SameList()
      ensures Valid() && template == old(template) && |streams| == |old(streams)| + 1 && streams[..|old(streams)|] == old(streams)
      ensures fresh(streams[|streams| - 1])
      ensures Value() == old(Value()).(streams := old(Values()) + [Clone(template.Value(), ssrc).(direction := direction)])
    {
      hide HeldBySession, Freed, IsClone, AllOrNothing, Sessions.Valid, ValidStream, Clone, Linked;
      var clone := AppendClone(ssrc, direction);
      CloneIs(template.Value(), ssrc);
      Runs.TemplateValid(old(Value()));
      StillValid(template.Value(), ssrc, direction);
      Runs.AppendValid(old(Value()), clone.Value());
    }

    method AppendClone(ssrc: Ssrc, direction: Direction) returns (clone: StreamCtx)
      requires Shape() && Accounted() && template != null
      modifies this`streams, list, list.entries, heap
      ensures Shape() && Accounted() && SameList() && fresh(clone) && streams == old(streams) + [clone]
      ensures Values() == old(Values()) + [clone.Value()]
      ensures clone.Value() == Stream(ssrc, template.policy, RW.Fresh(|template.window.bits|), RC.Fresh(), direction, 0)
    {
      hide HeldBySession, Freed, IsClone, AllOrNothing, Linked;
      ghost var was, live := RefsOf(streams), multiset(heap.live);
      var refs := heap.AcquireClone(template.refs);
      clone := new StreamCtx(ssrc, template.policy, |template.window.bits|, direction, refs);
      Append(clone);
      assert RefsOf(streams) == was + [refs];
      HeldClone(was, refs, template.refs, live, multiset(heap.live), others);
    }

    // The stream of an SSRC, cloned from the template if need be; -1 if there is none.
    method FindSender(ssrc: Ssrc, direction: Direction) returns (i: int)
      requires Valid()
      modifies this`streams, list, list.entries, heap
      ensures SameList()
      ensures Valid() && template == old(template) && forall s :: s in streams ==> s in old(streams) || fresh(s)
      ensures match WithSender(old(Value()), ssrc, direction)
              case None => i == -1 && Value() == old(Value())
              case Some(found) => Value() == found && 0 <= i < |streams| && Find(found.streams, ssrc) == Some(i)
    {
      hide Sessions.Valid, Accounted, Linked;
      i := Lookup(ssrc);
      if i == -1 && template != null {
        i := Count();
        InsertClone(ssrc, direction);
        Runs.FindLast(old(Values()), Values()[i]);
      }
    }

    /** srtp_stream_add.  A refused policy leaves nothing behind. */
    method AddStream(kind: Rekeying.Kind, ssrc: Ssrc, policy: Policy, size: nat) returns (status: Status)
      requires Valid() && Lawful(policy) && (kind.Specific? ==> Find(Values(), ssrc).None?)
      modifies this`streams, list, list.entries, this`template, heap
      ensures SameList()
      ensures Valid()
      ensures var o := Rekeying.Added(old(Value()), kind, ssrc, policy, size); status == o.status && Value() == o.session
      ensures status != Ok ==> multiset(heap.live) == multiset(old(heap.live)) && streams == old(streams) && template == old(template)
      ensures status == Ok && kind.Specific? ==>
                streams == old(streams) + [streams[|old(streams)|]] && fresh(streams[|old(streams)|]) && template == old(template)
      ensures status == Ok && !kind.Specific? ==> streams == old(streams) && fresh(template)
    {
      hide HeldBySession, Freed, IsClone, IsApart, AllOrNothing, Sessions.Valid, Find, Linked;
      ghost var was, live := RefsOf(streams), multiset(heap.live);
      ghost var known := was + (if template == null then [] else [template.refs]);
      var initialized := Rekeying.AcceptedWindow(size);
      var refs := heap.AcquireStream(|policy.keys|, policy.keys[0].xtn.Some?, policy.mkiSize > 0, policy.ids != [], initialized, known);
      if !initialized || (!kind.Specific? && template != null) {
        heap.ReleaseStream(refs, NoRefs, live);
        return BadParam;
      }
      assert refs.keys != [];
      EnlistNew(kind, ssrc, policy, size, refs, live, known);
      return Ok;
    }

    method EnlistNew(kind: Rekeying.Kind, ssrc: Ssrc, policy: Policy, size: nat, refs: Refs,
                     ghost live: multiset<Block>, ghost known: seq<Refs>)
      requires Shape() && AllOrNothing(RefsOf(streams), TemplateRefs(template)) && Sessions.Valid(Value()) && Lawful(policy)
      requires Rekeying.AcceptedWindow(size) && if kind.Specific? then Find(Values(), ssrc).None? else template == null
      requires live == HeldBySession(RefsOf(streams), TemplateRefs(template)) + others
      requires multiset(heap.live) == live + Freed(refs, NoRefs) && refs.keys != []
      requires known == RefsOf(streams) + (if template == null then [] else [template.refs])
      requires forall o :: o in known ==> IsApart(o, refs) && IsApart(refs, o)
      modifies this`streams, list, list.entries, this`template
      ensures Valid() && SameList() && Value() == Rekeying.Added(old(Value()), kind, ssrc, policy, size).session
      ensures kind.Specific? ==>
                streams == old(streams) + [streams[|old(streams)|]] && fresh(streams[|old(streams)|]) && template == old(template)
      ensures !kind.Specific? ==> streams == old(streams) && fresh(template)
    {
      hide HeldBySession, Freed, IsClone, IsApart, AllOrNothing, Sessions.Valid, Find, Linked;
      Rekeying.AddedValid(Value(), kind, ssrc, policy, size);
      var direction := match kind case Specific => Unknown case AnyOutbound => Sender case AnyInbound => Receiver;
      var stream := new StreamCtx(ssrc, policy, Rekeying.WindowLength(size), direction, refs);
      Enlist(kind.Specific?, stream, live, known);
    }

    // A new stream goes into the list, or becomes the template.
    method Enlist(specific: bool, stream: StreamCtx, ghost live: multiset<Block>, ghost known: seq<Refs>)
      requires Shape() && AllOrNothing(RefsOf(streams), TemplateRefs(template)) && stream !in streams && stream != template
      requires live == HeldBySession(RefsOf(streams), TemplateRefs(template)) + others && (!specific ==> template == null)
      requires multiset(heap.live) == live + Freed(stream.refs, NoRefs) && stream.refs.keys != []
      requires known == RefsOf(streams) + (if template == null then [] else [template.refs])
      requires forall o :: o in known ==> IsApart(o, stream.refs) && IsApart(stream.refs, o)
      modifies this`streams, list, list.entries, this`template
      ensures Shape() && Accounted() && SameList()
      ensures if specific then streams == old(streams) + [stream] && template == old(template)
              else streams == old(streams) && template == stream
      ensures Values() == if specific then old(Values()) + [stream.Value()] else old(Values())
    {
      hide HeldBySession, Freed, IsClone, IsApart, AllOrNothing, Linked;
      if specific {
        if template != null {
          assert template.refs in known;
        }
        InsertStranger(stream, live);
      } else {
        InstallTemplate(stream, live, known);
      }
    }

    method InstallTemplate(stream: StreamCtx, ghost live: multiset<Block>, ghost known: seq<Refs>)
      requires Shape() && template == null && AllOrNothing(RefsOf(streams), NoRefs) && stream !in streams
      requires live == HeldBySession(RefsOf(streams), NoRefs) + others
      requires multiset(heap.live) == live + Freed(stream.refs, NoRefs) && stream.refs.keys != []
      requires known == RefsOf(streams) && forall o :: o in known ==> IsApart(o, stream.refs)
      modifies this`template
      ensures Shape() && Accounted() && template == stream && Values() == old(Values())
    {
      hide HeldBySession, Freed, IsApart, IsClone, AllOrNothing, Linked;
      ghost var was := RefsOf(streams);
      forall i | 0 <= i < |was| ensures IsApart(was[i], stream.refs) {
        assert was[i] in known;
      }
      template := stream;
      HeldTemplate(was, stream.refs, live, multiset(heap.live), others);
    }

    method InsertStranger(stream: StreamCtx, ghost live: multiset<Block>)
      requires Shape() && AllOrNothing(RefsOf(streams), TemplateRefs(template)) && stream !in streams && stream != template
      requires live == HeldBySession(RefsOf(streams), TemplateRefs(template)) + others
      requires multiset(heap.live) == live + Freed(stream.refs, NoRefs) && stream.refs.keys != []
      requires template != null ==> IsApart(stream.refs, template.refs)
      modifies this`streams, list, list.entries
      ensures SameList()
      ensures Shape() && Accounted() && streams == old(streams) + [stream] && Values() == old(Values()) + [stream.Value()]
    {
      hide HeldBySession, Freed, IsApart, AllOrNothing, Linked;
      ghost var was := RefsOf(streams);
      Append(stream);
      assert RefsOf(streams) == was + [stream.refs];
      HeldStranger(was, stream.refs, TemplateRefs(template), live, multiset(heap.live), others);
    }

    // srtp_stream_list_remove and srtp_stream_dealloc
    method Drop(stream: StreamCtx, ghost i: nat)
      requires Linked() && Accounted() && i < |streams| && streams[i] == stream && i == FirstWith(streams, stream.ssrc)
      modifies this`streams, list, list.entries, heap
      ensures Linked() && Accounted() && SameList() && list.entries == old(list.entries)
      ensures streams == Rekeying.Without(old(streams), i) && list.size == old(list.size) - 1
    {
      hide HeldBySession, Freed, AllOrNothing, FirstWith, Linked;
      ghost var was := RefsOf(streams);
      HeldRest(was, i, TemplateRefs(template), multiset(heap.live), others);
      Detach(stream, i);
      assert RefsOf(streams) == Rekeying.Without(was, i);
      heap.ReleaseStream(stream.refs, TemplateRefs(template), HeldBySession(RefsOf(streams), TemplateRefs(template)) + others);
    }

    /** srtp_stream_remove: the blocks that were the stream's own are freed, the template's are not. */
    method RemoveStream(ssrc: Ssrc) returns (status: Status)
      requires Valid()
      modifies this`streams, list, list.entries, heap
      ensures SameList()
      ensures Valid()
      ensures var o := Rekeying.Removed(old(Value()), ssrc); status == o.status && Value() == o.session
      ensures status == Ok ==> streams == Rekeying.Without(old(streams), Find(old(Values()), ssrc).value)
      ensures status != Ok ==> streams == old(streams)
    {
      hide Accounted, Sessions.Valid, Find, FirstWith, Linked, Rekeying.Without;
      Rekeying.RemovedValid(Value(), ssrc);
      var i := Lookup(ssrc);
      if i == -1 {
        return NoCtx;
      }
      DropAt(i);
      return Ok;
    }

    method DropAt(i: nat)
      requires Shape() && Accounted() && i < |streams| && i == FirstWith(streams, streams[i].ssrc)
      modifies this`streams, list, list.entries, heap
      ensures Shape() && Accounted() && SameList()
      ensures streams == Rekeying.Without(old(streams), i) && Values() == Rekeying.Without(old(Values()), i)
    {
      hide Accounted, Linked, FirstWith, Rekeying.Without;
      Drop(StreamAt(i), i);
      WithoutKeeps(old(streams), i);
      ValuesWithout(old(streams), i, old(Values()), Values());
    }

    // srtp_stream_remove, then srtp_stream_add
    method Replace(ssrc: Ssrc, policy: Policy, size: nat) returns (status: Status)
      requires Valid() && Lawful(policy) && Find(Values(), ssrc).Some?
      modifies this`streams, list, list.entries, this`template, heap
      ensures SameList()
      ensures Valid() && template == old(template) && (template != null ==> template.Value() == old(template.Value()))
      ensures status == if Rekeying.AcceptedWindow(size) then Ok else BadParam
      ensures var rest := Rekeying.Without(old(Values()), Find(old(Values()), ssrc).value);
              && Values() == (if status == Ok then rest + [Rekeying.NewStream(ssrc, policy, size, Unknown)] else rest)
              && (status == Ok ==> Find(Values(), ssrc) == Some(|rest|))
      ensures status == Ok ==> fresh(streams[|streams| - 1])
    {
      hide Accounted, Sessions.Valid, Find, Lawful, Rekeying.Without, Rekeying.NewStream, Linked;
      ghost var start := Value();
      Rekeying.RemovedValid(start, ssrc);
      status := RemoveStream(ssrc);
      ghost var rest := Values();
      status := AddStream(Rekeying.Specific, ssrc, policy, size);
      if status == Ok {
        assert Values()[|rest|].ssrc == ssrc by { NewSsrc(ssrc, policy, size); }
        Runs.FindLast(rest, Values()[|rest|]);
      }
    }

    /** stream_update: the stream is replaced by one with the new keys that goes on counting. */
    method UpdateStream(ssrc: Ssrc, policy: Policy, size: nat) returns (status: Status)
      requires Valid() && Lawful(policy)
      modifies this`streams, list, list.entries, this`template, heap
      ensures SameList()
      ensures Valid() && template == old(template)
      ensures var o := Rekeying.StreamUpdated(old(Value()), ssrc, policy, size); status == o.status && Value() == o.session
    {
      hide Accounted, Sessions.Valid, Find, Lawful, Rekeying.Without, Rekeying.AcceptedWindow, Linked;
      ghost var start := Value();
      Rekeying.StreamUpdatedValid(start, ssrc, policy, size);
      var i := Lookup(ssrc);
      if i == -1 {
        return BadParam;
      }
      var s := StreamAt(i);
      if s.policy.useMki != policy.useMki || (s.policy.useMki && s.policy.mkiSize != policy.mkiSize) {
        return BadParam;
      }
      assert start.streams[i] == s.Value();
      hide Rekeying.NewStream;
      status := ReplaceAndResume(ssrc, policy, size, s.window.index, s.rtcp, i);
    }

    method ReplaceAndResume(ssrc: Ssrc, policy: Policy, size: nat, index: nat, rtcp: RC.RtcpWindow, ghost i: nat)
      returns (status: Status)
      requires Valid() && Lawful(policy) && Find(Values(), ssrc) == Some(i)
      requires index == streams[i].window.index && rtcp == streams[i].rtcp
      modifies this`streams, list, list.entries, this`template, heap
      ensures SameList()
      ensures Shape() && Accounted() && template == old(template) && (template != null ==> template.Value() == old(template.Value()))
      ensures status == if Rekeying.AcceptedWindow(size) then Ok else BadParam
      ensures var rest := Rekeying.Without(old(Values()), i);
              Values() == if status != Ok then rest
                          else rest + [Rekeying.Continued(old(Values())[i], Rekeying.NewStream(ssrc, policy, size, Unknown))]
    {
      hide Accounted, Sessions.Valid, Find, Lawful, Rekeying.Without, Rekeying.AcceptedWindow, Rekeying.NewStream, Linked;
      status := Replace(ssrc, policy, size);
      if status == Ok {
        Resume(ssrc, index, rtcp);
      }
    }

    // Restoring the counters of the stream that was added last.
    method Resume(ssrc: Ssrc, index: nat, rtcp: RC.RtcpWindow)
      requires Shape() && Accounted() && streams != [] && Find(Values(), ssrc) == Some(|streams| - 1)
      modifies streams[|streams| - 1]
      ensures Shape() && Accounted() && (template != null ==> template.Value() == old(template.Value()))
      ensures var n := |streams| - 1;
              var now := old(Values())[n];
              Values() == old(Values())[..n] + [now.(window := RW.Window(index, now.window.bits), rtcp := rtcp)]
    {
      hide Accounted, Find, Linked;
      var j := Lookup(ssrc);
      var now := StreamAt(j);
      Write(j, RW.Window(index, now.window.bits), rtcp, now.direction, now.pendingRoc);
    }

    // update_template_stream_cb on the first stream left: a clone of the old template is freed and cloned
    // anew, any other stream is moved as it is.
    method MoveFirst(first: StreamCtx, t: StreamCtx, ghost rest: multiset<Block>) returns (moved: StreamCtx)
      requires Linked() && streams != [] && first == streams[0]
      requires template != null && AllOrNothing(RefsOf(streams), TemplateRefs(template))
      requires IsApart(first.refs, t.refs) && t.refs.keys != []
      requires multiset(heap.live) == Held(RefsOf(streams), TemplateRefs(template)) + rest
      modifies this`streams, list, list.entries, heap
      ensures Linked() && SameList() && list.entries == old(list.entries) && list.size == old(list.size) - 1 && streams == old(streams)[1..]
      ensures multiset(heap.live) == Held(RefsOf(streams), TemplateRefs(template)) + (Freed(moved.refs, SomeRefs(t.refs)) + rest)
      ensures moved == first || fresh(moved)
      ensures moved.refs.keys != [] && (IsClone(moved.refs, t.refs) || IsApart(moved.refs, t.refs))
      ensures moved.Value() == Renewed(first, template.refs, t)
    {
      hide Held, Freed, Linked;
      ghost var was := RefsOf(streams);
      var before := SomeRefs(template.refs);
      HeldWithout(was, 0, before);
      assert FirstWith(streams, first.ssrc) == 0;
      Detach(first, 0);
      assert RefsOf(streams) == was[..0] + was[1..];
      ghost var left := Held(RefsOf(streams), before);
      SameAuth(first.refs, template.refs);
      if first.refs.keys[0].rtpAuth != template.refs.keys[0].rtpAuth {
        moved := first;
        ApartFreed(first.refs, template.refs);
        ApartFreed(first.refs, t.refs);
        SumAssociates(left, Freed(first.refs, before), rest);
      } else {
        moved := Reclone(first, t, left, rest);
      }
    }

    // Freeing a clone of the old template and cloning it from the new one.
    method Reclone(first: StreamCtx, t: StreamCtx, ghost left: multiset<Block>, ghost rest: multiset<Block>) returns (moved: StreamCtx)
      requires template != null && t.refs.keys != []
      requires multiset(heap.live) == left + Freed(first.refs, SomeRefs(template.refs)) + rest
      modifies heap
      ensures fresh(moved) && IsClone(moved.refs, t.refs) && moved.refs.keys != []
      ensures multiset(heap.live) == left + (Freed(moved.refs, SomeRefs(t.refs)) + rest)
      ensures moved.Value() == Rekeying.Continued(first.Value(), Clone(t.Value(), first.ssrc))
    {
      hide Held, Freed, Linked;
      var index, rtcp := first.window.index, first.rtcp;
      SumRotates(left, Freed(first.refs, SomeRefs(template.refs)), rest);
      heap.ReleaseStream(first.refs, SomeRefs(template.refs), left + rest);
      var refs := heap.AcquireClone(t.refs);
      moved := new StreamCtx(first.ssrc, t.policy, |t.window.bits|, t.direction, refs);
      moved.window, moved.rtcp := RW.Window(index, moved.window.bits), rtcp;
      SumTucks(left, rest, Freed(refs, SomeRefs(t.refs)));
    }

    // What the new list holds while streams are moved into it.
    static ghost predicate Carried(into: StreamList, moved: seq<StreamCtx>, t: StreamCtx, goal: seq<Stream>)
      reads into, into.entries, moved, t
    {
      && into.Valid() && into.Contents() == moved && |moved| <= |goal|
      && t !in moved && Different(moved) && AllOrNothing(RefsOf(moved), SomeRefs(t.refs))
      && forall j :: 0 <= j < |moved| ==> moved[j].Value() == goal[j]
    }

    // One call of update_template_stream_cb
    method MoveNext(into: StreamList, first: StreamCtx, t: StreamCtx, ghost moved: seq<StreamCtx>, ghost goal: seq<Stream>,
                    ghost rest: multiset<Block>)
      returns (next: StreamCtx)
      requires Linked() && streams != [] && first == streams[0] && first != t && first !in moved
      requires into != list && into.entries != list.entries
      requires template != null && AllOrNothing(RefsOf(streams), TemplateRefs(template))
      requires IsApart(first.refs, t.refs) && t.refs.keys != []
      requires Carried(into, moved, t, goal) && |moved| < |goal| && goal[|moved|] == Renewed(first, template.refs, t)
      requires multiset(heap.live) == Held(RefsOf(streams), TemplateRefs(template)) + (Held(RefsOf(moved), SomeRefs(t.refs)) + rest)
      modifies this`streams, list, list.entries, heap, into, into.entries
      ensures Linked() && SameList() && list.entries == old(list.entries) && list.size == old(list.size) - 1 && streams == old(streams)[1..]
      ensures (into.entries == old(into.entries) || fresh(into.entries)) && Carried(into, moved + [next], t, goal)
      ensures next == first || fresh(next)
      ensures multiset(heap.live) ==
              Held(RefsOf(streams), TemplateRefs(template)) + (Held(RefsOf(moved + [next]), SomeRefs(t.refs)) + rest)
    {
      hide Held, Freed, IsClone, IsApart, AllOrNothing, AllApart, Linked, Renewed;
      next := MoveFirst(first, t, Held(RefsOf(moved), SomeRefs(t.refs)) + rest);
      HeldAppend(RefsOf(moved), next.refs, SomeRefs(t.refs));
      SumEnters(Held(RefsOf(moved), SomeRefs(t.refs)), Freed(next.refs, SomeRefs(t.refs)), rest);
      OneMore(RefsOf(moved), next.refs, t.refs);
      assert RefsOf(moved + [next]) == RefsOf(moved) + [next.refs];
      into.Insert(next);
    }

    method MoveAt(into: StreamList, first: StreamCtx, t: StreamCtx, ghost all: seq<StreamCtx>, ghost moved: seq<StreamCtx>,
                  ghost goal: seq<Stream>, ghost rest: multiset<Block>)
      returns (next: StreamCtx)
      requires Linked() && |moved| < |all| == |goal| && streams == all[|moved|..] && first == streams[0] && first != t && first !in moved
      requires into != list && into.entries != list.entries
      requires template != null && AllOrNothing(RefsOf(all), TemplateRefs(template)) && AllApart(RefsOf(all), t.refs)
      requires t.refs.keys != [] && Carried(into, moved, t, goal) && goal[|moved|] == Renewed(first, template.refs, t)
      requires multiset(heap.live) == Held(RefsOf(streams), TemplateRefs(template)) + (Held(RefsOf(moved), SomeRefs(t.refs)) + rest)
      modifies this`streams, list, list.entries, heap, into, into.entries
      ensures Linked() && SameList() && list.entries == old(list.entries) && list.size == old(list.size) - 1
      ensures streams == all[|moved| + 1..]
      ensures (into.entries == old(into.entries) || fresh(into.entries)) && Carried(into, moved + [next], t, goal)
      ensures next == first || fresh(next)
      ensures multiset(heap.live) ==
              Held(RefsOf(streams), TemplateRefs(template)) + (Held(RefsOf(moved + [next]), SomeRefs(t.refs)) + rest)
    {
      hide Held, Freed, IsClone, IsApart, AllOrNothing, AllApart, Linked, Renewed, Carried;
      assert RefsOf(streams) == RefsOf(all)[|moved|..];
      TailApart(RefsOf(all), |moved|, TemplateRefs(template), t.refs);
      next := MoveNext(into, first, t, moved, goal, rest);
    }

    // srtp_stream_list_for_each with update_template_stream_cb, from the old list into a new one
    method MoveStreams(t: StreamCtx, ghost goal: seq<Stream>, ghost rest: multiset<Block>)
      returns (into: StreamList, ghost moved: seq<StreamCtx>)
      requires Shape() && template != null && t !in streams && AllOrNothing(RefsOf(streams), TemplateRefs(template))
      requires t.refs.keys != [] && AllApart(RefsOf(streams), t.refs)
      requires |goal| == |streams| && forall i :: 0 <= i < |streams| ==> goal[i] == Renewed(streams[i], template.refs, t)
      requires multiset(heap.live) == Held(RefsOf(streams), TemplateRefs(template)) + rest
      modifies this`streams, list, list.entries, heap
      ensures streams == [] && |moved| == |goal| && Carried(into, moved, t, goal)
      ensures fresh(into) && fresh(into.entries)
      ensures multiset(heap.live) == Held(RefsOf(moved), SomeRefs(t.refs)) + rest
      ensures KeptOrNew(old(streams), moved)
    {
      hide Held, Freed, IsClone, IsApart, AllOrNothing, AllApart, Linked, Renewed, Carried, KeptOrNew;
      into := new StreamList();
      moved := [];
      ghost var all := streams;
      NoneCarried(into, t, goal);
      NoneMoved(all);
      NoneHeld(SomeRefs(t.refs));
      assert streams == all[0..] && RefsOf(moved) == [];
      var buffer, i, last := list.entries, 0, list.size;
      while i < list.size
        invariant i == 0 && last == list.size && list == old(list) && buffer == list.entries == old(list.entries) && Linked()
        invariant fresh(into) && fresh(into.entries) && Carried(into, moved, t, goal)
        invariant |moved| <= |all| && streams == all[|moved|..]
        invariant KeptOrNew(all, moved)
        invariant multiset(heap.live) ==
                  Held(RefsOf(streams), TemplateRefs(template)) + (Held(RefsOf(moved), SomeRefs(t.refs)) + rest)
        decreases list.size
      {
        FirstEntry();
        NotYetMoved(all, moved);
        var next := MoveAt(into, buffer[i].stream, t, all, moved, goal, rest);
        OneMoreMoved(all, moved, next);
        moved := moved + [next];
        if last == list.size {
          i := i + 1;
        }
        last := list.size;
      }
      NoneHeld(TemplateRefs(template));
      FirstEntry();
      assert RefsOf(streams) == [];
    }

    // Streams are moved as they are, or made anew.
    static twostate predicate KeptOrNew(all: seq<StreamCtx>, new moved: seq<StreamCtx>) {
      |moved| <= |all| && forall i :: 0 <= i < |moved| ==> moved[i] == all[i] || fresh(moved[i])
    }

    static twostate lemma NoneMoved(all: seq<StreamCtx>)
      ensures KeptOrNew(all, [])
    {}

    static twostate lemma OneMoreMoved(all: seq<StreamCtx>, new moved: seq<StreamCtx>, new next: StreamCtx)
      requires |moved| < |all| && KeptOrNew(all, moved) && (next == all[|moved|] || fresh(next))
      ensures KeptOrNew(all, moved + [next])
    {}

    static twostate lemma NotYetMoved(all: seq<StreamCtx>, new moved: seq<StreamCtx>)
      requires |moved| < |all| && KeptOrNew(all, moved) && Different(all)
      ensures all[|moved|] !in moved
    {}

    static lemma NoneCarried(into: StreamList, t: StreamCtx, goal: seq<Stream>)
      requires into.Valid() && into.Contents() == [] && t.refs.keys != []
      ensures Carried(into, [], t, goal)
    {
      NoneShared(t.refs);
      assert RefsOf([]) == [];
    }

    // The streams that were cloned from the template.
    ghost function Clones(): (r: seq<bool>)
      requires template != null
      reads this
      ensures |r| == |streams|
    {
      var all, refs := streams, template.refs;
      seq(|all|, (i: nat) requires i < |all| => IsClone(all[i].refs, refs))
    }

    /** update_template_streams.  Clones of the old template become clones of the new one.  On success, and
        when the call is refused early, the heap stays accounted for; when the new template's window size is
        refused only the stream structure is freed, and whatever else was allocated for it is lost. */
    method UpdateTemplate(ssrc: Ssrc, policy: Policy, size: nat) returns (status: Status, ghost lost: multiset<Block>)
      requires Valid() && Lawful(policy)
      modifies this`list, this`streams, list, list.entries, this`template, this`others, heap
      ensures Valid() && others == old(others) + lost
      ensures old(template) == null || !Rekeying.Compatible(old(template).policy, policy) ==>
                status == BadParam && lost == multiset{} && Value() == old(Value())
      ensures old(template) != null && Rekeying.Compatible(old(template).policy, policy) && !Rekeying.AcceptedWindow(size) ==>
                status == BadParam && lost != multiset{} && Value() == old(Value())
      ensures old(template) != null && Rekeying.Compatible(old(template).policy, policy) && Rekeying.AcceptedWindow(size) ==>
                status == Ok && lost == multiset{} &&
                Value() == Rekeying.TemplateUpdated(old(Value()), old(Clones()), Rekeying.NewStream(ssrc, policy, size, Unknown))
      ensures status == Ok ==>
                old(template) != null && template != null &&
                Rekeying.Repopulated(old(Values()), old(Clones()), template.Value(), Values())
    {
      hide HeldBySession, Held, Freed, IsClone, IsApart, AllOrNothing, AllApart, Sessions.Valid, Linked, Rekeying.Repopulated;
      lost := multiset{};
      if template == null || template.policy.useMki != policy.useMki ||
         (policy.useMki && template.policy.mkiSize != policy.mkiSize) {
        status := BadParam;
        return;
      }
      ghost var start, live, known := Value(), multiset(heap.live), RefsOf(streams) + [template.refs];
      var initialized := Rekeying.AcceptedWindow(size);
      var refs := heap.AcquireStream(|policy.keys|, policy.keys[0].xtn.Some?, policy.mkiSize > 0, policy.ids != [], initialized, known);
      if !initialized {
        lost := Abandon(refs, live);
        status := BadParam;
        return;
      }
      var t := new StreamCtx(ssrc, policy, Rekeying.WindowLength(size), Unknown, refs);
      Swap(t, live, known);
      Rekeying.TemplateUpdateKeeps(start, old(Clones()), t.Value());
      status := Ok;
    }

    // srtp_crypto_free of a stream structure whose parts stay allocated
    method Abandon(refs: Refs, ghost live: multiset<Block>) returns (ghost lost: multiset<Block>)
      requires live == HeldBySession(RefsOf(streams), TemplateRefs(template)) + others
      requires multiset(heap.live) == live + Freed(refs, NoRefs) && AllOrNothing(RefsOf(streams), TemplateRefs(template))
      modifies this`others, heap
      ensures Accounted() && others == old(others) + lost && lost != multiset{}
    {
      hide HeldBySession, Freed, AllOrNothing, Linked;
      lost := Freed(refs, NoRefs) - One(refs.stream);
      LosesTheRest(refs, live);
      heap.Free(refs.stream, live + lost);
      SumAssociates(HeldBySession(RefsOf(streams), TemplateRefs(template)), others, lost);
      others := others + lost;
    }

    // Moving every stream under the new template and freeing the old one.
    method Swap(t: StreamCtx, ghost live: multiset<Block>, ghost known: seq<Refs>)
      requires Shape() && template != null && AllOrNothing(RefsOf(streams), TemplateRefs(template))
      requires Sessions.Valid(Value()) && ValidStream(t.Value()) && t.rtcp == RC.Fresh()
      requires t !in streams && t != template && t.refs.keys != []
      requires live == HeldBySession(RefsOf(streams), TemplateRefs(template)) + others
      requires multiset(heap.live) == live + Freed(t.refs, NoRefs)
      requires known == RefsOf(streams) + [template.refs] && forall o :: o in known ==> IsApart(o, t.refs)
      modifies this`list, this`streams, list, list.entries, this`template, heap
      ensures Valid() && Value() == Rekeying.TemplateUpdated(old(Value()), old(Clones()), old(t.Value()))
      ensures fresh(list) && fresh(list.entries)
    {
      hide HeldBySession, Held, Freed, IsClone, IsApart, AllOrNothing, AllApart, Sessions.Valid, ValidStream, Linked, Carried;
      ghost var start, clones, was := Value(), Clones(), RefsOf(streams);
      ghost var updated := Rekeying.TemplateUpdated(start, clones, t.Value());
      Rekeying.TemplateUpdateValid(start, clones, t.Value());
      assert AllApart(was, t.refs) by { KnownApart(was, template.refs, t.refs); }
      ghost var rest := Freed(t.refs, NoRefs) + others;
      OldAndNew(was, template.refs, t.refs, live, others);
      ghost var moved;
      var into;
      into, moved := MoveStreams(t, updated.streams, Freed(template.refs, NoRefs) + rest);
      SumRotatesBack(Held(RefsOf(moved), SomeRefs(t.refs)), Freed(template.refs, NoRefs), rest);
      heap.ReleaseStream(template.refs, NoRefs, Held(RefsOf(moved), SomeRefs(t.refs)) + rest);
      Install(into, t, moved, updated);
    }

    // Putting the new list and the new template in place.
    method Install(into: StreamList, t: StreamCtx, ghost moved: seq<StreamCtx>, ghost updated: Session)
      requires Carried(into, moved, t, updated.streams) && |moved| == |updated.streams| && updated.template == Some(t.Value())
      requires Sessions.Valid(updated)
      requires multiset(heap.live) == Held(RefsOf(moved), SomeRefs(t.refs)) + (Freed(t.refs, NoRefs) + others)
      modifies this`list, this`streams, this`template
      ensures Valid() && Value() == updated && list == into
    {
      hide HeldBySession, Held, Freed, AllOrNothing, Sessions.Valid;
      list, streams, template := into, moved, t;
      NewAlone(RefsOf(moved), t.refs, others);
      assert Values() == updated.streams;
    }

    /** srtp_dealloc: every block the session held is freed, once, and no other block is. */
    method Dealloc()
      requires Valid()
      modifies this`streams, list, list.entries, this`template, heap
      ensures SameList()
      ensures streams == [] && template == null && multiset(heap.live) == others
    {
      hide HeldBySession, Freed, Linked;
      var buffer, i, last := list.entries, 0, list.size;
      while i < list.size
        invariant i == 0 && last == list.size && list == old(list) && buffer == list.entries == old(list.entries)
        invariant Linked() && Accounted() && template == old(template)
        decreases list.size
      {
        FirstEntry();
        var stream := buffer[i].stream;
        Drop(stream, 0);
        if last == list.size {
          i := i + 1;
        }
        last := list.size;
      }
      FirstEntry();
      NothingHeld(TemplateRefs(template), others);
      assert RefsOf(streams) == [];
      if template != null {
        heap.ReleaseStream(template.refs, NoRefs, others);
        template := null;
      }
    }

    // ---------- RTP ----------

    // Estimating, checking and recording, for a packet to be sent.
    method AdmitAt(i: nat, number: nat) returns (status: Status, index: nat)
      requires Shape() && i < |streams| && streams[i].window.bits != []
      modifies streams[i]
      ensures template != null ==> template.Value() == old(template.Value())
      ensures var a := RW.Admit(old(streams[i].window), old(streams[i].pendingRoc), number, streams[i].policy.allowRepeat);
              && status == a.status && index == a.est
              && Values() == old(Values())[i := old(Values())[i].(window := a.window, pendingRoc := a.pendingRoc)]
    {
      hide RW.EstimateIndex, RW.Add, Linked;
      var s := StreamAt(i);
      var (placed, est, delta) := RW.PacketIndex(s.window.index, s.pendingRoc, number);
      status, index := placed, est;
      if status == PktIdxAdv {
        var jumped := RW.SetRocSeq(s.window, index / RW.SEQ_MAX, index % RW.SEQ_MAX);
        Write(i, RW.Add(jumped, 0), s.rtcp, s.direction, 0);
        return Ok, index;
      }
      if status == Ok {
        status := RW.Check(s.window, delta);
      }
      if status == Ok || (status == ReplayFail && s.policy.allowRepeat) {
        Write(i, RW.Add(s.window, delta), s.rtcp, s.direction, s.pendingRoc);
        return Ok, index;
      }
      assert Values() == old(Values())[i := old(Values())[i]];
    }

    // The stream a sender uses, with its direction claimed.
    method ClaimSender(ssrc: Ssrc, direction: Direction) returns (i: int)
      requires Valid()
      modifies this`streams, list, list.entries, streams, heap
      ensures SameList()
      ensures Shape() && Accounted() && template == old(template) && forall s :: s in streams ==> s in old(streams) || fresh(s)
      ensures match WithSender(old(Value()), ssrc, direction)
              case None => i == -1 && Value() == old(Value())
              case Some(found) =>
                && 0 <= i < |streams| && Find(found.streams, ssrc) == Some(i)
                && Value() == found.(streams := found.streams[
                                i := found.streams[i].(direction := Claimed(found.streams[i].direction, Sender))])
    {
      hide Sessions.Valid, Accounted, WithSender, Linked;
      i := FindSender(ssrc, direction);
      if i != -1 {
        var s := StreamAt(i);
        assert s in streams;
        Write(i, s.window, s.rtcp, Claimed(s.direction, Sender), s.pendingRoc);
      }
    }

    // srtp_protect up to the transform
    method TakeIndex(pkt: seq<bv8>, room: nat, mkiIndex: nat, expired: bool) returns (status: Status, i: int, index: nat)
      requires Valid()
      modifies this`streams, list, list.entries, streams, heap
      ensures SameList()
      ensures Valid() && template == old(template) && forall s :: s in streams ==> s in old(streams) || fresh(s)
      ensures var t := Sessions.TakeIndex(old(Value()), pkt, room, mkiIndex, expired);
              && Value() == t.session && status == t.status
              && (status == Ok ==> i == t.at && index == t.index)
    {
      hide Sessions.Valid, Accounted, WithSender, ProtectChecks, RW.Admit, Linked, Sessions.TakeIndex, Find, Lawful, Claimed;
      TurnValid(Value(), pkt, room, mkiIndex, expired);
      NoTurn(Value(), pkt, room, mkiIndex, expired);
      status, i, index := ValidateHeader(pkt), 0, 0;
      if status != Ok {
        return;
      }
      ghost var start := Value();
      i := ClaimSender(RtpSsrc(pkt), Sender);
      if i == -1 {
        status := NoCtx;
        return;
      }
      TurnAt(start, pkt, room, mkiIndex, expired, i);
      assert streams[i] in streams && streams[i].Value() == Values()[i];
      status := ProtectChecks(StreamAt(i).policy, pkt, room, mkiIndex, expired);
      if status == Ok {
        Refused(Values()[i], SequenceNumber(pkt));
        status, index := AdmitAt(i, SequenceNumber(pkt));
        ghost var found := WithSender(start, RtpSsrc(pkt), Sender).value;
        UpdatedTwice(found.streams, i, found.streams[i].(direction := Claimed(found.streams[i].direction, Sender)), Values()[i]);
      }
    }

    /** srtp_protect, in place or from one buffer to another. */
    method Protect(src: array<bv8>, len: nat, dst: array<bv8>, room: nat, mkiIndex: nat, expired: bool)
      returns (status: Status, outLen: nat)
      requires Valid() && Outside(src) && Outside(dst)
      requires len <= src.Length < CM.SIZE_LIMIT / 2 && room <= dst.Length < CM.SIZE_LIMIT / 2
      modifies this`streams, list, list.entries, streams, heap, dst
      ensures SameList()
      ensures Valid() && template == old(template)
      ensures var o := Sessions.Protect(old(Value()), old(src[..len]), old(dst[..room]), mkiIndex, expired);
              && Value() == o.session && status == o.status
              && (status == Ok ==> outLen == |o.octets| <= room && dst[..] == Spliced(old(dst[..]), 0, o.octets))
    {
      hide Sessions.Valid, Accounted, Sessions.TakeIndex, Seal, Lawful, KeyForIndex, ValidateHeader, Spliced, Linked;
      var pkt := src[..len];
      ghost var start := Value();
      var i, index;
      outLen := 0;
      status, i, index := TakeIndex(pkt, room, mkiIndex, expired);
      if status != Ok {
        return;
      }
      TurnValid(start, pkt, room, mkiIndex, expired);
      StreamsValid(Value(), i);
      var p := StreamAt(i).policy;
      assert p == Values()[i].policy;
      var k := p.keys[KeyForIndex(p, mkiIndex).value];
      status, outLen := SealWithin(p, k, src, len, dst, room, index);
    }

    // The stream that an authenticated packet of an unknown SSRC calls into being.
    method Adopt(ssrc: Ssrc)
      requires Valid() && template != null && Find(Values(), ssrc).None?
      modifies this`streams, list, list.entries, template, heap
      ensures SameList()
      ensures Valid() && template == old(template) && |streams| == |old(streams)| + 1 && streams[..|old(streams)|] == old(streams)
      ensures fresh(streams[|old(streams)|])
      ensures Value() == Runs.Eager(old(Value()), ssrc)
    {
      hide Sessions.Valid, Accounted, Clone, Linked;
      ghost var start, t := Value(), template.Value();
      TemplateClaimed(start, t.(direction := Claimed(t.direction, Receiver)));
      template.direction := Claimed(template.direction, Receiver);
      assert Values() == old(Values());
      InsertClone(ssrc, template.direction);
      CloneDirection(template.Value(), ssrc);
    }

    // Recording an authenticated packet.
    method RecordAt(i: nat, status: Status, est: nat, delta: int)
      requires Shape() && i < |streams| && streams[i].window.bits != []
      requires status == Ok ==> 0 <= |streams[i].window.bits| - 1 + delta
      modifies streams[i]
      ensures template != null ==> template.Value() == old(template.Value())
      ensures var s := old(Values())[i];
              Values() == old(Values())[i := Recorded(s.(direction := Claimed(s.direction, Receiver)), status, est, delta)]
    {
      hide RW.Add, Linked;
      var s := StreamAt(i);
      var direction := Claimed(s.direction, Receiver);
      if status == PktIdxAdv {
        Write(i, RW.Add(RW.SetRocSeq(s.window, est / RW.SEQ_MAX, est % RW.SEQ_MAX), 0), s.rtcp, direction, 0);
      } else if status == Ok {
        Write(i, RW.Add(s.window, delta), s.rtcp, direction, s.pendingRoc);
      } else {
        Write(i, s.window, s.rtcp, direction, s.pendingRoc);
      }
    }

    method Record(ssrc: Ssrc, found: int, ghost pkt: seq<bv8>, status: Status, est: nat, delta: int)
      requires Valid() && ValidateHeader(pkt) == Ok && RtpSsrc(pkt) == ssrc && (Find(Values(), ssrc).Some? || template != null)
      requires found == match Find(Values(), ssrc) case None => -1 case Some(n) => n
      requires (status, est, delta) == PlaceReceived(Value(), pkt)
      modifies this`streams, list, list.entries, streams, template, heap
      ensures SameList()
      ensures Valid() && template == old(template)
      ensures Value() == Received(old(Value()), pkt, status, est, delta)
    {
      hide Sessions.Valid, Accounted, RW.Place, Recorded, Received, PlaceReceived, Runs.Eager, RtpSsrc, ValidateHeader, Linked;
      ghost var start := Value();
      Runs.ReceivedValid(start, pkt, status, est, delta);
      ReceivedIs(start, pkt, status, est, delta);
      var i := found;
      if i == -1 {
        i := Count();
        Adopt(ssrc);
      }
      assert streams[i] in streams && streams[i].Value() == Values()[i];
      RecordAt(i, status, est, delta);
    }

    // Finding stream, place and keys for a packet received.
    method Locate(pkt: seq<bv8>) returns (found: int, l: Location)
      requires Valid()
      ensures l == Sessions.Locate(Value(), pkt)
      ensures l.Somewhere? ==> found == match Find(Values(), RtpSsrc(pkt)) case None => -1 case Some(n) => n
    {
      hide Sessions.Valid, Accounted, KeyForPacket, RW.Place, Lawful, Linked;
      found := -1;
      if ValidateHeader(pkt) != Ok {
        return found, Nowhere(ValidateHeader(pkt));
      }
      var ssrc, number := RtpSsrc(pkt), SequenceNumber(pkt);
      found := Lookup(ssrc);
      if found == -1 && template == null {
        return found, Nowhere(NoCtx);
      }
      var p := if found == -1 then template.policy else StreamAt(found).policy;
      assert p.keys != [] by { PolicyLawful(Value(), found); }
      var (status, est, delta) := if found == -1 then (Ok, number, number)
                                  else RW.Place(StreamAt(found).window, StreamAt(found).pendingRoc, number);
      if status != Ok && status != PktIdxAdv {
        return found, Nowhere(status);
      }
      var key := KeyForPacket(p, pkt);
      l := if key.None? then Nowhere(BadMki) else Somewhere(p, key.value, status, est, delta);
    }

    /** srtp_unprotect, in place or from one buffer to another.  A packet that is not accepted leaves the
        whole session as it was. */
    method Unprotect(src: array<bv8>, len: nat, dst: array<bv8>, room: nat, expired: bool)
      returns (status: Status, outLen: nat)
      requires Valid() && Outside(src) && Outside(dst)
      requires len <= src.Length < CM.SIZE_LIMIT / 2 && room <= dst.Length < CM.SIZE_LIMIT / 2
      modifies this`streams, list, list.entries, streams, template, heap, dst
      ensures SameList()
      ensures Valid() && template == old(template)
      ensures var o := Sessions.Unprotect(old(Value()), old(src[..len]), room, expired);
              && Value() == o.session && status == o.status
              && (status == Ok ==> outLen == |o.octets| <= dst.Length && dst[..] == Spliced(old(dst[..]), 0, o.octets))
      ensures status != Ok ==> Value() == old(Value()) && streams == old(streams) && heap.live == old(heap.live)
    {
      hide Sessions.Valid, Accounted, Open, Spliced, Received, Lawful, PlaceReceived, Find, Sessions.Locate, Linked;
      var pkt := src[..len];
      outLen := 0;
      var found, l := Locate(pkt);
      if l.Nowhere? {
        status := l.why;
        return;
      }
      var p, k := l.policy, l.policy.keys[l.key];
      status := OpenInto(p, k, src, len, dst, room, l.est, expired);
      if status == Ok {
        outLen := OpenedLength(p, k, pkt, l.est, room, expired);
        Record(RtpSsrc(pkt), found, pkt, l.status, l.est, l.delta);
      }
    }

    // srtp_stream_set_roc
    method SetRoc(ssrc: Ssrc, roc: nat) returns (status: Status)
      requires Valid() && roc < RW.ROC_LIMIT
      modifies streams
      ensures Valid()
      ensures var o := Sessions.SetRoc(old(Value()), ssrc, roc); status == o.status && Value() == o.session
    {
      hide Sessions.Valid, Accounted, Find, Linked;
      var i := Lookup(ssrc);
      if i == -1 {
        return BadParam;
      }
      var s := StreamAt(i);
      assert ValidStream(Values()[i].(pendingRoc := roc)) by { StreamsValid(Value(), i); }
      UpdateValid(Value(), i, Values()[i].(pendingRoc := roc));
      Write(i, s.window, s.rtcp, s.direction, roc);
      return Ok;
    }

    // ---------- RTCP ----------

    // srtp_rdb_increment on the stream that sends
    method CountAt(i: nat) returns (status: Status, index: nat)
      requires Shape() && i < |streams|
      modifies streams[i]
      ensures template != null ==> template.Value() == old(template.Value())
      ensures var (counted, rtcp) := RC.Increment(old(streams[i].rtcp));
              && status == counted && index == (if status == Ok then rtcp.start else 0)
              && Values() == old(Values())[i := if status == Ok then old(Values())[i].(rtcp := rtcp) else old(Values())[i]]
    {
      hide Linked;
      var s := StreamAt(i);
      var (counted, rtcp) := RC.Increment(s.rtcp);
      status, index := counted, 0;
      if status == Ok {
        Write(i, s.window, rtcp, s.direction, s.pendingRoc);
        index := rtcp.start;
      } else {
        assert Values() == old(Values())[i := old(Values())[i]];
      }
    }

    // srtp_protect_rtcp up to the transform
    method TakeRtcpIndex(pkt: seq<bv8>, room: nat, mkiIndex: nat) returns (status: Status, i: int, index: nat)
      requires Valid()
      modifies this`streams, list, list.entries, streams, heap
      ensures SameList()
      ensures Valid() && template == old(template)
      ensures var t := Sessions.TakeRtcpIndex(old(Value()), pkt, room, mkiIndex);
              && Value() == t.session && status == t.status
              && (status == Ok ==> i == t.at && index == t.index)
    {
      hide Sessions.Valid, Accounted, WithSender, ProtectRtcpChecks, Linked, Sessions.TakeRtcpIndex, RC.Increment;
      hide Find, Lawful, Claimed;
      RtcpTurnValid(Value(), pkt, room, mkiIndex);
      NoRtcpTurn(Value(), pkt, room, mkiIndex);
      status, i, index := BadParam, 0, 0;
      if |pkt| < RTCP_HEADER {
        return;
      }
      ghost var start := Value();
      var direction := if template != null then template.direction else Unknown;
      i := ClaimSender(RtcpSsrc(pkt), direction);
      if i == -1 {
        status := NoCtx;
        return;
      }
      RtcpTurnAt(start, pkt, room, mkiIndex, direction, i);
      assert streams[i] in streams && streams[i].Value() == Values()[i];
      status := ProtectRtcpChecks(StreamAt(i).policy, pkt, room, mkiIndex);
      if status == Ok {
        status, index := CountAt(i);
        ghost var found := WithSender(start, RtcpSsrc(pkt), direction).value;
        UpdatedTwice(found.streams, i, found.streams[i].(direction := Claimed(found.streams[i].direction, Sender)), Values()[i]);
      }
    }

    /** srtp_protect_rtcp, in place or from one buffer to another. */
    method ProtectRtcp(src: array<bv8>, len: nat, dst: array<bv8>, room: nat, mkiIndex: nat)
      returns (status: Status, outLen: nat)
      requires Valid() && Outside(src) && Outside(dst)
      requires len <= src.Length < CM.SIZE_LIMIT / 2 && room <= dst.Length < CM.SIZE_LIMIT / 2
      modifies this`streams, list, list.entries, streams, heap, dst
      ensures SameList()
      ensures Valid() && template == old(template)
      ensures var o := Sessions.ProtectRtcp(old(Value()), old(src[..len]), room, mkiIndex);
              && Value() == o.session && status == o.status
              && (status == Ok ==> outLen == |o.octets| <= room && dst[..] == Spliced(old(dst[..]), 0, o.octets))
    {
      hide Sessions.Valid, Accounted, Sessions.TakeRtcpIndex, SealRtcpIcm, SealRtcpAead, Lawful, KeyForIndex, Spliced, Linked;
      var pkt := src[..len];
      ghost var start := Value();
      var i, index;
      outLen := 0;
      status, i, index := TakeRtcpIndex(pkt, room, mkiIndex);
      if status != Ok {
        return;
      }
      RtcpTurnValid(start, pkt, room, mkiIndex);
      StreamsValid(Value(), i);
      var p := StreamAt(i).policy;
      assert p == Values()[i].policy;
      var k := p.keys[KeyForIndex(p, mkiIndex).value];
      if k.rtcp.GcmCipher? {
        SealRtcpAeadInto(p, k, src, len, dst, index);
      } else {
        status := SealRtcpIcmInto(p, k, src, len, dst, index);
      }
      if status == Ok {
        RoundTrips.SealRtcpLength(p, k, pkt, index);
        outLen := len + TRAILER + k.rtcpAuth.tagLen + p.mkiSize;
      }
    }

    method RecordRtcp(ssrc: Ssrc, found: int, index: nat)
      requires Valid() && (Find(Values(), ssrc).Some? || template != null)
      requires found == match Find(Values(), ssrc) case None => -1 case Some(n) => n
      modifies this`streams, list, list.entries, streams, template, heap
      ensures SameList()
      ensures Valid() && template == old(template)
      ensures Value() == ReceivedRtcp(old(Value()), ssrc, index)
    {
      hide Sessions.Valid, Accounted, ReceivedRtcp, Runs.Eager, RC.Add, Linked;
      ghost var start := Value();
      Runs.ReceivedRtcpValid(start, ssrc, index);
      ReceivedRtcpIs(start, ssrc, index);
      var i := found;
      if i == -1 {
        i := Count();
        Adopt(ssrc);
      }
      var s := StreamAt(i);
      assert s in streams && s.Value() == Values()[i];
      Write(i, s.window, RC.Add(s.rtcp, index), Claimed(s.direction, Receiver), s.pendingRoc);
    }

    // Finding keys and window for an RTCP packet received.
    method LocateRtcp(pkt: seq<bv8>) returns (found: int, l: RtcpLocation)
      requires Valid()
      ensures l == Sessions.LocateRtcp(Value(), pkt)
      ensures l.RtcpKeys? ==> found == match Find(Values(), RtcpSsrc(pkt)) case None => -1 case Some(n) => n
    {
      hide Sessions.Valid, Accounted, KeyForPacket, Lawful, Linked;
      found := -1;
      if |pkt| < RTCP_HEADER + TRAILER {
        return found, NoRtcpKeys(BadParam);
      }
      found := Lookup(RtcpSsrc(pkt));
      if found == -1 && template == null {
        return found, NoRtcpKeys(NoCtx);
      }
      var s := if found == -1 then template else StreamAt(found);
      assert s.policy.keys != [] by { PolicyLawful(Value(), found); }
      var key := KeyForPacket(s.policy, pkt);
      l := if key.None? then NoRtcpKeys(BadMki) else RtcpKeys(s.policy, key.value, s.rtcp);
    }

    /** srtp_unprotect_rtcp, in place or from one buffer to another.  `dst` stands for the memory at the
        destination, of which the caller owns `room` octets: octets behind those are written exactly if
        RtcpOverruns, whether the packet is then accepted or not. */
    method UnprotectRtcp(src: array<bv8>, len: nat, dst: array<bv8>, room: nat) returns (status: Status, outLen: nat)
      requires Valid() && Outside(src) && Outside(dst)
      requires len <= src.Length < CM.SIZE_LIMIT / 2 && room <= dst.Length < CM.SIZE_LIMIT / 2
      requires RtcpOverruns(Value(), src[..len], room, src == dst) ==> len <= dst.Length
      modifies this`streams, list, list.entries, streams, template, heap, dst
      ensures SameList()
      ensures Valid() && template == old(template)
      ensures var o := Sessions.UnprotectRtcp(old(Value()), old(src[..len]), room);
              var written := o.octets + RtcpSpill(old(Value()), old(src[..len]), src == dst);
              && Value() == o.session && status == o.status
              && (status == Ok ==> outLen == |o.octets| && |written| <= dst.Length && dst[..] == Spliced(old(dst[..]), 0, written))
      ensures BeyondRoom(RtcpOverruns(old(Value()), old(src[..len]), room, src == dst), old(src[..len]), room, dst[..], old(dst[..]))
      ensures status != Ok ==> Value() == old(Value()) && streams == old(streams) && heap.live == old(heap.live)
    {
      hide Sessions.Valid, Accounted, OpenRtcp, OpenRtcpOverruns, OpenRtcpSpill, Spliced, ReceivedRtcp, Lawful, Find, RtcpIndex, Linked,
           Sessions.LocateRtcp, PastRoom, BeyondRoom;
      var pkt := src[..len];
      outLen := 0;
      NothingBeyond(pkt, room, dst[..]);
      var found, l := LocateRtcp(pkt);
      if l.NoRtcpKeys? {
        status := l.why;
        return;
      }
      var p, k := l.policy, l.policy.keys[l.key];
      ghost var was := dst[..];
      status := OpenRtcpInto(p, k, src, len, dst, room, l.rtcp);
      BeyondIs(p, k, pkt, room, dst[..], was, OpenRtcpOverruns(p, k, pkt, l.rtcp, room, src == dst));
      if status == Ok {
        OpenedRtcpLength(p, k, pkt, l.rtcp, room);
        outLen := len - TRAILER - p.mkiSize - k.rtcpAuth.tagLen;
        RecordRtcp(RtcpSsrc(pkt), found, RtcpIndex(p, k, pkt));
      }
    }
  }

  // Octets from `room` on are left alone, or an overrun has put octets of the packet there, up to its trailer.
  ghost predicate BeyondRoom(overruns: bool, pkt: seq<bv8>, room: nat, now: seq<bv8>, was: seq<bv8>) {
    && room <= |was| == |now|
    && if overruns then exists t :: room < t <= |pkt| && t <= |was| && now[room..t] == pkt[room..t] && now[t..] == was[t..]
       else now[room..] == was[room..]
  }

  lemma NothingBeyond(pkt: seq<bv8>, room: nat, was: seq<bv8>)
    requires room <= |was|
    ensures BeyondRoom(false, pkt, room, was, was)
  {}

  lemma BeyondIs(p: Policy, k: SessionKeys, pkt: seq<bv8>, room: nat, now: seq<bv8>, was: seq<bv8>, overruns: bool)
    requires PastRoom(p, k, pkt, overruns, room, now, was)
    ensures BeyondRoom(overruns, pkt, room, now, was)
  {
    if overruns {
      var t := TrailerAt(p, k, pkt);
      assert now[room..t] == pkt[room..t];
    }
  }

  // The transform of srtp_unprotect_rtcp with its checks.
  method OpenRtcpInto(p: Policy, k: SessionKeys, src: array<bv8>, len: nat, dst: array<bv8>, room: nat, rtcp: RC.RtcpWindow)
    returns (status: Status)
    requires Lawful(p) && k in p.keys && |rtcp.bits| == RC.WINDOW && len <= src.Length < CM.SIZE_LIMIT / 2
    requires room <= dst.Length < CM.SIZE_LIMIT / 2
    requires OpenRtcpOverruns(p, k, src[..len], rtcp, room, src == dst) ==> len <= dst.Length
    modifies dst
    ensures WrittenWith(status, OpenRtcp(p, k, old(src[..len]), rtcp, room), OpenRtcpSpill(p, k, old(src[..len]), src == dst),
                        dst[..], old(dst[..]))
    ensures PastRoom(p, k, old(src[..len]), OpenRtcpOverruns(p, k, old(src[..len]), rtcp, room, src == dst), room, dst[..], old(dst[..]))
  {
    hide Lawful, TrailerWord, OpenRtcpIcm, OpenRtcpAead, RC.Check, Spill, Overruns, Spliced;
    var pkt := src[..len];
    if len < RTCP_HEADER + TRAILER + p.mkiSize + k.rtcpAuth.tagLen {
      return BadParam;
    }
    var word := TrailerWord(p, k, pkt);
    var encrypted, index := word >= E_BIT, word % E_BIT;
    NeverWithoutAead(p, k, pkt, encrypted, src == dst, room);
    if !k.rtcp.GcmCipher? && encrypted != p.rtcpConf {
      return CantCheck;
    }
    status := RC.Check(rtcp, index);
    if status != Ok {
      return;
    }
    if k.rtcp.GcmCipher? {
      status := OpenRtcpAeadInto(p, k, src, len, dst, room, encrypted, index);
    } else {
      ghost var r := OpenRtcpIcm(p, k, pkt, index, room);
      assert r.Good? ==> r.octets + [] == r.octets;
      status := OpenRtcpIcmInto(p, k, src, len, dst, room, index);
    }
  }

  // From position `room` on, nothing is written, or exactly what an overrun writes.
  ghost predicate PastRoom(p: Policy, k: SessionKeys, pkt: seq<bv8>, overruns: bool, room: nat, now: seq<bv8>, was: seq<bv8>) {
    && room <= |was| == |now|
    && (overruns ==> RTCP_HEADER + TRAILER + p.mkiSize + k.rtcpAuth.tagLen <= |pkt| && Beyond(p, k, pkt, true, room, now, was))
    && (!overruns ==> now[room..] == was[room..])
  }

  lemma NeverWithoutAead(p: Policy, k: SessionKeys, pkt: seq<bv8>, encrypted: bool, same: bool, room: nat)
    requires RTCP_HEADER + TRAILER + p.mkiSize + k.rtcpAuth.tagLen <= |pkt|
    ensures Overruns(p, k, pkt, encrypted, same, room) ==> k.rtcp.GcmCipher?
  {}

  lemma OpenedRtcpLength(p: Policy, k: SessionKeys, pkt: seq<bv8>, rtcp: RC.RtcpWindow, room: nat)
    requires Lawful(p) && k in p.keys && |rtcp.bits| == RC.WINDOW && OpenRtcp(p, k, pkt, rtcp, room).Good?
    ensures RTCP_HEADER + TRAILER + p.mkiSize + k.rtcpAuth.tagLen <= |pkt|
    ensures |OpenRtcp(p, k, pkt, rtcp, room).octets| == |pkt| - TRAILER - p.mkiSize - k.rtcpAuth.tagLen
  {
    hide Payload, TrailerWord;
  }

  lemma ReceivedRtcpIs(s: Session, ssrc: Ssrc, index: nat)
    requires Sessions.Valid(s) && (Find(s.streams, ssrc).Some? || s.template.Some?)
    ensures var found := Find(s.streams, ssrc);
            var base := if found.Some? then s else Runs.Eager(s, ssrc);
            var i := if found.Some? then found.value else |s.streams|;
            && i < |base.streams| && |base.streams[i].rtcp.bits| == RC.WINDOW
            && ReceivedRtcp(s, ssrc, index) == base.(streams := base.streams[i := base.streams[i].(
                 direction := Claimed(base.streams[i].direction, Receiver), rtcp := RC.Add(base.streams[i].rtcp, index))])
  {
    hide RC.Add;
    if Find(s.streams, ssrc).None? {
      var eager := Runs.Eager(s, ssrc);
      var i := |s.streams|;
      var last := eager.streams[i];
      assert last.direction == Claimed(last.direction, Receiver);
      var r := last.(rtcp := RC.Add(last.rtcp, index));
      assert eager.streams[i := r] == s.streams + [r];
    }
  }

  lemma PolicyLawful(s: Session, i: int)
    requires Sessions.Valid(s) && if i == -1 then s.template.Some? else 0 <= i < |s.streams|
    ensures Lawful(if i == -1 then s.template.value.policy else s.streams[i].policy)
    ensures (if i == -1 then s.template.value.policy else s.streams[i].policy).keys != []
  {}

  // The header and what is left of the payload.
  function OpenedLength(p: Policy, k: SessionKeys, pkt: seq<bv8>, est: nat, room: nat, expired: bool): (n: nat)
    requires Lawful(p) && k in p.keys && ValidateHeader(pkt) == Ok && Open(p, k, pkt, est, room, expired).Good?
    ensures n == |Open(p, k, pkt, est, room, expired).octets|
  {
    |pkt| - p.mkiSize - k.auth.tagLen
  }

  // The transform of srtp_protect, and the length it leaves.
  method SealWithin(p: Policy, k: SessionKeys, src: array<bv8>, len: nat, dst: array<bv8>, room: nat, index: nat)
    returns (status: Status, outLen: nat)
    requires Lawful(p) && k in p.keys && len <= src.Length && ValidateHeader(src[..len]) == Ok
    requires len + p.mkiSize + k.auth.tagLen <= room <= dst.Length < CM.SIZE_LIMIT / 2
    modifies dst
    ensures match Seal(p, k, old(src[..len]), index, Leftover(p, k, old(src[..len]), old(dst[..room])))
            case Bad(st) => status == st
            case Good(octets) => status == Ok && outLen == |octets| <= room && dst[..] == Spliced(old(dst[..]), 0, octets)
  {
    hide Seal, Lawful, ValidateHeader, Spliced;
    outLen := 0;
    ghost var pkt, left := src[..len], Leftover(p, k, src[..len], dst[..room]);
    SameLeftover(dst[..], p, k, pkt, room);
    status := SealInto(p, k, src, len, dst, index);
    if status == Ok {
      RoundTrips.OpenUndoesSeal(p, k, pkt, index, left, len);
      outLen := len + k.auth.tagLen + p.mkiSize;
    }
  }

  lemma SameLeftover(dst: seq<bv8>, p: Policy, k: SessionKeys, pkt: seq<bv8>, room: nat)
    requires |pkt| + p.mkiSize + k.auth.tagLen <= room <= |dst|
    ensures Leftover(p, k, pkt, dst[..room]) == dst[|pkt| + p.mkiSize..|pkt| + p.mkiSize + k.auth.tagLen]
  {}

  lemma TemplateClaimed(s: Session, t: Stream)
    requires Sessions.Valid(s) && s.template.Some? && t == s.template.value.(direction := t.direction)
    ensures Sessions.Valid(s.(template := Some(t)))
  {}

  lemma CloneDirection(t: Stream, ssrc: Ssrc)
    ensures Clone(t, ssrc).(direction := t.direction) == Clone(t, ssrc)
  {}

  // Receiving is recording at the stream found, or at the stream adopted.
  lemma ReceivedIs(s: Session, pkt: seq<bv8>, status: Status, est: nat, delta: int)
    requires Sessions.Valid(s) && ValidateHeader(pkt) == Ok && (Find(s.streams, RtpSsrc(pkt)).Some? || s.template.Some?)
    requires (status, est, delta) == PlaceReceived(s, pkt)
    ensures var found := Find(s.streams, RtpSsrc(pkt));
            var base := if found.Some? then s else Runs.Eager(s, RtpSsrc(pkt));
            var i := if found.Some? then found.value else |s.streams|;
            && i < |base.streams| && base.streams[i].window.bits != []
            && (status == Ok ==> 0 <= |base.streams[i].window.bits| - 1 + delta)
            && Received(s, pkt, status, est, delta) == base.(streams := base.streams[i :=
                 Recorded(base.streams[i].(direction := Claimed(base.streams[i].direction, Receiver)), status, est, delta)])
  {
    hide RW.PacketIndex, Recorded;
    if Find(s.streams, RtpSsrc(pkt)).None? {
      var eager := Runs.Eager(s, RtpSsrc(pkt));
      var i := |s.streams|;
      var last := eager.streams[i];
      assert last.direction == Claimed(last.direction, Receiver);
      var r := Recorded(last, status, est, delta);
      assert eager.streams[i := r] == s.streams + [r];
    }
  }

  lemma Refused(s: Stream, number: nat)
    requires s.window.bits != []
    ensures var a := RW.Admit(s.window, s.pendingRoc, number, s.policy.allowRepeat);
            a.status != Ok ==> s.(window := a.window, pendingRoc := a.pendingRoc) == s
  {}

  lemma NewSsrc(ssrc: Ssrc, policy: Policy, size: nat)
    requires Rekeying.AcceptedWindow(size)
    ensures Rekeying.NewStream(ssrc, policy, size, Unknown).ssrc == ssrc
  {}

  lemma NoTurn(s: Session, pkt: seq<bv8>, room: nat, mkiIndex: nat, expired: bool)
    requires Sessions.Valid(s)
    ensures ValidateHeader(pkt) != Ok ==> Sessions.TakeIndex(s, pkt, room, mkiIndex, expired) == Turn(ValidateHeader(pkt), s, 0, 0)
    ensures ValidateHeader(pkt) == Ok && WithSender(s, RtpSsrc(pkt), Sender).None? ==>
              Sessions.TakeIndex(s, pkt, room, mkiIndex, expired) == Turn(NoCtx, s, 0, 0)
  {
    hide Sessions.Valid, WithSender;
  }

  lemma NoRtcpTurn(s: Session, pkt: seq<bv8>, room: nat, mkiIndex: nat)
    requires Sessions.Valid(s)
    ensures |pkt| < RTCP_HEADER ==> Sessions.TakeRtcpIndex(s, pkt, room, mkiIndex) == Turn(BadParam, s, 0, 0)
    ensures var direction := if s.template.Some? then s.template.value.direction else Unknown;
            |pkt| >= RTCP_HEADER && WithSender(s, RtcpSsrc(pkt), direction).None? ==>
              Sessions.TakeRtcpIndex(s, pkt, room, mkiIndex) == Turn(NoCtx, s, 0, 0)
  {
    hide Sessions.Valid, WithSender;
  }

  lemma UpdatedTwice<T>(s: seq<T>, i: nat, a: T, b: T)
    requires i < |s|
    ensures s[i := a][i := b] == s[i := b]
  {}

  lemma HeldClone(was: seq<Refs>, r: Refs, t: Refs, before: multiset<Block>, now: multiset<Block>, others: multiset<Block>)
    requires before == HeldBySession(was, SomeRefs(t)) + others && AllOrNothing(was, SomeRefs(t))
    requires now == before + Freed(r, SomeRefs(t)) && IsClone(r, t)
    ensures now == HeldBySession(was + [r], SomeRefs(t)) + others && AllOrNothing(was + [r], SomeRefs(t))
  {
    hide Held, Freed, IsApart;
    HeldAppend(was, r, SomeRefs(t));
  }

  lemma ValuesWithout(s: seq<StreamCtx>, i: nat, was: seq<Stream>, now: seq<Stream>)
    requires i < |s| == |was| == |now| + 1 && forall j :: 0 <= j < |s| ==> was[j] == s[j].Value()
    requires forall j :: 0 <= j < |now| ==> now[j] == Rekeying.Without(s, i)[j].Value()
    ensures now == Rekeying.Without(was, i)
  {}

  lemma WithoutKeeps(s: seq<StreamCtx>, i: nat)
    requires i < |s| && forall j, k :: 0 <= j < k < |s| ==> s[j] != s[k]
    ensures var r := Rekeying.Without(s, i);
            (forall j, k :: 0 <= j < k < |r| ==> r[j] != r[k]) && forall x :: x in r ==> x in s
  {
    var r := Rekeying.Without(s, i);
    forall j, k | 0 <= j < k < |r| ensures r[j] != r[k] {
      WithoutAt(s, i, j);
      WithoutAt(s, i, k);
    }
  }

  // Comparing one authenticator tells clones from strangers.
  lemma SameAuth(r: Refs, t: Refs)
    requires r.keys != [] && t.keys != [] && (IsClone(r, t) || IsApart(r, t))
    ensures r.keys[0].rtpAuth == t.keys[0].rtpAuth <==> IsClone(r, t)
    ensures r.keys[0].rtpAuth != t.keys[0].rtpAuth <==> IsApart(r, t)
  {
    if IsClone(r, t) {
      assert SharesKey(r.keys[0], t.keys[0]);
    }
    if IsApart(r, t) {
      assert ApartKey(r.keys[0], t.keys[0]);
    }
  }

  lemma NoneHeld(t: MaybeRefs)
    ensures Held([], t) == multiset{}
  {}

  lemma LosesTheRest(r: Refs, live: multiset<Block>)
    ensures Freed(r, NoRefs) - One(r.stream) != multiset{}
    ensures live + Freed(r, NoRefs) == One(r.stream) + (live + (Freed(r, NoRefs) - One(r.stream)))
  {
    hide FreedKeys;
    var own := FreedKeys(r, NoRefs, 0) + (One(r.bitmask) + FreedXtn(r, NoRefs));
    assert Freed(r, NoRefs) == One(r.stream) + (One(r.table) + own);
    assert r.table in One(r.table) + own;
    assert Freed(r, NoRefs) - One(r.stream) == One(r.table) + own;
  }

  lemma KnownApart(was: seq<Refs>, before: Refs, t: Refs)
    requires forall o :: o in was + [before] ==> IsApart(o, t)
    ensures AllApart(was, t)
  {
    hide IsApart;
    forall i | 0 <= i < |was| ensures IsApart(was[i], t) {
      assert was[i] in was + [before];
    }
  }

  lemma OldAndNew(was: seq<Refs>, before: Refs, t: Refs, live: multiset<Block>, others: multiset<Block>)
    requires live == HeldBySession(was, SomeRefs(before)) + others
    ensures live + Freed(t, NoRefs) == Held(was, SomeRefs(before)) + (Freed(before, NoRefs) + (Freed(t, NoRefs) + others))
  {
    hide Held, Freed;
  }

  lemma NewAlone(moved: seq<Refs>, t: Refs, others: multiset<Block>)
    ensures Held(moved, SomeRefs(t)) + (Freed(t, NoRefs) + others) == HeldBySession(moved, SomeRefs(t)) + others
  {
    hide Held, Freed;
  }

  lemma SumRotatesBack(a: multiset<Block>, b: multiset<Block>, c: multiset<Block>)
    ensures a + (b + c) == b + (a + c)
  {}

  lemma NothingYet(others: multiset<Block>)
    ensures Sessions.Valid(Session([], None)) && AllOrNothing([], NoRefs) && HeldBySession([], NoRefs) + others == others
  {}

  lemma NoneShared(t: Refs)
    requires t.keys != []
    ensures AllOrNothing([], SomeRefs(t))
  {}

  lemma TailApart(all: seq<Refs>, k: nat, before: MaybeRefs, t: Refs)
    requires k < |all| && AllOrNothing(all, before) && AllApart(all, t)
    ensures AllOrNothing(all[k..], before) && IsApart(all[k], t)
  {
    hide IsClone, IsApart;
  }

  lemma OneMore(moved: seq<Refs>, r: Refs, t: Refs)
    requires AllOrNothing(moved, SomeRefs(t)) && r.keys != [] && (IsClone(r, t) || IsApart(r, t))
    ensures AllOrNothing(moved + [r], SomeRefs(t))
  {
    hide IsClone, IsApart;
  }

  lemma SumEnters(a: multiset<Block>, b: multiset<Block>, c: multiset<Block>)
    ensures b + (a + c) == a + b + c
  {}

  lemma SumRotates(a: multiset<Block>, b: multiset<Block>, c: multiset<Block>)
    ensures a + b + c == b + (a + c)
  {}

  lemma SumTucks(a: multiset<Block>, b: multiset<Block>, c: multiset<Block>)
    ensures a + b + c == a + (c + b)
  {}

  lemma NothingHeld(t: MaybeRefs, others: multiset<Block>)
    ensures HeldBySession([], t) + others == if t.SomeRefs? then Freed(t.refs, NoRefs) + others else others
  {
    hide Freed;
  }

  lemma HeldStranger(was: seq<Refs>, r: Refs, t: MaybeRefs, before: multiset<Block>, now: multiset<Block>, others: multiset<Block>)
    requires before == HeldBySession(was, t) + others && AllOrNothing(was, t)
    requires now == before + Freed(r, NoRefs) && r.keys != [] && (t.SomeRefs? ==> IsApart(r, t.refs))
    ensures now == HeldBySession(was + [r], t) + others && AllOrNothing(was + [r], t)
  {
    hide Held, Freed, IsClone, IsApart;
    HeldAppend(was, r, t);
    if t.SomeRefs? {
      ApartFreed(r, t.refs);
    }
  }

  lemma HeldTemplate(was: seq<Refs>, r: Refs, before: multiset<Block>, now: multiset<Block>, others: multiset<Block>)
    requires before == HeldBySession(was, NoRefs) + others && AllOrNothing(was, NoRefs)
    requires now == before + Freed(r, NoRefs) && r.keys != [] && forall i :: 0 <= i < |was| ==> IsApart(was[i], r)
    ensures now == HeldBySession(was, SomeRefs(r)) + others && AllOrNothing(was, SomeRefs(r))
  {
    hide Held, Freed, IsClone, IsApart;
    HeldApart(was, r);
  }

  lemma HeldRest(was: seq<Refs>, i: nat, t: MaybeRefs, before: multiset<Block>, others: multiset<Block>)
    requires i < |was| && before == HeldBySession(was, t) + others && AllOrNothing(was, t)
    ensures before == Freed(was[i], t) + (HeldBySession(Rekeying.Without(was, i), t) + others)
    ensures AllOrNothing(Rekeying.Without(was, i), t)
  {
    hide Held, Freed, IsClone, IsApart;
    HeldWithout(was, i, t);
  }

  lemma CloneIs(t: Stream, ssrc: Ssrc)
    ensures Clone(t, ssrc) == Stream(ssrc, t.policy, RW.Fresh(|t.window.bits|), RC.Fresh(), t.direction, 0)
  {}

  lemma StillValid(t: Stream, ssrc: Ssrc, direction: Direction)
    requires ValidStream(t)
    ensures ValidStream(Clone(t, ssrc).(direction := direction))
  {}
}
