/**
 The stream list: entries in one contiguous buffer that doubles when it is full and closes up when an
 entry is removed.  It implements the sequence of streams that a session keeps.
 */
module StreamLists {
  import opened Packets
  import opened StreamObjects
  import Rekeying

  // The SSRC is kept beside the stream.
  datatype Entry = Entry(ssrc: Ssrc, stream: StreamCtx?)

  const INITIAL_CAPACITY := 2

  // Position of the first stream with this SSRC, or the number of streams.
  function FirstWith(streams: seq<StreamCtx>, ssrc: Ssrc): (i: nat)
    ensures i <= |streams| && (forall j :: 0 <= j < i ==> streams[j].ssrc != ssrc)
    ensures i < |streams| ==> streams[i].ssrc == ssrc
  {
    if streams == [] || streams[0].ssrc == ssrc then 0 else 1 + FirstWith(streams[1..], ssrc)
  }

  class StreamList {
    var entries: array<Entry>
    var size: nat

    ghost predicate Valid()
      reads this, entries
    {
      && 0 < entries.Length && size <= entries.Length
      && (forall i :: 0 <= i < size ==> entries[i].stream != null && entries[i].ssrc == entries[i].stream.ssrc)
    }

    ghost function Contents(): (r: seq<StreamCtx>)
      requires Valid()
      reads this, entries
      ensures |r| == size && forall i :: 0 <= i < size ==> r[i] == entries[i].stream
    {
      Streams(entries[..size])
    }

    static ghost function Streams(list: seq<Entry>): (r: seq<StreamCtx>)
      requires forall i :: 0 <= i < |list| ==> list[i].stream != null
      ensures |r| == |list| && forall i :: 0 <= i < |list| ==> r[i] == list[i].stream
    {
      seq(|list|, (i: nat) requires i < |list| && list[i].stream != null => list[i].stream)
    }

    // The stream of an entry.
    function At(i: nat): (stream: StreamCtx)
      requires Valid() && i < size
      reads this, entries
      ensures stream == Contents()[i]
    {
      entries[i].stream
    }

    constructor ()
      ensures Valid() && fresh(entries) && Contents() == []
    {
      entries := new Entry[INITIAL_CAPACITY](_ => Entry([0, 0, 0, 0], null));
      size := 0;
    }

    // A buffer of twice the size with the same entries.
    method Grow()
      requires Valid() && size == entries.Length
      modifies this`entries
      ensures Valid() && fresh(entries) && size < entries.Length && entries.Length == 2 * old(entries.Length)
      ensures Contents() == old(Contents())
    {
      var was := entries;
      var larger := new Entry[2 * was.Length](_ => Entry([0, 0, 0, 0], null));
      forall i | 0 <= i < was.Length {
        larger[i] := was[i];
      }
      entries := larger;
    }

    /** srtp_stream_list_insert: the stream goes to the end, however full the buffer was. */
    method Insert(stream: StreamCtx)
      requires Valid()
      modifies this, entries
      ensures Valid() && (entries == old(entries) || fresh(entries)) && size == old(size) + 1
      ensures Contents() == old(Contents()) + [stream]
    {
      if size == entries.Length {
        Grow();
      }
      entries[size] := Entry(stream.ssrc, stream);
      size := size + 1;
    }

    /** srtp_stream_list_get: the first stream with this SSRC. */
    method Get(ssrc: Ssrc) returns (stream: StreamCtx?)
      requires Valid()
      ensures var i := FirstWith(Contents(), ssrc); if i < size then stream == Contents()[i] else stream == null
    {
      var i := FindFirst(ssrc);
      stream := if i < size then entries[i].stream else null;
    }

    method FindFirst(ssrc: Ssrc) returns (i: nat)
      requires Valid()
      ensures i == FirstWith(Contents(), ssrc)
    {
      i := 0;
      while i < size && entries[i].ssrc != ssrc
        invariant i <= size && forall j :: 0 <= j < i ==> entries[j].ssrc != ssrc
      {
        i := i + 1;
      }
    }

    /** srtp_stream_list_remove: the entries behind the removed one move up, in order. */
    method Remove(stream: StreamCtx)
      requires Valid()
      modifies this`size, entries
      ensures Valid() && entries == old(entries)
      ensures var i := FirstWith(old(Contents()), stream.ssrc);
              Contents() == if i < old(size) then Rekeying.Without(old(Contents()), i) else old(Contents())
    {
      var i := FindFirst(stream.ssrc);
      if i == size {
        return;
      }
      ghost var was := Contents();
      CloseUp(i);
      size := size - 1;
      hide Rekeying.Without;
      forall k | 0 <= k < size ensures Contents()[k] == Rekeying.Without(was, i)[k] {
        WithoutAt(was, i, k);
      }
    }

    // memmove of the entries behind position i
    method CloseUp(i: nat)
      requires i < size <= entries.Length
      modifies entries
      ensures forall k :: 0 <= k < i ==> entries[k] == old(entries[k])
      ensures forall k :: i <= k < size - 1 ==> entries[k] == old(entries[k + 1])
    {
      ghost var was := entries[..];
      for j := i to size - 1
        invariant forall k :: 0 <= k < i ==> entries[k] == was[k]
        invariant forall k :: i <= k < j ==> entries[k] == was[k + 1]
        invariant forall k :: j <= k < entries.Length ==> entries[k] == was[k]
      {
        entries[j] := entries[j + 1];
      }
    }

    // After v visits: the streams left behind, then those to come.
    ghost predicate Underway(all: seq<StreamCtx>, v: nat, takes: seq<bool>)
      requires v <= |all| <= |takes|
      reads this, entries
    {
      Valid() && Contents() == Left(all[..v], takes) + all[v..]
    }

    lemma UnderwayAt(all: seq<StreamCtx>, v: nat, takes: seq<bool>)
      requires v <= |all| <= |takes| && Underway(all, v, takes)
      ensures size == |Left(all[..v], takes)| + |all| - v && size <= entries.Length
      ensures v < |all| ==> entries[|Left(all[..v], takes)|].stream == all[v]
    {
      hide Left;
      if v < |all| {
        assert Contents()[|Left(all[..v], takes)|] == all[v];
      }
    }

    // A callback on the stream at position v of the list as it was: it removes a stream by its SSRC, or does not.
    method Visit(stream: StreamCtx, take: bool, ghost all: seq<StreamCtx>, ghost v: nat, ghost takes: seq<bool>)
      requires v < |all| <= |takes| && Underway(all, v, takes)
      requires stream == all[v] && take == takes[v]
      modifies this`size, entries
      ensures Underway(all, v + 1, takes) && entries == old(entries) && size == old(size) - if take then 1 else 0
      ensures |Left(all[..v + 1], takes)| == |Left(all[..v], takes)| + if take then 0 else 1
    {
      hide Left, FirstWith, Rekeying.Without;
      ghost var left := Left(all[..v], takes);
      assert all[..v + 1] == all[..v] + [stream] && all[v..] == [stream] + all[v + 1..];
      OneMoreLeft(all[..v], stream, takes);
      assert left + ([stream] + all[v + 1..]) == left + [stream] + all[v + 1..];
      if take {
        FirstIsVisited(left, stream, all[v + 1..]);
        Remove(stream);
      }
    }

    /** srtp_stream_list_for_each.  On visit v the callback takes the stream out of the list if takes[v], and
        asks to go on if more[v].  Though entries move up under the loop, it visits every stream once, in
        order, until it is asked to stop, and it ends.  If SSRCs are distinct, it is the stream visited that is
        taken out. */
    method ForEach(takes: seq<bool>, more: seq<bool>) returns (visited: seq<StreamCtx>)
      requires Valid() && |takes| == size == |more|
      modifies this`size, entries
      ensures Valid() && entries == old(entries)
      ensures visited <= old(Contents())
      ensures forall v :: 0 <= v < |visited| - 1 ==> more[v]
      ensures |visited| < |takes| ==> visited != [] && !more[|visited| - 1]
      ensures Contents() == Left(visited, takes) + old(Contents())[|visited|..]
      ensures DistinctSsrcs(visited) ==> Contents() == NotTaken(visited, takes) + old(Contents())[|visited|..]
    {
      ghost var all := Contents();
      assert all[..0] == [] && [] + all == all;
      NoneLeft(takes);
      visited := Walk(takes, more, all);
      Landed(all, |visited|, takes);
      if DistinctSsrcs(visited) {
        LeftIfDistinct(visited, takes);
      }
    }

    // The loop itself.
    method Walk(takes: seq<bool>, more: seq<bool>, ghost all: seq<StreamCtx>) returns (visited: seq<StreamCtx>)
      requires |takes| == |all| == |more| && Underway(all, 0, takes)
      modifies this`size, entries
      ensures entries == old(entries) && |visited| <= |all| && visited == all[..|visited|] && Underway(all, |visited|, takes)
      ensures forall v :: 0 <= v < |visited| - 1 ==> more[v]
      ensures |visited| < |all| ==> visited != [] && !more[|visited| - 1]
    {
      hide Left, Underway;
      var buffer, i, last, v := entries, 0, size, 0;
      visited := [];
      Start(all, takes);
      while i < size
        invariant v <= |all| && Underway(all, v, takes) && visited == all[..v]
        invariant buffer == entries == old(entries) && last == size <= buffer.Length
        invariant i == |Left(all[..v], takes)| && size == i + |all| - v
        invariant forall u :: 0 <= u < v ==> more[u]
        decreases |all| - v
      {
        UnderwayAt(all, v, takes);
        var stream := buffer[i].stream;
        Visit(stream, takes[v], all, v, takes);
        visited, v := visited + [stream], v + 1;
        if !more[v - 1] {
          return;
        }
        if last == size {
          i := i + 1;
        }
        last := size;
      }
    }

    lemma Start(all: seq<StreamCtx>, takes: seq<bool>)
      requires |all| <= |takes| && Underway(all, 0, takes)
      ensures |Left(all[..0], takes)| == 0 && size == |all| && size <= entries.Length
    {
      assert all[..0] == [];
    }

    lemma Landed(all: seq<StreamCtx>, v: nat, takes: seq<bool>)
      requires v <= |all| <= |takes| && Underway(all, v, takes)
      ensures Valid() && Contents() == Left(all[..v], takes) + all[v..]
    {}
  }

  // What is left of the streams visited: a callback that takes its stream out removes the first with its SSRC.
  ghost function Left(visited: seq<StreamCtx>, takes: seq<bool>): (r: seq<StreamCtx>)
    requires |visited| <= |takes|
  {
    if visited == [] then []
    else
      var n := |visited| - 1;
      var now := Left(visited[..n], takes) + [visited[n]];
      if takes[n] then Rekeying.Without(now, FirstIn(now, visited[n].ssrc)) else now
  }

  // The same when the stream is there.
  ghost function FirstIn(streams: seq<StreamCtx>, ssrc: Ssrc): (i: nat)
    requires streams != [] && streams[|streams| - 1].ssrc == ssrc
    ensures i < |streams| && i == FirstWith(streams, ssrc)
  {
    FirstWith(streams, ssrc)
  }

  // The streams visited whose callback did not take them out.
  ghost function NotTaken(visited: seq<StreamCtx>, takes: seq<bool>): (r: seq<StreamCtx>)
    requires |visited| <= |takes|
    ensures forall x :: x in r ==> x in visited
  {
    if visited == [] then []
    else
      var n := |visited| - 1;
      NotTaken(visited[..n], takes) + if takes[n] then [] else [visited[n]]
  }

  ghost predicate DistinctSsrcs(streams: seq<StreamCtx>) {
    forall i, j :: 0 <= i < j < |streams| ==> streams[i].ssrc != streams[j].ssrc
  }

  lemma NoneLeft(takes: seq<bool>)
    ensures Left([], takes) == []
  {}

  lemma OneMoreLeft(visited: seq<StreamCtx>, stream: StreamCtx, takes: seq<bool>)
    requires |visited| < |takes|
    ensures var now := Left(visited, takes) + [stream];
            Left(visited + [stream], takes) == if takes[|visited|] then Rekeying.Without(now, FirstIn(now, stream.ssrc)) else now
  {
    assert (visited + [stream])[..|visited|] == visited;
  }

  // The first stream with the SSRC of the one visited is that one or was left before it.
  lemma FirstIsVisited(left: seq<StreamCtx>, stream: StreamCtx, rest: seq<StreamCtx>)
    ensures var now := left + [stream];
            var i := FirstIn(now, stream.ssrc);
            && i <= |left| && i == FirstWith(now + rest, stream.ssrc)
            && Rekeying.Without(now + rest, i) == Rekeying.Without(now, i) + rest
  {
    hide FirstWith;
    var now := left + [stream];
    var i := FirstIn(now, stream.ssrc);
    assert (now + rest)[i] == now[i];
  }

  lemma LastIsFirst(left: seq<StreamCtx>, stream: StreamCtx)
    requires forall j :: 0 <= j < |left| ==> left[j].ssrc != stream.ssrc
    ensures var now := left + [stream]; Rekeying.Without(now, FirstIn(now, stream.ssrc)) == left
  {
    hide FirstWith;
    var now := left + [stream];
    assert FirstIn(now, stream.ssrc) == |left|;
  }

  lemma {:induction false} LeftIfDistinct(visited: seq<StreamCtx>, takes: seq<bool>)
    requires |visited| <= |takes| && DistinctSsrcs(visited)
    ensures Left(visited, takes) == NotTaken(visited, takes)
  {
    hide FirstWith, FirstIn, Rekeying.Without;
    if visited != [] {
      var n := |visited| - 1;
      var front, left := visited[..n], NotTaken(visited[..n], takes);
      assert DistinctSsrcs(front);
      LeftIfDistinct(front, takes);
      LastIsFirst(left, visited[n]) by {
        forall j | 0 <= j < |left| ensures left[j].ssrc != visited[n].ssrc {
          assert left[j] in front;
        }
      }
    }
  }

  /** With an SSRC listed twice, a callback that takes out the second stream removes the first. */
  lemma WrongOneLeaves(a: StreamCtx, b: StreamCtx)
    requires a.ssrc == b.ssrc
    ensures NotTaken([a, b], [false, true]) == [a] && Left([a, b], [false, true]) == [b]
  {
    assert [a, b][..1] == [a] && [a][..0] == [];
    assert Left([a], [false, true]) == [a] && NotTaken([a], [false, true]) == [a];
    assert [a] + [b] == [a, b];
  }

  lemma WithoutAt<T>(s: seq<T>, i: nat, j: nat)
    requires i < |s| && j < |s| - 1
    ensures Rekeying.Without(s, i)[j] == s[if j < i then j else j + 1]
  {}
}
