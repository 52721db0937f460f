/**
 The SRTCP replay window of rdb.c: a 31-bit index and a window of 128 bits that starts
 at window_start.  A sender uses window_start alone, as a counter.
 */
module RtcpReplay {
  import opened Errors
  import opened BitVectors
  import RW = ReplayWindow

  const WINDOW := 128
  const INDEX_MAX := 0x7fff_ffff

  // Bit i stands for start + i.
  datatype RtcpWindow = RtcpWindow(start: nat, bits: seq<bool>)

  function Fresh(): RtcpWindow {
    RtcpWindow(0, seq(WINDOW, _ => false))
  }

  // srtp_rdb_check
  function Check(w: RtcpWindow, index: nat): Status
    requires |w.bits| == WINDOW
  {
    if index >= w.start + WINDOW then Ok
    else if index < w.start then ReplayOld
    else if w.bits[index - w.start] then ReplayFail
    else Ok
  }

  // srtp_rdb_add_index
  function Add(w: RtcpWindow, index: nat): (r: RtcpWindow)
    requires |w.bits| == WINDOW
    ensures |r.bits| == WINDOW
  {
    if index < w.start then w
    else
      var delta := index - w.start;
      if delta < WINDOW then w.(bits := w.bits[delta := true])
      else
        var shift := delta - (WINDOW - 1);
        RtcpWindow(w.start + shift, ShiftedBits(w.bits, shift)[WINDOW - 1 := true])
  }

  /** The bits are exactly the accepted indices of the window, everything accepted is at most the
      window's last index. */
  ghost predicate Represents(w: RtcpWindow, accepted: set<nat>) {
    && |w.bits| == WINDOW
    && (forall i :: 0 <= i < WINDOW ==> w.bits[i] == (w.start + i in accepted))
    && (forall a :: a in accepted ==> a < w.start + WINDOW)
  }

  lemma CheckIsExact(w: RtcpWindow, accepted: set<nat>, index: nat)
    requires Represents(w, accepted)
    ensures Check(w, index) == ReplayOld <==> index < w.start
    ensures Check(w, index) == ReplayFail <==> w.start <= index && index in accepted
    ensures Check(w, index) == Ok <==> w.start <= index && index !in accepted
  {
    if w.start <= index < w.start + WINDOW {
      assert w.bits[index - w.start] == (w.start + (index - w.start) in accepted);
    }
  }

  lemma AddRepresents(w: RtcpWindow, accepted: set<nat>, index: nat)
    requires Represents(w, accepted) && w.start <= index
    ensures Represents(Add(w, index), accepted + {index})
  {
    var r := Add(w, index);
    forall i | 0 <= i < WINDOW ensures r.bits[i] == (r.start + i in accepted + {index}) {
      if index - w.start >= WINDOW && i < WINDOW - 1 {
        var shift := index - w.start - (WINDOW - 1);
        if i + shift < WINDOW {
          assert w.bits[i + shift] == (w.start + (i + shift) in accepted);
        }
      }
    }
  }

  // ---------- receive runs ----------

  datatype RunState = RunState(window: RtcpWindow, log: seq<nat>)

  // Check, and when the packet authenticates, add.
  function Receive(st: RunState, index: nat): (r: RunState)
    requires |st.window.bits| == WINDOW
    ensures |r.window.bits| == WINDOW
  {
    if Check(st.window, index) == Ok then RunState(Add(st.window, index), st.log + [index]) else st
  }

  function ReceiveAll(indices: seq<nat>): (r: RunState)
    ensures |r.window.bits| == WINDOW
  {
    if indices == [] then RunState(Fresh(), [])
    else Receive(ReceiveAll(indices[..|indices| - 1]), indices[|indices| - 1])
  }

  /** No index is accepted twice in any receive run, the window represents exactly what was accepted,
      and an index is refused exactly when it was accepted before or lies below the window. */
  lemma {:induction false} ReceiveRun(indices: seq<nat>, next: nat)
    ensures var st := ReceiveAll(indices);
            && Represents(st.window, RW.Elements(st.log))
            && (forall i, j :: 0 <= i < j < |st.log| ==> st.log[i] != st.log[j])
            && (Receive(st, next) == st <==> next in st.log || next < st.window.start)
  {
    var st := ReceiveAll(indices);
    if indices == [] {
      assert RW.Elements([]) == {};
    } else {
      var last := indices[|indices| - 1];
      var before := ReceiveAll(indices[..|indices| - 1]);
      ReceiveRun(indices[..|indices| - 1], last);
      hide Represents, Add;
      CheckIsExact(before.window, RW.Elements(before.log), last);
      assert RW.Elements(before.log + [last]) == RW.Elements(before.log) + {last};
      if Check(before.window, last) == Ok {
        AddRepresents(before.window, RW.Elements(before.log), last);
      }
    }
    CheckIsExact(st.window, RW.Elements(st.log), next);
    assert |st.log + [next]| != |st.log|;
  }

  // ---------- the sender's counter ----------

  // srtp_rdb_increment, then srtp_rdb_get_value: the new index, or key_expired.
  function Increment(w: RtcpWindow): (Status, RtcpWindow) {
    if w.start >= INDEX_MAX then (KeyExpired, w) else (Ok, w.(start := w.start + 1))
  }

  /** Sending moves the start and leaves the bits where they are, so afterwards an index of the window is
      taken for a replay exactly if the index before it was accepted. */
  lemma SendingMisaligns(w: RtcpWindow, accepted: set<nat>, index: nat)
    requires Represents(w, accepted) && w.start < INDEX_MAX && w.start < index <= w.start + WINDOW
    ensures Check(Increment(w).1, index) == (if index - 1 in accepted then ReplayFail else Ok)
  {
    assert w.bits[index - 1 - w.start] == (w.start + (index - 1 - w.start) in accepted);
  }

  /** One such database: index 5 has been accepted; once the same stream has sent a packet, 5 is accepted
      again and 6, which never came, is refused. */
  lemma AcceptedAgain()
    ensures var w := Add(Fresh(), 5);
            && Check(Fresh(), 5) == Ok && Check(w, 5) == ReplayFail
            && Check(Increment(w).1, 5) == Ok && Check(Increment(w).1, 6) == ReplayFail
  {
    assert RW.Elements([]) == {};
    AddRepresents(Fresh(), {}, 5);
    var w := Add(Fresh(), 5);
    SendingMisaligns(w, {} + {5}, 5);
    SendingMisaligns(w, {} + {5}, 6);
  }

  // The value after n calls, and how often they succeeded.
  function Sent(w: RtcpWindow, n: nat): RtcpWindow {
    if n == 0 then w else Increment(Sent(w, n - 1)).1
  }

  /** Call n of a fresh sender yields index n, so indices strictly increase; after 0x7fffffff calls
      the key has expired, and every later call says so and changes nothing. */
  lemma {:induction false} SenderRun(n: nat)
    ensures Sent(Fresh(), n) == Fresh().(start := if n < 0x7fff_ffff then n else 0x7fff_ffff)
    ensures Increment(Sent(Fresh(), n)).0 == Ok <==> n < 0x7fff_ffff
    ensures n >= 0x7fff_ffff ==> Increment(Sent(Fresh(), n)) == (KeyExpired, Sent(Fresh(), n))
  {
    if n > 0 {
      SenderRun(n - 1);
    }
  }
}
