/**
 Who frees what.  A stream cloned from the template shares the template's ciphers, authenticators and
 key limits; srtp_stream_dealloc frees what a stream holds and the template does not.
 */
module Allocations {

  // One allocation.
  class Block {
    constructor () {}
  }

  datatype KeyRefs = KeyRefs(rtpCipher: Block, rtpAuth: Block, xtnCipher: Block?, rtcpCipher: Block, rtcpAuth: Block,
                             mki: Block?, limit: Block)

  datatype Refs = Refs(stream: Block, table: Block, keys: seq<KeyRefs>, bitmask: Block?, encXtn: Block?)

  datatype MaybeRefs = NoRefs | SomeRefs(refs: Refs)
  datatype MaybeKey = NoKey | SomeKey(key: KeyRefs)

  function One(b: Block?): multiset<Block> {
    if b == null then multiset{} else multiset{b}
  }

  // A block is freed unless the template holds the very same one.
  function Unless(b: Block?, shared: Block?): multiset<Block> {
    if b == shared then multiset{} else One(b)
  }

  function FreedKey(k: KeyRefs, t: MaybeKey): multiset<Block> {
    match t
    case NoKey =>
      One(k.rtpCipher) + (One(k.rtpAuth) + (One(k.xtnCipher) + (One(k.rtcpCipher) + (One(k.rtcpAuth) + (One(k.mki) + One(k.limit))))))
    case SomeKey(s) =>
      Unless(k.rtpCipher, s.rtpCipher) + (Unless(k.rtpAuth, s.rtpAuth) + (Unless(k.xtnCipher, s.xtnCipher) +
      (Unless(k.rtcpCipher, s.rtcpCipher) + (Unless(k.rtcpAuth, s.rtcpAuth) + (One(k.mki) + Unless(k.limit, s.limit))))))
  }

  // Keys are compared with the template's only if there are equally many.
  function KeyOf(r: Refs, t: MaybeRefs, i: nat): MaybeKey
    requires i < |r.keys|
  {
    if t.SomeRefs? && |t.refs.keys| == |r.keys| then SomeKey(t.refs.keys[i]) else NoKey
  }

  // Keys i and after.
  function FreedKeys(r: Refs, t: MaybeRefs, i: nat): multiset<Block>
    requires i <= |r.keys|
    decreases |r.keys| - i
  {
    if i == |r.keys| then multiset{} else FreedKey(r.keys[i], KeyOf(r, t, i)) + FreedKeys(r, t, i + 1)
  }

  function FreedXtn(r: Refs, t: MaybeRefs): multiset<Block> {
    if t.SomeRefs? then Unless(r.encXtn, t.refs.encXtn) else One(r.encXtn)
  }

  /** What srtp_stream_dealloc frees. */
  function Freed(r: Refs, t: MaybeRefs): multiset<Block> {
    FreedKeys(r, t, 0) + (One(r.table) + (One(r.bitmask) + (FreedXtn(r, t) + One(r.stream))))
  }

  // All that the streams hold, the template's share left out.
  function Held(streams: seq<Refs>, t: MaybeRefs): multiset<Block> {
    if streams == [] then multiset{} else Held(streams[..|streams| - 1], t) + Freed(streams[|streams| - 1], t)
  }

  function HeldBySession(streams: seq<Refs>, t: MaybeRefs): multiset<Block> {
    Held(streams, t) + if t.SomeRefs? then Freed(t.refs, NoRefs) else multiset{}
  }

  // ---------- clones and strangers ----------

  predicate SharesKey(k: KeyRefs, s: KeyRefs) {
    && k.rtpCipher == s.rtpCipher && k.rtpAuth == s.rtpAuth && k.xtnCipher == s.xtnCipher && k.rtcpCipher == s.rtcpCipher
    && k.rtcpAuth == s.rtcpAuth && k.limit == s.limit
  }

  predicate IsClone(r: Refs, t: Refs) {
    && |r.keys| == |t.keys| && r.encXtn == t.encXtn
    && (forall i :: 0 <= i < |r.keys| ==> SharesKey(r.keys[i], t.keys[i]))
  }

  predicate Differ(a: Block?, b: Block?) {
    a != b || a == null
  }

  predicate ApartKey(k: KeyRefs, s: KeyRefs) {
    && k.rtpCipher != s.rtpCipher && k.rtpAuth != s.rtpAuth && Differ(k.xtnCipher, s.xtnCipher)
    && k.rtcpCipher != s.rtcpCipher && k.rtcpAuth != s.rtcpAuth && k.limit != s.limit
  }

  predicate IsApart(r: Refs, t: Refs) {
    && Differ(r.encXtn, t.encXtn)
    && (forall i, j :: 0 <= i < |r.keys| && 0 <= j < |t.keys| ==> ApartKey(r.keys[i], t.keys[j]))
  }

  function Mkis(r: Refs, i: nat): multiset<Block>
    requires i <= |r.keys|
    decreases |r.keys| - i
  {
    if i == |r.keys| then multiset{} else One(r.keys[i].mki) + Mkis(r, i + 1)
  }

  // A clone's own blocks.
  function CloneOwn(r: Refs): multiset<Block> {
    Mkis(r, 0) + (One(r.table) + One(r.bitmask) + One(r.stream))
  }

  lemma CloneKeyFreed(k: KeyRefs, s: KeyRefs)
    requires SharesKey(k, s)
    ensures FreedKey(k, SomeKey(s)) == One(k.mki)
  {}

  lemma {:induction false} CloneKeysFreed(r: Refs, t: Refs, i: nat)
    requires IsClone(r, t) && i <= |r.keys|
    ensures FreedKeys(r, SomeRefs(t), i) == Mkis(r, i)
    decreases |r.keys| - i
  {
    hide FreedKey, One;
    if i < |r.keys| {
      CloneKeysFreed(r, t, i + 1);
      CloneKeyFreed(r.keys[i], t.keys[i]);
    }
  }

  /** Deallocating a clone frees its own blocks and none of the template's. */
  lemma CloneFreed(r: Refs, t: Refs)
    requires IsClone(r, t)
    ensures Freed(r, SomeRefs(t)) == CloneOwn(r)
  {
    hide FreedKeys, Mkis;
    CloneKeysFreed(r, t, 0);
  }

  lemma ApartKeyFreed(k: KeyRefs, s: KeyRefs)
    requires ApartKey(k, s)
    ensures FreedKey(k, SomeKey(s)) == FreedKey(k, NoKey)
  {
    UnlessDiffers(k.xtnCipher, s.xtnCipher);
    UnlessDiffers(k.rtpCipher, s.rtpCipher);
    UnlessDiffers(k.rtpAuth, s.rtpAuth);
    UnlessDiffers(k.rtcpCipher, s.rtcpCipher);
    UnlessDiffers(k.rtcpAuth, s.rtcpAuth);
    UnlessDiffers(k.limit, s.limit);
    hide Unless, One;
  }

  lemma UnlessDiffers(b: Block?, shared: Block?)
    requires Differ(b, shared)
    ensures Unless(b, shared) == One(b)
  {}

  lemma {:induction false} ApartKeysFreed(r: Refs, t: Refs, i: nat)
    requires IsApart(r, t) && i <= |r.keys|
    ensures FreedKeys(r, SomeRefs(t), i) == FreedKeys(r, NoRefs, i)
    decreases |r.keys| - i
  {
    hide FreedKey;
    if i < |r.keys| {
      ApartKeysFreed(r, t, i + 1);
      if |t.keys| == |r.keys| {
        ApartKeyFreed(r.keys[i], t.keys[i]);
      }
    }
  }

  /** Deallocating a stream with keys of its own frees everything it holds, whatever the template. */
  lemma ApartFreed(r: Refs, t: Refs)
    requires IsApart(r, t)
    ensures Freed(r, SomeRefs(t)) == Freed(r, NoRefs)
  {
    hide FreedKeys;
    ApartKeysFreed(r, t, 0);
  }

  // ---------- sums over the list ----------

  lemma SumAssociates(a: multiset<Block>, b: multiset<Block>, c: multiset<Block>)
    ensures a + (b + c) == a + b + c
  {}

  lemma SumExchanges(a: multiset<Block>, b: multiset<Block>, c: multiset<Block>)
    ensures a + b + c == a + c + b
  {}

  lemma HeldAppend(streams: seq<Refs>, r: Refs, t: MaybeRefs)
    ensures Held(streams + [r], t) == Held(streams, t) + Freed(r, t)
  {
    assert (streams + [r])[..|streams|] == streams;
  }

  lemma {:induction false} HeldSplit(streams: seq<Refs>, more: seq<Refs>, t: MaybeRefs)
    ensures Held(streams + more, t) == Held(streams, t) + Held(more, t)
    decreases |more|
  {
    hide Freed;
    if more == [] {
      assert streams + more == streams;
    } else {
      var n := |more| - 1;
      HeldSplit(streams, more[..n], t);
      assert (streams + more)[..|streams + more| - 1] == streams + more[..n];
      SumAssociates(Held(streams, t), Held(more[..n], t), Freed(more[n], t));
    }
  }

  lemma HeldWithout(streams: seq<Refs>, i: nat, t: MaybeRefs)
    requires i < |streams|
    ensures Held(streams, t) == Held(streams[..i] + streams[i + 1..], t) + Freed(streams[i], t)
  {
    hide Freed, Held;
    HeldSplit(streams[..i], streams[i + 1..], t);
    HeldAppend(streams[..i], streams[i], t);
    HeldSplit(streams[..i] + [streams[i]], streams[i + 1..], t);
    assert streams == streams[..i] + [streams[i]] + streams[i + 1..];
    SumExchanges(Held(streams[..i], t), Freed(streams[i], t), Held(streams[i + 1..], t));
  }

  /** A first template changes nothing for streams that share nothing with it. */
  lemma {:induction false} HeldApart(streams: seq<Refs>, t: Refs)
    requires forall i :: 0 <= i < |streams| ==> IsApart(streams[i], t)
    ensures Held(streams, SomeRefs(t)) == Held(streams, NoRefs)
  {
    if streams != [] {
      HeldApart(streams[..|streams| - 1], t);
      ApartFreed(streams[|streams| - 1], t);
    }
  }

  // ---------- what a stream points to ----------

  predicate KeyPoints(k: KeyRefs, b: Block) {
    b in [k.rtpCipher, k.rtpAuth, k.rtcpCipher, k.rtcpAuth, k.limit] || b == k.xtnCipher || b == k.mki
  }

  predicate Points(r: Refs, b: Block) {
    b == r.stream || b == r.table || b == r.bitmask || b == r.encXtn || exists i :: 0 <= i < |r.keys| && KeyPoints(r.keys[i], b)
  }

  lemma KeyPointsFreed(k: KeyRefs, b: Block)
    requires KeyPoints(k, b)
    ensures b in FreedKey(k, NoKey)
  {
    var limit := One(k.limit);
    var mki := One(k.mki) + limit;
    var rtcpAuth := One(k.rtcpAuth) + mki;
    var rtcpCipher := One(k.rtcpCipher) + rtcpAuth;
    var xtn := One(k.xtnCipher) + rtcpCipher;
    assert FreedKey(k, NoKey) == One(k.rtpCipher) + (One(k.rtpAuth) + xtn);
  }

  lemma {:induction false} KeyIsFreed(r: Refs, i: nat, j: nat, b: Block)
    requires i <= j < |r.keys| && KeyPoints(r.keys[j], b)
    ensures b in FreedKeys(r, NoRefs, i)
    decreases j - i
  {
    hide FreedKey, KeyPoints;
    if i < j {
      KeyIsFreed(r, i + 1, j, b);
    } else {
      KeyPointsFreed(r.keys[j], b);
    }
  }

  lemma {:induction false} MkiIsFreed(r: Refs, i: nat, j: nat)
    requires i <= j < |r.keys| && r.keys[j].mki != null
    ensures r.keys[j].mki in Mkis(r, i)
    decreases j - i
  {
    if i < j {
      MkiIsFreed(r, i + 1, j);
    }
  }

  // All that a stream points to is freed when it is freed on its own.
  lemma PointsFreed(r: Refs, b: Block)
    requires Points(r, b)
    ensures b in Freed(r, NoRefs)
  {
    hide FreedKeys, KeyPoints;
    if j :| 0 <= j < |r.keys| && KeyPoints(r.keys[j], b) {
      KeyIsFreed(r, 0, j, b);
    }
  }

  // What a clone points to is freed with it, or belongs to the template.
  lemma ClonePoints(r: Refs, t: Refs, b: Block)
    requires IsClone(r, t) && Points(r, b)
    ensures b in Freed(r, SomeRefs(t)) || Points(t, b)
  {
    hide Freed, Mkis;
    CloneFreed(r, t);
    if j :| 0 <= j < |r.keys| && KeyPoints(r.keys[j], b) {
      if b == r.keys[j].mki {
        MkiIsFreed(r, 0, j);
      } else {
        assert SharesKey(r.keys[j], t.keys[j]) && KeyPoints(t.keys[j], b);
      }
    }
  }

  lemma FreedIsHeld(streams: seq<Refs>, i: nat, t: MaybeRefs, b: Block)
    requires i < |streams| && b in Freed(streams[i], t)
    ensures b in Held(streams, t)
  {
    hide Freed, Held;
    HeldWithout(streams, i, t);
  }

  // ---------- the allocator ----------

  lemma Without(live: set<Block>, b: Block, rest: multiset<Block>)
    requires multiset(live) == multiset{b} + rest
    ensures multiset(live - {b}) == rest
  {
    var was, now: multiset<Block> := multiset(live), multiset(live - {b});
    forall x: Block ensures now[x] == rest[x] {
      assert was[x] == multiset{b}[x] + rest[x];
    }
  }

  class Heap {
    ghost var live: set<Block>  // allocated and not yet freed

    constructor ()
      ensures live == {}
    {
      live := {};
    }

    method Alloc() returns (b: Block)
      modifies this
      ensures fresh(b) && live == old(live) + {b}
      ensures multiset(live) == multiset(old(live)) + One(b)
    {
      b := new Block();
      live := live + {b};
    }

    method AllocIf(wanted: bool) returns (b: Block?)
      modifies this
      ensures if wanted then b != null && fresh(b) && live == old(live) + {b} else b == null && live == old(live)
      ensures multiset(live) == multiset(old(live)) + One(b)
    {
      b := null;
      if wanted {
        b := Alloc();
      }
    }

    // srtp_crypto_free: only what is allocated may be freed.
    method Free(b: Block, ghost rest: multiset<Block>)
      requires multiset(live) == One(b) + rest
      modifies this
      ensures multiset(live) == rest
    {
      assert b in multiset(live);
      Without(live, b, rest);
      live := live - {b};
    }

    // Freeing what is not null, and not the template's.
    method Release(b: Block?, compared: bool, shared: Block?, ghost rest: multiset<Block>)
      requires multiset(live) == (if compared then Unless(b, shared) else One(b)) + rest
      modifies this
      ensures multiset(live) == rest
    {
      if b != null && !(compared && b == shared) {
        Free(b, rest);
      } else {
        assert multiset{} + rest == rest;
      }
    }

    method ReleaseKey(k: KeyRefs, t: MaybeKey, ghost rest: multiset<Block>)
      requires multiset(live) == FreedKey(k, t) + rest
      modifies this
      ensures multiset(live) == rest
    {
      hide One, Unless;
      var c, s := t.SomeKey?, if t.SomeKey? then t.key else k;
      ghost var g := (if c then One(k.mki) + Unless(k.limit, s.limit) else One(k.mki) + One(k.limit)) + rest;
      ghost var l := (if c then Unless(k.limit, s.limit) else One(k.limit)) + rest;
      ghost var e := (if c then Unless(k.rtcpAuth, s.rtcpAuth) else One(k.rtcpAuth)) + g;
      ghost var d := (if c then Unless(k.rtcpCipher, s.rtcpCipher) else One(k.rtcpCipher)) + e;
      ghost var x := (if c then Unless(k.xtnCipher, s.xtnCipher) else One(k.xtnCipher)) + d;
      ghost var a := (if c then Unless(k.rtpAuth, s.rtpAuth) else One(k.rtpAuth)) + x;
      Release(k.rtpCipher, c, s.rtpCipher, a);
      Release(k.rtpAuth, c, s.rtpAuth, x);
      Release(k.xtnCipher, c, s.xtnCipher, d);
      Release(k.rtcpCipher, c, s.rtcpCipher, e);
      Release(k.rtcpAuth, c, s.rtcpAuth, g);
      Release(k.mki, false, null, l);
      Release(k.limit, c, s.limit, rest);
    }

    /** srtp_stream_dealloc: frees exactly Freed, each block while it is still allocated. */
    method ReleaseStream(r: Refs, t: MaybeRefs, ghost rest: multiset<Block>)
      requires multiset(live) == Freed(r, t) + rest
      modifies this
      ensures multiset(live) == rest
    {
      hide One, FreedKey, Unless;
      ghost var w := One(r.stream) + rest;
      ghost var x := FreedXtn(r, t) + w;
      ghost var m := One(r.bitmask) + x;
      ghost var tail := One(r.table) + m;
      assert multiset(live) == FreedKeys(r, t, 0) + tail;
      for i := 0 to |r.keys|
        invariant multiset(live) == FreedKeys(r, t, i) + tail
      {
        SumAssociates(FreedKey(r.keys[i], KeyOf(r, t, i)), FreedKeys(r, t, i + 1), tail);
        ReleaseKey(r.keys[i], KeyOf(r, t, i), FreedKeys(r, t, i + 1) + tail);
      }
      Free(r.table, m);
      Release(r.bitmask, false, null, x);
      Release(r.encXtn, t.SomeRefs?, if t.SomeRefs? then t.refs.encXtn else null, w);
      Free(r.stream, rest);
    }

    // One session key of a clone: all shared but the identifier.
    method CloneKey(s: KeyRefs) returns (k: KeyRefs)
      modifies this
      ensures SharesKey(k, s) && (k.mki != null ==> fresh(k.mki))
      ensures multiset(live) == multiset(old(live)) + One(k.mki)
    {
      var mki := AllocIf(s.mki != null);
      k := s.(mki := mki);
    }

    /** srtp_stream_clone: a clone shares the template's blocks and adds to the heap what deallocating it
        will free again. */
    method AcquireClone(t: Refs) returns (r: Refs)
      modifies this
      ensures IsClone(r, t)
      ensures multiset(live) == multiset(old(live)) + Freed(r, SomeRefs(t))
    {
      hide One;
      ghost var was := multiset(live);
      var stream := Alloc();
      var table := Alloc();
      var bitmask := Alloc();
      var keys: seq<KeyRefs> := [];
      ghost var own := One(stream) + One(table) + One(bitmask);
      assert multiset(live) == was + own + MkiSum(keys);
      while |keys| < |t.keys|
        invariant |keys| <= |t.keys| && forall i :: 0 <= i < |keys| ==> SharesKey(keys[i], t.keys[i])
        invariant multiset(live) == was + own + MkiSum(keys)
      {
        var k := CloneKey(t.keys[|keys|]);
        assert (keys + [k])[..|keys|] == keys;
        SumAssociates(was + own, MkiSum(keys), One(k.mki));
        keys := keys + [k];
      }
      r := Refs(stream, table, keys, bitmask, t.encXtn);
      MkiSumIs(r);
      CloneFreed(r, t);
      CloneTotal(r, was, own);
    }

    // A key with transforms of its own.
    method AcquireKey(hasXtn: bool, hasMki: bool, ghost others: seq<Refs>) returns (k: KeyRefs)
      modifies this
      ensures forall o, j :: o in others && 0 <= j < |o.keys| ==> ApartKey(k, o.keys[j]) && ApartKey(o.keys[j], k)
      ensures multiset(live) == multiset(old(live)) + FreedKey(k, NoKey)
    {
      hide One;
      ghost var was := multiset(live);
      var rtpCipher := Alloc();
      var rtpAuth := Alloc();
      var xtn := AllocIf(hasXtn);
      var rtcpCipher := Alloc();
      var rtcpAuth := Alloc();
      var mki := AllocIf(hasMki);
      var limit := Alloc();
      k := KeyRefs(rtpCipher, rtpAuth, xtn, rtcpCipher, rtcpAuth, mki, limit);
      SevenInTurn(was, One(rtpCipher), One(rtpAuth), One(xtn), One(rtcpCipher), One(rtcpAuth), One(mki), One(limit));
    }

    /** srtp_stream_alloc: a stream with n keys of its own shares no block with any other.  Bitmask and
        identifiers are allocated by srtp_stream_init, and only if the window size is accepted. */
    method AcquireStream(n: nat, hasXtn: bool, hasMki: bool, hasIds: bool, initialized: bool, ghost others: seq<Refs>) returns (r: Refs)
      modifies this
      ensures |r.keys| == n
      ensures forall o :: o in others ==> IsApart(r, o) && IsApart(o, r)
      ensures multiset(live) == multiset(old(live)) + Freed(r, NoRefs)
    {
      hide One, FreedKey;
      ghost var was := multiset(live);
      var stream := Alloc();
      var table := Alloc();
      var bitmask := AllocIf(initialized);
      var ids := AllocIf(hasIds);
      ghost var own := One(stream) + One(table) + One(bitmask) + One(ids);
      var keys: seq<KeyRefs> := [];
      assert multiset(live) == was + own + KeySum(keys);
      while |keys| < n
        invariant |keys| <= n
        invariant forall i, o, j :: 0 <= i < |keys| && o in others && 0 <= j < |o.keys| ==>
                    ApartKey(keys[i], o.keys[j]) && ApartKey(o.keys[j], keys[i])
        invariant multiset(live) == was + own + KeySum(keys)
      {
        var k := AcquireKey(hasXtn, hasMki && initialized, others);
        assert (keys + [k])[..|keys|] == keys;
        SumAssociates(was + own, KeySum(keys), FreedKey(k, NoKey));
        keys := keys + [k];
      }
      r := Refs(stream, table, keys, bitmask, ids);
      KeySumIs(r);
      StreamTotal(r, was, own);
    }
  }

  // ---------- sums in the order of allocation ----------

  function MkiSum(keys: seq<KeyRefs>): multiset<Block> {
    if keys == [] then multiset{} else MkiSum(keys[..|keys| - 1]) + One(keys[|keys| - 1].mki)
  }

  function KeySum(keys: seq<KeyRefs>): multiset<Block> {
    if keys == [] then multiset{} else KeySum(keys[..|keys| - 1]) + FreedKey(keys[|keys| - 1], NoKey)
  }

  lemma {:induction false} MkiSplit(r: Refs, i: nat)
    requires i <= |r.keys|
    ensures MkiSum(r.keys[..i]) + Mkis(r, i) == Mkis(r, 0)
  {
    hide One;
    if i > 0 {
      MkiSplit(r, i - 1);
      assert r.keys[..i][..i - 1] == r.keys[..i - 1];
      SumAssociates(MkiSum(r.keys[..i - 1]), One(r.keys[i - 1].mki), Mkis(r, i));
    }
  }

  lemma MkiSumIs(r: Refs)
    ensures MkiSum(r.keys) == Mkis(r, 0)
  {
    hide MkiSum;
    MkiSplit(r, |r.keys|);
    assert r.keys[..|r.keys|] == r.keys;
  }

  lemma {:induction false} KeySplit(r: Refs, i: nat)
    requires i <= |r.keys|
    ensures KeySum(r.keys[..i]) + FreedKeys(r, NoRefs, i) == FreedKeys(r, NoRefs, 0)
  {
    hide FreedKey;
    if i > 0 {
      KeySplit(r, i - 1);
      assert r.keys[..i][..i - 1] == r.keys[..i - 1];
      SumAssociates(KeySum(r.keys[..i - 1]), FreedKey(r.keys[i - 1], NoKey), FreedKeys(r, NoRefs, i));
    }
  }

  lemma KeySumIs(r: Refs)
    ensures KeySum(r.keys) == FreedKeys(r, NoRefs, 0)
  {
    hide KeySum;
    KeySplit(r, |r.keys|);
    assert r.keys[..|r.keys|] == r.keys;
  }

  lemma CloneTotal(r: Refs, was: multiset<Block>, own: multiset<Block>)
    requires own == One(r.stream) + One(r.table) + One(r.bitmask)
    ensures was + own + Mkis(r, 0) == was + CloneOwn(r)
  {
    hide Mkis;
  }

  lemma StreamTotal(r: Refs, was: multiset<Block>, own: multiset<Block>)
    requires own == One(r.stream) + One(r.table) + One(r.bitmask) + One(r.encXtn)
    ensures was + own + FreedKeys(r, NoRefs, 0) == was + Freed(r, NoRefs)
  {
    hide FreedKeys, One;
  }

  lemma SevenInTurn(was: multiset<Block>, a: multiset<Block>, b: multiset<Block>, c: multiset<Block>, d: multiset<Block>,
                    e: multiset<Block>, f: multiset<Block>, g: multiset<Block>)
    ensures was + a + b + c + d + e + f + g == was + (a + (b + (c + (d + (e + (f + g))))))
  {}
}
