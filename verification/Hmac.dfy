/**
 HMAC-SHA1 of hmac.c (section 2 of RFC 2104) over a reusable context: the hash of the inner
 padding is kept, and every start copies it back.
 */
module HmacSha1 {
  import opened Errors
  import opened Sha1Hash

  const PAD := 64
  const MAX_KEY := 20

  // The key, zero-extended to a block, with every octet XOR-ed with c.
  function PaddedKey(key: seq<bv8>, c: bv8): (r: seq<bv8>)
    requires |key| <= PAD
    ensures |r| == PAD
  {
    var k := key + seq(PAD - |key|, _ => 0);
    seq(PAD, (i: nat) requires i < PAD => k[i] ^ c)
  }

  lemma PaddedKeyAt(key: seq<bv8>, c: bv8)
    requires |key| <= PAD
    ensures forall i :: 0 <= i < PAD ==> PaddedKey(key, c)[i] == if i < |key| then key[i] ^ c else c
  {
    assert 0 ^ c == c;
  }

  function Hmac(key: seq<bv8>, msg: seq<bv8>): (r: seq<bv8>)
    requires |key| <= PAD && PAD + |msg| < SHORT_MESSAGE
    ensures |r| == 20
  {
    Sha1(PaddedKey(key, 0x5c) + Sha1(PaddedKey(key, 0x36) + msg))
  }

  class HmacCtx {
    var opad: seq<bv8>
    const initCtx: Sha1Ctx
    const ctx: Sha1Ctx
    ghost var key: seq<bv8>
    ghost var since: Option<seq<bv8>>  // octets since the last start; none after a compute

    ghost predicate Separate()
    {
      && initCtx != ctx && initCtx.buffer != ctx.buffer
      && initCtx.buffer.Length == 64 == ctx.buffer.Length
    }

    ghost predicate Valid()
      reads this, initCtx, initCtx.buffer, ctx, ctx.buffer
    {
      && Separate() && |key| <= MAX_KEY
      && opad == PaddedKey(key, 0x5c)
      && initCtx.Absorbed(PaddedKey(key, 0x36))
      && (since.Some? ==> ctx.Absorbed(PaddedKey(key, 0x36) + since.value))
    }

    constructor ()
      ensures Separate() && fresh(initCtx) && fresh(ctx) && fresh(initCtx.buffer) && fresh(ctx.buffer)
    {
      opad := [];
      initCtx := new Sha1Ctx();
      ctx := new Sha1Ctx();
      key := [];
      since := None;
    }

    // srtp_hmac_init
    method Init(newKey: seq<bv8>) returns (status: Status)
      requires Separate()
      modifies this, initCtx, initCtx.buffer, ctx, ctx.buffer
      ensures status == if |newKey| > MAX_KEY then BadParam else Ok
      ensures status == Ok ==> Valid() && key == newKey && since == Some([])
    {
      if |newKey| > MAX_KEY {
        return BadParam;
      }
      var inner, outer := PadKey(newKey);
      opad := outer;
      initCtx.Init();
      initCtx.Update(inner, []);
      assert [] + inner == inner;
      ctx.CopyFrom(initCtx, inner);
      key, since := newKey, Some([]);
      assert inner + [] == inner;
      return Ok;
    }

    // The two loops that fill ipad and opad.
    static method PadKey(key: seq<bv8>) returns (ipad: seq<bv8>, opad: seq<bv8>)
      requires |key| <= PAD
      ensures ipad == PaddedKey(key, 0x36) && opad == PaddedKey(key, 0x5c)
    {
      ipad, opad := [], [];
      ghost var inner, outer := PaddedKey(key, 0x36), PaddedKey(key, 0x5c);
      PaddedKeyAt(key, 0x36);
      PaddedKeyAt(key, 0x5c);
      hide PaddedKey;
      for i := 0 to |key|
        invariant |ipad| == |opad| == i && forall k :: 0 <= k < i ==> ipad[k] == inner[k] && opad[k] == outer[k]
      {
        ipad, opad := ipad + [key[i] ^ 0x36], opad + [key[i] ^ 0x5c];
      }
      for i := |key| to PAD
        invariant |ipad| == |opad| == i && forall k :: 0 <= k < i ==> ipad[k] == inner[k] && opad[k] == outer[k]
      {
        ipad, opad := ipad + [0x36], opad + [0x5c];
      }
    }

    // srtp_hmac_start
    method Start()
      requires Valid()
      modifies this`since, ctx, ctx.buffer
      ensures Valid() && since == Some([])
    {
      ctx.CopyFrom(initCtx, PaddedKey(key, 0x36));
      since := Some([]);
      assert PaddedKey(key, 0x36) + [] == PaddedKey(key, 0x36);
    }

    // srtp_hmac_update
    method Update(data: seq<bv8>)
      requires Valid() && since.Some?
      modifies this`since, ctx, ctx.buffer
      ensures Valid() && since == Some(old(since).value + data)
    {
      hide PaddedKey, Sha1Ctx.Fed;
      ghost var fed := since.value;
      ctx.Update(data, PaddedKey(key, 0x36) + fed);
      assert PaddedKey(key, 0x36) + fed + data == PaddedKey(key, 0x36) + (fed + data);
      since := Some(fed + data);
    }

    // Finishes the inner hash.
    method InnerHash(data: seq<bv8>) returns (digest: seq<bv8>)
      requires Valid() && since.Some? && PAD + |since.value| + |data| < SHORT_MESSAGE
      modifies this`since, ctx, ctx.buffer
      ensures Valid() && since == None
      ensures digest == Sha1(PaddedKey(key, 0x36) + (old(since).value + data))
    {
      hide Sha1, PaddedKey, Sha1Ctx.Fed, Sha1Ctx.Absorbed;
      Update(data);
      digest := ctx.Final(PaddedKey(key, 0x36) + since.value);
      since := None;
    }

    // The outer hash, in the context that the inner hash has finished with.
    method OuterHash(digest: seq<bv8>) returns (hash: seq<bv8>)
      requires Valid() && since == None && PAD + |digest| < SHORT_MESSAGE
      modifies ctx, ctx.buffer
      ensures Valid()
      ensures hash == Sha1(PaddedKey(key, 0x5c) + digest)
    {
      hide Sha1, PaddedKey, Sha1Ctx.Fed, Sha1Ctx.Absorbed;
      ctx.Init();
      ctx.Update(opad, []);
      assert [] + opad == opad;
      ctx.Update(digest, opad);
      hash := ctx.Final(opad + digest);
    }

    // srtp_hmac_compute
    method Compute(data: seq<bv8>, tagLen: nat) returns (status: Status, tag: seq<bv8>)
      requires Valid() && since.Some? && PAD + |since.value| + |data| < SHORT_MESSAGE
      modifies this`since, ctx, ctx.buffer
      ensures Valid()
      ensures status == if tagLen > 20 then BadParam else Ok
      ensures status == Ok ==> since == None && tag == Hmac(key, old(since).value + data)[..tagLen]
      ensures status != Ok ==> since == old(since)
    {
      if tagLen > 20 {
        return BadParam, [];
      }
      hide Sha1, PaddedKey, Valid;
      var digest := InnerHash(data);
      var hash := OuterHash(digest);
      return Ok, hash[..tagLen];
    }
  }
}
