/**
 AES integer counter mode of aes_icm.c (section 4.1.1 of RFC 3711): a counter block whose
 last sixteen bits count, and a buffer of leftover keystream that lets a packet be processed
 in pieces.  The block cipher is any function on blocks.
 */
module CounterMode {
  import opened Errors

  type Block = b: seq<bv8> | |b| == 16 witness [0, 0, 0, 0, 0, 0, 0, 0, 0, 0, 0, 0, 0, 0, 0, 0]

  const COUNTER_MAX := 0xffff

  function XorOctet(a: bv8, b: bv8): bv8 {
    a ^ b
  }

  function XorBlock(a: Block, b: Block): (r: Block)
    ensures forall i :: 0 <= i < 16 ==> r[i] == XorOctet(a[i], b[i])
  {
    seq(16, (i: nat) requires i < 16 => XorOctet(a[i], b[i]))
  }

  // ---------- the mathematical function ----------

  function Value(x: bv8): (n: nat)
    ensures n < 256
  {
    x as nat
  }

  function Incremented(x: bv8): bv8 {
    x + 1
  }

  // The low sixteen bits, big-endian: htons(counter.v16[7]).
  function Counter(c: Block): (n: nat)
    ensures n <= COUNTER_MAX
  {
    Value(c[14]) * 256 + Value(c[15])
  }

  // Clocking the counter forward carries from octet 15 into octet 14 and no further.
  function Next(c: Block): (r: Block)
    ensures r[..14] == c[..14]
  {
    var last := Incremented(c[15]);
    if last == 0 then c[14 := Incremented(c[14])][15 := last] else c[15 := last]
  }

  function Advanced(c: Block, n: nat): Block {
    if n == 0 then c else Next(Advanced(c, n - 1))
  }

  function KeystreamOctet(E: Block -> Block, c: Block, p: nat): bv8 {
    E(Advanced(c, p / 16))[p % 16]
  }

  function Keystream(E: Block -> Block, c: Block, p: nat, n: nat): (ks: seq<bv8>)
    ensures |ks| == n
  {
    seq(n, (i: nat) => KeystreamOctet(E, c, p + i))
  }

  // Octets p.. of the stream that starts at counter block c, XOR-ed into the data.
  function Crypt(E: Block -> Block, c: Block, p: nat, data: seq<bv8>): (r: seq<bv8>)
    ensures |r| == |data|
  {
    seq(|data|, (i: nat) requires i < |data| => XorOctet(data[i], KeystreamOctet(E, c, p + i)))
  }

  function BlocksUsed(p: nat): nat {
    (p + 15) / 16
  }

  // The sixteen-bit counter does not pass 0xffff on the way to octet p.
  predicate WithinSegment(c: Block, p: nat) {
    Counter(c) + BlocksUsed(p) <= COUNTER_MAX
  }

  lemma IncrementedValue(x: bv8)
    ensures Value(Incremented(x)) == if Value(x) == 255 then 0 else Value(x) + 1
    ensures Incremented(x) == 0 <==> Value(x) == 255
  {}

  lemma NextCounts(c: Block)
    ensures Counter(Next(c)) == if Counter(c) == COUNTER_MAX then 0 else Counter(c) + 1
  {
    hide Value, Incremented;
    IncrementedValue(c[15]);
    IncrementedValue(c[14]);
  }

  lemma {:induction false} AdvancedCounts(c: Block, n: nat)
    requires Counter(c) + n <= COUNTER_MAX
    ensures Counter(Advanced(c, n)) == Counter(c) + n
    ensures Advanced(c, n)[..14] == c[..14]
  {
    if n > 0 {
      AdvancedCounts(c, n - 1);
      NextCounts(Advanced(c, n - 1));
    }
  }

  /** Two passes from the same counter block cancel: decryption is encryption. */
  lemma CryptCancels(E: Block -> Block, c: Block, p: nat, data: seq<bv8>)
    ensures Crypt(E, c, p, Crypt(E, c, p, data)) == data
  {
    forall i | 0 <= i < |data| ensures Crypt(E, c, p, Crypt(E, c, p, data))[i] == data[i] {
      var k := KeystreamOctet(E, c, p + i);
      assert (data[i] ^ k) ^ k == data[i];
    }
  }

  /** Any split into calls is one pass. */
  lemma CryptSplits(E: Block -> Block, c: Block, p: nat, a: seq<bv8>, b: seq<bv8>)
    ensures Crypt(E, c, p, a + b) == Crypt(E, c, p, a) + Crypt(E, c, p + |a|, b)
  {
    var whole, parts := Crypt(E, c, p, a + b), Crypt(E, c, p, a) + Crypt(E, c, p + |a|, b);
    forall i | 0 <= i < |a + b| ensures whole[i] == parts[i] {
      if i >= |a| {
        assert p + i == p + |a| + (i - |a|);
      }
    }
  }

  /** Distinct block numbers within a segment give distinct counter blocks. */
  lemma CounterBlocksDiffer(c: Block, d: Block, m: nat, n: nat)
    requires Counter(c) + m <= COUNTER_MAX && Counter(d) + n <= COUNTER_MAX
    requires Advanced(c, m) == Advanced(d, n)
    ensures c[..14] == d[..14] && Counter(c) + m == Counter(d) + n
  {
    AdvancedCounts(c, m);
    AdvancedCounts(d, n);
  }

  // ---------- the block count, computed on unsigned 64-bit integers ----------

  const SIZE_LIMIT := 0x1_0000_0000_0000_0000

  function NewBlocks(request: nat, inBuffer: nat): nat {
    ((request - inBuffer) % SIZE_LIMIT + 15) % SIZE_LIMIT / 16
  }

  /** The subtraction wraps when the buffer holds more than the request, and adding 15 wraps back:
      the count of new blocks is exact. */
  lemma NewBlocksExact(p: nat, request: nat, inBuffer: nat)
    requires inBuffer == (16 - p % 16) % 16 && request < SIZE_LIMIT / 2
    ensures BlocksUsed(p + request) == BlocksUsed(p) + NewBlocks(request, inBuffer)
  {
    if request >= inBuffer {
      assert (request - inBuffer) % SIZE_LIMIT == request - inBuffer;
      assert NewBlocks(request, inBuffer) == (request - inBuffer + 15) / 16;
      assert 16 * BlocksUsed(p) == p + inBuffer;
    } else {
      assert (request - inBuffer) % SIZE_LIMIT == SIZE_LIMIT + request - inBuffer;
      assert NewBlocks(request, inBuffer) == 0;
    }
  }

  // Octets so.. of src have been processed up to `done`, the rest of dst is as it was.
  ghost predicate Progress(goal: seq<bv8>, input: seq<bv8>, was: seq<bv8>, src: array<bv8>, so: nat,
                           dst: array<bv8>, at: nat, done: nat)
    reads src, dst
  {
    && done <= |goal| == |input|
    && so + |input| <= src.Length && at + |input| <= dst.Length == |was|
    && (forall i :: 0 <= i < done ==> dst[at + i] == goal[i])
    && (forall k :: 0 <= k < |was| && !(at <= k < at + done) ==> dst[k] == was[k])
    && (forall i :: done <= i < |input| ==> src[so + i] == input[i])
  }

  // XOR of n octets of a keystream block, from octet b of it, into the data.
  method XorInto(src: array<bv8>, so: nat, dst: array<bv8>, at: nat, done: nat, n: nat, block: Block, b: nat,
                 ghost goal: seq<bv8>, ghost input: seq<bv8>, ghost was: seq<bv8>)
    requires Progress(goal, input, was, src, so, dst, at, done)
    requires src != dst || so == at
    requires done + n <= |input| && b + n <= 16
    requires forall i :: done <= i < done + n ==> goal[i] == XorOctet(input[i], block[b + i - done])
    modifies dst
    ensures Progress(goal, input, was, src, so, dst, at, done + n)
  {
    hide XorOctet;
    for j := 0 to n
      invariant Progress(goal, input, was, src, so, dst, at, done + j)
    {
      assert src[so + (done + j)] == input[done + j];
      dst[at + done + j] := XorOctet(src[so + done + j], block[b + j]);
      assert forall i :: 0 <= i < done + j + 1 ==> dst[at + i] == goal[i];
    }
  }

  // ---------- srtp_aes_icm_ctx_t ----------

  class Icm {
    const E: Block -> Block    // the cipher under the expanded key
    const offset: Block        // the salt, with the last two octets zero
    var counter: Block
    var buffer: Block          // keystream_buffer
    var inBuffer: nat          // bytes_in_buffer
    ghost var origin: Block    // the counter block of the first octet since set_iv
    ghost var position: nat    // octets of keystream handed out since then

    ghost predicate Valid()
      reads this
    {
      && WithinSegment(origin, position)
      && counter == Advanced(origin, BlocksUsed(position))
      && inBuffer == (16 - position % 16) % 16
      && (inBuffer > 0 ==> buffer == E(Advanced(origin, position / 16)))
    }

    // srtp_aes_icm_context_init on a key of base length plus a salt of fourteen octets
    constructor (E: Block -> Block, salt: seq<bv8>)
      requires |salt| == 14
      ensures Valid() && this.E == E && offset == salt + [0, 0] && origin == offset && position == 0
    {
      this.E := E;
      offset := salt + [0, 0];
      counter := salt + [0, 0];
      buffer := salt + [0, 0];
      inBuffer := 0;
      origin := salt + [0, 0];
      position := 0;
      new;
      assert (0 as bv8) as nat == 0;
      assert Counter(origin) == 0;
    }

    method SetIv(iv: Block)
      modifies this
      ensures Valid() && origin == XorBlock(offset, iv) && position == 0
    {
      counter := XorBlock(offset, iv);
      inBuffer := 0;
      origin, position := counter, 0;
    }

    // Refills the buffer and clocks the counter forward.
    method Advance()
      modifies this`counter, this`buffer, this`inBuffer
      ensures buffer == E(old(counter)) && counter == Next(old(counter)) && inBuffer == 16
    {
      buffer := E(counter);
      inBuffer := 16;
      counter := Next(counter);
    }

    // The blocks of new keystream, whole and partial, once the buffer is drained.
    method CryptBlocks(src: array<bv8>, so: nat, len: nat, dst: array<bv8>, at: nat, done: nat,
                       ghost p: nat, ghost first: nat, ghost input: seq<bv8>, ghost was: seq<bv8>)
      requires |input| == len && done <= len && p + done == 16 * first && counter == Advanced(origin, first)
      requires Progress(Crypt(E, origin, p, input), input, was, src, so, dst, at, done)
      requires src != dst || so == at
      modifies this`counter, this`buffer, this`inBuffer, dst
      ensures Progress(Crypt(E, origin, p, input), input, was, src, so, dst, at, len)
      ensures counter == Advanced(origin, BlocksUsed(p + len)) && inBuffer == (16 - (p + len) % 16) % 16
      ensures inBuffer > 0 ==> buffer == E(Advanced(origin, (p + len) / 16))
    {
      hide Progress, Crypt, XorOctet;
      ghost var goal := Crypt(E, origin, p, input);
      var whole, tail := (len - done) / 16, (len - done) % 16;
      EndPosition(p, len, done, first, whole, tail);
      for i := 0 to whole
        invariant Progress(goal, input, was, src, so, dst, at, done + 16 * i)
        invariant counter == Advanced(origin, first + i)
      {
        Advance();
        FromBlock(E, origin, p, input, done + 16 * i, 16, first + i, 0);
        XorInto(src, so, dst, at, done + 16 * i, 16, buffer, 0, goal, input, was);
      }
      if tail != 0 {
        Advance();
        FromBlock(E, origin, p, input, done + 16 * whole, tail, first + whole, 0);
        XorInto(src, so, dst, at, done + 16 * whole, tail, buffer, 0, goal, input, was);
        inBuffer := 16 - tail;
      } else {
        inBuffer := 0;
      }
    }

    // Up to n octets from the leftover keystream.
    method CryptBuffered(src: array<bv8>, so: nat, dst: array<bv8>, at: nat, n: nat,
                         ghost input: seq<bv8>, ghost was: seq<bv8>)
      requires Valid() && n <= inBuffer && n <= |input|
      requires Progress(Crypt(E, origin, position, input), input, was, src, so, dst, at, 0)
      requires src != dst || so == at
      modifies dst
      ensures Progress(Crypt(E, origin, position, input), input, was, src, so, dst, at, n)
    {
      hide Crypt, XorOctet, Progress;
      if n > 0 {
        BufferAligns(position, inBuffer);
        FromBlock(E, origin, position, input, 0, n, position / 16, 16 - inBuffer);
        XorInto(src, so, dst, at, 0, n, buffer, 16 - inBuffer, Crypt(E, origin, position, input), input, was);
      }
    }

    // Leftover keystream first, then new blocks.
    method CryptData(src: array<bv8>, so: nat, len: nat, dst: array<bv8>, at: nat)
      requires Valid() && WithinSegment(origin, position + len)
      requires so + len <= src.Length && at + len <= dst.Length
      requires src != dst || so == at
      modifies this`counter, this`buffer, this`inBuffer, this`position, dst
      ensures Valid() && position == old(position) + len
      ensures dst[..] == old(dst[..at]) + Crypt(E, origin, old(position), old(src[so..so + len])) + old(dst[at + len..])
    {
      hide Crypt, BlocksUsed, WithinSegment, Progress;
      ghost var p := position;
      ghost var input, was := src[so..so + len], dst[..];
      Starting(Crypt(E, origin, p, input), src, so, len, dst, at);
      if len <= inBuffer {
        CryptBuffered(src, so, dst, at, len, input, was);
        LeftoverShrinks(p, len);
        inBuffer := inBuffer - len;
      } else {
        var done := inBuffer;
        CryptBuffered(src, so, dst, at, done, input, was);
        BufferAligns(p, done);
        CryptBlocks(src, so, len, dst, at, done, p, BlocksUsed(p), input, was);
      }
      position := p + len;
      Finished(Crypt(E, origin, p, input), input, was, src, so, dst, at);
    }

    // srtp_aes_icm_encrypt; the cipher has no separate decryption.
    method Encrypt(src: array<bv8>, so: nat, len: nat, dst: array<bv8>, at: nat, room: nat) returns (status: Status)
      requires Valid()
      requires so + len <= src.Length && at + room <= dst.Length && len < SIZE_LIMIT / 2
      requires src != dst || so == at
      modifies this`counter, this`buffer, this`inBuffer, this`position, dst
      ensures Valid()
      ensures status == if room < len then BufferSmall
                        else if WithinSegment(origin, old(position) + len) then Ok else Terminus
      ensures position == if status == Ok then old(position) + len else old(position)
      ensures status == Ok ==>
                dst[..] == old(dst[..at]) + Crypt(E, origin, old(position), old(src[so..so + len])) + old(dst[at + len..])
      ensures status != Ok ==> dst[..] == old(dst[..])
    {
      hide Crypt;
      if room < len {
        return BufferSmall;
      }
      NewBlocksExact(position, len, inBuffer);
      AdvancedCounts(origin, BlocksUsed(position));
      if NewBlocks(len, inBuffer) + Counter(counter) > COUNTER_MAX {
        return Terminus;
      }
      CryptData(src, so, len, dst, at);
      return Ok;
    }

    // srtp_cipher_output: keystream itself, by encrypting zeros.
    method Output(n: nat) returns (status: Status, ks: seq<bv8>)
      requires Valid() && n < SIZE_LIMIT / 2
      modifies this`counter, this`buffer, this`inBuffer, this`position
      ensures Valid()
      ensures status == if WithinSegment(origin, old(position) + n) then Ok else Terminus
      ensures position == if status == Ok then old(position) + n else old(position)
      ensures status == Ok ==> ks == Keystream(E, origin, old(position), n)
    {
      var zeros := new bv8[n](_ => 0);
      status := Encrypt(zeros, 0, n, zeros, 0, n);
      ks := zeros[..];
      if status == Ok {
        CryptOfZeros(E, origin, old(position), n);
      }
    }
  }

  lemma CryptOfZeros(E: Block -> Block, c: Block, p: nat, n: nat)
    ensures Crypt(E, c, p, seq(n, _ => 0)) == Keystream(E, c, p, n)
  {
    forall i | 0 <= i < n ensures Crypt(E, c, p, seq(n, _ => 0))[i] == Keystream(E, c, p, n)[i] {
      assert 0 ^ KeystreamOctet(E, c, p + i) == KeystreamOctet(E, c, p + i);
    }
  }

  lemma BufferAligns(p: nat, inBuffer: nat)
    requires inBuffer == (16 - p % 16) % 16
    ensures p + inBuffer == 16 * BlocksUsed(p)
    ensures inBuffer > 0 ==> p == 16 * (p / 16) + (16 - inBuffer)
  {}

  // Octets done..done + n of the result come from octet b on of keystream block k.
  lemma FromBlock(E: Block -> Block, c: Block, p: nat, input: seq<bv8>, done: nat, n: nat, k: nat, b: nat)
    requires p + done == 16 * k + b && b + n <= 16 && done + n <= |input|
    ensures forall i :: done <= i < done + n ==> Crypt(E, c, p, input)[i] == XorOctet(input[i], E(Advanced(c, k))[b + i - done])
  {
    forall i | done <= i < done + n
      ensures Crypt(E, c, p, input)[i] == XorOctet(input[i], E(Advanced(c, k))[b + i - done])
    {
      assert Crypt(E, c, p, input)[i] == XorOctet(input[i], KeystreamOctet(E, c, p + i));
      assert p + i == 16 * k + (b + i - done);
      assert (p + i) / 16 == k && (p + i) % 16 == b + i - done;
    }
  }

  lemma Divided(n: nat, q: nat, r: nat)
    requires n == 16 * q + r && r < 16
    ensures n / 16 == q && n % 16 == r
  {}

  // A position q blocks and r octets in.
  lemma Within(p: nat, q: nat, r: nat)
    requires p == 16 * q + r && r < 16
    ensures p / 16 == q && BlocksUsed(p) == q + (if r != 0 then 1 else 0) && (16 - p % 16) % 16 == if r != 0 then 16 - r else 0
  {
    Divided(p, q, r);
    if r != 0 {
      Divided(p + 15, q + 1, r - 1);
    } else {
      Divided(p + 15, q, 15);
    }
  }

  lemma LeftoverShrinks(p: nat, len: nat)
    requires len <= (16 - p % 16) % 16
    ensures BlocksUsed(p + len) == BlocksUsed(p)
    ensures (16 - (p + len) % 16) % 16 == (16 - p % 16) % 16 - len
    ensures len < (16 - p % 16) % 16 ==> (p + len) / 16 == p / 16
  {
    var q, r := p / 16, p % 16;
    hide BlocksUsed;
    Within(p, q, r);
    if r + len < 16 {
      Within(p + len, q, r + len);
    } else {
      Within(p + len, q + 1, 0);
    }
  }

  lemma EndPosition(p: nat, len: nat, done: nat, first: nat, whole: nat, tail: nat)
    requires p + done == 16 * first && len == done + 16 * whole + tail && tail < 16
    ensures BlocksUsed(p + len) == first + whole + (if tail != 0 then 1 else 0)
    ensures (16 - (p + len) % 16) % 16 == if tail != 0 then 16 - tail else 0
    ensures tail != 0 ==> (p + len) / 16 == first + whole
  {
    Within(p + len, first + whole, tail);
  }

  lemma Starting(goal: seq<bv8>, src: array<bv8>, so: nat, len: nat, dst: array<bv8>, at: nat)
    requires so + len <= src.Length && at + len <= dst.Length && |goal| == len
    ensures Progress(goal, src[so..so + len], dst[..], src, so, dst, at, 0)
  {}

  lemma Finished(goal: seq<bv8>, input: seq<bv8>, was: seq<bv8>, src: array<bv8>, so: nat, dst: array<bv8>, at: nat)
    requires Progress(goal, input, was, src, so, dst, at, |input|)
    ensures |goal| == |input| && at + |input| <= |was| == dst.Length
    ensures dst[..] == was[..at] + goal + was[at + |input|..]
  {
    var end := was[..at] + goal + was[at + |input|..];
    forall k | 0 <= k < dst.Length ensures dst[k] == end[k] {
      if at <= k < at + |input| {
        assert dst[at + (k - at)] == goal[k - at];
      }
    }
  }
}
