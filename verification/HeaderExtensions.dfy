/**
 Encryption of RTP header extension elements (RFC 6904) as srtp_process_header_encryption
 does it, for the one-byte and the two-byte element headers of RFC 5285.  Every element
 takes keystream for its header as well as its data; only the data of listed ids is XOR-ed.
 */
module HeaderExtensions {
  import opened Errors
  import opened CounterMode
  import opened Slices

  datatype Form = OneByte | TwoByte

  function HeaderLen(form: Form): nat {
    if form == OneByte then 1 else 2
  }

  function LowNibble(b: bv8): (n: nat)
    ensures n < 16
  {
    (b & 0x0f) as nat
  }

  // Too little left for an element header.
  predicate AtEnd(form: Form, d: seq<bv8>) {
    |d| < HeaderLen(form)
  }

  function ElementId(form: Form, d: seq<bv8>): bv8
    requires !AtEnd(form, d)
  {
    if form == OneByte then (d[0] & 0xf0) >> 4 else d[0]
  }

  function DataLen(form: Form, d: seq<bv8>): nat
    requires !AtEnd(form, d)
  {
    if form == OneByte then LowNibble(d[0]) + 1 else Value(d[1])
  }

  // Id 15 of the one-byte form ends the processing.
  predicate Terminates(form: Form, d: seq<bv8>)
    requires !AtEnd(form, d)
  {
    form == OneByte && ElementId(form, d) == 15
  }

  function ElementLen(form: Form, d: seq<bv8>): nat
    requires !AtEnd(form, d)
  {
    HeaderLen(form) + DataLen(form, d)
  }

  // Zero octets at the front: padding.
  function Zeros(d: seq<bv8>): (n: nat)
    ensures n <= |d|
    ensures forall i :: 0 <= i < n ==> d[i] == 0
    ensures n < |d| ==> d[n] != 0
  {
    if d == [] || d[0] != 0 then 0 else 1 + Zeros(d[1..])
  }

  datatype Keys = Keys(E: Block -> Block, origin: Block, ids: seq<bv8>)

  datatype Outcome = Done(data: seq<bv8>, position: nat) | Failed(status: Status)

  function ElementData(x: Keys, form: Form, d: seq<bv8>, p: nat): (r: seq<bv8>)
    requires !AtEnd(form, d) && ElementLen(form, d) <= |d|
    ensures |r| == DataLen(form, d)
  {
    var data := d[HeaderLen(form)..ElementLen(form, d)];
    if ElementId(form, d) in x.ids then Crypt(x.E, x.origin, p + HeaderLen(form), data) else data
  }

  // The first element and its padding, processed.
  function Element(x: Keys, form: Form, d: seq<bv8>, p: nat): (r: seq<bv8>)
    requires !AtEnd(form, d) && ElementLen(form, d) <= |d|
    ensures |r| == ElementSpan(form, d)
    ensures forall i :: 0 <= i < HeaderLen(form) ==> r[i] == d[i]
  {
    d[..HeaderLen(form)] + ElementData(x, form, d, p) + d[ElementLen(form, d)..ElementSpan(form, d)]
  }

  function ElementSpan(form: Form, d: seq<bv8>): (n: nat)
    requires !AtEnd(form, d) && ElementLen(form, d) <= |d|
    ensures ElementLen(form, d) <= n <= |d|
  {
    ElementLen(form, d) + Zeros(d[ElementLen(form, d)..])
  }

  // The elements of d, with keystream from position p on.
  function Process(x: Keys, form: Form, d: seq<bv8>, p: nat): (r: Outcome)
    ensures r.Failed? ==> r.status == ParseErr || r.status == CipherFail
    ensures r.Done? ==> |r.data| == |d| && p <= r.position <= p + |d|
    ensures r.Done? ==> forall i :: 0 <= i < HeaderLen(form) && i < |d| ==> r.data[i] == d[i]
    decreases |d|
  {
    if AtEnd(form, d) then Done(d, p)
    else
      var n := ElementLen(form, d);
      if n > |d| then Failed(ParseErr)
      else if Terminates(form, d) then Done(d, p)
      else if !WithinSegment(x.origin, p + n) then Failed(CipherFail)
      else
        match Process(x, form, d[ElementSpan(form, d)..], p + n)
        case Failed(status) => Failed(status)
        case Done(rest, q) => Done(Element(x, form, d, p) + rest, q)
  }

  // Which octets are data of a listed element.
  function Covered(ids: seq<bv8>, form: Form, d: seq<bv8>): (r: seq<bool>)
    ensures |r| == |d|
    decreases |d|
  {
    if Plain(form, d) then seq(|d|, _ => false)
    else
      var span := ElementSpan(form, d);
      seq(span, (i: nat) => HeaderLen(form) <= i < ElementLen(form, d) && ElementId(form, d) in ids) +
      Covered(ids, form, d[span..])
  }

  // ---------- processing twice ----------

  predicate Plain(form: Form, d: seq<bv8>) {
    AtEnd(form, d) || ElementLen(form, d) > |d| || Terminates(form, d)
  }

  lemma SameHeader(form: Form, d: seq<bv8>, r: seq<bv8>)
    requires |d| == |r| && forall i :: 0 <= i < HeaderLen(form) && i < |d| ==> r[i] == d[i]
    ensures AtEnd(form, r) == AtEnd(form, d)
    ensures !AtEnd(form, d) ==> ElementId(form, r) == ElementId(form, d) && DataLen(form, r) == DataLen(form, d)
  {}

  lemma {:induction false} ZerosSplit(z: seq<bv8>, rest: seq<bv8>)
    requires forall i :: 0 <= i < |z| ==> z[i] == 0
    requires rest != [] ==> rest[0] != 0
    ensures Zeros(z + rest) == |z|
  {
    if z == [] {
      assert z + rest == rest;
    } else {
      assert (z + rest)[1..] == z[1..] + rest;
      ZerosSplit(z[1..], rest);
    }
  }

  // An element in front of anything that starts as the old rest did is parsed as before.
  lemma ElementParse(x: Keys, form: Form, d: seq<bv8>, p: nat, rest: seq<bv8>)
    requires !Plain(form, d)
    requires |rest| == |d| - ElementSpan(form, d)
    requires rest != [] ==> rest[0] == d[ElementSpan(form, d)]
    ensures var r := Element(x, form, d, p) + rest;
            && |r| == |d| && !Plain(form, r)
            && ElementId(form, r) == ElementId(form, d) && ElementLen(form, r) == ElementLen(form, d)
            && ElementSpan(form, r) == ElementSpan(form, d)
            && r[ElementSpan(form, d)..] == rest
  {
    hide Crypt, ElementId, DataLen, ElementData, Zeros;
    var r, n, span, h := Element(x, form, d, p) + rest, ElementLen(form, d), ElementSpan(form, d), HeaderLen(form);
    SameHeader(form, d, r);
    Concatenation(d[..h], ElementData(x, form, d, p), d[n..span], rest);
    ZerosAre(d, n);
    ZerosSplit(d[n..span], rest);
  }

  lemma ZerosAre(d: seq<bv8>, n: nat)
    requires n <= |d|
    ensures var span := n + Zeros(d[n..]);
            && (forall i :: 0 <= i < span - n ==> d[n..span][i] == 0)
            && (span < |d| ==> d[span] != 0)
  {
    var z := Zeros(d[n..]);
    assert forall i :: 0 <= i < z ==> d[n..n + z][i] == d[n..][i];
    assert n + z < |d| ==> d[n + z] == d[n..][z];
  }

  lemma ElementCancels(x: Keys, form: Form, d: seq<bv8>, p: nat, rest: seq<bv8>)
    requires !Plain(form, d)
    requires |rest| == |d| - ElementSpan(form, d)
    requires rest != [] ==> rest[0] == d[ElementSpan(form, d)]
    ensures var r := Element(x, form, d, p) + rest;
            !Plain(form, r) && Element(x, form, r, p) == d[..ElementSpan(form, d)]
  {
    ElementParse(x, form, d, p, rest);
    hide ElementId, DataLen, ElementSpan, ElementData;
    var r, n, span, h := Element(x, form, d, p) + rest, ElementLen(form, d), ElementSpan(form, d), HeaderLen(form);
    Concatenation(d[..h], ElementData(x, form, d, p), d[n..span], rest);
    DataCancels(x, form, d, r, p);
    ThreeSlices(d, h, n, span);
  }

  lemma DataCancels(x: Keys, form: Form, d: seq<bv8>, r: seq<bv8>, p: nat)
    requires !Plain(form, d) && !Plain(form, r) && |r| == |d|
    requires ElementId(form, r) == ElementId(form, d) && ElementLen(form, r) == ElementLen(form, d)
    requires r[HeaderLen(form)..ElementLen(form, d)] == ElementData(x, form, d, p)
    ensures ElementData(x, form, r, p) == d[HeaderLen(form)..ElementLen(form, d)]
  {
    hide ElementId, DataLen, Crypt;
    CryptCancels(x.E, x.origin, p + HeaderLen(form), d[HeaderLen(form)..ElementLen(form, d)]);
  }

  /** Processing is its own inverse from the same cipher state. */
  lemma {:induction false} ProcessCancels(x: Keys, form: Form, d: seq<bv8>, p: nat)
    requires Process(x, form, d, p).Done?
    ensures Process(x, form, Process(x, form, d, p).data, p) == Done(d, Process(x, form, d, p).position)
    decreases |d|
  {
    hide Element, ElementSpan, ElementId, DataLen, WithinSegment;
    if !Plain(form, d) {
      var n, span := ElementLen(form, d), ElementSpan(form, d);
      ProcessCancels(x, form, d[span..], p + n);
      var rest := Process(x, form, d[span..], p + n).data;
      ElementParse(x, form, d, p, rest);
      ElementCancels(x, form, d, p, rest);
      assert d == d[..span] + d[span..];
    }
  }

  lemma ElementCovers(x: Keys, form: Form, d: seq<bv8>, p: nat)
    requires !Plain(form, d)
    ensures forall i :: 0 <= i < ElementSpan(form, d) && !(HeaderLen(form) <= i < ElementLen(form, d) && ElementId(form, d) in x.ids) ==>
              Element(x, form, d, p)[i] == d[i]
  {
    hide Crypt, Zeros, ElementId, DataLen;
  }

  /** Only data octets of listed ids change, and the parse itself does not. */
  lemma {:induction false} ProcessCovers(x: Keys, form: Form, d: seq<bv8>, p: nat)
    requires Process(x, form, d, p).Done?
    ensures var r := Process(x, form, d, p).data;
            && (forall i :: 0 <= i < |d| && !Covered(x.ids, form, d)[i] ==> r[i] == d[i])
            && Covered(x.ids, form, r) == Covered(x.ids, form, d)
    decreases |d|
  {
    hide Element, ElementSpan, ElementId, DataLen, WithinSegment;
    if !Plain(form, d) {
      var n, span := ElementLen(form, d), ElementSpan(form, d);
      ProcessCovers(x, form, d[span..], p + n);
      var rest := Process(x, form, d[span..], p + n).data;
      ElementParse(x, form, d, p, rest);
      ElementCovers(x, form, d, p);
      Stitch(Covered(x.ids, form, d)[..span], Covered(x.ids, form, d[span..]), Element(x, form, d, p), rest, d, span);
    }
  }

  // Octets outside the marks are unchanged, in the first part and in the rest.
  lemma Stitch(c0: seq<bool>, c1: seq<bool>, r0: seq<bv8>, r1: seq<bv8>, d: seq<bv8>, span: nat)
    requires |c0| == |r0| == span <= |d| && |c1| == |r1| == |d| - span
    requires forall i :: 0 <= i < span && !c0[i] ==> r0[i] == d[i]
    requires forall i :: 0 <= i < |d| - span && !c1[i] ==> r1[i] == d[span..][i]
    ensures forall i :: 0 <= i < |d| && !(c0 + c1)[i] ==> (r0 + r1)[i] == d[i]
  {
    forall i | 0 <= i < |d| && !(c0 + c1)[i] ensures (r0 + r1)[i] == d[i] {
      if i >= span {
        assert c1[i - span] == (c0 + c1)[i];
        assert r1[i - span] == d[span..][i - span];
      }
    }
  }

  // ---------- the whole extension ----------

  datatype MaybeForm = Unsupported | Supported(form: Form)

  // The profile word of the extension header: 0xbede, or 0x100 and any low nibble.
  function FormOf(b0: bv8, b1: bv8): MaybeForm {
    if b0 == 0xbe && b1 == 0xde then Supported(OneByte)
    else if b0 == 0x10 && b1 & 0xf0 == 0 then Supported(TwoByte)
    else Unsupported
  }

  // An extension: two octets of profile, two of length, then elements.
  function Transform(x: Keys, ext: seq<bv8>): (r: Outcome)
    requires 4 <= |ext|
    ensures r.Failed? ==> r.status == ParseErr || r.status == CipherFail
    ensures r.Done? ==> |r.data| == |ext| && r.data[..4] == ext[..4] && r.position <= |ext| - 4
  {
    match FormOf(ext[0], ext[1])
    case Unsupported => Failed(ParseErr)
    case Supported(form) =>
      match Process(x, form, ext[4..], 0)
      case Failed(status) => Failed(status)
      case Done(data, q) => Done(ext[..4] + data, q)
  }

  /** Header extension encryption is its own inverse. */
  lemma TransformCancels(x: Keys, ext: seq<bv8>)
    requires 4 <= |ext| && Transform(x, ext).Done?
    ensures Transform(x, Transform(x, ext).data) == Done(ext, Transform(x, ext).position)
  {
    hide Process;
    var r := Transform(x, ext);
    assert r.data[0] == r.data[..4][0] == ext[..4][0] && r.data[1] == r.data[..4][1] == ext[..4][1];
    var form := FormOf(ext[0], ext[1]).form;
    ProcessCancels(x, form, ext[4..], 0);
    assert r.data[4..] == Process(x, form, ext[4..], 0).data;
  }

  /** From a counter that starts at zero the keystream never runs out: an extension is at most
      65535 words. */
  lemma {:induction false} KeystreamSuffices(x: Keys, form: Form, d: seq<bv8>, p: nat)
    requires Counter(x.origin) == 0 && p + |d| <= 4 * 0xffff
    ensures Process(x, form, d, p) != Failed(CipherFail)
    decreases |d|
  {
    hide Element, ElementSpan, DataLen, ElementId;
    if !Plain(form, d) {
      assert WithinSegment(x.origin, p + ElementLen(form, d));
      hide WithinSegment;
      KeystreamSuffices(x, form, d[ElementSpan(form, d)..], p + ElementLen(form, d));
    }
  }

  // ---------- in place ----------

  function Resumed(done: seq<bv8>, r: Outcome): Outcome {
    match r
    case Failed(status) => r
    case Done(data, q) => Done(done + data, q)
  }

  method SkipZeros(buf: array<bv8>, i: nat, end: nat) returns (j: nat)
    requires i <= end <= buf.Length
    ensures j == i + Zeros(buf[i..end])
  {
    j := i;
    assert buf[i..j] == [];
    while j < end && buf[j] == 0
      invariant i <= j <= end
      invariant Zeros(buf[i..end]) == j - i + Zeros(buf[j..end])
    {
      assert buf[j..end][1..] == buf[j + 1..end];
      j := j + 1;
    }
    assert j < end ==> buf[j..end][0] != 0;
  }

  function Masked(data: seq<bv8>, keystream: seq<bv8>, from: nat): (r: seq<bv8>)
    requires from + |data| <= |keystream|
    ensures |r| == |data|
  {
    seq(|data|, (i: nat) requires i < |data| => XorOctet(data[i], keystream[from + i]))
  }

  lemma MaskedIsCrypt(E: Block -> Block, c: Block, p: nat, h: nat, n: nat, data: seq<bv8>)
    requires h + |data| <= n
    ensures Masked(data, Keystream(E, c, p, n), h) == Crypt(E, c, p + h, data)
  {
    hide XorOctet;
    forall i | 0 <= i < |data| ensures Masked(data, Keystream(E, c, p, n), h)[i] == Crypt(E, c, p + h, data)[i] {
      assert p + h + i == p + (h + i);
    }
  }

  // The data of one element: XOR with the keystream after the part for its header.
  method XorData(buf: array<bv8>, at: nat, n: nat, keystream: seq<bv8>, from: nat)
    requires at + n <= buf.Length && from + n <= |keystream|
    modifies buf
    ensures buf[..] == old(buf[..at]) + Masked(old(buf[at..at + n]), keystream, from) + old(buf[at + n..])
  {
    hide XorOctet;
    for j := 0 to n
      invariant forall k :: 0 <= k < buf.Length ==>
                  buf[k] == if at <= k < at + j then XorOctet(old(buf[k]), keystream[from + k - at]) else old(buf[k])
    {
      buf[at + j] := XorOctet(buf[at + j], keystream[from + j]);
    }
  }

  // Replacing the data of the element at i replaces the element.
  lemma ElementReplaced(x: Keys, form: Form, buf: seq<bv8>, now: seq<bv8>, i: nat, end: nat, p: nat)
    requires i <= end <= |buf| && !Plain(form, buf[i..end])
    requires var d := buf[i..end];
             var h, n := HeaderLen(form), ElementLen(form, d);
             now == buf[..i + h] + ElementData(x, form, d, p) + buf[i + n..]
    ensures var d := buf[i..end];
            && now == buf[..i] + Element(x, form, d, p) + buf[i + ElementSpan(form, d)..]
            && |now| == |buf| && now[i + ElementLen(form, d)..end] == d[ElementLen(form, d)..]
  {
    hide ElementData, DataLen, ElementId, Zeros;
    var d := buf[i..end];
    var h, n, span := HeaderLen(form), ElementLen(form, d), ElementSpan(form, d);
    Respliced(buf, now, ElementData(x, form, d, p), i, h, n, span, end);
  }

  // One element, at i: keystream for all of it, XOR-ed into its data if its id is listed.
  method MaskElement(buf: array<bv8>, i: nat, end: nat, form: Form, cipher: Icm, ids: seq<bv8>) returns (status: Status)
    requires i <= end <= buf.Length && cipher.Valid() && !Plain(form, buf[i..end]) && end < SIZE_LIMIT / 2
    modifies buf, cipher`counter, cipher`buffer, cipher`inBuffer, cipher`position
    ensures cipher.Valid()
    ensures var d, x, p := old(buf[i..end]), Keys(cipher.E, cipher.origin, ids), old(cipher.position);
            var h, n := HeaderLen(form), ElementLen(form, d);
            if WithinSegment(cipher.origin, p + n) then
              && status == Ok && cipher.position == p + n
              && buf[..] == old(buf[..i + h]) + ElementData(x, form, d, p) + old(buf[i + n..])
            else
              status == CipherFail && buf[..] == old(buf[..])
  {
    hide Crypt, Keystream, WithinSegment, ElementId, DataLen, Masked;
    ghost var x, p := Keys(cipher.E, cipher.origin, ids), cipher.position;
    var d := buf[i..end];
    var h, n := HeaderLen(form), ElementLen(form, d);
    var st, keystream := cipher.Output(n);
    if st != Ok {
      return CipherFail;
    }
    SliceOfSlice(buf[..], i, end, h, n);
    if ElementId(form, d) in ids {
      XorData(buf, i + h, n - h, keystream, h);
      MaskedIsCrypt(x.E, x.origin, p, h, n, d[h..n]);
    }
    return Ok;
  }

  // One element and the padding after it.
  method ProcessElement(buf: array<bv8>, i: nat, end: nat, form: Form, cipher: Icm, ids: seq<bv8>)
    returns (status: Status, next: nat)
    requires i <= end <= buf.Length && cipher.Valid() && !Plain(form, buf[i..end]) && end < SIZE_LIMIT / 2
    modifies buf, cipher`counter, cipher`buffer, cipher`inBuffer, cipher`position
    ensures cipher.Valid()
    ensures var d, x, p := old(buf[i..end]), Keys(cipher.E, cipher.origin, ids), old(cipher.position);
            if WithinSegment(cipher.origin, p + ElementLen(form, d)) then
              && status == Ok && next == i + ElementSpan(form, d) && cipher.position == p + ElementLen(form, d)
              && buf[..] == old(buf[..i]) + Element(x, form, d, p) + old(buf[next..])
            else
              status == CipherFail && buf[..] == old(buf[..])
  {
    hide WithinSegment, DataLen, ElementData, Element, ElementId, Zeros;
    ghost var was, x, p := buf[..], Keys(cipher.E, cipher.origin, ids), cipher.position;
    var n := ElementLen(form, buf[i..end]);
    status := MaskElement(buf, i, end, form, cipher, ids);
    next := i;
    if status == Ok {
      ElementReplaced(x, form, was, buf[..], i, end, p);
      next := SkipZeros(buf, i + n, end);
    }
  }

  lemma ElementDone(x: Keys, form: Form, was: seq<bv8>, now: seq<bv8>, start: nat, i: nat, end: nat, p: nat)
    requires start <= i <= end <= |was| && !Plain(form, was[i..end])
    requires var d := was[i..end];
             && WithinSegment(x.origin, p + ElementLen(form, d))
             && now == was[..i] + Element(x, form, d, p) + was[i + ElementSpan(form, d)..]
    ensures var d := was[i..end];
            var next := i + ElementSpan(form, d);
            && |now| == |was| && i < next <= end
            && now[..start] == was[..start] && now[end..] == was[end..]
            && Resumed(was[start..i], Process(x, form, d, p)) ==
               Resumed(now[start..next], Process(x, form, now[next..end], p + ElementLen(form, d)))
  {
    hide Element, ElementSpan, DataLen, ElementId, WithinSegment, Process, AtEnd, Terminates;
    var d := was[i..end];
    var e := Element(x, form, d, p);
    Spliced(was, now, e, start, i, end);
    ElementThenRest(x, form, d, p);
    ResumedTwice(was[start..i], e, Process(x, form, d[|e|..], p + ElementLen(form, d)));
  }

  lemma ElementThenRest(x: Keys, form: Form, d: seq<bv8>, p: nat)
    requires !Plain(form, d) && WithinSegment(x.origin, p + ElementLen(form, d))
    ensures var e := Element(x, form, d, p);
            Process(x, form, d, p) == Resumed(e, Process(x, form, d[|e|..], p + ElementLen(form, d)))
  {
    hide Element, ElementSpan, WithinSegment;
  }

  lemma ResumedTwice(a: seq<bv8>, b: seq<bv8>, r: Outcome)
    ensures Resumed(a, Resumed(b, r)) == Resumed(a + b, r)
  {
    if r.Done? {
      Associative(a, b, r.data);
    }
  }

  // The element loops of both forms.
  method ProcessElements(buf: array<bv8>, start: nat, end: nat, form: Form, cipher: Icm, ids: seq<bv8>) returns (status: Status)
    requires start <= end <= buf.Length < SIZE_LIMIT / 2
    requires cipher.Valid() && cipher.position == 0
    modifies buf, cipher`counter, cipher`buffer, cipher`inBuffer, cipher`position
    ensures buf[..start] == old(buf[..start]) && buf[end..] == old(buf[end..])
    ensures match Process(Keys(cipher.E, cipher.origin, ids), form, old(buf[start..end]), 0)
            case Failed(st) => status == st
            case Done(data, q) => status == Ok && buf[start..end] == data && cipher.position == q
  {
    hide Element, ElementSpan, DataLen, ElementId, WithinSegment, Process, Resumed;
    ghost var x := Keys(cipher.E, cipher.origin, ids);
    ghost var goal := Process(x, form, buf[start..end], 0);
    var i := start;
    ResumedFromNothing(goal);
    assert buf[start..i] == [];
    while i + HeaderLen(form) <= end
      invariant start <= i <= end && cipher.Valid()
      invariant buf[..start] == old(buf[..start]) && buf[end..] == old(buf[end..])
      invariant goal == Resumed(buf[start..i], Process(x, form, buf[i..end], cipher.position))
      decreases end - i
    {
      ghost var was, p := buf[..], cipher.position;
      var d := buf[i..end];
      ProcessEnds(x, form, buf[start..i], d, p);
      if ElementLen(form, d) > |d| {
        return ParseErr;
      }
      if Terminates(form, d) {
        break;
      }
      var st, next := ProcessElement(buf, i, end, form, cipher, ids);
      if st != Ok {
        return CipherFail;
      }
      ElementDone(x, form, was, buf[..], start, i, end, p);
      assert was[end..] == old(buf[end..]) && was[..start] == old(buf[..start]);
      i := next;
    }
    ProcessEnds(x, form, buf[start..i], buf[i..end], cipher.position);
    TwoSlices(buf[..], start, i, end);
    status := Ok;
  }

  lemma ResumedFromNothing(r: Outcome)
    ensures Resumed([], r) == r
  {
    if r.Done? { assert [] + r.data == r.data; }
  }

  lemma ProcessEnds(x: Keys, form: Form, done: seq<bv8>, d: seq<bv8>, p: nat)
    ensures var r := Resumed(done, Process(x, form, d, p));
            && (AtEnd(form, d) ==> r == Done(done + d, p))
            && (!AtEnd(form, d) && ElementLen(form, d) > |d| ==> r == Failed(ParseErr))
            && (!AtEnd(form, d) && ElementLen(form, d) <= |d| && Terminates(form, d) ==> r == Done(done + d, p))
            && (!Plain(form, d) && !WithinSegment(x.origin, p + ElementLen(form, d)) ==> r == Failed(CipherFail))
  {}

  // srtp_process_header_encryption on the len octets at off
  method ProcessHeaderEncryption(buf: array<bv8>, off: nat, len: nat, cipher: Icm, ids: seq<bv8>) returns (status: Status)
    requires 4 <= len && off + len <= buf.Length < SIZE_LIMIT / 2
    requires cipher.Valid() && cipher.position == 0
    modifies buf, cipher`counter, cipher`buffer, cipher`inBuffer, cipher`position
    ensures buf[..off] == old(buf[..off]) && buf[off + len..] == old(buf[off + len..])
    ensures match Transform(Keys(cipher.E, cipher.origin, ids), old(buf[off..off + len]))
            case Failed(st) => status == st
            case Done(data, q) => status == Ok && buf[off..off + len] == data && cipher.position == q
  {
    hide Process;
    ghost var ext := buf[off..off + len];
    var maybe := FormOf(buf[off], buf[off + 1]);
    if maybe.Unsupported? {
      return ParseErr;
    }
    SliceOfSlice(buf[..], off, off + len, 4, len);
    ghost var front := buf[..off + 4];
    SliceOfSlice(buf[..], off, off + len, 0, 4);
    status := ProcessElements(buf, off + 4, off + len, maybe.form, cipher, ids);
    Prefixes(buf[..], front, off);
    TwoSlices(buf[..], off, off + 4, off + len);
  }

  lemma Prefixes(s: seq<bv8>, front: seq<bv8>, off: nat)
    requires off + 4 <= |s| && front == s[..off + 4]
    ensures s[..off] == front[..off] && s[off..off + 4] == front[off..]
  {}
}
