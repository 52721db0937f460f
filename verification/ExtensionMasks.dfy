/**
 What header extension encryption does to each octet: which are XOR-ed, with which octet of the keystream,
 and what the octets of an element header mean.
 */
module ExtensionMasks {
  import opened CounterMode
  import opened HeaderExtensions

  // How many padding octets there are before octet i.
  function PaddingBefore(form: Form, d: seq<bv8>, i: nat): (z: nat)
    requires i <= |d|
    ensures z <= i
    decreases |d|
  {
    if Plain(form, d) then 0
    else
      var n, span := ElementLen(form, d), ElementSpan(form, d);
      if i < n then 0 else if i < span then i - n else span - n + PaddingBefore(form, d[span..], i - span)
  }

  // One octet is another XOR the keystream at a position.
  predicate XoredAt(x: Keys, at: nat, now: bv8, was: bv8) {
    now == was ^ x.E(Advanced(x.origin, at / 16))[at % 16]
  }

  lemma CryptXors(x: Keys, p: nat, data: seq<bv8>, i: nat)
    requires i < |data|
    ensures XoredAt(x, p + i, Crypt(x.E, x.origin, p, data)[i], data[i])
  {
    hide Advanced;
  }

  lemma ElementMasks(x: Keys, form: Form, d: seq<bv8>, p: nat, i: nat)
    requires !Plain(form, d) && HeaderLen(form) <= i < ElementLen(form, d) && ElementId(form, d) in x.ids
    ensures i < ElementSpan(form, d) && XoredAt(x, p + i, Element(x, form, d, p)[i], d[i])
  {
    hide Zeros, ElementId, DataLen, Crypt, XoredAt, Advanced;
    var h, n := HeaderLen(form), ElementLen(form, d);
    assert Element(x, form, d, p)[i] == ElementData(x, form, d, p)[i - h];
    CryptXors(x, p + h, d[h..n], i - h);
    assert p + h + (i - h) == p + i;
  }

  // The first element, or the rest.
  lemma CoveredAt(ids: seq<bv8>, form: Form, d: seq<bv8>, i: nat)
    requires i < |d| && Covered(ids, form, d)[i]
    ensures !Plain(form, d)
    ensures var n, span := ElementLen(form, d), ElementSpan(form, d);
            && (i < span ==> HeaderLen(form) <= i < n && ElementId(form, d) in ids && PaddingBefore(form, d, i) == 0)
            && (i >= span ==> Covered(ids, form, d[span..])[i - span])
            && (i >= span ==> PaddingBefore(form, d, i) == span - n + PaddingBefore(form, d[span..], i - span))
  {
    hide ElementSpan, ElementId, DataLen;
  }

  lemma NotPlain(form: Form, d: seq<bv8>)
    requires !Plain(form, d)
    ensures !AtEnd(form, d) && ElementLen(form, d) <= |d| && 0 < ElementLen(form, d)
  {}

  // What is processed after the first element.
  function Rest(x: Keys, form: Form, d: seq<bv8>, p: nat): Outcome
    requires !Plain(form, d)
  {
    Process(x, form, d[ElementSpan(form, d)..], p + ElementLen(form, d))
  }

  lemma ProcessStep(x: Keys, form: Form, d: seq<bv8>, p: nat)
    requires Process(x, form, d, p).Done? && !Plain(form, d)
    ensures Rest(x, form, d, p).Done? && Process(x, form, d, p).data == Element(x, form, d, p) + Rest(x, form, d, p).data
  {
    hide Element, ElementSpan, ElementId, DataLen, WithinSegment;
  }

  /** The data octets of listed ids are XOR-ed with the keystream, which runs on over headers and data but not
      over padding. */
  lemma {:induction false} ProcessMasks(x: Keys, form: Form, d: seq<bv8>, p: nat, i: nat)
    requires Process(x, form, d, p).Done? && i < |d| && Covered(x.ids, form, d)[i]
    ensures XoredAt(x, p + i - PaddingBefore(form, d, i), Process(x, form, d, p).data[i], d[i])
    decreases |d|
  {
    hide Process, Element, ElementSpan, ElementId, ElementLen, HeaderLen, XoredAt, Covered, PaddingBefore, Plain;
    CoveredAt(x.ids, form, d, i);
    NotPlain(form, d);
    var n, span := ElementLen(form, d), ElementSpan(form, d);
    ProcessStep(x, form, d, p);
    if i < span {
      ElementMasks(x, form, d, p, i);
    } else {
      ProcessMasks(x, form, d[span..], p + n, i - span);
    }
  }

  /** What an element header says: id and length share the octet of the one-byte form, id high and length less
      one low, and have an octet each in the two-byte form. */
  lemma ElementFields(d: seq<bv8>)
    ensures |d| >= 1 ==> 16 * (ElementId(OneByte, d) as nat) + DataLen(OneByte, d) == d[0] as nat + 1
    ensures |d| >= 1 ==> 1 <= DataLen(OneByte, d) <= 16 && ElementLen(OneByte, d) == 1 + DataLen(OneByte, d)
    ensures |d| >= 1 ==> (Terminates(OneByte, d) <==> 0xf0 <= d[0] as nat)
    ensures |d| >= 2 ==>
              && !Terminates(TwoByte, d) && ElementId(TwoByte, d) == d[0]
              && DataLen(TwoByte, d) == d[1] as nat && ElementLen(TwoByte, d) == 2 + d[1] as nat
  {
    if |d| >= 1 {
      Nibbles(d[0]);
    }
  }

  lemma Nibbles(b: bv8)
    ensures 16 * ((b & 0xf0) >> 4) as nat + (b & 0x0f) as nat == b as nat
  {
    assert b == (((b & 0xf0) >> 4) << 4) + (b & 0x0f);
  }

  lemma FormIs(b0: bv8, b1: bv8)
    ensures var profile := 256 * (b0 as nat) + b1 as nat;
            && (FormOf(b0, b1) == Supported(OneByte) <==> profile == 0xbede)
            && (FormOf(b0, b1) == Supported(TwoByte) <==> 0x1000 <= profile <= 0x100f)
  {
    Nibbles(b1);
  }
}
