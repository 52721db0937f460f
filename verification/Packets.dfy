/**
 Octet layouts: big-endian fields, the RTP header of srtp_priv.h and its validation, and the
 initialization vectors of section 4.1.1 of RFC 3711 and sections 8.1 and 9.1 of RFC 7714.
 */
module Packets {
  import opened Errors
  import opened CounterMode
  import Slices

  // ---------- big-endian fields ----------

  function Pow256(k: nat): (n: nat)
    ensures 0 < n
  {
    if k == 0 then 1 else 256 * Pow256(k - 1)
  }

  // Counted up from zero, which keeps conversions to bit vectors out of the proofs.
  function OctetWithValue(m: nat): (b: bv8)
    requires m < 256
    ensures Value(b) == m
  {
    if m == 0 then ZeroValue(); 0 else IncrementedValue(OctetWithValue(m - 1)); Incremented(OctetWithValue(m - 1))
  }

  lemma ZeroValue()
    ensures Value(0) == 0
  {}

  function OctetOf(n: nat): (b: bv8)
    ensures Value(b) == n % 256
  {
    OctetWithValue(n % 256)
  }

  function Octets(n: nat, k: nat): (r: seq<bv8>)
    ensures |r| == k
  {
    if k == 0 then [] else Octets(n / 256, k - 1) + [OctetOf(n)]
  }

  function Number(s: seq<bv8>): nat {
    if s == [] then 0 else 256 * Number(s[..|s| - 1]) + Value(s[|s| - 1])
  }

  lemma {:induction false} NumberOfOctets(n: nat, k: nat)
    requires n < Pow256(k)
    ensures Number(Octets(n, k)) == n
  {
    hide OctetOf, Value;
    if k > 0 {
      NumberOfOctets(n / 256, k - 1);
      assert Octets(n, k)[..k - 1] == Octets(n / 256, k - 1);
    }
  }

  /** A field determines its value. */
  lemma OctetsInjective(m: nat, n: nat, k: nat)
    requires m < Pow256(k) && n < Pow256(k) && Octets(m, k) == Octets(n, k)
    ensures m == n
  {
    NumberOfOctets(m, k);
    NumberOfOctets(n, k);
  }

  lemma {:induction false} NumberBound(s: seq<bv8>)
    ensures Number(s) < Pow256(|s|)
  {
    hide Value;
    if s != [] {
      NumberBound(s[..|s| - 1]);
    }
  }

  /** Big-endian: octet j of k stands for 256^(k - 1 - j). */
  lemma {:induction false} OctetsAt(n: nat, k: nat, j: nat)
    requires j < k
    ensures Octets(n, k)[j] as nat == n / Pow256(k - 1 - j) % 256
  {
    hide OctetOf;
    if j == k - 1 {
      assert n / 1 == n;
    } else {
      OctetsAt(n / 256, k - 1, j);
      assert Octets(n, k)[j] == Octets(n / 256, k - 1)[j];
      QuotientTwice(n, Pow256(k - 2 - j));
    }
  }

  lemma QuotientTwice(n: nat, m: nat)
    requires 0 < m
    ensures 0 < 256 * m && n / 256 / m == n / (256 * m)
  {
    var q, r := n / 256 / m, n / 256 % m;
    assert n / 256 == q * m + r && n == 256 * (n / 256) + n % 256;
    assert n == (256 * m) * q + (256 * r + n % 256);
    assert 256 * r + n % 256 < 256 * m;
    QuotientIs(n, 256 * m, q, 256 * r + n % 256);
  }

  lemma QuotientIs(n: nat, d: nat, q: nat, r: nat)
    requires n == d * q + r && r < d
    ensures n / d == q
  {
    var k := q - n / d;
    assert d * k == n % d - r;
    AtLeastOnce(d, k);
    AtLeastOnce(d, -k);
  }

  lemma AtLeastOnce(d: nat, k: int)
    ensures 1 <= k ==> d <= d * k
  {}

  lemma TwoOctets(a: bv8, b: bv8)
    ensures Number([a, b]) == 256 * (a as nat) + b as nat
  {
    assert [a, b][..1] == [a];
    assert Number([a]) == a as nat;
  }

  lemma Powers()
    ensures Pow256(2) == 0x1_0000 && Pow256(4) == 0x1_0000_0000 && Pow256(6) == 0x1_0000_0000_0000
  {
    assert Pow256(1) == 256;
    assert Pow256(3) == 0x100_0000;
    assert Pow256(5) == 0x100_0000_0000;
  }

  // ---------- the RTP header ----------

  const RTP_HEADER := 12
  const RTCP_HEADER := 8
  const XTN_HEADER := 4
  const TRAILER := 4

  function CsrcCount(b: bv8): (n: nat)
    ensures n < 16
  {
    (b & 0x0f) as nat
  }

  predicate ExtensionBit(b: bv8) {
    b & 0x10 != 0
  }

  predicate HasHeader(pkt: seq<bv8>) {
    |pkt| >= RTP_HEADER
  }

  // srtp_get_rtp_hdr_len
  function HeaderLen(pkt: seq<bv8>): (n: nat)
    requires HasHeader(pkt)
    ensures RTP_HEADER <= n <= RTP_HEADER + 60
  {
    RTP_HEADER + 4 * CsrcCount(pkt[0])
  }

  predicate HasExtension(pkt: seq<bv8>)
    requires HasHeader(pkt)
  {
    ExtensionBit(pkt[0])
  }

  // srtp_get_rtp_xtn_hdr_len, extension header included
  function ExtensionLen(pkt: seq<bv8>): (n: nat)
    requires HasHeader(pkt) && HeaderLen(pkt) + XTN_HEADER <= |pkt|
    ensures XTN_HEADER <= n
  {
    4 * (Number(pkt[HeaderLen(pkt) + 2..HeaderLen(pkt) + 4]) + 1)
  }

  // srtp_validate_rtp_header
  function ValidateHeader(pkt: seq<bv8>): Status {
    if !HasHeader(pkt) || |pkt| < HeaderLen(pkt) then BadParam
    else if HasExtension(pkt) && |pkt| < HeaderLen(pkt) + XTN_HEADER then BadParam
    else if HasExtension(pkt) && |pkt| < HeaderLen(pkt) + ExtensionLen(pkt) then BadParam
    else Ok
  }

  // Where encryption starts.
  function EncStart(pkt: seq<bv8>): (n: nat)
    requires ValidateHeader(pkt) == Ok
    ensures RTP_HEADER <= HeaderLen(pkt) <= n <= |pkt|
  {
    HeaderLen(pkt) + if HasExtension(pkt) then ExtensionLen(pkt) else 0
  }

  function SequenceNumber(pkt: seq<bv8>): (n: nat)
    requires HasHeader(pkt)
    ensures n < 0x1_0000
  {
    NumberBound(pkt[2..4]);
    Powers();
    Number(pkt[2..4])
  }

  // The SSRC stays in network order.
  type Ssrc = s: seq<bv8> | |s| == 4 witness [0, 0, 0, 0]

  function RtpSsrc(pkt: seq<bv8>): Ssrc
    requires HasHeader(pkt)
  {
    pkt[8..12]
  }

  function RtcpSsrc(pkt: seq<bv8>): Ssrc
    requires |pkt| >= RTCP_HEADER
  {
    pkt[4..8]
  }

  // ---------- headers built from their fields ----------

  // The fields of section 5.1 of RFC 3550: version, padding and extension bits and CSRC count in the first
  // octet, marker and type in the second.
  datatype Header = Header(first: bv8, second: bv8, number: nat, timestamp: seq<bv8>, ssrc: Ssrc, csrcs: seq<seq<bv8>>,
                           extension: Option<Extension>)

  // Two octets of profile, the number of words, and so many words.
  datatype Extension = Extension(profile: seq<bv8>, words: nat, data: seq<bv8>)

  ghost predicate WellFormed(h: Header) {
    && h.number < 0x1_0000 && |h.timestamp| == 4
    && h.first as nat % 16 == |h.csrcs| && (forall i :: 0 <= i < |h.csrcs| ==> |h.csrcs[i]| == 4)
    && (h.first as nat / 16 % 2 == 1 <==> h.extension.Some?)
    && (h.extension.Some? ==>
        var x := h.extension.value; |x.profile| == 2 && x.words < 0x1_0000 && |x.data| == 4 * x.words)
  }

  function Joined(parts: seq<seq<bv8>>): (r: seq<bv8>) {
    if parts == [] then [] else Joined(parts[..|parts| - 1]) + parts[|parts| - 1]
  }

  lemma {:induction false} JoinedLength(parts: seq<seq<bv8>>)
    requires forall i :: 0 <= i < |parts| ==> |parts[i]| == 4
    ensures |Joined(parts)| == 4 * |parts|
  {
    if parts != [] {
      JoinedLength(parts[..|parts| - 1]);
    }
  }

  function Fixed(h: Header): seq<bv8> {
    [h.first, h.second] + Octets(h.number, 2) + h.timestamp + h.ssrc
  }

  function ExtensionOctets(x: Extension): seq<bv8> {
    x.profile + Octets(x.words, 2) + x.data
  }

  function Built(h: Header): seq<bv8> {
    Fixed(h) + Joined(h.csrcs) + if h.extension.Some? then ExtensionOctets(h.extension.value) else []
  }

  lemma LowBits(b: bv8)
    ensures CsrcCount(b) == b as nat % 16 && (ExtensionBit(b) <==> b as nat / 16 % 2 == 1)
  {
    var x := b as nat;
    assert b == (b & 0xf0) + (b & 0x0f);
  }

  /** Parsing reads the fields back: of a packet whose header was built from fields, whatever follows it. */
  lemma ParsesBuilt(h: Header, payload: seq<bv8>)
    requires WellFormed(h)
    ensures var pkt := Built(h) + payload;
            && ValidateHeader(pkt) == Ok && EncStart(pkt) == |Built(h)| && HeaderLen(pkt) == 12 + 4 * |h.csrcs|
            && SequenceNumber(pkt) == h.number && RtpSsrc(pkt) == h.ssrc && HasExtension(pkt) == h.extension.Some?
            && (h.extension.Some? ==> pkt[HeaderLen(pkt)..EncStart(pkt)] == ExtensionOctets(h.extension.value))
  {
    hide Octets, Number, CsrcCount, ExtensionBit, Joined, ValidateHeader, EncStart;
    var pkt, n := Built(h) + payload, 12 + 4 * |h.csrcs|;
    JoinedLength(h.csrcs);
    LowBits(h.first);
    FixedFields(h, pkt);
    if h.extension.Some? {
      ExtensionField(h.extension.value, pkt, n);
    }
    HeaderEnds(pkt, n, |Built(h)|);
  }

  lemma FixedFields(h: Header, pkt: seq<bv8>)
    requires WellFormed(h) && 12 <= |pkt| && pkt[..12] == Fixed(h)
    ensures SequenceNumber(pkt) == h.number && RtpSsrc(pkt) == h.ssrc && pkt[0] == h.first
  {
    hide Octets, Number;
    assert pkt[2..4] == pkt[..12][2..4] == Octets(h.number, 2);
    assert pkt[8..12] == pkt[..12][8..12] == h.ssrc;
    assert pkt[0] == pkt[..12][0];
    Powers();
    NumberOfOctets(h.number, 2);
  }

  lemma ExtensionField(x: Extension, pkt: seq<bv8>, n: nat)
    requires |x.profile| == 2 && x.words < 0x1_0000 && |x.data| == 4 * x.words && n + 4 + |x.data| <= |pkt|
    requires pkt[n..n + 4 + |x.data|] == ExtensionOctets(x)
    ensures Number(pkt[n + 2..n + 4]) == x.words
  {
    hide Octets, Number;
    Slices.SliceOfSlice(pkt, n, n + 4 + |x.data|, 2, 4);
    assert ExtensionOctets(x)[2..4] == Octets(x.words, 2);
    Powers();
    NumberOfOctets(x.words, 2);
  }

  lemma HeaderEnds(pkt: seq<bv8>, n: nat, e: nat)
    requires 12 <= n <= e <= |pkt| && n == 12 + 4 * CsrcCount(pkt[0])
    requires if ExtensionBit(pkt[0]) then n + 4 <= e && e == n + 4 * (Number(pkt[n + 2..n + 4]) + 1) else e == n
    ensures ValidateHeader(pkt) == Ok && HeaderLen(pkt) == n && EncStart(pkt) == e
  {
    hide CsrcCount, ExtensionBit, Number;
  }

  lemma ValueInjective(a: bv8, b: bv8)
    requires Value(a) == Value(b)
    ensures a == b
  {}

  lemma {:induction false} OctetsOfNumber(s: seq<bv8>)
    ensures Octets(Number(s), |s|) == s
  {
    hide Value;
    if s != [] {
      var front, last := s[..|s| - 1], s[|s| - 1];
      OctetsOfNumber(front);
      assert Number(s) / 256 == Number(front) && Number(s) % 256 == Value(last);
      ValueInjective(OctetOf(Number(s)), last);
    }
  }

  // The words of a stretch of octets.
  function Words(s: seq<bv8>): (r: seq<seq<bv8>>)
    requires |s| % 4 == 0
    ensures |r| == |s| / 4 && forall i :: 0 <= i < |r| ==> |r[i]| == 4
  {
    if s == [] then [] else Words(s[..|s| - 4]) + [s[|s| - 4..]]
  }

  lemma {:induction false} WordsJoined(s: seq<bv8>)
    requires |s| % 4 == 0
    ensures Joined(Words(s)) == s
  {
    if s != [] {
      var front, last := s[..|s| - 4], s[|s| - 4..];
      WordsJoined(front);
      JoinedAppend(Words(front), last);
    }
  }

  lemma JoinedAppend(parts: seq<seq<bv8>>, last: seq<bv8>)
    ensures Joined(parts + [last]) == Joined(parts) + last
  {
    assert (parts + [last])[..|parts|] == parts;
  }

  function ExtensionAt(pkt: seq<bv8>, n: nat, e: nat): Extension
    requires n + 4 <= e <= |pkt|
  {
    Extension(pkt[n..n + 2], Number(pkt[n + 2..n + 4]), pkt[n + 4..e])
  }

  lemma ExtensionRead(pkt: seq<bv8>, n: nat, e: nat)
    requires n + 4 <= e <= |pkt|
    ensures ExtensionOctets(ExtensionAt(pkt, n, e)) == pkt[n..e] && ExtensionAt(pkt, n, e).words < 0x1_0000
  {
    hide Octets, Number;
    OctetsOfNumber(pkt[n + 2..n + 4]);
    NumberBound(pkt[n + 2..n + 4]);
    Powers();
  }

  function HeaderAt(pkt: seq<bv8>, n: nat, e: nat): Header
    requires 12 <= n <= e <= |pkt| && n % 4 == 0 && (HasExtension(pkt) ==> n + 4 <= e)
  {
    Header(pkt[0], pkt[1], SequenceNumber(pkt), pkt[4..8], RtpSsrc(pkt), Words(pkt[12..n]),
           if HasExtension(pkt) then Some(ExtensionAt(pkt, n, e)) else None)
  }

  lemma FixedRead(pkt: seq<bv8>, n: nat, e: nat)
    requires 12 <= n <= e <= |pkt| && n % 4 == 0 && (HasExtension(pkt) ==> n + 4 <= e)
    ensures Fixed(HeaderAt(pkt, n, e)) == pkt[..12]
  {
    hide Octets, Number, Words, ExtensionAt, ExtensionBit;
    OctetsOfNumber(pkt[2..4]);
  }

  /** And nothing else is let through: a packet that validates starts with a header built from fields. */
  lemma ValidIsBuilt(pkt: seq<bv8>) returns (h: Header)
    requires ValidateHeader(pkt) == Ok
    ensures WellFormed(h) && Built(h) == pkt[..EncStart(pkt)]
  {
    hide Octets, Number, CsrcCount, ExtensionBit, Joined, Words, Fixed, ExtensionOctets;
    var n, e := HeaderLen(pkt), EncStart(pkt);
    h := HeaderAt(pkt, n, e);
    LowBits(pkt[0]);
    WordsJoined(pkt[12..n]);
    FixedRead(pkt, n, e);
    if HasExtension(pkt) {
      ExtensionRead(pkt, n, e);
    }
    Slices.ThreeSlices(pkt, 12, n, e);
  }

  /** Everything the header functions read lies before the extension's elements: packets that agree
      there have the same layout. */
  lemma LayoutDependsOnPrefix(pkt: seq<bv8>, other: seq<bv8>)
    requires ValidateHeader(pkt) == Ok && EncStart(pkt) <= |other|
    requires other[..HeaderLen(pkt)] == pkt[..HeaderLen(pkt)]
    requires HasExtension(pkt) ==> other[HeaderLen(pkt)..HeaderLen(pkt) + 4] == pkt[HeaderLen(pkt)..HeaderLen(pkt) + 4]
    ensures ValidateHeader(other) == Ok && HeaderLen(other) == HeaderLen(pkt) && EncStart(other) == EncStart(pkt)
    ensures HasExtension(other) == HasExtension(pkt)
    ensures SequenceNumber(other) == SequenceNumber(pkt) && RtpSsrc(other) == RtpSsrc(pkt)
  {
    hide Number, CsrcCount;
    var h := HeaderLen(pkt);
    assert other[0] == other[..h][0] == pkt[0];
    assert other[2..4] == other[..h][2..4] == pkt[..h][2..4] == pkt[2..4];
    assert other[8..12] == other[..h][8..12] == pkt[..h][8..12] == pkt[8..12];
    if HasExtension(pkt) {
      assert other[h + 2..h + 4] == other[h..h + 4][2..4] == pkt[h..h + 4][2..4] == pkt[h + 2..h + 4];
    }
  }
}
