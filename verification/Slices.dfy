/** Facts about slices and concatenations, for sequences of anything. */
module Slices {

  lemma SliceOfSlice<T>(s: seq<T>, a: nat, b: nat, c: nat, d: nat)
    requires a <= b <= |s| && c <= d <= b - a
    ensures s[a..b][c..d] == s[a + c..a + d]
  {
    forall i | 0 <= i < d - c ensures s[a..b][c..d][i] == s[a + c..a + d][i] {
      assert s[a..b][c..d][i] == s[a..b][c + i];
    }
  }

  lemma ThreeSlices<T>(s: seq<T>, a: nat, b: nat, c: nat)
    requires a <= b <= c <= |s|
    ensures s[..c] == s[..a] + s[a..b] + s[b..c]
  {}

  lemma TwoSlices<T>(s: seq<T>, a: nat, b: nat, c: nat)
    requires a <= b <= c <= |s|
    ensures s[a..c] == s[a..b] + s[b..c]
  {}

  lemma Concatenation<T>(a: seq<T>, b: seq<T>, c: seq<T>, rest: seq<T>)
    ensures var r := a + b + c + rest;
            r[..|a|] == a && r[|a|..|a| + |b|] == b && r[|a| + |b|..|a| + |b| + |c|] == c && r[|a| + |b|..] == c + rest &&
            r[|a| + |b| + |c|..] == rest
  {}

  lemma Associative<T>(a: seq<T>, b: seq<T>, c: seq<T>)
    ensures a + (b + c) == a + b + c
  {}

  // One stretch, at i, has been replaced by e.
  lemma Spliced<T>(was: seq<T>, now: seq<T>, e: seq<T>, start: nat, i: nat, end: nat)
    requires start <= i <= i + |e| <= end <= |was|
    requires now == was[..i] + e + was[i + |e|..]
    ensures |now| == |was|
    ensures now[start..i + |e|] == was[start..i] + e
    ensures now[i + |e|..end] == was[i..end][|e|..]
    ensures now[..start] == was[..start] && now[end..] == was[end..]
  {
    SliceOfSlice(was, i, end, |e|, end - i);
    assert was[i..end][|e|..] == was[i..end][|e|..end - i];
    assert now[i + |e|..end] == was[i + |e|..end];
  }

  // The middle of a stretch has been replaced: so has the stretch.
  lemma Respliced<T>(was: seq<T>, now: seq<T>, data: seq<T>, i: nat, h: nat, n: nat, span: nat, end: nat)
    requires h + |data| == n <= span && i + span <= end <= |was|
    requires now == was[..i + h] + data + was[i + n..]
    ensures var d := was[i..end];
            now == was[..i] + (d[..h] + data + d[n..span]) + was[i + span..]
    ensures |now| == |was| && now[i + n..end] == was[i..end][n..]
  {
    var d := was[i..end];
    SliceOfSlice(was, i, end, 0, h);
    SliceOfSlice(was, i, end, n, span);
    SliceOfSlice(was, i, end, n, end - i);
    assert d[..h] == d[0..h] && d[n..] == d[n..end - i];
    assert was[..i + h] == was[..i] + was[i..i + h];
    assert was[i + n..] == was[i + n..i + span] + was[i + span..];
    Associative(was[..i], d[..h], data);
    Associative(was[..i] + (d[..h] + data), d[n..span], was[i + span..]);
    Associative(was[..i], d[..h] + data, d[n..span]);
    assert now[i + n..end] == was[i + n..end];
  }
}
