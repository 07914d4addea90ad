/**
 * Facts about slices of concatenated sequences. They are stated once,
 * generically, so that proofs about packets cite them instead of comparing
 * bytes one by one.
 */
module Slices {

  lemma Middle<X>(x: seq<X>, y: seq<X>, z: seq<X>)
    ensures (x + y + z)[..|x|] == x
    ensures (x + y + z)[|x|..|x| + |y|] == y
    ensures (x + y + z)[|x| + |y|..] == z
  {
  }

  /** The six parts of a six-part concatenation, by position. */
  lemma Parts6<X>(a: seq<X>, b: seq<X>, c: seq<X>, d: seq<X>, e: seq<X>, f: seq<X>)
    ensures var s := a + b + c + d + e + f;
      var i1 := |a|;
      var i2 := i1 + |b|;
      var i3 := i2 + |c|;
      var i4 := i3 + |d|;
      var i5 := i4 + |e|;
      && s[..i1] == a && s[i1..i2] == b && s[i2..i3] == c
      && s[i3..i4] == d && s[i4..i5] == e && s[i5..] == f
  {
  }

  /** A sequence is the concatenation of its slices between five cut points. */
  lemma Join6<X>(s: seq<X>, i1: nat, i2: nat, i3: nat, i4: nat, i5: nat)
    requires i1 <= i2 <= i3 <= i4 <= i5 <= |s|
    ensures s == s[..i1] + s[i1..i2] + s[i2..i3] + s[i3..i4] + s[i4..i5] + s[i5..]
  {
  }

  /** A slice is the concatenation of its slices between two inner cut points. */
  lemma Join3<X>(s: seq<X>, i: nat, j: nat, k: nat, l: nat)
    requires i <= j <= k <= l <= |s|
    ensures s[i..l] == s[i..j] + s[j..k] + s[k..l]
  {
  }

  /** If the slice from `pos` is `x + y + z`, each part stands at its own offset. */
  lemma Parts3<X>(s: seq<X>, pos: nat, x: seq<X>, y: seq<X>, z: seq<X>)
    requires pos + |x| + |y| + |z| <= |s|
    requires s[pos..pos + |x| + |y| + |z|] == x + y + z
    ensures s[pos..pos + |x|] == x
    ensures s[pos + |x|..pos + |x| + |y|] == y
    ensures s[pos + |x| + |y|..pos + |x| + |y| + |z|] == z
  {
    assert forall k :: pos <= k < pos + |x| ==> s[k] == (x + y + z)[k - pos];
    assert forall k :: pos + |x| <= k < pos + |x| + |y| ==> s[k] == (x + y + z)[k - pos];
    assert forall k :: pos + |x| + |y| <= k < pos + |x| + |y| + |z| ==> s[k] == (x + y + z)[k - pos];
  }

  /** The tail from `i` of a prefix is a prefix of the slice from `i`. */
  lemma PrefixTail<X>(s: seq<X>, k: nat, i: nat, j: nat)
    requires i <= k <= j <= |s|
    ensures s[..k][i..] == s[i..j][..k - i]
  {
  }

  /** A cut of `w + x + y` at `k`, standing at `pos` of `s`: its parts, as far as the cut reaches. */
  lemma CutParts3<X>(s: seq<X>, pos: nat, w: seq<X>, x: seq<X>, y: seq<X>, k: nat)
    requires |w| <= k <= |w| + |x| + |y|
    requires |s| == pos + k && s[pos..] == (w + x + y)[..k]
    ensures s[pos..pos + |w|] == w
    ensures k >= |w| + |x| ==> s[pos + |w|..pos + |w| + |x|] == x && s[pos + |w| + |x|..] == y[..k - |w| - |x|]
  {
    assert forall m :: pos <= m < |s| ==> s[m] == (w + x + y)[m - pos];
  }

  lemma Cons<X>(x: X, s: seq<X>)
    ensures ([x] + s)[0] == x
    ensures ([x] + s)[1..] == s
  {
  }

  lemma DropOne<X>(s: seq<X>, i: nat)
    requires i < |s|
    ensures s[i..] == [s[i]] + s[i + 1..]
  {
  }

  lemma AppendHead<X>(acc: seq<X>, s: seq<X>)
    requires s != []
    ensures acc + [s[0]] + s[1..] == acc + s
  {
    assert s == [s[0]] + s[1..];
  }

  lemma PrefixOfSnoc<X>(s: seq<X>, p: seq<X>, x: X)
    requires |p| + 1 <= |s| && s[..|p| + 1] == p + [x]
    ensures s[..|p|] == p && s[|p|] == x
  {
    assert s[..|p|] == s[..|p| + 1][..|p|];
  }
}
