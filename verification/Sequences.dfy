/** Small facts about sequences, kept apart from the theories of their elements. */
module Sequences {

  function Last<T>(s: seq<T>): T
    requires |s| > 0
  {
    s[|s| - 1]
  }

  function Front<T>(s: seq<T>): seq<T>
    requires |s| > 0
  {
    s[..|s| - 1]
  }

  lemma FrontLast<T>(s: seq<T>)
    requires |s| > 0
    ensures s == Front(s) + [Last(s)]
  {
  }

  lemma Snoc<T>(s: seq<T>, t: T)
    ensures Front(s + [t]) == s && Last(s + [t]) == t
  {
  }

  lemma Assoc<T>(x: seq<T>, y: seq<T>, z: seq<T>)
    ensures (x + y) + z == x + (y + z)
  {
  }

  lemma Neutral<T>(x: seq<T>)
    ensures x + [] == x && [] + x == x
  {
  }

  lemma SplitAt<T>(s: seq<T>, i: nat)
    requires i < |s|
    ensures s == (s[..i] + [s[i]]) + s[i + 1..]
    ensures s[..i + 1] == s[..i] + [s[i]]
  {
  }

  lemma TakeDrop<T>(x: seq<T>, y: seq<T>)
    ensures (x + y)[..|x|] == x && (x + y)[|x|..] == y
  {
  }

  lemma AppendFront<T>(x: seq<T>, y: seq<T>)
    requires |y| > 0
    ensures Front(x + y) == x + Front(y) && Last(x + y) == Last(y)
  {
  }

  /** Cutting the middle pieces out of a sequence made of four. */
  lemma Pieces<T>(x: seq<T>, y: seq<T>, z: seq<T>, rest: seq<T>)
    ensures ((x + (y + z)) + rest)[|x|..|x| + |y|] == y
    ensures ((x + (y + z)) + rest)[|x| + |y|..|x| + |y| + |z|] == z
  {
  }

  /** A slice of a slice is a slice. */
  lemma Slice<T>(s: seq<T>, from: nat, end: nat, lo: nat, hi: nat)
    requires from <= end <= |s| && lo <= hi <= end - from
    ensures s[from..end][lo..hi] == s[from + lo..from + hi]
  {
    assert forall i :: 0 <= i < hi - lo ==> s[from..end][lo..hi][i] == s[from..end][lo + i];
  }

  /** Reading two adjacent pieces of a stretch of `s` in place, the first from `o` on with length `n`. */
  lemma PiecesAt<T>(s: seq<T>, from: nat, end: nat, x: seq<T>, y: seq<T>, z: seq<T>, rest: seq<T>, o: nat, n: nat)
    requires from <= end <= |s| && s[from..end] == (x + (y + z)) + rest
    requires o == from + |x| && n == |y|
    ensures o + n + |z| <= end
    ensures s[o..o + n] == y
    ensures s[o + n..o + n + |z|] == z
  {
    Pieces(x, y, z, rest);
    Slice(s, from, end, |x|, |x| + |y|);
    Slice(s, from, end, |x| + |y|, |x| + |y| + |z|);
  }

  lemma HeadTail<T>(s: seq<T>)
    requires |s| > 0
    ensures s == [s[0]] + s[1..]
  {
  }

  /** Sequences with a common prefix have common slices inside it. */
  lemma SamePrefixSlice<T>(s: seq<T>, s': seq<T>, end: nat, lo: nat, hi: nat)
    requires end <= |s| && end <= |s'| && s'[..end] == s[..end] && lo <= hi <= end
    ensures s'[lo..hi] == s[lo..hi]
  {
    Slice(s, 0, end, lo, hi);
    Slice(s', 0, end, lo, hi);
    assert s[0..end] == s[..end] && s'[0..end] == s'[..end];
  }

  lemma Adjacent<T>(s: seq<T>, lo: nat, mid: nat, hi: nat)
    requires lo <= mid <= hi <= |s|
    ensures s[lo..hi] == s[lo..mid] + s[mid..hi]
  {
  }

  /** Sequences with a common suffix have common slices inside it. */
  lemma SameSuffixSlice<T>(s: seq<T>, s': seq<T>, from: nat, lo: nat, hi: nat)
    requires |s| == |s'| && from <= lo <= hi <= |s| && s'[from..] == s[from..]
    ensures s'[lo..hi] == s[lo..hi]
  {
    forall i | 0 <= i < hi - lo
      ensures s'[lo..hi][i] == s[lo..hi][i]
    {
      assert s[from..][lo - from + i] == s[lo + i] && s'[from..][lo - from + i] == s'[lo + i];
    }
  }

  lemma SliceHead<T>(s: seq<T>, a: nat, c: nat, x: seq<T>, y: seq<T>)
    requires a <= c <= |s| && s[a..c] == x + y
    ensures a + |x| <= c && s[a..a + |x|] == x
  {
    Slice(s, a, c, 0, |x|);
    TakeDrop(x, y);
    assert s[a..c][0..|x|] == s[a..c][..|x|];
  }

  /** Writing b over s from position o on. */
  function Put<T>(s: seq<T>, o: nat, b: seq<T>): (r: seq<T>)
    requires o + |b| <= |s|
    ensures |r| == |s|
  {
    s[..o] + b + s[o + |b|..]
  }

  lemma PutSlices<T>(s: seq<T>, o: nat, b: seq<T>)
    requires o + |b| <= |s|
    ensures |Put(s, o, b)| == |s| && Put(s, o, b)[..o] == s[..o] && Put(s, o, b)[o..o + |b|] == b
    ensures Put(s, o, b)[o + |b|..] == s[o + |b|..]
  {
  }
}
