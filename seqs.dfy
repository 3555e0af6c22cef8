// Sequence helpers shared by the node model: reallocation, reads past an
// allocation, and slices of concatenations.

module Seqs {

  /** realloc to n slots: kept prefix, new slots filled with `fill` (uninitialised memory, as zero). */
  function Resize<T>(s: seq<T>, n: nat, fill: T): (r: seq<T>)
    ensures |r| == n
    ensures forall k :: 0 <= k < n && k < |s| ==> r[k] == s[k]
    ensures forall k :: |s| <= k < n ==> r[k] == fill
  {
    if n <= |s| then s[..n] else s + Repeat(fill, n - |s|)
  }

  /** n copies of x. */
  function Repeat<T>(x: T, n: nat): (r: seq<T>)
    ensures |r| == n && forall k :: 0 <= k < n ==> r[k] == x
  {
    if n == 0 then [] else Repeat(x, n - 1) + [x]
  }

  /** s back to front. */
  function Reverse<T>(s: seq<T>): (r: seq<T>)
    ensures |r| == |s| && forall k :: 0 <= k < |s| ==> r[k] == s[|s| - 1 - k]
  {
    if s == [] then [] else [s[|s| - 1]] + Reverse(s[..|s| - 1])
  }

  /** Store v at index j of an allocation that may be exactly one slot too short. */
  function Put<T>(s: seq<T>, j: nat, v: T): (r: seq<T>)
    requires j <= |s|
    ensures |r| == if j < |s| then |s| else |s| + 1
    ensures r[j] == v
    ensures forall k :: 0 <= k < |s| && k != j ==> r[k] == s[k]
  {
    if j < |s| then s[j := v] else s + [v]
  }

  /** The elements of s from index j on, or nothing when s is shorter. */
  function Drop<T>(s: seq<T>, j: nat): (r: seq<T>)
    ensures |r| == if j <= |s| then |s| - j else 0
  {
    if j <= |s| then s[j..] else []
  }

  lemma SliceLeft<T>(a: seq<T>, b: seq<T>, i: nat, j: nat)
    requires i <= j <= |a|
    ensures (a + b)[i..j] == a[i..j]
  {
  }

  lemma SliceRight<T>(a: seq<T>, b: seq<T>, i: nat, j: nat)
    requires |a| <= i <= j <= |a| + |b|
    ensures (a + b)[i..j] == b[i - |a|..j - |a|]
  {
  }

  lemma SliceOfSlice<T>(s: seq<T>, x: nat, i: nat, j: nat)
    requires x + j <= |s| && i <= j
    ensures s[x..][i..j] == s[x + i..x + j]
  {
  }

  lemma SliceOfSliceRange<T>(s: seq<T>, i: nat, j: nat, x: nat, y: nat)
    requires i <= j <= |s| && x <= y <= j - i
    ensures s[i..j][x..y] == s[i + x..i + y]
  {
    forall k | 0 <= k < y - x
      ensures s[i..j][x..y][k] == s[i + x..i + y][k]
    {
    }
  }

  /**
   * s is s0 with s0[c..e] moved up one slot: what a loop that copies s[k-1] into s[k]
   * for k = e down to c+1 leaves behind. Every other slot keeps its value. Slot e may
   * be one past the end of s0, a store just past an allocation, and then s is one
   * longer.
   */
  ghost predicate ShiftedUp<T>(s: seq<T>, s0: seq<T>, c: nat, e: nat)
  {
    && c <= e <= |s0|
    && |s| == (if c < e && e == |s0| then |s0| + 1 else |s0|)
    && (forall k :: 0 <= k <= c && k < |s0| ==> s[k] == s0[k])
    && (forall k :: c < k <= e ==> s[k] == s0[k - 1])
    && (forall k :: e < k < |s0| ==> s[k] == s0[k])
  }

  /** One turn of that loop: slot c takes the value of slot c-1. */
  lemma ShiftUpStep<T>(s: seq<T>, s0: seq<T>, c: nat, e: nat)
    requires ShiftedUp(s, s0, c, e) && 1 <= c
    ensures c <= |s| && ShiftedUp(Put(s, c, s[c - 1]), s0, c - 1, e)
  {
  }

  /** Storing v in the slot the shift freed gives s0 with v inserted at c. */
  lemma FillGap<T>(s0: seq<T>, r: seq<T>, c: nat, e: nat, v: T)
    requires ShiftedUp(r, s0, c, e)
    ensures c <= |r| && Put(r, c, v) == s0[..c] + [v] + s0[c..e] + Drop(s0, e + 1)
  {
    var p := Put(r, c, v);
    var w := s0[..c] + [v] + s0[c..e] + Drop(s0, e + 1);
    assert |p| == |w|;
    forall k | 0 <= k < |p|
      ensures p[k] == w[k]
    {
      if k < c {
        assert w[k] == s0[k];
      } else if k == c {
      } else if k <= e {
        assert w[k] == s0[c..e][k - c - 1];
      } else {
        assert w[k] == Drop(s0, e + 1)[k - e - 1];
      }
    }
  }

  /** The shifted sequence is the old one with slot c held twice. */
  lemma ShiftedUpIs<T>(t: seq<T>, s0: seq<T>, c: nat, e: nat)
    requires ShiftedUp(t, s0, c, e) && |t| == e + 1
    ensures t == s0[..c + 1] + s0[c..e]
  {
    var A, B := s0[..c + 1], s0[c..e];
    forall k | 0 <= k < e + 1
      ensures t[k] == (A + B)[k]
    {
      if k <= c {
        assert (A + B)[k] == A[k];
      } else {
        assert (A + B)[k] == B[k - c - 1];
      }
    }
  }

  lemma AppendAssoc<T>(a: seq<T>, b: seq<T>, c: seq<T>)
    ensures (a + b) + c == a + (b + c)
  {
  }

  /** After writing w at cur, the written prefix is the old prefix followed by w. */
  lemma WriteExtends<T>(before: seq<T>, after: seq<T>, cur: nat, w: seq<T>)
    requires |before| == |after| && cur + |w| <= |after|
    requires after[cur..cur + |w|] == w
    requires forall k :: 0 <= k < cur ==> after[k] == before[k]
    ensures after[..cur + |w|] == before[..cur] + w
  {
    assert after[..cur + |w|] == after[..cur] + after[cur..cur + |w|];
  }
}
