/**
 * The few numpy behaviours the stereo transform depends on, for one-dimensional integer arrays:
 * slicing with Python's bound normalisation, slice assignment with broadcasting, `column_stack`
 * and the wrapping cast to `int16`.
 */
module NdArray {
  import opened Wrappers

  /** Raised by a slice assignment whose value cannot be broadcast to the slice's length. */
  datatype ShapeError = BroadcastError(valueLength: nat, sliceLength: nat)

  /** Python's normalisation of a slice bound against length `n`: negative bounds count from the end, then both clamp to [0, n]. */
  function ClampIndex(i: int, n: nat): (r: nat)
    ensures r <= n
  {
    if i < 0 then (if i + n < 0 then 0 else i + n)
    else if i > n then n
    else i
  }

  /** Where the slice `[lo:hi]` of an array of length `n` starts. */
  function SliceStart(n: nat, lo: int): nat {
    ClampIndex(lo, n)
  }

  /** How many elements the slice `[lo:hi]` of an array of length `n` has. */
  function SliceLength(n: nat, lo: int, hi: int): (k: nat)
    ensures SliceStart(n, lo) + k <= n
  {
    var a := ClampIndex(lo, n);
    var b := ClampIndex(hi, n);
    if b <= a then 0 else b - a
  }

  /** `s[lo:hi]` with step 1. */
  function Slice(s: seq<int>, lo: int, hi: int): (r: seq<int>)
    ensures 0 <= lo <= hi <= |s| ==> r == s[lo..hi]
    ensures 0 <= lo && -|s| <= hi < 0 && lo <= |s| + hi ==> r == s[lo..|s| + hi]
    ensures 0 <= hi <= lo || hi <= -|s| || |s| <= lo ==> r == []
    ensures |r| <= |s|
  {
    var a := SliceStart(|s|, lo);
    s[a..a + SliceLength(|s|, lo, hi)]
  }

  /** `s[:-d]` drops the last `d` elements for 0 < d, but is EMPTY for d == 0 because -0 == 0. */
  lemma DropLastSlice(s: seq<int>, d: nat)
    ensures 0 < d <= |s| ==> Slice(s, 0, -(d as int)) == s[..|s| - d]
    ensures d == 0 || d >= |s| ==> Slice(s, 0, -(d as int)) == []
  {
  }

  /** Python's identity `s[:k] + s[k:] == s`, for every integer `k`, negative and out of range included. */
  lemma SliceSplit(s: seq<int>, k: int)
    ensures Slice(s, 0, k) + Slice(s, k, |s|) == s
  {
  }

  /** `np.zeros_like(a)` for an n-element integer array `a`. */
  function Zeros(n: nat): seq<int>
  {
    seq(n, i => 0)
  }

  /**
   * `t[lo:hi] = v`: the slice's elements are replaced by `v`, which must have the slice's length or
   * length 1 (then it is broadcast); any other length raises a broadcast error.
   */
  function SetSlice(t: seq<int>, lo: int, hi: int, v: seq<int>): (r: Result<seq<int>, ShapeError>)
    ensures r.Failure? <==> |v| != SliceLength(|t|, lo, hi) && |v| != 1
    ensures r.Success? ==> |r.value| == |t|
    ensures r.Success? ==> forall i :: 0 <= i < |t| ==>
      var a := SliceStart(|t|, lo);
      var k := SliceLength(|t|, lo, hi);
      r.value[i] == if a <= i < a + k then (if |v| == k then v[i - a] else v[0]) else t[i]
  {
    var a := SliceStart(|t|, lo);
    var k := SliceLength(|t|, lo, hi);
    if |v| == k then Success(t[..a] + v + t[a + k..])
    else if |v| == 1 then Success(t[..a] + seq(k, _ => v[0]) + t[a + k..])
    else Failure(BroadcastError(|v|, k))
  }

  const Int16Modulus: int := 0x1_0000

  predicate InInt16(x: int) {
    -0x8000 <= x < 0x8000
  }

  /** numpy's `astype(np.int16)` on one integer: the int16 value congruent to `x` modulo 2^16. */
  function ToInt16(x: int): (r: int)
    ensures InInt16(r)
    ensures (x - r) % Int16Modulus == 0
    ensures InInt16(x) ==> r == x
  {
    var m := x % Int16Modulus;
    if m < 0x8000 then m else m - Int16Modulus
  }

  /** `np.column_stack((left, right))`: one row `[left[i], right[i]]` per index. */
  function ColumnStack(left: seq<int>, right: seq<int>): seq<seq<int>>
    requires |left| == |right|
  {
    seq(|left|, i requires 0 <= i < |left| => [left[i], right[i]])
  }

  /** The two columns of `column_stack((left, right))` give back `left` and `right`. */
  lemma ColumnStackColumns(left: seq<int>, right: seq<int>)
    requires |left| == |right|
    ensures |ColumnStack(left, right)| == |left|
    ensures forall i :: 0 <= i < |left| ==> |ColumnStack(left, right)[i]| == 2
    ensures seq(|left|, i requires 0 <= i < |left| => ColumnStack(left, right)[i][0]) == left
    ensures seq(|left|, i requires 0 <= i < |left| => ColumnStack(left, right)[i][1]) == right
  {
  }

  /** `astype(np.int16)` applied to every element of a two-dimensional array. */
  function AsInt16(rows: seq<seq<int>>): seq<seq<int>>
  {
    seq(|rows|, i requires 0 <= i < |rows| => seq(|rows[i]|, j requires 0 <= j < |rows[i]| => ToInt16(rows[i][j])))
  }

  /** Every entry of a two-dimensional array lies in the int16 range. */
  predicate AllRowsInInt16(rows: seq<seq<int>>) {
    forall i, j :: 0 <= i < |rows| && 0 <= j < |rows[i]| ==> InInt16(rows[i][j])
  }

  /** The array-wide cast always lands in int16 range, keeps the shape, and changes nothing already in range. */
  lemma AsInt16Properties(rows: seq<seq<int>>)
    ensures |AsInt16(rows)| == |rows|
    ensures forall i :: 0 <= i < |rows| ==> |AsInt16(rows)[i]| == |rows[i]|
    ensures AllRowsInInt16(AsInt16(rows))
    ensures AllRowsInInt16(rows) ==> AsInt16(rows) == rows
  {
    if AllRowsInInt16(rows) {
      forall i | 0 <= i < |rows|
        ensures AsInt16(rows)[i] == rows[i]
      {
        assert forall j :: 0 <= j < |rows[i]| ==> InInt16(rows[i][j]);
      }
    }
  }
}
