/**
 * Slicing the table into batches: `GetBatchData` copies one window of rows,
 * and the loop of `Main` asks for the windows starting at 0, b, 2b, ... while
 * the start lies inside the table.
 */
module Batching {

  function Min(a: int, b: int): int {
    if a <= b then a else b
  }

  /** The rows at `start .. min(start + size, |s|) - 1`, in order; none when that range is empty. */
  function Window<T>(s: seq<T>, start: nat, size: int): seq<T> {
    var end := Min(start + size, |s|);
    if start < end then s[start..end] else []
  }

  /** The windows the batching loop asks for, from start index `i` on. */
  function BatchesFrom<T>(s: seq<T>, i: nat, size: nat): seq<seq<T>>
    requires size > 0
    decreases |s| - i
  {
    if i < |s| then [Window(s, i, size)] + BatchesFrom(s, i + size, size) else []
  }

  /** The start indices the batching loop visits from `i` on: `i, i + size, ...` below `n`. */
  function StartsFrom(n: nat, i: nat, size: nat): seq<nat>
    requires size > 0
    decreases n - i
  {
    if i < n then [i] + StartsFrom(n, i + size, size) else []
  }

  /** The k-th start from `i` is `i + k * size`, and it lies below `n`. */
  lemma {:induction false} StartsFromAt(n: nat, i: nat, size: nat, k: nat)
    requires size > 0 && k < |StartsFrom(n, i, size)|
    ensures StartsFrom(n, i, size)[k] == i + k * size < n
    decreases k
  {
    if k > 0 {
      StartsFromAt(n, i + size, size, k - 1);
      assert i + size + (k - 1) * size == i + k * size;
    }
  }

  /** The loop visits `0, size, 2 * size, ...`, all below `n`. */
  lemma StartsAt(n: nat, size: nat)
    requires size > 0
    ensures forall k :: 0 <= k < |StartsFrom(n, 0, size)| ==>
              StartsFrom(n, 0, size)[k] == k * size && StartsFrom(n, 0, size)[k] < n
  {
    forall k | 0 <= k < |StartsFrom(n, 0, size)|
      ensures StartsFrom(n, 0, size)[k] == k * size && StartsFrom(n, 0, size)[k] < n
    {
      StartsFromAt(n, 0, size, k);
    }
  }

  /** One batch per start index, each the window at that start. */
  lemma {:induction false} StartsFromBatches<T>(s: seq<T>, i: nat, size: nat)
    requires size > 0
    ensures |StartsFrom(|s|, i, size)| == |BatchesFrom(s, i, size)|
    ensures forall k :: 0 <= k < |BatchesFrom(s, i, size)| ==>
              BatchesFrom(s, i, size)[k] == Window(s, StartsFrom(|s|, i, size)[k], size)
    decreases |s| - i
  {
    if i < |s| {
      StartsFromBatches(s, i + size, size);
    }
  }

  function Batches<T>(s: seq<T>, size: nat): seq<seq<T>>
    requires size > 0
  {
    BatchesFrom(s, 0, size)
  }

  function Flatten<T>(ss: seq<seq<T>>): seq<T> {
    if ss == [] then [] else ss[0] + Flatten(ss[1..])
  }

  lemma FlattenCons<T>(x: seq<T>, ss: seq<seq<T>>)
    ensures Flatten([x] + ss) == x + Flatten(ss)
  {
    assert ([x] + ss)[1..] == ss;
  }

  /** Concatenating the batches from `i` on gives back the rows from `i` on. */
  lemma {:induction false} BatchesFromFlatten<T>(s: seq<T>, i: nat, size: nat)
    requires size > 0 && i <= |s|
    ensures Flatten(BatchesFrom(s, i, size)) == s[i..]
    decreases |s| - i
  {
    if i < |s| {
      FlattenCons(Window(s, i, size), BatchesFrom(s, i + size, size));
      if i + size < |s| {
        BatchesFromFlatten(s, i + size, size);
        assert s[i..] == s[i..i + size] + s[i + size..];
      }
    }
  }

  /** Concatenating all batches reproduces the table exactly, in order. */
  lemma BatchesFlatten<T>(s: seq<T>, size: nat)
    requires size > 0
    ensures Flatten(Batches(s, size)) == s
  {
    BatchesFromFlatten(s, 0, size);
  }

  /** The k-th batch from `i` starts at `i + k * size`, inside the table, and is the window there. */
  lemma {:induction false} BatchesFromAt<T>(s: seq<T>, i: nat, size: nat, k: nat)
    requires size > 0 && k < |BatchesFrom(s, i, size)|
    ensures i + k * size < |s|
    ensures BatchesFrom(s, i, size)[k] == Window(s, i + k * size, size)
    decreases k
  {
    if k > 0 {
      BatchesFromAt(s, i + size, size, k - 1);
      assert i + size + (k - 1) * size == i + k * size;
    }
  }

  /**
   * Batch k holds exactly the rows `k * size .. min((k + 1) * size, |s|) - 1`;
   * these ranges are disjoint, so no row lies in two batches.
   */
  lemma BatchAt<T>(s: seq<T>, size: nat, k: nat)
    requires size > 0 && k < |Batches(s, size)|
    ensures k * size < |s|
    ensures Batches(s, size)[k] == s[k * size..Min(k * size + size, |s|)]
  {
    BatchesFromAt(s, 0, size, k);
  }

  /** Every batch but the last holds `size` rows; the last holds between 1 and `size`. */
  lemma {:induction false} BatchesFromSizes<T>(s: seq<T>, i: nat, size: nat)
    requires size > 0
    ensures forall k :: 0 <= k < |BatchesFrom(s, i, size)| - 1 ==> |BatchesFrom(s, i, size)[k]| == size
    ensures |BatchesFrom(s, i, size)| > 0 ==>
              1 <= |BatchesFrom(s, i, size)[|BatchesFrom(s, i, size)| - 1]| <= size
    decreases |s| - i
  {
    if i < |s| {
      var rest := BatchesFrom(s, i + size, size);
      BatchesFromSizes(s, i + size, size);
      assert BatchesFrom(s, i, size)[1..] == rest;
      if rest != [] {
        assert i + size < |s|;
      }
    }
  }

  lemma BatchSizes<T>(s: seq<T>, size: nat)
    requires size > 0
    ensures forall k :: 0 <= k < |Batches(s, size)| - 1 ==> |Batches(s, size)[k]| == size
    ensures |Batches(s, size)| > 0 ==> 1 <= |Batches(s, size)[|Batches(s, size)| - 1]| <= size
  {
    BatchesFromSizes(s, 0, size);
  }

  /** The number of batches from `i` is the least count whose batches cover the remaining rows. */
  lemma {:induction false} BatchesFromCountBounds<T>(s: seq<T>, i: nat, size: nat)
    requires size > 0 && i <= |s|
    ensures (|BatchesFrom(s, i, size)| - 1) * size < |s| - i <= |BatchesFrom(s, i, size)| * size
            || (i == |s| && |BatchesFrom(s, i, size)| == 0)
    decreases |s| - i
  {
    if i < |s| && i + size < |s| {
      BatchesFromCountBounds(s, i + size, size);
      var m := |BatchesFrom(s, i + size, size)|;
      assert |BatchesFrom(s, i, size)| == m + 1;
      assert (m - 1) * size + size == m * size;
      assert m * size + size == (m + 1) * size;
    }
  }

  /** `q` satisfying the bounds is the rounded-up quotient. */
  lemma CeilingDivision(n: nat, size: nat, q: nat)
    requires size > 0 && q > 0
    requires (q - 1) * size < n <= q * size
    ensures q == (n + size - 1) / size
  {
    var m := n + size - 1;
    assert (q - 1) * size + size == q * size;
    assert q * size <= m < (q + 1) * size;
    var d := m / size;
    assert d * size + m % size == m;
  }

  /** There are ceil(n / size) batches: none for an empty table. */
  lemma BatchCount<T>(s: seq<T>, size: nat)
    requires size > 0
    ensures |Batches(s, size)| == (|s| + size - 1) / size
    ensures |Batches(s, size)| == 0 <==> |s| == 0
  {
    BatchesFromCountBounds(s, 0, size);
    if |s| > 0 {
      CeilingDivision(|s|, size, |Batches(s, size)|);
    }
  }

  /** `GetBatchData`: a fresh table holding the window of `source` at `start`; `source` is only read. */
  method GetBatchData<T>(source: array<T>, start: nat, size: int) returns (batch: seq<T>)
    ensures batch == Window(source[..], start, size)
  {
    batch := [];
    var end := Min(start + size, source.Length);
    var i := start;
    while i < end
      invariant start <= i && (i <= end || i == start)
      invariant |batch| == i - start
      invariant forall k :: 0 <= k < |batch| ==> batch[k] == source[start + k]
    {
      batch := batch + [source[i]];
      i := i + 1;
    }
    if start < end {
      assert batch == source[..][start..end];
    }
  }
}
