/**
 * The sparse-to-dense expander of `api/expander.py`.
 *
 * `expand` walks a sequence of (index, value) pairs, remembering the index of
 * the previous pair in `last_index` (initially -1). Before each value it emits
 * `default` once per skipped index, `index - (last_index + 1)` times, which is
 * no time at all when that count is zero or negative (Python's `range` of a
 * non-positive number is empty). `reshape` maps a function over its input.
 */
module Expander {

  import opened Wrappers

  /** `reshape(iterable, shapefunc)`: one shaped element per input element, in order. */
  function Reshape<A, B>(xs: seq<A>, shape: A -> B): (ys: seq<B>)
    ensures |ys| == |xs|
    ensures forall i :: 0 <= i < |xs| ==> ys[i] == shape(xs[i])
  {
    if xs == [] then [] else [shape(xs[0])] + Reshape(xs[1..], shape)
  }

  /** How many defaults precede a pair at `index` when the previous pair was at `last`. */
  function Gap(index: int, last: int): nat
  {
    if index - (last + 1) > 0 then index - (last + 1) else 0
  }

  /** `n` copies of `d`. */
  function Padding<T>(n: nat, d: T): (r: seq<T>)
    ensures |r| == n
    ensures forall i :: 0 <= i < n ==> r[i] == d
  {
    if n == 0 then [] else Padding(n - 1, d) + [d]
  }

  /** What `expand` yields for `pairs` once the previous pair's index is `last`. */
  function ExpandFrom<T>(pairs: seq<(int, T)>, last: int, d: T): seq<T>
    decreases |pairs|
  {
    if pairs == [] then []
    else Padding(Gap(pairs[0].0, last), d) + [pairs[0].1] + ExpandFrom(pairs[1..], pairs[0].0, d)
  }

  /** What `expand(pairs, default=d)` yields: the walk starts with `last_index = -1`. */
  function Expanded<T>(pairs: seq<(int, T)>, d: T): seq<T>
  {
    ExpandFrom(pairs, -1, d)
  }

  /** The loop of `expand`: an outer loop over the pairs and an inner counted loop for the padding. */
  method Expand<T>(pairs: seq<(int, T)>, default: T) returns (out: seq<T>)
    ensures out == Expanded(pairs, default)
  {
    out := [];
    var lastIndex := -1;
    for i := 0 to |pairs|
      invariant out + ExpandFrom(pairs[i..], lastIndex, default) == Expanded(pairs, default)
    {
      var (index, value) := pairs[i];
      ghost var before := out;
      var k := 0;
      while k < index - (lastIndex + 1)
        invariant 0 <= k <= Gap(index, lastIndex)
        invariant out == before + Padding(k, default)
      {
        out := out + [default];
        k := k + 1;
      }
      assert k == Gap(index, lastIndex);
      assert pairs[i..] == [pairs[i]] + pairs[i + 1..];
      lastIndex := index;
      out := out + [value];
    }
  }

  // ---------------------------------------------------------------------------
  // Arbitrary input: how long the output is and where the values land.

  /** The total padding `expand` inserts: the sum of every pair's gap to its predecessor. */
  function TotalPadding<T>(pairs: seq<(int, T)>, last: int): nat
    decreases |pairs|
  {
    if pairs == [] then 0 else Gap(pairs[0].0, last) + TotalPadding(pairs[1..], pairs[0].0)
  }

  lemma {:induction false} ExpandFromLength<T>(pairs: seq<(int, T)>, last: int, d: T)
    ensures |ExpandFrom(pairs, last, d)| == |pairs| + TotalPadding(pairs, last)
    decreases |pairs|
  {
    if pairs != [] {
      ExpandFromLength(pairs[1..], pairs[0].0, d);
    }
  }

  /** For any input, the output holds one element per pair plus the padding; a repeated or decreasing index pads nothing. */
  lemma ExpandedLength<T>(pairs: seq<(int, T)>, d: T)
    ensures |Expanded(pairs, d)| == |pairs| + TotalPadding(pairs, -1)
  {
    ExpandFromLength(pairs, -1, d);
  }

  /**
   * The output positions at which the values land, for a walk that starts at
   * output position `start` with previous index `last`.
   */
  function SlotsFrom<T>(pairs: seq<(int, T)>, last: int, start: nat): (s: seq<nat>)
    ensures |s| == |pairs|
    decreases |pairs|
  {
    if pairs == [] then []
    else
      var at := start + Gap(pairs[0].0, last);
      [at] + SlotsFrom(pairs[1..], pairs[0].0, at + 1)
  }

  /** The positions of `Expanded(pairs, d)` that hold the values rather than padding. */
  function ValueSlots<T>(pairs: seq<(int, T)>): seq<nat>
  {
    SlotsFrom(pairs, -1, 0)
  }

  /**
   * `out`, read from output position `start`, holds the pairs' values at the
   * strictly increasing positions `s`, the default everywhere else, and ends
   * with the last value.
   */
  ghost predicate ValuesAtSlots<T>(out: seq<T>, s: seq<nat>, pairs: seq<(int, T)>, d: T, start: nat)
  {
    && |s| == |pairs|
    && (forall k :: 0 <= k < |s| ==> start <= s[k] < start + |out| && out[s[k] - start] == pairs[k].1)
    && (forall k, m :: 0 <= k < m < |s| ==> s[k] < s[m])
    && (forall q :: start <= q < start + |out| && q !in s ==> out[q - start] == d)
    && |out| == (if s == [] then 0 else s[|s| - 1] - start + 1)
  }

  /** One step of `ExpandFromSlots`: padding, then the first value, then the rest of the walk. */
  lemma ValuesAtSlotsCons<T>(out: seq<T>, s: seq<nat>, pad: seq<T>, tail: seq<T>, rest: seq<nat>, pairs: seq<(int, T)>, d: T, start: nat)
    requires pairs != []
    requires forall i :: 0 <= i < |pad| ==> pad[i] == d
    requires ValuesAtSlots(tail, rest, pairs[1..], d, start + |pad| + 1)
    requires out == pad + [pairs[0].1] + tail && s == [start + |pad|] + rest
    ensures ValuesAtSlots(out, s, pairs, d, start)
  {
    var g := |pad|;
    forall k | 0 <= k < |s|
      ensures start <= s[k] < start + |out| && out[s[k] - start] == pairs[k].1
    {
      if k > 0 {
        assert s[k] == rest[k - 1] && pairs[k] == pairs[1..][k - 1];
        assert out[s[k] - start] == tail[rest[k - 1] - (start + g + 1)];
      }
    }
    forall k, m | 0 <= k < m < |s|
      ensures s[k] < s[m]
    {
      assert s[m] == rest[m - 1];
      if k > 0 {
        assert s[k] == rest[k - 1];
      }
    }
    forall q | start <= q < start + |out| && q !in s
      ensures out[q - start] == d
    {
      if q > start + g {
        assert q !in rest;
        assert out[q - start] == tail[q - (start + g + 1)];
      } else {
        assert out[q - start] == pad[q - start];
      }
    }
    if rest != [] {
      assert s[|s| - 1] == rest[|rest| - 1];
    }
  }

  lemma {:induction false} ExpandFromSlots<T>(pairs: seq<(int, T)>, last: int, d: T, start: nat)
    ensures ValuesAtSlots(ExpandFrom(pairs, last, d), SlotsFrom(pairs, last, start), pairs, d, start)
    decreases |pairs|
  {
    if pairs != [] {
      var g := Gap(pairs[0].0, last);
      var pad, tail, rest := Padding(g, d), ExpandFrom(pairs[1..], pairs[0].0, d), SlotsFrom(pairs[1..], pairs[0].0, start + g + 1);
      ExpandFromSlots(pairs[1..], pairs[0].0, d, start + g + 1);
      ValuesAtSlotsCons(ExpandFrom(pairs, last, d), SlotsFrom(pairs, last, start), pad, tail, rest, pairs, d, start);
    }
  }

  /**
   * For any input, dropping the padding positions leaves exactly the input
   * values in input order: the value positions increase, each holds its pair's
   * value, every other position holds the default, and the output ends with
   * the last value (no trailing padding).
   */
  lemma ExpandedValuesInOrder<T>(pairs: seq<(int, T)>, d: T)
    ensures var out, s := Expanded(pairs, d), ValueSlots(pairs);
      && |s| == |pairs|
      && (forall k, m :: 0 <= k < m < |s| ==> s[k] < s[m])
      && (forall k :: 0 <= k < |s| ==> s[k] < |out| && out[s[k]] == pairs[k].1)
      && (forall q :: 0 <= q < |out| && q !in s ==> out[q] == d)
      && |out| == (if pairs == [] then 0 else s[|s| - 1] + 1)
  {
    ExpandFromSlots(pairs, -1, d, 0);
  }

  // ---------------------------------------------------------------------------
  // Well-formed sparse input: indices non-negative and strictly increasing.

  /** Every index exceeds `last`, and the indices strictly increase. */
  ghost predicate IndicesAfter<T>(pairs: seq<(int, T)>, last: int)
  {
    && (forall i :: 0 <= i < |pairs| ==> last < pairs[i].0)
    && (forall i, j :: 0 <= i < j < |pairs| ==> pairs[i].0 < pairs[j].0)
  }

  /** A sparse vector: indices at least 0 and strictly increasing. */
  ghost predicate Sparse<T>(pairs: seq<(int, T)>)
  {
    IndicesAfter(pairs, -1)
  }

  /** The indices named by the pairs. */
  ghost function Indices<T>(pairs: seq<(int, T)>): set<int>
  {
    set k | 0 <= k < |pairs| :: pairs[k].0
  }

  /** On a sparse vector each value lands at its own index. */
  lemma {:induction false} SparseSlotsAreIndices<T>(pairs: seq<(int, T)>, last: int)
    requires last >= -1
    requires IndicesAfter(pairs, last)
    ensures forall k :: 0 <= k < |pairs| ==> SlotsFrom(pairs, last, last + 1)[k] == pairs[k].0
    decreases |pairs|
  {
    if pairs != [] {
      assert IndicesAfter(pairs[1..], pairs[0].0) by {
        forall i | 0 <= i < |pairs[1..]| ensures pairs[0].0 < pairs[1..][i].0 {
          assert pairs[1..][i] == pairs[i + 1];
        }
      }
      SparseSlotsAreIndices(pairs[1..], pairs[0].0);
      var s := SlotsFrom(pairs, last, last + 1);
      forall k | 0 <= k < |pairs| ensures s[k] == pairs[k].0 {
        if k > 0 {
          assert s[k] == SlotsFrom(pairs[1..], pairs[0].0, pairs[0].0 + 1)[k - 1];
        }
      }
    }
  }

  /** On a sparse vector the output ends at the last index: its length is the last index + 1 (0 for no pairs). */
  lemma SparseLength<T>(pairs: seq<(int, T)>, d: T)
    requires Sparse(pairs)
    ensures |Expanded(pairs, d)| == if pairs == [] then 0 else pairs[|pairs| - 1].0 + 1
  {
    ExpandedValuesInOrder(pairs, d);
    SparseSlotsAreIndices(pairs, -1);
  }

  /** On a sparse vector, output position `index_i` holds `value_i`. */
  lemma SparsePlacement<T>(pairs: seq<(int, T)>, d: T)
    requires Sparse(pairs)
    ensures forall k :: 0 <= k < |pairs| ==>
      pairs[k].0 < |Expanded(pairs, d)| && Expanded(pairs, d)[pairs[k].0] == pairs[k].1
  {
    ExpandedValuesInOrder(pairs, d);
    SparseSlotsAreIndices(pairs, -1);
  }

  /** On a sparse vector, every output position that no pair names holds the default. */
  lemma SparsePadding<T>(pairs: seq<(int, T)>, d: T)
    requires Sparse(pairs)
    ensures forall q :: 0 <= q < |Expanded(pairs, d)| && q !in Indices(pairs) ==> Expanded(pairs, d)[q] == d
  {
    var s := ValueSlots(pairs);
    ExpandedValuesInOrder(pairs, d);
    SparseSlotsAreIndices(pairs, -1);
    forall k | 0 <= k < |s| ensures s[k] in Indices(pairs) {
      assert pairs[k].0 in Indices(pairs);
    }
  }

  /** Input already dense (indices exactly 0..n-1) comes out as its values, with nothing inserted. */
  lemma ExpandedDense<T>(pairs: seq<(int, T)>, d: T)
    requires forall k :: 0 <= k < |pairs| ==> pairs[k].0 == k
    ensures Expanded(pairs, d) == Reshape(pairs, (p: (int, T)) => p.1)
  {
    var out, values := Expanded(pairs, d), Reshape(pairs, (p: (int, T)) => p.1);
    assert Sparse(pairs);
    SparseLength(pairs, d);
    SparsePlacement(pairs, d);
    assert |out| == |values|;
    forall k | 0 <= k < |pairs| ensures out[k] == values[k] {
      assert pairs[k].0 == k;
    }
  }

  /** The example in the docstring: `(1, 3), (3, 4)` expands to `None, 3, None, 4`. */
  lemma DocExample()
    ensures Expanded([(1, Some(3)), (3, Some(4))], Option<int>.None) == [None, Some(3), None, Some(4)]
  {
    var pairs: seq<(int, Option<int>)> := [(1, Some(3)), (3, Some(4))];
    assert pairs[1..][1..] == [];
    assert Padding(1, Option<int>.None) == [None];
  }
}
