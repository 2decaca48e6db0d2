/**
 * The register file of a program (src/registers.rs): a vector of values the
 * instructions write to, whose largest entry among the first `n_classes`
 * registers names the predicted class.
 *
 * Register values (`OrderedFloat<f32>`) are only compared and copied here, so
 * they are modelled as `real`.
 */
module RegisterSets {
  import opened Wrappers

  type Value = real

  /** Every entry of `s` is zero. */
  ghost predicate AllZero(s: seq<Value>)
  {
    forall i :: 0 <= i < |s| ==> s[i] == 0.0
  }

  /** `d` is the one index of `s` holding its maximum: every other entry is strictly smaller. */
  ghost predicate IsUniqueMax(s: seq<Value>, d: nat)
  {
    d < |s| && forall i :: 0 <= i < |s| && i != d ==> s[i] < s[d]
  }

  /** The indices below `n` whose value is `v`. */
  ghost function IndicesOf(s: seq<Value>, n: nat, v: Value): set<nat>
    requires n <= |s|
  {
    set i: nat | i < n && s[i] == v
  }

  /**
   * The greatest of a non-empty sequence of values, folded from the left as
   * `reduce(f32::max)` does; it is one of the entries and bounds them all.
   */
  function SeqMax(s: seq<Value>): (m: Value)
    requires |s| > 0
    ensures exists i :: 0 <= i < |s| && s[i] == m
    ensures forall i :: 0 <= i < |s| ==> s[i] <= m
  {
    if |s| == 1 then s[0]
    else
      var front := SeqMax(s[..|s| - 1]);
      assert forall i :: 0 <= i < |s| - 1 ==> s[..|s| - 1][i] == s[i];
      if front < s[|s| - 1] then s[|s| - 1] else front
  }

  /** A set of size one holding `d` is exactly `{d}`. */
  lemma Singleton(s: set<nat>, d: nat)
    requires d in s
    ensures |s| == 1 <==> s == {d}
  {
    if |s| == 1 {
      assert |s - {d}| == 0;
    }
  }

  /**
   * The decision `argmax` takes at the end: the set of indices at the
   * maximum `max` is `{d}` exactly when `d` is the unique maximiser.
   */
  lemma UniqueMaxByIndices(s: seq<Value>, n: nat, max: Value, d: nat)
    requires 1 <= n <= |s|
    requires (forall i :: 0 <= i < n ==> s[i] <= max) && (exists j :: 0 <= j < n && s[j] == max)
    ensures (d in IndicesOf(s, n, max) && |IndicesOf(s, n, max)| == 1) <==> IsUniqueMax(s[..n], d)
  {
    var indices := IndicesOf(s, n, max);
    if d in indices && |indices| == 1 {
      Singleton(indices, d);
      forall i | 0 <= i < n && i != d
        ensures s[..n][i] < s[..n][d]
      {
        assert i !in indices;
      }
    }
    if IsUniqueMax(s[..n], d) {
      assert d in indices;
      forall i | i in indices
        ensures i == d
      {
        assert s[i] == s[d];
      }
      assert indices == {d};
    }
  }

  class Registers {
    var values: seq<Value>

    /** `Registers::new`: `n` registers, all zero. */
    constructor (n: nat)
      ensures |values| == n && AllZero(values)
    {
      values := seq(n, _ => 0.0);
    }

    /** `Registers::from`: wraps the given values. */
    constructor From(values: seq<Value>)
      ensures this.values == values
    {
      this.values := values;
    }

    /** `reset`: zeroes every register, one index at a time, keeping the length. */
    method Reset()
      modifies this
      ensures |values| == |old(values)| && AllZero(values)
    {
      for index := 0 to |values|
        invariant |values| == |old(values)|
        invariant forall i :: 0 <= i < index ==> values[i] == 0.0
      {
        values := values[index := 0.0];
      }
    }

    function Len(): (n: nat)
      reads this
      ensures n == |values|
    {
      |values|
    }

    /** `update`: register `index` becomes `value`; indexing past the end panics. */
    method Update(index: nat, value: Value)
      requires index < |values|
      modifies this
      ensures |values| == |old(values)| && values[index] == value
      ensures forall i :: 0 <= i < |values| && i != index ==> values[i] == old(values)[i]
    {
      values := values[index := value];
    }

    /** `get_value_at_index`: the value at `index`; an index past the end panics. */
    function GetValueAtIndex(index: nat): (v: Value)
      reads this
      requires index < Len()
      ensures v == values[index]
    {
      values[index]
    }

    /**
     * `argmax`: groups the first `nClasses` indices by value, takes the
     * greatest value and answers `Some(desired)` only when `desired` is the
     * single index holding it. The `unwrap`s panic when `nClasses` is zero or
     * past the end.
     */
    method Argmax(nClasses: nat, desired: nat) returns (r: Option<nat>)
      requires 1 <= nClasses <= |values|
      ensures r.Some? <==> IsUniqueMax(values[..nClasses], desired)
      ensures r.Some? ==> r.value == desired
    {
      var lookup: map<Value, set<nat>> := map[];
      for index := 0 to nClasses
        invariant forall v :: v in lookup ==> lookup[v] == IndicesOf(values, index, v)
        invariant forall i :: 0 <= i < index ==> values[i] in lookup
        invariant forall v :: v in lookup ==> exists j :: 0 <= j < index && values[j] == v
      {
        var value := values[index];
        if value in lookup {
          lookup := lookup[value := lookup[value] + {index}];
        } else {
          lookup := lookup[value := {index}];
        }
      }
      var top := SeqMax(values[..nClasses]);
      assert top in lookup;
      forall k | k in lookup
        ensures k <= top
      {
        var j :| 0 <= j < nClasses && values[j] == k;
        assert values[..nClasses][j] == k;
      }
      var maxValue :| maxValue in lookup && forall k :: k in lookup ==> k <= maxValue;
      var indices := lookup[maxValue];
      UniqueMaxByIndices(values, nClasses, maxValue, desired);
      if desired in indices {
        if |indices| == 1 {
          return Some(desired);
        }
      }
      return None;
    }
  }
}
