/**
 * Order-preserving selection from a sequence: `Filter` keeps the elements a
 * predicate accepts, as a Python list comprehension with an `if` does.
 */
module Seqs {

  function Filter<T>(xs: seq<T>, keep: T -> bool): (r: seq<T>)
    ensures |r| <= |xs|
  {
    if xs == [] then []
    else Filter(xs[..|xs| - 1], keep) + (if keep(xs[|xs| - 1]) then [xs[|xs| - 1]] else [])
  }

  /** The filter keeps exactly the elements the predicate accepts. */
  lemma {:induction false} FilterMembers<T>(xs: seq<T>, keep: T -> bool, x: T)
    ensures x in Filter(xs, keep) <==> x in xs && keep(x)
    decreases |xs|
  {
    if xs != [] {
      var init := xs[..|xs| - 1];
      FilterMembers(init, keep, x);
      assert xs == init + [xs[|xs| - 1]];
    }
  }

  /** A filter that accepts every element changes nothing. */
  lemma {:induction false} FilterAll<T>(xs: seq<T>, keep: T -> bool)
    requires forall i :: 0 <= i < |xs| ==> keep(xs[i])
    ensures Filter(xs, keep) == xs
    decreases |xs|
  {
    if xs != [] {
      var init := xs[..|xs| - 1];
      FilterAll(init, keep);
      assert xs == init + [xs[|xs| - 1]];
    }
  }

  /** Nothing is filtered out exactly when the predicate accepts every element. */
  lemma {:induction false} FilterLength<T>(xs: seq<T>, keep: T -> bool)
    ensures |Filter(xs, keep)| == |xs| <==> forall i :: 0 <= i < |xs| ==> keep(xs[i])
    decreases |xs|
  {
    if xs != [] {
      var init := xs[..|xs| - 1];
      FilterLength(init, keep);
      assert forall i :: 0 <= i < |init| ==> init[i] == xs[i];
    }
  }

  /** The positions of `xs` whose elements `keep` accepts, in increasing order. */
  function FilterIndices<T>(xs: seq<T>, keep: T -> bool): (r: seq<nat>)
    ensures forall k :: 0 <= k < |r| ==> r[k] < |xs|
  {
    if xs == [] then []
    else FilterIndices(xs[..|xs| - 1], keep) + (if keep(xs[|xs| - 1]) then [|xs| - 1] else [])
  }

  /** `r` lists the elements of `xs` at the strictly increasing positions `idx`. */
  ghost predicate PickedAt<T>(r: seq<T>, xs: seq<T>, idx: seq<nat>)
  {
    && |idx| == |r|
    && (forall k :: 0 <= k < |idx| ==> idx[k] < |xs| && r[k] == xs[idx[k]])
    && (forall k, l :: 0 <= k < l < |idx| ==> idx[k] < idx[l])
  }

  /**
   * `r` is the subsequence of `xs` made of exactly the elements `keep`
   * accepts, in their original order.
   */
  ghost predicate SelectedInOrder<T>(r: seq<T>, xs: seq<T>, keep: T -> bool)
  {
    exists idx :: PickedAt(r, xs, idx) && forall i :: 0 <= i < |xs| ==> (keep(xs[i]) <==> i in idx)
  }

  /** The accepted positions come in increasing order, one per kept element. */
  lemma {:induction false} FilterIndicesSorted<T>(xs: seq<T>, keep: T -> bool)
    ensures |FilterIndices(xs, keep)| == |Filter(xs, keep)|
    ensures var idx := FilterIndices(xs, keep); forall k, l :: 0 <= k < l < |idx| ==> idx[k] < idx[l]
    decreases |xs|
  {
    if xs != [] {
      FilterIndicesSorted(xs[..|xs| - 1], keep);
    }
  }

  /** The `k`-th kept element is the element at the `k`-th accepted position. */
  lemma {:induction false} FilterAt<T>(xs: seq<T>, keep: T -> bool)
    ensures |FilterIndices(xs, keep)| == |Filter(xs, keep)|
    ensures var idx := FilterIndices(xs, keep);
      forall k :: 0 <= k < |idx| ==> Filter(xs, keep)[k] == xs[idx[k]]
    decreases |xs|
  {
    FilterIndicesSorted(xs, keep);
    if xs != [] {
      var init := xs[..|xs| - 1];
      FilterAt(init, keep);
      var idx0 := FilterIndices(init, keep);
      forall k | 0 <= k < |idx0| ensures Filter(xs, keep)[k] == xs[FilterIndices(xs, keep)[k]] {
        assert init[idx0[k]] == xs[idx0[k]];
      }
    }
  }

  /** A position is accepted exactly when `keep` accepts its element. */
  lemma {:induction false} FilterIndicesMembers<T>(xs: seq<T>, keep: T -> bool)
    ensures forall i :: 0 <= i < |xs| ==> (keep(xs[i]) <==> i in FilterIndices(xs, keep))
    decreases |xs|
  {
    if xs != [] {
      var n := |xs| - 1;
      var init := xs[..n];
      FilterIndicesMembers(init, keep);
      var idx0 := FilterIndices(init, keep);
      forall i | 0 <= i < |xs| ensures keep(xs[i]) <==> i in FilterIndices(xs, keep) {
        if i < n {
          assert init[i] == xs[i];
        } else {
          assert n !in idx0;
        }
      }
    }
  }

  /** The filter picks its elements at the accepted positions, in order. */
  lemma FilterPicked<T>(xs: seq<T>, keep: T -> bool)
    ensures PickedAt(Filter(xs, keep), xs, FilterIndices(xs, keep))
    ensures forall i :: 0 <= i < |xs| ==> (keep(xs[i]) <==> i in FilterIndices(xs, keep))
  {
    FilterIndicesSorted(xs, keep);
    FilterAt(xs, keep);
    FilterIndicesMembers(xs, keep);
  }

  /** The filter keeps exactly the accepted elements, in their original order. */
  lemma FilterInOrder<T>(xs: seq<T>, keep: T -> bool)
    ensures SelectedInOrder(Filter(xs, keep), xs, keep)
  {
    FilterPicked(xs, keep);
  }

  /** Filtering distributes over concatenation. */
  lemma {:induction false} FilterAppend<T>(a: seq<T>, b: seq<T>, keep: T -> bool)
    ensures Filter(a + b, keep) == Filter(a, keep) + Filter(b, keep)
    decreases |b|
  {
    if b != [] {
      var init := b[..|b| - 1];
      assert (a + b)[..|a + b| - 1] == a + init;
      FilterAppend(a, init, keep);
    } else {
      assert a + b == a;
    }
  }

  /** What is filtered out of a prefix is a prefix of what is filtered out of the whole. */
  lemma FilterPrefix<T>(xs: seq<T>, j: nat, keep: T -> bool)
    requires j <= |xs|
    ensures Filter(xs[..j], keep) <= Filter(xs, keep)
  {
    assert xs == xs[..j] + xs[j..];
    FilterAppend(xs[..j], xs[j..], keep);
  }

  /** Extending the scanned prefix by one element extends the filtered prefix by at most that element. */
  lemma FilterStep<T>(xs: seq<T>, j: nat, keep: T -> bool)
    requires j < |xs|
    ensures Filter(xs[..j + 1], keep) == Filter(xs[..j], keep) + (if keep(xs[j]) then [xs[j]] else [])
  {
    assert xs[..j + 1][..j] == xs[..j];
  }
}
