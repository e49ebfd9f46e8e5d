/**
 * The few Kotlin standard-library operations the two core files rely on,
 * stated as functions on values: `String.replace(oldValue, newValue)`,
 * `Iterable.filterNotNull()` and `Iterable.flatMap(transform)`.
 */
module KotlinStdlib {
  import opened Wrappers

  /** `pat` occurs in `s` starting at index `i`. */
  predicate OccursAt(s: string, pat: string, i: nat) {
    i + |pat| <= |s| && s[i..i + |pat|] == pat
  }

  /** `pat in s` (Kotlin's `CharSequence.contains`). */
  predicate Contains(s: string, pat: string) {
    exists i: nat | i <= |s| :: OccursAt(s, pat, i)
  }

  /**
   * `s.replace(oldValue, newValue)` for a non-empty `oldValue`: scans left to
   * right and replaces every non-overlapping occurrence, resuming the scan
   * just after each replaced occurrence.
   */
  function Replace(s: string, oldValue: string, newValue: string): (r: string)
    requires oldValue != []
    ensures |newValue| <= |oldValue| ==> |r| <= |s|
    ensures |newValue| == |oldValue| ==> |r| == |s|
    decreases |s|
  {
    if |s| < |oldValue| then s
    else if s[..|oldValue|] == oldValue then newValue + Replace(s[|oldValue|..], oldValue, newValue)
    else [s[0]] + Replace(s[1..], oldValue, newValue)
  }

  /** A string with no occurrence of `oldValue` comes back unchanged. */
  lemma {:induction false} ReplaceWithoutOccurrence(s: string, oldValue: string, newValue: string)
    requires oldValue != []
    requires !Contains(s, oldValue)
    ensures Replace(s, oldValue, newValue) == s
    decreases |s|
  {
    if |s| >= |oldValue| {
      assert !OccursAt(s, oldValue, 0);
      assert !Contains(s[1..], oldValue) by {
        forall i: nat | OccursAt(s[1..], oldValue, i) ensures false {
          assert s[1..][i..i + |oldValue|] == s[i + 1..i + 1 + |oldValue|];
          assert OccursAt(s, oldValue, i + 1);
        }
      }
      ReplaceWithoutOccurrence(s[1..], oldValue, newValue);
    }
  }

  /** `xs.filterNotNull()`: the present values, in their original order, duplicates kept. */
  function FilterNotNull<T>(xs: seq<Option<T>>): (r: seq<T>)
    ensures |r| <= |xs|
    ensures forall k :: 0 <= k < |r| ==> Some(r[k]) in xs
  {
    if xs == [] then []
    else ToSeq(xs[0]) + FilterNotNull(xs[1..])
  }

  /** The positions of `xs` that hold a present value. */
  ghost function PresentIndices<T>(xs: seq<Option<T>>): set<nat>
  {
    set i: nat | i < |xs| && xs[i].Some?
  }

  /** `filterNotNull` distributes over concatenation, so relative order is preserved. */
  lemma {:induction false} FilterNotNullAppend<T>(xs: seq<Option<T>>, ys: seq<Option<T>>)
    ensures FilterNotNull(xs + ys) == FilterNotNull(xs) + FilterNotNull(ys)
    decreases |xs|
  {
    if xs == [] {
      assert xs + ys == ys;
    } else {
      assert (xs + ys)[1..] == xs[1..] + ys;
      FilterNotNullAppend(xs[1..], ys);
    }
  }

  /** A value is kept exactly when it occurs present in the input. */
  lemma {:induction false} FilterNotNullMembership<T>(xs: seq<Option<T>>, y: T)
    ensures y in FilterNotNull(xs) <==> Some(y) in xs
    decreases |xs|
  {
    if xs != [] {
      FilterNotNullMembership(xs[1..], y);
      assert xs == [xs[0]] + xs[1..];
    }
  }

  /** One output element per present input position: nothing is merged or invented. */
  lemma {:induction false} FilterNotNullLength<T>(xs: seq<Option<T>>)
    ensures |FilterNotNull(xs)| == |PresentIndices(xs)|
    decreases |xs|
  {
    if xs == [] {
      assert PresentIndices(xs) == {};
    } else {
      var n := |xs| - 1;
      var init := xs[..n];
      assert xs == init + [xs[n]];
      FilterNotNullAppend(init, [xs[n]]);
      assert [xs[n]][1..] == [];
      FilterNotNullLength(init);
      if xs[n].Some? {
        assert PresentIndices(xs) == PresentIndices(init) + {n};
        assert n !in PresentIndices(init);
      } else {
        assert PresentIndices(xs) == PresentIndices(init);
      }
    }
  }

  /** `xs.flatMap(f)`: the lists `f(x)` concatenated in the order of `xs`. */
  function FlatMap<T, U>(xs: seq<T>, f: T -> seq<U>): (r: seq<U>)
    ensures forall j, u :: 0 <= j < |xs| && u in f(xs[j]) ==> u in r
  {
    if xs == [] then [] else f(xs[0]) + FlatMap(xs[1..], f)
  }

  /** `flatMap` distributes over concatenation of its input. */
  lemma {:induction false} FlatMapAppend<T, U>(xs: seq<T>, ys: seq<T>, f: T -> seq<U>)
    ensures FlatMap(xs + ys, f) == FlatMap(xs, f) + FlatMap(ys, f)
    decreases |xs|
  {
    if xs == [] {
      assert xs + ys == ys;
    } else {
      assert (xs + ys)[1..] == xs[1..] + ys;
      FlatMapAppend(xs[1..], ys, f);
    }
  }

  /** An element of the result comes from the image of some input element, and every such element is kept. */
  lemma {:induction false} FlatMapMembership<T, U>(xs: seq<T>, f: T -> seq<U>, u: U)
    ensures u in FlatMap(xs, f) <==> exists j :: 0 <= j < |xs| && u in f(xs[j])
    decreases |xs|
  {
    if xs != [] {
      FlatMapMembership(xs[1..], f, u);
      if u in f(xs[0]) {
        assert 0 < |xs| && u in f(xs[0]);
      }
      if exists j :: 0 <= j < |xs| && u in f(xs[j]) {
        var j :| 0 <= j < |xs| && u in f(xs[j]);
        if j > 0 {
          assert xs[1..][j - 1] == xs[j];
        }
      }
      if exists j :: 0 <= j < |xs[1..]| && u in f(xs[1..][j]) {
        var j :| 0 <= j < |xs[1..]| && u in f(xs[1..][j]);
        assert xs[j + 1] == xs[1..][j];
      }
    }
  }
}
