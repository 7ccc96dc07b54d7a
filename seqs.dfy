/** Boolean-mask row selection (`df[mask]`): the rows for which the mask
    holds, in their original order. */
module Seqs {

  /** The elements of `s` that satisfy `keep`, in order. */
  function Filter<T>(keep: T -> bool, s: seq<T>): (r: seq<T>)
    ensures |r| <= |s|
    ensures forall k :: 0 <= k < |r| ==> keep(r[k])
    decreases |s|
  {
    if s == [] then []
    else
      var init := Filter(keep, s[..|s| - 1]);
      if keep(s[|s| - 1]) then init + [s[|s| - 1]] else init
  }

  /** The positions of `s` whose element satisfies `keep`, in increasing order. */
  function Positions<T>(keep: T -> bool, s: seq<T>): seq<nat>
    decreases |s|
  {
    if s == [] then []
    else Positions(keep, s[..|s| - 1]) + (if keep(s[|s| - 1]) then [|s| - 1] else [])
  }

  ghost predicate Increasing(idx: seq<nat>)
  {
    forall k, l :: 0 <= k < l < |idx| ==> idx[k] < idx[l]
  }

  /** `r` is the order-preserving subsequence of `s` picked out by `idx`, and
      `idx` lists exactly the positions whose element satisfies `keep`. */
  ghost predicate IsSelection<T>(keep: T -> bool, s: seq<T>, r: seq<T>, idx: seq<nat>)
  {
    && |idx| == |r|
    && Increasing(idx)
    && (forall k :: 0 <= k < |idx| ==> idx[k] < |s| && r[k] == s[idx[k]] && keep(s[idx[k]]))
    && (forall i :: 0 <= i < |s| && keep(s[i]) ==> i in idx)
  }

  /** Filtering keeps exactly the elements that satisfy `keep`, each once,
      in their original relative order. */
  lemma {:induction false} FilterSelects<T>(keep: T -> bool, s: seq<T>)
    ensures IsSelection(keep, s, Filter(keep, s), Positions(keep, s))
    decreases |s|
  {
    if s != [] {
      var n := |s| - 1;
      var init := s[..n];
      FilterSelects(keep, init);
      var r0, idx0 := Filter(keep, init), Positions(keep, init);
      var r, idx := Filter(keep, s), Positions(keep, s);
      assert r == r0 + (if keep(s[n]) then [s[n]] else []);
      assert idx == idx0 + (if keep(s[n]) then [n] else []);
      forall k | 0 <= k < |idx|
        ensures idx[k] < |s| && r[k] == s[idx[k]] && keep(s[idx[k]])
      {
        if k < |idx0| {
          assert idx[k] == idx0[k] && r[k] == r0[k];
          assert init[idx0[k]] == s[idx0[k]];
        }
      }
      forall k, l | 0 <= k < l < |idx|
        ensures idx[k] < idx[l]
      {
        if l < |idx0| {
          assert idx[k] == idx0[k] && idx[l] == idx0[l];
        } else {
          assert idx[k] == idx0[k] < n;
        }
      }
      forall i | 0 <= i < |s| && keep(s[i])
        ensures i in idx
      {
        if i < n {
          assert init[i] == s[i];
          assert i in idx0;
        }
      }
    }
  }

  /** Filtering a concatenation filters each part. */
  lemma {:induction false} FilterAppend<T>(keep: T -> bool, a: seq<T>, b: seq<T>)
    ensures Filter(keep, a + b) == Filter(keep, a) + Filter(keep, b)
    decreases |b|
  {
    if b == [] {
      assert a + b == a;
    } else {
      var n := |b| - 1;
      assert (a + b)[..|a + b| - 1] == a + b[..n];
      FilterAppend(keep, a, b[..n]);
    }
  }

  /** A sequence whose every element satisfies `keep` is its own filtering. */
  lemma {:induction false} FilterAll<T>(keep: T -> bool, s: seq<T>)
    requires forall k :: 0 <= k < |s| ==> keep(s[k])
    ensures Filter(keep, s) == s
    decreases |s|
  {
    if s != [] {
      FilterAll(keep, s[..|s| - 1]);
      assert s[..|s| - 1] + [s[|s| - 1]] == s;
    }
  }

  /** A sequence with no element satisfying `keep` filters to nothing. */
  lemma {:induction false} FilterNone<T>(keep: T -> bool, s: seq<T>)
    requires forall k :: 0 <= k < |s| ==> !keep(s[k])
    ensures Filter(keep, s) == []
    decreases |s|
  {
    if s != [] {
      FilterNone(keep, s[..|s| - 1]);
    }
  }

  /** Filtering twice is filtering once. */
  lemma FilterIdempotent<T>(keep: T -> bool, s: seq<T>)
    ensures Filter(keep, Filter(keep, s)) == Filter(keep, s)
  {
    FilterAll(keep, Filter(keep, s));
  }
}
