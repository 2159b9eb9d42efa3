/** Order-preserving subsequences, the shape of every filtering step in the parser. */
module Seqs {
  import opened Wrappers

  /**
   The first `Some` among `ms[lo..hi]`, with its index: the shape of every
   "first line / first position where the pattern matches" search.
   */
  function FirstSome<T>(ms: seq<Option<T>>, lo: nat, hi: nat): (r: Option<(nat, T)>)
    requires hi <= |ms|
    ensures r.Some? ==> lo <= r.value.0 < hi && ms[r.value.0] == Some(r.value.1)
    ensures r.Some? ==> forall j | lo <= j < r.value.0 :: ms[j].None?
    ensures r.None? ==> forall j | lo <= j < hi :: ms[j].None?
    decreases hi - lo
  {
    if lo >= hi then None
    else
      match ms[lo]
      case Some(m) => Some((lo, m))
      case None => FirstSome(ms, lo + 1, hi)
  }

  /** The first index in `lo..hi` where `bs` holds. */
  function FirstTrue(bs: seq<bool>, lo: nat, hi: nat): (r: Option<nat>)
    requires hi <= |bs|
    ensures r.Some? ==> lo <= r.value < hi && bs[r.value]
    ensures r.Some? ==> forall j | lo <= j < r.value :: !bs[j]
    ensures r.None? ==> forall j | lo <= j < hi :: !bs[j]
    decreases hi - lo
  {
    if lo >= hi then None
    else if bs[lo] then Some(lo)
    else FirstTrue(bs, lo + 1, hi)
  }

  /**
   The values of the `Some`s of `ms`, in order: the shape of a loop that
   appends a result for some items and skips the others.
   */
  function Somes<T>(ms: seq<Option<T>>): (r: seq<T>)
    ensures |r| <= |ms|
    ensures forall k | 0 <= k < |ms| && ms[k].Some? :: ms[k].value in r
    ensures forall j | 0 <= j < |r| :: exists k | 0 <= k < |ms| :: ms[k] == Some(r[j])
    ensures (forall k | 0 <= k < |ms| :: ms[k].Some?) ==>
      |r| == |ms| && forall k | 0 <= k < |ms| :: ms[k] == Some(r[k])
    decreases |ms|
  {
    if |ms| == 0 then []
    else
      var rest := Somes(ms[1..]);
      assert forall k | 1 <= k < |ms| :: ms[k] == ms[1..][k - 1];
      match ms[0]
      case None => rest
      case Some(x) =>
        var r := [x] + rest;
        assert forall j | 1 <= j < |r| :: r[j] == rest[j - 1];
        r
  }

  /** The positions from `from` on where `ms` holds a `Some`, in increasing order. */
  function SomeIndices<T>(ms: seq<Option<T>>, from: nat): (idx: seq<nat>)
    requires from <= |ms|
    ensures forall j | 0 <= j < |idx| :: from <= idx[j] < |ms| && ms[idx[j]].Some?
    ensures forall i, j | 0 <= i < j < |idx| :: idx[i] < idx[j]
    ensures forall k | from <= k < |ms| && ms[k].Some? :: k in idx
    decreases |ms| - from
  {
    if from == |ms| then []
    else
      var rest := SomeIndices(ms, from + 1);
      if ms[from].Some? then
        var idx := [from] + rest;
        assert forall j | 1 <= j < |idx| :: idx[j] == rest[j - 1];
        idx
      else rest
  }

  /** `Somes` takes the values at exactly those positions, in order. */
  lemma {:induction false} SomesAtIndices<T>(ms: seq<Option<T>>, from: nat)
    requires from <= |ms|
    ensures var r, idx := Somes(ms[from..]), SomeIndices(ms, from);
      |r| == |idx| && forall j | 0 <= j < |idx| :: idx[j] < |ms| && ms[idx[j]] == Some(r[j])
    decreases |ms| - from
  {
    if from < |ms| {
      SomesAtIndices(ms, from + 1);
      var tail := ms[from..];
      assert tail[0] == ms[from] && tail[1..] == ms[from + 1..];
      var r, rest := Somes(tail), Somes(ms[from + 1..]);
      var idx, restIdx := SomeIndices(ms, from), SomeIndices(ms, from + 1);
      if ms[from].Some? {
        assert r == [ms[from].value] + rest;
        assert idx == [from] + restIdx;
        AlignedCons(ms, from, ms[from].value, rest, restIdx);
      } else {
        assert r == rest && idx == restIdx;
      }
    }
  }

  /** Putting a value and its position in front keeps values and positions aligned. */
  lemma AlignedCons<T>(ms: seq<Option<T>>, from: nat, v: T, rest: seq<T>, restIdx: seq<nat>)
    requires from < |ms| && ms[from] == Some(v)
    requires |rest| == |restIdx| && forall j | 0 <= j < |restIdx| :: restIdx[j] < |ms| && ms[restIdx[j]] == Some(rest[j])
    ensures var r, idx := [v] + rest, [from] + restIdx;
      |r| == |idx| && forall j | 0 <= j < |idx| :: ms[idx[j]] == Some(r[j])
  {
    var r, idx := [v] + rest, [from] + restIdx;
    forall j | 0 <= j < |idx| ensures ms[idx[j]] == Some(r[j]) {
      if j > 0 {
        assert idx[j] == restIdx[j - 1];
        assert r[j] == rest[j - 1];
      }
    }
  }

  /** `a` can be obtained from `b` by deleting elements, keeping the order of the rest. */
  predicate IsSubsequence<T(==)>(a: seq<T>, b: seq<T>)
    decreases |b|
  {
    if |a| == 0 then true
    else if |b| == 0 then false
    else if a[0] == b[0] then IsSubsequence(a[1..], b[1..])
    else IsSubsequence(a, b[1..])
  }

  lemma {:induction false} SubsequenceElements<T>(a: seq<T>, b: seq<T>)
    requires IsSubsequence(a, b)
    ensures |a| <= |b|
    ensures forall x | x in a :: x in b
    decreases |b|
  {
    if |a| > 0 {
      if a[0] == b[0] {
        SubsequenceElements(a[1..], b[1..]);
        assert a == [a[0]] + a[1..];
      } else {
        SubsequenceElements(a, b[1..]);
      }
    }
  }

  /** Keeping the first element on both sides preserves the relation. */
  lemma ConsSubsequence<T>(x: T, a: seq<T>, b: seq<T>)
    requires IsSubsequence(a, b)
    ensures IsSubsequence([x] + a, [x] + b)
  {
    assert ([x] + a)[1..] == a;
    assert ([x] + b)[1..] == b;
  }

  /** Dropping the first element of the larger sequence is allowed. */
  lemma {:induction false} SkipSubsequence<T>(x: T, a: seq<T>, b: seq<T>)
    requires IsSubsequence(a, b)
    ensures IsSubsequence(a, [x] + b)
    decreases |b|, 1
  {
    if |a| > 0 {
      assert ([x] + b)[1..] == b;
      if a[0] == x {
        if a[0] == b[0] {
          SkipSubsequence(b[0], a[1..], b[1..]);
          assert [b[0]] + b[1..] == b;
        } else {
          SubsequenceDropFirst(a, b);
        }
      }
    }
  }

  /** If `a` is a subsequence of `b`, so is `a` without its first element. */
  lemma {:induction false} SubsequenceDropFirst<T>(a: seq<T>, b: seq<T>)
    requires |a| > 0 && IsSubsequence(a, b)
    ensures IsSubsequence(a[1..], b)
    decreases |b|, 0
  {
    if a[0] == b[0] {
      SkipSubsequence(b[0], a[1..], b[1..]);
      assert [b[0]] + b[1..] == b;
    } else {
      SubsequenceDropFirst(a, b[1..]);
      SkipSubsequence(b[0], a[1..], b[1..]);
      assert [b[0]] + b[1..] == b;
    }
  }
}
