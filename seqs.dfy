/** Array helpers the source takes from JavaScript: `Array.prototype.filter` and `Math.max`. */
module Seqs {

  /** `s.filter(keep)`: the elements of `s` that satisfy `keep`, in their original order. */
  function Filter<T>(s: seq<T>, keep: T -> bool): (r: seq<T>)
    ensures |r| <= |s|
    ensures forall i :: 0 <= i < |r| ==> r[i] in s && keep(r[i])
    ensures forall i :: 0 <= i < |s| && keep(s[i]) ==> s[i] in r
    ensures (forall i :: 0 <= i < |s| ==> keep(s[i])) ==> r == s
  {
    if s == [] then []
    else if keep(s[0]) then [s[0]] + Filter(s[1..], keep)
    else Filter(s[1..], keep)
  }

  /** Filtering distributes over concatenation: together with the one-element case
      this fixes the order of the result, not only its members. */
  lemma {:induction false} FilterConcat<T>(a: seq<T>, b: seq<T>, keep: T -> bool)
    ensures Filter(a + b, keep) == Filter(a, keep) + Filter(b, keep)
  {
    if a == [] {
      assert a + b == b;
    } else {
      assert (a + b)[1..] == a[1..] + b;
      FilterConcat(a[1..], b, keep);
    }
  }

  /** Filtering drops exactly the elements `keep` rejects: the result is shorter
      than the input precisely when some element is rejected. */
  lemma {:induction false} FilterShrinks<T>(s: seq<T>, keep: T -> bool)
    ensures |Filter(s, keep)| < |s| <==> exists i :: 0 <= i < |s| && !keep(s[i])
  {
    if s != [] {
      FilterShrinks(s[1..], keep);
      if !keep(s[0]) {
        assert !keep(s[0]);
      } else if exists i :: 0 <= i < |s[1..]| && !keep(s[1..][i]) {
        var i :| 0 <= i < |s[1..]| && !keep(s[1..][i]);
        assert !keep(s[i + 1]);
      } else {
        forall i | 0 <= i < |s| ensures keep(s[i]) {
          if i > 0 { assert s[i] == s[1..][i - 1]; }
        }
      }
    }
  }

  /** A relation that holds between every earlier and later element of `s`
      still holds after filtering (filtering keeps the relative order). */
  lemma {:induction false} FilterPairwise<T>(s: seq<T>, keep: T -> bool, rel: (T, T) -> bool)
    requires forall i, j :: 0 <= i < j < |s| ==> rel(s[i], s[j])
    ensures forall i, j :: 0 <= i < j < |Filter(s, keep)| ==> rel(Filter(s, keep)[i], Filter(s, keep)[j])
  {
    if s != [] {
      var t := Filter(s[1..], keep);
      FilterPairwise(s[1..], keep, rel);
      if keep(s[0]) {
        forall j | 0 <= j < |t| ensures rel(s[0], t[j]) {
          assert t[j] in s[1..];
          var k :| 0 <= k < |s[1..]| && s[1..][k] == t[j];
          assert s[k + 1] == t[j];
        }
        PairwiseCons(s[0], t, rel);
      }
    }
  }

  /** Putting in front an element related to every later one keeps a sequence
      pairwise related. */
  lemma PairwiseCons<T>(x: T, t: seq<T>, rel: (T, T) -> bool)
    requires forall i, j :: 0 <= i < j < |t| ==> rel(t[i], t[j])
    requires forall j :: 0 <= j < |t| ==> rel(x, t[j])
    ensures forall i, j :: 0 <= i < j < |[x] + t| ==> rel(([x] + t)[i], ([x] + t)[j])
  {
    var r := [x] + t;
    forall i, j | 0 <= i < j < |r| ensures rel(r[i], r[j]) {
      assert r[j] == t[j - 1];
      if i > 0 { assert r[i] == t[i - 1]; }
    }
  }

  /** `Math.max(...xs, 0)` for ids that are natural numbers. */
  function MaxOf(xs: seq<nat>): (m: nat)
    ensures forall i :: 0 <= i < |xs| ==> xs[i] <= m
    ensures m == 0 || m in xs
  {
    if xs == [] then 0
    else
      var rest := MaxOf(xs[1..]);
      if xs[0] > rest then xs[0] else rest
  }

  /** No value occurs at two positions. */
  predicate Distinct<T(==)>(xs: seq<T>) {
    forall i, j :: 0 <= i < j < |xs| ==> xs[i] != xs[j]
  }
}
