/** Index permutations of a batch: the argsort that `torch.sort(...)[1]`
    returns, the inverse permutation, and the fact that gathering a batch by a
    permutation and then by its inverse restores the original order. */
module Permutations {
  import opened Tensors

  predicate Distinct(p: seq<nat>) {
    forall i, j :: 0 <= i < j < |p| ==> p[i] != p[j]
  }

  /** `p` lists each of 0 .. |p|-1 exactly once. */
  predicate IsPermutation(p: seq<nat>) {
    InRange(p, |p|) && Distinct(p)
  }

  /** The set {0, ..., n-1}. */
  function RangeSet(n: nat): (r: set<nat>)
    ensures forall v: nat :: v in r <==> v < n
  {
    if n == 0 then {} else RangeSet(n - 1) + {n - 1}
  }

  function Image(p: seq<nat>): set<nat> {
    set i | 0 <= i < |p| :: p[i]
  }

  lemma {:induction false} RangeSetCard(n: nat)
    ensures |RangeSet(n)| == n
  {
    if n > 0 {
      RangeSetCard(n - 1);
      assert RangeSet(n) == RangeSet(n - 1) + {n - 1};
    }
  }

  lemma {:induction false} ImageCard(p: seq<nat>)
    requires Distinct(p)
    ensures |Image(p)| == |p|
  {
    if |p| > 0 {
      var q := p[..|p| - 1];
      assert Distinct(q);
      ImageCard(q);
      assert Image(p) == Image(q) + {p[|p| - 1]};
      assert p[|p| - 1] !in Image(q);
    }
  }

  /** A permutation hits every index: `n` distinct values below `n` are all of them. */
  lemma PermutationSurjective(p: seq<nat>)
    requires IsPermutation(p)
    ensures forall v: nat :: v < |p| ==> v in p
  {
    var n := |p|;
    RangeSetCard(n);
    ImageCard(p);
    var missing := RangeSet(n) - Image(p);
    assert RangeSet(n) == missing + Image(p);
    assert missing * Image(p) == {};
    assert missing == {};
    forall v: nat | v < n
      ensures v in p
    {
      assert v in RangeSet(n);
      assert v in Image(p);
    }
  }

  /** The position of the first occurrence of `v` in `p`. */
  function IndexOf(p: seq<nat>, v: nat): (i: nat)
    requires v in p
    ensures i < |p| && p[i] == v
  {
    if p[0] == v then 0 else 1 + IndexOf(p[1..], v)
  }

  /** The inverse permutation: `Inverse(p)[v]` is the position at which `p` holds `v`. */
  function Inverse(p: seq<nat>): (q: seq<nat>)
    requires IsPermutation(p)
    ensures |q| == |p| && InRange(q, |p|)
    ensures forall v :: 0 <= v < |p| ==> p[q[v]] == v
  {
    PermutationSurjective(p);
    seq(|p|, v requires 0 <= v < |p| => IndexOf(p, v))
  }

  /** The inverse is a two-sided inverse and is itself a permutation. */
  lemma InverseIsTwoSided(p: seq<nat>)
    requires IsPermutation(p)
    ensures forall i :: 0 <= i < |p| ==> Inverse(p)[p[i]] == i
    ensures IsPermutation(Inverse(p))
  {
    var q := Inverse(p);
    forall i | 0 <= i < |p|
      ensures q[p[i]] == i
    {
      assert p[q[p[i]]] == p[i];
    }
    forall a, b | 0 <= a < b < |q|
      ensures q[a] != q[b]
    {
      assert p[q[a]] == a && p[q[b]] == b;
    }
  }

  lemma InverseInvolution(p: seq<nat>)
    requires IsPermutation(p)
    ensures IsPermutation(Inverse(p)) && Inverse(Inverse(p)) == p
  {
    InverseIsTwoSided(p);
    var q := Inverse(p);
    var r := Inverse(q);
    forall i | 0 <= i < |p|
      ensures r[i] == p[i]
    {
      InverseIsTwoSided(q);
      assert q[r[i]] == i;
      assert q[p[i]] == i;
    }
  }

  /** Gathering by `p` and then by its inverse, or the other way round, restores `x`. */
  lemma GatherRoundTrip<T>(x: seq<T>, p: seq<nat>)
    requires IsPermutation(p) && |p| == |x|
    ensures Gather(Gather(x, p), Inverse(p)) == x
    ensures Gather(Gather(x, Inverse(p)), p) == x
  {
    InverseIsTwoSided(p);
  }

  /** The same round trip along the second (batch) dimension of a state tensor. */
  lemma GatherDim1RoundTrip<T>(t: seq<seq<T>>, p: seq<nat>)
    requires IsPermutation(p)
    requires forall k :: 0 <= k < |t| ==> |t[k]| == |p|
    ensures GatherDim1(GatherDim1(t, p), Inverse(p)) == t
  {
    forall k | 0 <= k < |t|
      ensures Gather(Gather(t[k], p), Inverse(p)) == t[k]
    {
      GatherRoundTrip(t[k], p);
    }
  }

  // ---------------------------------------------------------------------
  // Argsort

  /** `a` may stand before `b` in the requested order. */
  predicate Precedes(a: int, b: int, descending: bool) {
    if descending then a >= b else a <= b
  }

  predicate Ordered(s: seq<int>, descending: bool) {
    forall i, j :: 0 <= i < j < |s| ==> Precedes(s[i], s[j], descending)
  }

  /** Inserts index `i` into the index list `s`, after every entry whose key may precede `keys[i]`. */
  function Insert(keys: seq<int>, s: seq<nat>, i: nat, descending: bool): (r: seq<nat>)
    requires i < |keys| && InRange(s, |keys|)
    ensures |r| == |s| + 1 && InRange(r, |keys|)
    ensures forall x :: x in r <==> x in s || x == i
    decreases |s|
  {
    if s == [] then [i]
    else if Precedes(keys[s[0]], keys[i], descending) then [s[0]] + Insert(keys, s[1..], i, descending)
    else [i] + s
  }

  /** Argsort of the first `n` keys, by insertion. */
  function ArgsortPrefix(keys: seq<int>, n: nat, descending: bool): (r: seq<nat>)
    requires n <= |keys|
    ensures |r| == n && InRange(r, n)
  {
    if n == 0 then []
    else
      var s := ArgsortPrefix(keys, n - 1, descending);
      var r := Insert(keys, s, n - 1, descending);
      assert forall k :: 0 <= k < |r| ==> r[k] in r;
      r
  }

  /** `torch.sort(keys, descending = d)[1]`. The library leaves the order of equal
      keys unspecified; this model keeps them in index order. */
  function Argsort(keys: seq<int>, descending: bool): seq<nat> {
    ArgsortPrefix(keys, |keys|, descending)
  }

  lemma {:induction false} InsertDistinct(keys: seq<int>, s: seq<nat>, i: nat, descending: bool)
    requires i < |keys| && InRange(s, |keys|)
    requires Distinct(s) && i !in s
    ensures Distinct(Insert(keys, s, i, descending))
  {
    if s != [] && Precedes(keys[s[0]], keys[i], descending) {
      var t := Insert(keys, s[1..], i, descending);
      assert Distinct(s[1..]);
      InsertDistinct(keys, s[1..], i, descending);
      assert s[0] !in s[1..];
      assert s[0] !in t;
      var r := [s[0]] + t;
      forall a, b | 0 <= a < b < |r|
        ensures r[a] != r[b]
      {
        if a == 0 {
          assert r[b] == t[b - 1];
        }
      }
    }
  }

  lemma {:induction false} InsertOrdered(keys: seq<int>, s: seq<nat>, i: nat, descending: bool)
    requires i < |keys| && InRange(s, |keys|)
    requires Ordered(Gather(keys, s), descending)
    ensures Ordered(Gather(keys, Insert(keys, s, i, descending)), descending)
  {
    var r := Insert(keys, s, i, descending);
    var gs := Gather(keys, s);
    if s == [] {
    } else if Precedes(keys[s[0]], keys[i], descending) {
      var t := Insert(keys, s[1..], i, descending);
      assert Gather(keys, s[1..]) == gs[1..];
      InsertOrdered(keys, s[1..], i, descending);
      var gt := Gather(keys, t);
      forall x | x in t
        ensures Precedes(keys[s[0]], keys[x], descending)
      {
        if x != i {
          var j :| 0 <= j < |s[1..]| && s[1..][j] == x;
          assert gs[0] == keys[s[0]] && gs[j + 1] == keys[x];
        }
      }
      var gr := Gather(keys, r);
      forall a, b | 0 <= a < b < |gr|
        ensures Precedes(gr[a], gr[b], descending)
      {
        assert r[b] == t[b - 1] && r[b] in t;
        if a > 0 {
          assert gr[a] == gt[a - 1] && gr[b] == gt[b - 1];
        }
      }
    } else {
      var gr := Gather(keys, r);
      forall a, b | 0 <= a < b < |gr|
        ensures Precedes(gr[a], gr[b], descending)
      {
        if a == 0 {
          assert gr[b] == gs[b - 1] && gs[0] == keys[s[0]];
          assert Precedes(keys[s[0]], gs[b - 1], descending);
        } else {
          assert gr[a] == gs[a - 1] && gr[b] == gs[b - 1];
        }
      }
    }
  }

  lemma {:induction false} ArgsortPrefixSorts(keys: seq<int>, n: nat, descending: bool)
    requires n <= |keys|
    ensures IsPermutation(ArgsortPrefix(keys, n, descending))
    ensures Ordered(Gather(keys, ArgsortPrefix(keys, n, descending)), descending)
  {
    if n > 0 {
      var s := ArgsortPrefix(keys, n - 1, descending);
      ArgsortPrefixSorts(keys, n - 1, descending);
      assert n - 1 !in s;
      InsertDistinct(keys, s, n - 1, descending);
      InsertOrdered(keys, s, n - 1, descending);
    }
  }

  /** `torch.sort(keys, descending = d)[1]` is a permutation of the batch that
      puts the keys in the requested order. */
  lemma ArgsortSorts(keys: seq<int>, descending: bool)
    ensures IsPermutation(Argsort(keys, descending))
    ensures Ordered(Gather(keys, Argsort(keys, descending)), descending)
  {
    ArgsortPrefixSorts(keys, |keys|, descending);
  }

  /** A strictly increasing sequence of `n` naturals below `n` is 0, 1, ..., n-1. */
  lemma {:induction false} IncreasingAtLeastIndex(r: seq<nat>, i: nat)
    requires forall a, b :: 0 <= a < b < |r| ==> r[a] < r[b]
    requires i < |r|
    ensures r[i] >= i
  {
    if i > 0 {
      IncreasingAtLeastIndex(r, i - 1);
    }
  }

  lemma {:induction false} IncreasingAtMostIndex(r: seq<nat>, i: nat)
    requires forall a, b :: 0 <= a < b < |r| ==> r[a] < r[b]
    requires InRange(r, |r|) && i < |r|
    ensures r[i] <= i
    decreases |r| - i
  {
    if i < |r| - 1 {
      IncreasingAtMostIndex(r, i + 1);
    }
  }

  /** Any permutation `q` that sorts a permutation `p` ascending is the inverse of `p`:
      the ascending argsort of a permutation does not depend on how ties are broken,
      because a permutation has none. */
  lemma SortingPermutationIsInverse(p: seq<nat>, q: seq<nat>)
    requires IsPermutation(p) && IsPermutation(q) && |q| == |p|
    requires Ordered(Gather<int>(p, q), false)
    ensures q == Inverse(p)
  {
    var r := Gather(p, q);
    assert forall i :: 0 <= i < |r| ==> r[i] == Gather<int>(p, q)[i];
    assert InRange(r, |r|);
    forall a, b | 0 <= a < b < |r|
      ensures r[a] < r[b]
    {
      assert q[a] != q[b];
    }
    forall i | 0 <= i < |r|
      ensures r[i] == i
    {
      IncreasingAtLeastIndex(r, i);
      IncreasingAtMostIndex(r, i);
    }
    var inv := Inverse(p);
    forall v | 0 <= v < |p|
      ensures q[v] == inv[v]
    {
      assert r[v] == v;
      assert p[q[v]] == v == p[inv[v]];
    }
  }

  /** `torch.sort(p)[1]` of a permutation `p` is its inverse. */
  lemma ArgsortOfPermutationIsInverse(p: seq<nat>)
    requires IsPermutation(p)
    ensures Argsort(p, false) == Inverse(p)
  {
    ArgsortSorts(p, false);
    SortingPermutationIsInverse(p, Argsort(p, false));
  }
}
