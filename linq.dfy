// The three LINQ sequence operators the pagination code relies on, over a
// materialised source: Skip, Take and the element-wise projection (Select /
// ProjectTo). Negative and oversized counts are clamped exactly as the
// standard query operators do.

module Linq {

  function Min(a: int, b: int): int { if a <= b then a else b }

  function Max(a: int, b: int): int { if a >= b then a else b }

  /** Drops the first k elements; k <= 0 drops nothing, k >= |s| drops all. */
  function Skip<T>(s: seq<T>, k: int): (r: seq<T>)
    ensures |r| == if k <= 0 then |s| else if k >= |s| then 0 else |s| - k
    ensures r == s[|s| - |r|..]
  {
    s[Min(Max(k, 0), |s|)..]
  }

  /** Keeps at most the first n elements; n <= 0 keeps nothing. */
  function Take<T>(s: seq<T>, n: int): (r: seq<T>)
    ensures |r| == if n <= 0 then 0 else if n >= |s| then |s| else n
    ensures r == s[..|r|]
  {
    s[..Min(Max(n, 0), |s|)]
  }

  /** Applies a projection to every element, keeping the order. */
  function Project<S, T>(s: seq<S>, f: S -> T): (r: seq<T>)
    ensures |r| == |s|
    ensures forall i :: 0 <= i < |s| ==> r[i] == f(s[i])
  {
    if s == [] then [] else [f(s[0])] + Project(s[1..], f)
  }

  /** Taking m and then the next n elements after skipping m is taking m + n. */
  lemma TakeThenNextWindow<T>(s: seq<T>, m: nat, n: nat)
    ensures Take(s, m) + Take(Skip(s, m), n) == Take(s, m + n)
  {
    if m >= |s| {
      assert Take(Skip(s, m), n) == [];
      assert Take(s, m) == s == Take(s, m + n);
    } else {
      var k := Min(m + n, |s|);
      assert Take(s, m) == s[..m];
      assert Take(Skip(s, m), n) == s[m..k];
      assert Take(s, m + n) == s[..k];
      assert s[..m] + s[m..k] == s[..k];
    }
  }

  /** A window cut from a projected sequence is the projection of the same window. */
  lemma {:induction false} ProjectCommutesWithWindow<S, T>(s: seq<S>, f: S -> T, k: int, n: int)
    ensures Take(Skip(Project(s, f), k), n) == Project(Take(Skip(s, k), n), f)
  {
    var w := Take(Skip(s, k), n);
    var lhs := Take(Skip(Project(s, f), k), n);
    var rhs := Project(w, f);
    assert |lhs| == |rhs|;
    forall i | 0 <= i < |lhs|
      ensures lhs[i] == rhs[i]
    {
      var off := |s| - |Skip(s, k)|;
      assert lhs[i] == Project(s, f)[off + i];
      assert w[i] == s[off + i];
    }
  }
}
