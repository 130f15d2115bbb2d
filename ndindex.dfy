/** The multi-index enumeration of np.ndindex(*dims) and of
    itertools.product(range(n0), range(n1), ...): every multi-index of the box
    [0, dims[0]) x ... x [0, dims[d-1]) in row-major order (the last axis varies
    fastest). The source's block loops and its corner loop iterate over it. */
module NdIndex {

  /** The number of multi-indices in the box. */
  function Product(dims: seq<nat>): nat
  {
    if dims == [] then 1 else dims[0] * Product(dims[1..])
  }

  /** m is a multi-index of the box `dims`. */
  predicate InRange(m: seq<nat>, dims: seq<nat>)
  {
    |m| == |dims| && forall a :: 0 <= a < |m| ==> m[a] < dims[a]
  }

  /** No element occurs twice. */
  predicate NoDup<X(==)>(s: seq<X>)
  {
    forall t, u :: 0 <= t < u < |s| ==> s[t] != s[u]
  }

  /** Each multi-index of `inner`, with i put in front. */
  function Prepend(i: nat, inner: seq<seq<nat>>): (r: seq<seq<nat>>)
    ensures |r| == |inner|
    ensures forall t :: 0 <= t < |r| ==> r[t] == [i] + inner[t]
  {
    seq(|inner|, t requires 0 <= t < |inner| => [i] + inner[t])
  }

  /** The blocks 0, 1, ..., n-1 of the outermost axis, each followed by the
      whole enumeration of the inner axes. */
  function Layers(n: nat, inner: seq<seq<nat>>): seq<seq<nat>>
  {
    if n == 0 then [] else Layers(n - 1, inner) + Prepend(n - 1, inner)
  }

  /** Putting one index in front lengthens every multi-index by one. */
  lemma {:induction false} LayersWidth(n: nat, inner: seq<seq<nat>>, k: nat)
    requires forall t :: 0 <= t < |inner| ==> |inner[t]| == k
    ensures forall t :: 0 <= t < |Layers(n, inner)| ==> |Layers(n, inner)[t]| == k + 1
  {
    if n > 0 {
      LayersWidth(n - 1, inner, k);
    }
  }

  /** np.ndindex(*dims), as a sequence. */
  function Enumerate(dims: seq<nat>): (r: seq<seq<nat>>)
    ensures forall t :: 0 <= t < |r| ==> |r[t]| == |dims|
    decreases |dims|
  {
    if dims == [] then [[]]
    else
      LayersWidth(dims[0], Enumerate(dims[1..]), |dims| - 1);
      Layers(dims[0], Enumerate(dims[1..]))
  }

  lemma {:induction false} LayersMembers(n: nat, inner: seq<seq<nat>>, m: seq<nat>)
    ensures m in Layers(n, inner) <==> |m| > 0 && m[0] < n && m[1..] in inner
  {
    if n > 0 {
      LayersMembers(n - 1, inner, m);
      if |m| > 0 && m[0] == n - 1 && m[1..] in inner {
        var t :| 0 <= t < |inner| && inner[t] == m[1..];
        assert Prepend(n - 1, inner)[t] == m;
      }
    }
  }

  /** The enumeration holds exactly the multi-indices of the box. */
  lemma {:induction false} EnumerateMembers(dims: seq<nat>, m: seq<nat>)
    ensures m in Enumerate(dims) <==> InRange(m, dims)
    decreases |dims|
  {
    if dims == [] {
      assert m in Enumerate(dims) <==> m == [];
    } else {
      LayersMembers(dims[0], Enumerate(dims[1..]), m);
      if |m| > 0 {
        EnumerateMembers(dims[1..], m[1..]);
        assert InRange(m, dims) <==> m[0] < dims[0] && InRange(m[1..], dims[1..]) by {
          if InRange(m, dims) {
            assert forall a :: 0 <= a < |m| - 1 ==> m[1..][a] == m[a + 1];
          }
          if m[0] < dims[0] && InRange(m[1..], dims[1..]) {
            forall a | 0 <= a < |m|
              ensures m[a] < dims[a]
            {
              if a > 0 {
                assert m[a] == m[1..][a - 1];
              }
            }
          }
        }
      }
    }
  }

  lemma NoDupConcat<X>(a: seq<X>, b: seq<X>)
    requires NoDup(a) && NoDup(b)
    requires forall x :: x in a ==> x !in b
    ensures NoDup(a + b)
  {
    forall t, u | 0 <= t < u < |a + b|
      ensures (a + b)[t] != (a + b)[u]
    {
      if u >= |a| && t < |a| {
        assert (a + b)[t] in a;
        assert (a + b)[u] in b;
      }
    }
  }

  lemma {:induction false} LayersNoDup(n: nat, inner: seq<seq<nat>>)
    requires NoDup(inner)
    ensures NoDup(Layers(n, inner))
  {
    if n > 0 {
      LayersNoDup(n - 1, inner);
      var p := Prepend(n - 1, inner);
      forall t, u | 0 <= t < u < |p|
        ensures p[t] != p[u]
      {
        assert p[t][1..] == inner[t] && p[u][1..] == inner[u];
      }
      forall x | x in Layers(n - 1, inner)
        ensures x !in p
      {
        LayersMembers(n - 1, inner, x);
      }
      NoDupConcat(Layers(n - 1, inner), p);
    }
  }

  /** The enumeration visits each multi-index at most once. */
  lemma {:induction false} EnumerateNoDup(dims: seq<nat>)
    ensures NoDup(Enumerate(dims))
    decreases |dims|
  {
    if dims != [] {
      EnumerateNoDup(dims[1..]);
      LayersNoDup(dims[0], Enumerate(dims[1..]));
    }
  }

  lemma {:induction false} LayersLength(n: nat, inner: seq<seq<nat>>)
    ensures |Layers(n, inner)| == n * |inner|
  {
    if n > 0 {
      LayersLength(n - 1, inner);
      assert (n - 1) * |inner| + |inner| == n * |inner|;
    }
  }

  /** The enumeration has one entry per multi-index of the box. */
  lemma {:induction false} EnumerateLength(dims: seq<nat>)
    ensures |Enumerate(dims)| == Product(dims)
    decreases |dims|
  {
    if dims != [] {
      EnumerateLength(dims[1..]);
      LayersLength(dims[0], Enumerate(dims[1..]));
    }
  }

  /** Enumerate(dims) visits every multi-index of the box exactly once: m is
      in the box iff it is at some position, and two positions that hold the
      same multi-index are the same position. */
  lemma EnumerateExactlyOnce(dims: seq<nat>, m: seq<nat>)
    ensures InRange(m, dims) <==> exists t :: 0 <= t < |Enumerate(dims)| && Enumerate(dims)[t] == m
    ensures forall t, u ::
      (0 <= t < |Enumerate(dims)| && 0 <= u < |Enumerate(dims)| &&
       Enumerate(dims)[t] == m && Enumerate(dims)[u] == m) ==> t == u
  {
    EnumerateMembers(dims, m);
    EnumerateNoDup(dims);
  }

  /** list.index: the first position of x in s, the only one when s has no
      repeats. */
  function IndexOf<X(==)>(s: seq<X>, x: X): (t: nat)
    requires x in s
    ensures t < |s| && s[t] == x
    ensures forall u :: 0 <= u < t ==> s[u] != x
    ensures NoDup(s) ==> forall u :: 0 <= u < |s| && s[u] == x ==> u == t
  {
    if s[0] == x then 0 else 1 + IndexOf(s[1..], x)
  }

  /** Every entry of the enumeration is a multi-index of the box. */
  lemma EnumerateInRange(dims: seq<nat>)
    ensures forall t :: 0 <= t < |Enumerate(dims)| ==> InRange(Enumerate(dims)[t], dims)
  {
    forall t | 0 <= t < |Enumerate(dims)|
      ensures InRange(Enumerate(dims)[t], dims)
    {
      EnumerateMembers(dims, Enumerate(dims)[t]);
    }
  }
}
