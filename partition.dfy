/**
 * Stable partition of a sequence into numbered buckets, the specification
 * both versions of `groupIssuesByColor` are proved against, with its
 * membership, stability and permutation properties.
 */
module Partition {

  /** The elements of `s` whose bucket under `f` is `b`, in their order in `s`. */
  function Select<T>(s: seq<T>, f: T --> nat, b: nat): (r: seq<T>)
    requires forall x | x in s :: f.requires(x)
    ensures |r| <= |s|
  {
    if s == [] then []
    else Select(s[..|s| - 1], f, b) + (if f(s[|s| - 1]) == b then [s[|s| - 1]] else [])
  }

  /** Selecting from one more element of `s`. */
  lemma SelectNext<T>(s: seq<T>, f: T --> nat, n: nat, b: nat)
    requires n < |s| && forall x | x in s :: f.requires(x)
    ensures Select(s[..n + 1], f, b) == Select(s[..n], f, b) + (if f(s[n]) == b then [s[n]] else [])
  {
    assert s[..n + 1][..n] == s[..n];
  }

  /** The `n` buckets of `s` under `f`, bucket `b` at index `b`. */
  function Buckets<T>(s: seq<T>, f: T --> nat, n: nat): (bs: seq<seq<T>>)
    requires forall x | x in s :: f.requires(x)
    ensures |bs| == n
  {
    seq(n, b requires 0 <= b < n => Select(s, f, b))
  }

  /** The buckets read one after another. */
  function Concat<T>(bs: seq<seq<T>>): seq<T> {
    if bs == [] then [] else Concat(bs[..|bs| - 1]) + bs[|bs| - 1]
  }

  /** `g` applied to every element, in order. */
  function Apply<T, U>(s: seq<T>, g: T --> U): (r: seq<U>)
    requires forall x | x in s :: g.requires(x)
    ensures |r| == |s| && forall k | 0 <= k < |s| :: r[k] == g(s[k])
  {
    if s == [] then [] else Apply(s[..|s| - 1], g) + [g(s[|s| - 1])]
  }

  /**
   * Converting every element and then selecting a bucket gives the
   * converted bucket, when each element's bucket is that of its conversion.
   */
  lemma {:induction false} SelectApply<T, U>(s: seq<T>, g: T --> U, h: T --> nat, f: U --> nat, b: nat)
    requires forall x | x in s :: g.requires(x) && h.requires(x) && f.requires(g(x)) && f(g(x)) == h(x)
    ensures forall y | y in Apply(s, g) :: f.requires(y)
    ensures forall x | x in Select(s, h, b) :: g.requires(x)
    ensures Select(Apply(s, g), f, b) == Apply(Select(s, h, b), g)
  {
    var t := Apply(s, g);
    forall y | y in t ensures f.requires(y) {
      var k :| 0 <= k < |s| && t[k] == y;
    }
    SelectMembers(s, h, b);
    if s != [] {
      var init, x := s[..|s| - 1], s[|s| - 1];
      assert forall y | y in init :: y in s;
      SelectApply(init, g, h, f, b);
      assert t[..|s| - 1] == Apply(init, g);
      var q := Select(init, h, b);
      SelectMembers(init, h, b);
      if h(x) == b {
        assert (q + [x])[..|q|] == q;
      } else {
        assert q + [] == q;
      }
    }
  }

  /** `a` can be obtained from `s` by deleting elements: `a` keeps the relative order of `s`. */
  ghost predicate IsSubsequence<T>(a: seq<T>, s: seq<T>) {
    || a == []
    || (&& s != []
        && ((a[|a| - 1] == s[|s| - 1] && IsSubsequence(a[..|a| - 1], s[..|s| - 1]))
            || IsSubsequence(a, s[..|s| - 1])))
  }

  /** Bucket `b` holds exactly the elements of `s` that `f` sends to `b`. */
  lemma {:induction false} SelectMembers<T>(s: seq<T>, f: T --> nat, b: nat)
    requires forall x | x in s :: f.requires(x)
    ensures forall x :: x in Select(s, f, b) <==> x in s && f(x) == b
  {
    if s != [] {
      var t := s[..|s| - 1];
      assert s == t + [s[|s| - 1]];
      SelectMembers(t, f, b);
    }
  }

  /** Each bucket keeps the input's relative order (stability). */
  lemma {:induction false} SelectStable<T>(s: seq<T>, f: T --> nat, b: nat)
    requires forall x | x in s :: f.requires(x)
    ensures IsSubsequence(Select(s, f, b), s)
  {
    if s != [] {
      var t := s[..|s| - 1];
      SelectStable(t, f, b);
      assert s[..|s| - 1] == t;
      if f(s[|s| - 1]) == b {
        assert Select(s, f, b)[..|Select(s, f, b)| - 1] == Select(t, f, b);
      } else {
        assert Select(s, f, b) == Select(t, f, b);
      }
    }
  }

  /** Two selections agree when their bucket tests agree on every element. */
  lemma {:induction false} SelectSame<T>(s: seq<T>, f: T --> nat, b: nat, g: T --> nat, c: nat)
    requires forall x | x in s :: f.requires(x) && g.requires(x)
    requires forall x | x in s :: f(x) == b <==> g(x) == c
    ensures Select(s, f, b) == Select(s, g, c)
  {
    if s != [] {
      SelectSame(s[..|s| - 1], f, b, g, c);
    }
  }

  /** Selecting from a sequence that starts with `x`. */
  lemma {:induction false} SelectCons<T>(x: T, t: seq<T>, f: T --> nat, b: nat)
    requires f.requires(x) && forall y | y in t :: f.requires(y)
    ensures Select([x] + t, f, b) == (if f(x) == b then [x] else []) + Select(t, f, b)
  {
    var s := [x] + t;
    if t != [] {
      var t' := t[..|t| - 1];
      assert s[..|s| - 1] == [x] + t';
      SelectCons(x, t', f, b);
    }
  }

  lemma {:induction false} ConcatAppend<T>(a: seq<seq<T>>, c: seq<seq<T>>)
    ensures Concat(a + c) == Concat(a) + Concat(c)
  {
    if c != [] {
      var c' := c[..|c| - 1];
      assert (a + c)[..|a + c| - 1] == a + c';
      ConcatAppend(a, c');
    } else {
      assert a + c == a;
    }
  }

  /** Two sequences with different heads commute only when one of them is empty. */
  lemma SwapIff<T>(a: seq<T>, b: seq<T>)
    requires a != [] && b != [] ==> a[0] != b[0]
    ensures a + b == b + a <==> a == [] || b == []
  {
    if a != [] && b != [] {
      assert (a + b)[0] == a[0] && (b + a)[0] == b[0];
    } else if a == [] {
      assert a + b == b == b + a;
    } else {
      assert a + b == a == b + a;
    }
  }

  /** The buckets up to b, then bucket b. */
  lemma ConcatNext<T>(bs: seq<seq<T>>, b: nat)
    requires b < |bs|
    ensures Concat(bs[..b + 1]) == Concat(bs[..b]) + bs[b]
  {
    assert bs[..b + 1][..b] == bs[..b];
  }

  /** The buckets read up to element j of bucket b, then the rest. */
  lemma ConcatSplit<T>(bs: seq<seq<T>>, b: nat, j: nat)
    requires b < |bs| && j < |bs[b]|
    ensures Concat(bs) == ((Concat(bs[..b]) + bs[b][..j]) + [bs[b][j]]) + (bs[b][j + 1..] + Concat(bs[b + 1..]))
  {
    ConcatAppend(bs[..b + 1], bs[b + 1..]);
    assert bs[..b + 1] + bs[b + 1..] == bs;
    ConcatNext(bs, b);
    var u, y, w := bs[b][..j], bs[b][j], bs[b][j + 1..];
    assert bs[b] == u + [y] + w;
    Regroup(Concat(bs[..b]), u, [y], w, Concat(bs[b + 1..]));
  }

  /** Concatenation regrouped. */
  lemma Regroup<T>(a: seq<T>, b: seq<T>, c: seq<T>, d: seq<T>, e: seq<T>)
    ensures a + (b + c + d) + e == ((a + b) + c) + (d + e)
  {
  }

  /** Appending `x` to bucket `k` adds one `x` to the whole. */
  lemma {:induction false} ConcatGrowBucket<T>(bs: seq<seq<T>>, k: nat, x: T)
    requires k < |bs|
    ensures multiset(Concat(bs[k := bs[k] + [x]])) == multiset(Concat(bs)) + multiset{x}
  {
    var bs' := bs[k := bs[k] + [x]];
    var n := |bs| - 1;
    assert Concat(bs) == Concat(bs[..n]) + bs[n];
    assert Concat(bs') == Concat(bs'[..n]) + bs'[n];
    if k == n {
      assert bs'[..n] == bs[..n];
      assert bs'[n] == bs[n] + [x];
    } else {
      assert bs'[..n] == bs[..n][k := bs[k] + [x]];
      assert bs'[n] == bs[n];
      ConcatGrowBucket(bs[..n], k, x);
    }
  }

  /**
   * The buckets together are a permutation of the input: nothing dropped,
   * nothing duplicated, as long as every element has a bucket below `n`.
   */
  lemma {:induction false} BucketsPermutation<T>(s: seq<T>, f: T --> nat, n: nat)
    requires forall x | x in s :: f.requires(x) && f(x) < n
    ensures multiset(Concat(Buckets(s, f, n))) == multiset(s)
    ensures |Concat(Buckets(s, f, n))| == |s|
  {
    if s == [] {
      var bs := Buckets(s, f, n);
      assert forall b | 0 <= b < n :: bs[b] == [];
      EmptyBuckets(bs);
    } else {
      var t := s[..|s| - 1];
      var x := s[|s| - 1];
      assert s == t + [x];
      BucketsPermutation(t, f, n);
      var bt := Buckets(t, f, n);
      assert s[..|s| - 1] == t;
      assert Buckets(s, f, n) == bt[f(x) := bt[f(x)] + [x]] by {
        forall b | 0 <= b < n ensures Buckets(s, f, n)[b] == bt[f(x) := bt[f(x)] + [x]][b] {
          assert Select(s, f, b) == Select(t, f, b) + (if f(x) == b then [x] else []);
        }
      }
      ConcatGrowBucket(bt, f(x), x);
    }
    assert |multiset(Concat(Buckets(s, f, n)))| == |Concat(Buckets(s, f, n))|;
  }

  lemma {:induction false} EmptyBuckets<T>(bs: seq<seq<T>>)
    requires forall b | 0 <= b < |bs| :: bs[b] == []
    ensures Concat(bs) == []
  {
    if bs != [] {
      EmptyBuckets(bs[..|bs| - 1]);
    }
  }

  lemma Concat4<T>(bs: seq<seq<T>>)
    requires |bs| == 4
    ensures Concat(bs) == bs[0] + bs[1] + bs[2] + bs[3]
  {
    assert bs[..3][..2] == bs[..2];
    assert bs[..2][..1] == bs[..1];
    assert bs[..1][..0] == [];
    assert Concat(bs[..1]) == bs[0];
    assert Concat(bs[..2]) == bs[0] + bs[1];
    assert Concat(bs[..3]) == bs[0] + bs[1] + bs[2];
  }
}
