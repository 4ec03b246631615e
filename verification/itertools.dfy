/** The parts of Python's `itertools` the tools use, and first-occurrence
    de-duplication (the key order of a Python dict built by insertion). */
module Itertools {

  /** `[(x, t) for t in s]`. */
  function Pairs<T>(x: T, s: seq<T>): (r: seq<(T, T)>)
    ensures |r| == |s|
    ensures forall k :: 0 <= k < |s| ==> r[k] == (x, s[k])
  {
    seq(|s|, k requires 0 <= k < |s| => (x, s[k]))
  }

  /** `itertools.combinations(s, 2)`: each pair of positions i < j, in order. */
  function Combinations<T>(s: seq<T>): seq<(T, T)>
  {
    if |s| == 0 then [] else Pairs(s[0], s[1..]) + Combinations(s[1..])
  }

  /** n choose 2 pairs. */
  lemma {:induction false} CombinationsLength<T>(s: seq<T>)
    ensures 2 * |Combinations(s)| == |s| * (|s| - 1)
  {
    if |s| > 0 {
      CombinationsLength(s[1..]);
      var n := |s|;
      assert 2 * |Combinations(s)| == 2 * (n - 1) + (n - 1) * (n - 2);
      assert 2 * (n - 1) + (n - 1) * (n - 2) == n * (n - 1);
    }
  }

  /** A pair is produced exactly when its parts stand at positions i < j. */
  lemma {:induction false} CombinationsMember<T>(s: seq<T>, a: T, b: T)
    ensures (a, b) in Combinations(s) <==>
            exists i, j :: 0 <= i < j < |s| && s[i] == a && s[j] == b
  {
    if |s| > 0 {
      CombinationsMember(s[1..], a, b);
      var rest := Combinations(s[1..]);
      if (a, b) in Combinations(s) {
        if (a, b) in Pairs(s[0], s[1..]) {
          var k :| 0 <= k < |s| - 1 && Pairs(s[0], s[1..])[k] == (a, b);
          assert s[0] == a && s[k + 1] == b;
        } else {
          assert (a, b) in rest;
          var i, j :| 0 <= i < j < |s| - 1 && s[1..][i] == a && s[1..][j] == b;
          assert s[i + 1] == a && s[j + 1] == b;
        }
      }
      if exists i, j :: 0 <= i < j < |s| && s[i] == a && s[j] == b {
        var i, j :| 0 <= i < j < |s| && s[i] == a && s[j] == b;
        if i == 0 {
          assert Pairs(s[0], s[1..])[j - 1] == (a, b);
        } else {
          assert s[1..][i - 1] == a && s[1..][j - 1] == b;
          assert (a, b) in rest;
        }
      }
    }
  }

  /** Each element of `s` looked up in `m`. */
  function Lookup<K, V>(s: seq<K>, m: map<K, V>): (r: seq<V>)
    requires forall k :: 0 <= k < |s| ==> s[k] in m
    ensures |r| == |s|
    ensures forall k :: 0 <= k < |s| ==> r[k] == m[s[k]]
  {
    seq(|s|, k requires 0 <= k < |s| => m[s[k]])
  }

  /** Pairing the looked-up values lines up with pairing the keys. */
  lemma {:induction false} CombinationsLookup<K, V>(s: seq<K>, m: map<K, V>)
    requires forall k :: 0 <= k < |s| ==> s[k] in m
    ensures |Combinations(Lookup(s, m))| == |Combinations(s)|
    ensures forall k :: 0 <= k < |Combinations(s)| ==>
              Combinations(s)[k].0 in m && Combinations(s)[k].1 in m &&
              Combinations(Lookup(s, m))[k] == (m[Combinations(s)[k].0], m[Combinations(s)[k].1])
  {
    if |s| > 0 {
      CombinationsLookup(s[1..], m);
      assert Lookup(s, m)[1..] == Lookup(s[1..], m);
      var n := |s| - 1;
      var c := Combinations(s);
      var cl := Combinations(Lookup(s, m));
      assert c == Pairs(s[0], s[1..]) + Combinations(s[1..]);
      assert cl == Pairs(m[s[0]], Lookup(s[1..], m)) + Combinations(Lookup(s[1..], m));
      forall k | 0 <= k < |c|
        ensures c[k].0 in m && c[k].1 in m && cl[k] == (m[c[k].0], m[c[k].1])
      {
        if k >= n {
          assert c[k] == Combinations(s[1..])[k - n];
          assert cl[k] == Combinations(Lookup(s[1..], m))[k - n];
        }
      }
    }
  }

  /** `itertools.combinations_with_replacement(s, 2)`: positions i <= j, in order. */
  function CombinationsWithReplacement<T>(s: seq<T>): seq<(T, T)>
  {
    if |s| == 0 then [] else Pairs(s[0], s) + CombinationsWithReplacement(s[1..])
  }

  lemma {:induction false} CombinationsWithReplacementLength<T>(s: seq<T>)
    ensures 2 * |CombinationsWithReplacement(s)| == |s| * (|s| + 1)
  {
    if |s| > 0 {
      CombinationsWithReplacementLength(s[1..]);
      var n := |s|;
      assert 2 * |CombinationsWithReplacement(s)| == 2 * n + (n - 1) * n;
    }
  }

  /** `itertools.product(s, t)`: every pair, the first component varying slowest. */
  function Product<T>(s: seq<T>, t: seq<T>): seq<(T, T)>
  {
    if |s| == 0 then [] else Pairs(s[0], t) + Product(s[1..], t)
  }

  lemma {:induction false} ProductLength<T>(s: seq<T>, t: seq<T>)
    ensures |Product(s, t)| == |s| * |t|
  {
    if |s| > 0 {
      ProductLength(s[1..], t);
      assert |Product(s, t)| == |t| + (|s| - 1) * |t|;
    }
  }

  /** A pair is produced exactly when its first part is in `s` and its second in `t`. */
  lemma {:induction false} ProductMember<T>(s: seq<T>, t: seq<T>, a: T, b: T)
    ensures (a, b) in Product(s, t) <==> a in s && b in t
  {
    if |s| > 0 {
      ProductMember(s[1..], t, a, b);
      assert s == [s[0]] + s[1..];
      if (a, b) in Pairs(s[0], t) {
        var k :| 0 <= k < |t| && Pairs(s[0], t)[k] == (a, b);
      }
      if a == s[0] && b in t {
        var k :| 0 <= k < |t| && t[k] == b;
        assert Pairs(s[0], t)[k] == (a, b);
      }
    }
  }

  /** Every pair starts with an element of `s`. */
  lemma {:induction false} CombinationsWithReplacementFirst<T>(s: seq<T>, a: T, b: T)
    requires (a, b) in CombinationsWithReplacement(s)
    ensures a in s
  {
    if (a, b) !in Pairs(s[0], s) {
      CombinationsWithReplacementFirst(s[1..], a, b);
    }
  }

  /** Over distinct elements no pair is produced twice. */
  lemma {:induction false} CombinationsWithReplacementDistinct<T>(s: seq<T>)
    requires Distinct(s)
    ensures Distinct(CombinationsWithReplacement(s))
  {
    if |s| > 0 {
      var head, rest := Pairs(s[0], s), CombinationsWithReplacement(s[1..]);
      CombinationsWithReplacementDistinct(s[1..]);
      var c := head + rest;
      forall i, j | 0 <= i < j < |c| ensures c[i] != c[j] {
        if j >= |s| && i < |s| {
          var p := rest[j - |s|];
          CombinationsWithReplacementFirst(s[1..], p.0, p.1);
          assert s[0] !in s[1..];
        } else if j >= |s| {
          assert c[i] == rest[i - |s|];
        }
      }
    }
  }

  /** `{k: [] for k in keys}`: one empty list per key. */
  function EmptyLists<K(!new), V>(keys: seq<K>): (m: map<K, seq<V>>)
    ensures forall x :: x in m <==> x in keys
    ensures forall x :: x in m ==> m[x] == []
  {
    map x | x in keys :: []
  }

  /** Python's `zip(a, b)`: pairs up to the end of the shorter sequence. */
  function Zip<A, B>(a: seq<A>, b: seq<B>): (r: seq<(A, B)>)
    ensures |r| == if |a| < |b| then |a| else |b|
    ensures forall k :: 0 <= k < |r| ==> r[k] == (a[k], b[k])
  {
    var n := if |a| < |b| then |a| else |b|;
    seq(n, k requires 0 <= k < n => (a[k], b[k]))
  }

  /** No element occurs twice. */
  predicate Distinct<T(==)>(s: seq<T>) {
    forall i, j :: 0 <= i < j < |s| ==> s[i] != s[j]
  }

  /** The elements of `s`, each once, in order of first occurrence: the key
      order of a Python dict filled from `s`. */
  function Unique<T(==,!new)>(s: seq<T>): (r: seq<T>)
    ensures forall x :: x in r <==> x in s
    ensures Distinct(r)
    ensures |r| <= |s|
  {
    if |s| == 0 then []
    else
      var u := Unique(s[..|s| - 1]);
      if s[|s| - 1] in u then u
      else
        u + [s[|s| - 1]]
  }

  /** One more element extends `Unique` only when it is new. */
  lemma UniqueSnoc<T(!new)>(s: seq<T>, x: T)
    ensures Unique(s + [x]) == if x in Unique(s) then Unique(s) else Unique(s) + [x]
  {
    assert (s + [x])[..|s|] == s;
  }

  /** A sequence without repetitions keeps its order under `Unique`. */
  lemma {:induction false} UniqueOfDistinct<T(!new)>(s: seq<T>)
    requires Distinct(s)
    ensures Unique(s) == s
  {
    if |s| > 0 {
      UniqueOfDistinct(s[..|s| - 1]);
      assert s[|s| - 1] !in s[..|s| - 1];
    }
  }
}
