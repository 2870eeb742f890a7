/** Order-preserving de-duplication (`if x not in seen: seen.add(x); out.append(x)`)
    and truncation (`xs[:n]`), the two list shapings the extractors end with. */
module Lists {
  import opened Wrappers

  /** No two elements share a key. */
  predicate DistinctKeys<T, K(==)>(xs: seq<T>, key: T -> K) {
    forall i, j :: 0 <= i < j < |xs| ==> key(xs[i]) != key(xs[j])
  }

  function KeysOf<T, K(==)>(xs: seq<T>, key: T -> K): (r: set<K>)
    ensures forall x :: x in xs ==> key(x) in r
    ensures forall k :: k in r ==> exists x :: x in xs && key(x) == k
  {
    if xs == [] then {} else {key(xs[0])} + KeysOf(xs[1..], key)
  }

  /** Keep the first element of every key not already in `seen`, in order. */
  function DedupeFrom<T, K(==)>(xs: seq<T>, key: T -> K, seen: set<K>): (r: seq<T>)
    ensures forall y :: y in r ==> y in xs && key(y) !in seen
    ensures |xs| > 0 && key(xs[0]) !in seen ==> |r| > 0 && r[0] == xs[0]
    ensures |r| <= |xs|
  {
    if xs == [] then []
    else if key(xs[0]) in seen then DedupeFrom(xs[1..], key, seen)
    else [xs[0]] + DedupeFrom(xs[1..], key, seen + {key(xs[0])})
  }

  /** The kept elements have distinct keys. */
  lemma {:induction false} DedupeDistinct<T, K>(xs: seq<T>, key: T -> K, seen: set<K>)
    ensures DistinctKeys(DedupeFrom(xs, key, seen), key)
    decreases |xs|
  {
    if xs != [] {
      if key(xs[0]) in seen {
        DedupeDistinct(xs[1..], key, seen);
      } else {
        var t := DedupeFrom(xs[1..], key, seen + {key(xs[0])});
        DedupeDistinct(xs[1..], key, seen + {key(xs[0])});
        var r := [xs[0]] + t;
        forall i, j | 0 <= i < j < |r| ensures key(r[i]) != key(r[j]) {
          if i == 0 {
            assert r[j] in t;
          } else {
            assert r[i] == t[i - 1] && r[j] == t[j - 1];
          }
        }
      }
    }
  }

  /** Every key not already seen is represented among the kept elements. */
  lemma {:induction false} DedupeComplete<T, K>(xs: seq<T>, key: T -> K, seen: set<K>, x: T)
    requires x in xs && key(x) !in seen
    ensures exists y :: y in DedupeFrom(xs, key, seen) && key(y) == key(x)
    decreases |xs|
  {
    if key(xs[0]) == key(x) {
      assert xs[0] in DedupeFrom(xs, key, seen);
    } else {
      assert x in xs[1..];
      if key(xs[0]) in seen {
        DedupeComplete(xs[1..], key, seen, x);
      } else {
        DedupeComplete(xs[1..], key, seen + {key(xs[0])}, x);
        var y :| y in DedupeFrom(xs[1..], key, seen + {key(xs[0])}) && key(y) == key(x);
        assert y in DedupeFrom(xs, key, seen);
      }
    }
  }

  /** Index `j` holds the first element of its key. */
  predicate FirstOfKey<T, K(==)>(xs: seq<T>, key: T -> K, j: nat)
    requires j < |xs|
  {
    forall j2 :: 0 <= j2 < j ==> key(xs[j2]) != key(xs[j])
  }

  /** The indices from `j` on that hold the first element of their key,
      ascending. */
  function FirstsFrom<T, K(==)>(xs: seq<T>, key: T -> K, j: nat): (r: seq<nat>)
    ensures forall i :: 0 <= i < |r| ==> j <= r[i] < |xs| && FirstOfKey(xs, key, r[i])
    ensures forall i, i2 :: 0 <= i < i2 < |r| ==> r[i] < r[i2]
    ensures forall j2 :: j <= j2 < |xs| && FirstOfKey(xs, key, j2) ==> j2 in r
    decreases |xs| - j
  {
    if j >= |xs| then []
    else (if FirstOfKey(xs, key, j) then [j] else []) + FirstsFrom(xs, key, j + 1)
  }

  /** The elements of `xs` at the indices `idx`, in that order. */
  function At<T>(xs: seq<T>, idx: seq<nat>): (r: seq<T>)
    requires forall i :: 0 <= i < |idx| ==> idx[i] < |xs|
    ensures |r| == |idx| && forall i :: 0 <= i < |idx| ==> r[i] == xs[idx[i]]
  {
    seq(|idx|, i requires 0 <= i < |idx| => xs[idx[i]])
  }

  /** Past the first `j` elements, the elements kept are those that come
      first for their key in the whole sequence. */
  lemma {:induction false} DedupeKeepsFirsts<T, K>(xs: seq<T>, key: T -> K, j: nat)
    requires j <= |xs|
    ensures DedupeFrom(xs[j..], key, KeysOf(xs[..j], key)) == At(xs, FirstsFrom(xs, key, j))
    decreases |xs| - j
  {
    if j < |xs| {
      DedupeKeepsFirsts(xs, key, j + 1);
      var seen := KeysOf(xs[..j], key);
      var rest := FirstsFrom(xs, key, j + 1);
      SeenIffNotFirst(xs, key, j);
      SeenGrows(xs, key, j);
      assert xs[j..][0] == xs[j] && xs[j..][1..] == xs[j + 1..];
      if FirstOfKey(xs, key, j) {
        assert FirstsFrom(xs, key, j) == [j] + rest;
        AtCons(xs, j, rest);
      } else {
        assert seen + {key(xs[j])} == seen;
        assert FirstsFrom(xs, key, j) == rest;
      }
    }
  }

  lemma AtCons<T>(xs: seq<T>, j: nat, rest: seq<nat>)
    requires j < |xs| && forall i :: 0 <= i < |rest| ==> rest[i] < |xs|
    ensures At(xs, [j] + rest) == [xs[j]] + At(xs, rest)
  {
  }

  /** The key of element `j` was seen before it exactly when `j` does not
      hold the first element of its key. */
  lemma SeenIffNotFirst<T, K>(xs: seq<T>, key: T -> K, j: nat)
    requires j < |xs|
    ensures key(xs[j]) in KeysOf(xs[..j], key) <==> !FirstOfKey(xs, key, j)
  {
    var k := key(xs[j]);
    if k in KeysOf(xs[..j], key) {
      var x :| x in xs[..j] && key(x) == k;
      var j2 :| 0 <= j2 < j && xs[..j][j2] == x;
      assert key(xs[j2]) == key(xs[j]);
    } else {
      forall j2 | 0 <= j2 < j ensures key(xs[j2]) != key(xs[j]) {
        assert xs[j2] in xs[..j];
      }
    }
  }

  lemma SeenGrows<T, K>(xs: seq<T>, key: T -> K, j: nat)
    requires j < |xs|
    ensures KeysOf(xs[..j + 1], key) == KeysOf(xs[..j], key) + {key(xs[j])}
  {
    assert xs[..j + 1] == xs[..j] + [xs[j]];
    KeysOfAppend(xs[..j], [xs[j]], key);
    assert KeysOf([xs[j]], key) == {key(xs[j])} by {
      assert [xs[j]][1..] == [];
    }
  }

  lemma {:induction false} KeysOfAppend<T, K>(xs: seq<T>, ys: seq<T>, key: T -> K)
    ensures KeysOf(xs + ys, key) == KeysOf(xs, key) + KeysOf(ys, key)
    decreases |xs|
  {
    if xs == [] {
      assert xs + ys == ys;
    } else {
      assert (xs + ys)[1..] == xs[1..] + ys;
      KeysOfAppend(xs[1..], ys, key);
    }
  }

  /** `Dedupe` keeps exactly the first element of every key, in input order. */
  function Dedupe<T, K(==)>(xs: seq<T>, key: T -> K): (r: seq<T>)
    ensures r == At(xs, FirstsFrom(xs, key, 0))
    ensures forall y :: y in r ==> y in xs
    ensures DistinctKeys(r, key)
    ensures forall x :: x in xs ==> exists y :: y in r && key(y) == key(x)
    ensures |xs| > 0 ==> |r| > 0 && r[0] == xs[0]
  {
    DedupeDistinct(xs, key, {});
    forall x | x in xs ensures exists y :: y in DedupeFrom(xs, key, {}) && key(y) == key(x) {
      DedupeComplete(xs, key, {}, x);
    }
    DedupeKeepsFirsts(xs, key, 0);
    assert xs[0..] == xs && xs[..0] == [];
    DedupeFrom(xs, key, {})
  }

  /** De-duplicating a concatenation de-duplicates the first part, then the
      second part against the keys of the first: everything kept from `xs`
      precedes everything kept from `ys`. */
  lemma {:induction false} DedupeAppend<T, K>(xs: seq<T>, ys: seq<T>, key: T -> K, seen: set<K>)
    ensures DedupeFrom(xs + ys, key, seen)
      == DedupeFrom(xs, key, seen) + DedupeFrom(ys, key, seen + KeysOf(xs, key))
    decreases |xs|
  {
    if xs == [] {
      assert xs + ys == ys;
      assert seen + KeysOf(xs, key) == seen;
    } else {
      assert (xs + ys)[0] == xs[0];
      assert (xs + ys)[1..] == xs[1..] + ys;
      var k := key(xs[0]);
      assert KeysOf(xs, key) == {k} + KeysOf(xs[1..], key);
      if k in seen {
        DedupeAppend(xs[1..], ys, key, seen);
        assert seen + KeysOf(xs, key) == seen + KeysOf(xs[1..], key);
      } else {
        DedupeAppend(xs[1..], ys, key, seen + {k});
        assert seen + {k} + KeysOf(xs[1..], key) == seen + KeysOf(xs, key);
      }
    }
  }

  /** `xs[:n]`. */
  function Take<T>(xs: seq<T>, n: nat): (r: seq<T>)
    ensures |r| <= n && |r| <= |xs|
    ensures |xs| <= n ==> r == xs
    ensures forall i :: 0 <= i < |r| ==> r[i] == xs[i]
  {
    if |xs| <= n then xs else xs[..n]
  }

  lemma TakeKeepsDistinct<T, K>(xs: seq<T>, n: nat, key: T -> K)
    requires DistinctKeys(xs, key)
    ensures DistinctKeys(Take(xs, n), key)
  {
  }

  /** An element at two positions is counted at least twice. */
  lemma {:induction false} TwiceCounted<T>(xs: seq<T>, a: nat, b: nat)
    requires a < b < |xs| && xs[a] == xs[b]
    ensures multiset(xs)[xs[a]] >= 2
  {
    var x := xs[a];
    assert xs == xs[..b] + xs[b..];
    assert xs[..b][a] == x;
    assert x in multiset(xs[..b]);
    assert xs[b..][0] == x;
    assert x in multiset(xs[b..]);
    assert multiset(xs) == multiset(xs[..b]) + multiset(xs[b..]);
  }

  /** The first index from `k` on whose element satisfies `p`: a `for` loop
      that returns at the first hit. */
  function FirstIndex<T>(xs: seq<T>, p: T -> bool, k: nat): (r: Option<nat>)
    requires k <= |xs|
    ensures r.Some? ==> (k <= r.value < |xs| && p(xs[r.value])
      && forall k2 :: k <= k2 < r.value ==> !p(xs[k2]))
    ensures r.None? ==> forall k2 :: k <= k2 < |xs| ==> !p(xs[k2])
    decreases |xs| - k
  {
    if k == |xs| then None
    else if p(xs[k]) then Some(k)
    else FirstIndex(xs, p, k + 1)
  }

  /** Behind a first element that fails `p`, the elements before the
      `k`-th of the rest all fail `p` too. */
  lemma FirstShift<T>(xs: seq<T>, p: T -> bool, k: nat)
    requires xs != [] && !p(xs[0]) && k < |xs| - 1
    requires forall k2 :: 0 <= k2 < k ==> !p(xs[1..][k2])
    ensures forall k2 :: 0 <= k2 < k + 1 ==> !p(xs[k2])
    ensures xs[k + 1] == xs[1..][k]
  {
    forall k2 | 0 <= k2 < k + 1 ensures !p(xs[k2]) {
      if k2 > 0 { assert xs[k2] == xs[1..][k2 - 1]; }
    }
  }

  /** Behind a first element that fails `p`, some element satisfies `p` iff
      some element of the rest does. */
  lemma AnyShift<T>(xs: seq<T>, p: T -> bool)
    requires xs != [] && !p(xs[0])
    ensures (exists k :: 0 <= k < |xs| && p(xs[k])) <==> (exists k :: 0 <= k < |xs[1..]| && p(xs[1..][k]))
  {
    if exists k :: 0 <= k < |xs| && p(xs[k]) {
      var k :| 0 <= k < |xs| && p(xs[k]);
      assert xs[1..][k - 1] == xs[k];
    }
    if exists k :: 0 <= k < |xs[1..]| && p(xs[1..][k]) {
      var k :| 0 <= k < |xs[1..]| && p(xs[1..][k]);
      assert xs[k + 1] == xs[1..][k];
    }
  }

  /** `[f(x) for x in xs if f(x) is not None]`: the present results, in order. */
  function Choose<T(!new), U(!new)>(xs: seq<T>, f: T -> Option<U>): (r: seq<U>)
    ensures |r| <= |xs|
    ensures forall y :: y in r <==> exists x :: x in xs && f(x) == Some(y)
  {
    if xs == [] then []
    else
      var t := Choose(xs[1..], f);
      assert forall x :: x in xs <==> x == xs[0] || x in xs[1..];
      match f(xs[0])
      case Some(y) => [y] + t
      case None => t
  }

  /** Choosing keeps the order of the input: choosing from a concatenation
      concatenates the choices. */
  lemma {:induction false} ChooseAppend<T(!new), U(!new)>(xs: seq<T>, ys: seq<T>, f: T -> Option<U>)
    ensures Choose(xs + ys, f) == Choose(xs, f) + Choose(ys, f)
    decreases |xs|
  {
    if xs == [] {
      assert xs + ys == ys;
    } else {
      assert (xs + ys)[0] == xs[0];
      assert (xs + ys)[1..] == xs[1..] + ys;
      ChooseAppend(xs[1..], ys, f);
    }
  }

  /** When every element gives a result, there is one result per element, in order. */
  lemma {:induction false} ChooseAll<T(!new), U(!new)>(xs: seq<T>, f: T -> Option<U>)
    requires forall k :: 0 <= k < |xs| ==> f(xs[k]).Some?
    ensures |Choose(xs, f)| == |xs|
    ensures forall k :: 0 <= k < |xs| ==> Choose(xs, f)[k] == f(xs[k]).value
  {
    if xs != [] {
      ChooseAll(xs[1..], f);
    }
  }
}
