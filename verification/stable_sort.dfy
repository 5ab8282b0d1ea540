/**
  The stable sort behind Python's `list.sort(key=..., reverse=...)`, on string
  keys. Python keeps elements with equal keys in their original order even when
  `reverse` is true, so the descending order is not the ascending one reversed.
  The sort here is an insertion sort; its result is shown to be a permutation
  of the input, ordered by key, stable, and the only sequence with those three
  properties.
 */
module StableSort {
  import opened LexOrder

  /** `x` may stand before `y`: its key is not greater (ascending) or not
      smaller (descending) than the key of `y`. */
  predicate InOrder<T>(key: T -> string, descending: bool, x: T, y: T)
  {
    if descending then LexLe(key(y), key(x)) else LexLe(key(x), key(y))
  }

  /** Every element may stand before every later one. */
  predicate Sorted<T>(s: seq<T>, key: T -> string, descending: bool)
  {
    forall i, j :: 0 <= i < j < |s| ==> InOrder(key, descending, s[i], s[j])
  }

  /** `x` may stand before every element of `s`. */
  predicate Precedes<T>(key: T -> string, descending: bool, x: T, s: seq<T>)
  {
    forall j :: 0 <= j < |s| ==> InOrder(key, descending, x, s[j])
  }

  /** The elements of `s` whose key is `k`, in their order in `s`. */
  function WithKey<T>(s: seq<T>, key: T -> string, k: string): seq<T>
  {
    if |s| == 0 then []
    else (if key(s[0]) == k then [s[0]] else []) + WithKey(s[1..], key, k)
  }

  /** Elements with equal keys keep their relative order. */
  ghost predicate Stable<T>(input: seq<T>, output: seq<T>, key: T -> string)
  {
    forall k :: WithKey(output, key, k) == WithKey(input, key, k)
  }

  lemma InOrderTotal<T>(key: T -> string, descending: bool, x: T, y: T)
    ensures InOrder(key, descending, x, y) || InOrder(key, descending, y, x)
  {
    LexLeTotal(key(x), key(y));
  }

  lemma InOrderTransitive<T>(key: T -> string, descending: bool, x: T, y: T, z: T)
    requires InOrder(key, descending, x, y) && InOrder(key, descending, y, z)
    ensures InOrder(key, descending, x, z)
  {
    if descending {
      LexLeTransitive(key(z), key(y), key(x));
    } else {
      LexLeTransitive(key(x), key(y), key(z));
    }
  }

  lemma InOrderBothWays<T>(key: T -> string, descending: bool, x: T, y: T)
    requires InOrder(key, descending, x, y) && InOrder(key, descending, y, x)
    ensures key(x) == key(y)
  {
    LexLeAntisymmetric(key(x), key(y));
  }

  /** `x` passes over an element only when its key is strictly on the far side,
      so it lands before every element whose key equals its own. */
  function Insert<T>(x: T, s: seq<T>, key: T -> string, descending: bool): (r: seq<T>)
    ensures |r| == |s| + 1
    ensures multiset(r) == multiset(s) + multiset{x}
    decreases |s|
  {
    if |s| == 0 then [x]
    else if InOrder(key, descending, x, s[0]) then
      [x] + s
    else
      var rest := Insert(x, s[1..], key, descending);
      assert s == [s[0]] + s[1..];
      [s[0]] + rest
  }

  /** Inserting `x` puts it ahead of every element with the same key. */
  lemma {:induction false} InsertWithKey<T>(x: T, s: seq<T>, key: T -> string, descending: bool)
    ensures forall k :: WithKey(Insert(x, s, key, descending), key, k)
                        == (if key(x) == k then [x] else []) + WithKey(s, key, k)
    decreases |s|
  {
    if |s| == 0 {
      WithKeyCons(x, [], key);
    } else if InOrder(key, descending, x, s[0]) {
      WithKeyCons(x, s, key);
    } else {
      var rest := Insert(x, s[1..], key, descending);
      InsertWithKey(x, s[1..], key, descending);
      LexLeReflexive(key(x));
      WithKeyCons(s[0], rest, key);
      WithKeyCons(s[0], s[1..], key);
      assert s == [s[0]] + s[1..];
    }
  }

  lemma WithKeyCons<T>(y: T, t: seq<T>, key: T -> string)
    ensures forall k :: WithKey([y] + t, key, k) == (if key(y) == k then [y] else []) + WithKey(t, key, k)
  {
    assert ([y] + t)[1..] == t;
  }

  lemma {:induction false} InsertKeepsBound<T>(y: T, x: T, s: seq<T>, key: T -> string, descending: bool)
    requires Precedes(key, descending, y, s) && InOrder(key, descending, y, x)
    ensures Precedes(key, descending, y, Insert(x, s, key, descending))
    decreases |s|
  {
    if |s| > 0 && !InOrder(key, descending, x, s[0]) {
      InsertKeepsBound(y, x, s[1..], key, descending);
    }
  }

  lemma {:induction false} InsertKeepsSorted<T>(x: T, s: seq<T>, key: T -> string, descending: bool)
    requires Sorted(s, key, descending)
    ensures Sorted(Insert(x, s, key, descending), key, descending)
    decreases |s|
  {
    if |s| == 0 {
    } else if InOrder(key, descending, x, s[0]) {
      forall j | 1 <= j < |s| ensures InOrder(key, descending, x, s[j]) {
        InOrderTransitive(key, descending, x, s[0], s[j]);
      }
    } else {
      var rest := Insert(x, s[1..], key, descending);
      InsertKeepsSorted(x, s[1..], key, descending);
      InOrderTotal(key, descending, x, s[0]);
      InsertKeepsBound(s[0], x, s[1..], key, descending);
      assert Insert(x, s, key, descending) == [s[0]] + rest;
    }
  }

  /** Sorts `s` by `key`, ascending or descending, keeping equal keys in input order. */
  function InsertionSort<T>(s: seq<T>, key: T -> string, descending: bool): (r: seq<T>)
    ensures multiset(r) == multiset(s)
    ensures Sorted(r, key, descending)
    ensures Stable(s, r, key)
    decreases |s|
  {
    if |s| == 0 then []
    else
      var rest := InsertionSort(s[1..], key, descending);
      InsertKeepsSorted(s[0], rest, key, descending);
      InsertWithKey(s[0], rest, key, descending);
      WithKeyCons(s[0], s[1..], key);
      assert s == [s[0]] + s[1..];
      Insert(s[0], rest, key, descending)
  }

  lemma WithKeyOfHead<T>(s: seq<T>, key: T -> string)
    ensures |s| > 0 ==> WithKey(s, key, key(s[0])) != []
  {
  }

  /** An element of `s` with key `k`, when `WithKey` finds one. */
  lemma {:induction false} WithKeyWitness<T>(s: seq<T>, key: T -> string, k: string) returns (i: nat)
    requires WithKey(s, key, k) != []
    ensures i < |s| && key(s[i]) == k
    decreases |s|
  {
    if key(s[0]) == k {
      i := 0;
    } else {
      var j := WithKeyWitness(s[1..], key, k);
      i := j + 1;
    }
  }

  /** A sorted, stable permutation is unique: two sequences ordered by the same
      key that agree on the order within every key are equal. */
  lemma {:induction false} SortedStableUnique<T>(a: seq<T>, b: seq<T>, key: T -> string, descending: bool)
    requires Sorted(a, key, descending) && Sorted(b, key, descending)
    requires Stable(a, b, key)
    ensures a == b
    decreases |a|
  {
    if |a| == 0 && |b| > 0 {
      WithKeyOfHead(b, key);
      assert false;
    } else if |a| > 0 && |b| == 0 {
      WithKeyOfHead(a, key);
      assert false;
    } else if |a| == 0 {
    } else {
      var ka, kb := key(a[0]), key(b[0]);
      assert WithKey(b, key, ka) == WithKey(a, key, ka) != [];
      var j := WithKeyWitness(b, key, ka);
      assert WithKey(a, key, kb) == WithKey(b, key, kb) != [];
      var i := WithKeyWitness(a, key, kb);
      LexLeReflexive(ka);
      LexLeReflexive(kb);
      assert InOrder(key, descending, a[0], a[i]);
      assert InOrder(key, descending, b[0], b[j]);
      InOrderBothWays(key, descending, a[0], b[0]);
      assert a[0] == WithKey(a, key, ka)[0] == WithKey(b, key, ka)[0] == b[0];
      forall k ensures WithKey(b[1..], key, k) == WithKey(a[1..], key, k) {
        assert WithKey(a, key, k) == (if ka == k then [a[0]] else []) + WithKey(a[1..], key, k);
        assert WithKey(b, key, k) == (if ka == k then [a[0]] else []) + WithKey(b[1..], key, k);
        assert WithKey(b, key, k) == WithKey(a, key, k);
        var p := if ka == k then [a[0]] else [];
        assert WithKey(a[1..], key, k) == (p + WithKey(a[1..], key, k))[|p|..];
        assert WithKey(b[1..], key, k) == (p + WithKey(b[1..], key, k))[|p|..];
      }
      SortedStableUnique(a[1..], b[1..], key, descending);
      assert a == [a[0]] + a[1..] && b == [b[0]] + b[1..];
    }
  }
}
