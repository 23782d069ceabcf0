/**
 * Stable sorting by an integer key, the behaviour of Python's `list.sort(key=...)`.
 *
 * Stability is stated through `WithKey`: for every key, the elements carrying
 * that key appear in the output in the same order as in the input. Together
 * with sortedness this pins the output down completely (`StableSortUnique`),
 * so the insertion sort below has the same result as any other stable sort.
 */
module StableSort {
  import opened Sequences

  /** Keys never decrease from left to right. */
  predicate SortedBy<T>(xs: seq<T>, key: T -> int) {
    forall i, j :: 0 <= i < j < |xs| ==> key(xs[i]) <= key(xs[j])
  }

  /** The test "has key `k`". */
  function KeyIs<T>(key: T -> int, k: int): T -> bool {
    x => key(x) == k
  }

  /** The elements of `xs` whose key is `k`, in their order in `xs`. */
  function WithKey<T>(xs: seq<T>, key: T -> int, k: int): seq<T> {
    Filter(xs, KeyIs(key, k))
  }

  /** `ys` holds, key by key, the elements of `xs` in their original order. */
  ghost predicate StablyRearranges<T>(ys: seq<T>, xs: seq<T>, key: T -> int) {
    forall k :: WithKey(ys, key, k) == WithKey(xs, key, k)
  }

  /**
   * Inserts `x` into a sorted sequence in front of every element whose key is
   * not smaller, so that `x` precedes the elements of equal key that came
   * after it in the input.
   */
  function Insert<T>(x: T, xs: seq<T>, key: T -> int): (r: seq<T>)
    requires SortedBy(xs, key)
    ensures SortedBy(r, key)
    ensures |r| == |xs| + 1
    ensures forall j :: 0 <= j < |r| ==> r[j] == x || r[j] in xs
  {
    if |xs| == 0 || key(x) <= key(xs[0]) then
      [x] + xs
    else
      [xs[0]] + Insert(x, xs[1..], key)
  }

  /** Insertion adds `x` and loses nothing. */
  lemma {:induction false} InsertPermutes<T>(x: T, xs: seq<T>, key: T -> int)
    requires SortedBy(xs, key)
    ensures multiset(Insert(x, xs, key)) == multiset(xs) + multiset{x}
  {
    if |xs| > 0 && key(x) > key(xs[0]) {
      InsertPermutes(x, xs[1..], key);
      assert xs == [xs[0]] + xs[1..];
    }
  }

  /** `x` lands after every element of smaller key and before all others. */
  lemma {:induction false} InsertWithKey<T>(x: T, xs: seq<T>, key: T -> int, k: int)
    requires SortedBy(xs, key)
    ensures WithKey(Insert(x, xs, key), key, k) == (if key(x) == k then [x] else []) + WithKey(xs, key, k)
  {
    if |xs| == 0 || key(x) <= key(xs[0]) {
      InsertInFrontWithKey(x, xs, key, k);
    } else {
      InsertWithKey(x, xs[1..], key, k);
      InsertBehind(x, xs, key);
      ConsWithKey(xs[0], Insert(x, xs[1..], key), xs[1..], x, key, k);
      assert xs == [xs[0]] + xs[1..];
    }
  }

  /** When `x` goes in front, it heads the elements of its own key. */
  lemma InsertInFrontWithKey<T>(x: T, xs: seq<T>, key: T -> int, k: int)
    requires SortedBy(xs, key)
    requires |xs| == 0 || key(x) <= key(xs[0])
    ensures WithKey(Insert(x, xs, key), key, k) == (if key(x) == k then [x] else []) + WithKey(xs, key, k)
  {
    assert Insert(x, xs, key) == [x] + xs;
    FilterSingleton(x, KeyIs(key, k));
    FilterAppend([x], xs, KeyIs(key, k));
  }

  /**
   * Putting an element of another key than `x` in front of two sequences
   * keeps them related: `rest` holds, among the elements of key `k`,
   * those of `tail`, preceded by `x` when `x` has that key.
   */
  lemma ConsWithKey<T>(h: T, rest: seq<T>, tail: seq<T>, x: T, key: T -> int, k: int)
    requires key(h) != key(x)
    requires WithKey(rest, key, k) == (if key(x) == k then [x] else []) + WithKey(tail, key, k)
    ensures WithKey([h] + rest, key, k) == (if key(x) == k then [x] else []) + WithKey([h] + tail, key, k)
  {
    var p := KeyIs(key, k);
    FilterSingleton(h, p);
    FilterAppend([h], rest, p);
    FilterAppend([h], tail, p);
    if key(x) == k {
      assert WithKey([h], key, k) == [];
    }
  }

  /** An element with a key no larger than the head's is inserted in front. */
  lemma InsertInFront<T>(x: T, xs: seq<T>, key: T -> int)
    requires SortedBy(xs, key)
    requires |xs| == 0 || key(x) <= key(xs[0])
    ensures Insert(x, xs, key) == [x] + xs
  {
  }

  /** An element with a larger key than the head is inserted behind it. */
  lemma InsertBehind<T>(x: T, xs: seq<T>, key: T -> int)
    requires SortedBy(xs, key)
    requires |xs| > 0 && key(xs[0]) < key(x)
    ensures Insert(x, xs, key) == [xs[0]] + Insert(x, xs[1..], key)
  {
  }

  /** Stable insertion sort by `key`. */
  function Sort<T>(xs: seq<T>, key: T -> int): (r: seq<T>)
    ensures SortedBy(r, key)
    ensures multiset(r) == multiset(xs)
    ensures |r| == |xs|
    ensures StablyRearranges(r, xs, key)
  {
    if |xs| == 0 then []
    else
      var sorted := Sort(xs[1..], key);
      var r := Insert(xs[0], sorted, key);
      InsertHeadPermutes(xs, sorted, key);
      InsertHeadStably(xs, sorted, key);
      r
  }

  /** Inserting the head into a permutation of the tail gives a permutation of the whole. */
  lemma InsertHeadPermutes<T>(xs: seq<T>, sorted: seq<T>, key: T -> int)
    requires |xs| > 0
    requires SortedBy(sorted, key)
    requires multiset(sorted) == multiset(xs[1..])
    ensures multiset(Insert(xs[0], sorted, key)) == multiset(xs)
  {
    InsertPermutes(xs[0], sorted, key);
    assert xs == [xs[0]] + xs[1..];
  }

  /** Inserting the head into a stable sort of the tail gives a stable rearrangement of the whole. */
  lemma InsertHeadStably<T>(xs: seq<T>, sorted: seq<T>, key: T -> int)
    requires |xs| > 0
    requires SortedBy(sorted, key)
    requires StablyRearranges(sorted, xs[1..], key)
    ensures StablyRearranges(Insert(xs[0], sorted, key), xs, key)
  {
    assert xs == [xs[0]] + xs[1..];
    forall k
      ensures WithKey(Insert(xs[0], sorted, key), key, k) == WithKey(xs, key, k)
    {
      InsertWithKey(xs[0], sorted, key, k);
      FilterAppend([xs[0]], xs[1..], KeyIs(key, k));
    }
  }

  /** The first element is among those carrying its own key. */
  lemma HeadHasItsKey<T>(xs: seq<T>, key: T -> int)
    ensures |xs| > 0 ==> xs[0] in WithKey(xs, key, key(xs[0]))
  {
    if |xs| > 0 {
      FilterMembership(xs, KeyIs(key, key(xs[0])), xs[0]);
    }
  }

  /** Two sorted sequences holding, key by key, the same elements in the same order are equal. */
  lemma {:induction false} StableSortUnique<T>(ys: seq<T>, zs: seq<T>, key: T -> int)
    requires SortedBy(ys, key) && SortedBy(zs, key)
    requires StablyRearranges(ys, zs, key)
    ensures ys == zs
  {
    HeadHasItsKey(ys, key);
    HeadHasItsKey(zs, key);
    if |ys| > 0 && |zs| > 0 {
      var m := key(ys[0]);
      var m' := key(zs[0]);
      assert WithKey(ys, key, m') == WithKey(zs, key, m');
      assert WithKey(ys, key, m) == WithKey(zs, key, m);
      FilterMembership(ys, KeyIs(key, m'), zs[0]);
      FilterMembership(zs, KeyIs(key, m), ys[0]);
      assert m == m';
      assert ys[0] == WithKey(ys, key, m)[0] == WithKey(zs, key, m)[0] == zs[0];
      forall k
        ensures WithKey(ys[1..], key, k) == WithKey(zs[1..], key, k)
      {
        var head := WithKey([ys[0]], key, k);
        FilterAppend([ys[0]], ys[1..], KeyIs(key, k));
        FilterAppend([zs[0]], zs[1..], KeyIs(key, k));
        assert ys == [ys[0]] + ys[1..];
        assert zs == [zs[0]] + zs[1..];
        var whole := WithKey(ys, key, k);
        assert whole == WithKey(zs, key, k);
        assert whole == head + WithKey(ys[1..], key, k);
        assert whole == head + WithKey(zs[1..], key, k);
        assert WithKey(ys[1..], key, k) == whole[|head|..] == WithKey(zs[1..], key, k);
      }
      StableSortUnique(ys[1..], zs[1..], key);
      assert ys == [ys[0]] + ys[1..];
      assert zs == [zs[0]] + zs[1..];
    }
  }

  /** Any sorted, stable rearrangement of `xs` is the one `Sort` computes. */
  lemma SortIsTheStableSort<T>(xs: seq<T>, ys: seq<T>, key: T -> int)
    requires SortedBy(ys, key)
    requires StablyRearranges(ys, xs, key)
    ensures ys == Sort(xs, key)
  {
    StableSortUnique(ys, Sort(xs, key), key);
  }

  /**
   * In a sorted sequence, every element of a prefix has a key no larger than
   * any element left out of it.
   */
  lemma SortedPrefixIsSmallest<T>(xs: seq<T>, n: nat, key: T -> int)
    requires SortedBy(xs, key)
    requires n <= |xs|
    ensures forall x, y :: x in xs[..n] && y in multiset(xs) - multiset(xs[..n]) ==> key(x) <= key(y)
  {
    var rest := xs[n..];
    assert xs == xs[..n] + rest;
    assert multiset(xs) - multiset(xs[..n]) == multiset(rest);
    forall x, y | x in xs[..n] && y in multiset(rest)
      ensures key(x) <= key(y)
    {
      var i :| 0 <= i < n && xs[..n][i] == x;
      var j :| 0 <= j < |rest| && rest[j] == y;
      assert xs[i] == x && xs[n + j] == y;
    }
  }

  /** Sorting a sorted sequence changes nothing. */
  lemma SortOfSorted<T>(xs: seq<T>, key: T -> int)
    requires SortedBy(xs, key)
    ensures Sort(xs, key) == xs
  {
    SortIsTheStableSort(xs, xs, key);
  }
}
