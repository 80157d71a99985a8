/**
 The stable sort by key that tablets and record batches go through: an index order
 that is a permutation, ascending by key, and keeps the input order of equal keys.
 */
module StableSort {

  /** Row `i` belongs before row `j`. */
  predicate Before(keys: seq<int>, i: nat, j: nat)
    requires i < |keys| && j < |keys|
  {
    keys[i] < keys[j] || (keys[i] == keys[j] && i < j)
  }

  predicate InRange(order: seq<nat>, n: nat)
  {
    forall p :: 0 <= p < |order| ==> order[p] < n
  }

  ghost predicate Chain(keys: seq<int>, order: seq<nat>)
    requires InRange(order, |keys|)
  {
    forall p, q :: 0 <= p < q < |order| ==> Before(keys, order[p], order[q])
  }

  /** What a stable sort by key promises about the index order it returns. */
  ghost predicate IsStableOrder(keys: seq<int>, order: seq<nat>)
  {
    && |order| == |keys|
    && InRange(order, |keys|)
    && (forall i :: 0 <= i < |keys| ==> i in order)
    && Chain(keys, order)
  }

  predicate IsIdentity(order: seq<nat>)
  {
    forall p :: 0 <= p < |order| ==> order[p] == p
  }

  predicate Ascending(keys: seq<int>)
  {
    forall i, j :: 0 <= i < j < |keys| ==> keys[i] <= keys[j]
  }

  /** Elements of `xs` in the given order. */
  function Permute<T>(xs: seq<T>, order: seq<nat>): (r: seq<T>)
    requires InRange(order, |xs|)
    ensures |r| == |order|
    ensures forall p :: 0 <= p < |order| ==> r[p] == xs[order[p]]
  {
    seq(|order|, p requires 0 <= p < |order| => xs[order[p]])
  }

  /** The position where row `i` joins the sorted rows before it: behind every key up to its own. */
  function InsertAt(keys: seq<int>, order: seq<nat>, key: int): (p: nat)
    requires InRange(order, |keys|)
    ensures p <= |order|
    ensures forall q :: p <= q < |order| ==> key < keys[order[q]]
    ensures p > 0 ==> keys[order[p - 1]] <= key
  {
    if order == [] || keys[order[|order| - 1]] <= key then |order|
    else InsertAt(keys, order[..|order| - 1], key)
  }

  function StableOrderOf(keys: seq<int>, n: nat): (order: seq<nat>)
    requires n <= |keys|
    ensures InRange(order, n)
    ensures |order| == n
  {
    if n == 0 then []
    else
      var order := StableOrderOf(keys, n - 1);
      var p := InsertAt(keys, order, keys[n - 1]);
      order[..p] + [n - 1] + order[p..]
  }

  /** The index order of a stable sort by key. */
  function StableOrder(keys: seq<int>): (order: seq<nat>)
    ensures InRange(order, |keys|)
    ensures |order| == |keys|
  {
    StableOrderOf(keys, |keys|)
  }

  /** One insertion: the newcomer goes right behind the rows with a key up to its own. */
  lemma OneInsertion(keys: seq<int>, n: nat) returns (front: seq<nat>, back: seq<nat>)
    requires 0 < n <= |keys|
    ensures StableOrderOf(keys, n - 1) == front + back
    ensures StableOrderOf(keys, n) == front + [n - 1] + back
    ensures InRange(front, n - 1) && InRange(back, n - 1)
    ensures forall q :: 0 <= q < |back| ==> keys[n - 1] < keys[back[q]]
  {
    StableOrderUnfolds(keys, n);
    hide StableOrderOf, InsertAt;
    var order := StableOrderOf(keys, n - 1);
    var p := InsertAt(keys, order, keys[n - 1]);
    front, back := order[..p], order[p..];
    SplitInRange(order, p, n - 1);
    hide InRange;
    forall q | 0 <= q < |back| ensures keys[n - 1] < keys[back[q]] {
      assert back[q] == order[p + q];
    }
  }

  lemma SplitInRange(order: seq<nat>, p: nat, n: nat)
    requires p <= |order| && InRange(order, n)
    ensures InRange(order[..p], n) && InRange(order[p..], n) && order == order[..p] + order[p..]
  {
  }

  lemma StableOrderUnfolds(keys: seq<int>, n: nat)
    requires 0 < n <= |keys|
    ensures var order := StableOrderOf(keys, n - 1);
            var p := InsertAt(keys, order, keys[n - 1]);
            StableOrderOf(keys, n) == order[..p] + [n - 1] + order[p..]
  {
    hide InsertAt;
  }

  ghost predicate SortedPrefix(keys: seq<int>, order: seq<nat>, n: nat)
    requires n <= |keys|
  {
    && |order| == n
    && InRange(order, n)
    && (forall i :: 0 <= i < n ==> i in order)
    && Chain(keys, order)
  }

  lemma InsertKeepsAll(order: seq<nat>, p: nat, x: nat, i: nat)
    requires p <= |order| && (i == x || i in order)
    ensures i in order[..p] + [x] + order[p..]
  {
    var r := order[..p] + [x] + order[p..];
    if i == x {
      assert r[p] == x;
    } else {
      assert i in order[..p] + order[p..] by { assert order[..p] + order[p..] == order; }
    }
  }

  /** Every sorted row ahead of the insertion point belongs before the new row, every other one after it. */
  lemma InsertionPointSplits(keys: seq<int>, order: seq<nat>, n: nat, q: nat)
    requires 0 < n <= |keys| && SortedPrefix(keys, order, n - 1) && q < |order|
    ensures if q < InsertAt(keys, order, keys[n - 1]) then Before(keys, order[q], n - 1)
        else Before(keys, n - 1, order[q])
  {
    var p := InsertAt(keys, order, keys[n - 1]);
    if q + 1 < p {
      assert Before(keys, order[q], order[p - 1]);
    }
  }

  lemma InsertedPairBefore(keys: seq<int>, order: seq<nat>, n: nat, r: seq<nat>, a: nat, b: nat)
    requires 0 < n <= |keys| && SortedPrefix(keys, order, n - 1)
    requires var p := InsertAt(keys, order, keys[n - 1]); r == order[..p] + [n - 1] + order[p..]
    requires a < b < |r| && InRange(r, n)
    ensures Before(keys, r[a], r[b])
  {
    var p := InsertAt(keys, order, keys[n - 1]);
    if a == p {
      InsertionPointSplits(keys, order, n, b - 1);
    } else if b == p {
      InsertionPointSplits(keys, order, n, a);
    }
  }

  lemma InsertKeepsChain(keys: seq<int>, order: seq<nat>, n: nat, r: seq<nat>)
    requires 0 < n <= |keys| && SortedPrefix(keys, order, n - 1)
    requires var p := InsertAt(keys, order, keys[n - 1]); r == order[..p] + [n - 1] + order[p..]
    ensures InRange(r, n) && Chain(keys, r)
  {
    assert InRange(r, n);
    forall a, b | 0 <= a < b < |r| ensures Before(keys, r[a], r[b]) {
      InsertedPairBefore(keys, order, n, r, a, b);
    }
  }

  lemma InsertKeepsSorted(keys: seq<int>, order: seq<nat>, n: nat)
    requires 0 < n <= |keys| && SortedPrefix(keys, order, n - 1)
    ensures var p := InsertAt(keys, order, keys[n - 1]);
            SortedPrefix(keys, order[..p] + [n - 1] + order[p..], n)
  {
    var p := InsertAt(keys, order, keys[n - 1]);
    var r := order[..p] + [n - 1] + order[p..];
    InsertKeepsChain(keys, order, n, r);
    forall i | 0 <= i < n ensures i in r {
      InsertKeepsAll(order, p, n - 1, i);
    }
  }

  lemma {:induction false} StableOrderOfSorts(keys: seq<int>, n: nat)
    requires n <= |keys|
    ensures SortedPrefix(keys, StableOrderOf(keys, n), n)
  {
    if n > 0 {
      StableOrderOfSorts(keys, n - 1);
      InsertKeepsSorted(keys, StableOrderOf(keys, n - 1), n);
    }
  }

  lemma StableOrderSorts(keys: seq<int>)
    ensures IsStableOrder(keys, StableOrder(keys))
  {
    StableOrderOfSorts(keys, |keys|);
  }

  /** Where index `i` sits in an order that mentions it. */
  lemma OrdersAgreeAt(keys: seq<int>, a: seq<nat>, b: seq<nat>, p: nat)
    requires IsStableOrder(keys, a) && IsStableOrder(keys, b)
    requires p < |keys| && a[..p] == b[..p]
    ensures a[p] == b[p]
  {
    assert b[p] in a && a[p] in b;
    var qa :| 0 <= qa < |a| && a[qa] == b[p];
    var qb :| 0 <= qb < |b| && b[qb] == a[p];
  }

  lemma {:induction false} OrdersAgreeUpTo(keys: seq<int>, a: seq<nat>, b: seq<nat>, p: nat)
    requires IsStableOrder(keys, a) && IsStableOrder(keys, b)
    requires p <= |keys|
    ensures a[..p] == b[..p]
  {
    if p > 0 {
      OrdersAgreeUpTo(keys, a, b, p - 1);
      OrdersAgreeAt(keys, a, b, p - 1);
      assert a[..p] == a[..p - 1] + [a[p - 1]];
      assert b[..p] == b[..p - 1] + [b[p - 1]];
    }
  }

  /** The promise of a stable sort determines the order, so any stable sort is this one. */
  lemma StableOrderUnique(keys: seq<int>, order: seq<nat>)
    requires IsStableOrder(keys, order)
    ensures order == StableOrder(keys)
  {
    var s := StableOrder(keys);
    StableOrderSorts(keys);
    OrdersAgreeUpTo(keys, order, s, |keys|);
    assert order == order[..|keys|] && s == s[..|keys|];
  }

  /** The already-sorted shortcut is taken exactly on ascending keys. */
  lemma IdentityIffAscending(keys: seq<int>)
    ensures IsIdentity(StableOrder(keys)) <==> Ascending(keys)
  {
    var s := StableOrder(keys);
    StableOrderSorts(keys);
    if IsIdentity(s) {
      forall i, j | 0 <= i < j < |keys| ensures keys[i] <= keys[j] {
        assert Before(keys, s[i], s[j]);
      }
    }
    if Ascending(keys) {
      var id := seq(|keys|, (i: nat) => i);
      forall i | 0 <= i < |keys| ensures i in id {
        assert id[i] == i;
      }
      StableOrderUnique(keys, id);
    }
  }

  lemma PermuteIdentity<T>(xs: seq<T>, order: seq<nat>)
    requires InRange(order, |xs|) && |order| == |xs| && IsIdentity(order)
    ensures Permute(xs, order) == xs
  {
  }

  lemma PermutedKeysAscend(keys: seq<int>)
    ensures Ascending(Permute(keys, StableOrder(keys)))
  {
    var s := StableOrder(keys);
    StableOrderSorts(keys);
    forall p, q | 0 <= p < q < |keys| ensures Permute(keys, s)[p] <= Permute(keys, s)[q] {
      assert Before(keys, s[p], s[q]);
    }
  }

  /** Sorting what is already sorted changes nothing: whichever buffer is written first, both see the same rows. */
  lemma SortIsIdempotent<T>(keys: seq<int>, xs: seq<T>)
    requires |xs| == |keys|
    ensures var order := StableOrder(keys);
            var again := StableOrder(Permute(keys, order));
            && IsIdentity(again)
            && Permute(Permute(xs, order), again) == Permute(xs, order)
  {
    PermutedKeysAscend(keys);
    IdentityIffAscending(Permute(keys, StableOrder(keys)));
  }
}
