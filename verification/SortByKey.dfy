/** Sorting elements stably by a key of theirs, and what that means without any index order. */
module SortByKey {
  import opened StableSort

  function KeysOf<T>(rows: seq<T>, key: T -> int): (keys: seq<int>)
    ensures |keys| == |rows|
    ensures forall i :: 0 <= i < |rows| ==> keys[i] == key(rows[i])
  {
    seq(|rows|, i requires 0 <= i < |rows| => key(rows[i]))
  }

  /** The rows in ascending key, rows of equal key in their given order. */
  function SortedBy<T>(rows: seq<T>, key: T -> int): (r: seq<T>)
    ensures |r| == |rows|
  {
    Permute(rows, StableOrder(KeysOf(rows, key)))
  }

  /** Sorting neither drops nor invents a row. */
  lemma SortedHasSame<T>(rows: seq<T>, key: T -> int)
    ensures forall x :: x in SortedBy(rows, key) <==> x in rows
  {
    var order := StableOrder(KeysOf(rows, key));
    StableOrderSorts(KeysOf(rows, key));
    forall x | x in rows ensures x in SortedBy(rows, key) {
      var i :| 0 <= i < |rows| && rows[i] == x;
      assert i in order;
      var p :| 0 <= p < |order| && order[p] == i;
      assert SortedBy(rows, key)[p] == x;
    }
  }

  predicate ByKey<T>(rows: seq<T>, key: T -> int)
  {
    forall i, j :: 0 <= i < j < |rows| ==> key(rows[i]) <= key(rows[j])
  }

  /** The rows of one key, in their order. */
  function AtKey<T>(rows: seq<T>, key: T -> int, t: int): seq<T>
  {
    if rows == [] then []
    else if key(rows[0]) == t then [rows[0]] + AtKey(rows[1..], key, t)
    else AtKey(rows[1..], key, t)
  }

  lemma {:induction false} AtKeyDistributes<T>(a: seq<T>, b: seq<T>, key: T -> int, t: int)
    ensures AtKey(a + b, key, t) == AtKey(a, key, t) + AtKey(b, key, t)
  {
    if a == [] {
      assert a + b == b;
    } else {
      assert (a + b)[0] == a[0] && (a + b)[1..] == a[1..] + b;
      AtKeyDistributes(a[1..], b, key, t);
    }
  }

  lemma AtKeyOfOne<T>(x: T, key: T -> int, t: int)
    ensures AtKey([x], key, t) == if key(x) == t then [x] else []
  {
    assert AtKey([x], key, t) == if key(x) == t then [x] + AtKey([], key, t) else AtKey([], key, t);
  }

  lemma {:induction false} NoneAtKey<T>(rows: seq<T>, key: T -> int, t: int)
    requires forall y :: y in rows ==> key(y) != t
    ensures AtKey(rows, key, t) == []
  {
    if rows != [] {
      assert rows[0] in rows;
      NoneAtKey(rows[1..], key, t);
    }
  }

  /** A row inserted ahead of later ones only keeps the order within each key. */
  lemma InsertKeepsTies<T>(a: seq<T>, x: T, b: seq<T>, key: T -> int, t: int)
    requires forall y :: y in b ==> key(x) < key(y)
    ensures AtKey(a + [x] + b, key, t) == AtKey(a + b, key, t) + AtKey([x], key, t)
  {
    hide AtKey;
    var atA, atX, atB := AtKey(a, key, t), AtKey([x], key, t), AtKey(b, key, t);
    AtKeyDistributes(a + [x], b, key, t);
    AtKeyDistributes(a, [x], key, t);
    AtKeyDistributes(a, b, key, t);
    AtKeyOfOne(x, key, t);
    if key(x) == t {
      NoneAtKey(b, key, t);
      assert atA + atX + atB == atA + atX;
      assert atA + atB == atA;
    } else {
      assert atA + atX + atB == atA + atB;
      assert atA + atB + atX == atA + atB;
    }
  }

  lemma {:induction false} AtKeyMembers<T>(rows: seq<T>, key: T -> int, t: int)
    ensures forall x :: x in AtKey(rows, key, t) ==> x in rows
  {
    if rows != [] {
      AtKeyMembers(rows[1..], key, t);
    }
  }

  /** One insertion step on the rows themselves: the new row goes ahead of the later ones. */
  lemma InsertionSplits<T>(rows: seq<T>, key: T -> int, n: nat) returns (a: seq<T>, b: seq<T>)
    requires 0 < n <= |rows|
    ensures Permute(rows, StableOrderOf(KeysOf(rows, key), n - 1)) == a + b
    ensures Permute(rows, StableOrderOf(KeysOf(rows, key), n)) == a + [rows[n - 1]] + b
    ensures forall y :: y in b ==> key(rows[n - 1]) < key(y)
  {
    hide StableOrderOf;
    var front, back := OneInsertion(KeysOf(rows, key), n);
    a, b := Permute(rows, front), Permute(rows, back);
    PermuteParts(rows, front, back);
    PermuteParts(rows, front, [n - 1]);
    PermuteParts(rows, front + [n - 1], back);
    assert Permute(rows, [n - 1]) == [rows[n - 1]];
  }

  lemma PermuteParts<T>(rows: seq<T>, a: seq<nat>, b: seq<nat>)
    requires InRange(a, |rows|) && InRange(b, |rows|)
    ensures InRange(a + b, |rows|) && Permute(rows, a + b) == Permute(rows, a) + Permute(rows, b)
  {
  }

  lemma NothingPermuted<T>(rows: seq<T>, key: T -> int)
    ensures Permute(rows, StableOrderOf(KeysOf(rows, key), 0)) == [] == rows[..0]
  {
  }

  lemma {:induction false} SortKeepsTies<T>(rows: seq<T>, key: T -> int, n: nat, t: int)
    requires n <= |rows|
    ensures AtKey(Permute(rows, StableOrderOf(KeysOf(rows, key), n)), key, t) == AtKey(rows[..n], key, t)
  {
    hide AtKey, StableOrderOf, Permute;
    if n == 0 {
      NothingPermuted(rows, key);
    } else {
      var a, b := InsertionSplits(rows, key, n);
      var x := rows[n - 1];
      SortKeepsTies(rows, key, n - 1, t);
      InsertKeepsTies(a, x, b, key, t);
      AtKeyDistributes(rows[..n - 1], [x], key, t);
      assert rows[..n] == rows[..n - 1] + [x];
    }
  }

  /** What a stable sort by key is, said without any index order. */
  ghost predicate StablySorted<T>(rows: seq<T>, key: T -> int, r: seq<T>)
  {
    ByKey(r, key) && forall t :: AtKey(r, key, t) == AtKey(rows, key, t)
  }

  lemma SortedIsStablySorted<T>(rows: seq<T>, key: T -> int)
    ensures StablySorted(rows, key, SortedBy(rows, key))
  {
    var keys: seq<int> := KeysOf(rows, key);
    PermutedKeysAscend(keys);
    var r := SortedBy(rows, key);
    forall i, j | 0 <= i < j < |r| ensures key(r[i]) <= key(r[j]) {
      assert key(r[i]) == Permute(keys, StableOrder(keys))[i];
    }
    forall t ensures AtKey(r, key, t) == AtKey(rows, key, t) {
      SortKeepsTies(rows, key, |rows|, t);
      assert rows[..|rows|] == rows;
    }
  }

  lemma HeadIsEarliest<T>(a: seq<T>, b: seq<T>, key: T -> int)
    requires ByKey(b, key) && a != []
    requires AtKey(a, key, key(a[0])) == AtKey(b, key, key(a[0]))
    ensures b != [] && key(b[0]) <= key(a[0])
  {
    AtKeyMembers(b, key, key(a[0]));
    assert AtKey(b, key, key(a[0]))[0] == a[0];
    assert a[0] in b;
    var q :| 0 <= q < |b| && b[q] == a[0];
    assert key(b[0]) <= key(b[q]);
  }

  lemma {:induction false} StablySortedUnique<T>(rows: seq<T>, key: T -> int, a: seq<T>, b: seq<T>)
    requires StablySorted(rows, key, a) && StablySorted(rows, key, b)
    ensures a == b
    decreases |a|
  {
    if a == [] {
      if b != [] {
        HeadIsEarliest(b, a, key);
      }
    } else {
      HeadIsEarliest(a, b, key);
      HeadIsEarliest(b, a, key);
      var t0 := key(a[0]);
      assert AtKey(a, key, t0)[0] == a[0] && AtKey(b, key, t0)[0] == b[0];
      forall t ensures AtKey(b[1..], key, t) == AtKey(a[1..], key, t) {
        TailAtKey(a, key, t);
        TailAtKey(b, key, t);
      }
      assert StablySorted(a[1..], key, b[1..]);
      StablySortedUnique(a[1..], key, a[1..], b[1..]);
    }
  }

  lemma TailAtKey<T>(a: seq<T>, key: T -> int, t: int)
    requires a != []
    ensures AtKey(a[1..], key, t) == if key(a[0]) == t then AtKey(a, key, t)[1..] else AtKey(a, key, t)
  {
  }
}
