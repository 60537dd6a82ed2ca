/** Ranking: Python's `sorted(xs, key=k, reverse=True)` (a stable sort, so equal
    keys keep their input order) and the `[:n]` slice taken after it. */
module Ranking {

  predicate SortedDesc<T>(xs: seq<T>, key: T -> int) {
    forall i, j :: 0 <= i < j < |xs| ==> key(xs[i]) >= key(xs[j])
  }

  /** The items of `xs` whose key is `k`, in order. */
  function WithKey<T>(xs: seq<T>, key: T -> int, k: int): (r: seq<T>)
    ensures |r| <= |xs|
    ensures forall i :: 0 <= i < |r| ==> key(r[i]) == k
  {
    if xs == [] then []
    else (if key(xs[0]) == k then [xs[0]] else []) + WithKey(xs[1..], key, k)
  }

  lemma {:induction false} WithKeyAppend<T>(xs: seq<T>, ys: seq<T>, key: T -> int, k: int)
    ensures WithKey(xs + ys, key, k) == WithKey(xs, key, k) + WithKey(ys, key, k)
  {
    if xs == [] {
      assert xs + ys == ys;
    } else {
      var h := if key(xs[0]) == k then [xs[0]] else [];
      assert (xs + ys)[0] == xs[0];
      assert (xs + ys)[1..] == xs[1..] + ys;
      WithKeyAppend(xs[1..], ys, key, k);
      calc {
        WithKey(xs + ys, key, k);
        h + WithKey(xs[1..] + ys, key, k);
        h + (WithKey(xs[1..], key, k) + WithKey(ys, key, k));
        (h + WithKey(xs[1..], key, k)) + WithKey(ys, key, k);
        WithKey(xs, key, k) + WithKey(ys, key, k);
      }
    }
  }

  /** Places `x` after every item of `ys` whose key is at least `key(x)`. */
  function Insert<T>(x: T, ys: seq<T>, key: T -> int): (r: seq<T>)
    requires SortedDesc(ys, key)
    ensures SortedDesc(r, key)
    ensures multiset(r) == multiset(ys) + multiset{x}
  {
    if ys == [] then [x]
    else if key(ys[0]) >= key(x) then
      var rest := Insert(x, ys[1..], key);
      assert ys == [ys[0]] + ys[1..];
      BoundedByHead(ys, key);
      BoundedMultiset(ys[1..], x, rest, key, key(ys[0]));
      SortedCons(ys[0], rest, key);
      [ys[0]] + rest
    else
      SortedCons(x, ys, key);
      [x] + ys
  }

  lemma BoundedByHead<T>(ys: seq<T>, key: T -> int)
    requires ys != [] && SortedDesc(ys, key)
    ensures forall y :: y in ys[1..] ==> key(y) <= key(ys[0])
  {
    forall y | y in ys[1..] ensures key(y) <= key(ys[0]) {
      var j :| 0 <= j < |ys[1..]| && ys[1..][j] == y;
      assert ys[j + 1] == y;
    }
  }

  /** Items drawn from `ys` and `x` keep any bound all of those keep. */
  lemma BoundedMultiset<T>(ys: seq<T>, x: T, rest: seq<T>, key: T -> int, b: int)
    requires forall y :: y in ys ==> key(y) <= b
    requires key(x) <= b
    requires multiset(rest) == multiset(ys) + multiset{x}
    ensures forall i :: 0 <= i < |rest| ==> key(rest[i]) <= b
  {
    forall i | 0 <= i < |rest| ensures key(rest[i]) <= b {
      assert rest[i] in multiset(rest);
      assert rest[i] in multiset(ys) || rest[i] == x;
    }
  }

  lemma SortedCons<T>(h: T, rest: seq<T>, key: T -> int)
    requires SortedDesc(rest, key)
    requires forall i :: 0 <= i < |rest| ==> key(rest[i]) <= key(h)
    ensures SortedDesc([h] + rest, key)
  {
    var r := [h] + rest;
    forall i, j | 0 <= i < j < |r| ensures key(r[i]) >= key(r[j]) {
      assert r[j] == rest[j - 1];
      if i > 0 {
        assert r[i] == rest[i - 1];
      }
    }
  }

  /** Inserting `x` appends it to the run of items sharing its key and leaves the
      runs of every other key alone. */
  lemma {:induction false} InsertWithKey<T>(x: T, ys: seq<T>, key: T -> int, k: int)
    requires SortedDesc(ys, key)
    ensures WithKey(Insert(x, ys, key), key, k) == WithKey(ys, key, k) + WithKey([x], key, k)
  {
    if ys == [] {
      assert Insert(x, ys, key) == [x];
    } else if key(ys[0]) >= key(x) {
      InsertWithKey(x, ys[1..], key, k);
      InsertWithKeyBehind(x, ys, key, k);
    } else {
      InsertWithKeyFront(x, ys, key, k);
    }
  }

  /** The step of `InsertWithKey` where `x` goes behind the head. */
  lemma InsertWithKeyBehind<T>(x: T, ys: seq<T>, key: T -> int, k: int)
    requires SortedDesc(ys, key) && ys != [] && key(ys[0]) >= key(x)
    requires WithKey(Insert(x, ys[1..], key), key, k) == WithKey(ys[1..], key, k) + WithKey([x], key, k)
    ensures WithKey(Insert(x, ys, key), key, k) == WithKey(ys, key, k) + WithKey([x], key, k)
  {
    InsertBehind(x, ys, key);
    ConsTail(ys);
    ConsWithKey(ys[0], Insert(x, ys[1..], key), ys[1..], [x], key, k);
  }

  lemma ConsTail<T>(ys: seq<T>)
    requires ys != []
    ensures [ys[0]] + ys[1..] == ys
  {
  }

  /** Putting the same item in front of both sides keeps a `WithKey` split. */
  lemma ConsWithKey<T>(a: T, rest: seq<T>, tail: seq<T>, xs: seq<T>, key: T -> int, k: int)
    requires WithKey(rest, key, k) == WithKey(tail, key, k) + WithKey(xs, key, k)
    ensures WithKey([a] + rest, key, k) == WithKey([a] + tail, key, k) + WithKey(xs, key, k)
  {
    WithKeyAppend([a], rest, key, k);
    WithKeyAppend([a], tail, key, k);
    Assoc(WithKey([a], key, k), WithKey(tail, key, k), WithKey(xs, key, k));
  }

  lemma Assoc<T>(a: seq<T>, b: seq<T>, c: seq<T>)
    ensures a + (b + c) == (a + b) + c
  {
  }

  lemma InsertBehind<T>(x: T, ys: seq<T>, key: T -> int)
    requires SortedDesc(ys, key) && ys != [] && key(ys[0]) >= key(x)
    ensures SortedDesc(ys[1..], key)
    ensures Insert(x, ys, key) == [ys[0]] + Insert(x, ys[1..], key)
  {
  }

  /** The step of `InsertWithKey` where `x` goes in front. */
  lemma InsertWithKeyFront<T>(x: T, ys: seq<T>, key: T -> int, k: int)
    requires SortedDesc(ys, key) && ys != [] && key(ys[0]) < key(x)
    ensures WithKey(Insert(x, ys, key), key, k) == WithKey(ys, key, k) + WithKey([x], key, k)
  {
    assert Insert(x, ys, key) == [x] + ys;
    if key(x) == k {
      NoneWithKey(ys, key, k);
    }
    WithKeyAppend([x], ys, key, k);
  }

  lemma {:induction false} NoneWithKey<T>(ys: seq<T>, key: T -> int, k: int)
    requires SortedDesc(ys, key)
    requires ys != [] ==> key(ys[0]) < k
    ensures WithKey(ys, key, k) == []
  {
    if ys != [] {
      NoneWithKey(ys[1..], key, k);
    }
  }

  /** `sorted(xs, key=key, reverse=True)`: a permutation of `xs` with non-increasing keys. */
  function SortDesc<T>(xs: seq<T>, key: T -> int): (r: seq<T>)
    ensures |r| == |xs|
    ensures SortedDesc(r, key)
    ensures multiset(r) == multiset(xs)
  {
    if xs == [] then []
    else
      var init := xs[..|xs| - 1];
      assert xs == init + [xs[|xs| - 1]];
      var r := Insert(xs[|xs| - 1], SortDesc(init, key), key);
      assert |r| == |xs| by {
        assert |multiset(r)| == |multiset(xs)|;
      }
      r
  }

  /** Stability: the items sharing any one key appear in the sorted list in their
      input order (Python's sort keeps this under `reverse=True`). */
  lemma {:induction false} SortDescStable<T>(xs: seq<T>, key: T -> int, k: int)
    ensures WithKey(SortDesc(xs, key), key, k) == WithKey(xs, key, k)
    decreases |xs|
  {
    if xs != [] {
      var init := xs[..|xs| - 1];
      var x := xs[|xs| - 1];
      assert xs == init + [x];
      SortDescStable(init, key, k);
      InsertWithKey(x, SortDesc(init, key), key, k);
      WithKeyAppend(init, [x], key, k);
    }
  }

  /** `sorted(xs, key=key, reverse=True)[:n]`: at most `n` items, non-increasing,
      drawn from `xs`. */
  function TopN<T>(xs: seq<T>, key: T -> int, n: nat): (r: seq<T>)
    ensures |r| == if |xs| < n then |xs| else n
    ensures SortedDesc(r, key)
    ensures multiset(r) <= multiset(xs)
  {
    var s := SortDesc(xs, key);
    var m := if |xs| < n then |xs| else n;
    assert s == s[..m] + s[m..];
    assert multiset(s) == multiset(s[..m]) + multiset(s[m..]);
    s[..m]
  }

  /** Nothing `TopN` leaves out outranks anything it keeps. */
  lemma TopNDominates<T>(xs: seq<T>, key: T -> int, n: nat, x: T, i: int)
    requires x in multiset(xs) - multiset(TopN(xs, key, n))
    requires 0 <= i < |TopN(xs, key, n)|
    ensures key(x) <= key(TopN(xs, key, n)[i])
  {
    var s := SortDesc(xs, key);
    var r := TopN(xs, key, n);
    var m := |r|;
    assert s == r + s[m..];
    assert r[i] == s[i];
    DroppedIsLater(s, r, x);
    var j :| m <= j < |s| && s[j] == x;
  }

  /** `TopN` keeps ties in input order: the kept items of any one key are the
      first ones of that key in `xs`. */
  lemma TopNStable<T>(xs: seq<T>, key: T -> int, n: nat, k: int)
    ensures var w := WithKey(TopN(xs, key, n), key, k);
            |w| <= |WithKey(xs, key, k)| && w == WithKey(xs, key, k)[..|w|]
  {
    var s := SortDesc(xs, key);
    var r := TopN(xs, key, n);
    assert s == r + s[|r|..];
    WithKeyAppend(r, s[|r|..], key, k);
    SortDescStable(xs, key, k);
    var w := WithKey(r, key, k);
    assert WithKey(xs, key, k)[..|w|] == (w + WithKey(s[|r|..], key, k))[..|w|];
  }

  /** An item counted in `r + rest` but not in `r` sits in `rest`. */
  lemma DroppedIsLater<T>(s: seq<T>, r: seq<T>, x: T)
    requires |r| <= |s| && s == r + s[|r|..]
    requires x in multiset(s) - multiset(r)
    ensures exists j :: |r| <= j < |s| && s[j] == x
  {
    var rest := s[|r|..];
    assert multiset(s) == multiset(r) + multiset(rest);
    assert x in multiset(rest);
    var j :| 0 <= j < |rest| && rest[j] == x;
    assert s[|r| + j] == x;
  }
}
