/** The order-preserving "keep the first item per key" filter behind every
    deduplication pass of the scraper: the running id set, the final
    normalised-text pass and `remove_duplicates`. Each pass walks the list once,
    keeps an item when its key is admissible and not yet seen, and adds that key
    to the seen set. */
module Dedup {

  /** `a` can be obtained from `b` by deleting elements (order is kept). */
  predicate IsSubseq<T(==)>(a: seq<T>, b: seq<T>)
    decreases |b|
  {
    if a == [] then true
    else if b == [] then false
    else if a[0] == b[0] then IsSubseq(a[1..], b[1..])
    else IsSubseq(a, b[1..])
  }

  /** Every item of a subsequence is an item of the whole. */
  lemma {:induction false} SubseqMember<T>(a: seq<T>, b: seq<T>, i: int)
    requires IsSubseq(a, b) && 0 <= i < |a|
    decreases |b|
    ensures a[i] in b
  {
    if a[0] == b[0] {
      if i > 0 {
        SubseqMember(a[1..], b[1..], i - 1);
      }
    } else {
      SubseqMember(a, b[1..], i);
    }
  }

  predicate KeysDistinct<T, K(==)>(xs: seq<T>, key: T -> K) {
    forall i, j :: 0 <= i < j < |xs| ==> key(xs[i]) != key(xs[j])
  }

  /** `i` is the first position of `xs` that carries key `key(xs[i])`. */
  predicate FirstOfKey<T, K(==)>(xs: seq<T>, key: T -> K, i: int)
    requires 0 <= i < |xs|
  {
    forall j :: 0 <= j < i ==> key(xs[j]) != key(xs[i])
  }

  /** The filter, started with keys `seen` already taken:
      `for t in xs: k = key(t); if admit(k) and k not in seen: seen.add(k); out.append(t)`.
      Every kept item has an admissible key that was not seen before, and the kept
      keys are pairwise distinct. */
  function KeepFirst<T(==), K(==)>(xs: seq<T>, key: T -> K, admit: K -> bool, seen: set<K>): (r: seq<T>)
    ensures |r| <= |xs|
    ensures forall i :: 0 <= i < |r| ==> admit(key(r[i])) && key(r[i]) !in seen
    ensures KeysDistinct(r, key)
  {
    if xs == [] then []
    else
      var k := key(xs[0]);
      if admit(k) && k !in seen then
        var rest := KeepFirst(xs[1..], key, admit, seen + {k});
        assert ([xs[0]] + rest)[1..] == rest;
        [xs[0]] + rest
      else
        KeepFirst(xs[1..], key, admit, seen)
  }

  /** The filter only deletes: its output is a subsequence of its input. */
  lemma {:induction false} KeepFirstSubseq<T, K>(xs: seq<T>, key: T -> K, admit: K -> bool, seen: set<K>)
    ensures IsSubseq(KeepFirst(xs, key, admit, seen), xs)
  {
    if xs != [] {
      var k := key(xs[0]);
      if admit(k) && k !in seen {
        KeepFirstSubseq(xs[1..], key, admit, seen + {k});
      } else {
        KeepFirstSubseq(xs[1..], key, admit, seen);
        SubseqOfTail(KeepFirst(xs[1..], key, admit, seen), xs);
      }
    }
  }

  lemma {:induction false} SubseqOfTail<T>(a: seq<T>, b: seq<T>)
    requires b != [] && IsSubseq(a, b[1..])
    ensures IsSubseq(a, b)
    decreases |b|, 0
  {
    if a != [] && a[0] == b[0] {
      SubseqDropHead(a, b[1..]);
    }
  }

  lemma {:induction false} SubseqDropHead<T>(a: seq<T>, b: seq<T>)
    requires a != [] && IsSubseq(a, b)
    ensures IsSubseq(a[1..], b)
    decreases |b|, 1
  {
    assert b != [];
    if a[0] == b[0] {
      SubseqOfTail(a[1..], b);
    } else {
      SubseqDropHead(a, b[1..]);
      SubseqOfTail(a[1..], b);
    }
  }

  /** Every admissible key of the input that was not already seen is represented
      in the output. */
  lemma {:induction false} KeepFirstComplete<T, K>(xs: seq<T>, key: T -> K, admit: K -> bool, seen: set<K>, i: int)
    requires 0 <= i < |xs| && admit(key(xs[i])) && key(xs[i]) !in seen
    ensures exists j :: 0 <= j < |KeepFirst(xs, key, admit, seen)| && key(KeepFirst(xs, key, admit, seen)[j]) == key(xs[i])
  {
    var k := key(xs[0]);
    var r := KeepFirst(xs, key, admit, seen);
    if admit(k) && k !in seen {
      var rest := KeepFirst(xs[1..], key, admit, seen + {k});
      assert r == [xs[0]] + rest;
      if key(xs[i]) == k {
        assert key(r[0]) == key(xs[i]);
      } else {
        assert xs[i] == xs[1..][i - 1];
        KeepFirstComplete(xs[1..], key, admit, seen + {k}, i - 1);
        var j :| 0 <= j < |rest| && key(rest[j]) == key(xs[1..][i - 1]);
        assert key(r[j + 1]) == key(xs[i]);
      }
    } else {
      assert i != 0;
      assert xs[i] == xs[1..][i - 1];
      KeepFirstComplete(xs[1..], key, admit, seen, i - 1);
    }
  }

  /** The item kept for a key is the first input item carrying that key. */
  lemma {:induction false} KeepFirstKeepsFirst<T, K>(xs: seq<T>, key: T -> K, admit: K -> bool, seen: set<K>, i: int)
    requires 0 <= i < |xs| && admit(key(xs[i])) && key(xs[i]) !in seen && FirstOfKey(xs, key, i)
    ensures xs[i] in KeepFirst(xs, key, admit, seen)
  {
    var k := key(xs[0]);
    if i > 0 {
      assert key(xs[0]) != key(xs[i]);
      assert xs[i] == xs[1..][i - 1];
      assert FirstOfKey(xs[1..], key, i - 1) by {
        forall j | 0 <= j < i - 1 ensures key(xs[1..][j]) != key(xs[1..][i - 1]) {
          assert xs[1..][j] == xs[j + 1];
        }
      }
      if admit(k) && k !in seen {
        KeepFirstKeepsFirst(xs[1..], key, admit, seen + {k}, i - 1);
      } else {
        KeepFirstKeepsFirst(xs[1..], key, admit, seen, i - 1);
      }
    }
  }

  /** A list whose keys are admissible, unseen and pairwise distinct passes the
      filter unchanged. */
  lemma {:induction false} KeepFirstFixes<T, K>(ys: seq<T>, key: T -> K, admit: K -> bool, seen: set<K>)
    requires forall i :: 0 <= i < |ys| ==> admit(key(ys[i])) && key(ys[i]) !in seen
    requires KeysDistinct(ys, key)
    ensures KeepFirst(ys, key, admit, seen) == ys
  {
    if ys != [] {
      var k := key(ys[0]);
      assert admit(k) && k !in seen;
      assert forall i :: 0 <= i < |ys[1..]| ==> admit(key(ys[1..][i])) && key(ys[1..][i]) !in seen + {k} by {
        forall i | 0 <= i < |ys[1..]| ensures admit(key(ys[1..][i])) && key(ys[1..][i]) !in seen + {k} {
          assert ys[1..][i] == ys[i + 1];
        }
      }
      assert KeysDistinct(ys[1..], key) by {
        forall i, j | 0 <= i < j < |ys[1..]| ensures key(ys[1..][i]) != key(ys[1..][j]) {
          assert ys[1..][i] == ys[i + 1] && ys[1..][j] == ys[j + 1];
        }
      }
      KeepFirstFixes(ys[1..], key, admit, seen + {k});
      assert KeepFirst(ys, key, admit, seen) == [ys[0]] + KeepFirst(ys[1..], key, admit, seen + {k});
      assert ys == [ys[0]] + ys[1..];
    }
  }

  /** Running a pass over its own output removes nothing further. */
  lemma KeepFirstIdempotent<T, K>(xs: seq<T>, key: T -> K, admit: K -> bool)
    ensures KeepFirst(KeepFirst(xs, key, admit, {}), key, admit, {}) == KeepFirst(xs, key, admit, {})
  {
    KeepFirstFixes(KeepFirst(xs, key, admit, {}), key, admit, {});
  }
}
