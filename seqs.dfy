/**
 * Order-preserving selections over sequences, the shapes the pandas and list
 * expressions of the application reduce to: a boolean-mask filter, a
 * `drop_duplicates(keep='first')`, Python's `[:n]` / `head(n)` and the
 * slicing of a list into rows of a grid.
 */
module Seqs {
  import opened Common

  /** `a` is obtained from `b` by deleting elements (greedy match from the back). */
  predicate IsSubsequence<T(==)>(a: seq<T>, b: seq<T>)
    decreases |b|
  {
    if a == [] then true
    else if b == [] then false
    else if a[|a| - 1] == b[|b| - 1] then IsSubsequence(a[..|a| - 1], b[..|b| - 1])
    else IsSubsequence(a, b[..|b| - 1])
  }

  lemma {:induction false} SubsequenceExtend<T>(a: seq<T>, b: seq<T>, x: T)
    requires IsSubsequence(a, b)
    ensures IsSubsequence(a, b + [x])
    ensures IsSubsequence(a + [x], b + [x])
    decreases |b|, 1
  {
    assert (a + [x])[..|a|] == a;
    assert (b + [x])[..|b|] == b;
    if a != [] && a[|a| - 1] == x {
      SubsequenceDropLast(a, b);
    }
  }

  lemma {:induction false} SubsequenceDropLast<T>(a: seq<T>, b: seq<T>)
    requires a != [] && IsSubsequence(a, b)
    ensures IsSubsequence(a[..|a| - 1], b)
    decreases |b|, 0
  {
    var a', b', y := a[..|a| - 1], b[..|b| - 1], b[|b| - 1];
    assert b' + [y] == b;
    if a[|a| - 1] != y {
      SubsequenceDropLast(a, b');
    }
    SubsequenceExtend(a', b', y);
  }

  lemma {:induction false} SubsequenceLength<T>(a: seq<T>, b: seq<T>)
    requires IsSubsequence(a, b)
    ensures |a| <= |b|
    decreases |b|
  {
    if a != [] {
      if a[|a| - 1] == b[|b| - 1] {
        SubsequenceLength(a[..|a| - 1], b[..|b| - 1]);
      } else {
        SubsequenceLength(a, b[..|b| - 1]);
      }
    }
  }

  lemma {:induction false} SubsequenceMembers<T>(a: seq<T>, b: seq<T>)
    requires IsSubsequence(a, b)
    ensures forall x :: x in a ==> x in b
    decreases |b|
  {
    if a != [] {
      var b' := b[..|b| - 1];
      if a[|a| - 1] == b[|b| - 1] {
        SubsequenceMembers(a[..|a| - 1], b');
        assert a == a[..|a| - 1] + [b[|b| - 1]];
      } else {
        SubsequenceMembers(a, b');
      }
      assert forall x :: x in b' ==> x in b;
    }
  }

  lemma {:induction false} SubsequenceTransitive<T>(a: seq<T>, b: seq<T>, c: seq<T>)
    requires IsSubsequence(a, b) && IsSubsequence(b, c)
    ensures IsSubsequence(a, c)
    decreases |c|
  {
    if a != [] {
      var c', z := c[..|c| - 1], c[|c| - 1];
      assert c == c' + [z];
      if b[|b| - 1] == z {
        var b' := b[..|b| - 1];
        if a[|a| - 1] == z {
          SubsequenceTransitive(a[..|a| - 1], b', c');
        } else {
          SubsequenceTransitive(a, b', c');
          SubsequenceExtend(a, c', z);
        }
      } else {
        SubsequenceTransitive(a, b, c');
        SubsequenceExtend(a, c', z);
      }
    }
  }

  /** The items of `s` that satisfy `p`, in their order in `s` (a boolean-mask selection). */
  function Filter<T(==,!new)>(s: seq<T>, p: T -> bool): (r: seq<T>)
    ensures |r| <= |s|
    ensures forall x :: x in r <==> x in s && p(x)
    ensures forall x :: multiset(r)[x] == if p(x) then multiset(s)[x] else 0
    ensures IsSubsequence(r, s)
    decreases |s|
  {
    if s == [] then []
    else
      var init, last := s[..|s| - 1], s[|s| - 1];
      var r' := Filter(init, p);
      assert s == init + [last];
      SubsequenceExtend(r', init, last);
      if p(last) then r' + [last] else r'
  }

  /** Position `i` repeats the key of an earlier position: pandas' `duplicated(keep='first')`. */
  predicate Duplicated<T, K(==)>(s: seq<T>, key: T -> K, i: nat)
    requires i < |s|
  {
    exists j :: 0 <= j < i && key(s[j]) == key(s[i])
  }

  /** Dropping duplicates by a key, keeping the first: the positions that are not `Duplicated`, in order. */
  function DropDuplicatesBy<T, K(==)>(s: seq<T>, key: T -> K): (r: seq<T>)
    ensures |r| <= |s|
    ensures forall x :: x in r ==> x in s
    decreases |s|
  {
    if s == [] then []
    else
      DropDuplicatesBy(s[..|s| - 1], key)
      + (if Duplicated(s, key, |s| - 1) then [] else [s[|s| - 1]])
  }

  /** The first position of `s` whose key is `k`, or `|s|` when there is none. */
  function FirstIndexOfKey<T, K(==)>(s: seq<T>, key: T -> K, k: K): (i: nat)
    ensures i <= |s|
    ensures i < |s| ==> key(s[i]) == k
    ensures forall j :: 0 <= j < i ==> key(s[j]) != k
    decreases |s|
  {
    if s == [] then 0
    else if key(s[0]) == k then 0
    else 1 + FirstIndexOfKey(s[1..], key, k)
  }

  /** A key present in a prefix has the same first position in the whole sequence. */
  lemma {:induction false} FirstIndexOfKeyPrefix<T, K>(s: seq<T>, key: T -> K, m: nat, k: K)
    requires m <= |s| && FirstIndexOfKey(s[..m], key, k) < m
    ensures FirstIndexOfKey(s, key, k) == FirstIndexOfKey(s[..m], key, k)
    decreases m
  {
    if key(s[0]) != k {
      assert s[..m][1..] == s[1..][..m - 1];
      FirstIndexOfKeyPrefix(s[1..], key, m - 1, k);
    }
  }

  lemma {:induction false} DropDuplicatesBySubsequence<T, K>(s: seq<T>, key: T -> K)
    ensures IsSubsequence(DropDuplicatesBy(s, key), s)
    decreases |s|
  {
    if s != [] {
      var n := |s| - 1;
      var init, r' := s[..n], DropDuplicatesBy(s[..n], key);
      DropDuplicatesBySubsequence(init, key);
      assert s == init + [s[n]];
      SubsequenceExtend(r', init, s[n]);
      assert DropDuplicatesBy(s, key) == if Duplicated(s, key, n) then r' else r' + [s[n]];
    }
  }

  /** Every item kept is the item at the first position of its key, and they come in order of those positions. */
  lemma {:induction false} DropDuplicatesByFirstPositions<T, K>(s: seq<T>, key: T -> K, r: seq<T>)
    requires r == DropDuplicatesBy(s, key)
    ensures
      && (forall k :: 0 <= k < |r| ==>
            FirstIndexOfKey(s, key, key(r[k])) < |s| && r[k] == s[FirstIndexOfKey(s, key, key(r[k]))])
      && (forall i, j :: 0 <= i < j < |r| ==>
            FirstIndexOfKey(s, key, key(r[i])) < FirstIndexOfKey(s, key, key(r[j])))
    decreases |s|
  {
    if s != [] {
      var n := |s| - 1;
      var init := s[..n];
      var r' := DropDuplicatesBy(init, key);
      DropDuplicatesByFirstPositions(init, key, r');
      forall k | 0 <= k < |r'|
        ensures FirstIndexOfKey(s, key, key(r'[k])) < n
        ensures r'[k] == s[FirstIndexOfKey(s, key, key(r'[k]))]
      {
        assert FirstIndexOfKey(init, key, key(r'[k])) < n;
        FirstIndexOfKeyPrefix(s, key, n, key(r'[k]));
      }
      if Duplicated(s, key, n) {
        assert r == r';
      } else {
        assert r == r' + [s[n]];
        assert FirstIndexOfKey(s, key, key(s[n])) == n;
      }
    }
  }

  /** No key of the input is lost. */
  lemma {:induction false} DropDuplicatesByCoverage<T, K>(s: seq<T>, key: T -> K, r: seq<T>)
    requires r == DropDuplicatesBy(s, key)
    ensures forall i :: 0 <= i < |s| ==> exists k :: 0 <= k < |r| && key(r[k]) == key(s[i])
    decreases |s|
  {
    if s != [] {
      var n := |s| - 1;
      var init := s[..n];
      var r' := DropDuplicatesBy(init, key);
      DropDuplicatesByCoverage(init, key, r');
      assert r == if Duplicated(s, key, n) then r' else r' + [s[n]];
      forall i | 0 <= i < |s|
        ensures exists k :: 0 <= k < |r| && key(r[k]) == key(s[i])
      {
        var i' := i;
        if i == n && Duplicated(s, key, n) {
          i' :| 0 <= i' < n && key(s[i']) == key(s[n]);
        }
        if i' < n {
          assert key(init[i']) == key(s[i]);
          var k :| 0 <= k < |r'| && key(r'[k]) == key(init[i']);
          assert r[k] == r'[k];
        } else {
          assert key(r[|r'|]) == key(s[i]);
        }
      }
    }
  }

  /** The key of item `i` is the key of some kept item. */
  lemma DropDuplicatesByCovers<T, K>(s: seq<T>, key: T -> K, i: nat) returns (k: nat)
    requires i < |s|
    ensures k < |DropDuplicatesBy(s, key)| && key(DropDuplicatesBy(s, key)[k]) == key(s[i])
  {
    var r := DropDuplicatesBy(s, key);
    DropDuplicatesByCoverage(s, key, r);
    k :| 0 <= k < |r| && key(r[k]) == key(s[i]);
  }

  /** Kept items appear in the order of their keys' first positions: an earlier first position means an earlier item. */
  lemma DropDuplicatesByOrder<T, K>(s: seq<T>, key: T -> K, r: seq<T>, a: nat, b: nat)
    requires r == DropDuplicatesBy(s, key) && a < |r| && b < |r|
    ensures FirstIndexOfKey(s, key, key(r[a])) < FirstIndexOfKey(s, key, key(r[b])) ==> a < b
  {
    DropDuplicatesByFirstPositions(s, key, r);
    if b < a {
      assert FirstIndexOfKey(s, key, key(r[b])) < FirstIndexOfKey(s, key, key(r[a]));
    }
  }

  /**
   * Dropping duplicates keeps one item per key (keys pairwise distinct), loses no key,
   * keeps for each key the item at its first position, and lists the keys in order of
   * first appearance; the result is a subsequence of the input.
   */
  lemma DropDuplicatesByProperties<T, K>(s: seq<T>, key: T -> K)
    ensures var r := DropDuplicatesBy(s, key);
      && IsSubsequence(r, s)
      && (forall i, j :: 0 <= i < j < |r| ==> key(r[i]) != key(r[j]))
      && (forall i :: 0 <= i < |s| ==> exists k :: 0 <= k < |r| && key(r[k]) == key(s[i]))
      && (forall k :: 0 <= k < |r| ==>
            FirstIndexOfKey(s, key, key(r[k])) < |s| && r[k] == s[FirstIndexOfKey(s, key, key(r[k]))])
      && (forall i, j :: 0 <= i < j < |r| ==>
            FirstIndexOfKey(s, key, key(r[i])) < FirstIndexOfKey(s, key, key(r[j])))
  {
    DropDuplicatesBySubsequence(s, key);
    DropDuplicatesByFirstPositions(s, key, DropDuplicatesBy(s, key));
    DropDuplicatesByCoverage(s, key, DropDuplicatesBy(s, key));
  }

  /** Python's `s[:n]`, which is also pandas' `head(n)`: a negative `n` drops the last `-n` items. */
  function PyHead<T>(s: seq<T>, n: int): (r: seq<T>)
    ensures |r| <= |s| && r == s[..|r|]
    ensures n >= 0 ==> |r| == Min(n, |s|)
    ensures n < 0 ==> |r| == Max(0, |s| + n)
  {
    if n >= 0 then s[..Min(n, |s|)] else s[..Max(0, |s| + n)]
  }

  /** The consecutive slices of `n` items a list is cut into (the last may be shorter), for a positive `n`. */
  function Chunks<T>(s: seq<T>, n: nat): (chunks: seq<seq<T>>)
    requires n > 0
    ensures chunks == [] <==> s == []
    ensures forall k :: 0 <= k < |chunks| ==> 0 < |chunks[k]| <= n
    decreases |s|
  {
    if s == [] then []
    else if |s| <= n then [s]
    else [s[..n]] + Chunks(s[n..], n)
  }

  /** Applies `f` to each item in turn, collecting the results in order. */
  method MapEach<A, B>(xs: seq<A>, f: A -> B) returns (ys: seq<B>)
    ensures |ys| == |xs|
    ensures forall k :: 0 <= k < |xs| ==> ys[k] == f(xs[k])
  {
    ys := [];
    for q := 0 to |xs|
      invariant |ys| == q
      invariant forall k :: 0 <= k < q ==> ys[k] == f(xs[k])
    {
      ys := ys + [f(xs[q])];
    }
  }

  function Flatten<T>(rows: seq<seq<T>>): seq<T>
    decreases |rows|
  {
    if rows == [] then [] else rows[0] + Flatten(rows[1..])
  }

  /** Past the first chunk, the chunks of `s` are those of what follows it. */
  lemma ChunksStep<T>(s: seq<T>, n: nat)
    requires n > 0 && |s| > n
    ensures Chunks(s, n) == [s[..n]] + Chunks(s[n..], n)
  {
  }

  /** A slice of what follows the first `n` items is the slice of `s` shifted by `n`. */
  lemma SliceOfDrop<T>(s: seq<T>, n: nat, a: nat, b: nat)
    requires n <= |s| && a <= b <= |s| - n
    ensures s[n..][a..b] == s[n + a .. n + b]
  {
  }

  /** Chunk `k` is the slice of `s` that starts at `k * n`; it is never empty and holds at most `n` items. */
  lemma {:induction false} ChunkAt<T>(s: seq<T>, n: nat, k: nat)
    requires n > 0 && k < |Chunks(s, n)|
    ensures k * n < |s|
    ensures Chunks(s, n)[k] == s[k * n .. Min(k * n + n, |s|)]
    ensures 0 < |Chunks(s, n)[k]| <= n
    decreases |s|
  {
    if k == 0 {
      assert k * n == 0;
    } else {
      assert |s| > n;
      var rest := s[n..];
      ChunksStep(s, n);
      ChunkAt(rest, n, k - 1);
      var m := (k - 1) * n;
      var start := k * n;
      assert start == m + n;
      var hi := Min(start + n, |s|);
      assert Min(m + n, |rest|) == hi - n;
      SliceOfDrop(s, n, m, hi - n);
      assert Chunks(s, n)[k] == Chunks(rest, n)[k - 1];
    }
  }

  /** The chunks concatenate back to `s`. */
  lemma {:induction false} ChunksFlatten<T>(s: seq<T>, n: nat)
    requires n > 0
    ensures Flatten(Chunks(s, n)) == s
    decreases |s|
  {
    if |s| > n {
      ChunksFlatten(s[n..], n);
      assert s == s[..n] + s[n..];
    }
  }

  /** A slice starting at a multiple of `n` that lies inside `s` is one of the chunks. */
  lemma {:induction false} ChunkCount<T>(s: seq<T>, n: nat, k: nat)
    requires n > 0 && k * n < |s|
    ensures k < |Chunks(s, n)|
    decreases k
  {
    if k > 0 {
      assert (k - 1) * n + n == k * n;
      ChunkCount(s[n..], n, k - 1);
    }
  }

  /** A prefix of a subsequence is a subsequence. */
  lemma {:induction false} SubsequencePrefix<T>(a: seq<T>, b: seq<T>, k: nat)
    requires IsSubsequence(a, b) && k <= |a|
    ensures IsSubsequence(a[..k], b)
    decreases |a| - k
  {
    if k < |a| {
      SubsequenceDropLast(a, b);
      SubsequencePrefix(a[..|a| - 1], b, k);
      assert a[..|a| - 1][..k] == a[..k];
    } else {
      assert a[..k] == a;
    }
  }
}
